/** Python values as the tool sees them: decoded YAML front matter and the
    values placed in a template context. */
module Values {

  datatype Value =
    | Null
    | Bool(b: bool)
    | Int(i: int)
    | Str(s: string)
    | List(items: seq<Value>)
    | Dict(entries: map<string, Value>)
      /** Any other scalar (a float, a timestamp), by its Python type name and truthiness. */
    | Other(typeName: string, truthy: bool)

  /** Python truthiness: `None`, `False`, `0`, `''`, `[]` and `{}` are false. */
  predicate Truthy(v: Value) {
    match v
    case Null => false
    case Bool(b) => b
    case Int(i) => i != 0
    case Str(s) => s != ""
    case List(items) => items != []
    case Dict(entries) => entries != map[]
    case Other(_, t) => t
  }

  /** `type(v).__name__`, as it appears in an `AttributeError` message. */
  function TypeName(v: Value): string {
    match v
    case Null => "NoneType"
    case Bool(_) => "bool"
    case Int(_) => "int"
    case Str(_) => "str"
    case List(_) => "list"
    case Dict(_) => "dict"
    case Other(t, _) => t
  }
}

/** What every command shares: the configuration, the effects a command has on the
    file system, and how a Python call ends (a return, an exception, or `sys.exit`). */
module Journal {
  import opened Values

  datatype Option<+T> = None | Some(value: T)

  /** The loaded configuration: the publishing tree's root, the current author, the
      `templates` table in its insertion order (extension or `daily_log` to template
      path), and the directory of the installed command modules. */
  datatype Config = Config(
    journalPath: string,
    username: string,
    templates: seq<(string, string)>,
    packageDir: string)

  /** `config['templates'].get(key)`. */
  function TemplateFor(cfg: Config, key: string): (r: Option<string>)
    ensures r.Some? <==> exists i :: 0 <= i < |cfg.templates| && cfg.templates[i].0 == key
    ensures r.Some? ==> exists i :: 0 <= i < |cfg.templates| && cfg.templates[i] == (key, r.value)
  {
    Lookup(cfg.templates, key)
  }

  function Lookup(table: seq<(string, string)>, key: string): (r: Option<string>)
    ensures r.Some? <==> exists i :: 0 <= i < |table| && table[i].0 == key
    ensures r.Some? ==> exists i :: 0 <= i < |table| && table[i] == (key, r.value)
    decreases |table|
  {
    if table == [] then None
    else if table[0].0 == key then Some(table[0].1)
    else
      var r := Lookup(table[1..], key);
      assert forall i :: 0 < i < |table| ==> table[i] == table[1..][i - 1];
      r
  }

  /** A raised exception: its class name and `str(e)`. */
  datatype Exc = Exc(kind: string, message: string)

  datatype Outcome<+T> =
    | Returned(value: T)
    | Raised(error: Exc)
      /** `sys.exit(status)`: `SystemExit` is not an `Exception`, so no `except Exception`
          handler catches it. */
    | Exited(status: int)

  /** One change to the file system. `WriteText` opens for writing (truncating) and
      writes; `AppendText` writes more to the file the previous `WriteText` opened. */
  datatype Effect =
    | MakeDirs(dir: string)
    | WriteText(path: string, text: string)
    | AppendText(path: string, text: string)
    | WriteBytes(path: string, data: seq<bv8>)
    | CopyFile(source: string, target: string)

  /** The file an effect creates or changes, if any. */
  function Target(e: Effect): Option<string> {
    match e
    case MakeDirs(_) => None
    case WriteText(p, _) => Some(p)
    case AppendText(p, _) => Some(p)
    case WriteBytes(p, _) => Some(p)
    case CopyFile(_, t) => Some(t)
  }

  /** No effect in `effects` creates or changes a file. */
  predicate WritesNoFile(effects: seq<Effect>) {
    forall i :: 0 <= i < |effects| ==> Target(effects[i]).None?
  }

  /** Each item's two effects, item by item: the first effect of item `k` is at `2 * k`
      and its second right after. */
  function Pairs(items: seq<(Effect, Effect)>): (r: seq<Effect>)
    ensures |r| == 2 * |items|
    ensures forall k :: 0 <= k < |items| ==> r[2 * k] == items[k].0 && r[2 * k + 1] == items[k].1
    decreases |items|
  {
    if items == [] then []
    else
      var rest := Pairs(items[1..]);
      assert forall k :: 1 <= k < |items| ==> items[k] == items[1..][k - 1];
      var r := [items[0].0, items[0].1] + rest;
      forall k | 1 <= k < |items| ensures r[2 * k] == items[k].0 && r[2 * k + 1] == items[k].1 {
        assert r[2 * k] == rest[2 * (k - 1)] && r[2 * k + 1] == rest[2 * (k - 1) + 1];
      }
      r
  }

  /** A property every effect of every item has, every effect of the pairs has. */
  lemma {:induction false} PairsKeep(items: seq<(Effect, Effect)>, p: Effect -> bool)
    requires forall k :: 0 <= k < |items| ==> p(items[k].0) && p(items[k].1)
    ensures forall i :: 0 <= i < |Pairs(items)| ==> p(Pairs(items)[i])
    decreases |items|
  {
    if items != [] {
      assert forall k :: 1 <= k < |items| ==> items[k] == items[1..][k - 1];
      PairsKeep(items[1..], p);
      var rest := Pairs(items[1..]);
      assert Pairs(items) == [items[0].0, items[0].1] + rest;
      forall i | 2 <= i < |Pairs(items)| ensures p(Pairs(items)[i]) {
        assert Pairs(items)[i] == rest[i - 2];
      }
    }
  }

  /** How a call into a library ends: it returns a value or raises. */
  datatype Result<+T> = Ok(value: T) | Error(error: Exc)

  /** `parse_template(path, context)`: renders the Jinja template at `path`. */
  type Renderer = (string, map<string, Value>) -> Result<string>

  /** The effects a call had before it ended, and how it ended. */
  datatype Run<+T> = Run(effects: seq<Effect>, outcome: Outcome<T>)
}
