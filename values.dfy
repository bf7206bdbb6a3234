/**
  Configuration values: the trees a YAML document parses to, and descent
  along a key path.
*/
module Values {
  import opened Wrappers

  /** A parsed YAML node. Mappings have string keys. */
  datatype Value =
    | Null
    | Bool(b: bool)
    | Int(i: int)
    | Str(s: string)
    | List(items: seq<Value>)
    | Map(entries: map<string, Value>)

  /** A mapping from top-level keys to values: the root of the configuration. */
  type Mapping = map<string, Value>

  /** The values Python's truth test treats as false. */
  const Falsy: set<Value> := {Null, Bool(false), Int(0), Str(""), List([]), Map(map[])}

  /** Python truthiness, decided by the kind of node: a value is truthy exactly when it is not one of `Falsy`. */
  function Truthy(v: Value): (r: bool)
    ensures r <==> v !in Falsy
  {
    match v
    case Null => false
    case Bool(b) => b
    case Int(i) => i != 0
    case Str(s) => s != []
    case List(items) => items != []
    case Map(entries) => entries != map[]
  }

  /** The value reached from `v` by following `path` through mappings, if any. */
  function At(v: Value, path: seq<string>): Option<Value>
    decreases |path|
  {
    if path == [] then Some(v)
    else if v.Map? && path[0] in v.entries then At(v.entries[path[0]], path[1..])
    else None
  }

  /** The value at `path` in the configuration `cfg` (the empty path is the root itself). */
  function Get(cfg: Mapping, path: seq<string>): Option<Value>
  {
    At(Map(cfg), path)
  }

  /** Neither path is a prefix of the other: they part ways at some segment. */
  predicate Diverge(p: seq<string>, q: seq<string>)
  {
    !(p <= q) && !(q <= p)
  }

  /** The entry is absent or is a mapping, so a walk can pass through it. */
  predicate PassableAt(o: Option<Value>)
  {
    o.None? || o.value.Map?
  }
}
