/** The values `minet.utils.nested_get` walks through: decoded JSON
    documents and the parsed `.minetrc` configuration. */
module MinetUtils {

  /** A Python value as found in a decoded JSON or configuration document. */
  datatype Value =
    | VNone
    | VStr(s: string)
    | VInt(i: int)
    | VList(items: seq<Value>)
    | VDict(entries: map<string, Value>)

  /** Python truthiness: `None`, `""`, `0` and empty containers are false. */
  predicate Truthy(v: Value)
  {
    match v
    case VNone => false
    case VStr(s) => s != ""
    case VInt(i) => i != 0
    case VList(xs) => xs != []
    case VDict(m) => m != map[]
  }

  /** `nested_get(path, o, default)`: follow the path through nested
      dictionaries, falling back to the default as soon as a step is
      missing or the value reached is not a dictionary. */
  function NestedGet(path: seq<string>, o: Value, default: Value): (r: Value)
    decreases |path|
  {
    if path == [] then o
    else if o.VDict? && path[0] in o.entries then NestedGet(path[1..], o.entries[path[0]], default)
    else default
  }

  /** The nested dictionary whose only entries lead along `path` to `leaf`. */
  function Nest(path: seq<string>, leaf: Value): Value
    decreases |path|
  {
    if path == [] then leaf else VDict(map[path[0] := Nest(path[1..], leaf)])
  }

  /** A value stored along a path is found along it, whatever the default. */
  lemma {:induction false} NestedGetNest(path: seq<string>, leaf: Value, default: Value)
    ensures NestedGet(path, Nest(path, leaf), default) == leaf
    decreases |path|
  {
    if path != [] {
      NestedGetNest(path[1..], leaf, default);
    }
  }

  /** A lookup either gives the default or a value actually reached in the
      document along the whole path. */
  lemma {:induction false} NestedGetFollows(path: seq<string>, o: Value, default: Value)
    ensures NestedGet(path, o, default) == default || Reaches(o, path, NestedGet(path, o, default))
    decreases |path|
  {
    if path != [] && o.VDict? && path[0] in o.entries {
      NestedGetFollows(path[1..], o.entries[path[0]], default);
    }
  }

  /** Whether `path` leads from `o` through dictionaries to `v`. */
  predicate Reaches(o: Value, path: seq<string>, v: Value)
    decreases |path|
  {
    if path == [] then o == v
    else o.VDict? && path[0] in o.entries && Reaches(o.entries[path[0]], path[1..], v)
  }
}
