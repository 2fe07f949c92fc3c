/** The JSON / YAML values the converters handle, as the parsers hand them
    over: `None`, booleans, integers, strings, other scalars (floats, dates, ...)
    whose `str()` form and truthiness are given, lists and mappings.  A mapping
    key is kept in its `str()` form. */
module Values {
  import opened Wrappers
  import opened Text

  datatype Value =
    | Null
    | Bool(b: bool)
    | Int(i: int)
    | Str(s: string)
    | Other(text: string, truthy: bool)
    | List(items: seq<Value>)
    | Object(members: seq<Member>)

  datatype Member = Member(key: string, value: Value)

  /** Python's `bool(v)`. */
  predicate Truthy(v: Value) {
    match v
    case Null => false
    case Bool(b) => b
    case Int(i) => i != 0
    case Str(s) => s != ""
    case Other(_, t) => t
    case List(items) => items != []
    case Object(members) => members != []
  }

  /** A value that is neither a list nor a mapping. */
  predicate IsScalar(v: Value) {
    !v.List? && !v.Object?
  }

  /** Python's `str(v)` for a scalar; a container gives the empty string. */
  function PyStr(v: Value): string
  {
    match v
    case Null => "None"
    case Bool(b) => if b then "True" else "False"
    case Int(i) => IntToString(i)
    case Str(s) => s
    case Other(text, _) => text
    case List(_) => ""
    case Object(_) => ""
  }

  /** `d.get(k)` on a mapping's members: the first member with that key. */
  function Lookup(members: seq<Member>, k: string): (r: Option<Value>)
    ensures r.None? <==> forall i :: 0 <= i < |members| ==> members[i].key != k
    ensures r.Some? ==> exists i :: 0 <= i < |members| && members[i] == Member(k, r.value)
  {
    if members == [] then None
    else if members[0].key == k then Some(members[0].value)
    else
      var r := Lookup(members[1..], k);
      assert forall i :: 1 <= i < |members| ==> members[i] == members[1..][i - 1];
      r
  }
}
