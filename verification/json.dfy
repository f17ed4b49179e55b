/** The tree `JSONSerialization.jsonObject(with:)` yields: dictionaries,
    arrays, strings, numbers, booleans and null. Byte-level decoding is not
    modelled; the service code only inspects the tree. */
module Json {
  import opened Wrappers

  datatype Json =
    | Null
    | Boolean(b: bool)
    | Number(n: real)
    | Str(s: string)
    | Array(items: seq<Json>)
    | Object(members: map<string, Json>)

  /** One step into a tree: a dictionary key or an array position. */
  datatype Step = Key(name: string) | Index(position: nat)

  /** The value reached by following `path` from `v`, if every step finds a
      dictionary with that key or an array with that position. */
  function At(v: Json, path: seq<Step>): Option<Json>
    decreases |path|
  {
    if |path| == 0 then Some(v)
    else
      match path[0]
      case Key(k) =>
        if v.Object? && k in v.members then At(v.members[k], path[1..]) else None
      case Index(i) =>
        if v.Array? && i < |v.items| then At(v.items[i], path[1..]) else None
  }

  /** Swift's `as? [[String: Any]]` on an array succeeds only when every
      element is a dictionary. */
  predicate AllObjects(items: seq<Json>)
  {
    forall i :: 0 <= i < |items| ==> items[i].Object?
  }
}
