/** The parsed JSON value the converter walks (the json crate's `JsonValue`),
    with the two accessors of that crate the converter relies on. */
module Json {

  /** One JSON value. Object entries keep their order, which is the order
      `entries()` visits them in. The crate's two string representations
      (short and heap strings) are one case here. */
  datatype Value =
    | Null
    | Bool(b: bool)
    | Number(n: real)
    | Str(s: string)
    | Array(items: seq<Value>)
    | Object(entries: seq<(string, Value)>)

  /** A leaf for flattening purposes: neither an array nor an object. */
  predicate IsScalar(v: Value)
  {
    !v.Array? && !v.Object?
  }

  /** `v[i]` with an integer index, as the json crate defines it: element `i`
      of an array when it exists, and `null` in every other case, objects
      included. */
  function IndexAt(v: Value, i: nat): Value
  {
    if v.Array? && i < |v.items| then v.items[i] else Null
  }
}
