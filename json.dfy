/**
 * JSON values as the core sees them (`serde_json::Value`, numbers restricted
 * to integers) and the text codec they are read from and written to.
 */
module Json {
  import opened Wrappers

  datatype Value =
    | Null
    | Bool(b: bool)
    | Num(n: int)
    | Str(str: string)
    | Arr(arr: seq<Value>)
    | Obj(obj: map<string, Value>)

  /**
   * JSON text parsing (`serde_json::from_str`, `None` when the text is not
   * JSON) and serialisation (`Value::to_string`). Both are collaborators
   * whose algorithms are not part of this model.
   */
  datatype Codec = Codec(parse: string -> Option<Value>, serialize: Value -> string)

  /**
   * The hypothesis that the codec round-trips: serialised text parses back
   * to the same value. It is assumed about the codec wherever it is used,
   * not a property the JSON library is shown to have.
   */
  ghost predicate Lossless(codec: Codec)
  {
    forall v :: codec.parse(codec.serialize(v)) == Some(v)
  }

  /** `to_value`: parse text that is known to be JSON (the source unwraps the result). */
  function ToValue(codec: Codec, s: string): (v: Value)
    requires codec.parse(s).Some?
    ensures codec.parse(s) == Some(v)
  {
    codec.parse(s).value
  }

  /** Under a lossless codec, reading back what was written gives the written value. */
  lemma ToValueOfSerialized(codec: Codec, v: Value)
    requires Lossless(codec)
    ensures codec.parse(codec.serialize(v)).Some?
    ensures ToValue(codec, codec.serialize(v)) == v
  {
  }
}
