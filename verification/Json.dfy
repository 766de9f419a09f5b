/** JSON values, and the text conversions the program leaves to its libraries. */
module Json {
  import opened Wrappers

  /** serde_json keeps whole 64-bit numbers apart from floating-point ones. */
  datatype Number = Int(whole: int) | Float(value: real)

  datatype Value =
    | Null
    | Bool(truth: bool)
    | Num(number: Number)
    | Str(text: string)
    | Array(items: seq<Value>)
    | Object(fields: map<string, Value>)

  /** The JSON printer and parser, and the conversions between numbers and text. */
  datatype Codec = Codec(
    show: Value -> string,
    parse: string -> Option<Value>,
    showNumber: Number -> string,
    parseFloat: string -> Option<real>)

  /** Parsing the printed value gives it back. */
  predicate ReadsBack(codec: Codec, v: Value)
  {
    codec.parse(codec.show(v)) == Some(v)
  }
}
