/** The JavaScript values that cross the Neon boundary, as a tagged union.
    Rust strings are UTF-8, so a `JsString` carries the bytes of its value. */
module Host {

  import opened Text

  datatype HostValue =
    | JsUndefined
    | JsNull
    | JsBoolean(flag: bool)
    | JsNumber(number: real)
    | JsString(text: seq<byte>)
    | JsArray(elements: seq<HostValue>)
    | JsObject
}
