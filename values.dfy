/** The JavaScript notions the converter relies on when it reads a parsed document. */
module JsValues {

  /** A property that may be absent from a parsed JSON object. */
  datatype Option<+T> = None | Some(value: T)

  /**
   * A string-valued property is truthy when it is present and not the empty string:
   * the only falsy ones are an absent property and "".
   */
  predicate Truthy(x: Option<string>)
    ensures Truthy(x) <==> x != None && x != Some("")
  {
    x.Some? && x.value != ""
  }

  /** The expression `x || fallback` for an optional string `x`. */
  function OrElse(x: Option<string>, fallback: string): (r: string)
    ensures x == None || x == Some("") ==> r == fallback
    ensures x != None && x != Some("") ==> r == x.value
    ensures fallback != "" ==> r != ""
  {
    if Truthy(x) then x.value else fallback
  }
}
