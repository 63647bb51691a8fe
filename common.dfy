/** Values shared by every handler: optional request fields and HTTP replies. */
module Common {

  /** A request-body field or a column that may be absent (`undefined` or SQL NULL). */
  datatype Option<+T> = None | Some(value: T)

  /** The reply a handler sends: 200 with a JSON body, or an error status. */
  datatype Reply<+T> = Ok(body: T) | Fail(status: nat)

  /** JavaScript truthiness of an optional string: `undefined`, `null` and `""` are falsy. */
  predicate Truthy(s: Option<string>)
  {
    s.Some? && s.value != ""
  }

  /** JavaScript truthiness of an optional number: `undefined`, `null` and `0` are falsy. */
  predicate TruthyId(x: Option<int>)
  {
    x.Some? && x.value != 0
  }

  /**
   * `a || b` on optional strings: a truthy operand always wins, the result is one of the two
   * operands, and it is truthy whenever either operand is.
   */
  function OrElse(a: Option<string>, default: string): (r: string)
    ensures Truthy(a) ==> Some(r) == a
    ensures r == default || Some(r) == a
    ensures r == "" <==> !Truthy(a) && default == ""
  {
    if Truthy(a) then a.value else default
  }
}
