/** Values of a decoded JSON request body, and the parts of JavaScript's
    `Number(...)` and `typeof` that the ride service relies on. */
module Json {

  /** One key of a decoded JSON body. `Missing` is a key the body does not
      have, which JavaScript reads as `undefined`. */
  datatype Value =
    | JNumber(n: real)
    | JString(s: string)
    | JBool(b: bool)
    | JNull
    | JArray(items: seq<Value>)
    | JObject
    | Missing

  /** The result of `Number(...)`: a number or NaN. Finite precision,
      infinities and negative zero are not modelled. */
  datatype Num = NaN | Val(r: real)

  /** JavaScript's `x < bound` for a constant bound: false when `x` is NaN. */
  predicate Less(x: Num, bound: real) {
    x.Val? && x.r < bound
  }

  /** JavaScript's `x > bound` for a constant bound: false when `x` is NaN. */
  predicate Greater(x: Num, bound: real) {
    x.Val? && x.r > bound
  }

  /** What `Number(v)` is known to give without parsing text: a number
      stays itself, booleans give 1 and 0, `null`, the empty string and the
      empty array give 0, and `undefined` gives NaN. Any other string or
      array goes through text parsing, and an object goes through its own
      `valueOf`/`toString` keys, so these may give anything. */
  predicate NumberAgrees(v: Value, x: Num): (ok: bool)
    ensures v.JNumber? ==> (ok <==> x == Val(v.n))
    ensures v == JBool(true) ==> (ok <==> x == Val(1.0))
    ensures v in {JBool(false), JNull, JString([]), JArray([])} ==> (ok <==> x == Val(0.0))
    ensures v == Missing ==> (ok <==> x == NaN)
    ensures (v.JString? && v.s != []) || (v.JArray? && v.items != []) || v.JObject? ==> ok
  {
    match v
    case JNumber(n) => x == Val(n)
    case JBool(b) => x == Val(if b then 1.0 else 0.0)
    case JNull => x == Val(0.0)
    case JString(s) => s == [] ==> x == Val(0.0)
    case JArray(items) => items == [] ==> x == Val(0.0)
    case JObject => true
    case Missing => x == NaN
  }

  /** The outcome of `typeof v === 'string'` together with the string. */
  datatype Text = Str(s: string) | NotStr

  function TextOf(v: Value): Text {
    if v.JString? then Str(v.s) else NotStr
  }
}
