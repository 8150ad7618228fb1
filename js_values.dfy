/** The few JavaScript values the collision kernel relies on, stated over exact reals. */
module JsValues {

  /** An optional argument or a property that may be `undefined`. */
  datatype Option<T> = None | Some(value: T)

  /** Number.MAX_VALUE, the largest finite double, as an exact real. It serves as the
      "no overlap seen yet" sentinel and as the starting bound of a projection. */
  const MaxValue: real := 179769313486231570814527423731704356798070567525844996598917476803157260780028538760589558632766878171540458953514382464234321326889464182768467546703537516986049910576551282076245490090389328944075868508455133942304583236903222948165808559332123348274797826204144723168738177180919299881250404026184124858368.0

  /** Math.abs */
  function Abs(v: real): (r: real)
    ensures 0.0 <= r && (r == v || r == -v)
  {
    if v < 0.0 then -v else v
  }

  function Min(u: real, v: real): (r: real)
    ensures r <= u && r <= v && (r == u || r == v)
  {
    if u < v then u else v
  }

  function Max(u: real, v: real): (r: real)
    ensures u <= r && v <= r && (r == u || r == v)
  {
    if u < v then v else u
  }
}
