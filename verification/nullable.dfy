/** SQL NULL as an explicit optional value, and the null-propagating
    arithmetic the three reports use. A NULL is never coerced to zero. */
module Nullable {

  /** A nullable value: `None` is SQL NULL. */
  datatype Option<+T> = None | Some(value: T)

  /** `k * y` for a non-NULL `k`: NULL if `y` is NULL. */
  function Scale(k: real, y: Option<real>): (r: Option<real>)
    ensures r.Some? <==> y.Some?
    ensures r.Some? ==> r.value == k * y.value
  {
    if y.Some? then Some(k * y.value) else None
  }

  /** `x - y`: NULL if either operand is NULL. */
  function Sub(x: Option<real>, y: Option<real>): (r: Option<real>)
    ensures r.Some? <==> x.Some? && y.Some?
    ensures r.Some? ==> r.value == x.value - y.value
  {
    if x.Some? && y.Some? then Some(x.value - y.value) else None
  }

  /** `x / NULLIF(y, 0)`: NULL if either operand is NULL or the divisor is
      zero; otherwise the exact quotient. */
  function Div(x: Option<real>, y: Option<real>): (r: Option<real>)
    ensures r.Some? <==> x.Some? && y.Some? && y.value != 0.0
    ensures r.Some? ==> r.value * y.value == x.value
  {
    if x.Some? && y.Some? && y.value != 0.0 then Some(x.value / y.value) else None
  }
}
