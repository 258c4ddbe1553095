/** Code/src/core/Interval.cpp: the closed range [a, b] over which a 1-D integral is taken. */
module Intervals {
  import opened Errors

  datatype Bounds = Bounds(a: real, b: real)

  /** An `Interval` is a pair of endpoints that passed the constructor's check b > a.
      The fields `a` and `b` are the accessors `a()` and `b()`. */
  type Interval = i: Bounds | i.a < i.b witness Bounds(0.0, 1.0)

  const IntervalMessage := "Interval error: b must be strictly greater than a"

  /** The constructor `Interval(a, b)`: it throws exactly when b <= a, so equal endpoints are
      rejected too; otherwise the accessors give back the arguments unchanged. */
  function New(a: real, b: real): (r: Result<Interval>)
    ensures r.Err? <==> b <= a
    ensures r.Err? ==> r.error == InvalidArgument(IntervalMessage)
    ensures r.Ok? ==> r.value.a == a && r.value.b == b
  {
    if b <= a then Err(InvalidArgument(IntervalMessage)) else Ok(Bounds(a, b))
  }

  /** `length()`: strictly positive for every constructed interval, and it spans a to b. */
  function Length(i: Interval): (len: real)
    ensures len > 0.0
    ensures i.a + len == i.b
  {
    i.b - i.a
  }
}
