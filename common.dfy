/** Failure-carrying results shared by the validators, the metrics store and the
    health monitor. A Python `raise SecurityError(...)` becomes a `Failure`, a
    `dict.get` that finds nothing becomes `None`. */
module Common {

  datatype Option<+T> = None | Some(value: T)

  datatype Result<+T, +E> = Success(value: T) | Failure(error: E)

  /** Sum of a sequence of reals, folded from the right end (the order in
      which values are appended by the callers). */
  function Sum(xs: seq<real>): real
  {
    if xs == [] then 0.0 else Sum(xs[..|xs| - 1]) + xs[|xs| - 1]
  }

  /** Number of entries of `xs` that are at most `bound`. */
  function CountAtMost(xs: seq<real>, bound: real): nat
  {
    if xs == [] then 0
    else CountAtMost(xs[..|xs| - 1], bound) + (if xs[|xs| - 1] <= bound then 1 else 0)
  }

  /** Raising the bound never lowers the count, and the count never exceeds the
      length, whatever the values are. */
  lemma {:induction false} CountAtMostMonotone(xs: seq<real>, a: real, b: real)
    requires a <= b
    ensures CountAtMost(xs, a) <= CountAtMost(xs, b) <= |xs|
  {
    if xs != [] {
      CountAtMostMonotone(xs[..|xs| - 1], a, b);
    }
  }
}
