/**
 Priority keys. Prim inserts `math.inf` next to integer edge weights, so a key is an
 extended integer; `Less` is Python's `<` on `int` and `float('inf')`.
 */
module Priorities {

  datatype Key = Fin(n: int) | Inf

  /** Python's strict `<` on an int-or-infinity key. */
  predicate Less(a: Key, b: Key) {
    match a
    case Inf => false
    case Fin(x) => b.Inf? || x < b.n
  }

  /** `a <= b`, i.e. `not (b < a)`. */
  predicate Le(a: Key, b: Key) {
    !Less(b, a)
  }

  /** `Less` is a strict total order: exactly one of `a < b`, `b < a`, `a == b`. */
  lemma LessIsStrictTotalOrder(a: Key, b: Key, c: Key)
    ensures !Less(a, a)
    ensures Less(a, b) && Less(b, c) ==> Less(a, c)
    ensures a != b ==> Less(a, b) || Less(b, a)
    ensures Less(a, b) ==> !Less(b, a)
    ensures !Less(Inf, a) && (a.Fin? ==> Less(a, Inf))
  {
  }
}
