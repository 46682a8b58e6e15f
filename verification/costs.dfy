/**
  Costs with an explicit infinity.

  Both graph programs use INT_MAX as "no edge" / "not reached". Here that
  sentinel becomes its own constructor, so that adding a finite weight to it
  can never overflow into a finite value.
 */
module Costs {

  datatype Cost = Inf | Fin(v: int)

  /** Strict order: every finite cost is below Inf, and Inf is below nothing. */
  predicate Lt(a: Cost, b: Cost) {
    match (a, b)
    case (Fin(x), Fin(y)) => x < y
    case (Fin(_), Inf) => true
    case (Inf, _) => false
  }

  predicate Le(a: Cost, b: Cost) {
    !Lt(b, a)
  }

  /** Adding a weight: Inf absorbs it. */
  function Add(a: Cost, w: int): (r: Cost)
    ensures r.Inf? <==> a.Inf?
    ensures a.Fin? ==> r.v - a.v == w
  {
    match a
    case Inf => Inf
    case Fin(x) => Fin(x + w)
  }

  /** Sum of two costs: infinite as soon as one side is. */
  function Plus(a: Cost, b: Cost): (r: Cost)
    ensures r.Fin? <==> a.Fin? && b.Fin?
    ensures r.Fin? ==> r.v - a.v == b.v
  {
    if a.Fin? && b.Fin? then Fin(a.v + b.v) else Inf
  }

  /** Subtracting from a cell: infinite cells are left alone. */
  function Sub(a: Cost, r: int): (c: Cost)
    ensures c.Inf? <==> a.Inf?
    ensures a.Fin? ==> a.v - c.v == r
  {
    match a
    case Inf => Inf
    case Fin(x) => Fin(x - r)
  }

  /** The smaller of two costs; on a tie the first. */
  function Min(a: Cost, b: Cost): (r: Cost)
    ensures Le(r, a) && Le(r, b)
    ensures r == a || r == b
  {
    if Lt(b, a) then b else a
  }

  /** A finite cost's value, and 0 for Inf (an all-infinite line contributes nothing). */
  function ValueOrZero(c: Cost): int {
    if c.Fin? then c.v else 0
  }

  lemma LeTransitive(a: Cost, b: Cost, c: Cost)
    requires Le(a, b) && Le(b, c)
    ensures Le(a, c)
  {
  }
}
