/**
 * Path weights: a non-negative travel time or distance, or the infinity that
 * marks a pair with no known connection. Python uses IEEE floats with
 * `float('inf')`; here a weight is an exact real or `Inf`.
 */
module Weights {

  datatype W = Fin(r: real) | Inf

  /** Addition as the float `+` behaves on these values: anything plus infinity is infinity. */
  function Add(a: W, b: W): (s: W)
    ensures s.Inf? <==> a.Inf? || b.Inf?
    ensures s.Fin? ==> s.r == a.r + b.r
  {
    if a.Inf? || b.Inf? then Inf else Fin(a.r + b.r)
  }

  /**
   * The strict float comparison `a < b`: finite weights compare as reals, a
   * finite weight is below infinity, and infinity is below nothing, not even
   * itself.
   */
  predicate Less(a: W, b: W): (lt: bool)
    ensures a.Fin? && b.Fin? ==> (lt <==> a.r < b.r)
    ensures a.Fin? && b.Inf? ==> lt
    ensures a.Inf? ==> !lt
  {
    match a
    case Inf => false
    case Fin(x) => b.Inf? || x < b.r
  }

  /** `a <= b`, the negation of `b < a`. */
  predicate Le(a: W, b: W) {
    !Less(b, a)
  }

  /** The weight a validated field may carry: not below zero. */
  predicate NonNeg(a: W) {
    a.Inf? || a.r >= 0.0
  }

  const Zero: W := Fin(0.0)

  lemma AddCommutes(a: W, b: W)
    ensures Add(a, b) == Add(b, a)
  {
  }

  lemma AddAssociates(a: W, b: W, c: W)
    ensures Add(Add(a, b), c) == Add(a, Add(b, c))
  {
  }

  /** `<` is a strict total order on weights. */
  lemma LessIsStrictOrder(a: W, b: W, c: W)
    ensures !Less(a, a)
    ensures Less(a, b) ==> !Less(b, a)
    ensures Less(a, b) && Less(b, c) ==> Less(a, c)
    ensures Less(a, b) || Less(b, a) || a == b
  {
  }

  /** `<=` is transitive. */
  lemma LeTransitive(a: W, b: W, c: W)
    requires Le(a, b) && Le(b, c)
    ensures Le(a, c)
  {
    LessIsStrictOrder(c, b, a);
    LessIsStrictOrder(a, b, c);
  }

  /** Two weights that each lie at or below the other are equal. */
  lemma LeAntisymmetric(a: W, b: W)
    requires Le(a, b) && Le(b, a)
    ensures a == b
  {
    LessIsStrictOrder(a, b, a);
  }
}
