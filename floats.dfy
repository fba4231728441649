/**
 * Epsilon-aware comparisons (Pool/floats.cpp). Every sign or zero test on a
 * velocity magnitude or a ray parameter goes through these.
 */
module Floats {

  /** ggEpsilon. */
  const Epsilon: real := 0.0000001

  function Abs(f: real): (r: real)
    ensures r >= 0.0 && (r == f || r == -f)
  {
    if f < 0.0 then -f else f
  }

  /** `isZero`: within epsilon of zero, both bounds inclusive. */
  predicate IsZero(f: real)
    ensures IsZero(f) <==> -Epsilon <= f <= Epsilon
  {
    Abs(f) <= Epsilon
  }

  /** `isPos`: positive and not within epsilon of zero. */
  predicate IsPos(f: real)
    ensures IsPos(f) <==> f > Epsilon
  {
    !IsZero(f) && f > 0.0
  }

  /** `isNeg`: negative and not within epsilon of zero. */
  predicate IsNeg(f: real)
    ensures IsNeg(f) <==> f < -Epsilon
  {
    !IsZero(f) && f < 0.0
  }

  /** `isEq`: the difference is within epsilon of zero. */
  predicate IsEq(a: real, b: real)
    ensures IsEq(a, b) <==> a - Epsilon <= b <= a + Epsilon
  {
    IsZero(a - b)
  }

  /** Every value is exactly one of zero, positive or negative. */
  lemma SignTrichotomy(f: real)
    ensures IsZero(f) || IsPos(f) || IsNeg(f)
    ensures !(IsPos(f) && IsNeg(f))
    ensures IsZero(f) ==> !IsPos(f) && !IsNeg(f)
  {
  }

  /** Approximate equality is reflexive and symmetric. */
  lemma IsEqReflexiveSymmetric(a: real, b: real)
    ensures IsEq(a, a)
    ensures IsEq(a, b) <==> IsEq(b, a)
  {
  }

  /** Negative means the negation is positive. */
  lemma IsNegIsPosOfNegation(f: real)
    ensures IsNeg(f) <==> IsPos(-f)
  {
  }
}
