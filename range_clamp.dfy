/**
 * The optional-bounds clamp (Pool/RangeClamp.hpp), used by the camera for
 * its pitch and zoom limits. The template parameter is a real here.
 */
module RangeClamps {

  /**
   * `clamp`: first raise a value below a set minimum to it, then lower a
   * value above a set maximum to it. The maximum is checked last, so it
   * wins when the bounds are inverted.
   */
  function Clamped(minSet: bool, min: real, maxSet: bool, max: real, f: real): (r: real)
    ensures maxSet ==> r <= max
    ensures minSet && (!maxSet || min <= max) ==> r >= min
    ensures (!minSet || f >= min) && (!maxSet || f <= max) ==> r == f
    ensures r == f || (minSet && r == min) || (maxSet && r == max)
  {
    var raised := if minSet && f < min then min else f;
    if maxSet && raised > max then max else raised
  }

  /** With neither bound set the clamp is the identity. */
  lemma UnboundedIsIdentity(min: real, max: real, f: real)
    ensures Clamped(false, min, false, max, f) == f
  {
  }

  /** Clamping a clamped value changes nothing. */
  lemma ClampIdempotent(minSet: bool, min: real, maxSet: bool, max: real, f: real)
    ensures var once := Clamped(minSet, min, maxSet, max, f);
            Clamped(minSet, min, maxSet, max, once) == once
  {
  }

  /** With both bounds set and the minimum above the maximum, every value ends at the maximum. */
  lemma InvertedBoundsGiveMax(min: real, max: real, f: real)
    requires min > max
    ensures Clamped(true, min, true, max, f) == max
  {
  }

  /** The clamp is monotonic: it never reorders two values. */
  lemma ClampMonotonic(minSet: bool, min: real, maxSet: bool, max: real, f: real, g: real)
    requires f <= g
    ensures Clamped(minSet, min, maxSet, max, f) <= Clamped(minSet, min, maxSet, max, g)
  {
  }

  class RangeClamp {
    var isMinClamped: bool
    var isMaxClamped: bool
    var min: real
    var max: real

    /** Both bounds unset; the bound values are left at 0, where the source leaves them uninitialised. */
    constructor ()
      ensures !isMinClamped && !isMaxClamped
    {
      isMinClamped := false;
      isMaxClamped := false;
      min := 0.0;
      max := 0.0;
    }

    /** Both bounds set to the given values. */
    constructor WithRange(min: real, max: real)
      ensures isMinClamped && isMaxClamped && this.min == min && this.max == max
    {
      isMinClamped := true;
      this.min := min;
      isMaxClamped := true;
      this.max := max;
    }

    /** `clamp(f)`: the two in-place steps on the argument; the clamped value is returned. */
    method Clamp(f: real) returns (g: real)
      ensures g == Clamped(isMinClamped, min, isMaxClamped, max, f)
    {
      g := f;
      if isMinClamped && g < min {
        g := min;
      }
      if isMaxClamped && g > max {
        g := max;
      }
    }

    method SetMin(m: real)
      modifies this
      ensures isMinClamped && min == m
      ensures isMaxClamped == old(isMaxClamped) && max == old(max)
    {
      isMinClamped := true;
      min := m;
    }

    method SetMax(m: real)
      modifies this
      ensures isMaxClamped && max == m
      ensures isMinClamped == old(isMinClamped) && min == old(min)
    {
      isMaxClamped := true;
      max := m;
    }

    /** Disables the minimum; its value is kept. */
    method UnsetMin()
      modifies this
      ensures !isMinClamped && min == old(min)
      ensures isMaxClamped == old(isMaxClamped) && max == old(max)
    {
      isMinClamped := false;
    }

    /** Disables the maximum; its value is kept. */
    method UnsetMax()
      modifies this
      ensures !isMaxClamped && max == old(max)
      ensures isMinClamped == old(isMinClamped) && min == old(min)
    {
      isMaxClamped := false;
    }
  }
}
