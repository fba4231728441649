/**
 * The saturating countdown timer (Pool/CountdownTimer.cpp), used as each
 * ball's per-object collision cooldown. The timer's value semantics, `Ticked`
 * and `Active`, are defined once here and shared by the class and by the
 * balls' cooldown maps, which hold timers by value.
 */
module CountdownTimers {

  /** The remaining time after `tick(dt)`: decrement, then clamp a negative result to 0. */
  function Ticked(time: real, dt: real): (r: real)
    ensures r >= 0.0 && r >= time - dt
    ensures r == 0.0 || r == time - dt
  {
    if time - dt < 0.0 then 0.0 else time - dt
  }

  /** `isTicking`: strictly positive remaining time. */
  predicate Active(time: real) {
    time > 0.0
  }

  /** Ticking a stopped timer by a non-negative step keeps it at zero. */
  lemma TickAtZeroStaysZero(dt: real)
    requires dt >= 0.0
    ensures Ticked(0.0, dt) == 0.0
  {
  }

  /** Ticking by at least the remaining time deactivates the timer. */
  lemma TickPastRemainingDeactivates(time: real, dt: real)
    requires dt >= time
    ensures Ticked(time, dt) == 0.0 && !Active(Ticked(time, dt))
  {
  }

  /** The remaining time after ticking through a sequence of frame times. */
  function TickedThrough(time: real, dts: seq<real>): real
    decreases |dts|
  {
    if dts == [] then time else TickedThrough(Ticked(time, dts[0]), dts[1..])
  }

  function Sum(dts: seq<real>): real
    decreases |dts|
  {
    if dts == [] then 0.0 else dts[0] + Sum(dts[1..])
  }

  lemma {:induction false} SumNonNegative(dts: seq<real>)
    requires forall k :: 0 <= k < |dts| ==> dts[k] >= 0.0
    ensures Sum(dts) >= 0.0
    decreases |dts|
  {
    if dts != [] {
      var rest := dts[1..];
      assert forall k :: 0 <= k < |rest| ==> rest[k] >= 0.0 by {
        forall k | 0 <= k < |rest| ensures rest[k] >= 0.0 { assert rest[k] == dts[k + 1]; }
      }
      SumNonNegative(rest);
    }
  }

  /**
   * A cooldown expires: after non-negative ticks totalling at least the time
   * that was set, the timer has stopped.
   */
  lemma {:induction false} CooldownExpires(time: real, dts: seq<real>)
    requires time >= 0.0
    requires forall k :: 0 <= k < |dts| ==> dts[k] >= 0.0
    requires Sum(dts) >= time
    ensures TickedThrough(time, dts) == 0.0
    decreases |dts|
  {
    if dts != [] {
      var rest := dts[1..];
      assert forall k :: 0 <= k < |rest| ==> rest[k] >= 0.0 by {
        forall k | 0 <= k < |rest| ensures rest[k] >= 0.0 { assert rest[k] == dts[k + 1]; }
      }
      assert Sum(dts) == dts[0] + Sum(rest);
      if time - dts[0] < 0.0 {
        SumNonNegative(rest);
      }
      CooldownExpires(Ticked(time, dts[0]), rest);
      assert TickedThrough(time, dts) == TickedThrough(Ticked(time, dts[0]), rest);
    }
  }

  /** Non-negative ticks never raise the remaining time of a running timer. */
  lemma {:induction false} TicksNeverRaise(time: real, dts: seq<real>)
    requires time >= 0.0
    requires forall k :: 0 <= k < |dts| ==> dts[k] >= 0.0
    ensures 0.0 <= TickedThrough(time, dts) <= time
    decreases |dts|
  {
    if dts != [] {
      var rest := dts[1..];
      assert forall k :: 0 <= k < |rest| ==> rest[k] >= 0.0 by {
        forall k | 0 <= k < |rest| ensures rest[k] >= 0.0 { assert rest[k] == dts[k + 1]; }
      }
      TicksNeverRaise(Ticked(time, dts[0]), rest);
    }
  }

  /** CountdownTimer: one remaining-time field, overwritten by `Set` and `Tick`. */
  class CountdownTimer {
    var time: real

    constructor ()
      ensures time == 0.0 && !IsTicking()
    {
      time := 0.0;
    }

    /** `set` stores the value as given: a negative value is kept, and leaves the timer not ticking. */
    method Set(t: real)
      modifies this
      ensures time == t && GetTime() == t
      ensures IsTicking() <==> t > 0.0
    {
      time := t;
    }

    method Tick(dt: real)
      modifies this
      ensures time == Ticked(old(time), dt)
      ensures time >= 0.0
      ensures dt >= old(time) ==> !IsTicking()
    {
      time := time - dt;
      if time < 0.0 {
        time := 0.0;
      }
    }

    predicate IsTicking()
      reads this
    {
      Active(time)
    }

    function GetTime(): real
      reads this
    {
      time
    }
  }
}
