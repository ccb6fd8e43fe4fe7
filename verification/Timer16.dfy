/**
 The 16-bit free running timer.  `Tick` is what one clock of the counter does; the
 emulator advances over many clocks at once and predicts the clock at which it next
 has to look.
 */
module Timer16 {
  import opened Words

  datatype Counter = Counter(frc: word, ocra: word, ocrb: word, ocfa: bool, ocfb: bool, ovf: bool, cclra: bool)

  /** The interrupt enable bits of TIER. */
  datatype Enable = Enable(a: bool, b: bool, overflow: bool)

  predicate Pending(c: Counter, e: Enable) {
    (e.a && c.ocfa) || (e.b && c.ocfb) || (e.overflow && c.ovf)
  }

  /** One clock: the compare flags are set as the counter leaves the compared value;
      clearing on compare A takes priority over overflow. */
  function Tick(c: Counter): (r: Counter) {
    var clear := c.cclra && c.frc == c.ocra;
    var wrap := c.frc == 0xffff;
    c.(frc := if clear || wrap then 0 else c.frc + 1,
       ocfa := c.ocfa || c.frc == c.ocra,
       ocfb := c.ocfb || c.frc == c.ocrb,
       ovf := c.ovf || (wrap && !clear))
  }

  function Ticks(c: Counter, n: nat): (r: Counter)
    decreases n
  {
    if n == 0 then c else Ticks(Tick(c), n - 1)
  }

  lemma {:induction false} TicksCompose(c: Counter, m: nat, n: nat)
    ensures Ticks(c, m + n) == Ticks(Ticks(c, m), n)
    decreases m
  {
    if m > 0 {
      TicksCompose(Tick(c), m - 1, n);
    }
  }

  lemma OneMoreTick(c: Counter, n: nat)
    ensures Ticks(c, n + 1) == Tick(Ticks(c, n))
  {
    TicksCompose(c, n, 1);
    var d := Ticks(c, n);
    assert Ticks(d, 1) == Ticks(Tick(d), 0);
  }

  /** A stretch in which the counter only counts. */
  lemma {:induction false} Straight(c: Counter, n: nat)
    requires c.frc + n <= 0xffff
    requires c.cclra ==> !(c.frc <= c.ocra < c.frc + n)
    ensures Ticks(c, n) == c.(frc := c.frc + n,
                              ocfa := c.ocfa || c.frc <= c.ocra < c.frc + n,
                              ocfb := c.ocfb || c.frc <= c.ocrb < c.frc + n)
    decreases n
  {
    if n > 0 {
      Straight(Tick(c), n - 1);
    }
  }

  /** Counting up to compare A, which clears the counter. */
  lemma UntilClear(c: Counter)
    requires c.cclra && c.frc <= c.ocra
    ensures Ticks(c, c.ocra + 1 - c.frc)
         == c.(frc := 0, ocfa := true, ocfb := c.ocfb || c.frc <= c.ocrb <= c.ocra)
  {
    Straight(c, c.ocra - c.frc);
    OneMoreTick(c, c.ocra - c.frc);
  }

  /** The counter at its last value before the overflow. */
  function AtTop(c: Counter): (r: Counter) {
    c.(frc := 0xffff, ocfa := c.ocfa || c.frc <= c.ocra < 0xffff, ocfb := c.ocfb || c.frc <= c.ocrb < 0xffff)
  }

  function Overflowed(c: Counter): (r: Counter) {
    c.(frc := 0, ocfa := c.ocfa || c.frc <= c.ocra, ocfb := c.ocfb || c.frc <= c.ocrb, ovf := true)
  }

  lemma LeavesTop(c: Counter)
    requires c.cclra ==> c.frc > c.ocra
    ensures Tick(AtTop(c)) == Overflowed(c)
  {
  }

  /** Counting up to the overflow. */
  lemma UntilOverflow(c: Counter, n: nat)
    requires c.frc + n == 0xffff && (c.cclra ==> c.frc > c.ocra)
    ensures Ticks(c, n + 1) == Overflowed(c)
  {
    OneMoreTick(c, n);
    assert Ticks(c, n) == AtTop(c) by { Straight(c, n); }
    LeavesTop(c);
  }

  // -------------------------------------------------- advancing in portions

  /** Cycles per clock, by the clock select bits. */
  function Unit(tcr: int): (u: nat)
    ensures u > 0
  {
    if tcr == 1 then 8 else if tcr == 2 then 32 else 2
  }

  /** The timer with the cycle of its last counted clock. */
  datatype Clocked = Clocked(counter: Counter, last: nat)

  /** Counting all whole clocks up to a given cycle; the rest stays for later. */
  function AdvanceTo(t: Clocked, now: nat, unit: nat): (r: Clocked)
    requires t.last <= now && unit > 0
  {
    var n := (now - t.last) / unit;
    Clocked(Ticks(t.counter, n), t.last + n * unit)
  }

  lemma Remainder(elapsed: nat, unit: nat)
    requires unit > 0
    ensures 0 <= elapsed - (elapsed / unit) * unit < unit
  {
  }

  lemma WholeClocks(a: nat, b: nat, unit: nat)
    requires unit > 0
    ensures (a * unit + b) / unit == a + b / unit
  {
    var n := a * unit + b;
    assert n == (n / unit) * unit + n % unit && b == (b / unit) * unit + b % unit;
    var e := n / unit - (a + b / unit);
    assert e * unit == (n / unit) * unit - a * unit - (b / unit) * unit;
    assert 0 - unit < e * unit < unit;
    assert e == 0;
  }

  /** Stopping on the way makes no difference: the cycles short of a clock are kept
      in the cycle of the last counted clock. */
  lemma AdvanceTwice(t: Clocked, middle: nat, now: nat, unit: nat)
    requires t.last <= middle <= now && unit > 0
    ensures AdvanceTo(t, middle, unit).last <= middle
    ensures AdvanceTo(AdvanceTo(t, middle, unit), now, unit) == AdvanceTo(t, now, unit)
  {
    var a := (middle - t.last) / unit;
    var b := (now - (t.last + a * unit)) / unit;
    Portions(t.last, middle, now, unit);
    TicksCompose(t.counter, a, b);
  }

  lemma Portions(last: nat, middle: nat, now: nat, unit: nat)
    requires last <= middle <= now && unit > 0
    ensures var a := (middle - last) / unit;
            && last + a * unit <= middle
            && var b := (now - (last + a * unit)) / unit;
            && (now - last) / unit == a + b
            && last + (now - last) / unit * unit == last + a * unit + b * unit
  {
    var a := (middle - last) / unit;
    Remainder(middle - last, unit);
    WholeClocks(a, now - (last + a * unit), unit);
    var b := (now - (last + a * unit)) / unit;
    assert (a + b) * unit == a * unit + b * unit;
  }

  ghost predicate Ascending(start: nat, times: seq<nat>)
    decreases |times|
  {
    times == [] || (start <= times[0] && Ascending(times[0], times[1..]))
  }

  function AdvanceThrough(t: Clocked, start: nat, times: seq<nat>, unit: nat): (r: Clocked)
    requires t.last <= start && Ascending(start, times) && unit > 0
    decreases |times|
  {
    if times == [] then t
    else
      AdvanceTwice(t, times[0], times[0], unit);
      AdvanceThrough(AdvanceTo(t, times[0], unit), times[0], times[1..], unit)
  }

  /** Any series of updates ends in the state of a single update at its last cycle. */
  lemma {:induction false} OneUpdateForMany(t: Clocked, start: nat, times: seq<nat>, unit: nat)
    requires t.last <= start && times != [] && Ascending(start, times) && unit > 0
    ensures t.last <= times[|times| - 1]
    ensures AdvanceThrough(t, start, times, unit) == AdvanceTo(t, times[|times| - 1], unit)
    decreases |times|
  {
    AdvanceTwice(t, times[0], times[0], unit);
    if |times| > 1 {
      var next := AdvanceTo(t, times[0], unit);
      OneUpdateForMany(next, times[0], times[1..], unit);
      LastNotBefore(times[0], times[1..]);
      AdvanceTwice(t, times[0], times[|times| - 1], unit);
    }
  }

  lemma {:induction false} LastNotBefore(start: nat, times: seq<nat>)
    requires times != [] && Ascending(start, times)
    ensures start <= times[|times| - 1]
    decreases |times|
  {
    if |times| > 1 {
      LastNotBefore(times[0], times[1..]);
    }
  }

  // ------------------------------------------------------- the next event

  /** `x` as a 16-bit number. */
  function Low16(x: int): (r: word)
    requires -0x10000 <= x <= 0x10000
  {
    if x < 0 then x + 0x10000 else if x < 0x10000 then x else 0
  }

  /** The clocks until the timer wants to be looked at. */
  function NextEvent(c: Counter, e: Enable): (r: nat) {
    var next := 0x10000 - c.frc;
    var nextA := if e.a then Low16(c.ocra + 1 - c.frc) else next;
    var upToA := if nextA < next then nextA else next;
    var nextB := if e.b then Low16(c.ocrb + 1 - c.frc) else upToA;
    if nextB < upToA then nextB else upToA
  }

  /** The one way to miss an event: the counter is cleared by a compare A that does
      not interrupt, and reaches compare B before its predicted overflow. */
  predicate MissesB(c: Counter, e: Enable) {
    && c.cclra && !e.a && e.b
    && c.ocrb + 1 < c.frc <= c.ocra
    && c.ocra + c.ocrb + 2 < 0x10000
  }

  /** A counter that is kept below compare B, or does not interrupt on it. */
  lemma {:induction false} StaysQuiet(c: Counter, e: Enable, n: nat)
    requires c.cclra && !e.a && c.frc <= c.ocra && (e.b ==> c.ocrb > c.ocra)
    requires !Pending(c, e)
    ensures !Pending(Ticks(c, n), e)
    decreases n
  {
    if n > 0 {
      StaysQuiet(Tick(c), e, n - 1);
    }
  }

  lemma NotLateStraight(c: Counter, e: Enable, n: nat)
    requires !Pending(c, e) && n < NextEvent(c, e)
    requires c.cclra ==> !(c.frc <= c.ocra < c.frc + n)
    ensures !Pending(Ticks(c, n), e)
  {
    Straight(c, n);
  }

  /** After a silent clear, compare B is out of reach before the prediction. */
  lemma NotLateAfterClear(c: Counter, e: Enable, n: nat)
    requires !Pending(c, e) && n < NextEvent(c, e) && !MissesB(c, e)
    requires c.cclra && c.frc <= c.ocra < c.frc + n
    ensures !Pending(Ticks(c, n), e)
  {
    if e.b && c.ocrb <= c.ocra {
      var m := c.ocra + 1 - c.frc;
      UntilClear(c);
      TicksCompose(c, m, n - m);
      Straight(Ticks(c, m), n - m);
    } else {
      StaysQuiet(c, e, n);
    }
  }

  lemma LateOnB(c: Counter, e: Enable)
    requires !Pending(c, e) && MissesB(c, e)
    ensures var n := c.ocra + c.ocrb + 2 - c.frc; n < NextEvent(c, e) && Pending(Ticks(c, n), e)
  {
    var m := c.ocra + 1 - c.frc;
    UntilClear(c);
    TicksCompose(c, m, c.ocrb + 1);
    Straight(Ticks(c, m), c.ocrb + 1);
  }

  /** No clock before the predicted one raises an enabled flag. */
  ghost predicate InTime(c: Counter, e: Enable) {
    forall n: nat | n < NextEvent(c, e) :: !Pending(Ticks(c, n), e)
  }

  /** The prediction is never late, except in exactly the situation `MissesB`. */
  lemma NeverLateIff(c: Counter, e: Enable)
    requires !Pending(c, e)
    ensures InTime(c, e) <==> !MissesB(c, e)
  {
    if MissesB(c, e) {
      LateOnB(c, e);
      var n: nat := c.ocra + c.ocrb + 2 - c.frc;
      assert n < NextEvent(c, e) && Pending(Ticks(c, n), e);
      assert !InTime(c, e);
    } else {
      forall n: nat | n < NextEvent(c, e) ensures !Pending(Ticks(c, n), e) {
        if c.cclra && c.frc <= c.ocra < c.frc + n {
          NotLateAfterClear(c, e, n);
        } else {
          NotLateStraight(c, e, n);
        }
      }
    }
  }

  /** No event before the cycle `wake`, when the last clock was counted at `last`. */
  ghost predicate SleepsSafely(c: Counter, e: Enable, last: int, unit: nat, wake: int) {
    forall n: nat | last + n * unit < wake :: !Pending(Ticks(c, n), e)
  }

  lemma FewerClocks(m: nat, n: nat, unit: nat)
    ensures n <= m ==> n * unit <= m * unit
  {
    assert m * unit == n * unit + (m - n) * unit;
  }

  lemma WakesInTime(c: Counter, e: Enable, last: int, unit: nat, wake: int)
    requires !Pending(c, e) && !MissesB(c, e) && unit > 0
    requires wake <= last + NextEvent(c, e) * unit
    ensures SleepsSafely(c, e, last, unit, wake)
  {
    NeverLateIff(c, e);
    forall n: nat | last + n * unit < wake ensures !Pending(Ticks(c, n), e) {
      FewerClocks(n, NextEvent(c, e), unit);
    }
  }

  // ------------------------------------------------------------ in place

  class FreeRunningTimer {
    var frc: word
    var ocra: word
    var ocrb: word
    var ocfa: bool
    var ocfb: bool
    var ovf: bool
    var cclra: bool
    var enable: Enable
    var tcr: int
    var lastCycles: nat
    var nextTimerCycle: int

    function Now(): (r: Counter)
      reads this
    {
      Counter(frc, ocra, ocrb, ocfa, ocfb, ovf, cclra)
    }

    function Clock(): (r: Clocked)
      reads this
    {
      Clocked(Now(), lastCycles)
    }

    /** One pass of the advance: up to the next clear or overflow, or to the end. */
    method Pass(newfrc: nat) returns (again: bool, rest: nat)
      requires frc <= newfrc
      modifies `frc, `ocfa, `ocfb, `ovf
      ensures frc <= rest && Ticks(old(Now()), newfrc - old(frc)) == Ticks(Now(), rest - frc)
      ensures rest <= newfrc && if again then rest < newfrc else rest == frc
    {
      ghost var c, n := Now(), newfrc - frc;
      if frc <= ocra && newfrc > ocra {
        ocfa := true;
        if cclra {
          if frc <= ocrb && ocrb <= ocra {
            ocfb := true;
          }
          UntilClear(c);
          TicksCompose(c, ocra + 1 - frc, newfrc - (ocra + 1));
          frc := 0;
          return true, newfrc - (ocra + 1);
        }
      }
      if frc <= ocrb && newfrc > ocrb {
        ocfb := true;
      }
      if newfrc > 0xffff {
        UntilOverflow(c, 0xffff - frc);
        TicksCompose(c, 0x10000 - frc, newfrc - 0x10000);
        ovf := true;
        frc := 0;
        return true, newfrc - 0x10000;
      }
      Straight(c, n);
      frc := newfrc;
      return false, newfrc;
    }

    /** All passes: the same as counting one by one. */
    method Advance(increment: nat)
      modifies `frc, `ocfa, `ocfb, `ovf
      ensures Now() == Ticks(old(Now()), increment)
    {
      var newfrc, again := frc + increment, true;
      while again
        invariant frc <= newfrc && (!again ==> newfrc == frc)
        invariant Ticks(old(Now()), increment) == Ticks(Now(), newfrc - frc)
        decreases newfrc, again
      {
        again, newfrc := Pass(newfrc);
      }
    }

    /** The next cycle the processor has to stop at for this timer: at once if an
        enabled flag is pending, otherwise no later than before. */
    method CheckNextCycle(cycles: nat)
      requires lastCycles <= cycles && cycles - lastCycles < 0x8000_0000
      requires cycles - 0x8000_0000 <= nextTimerCycle < cycles + 0x8000_0000
      modifies `nextTimerCycle
      ensures Pending(Now(), enable) ==> nextTimerCycle == cycles
      ensures !Pending(Now(), enable) ==>
                && nextTimerCycle <= old(nextTimerCycle)
                && nextTimerCycle <= lastCycles + NextEvent(Now(), enable) * Unit(tcr)
                && (|| nextTimerCycle == old(nextTimerCycle)
                    || nextTimerCycle == lastCycles + NextEvent(Now(), enable) * Unit(tcr))
    {
      if (enable.a && ocfa) || (enable.b && ocfb) || (enable.overflow && ovf) {
        nextTimerCycle := cycles;
        return;
      }
      var next: int := 0x10000 - frc;
      if enable.a {
        var nextA := Low16(ocra + 1 - frc);
        if nextA < next {
          next := nextA;
        }
      }
      if enable.b {
        var nextB := Low16(ocrb + 1 - frc);
        if nextB < next {
          next := nextB;
        }
      }
      var nextCycle := next * Unit(tcr) + lastCycles - cycles;
      if nextCycle < nextTimerCycle - cycles {
        nextTimerCycle := cycles + nextCycle;
      }
    }

    /** Batch advance: the state of counting every clock up to `cycles`, and a wake
        cycle before which no enabled flag is raised. */
    method UpdateTime(cycles: nat)
      requires lastCycles <= cycles && cycles - lastCycles < 0x8000_0000
      requires cycles - 0x8000_0000 <= nextTimerCycle < cycles + 0x8000_0000
      modifies `frc, `ocfa, `ocfb, `ovf, `lastCycles, `nextTimerCycle
      ensures Clock() == AdvanceTo(old(Clock()), cycles, Unit(tcr))
      ensures Pending(Now(), enable) ==> nextTimerCycle == cycles
      ensures !Pending(Now(), enable) && !MissesB(Now(), enable) ==>
                SleepsSafely(Now(), enable, lastCycles, Unit(tcr), nextTimerCycle)
    {
      var unit := Unit(tcr);
      var increment := (cycles - lastCycles) / unit;
      Remainder(cycles - lastCycles, unit);
      Advance(increment);
      lastCycles := lastCycles + increment * unit;
      CheckNextCycle(cycles);
      if !Pending(Now(), enable) && !MissesB(Now(), enable) {
        WakesInTime(Now(), enable, lastCycles, unit, nextTimerCycle);
      }
    }
  }
}
