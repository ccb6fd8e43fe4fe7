/**
 Channel 0 of the 8-bit timers: batch advance equals counting clock by clock in every
 clear mode, and the sound samples it emits cover every cycle exactly once.
 */
module Timer8 {
  import opened Words

  datatype Clear = Never | OnA | OnB

  datatype Counter = Counter(tcnt: byte, tcora: byte, tcorb: byte, cmfa: bool, cmfb: bool, ovf: bool, clear: Clear)

  predicate Clears(c: Counter) {
    (c.clear == OnA && c.tcnt == c.tcora) || (c.clear == OnB && c.tcnt == c.tcorb)
  }

  /** One clock: flags are set as the counter leaves a compared value; clearing takes
      priority over overflow. */
  function Tick(c: Counter): (r: Counter) {
    var wrap := c.tcnt == 0xff;
    c.(tcnt := if Clears(c) || wrap then 0 else c.tcnt + 1,
       cmfa := c.cmfa || c.tcnt == c.tcora,
       cmfb := c.cmfb || c.tcnt == c.tcorb,
       ovf := c.ovf || (wrap && !Clears(c)))
  }

  function Ticks(c: Counter, n: nat): (r: Counter)
    decreases n
  {
    if n == 0 then c else Ticks(Tick(c), n - 1)
  }

  lemma {:induction false} TicksCompose(c: Counter, m: nat, n: nat)
    ensures Ticks(c, m + n) == Ticks(Ticks(c, m), n)
    decreases m
  {
    if m > 0 {
      TicksCompose(Tick(c), m - 1, n);
    }
  }

  lemma OneMoreTick(c: Counter, n: nat)
    ensures Ticks(c, n + 1) == Tick(Ticks(c, n))
  {
    TicksCompose(c, n, 1);
    var d := Ticks(c, n);
    assert Ticks(d, 1) == Ticks(Tick(d), 0);
  }

  predicate Passes(from: int, n: int, value: int) { from <= value < from + n }

  /** The compare flags after n clocks that only count. */
  function Flagged(c: Counter, n: nat): (r: Counter) {
    c.(cmfa := c.cmfa || Passes(c.tcnt, n, c.tcora), cmfb := c.cmfb || Passes(c.tcnt, n, c.tcorb))
  }

  /** The clock that leaves the n-th value does not clear, for any n before the last. */
  predicate Uncleared(c: Counter, n: nat) {
    (c.clear == OnA ==> !Passes(c.tcnt, n, c.tcora)) && (c.clear == OnB ==> !Passes(c.tcnt, n, c.tcorb))
  }

  lemma {:induction false} Straight(c: Counter, n: nat)
    requires c.tcnt + n <= 0xff && Uncleared(c, n)
    ensures Ticks(c, n) == Flagged(c, n).(tcnt := c.tcnt + n)
    decreases n
  {
    if n > 0 {
      Straight(Tick(c), n - 1);
    }
  }

  /** n clocks that only count, and one that clears. */
  lemma UntilClear(c: Counter, n: nat)
    requires c.tcnt + n <= 0xff && Uncleared(c, n)
    requires c.clear == OnA ==> c.tcnt + n == c.tcora
    requires c.clear == OnB ==> c.tcnt + n == c.tcorb
    requires c.clear != Never
    ensures Ticks(c, n + 1) == Flagged(c, n + 1).(tcnt := 0)
  {
    OneMoreTick(c, n);
    Straight(c, n);
  }

  lemma UntilOverflow(c: Counter, n: nat)
    requires c.tcnt + n == 0xff && Uncleared(c, n + 1)
    ensures Ticks(c, n + 1) == Flagged(c, n + 1).(tcnt := 0, ovf := true)
  {
    OneMoreTick(c, n);
    Straight(c, n);
  }

  /** Cycles per clock by the clock select bits and the internal clock select bit;
      0 when the timer does not run from the internal clock. */
  function Unit(cks: int, icks: bool): (r: nat) {
    if cks == 1 then (if icks then 2 else 8)
    else if cks == 2 then (if icks then 32 else 64)
    else if cks == 3 then (if icks then 256 else 1024)
    else 0
  }

  class SoundTimer {
    var tcnt: byte
    var tcora: byte
    var tcorb: byte
    var cmfa: bool
    var cmfb: bool
    var ovf: bool
    var clear: Clear
    var cks: int
    var icks: bool
    /** The output select bits for compare A and B. */
    var osA: int
    var osB: int
    var out: bool
    var lastCycles: nat
    var myNextCycle: nat
    /** The durations passed on to the sound generator, added up. */
    ghost var heard: int

    function Now(): (r: Counter)
      reads this
    {
      Counter(tcnt, tcora, tcorb, cmfa, cmfb, ovf, clear)
    }

    /** A sample of the output level. */
    method SoundUpdate(bit: bool, duration: int)
      modifies `heard
      ensures heard == old(heard) + duration
    {
      heard := heard + duration;
    }

    method SetOut(select: int)
      modifies `out
    {
      match select
      case 1 => out := false;
      case 2 => out := true;
      case 3 => out := !out;
      case _ =>
    }

    /** Sounds up to a compared value, if it is passed. */
    method SoundTo(value: int, select: int, cnt: int, incr: nat, unit: nat) returns (rest: nat, at: int)
      modifies `out, `heard
      ensures heard == old(heard) + (incr - rest) * unit
    {
      rest, at := incr, cnt;
      if cnt <= value && cnt + incr > value {
        SoundUpdate(out, (value - cnt + 1) * unit);
        SetOut(select);
        rest := incr - (value - cnt + 1);
        at := value;
      }
    }

    /** The flags and the sound of some clocks without a clear. */
    method IncrTcnt(incr: nat, unit: nat)
      modifies `cmfa, `cmfb, `out, `heard
      ensures Now() == Flagged(old(Now()), incr)
      ensures heard == old(heard) + incr * unit
    {
      if tcnt <= tcora && tcnt + incr > tcora {
        cmfa := true;
      }
      if tcnt <= tcorb && tcnt + incr > tcorb {
        cmfb := true;
      }
      var first, second, firstSelect, secondSelect := tcora, tcorb, osA, osB;
      if tcora > tcorb {
        first, second, firstSelect, secondSelect := tcorb, tcora, osB, osA;
      }
      var rest, cnt := SoundTo(first, firstSelect, tcnt, incr, unit);
      Distribute(incr, rest, unit);
      ghost var rest1 := rest;
      rest, cnt := SoundTo(second, secondSelect, cnt, rest, unit);
      Distribute(rest1, rest, unit);
      if rest != 0 {
        SoundUpdate(out, rest * unit);
      }
    }

    /** Advances to compared value n clocks on, which clears the counter. */
    method ClearAt(n: nat, incr: nat, unit: nat) returns (rest: nat)
      requires tcnt + n <= 0xff && n < incr && Uncleared(Now(), n) && clear != Never
      requires (clear == OnA ==> tcnt + n == tcora) && (clear == OnB ==> tcnt + n == tcorb)
      modifies `tcnt, `cmfa, `cmfb, `out, `heard
      ensures rest == incr - (n + 1) && Ticks(old(Now()), incr) == Ticks(Now(), rest)
      ensures heard == old(heard) + (n + 1) * unit
    {
      UntilClear(Now(), n);
      TicksCompose(Now(), n + 1, incr - (n + 1));
      IncrTcnt(n + 1, unit);
      rest := incr - (n + 1);
      tcnt := 0;
    }

    method OverflowAfter(incr: nat, unit: nat) returns (rest: nat)
      requires tcnt + incr > 0xff && Uncleared(Now(), 0x100 - tcnt)
      modifies `tcnt, `cmfa, `cmfb, `ovf, `out, `heard
      ensures rest == incr - (0x100 - old(tcnt)) && Ticks(old(Now()), incr) == Ticks(Now(), rest)
      ensures heard == old(heard) + (0x100 - old(tcnt)) * unit
    {
      ghost var n := 0xff - tcnt;
      UntilOverflow(Now(), n);
      TicksCompose(Now(), n + 1, incr - (n + 1));
      ovf := true;
      IncrTcnt(0x100 - tcnt, unit);
      rest := incr - (0x100 - tcnt);
      tcnt := 0;
    }

    /** One pass of the advance: to the next clear or overflow, or to the end. */
    method Pass(incr: nat, unit: nat) returns (rest: nat)
      requires incr > 0
      modifies `tcnt, `cmfa, `cmfb, `ovf, `out, `heard
      ensures rest < incr && Ticks(old(Now()), incr) == Ticks(Now(), rest)
      ensures heard == old(heard) + (incr - rest) * unit
    {
      if clear == OnA && tcnt <= tcora && tcnt + incr > tcora {
        rest := ClearAt(tcora - tcnt, incr, unit);
      } else if clear == OnB && tcnt <= tcorb && tcnt + incr > tcorb {
        rest := ClearAt(tcorb - tcnt, incr, unit);
      } else if tcnt + incr > 0xff {
        rest := OverflowAfter(incr, unit);
      } else {
        Straight(Now(), incr);
        IncrTcnt(incr, unit);
        tcnt := tcnt + incr;
        rest := 0;
      }
    }

    method Advance(increment: nat, unit: nat)
      modifies `tcnt, `cmfa, `cmfb, `ovf, `out, `heard
      ensures Now() == Ticks(old(Now()), increment)
      ensures heard == old(heard) + increment * unit
    {
      var incr: nat := increment;
      while incr != 0
        invariant Ticks(old(Now()), increment) == Ticks(Now(), incr)
        invariant incr <= increment && heard == old(heard) + increment * unit - incr * unit
      {
        ghost var before := incr;
        incr := Pass(incr, unit);
        Distribute(before, incr, unit);
      }
    }

    /** Counts all whole clocks up to `cycles`, unless the next event is not due; the
        sound generator hears exactly the cycles by which the last counted clock
        moves on, in every case. */
    method UpdateTime(cycles: nat)
      requires lastCycles <= cycles
      modifies `tcnt, `cmfa, `cmfb, `ovf, `out, `heard, `lastCycles
      ensures heard - lastCycles == old(heard - lastCycles)
      ensures var unit := Unit(cks, icks);
              if unit == 0 then lastCycles == cycles && Now() == old(Now())
              else if cycles < myNextCycle then lastCycles == old(lastCycles) && Now() == old(Now())
              else
                var n := (cycles - old(lastCycles)) / unit;
                && Now() == Ticks(old(Now()), n)
                && lastCycles == old(lastCycles) + n * unit && lastCycles <= cycles < lastCycles + unit
    {
      var unit := Unit(cks, icks);
      if unit == 0 {
        SoundUpdate(out, cycles - lastCycles);
        lastCycles := cycles;
        return;
      }
      if cycles < myNextCycle {
        return;
      }
      var incr := (cycles - lastCycles) / unit;
      WholePart(cycles - lastCycles, unit);
      lastCycles := lastCycles + incr * unit;
      Advance(incr, unit);
    }

    /** Forgets the cycles short of a clock, but not their sound. */
    method SetLastCycles(cycles: nat)
      requires lastCycles <= cycles
      modifies `heard, `lastCycles
      ensures lastCycles == cycles && heard - lastCycles == old(heard - lastCycles)
    {
      SoundUpdate(out, cycles - lastCycles);
      lastCycles := cycles;
    }
  }

  lemma WholePart(elapsed: nat, unit: nat)
    requires unit > 0
    ensures 0 <= elapsed - (elapsed / unit) * unit < unit
  {
  }

  lemma Distribute(a: nat, b: nat, unit: nat)
    ensures (a - b) * unit == a * unit - b * unit
  {
  }
}
