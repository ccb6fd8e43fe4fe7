/**
 The conservation of cycles on the profiler in place: the local cycles in the profile
 table and the own cycles of the open frames of all registered threads.
 */
module ProfilerCycles {
  import opened Wrappers
  import opened Words
  import opened ProfilerFrames
  import opened ProfilerHistory
  import opened ProfilerTables
  import opened Profiler

  // ------------------------------------------------------------------- sums

  ghost function Sum<K>(m: map<K, int>): (r: int)
    decreases m.Keys
  {
    if m == map[] then 0
    else
      var k :| k in m;
      m[k] + Sum(m - {k})
  }

  lemma {:induction false} SumTake<K>(m: map<K, int>, a: K)
    requires a in m
    ensures Sum(m) == m[a] + Sum(m - {a})
    decreases m.Keys
  {
    var k :| k in m && Sum(m) == m[k] + Sum(m - {k});
    if k != a {
      SumTake(m - {k}, a);
      SumTake(m - {a}, k);
      assert m - {k} - {a} == m - {a} - {k};
    }
  }

  lemma SumPut<K>(m: map<K, int>, a: K, x: int)
    ensures Sum(m[a := x]) == Sum(m) + x - (if a in m then m[a] else 0)
  {
    SumTake(m[a := x], a);
    assert m[a := x] - {a} == m - {a};
    if a in m {
      SumTake(m, a);
    } else {
      assert m - {a} == m;
    }
  }

  // ------------------------------------------------------- the profile table

  function Locals(p: Profiles): (r: map<word, int>) {
    map a | a in p :: p[a].local
  }

  lemma EntryAddsLocal(p: Profiles, e: Entry)
    ensures Sum(Locals(WithEntry(p, e))) == Sum(Locals(p)) + e.local
  {
    var a := e.code.addr;
    assert Locals(WithEntry(p, e)) == Locals(p)[a := ProfileAt(p, a).local + e.local];
    SumPut(Locals(p), a, ProfileAt(p, a).local + e.local);
  }

  lemma CalleeAddsNothing(p: Profiles, caller: word, code: Code, cycles: int)
    ensures Sum(Locals(WithCallee(p, caller, code, cycles))) == Sum(Locals(p))
    ensures Sum(Locals(WithProfile(p, caller))) == Sum(Locals(p))
  {
    assert Locals(WithCallee(p, caller, code, cycles)) == Locals(p)[caller := ProfileAt(p, caller).local];
    assert Locals(WithProfile(p, caller)) == Locals(p)[caller := ProfileAt(p, caller).local];
    SumPut(Locals(p), caller, ProfileAt(p, caller).local);
  }

  /** A return adds the local cycles of the frame it ends to the table as a whole. */
  lemma ReturnAddsToTable(p: Profiles, s: seq<Frame>, now: int)
    requires |s| > 1
    ensures Sum(Locals(WithReturn(p, s, now))) == Sum(Locals(p)) + Local(Top(s), now)
  {
    var f := Top(s);
    var q := if f.fp == 0 then p else WithCallee(p, Top(Below(s)).code.addr, f.code, Total(f, now));
    CalleeAddsNothing(p, Top(Below(s)).code.addr, f.code, Total(f, now));
    EntryAddsLocal(q, EntryOf(f, now));
  }

  /** Closing a thread moves the own cycles of all its frames into the table. */
  lemma {:induction false} ClosingAddsToTable(p: Profiles, s: seq<Frame>, now: int)
    requires IsStack(s)
    ensures Sum(Locals(WithClosed(p, s, now))) == Sum(Locals(p)) + AllOwn(s, now)
    decreases |s|
  {
    if |s| > 1 {
      FinishRecordsOwn(s, 0, now);
      ReturnAddsToTable(p, s, now);
      ClosingAddsToTable(WithReturn(p, s, now), Finished(s, now), now);
    } else {
      EntryAddsLocal(p, EntryOf(s[0], now));
      assert Below(s) == [];
    }
  }

  // --------------------------------------------------------- all the cycles

  /** What the open frames of each registered thread have cost when the clock shows `now`. */
  ghost function Costs(prof: FrameProfiler, now: int): (r: map<ThreadInfo, int>)
    reads prof, prof.filed.Keys
  {
    map t | t in prof.filed :: CostOf(t, prof.current == Some(t), now)
  }

  ghost function CostOf(t: ThreadInfo, running: bool, now: int): (r: int)
    reads t
  {
    AllOwn(t.frames, if running then now else t.switchCycle)
  }

  /** All cycles the profiler has counted: in its table and in its open frames. */
  ghost function CyclesCounted(prof: FrameProfiler, now: int): (r: int)
    reads prof, prof.filed.Keys
  {
    Sum(Locals(prof.profiles)) + Sum(Costs(prof, now))
  }

  /** While a thread runs, every cycle that passes is counted once. */
  lemma PassingCounts(prof: FrameProfiler, now: int, d: nat)
    requires prof.Valid()
    ensures CyclesCounted(prof, now + d) == CyclesCounted(prof, now) + (if prof.current.Some? then d else 0)
  {
    if prof.current.Some? {
      var t := prof.current.value;
      assert ThreadOk(t, prof.profiles);
      TimePasses(t.frames, 0, now, d);
      assert Costs(prof, now + d) == Costs(prof, now)[t := AllOwn(t.frames, now + d)];
      SumPut(Costs(prof, now), t, AllOwn(t.frames, now + d));
    } else {
      assert Costs(prof, now + d) == Costs(prof, now);
    }
  }

  /** Two maps that differ at most at `a`. */
  lemma SumChanged<K>(m: map<K, int>, m': map<K, int>, a: K)
    requires m'.Keys == m.Keys + {a} && forall k :: k in m && k != a ==> m'[k] == m[k]
    ensures Sum(m') == Sum(m) + m'[a] - (if a in m then m[a] else 0)
  {
    assert m' == m[a := m'[a]];
    SumPut(m, a, m'[a]);
  }

  /** The value at `a` has moved to `b`. */
  lemma SumMoved<K>(m: map<K, int>, m': map<K, int>, a: K, b: K)
    requires a in m && (b == a || b !in m) && m'.Keys == m.Keys - {a} + {b}
    requires m'[b] == m[a] && forall k :: k in m && k != a ==> m'[k] == m[k]
    ensures Sum(m') == Sum(m)
  {
    SumTake(m, a);
    SumTake(m', b);
    assert m' - {b} == m - {a};
  }

  /** A known thread costs what it had cost when it was left, a new one nothing. */
  lemma CostOnResume(s: seq<Frame>, since: int, now: int, code: Code)
    ensures s != [] ==> AllOwn(Resumed(s, since, now), now) == AllOwn(s, since)
    ensures AllOwn(NewStack(now, code), now) == 0
  {
    if s != [] {
      ResumeKeepsOwn(s, 0, since, now);
    }
    assert Below(NewStack(now, code)) == [];
  }

  /** In place of the record `c` the record `t` runs, at the same cost; no other thread
      costs more or less. */
  ghost predicate OnlyMoved(prof: FrameProfiler, now: int, costs: map<ThreadInfo, int>, c: ThreadInfo, t: ThreadInfo)
    reads prof, prof.filed.Keys
  {
    var moved :=
      && c in costs && (t == c || t !in costs)
      && prof.current == Some(t) && prof.filed.Keys == costs.Keys - {c} + {t}
      && CostOf(t, true, now) == costs[c]
      && forall r :: r in costs && r != c ==> CostOf(r, false, now) == costs[r];
    moved
  }

  lemma MovedKeepsSum(prof: FrameProfiler, now: int, costs: map<ThreadInfo, int>, c: ThreadInfo, t: ThreadInfo)
    requires OnlyMoved(prof, now, costs, c, t)
    ensures Sum(Costs(prof, now)) == Sum(costs)
  {
    SumMoved(costs, Costs(prof, now), c, t);
  }

  /** The thread `t` runs now, at the cost it had or none; no other costs more or less. */
  ghost predicate OnlySwitched(prof: FrameProfiler, now: int, costs: map<ThreadInfo, int>, t: ThreadInfo)
    reads prof, prof.filed.Keys
  {
    var switched :=
      && prof.current == Some(t) && prof.filed.Keys == costs.Keys + {t}
      && CostOf(t, true, now) == (if t in costs then costs[t] else 0)
      && forall r :: r in costs && r != t ==> CostOf(r, false, now) == costs[r];
    switched
  }

  lemma SwitchedKeepsSum(prof: FrameProfiler, now: int, costs: map<ThreadInfo, int>, t: ThreadInfo)
    requires OnlySwitched(prof, now, costs, t)
    ensures Sum(Costs(prof, now)) == Sum(costs)
  {
    SumChanged(costs, Costs(prof, now), t);
  }

  lemma SwitchedKeys(filed: map<ThreadInfo, nat>, c: Option<ThreadInfo>, oldFp: nat, t: ThreadInfo)
    requires c.Some? ==> c.value in filed
    ensures (if c.Some? then filed[c.value := oldFp] else filed)[t := 0].Keys == filed.Keys + {t}
  {
  }

  /** A switch, seen from the records of the thread that is left, if there is one, and of
      the one that runs on. */
  method SwitchInRecords(prof: FrameProfiler, oldFp: word, newFp: word, cycles: int, code: Code)
    returns (ghost t: ThreadInfo)
    requires prof.Valid() && oldFp != 0 && newFp != 0 && oldFp != newFp
    modifies prof`current, prof`filed, prof.threads, prof.filed.Keys
    ensures prof.Valid() && prof.current == Some(t) && old(prof.current) != Some(t)
    ensures prof.filed.Keys == old(prof.filed).Keys + {t}
    ensures forall r: ThreadInfo :: r in old(prof.filed) && r != t && old(prof.current) != Some(r) ==>
              CostOf(r, false, cycles) == old(CostOf(r, false, cycles))
    ensures old(prof.current).Some? ==>
              var c := old(prof.current).value;
              c in old(prof.filed) && CostOf(c, false, cycles) == old(CostOf(c, true, cycles))
    ensures CostOf(t, true, cycles) == if t in old(prof.filed) then old(CostOf(t, false, cycles)) else 0
  {
    ghost var filed, c := prof.filed, prof.current;
    assert c.Some? ==> c.value in filed;
    var known := prof.Switch(oldFp, newFp, cycles, code);
    t := prof.current.value;
    SwitchedKeys(filed, c, oldFp, t);
    if known {
      assert t in filed && c != Some(t);
      CostOnResume(old(t.frames), old(t.switchCycle), cycles, code);
    } else {
      CostOnResume([], 0, cycles, code);
    }
  }

  /** No thread costs more or less. */
  lemma CostsSame(prof: FrameProfiler, now: int, costs: map<ThreadInfo, int>)
    requires prof.filed.Keys == costs.Keys
    requires forall r :: r in costs ==> CostOf(r, prof.current == Some(r), now) == costs[r]
    ensures Costs(prof, now) == costs
  {
  }

  /** A switch between threads loses no cycle and counts none again. */
  method SwitchCounted(prof: FrameProfiler, oldFp: word, newFp: word, cycles: int, code: Code)
    requires prof.Valid() && oldFp != 0 && newFp != 0
    modifies prof`current, prof`filed, prof.threads, prof.filed.Keys
    ensures prof.Valid()
    ensures CyclesCounted(prof, cycles) == old(CyclesCounted(prof, cycles))
  {
    if oldFp == newFp {
      SwitchIdle(prof, oldFp, cycles, code);
    } else {
      SwitchRunning(prof, oldFp, newFp, cycles, code);
    }
  }

  method SwitchIdle(prof: FrameProfiler, fp: word, cycles: int, code: Code)
    requires prof.Valid() && fp != 0
    modifies prof`current, prof`filed, prof.threads, prof.filed.Keys
    ensures prof.Valid()
    ensures Costs(prof, cycles) == old(Costs(prof, cycles))
  {
    ghost var costs := Costs(prof, cycles);
    var known := prof.Switch(fp, fp, cycles, code);
    CostsSame(prof, cycles, costs);
  }

  method SwitchRunning(prof: FrameProfiler, oldFp: word, newFp: word, cycles: int, code: Code)
    requires prof.Valid() && oldFp != 0 && newFp != 0 && oldFp != newFp
    modifies prof`current, prof`filed, prof.threads, prof.filed.Keys
    ensures prof.Valid()
    ensures Sum(Costs(prof, cycles)) == old(Sum(Costs(prof, cycles)))
  {
    ghost var costs := Costs(prof, cycles);
    ghost var filed, c := prof.filed, prof.current;
    ghost var t := SwitchInRecords(prof, oldFp, newFp, cycles, code);
    assert costs.Keys == filed.Keys;
    forall r | r in costs && r != t
      ensures CostOf(r, false, cycles) == costs[r]
    {
      assert r in filed && (c == Some(r) || c != Some(r));
    }
    assert OnlySwitched(prof, cycles, costs, t);
    SwitchedKeepsSum(prof, cycles, costs, t);
  }

  lemma CallMovesNothing(s: seq<Frame>, p: Profiles, cycles: int, code: Code, fp: word)
    requires s != []
    ensures AllOwn(Begun(s, cycles, code, fp), cycles) == AllOwn(s, cycles)
    ensures Sum(Locals(WithProfile(p, Top(s).code.addr))) == Sum(Locals(p))
  {
    BeginKeepsOwn(s, 0, cycles, code, fp);
    CalleeAddsNothing(p, Top(s).code.addr, Top(s).code, 0);
  }

  lemma ReturnMovesCycles(s: seq<Frame>, p: Profiles, cycles: int, fp: word, caller: Code)
    requires IsStack(s)
    ensures AllOwn(Ended(s, cycles, fp, caller), cycles)
              + Sum(Locals(WithReturn(p, Rooted(Unwound(s, fp), cycles, caller), cycles)))
         == AllOwn(s, cycles) + Sum(Locals(p)) + CountedTwice(s, fp)
  {
    EndConserves(s, cycles, fp, caller);
    ReturnAddsToTable(p, Rooted(Unwound(s, fp), cycles, caller), cycles);
  }

  lemma RefiledKeys(filed: map<ThreadInfo, nat>, c: ThreadInfo, t: ThreadInfo)
    ensures (filed - {c})[t := 0].Keys == filed.Keys - {c} + {t}
  {
  }

  /** A call, seen from the record of the running thread and the table. */
  method BeginInRecord(prof: FrameProfiler, c: ThreadInfo, fp: word, inIrq: bool, cycles: int, pc: word)
    returns (ghost t: ThreadInfo)
    requires prof.Valid() && fp != 0 && prof.current == Some(c)
    modifies prof`current, prof`filed, prof`profiles, prof.threads, prof.filed.Keys
    ensures prof.Valid() && prof.current == Some(t) && c in old(prof.filed)
    ensures prof.filed.Keys == old(prof.filed).Keys - {c} + {t} && (t == c || t !in old(prof.filed))
    ensures forall r: ThreadInfo :: r in old(prof.filed) && r != c ==>
              CostOf(r, false, cycles) == old(CostOf(r, false, cycles))
    ensures CostOf(t, true, cycles) == old(CostOf(c, true, cycles))
    ensures Sum(Locals(prof.profiles)) == Sum(Locals(old(prof.profiles)))
  {
    ghost var s, p, filed := c.frames, prof.profiles, prof.filed;
    assert ThreadOk(c, p);
    CallMovesNothing(s, p, cycles, Code(pc, inIrq), fp);
    prof.Begin(fp, inIrq, cycles, pc);
    t := prof.current.value;
    RefiledKeys(filed, c, t);
    assert CostOf(t, true, cycles) == AllOwn(s, cycles);
  }

  method BeginRunning(prof: FrameProfiler, c: ThreadInfo, fp: word, inIrq: bool, cycles: int, pc: word)
    requires prof.Valid() && fp != 0 && prof.current == Some(c)
    modifies prof`current, prof`filed, prof`profiles, prof.threads, prof.filed.Keys
    ensures prof.Valid()
    ensures Sum(Costs(prof, cycles)) == old(Sum(Costs(prof, cycles)))
    ensures Sum(Locals(prof.profiles)) == Sum(Locals(old(prof.profiles)))
  {
    ghost var costs := Costs(prof, cycles);
    ghost var filed := prof.filed;
    ghost var t := BeginInRecord(prof, c, fp, inIrq, cycles, pc);
    assert costs.Keys == filed.Keys;
    forall r | r in costs && r != c
      ensures CostOf(r, false, cycles) == costs[r]
    {
      assert r in filed;
    }
    assert OnlyMoved(prof, cycles, costs, c, t);
    MovedKeepsSum(prof, cycles, costs, c, t);
  }

  method BeginIdle(prof: FrameProfiler, fp: word, inIrq: bool, cycles: int, pc: word)
    requires prof.Valid() && fp != 0 && prof.current.None?
    modifies prof`current, prof`filed, prof`profiles, prof.threads, prof.filed.Keys
    ensures prof.Valid()
    ensures CyclesCounted(prof, cycles) == old(CyclesCounted(prof, cycles))
  {
    ghost var costs := Costs(prof, cycles);
    prof.Begin(fp, inIrq, cycles, pc);
    CostsSame(prof, cycles, costs);
  }

  /** Nor does a call. */
  method BeginCounted(prof: FrameProfiler, fp: word, inIrq: bool, cycles: int, pc: word)
    requires prof.Valid() && fp != 0
    modifies prof`current, prof`filed, prof`profiles, prof.threads, prof.filed.Keys
    ensures prof.Valid()
    ensures CyclesCounted(prof, cycles) == old(CyclesCounted(prof, cycles))
  {
    if prof.current.None? {
      BeginIdle(prof, fp, inIrq, cycles, pc);
    } else {
      BeginRunning(prof, prof.current.value, fp, inIrq, cycles, pc);
    }
  }

  /** The child cycles of the frames a return would drop. */
  ghost function CountedAgain(prof: FrameProfiler, fp: word): (r: int)
    reads prof, prof.threads, prof.filed.Keys
    requires prof.Valid()
  {
    if prof.current.None? then 0
    else
      assert ThreadOk(prof.current.value, prof.profiles);
      CountedTwice(prof.current.value.frames, fp)
  }

  /** A return, seen from the record of the running thread and the table. */
  method EndInRecord(prof: FrameProfiler, t: ThreadInfo, fp: word, cycles: int, caller: Code)
    requires prof.Valid() && prof.current == Some(t)
    modifies prof`profiles, prof.filed.Keys
    ensures prof.Valid() && t in prof.filed
    ensures forall r: ThreadInfo :: r in prof.filed && r != t ==>
              CostOf(r, false, cycles) == old(CostOf(r, false, cycles))
    ensures CostOf(t, true, cycles) + Sum(Locals(prof.profiles))
         == old(CostOf(t, true, cycles) + Sum(Locals(prof.profiles)) + CountedAgain(prof, fp))
  {
    ghost var s, p := t.frames, prof.profiles;
    assert ThreadOk(t, p);
    ReturnMovesCycles(s, p, cycles, fp, caller);
    prof.End(fp, cycles, caller);
  }

  /** The thread `t` runs as before; no other costs more or less. */
  lemma CostsOfOne(prof: FrameProfiler, now: int, costs: map<ThreadInfo, int>, t: ThreadInfo)
    requires t in costs && OnlyAt(prof, now, costs, t)
    ensures Sum(Costs(prof, now)) == Sum(costs) + CostOf(t, true, now) - costs[t]
  {
    SumChanged(costs, Costs(prof, now), t);
  }

  ghost predicate OnlyAt(prof: FrameProfiler, now: int, costs: map<ThreadInfo, int>, t: ThreadInfo)
    reads prof, prof.filed.Keys
  {
    var only :=
      && prof.current == Some(t) && prof.filed.Keys == costs.Keys
      && forall r :: r in costs && r != t ==> CostOf(r, false, now) == costs[r];
    only
  }

  method EndRunning(prof: FrameProfiler, t: ThreadInfo, fp: word, cycles: int, caller: Code)
    requires prof.Valid() && prof.current == Some(t)
    modifies prof`profiles, prof.filed.Keys
    ensures prof.Valid()
    ensures Sum(Costs(prof, cycles)) + Sum(Locals(prof.profiles))
         == old(Sum(Costs(prof, cycles)) + Sum(Locals(prof.profiles)) + CountedAgain(prof, fp))
  {
    ghost var costs := Costs(prof, cycles);
    EndInRecord(prof, t, fp, cycles, caller);
    assert OnlyAt(prof, cycles, costs, t);
    CostsOfOne(prof, cycles, costs, t);
  }

  method EndIdle(prof: FrameProfiler, fp: word, cycles: int, caller: Code)
    requires prof.Valid() && prof.current.None?
    modifies prof`profiles, prof.filed.Keys
    ensures prof.Valid()
    ensures CyclesCounted(prof, cycles) == old(CyclesCounted(prof, cycles))
  {
    ghost var costs := Costs(prof, cycles);
    prof.End(fp, cycles, caller);
    CostsSame(prof, cycles, costs);
  }

  /** A return moves cycles into the table, and counts again exactly the child cycles of
      the frames it drops. */
  method EndCounted(prof: FrameProfiler, fp: word, cycles: int, caller: Code)
    requires prof.Valid()
    modifies prof`profiles, prof.filed.Keys
    ensures prof.Valid()
    ensures CyclesCounted(prof, cycles) == old(CyclesCounted(prof, cycles) + CountedAgain(prof, fp))
  {
    if prof.current.None? {
      EndIdle(prof, fp, cycles, caller);
    } else {
      EndRunning(prof, prof.current.value, fp, cycles, caller);
    }
  }
}
