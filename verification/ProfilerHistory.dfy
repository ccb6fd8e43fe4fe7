/**
 Whole runs of the profiler: calls, returns, interrupts and thread switches in any
 order, matched or not.  Every cycle is counted once, except that a frame dropped
 without a return has its child cycles counted again.
 */
module ProfilerHistory {
  import opened Words
  import opened ProfilerFrames

  /** The own cycles dropping frames adds: the child cycles of the dropped ones. */
  ghost function CountedTwice(s: seq<Frame>, fp: word): (r: int)
    requires s != []
    decreases |s|
  {
    if Stale(s, fp) then Top(s).child + CountedTwice(Dropped(s), fp) else 0
  }

  /** No frame to be dropped has called anything that returned. */
  ghost predicate DropsOnlyLeaves(s: seq<Frame>, fp: word)
    requires s != []
    decreases |s|
  {
    Stale(s, fp) ==> Top(s).child == 0 && DropsOnlyLeaves(Dropped(s), fp)
  }

  /** No negative counts. */
  ghost predicate Sane(s: seq<Frame>, now: int)
    decreases |s|
  {
    s == [] || (Top(s).child >= 0 && Local(Top(s), now) >= 0 && Sane(Below(s), Top(s).start))
  }

  lemma {:induction false} UnwindConserves(s: seq<Frame>, now: int, fp: word)
    requires s != []
    ensures AllOwn(Unwound(s, fp), now) == AllOwn(s, now) + CountedTwice(s, fp)
    decreases |s|
  {
    if Stale(s, fp) {
      DropMovesOwn(s, 0, now);
      UnwindConserves(Dropped(s), now, fp);
    }
  }

  lemma {:induction false} UnwindSane(s: seq<Frame>, now: int, fp: word)
    requires s != [] && Sane(s, now)
    ensures Sane(Unwound(s, fp), now)
    ensures CountedTwice(s, fp) >= 0 && (CountedTwice(s, fp) == 0 <==> DropsOnlyLeaves(s, fp))
    decreases |s|
  {
    if Stale(s, fp) {
      DropSane(s, now);
      UnwindSane(Dropped(s), now, fp);
    }
  }

  lemma DropSane(s: seq<Frame>, now: int)
    requires |s| > 1 && Sane(s, now)
    ensures Sane(Dropped(s), now)
  {
    assert Below(Dropped(s)) == Below(Below(s));
  }

  lemma FinishSane(s: seq<Frame>, now: int, caller: Code)
    requires IsStack(s) && Sane(s, now)
    ensures Sane(Finished(Rooted(s, now, caller), now), now)
  {
    if |s| > 1 {
      assert Below(Finished(s, now)) == Below(Below(s));
    } else {
      BottomRecordsOwn(s, now, caller);
      assert Below(NewStack(now, caller)) == [];
    }
  }

  /** A return moves the own cycles of the frame it ends into the profile. */
  lemma EndConserves(s: seq<Frame>, now: int, fp: word, caller: Code)
    requires IsStack(s)
    ensures AllOwn(Ended(s, now, fp, caller), now) + EndEntry(s, now, fp).local
         == AllOwn(s, now) + CountedTwice(s, fp)
  {
    var u := Unwound(s, fp);
    UnwindConserves(s, now, fp);
    UnwoundIsStack(s, fp);
    if |u| > 1 {
      FinishRecordsOwn(u, 0, now);
    } else {
      BottomRecordsOwn(u, now, caller);
    }
  }

  // --------------------------------------------------------------- histories

  datatype Parked = Parked(stack: seq<Frame>, since: int)

  /** The running thread, all others, and the local cycles in the profile. */
  datatype World = World(now: int, running: seq<Frame>, parked: seq<Parked>, recorded: int)

  datatype Event =
    | Pass(cycles: nat)
    | Call(code: Code, fp: word)
    | Return(fp: word, caller: Code)
    | SwitchTo(index: nat)
    | SwitchNew(code: Code)

  /** Frame pointers are nonzero; a switch goes to a known thread or a new one. */
  predicate Possible(w: World, e: Event) {
    (e.Call? ==> e.fp != 0) && (e.SwitchTo? ==> e.index < |w.parked|)
  }

  function Step(w: World, e: Event): (r: World)
    requires w.running != [] && (forall p :: p in w.parked ==> p.stack != []) && Possible(w, e)
  {
    match e
    case Pass(d) => w.(now := w.now + d)
    case Call(code, fp) => w.(running := Begun(w.running, w.now, code, fp))
    case Return(fp, caller) =>
      w.(running := Ended(w.running, w.now, fp, caller),
         recorded := w.recorded + EndEntry(w.running, w.now, fp).local)
    case SwitchTo(i) =>
      var p := w.parked[i];
      w.(running := Resumed(p.stack, p.since, w.now), parked := w.parked[i := Parked(w.running, w.now)])
    case SwitchNew(code) =>
      w.(running := NewStack(w.now, code), parked := w.parked + [Parked(w.running, w.now)])
  }

  ghost predicate WellFormed(w: World) {
    && IsStack(w.running) && Sane(w.running, w.now)
    && forall i :: 0 <= i < |w.parked| ==> IsStack(w.parked[i].stack) && Sane(w.parked[i].stack, w.parked[i].since)
  }

  ghost function ParkedOwn(ps: seq<Parked>): (r: int) {
    if ps == [] then 0
    else ParkedOwn(ps[..|ps| - 1]) + AllOwn(ps[|ps| - 1].stack, ps[|ps| - 1].since)
  }

  /** All cycles counted: in the profile and as own cycles of open frames. */
  ghost function Counted(w: World): (r: int) {
    w.recorded + AllOwn(w.running, w.now) + ParkedOwn(w.parked)
  }

  lemma {:induction false} ParkedUpdate(ps: seq<Parked>, i: nat, p: Parked)
    requires i < |ps|
    ensures ParkedOwn(ps[i := p]) == ParkedOwn(ps) - AllOwn(ps[i].stack, ps[i].since) + AllOwn(p.stack, p.since)
  {
    var n := |ps| - 1;
    if i == n {
      assert ps[i := p][..n] == ps[..n];
    } else {
      ParkedUpdate(ps[..n], i, p);
      assert ps[i := p][..n] == ps[..n][i := p];
    }
  }

  /** What one event adds to the counted cycles beyond the time that passes. */
  ghost function Twice(w: World, e: Event): (r: int)
    requires w.running != []
  {
    if e.Return? then CountedTwice(w.running, e.fp) else 0
  }

  ghost predicate Leafless(w: World, e: Event)
    requires w.running != []
  {
    e.Return? ==> DropsOnlyLeaves(w.running, e.fp)
  }

  function Duration(e: Event): (r: nat) { if e.Pass? then e.cycles else 0 }

  lemma StepConserves(w: World, e: Event)
    requires WellFormed(w) && Possible(w, e)
    ensures Counted(Step(w, e)) == Counted(w) + Duration(e) + Twice(w, e)
    ensures Step(w, e).now == w.now + Duration(e)
  {
    match e
    case Pass(d) =>
      TimePasses(w.running, 0, w.now, d);
    case Call(code, fp) =>
      BeginKeepsOwn(w.running, 0, w.now, code, fp);
    case Return(fp, caller) =>
      EndConserves(w.running, w.now, fp, caller);
    case SwitchTo(i) =>
      var p := w.parked[i];
      ResumeKeepsOwn(p.stack, 0, p.since, w.now);
      ParkedUpdate(w.parked, i, Parked(w.running, w.now));
    case SwitchNew(code) =>
      var ps := w.parked + [Parked(w.running, w.now)];
      assert ps[..|w.parked|] == w.parked;
      assert AllOwn(NewStack(w.now, code), w.now) == 0;
  }

  lemma StepStaysWellFormed(w: World, e: Event)
    requires WellFormed(w) && Possible(w, e)
    ensures WellFormed(Step(w, e))
    ensures Twice(w, e) >= 0 && (Twice(w, e) == 0 <==> Leafless(w, e))
  {
    match e
    case Pass(d) =>
    case Call(code, fp) =>
      StacksStay(w.running, w.now, code, fp, code, 0);
      assert Below(Begun(w.running, w.now, code, fp)) == w.running;
    case Return(fp, caller) =>
      StacksStay(w.running, w.now, caller, fp, caller, 0);
      UnwindSane(w.running, w.now, fp);
      FinishSane(Unwound(w.running, fp), w.now, caller);
    case SwitchTo(i) =>
      var p := w.parked[i];
      StacksStay(p.stack, w.now, Top(p.stack).code, 0, Top(p.stack).code, p.since);
      assert Below(Resumed(p.stack, p.since, w.now)) == Below(p.stack);
    case SwitchNew(code) =>
      assert Below(NewStack(w.now, code)) == [];
  }

  ghost predicate PossibleRun(w: World, es: seq<Event>)
    requires WellFormed(w)
    decreases |es|
  {
    if es == [] then true
    else if !Possible(w, es[0]) then false
    else StepStaysWellFormed(w, es[0]); PossibleRun(Step(w, es[0]), es[1..])
  }

  ghost function Run(w: World, es: seq<Event>): (r: World)
    requires WellFormed(w) && PossibleRun(w, es)
    decreases |es|
  {
    if es == [] then w
    else StepStaysWellFormed(w, es[0]); Run(Step(w, es[0]), es[1..])
  }

  /** In a run, only frames that called nothing are ever dropped. */
  ghost predicate LeaflessRun(w: World, es: seq<Event>)
    requires WellFormed(w) && PossibleRun(w, es)
    decreases |es|
  {
    es == [] || (Leafless(w, es[0]) && (StepStaysWellFormed(w, es[0]); LeaflessRun(Step(w, es[0]), es[1..])))
  }

  /** Over every run no cycle is lost; and every cycle that passes is counted exactly
      once, as the local cycles of one frame of one thread, if and only if no dropped
      frame had child cycles. */
  lemma {:induction false} Conservation(w: World, es: seq<Event>)
    requires WellFormed(w) && PossibleRun(w, es)
    ensures WellFormed(Run(w, es))
    ensures Counted(Run(w, es)) - Counted(w) >= Run(w, es).now - w.now
    ensures Counted(Run(w, es)) - Counted(w) == Run(w, es).now - w.now <==> LeaflessRun(w, es)
    decreases |es|
  {
    if es != [] {
      StepStaysWellFormed(w, es[0]);
      StepConserves(w, es[0]);
      Conservation(Step(w, es[0]), es[1..]);
    }
  }

  /** The first thread begins. */
  ghost function FirstWorld(start: int, code: Code): (w: World)
    ensures WellFormed(w) && Counted(w) == 0 && w.now == start
  {
    var s := NewStack(start, code);
    assert Below(s) == [] && AllOwn([], start) == 0;
    assert Sane([], start);
    World(start, s, [], 0)
  }

  /** From the first thread on, through any run without such drops: the profile and
      the open frames together hold all cycles since its start. */
  lemma AllCyclesCounted(start: int, code: Code, es: seq<Event>)
    requires PossibleRun(FirstWorld(start, code), es) && LeaflessRun(FirstWorld(start, code), es)
    ensures var w := Run(FirstWorld(start, code), es); Counted(w) == w.now - start
  {
    Conservation(FirstWorld(start, code), es);
  }

  lemma RunStep(w: World, e: Event, es: seq<Event>)
    requires WellFormed(w) && Possible(w, e)
    requires WellFormed(Step(w, e)) && PossibleRun(Step(w, e), es)
    ensures PossibleRun(w, [e] + es) && Run(w, [e] + es) == Run(Step(w, e), es)
    ensures LeaflessRun(w, [e] + es) <==> Leafless(w, e) && LeaflessRun(Step(w, e), es)
  {
    assert ([e] + es)[1..] == es;
  }

  /** A call has itself called and been returned to, but gives up its frame without a
      return: the next return drops a frame with child cycles. */
  lemma DropsWithChild(w: World, code: Code)
    requires WellFormed(w) && |w.running| == 2 && Top(w.running).fp == 0x20 && Top(w.running).child > 0
    ensures PossibleRun(w, [Return(0x30, code)]) && !LeaflessRun(w, [Return(0x30, code)])
    ensures Run(w, [Return(0x30, code)]).now == w.now
  {
    var e := Return(0x30, code);
    StepStaysWellFormed(w, e);
    assert Run(Step(w, e), []) == Step(w, e);
    RunStep(w, e, []);
    assert [e] + [] == [e];
  }

  /** A run of the first thread, one cycle long, that counts the cycle twice. */
  lemma SomeCyclesCountedTwice(addr: word) returns (es: seq<Event>)
    ensures var w := FirstWorld(0, Code(addr, false));
            && PossibleRun(w, es) && !LeaflessRun(w, es)
            && Run(w, es).now == 1 && Counted(Run(w, es)) > 1
  {
    var code := Code(addr, false);
    var w := FirstWorld(0, code);
    var w1 := Step(w, Call(code, 0x20));
    StepStaysWellFormed(w, Call(code, 0x20));
    var w2 := Step(w1, Call(code, 0x10));
    StepStaysWellFormed(w1, Call(code, 0x10));
    var w3 := Step(w2, Pass(1));
    StepStaysWellFormed(w2, Pass(1));
    var w4 := Step(w3, Return(0x10, code));
    StepStaysWellFormed(w3, Return(0x10, code));
    assert Unwound(w3.running, 0x10) == w3.running;
    assert Below(w3.running) == w1.running;
    assert w4.running == Below(w1.running) + [Top(w1.running).(child := 1)];
    var es4 := [Return(0x30, code)];
    DropsWithChild(w4, code);
    RunStep(w3, Return(0x10, code), es4);
    var es3 := [Return(0x10, code)] + es4;
    RunStep(w2, Pass(1), es3);
    var es2 := [Pass(1)] + es3;
    RunStep(w1, Call(code, 0x10), es2);
    var es1 := [Call(code, 0x10)] + es2;
    RunStep(w, Call(code, 0x20), es1);
    es := [Call(code, 0x20)] + es1;
    Conservation(w, es);
  }

  // ----------------------------------------------------- closing a thread

  /** The entries of closing all frames of a thread, from the top down. */
  ghost function Closed(s: seq<Frame>, now: int): (r: seq<Entry>)
    requires IsStack(s)
    decreases |s|
  {
    if |s| == 1 then [EntryOf(s[0], now)]
    else [EntryOf(Top(s), now)] + Closed(Finished(s, now), now)
  }

  /** Closing a thread records the own cycles of each of its frames. */
  lemma {:induction false} ClosingRecordsOwn(s: seq<Frame>, now: int, i: nat)
    requires IsStack(s) && i < |s|
    ensures |Closed(s, now)| == |s|
    ensures Closed(s, now)[|s| - 1 - i].local == Own(s, i, now)
    decreases |s|
  {
    if |s| > 1 {
      FinishRecordsOwn(s, if i + 1 < |s| then i else 0, now);
      ClosingRecordsOwn(Finished(s, now), now, if i + 1 < |s| then i else 0);
    }
  }

  ghost function LocalSum(entries: seq<Entry>): (r: int) {
    if entries == [] then 0 else entries[0].local + LocalSum(entries[1..])
  }

  /** The entries of a closed thread add up to the cycles counted for it. */
  lemma {:induction false} ClosingConserves(s: seq<Frame>, now: int)
    requires IsStack(s)
    ensures LocalSum(Closed(s, now)) == AllOwn(s, now)
    decreases |s|
  {
    if |s| > 1 {
      FinishRecordsOwn(s, 0, now);
      ClosingConserves(Finished(s, now), now);
      var rest := Closed(Finished(s, now), now);
      assert ([EntryOf(Top(s), now)] + rest)[1..] == rest;
    } else {
      assert Below(s) == [];
    }
  }
}
