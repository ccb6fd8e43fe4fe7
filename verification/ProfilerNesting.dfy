/**
 Properly matched runs of one thread, and the exact meaning of everything the
 profiler records for them.
 */
module ProfilerNesting {
  import opened Words
  import opened ProfilerFrames

  /** What a function does: work, time away in other threads, calls and interrupts
      that return; `next` is the rest of what it does. */
  datatype Activity =
    | Done
    | Work(cycles: nat, next: Activity)
    | Away(cycles: nat, next: Activity)
    | Call(code: Code, fp: word, body: Activity, next: Activity)

  ghost predicate Nonzero(a: Activity) {
    match a
    case Done => true
    case Work(_, next) => Nonzero(next)
    case Away(_, next) => Nonzero(next)
    case Call(_, fp, body, next) => fp != 0 && Nonzero(body) && Nonzero(next)
  }

  /** What the profiler holds of one thread: its stack, and the entries recorded. */
  datatype View = View(stack: seq<Frame>, now: int, entries: seq<Entry>)

  function BeginCall(v: View, code: Code, fp: word): (r: View) {
    v.(stack := Begun(v.stack, v.now, code, fp))
  }

  function EndCall(v: View, code: Code, fp: word): (r: View)
    requires v.stack != []
  {
    v.(stack := Ended(v.stack, v.now, fp, code), entries := v.entries + [EndEntry(v.stack, v.now, fp)])
  }

  function GoAway(v: View, cycles: nat): (r: View)
    requires v.stack != []
  {
    View(Resumed(v.stack, v.now, v.now + cycles), v.now + cycles, v.entries)
  }

  function Perform(v: View, a: Activity): (r: View)
    requires v.stack != []
    ensures r.stack != []
    decreases a
  {
    match a
    case Done => v
    case Work(d, next) => Perform(v.(now := v.now + d), next)
    case Away(d, next) => Perform(GoAway(v, d), next)
    case Call(code, fp, body, next) =>
      Perform(EndCall(Perform(BeginCall(v, code, fp), body), code, fp), next)
  }

  // ------------------------------------------------------------ true costs

  /** Cycles of work at the outermost level. */
  function Direct(a: Activity): (r: nat) {
    match a
    case Done => 0
    case Work(d, next) => d + Direct(next)
    case Away(_, next) => Direct(next)
    case Call(_, _, _, next) => Direct(next)
  }

  /** Cycles spent in other threads, at any depth. */
  function Elsewhere(a: Activity): (r: nat) {
    match a
    case Done => 0
    case Work(_, next) => Elsewhere(next)
    case Away(d, next) => d + Elsewhere(next)
    case Call(_, _, body, next) => Elsewhere(body) + Elsewhere(next)
  }

  /** Cycles of interrupt handlers, at any depth. */
  function Interrupted(a: Activity): (r: nat) {
    match a
    case Done => 0
    case Work(_, next) => Interrupted(next)
    case Away(_, next) => Interrupted(next)
    case Call(code, _, body, next) =>
      (if code.handler then Direct(body) + Called(body) + Interrupted(body) else Interrupted(body)) + Interrupted(next)
  }

  /** Cycles of ordinary calls, with what they call, but without handlers. */
  function Called(a: Activity): (r: nat) {
    match a
    case Done => 0
    case Work(_, next) => Called(next)
    case Away(_, next) => Called(next)
    case Call(code, _, body, next) =>
      (if code.handler then 0 else Direct(body) + Called(body)) + Called(next)
  }

  /** All cycles that pass. */
  function Span(a: Activity): (r: nat) {
    match a
    case Done => 0
    case Work(d, next) => d + Span(next)
    case Away(d, next) => d + Span(next)
    case Call(_, _, body, next) => Span(body) + Span(next)
  }

  /** What a profile of the activity should list, in the order of the returns. */
  function Expected(a: Activity): (r: seq<Entry>) {
    match a
    case Done => []
    case Work(_, next) => Expected(next)
    case Away(_, next) => Expected(next)
    case Call(code, _, body, next) =>
      Expected(body) + [Entry(code, Direct(body), Direct(body) + Called(body), Interrupted(body))] + Expected(next)
  }

  function LocalCycles(entries: seq<Entry>): (r: int) {
    if entries == [] then 0 else LocalCycles(entries[..|entries| - 1]) + entries[|entries| - 1].local
  }

  /** The top frame charged with cycles that were not its own work. */
  function Charged(s: seq<Frame>, called: int, irq: int, away: int): (r: seq<Frame>)
    requires s != []
  {
    var f := Top(s);
    Below(s) + [f.(child := f.child + called, irq := f.irq + irq, thread := f.thread + away)]
  }

  function ChargedFor(s: seq<Frame>, a: Activity): (r: seq<Frame>)
    requires s != []
  {
    Charged(s, Called(a), Interrupted(a), Elsewhere(a))
  }

  lemma {:induction false} SpanParts(a: Activity)
    ensures Span(a) == Direct(a) + Called(a) + Interrupted(a) + Elsewhere(a)
  {
    match a
    case Done =>
    case Work(_, next) => SpanParts(next);
    case Away(_, next) => SpanParts(next);
    case Call(_, _, body, next) =>
      SpanParts(body);
      SpanParts(next);
  }

  /** One call, from its begin to its end: its entry tells the truth about its body,
      and its caller is charged with it. */
  lemma CallIsCharged(s: seq<Frame>, now: int, code: Code, fp: word, direct: int, called: int, irq: int, away: int,
                      inner: seq<Frame>, end: int)
    requires s != [] && fp != 0
    requires inner == Charged(Begun(s, now, code, fp), called, irq, away)
    requires end == now + direct + called + irq + away
    ensures EndEntry(inner, end, fp) == Entry(code, direct, direct + called, irq)
    ensures Ended(inner, end, fp, code)
         == if code.handler then Charged(s, 0, direct + called + irq, away) else Charged(s, direct + called, irq, away)
  {
    assert Below(inner) == s && Top(inner).fp == fp;
    assert Unwound(inner, fp) == inner;
  }

  lemma ChargedTwice(s: seq<Frame>, c1: int, i1: int, a1: int, c2: int, i2: int, a2: int)
    requires s != []
    ensures Charged(Charged(s, c1, i1, a1), c2, i2, a2) == Charged(s, c1 + c2, i1 + i2, a1 + a2)
  {
    assert Below(Charged(s, c1, i1, a1)) == Below(s);
  }

  lemma ResumedIsCharged(s: seq<Frame>, now: int, d: int)
    requires s != []
    ensures Resumed(s, now, now + d) == Charged(s, 0, 0, d)
  {
  }

  lemma NotCharged(s: seq<Frame>)
    requires s != []
    ensures Charged(s, 0, 0, 0) == s
  {
  }

  /** The caller after one call. */
  function ChargedCall(s: seq<Frame>, code: Code, body: Activity): (r: seq<Frame>)
    requires s != []
  {
    var cost, irq := Direct(body) + Called(body), Interrupted(body);
    if code.handler then Charged(s, 0, cost + irq, Elsewhere(body)) else Charged(s, cost, irq, Elsewhere(body))
  }

  /** The same with the costs of a body, which fill the time from its begin to its end. */
  lemma BodyIsCharged(s: seq<Frame>, now: int, code: Code, fp: word, body: Activity, inner: seq<Frame>, end: int,
                      d: int, c: int, i: int, a: int)
    requires s != [] && fp != 0
    requires d == Direct(body) && c == Called(body) && i == Interrupted(body) && a == Elsewhere(body)
    requires inner == Charged(Begun(s, now, code, fp), c, i, a) && end == now + Span(body)
    ensures EndEntry(inner, end, fp) == Entry(code, d, d + c, i)
    ensures Ended(inner, end, fp, code) == if code.handler then Charged(s, 0, d + c + i, a) else Charged(s, d + c, i, a)
  {
    SpanParts(body);
    CallIsCharged(s, now, code, fp, d, c, i, a, inner, end);
  }

  lemma ChargedOn(s: seq<Frame>, code: Code, fp: word, body: Activity, next: Activity)
    requires s != []
    ensures ChargedFor(ChargedCall(s, code, body), next) == ChargedFor(s, Call(code, fp, body, next))
  {
    var cost, irq := Direct(body) + Called(body), Interrupted(body);
    var c, i := if code.handler then 0 else cost, if code.handler then cost + irq else irq;
    ChargedTwice(s, c, i, Elsewhere(body), Called(next), Interrupted(next), Elsewhere(next));
  }

  /** The profiler's view after an activity, if it tells the truth. */
  function Truth(v: View, a: Activity): (r: View)
    requires v.stack != []
  {
    View(ChargedFor(v.stack, a), v.now + Span(a), v.entries + Expected(a))
  }

  /** The truth after one whole call. */
  function TruthOfCall(v: View, code: Code, body: Activity): (r: View)
    requires v.stack != []
  {
    var entry := Entry(code, Direct(body), Direct(body) + Called(body), Interrupted(body));
    View(ChargedCall(v.stack, code, body), v.now + Span(body), v.entries + Expected(body) + [entry])
  }

  lemma CallEndsTrue(v: View, code: Code, fp: word, body: Activity, inner: View, end: View)
    requires v.stack != [] && fp != 0
    requires inner == Truth(BeginCall(v, code, fp), body) && end == TruthOfCall(v, code, body)
    ensures EndCall(inner, code, fp) == end
  {
    var d, c, i, a := Direct(body), Called(body), Interrupted(body), Elsewhere(body);
    BodyIsCharged(v.stack, v.now, code, fp, body, inner.stack, inner.now, d, c, i, a);
    assert end.stack == if code.handler then Charged(v.stack, 0, d + c + i, a) else Charged(v.stack, d + c, i, a);
    assert end.entries == inner.entries + [Entry(code, d, d + c, i)];
  }

  lemma TruthGoesOn(v: View, code: Code, fp: word, body: Activity, next: Activity)
    requires v.stack != []
    ensures Truth(TruthOfCall(v, code, body), next) == Truth(v, Call(code, fp, body, next))
  {
    ChargedOn(v.stack, code, fp, body, next);
    var entry := Entry(code, Direct(body), Direct(body) + Called(body), Interrupted(body));
    Regroup(v.entries, Expected(body), [entry], Expected(next));
  }

  lemma Regroup(a: seq<Entry>, b: seq<Entry>, c: seq<Entry>, d: seq<Entry>)
    ensures a + b + c + d == a + (b + c + d)
  {
  }

  lemma TruthOfAway(v: View, d: nat, next: Activity)
    requires v.stack != []
    ensures Truth(GoAway(v, d), next) == Truth(v, Away(d, next))
  {
    ResumedIsCharged(v.stack, v.now, d);
    ChargedTwice(v.stack, 0, 0, d, Called(next), Interrupted(next), Elsewhere(next));
  }

  lemma TruthOfWork(v: View, d: nat, next: Activity)
    requires v.stack != []
    ensures Truth(v.(now := v.now + d), next) == Truth(v, Work(d, next))
  {
  }

  lemma TruthOfNothing(v: View)
    requires v.stack != []
    ensures Truth(v, Done) == v
  {
    NotCharged(v.stack);
  }

  /** Whatever a function does, with calls, interrupts and thread switches nested to
      any depth: the profile lists exactly the true costs of every call in it, the
      frames below are untouched, and the function's own frame is charged with what
      was not its own work. */
  lemma {:induction false} ProfileIsTrue(v: View, a: Activity)
    requires v.stack != [] && Nonzero(a)
    ensures Perform(v, a) == Truth(v, a)
    decreases a
  {
    match a
    case Done =>
      TruthOfNothing(v);
    case Work(d, next) =>
      ProfileIsTrue(v.(now := v.now + d), next);
      TruthOfWork(v, d, next);
    case Away(d, next) =>
      ProfileIsTrue(GoAway(v, d), next);
      TruthOfAway(v, d, next);
    case Call(code, fp, body, next) =>
      var begun, end := BeginCall(v, code, fp), TruthOfCall(v, code, body);
      ProfileIsTrue(begun, body);
      ProfileIsTrue(end, next);
      CallIsTrue(v, code, fp, body, next, begun, Truth(begun, body), end);
  }

  lemma CallIsTrue(v: View, code: Code, fp: word, body: Activity, next: Activity, begun: View, inner: View, end: View)
    requires v.stack != [] && fp != 0
    requires begun == BeginCall(v, code, fp) && inner == Truth(begun, body) && end == TruthOfCall(v, code, body)
    requires Perform(begun, body) == inner && Perform(end, next) == Truth(end, next)
    ensures Perform(v, Call(code, fp, body, next)) == Truth(v, Call(code, fp, body, next))
  {
    CallEndsTrue(v, code, fp, body, inner, end);
    TruthGoesOn(v, code, fp, body, next);
  }

  lemma {:induction false} LocalOfConcat(a: seq<Entry>, b: seq<Entry>)
    ensures LocalCycles(a + b) == LocalCycles(a) + LocalCycles(b)
    decreases |b|
  {
    if b == [] {
      assert a + b == a;
    } else {
      var n := |b| - 1;
      LocalOfConcat(a, b[..n]);
      assert (a + b)[..|a + b| - 1] == a + b[..n];
    }
  }

  /** Conservation for one function: the cycles from its start to its end are its
      local cycles, the local cycles of every call and handler nested in it, and the
      cycles spent in other threads. */
  lemma {:induction false} CyclesConserved(a: Activity)
    ensures Span(a) == Direct(a) + LocalCycles(Expected(a)) + Elsewhere(a)
  {
    match a
    case Done =>
    case Work(_, next) => CyclesConserved(next);
    case Away(_, next) => CyclesConserved(next);
    case Call(code, _, body, next) =>
      CyclesConserved(body);
      CyclesConserved(next);
      var e := [Entry(code, Direct(body), Direct(body) + Called(body), Interrupted(body))];
      assert e[..0] == [];
      LocalOfConcat(Expected(body), e);
      LocalOfConcat(Expected(body) + e, Expected(next));
  }
}
