/**
 The profiler's frame stacks as values, and what its cycle counts mean.

 A frame on a stack counts the cycles since its start that were not its own: those
 of calls it made, of interrupt handlers, and of other threads.  What is left are
 the cycles in which the frame was the top of the running thread.
 */
module ProfilerFrames {
  import opened Words

  /** A code address without its lowest bit, and that bit: set for handlers. */
  datatype Code = Code(addr: word, handler: bool)

  datatype Frame = Frame(start: int, child: int, irq: int, thread: int, code: Code, fp: word)

  /** What is added to the profile of the code of a finished frame. */
  datatype Entry = Entry(code: Code, local: int, total: int, irq: int)

  /** The stack of a thread: the bottom frame first; it alone has no frame pointer. */
  ghost predicate IsStack(s: seq<Frame>) {
    s != [] && s[0].fp == 0 && forall i :: 0 < i < |s| ==> s[i].fp != 0
  }

  function Top(s: seq<Frame>): (r: Frame)
    requires s != []
  {
    s[|s| - 1]
  }

  function Below(s: seq<Frame>): (r: seq<Frame>)
    requires s != []
  {
    s[..|s| - 1]
  }

  function Total(f: Frame, now: int): (r: int) { now - f.start - f.thread - f.irq }

  function Local(f: Frame, now: int): (r: int) { Total(f, now) - f.child }

  function EntryOf(f: Frame, now: int): (r: Entry) {
    Entry(f.code, Local(f, now), Total(f, now), f.irq)
  }

  function NewFrame(now: int, code: Code, fp: word): (r: Frame) {
    Frame(now, 0, 0, 0, code, fp)
  }

  // -------------------------------------------------------------- operations

  function Begun(s: seq<Frame>, now: int, code: Code, fp: word): (r: seq<Frame>) {
    s + [NewFrame(now, code, fp)]
  }

  /** The caller of a finished frame takes over its counts. */
  function Credited(caller: Frame, f: Frame, now: int): (r: Frame) {
    var total := Total(f, now);
    caller.(irq := caller.irq + f.irq + (if f.code.handler then total else 0),
            thread := caller.thread + f.thread,
            child := caller.child + (if f.code.handler then 0 else total))
  }

  /** The caller of a frame without a return takes over less: not its child cycles. */
  function Absorbing(caller: Frame, f: Frame): (r: Frame) {
    caller.(irq := caller.irq + f.irq, thread := caller.thread + f.thread)
  }

  predicate Stale(s: seq<Frame>, fp: word)
    requires s != []
  {
    |s| > 1 && Top(s).fp != 0 && Top(s).fp < fp
  }

  function Dropped(s: seq<Frame>): (r: seq<Frame>)
    requires |s| > 1
  {
    var rest := Below(s);
    Below(rest) + [Absorbing(Top(rest), Top(s))]
  }

  /** Drops the frames that should have returned before the one at `fp`. */
  function Unwound(s: seq<Frame>, fp: word): (r: seq<Frame>)
    requires s != []
    ensures r != [] && !Stale(r, fp)
    decreases |s|
  {
    if Stale(s, fp) then Unwound(Dropped(s), fp) else s
  }

  /** A return from the bottom frame gets a caller that starts now. */
  function Rooted(s: seq<Frame>, now: int, caller: Code): (r: seq<Frame>)
    requires s != []
    ensures |r| > 1
  {
    if |s| == 1 then [NewFrame(now, caller, 0), s[0]] else s
  }

  function Finished(s: seq<Frame>, now: int): (r: seq<Frame>)
    requires |s| > 1
  {
    var rest := Below(s);
    if Top(s).fp == 0 then rest else Below(rest) + [Credited(Top(rest), Top(s), now)]
  }

  function Ended(s: seq<Frame>, now: int, fp: word, caller: Code): (r: seq<Frame>)
    requires s != []
  {
    Finished(Rooted(Unwound(s, fp), now, caller), now)
  }

  function EndEntry(s: seq<Frame>, now: int, fp: word): (r: Entry)
    requires s != []
  {
    EntryOf(Top(Unwound(s, fp)), now)
  }

  /** A thread that runs again charges the time since it was left to its top frame. */
  function Resumed(s: seq<Frame>, since: int, now: int): (r: seq<Frame>)
    requires s != []
  {
    var f := Top(s);
    Below(s) + [f.(thread := f.thread + (now - since))]
  }

  function NewStack(now: int, code: Code): (r: seq<Frame>) {
    [NewFrame(now, code, 0)]
  }

  lemma StacksStay(s: seq<Frame>, now: int, code: Code, fp: word, caller: Code, since: int)
    requires IsStack(s)
    ensures fp != 0 ==> IsStack(Begun(s, now, code, fp))
    ensures IsStack(Unwound(s, fp)) && IsStack(Ended(s, now, fp, caller))
    ensures IsStack(Resumed(s, since, now)) && IsStack(NewStack(now, code))
  {
    UnwoundIsStack(s, fp);
  }

  lemma {:induction false} UnwoundIsStack(s: seq<Frame>, fp: word)
    requires IsStack(s)
    ensures IsStack(Unwound(s, fp))
    decreases |s|
  {
    if Stale(s, fp) {
      UnwoundIsStack(Dropped(s), fp);
    }
  }

  /** Unwinding and ending only take frames off the top. */
  lemma {:induction false} UnwoundKeepsCodes(s: seq<Frame>, fp: word)
    requires s != []
    ensures |Unwound(s, fp)| <= |s| && forall i :: 0 <= i < |Unwound(s, fp)| ==> Unwound(s, fp)[i].code == s[i].code
    decreases |s|
  {
    if Stale(s, fp) {
      UnwoundKeepsCodes(Dropped(s), fp);
    }
  }

  lemma EndedKeepsCodes(s: seq<Frame>, now: int, fp: word, caller: Code)
    requires IsStack(s)
    ensures var e := Ended(s, now, fp, caller);
            |e| <= |s| && forall i :: 0 <= i < |e| - 1 ==> e[i].code == s[i].code
  {
    UnwoundKeepsCodes(s, fp);
    UnwoundIsStack(s, fp);
  }

  // --------------------------------------------------------- what is counted

  /** The cycles of frame i in which it was the top of the running thread, when the
      thread has run until `now`. */
  ghost function Own(s: seq<Frame>, i: nat, now: int): (r: int)
    requires i < |s|
  {
    Local(s[i], if i + 1 < |s| then s[i + 1].start else now)
  }

  /** The own cycles of all frames. */
  ghost function AllOwn(s: seq<Frame>, now: int): (r: int)
    decreases |s|
  {
    if s == [] then 0 else Local(Top(s), now) + AllOwn(Below(s), Top(s).start)
  }

  /** While time passes, exactly the top frame's own cycles grow. */
  lemma TimePasses(s: seq<Frame>, i: nat, now: int, d: int)
    requires i < |s|
    ensures Own(s, i, now + d) == Own(s, i, now) + (if i + 1 == |s| then d else 0)
    ensures AllOwn(s, now + d) == AllOwn(s, now) + d
  {
  }

  /** A call leaves every frame's own cycles alone and starts with none. */
  lemma BeginKeepsOwn(s: seq<Frame>, i: nat, now: int, code: Code, fp: word)
    requires i < |s|
    ensures Own(Begun(s, now, code, fp), i, now) == Own(s, i, now)
    ensures Own(Begun(s, now, code, fp), |s|, now) == 0
    ensures AllOwn(Begun(s, now, code, fp), now) == AllOwn(s, now)
  {
    assert Below(Begun(s, now, code, fp)) == s;
  }

  /** Being away costs no frame of the thread anything. */
  lemma ResumeKeepsOwn(s: seq<Frame>, i: nat, since: int, now: int)
    requires i < |s|
    ensures Own(Resumed(s, since, now), i, now) == Own(s, i, since)
    ensures AllOwn(Resumed(s, since, now), now) == AllOwn(s, since)
  {
    assert Below(Resumed(s, since, now)) == Below(s);
  }

  /** Dropping a frame gives its caller the dropped frame's own cycles, and its child
      cycles a second time. */
  lemma DropMovesOwn(s: seq<Frame>, i: nat, now: int)
    requires |s| > 1 && i + 1 < |s|
    ensures Own(Dropped(s), i, now) == Own(s, i, now)
                                       + (if i + 2 == |s| then Own(s, |s| - 1, now) + Top(s).child else 0)
    ensures AllOwn(Dropped(s), now) == AllOwn(s, now) + Top(s).child
  {
    assert Below(Dropped(s)) == Below(Below(s));
  }

  /** A finished frame's own cycles are what its entry records; those of all frames
      below stay. */
  lemma FinishRecordsOwn(s: seq<Frame>, i: nat, now: int)
    requires |s| > 1 && i + 1 < |s| && Top(s).fp != 0
    ensures Own(Finished(s, now), i, now) == Own(s, i, now)
    ensures EntryOf(Top(s), now).local == Own(s, |s| - 1, now)
    ensures AllOwn(Finished(s, now), now) + EntryOf(Top(s), now).local == AllOwn(s, now)
  {
    assert Below(Finished(s, now)) == Below(Below(s));
  }

  /** The same for a bottom frame, whose caller starts at that moment. */
  lemma BottomRecordsOwn(s: seq<Frame>, now: int, caller: Code)
    requires |s| == 1 && s[0].fp == 0
    ensures Finished(Rooted(s, now, caller), now) == NewStack(now, caller)
    ensures EntryOf(s[0], now).local == Own(s, 0, now) == AllOwn(s, now)
    ensures AllOwn(NewStack(now, caller), now) == 0
  {
    assert Below(Rooted(s, now, caller)) == NewStack(now, caller);
  }
}
