/**
 The profiler in place: one record per thread in a hash table keyed by saved stack
 pointer, the running thread under key 0 and in a field of its own.
 */
module Profiler {
  import opened Wrappers
  import opened Words
  import opened HashTable
  import opened ProfilerFrames
  import opened ProfilerHistory
  import opened ProfilerTables

  class ThreadInfo {
    var saveFp: word
    var minFp: word
    var switchCycle: int
    var sizeFrames: nat
    var frames: seq<Frame>

    constructor (saveFp: word, minFp: word, switchCycle: int, sizeFrames: nat, frames: seq<Frame>)
      ensures this.saveFp == saveFp && this.minFp == minFp && this.switchCycle == switchCycle
      ensures this.sizeFrames == sizeFrames && this.frames == frames
    {
      this.saveFp, this.minFp, this.switchCycle := saveFp, minFp, switchCycle;
      this.sizeFrames, this.frames := sizeFrames, frames;
    }
  }

  /** A thread's stack fits its record, and its callers have profiles. */
  ghost predicate ThreadOk(t: ThreadInfo, profiles: Profiles)
    reads t
  {
    && IsStack(t.frames) && |t.frames| <= t.sizeFrames
    && forall i :: 0 <= i < |t.frames| - 1 ==> t.frames[i].code.addr in profiles
  }

  /** A thread that has just started. */
  ghost predicate IsNew(t: ThreadInfo, fp: word, cycles: int, code: Code)
    reads t
  {
    var started := t.frames == NewStack(cycles, code) && t.switchCycle == cycles && t.minFp == fp;
    started
  }

  ghost predicate SameRecord(t: ThreadInfo, c: ThreadInfo)
    reads t, c
  {
    var same := t.frames == c.frames && t.minFp == c.minFp && t.switchCycle == c.switchCycle && t.saveFp == c.saveFp;
    same
  }

  /** A thread that has been left. */
  twostate predicate IsLeft(t: ThreadInfo, fp: word, cycles: int)
    reads t
  {
    var left := t.frames == old(t.frames) && t.switchCycle == cycles && t.saveFp == fp;
    left
  }

  /** A thread that has been left runs again. */
  twostate predicate IsBack(t: ThreadInfo, cycles: int)
    requires old(t.frames) != []
    reads t
  {
    var back := t.frames == Resumed(old(t.frames), old(t.switchCycle), cycles);
    back
  }

  class FrameProfiler {
    const threads: Table<ThreadInfo>
    var current: Option<ThreadInfo>
    var profiles: Profiles
    /** The stack pointer by which each thread is filed; 0 for the running one. */
    ghost var filed: map<ThreadInfo, nat>

    ghost predicate Registry()
      reads this`current, this`filed, threads
    {
      var filesAll := threads.Valid() && Files(threads.Contents(), filed) && ZeroRuns(filed, current);
      filesAll
    }

    ghost predicate Valid()
      reads this, threads, filed.Keys
    {
      var sound := Registry() && forall t :: t in filed ==> ThreadOk(t, profiles);
      sound
    }

    /** The running thread is the record the table finds under key 0, and the only one
        with that key; without a running thread key 0 finds nothing. */
    lemma CurrentIsKeyZero()
      requires Registry()
      ensures Find(threads.list[Slot(0, threads.size)], 0) == current
      ensures current.Some? ==> threads.Contents()[Bucket(0, current.value)] == 1
      ensures forall b :: b in threads.Contents() && b.key == 0 ==> current == Some(b.data)
    {
      TableFinds(threads.list, filed, current, 0);
    }

    constructor ()
      ensures Valid() && current == None && profiles == map[] && filed == map[] && fresh(threads)
    {
      threads := new Table<ThreadInfo>(5);
      current, profiles, filed := None, map[], map[];
    }

    // -------------------------------------------------------------- switch

    /** Files the running thread under a stack pointer. */
    method Rename(t: ThreadInfo, oldFp: word)
      requires Registry() && current == Some(t) && oldFp != 0
      modifies this`current, this`filed, threads
      ensures Registry() && current == None && filed == old(filed)[t := oldFp]
    {
      TableFinds(threads.list, filed, current, 0);
      var moved := threads.Move(0, oldFp);
      RefiledBuckets(old(threads.Contents()), threads.Contents(), filed, t, oldFp);
      current := None;
      filed := filed[t := oldFp];
    }

    /** Leaves the running thread at a stack pointer. */
    method Park(t: ThreadInfo, oldFp: word, cycles: int)
      requires Valid() && current == Some(t) && t in filed && oldFp != 0
      modifies this`current, this`filed, threads, t
      ensures Valid() && current == None && filed == old(filed)[t := oldFp]
      ensures IsLeft(t, oldFp, cycles)
    {
      t.switchCycle := cycles;
      t.saveFp := oldFp;
      Rename(t, oldFp);
    }

    /** Looks for a thread filed under a stack pointer and makes it the running one. */
    method Unfile(newFp: word)
      requires Registry() && current == None && newFp != 0
      modifies this`current, this`filed, threads
      ensures Registry()
      ensures current.Some? ==>
                && current.value in old(filed) && old(filed)[current.value] == newFp
                && filed == old(filed)[current.value := 0]
      ensures current.None? ==> filed == old(filed) && forall t :: t in filed ==> filed[t] != newFp
    {
      TableFinds(threads.list, filed, current, newFp);
      var found := threads.Move(newFp, 0);
      if found.Some? {
        RefiledBuckets(old(threads.Contents()), threads.Contents(), filed, found.value, 0);
        filed := filed[found.value := 0];
      }
      current := found;
    }

    /** Enters a new record as the running thread. */
    method Enter(t: ThreadInfo)
      requires Registry() && current == None && t !in filed
      modifies this`current, this`filed, threads
      ensures Registry() && current == Some(t) && filed == old(filed)[t := 0]
    {
      threads.Create(0, t);
      EnteredBuckets(old(threads.Contents()), threads.Contents(), filed, t);
      current := Some(t);
      filed := filed[t := 0];
    }

    /** Makes a record for a thread not seen before. */
    method CreateThread(newFp: word, cycles: int, code: Code) returns (t: ThreadInfo)
      requires Valid() && current == None
      modifies this`current, this`filed, threads
      ensures Valid() && current == Some(t) && fresh(t) && filed == old(filed)[t := 0]
      ensures IsNew(t, newFp, cycles, code)
    {
      t := new ThreadInfo(0, newFp, cycles, 2, NewStack(cycles, code));
      assert ThreadOk(t, profiles);
      Enter(t);
    }

    /** Makes the thread of a stack pointer the running one, if need be a new one. */
    method Acquire(newFp: word, cycles: int, code: Code) returns (t: ThreadInfo, ghost known: bool)
      requires Valid() && current == None && newFp != 0
      modifies this`current, this`filed, threads
      ensures Valid() && current == Some(t) && filed == old(filed)[t := 0]
      ensures known ==> t in old(filed) && old(filed)[t] == newFp
      ensures !known ==>
                && (forall r :: r in old(filed) ==> old(filed)[r] != newFp)
                && fresh(t) && IsNew(t, newFp, cycles, code)
      ensures forall r :: r in old(filed) ==> unchanged(r)
    {
      Unfile(newFp);
      if current.Some? {
        t, known := current.value, true;
      } else {
        t := CreateThread(newFp, cycles, code);
        known := false;
      }
    }

    /** Charges the time since a thread was left to its top frame. */
    method ChargeAway(t: ThreadInfo, cycles: int)
      requires Valid() && t in filed
      modifies t`frames
      ensures Valid() && t.frames == Resumed(old(t.frames), t.switchCycle, cycles)
    {
      var n := |t.frames| - 1;
      var f := t.frames[n];
      t.frames := t.frames[n := f.(thread := f.thread + (cycles - t.switchCycle))];
      assert t.frames == Resumed(old(t.frames), t.switchCycle, cycles);
    }

    lemma NothingToCharge(cycles: int, code: Code)
      ensures Resumed(NewStack(cycles, code), cycles, cycles) == NewStack(cycles, code)
    {
    }

    /** The thread filed under a stack pointer runs again, or no thread was filed under it
        and a new one has started. */
    twostate predicate Runs(new t: ThreadInfo, known: bool, fp: word, cycles: int, code: Code)
      reads this`filed, t
    {
      var runs :=
        if known then
          t in old(filed) && old(filed)[t] == fp && old(t.frames) != [] && IsBack(t, cycles)
        else
          (forall r :: r in old(filed) ==> old(filed)[r] != fp) && fresh(t) && IsNew(t, fp, cycles, code);
      runs
    }

    /** A known thread runs again, with its time away charged, or a new one starts. */
    method Resume(newFp: word, cycles: int, code: Code) returns (t: ThreadInfo, ghost known: bool)
      requires Valid() && current == None && newFp != 0
      modifies this`current, this`filed, threads, filed.Keys
      ensures Valid() && current == Some(t) && filed == old(filed)[t := 0]
      ensures Runs(t, known, newFp, cycles, code)
      ensures forall r :: r in old(filed) && r != t ==> unchanged(r)
    {
      t, known := Acquire(newFp, cycles, code);
      NothingToCharge(cycles, code);
      ChargeAway(t, cycles);
      assert !known ==> t.frames == NewStack(cycles, code);
    }

    /** Filing one thread elsewhere changes nothing for the stack pointers of the others. */
    lemma OthersFiledAsBefore(before: map<ThreadInfo, nat>, c: ThreadInfo, oldFp: nat, newFp: nat)
      requires c in before && before[c] != newFp && oldFp != newFp
      ensures forall t :: (t in before[c := oldFp] && before[c := oldFp][t] == newFp)
                     <==> (t in before && before[t] == newFp)
    {
    }

    /** The switch with a thread running. */
    method Exchange(c: ThreadInfo, oldFp: word, newFp: word, cycles: int, code: Code)
      returns (t: ThreadInfo, ghost known: bool)
      requires Valid() && current == Some(c) && c in filed && oldFp != 0 && newFp != 0 && oldFp != newFp
      modifies this`current, this`filed, threads, filed.Keys
      ensures Valid() && current == Some(t) && t != c && filed == old(filed)[c := oldFp][t := 0]
      ensures IsLeft(c, oldFp, cycles)
      ensures Runs(t, known, newFp, cycles, code)
      ensures forall r :: r in old(filed) && r != t && r != c ==> unchanged(r)
    {
      Park(c, oldFp, cycles);
      assert filed.Keys == old(filed).Keys && filed[c] != newFp;
      assert forall r :: r in old(filed) && r != c ==> unchanged(r);
      OthersFiledAsBefore(old(filed), c, oldFp, newFp);
      t, known := Resume(newFp, cycles, code);
      assert t != c && filed == old(filed)[c := oldFp][t := 0];
      assert IsLeft(c, oldFp, cycles);
    }

    /** The stack pointer is loaded: the thread that had the old value is left and filed
        under it, the one filed under the new value runs on, or a new one starts. */
    method Switch(oldFp: word, newFp: word, cycles: int, code: Code) returns (ghost known: bool)
      requires Valid() && oldFp != 0 && newFp != 0
      modifies this`current, this`filed, threads, filed.Keys
      ensures Valid()
      ensures oldFp == newFp ==>
                current == old(current) && filed == old(filed) && forall r :: r in filed ==> unchanged(r)
      ensures oldFp != newFp ==>
                && current.Some? && old(current) != current
                && filed == (if old(current).Some? then old(filed)[old(current.value) := oldFp] else old(filed))
                              [current.value := 0]
      ensures oldFp != newFp && old(current).Some? ==> IsLeft(old(current.value), oldFp, cycles)
      ensures oldFp != newFp ==> Runs(current.value, known, newFp, cycles, code)
      ensures forall r :: r in old(filed) && current != Some(r) && old(current) != Some(r) ==> unchanged(r)
    {
      known := false;
      if oldFp == newFp {
        return;
      }
      var t;
      if current.Some? {
        t, known := Exchange(current.value, oldFp, newFp, cycles, code);
      } else {
        t, known := Resume(newFp, cycles, code);
      }
    }

    // --------------------------------------------------------------- begin

    /** The record of the running thread moves. */
    method Replace(c: ThreadInfo, t: ThreadInfo)
      requires Registry() && current == Some(c) && t !in filed
      modifies this`current, this`filed, threads
      ensures Registry() && current == Some(t) && filed == (old(filed) - {c})[t := 0]
    {
      TableFinds(threads.list, filed, current, 0);
      threads.Realloc(0, t);
      ReplacedBuckets(old(threads.Contents()), threads.Contents(), filed, c, t);
      current := Some(t);
      filed := (filed - {c})[t := 0];
    }

    /** A longer copy of the record takes its place. */
    method CopyLonger(c: ThreadInfo) returns (t: ThreadInfo)
      requires Valid() && current == Some(c) && c in filed
      modifies this`current, this`filed, threads
      ensures Valid() && current == Some(t) && fresh(t) && t.sizeFrames == c.sizeFrames + 10
      ensures filed == (old(filed) - {c})[t := 0]
      ensures SameRecord(t, c)
    {
      t := new ThreadInfo(c.saveFp, c.minFp, c.switchCycle, c.sizeFrames + 10, c.frames);
      assert ThreadOk(t, profiles);
      Replace(c, t);
    }

    /** Room for one more frame, if need be in a longer copy of the record. */
    method GrowNumFrames(c: ThreadInfo) returns (t: ThreadInfo)
      requires Valid() && current == Some(c) && c in filed
      modifies this`current, this`filed, threads
      ensures Valid() && current == Some(t) && |t.frames| < t.sizeFrames
      ensures filed == (old(filed) - {c})[t := 0] && (t == c || fresh(t))
      ensures SameRecord(t, c)
    {
      t := c;
      assert filed == (filed - {c})[c := 0];
      if |c.frames| >= c.sizeFrames {
        t := CopyLonger(c);
      }
    }

    /** Fills the new frame and makes sure its caller has a profile. */
    method PushFrame(t: ThreadInfo, f: Frame)
      requires Valid() && t in filed && |t.frames| < t.sizeFrames && f.fp != 0
      modifies this`profiles, t`frames
      ensures Valid() && t.frames == old(t.frames) + [f] && t.minFp == old(t.minFp)
      ensures current == old(current) && filed == old(filed)
      ensures profiles == WithProfile(old(profiles), Top(old(t.frames)).code.addr)
    {
      var caller := t.frames[|t.frames| - 1];
      t.frames := t.frames + [f];
      if caller.code.addr !in profiles {
        profiles := profiles[caller.code.addr := NO_PROFILE];
      }
      assert profiles == WithProfile(old(profiles), caller.code.addr);
    }

    method LowerMinFp(c: ThreadInfo, fp: word)
      requires Valid() && c in filed
      modifies c`minFp
      ensures Valid() && c.minFp == if fp < old(c.minFp) then fp else old(c.minFp)
    {
      if fp < c.minFp {
        c.minFp := fp;
      }
    }

    method BeginIn(c: ThreadInfo, f: Frame) returns (t: ThreadInfo)
      requires Valid() && current == Some(c) && c in filed && f.fp != 0
      modifies this`current, this`filed, this`profiles, threads, c`frames
      ensures Valid() && current == Some(t) && filed == (old(filed) - {c})[t := 0] && (t == c || fresh(t))
      ensures t.frames == old(c.frames) + [f] && t.minFp == old(c.minFp)
      ensures profiles == WithProfile(old(profiles), Top(old(c.frames)).code.addr)
    {
      ghost var s, p := c.frames, profiles;
      assert s != [];
      t := GrowNumFrames(c);
      assert t.frames == s && profiles == p && t.minFp == old(c.minFp);
      PushFrame(t, f);
      assert t.frames == s + [f] && profiles == WithProfile(p, Top(s).code.addr);
    }

    /** A call, or the entry of an interrupt handler. */
    method Begin(fp: word, inIrq: bool, cycles: int, pc: word)
      requires Valid() && fp != 0
      modifies this`current, this`filed, this`profiles, threads, filed.Keys
      ensures Valid()
      ensures old(current).None? ==> current == None && profiles == old(profiles) && filed == old(filed)
      ensures old(current).Some? ==>
                && current.Some?
                && var c, t := old(current.value), current.value;
                && t.frames == Begun(old(c.frames), cycles, Code(pc, inIrq), fp)
                && t.minFp == (if fp < old(c.minFp) then fp else old(c.minFp))
                && profiles == WithProfile(old(profiles), Top(old(c.frames)).code.addr)
                && filed == (old(filed) - {c})[t := 0] && (t == c || fresh(t))
      ensures forall r :: r in old(filed) && old(current) != Some(r) ==> unchanged(r)
    {
      if current.None? {
        return;
      }
      var c := current.value;
      LowerMinFp(c, fp);
      var t := BeginIn(c, NewFrame(cycles, Code(pc, inIrq), fp));
    }

    // ----------------------------------------------------------------- end

    /** Drops the top frame, which had no return; its counts, but not those of its
        calls, go to its caller. */
    method DropTop(t: ThreadInfo)
      requires IsStack(t.frames) && |t.frames| > 1
      modifies t`frames
      ensures t.frames == Dropped(old(t.frames)) && IsStack(t.frames)
    {
      var n := |t.frames| - 1;
      var f, caller := t.frames[n], t.frames[n - 1];
      t.frames := t.frames[n - 1 := caller.(irq := caller.irq + f.irq)];
      caller := t.frames[n - 1];
      t.frames := t.frames[n - 1 := caller.(thread := caller.thread + f.thread)];
      t.frames := t.frames[..n];
      assert t.frames == Dropped(old(t.frames));
    }

    method Unwind(t: ThreadInfo, fp: word)
      requires IsStack(t.frames)
      modifies t`frames
      ensures t.frames == Unwound(old(t.frames), fp) && IsStack(t.frames)
    {
      while t.frames[|t.frames| - 1].fp != 0 && t.frames[|t.frames| - 1].fp < fp
        invariant IsStack(t.frames) && Unwound(t.frames, fp) == Unwound(old(t.frames), fp)
        decreases |t.frames|
      {
        DropTop(t);
      }
    }

    /** A bottom frame that returns gets a frame below. */
    method InsertSubframe(t: ThreadInfo, cycles: int, caller: Code)
      requires |t.frames| == 1
      modifies t`frames
      ensures t.frames == Rooted(old(t.frames), cycles, caller)
    {
      t.frames := [NewFrame(cycles, caller, 0), t.frames[0]];
    }

    /** Charges a call to the profile of its caller, which has one. */
    method AddCallee(caller: word, code: Code, cycles: int)
      requires caller in profiles
      modifies this`profiles
      ensures profiles == WithCallee(old(profiles), caller, code, cycles)
    {
      var p := profiles[caller];
      var callee := if code in p.callees then p.callees[code] else Callee(0, 0);
      callee := Callee(callee.calls + 1, callee.cycles + cycles);
      profiles := profiles[caller := p.(callees := p.callees[code := callee])];
    }

    method AddProfile(e: Entry)
      modifies this`profiles
      ensures profiles == WithEntry(old(profiles), e)
    {
      var p := if e.code.addr in profiles then profiles[e.code.addr] else NO_PROFILE;
      p := p.(irq := p.irq + e.irq, local := p.local + e.local, total := p.total + e.total);
      p := p.(calls := p.calls + 1, isIrq := p.isIrq || e.code.handler);
      if e.total > p.maxTotal {
        p := p.(maxTotal := e.total);
      }
      if e.local > p.maxLocal {
        p := p.(maxLocal := e.local);
      }
      profiles := profiles[e.code.addr := p];
    }

    /** Credits the caller of the finished frame n with its counts. */
    method Credit(t: ThreadInfo, n: nat, cycles: int)
      requires 0 < n < |t.frames|
      modifies t`frames
      ensures t.frames == old(t.frames)[n - 1 := Credited(old(t.frames[n - 1]), old(t.frames[n]), cycles)]
    {
      var f, caller := t.frames[n], t.frames[n - 1];
      var total := cycles - f.start - f.thread - f.irq;
      caller := caller.(irq := caller.irq + f.irq, thread := caller.thread + f.thread);
      if f.code.handler {
        caller := caller.(irq := caller.irq + total);
      } else {
        caller := caller.(child := caller.child + total);
      }
      t.frames := t.frames[n - 1 := caller];
    }

    /** Takes the top frame off, credits its caller and records it. */
    method FinishTop(t: ThreadInfo, cycles: int)
      requires |t.frames| > 1
      requires Top(t.frames).fp != 0 ==> Top(Below(t.frames)).code.addr in profiles
      modifies t`frames, this`profiles
      ensures t.frames == Finished(old(t.frames), cycles)
      ensures profiles == WithReturn(old(profiles), old(t.frames), cycles)
    {
      var n := |t.frames| - 1;
      var f := t.frames[n];
      ghost var s := t.frames;
      if f.fp != 0 {
        Credit(t, n, cycles);
        AddCallee(t.frames[n - 1].code.addr, f.code, Total(f, cycles));
      }
      t.frames := t.frames[..n];
      assert t.frames == Finished(s, cycles);
      AddProfile(EntryOf(f, cycles));
    }

    ghost predicate CallersKnown(s: seq<Frame>)
      reads this`profiles
    {
      forall i :: 0 <= i < |s| - 1 ==> s[i].code.addr in profiles
    }

    /** The profiles after a return. */
    ghost function AfterReturn(p: Profiles, s: seq<Frame>, cycles: int, fp: word, caller: Code): (r: Profiles)
      requires s != []
    {
      WithReturn(p, Rooted(Unwound(s, fp), cycles, caller), cycles)
    }

    lemma AfterReturnGrows(p: Profiles, s: seq<Frame>, cycles: int, fp: word, caller: Code)
      requires s != []
      ensures forall a :: a in p ==> a in AfterReturn(p, s, cycles, fp, caller)
    {
    }

    method EndIn(t: ThreadInfo, fp: word, cycles: int, caller: Code)
      requires IsStack(t.frames) && CallersKnown(t.frames)
      modifies t`frames, this`profiles
      ensures t.frames == Ended(old(t.frames), cycles, fp, caller)
      ensures profiles == AfterReturn(old(profiles), old(t.frames), cycles, fp, caller)
    {
      UnwoundKeepsCodes(t.frames, fp);
      Unwind(t, fp);
      if |t.frames| == 1 {
        InsertSubframe(t, cycles, caller);
      }
      FinishTop(t, cycles);
    }

    /** A return at a stack pointer, whose word in memory names the caller. */
    method End(fp: word, cycles: int, caller: Code)
      requires Valid()
      modifies this`profiles, filed.Keys
      ensures Valid()
      ensures current.None? ==> profiles == old(profiles)
      ensures current.Some? ==>
                var t := current.value;
                && old(t.frames) != []
                && t.frames == Ended(old(t.frames), cycles, fp, caller)
                && profiles == AfterReturn(old(profiles), old(t.frames), cycles, fp, caller)
      ensures forall r :: r in filed && current != Some(r) ==> unchanged(r)
    {
      if current.None? {
        return;
      }
      var t := current.value;
      ghost var s := t.frames;
      EndIn(t, fp, cycles, caller);
      AfterReturnGrows(old(profiles), s, cycles, fp, caller);
      StacksStay(s, cycles, caller, fp, caller, cycles);
      EndedKeepsCodes(s, cycles, fp, caller);
      assert ThreadOk(t, profiles);
    }

    // --------------------------------------------------------------- close

    /** Ends all frames of a thread, from the top down, at the cycle it stands at. */
    method CloseThread(t: ThreadInfo, cycles: int)
      requires Valid() && t in filed
      modifies t`frames, this`profiles
      ensures profiles == WithClosed(old(profiles), old(t.frames), if current == Some(t) then cycles else t.switchCycle)
    {
      var now := if current == Some(t) then cycles else t.switchCycle;
      var i := |t.frames| - 1;
      assert t.frames[..i + 1] == t.frames;
      while i > 0
        invariant 0 <= i < |t.frames| == |old(t.frames)|
        invariant IsStack(t.frames[..i + 1]) && CallersKnown(t.frames[..i + 1])
        invariant WithClosed(profiles, t.frames[..i + 1], now) == WithClosed(old(profiles), old(t.frames), now)
      {
        CloseFrame(t, i, now);
        assert t.frames[..i - 1 + 1] == t.frames[..i];
        i := i - 1;
      }
      AddProfile(EntryOf(t.frames[0], now));
    }

    method CloseFrame(t: ThreadInfo, i: nat, now: int)
      requires 0 < i < |t.frames| && IsStack(t.frames[..i + 1]) && CallersKnown(t.frames[..i + 1])
      modifies t`frames, this`profiles
      ensures |t.frames| == |old(t.frames)|
      ensures t.frames[..i] == Finished(old(t.frames[..i + 1]), now)
      ensures profiles == WithReturn(old(profiles), old(t.frames[..i + 1]), now)
      ensures IsStack(t.frames[..i]) && CallersKnown(t.frames[..i])
    {
      ghost var s := t.frames[..i + 1];
      var f := t.frames[i];
      Credit(t, i, now);
      assert t.frames[..i] == Finished(s, now);
      AddCallee(t.frames[i - 1].code.addr, f.code, Total(f, now));
      AddProfile(EntryOf(f, now));
    }
  }
}
