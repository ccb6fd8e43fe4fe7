/**
 Calls and interrupts on the stack of register 7: however deeply they nest, a return
 finds what its call or interrupt entry has saved.
 */
module Interrupts {
  import opened Words

  datatype State = State(mem: seq<byte>, r7: word, pc: word, ccr: byte)

  const I_FLAG := 0x80

  /** Memory with a word written. */
  function Stored(m: seq<byte>, a: int, w: word): (r: seq<byte>)
    requires 0 <= a && a + 1 < |m|
    ensures |r| == |m| && WordAt(r, a) == w
  {
    m[a := w / 0x100][a + 1 := w % 0x100]
  }

  lemma WroteIsStored(m: seq<byte>, m2: seq<byte>, a: int, w: word)
    requires Wrote(m, m2, a, w)
    ensures m2 == Stored(m, a, w)
  {
    assert m2[a] == w / 0x100 && m2[a + 1] == w % 0x100;
  }

  /** There is room for `bytes` more below the stack pointer. */
  predicate Room(s: State, bytes: int) { |s.mem| == MEMORY_SIZE && bytes <= s.r7 }

  predicate Holds(s: State, bytes: int) { |s.mem| == MEMORY_SIZE && s.r7 + bytes < MEMORY_SIZE }

  function Called(s: State, target: word): (r: State)
    requires Room(s, 2)
  {
    State(Stored(s.mem, s.r7 - 2, s.pc), s.r7 - 2, target, s.ccr)
  }

  /** RTS. */
  function Returned(s: State): (r: State)
    requires Holds(s, 2)
  {
    s.(pc := WordAt(s.mem, s.r7), r7 := s.r7 + 2)
  }

  function Masked(ccr: byte): (r: byte) { if ccr < I_FLAG then ccr + I_FLAG else ccr }

  /** The entry of an interrupt: the program counter, and below it the condition codes
      in both bytes of a word. */
  function Entered(s: State, vector: word): (r: State)
    requires Room(s, 4)
  {
    State(Stored(Stored(s.mem, s.r7 - 2, s.pc), s.r7 - 4, 0x101 * s.ccr), s.r7 - 4, vector, Masked(s.ccr))
  }

  /** RTE. */
  function Resumed(s: State): (r: State)
    requires Holds(s, 4)
  {
    s.(ccr := WordAt(s.mem, s.r7) / 0x100, pc := WordAt(s.mem, s.r7 + 2), r7 := s.r7 + 4)
  }

  // ------------------------------------------------------------------ nests

  /** What happens between an entry and its return: instructions that leave the stack
      pointer alone, taking the state to another one; stretches that begin by pushing
      or reserving room, in the state `enter`, and end by giving back as much, in the
      state `leave`; calls that return, and interrupts that return. */
  datatype Nest =
    | Quiet
    | Other(to: State, next: Nest)
    | Scoped(enter: State, body: Nest, leave: State, next: Nest)
    | Call(target: word, body: Nest, next: Nest)
    | Interrupt(vector: word, body: Nest, next: Nest)

  /** The bytes from `a` up to the end of memory that are the same in both. */
  ghost predicate Kept(m: seq<byte>, m2: seq<byte>, saved: set<int>) {
    |m2| == |m| && forall a :: a in saved && 0 <= a < |m| ==> m2[a] == m[a]
  }

  /** The state after a nest, and whether it was well behaved: what is neither a call
      nor an interrupt leaves all saved bytes alone, pops what it pushed, and the stack
      does not run out of memory. */
  ghost function Exec(s: State, n: Nest, saved: set<int>): (r: (State, bool))
    decreases n
  {
    match n
    case Quiet => (s, true)
    case Other(to, next) =>
      if to.r7 == s.r7 && Kept(s.mem, to.mem, saved) then Exec(to, next, saved) else (s, false)
    case Scoped(enter, body, leave, next) =>
      if !(enter.r7 <= s.r7 && Kept(s.mem, enter.mem, saved)) then (s, false)
      else
        var (t, ok) := Exec(enter, body, saved);
        if ok && leave.r7 == t.r7 + (s.r7 - enter.r7) && Kept(t.mem, leave.mem, saved) then Exec(leave, next, saved)
        else (t, false)
    case Call(target, body, next) =>
      if !Room(s, 2) then (s, false)
      else
        var (t, ok) := Exec(Called(s, target), body, saved + {s.r7 - 2, s.r7 - 1});
        if ok && Holds(t, 2) then Exec(Returned(t), next, saved) else (t, false)
    case Interrupt(vector, body, next) =>
      if !Room(s, 4) then (s, false)
      else
        var (t, ok) := Exec(Entered(s, vector), body, saved + {s.r7 - 4, s.r7 - 3, s.r7 - 2, s.r7 - 1});
        if ok && Holds(t, 4) then Exec(Resumed(t), next, saved) else (t, false)
  }

  ghost predicate Behaves(s: State, n: Nest, saved: set<int>) { Exec(s, n, saved).1 }

  ghost function After(s: State, n: Nest, saved: set<int>): (r: State) { Exec(s, n, saved).0 }

  /** Saved bytes lie at or above the stack pointer. */
  ghost predicate AboveStack(s: State, saved: set<int>) {
    |s.mem| == MEMORY_SIZE && forall a :: a in saved ==> s.r7 <= a < MEMORY_SIZE
  }

  lemma KeptTransitive(m: seq<byte>, m2: seq<byte>, m3: seq<byte>, saved: set<int>, more: set<int>)
    requires Kept(m, m2, saved) && Kept(m2, m3, more) && saved <= more
    ensures Kept(m, m3, saved)
  {
  }

  lemma CallSaves(s: State, target: word, saved: set<int>)
    requires Room(s, 2) && AboveStack(s, saved)
    ensures var c := Called(s, target);
            && AboveStack(c, saved + {s.r7 - 2, s.r7 - 1}) && Kept(s.mem, c.mem, saved)
  {
  }

  lemma EntrySaves(s: State, vector: word, saved: set<int>)
    requires Room(s, 4) && AboveStack(s, saved)
    ensures var c := Entered(s, vector);
            && AboveStack(c, saved + {s.r7 - 4, s.r7 - 3, s.r7 - 2, s.r7 - 1}) && Kept(s.mem, c.mem, saved)
            && WordAt(c.mem, s.r7 - 2) == s.pc
  {
  }

  /** After a body that keeps what the call saved, RTS comes back to the call. */
  lemma ReturnComesBack(s: State, target: word, t: State, saved: set<int>)
    requires Room(s, 2) && AboveStack(s, saved)
    requires var c := Called(s, target);
             t.r7 == c.r7 && Kept(c.mem, t.mem, saved + {s.r7 - 2, s.r7 - 1})
    ensures Holds(t, 2) && Returned(t).r7 == s.r7 && Returned(t).pc == s.pc
    ensures Kept(s.mem, t.mem, saved)
  {
    var c := Called(s, target);
    CallSaves(s, target, saved);
    assert s.r7 - 2 in saved + {s.r7 - 2, s.r7 - 1} && s.r7 - 1 in saved + {s.r7 - 2, s.r7 - 1};
    assert WordAt(t.mem, s.r7 - 2) == WordAt(c.mem, s.r7 - 2);
    KeptTransitive(s.mem, c.mem, t.mem, saved, saved + {s.r7 - 2, s.r7 - 1});
  }

  /** The same for an interrupt and RTE, with the condition codes. */
  lemma ResumeComesBack(s: State, vector: word, t: State, saved: set<int>)
    requires Room(s, 4) && AboveStack(s, saved)
    requires var c := Entered(s, vector);
             t.r7 == c.r7 && Kept(c.mem, t.mem, saved + {s.r7 - 4, s.r7 - 3, s.r7 - 2, s.r7 - 1})
    ensures Holds(t, 4) && Resumed(t).r7 == s.r7 && Resumed(t).pc == s.pc && Resumed(t).ccr == s.ccr
    ensures Kept(s.mem, t.mem, saved)
  {
    var c := Entered(s, vector);
    var more := saved + {s.r7 - 4, s.r7 - 3, s.r7 - 2, s.r7 - 1};
    EntrySaves(s, vector, saved);
    assert forall a :: s.r7 - 4 <= a < s.r7 ==> a in more;
    assert WordAt(t.mem, s.r7 - 2) == WordAt(c.mem, s.r7 - 2) == s.pc;
    assert WordAt(t.mem, s.r7 - 4) == WordAt(c.mem, s.r7 - 4) == 0x101 * s.ccr;
    KeptTransitive(s.mem, c.mem, t.mem, saved, more);
  }

  /** A well behaved nest of any depth leaves the stack pointer, and all bytes saved
      by those around it, as they were. */
  lemma {:induction false} NestRestores(s: State, n: Nest, saved: set<int>)
    requires Behaves(s, n, saved) && AboveStack(s, saved)
    ensures After(s, n, saved).r7 == s.r7 && Kept(s.mem, After(s, n, saved).mem, saved)
    decreases n
  {
    match n
    case Quiet =>
    case Other(to, next) =>
      NestRestores(to, next, saved);
      KeptTransitive(s.mem, to.mem, After(to, next, saved).mem, saved, saved);
    case Scoped(enter, body, leave, next) =>
      var t := After(enter, body, saved);
      NestRestores(enter, body, saved);
      KeptTransitive(s.mem, enter.mem, t.mem, saved, saved);
      KeptTransitive(s.mem, t.mem, leave.mem, saved, saved);
      NestRestores(leave, next, saved);
      KeptTransitive(s.mem, leave.mem, After(leave, next, saved).mem, saved, saved);
    case Call(target, body, next) =>
      var more := saved + {s.r7 - 2, s.r7 - 1};
      var t := After(Called(s, target), body, more);
      CallSaves(s, target, saved);
      NestRestores(Called(s, target), body, more);
      ReturnComesBack(s, target, t, saved);
      NestRestores(Returned(t), next, saved);
      KeptTransitive(s.mem, t.mem, After(Returned(t), next, saved).mem, saved, saved);
    case Interrupt(vector, body, next) =>
      var more := saved + {s.r7 - 4, s.r7 - 3, s.r7 - 2, s.r7 - 1};
      var t := After(Entered(s, vector), body, more);
      EntrySaves(s, vector, saved);
      NestRestores(Entered(s, vector), body, more);
      ResumeComesBack(s, vector, t, saved);
      NestRestores(Resumed(t), next, saved);
      KeptTransitive(s.mem, t.mem, After(Resumed(t), next, saved).mem, saved, saved);
  }

  /** A call, whatever nest its body is, ends behind itself with the same stack. */
  lemma CallIsTransparent(s: State, target: word, body: Nest, saved: set<int>)
    requires AboveStack(s, saved) && Behaves(s, Call(target, body, Quiet), saved)
    ensures var t := After(s, Call(target, body, Quiet), saved);
            t.pc == s.pc && t.r7 == s.r7 && Kept(s.mem, t.mem, saved)
  {
    var more := saved + {s.r7 - 2, s.r7 - 1};
    var t := After(Called(s, target), body, more);
    CallSaves(s, target, saved);
    NestRestores(Called(s, target), body, more);
    ReturnComesBack(s, target, t, saved);
    assert After(Returned(t), Quiet, saved) == Returned(t);
    assert After(s, Call(target, body, Quiet), saved) == After(Returned(t), Quiet, saved);
  }

  /** An interrupt, whatever nest its handler is, leaves program counter, stack and
      condition codes to the interrupted program as they were. */
  lemma InterruptIsTransparent(s: State, vector: word, body: Nest, saved: set<int>)
    requires AboveStack(s, saved) && Behaves(s, Interrupt(vector, body, Quiet), saved)
    ensures var t := After(s, Interrupt(vector, body, Quiet), saved);
            t.pc == s.pc && t.r7 == s.r7 && t.ccr == s.ccr && Kept(s.mem, t.mem, saved)
  {
    var more := saved + {s.r7 - 4, s.r7 - 3, s.r7 - 2, s.r7 - 1};
    EntrySaves(s, vector, saved);
    NestRestores(Entered(s, vector), body, more);
    var t := After(Entered(s, vector), body, more);
    ResumeComesBack(s, vector, t, saved);
    assert After(Resumed(t), Quiet, saved) == Resumed(t);
    assert After(s, Interrupt(vector, body, Quiet), saved) == After(Resumed(t), Quiet, saved);
  }

  /** The state after a word is pushed, and after it is popped. */
  function Pushed(s: State, w: word): (r: State)
    requires Room(s, 2)
  {
    s.(mem := Stored(s.mem, s.r7 - 2, w), r7 := s.r7 - 2)
  }

  function Popped(s: State): (r: State)
    requires Holds(s, 2)
  {
    s.(r7 := s.r7 + 2)
  }

  /** A register pushed around an interrupt and popped again is such a nest. */
  lemma PushedAroundInterrupt(s: State, w: word, vector: word, saved: set<int>)
    requires Room(s, 6) && AboveStack(s, saved)
    ensures var enter := Pushed(s, w);
            var back := After(enter, Interrupt(vector, Quiet, Quiet), saved);
            && Holds(back, 2) && Behaves(s, Scoped(enter, Interrupt(vector, Quiet, Quiet), Popped(back), Quiet), saved)
            && After(s, Scoped(enter, Interrupt(vector, Quiet, Quiet), Popped(back), Quiet), saved).r7 == s.r7
  {
    var enter := Pushed(s, w);
    var e := Entered(enter, vector);
    var more := saved + {enter.r7 - 4, enter.r7 - 3, enter.r7 - 2, enter.r7 - 1};
    assert Exec(e, Quiet, more) == (e, true);
    assert Exec(Resumed(e), Quiet, saved) == (Resumed(e), true);
    assert Exec(enter, Interrupt(vector, Quiet, Quiet), saved) == (Resumed(e), true);
    EntrySaves(enter, vector, saved);
    var leave := Popped(Resumed(e));
    assert Exec(leave, Quiet, saved) == (leave, true);
  }

  // ----------------------------------------------------------------- in place

  class Processor {
    const memory: Memory
    var r7: word
    var pc: word
    var ccr: byte

    ghost predicate Valid()
      reads this, memory, memory.bytes
    {
      memory.Valid() && |memory.image| == MEMORY_SIZE
    }

    ghost function Now(): (r: State)
      reads this, memory
    {
      State(memory.image, r7, pc, ccr)
    }

    constructor (memory: Memory)
      requires memory.Valid()
      ensures this.memory == memory && Valid()
    {
      this.memory := memory;
      r7, pc, ccr := 0, 0, I_FLAG;
    }

    method Call(target: word)
      requires Valid() && r7 >= 2
      modifies this, memory, memory.bytes
      ensures Valid() && Now() == Called(old(Now()), target)
    {
      var sp := r7 - 2;
      memory.WriteWord(sp, pc);
      WroteIsStored(old(memory.image), memory.image, sp, pc);
      pc := target;
      r7 := sp;
    }

    method RtS()
      requires Valid() && r7 + 2 < MEMORY_SIZE
      modifies this
      ensures Valid() && Now() == Returned(old(Now()))
    {
      pc := memory.ReadWord(r7);
      r7 := r7 + 2;
    }

    /** The part of the interrupt check that enters the handler. */
    method EnterInterrupt(selected: nat)
      requires Valid() && r7 >= 4 && 2 * selected + 1 < MEMORY_SIZE
      modifies this, memory, memory.bytes
      ensures Valid()
      ensures var pushed := Entered(old(Now()), 0).mem;
              |pushed| == MEMORY_SIZE && Now() == Entered(old(Now()), WordAt(pushed, 2 * selected))
    {
      var sp := r7 - 4;
      ghost var m := memory.image;
      memory.WriteWord(sp + 2, pc);
      WroteIsStored(m, memory.image, sp + 2, pc);
      ghost var m2 := memory.image;
      memory.WriteWord(sp, 0x101 * ccr);
      WroteIsStored(m2, memory.image, sp, 0x101 * ccr);
      r7 := sp;
      ccr := Masked(ccr);
      pc := memory.ReadWord(2 * selected);
    }

    method RtE()
      requires Valid() && r7 + 4 < MEMORY_SIZE
      modifies this
      ensures Valid() && Now() == Resumed(old(Now()))
    {
      var ccrWord := memory.ReadWord(r7);
      ccr := ccrWord / 0x100;
      pc := memory.ReadWord(r7 + 2);
      r7 := r7 + 4;
    }
  }
}
