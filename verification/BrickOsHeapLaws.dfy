/** What the brickOS allocator promises, proved about the heap as a value. */
module BrickOsHeapLaws {
  import opened Words
  import opened BrickOsHeap

  // -------------------------------------------------------------- first fit

  /** blocks[i..j] is a longest possible stretch of adjacent free blocks. */
  predicate MaximalRun(blocks: seq<Block>, i: int, j: int) {
    && 0 <= i < j <= |blocks|
    && (forall k :: i <= k < j ==> blocks[k].IsFree())
    && (i == 0 || !blocks[i - 1].IsFree())
    && (j == |blocks| || !blocks[j].IsFree())
  }

  /** Data bytes of the single block that blocks[i..j] would merge to. */
  function Capacity(blocks: seq<Block>, i: int, j: int): (r: int)
    requires 0 <= i <= j <= |blocks|
  {
    Extent(blocks[i..j]) - 4
  }

  /** Address of block number `i`. */
  function At(p: int, blocks: seq<Block>, i: int): (r: int)
    requires 0 <= i <= |blocks|
  {
    p + Extent(blocks[..i])
  }

  ghost predicate NoFitBefore(blocks: seq<Block>, i: int, n: nat) {
    forall a, b :: MaximalRun(blocks, a, b) && a < i ==> Capacity(blocks, a, b) <= 2 * n
  }

  /** `addr` is the data address of the lowest maximal run longer than `n` words, or 0
      when there is none. */
  ghost predicate IsFirstFit(p: int, blocks: seq<Block>, n: nat, addr: int) {
    if addr == 0 then
      NoFitBefore(blocks, |blocks|, n)
    else
      exists i, j :: MaximalRun(blocks, i, j) && 2 * n < Capacity(blocks, i, j)
        && addr == At(p, blocks, i) + 4 && NoFitBefore(blocks, i, n)
  }

  lemma {:induction false} ExtentConcat(a: seq<Block>, b: seq<Block>)
    ensures Extent(a + b) == Extent(a) + Extent(b)
  {
    if a == [] {
      assert a + b == b;
    } else {
      assert (a + b)[1..] == a[1..] + b;
      ExtentConcat(a[1..], b);
    }
  }

  /** Absorb takes exactly the leading free blocks of `rest`. */
  lemma {:induction false} AbsorbTakesRun(p: int, len: nat, rest: seq<Block>, firstFree: int)
    requires 0 < p && p + 4 + 2 * len + Extent(rest) == MEMORY_SIZE
    ensures var m := Absorb(p, len, rest, firstFree);
            var k := |rest| - |m.rest|;
            && rest[k..] == m.rest
            && (forall i :: 0 <= i < k ==> rest[i].IsFree())
    decreases rest
  {
    if rest != [] && rest[0].IsFree() {
      var ff := if firstFree == p + 4 + 2 * len then p else firstFree;
      AbsorbTakesRun(p, len + 2 + rest[0].len, rest[1..], ff);
      var m := Absorb(p, len, rest, firstFree);
      var k := |rest| - |m.rest|;
      assert rest[k..] == rest[1..][k - 1..];
      forall i | 0 <= i < k
        ensures rest[i].IsFree()
      {
        if 0 < i { assert rest[i] == rest[1..][i - 1]; }
      }
    }
  }

  /** Runs beyond a boundary are the runs of the tail, shifted. */
  lemma RunsBeyond(blocks: seq<Block>, k: int, i: int, j: int)
    requires 0 <= k <= |blocks| && k <= i
    requires (0 < k && !blocks[k - 1].IsFree()) || k == |blocks| || !blocks[k].IsFree()
    ensures MaximalRun(blocks, i, j) <==> MaximalRun(blocks[k..], i - k, j - k)
    ensures MaximalRun(blocks, i, j) ==> Capacity(blocks, i, j) == Capacity(blocks[k..], i - k, j - k)
  {
    if MaximalRun(blocks, i, j) {
      assert blocks[i..j] == blocks[k..][i - k..j - k];
    }
    if MaximalRun(blocks[k..], i - k, j - k) {
      forall x | i <= x < j
        ensures blocks[x].IsFree()
      {
        assert blocks[x] == blocks[k..][x - k];
      }
    }
  }

  lemma NoFitBeyond(blocks: seq<Block>, k: int, i: int, n: nat)
    requires 0 <= k <= |blocks| && k <= i
    requires (0 < k && !blocks[k - 1].IsFree()) || k == |blocks| || !blocks[k].IsFree()
    requires NoFitBefore(blocks, k, n)
    requires NoFitBefore(blocks[k..], i - k, n)
    ensures NoFitBefore(blocks, i, n)
  {
    forall a, b | MaximalRun(blocks, a, b) && a < i
      ensures Capacity(blocks, a, b) <= 2 * n
    {
      if k <= a {
        RunsBeyond(blocks, k, a, b);
      }
    }
  }

  lemma AtSplit(p: int, blocks: seq<Block>, k: int, i: int)
    requires 0 <= k <= i <= |blocks|
    ensures At(p, blocks, i) == At(At(p, blocks, k), blocks[k..], i - k)
    ensures At(p, blocks, i) == At(p, blocks, k) + Extent(blocks[k..i])
  {
    assert blocks[..i] == blocks[..k] + blocks[k..i];
    assert blocks[k..][..i - k] == blocks[k..i];
    ExtentConcat(blocks[..k], blocks[k..i]);
  }

  /** First fit in the tail is first fit in the whole, if nothing before fits. */
  lemma FirstFitBeyond(p: int, blocks: seq<Block>, k: int, n: nat, addr: int)
    requires 0 <= k <= |blocks|
    requires (0 < k && !blocks[k - 1].IsFree()) || k == |blocks| || !blocks[k].IsFree()
    requires NoFitBefore(blocks, k, n)
    requires IsFirstFit(At(p, blocks, k), blocks[k..], n, addr)
    ensures IsFirstFit(p, blocks, n, addr)
  {
    if addr == 0 {
      NoFitBeyond(blocks, k, |blocks|, n);
    } else {
      var i, j :| MaximalRun(blocks[k..], i, j) && 2 * n < Capacity(blocks[k..], i, j)
        && addr == At(At(p, blocks, k), blocks[k..], i) + 4 && NoFitBefore(blocks[k..], i, n);
      RunsBeyond(blocks, k, i + k, j + k);
      AtSplit(p, blocks, k, i + k);
      NoFitBeyond(blocks, k, i + k, n);
    }
  }

  lemma OnlyRun(blocks: seq<Block>, k: int)
    requires 0 < k <= |blocks| && (k == |blocks| || !blocks[k].IsFree())
    requires forall i :: 0 <= i < k ==> blocks[i].IsFree()
    ensures MaximalRun(blocks, 0, k)
    ensures forall a, b :: MaximalRun(blocks, a, b) && a < k ==> a == 0 && b == k
  {
  }

  /** The run a free head block belongs to. */
  lemma HeadRun(p: int, blocks: seq<Block>, firstFree: int) returns (k: int)
    requires Fits(p, blocks) && blocks != [] && blocks[0].IsFree()
    ensures var m := Absorb(p, blocks[0].len, blocks[1..], firstFree);
            && MaximalRun(blocks, 0, k) && blocks[k..] == m.rest
            && Capacity(blocks, 0, k) == 2 * m.len && At(p, blocks, k) == p + 4 + 2 * m.len
            && forall a, b :: MaximalRun(blocks, a, b) && a < k ==> a == 0 && b == k
  {
    var m := Absorb(p, blocks[0].len, blocks[1..], firstFree);
    AbsorbTakesRun(p, blocks[0].len, blocks[1..], firstFree);
    k := |blocks| - |m.rest|;
    assert blocks[k..] == blocks[1..][k - 1..];
    forall i | 0 <= i < k
      ensures blocks[i].IsFree()
    {
      if 0 < i { assert blocks[i] == blocks[1..][i - 1]; }
    }
    assert k < |blocks| ==> blocks[k] == blocks[k..][0];
    OnlyRun(blocks, k);
    assert blocks == blocks[..k] + blocks[k..];
    ExtentConcat(blocks[..k], blocks[k..]);
    assert blocks[0..k] == blocks[..k];
  }

  lemma FirstFitAtRun(p: int, blocks: seq<Block>, firstFree: int, n: nat)
    requires Fits(p, blocks) && blocks != [] && blocks[0].IsFree()
    requires n < Absorb(p, blocks[0].len, blocks[1..], firstFree).len
    ensures IsFirstFit(p, blocks, n, p + 4)
  {
    var k := HeadRun(p, blocks, firstFree);
    assert At(p, blocks, 0) == p && NoFitBefore(blocks, 0, n);
  }

  lemma FirstFitPastRun(p: int, blocks: seq<Block>, firstFree: int, n: nat, addr: int)
    requires Fits(p, blocks) && blocks != [] && blocks[0].IsFree()
    requires var m := Absorb(p, blocks[0].len, blocks[1..], firstFree);
             m.len <= n && IsFirstFit(p + 4 + 2 * m.len, m.rest, n, addr)
    ensures IsFirstFit(p, blocks, n, addr)
  {
    var k := HeadRun(p, blocks, firstFree);
    assert NoFitBefore(blocks, k, n);
    FirstFitBeyond(p, blocks, k, n, addr);
  }

  lemma FirstFitPastOwned(p: int, blocks: seq<Block>, n: nat, addr: int)
    requires blocks != [] && !blocks[0].IsFree()
    requires IsFirstFit(p + blocks[0].Size(), blocks[1..], n, addr)
    ensures IsFirstFit(p, blocks, n, addr)
  {
    assert blocks[..1] == [blocks[0]];
    assert At(p, blocks, 1) == p + blocks[0].Size();
    FirstFitBeyond(p, blocks, 1, n, addr);
  }

  /** The allocator finds the lowest run that is long enough, and reports
      failure only when there is none. */
  lemma {:induction false} MallocIsFirstFit(p: int, blocks: seq<Block>, firstFree: int, n: nat)
    requires Fits(p, blocks)
    ensures IsFirstFit(p, blocks, n, Malloc(p, blocks, firstFree, n).addr)
    decreases |blocks|
  {
    var addr := Malloc(p, blocks, firstFree, n).addr;
    if blocks == [] {
    } else if blocks[0].IsFree() {
      var m := Absorb(p, blocks[0].len, blocks[1..], firstFree);
      if n < m.len {
        FirstFitAtRun(p, blocks, firstFree, n);
      } else {
        MallocIsFirstFit(p + 4 + 2 * m.len, m.rest, m.firstFree, n);
        FirstFitPastRun(p, blocks, firstFree, n, addr);
      }
    } else {
      MallocIsFirstFit(p + blocks[0].Size(), blocks[1..], firstFree, n);
      FirstFitPastOwned(p, blocks, n, addr);
    }
  }

  // ------------------------------------------------------- what is preserved

  const NOTHING := Block(FREE, 0)

  /** The allocated block whose header is at `a`, or NOTHING. */
  function OwnedAt(p: int, blocks: seq<Block>, a: int): (b: Block)
    ensures b.IsFree() ==> b == NOTHING
    ensures !b.IsFree() ==> p <= a && a + b.Size() <= p + Extent(blocks)
    decreases blocks
  {
    if blocks == [] || a < p then NOTHING
    else if a == p && !blocks[0].IsFree() then blocks[0]
    else OwnedAt(p + blocks[0].Size(), blocks[1..], a)
  }

  /** The allocated blocks by header address. */
  function Owned(p: int, blocks: seq<Block>): (r: map<int, Block>) {
    map a | p <= a < p + Extent(blocks) && !OwnedAt(p, blocks, a).IsFree() :: OwnedAt(p, blocks, a)
  }

  lemma OwnedPastFree(p: int, blocks: seq<Block>, a: int, q: int, rest: seq<Block>)
    requires blocks != [] && blocks[0].IsFree()
    requires q == p + blocks[0].Size() && rest == blocks[1..]
    ensures OwnedAt(p, blocks, a) == OwnedAt(q, rest, a)
  {
  }

  lemma {:induction false} AbsorbKeepsOwned(p: int, len: nat, rest: seq<Block>, firstFree: int, a: int)
    requires 0 < p && p + 4 + 2 * len + Extent(rest) == MEMORY_SIZE
    ensures var m := Absorb(p, len, rest, firstFree);
            OwnedAt(p + 4 + 2 * m.len, m.rest, a) == OwnedAt(p + 4 + 2 * len, rest, a)
    decreases rest
  {
    if rest != [] && rest[0].IsFree() {
      var ff := if firstFree == p + 4 + 2 * len then p else firstFree;
      var longer := len + 2 + rest[0].len;
      AbsorbKeepsOwned(p, longer, rest[1..], ff, a);
      assert Absorb(p, len, rest, firstFree) == Absorb(p, longer, rest[1..], ff);
      assert OwnedAt(p + 4 + 2 * len, rest, a) == OwnedAt(p + 4 + 2 * longer, rest[1..], a) by {
        OwnedPastFree(p + 4 + 2 * len, rest, a, p + 4 + 2 * longer, rest[1..]);
      }
    } else {
      assert Absorb(p, len, rest, firstFree) == Merged(len, rest, firstFree);
    }
  }

  /** An outcome against the blocks before it, looked at from address `a`: the
      new block is where none was, with n to n + 8 words; all else is as before. */
  predicate OneMore(p: int, before: seq<Block>, o: Outcome, n: nat, a: int) {
    var b := OwnedAt(p, o.heap.blocks, a);
    if o.addr != 0 && a == o.addr - 4 then
      OwnedAt(p, before, a) == NOTHING && b.owner == BEAMED && n <= b.len <= n + 8
    else
      b == OwnedAt(p, before, a)
  }

  lemma TakeKeepsOwned(p: int, m: Merged, n: nat, a: int)
    requires 0 < p && p + 4 + 2 * m.len + Extent(m.rest) == MEMORY_SIZE
    requires n < m.len
    ensures var b := OwnedAt(p, Take(p, m, n).heap.blocks, a);
            if a == p then b.owner == BEAMED && n <= b.len <= n + 8
            else b == OwnedAt(p + 4 + 2 * m.len, m.rest, a)
  {
  }

  lemma OwnedPush(p: int, b: Block, h: Heap, a: int)
    ensures OwnedAt(p, Push(b, h).blocks, a)
         == if a == p && !b.IsFree() then b else OwnedAt(p + b.Size(), h.blocks, a)
  {
  }

  /** An outcome for the part of the heap above the block `b`. */
  lemma OneMorePush(p: int, b: Block, before: seq<Block>, rest: seq<Block>, q: int, o: Outcome, n: nat, a: int)
    requires q == p + b.Size() && (o.addr != 0 ==> q + 4 <= o.addr)
    requires OwnedAt(p, before, a) == if a == p && !b.IsFree() then b else OwnedAt(q, rest, a)
    requires OneMore(q, rest, o, n, a)
    ensures OneMore(p, before, Outcome(o.addr, Push(b, o.heap)), n, a)
  {
    OwnedPush(p, b, o.heap, a);
  }

  lemma RunOwnsNothing(p: int, blocks: seq<Block>, firstFree: int, m: Merged, a: int)
    requires Fits(p, blocks) && blocks != [] && blocks[0].IsFree()
    requires m == Absorb(p, blocks[0].len, blocks[1..], firstFree)
    ensures OwnedAt(p, blocks, a) == OwnedAt(p + 4 + 2 * m.len, m.rest, a)
  {
    AbsorbKeepsOwned(p, blocks[0].len, blocks[1..], firstFree, a);
    OwnedPastFree(p, blocks, a, p + blocks[0].Size(), blocks[1..]);
  }

  lemma OneMorePastRun(p: int, blocks: seq<Block>, firstFree: int, m: Merged, n: nat, a: int, q: int, o: Outcome)
    requires Fits(p, blocks) && blocks != [] && blocks[0].IsFree()
    requires m == Absorb(p, blocks[0].len, blocks[1..], firstFree) && m.len <= n
    requires q == p + 4 + 2 * m.len && o == Malloc(q, m.rest, m.firstFree, n)
    requires OneMore(q, m.rest, o, n, a)
    ensures OneMore(p, blocks, Malloc(p, blocks, firstFree, n), n, a)
  {
    RunOwnsNothing(p, blocks, firstFree, m, a);
    MallocPastRun(p, blocks, firstFree, m, n, q, o);
    MallocAbove(q, m.rest, m.firstFree, n);
    OneMorePush(p, Block(FREE, m.len), blocks, m.rest, q, o, n, a);
  }

  lemma OneMorePastOwned(p: int, blocks: seq<Block>, firstFree: int, n: nat, a: int, q: int, o: Outcome)
    requires Fits(p, blocks) && blocks != [] && !blocks[0].IsFree()
    requires q == p + blocks[0].Size() && o == Malloc(q, blocks[1..], firstFree, n)
    requires OneMore(q, blocks[1..], o, n, a)
    ensures OneMore(p, blocks, Malloc(p, blocks, firstFree, n), n, a)
  {
    MallocAbove(q, blocks[1..], firstFree, n);
    OneMorePush(p, blocks[0], blocks, blocks[1..], q, o, n, a);
  }

  /** Failure leaves every allocated block in place; success adds one block of
      at least the requested and at most eight words more, where none was. */
  lemma {:induction false} MallocKeepsOwned(p: int, blocks: seq<Block>, firstFree: int, n: nat, a: int)
    requires Fits(p, blocks)
    ensures OneMore(p, blocks, Malloc(p, blocks, firstFree, n), n, a)
    decreases |blocks|
  {
    if blocks == [] {
    } else if blocks[0].IsFree() {
      var m := Absorb(p, blocks[0].len, blocks[1..], firstFree);
      if n < m.len {
        AbsorbKeepsOwned(p, blocks[0].len, blocks[1..], firstFree, a);
        TakeKeepsOwned(p, m, n, a);
      } else {
        var q := p + 4 + 2 * m.len;
        MallocKeepsOwned(q, m.rest, m.firstFree, n, a);
        OneMorePastRun(p, blocks, firstFree, m, n, a, q, Malloc(q, m.rest, m.firstFree, n));
      }
    } else {
      var q := p + blocks[0].Size();
      MallocKeepsOwned(q, blocks[1..], firstFree, n, a);
      OneMorePastOwned(p, blocks, firstFree, n, a, q, Malloc(q, blocks[1..], firstFree, n));
    }
  }

  lemma FreeHeadKeepsOwned(p: int, blocks: seq<Block>, firstFree: int, a: int)
    requires Fits(p, blocks) && blocks != []
    ensures OwnedAt(p, Free(p, blocks, firstFree, p + 4).blocks, a) == OwnedAt(p + blocks[0].Size(), blocks[1..], a)
  {
    var ff := if firstFree < p then p else firstFree;
    var m := Absorb(p, blocks[0].len, blocks[1..], ff);
    AbsorbKeepsOwned(p, blocks[0].len, blocks[1..], ff, a);
    OwnedPush(p, Block(FREE, m.len), Heap(m.rest, m.firstFree), a);
  }

  /** Freeing removes the named block and touches no other allocated one. */
  lemma {:induction false} FreeKeepsOwned(p: int, blocks: seq<Block>, firstFree: int, addr: int, a: int)
    requires Fits(p, blocks)
    ensures OwnedAt(p, Free(p, blocks, firstFree, addr).blocks, a)
         == if a == addr - 4 then NOTHING else OwnedAt(p, blocks, a)
    decreases |blocks|
  {
    if blocks != [] {
      if p + 4 == addr {
        FreeHeadKeepsOwned(p, blocks, firstFree, a);
      } else {
        FreeKeepsOwned(p + blocks[0].Size(), blocks[1..], firstFree, addr, a);
      }
    }
  }

  // ---------------------------------------------------------- cached pointer

  /** `a` is the address of a block header. */
  predicate HeaderAt(p: int, blocks: seq<Block>, a: int)
    ensures HeaderAt(p, blocks, a) ==> p <= a < p + Extent(blocks)
    decreases blocks
  {
    blocks != [] && (a == p || HeaderAt(p + blocks[0].Size(), blocks[1..], a))
  }

  /** The cached word names a live block header or the wrapped top. */
  predicate Live(p: int, h: Heap) {
    h.firstFree == 0 || HeaderAt(p, h.blocks, h.firstFree)
  }

  lemma {:induction false} NextFreeIsLive(p: int, blocks: seq<Block>)
    requires Fits(p, blocks)
    ensures Live(p, Heap(blocks, NextFree(p, blocks)))
    decreases blocks
  {
    if blocks != [] && !blocks[0].IsFree() {
      NextFreeIsLive(p + blocks[0].Size(), blocks[1..]);
    }
  }

  /** A cached word at a block that is absorbed moves to the absorbing one. */
  lemma {:induction false} AbsorbKeepsLive(p: int, len: nat, rest: seq<Block>, firstFree: int)
    requires 0 < p && p + 4 + 2 * len + Extent(rest) == MEMORY_SIZE
    ensures var m := Absorb(p, len, rest, firstFree);
            var before := HeaderAt(p + 4 + 2 * len, rest, firstFree);
            var after := HeaderAt(p + 4 + 2 * m.len, m.rest, firstFree);
            && (after ==> before)
            && m.firstFree == if before && !after then p else firstFree
    decreases rest
  {
    if rest != [] && rest[0].IsFree() {
      var ff := if firstFree == p + 4 + 2 * len then p else firstFree;
      AbsorbKeepsLive(p, len + 2 + rest[0].len, rest[1..], ff);
    }
  }

  lemma TakeKeepsLive(p: int, m: Merged, n: nat)
    requires 0 < p && p + 4 + 2 * m.len + Extent(m.rest) == MEMORY_SIZE
    requires n < m.len
    ensures var h := Take(p, m, n).heap;
            if m.firstFree == p || HeaderAt(p + 4 + 2 * m.len, m.rest, m.firstFree) then Live(p, h)
            else h.firstFree == m.firstFree
  {
    var h := Take(p, m, n).heap;
    var q := p + h.blocks[0].Size();
    NextFreeIsLive(q, h.blocks[1..]);
    assert n + 8 < m.len ==> h.blocks[1..][1..] == m.rest;
  }

  lemma HeaderPush(p: int, b: Block, h: Heap, a: int)
    ensures HeaderAt(p, Push(b, h).blocks, a) <==> a == p || HeaderAt(p + b.Size(), h.blocks, a)
  {
  }

  /** In terms of the part of the heap from `p` on: a cached word inside stays
      inside (or wraps to the top), and one outside is not touched. */
  predicate KeepsLive(p: int, blocks: seq<Block>, firstFree: int, h: Heap) {
    if HeaderAt(p, blocks, firstFree) then Live(p, h) else h.firstFree == firstFree
  }

  lemma LivePastOwned(p: int, blocks: seq<Block>, firstFree: int, h: Heap)
    requires blocks != [] && KeepsLive(p + blocks[0].Size(), blocks[1..], firstFree, h)
    ensures KeepsLive(p, blocks, firstFree, Push(blocks[0], h))
  {
    HeaderPush(p, blocks[0], h, h.firstFree);
  }

  lemma LivePastRun(p: int, blocks: seq<Block>, firstFree: int, m: Merged, h: Heap)
    requires Fits(p, blocks) && blocks != [] && blocks[0].IsFree()
    requires m == Absorb(p, blocks[0].len, blocks[1..], firstFree)
    requires KeepsLive(p + 4 + 2 * m.len, m.rest, m.firstFree, h)
    ensures KeepsLive(p, blocks, firstFree, Push(Block(FREE, m.len), h))
  {
    AbsorbKeepsLive(p, blocks[0].len, blocks[1..], firstFree);
    HeaderPush(p, Block(FREE, m.len), h, h.firstFree);
  }

  lemma LiveAtRun(p: int, blocks: seq<Block>, firstFree: int, m: Merged, n: nat)
    requires Fits(p, blocks) && blocks != [] && blocks[0].IsFree()
    requires m == Absorb(p, blocks[0].len, blocks[1..], firstFree) && n < m.len
    ensures KeepsLive(p, blocks, firstFree, Take(p, m, n).heap)
  {
    AbsorbKeepsLive(p, blocks[0].len, blocks[1..], firstFree);
    TakeKeepsLive(p, m, n);
  }

  lemma {:induction false} MallocKeepsLive(p: int, blocks: seq<Block>, firstFree: int, n: nat)
    requires Fits(p, blocks)
    ensures KeepsLive(p, blocks, firstFree, Malloc(p, blocks, firstFree, n).heap)
    decreases |blocks|
  {
    if blocks == [] {
    } else if blocks[0].IsFree() {
      var m := Absorb(p, blocks[0].len, blocks[1..], firstFree);
      if n < m.len {
        LiveAtRun(p, blocks, firstFree, m, n);
      } else {
        MallocKeepsLive(p + 4 + 2 * m.len, m.rest, m.firstFree, n);
        LivePastRun(p, blocks, firstFree, m, Malloc(p + 4 + 2 * m.len, m.rest, m.firstFree, n).heap);
      }
    } else {
      MallocKeepsLive(p + blocks[0].Size(), blocks[1..], firstFree, n);
      LivePastOwned(p, blocks, firstFree, Malloc(p + blocks[0].Size(), blocks[1..], firstFree, n).heap);
    }
  }

  lemma {:induction false} FreeKeepsLive(p: int, blocks: seq<Block>, firstFree: int, addr: int)
    requires Fits(p, blocks)
    ensures var h := Free(p, blocks, firstFree, addr);
            if HeaderAt(p, blocks, firstFree) then
              Live(p, h)
            else
              h.firstFree == firstFree || HeaderAt(p, h.blocks, h.firstFree)
    decreases |blocks|
  {
    var h := Free(p, blocks, firstFree, addr);
    if blocks == [] {
    } else if p + 4 == addr {
      var ff := if firstFree < p then p else firstFree;
      AbsorbKeepsLive(p, blocks[0].len, blocks[1..], ff);
    } else {
      FreeKeepsLive(p + blocks[0].Size(), blocks[1..], firstFree, addr);
    }
  }

  /** No free block lies below the cached word; 0 stands for the top. */
  predicate NoFreeBelow(p: int, blocks: seq<Block>, firstFree: int)
    decreases blocks
  {
    blocks == [] ||
    (&& (blocks[0].IsFree() ==> 0 < firstFree <= p)
     && NoFreeBelow(p + blocks[0].Size(), blocks[1..], firstFree))
  }

  /** A cached word at or below the region has nothing free below it there. */
  lemma {:induction false} LowHasNoFreeBelow(p: int, blocks: seq<Block>, firstFree: int)
    requires 0 < firstFree <= p
    ensures NoFreeBelow(p, blocks, firstFree)
    decreases blocks
  {
    if blocks != [] {
      LowHasNoFreeBelow(p + blocks[0].Size(), blocks[1..], firstFree);
    }
  }

  lemma {:induction false} NextFreeIsLowest(p: int, blocks: seq<Block>)
    requires Fits(p, blocks)
    ensures NoFreeBelow(p, blocks, NextFree(p, blocks))
    decreases blocks
  {
    if blocks != [] {
      if blocks[0].IsFree() {
        LowHasNoFreeBelow(p, blocks, p);
      } else {
        NextFreeIsLowest(p + blocks[0].Size(), blocks[1..]);
      }
    }
  }

  /** Allocation alone never leaves a free block below the cached word. */
  lemma {:induction false} MallocKeepsLowest(p: int, blocks: seq<Block>, firstFree: int, n: nat)
    requires Fits(p, blocks)
    requires NoFreeBelow(p, blocks, firstFree)
    ensures var h := Malloc(p, blocks, firstFree, n).heap; NoFreeBelow(p, h.blocks, h.firstFree)
    decreases |blocks|
  {
    var h := Malloc(p, blocks, firstFree, n).heap;
    if blocks == [] {
    } else if !blocks[0].IsFree() {
      MallocKeepsLowest(p + blocks[0].Size(), blocks[1..], firstFree, n);
    } else if firstFree < p {
      MallocKeepsLive(p, blocks, firstFree, n);
      LowHasNoFreeBelow(p, h.blocks, firstFree);
    } else {
      var m := Absorb(p, blocks[0].len, blocks[1..], firstFree);
      AbsorbKeepsLive(p, blocks[0].len, blocks[1..], firstFree);
      if n < m.len {
        NextFreeIsLowest(p + h.blocks[0].Size(), h.blocks[1..]);
      } else {
        MallocKeepsLive(p + 4 + 2 * m.len, m.rest, m.firstFree, n);
        LowHasNoFreeBelow(p, h.blocks, firstFree);
      }
    }
  }

  /** Freeing raises a cached word that is lower to the freed block. */
  lemma {:induction false} FreeRaises(p: int, blocks: seq<Block>, firstFree: int, i: nat)
    requires Fits(p, blocks) && i < |blocks| && firstFree < At(p, blocks, i)
    ensures Free(p, blocks, firstFree, At(p, blocks, i) + 4).firstFree == At(p, blocks, i)
    decreases |blocks|
  {
    if i == 0 {
      AbsorbKeepsLive(p, blocks[0].len, blocks[1..], p);
    } else {
      AtStep(p, blocks, i);
      FreeRaises(p + blocks[0].Size(), blocks[1..], firstFree, i - 1);
    }
  }

  lemma AtStep(p: int, blocks: seq<Block>, i: int)
    requires 0 < i <= |blocks|
    ensures At(p, blocks, i) == At(p + blocks[0].Size(), blocks[1..], i - 1)
    ensures p < At(p, blocks, i)
  {
    assert blocks[..i][1..] == blocks[1..][..i - 1];
  }

  /** When freeing block `i` leaves the cached word at or below every free block. */
  ghost predicate KeepsLowest(p: int, blocks: seq<Block>, firstFree: int, i: nat)
    requires i < |blocks|
  {
    && (forall k :: 0 <= k < i ==> !blocks[k].IsFree())
    && (|| firstFree <= At(p, blocks, i)
        || (i + 1 < |blocks| && blocks[i + 1].IsFree() && firstFree == At(p, blocks, i + 1)))
  }

  lemma KeepsLowestStep(p: int, blocks: seq<Block>, firstFree: int, i: nat)
    requires 0 < i < |blocks| && !blocks[0].IsFree()
    ensures KeepsLowest(p, blocks, firstFree, i)
       <==> KeepsLowest(p + blocks[0].Size(), blocks[1..], firstFree, i - 1)
  {
    AtStep(p, blocks, i);
    if i + 1 < |blocks| { AtStep(p, blocks, i + 1); }
    assert forall k :: 0 < k < i ==> blocks[k] == blocks[1..][k - 1];
    assert forall k :: 0 <= k < i - 1 ==> blocks[1..][k] == blocks[k + 1];
  }

  /** Freeing keeps the cached word lowest exactly when the freed block is below
      every free one, and the cached word is not above it or is merged into it. */
  lemma {:induction false} FreeKeepsLowestIff(p: int, blocks: seq<Block>, firstFree: int, i: nat)
    requires Fits(p, blocks) && i < |blocks|
    requires NoFreeBelow(p, blocks, firstFree)
    ensures var h := Free(p, blocks, firstFree, At(p, blocks, i) + 4);
            NoFreeBelow(p, h.blocks, h.firstFree) <==> KeepsLowest(p, blocks, firstFree, i)
    decreases |blocks|
  {
    if i == 0 {
      FreeHeadKeepsLowestIff(p, blocks, firstFree);
    } else {
      var q, addr := p + blocks[0].Size(), At(p, blocks, i) + 4;
      var h := Free(q, blocks[1..], firstFree, addr);
      AtStep(p, blocks, i);
      FreePast(p, blocks, firstFree, addr, q, h);
      NoFreeBelowPush(p, blocks[0], h);
      if blocks[0].IsFree() {
        FreeRaises(q, blocks[1..], firstFree, i - 1);
      } else {
        FreeKeepsLowestIff(q, blocks[1..], firstFree, i - 1);
        KeepsLowestStep(p, blocks, firstFree, i);
      }
    }
  }

  lemma FreePast(p: int, blocks: seq<Block>, firstFree: int, addr: int, q: int, h: Heap)
    requires Fits(p, blocks) && blocks != [] && p + 4 != addr
    requires q == p + blocks[0].Size() && h == Free(q, blocks[1..], firstFree, addr)
    ensures Free(p, blocks, firstFree, addr) == Push(blocks[0], h)
  {
  }

  lemma NoFreeBelowPush(p: int, b: Block, h: Heap)
    ensures var pushed := Push(b, h);
            NoFreeBelow(p, pushed.blocks, pushed.firstFree) <==>
              (b.IsFree() ==> 0 < h.firstFree <= p) && NoFreeBelow(p + b.Size(), h.blocks, h.firstFree)
  {
  }

  /** A cached word above the freed block moves to it only by being merged. */
  lemma WordAboveFreed(p: int, len: nat, rest: seq<Block>, firstFree: int)
    requires 0 < p && p + 4 + 2 * len + Extent(rest) == MEMORY_SIZE
    requires p < firstFree && NoFreeBelow(p + 4 + 2 * len, rest, firstFree)
    ensures var moved := rest != [] && rest[0].IsFree() && firstFree == p + 4 + 2 * len;
            Absorb(p, len, rest, firstFree).firstFree == if moved then p else firstFree
  {
    if rest != [] && rest[0].IsFree() {
      var ff := if firstFree == p + 4 + 2 * len then p else firstFree;
      AbsorbKeepsLive(p, len + 2 + rest[0].len, rest[1..], ff);
    }
  }

  lemma FreeHeadKeepsLowestIff(p: int, blocks: seq<Block>, firstFree: int)
    requires Fits(p, blocks) && blocks != []
    requires NoFreeBelow(p, blocks, firstFree)
    ensures var h := Free(p, blocks, firstFree, p + 4);
            NoFreeBelow(p, h.blocks, h.firstFree) <==> KeepsLowest(p, blocks, firstFree, 0)
  {
    var h := Free(p, blocks, firstFree, p + 4);
    if p < firstFree {
      WordAboveFreed(p, blocks[0].len, blocks[1..], firstFree);
    } else {
      AbsorbKeepsLive(p, blocks[0].len, blocks[1..], p);
      assert h.firstFree == p;
    }
    if h.firstFree == p {
      LowHasNoFreeBelow(p, h.blocks, h.firstFree);
    }
    if 1 < |blocks| { AtStep(p, blocks, 1); }
  }

  /** A heap of one free and one allocated block, on which freeing the second loses the
      first one from the cached word. */
  lemma FreeLosesLowest() returns (p: int, blocks: seq<Block>, firstFree: int, i: nat)
    ensures Fits(p, blocks) && Live(p, Heap(blocks, firstFree)) && i < |blocks| && !blocks[i].IsFree()
    ensures NoFreeBelow(p, blocks, firstFree) && !KeepsLowest(p, blocks, firstFree, i)
    ensures var h := Free(p, blocks, firstFree, At(p, blocks, i) + 4); !NoFreeBelow(p, h.blocks, h.firstFree)
  {
    p, blocks, firstFree, i := 0xff00, [Block(FREE, 10), Block(BEAMED, 114)], 0xff00, 1;
    assert blocks[1..][1..] == [];
    assert Extent(blocks[1..]) == 232 && Extent(blocks) == 256;
    assert blocks[0].IsFree();
    FreeKeepsLowestIff(p, blocks, firstFree, i);
  }

  // ------------------------------------------------------- address prediction

  /** An allocated block lies at or above the region, after a head in use. */
  lemma {:induction false} MallocAbove(p: int, blocks: seq<Block>, firstFree: int, n: nat)
    requires Fits(p, blocks)
    ensures var o := Malloc(p, blocks, firstFree, n);
            o.addr != 0 ==>
              && blocks != [] && p + 4 <= o.addr
              && (!blocks[0].IsFree() ==> o.addr != p + 4 && o.heap.blocks[0] == blocks[0])
    decreases |blocks|
  {
    if blocks != [] && !blocks[0].IsFree() {
      MallocAbove(p + blocks[0].Size(), blocks[1..], firstFree, n);
    } else if blocks != [] {
      var m := Absorb(p, blocks[0].len, blocks[1..], firstFree);
      if m.len <= n {
        MallocAbove(p + 4 + 2 * m.len, m.rest, m.firstFree, n);
      }
    }
  }

  /** Freeing what was taken merges back the run it was taken from. */
  lemma TakeThenFree(p: int, m: Merged, n: nat, ff: int)
    requires 0 < p && p + 4 + 2 * m.len + Extent(m.rest) == MEMORY_SIZE
    requires n < m.len && (m.rest != [] ==> !m.rest[0].IsFree())
    requires m.len < 0x10000
    ensures Free(p, Take(p, m, n).heap.blocks, ff, p + 4).blocks == Push(Block(FREE, m.len), Heap(m.rest, 0)).blocks
  {
    var taken := Take(p, m, n).heap.blocks;
    var ff' := if ff < p then p else ff;
    if n + 8 < m.len {
      assert taken[1..][0] == Block(FREE, m.len - n - 2) && taken[1..][1..] == m.rest;
      var ff'' := if ff' == p + 4 + 2 * n then p else ff';
      assert Absorb(p, n, taken[1..], ff') == Absorb(p, m.len, m.rest, ff'');
    } else {
      assert taken[1..] == m.rest;
    }
  }

  /** Malloc at a run that is one block already. */
  lemma MallocAtMerged(p: int, blocks: seq<Block>, ff: int, m: Merged, n: nat)
    requires Fits(p, blocks) && blocks != []
    requires blocks[0].IsFree() && blocks[0].len == m.len && blocks[1..] == m.rest
    requires m.rest != [] ==> !m.rest[0].IsFree()
    ensures var o := Malloc(p, blocks, ff, n);
            if n < m.len then
              o.addr == p + 4 && o.heap.blocks == Take(p, m, n).heap.blocks
            else
              var t := Malloc(p + 4 + 2 * m.len, m.rest, ff, n);
              o.addr == t.addr && o.heap.blocks == [blocks[0]] + t.heap.blocks
  {
    assert Absorb(p, m.len, m.rest, ff) == Merged(m.len, m.rest, ff);
  }

  /** The heap with every run up to the first that fits `n` merged. */
  function Settled(p: int, blocks: seq<Block>, ff: int, n: nat): (s: seq<Block>)
    requires Fits(p, blocks)
    ensures Fits(p, s) && (s == [] <==> blocks == [])
    ensures s != [] ==> s[0].IsFree() == blocks[0].IsFree()
    decreases |blocks|
  {
    if blocks == [] then []
    else if blocks[0].IsFree() then
      var m := Absorb(p, blocks[0].len, blocks[1..], ff);
      var rest := if n < m.len then m.rest else Settled(p + 4 + 2 * m.len, m.rest, m.firstFree, n);
      Push(Block(FREE, m.len), Heap(rest, 0)).blocks
    else
      Push(blocks[0], Heap(Settled(p + blocks[0].Size(), blocks[1..], ff, n), 0)).blocks
  }

  lemma SettlesPast(p: int, b: Block, h: Heap, ff: int, addr: int, rest: seq<Block>)
    requires Fits(p, Push(b, h).blocks) && p + 4 != addr
    requires Free(p + b.Size(), h.blocks, ff, addr).blocks == rest
    ensures Free(p, Push(b, h).blocks, ff, addr).blocks == Push(b, Heap(rest, 0)).blocks
  {
  }

  predicate FreedIsSettled(p: int, blocks: seq<Block>, ff1: int, ff2: int, n: nat)
    requires Fits(p, blocks)
  {
    var o := Malloc(p, blocks, ff1, n);
    o.addr != 0 ==> Free(p, o.heap.blocks, ff2, o.addr).blocks == Settled(p, blocks, ff1, n)
  }

  lemma SettlesPastOwned(p: int, blocks: seq<Block>, ff1: int, ff2: int, n: nat, q: int, o: Outcome)
    requires Fits(p, blocks) && blocks != [] && !blocks[0].IsFree()
    requires q == p + blocks[0].Size() && o == Malloc(q, blocks[1..], ff1, n)
    requires FreedIsSettled(q, blocks[1..], ff1, ff2, n)
    ensures FreedIsSettled(p, blocks, ff1, ff2, n)
  {
    if o.addr != 0 {
      MallocAbove(q, blocks[1..], ff1, n);
      SettlesPast(p, blocks[0], o.heap, ff2, o.addr, Settled(q, blocks[1..], ff1, n));
    }
  }

  lemma SettlesAtRun(p: int, blocks: seq<Block>, ff1: int, ff2: int, m: Merged, n: nat)
    requires Fits(p, blocks) && blocks != [] && blocks[0].IsFree()
    requires m == Absorb(p, blocks[0].len, blocks[1..], ff1) && n < m.len
    ensures FreedIsSettled(p, blocks, ff1, ff2, n)
  {
    assert Malloc(p, blocks, ff1, n) == Take(p, m, n);
    TakeThenFree(p, m, n, ff2);
  }

  lemma SettlesPastRun(p: int, blocks: seq<Block>, ff1: int, ff2: int, m: Merged, n: nat, q: int, o: Outcome)
    requires Fits(p, blocks) && blocks != [] && blocks[0].IsFree()
    requires m == Absorb(p, blocks[0].len, blocks[1..], ff1) && m.len <= n
    requires q == p + 4 + 2 * m.len && o == Malloc(q, m.rest, m.firstFree, n)
    requires FreedIsSettled(q, m.rest, m.firstFree, ff2, n)
    ensures FreedIsSettled(p, blocks, ff1, ff2, n)
  {
    MallocPastRun(p, blocks, ff1, m, n, q, o);
    if o.addr != 0 {
      MallocAbove(q, m.rest, m.firstFree, n);
      SettlesPast(p, Block(FREE, m.len), o.heap, ff2, o.addr, Settled(q, m.rest, m.firstFree, n));
    }
  }

  /** Freeing what an allocation returned leaves the settled heap. */
  lemma {:induction false} FreeSettles(p: int, blocks: seq<Block>, ff1: int, ff2: int, n: nat)
    requires Fits(p, blocks)
    ensures FreedIsSettled(p, blocks, ff1, ff2, n)
    decreases |blocks|
  {
    if blocks == [] {
    } else if !blocks[0].IsFree() {
      var q := p + blocks[0].Size();
      FreeSettles(q, blocks[1..], ff1, ff2, n);
      SettlesPastOwned(p, blocks, ff1, ff2, n, q, Malloc(q, blocks[1..], ff1, n));
    } else {
      var m := Absorb(p, blocks[0].len, blocks[1..], ff1);
      if n < m.len {
        SettlesAtRun(p, blocks, ff1, ff2, m, n);
      } else {
        var q := p + 4 + 2 * m.len;
        FreeSettles(q, m.rest, m.firstFree, ff2, n);
        SettlesPastRun(p, blocks, ff1, ff2, m, n, q, Malloc(q, m.rest, m.firstFree, n));
      }
    }
  }

  /** An allocation that fails leaves the settled heap, too. */
  lemma {:induction false} FailureSettles(p: int, blocks: seq<Block>, ff: int, n: nat)
    requires Fits(p, blocks)
    ensures var o := Malloc(p, blocks, ff, n);
            o.addr == 0 ==> o.heap.blocks == Settled(p, blocks, ff, n)
    decreases |blocks|
  {
    if blocks == [] {
    } else if blocks[0].IsFree() {
      var m := Absorb(p, blocks[0].len, blocks[1..], ff);
      if m.len <= n {
        FailureSettles(p + 4 + 2 * m.len, m.rest, m.firstFree, n);
      }
    } else {
      FailureSettles(p + blocks[0].Size(), blocks[1..], ff, n);
    }
  }

  lemma MallocPastOwned(p: int, b: Block, h: Heap, ff: int, n: nat)
    requires !b.IsFree() && Fits(p, Push(b, h).blocks)
    ensures var o := Malloc(p + b.Size(), h.blocks, ff, n);
            Malloc(p, Push(b, h).blocks, ff, n) == Outcome(o.addr, Push(b, o.heap))
  {
  }

  lemma MallocPastRun(p: int, blocks: seq<Block>, ff: int, m: Merged, n: nat, q: int, o: Outcome)
    requires Fits(p, blocks) && blocks != [] && blocks[0].IsFree()
    requires m == Absorb(p, blocks[0].len, blocks[1..], ff) && m.len <= n
    requires q == p + 4 + 2 * m.len && o == Malloc(q, m.rest, m.firstFree, n)
    ensures Malloc(p, blocks, ff, n) == Outcome(o.addr, Push(Block(FREE, m.len), o.heap))
  {
  }

  /** On the settled heap the request has the same answer and the same result. */
  predicate AnswersAgain(p: int, blocks: seq<Block>, ff1: int, ff2: int, n: nat)
    requires Fits(p, blocks)
  {
    var first := Malloc(p, blocks, ff1, n);
    var again := Malloc(p, Settled(p, blocks, ff1, n), ff2, n);
    again.addr == first.addr && again.heap.blocks == first.heap.blocks
  }

  lemma AgainPastOwned(p: int, blocks: seq<Block>, ff1: int, ff2: int, n: nat)
    requires Fits(p, blocks) && blocks != [] && !blocks[0].IsFree()
    requires AnswersAgain(p + blocks[0].Size(), blocks[1..], ff1, ff2, n)
    ensures AnswersAgain(p, blocks, ff1, ff2, n)
  {
    var t := Heap(Settled(p + blocks[0].Size(), blocks[1..], ff1, n), 0);
    assert Settled(p, blocks, ff1, n) == Push(blocks[0], t).blocks;
    MallocPastOwned(p, blocks[0], t, ff2, n);
    assert blocks == Push(blocks[0], Heap(blocks[1..], 0)).blocks;
    MallocPastOwned(p, blocks[0], Heap(blocks[1..], 0), ff1, n);
  }

  lemma AgainAtRun(p: int, blocks: seq<Block>, ff1: int, ff2: int, n: nat)
    requires Fits(p, blocks) && blocks != [] && blocks[0].IsFree()
    requires n < Absorb(p, blocks[0].len, blocks[1..], ff1).len
    ensures AnswersAgain(p, blocks, ff1, ff2, n)
  {
    var m := Absorb(p, blocks[0].len, blocks[1..], ff1);
    var s := Settled(p, blocks, ff1, n);
    assert Malloc(p, blocks, ff1, n) == Take(p, m, n);
    MallocAtMerged(p, s, ff2, Merged(m.len, m.rest, ff2), n);
  }

  lemma AgainPastRun(p: int, blocks: seq<Block>, ff1: int, ff2: int, m: Merged, n: nat)
    requires Fits(p, blocks) && blocks != [] && blocks[0].IsFree()
    requires m == Absorb(p, blocks[0].len, blocks[1..], ff1) && m.len <= n
    requires AnswersAgain(p + 4 + 2 * m.len, m.rest, m.firstFree, ff2, n)
    ensures AnswersAgain(p, blocks, ff1, ff2, n)
  {
    var q := p + 4 + 2 * m.len;
    var t := Settled(q, m.rest, m.firstFree, n);
    MallocPastRun(p, blocks, ff1, m, n, q, Malloc(q, m.rest, m.firstFree, n));
    SettledPastRun(p, blocks, ff1, m, n, q, t);
    AgainAtMerged(p, Settled(p, blocks, ff1, n), t, m.len, ff2, n, q);
  }

  lemma SettledPastRun(p: int, blocks: seq<Block>, ff: int, m: Merged, n: nat, q: int, t: seq<Block>)
    requires Fits(p, blocks) && blocks != [] && blocks[0].IsFree()
    requires m == Absorb(p, blocks[0].len, blocks[1..], ff) && m.len <= n
    requires q == p + 4 + 2 * m.len && t == Settled(q, m.rest, m.firstFree, n)
    ensures Settled(p, blocks, ff, n) == Push(Block(FREE, m.len), Heap(t, 0)).blocks
    ensures t != [] ==> !t[0].IsFree()
  {
  }

  lemma AgainAtMerged(p: int, s: seq<Block>, t: seq<Block>, len: word, ff: int, n: nat, q: int)
    requires Fits(p, s) && s != [] && s[0] == Block(FREE, len) && s[1..] == t && len <= n
    requires (t != [] ==> !t[0].IsFree()) && q == p + 4 + 2 * len
    ensures var o := Malloc(q, t, ff, n); 
            Malloc(p, s, ff, n) == Outcome(o.addr, Push(Block(FREE, len), o.heap))
  {
    var m := Merged(len, t, ff);
    assert Absorb(p, len, t, ff) == m;
    MallocPastRun(p, s, ff, m, n, q, Malloc(q, t, ff, n));
  }

  lemma {:induction false} MallocOnSettled(p: int, blocks: seq<Block>, ff1: int, ff2: int, n: nat)
    requires Fits(p, blocks)
    ensures AnswersAgain(p, blocks, ff1, ff2, n)
    decreases |blocks|
  {
    if blocks == [] {
    } else if blocks[0].IsFree() {
      var m := Absorb(p, blocks[0].len, blocks[1..], ff1);
      if n < m.len {
        AgainAtRun(p, blocks, ff1, ff2, n);
      } else {
        MallocOnSettled(p + 4 + 2 * m.len, m.rest, m.firstFree, ff2, n);
        AgainPastRun(p, blocks, ff1, ff2, m, n);
      }
    } else {
      MallocOnSettled(p + blocks[0].Size(), blocks[1..], ff1, ff2, n);
      AgainPastOwned(p, blocks, ff1, ff2, n);
    }
  }

  /** An allocation that succeeds, freed again, leaves a heap in which the same
      request finds the same address and rebuilds the same blocks, whatever the
      cached word has become in between. */
  lemma PredictedAddress(p: int, blocks: seq<Block>, ff1: int, ff2: int, ff3: int, n: nat)
    requires Fits(p, blocks)
    requires Malloc(p, blocks, ff1, n).addr != 0
    ensures var first := Malloc(p, blocks, ff1, n);
            var freed := Free(p, first.heap.blocks, ff2, first.addr);
            var second := Malloc(p, freed.blocks, ff3, n);
            second.addr == first.addr && second.heap.blocks == first.heap.blocks
  {
    FreeSettles(p, blocks, ff1, ff2, n);
    MallocOnSettled(p, blocks, ff1, ff3, n);
  }
}
