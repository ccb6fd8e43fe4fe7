/** Whole histories of requests against the brickOS heap. */
module BrickOsHistory {
  import opened Words
  import opened BrickOsHeap
  import opened BrickOsHeapLaws

  datatype Request = Allocate(size: word) | Release(addr: word)

  function Serve(p: int, h: Heap, r: Request): (h': Heap)
    requires Fits(p, h.blocks)
    ensures Fits(p, h'.blocks)
  {
    match r
    case Allocate(size) => Malloc(p, h.blocks, h.firstFree, WordsFor(size)).heap
    case Release(addr) => Free(p, h.blocks, h.firstFree, addr)
  }

  function ServeAll(p: int, h: Heap, rs: seq<Request>): (h': Heap)
    requires Fits(p, h.blocks)
    ensures Fits(p, h'.blocks)
    decreases |rs|
  {
    if rs == [] then h else ServeAll(p, Serve(p, h, rs[0]), rs[1..])
  }

  /** Over every history the blocks tile the heap, the cached word stays live, and
      an allocated block that no request names keeps its place, length and owner. */
  lemma {:induction false} HistoryKeepsHeap(p: int, h: Heap, rs: seq<Request>, a: int)
    requires Fits(p, h.blocks) && Live(p, h)
    ensures var h' := ServeAll(p, h, rs);
            && Fits(p, h'.blocks) && Live(p, h')
            && (OwnedAt(p, h.blocks, a) != NOTHING && (forall r :: r in rs && r.Release? ==> r.addr != a + 4)
                ==> OwnedAt(p, h'.blocks, a) == OwnedAt(p, h.blocks, a))
    decreases |rs|
  {
    if rs != [] {
      var h1 := Serve(p, h, rs[0]);
      assert rs[0] in rs && forall r :: r in rs[1..] ==> r in rs;
      match rs[0] {
        case Allocate(size) =>
          MallocKeepsLive(p, h.blocks, h.firstFree, WordsFor(size));
          MallocKeepsOwned(p, h.blocks, h.firstFree, WordsFor(size), a);
        case Release(addr) =>
          FreeKeepsLive(p, h.blocks, h.firstFree, addr);
          FreeKeepsOwned(p, h.blocks, h.firstFree, addr, a);
      }
      HistoryKeepsHeap(p, h1, rs[1..], a);
    }
  }

  /** Over every history of allocations alone the cached word stays at or below
      every free block. */
  lemma {:induction false} AllocationsKeepLowest(p: int, h: Heap, sizes: seq<word>)
    requires Fits(p, h.blocks) && NoFreeBelow(p, h.blocks, h.firstFree)
    ensures var h' := ServeAll(p, h, seq(|sizes|, i requires 0 <= i < |sizes| => Allocate(sizes[i])));
            NoFreeBelow(p, h'.blocks, h'.firstFree)
    decreases |sizes|
  {
    if sizes != [] {
      MallocKeepsLowest(p, h.blocks, h.firstFree, WordsFor(sizes[0]));
      var rs := seq(|sizes|, i requires 0 <= i < |sizes| => Allocate(sizes[i]));
      var rest := sizes[1..];
      assert rs[1..] == seq(|rest|, i requires 0 <= i < |rest| => Allocate(rest[i]));
      AllocationsKeepLowest(p, Serve(p, h, rs[0]), rest);
    }
  }
}
