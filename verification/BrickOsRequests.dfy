/** Whole histories of requests, served in memory. */
module BrickOsRequests {
  import opened Words
  import opened BrickOsHeap
  import opened BrickOsHeapLaws
  import opened BrickOsHistory
  import opened BrickOs

  /** The blocks allocated before that no request of the history releases. */
  ghost function Unnamed(owned: map<int, Block>, requests: seq<Request>): (r: map<int, Block>) {
    map k | k in owned && (forall r :: r in requests && r.Release? ==> r.addr != k + 4) :: owned[k]
  }

  /** All of `kept` are allocated as they were. */
  ghost predicate StillOwned(p: int, blocks: seq<Block>, kept: map<int, Block>) {
    forall k :: k in kept ==> !kept[k].IsFree() && OwnedAt(p, blocks, k) == kept[k]
  }

  lemma KeptAreOwned(p: int, blocks: seq<Block>, kept: map<int, Block>)
    requires StillOwned(p, blocks, kept)
    ensures forall k :: k in kept ==> k in Owned(p, blocks) && Owned(p, blocks)[k] == kept[k]
  {
  }

  lemma ServedStillOwned(p: int, h: Heap, r: Request, kept: map<int, Block>)
    requires Fits(p, h.blocks) && StillOwned(p, h.blocks, kept)
    requires r.Release? ==> r.addr - 4 !in kept
    ensures StillOwned(p, Serve(p, h, r).blocks, kept)
  {
    forall k | k in kept ensures OwnedAt(p, Serve(p, h, r).blocks, k) == kept[k] {
      match r
      case Allocate(size) => MallocKeepsOwned(p, h.blocks, h.firstFree, WordsFor(size), k);
      case Release(addr) => FreeKeepsOwned(p, h.blocks, h.firstFree, addr, k);
    }
  }

  /** One request on the heap in memory. */
  method ServeOne(heap: GuestHeap, r: Request, ghost kept: map<int, Block>)
    requires heap.Valid() && heap.mmStart != 0 && StillOwned(heap.mmStart, heap.blocks, kept)
    requires r.Release? ==> r.addr - 4 !in kept
    modifies heap, heap.memory, heap.memory.bytes
    ensures heap.Valid() && StillOwned(heap.mmStart, heap.blocks, kept)
    ensures Heap(heap.blocks, WordAt(heap.memory.image, heap.mmFirstFree))
         == Serve(heap.mmStart, old(Heap(heap.blocks, WordAt(heap.memory.image, heap.mmFirstFree))), r)
    ensures SameBytes(old(heap.memory.image), heap.memory.image, kept)
  {
    ghost var m, owned := heap.memory.image, Owned(heap.mmStart, heap.blocks);
    KeptAreOwned(heap.mmStart, heap.blocks, kept);
    ServedStillOwned(heap.mmStart, Heap(heap.blocks, WordAt(m, heap.mmFirstFree)), r, kept);
    match r {
      case Allocate(size) =>
        var addr := heap.Malloc(size);
        BytesOfSome(m, heap.memory.image, owned, kept);
      case Release(addr) =>
        heap.Free(addr);
        BytesOfSome(m, heap.memory.image, owned - {addr - 4}, kept);
    }
  }

  /** Any history of requests: the heap in memory is that of the value model, and every
      allocated block that no request releases keeps all its bytes. */
  method ServeRequests(heap: GuestHeap, requests: seq<Request>)
    requires heap.Valid() && heap.mmStart != 0
    modifies heap, heap.memory, heap.memory.bytes
    ensures heap.Valid()
    ensures Heap(heap.blocks, WordAt(heap.memory.image, heap.mmFirstFree))
         == ServeAll(heap.mmStart, old(Heap(heap.blocks, WordAt(heap.memory.image, heap.mmFirstFree))), requests)
    ensures SameBytes(old(heap.memory.image), heap.memory.image,
                      Unnamed(Owned(heap.mmStart, old(heap.blocks)), requests))
  {
    ghost var m, p := heap.memory.image, heap.mmStart;
    ghost var kept := Unnamed(Owned(p, heap.blocks), requests);
    ghost var goal := ServeAll(p, Heap(heap.blocks, WordAt(m, heap.mmFirstFree)), requests);
    var i := 0;
    while i < |requests|
      invariant i <= |requests| && heap.Valid() && StillOwned(p, heap.blocks, kept)
      invariant SameBytes(m, heap.memory.image, kept)
      invariant ServeAll(p, Heap(heap.blocks, WordAt(heap.memory.image, heap.mmFirstFree)), requests[i..]) == goal
    {
      ghost var before := heap.memory.image;
      assert requests[i] in requests && requests[i..][1..] == requests[i + 1..];
      ServeOne(heap, requests[i], kept);
      SameBytesTransitive(m, before, heap.memory.image, kept);
      i := i + 1;
    }
  }
}
