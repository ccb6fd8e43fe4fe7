/**
 The brickOS heap as a value: a sequence of blocks that tiles the guest
 memory from a base address to the top of the 64 KB address space.

 A block is a two-word header (owner, length in words) followed by its data.
 Owner 0 means free.  The cached `firstFree` word holds the address of a block
 header, or 0, which is the wrapped top of the address space.
 */
module BrickOsHeap {
  import opened Words

  const FREE: word := 0
  const BEAMED: word := 0xfffe

  datatype Block = Block(owner: word, len: word) {
    predicate IsFree() { owner == FREE }

    /** Bytes taken by the header and the data. */
    function Size(): (r: nat) { 4 + 2 * len }
  }

  function Extent(blocks: seq<Block>): (n: nat)
    ensures blocks == [] <==> n == 0
  {
    if blocks == [] then 0 else blocks[0].Size() + Extent(blocks[1..])
  }

  /** `blocks` fills memory from `p` exactly up to the wrapped top. */
  predicate Fits(p: int, blocks: seq<Block>) {
    0 < p && p + Extent(blocks) == MEMORY_SIZE
  }

  /** A size in bytes, rounded up to words. */
  function WordsFor(size: word): (n: word)
    ensures size <= 2 * n <= size + 1
  {
    (size + 1) / 2
  }

  // ---------------------------------------------------------------- malloc

  /** A free block of length `len` at `p`, after absorbing the free blocks that
      start `rest`, together with what is left of `rest` and the cached word. */
  datatype Merged = Merged(len: nat, rest: seq<Block>, firstFree: int)

  function Absorb(p: int, len: nat, rest: seq<Block>, firstFree: int): (r: Merged)
    requires 0 < p && p + 4 + 2 * len + Extent(rest) == MEMORY_SIZE
    ensures p + 4 + 2 * r.len + Extent(r.rest) == MEMORY_SIZE
    ensures len <= r.len < 0x8000 && |r.rest| <= |rest|
    ensures r.rest != [] ==> !r.rest[0].IsFree()
    decreases rest
  {
    if rest != [] && rest[0].IsFree() then
      Absorb(p, len + 2 + rest[0].len, rest[1..], if firstFree == p + 4 + 2 * len then p else firstFree)
    else
      Merged(len, rest, firstFree)
  }

  /** The first free block at or after `p`, or 0 at the wrapped top. */
  function NextFree(p: int, blocks: seq<Block>): (r: int)
    requires Fits(p, blocks)
    decreases blocks
  {
    if blocks == [] then 0
    else if blocks[0].IsFree() then p
    else NextFree(p + blocks[0].Size(), blocks[1..])
  }

  /** The blocks and the cached word. */
  datatype Heap = Heap(blocks: seq<Block>, firstFree: int)

  /** The address malloc returns (0 on failure) and the heap it leaves. */
  datatype Outcome = Outcome(addr: int, heap: Heap)

  /** The heap with the block `b` in front. */
  function Push(b: Block, h: Heap): (r: Heap)
    ensures r.blocks != [] && r.blocks[0] == b && r.blocks[1..] == h.blocks
    ensures r.firstFree == h.firstFree && Extent(r.blocks) == b.Size() + Extent(h.blocks)
  {
    var blocks := [b] + h.blocks;
    assert blocks[1..] == h.blocks;
    Heap(blocks, h.firstFree)
  }

  /** The allocation at a free block of merged length m.len > n: split when more
      than eight words are left over, and move the cached word if it was here. */
  function Take(p: int, m: Merged, n: nat): (o: Outcome)
    requires 0 < p && p + 4 + 2 * m.len + Extent(m.rest) == MEMORY_SIZE
    requires n < m.len
    ensures Fits(p, o.heap.blocks) && o.addr == p + 4
  {
    var split := m.len > n + 8;
    var len := if split then n else m.len;
    var rest := if split then Push(Block(FREE, m.len - n - 2), Heap(m.rest, 0)).blocks else m.rest;
    var ff := if m.firstFree == p then NextFree(p + 4 + 2 * len, rest) else m.firstFree;
    Outcome(p + 4, Push(Block(BEAMED, len), Heap(rest, ff)))
  }

  /** First fit for `n` words, merging every free run on the way. */
  function Malloc(p: int, blocks: seq<Block>, firstFree: int, n: nat): (o: Outcome)
    requires Fits(p, blocks)
    ensures Fits(p, o.heap.blocks)
    decreases |blocks|
  {
    if blocks == [] then
      Outcome(0, Heap([], firstFree))
    else if blocks[0].IsFree() then
      var m := Absorb(p, blocks[0].len, blocks[1..], firstFree);
      if n < m.len then
        Take(p, m, n)
      else
        var o := Malloc(p + 4 + 2 * m.len, m.rest, m.firstFree, n);
        Outcome(o.addr, Push(Block(FREE, m.len), o.heap))
    else
      var o := Malloc(p + blocks[0].Size(), blocks[1..], firstFree, n);
      Outcome(o.addr, Push(blocks[0], o.heap))
  }

  // ------------------------------------------------------------------ free

  /** Freeing the block whose data starts at `addr`; the heap is unchanged when
      there is no such block. */
  function Free(p: int, blocks: seq<Block>, firstFree: int, addr: int): (h: Heap)
    requires Fits(p, blocks)
    ensures Fits(p, h.blocks)
    decreases |blocks|
  {
    if blocks == [] then
      Heap([], firstFree)
    else if p + 4 == addr then
      var m := Absorb(p, blocks[0].len, blocks[1..], if firstFree < p then p else firstFree);
      Push(Block(FREE, m.len), Heap(m.rest, m.firstFree))
    else
      Push(blocks[0], Free(p + blocks[0].Size(), blocks[1..], firstFree, addr))
  }
}
