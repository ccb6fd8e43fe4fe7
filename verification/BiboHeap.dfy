/**
 The heap of the other operating system: a chain of blocks in address order, and a
 free list threaded through the free ones.
 */
module BiboHeap {
  import opened Words

  const FREE: word := 0
  const BEAMED: word := 0xfffe

  /** A block: its owner, its length with the header, and the low bit of its link to
      the next block, which marks that the block before it is free. */
  datatype Block = Block(owner: word, size: int, flag: bool) {
    predicate IsFree() { owner == FREE }
  }

  const NOTHING := Block(FREE, 0, false)

  function Extent(blocks: seq<Block>): (r: int)
    decreases blocks
  {
    if blocks == [] then 0 else blocks[0].size + Extent(blocks[1..])
  }

  /** A block's length is even and has room for its header, a free one's also for the
      link of the free list; no two free blocks are adjacent, so a free block's link
      to the next block has no mark. */
  predicate Sound(b: Block) {
    b.size % 2 == 0 && b.size >= 6 && (b.IsFree() ==> b.size >= 8 && !b.flag)
  }

  /** The blocks tile memory from p up to its end; the last one is reserved. */
  predicate Tiles(p: int, blocks: seq<Block>)
    decreases blocks
  {
    if blocks == [] then p == MEMORY_SIZE
    else Sound(blocks[0]) && (|blocks| == 1 ==> !blocks[0].IsFree()) && Tiles(p + blocks[0].size, blocks[1..])
  }

  datatype Outcome = Outcome(addr: int, blocks: seq<Block>)

  /** What allocating n bytes makes of a free block that is long enough: the area may
      reach into the first word of the next block; a rest of 8 bytes is split off. */
  function Taken(b: Block, n: int): (r: seq<Block>)
    ensures |r| > 0
  {
    if b.size >= n + 12 then [Block(BEAMED, n + 4, b.flag), Block(FREE, b.size - n - 4, false)]
    else [b.(owner := BEAMED)]
  }

  /** First fit along the free list. */
  function Malloc(p: int, blocks: seq<Block>, n: int): (r: Outcome)
    decreases blocks
  {
    if blocks == [] then Outcome(0, [])
    else if blocks[0].IsFree() && blocks[0].size >= n + 4 then Outcome(p + 6, Taken(blocks[0], n) + blocks[1..])
    else
      var o := Malloc(p + blocks[0].size, blocks[1..], n);
      Outcome(o.addr, [blocks[0]] + o.blocks)
  }

  // ------------------------------------------------------------------- laws

  lemma {:induction false} ExtentConcat(a: seq<Block>, b: seq<Block>)
    ensures Extent(a + b) == Extent(a) + Extent(b)
    decreases a
  {
    if a == [] {
      assert a + b == b;
    } else {
      ExtentConcat(a[1..], b);
      assert (a + b)[1..] == a[1..] + b;
    }
  }

  lemma {:induction false} TilesExtent(p: int, blocks: seq<Block>)
    requires Tiles(p, blocks)
    ensures p + Extent(blocks) == MEMORY_SIZE && Extent(blocks) >= 0
    decreases blocks
  {
    if blocks != [] {
      TilesExtent(p + blocks[0].size, blocks[1..]);
    }
  }

  /** The first free block of at least n + 4 bytes: the one malloc has to take. */
  ghost predicate IsFirstFit(p: int, blocks: seq<Block>, n: int, i: nat) {
    && i < |blocks| && blocks[i].IsFree() && blocks[i].size >= n + 4
    && forall k :: 0 <= k < i ==> !(blocks[k].IsFree() && blocks[k].size >= n + 4)
  }

  /** Allocation takes the lowest free block that is long enough, and fails only
      without one; all other blocks stay as they are. */
  lemma {:induction false} MallocTakesFirst(p: int, blocks: seq<Block>, n: int, i: nat)
    requires IsFirstFit(p, blocks, n, i)
    ensures Malloc(p, blocks, n)
         == Outcome(p + Extent(blocks[..i]) + 6, blocks[..i] + Taken(blocks[i], n) + blocks[i + 1..])
    decreases blocks
  {
    if i == 0 {
      assert blocks[..0] + Taken(blocks[0], n) + blocks[1..] == Taken(blocks[0], n) + blocks[1..];
    } else {
      MallocTakesFirst(p + blocks[0].size, blocks[1..], n, i - 1);
      assert blocks[..i][1..] == blocks[1..][..i - 1];
      assert [blocks[0]] + (blocks[1..][..i - 1] + Taken(blocks[i], n) + blocks[i + 1..])
          == blocks[..i] + Taken(blocks[i], n) + blocks[i + 1..];
    }
  }

  lemma {:induction false} MallocFails(p: int, blocks: seq<Block>, n: int)
    requires forall k :: 0 <= k < |blocks| ==> !(blocks[k].IsFree() && blocks[k].size >= n + 4)
    ensures Malloc(p, blocks, n) == Outcome(0, blocks)
    decreases blocks
  {
    if blocks != [] {
      assert !(blocks[0].IsFree() && blocks[0].size >= n + 4);
      MallocFails(p + blocks[0].size, blocks[1..], n);
    }
  }

  lemma {:induction false} MallocTiles(p: int, blocks: seq<Block>, n: int)
    requires Tiles(p, blocks) && n % 2 == 0 && n >= 2
    ensures Tiles(p, Malloc(p, blocks, n).blocks)
    decreases blocks
  {
    if blocks == [] {
    } else if blocks[0].IsFree() && blocks[0].size >= n + 4 {
      TakenTiles(p, blocks, n);
    } else {
      var o := Malloc(p + blocks[0].size, blocks[1..], n);
      MallocTiles(p + blocks[0].size, blocks[1..], n);
      MallocLength(p + blocks[0].size, blocks[1..], n);
      assert ([blocks[0]] + o.blocks)[1..] == o.blocks;
    }
  }

  lemma {:induction false} MallocLength(p: int, blocks: seq<Block>, n: int)
    ensures |Malloc(p, blocks, n).blocks| >= |blocks|
    decreases blocks
  {
    if blocks != [] && !(blocks[0].IsFree() && blocks[0].size >= n + 4) {
      MallocLength(p + blocks[0].size, blocks[1..], n);
    }
  }

  lemma TakenTiles(p: int, blocks: seq<Block>, n: int)
    requires Tiles(p, blocks) && n % 2 == 0 && n >= 2 && blocks != []
    requires blocks[0].IsFree() && blocks[0].size >= n + 4
    ensures Tiles(p, Taken(blocks[0], n) + blocks[1..])
  {
    var t := Taken(blocks[0], n);
    var all := t + blocks[1..];
    assert all[1..] == t[1..] + blocks[1..];
    if blocks[0].size >= n + 12 {
      assert all[1..][1..] == blocks[1..] && all[1..][0] == t[1];
    } else {
      assert all[1..] == blocks[1..];
    }
  }

  /** The allocated block whose header is at `a`, or NOTHING. */
  function OwnedAt(p: int, blocks: seq<Block>, a: int): (b: Block)
    ensures b.IsFree() ==> b == NOTHING
    decreases blocks
  {
    if blocks == [] then NOTHING
    else if a == p then (if blocks[0].IsFree() then NOTHING else blocks[0])
    else OwnedAt(p + blocks[0].size, blocks[1..], a)
  }

  lemma {:induction false} OwnedBounds(p: int, blocks: seq<Block>, a: int)
    requires Tiles(p, blocks)
    ensures !OwnedAt(p, blocks, a).IsFree() ==> p <= a && a + OwnedAt(p, blocks, a).size <= MEMORY_SIZE
    ensures !OwnedAt(p, blocks, a).IsFree() ==> OwnedAt(p, blocks, a).size >= 6
    decreases blocks
  {
    if blocks != [] {
      TilesExtent(p + blocks[0].size, blocks[1..]);
      if a != p {
        OwnedBounds(p + blocks[0].size, blocks[1..], a);
      }
    }
  }

  lemma TakenOwned(p: int, b: Block, rest: seq<Block>, n: int, a: int)
    requires b.IsFree() && b.size >= n + 4 && n >= 2 && Tiles(p + b.size, rest)
    ensures var w := OwnedAt(p, Taken(b, n) + rest, a);
            if a == p then w.owner == BEAMED && n + 4 <= w.size <= b.size else w == OwnedAt(p + b.size, rest, a)
  {
    var t := Taken(b, n);
    assert (t + rest)[1..] == t[1..] + rest;
    OwnedBounds(p + b.size, rest, a);
    if b.size >= n + 12 {
      assert (t[1..] + rest)[0] == t[1] && (t[1..] + rest)[1..] == rest;
    } else {
      assert t[1..] + rest == rest;
    }
  }

  /** Seen from any address: failure leaves every allocated block, success adds the
      one that was granted, at least four bytes longer than asked for. */
  lemma {:induction false} MallocKeepsOwned(p: int, blocks: seq<Block>, n: int, a: int)
    requires Tiles(p, blocks) && n >= 2 && p > 0
    ensures var o := Malloc(p, blocks, n);
            var w := OwnedAt(p, o.blocks, a);
            if o.addr != 0 && a == o.addr - 6 then
              OwnedAt(p, blocks, a) == NOTHING && w.owner == BEAMED && w.size >= n + 4
            else w == OwnedAt(p, blocks, a)
    ensures Malloc(p, blocks, n).addr != 0 ==> Malloc(p, blocks, n).addr >= p + 6
    decreases blocks
  {
    if blocks == [] {
    } else if blocks[0].IsFree() && blocks[0].size >= n + 4 {
      TakenOwned(p, blocks[0], blocks[1..], n, a);
    } else {
      var o := Malloc(p + blocks[0].size, blocks[1..], n);
      MallocKeepsOwned(p + blocks[0].size, blocks[1..], n, a);
      assert ([blocks[0]] + o.blocks)[1..] == o.blocks;
    }
  }

  /** The bytes a block's owner may use: from behind its header into the first word of
      the next block. */
  predicate InArea(k: int, b: Block, x: int) { k + 6 <= x < k + b.size + 2 }

  lemma {:induction false} AreasDisjoint(p: int, blocks: seq<Block>, j: int, k: int)
    requires Tiles(p, blocks) && j < k
    requires !OwnedAt(p, blocks, j).IsFree() && !OwnedAt(p, blocks, k).IsFree()
    ensures j + OwnedAt(p, blocks, j).size <= k
    decreases blocks
  {
    var q := p + blocks[0].size;
    OwnedBounds(p, blocks, j);
    OwnedBounds(q, blocks[1..], k);
    if j != p {
      AreasDisjoint(q, blocks[1..], j, k);
    }
  }

  /** The granted area is as long as asked for, and apart from every other one. */
  lemma GrantedAreaIsOwn(p: int, blocks: seq<Block>, n: int, k: int, x: int)
    requires Tiles(p, blocks) && n % 2 == 0 && n >= 2 && p > 0
    requires var o := Malloc(p, blocks, n); o.addr != 0 && o.addr <= x < o.addr + n
    ensures var o := Malloc(p, blocks, n);
            && InArea(o.addr - 6, OwnedAt(p, o.blocks, o.addr - 6), x)
            && (!OwnedAt(p, blocks, k).IsFree() ==> k != o.addr - 6 && !InArea(k, OwnedAt(p, blocks, k), x))
  {
    var o := Malloc(p, blocks, n);
    MallocTiles(p, blocks, n);
    MallocKeepsOwned(p, blocks, n, o.addr - 6);
    MallocKeepsOwned(p, blocks, n, k);
    if !OwnedAt(p, blocks, k).IsFree() {
      if k < o.addr - 6 {
        AreasDisjoint(p, o.blocks, k, o.addr - 6);
      } else {
        AreasDisjoint(p, o.blocks, o.addr - 6, k);
      }
    }
  }

  // -------------------------------------------------------------- free list

  /** The addresses of the free blocks. */
  function FreeAddresses(p: int, blocks: seq<Block>): (r: seq<int>)
    decreases blocks
  {
    if blocks == [] then []
    else if blocks[0].IsFree() then [p] + FreeAddresses(p + blocks[0].size, blocks[1..])
    else FreeAddresses(p + blocks[0].size, blocks[1..])
  }

  lemma {:induction false} FreeAddressesAscend(p: int, blocks: seq<Block>, i: nat, j: nat)
    requires Tiles(p, blocks) && i < j < |FreeAddresses(p, blocks)|
    ensures p <= FreeAddresses(p, blocks)[i] < FreeAddresses(p, blocks)[j]
    decreases blocks
  {
    var rest := FreeAddresses(p + blocks[0].size, blocks[1..]);
    if blocks[0].IsFree() {
      FreeAddressesAbove(p + blocks[0].size, blocks[1..], j - 1);
      if i > 0 {
        FreeAddressesAscend(p + blocks[0].size, blocks[1..], i - 1, j - 1);
      }
    } else {
      FreeAddressesAscend(p + blocks[0].size, blocks[1..], i, j);
    }
  }

  lemma {:induction false} FreeAddressesAbove(p: int, blocks: seq<Block>, i: nat)
    requires Tiles(p, blocks) && i < |FreeAddresses(p, blocks)|
    ensures FreeAddresses(p, blocks)[i] >= p
    decreases blocks
  {
    if blocks[0].IsFree() {
      if i > 0 {
        FreeAddressesAbove(p + blocks[0].size, blocks[1..], i - 1);
      }
    } else {
      FreeAddressesAbove(p + blocks[0].size, blocks[1..], i);
    }
  }

  /** The free list names exactly the blocks without an owner. */
  lemma {:induction false} FreeAddressesExact(p: int, blocks: seq<Block>, a: int)
    ensures a in FreeAddresses(p, blocks)
       <==> exists i :: 0 <= i < |blocks| && blocks[i].IsFree() && a == p + Extent(blocks[..i])
    decreases blocks
  {
    if blocks != [] {
      var r, rest := p + blocks[0].size, blocks[1..];
      FreeAddressesExact(r, rest, a);
      assert forall i :: 0 <= i < |rest| ==> blocks[..i + 1][1..] == rest[..i];
      if a in FreeAddresses(r, rest) {
        var i :| 0 <= i < |rest| && rest[i].IsFree() && a == r + Extent(rest[..i]);
        assert blocks[i + 1].IsFree() && a == p + Extent(blocks[..i + 1]);
      }
      if i :| 0 <= i < |blocks| && blocks[i].IsFree() && a == p + Extent(blocks[..i]) {
        if i > 0 {
          assert rest[i - 1].IsFree() && a == r + Extent(rest[..i - 1]);
        }
      }
      if blocks[0].IsFree() {
        assert blocks[..0] == [] && a == p ==> a == p + Extent(blocks[..0]);
      }
    }
  }

  // ---------------------------------------------------------------- release

  /** Every block is marked exactly if the one before it is free; since free blocks
      are not marked, no two free ones are adjacent. */
  predicate Marked(blocks: seq<Block>, afterFree: bool)
    decreases blocks
  {
    blocks == [] || ((blocks[0].flag <==> afterFree) && Marked(blocks[1..], blocks[0].IsFree()))
  }

  lemma {:induction false} NoAdjacentFree(blocks: seq<Block>, afterFree: bool, p: int, i: nat)
    requires Tiles(p, blocks) && Marked(blocks, afterFree) && i + 1 < |blocks|
    ensures !(blocks[i].IsFree() && blocks[i + 1].IsFree())
    decreases blocks
  {
    if i > 0 {
      NoAdjacentFree(blocks[1..], blocks[0].IsFree(), p + blocks[0].size, i - 1);
    } else {
      assert blocks[1] == blocks[1..][0];
    }
  }

  /** A free block, one to be freed, and the next: the first two become one, with the
      next if that is free, too; otherwise the next is marked. */
  function Coalesced(blocks: seq<Block>): (r: seq<Block>)
    requires |blocks| >= 3
  {
    var g, b, c := blocks[0], blocks[1], blocks[2];
    if c.IsFree() then [Block(FREE, g.size + b.size + c.size, g.flag)] + blocks[3..]
    else [Block(FREE, g.size + b.size, g.flag), c.(flag := true)] + blocks[3..]
  }

  /** The block at `a` is owned, has a free one before it and another one behind it. */
  predicate AfterFree(p: int, blocks: seq<Block>, a: int)
    decreases blocks
  {
    |blocks| >= 3 &&
    if blocks[0].IsFree() && p + blocks[0].size == a then !blocks[1].IsFree()
    else AfterFree(p + blocks[0].size, blocks[1..], a)
  }

  /** Freeing the block at `a`, when the one before it is free. */
  function Free(p: int, blocks: seq<Block>, a: int): (r: seq<Block>)
    requires AfterFree(p, blocks, a)
    decreases blocks
  {
    if blocks[0].IsFree() && p + blocks[0].size == a then Coalesced(blocks)
    else [blocks[0]] + Free(p + blocks[0].size, blocks[1..], a)
  }

  /** An owned block whose header is marked, and which is not the last, is one. */
  lemma {:induction false} MarkMeansAfterFree(p: int, blocks: seq<Block>, a: int, afterFree: bool)
    requires Tiles(p, blocks) && Marked(blocks, afterFree) && (a == p ==> !afterFree)
    requires var b := OwnedAt(p, blocks, a); !b.IsFree() && b.flag && a + b.size < MEMORY_SIZE
    ensures AfterFree(p, blocks, a)
    decreases blocks
  {
    var r, rest := p + blocks[0].size, blocks[1..];
    OwnedBounds(p, blocks, a);
    OwnedBounds(r, rest, a);
    if a == r {
      FirstBlock(r, rest);
    } else {
      MarkMeansAfterFree(r, rest, a, blocks[0].IsFree());
    }
  }

  lemma FirstBlock(p: int, blocks: seq<Block>)
    requires Tiles(p, blocks) && blocks != []
    ensures Sound(blocks[0]) && (|blocks| == 1 ==> !blocks[0].IsFree()) && Tiles(p + blocks[0].size, blocks[1..])
    ensures |blocks| == 1 ==> p + blocks[0].size == MEMORY_SIZE
  {
  }

  /** The three blocks, and what follows them. */
  lemma ThreeBlocks(p: int, blocks: seq<Block>)
    requires Tiles(p, blocks) && |blocks| >= 3
    ensures var g, b, c, tail := blocks[0], blocks[1], blocks[2], blocks[3..];
            && Sound(g) && Sound(b) && Sound(c) && Tiles(p + g.size + b.size + c.size, tail)
            && (c.IsFree() ==> tail != [])
  {
    var rest := blocks[1..];
    FirstBlock(p, blocks);
    FirstBlock(p + blocks[0].size, rest);
    FirstBlock(p + blocks[0].size + rest[0].size, rest[1..]);
    assert rest[1..][1..] == blocks[3..] && rest[1..][0] == blocks[2];
  }

  lemma ThreeMarks(blocks: seq<Block>, afterFree: bool)
    requires Marked(blocks, afterFree) && |blocks| >= 3
    ensures var g, b, c, tail := blocks[0], blocks[1], blocks[2], blocks[3..];
            && (g.flag <==> afterFree) && (b.flag <==> g.IsFree()) && (c.flag <==> b.IsFree())
            && Marked(tail, c.IsFree())
  {
    var rest := blocks[1..];
    assert Marked(rest, blocks[0].IsFree());
    assert Marked(rest[1..], rest[0].IsFree());
    assert rest[1..][1..] == blocks[3..] && rest[1..][0] == blocks[2];
  }

  lemma {:induction false} MarkedParts(done: seq<Block>, rest: seq<Block>, afterFree: bool)
    requires Marked(done + rest, afterFree)
    ensures exists before :: Marked(rest, before)
    decreases done
  {
    if done == [] {
      assert done + rest == rest;
    } else {
      assert (done + rest)[1..] == done[1..] + rest;
      MarkedParts(done[1..], rest, done[0].IsFree());
    }
  }

  lemma CoalescedTiles(p: int, blocks: seq<Block>)
    requires Tiles(p, blocks) && |blocks| >= 3 && blocks[0].IsFree()
    ensures Tiles(p, Coalesced(blocks))
  {
    var c, tail := blocks[2], blocks[3..];
    ThreeBlocks(p, blocks);
    var r := Coalesced(blocks);
    if c.IsFree() {
      assert r[1..] == tail;
    } else {
      assert r[1..][1..] == tail && r[1..][0] == c.(flag := true);
      assert |r[1..]| == 1 <==> tail == [];
    }
  }

  lemma CoalescedMarked(blocks: seq<Block>, afterFree: bool)
    requires |blocks| >= 3 && blocks[0].IsFree() && Marked(blocks, afterFree)
    ensures Marked(Coalesced(blocks), afterFree)
  {
    var c, tail := blocks[2], blocks[3..];
    ThreeMarks(blocks, afterFree);
    var r := Coalesced(blocks);
    if c.IsFree() {
      assert r[1..] == tail;
    } else {
      assert r[1..][1..] == tail && r[1..][0] == c.(flag := true);
    }
  }

  /** Freeing keeps the tiling and the marks, so again no two free blocks are adjacent. */
  lemma {:induction false} FreeKeepsMarked(p: int, blocks: seq<Block>, a: int, afterFree: bool)
    requires Tiles(p, blocks) && Marked(blocks, afterFree) && AfterFree(p, blocks, a)
    ensures Tiles(p, Free(p, blocks, a)) && Marked(Free(p, blocks, a), afterFree) && |Free(p, blocks, a)| >= 2
    decreases blocks
  {
    if blocks[0].IsFree() && p + blocks[0].size == a {
      CoalescedTiles(p, blocks);
      CoalescedMarked(blocks, afterFree);
      CoalescedLength(p, blocks);
    } else {
      var f := Free(p + blocks[0].size, blocks[1..], a);
      FreeKeepsMarked(p + blocks[0].size, blocks[1..], a, blocks[0].IsFree());
      assert ([blocks[0]] + f)[1..] == f;
    }
  }

  lemma CoalescedLength(p: int, blocks: seq<Block>)
    requires Tiles(p, blocks) && |blocks| >= 3
    ensures |Coalesced(blocks)| >= 2
  {
    ThreeBlocks(p, blocks);
  }

  /** Seen from any address: the freed block is gone; every other allocated one keeps its
      owner and length, and the one behind is marked. */
  lemma {:induction false} FreeKeepsOwned(p: int, blocks: seq<Block>, a: int, k: int)
    requires Tiles(p, blocks) && AfterFree(p, blocks, a)
    ensures var w, w' := OwnedAt(p, blocks, k), OwnedAt(p, Free(p, blocks, a), k);
            if k == a then w' == NOTHING && !w.IsFree() else w'.owner == w.owner && w'.size == w.size
    decreases blocks
  {
    if blocks[0].IsFree() && p + blocks[0].size == a {
      CoalescedOwned(p, blocks, k);
    } else {
      var f := Free(p + blocks[0].size, blocks[1..], a);
      FreeKeepsOwned(p + blocks[0].size, blocks[1..], a, k);
      AfterFreeAbove(p + blocks[0].size, blocks[1..], a);
      assert ([blocks[0]] + f)[1..] == f;
    }
  }

  lemma {:induction false} AfterFreeAbove(p: int, blocks: seq<Block>, a: int)
    requires Tiles(p, blocks) && AfterFree(p, blocks, a)
    ensures a > p
    decreases blocks
  {
    if !(blocks[0].IsFree() && p + blocks[0].size == a) {
      AfterFreeAbove(p + blocks[0].size, blocks[1..], a);
    }
  }

  lemma CoalescedOwned(p: int, blocks: seq<Block>, k: int)
    requires Tiles(p, blocks) && |blocks| >= 3 && blocks[0].IsFree() && !blocks[1].IsFree()
    ensures var w, w' := OwnedAt(p, blocks, k), OwnedAt(p, Coalesced(blocks), k);
            if k == p + blocks[0].size then w' == NOTHING && !w.IsFree() else w'.owner == w.owner && w'.size == w.size
  {
    var g, b, c, tail := blocks[0], blocks[1], blocks[2], blocks[3..];
    var q := p + g.size;
    var r := q + b.size;
    assert blocks[1..][0] == b && blocks[1..][1..][0] == c && blocks[1..][1..][1..] == tail;
    OwnedBounds(r, blocks[1..][1..], k);
    OwnedBounds(r + c.size, tail, k);
    var m := Coalesced(blocks);
    if c.IsFree() {
      assert m[1..] == tail;
    } else {
      assert m[1..][0] == c.(flag := true) && m[1..][1..] == tail;
    }
  }
}
