/**
 Placing a program in the brickOS heap: the question which address a program
 of some size would get, and the load that relies on the answer.
 */
module ProgramLoader {
  import opened Words
  import opened BrickOsHeap
  import opened BrickOsHeapLaws
  import opened BrickOs
  import Lx

  const SLOT_SIZE := 22
  const SLOTS := 8
  const DEFAULT_PRIORITY: byte := 10

  /** Rewriting the data of one allocated block leaves every header in place. */
  lemma {:induction false} StoredIgnoresData(m: seq<byte>, m': seq<byte>, p: int, blocks: seq<Block>, k: int)
    requires |m| == MEMORY_SIZE && 0 < p && p + Extent(blocks) <= MEMORY_SIZE && Stored(m, p, blocks)
    requires !OwnedAt(p, blocks, k).IsFree()
    requires SameElsewhere(m, m', k + 4, k + OwnedAt(p, blocks, k).Size())
    ensures Stored(m', p, blocks)
    decreases blocks
  {
    var q := p + blocks[0].Size();
    if k == p && !blocks[0].IsFree() {
      StoredFrame(m, m', q, blocks[1..]);
    } else {
      StoredIgnoresData(m, m', q, blocks[1..], k);
    }
  }

  /** What a program leaves in its block: relocated text and data, zeroed bss,
      and a second copy of the data as relocated. */
  ghost predicate Loaded(m: seq<byte>, p: Lx.Program, text: word)
    requires |m| == MEMORY_SIZE && p.WellFormed() && text + p.Footprint() <= MEMORY_SIZE
  {
    var image := Lx.Relocated(p.body, p.relocs, text, p.base);
    var bss := text + p.textSize + p.dataSize;
    var loaded :=
      && m[text..bss] == image
      && (forall a :: bss <= a < bss + p.bssSize ==> m[a] == 0)
      && m[bss + p.bssSize..bss + p.bssSize + p.dataSize] == image[p.textSize..];
    loaded
  }

  /** The part of lx_read and the layout code that writes the program's block. */
  method Place(memory: Memory, p: Lx.Program, text: word)
    requires memory.Valid() && p.WellFormed() && text + p.Footprint() <= MEMORY_SIZE
    modifies memory, memory.bytes
    ensures memory.Valid() && |memory.image| == MEMORY_SIZE && Loaded(memory.image, p, text)
    ensures SameElsewhere(old(memory.image), memory.image, text, text + p.Footprint())
  {
    Lx.Read(memory, p, text);
    ghost var m1 := memory.image;
    var data := text + p.textSize;
    var bss := data + p.dataSize;
    ClearAndCopy(memory, data, bss, p.bssSize);
    PlacedInOrder(m1, memory.image, p, text, data, bss, bss + p.bssSize);
  }

  /** Clears the bss and copies the data behind it. */
  method ClearAndCopy(memory: Memory, data: nat, bss: nat, bssSize: nat)
    requires memory.Valid() && data <= bss && bss + bssSize + (bss - data) <= MEMORY_SIZE
    modifies memory, memory.bytes
    ensures memory.Valid() && |memory.image| == MEMORY_SIZE
    ensures SameElsewhere(old(memory.image), memory.image, bss, bss + bssSize + (bss - data))
    ensures forall a :: bss <= a < bss + bssSize ==> memory.image[a] == 0
    ensures memory.image[bss + bssSize..bss + bssSize + (bss - data)] == old(memory.image)[data..bss]
  {
    memory.Store(bss, seq(bssSize, _ => 0));
    ghost var m := memory.image;
    forall a | bss <= a < bss + bssSize
      ensures m[a] == 0
    {
      assert m[a] == m[bss..bss + bssSize][a - bss];
    }
    assert m[data..bss] == old(memory.image)[data..bss];
    var copy := memory.Fetch(data, bss - data);
    memory.Store(bss + bssSize, copy);
  }

  lemma PlacedInOrder(m1: seq<byte>, m2: seq<byte>, p: Lx.Program, text: word, data: nat, bss: nat, copy: nat)
    requires |m1| == MEMORY_SIZE && p.WellFormed() && text + p.Footprint() <= MEMORY_SIZE
    requires data == text + p.textSize && bss == data + p.dataSize && copy == bss + p.bssSize
    requires m1[text..bss] == Lx.Relocated(p.body, p.relocs, text, p.base)
    requires SameElsewhere(m1, m2, bss, copy + p.dataSize)
    requires forall a :: bss <= a < copy ==> m2[a] == 0
    requires m2[copy..copy + p.dataSize] == m1[data..bss]
    ensures Loaded(m2, p, text)
  {
    assert m2[text..bss] == m1[text..bss];
    assert m1[data..bss] == m1[text..bss][p.textSize..];
  }

  /** Asking and, if there was an answer, freeing it: the next request of that
      size is answered alike. */
  lemma PredictedAnswer(p: int, h: Heap, ff2: int, ff3: int, n: nat)
    requires Fits(p, h.blocks)
    ensures var o := Malloc(p, h.blocks, h.firstFree, n);
            var left := if o.addr != 0 then Free(p, o.heap.blocks, ff2, o.addr).blocks else o.heap.blocks;
            Malloc(p, left, ff3, n).addr == o.addr
  {
    FreeSettles(p, h.blocks, h.firstFree, ff2, n);
    FailureSettles(p, h.blocks, h.firstFree, n);
    MallocOnSettled(p, h.blocks, h.firstFree, ff3, n);
  }

  function Low(a: int): (r: word) { a % 0x10000 }

  /** The table entry of a loaded program. */
  ghost predicate Describes(m: seq<byte>, slot: int, p: Lx.Program, text: word)
    requires 0 <= slot && slot + SLOT_SIZE <= |m|
  {
    DescribesLayout(m, slot, p, text) && DescribesSizes(m, slot, p)
  }

  /** Where text, data, bss and the copy of the data are. */
  ghost predicate DescribesLayout(m: seq<byte>, slot: int, p: Lx.Program, text: word)
    requires 0 <= slot && slot + SLOT_SIZE <= |m|
  {
    var described :=
      && WordAt(m, slot) == text
      && WordAt(m, slot + 2) == Low(text + p.textSize)
      && WordAt(m, slot + 4) == Low(text + p.textSize + p.dataSize)
      && WordAt(m, slot + 6) == Low(text + p.textSize + p.dataSize + p.bssSize);
    described
  }

  ghost predicate DescribesSizes(m: seq<byte>, slot: int, p: Lx.Program)
    requires 0 <= slot && slot + SLOT_SIZE <= |m|
  {
    var described :=
      && WordAt(m, slot + 8) == p.textSize
      && WordAt(m, slot + 10) == p.dataSize
      && WordAt(m, slot + 12) == p.bssSize
      && WordAt(m, slot + 14) == p.stackSize
      && WordAt(m, slot + 16) == p.offset
      && m[slot + 18] == DEFAULT_PRIORITY
      && WordAt(m, slot + 20) == Low(p.textSize + p.dataSize);
    described
  }

  method Describe(memory: Memory, slot: int, p: Lx.Program, text: word)
    requires memory.Valid() && 0 <= slot && slot + SLOT_SIZE <= MEMORY_SIZE
    modifies memory, memory.bytes
    ensures memory.Valid() && |memory.image| == MEMORY_SIZE && Describes(memory.image, slot, p, text)
    ensures SameElsewhere(old(memory.image), memory.image, slot, slot + SLOT_SIZE)
  {
    DescribeLayout(memory, slot, p, text);
    DescribeSizes(memory, slot, p);
  }

  method DescribeLayout(memory: Memory, slot: int, p: Lx.Program, text: word)
    requires memory.Valid() && 0 <= slot && slot + SLOT_SIZE <= MEMORY_SIZE
    modifies memory, memory.bytes
    ensures memory.Valid() && |memory.image| == MEMORY_SIZE && DescribesLayout(memory.image, slot, p, text)
    ensures SameElsewhere(old(memory.image), memory.image, slot, slot + 8)
  {
    memory.WriteWord(slot, text);
    memory.WriteWord(slot + 2, Low(text + p.textSize));
    memory.WriteWord(slot + 4, Low(text + p.textSize + p.dataSize));
    memory.WriteWord(slot + 6, Low(text + p.textSize + p.dataSize + p.bssSize));
  }

  method DescribeSizes(memory: Memory, slot: int, p: Lx.Program)
    requires memory.Valid() && 0 <= slot && slot + SLOT_SIZE <= MEMORY_SIZE
    modifies memory, memory.bytes
    ensures memory.Valid() && |memory.image| == MEMORY_SIZE && DescribesSizes(memory.image, slot, p)
    ensures SameElsewhere(old(memory.image), memory.image, slot + 8, slot + SLOT_SIZE)
  {
    memory.WriteWord(slot + 8, p.textSize);
    memory.WriteWord(slot + 10, p.dataSize);
    memory.WriteWord(slot + 12, p.bssSize);
    memory.WriteWord(slot + 14, p.stackSize);
    memory.WriteWord(slot + 16, p.offset);
    memory.Store(slot + 18, [DEFAULT_PRIORITY]);
    assert memory.image[slot + 18..slot + 19][0] == DEFAULT_PRIORITY;
    memory.WriteWord(slot + 20, Low(p.textSize + p.dataSize));
  }

  /** Allocated blocks do not overlap. */
  lemma {:induction false} OwnedApart(p: int, blocks: seq<Block>, j: int, k: int)
    requires !OwnedAt(p, blocks, j).IsFree() && !OwnedAt(p, blocks, k).IsFree() && j < k
    ensures j + OwnedAt(p, blocks, j).Size() <= k
    decreases blocks
  {
    var q := p + blocks[0].Size();
    if j == p && !blocks[0].IsFree() {
      assert OwnedAt(p, blocks, k) == OwnedAt(q, blocks[1..], k);
    } else {
      OwnedApart(q, blocks[1..], j, k);
    }
  }

  /** Writing into the data of one allocated block and outside the heap keeps
      every header. */
  lemma FillOwned(m: seq<byte>, m1: seq<byte>, m2: seq<byte>, p: int, blocks: seq<Block>, k: int, slot: int)
    requires |m| == MEMORY_SIZE && Fits(p, blocks) && Stored(m, p, blocks)
    requires !OwnedAt(p, blocks, k).IsFree()
    requires slot + SLOT_SIZE <= p && SameElsewhere(m, m1, slot, slot + SLOT_SIZE)
    requires SameElsewhere(m1, m2, k + 4, k + OwnedAt(p, blocks, k).Size())
    ensures Stored(m2, p, blocks)
  {
    StoredFrame(m, m1, p, blocks);
    StoredIgnoresData(m1, m2, p, blocks, k);
  }

  /** What a load writes: its part of the block at `text` and its table entry. */
  ghost predicate SameButProgram(m: seq<byte>, m': seq<byte>, slot: int, text: int, n: nat) {
    && |m| == |m'| == MEMORY_SIZE
    && forall a :: 0 <= a < MEMORY_SIZE && !(text <= a < text + n) && !(slot <= a < slot + SLOT_SIZE) ==> m'[a] == m[a]
  }

  /** Describing and then placing a program writes nothing else, and placing it does
      not touch its description. */
  lemma FillWrites(m: seq<byte>, m1: seq<byte>, m2: seq<byte>, slot: int, p: Lx.Program, text: word)
    requires |m| == MEMORY_SIZE && 0 <= slot && slot + SLOT_SIZE <= text && p.WellFormed()
    requires SameElsewhere(m, m1, slot, slot + SLOT_SIZE)
    requires SameElsewhere(m1, m2, text, text + p.Footprint())
    ensures SameButProgram(m, m2, slot, text, p.Footprint())
    ensures Describes(m1, slot, p, text) ==> Describes(m2, slot, p, text)
  {
  }

  /** The writes of a load: the table entry, and the allocated block at `text`. */
  method FillBlock(memory: Memory, slot: int, p: Lx.Program, text: word, ghost start: int, ghost blocks: seq<Block>)
    requires memory.Valid() && p.WellFormed() && 0 <= slot && slot + SLOT_SIZE <= start
    requires Fits(start, blocks) && |memory.image| == MEMORY_SIZE && Stored(memory.image, start, blocks)
    requires var b := OwnedAt(start, blocks, text - 4); !b.IsFree() && p.Footprint() <= 2 * b.len
    modifies memory, memory.bytes
    ensures memory.Valid() && |memory.image| == MEMORY_SIZE && Stored(memory.image, start, blocks)
    ensures text + p.Footprint() <= MEMORY_SIZE && Loaded(memory.image, p, text)
    ensures Describes(memory.image, slot, p, text)
    ensures SameButProgram(old(memory.image), memory.image, slot, text, p.Footprint())
  {
    ghost var m := memory.image;
    Describe(memory, slot, p, text);
    ghost var m1 := memory.image;
    Place(memory, p, text);
    FillWrites(m, m1, memory.image, slot, p, text);
    FillOwned(m, m1, memory.image, start, blocks, text - 4, slot);
  }

  /** A granted request has room for as many bytes as were asked for. */
  lemma Room(p: int, before: seq<Block>, ff: int, size: word)
    requires Fits(p, before)
    ensures var o := Malloc(p, before, ff, WordsFor(size));
            var b := OwnedAt(p, o.heap.blocks, o.addr - 4);
            o.addr != 0 ==> !b.IsFree() && size <= 2 * b.len
  {
    var o := Malloc(p, before, ff, WordsFor(size));
    MallocKeepsOwned(p, before, ff, WordsFor(size), o.addr - 4);
  }

  lemma OthersApart(p: int, before: seq<Block>, ff: int, n: nat, k: int, o: Outcome, b: Block)
    requires Fits(p, before) && k in Owned(p, before) && o == Malloc(p, before, ff, n) && o.addr != 0
    requires b == OwnedAt(p, o.heap.blocks, o.addr - 4)
    ensures k + Owned(p, before)[k].Size() <= o.addr - 4 || o.addr - 4 + b.Size() <= k
  {
    MallocKeepsOwned(p, before, ff, n, k);
    MallocKeepsOwned(p, before, ff, n, o.addr - 4);
    assert k != o.addr - 4 && OwnedAt(p, o.heap.blocks, k) == OwnedAt(p, before, k);
    if k < o.addr - 4 {
      OwnedApart(p, o.heap.blocks, k, o.addr - 4);
    } else {
      OwnedApart(p, o.heap.blocks, o.addr - 4, k);
    }
  }

  /** The blocks allocated before a request keep their bytes when the block it
      returned is filled. */
  lemma FillKeepsOthers(m: seq<byte>, m': seq<byte>, p: int, before: seq<Block>, ff: int, size: word, slot: int)
    requires Fits(p, before) && slot + SLOT_SIZE <= p
    requires var o := Malloc(p, before, ff, WordsFor(size));
             o.addr != 0 && SameButProgram(m, m', slot, o.addr, size)
    ensures SameBytes(m, m', Owned(p, before))
  {
    var owned, o := Owned(p, before), Malloc(p, before, ff, WordsFor(size));
    Room(p, before, ff, size);
    forall k, a | k in owned && k <= a < k + owned[k].Size() && 0 <= a < MEMORY_SIZE
      ensures m'[a] == m[a]
    {
      OthersApart(p, before, ff, WordsFor(size), k, o, OwnedAt(p, o.heap.blocks, o.addr - 4));
    }
  }

  lemma FreeFrame(p: int, blocks: seq<Block>, ff: int, addr: int)
    requires Fits(p, blocks)
    ensures Owned(p, Free(p, blocks, ff, addr).blocks) == Owned(p, blocks) - {addr - 4}
  {
    var after := Free(p, blocks, ff, addr).blocks;
    forall k
      ensures OwnedAt(p, after, k) == if k == addr - 4 then NOTHING else OwnedAt(p, blocks, k)
    {
      FreeKeepsOwned(p, blocks, ff, addr, k);
    }
  }

  /** Freeing a granted block again is no business of the blocks allocated before. */
  lemma GrantFrame(p: int, blocks: seq<Block>, ff: int, n: nat, o: Outcome)
    requires Fits(p, blocks) && o == Malloc(p, blocks, ff, n) && o.addr != 0
    ensures var others := Owned(p, o.heap.blocks) - {o.addr - 4};
            forall k :: k in Owned(p, blocks) ==> k in others && others[k] == Owned(p, blocks)[k]
  {
    forall k | k in Owned(p, blocks)
      ensures k != o.addr - 4 && k in Owned(p, o.heap.blocks) && Owned(p, o.heap.blocks)[k] == Owned(p, blocks)[k]
    {
      MallocKeepsOwned(p, blocks, ff, n, k);
    }
  }

  /** The firmware's program table beside the heap. */
  class Loader {
    const heap: GuestHeap
    const programs: word

    /** The table lies below the heap, apart from the cached word and word 0. */
    ghost predicate Valid()
      reads this, heap, heap.memory, heap.memory.bytes
    {
      && heap.Valid() && heap.mmStart != 0
      && 2 <= programs && programs + SLOTS * SLOT_SIZE <= heap.mmStart
      && (heap.mmFirstFree + 2 <= programs || programs + SLOTS * SLOT_SIZE <= heap.mmFirstFree)
    }

    constructor (heap: GuestHeap, programs: word)
      requires heap.Valid() && heap.mmStart != 0
      requires 2 <= programs && programs + SLOTS * SLOT_SIZE <= heap.mmStart
      requires heap.mmFirstFree + 2 <= programs || programs + SLOTS * SLOT_SIZE <= heap.mmFirstFree
      ensures Valid() && this.heap == heap && this.programs == programs
    {
      this.heap, this.programs := heap, programs;
    }

    function Slot(i: nat): (r: int)
      requires i < SLOTS
    {
      programs + SLOT_SIZE * i
    }

    ghost function Blocks(): (r: Heap)
      reads this, heap, heap.memory, heap.memory.bytes
      requires Valid()
    {
      Heap(heap.blocks, WordAt(heap.memory.image, heap.mmFirstFree))
    }

    /** The heap once the program in slot `i`, if there is one, has been deleted. */
    ghost function Evicted(i: nat): (h: Heap)
      reads this, heap, heap.memory, heap.memory.bytes
      requires Valid() && i < SLOTS
      ensures Fits(heap.mmStart, h.blocks)
    {
      if WordAt(heap.memory.image, Slot(i) + 8) > 0 then
        Free(heap.mmStart, heap.blocks, WordAt(heap.memory.image, heap.mmFirstFree), WordAt(heap.memory.image, Slot(i)))
      else
        Blocks()
    }

    method Evict(i: nat) returns (had: bool)
      requires Valid() && i < SLOTS
      modifies heap, heap.memory, heap.memory.bytes
      ensures Valid() && Blocks() == old(Evicted(i))
      ensures had == (old(WordAt(heap.memory.image, Slot(i) + 8)) > 0)
      ensures SameLow(old(heap.memory.image), heap.memory.image, heap.mmStart, heap.mmFirstFree)
      ensures SameBytes(old(heap.memory.image), heap.memory.image, Owned(heap.mmStart, heap.blocks))
    {
      ghost var h := Blocks();
      var size := heap.memory.ReadWord(Slot(i) + 8);
      had := size > 0;
      if had {
        var text := heap.memory.ReadWord(Slot(i));
        heap.Free(text);
        FreeFrame(heap.mmStart, h.blocks, h.firstFree, text);
      }
    }

    /** A word of the table is written without disturbing the heap. */
    method WriteSlot(i: nat, offset: nat, w: word)
      requires Valid() && i < SLOTS && offset + 2 <= SLOT_SIZE
      modifies heap.memory, heap.memory.bytes
      ensures Valid() && Blocks() == old(Blocks())
      ensures Wrote(old(heap.memory.image), heap.memory.image, Slot(i) + offset, w)
    {
      ghost var m := heap.memory.image;
      heap.memory.WriteWord(Slot(i) + offset, w);
      StoredFrame(m, heap.memory.image, heap.mmStart, heap.blocks);
    }

    /** brickos_newprogram_addr: where a program of `size` bytes would be placed
        once the one in slot `i` is gone.  The next allocation of that size gets
        this very answer, whatever happens to the cached word. */
    method NewProgramAddress(i: nat, size: word) returns (addr: word)
      requires Valid() && i < SLOTS
      modifies heap, heap.memory, heap.memory.bytes
      ensures Valid()
      ensures WordAt(heap.memory.image, Slot(i) + 8) == 0
      ensures addr == Malloc(heap.mmStart, old(Evicted(i)).blocks, old(Evicted(i)).firstFree, WordsFor(size)).addr
      ensures forall ff: word :: Malloc(heap.mmStart, heap.blocks, ff, WordsFor(size)).addr == addr
      ensures SameBytes(old(heap.memory.image), heap.memory.image, Owned(heap.mmStart, old(Evicted(i)).blocks))
      ensures SameBelow(old(heap.memory.image), heap.memory.image, i)
    {
      Vacate(i);
      addr := Probe(size);
    }

    /** Deletes the program in slot `i` and empties the slot. */
    method Vacate(i: nat)
      requires Valid() && i < SLOTS
      modifies heap, heap.memory, heap.memory.bytes
      ensures Valid() && Blocks() == old(Evicted(i))
      ensures WordAt(heap.memory.image, Slot(i) + 8) == 0
      ensures SameBytes(old(heap.memory.image), heap.memory.image, Owned(heap.mmStart, heap.blocks))
      ensures SameBelow(old(heap.memory.image), heap.memory.image, i)
    {
      var had := Evict(i);
      if had {
        WriteSlot(i, 8, 0);
      }
    }

    /** An allocation taken back at once. */
    method Probe(size: word) returns (addr: word)
      requires Valid()
      modifies heap, heap.memory, heap.memory.bytes
      ensures Valid()
      ensures addr == Malloc(heap.mmStart, old(Blocks()).blocks, old(Blocks()).firstFree, WordsFor(size)).addr
      ensures forall ff: word :: Malloc(heap.mmStart, heap.blocks, ff, WordsFor(size)).addr == addr
      ensures SameLow(old(heap.memory.image), heap.memory.image, heap.mmStart, heap.mmFirstFree)
      ensures SameBytes(old(heap.memory.image), heap.memory.image, Owned(heap.mmStart, old(heap.blocks)))
    {
      ghost var h, m, start := Blocks(), heap.memory.image, heap.mmStart;
      addr := heap.Malloc(size);
      ghost var taken, m1 := Blocks(), heap.memory.image;
      if addr != 0 {
        GrantFrame(start, h.blocks, h.firstFree, WordsFor(size), Outcome(addr, taken));
        TakeBack(addr, Owned(start, h.blocks));
        SameBytesTransitive(m, m1, heap.memory.image, Owned(start, h.blocks));
      }
      forall ff: word
        ensures Malloc(heap.mmStart, heap.blocks, ff, WordsFor(size)).addr == addr
      {
        PredictedAnswer(heap.mmStart, h, taken.firstFree, ff, WordsFor(size));
      }
    }

    /** Freeing a block, seen from some of the other blocks. */
    method TakeBack(addr: word, ghost kept: map<int, Block>)
      requires Valid()
      requires var others := Owned(heap.mmStart, heap.blocks) - {addr - 4};
               forall k :: k in kept ==> k in others && others[k] == kept[k]
      modifies heap, heap.memory, heap.memory.bytes
      ensures Valid() && Blocks() == Free(heap.mmStart, old(Blocks()).blocks, old(Blocks()).firstFree, addr)
      ensures SameLow(old(heap.memory.image), heap.memory.image, heap.mmStart, heap.mmFirstFree)
      ensures SameBytes(old(heap.memory.image), heap.memory.image, kept)
    {
      ghost var m, others := heap.memory.image, Owned(heap.mmStart, heap.blocks) - {addr - 4};
      heap.Free(addr);
      BytesOfSome(m, heap.memory.image, others, kept);
    }

    /** The same in the table and the heap. */
    method Fill(i: nat, p: Lx.Program, text: word)
      requires Valid() && i < SLOTS && p.WellFormed()
      requires var b := OwnedAt(heap.mmStart, heap.blocks, text - 4); !b.IsFree() && p.Footprint() <= 2 * b.len
      modifies heap.memory, heap.memory.bytes
      ensures Valid() && Blocks() == old(Blocks())
      ensures text + p.Footprint() <= MEMORY_SIZE && Loaded(heap.memory.image, p, text)
      ensures Describes(heap.memory.image, Slot(i), p, text)
      ensures SameButProgram(old(heap.memory.image), heap.memory.image, Slot(i), text, p.Footprint())
    {
      FillBlock(heap.memory, Slot(i), p, text, heap.mmStart, heap.blocks);
    }

    /** The same, for the block a request on the heap `h` has just been granted. */
    method FillGranted(i: nat, p: Lx.Program, text: word, ghost h: Heap)
      requires Valid() && i < SLOTS && p.WellFormed() && p.Footprint() < 0x10000
      requires Fits(heap.mmStart, h.blocks) && text != 0
      requires Outcome(text, Blocks()) == Malloc(heap.mmStart, h.blocks, h.firstFree, WordsFor(p.Footprint()))
      modifies heap.memory, heap.memory.bytes
      ensures Valid() && Blocks() == old(Blocks())
      ensures text + p.Footprint() <= MEMORY_SIZE && Loaded(heap.memory.image, p, text)
      ensures Describes(heap.memory.image, Slot(i), p, text)
      ensures SameBytes(old(heap.memory.image), heap.memory.image, Owned(heap.mmStart, h.blocks))
      ensures SameBelow(old(heap.memory.image), heap.memory.image, i)
    {
      ghost var m := heap.memory.image;
      Room(heap.mmStart, h.blocks, h.firstFree, p.Footprint());
      Fill(i, p, text);
      FillKeepsOthers(m, heap.memory.image, heap.mmStart, h.blocks, h.firstFree, p.Footprint(), Slot(i));
    }

    /** A load once the slot is empty. */
    method LoadInto(i: nat, p: Lx.Program) returns (text: word)
      requires Valid() && i < SLOTS && p.WellFormed() && p.Footprint() < 0x10000
      modifies heap, heap.memory, heap.memory.bytes
      ensures Valid()
      ensures Outcome(text, Blocks())
           == Malloc(heap.mmStart, old(Blocks()).blocks, old(Blocks()).firstFree, WordsFor(p.Footprint()))
      ensures text != 0 ==>
        && text + p.Footprint() <= MEMORY_SIZE
        && Loaded(heap.memory.image, p, text) && Describes(heap.memory.image, Slot(i), p, text)
      ensures SameBytes(old(heap.memory.image), heap.memory.image, Owned(heap.mmStart, old(heap.blocks)))
      ensures SameBelow(old(heap.memory.image), heap.memory.image, i)
    {
      ghost var h := Blocks();
      text := heap.Malloc(p.Footprint());
      if text != 0 {
        FillGranted(i, p, text, h);
      }
    }

    /** Below the heap only the cached word and table entry `i` may differ. */
    ghost predicate SameBelow(m: seq<byte>, m': seq<byte>, i: nat)
      requires i < SLOTS
    {
      && |m| == |m'| == MEMORY_SIZE
      && forall a | 0 <= a < heap.mmStart && a != heap.mmFirstFree && a != heap.mmFirstFree + 1
                    && !(Slot(i) <= a < Slot(i) + SLOT_SIZE) :: m'[a] == m[a]
    }

    /** brickos_load_program for an .lx file: replaces the program in slot `i`.
        On success the program fills a block of its own; every other block, and
        all low memory but the table entry and the cached word, stays as it was. */
    method LoadProgram(i: nat, p: Lx.Program) returns (text: word)
      requires Valid() && i < SLOTS && p.WellFormed() && p.Footprint() < 0x10000
      modifies heap, heap.memory, heap.memory.bytes
      ensures Valid()
      ensures Outcome(text, Blocks())
           == Malloc(heap.mmStart, old(Evicted(i)).blocks, old(Evicted(i)).firstFree, WordsFor(p.Footprint()))
      ensures text != 0 ==>
        && text + p.Footprint() <= MEMORY_SIZE
        && Loaded(heap.memory.image, p, text) && Describes(heap.memory.image, Slot(i), p, text)
      ensures SameBytes(old(heap.memory.image), heap.memory.image, Owned(heap.mmStart, old(Evicted(i)).blocks))
      ensures SameBelow(old(heap.memory.image), heap.memory.image, i)
    {
      var had := Evict(i);
      text := LoadInto(i, p);
    }

    /** The address asked for is the address the program is then loaded at. */
    method AskThenLoad(i: nat, p: Lx.Program) returns (predicted: word, text: word)
      requires Valid() && i < SLOTS && p.WellFormed() && p.Footprint() < 0x10000
      modifies heap, heap.memory, heap.memory.bytes
      ensures Valid() && text == predicted
    {
      predicted := NewProgramAddress(i, p.Footprint());
      text := LoadProgram(i, p);
    }
  }
}
