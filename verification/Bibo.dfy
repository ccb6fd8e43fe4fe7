/**
 The bibo allocator on the words of memory, proved against the value model.
 */
module Bibo {
  import opened Words
  import opened BiboHeap

  /** The link word to the next block: 0 at the wrapped top, and the mark. */
  function Link(next: int, flag: bool): (r: int) {
    (if next >= MEMORY_SIZE then 0 else next) + (if flag then 1 else 0)
  }

  /** The headers of `blocks` are in memory from p on. */
  ghost predicate Stored(m: seq<byte>, p: int, blocks: seq<Block>)
    requires |m| == MEMORY_SIZE
    decreases blocks
  {
    blocks == [] ||
    (0 < p && Sound(blocks[0]) && p + blocks[0].size <= MEMORY_SIZE
     && WordAt(m, p + 2) == Link(p + blocks[0].size, blocks[0].flag)
     && WordAt(m, p + 4) == blocks[0].owner
     && Stored(m, p + blocks[0].size, blocks[1..]))
  }

  /** From the word at q, the free list runs through exactly the free blocks. */
  ghost predicate Linked(m: seq<byte>, q: int, p: int, blocks: seq<Block>)
    requires |m| == MEMORY_SIZE
    decreases blocks
  {
    && 0 <= q && q + 1 < MEMORY_SIZE
    && if blocks == [] then WordAt(m, q) == 0
       else if blocks[0].IsFree() then WordAt(m, q) == p && Linked(m, p + 6, p + blocks[0].size, blocks[1..])
       else Linked(m, q, p + blocks[0].size, blocks[1..])
  }

  /** The same up to a block, leaving the last link, at q2, open. */
  ghost predicate LinkedTo(m: seq<byte>, q: int, p: int, blocks: seq<Block>, q2: int)
    requires |m| == MEMORY_SIZE
    decreases blocks
  {
    && 0 <= q && q + 1 < MEMORY_SIZE
    && if blocks == [] then q == q2
       else if blocks[0].IsFree() then
         WordAt(m, q) == p && LinkedTo(m, p + 6, p + blocks[0].size, blocks[1..], q2)
       else LinkedTo(m, q, p + blocks[0].size, blocks[1..], q2)
  }

  /** The free list is the ascending list of the free blocks' addresses. */
  ghost predicate Follows(m: seq<byte>, q: int, list: seq<int>)
    requires |m| == MEMORY_SIZE
    decreases |list|
  {
    && 0 <= q && q + 1 < MEMORY_SIZE
    && if list == [] then WordAt(m, q) == 0 else WordAt(m, q) == list[0] && Follows(m, list[0] + 6, list[1..])
  }

  lemma {:induction false} LinkedIsFreeList(m: seq<byte>, q: int, p: int, blocks: seq<Block>)
    requires |m| == MEMORY_SIZE
    ensures Linked(m, q, p, blocks) <==> Follows(m, q, FreeAddresses(p, blocks))
    decreases blocks
  {
    if blocks != [] {
      var rest := FreeAddresses(p + blocks[0].size, blocks[1..]);
      if blocks[0].IsFree() {
        LinkedIsFreeList(m, p + 6, p + blocks[0].size, blocks[1..]);
        assert ([p] + rest)[1..] == rest;
      } else {
        LinkedIsFreeList(m, q, p + blocks[0].size, blocks[1..]);
      }
    }
  }

  // ----------------------------------------------------------------- frames

  /** The open link is the one before the blocks, or lies in one of them. */
  lemma {:induction false} LinkPlace(m: seq<byte>, q: int, p: int, blocks: seq<Block>, q2: int)
    requires |m| == MEMORY_SIZE && LinkedTo(m, q, p, blocks, q2) && Stored(m, p, blocks)
    ensures q2 == q || (p + 6 <= q2 && q2 + 2 <= p + Extent(blocks))
    decreases blocks
  {
    if blocks != [] {
      StoredExtent(m, p + blocks[0].size, blocks[1..]);
      LinkPlace(m, if blocks[0].IsFree() then p + 6 else q, p + blocks[0].size, blocks[1..], q2);
    }
  }

  lemma {:induction false} StoredExtent(m: seq<byte>, p: int, blocks: seq<Block>)
    requires |m| == MEMORY_SIZE && Stored(m, p, blocks)
    ensures Extent(blocks) >= 0
    decreases blocks
  {
    if blocks != [] {
      StoredExtent(m, p + blocks[0].size, blocks[1..]);
    }
  }

  /** Writing the open link changes no header and no other link. */
  lemma {:induction false} LinkWrite(m: seq<byte>, m': seq<byte>, q: int, p: int, blocks: seq<Block>, q2: int)
    requires |m| == |m'| == MEMORY_SIZE && q + 2 <= p
    requires Stored(m, p, blocks) && LinkedTo(m, q, p, blocks, q2)
    requires forall a :: 0 <= a < p + Extent(blocks) && a < MEMORY_SIZE && a != q2 && a != q2 + 1 ==> m'[a] == m[a]
    ensures Stored(m', p, blocks) && LinkedTo(m', q, p, blocks, q2)
    decreases blocks
  {
    if blocks != [] {
      var r := p + blocks[0].size;
      StoredExtent(m, r, blocks[1..]);
      LinkPlace(m, if blocks[0].IsFree() then p + 6 else q, r, blocks[1..], q2);
      LinkWrite(m, m', if blocks[0].IsFree() then p + 6 else q, r, blocks[1..], q2);
    }
  }

  /** Behind the changes, headers and links are as before; the first link may move. */
  lemma {:induction false} TailKept(m: seq<byte>, m': seq<byte>, p: int, blocks: seq<Block>)
    requires |m| == |m'| == MEMORY_SIZE && Stored(m, p, blocks)
    requires forall a :: p + 2 <= a < MEMORY_SIZE && 0 <= a ==> m'[a] == m[a]
    ensures Stored(m', p, blocks)
    decreases blocks
  {
    if blocks != [] {
      TailKept(m, m', p + blocks[0].size, blocks[1..]);
    }
  }

  lemma {:induction false} LinkMoved(m: seq<byte>, m': seq<byte>, q: int, q': int, p: int, blocks: seq<Block>)
    requires |m| == |m'| == MEMORY_SIZE && Stored(m, p, blocks) && Linked(m, q, p, blocks)
    requires forall a :: p + 2 <= a < MEMORY_SIZE && 0 <= a ==> m'[a] == m[a]
    requires 0 <= q' && q' + 1 < MEMORY_SIZE && WordAt(m', q') == WordAt(m, q)
    ensures Linked(m', q', p, blocks)
    decreases blocks
  {
    if blocks != [] {
      if blocks[0].IsFree() {
        LinkMoved(m, m', p + 6, p + 6, p + blocks[0].size, blocks[1..]);
      } else {
        LinkMoved(m, m', q, q', p + blocks[0].size, blocks[1..]);
      }
    }
  }

  lemma {:induction false} StoredJoin(m: seq<byte>, p: int, a: seq<Block>, b: seq<Block>)
    requires |m| == MEMORY_SIZE && Stored(m, p, a) && Stored(m, p + Extent(a), b)
    ensures Stored(m, p, a + b)
    decreases a
  {
    if a == [] {
      assert a + b == b;
    } else {
      StoredJoin(m, p + a[0].size, a[1..], b);
      assert (a + b)[1..] == a[1..] + b;
    }
  }

  lemma {:induction false} LinkedJoin(m: seq<byte>, q: int, p: int, a: seq<Block>, q2: int, b: seq<Block>)
    requires |m| == MEMORY_SIZE && LinkedTo(m, q, p, a, q2) && Linked(m, q2, p + Extent(a), b)
    ensures Linked(m, q, p, a + b)
    decreases a
  {
    if a == [] {
      assert a + b == b;
    } else {
      assert (a + b)[1..] == a[1..] + b;
      LinkedJoin(m, if a[0].IsFree() then p + 6 else q, p + a[0].size, a[1..], q2, b);
    }
  }

  lemma {:induction false} LinkedToJoin(m: seq<byte>, q: int, p: int, a: seq<Block>, q2: int, b: seq<Block>, q3: int)
    requires |m| == MEMORY_SIZE && LinkedTo(m, q, p, a, q2) && LinkedTo(m, q2, p + Extent(a), b, q3)
    ensures LinkedTo(m, q, p, a + b, q3)
    decreases a
  {
    if a == [] {
      assert a + b == b;
    } else {
      assert (a + b)[1..] == a[1..] + b;
      LinkedToJoin(m, if a[0].IsFree() then p + 6 else q, p + a[0].size, a[1..], q2, b, q3);
    }
  }

  // ------------------------------------------------------------------- scan

  /** A scan of the free list for n bytes from the list's head f has passed `done` and
      stands at the link q; `goal` is what allocation comes to. */
  ghost predicate Scanning(m: seq<byte>, f: int, p: int, done: seq<Block>, q: int, pos: int, rest: seq<Block>,
                           n: int, goal: Outcome)
    requires |m| == MEMORY_SIZE
  {
    var o := Malloc(pos, rest, n);
    var scanning :=
      && 0 <= f && f + 2 <= p && pos == p + Extent(done) && pos >= p
      && Stored(m, p, done) && LinkedTo(m, f, p, done, q)
      && Tiles(pos, rest) && Stored(m, pos, rest) && Linked(m, q, pos, rest)
      && goal == Outcome(o.addr, done + o.blocks);
    scanning
  }

  lemma ScanBegins(m: seq<byte>, f: int, p: int, blocks: seq<Block>, n: int)
    requires |m| == MEMORY_SIZE && 0 <= f && f + 2 <= p
    requires Tiles(p, blocks) && Stored(m, p, blocks) && Linked(m, f, p, blocks)
    ensures Scanning(m, f, p, [], f, p, blocks, n, Malloc(p, blocks, n))
  {
    var o := Malloc(p, blocks, n);
    assert [] + o.blocks == o.blocks;
  }

  /** Passing a block that does not serve: an owned one, or a free one that is too short. */
  lemma ScanPasses(m: seq<byte>, f: int, p: int, done: seq<Block>, q: int, pos: int, rest: seq<Block>,
                   n: int, goal: Outcome)
    requires |m| == MEMORY_SIZE && Scanning(m, f, p, done, q, pos, rest, n, goal)
    requires rest != [] && !(rest[0].IsFree() && rest[0].size >= n + 4)
    ensures Scanning(m, f, p, done + [rest[0]], if rest[0].IsFree() then pos + 6 else q,
                     pos + rest[0].size, rest[1..], n, goal)
  {
    var b := rest[0];
    var q2 := if b.IsFree() then pos + 6 else q;
    var o := Malloc(pos + b.size, rest[1..], n);
    assert [b][1..] == [];
    ExtentConcat(done, [b]);
    StoredJoin(m, p, done, [b]);
    assert LinkedTo(m, q, pos, [b], q2);
    LinkedToJoin(m, f, p, done, q, [b], q2);
    assert done + ([b] + o.blocks) == (done + [b]) + o.blocks;
  }

  lemma Onward(done: seq<Block>, rest: seq<Block>)
    requires rest != []
    ensures (done + [rest[0]]) + rest[1..] == done + rest
  {
  }

  /** A link that is not 0 leads past owned blocks to a free one. */
  lemma {:induction false} ScanFinds(m: seq<byte>, f: int, p: int, done: seq<Block>, q: int, pos: int,
                                     rest: seq<Block>, n: int, goal: Outcome)
    returns (done': seq<Block>, rest': seq<Block>)
    requires |m| == MEMORY_SIZE && Scanning(m, f, p, done, q, pos, rest, n, goal) && WordAt(m, q) != 0
    ensures Scanning(m, f, p, done', q, WordAt(m, q), rest', n, goal) && rest' != [] && rest'[0].IsFree()
    ensures done' + rest' == done + rest && |rest'| <= |rest|
    decreases |rest|
  {
    if rest[0].IsFree() {
      done', rest' := done, rest;
    } else {
      ScanPasses(m, f, p, done, q, pos, rest, n, goal);
      Onward(done, rest);
      done', rest' := ScanFinds(m, f, p, done + [rest[0]], q, pos + rest[0].size, rest[1..], n, goal);
    }
  }

  /** A link of 0 is the end of the list: nothing that is left is free. */
  lemma {:induction false} ScanEnds(m: seq<byte>, q: int, pos: int, rest: seq<Block>, n: int)
    requires |m| == MEMORY_SIZE && Stored(m, pos, rest) && Linked(m, q, pos, rest) && WordAt(m, q) == 0
    ensures Malloc(pos, rest, n) == Outcome(0, rest)
    decreases rest
  {
    if rest != [] {
      ScanEnds(m, q, pos + rest[0].size, rest[1..], n);
    }
  }

  // ------------------------------------------------------------- allocation

  /** What the writes inside a free block make of it, before the list is relinked:
      `next` is what its predecessor's link has to become. */
  ghost predicate CutUp(m: seq<byte>, m': seq<byte>, pos: int, b: Block, n: int, next: word)
    requires |m| == |m'| == MEMORY_SIZE && 0 < pos && pos + b.size + 2 <= MEMORY_SIZE && b.size >= 8 && n >= 2
  {
    && SameElsewhere(m, m', pos + 2, pos + b.size + 2)
    && WordAt(m', pos + 4) == BEAMED
    && if b.size >= n + 12 then
         && next == pos + n + 4
         && WordAt(m', pos + 2) == next
         && WordAt(m', next + 2) == pos + b.size && WordAt(m', next + 4) == FREE
         && WordAt(m', next + 6) == WordAt(m, pos + 6)
       else
         next == WordAt(m, pos + 6) && WordAt(m', pos + 2) == WordAt(m, pos + 2)
  }

  lemma {:induction false} StoredSame(m: seq<byte>, m': seq<byte>, p: int, blocks: seq<Block>)
    requires |m| == |m'| == MEMORY_SIZE && Stored(m, p, blocks)
    requires forall a :: p <= a < p + Extent(blocks) && 0 <= a < MEMORY_SIZE ==> m'[a] == m[a]
    ensures Stored(m', p, blocks)
    decreases blocks
  {
    if blocks != [] {
      StoredExtent(m, p + blocks[0].size, blocks[1..]);
      StoredSame(m, m', p + blocks[0].size, blocks[1..]);
    }
  }

  lemma TakenExtent(b: Block, n: int)
    ensures Extent(Taken(b, n)) == b.size
  {
    if b.size >= n + 12 {
      ExtentConcat([Block(BEAMED, n + 4, b.flag)], [Block(FREE, b.size - n - 4, false)]);
      assert Taken(b, n) == [Block(BEAMED, n + 4, b.flag)] + [Block(FREE, b.size - n - 4, false)];
    }
  }

  lemma StoredOne(m: seq<byte>, p: int, b: Block)
    requires |m| == MEMORY_SIZE && 0 < p && Sound(b) && p + b.size <= MEMORY_SIZE
    requires WordAt(m, p + 2) == Link(p + b.size, b.flag) && WordAt(m, p + 4) == b.owner
    ensures Stored(m, p, [b]) && Extent([b]) == b.size
  {
    assert [b][1..] == [];
  }

  lemma CutStored(m: seq<byte>, m1: seq<byte>, pos: int, b: Block, n: int, next: word)
    requires |m| == |m1| == MEMORY_SIZE && 0 < pos && pos + b.size + 2 <= MEMORY_SIZE
    requires Sound(b) && b.IsFree() && b.size >= n + 4 && n % 2 == 0 && n >= 2
    requires WordAt(m, pos + 2) == Link(pos + b.size, b.flag)
    requires CutUp(m, m1, pos, b, n, next)
    ensures Stored(m1, pos, Taken(b, n)) && Extent(Taken(b, n)) == b.size
  {
    TakenExtent(b, n);
    if b.size >= n + 12 {
      var front, back := Block(BEAMED, n + 4, b.flag), Block(FREE, b.size - n - 4, false);
      assert pos + b.size == next + back.size;
      StoredOne(m1, next, back);
      StoredOne(m1, pos, front);
      StoredJoin(m1, pos, [front], [back]);
      assert Taken(b, n) == [front] + [back];
    } else {
      StoredOne(m1, pos, b.(owner := BEAMED));
    }
  }

  /** The list from the link q on, once q points past the block that was taken. */
  lemma CutLinked(m: seq<byte>, m2: seq<byte>, q: int, pos: int, b: Block, rest: seq<Block>, n: int, next: word)
    requires |m| == |m2| == MEMORY_SIZE && 0 < pos && Sound(b) && b.IsFree() && b.size >= n + 4 && n >= 2
    requires Stored(m, pos + b.size, rest) && Linked(m, pos + 6, pos + b.size, rest)
    requires 0 <= q && q + 1 < MEMORY_SIZE && WordAt(m2, q) == next
    requires pos + b.size + 2 <= MEMORY_SIZE
    requires forall a :: pos + b.size + 2 <= a < MEMORY_SIZE ==> m2[a] == m[a]
    requires if b.size >= n + 12 then next == pos + n + 4 && WordAt(m2, next + 6) == WordAt(m, pos + 6)
             else next == WordAt(m, pos + 6)
    ensures Linked(m2, q, pos, Taken(b, n) + rest)
  {
    var t := Taken(b, n);
    var all := t + rest;
    assert all[1..] == t[1..] + rest;
    if b.size >= n + 12 {
      LinkMoved(m, m2, pos + 6, next + 6, pos + b.size, rest);
      assert all[1..][0] == t[1] && all[1..][1..] == rest;
    } else {
      LinkMoved(m, m2, pos + 6, q, pos + b.size, rest);
      assert all[1..] == rest;
    }
  }

  /** The headers after all writes of an allocation. */
  lemma TakenStored(m: seq<byte>, m1: seq<byte>, m2: seq<byte>, f: int, p: int, done: seq<Block>, q: int, pos: int,
                    rest: seq<Block>, n: int, goal: Outcome, next: word)
    requires |m| == |m1| == |m2| == MEMORY_SIZE && n % 2 == 0 && n >= 2
    requires Scanning(m, f, p, done, q, pos, rest, n, goal)
    requires |rest| > 1 && rest[0].IsFree() && rest[0].size >= n + 4 && pos + rest[0].size + 2 <= MEMORY_SIZE
    requires CutUp(m, m1, pos, rest[0], n, next) && Wrote(m1, m2, q, next)
    ensures Stored(m2, p, done + (Taken(rest[0], n) + rest[1..])) && LinkedTo(m2, f, p, done, q)
  {
    var b, tail := rest[0], rest[1..];
    var t := Taken(b, n);
    LinkPlace(m, f, p, done, q);
    LinkWrite(m, m2, f, p, done, q);
    CutStored(m, m1, pos, b, n, next);
    StoredSame(m1, m2, pos, t);
    TailKept(m, m2, pos + b.size, tail);
    StoredJoin(m2, pos, t, tail);
    StoredJoin(m2, p, done, t + tail);
  }

  /** The free list after all writes of an allocation. */
  lemma TakenLinked(m: seq<byte>, m1: seq<byte>, m2: seq<byte>, f: int, p: int, done: seq<Block>, q: int, pos: int,
                    rest: seq<Block>, n: int, goal: Outcome, next: word)
    requires |m| == |m1| == |m2| == MEMORY_SIZE && n % 2 == 0 && n >= 2
    requires Scanning(m, f, p, done, q, pos, rest, n, goal)
    requires |rest| > 1 && rest[0].IsFree() && rest[0].size >= n + 4 && pos + rest[0].size + 2 <= MEMORY_SIZE
    requires CutUp(m, m1, pos, rest[0], n, next) && Wrote(m1, m2, q, next)
    requires LinkedTo(m2, f, p, done, q)
    ensures Linked(m2, f, p, done + (Taken(rest[0], n) + rest[1..]))
  {
    LinkPlace(m, f, p, done, q);
    CutLinked(m, m2, q, pos, rest[0], rest[1..], n, next);
    LinkedJoin(m2, f, p, done, q, Taken(rest[0], n) + rest[1..]);
  }

  // ------------------------------------------------------------- areas kept

  /** Neither byte of the open link lies in the area of an owned block. */
  lemma {:induction false} LinkOutsideAreas(m: seq<byte>, q: int, p: int, done: seq<Block>, q2: int, k: int)
    requires |m| == MEMORY_SIZE && Stored(m, p, done) && LinkedTo(m, q, p, done, q2) && q + 2 <= p
    requires !OwnedAt(p, done, k).IsFree()
    ensures p <= k && k + OwnedAt(p, done, k).size <= p + Extent(done)
    ensures q2 + 2 <= k + 6 || k + OwnedAt(p, done, k).size + 2 <= q2
    decreases done
  {
    var r := p + done[0].size;
    StoredExtent(m, r, done[1..]);
    LinkPlace(m, if done[0].IsFree() then p + 6 else q, r, done[1..], q2);
    if k != p {
      LinkOutsideAreas(m, if done[0].IsFree() then p + 6 else q, r, done[1..], q2, k);
    }
  }

  lemma {:induction false} ExtentPositive(a: seq<Block>)
    requires forall i :: 0 <= i < |a| ==> a[i].size > 0
    ensures Extent(a) >= 0
    decreases a
  {
    if a != [] {
      ExtentPositive(a[1..]);
    }
  }

  lemma {:induction false} StoredSizes(m: seq<byte>, p: int, blocks: seq<Block>, i: nat)
    requires |m| == MEMORY_SIZE && Stored(m, p, blocks) && i < |blocks|
    ensures blocks[i].size > 0
    decreases blocks
  {
    if i > 0 {
      StoredSizes(m, p + blocks[0].size, blocks[1..], i - 1);
    }
  }

  /** An owned block of the whole is one of either part. */
  lemma {:induction false} OwnedInParts(p: int, a: seq<Block>, b: seq<Block>, k: int)
    requires forall i :: 0 <= i < |a| ==> a[i].size > 0
    requires !OwnedAt(p, a + b, k).IsFree()
    ensures OwnedAt(p, a + b, k) == OwnedAt(p, a, k) || OwnedAt(p, a + b, k) == OwnedAt(p + Extent(a), b, k)
    decreases a
  {
    if a == [] {
      assert a + b == b;
    } else {
      assert (a + b)[1..] == a[1..] + b && (a + b)[0] == a[0];
      if k != p {
        OwnedInParts(p + a[0].size, a[1..], b, k);
      }
    }
  }

  /** An allocation changes no byte of any other owner's area. */
  lemma AreasKept(m: seq<byte>, m1: seq<byte>, m2: seq<byte>, f: int, p: int, done: seq<Block>, q: int, pos: int,
                  rest: seq<Block>, n: int, goal: Outcome, next: word, k: int, x: int)
    requires |m| == |m1| == |m2| == MEMORY_SIZE
    requires Scanning(m, f, p, done, q, pos, rest, n, goal)
    requires rest != [] && rest[0].IsFree()
    requires SameElsewhere(m, m1, pos + 2, pos + rest[0].size + 2) && Wrote(m1, m2, q, next)
    requires !OwnedAt(p, done + rest, k).IsFree() && InArea(k, OwnedAt(p, done + rest, k), x) && 0 <= x < MEMORY_SIZE
    ensures m2[x] == m[x]
  {
    forall i | 0 <= i < |done| ensures done[i].size > 0 {
      StoredSizes(m, p, done, i);
    }
    OwnedInParts(p, done, rest, k);
    LinkPlace(m, f, p, done, q);
    var b := OwnedAt(p, done + rest, k);
    if OwnedAt(p, done, k) == b {
      LinkOutsideAreas(m, f, p, done, q, k);
    } else {
      OwnedBounds(pos + rest[0].size, rest[1..], k);
    }
  }

  /** No byte of any owner's area differs. */
  ghost predicate SameAreas(m: seq<byte>, m': seq<byte>, p: int, blocks: seq<Block>)
    requires |m| == |m'| == MEMORY_SIZE
  {
    forall k, x :: !OwnedAt(p, blocks, k).IsFree() && InArea(k, OwnedAt(p, blocks, k), x) && 0 <= x < MEMORY_SIZE
      ==> m'[x] == m[x]
  }

  lemma AllAreasKept(m: seq<byte>, m1: seq<byte>, m2: seq<byte>, f: int, p: int, done: seq<Block>, q: int, pos: int,
                     rest: seq<Block>, n: int, goal: Outcome, next: word)
    requires |m| == |m1| == |m2| == MEMORY_SIZE
    requires Scanning(m, f, p, done, q, pos, rest, n, goal) && rest != [] && rest[0].IsFree()
    requires SameElsewhere(m, m1, pos + 2, pos + rest[0].size + 2) && Wrote(m1, m2, q, next)
    ensures SameAreas(m, m2, p, done + rest)
  {
    forall k, x | && !OwnedAt(p, done + rest, k).IsFree()
                  && InArea(k, OwnedAt(p, done + rest, k), x) && 0 <= x < MEMORY_SIZE
      ensures m2[x] == m[x]
    {
      AreasKept(m, m1, m2, f, p, done, q, pos, rest, n, goal, next, k, x);
    }
  }

  lemma GoalReached(m: seq<byte>, f: int, p: int, done: seq<Block>, q: int, pos: int, rest: seq<Block>,
                    n: int, goal: Outcome)
    requires |m| == MEMORY_SIZE && Scanning(m, f, p, done, q, pos, rest, n, goal)
    requires rest != [] && rest[0].IsFree() && rest[0].size >= n + 4
    ensures goal == Outcome(pos + 6, done + (Taken(rest[0], n) + rest[1..]))
  {
  }

  /** A reserved block follows every free one. */
  lemma FreeIsNotLast(pos: int, rest: seq<Block>)
    requires Tiles(pos, rest) && rest != [] && rest[0].IsFree()
    ensures |rest| > 1 && pos + rest[0].size + 6 <= MEMORY_SIZE
  {
    TilesExtent(pos + rest[0].size, rest[1..]);
    TilesExtent(pos + rest[0].size + rest[1].size, rest[1..][1..]);
  }

  // ---------------------------------------------------------------- release

  /** The first word of every marked block is the address of the block before it. */
  ghost predicate Tagged(m: seq<byte>, p: int, blocks: seq<Block>, before: int)
    requires |m| == MEMORY_SIZE
    decreases blocks
  {
    blocks == [] ||
    (0 <= p && p + 1 < MEMORY_SIZE && (blocks[0].flag ==> WordAt(m, p) == before)
     && Tagged(m, p + blocks[0].size, blocks[1..], p))
  }

  /** The header before the end of `blocks`. */
  ghost function LastHeader(p: int, blocks: seq<Block>, before: int): (r: int)
    decreases blocks
  {
    if blocks == [] then before else LastHeader(p + blocks[0].size, blocks[1..], p)
  }

  lemma {:induction false} TaggedParts(m: seq<byte>, p: int, a: seq<Block>, b: seq<Block>, before: int)
    requires |m| == MEMORY_SIZE
    ensures Tagged(m, p, a + b, before)
       <==> Tagged(m, p, a, before) && Tagged(m, p + Extent(a), b, LastHeader(p, a, before))
    decreases a
  {
    if a == [] {
      assert a + b == b;
    } else {
      assert (a + b)[1..] == a[1..] + b;
      TaggedParts(m, p + a[0].size, a[1..], b, p);
    }
  }

  lemma {:induction false} TaggedSame(m: seq<byte>, m': seq<byte>, p: int, blocks: seq<Block>, before: int)
    requires |m| == |m'| == MEMORY_SIZE && Tagged(m, p, blocks, before) && Stored(m, p, blocks)
    requires forall a :: p <= a < p + Extent(blocks) && 0 <= a < MEMORY_SIZE ==> m'[a] == m[a]
    ensures Tagged(m', p, blocks, before)
    decreases blocks
  {
    if blocks != [] {
      StoredExtent(m, p + blocks[0].size, blocks[1..]);
      TaggedSame(m, m', p + blocks[0].size, blocks[1..], p);
    }
  }

  /** Behind the changes the tags are as before, but the first one. */
  lemma TaggedTail(m: seq<byte>, m': seq<byte>, p: int, blocks: seq<Block>, before: int, before': int)
    requires |m| == |m'| == MEMORY_SIZE && Tagged(m, p, blocks, before) && Stored(m, p, blocks)
    requires forall a :: p + 2 <= a < MEMORY_SIZE && 0 <= a ==> m'[a] == m[a]
    requires blocks != [] && blocks[0].flag ==> WordAt(m', p) == before'
    ensures Tagged(m', p, blocks, before')
  {
    if blocks != [] {
      TaggedSame(m, m', p + blocks[0].size, blocks[1..], p);
    }
  }

  lemma {:induction false} StoredParts(m: seq<byte>, p: int, a: seq<Block>, b: seq<Block>)
    requires |m| == MEMORY_SIZE && Stored(m, p, a + b)
    ensures Stored(m, p, a) && Stored(m, p + Extent(a), b)
    decreases a
  {
    if a == [] {
      assert a + b == b;
    } else {
      assert (a + b)[1..] == a[1..] + b;
      StoredParts(m, p + a[0].size, a[1..], b);
    }
  }

  lemma {:induction false} LinkedParts(m: seq<byte>, q: int, p: int, a: seq<Block>, b: seq<Block>) returns (q2: int)
    requires |m| == MEMORY_SIZE && Linked(m, q, p, a + b)
    ensures LinkedTo(m, q, p, a, q2) && Linked(m, q2, p + Extent(a), b)
    decreases a
  {
    if a == [] {
      assert a + b == b;
      q2 := q;
    } else {
      assert (a + b)[1..] == a[1..] + b;
      q2 := LinkedParts(m, if a[0].IsFree() then p + 6 else q, p + a[0].size, a[1..], b);
    }
  }

  /** The block to be freed, with the blocks around it. */
  lemma {:induction false} Locate(p: int, blocks: seq<Block>, a: int) returns (done: seq<Block>, rest: seq<Block>)
    requires Tiles(p, blocks) && AfterFree(p, blocks, a)
    ensures blocks == done + rest && |rest| >= 3 && rest[0].IsFree() && !rest[1].IsFree()
    ensures p + Extent(done) + rest[0].size == a && Tiles(p + Extent(done), rest) && Extent(done) >= 0
    ensures BiboHeap.Free(p, blocks, a) == done + Coalesced(rest)
    decreases blocks
  {
    if blocks[0].IsFree() && p + blocks[0].size == a {
      done, rest := [], blocks;
      assert [] + Coalesced(blocks) == Coalesced(blocks);
    } else {
      var d;
      d, rest := Locate(p + blocks[0].size, blocks[1..], a);
      done := [blocks[0]] + d;
      InFront(blocks[0], d, rest);
      InFront(blocks[0], d, Coalesced(rest));
    }
  }

  lemma InFront(b: Block, d: seq<Block>, rest: seq<Block>)
    ensures ([b] + d) + rest == [b] + (d + rest) && Extent([b] + d) == b.size + Extent(d)
  {
    assert ([b] + d)[1..] == d;
  }

  lemma StoredThree(m: seq<byte>, p: int, blocks: seq<Block>)
    requires |m| == MEMORY_SIZE && Stored(m, p, blocks) && |blocks| >= 3
    ensures var g, b, c, tail := blocks[0], blocks[1], blocks[2], blocks[3..];
            var q := p + g.size;
            var r := q + b.size;
            && Stored(m, q, blocks[1..]) && Stored(m, r, [c] + tail) && Stored(m, r + c.size, tail)
            && 0 < p && Sound(g) && Sound(b) && Sound(c)
            && WordAt(m, q + 2) == Link(r, b.flag) && WordAt(m, r + 2) == Link(r + c.size, c.flag)
            && WordAt(m, r + 4) == c.owner && WordAt(m, p + 4) == g.owner && r + c.size <= MEMORY_SIZE
  {
    var rest := blocks[1..];
    assert Stored(m, p + blocks[0].size, rest);
    assert Stored(m, p + blocks[0].size + rest[0].size, rest[1..]);
    assert rest[1..][1..] == blocks[3..] && rest[1..][0] == blocks[2];
    assert [blocks[2]] + blocks[3..] == rest[1..];
  }

  lemma LinkedThree(m: seq<byte>, q: int, p: int, blocks: seq<Block>)
    requires |m| == MEMORY_SIZE && Linked(m, q, p, blocks) && |blocks| >= 3
    requires blocks[0].IsFree() && !blocks[1].IsFree()
    ensures var c, tail := blocks[2], blocks[3..];
            var r := p + blocks[0].size + blocks[1].size;
            && 0 <= q && q + 1 < MEMORY_SIZE && WordAt(m, q) == p && p + 7 < MEMORY_SIZE
            && (if c.IsFree() then WordAt(m, p + 6) == r && Linked(m, r + 6, r + c.size, tail)
                else Linked(m, p + 6, r + c.size, tail))
  {
    var rest := blocks[1..];
    assert Linked(m, p + 6, p + blocks[0].size, rest);
    assert Linked(m, p + 6, p + blocks[0].size + rest[0].size, rest[1..]);
    assert rest[1..][1..] == blocks[3..] && rest[1..][0] == blocks[2];
  }

  lemma TaggedThree(m: seq<byte>, p: int, blocks: seq<Block>, before: int)
    requires |m| == MEMORY_SIZE && Tagged(m, p, blocks, before) && |blocks| >= 3
    ensures var q := p + blocks[0].size;
            var r := q + blocks[1].size;
            && 0 <= p && 0 <= q && q + 1 < MEMORY_SIZE
            && (blocks[1].flag ==> WordAt(m, q) == p) && Tagged(m, r + blocks[2].size, blocks[3..], r)
  {
    var rest := blocks[1..];
    assert Tagged(m, p + blocks[0].size, rest, p);
    assert Tagged(m, p + blocks[0].size + rest[0].size, rest[1..], p + blocks[0].size);
    assert rest[1..][1..] == blocks[3..] && rest[1..][0] == blocks[2];
  }

  /** The writes that join three free blocks: links over them, and a new tag behind. */
  ghost predicate JoinedThree(m: seq<byte>, m': seq<byte>, p: int, r: int, next: int)
    requires |m| == |m'| == MEMORY_SIZE && 0 <= p && p + 8 <= r && r + 8 <= next && next + 2 <= MEMORY_SIZE
  {
    && WordAt(m', p + 2) == next && WordAt(m', next) == p && WordAt(m', p + 6) == WordAt(m, r + 6)
    && forall a :: 0 <= a < MEMORY_SIZE && !(p + 2 <= a < p + 4) && !(p + 6 <= a < p + 8) && !(next <= a < next + 2)
         ==> m'[a] == m[a]
  }

  /** The writes that join two and mark the next. */
  ghost predicate JoinedTwo(m: seq<byte>, m': seq<byte>, p: int, r: int)
    requires |m| == |m'| == MEMORY_SIZE && 0 <= p && p + 8 <= r && r + 4 <= MEMORY_SIZE
  {
    && WordAt(m', p + 2) == r && WordAt(m', r) == p && WordAt(m', r + 2) == WordAt(m, r + 2) + 1
    && forall a :: 0 <= a < MEMORY_SIZE && !(p + 2 <= a < p + 4) && !(r <= a < r + 4) ==> m'[a] == m[a]
  }

  /** A block of length `size` at p whose link says so, before blocks that are kept. */
  lemma HeadStored(m: seq<byte>, m': seq<byte>, p: int, b: Block, tail: seq<Block>)
    requires |m| == |m'| == MEMORY_SIZE && 0 < p && Sound(b) && p + b.size <= MEMORY_SIZE
    requires WordAt(m', p + 2) == Link(p + b.size, b.flag) && WordAt(m', p + 4) == b.owner
    requires Stored(m, p + b.size, tail)
    requires forall a :: p + b.size + 2 <= a < MEMORY_SIZE ==> m'[a] == m[a]
    ensures Stored(m', p, [b] + tail)
  {
    StoredOne(m', p, b);
    TailKept(m, m', p + b.size, tail);
    StoredJoin(m', p, [b], tail);
  }

  lemma HeadLinked(m: seq<byte>, m': seq<byte>, q: int, p: int, b: Block, from: int, tail: seq<Block>)
    requires |m| == |m'| == MEMORY_SIZE && 0 < p && b.IsFree() && b.size >= 8 && p + b.size <= MEMORY_SIZE
    requires 0 <= q && q + 1 < MEMORY_SIZE && WordAt(m', q) == p
    requires Stored(m, p + b.size, tail) && Linked(m, from, p + b.size, tail) && WordAt(m', p + 6) == WordAt(m, from)
    requires forall a :: p + b.size + 2 <= a < MEMORY_SIZE ==> m'[a] == m[a]
    ensures Linked(m', q, p, [b] + tail)
  {
    LinkMoved(m, m', from, p + 6, p + b.size, tail);
    assert ([b] + tail)[1..] == tail;
  }

  lemma HeadTagged(m: seq<byte>, m': seq<byte>, p: int, b: Block, tail: seq<Block>, before: int, was: int)
    requires |m| == |m'| == MEMORY_SIZE && 0 <= p && p + 1 < MEMORY_SIZE && !b.flag
    requires Stored(m, p + b.size, tail) && Tagged(m, p + b.size, tail, was)
    requires forall a :: p + b.size + 2 <= a < MEMORY_SIZE && 0 <= a ==> m'[a] == m[a]
    requires tail != [] && tail[0].flag ==> WordAt(m', p + b.size) == p
    ensures Tagged(m', p, [b] + tail, before)
  {
    TaggedTail(m, m', p + b.size, tail, was, p);
    assert ([b] + tail)[1..] == tail;
  }

  /** What the heap from p on says of a free block there, one to be freed, and the next. */
  ghost predicate Around(m: seq<byte>, q: int, p: int, rest: seq<Block>, before: int)
    requires |m| == MEMORY_SIZE
  {
    var around :=
      && 0 <= q && q + 2 <= p && Tiles(p, rest) && |rest| >= 3 && rest[0].IsFree() && !rest[1].IsFree()
      && (rest[1].flag && !rest[2].flag)
      && Stored(m, p, rest) && Linked(m, q, p, rest) && Tagged(m, p, rest, before);
    around
  }

  /** The same heap again, with the blocks as they are after the release. */
  ghost predicate Released(m: seq<byte>, q: int, p: int, blocks: seq<Block>, before: int)
    requires |m| == MEMORY_SIZE
  {
    var released := Stored(m, p, blocks) && Linked(m, q, p, blocks) && Tagged(m, p, blocks, before);
    released
  }

  /** The words around a block to be freed, at p + g.size. */
  ghost predicate Surrounded(m: seq<byte>, q: int, p: int, g: Block, b: Block, c: Block, tail: seq<Block>)
    requires |m| == MEMORY_SIZE
  {
    var r := p + g.size + b.size;
    var next := r + c.size;
    var surrounded :=
      && 0 <= q && q + 2 <= p && p + 8 <= MEMORY_SIZE && WordAt(m, q) == p
      && Sound(g) && Sound(b) && Sound(c) && g.IsFree() && !c.flag && next <= MEMORY_SIZE
      && WordAt(m, p + 4) == FREE && WordAt(m, r + 2) == Link(next, false) && WordAt(m, r + 4) == c.owner
      && Stored(m, next, tail) && Tagged(m, next, tail, r)
      && (if c.IsFree() then Linked(m, r + 6, next, tail) else Linked(m, p + 6, next, tail));
    surrounded
  }

  lemma AroundMeans(m: seq<byte>, q: int, p: int, rest: seq<Block>, before: int)
    requires |m| == MEMORY_SIZE && Around(m, q, p, rest, before)
    ensures Surrounded(m, q, p, rest[0], rest[1], rest[2], rest[3..])
  {
    StoredThree(m, p, rest);
    LinkedThree(m, q, p, rest);
    TaggedThree(m, p, rest, before);
  }

  lemma ThreeReleased(m: seq<byte>, m': seq<byte>, q: int, p: int, g: Block, b: Block, c: Block, tail: seq<Block>,
                      before: int, r: int, next: int)
    requires |m| == |m'| == MEMORY_SIZE && Surrounded(m, q, p, g, b, c, tail) && c.IsFree()
    requires r == p + g.size + b.size && next == r + c.size
    requires p >= 0 && p + 8 <= r && r + 8 <= next && next + 2 <= MEMORY_SIZE && JoinedThree(m, m', p, r, next)
    ensures Released(m', q, p, [Block(FREE, g.size + b.size + c.size, g.flag)] + tail, before)
  {
    ThreeStored(m, m', q, p, g, b, c, tail, r, next);
    ThreeLinked(m, m', q, p, g, b, c, tail, r, next);
    ThreeTagged(m, m', q, p, g, b, c, tail, before, r, next);
  }

  lemma ThreeStored(m: seq<byte>, m': seq<byte>, q: int, p: int, g: Block, b: Block, c: Block, tail: seq<Block>,
                    r: int, next: int)
    requires |m| == |m'| == MEMORY_SIZE && Surrounded(m, q, p, g, b, c, tail)
    requires r == p + g.size + b.size && next == r + c.size
    requires p >= 0 && p + 8 <= r && r + 8 <= next && next + 2 <= MEMORY_SIZE && JoinedThree(m, m', p, r, next)
    ensures Stored(m', p, [Block(FREE, g.size + b.size + c.size, g.flag)] + tail)
  {
    SoundSum(g, b.size);
    SoundSum(Block(FREE, g.size + b.size, g.flag), c.size);
    HeadStored(m, m', p, Block(FREE, g.size + b.size + c.size, g.flag), tail);
  }

  lemma SoundSum(g: Block, more: int)
    requires Sound(g) && g.IsFree() && more % 2 == 0 && more >= 0
    ensures Sound(Block(FREE, g.size + more, g.flag))
  {
  }

  lemma ThreeLinked(m: seq<byte>, m': seq<byte>, q: int, p: int, g: Block, b: Block, c: Block, tail: seq<Block>,
                    r: int, next: int)
    requires |m| == |m'| == MEMORY_SIZE && Surrounded(m, q, p, g, b, c, tail) && c.IsFree()
    requires r == p + g.size + b.size && next == r + c.size
    requires p >= 0 && p + 8 <= r && r + 8 <= next && next + 2 <= MEMORY_SIZE && JoinedThree(m, m', p, r, next)
    ensures Linked(m', q, p, [Block(FREE, g.size + b.size + c.size, g.flag)] + tail)
  {
    HeadLinked(m, m', q, p, Block(FREE, g.size + b.size + c.size, g.flag), r + 6, tail);
  }

  lemma ThreeTagged(m: seq<byte>, m': seq<byte>, q: int, p: int, g: Block, b: Block, c: Block, tail: seq<Block>,
                    before: int, r: int, next: int)
    requires |m| == |m'| == MEMORY_SIZE && Surrounded(m, q, p, g, b, c, tail)
    requires r == p + g.size + b.size && next == r + c.size
    requires p >= 0 && p + 8 <= r && r + 8 <= next && next + 2 <= MEMORY_SIZE && JoinedThree(m, m', p, r, next)
    ensures Tagged(m', p, [Block(FREE, g.size + b.size + c.size, g.flag)] + tail, before)
  {
    HeadTagged(m, m', p, Block(FREE, g.size + b.size + c.size, g.flag), tail, before, r);
  }

  lemma TwoReleased(m: seq<byte>, m': seq<byte>, q: int, p: int, g: Block, b: Block, c: Block, tail: seq<Block>,
                    before: int, r: int)
    requires |m| == |m'| == MEMORY_SIZE && Surrounded(m, q, p, g, b, c, tail) && !c.IsFree()
    requires r == p + g.size + b.size
    requires p >= 0 && p + 8 <= r && r + 4 <= MEMORY_SIZE && JoinedTwo(m, m', p, r)
    ensures Released(m', q, p, [Block(FREE, g.size + b.size, g.flag)] + ([c.(flag := true)] + tail), before)
  {
    var merged := Block(FREE, g.size + b.size, g.flag);
    SoundSum(g, b.size);
    TwoStored(m, m', p, merged, c, tail);
    TwoLinked(m, m', q, p, merged, c, tail);
    TwoTagged(m, m', p, merged, c, tail, before);
  }

  lemma TwoStored(m: seq<byte>, m': seq<byte>, p: int, merged: Block, c: Block, tail: seq<Block>)
    requires |m| == |m'| == MEMORY_SIZE && 0 < p && Sound(merged) && Sound(c)
    requires merged.IsFree() && !c.IsFree() && !c.flag
    requires var r := p + merged.size;
             && r + c.size <= MEMORY_SIZE && JoinedTwo(m, m', p, r) && WordAt(m, p + 4) == FREE
             && WordAt(m, r + 2) == Link(r + c.size, false) && WordAt(m, r + 4) == c.owner
             && Stored(m, r + c.size, tail)
    ensures Stored(m', p, [merged] + ([c.(flag := true)] + tail))
  {
    var r := p + merged.size;
    HeadStored(m, m', r, c.(flag := true), tail);
    StoredOne(m', p, merged);
    StoredJoin(m', p, [merged], [c.(flag := true)] + tail);
  }

  lemma TwoLinked(m: seq<byte>, m': seq<byte>, q: int, p: int, merged: Block, c: Block, tail: seq<Block>)
    requires |m| == |m'| == MEMORY_SIZE && 0 <= q && q + 2 <= p && merged.IsFree() && merged.size >= 8
    requires c.size >= 6 && !c.IsFree()
    requires var r := p + merged.size;
             && r + c.size <= MEMORY_SIZE && JoinedTwo(m, m', p, r) && WordAt(m, q) == p
             && Stored(m, r + c.size, tail) && Linked(m, p + 6, r + c.size, tail)
    ensures Linked(m', q, p, [merged] + ([c.(flag := true)] + tail))
  {
    var r := p + merged.size;
    LinkMoved(m, m', p + 6, p + 6, r + c.size, tail);
    var rest := [c.(flag := true)] + tail;
    assert rest[1..] == tail && ([merged] + rest)[1..] == rest;
    assert Linked(m', p + 6, r, rest);
  }

  lemma TwoTagged(m: seq<byte>, m': seq<byte>, p: int, merged: Block, c: Block, tail: seq<Block>, before: int)
    requires |m| == |m'| == MEMORY_SIZE && 0 <= p && !merged.flag && merged.size >= 8 && c.size >= 6
    requires var r := p + merged.size;
             && r + c.size <= MEMORY_SIZE && JoinedTwo(m, m', p, r)
             && Stored(m, r + c.size, tail) && Tagged(m, r + c.size, tail, r)
    ensures Tagged(m', p, [merged] + ([c.(flag := true)] + tail), before)
  {
    var r := p + merged.size;
    TaggedSame(m, m', r + c.size, tail, r);
    var rest := [c.(flag := true)] + tail;
    assert rest[1..] == tail && ([merged] + rest)[1..] == rest;
    assert Tagged(m', r, rest, p);
  }

  lemma {:induction false} EvenExtent(m: seq<byte>, p: int, blocks: seq<Block>)
    requires |m| == MEMORY_SIZE && Stored(m, p, blocks)
    ensures Extent(blocks) % 2 == 0
    decreases blocks
  {
    if blocks != [] {
      EvenExtent(m, p + blocks[0].size, blocks[1..]);
    }
  }

  lemma EvenSum(x: int, y: int)
    requires x % 2 == 0 && y % 2 == 0
    ensures (x + y) % 2 == 0
  {
  }

  /** Where a release starts from, and the addresses its writes go to. */
  lemma ReleaseBegins(m: seq<byte>, f: int, p: int, blocks: seq<Block>, a: int)
    returns (done: seq<Block>, rest: seq<Block>, q: int)
    requires |m| == MEMORY_SIZE && 0 <= f && f + 2 <= p && p % 2 == 0
    requires Tiles(p, blocks) && Marked(blocks, false) && AfterFree(p, blocks, a)
    requires Stored(m, p, blocks) && Linked(m, f, p, blocks) && Tagged(m, p, blocks, 0)
    ensures blocks == done + rest && |rest| >= 3 && p + Extent(done) + rest[0].size == a && Extent(done) >= 0
    ensures BiboHeap.Free(p, blocks, a) == done + Coalesced(rest)
    ensures Stored(m, p, done) && LinkedTo(m, f, p, done, q) && Tagged(m, p, done, 0)
    ensures Around(m, q, p + Extent(done), rest, LastHeader(p, done, 0)) && (p + Extent(done)) % 2 == 0
  {
    done, rest := Locate(p, blocks, a);
    StoredParts(m, p, done, rest);
    q := LinkedParts(m, f, p, done, rest);
    LinkPlace(m, f, p, done, q);
    TaggedParts(m, p, done, rest, 0);
    EvenExtent(m, p, done);
    EvenSum(p, Extent(done));
    MarkedParts(done, rest, false);
    var before :| Marked(rest, before);
    ThreeMarks(rest, before);
  }

  /** A link without its mark. */
  function Unmarked(w: word): (u: word)
    ensures w % 2 == 1 ==> u == w - 1
  {
    w - w % 2
  }

  lemma OddWord(r: int)
    requires r % 2 == 0
    ensures (r + 1) % 2 == 1
  {
  }

  /** What the words around the block tell the release. */
  lemma ReleaseReads(m: seq<byte>, q: int, p: int, rest: seq<Block>, before: int)
    requires |m| == MEMORY_SIZE && Around(m, q, p, rest, before) && p % 2 == 0
    ensures var a := p + rest[0].size;
            var r := a + rest[1].size;
            && 0 < p && p + 8 <= a && a + 6 <= r && r + 6 <= MEMORY_SIZE && r % 2 == 0
            && WordAt(m, a + 2) == r + 1 && (r + 1) % 2 == 1 && WordAt(m, a) == p
            && WordAt(m, r + 4) == rest[2].owner && WordAt(m, r + 2) == Link(r + rest[2].size, false)
            && WordAt(m, r + 2) % 2 == 0
            && (rest[2].IsFree() ==> r + rest[2].size + 2 <= MEMORY_SIZE && rest[2].size >= 8)
  {
    StoredThree(m, p, rest);
    TaggedThree(m, p, rest, before);
    ThreeBlocks(p, rest);
    EvenSum(p, rest[0].size);
    EvenSum(p + rest[0].size, rest[1].size);
    OddWord(p + rest[0].size + rest[1].size);
    EvenSum(p + rest[0].size + rest[1].size, rest[2].size);
    var r := p + rest[0].size + rest[1].size;
    if rest[2].IsFree() {
      FirstBlock(r + rest[2].size, rest[3..]);
      TilesExtent(r + rest[2].size + rest[3].size, rest[3..][1..]);
    }
    TilesExtent(r + rest[2].size, rest[3..]);
  }

  /** The whole heap after a release. */
  lemma ReleaseEnds(m: seq<byte>, m': seq<byte>, f: int, p: int, done: seq<Block>, q: int, blocks: seq<Block>)
    requires |m| == |m'| == MEMORY_SIZE && 0 <= f && f + 2 <= p && Extent(done) >= 0
    requires Stored(m, p, done) && LinkedTo(m, f, p, done, q) && Tagged(m, p, done, 0)
    requires forall a :: 0 <= a < p + Extent(done) && a < MEMORY_SIZE ==> m'[a] == m[a]
    requires Released(m', q, p + Extent(done), blocks, LastHeader(p, done, 0))
    ensures Stored(m', p, done + blocks) && Linked(m', f, p, done + blocks) && Tagged(m', p, done + blocks, 0)
  {
    LinkWrite(m, m', f, p, done, q);
    TaggedSame(m, m', p, done, 0);
    StoredJoin(m', p, done, blocks);
    LinkedJoin(m', f, p, done, q, blocks);
    TaggedParts(m', p, done, blocks, 0);
  }

  /** How far the writes of a release reach. */
  function WriteEnd(p: int, rest: seq<Block>): (r: int)
    requires |rest| >= 3
  {
    var r := p + rest[0].size + rest[1].size;
    if rest[2].IsFree() then r + rest[2].size + 2 else r + 4
  }

  /** No byte of the area of a block that stays owned is written by a release. */
  lemma ReleaseKeepsAreas(m: seq<byte>, m': seq<byte>, p: int, done: seq<Block>, rest: seq<Block>)
    requires |m| == |m'| == MEMORY_SIZE && Stored(m, p, done) && Extent(done) >= 0
    requires var g := p + Extent(done);
             && Tiles(g, rest) && |rest| >= 3 && rest[0].IsFree()
             && SameElsewhere(m, m', g + 2, WriteEnd(g, rest))
    ensures SameAreas(m, m', p, done + Coalesced(rest))
  {
    var all, g := done + Coalesced(rest), p + Extent(done);
    forall k, x | !OwnedAt(p, all, k).IsFree() && InArea(k, OwnedAt(p, all, k), x) && 0 <= x < MEMORY_SIZE
      ensures m'[x] == m[x]
    {
      forall i | 0 <= i < |done| ensures done[i].size > 0 {
        StoredSizes(m, p, done, i);
      }
      OwnedInParts(p, done, Coalesced(rest), k);
      if OwnedAt(p, done, k) == OwnedAt(p, all, k) {
        OwnedInside(m, p, done, k);
      } else {
        OwnedBehind(g, rest, k);
      }
    }
  }

  lemma {:induction false} OwnedInside(m: seq<byte>, p: int, done: seq<Block>, k: int)
    requires |m| == MEMORY_SIZE && Stored(m, p, done) && !OwnedAt(p, done, k).IsFree()
    ensures k + OwnedAt(p, done, k).size <= p + Extent(done)
    decreases done
  {
    StoredExtent(m, p + done[0].size, done[1..]);
    if k != p {
      OwnedInside(m, p + done[0].size, done[1..], k);
    }
  }

  /** Owned blocks of the coalesced row begin behind the two that became one. */
  lemma OwnedBehind(p: int, rest: seq<Block>, k: int)
    requires Tiles(p, rest) && |rest| >= 3 && rest[0].IsFree()
    requires !OwnedAt(p, Coalesced(rest), k).IsFree()
    ensures var r := p + rest[0].size + rest[1].size;
            k >= if rest[2].IsFree() then r + rest[2].size else r
  {
    var c, tail := rest[2], rest[3..];
    var all := Coalesced(rest);
    ThreeBlocks(p, rest);
    OwnedBounds(p + rest[0].size + rest[1].size + c.size, tail, k);
    if c.IsFree() {
      assert all[1..] == tail;
    } else {
      assert all[1..][0] == c.(flag := true) && all[1..][1..] == tail;
    }
  }

  lemma ThreeCoalesced(m: seq<byte>, m': seq<byte>, q: int, p: int, rest: seq<Block>, before: int)
    requires |m| == |m'| == MEMORY_SIZE && Around(m, q, p, rest, before) && rest[2].IsFree()
    requires var r := p + rest[0].size + rest[1].size;
             var next := r + rest[2].size;
             p >= 0 && p + 8 <= r && r + 8 <= next && next + 2 <= MEMORY_SIZE && JoinedThree(m, m', p, r, next)
    ensures Released(m', q, p, Coalesced(rest), before)
  {
    var r := p + rest[0].size + rest[1].size;
    AroundMeans(m, q, p, rest, before);
    ThreeReleased(m, m', q, p, rest[0], rest[1], rest[2], rest[3..], before, r, r + rest[2].size);
  }

  lemma TwoCoalesced(m: seq<byte>, m': seq<byte>, q: int, p: int, rest: seq<Block>, before: int)
    requires |m| == |m'| == MEMORY_SIZE && Around(m, q, p, rest, before) && !rest[2].IsFree()
    requires var r := p + rest[0].size + rest[1].size;
             p >= 0 && p + 8 <= r && r + 4 <= MEMORY_SIZE && JoinedTwo(m, m', p, r)
    ensures Released(m', q, p, Coalesced(rest), before)
  {
    var r := p + rest[0].size + rest[1].size;
    AroundMeans(m, q, p, rest, before);
    TwoReleased(m, m', q, p, rest[0], rest[1], rest[2], rest[3..], before, r);
    CoalescedTwo(rest);
  }

  lemma CoalescedTwo(rest: seq<Block>)
    requires |rest| >= 3 && !rest[2].IsFree()
    ensures Coalesced(rest)
         == [Block(FREE, rest[0].size + rest[1].size, rest[0].flag)] + ([rest[2].(flag := true)] + rest[3..])
  {
  }

  lemma JoinsWriteLittle(m: seq<byte>, m': seq<byte>, p: int, rest: seq<Block>)
    requires |m| == |m'| == MEMORY_SIZE && |rest| >= 3 && p >= 0
    requires var r := p + rest[0].size + rest[1].size;
             if rest[2].IsFree() then
               var next := r + rest[2].size;
               p + 8 <= r && r + 8 <= next && next + 2 <= MEMORY_SIZE && JoinedThree(m, m', p, r, next)
             else
               p + 8 <= r && r + 4 <= MEMORY_SIZE && JoinedTwo(m, m', p, r)
    ensures SameElsewhere(m, m', p + 2, WriteEnd(p, rest))
  {
  }

  // ---------------------------------------------------------------- in place

  /** A difference of 16-bit numbers. */
  function Minus(a: word, b: word): (r: word) { if a >= b then a - b else a - b + 0x10000 }

  function RoundedUp(size: word): (n: int)
    requires 1 <= size <= 0xfffe
    ensures n % 2 == 0 && size <= n <= size + 1
  {
    if size % 2 == 0 then size else size + 1
  }

  /** `size` bytes at `addr` are in the area of one new block and in no other one. */
  ghost predicate Granted(p: int, before: seq<Block>, after: seq<Block>, addr: int, size: int) {
    && OwnedAt(p, after, addr - 6).owner == BEAMED && OwnedAt(p, after, addr - 6).size >= size + 4
    && (forall k, x :: addr <= x < addr + size && !OwnedAt(p, before, k).IsFree() ==>
          !InArea(k, OwnedAt(p, before, k), x))
  }

  lemma GrantedArea(p: int, before: seq<Block>, n: int, size: int)
    requires Tiles(p, before) && n % 2 == 0 && n >= 2 && size <= n && p > 0
    requires BiboHeap.Malloc(p, before, n).addr != 0
    ensures var o := BiboHeap.Malloc(p, before, n); Granted(p, before, o.blocks, o.addr, size)
  {
    var o := BiboHeap.Malloc(p, before, n);
    MallocKeepsOwned(p, before, n, o.addr - 6);
    forall k, x | o.addr <= x < o.addr + size && !OwnedAt(p, before, k).IsFree()
      ensures !InArea(k, OwnedAt(p, before, k), x)
    {
      GrantedAreaIsOwn(p, before, n, k, x);
    }
  }

  class RcxHeap {
    const memory: Memory
    const start: word          // address of the first header, two bytes below mm_start
    const mmFirstFree: word    // address of the head of the free list
    ghost var blocks: seq<Block>

    /** The blocks tile memory from the start to the wrapped top, the last one is
        reserved, and the free list runs through the free ones. */
    ghost predicate Valid()
      reads this, memory, memory.bytes
    {
      var sound :=
        && memory.Valid() && |memory.image| == MEMORY_SIZE
        && mmFirstFree + 2 <= start && start % 2 == 0
        && Tiles(start, blocks) && Stored(memory.image, start, blocks)
        && Linked(memory.image, mmFirstFree, start, blocks);
      sound
    }

    /** Adopts a memory in which the firmware has laid out the heap. */
    constructor (memory: Memory, start: word, mmFirstFree: word, ghost blocks: seq<Block>)
      requires memory.Valid() && |memory.image| == MEMORY_SIZE && mmFirstFree + 2 <= start && start % 2 == 0
      requires Tiles(start, blocks) && Stored(memory.image, start, blocks)
      requires Linked(memory.image, mmFirstFree, start, blocks)
      ensures this.memory == memory && this.start == start && this.mmFirstFree == mmFirstFree
      ensures this.blocks == blocks && Valid()
    {
      this.memory, this.start, this.mmFirstFree, this.blocks := memory, start, mmFirstFree, blocks;
    }

    /** Marks the free block at `ptr` taken and splits off what is left over. */
    method CutAt(ptr: word, blocksize: word, n: int, ghost b: Block) returns (next: word)
      requires memory.Valid() && |memory.image| == MEMORY_SIZE
      requires 0 < ptr && ptr + blocksize + 2 <= MEMORY_SIZE && b.size == blocksize && blocksize >= 8
      requires 2 <= n && n + 4 <= blocksize
      modifies memory, memory.bytes
      ensures memory.Valid() && |memory.image| == MEMORY_SIZE
      ensures CutUp(old(memory.image), memory.image, ptr, b, n, next)
    {
      memory.WriteWord(ptr + 4, BEAMED);
      if blocksize >= n + 12 {
        next := SplitAt(ptr, blocksize, n);
      } else {
        next := memory.ReadWord(ptr + 6);
      }
    }

    method SplitAt(ptr: word, blocksize: word, n: int) returns (next: word)
      requires memory.Valid() && |memory.image| == MEMORY_SIZE
      requires 0 < ptr && ptr + blocksize + 2 <= MEMORY_SIZE && 2 <= n && n + 12 <= blocksize
      modifies memory, memory.bytes
      ensures memory.Valid() && |memory.image| == MEMORY_SIZE
      ensures SameElsewhere(old(memory.image), memory.image, ptr + 2, ptr + blocksize + 2)
      ensures WordAt(memory.image, ptr + 4) == old(WordAt(memory.image, ptr + 4))
      ensures next == ptr + n + 4 && WordAt(memory.image, ptr + 2) == next
      ensures WordAt(memory.image, next + 2) == ptr + blocksize && WordAt(memory.image, next + 4) == FREE
      ensures WordAt(memory.image, next + 6) == old(WordAt(memory.image, ptr + 6))
    {
      next := ptr + n + 4;
      memory.WriteWord(ptr + n + 4 + 4, FREE);
      memory.WriteWord(ptr + n + 4 + 2, ptr + blocksize);
      memory.WriteWord(ptr + blocksize, next);
      var link := memory.ReadWord(ptr + 6);
      memory.WriteWord(ptr + n + 4 + 6, link);
      memory.WriteWord(ptr + 2, next);
    }

    /** Takes the free block the scan stands at. */
    method TakeAt(ptr: word, pptr: word, blocksize: word, n: int,
                  ghost done: seq<Block>, ghost rest: seq<Block>, ghost goal: Outcome)
      requires Valid() && n % 2 == 0 && n >= 2
      requires Scanning(memory.image, mmFirstFree, start, done, pptr, ptr, rest, n, goal)
      requires rest != [] && rest[0].IsFree() && rest[0].size == blocksize >= n + 4
      requires blocks == done + rest && goal == BiboHeap.Malloc(start, blocks, n)
      modifies this`blocks, memory, memory.bytes
      ensures Valid() && Outcome(ptr + 6, blocks) == goal
      ensures SameAreas(old(memory.image), memory.image, start, old(blocks))
    {
      ghost var m := memory.image;
      FreeIsNotLast(ptr, rest);
      var next := CutAt(ptr, blocksize, n, rest[0]);
      ghost var m1 := memory.image;
      memory.WriteWord(pptr, next);
      GoalReached(m, mmFirstFree, start, done, pptr, ptr, rest, n, goal);
      TakenStored(m, m1, memory.image, mmFirstFree, start, done, pptr, ptr, rest, n, goal, next);
      TakenLinked(m, m1, memory.image, mmFirstFree, start, done, pptr, ptr, rest, n, goal, next);
      AllAreasKept(m, m1, memory.image, mmFirstFree, start, done, pptr, ptr, rest, n, goal, next);
      MallocTiles(start, blocks, n);
      blocks := goal.blocks;
    }

    /** The scan of the free list for n bytes. */
    method Scan(n: int) returns (addr: word)
      requires Valid() && n % 2 == 0 && n >= 2
      modifies this`blocks, memory, memory.bytes
      ensures Valid() && Outcome(addr, blocks) == BiboHeap.Malloc(start, old(blocks), n)
      ensures SameAreas(old(memory.image), memory.image, start, old(blocks))
    {
      var pptr := mmFirstFree;
      ghost var goal := BiboHeap.Malloc(start, blocks, n);
      ghost var done, pos: int, rest := [], start, blocks;
      ScanBegins(memory.image, mmFirstFree, start, blocks, n);
      var ptr := memory.ReadWord(pptr);
      while ptr != 0
        invariant Valid() && memory.image == old(memory.image) && blocks == old(blocks) == done + rest
        invariant Scanning(memory.image, mmFirstFree, start, done, pptr, pos, rest, n, goal)
        invariant ptr == WordAt(memory.image, pptr)
        decreases |rest|
      {
        ghost var d, r := ScanFinds(memory.image, mmFirstFree, start, done, pptr, pos, rest, n, goal);
        var blocksize := FreeSize(ptr, d, r, pptr, n, goal);
        if blocksize >= n + 4 {
          TakeAt(ptr, pptr, blocksize, n, d, r, goal);
          return ptr + 6;
        }
        ScanPasses(memory.image, mmFirstFree, start, d, pptr, ptr, r, n, goal);
        Onward(d, r);
        done, pos, rest := d + [r[0]], ptr + r[0].size, r[1..];
        pptr := ptr + 6;
        ptr := memory.ReadWord(pptr);
      }
      ScanEnds(memory.image, pptr, pos, rest, n);
      addr := 0;
    }

    /** First fit along the free list: the blocks are those of the value model, the list
        again runs through exactly the free ones in ascending order, the granted area is
        apart from every other one, and no byte of another area changes. */
    method Malloc(size: word) returns (addr: word)
      requires Valid() && 1 <= size <= 0xfffe
      modifies this`blocks, memory, memory.bytes
      ensures Valid() && Outcome(addr, blocks) == BiboHeap.Malloc(start, old(blocks), RoundedUp(size))
      ensures Follows(memory.image, mmFirstFree, FreeAddresses(start, blocks))
      ensures addr != 0 ==> Granted(start, old(blocks), blocks, addr, size)
      ensures SameAreas(old(memory.image), memory.image, start, old(blocks))
    {
      addr := Scan(RoundedUp(size));
      LinkedIsFreeList(memory.image, mmFirstFree, start, blocks);
      if addr != 0 {
        GrantedArea(start, old(blocks), RoundedUp(size), size);
      }
    }

    /** The length of the free block at `ptr`, read off its link. */
    method FreeSize(ptr: word, ghost done: seq<Block>, ghost rest: seq<Block>, pptr: word, n: int, ghost goal: Outcome)
      returns (blocksize: word)
      requires Valid() && Scanning(memory.image, mmFirstFree, start, done, pptr, ptr, rest, n, goal)
      requires rest != [] && rest[0].IsFree()
      ensures blocksize == rest[0].size && ptr + 8 <= MEMORY_SIZE
    {
      FreeIsNotLast(ptr, rest);
      var next := memory.ReadWord(ptr + 2);
      blocksize := Minus(next, ptr);
    }

    /** Joins the free block at `prev`, the one behind it and the free one at `next`,
        which leaves the free list. */
    method JoinThree(prev: word, next: word)
      requires memory.Valid() && |memory.image| == MEMORY_SIZE && prev + 8 <= next && next + 8 <= MEMORY_SIZE
      requires var end := WordAt(memory.image, next + 2); next + 8 <= end && end + 2 <= MEMORY_SIZE
      modifies memory, memory.bytes
      ensures memory.Valid() && |memory.image| == MEMORY_SIZE
      ensures JoinedThree(old(memory.image), memory.image, prev, next, old(WordAt(memory.image, next + 2)))
    {
      var nextnext := memory.ReadWord(next + 2);
      var nextnextfree := memory.ReadWord(next + 6);
      memory.WriteWord(prev + 2, nextnext);
      memory.WriteWord(nextnext, prev);
      memory.WriteWord(prev + 6, nextnextfree);
    }

    /** Joins the free block at `prev` and the one behind it, and marks the next one. */
    method JoinTwo(prev: word, next: word)
      requires memory.Valid() && |memory.image| == MEMORY_SIZE && prev + 8 <= next && next + 4 <= MEMORY_SIZE
      requires WordAt(memory.image, next + 2) % 2 == 0
      modifies memory, memory.bytes
      ensures memory.Valid() && |memory.image| == MEMORY_SIZE
      ensures JoinedTwo(old(memory.image), memory.image, prev, next)
    {
      var nextnext := memory.ReadWord(next + 2);
      memory.WriteWord(next + 2, nextnext + 1);
      memory.WriteWord(prev + 2, next);
      memory.WriteWord(next, prev);
    }

    ghost predicate FullyTagged()
      reads this, memory, memory.bytes
    {
      |memory.image| == MEMORY_SIZE && Marked(blocks, false) && Tagged(memory.image, start, blocks, 0)
    }

    /** Frees a block whose header marks the one before it free: from a fully tagged
        heap the free list, the marks and the tags are again all right, so no two free
        blocks are adjacent; no byte of another area changes. */
    method Free(addr: word)
      requires Valid() && FullyTagged()
      requires addr != 0 ==>
                 var b := OwnedAt(start, blocks, addr - 6); !b.IsFree() && b.flag && addr - 6 + b.size < MEMORY_SIZE
      modifies this`blocks, memory, memory.bytes
      ensures Valid() && FullyTagged()
      ensures if addr == 0 then blocks == old(blocks)
              else AfterFree(start, old(blocks), addr - 6) && blocks == BiboHeap.Free(start, old(blocks), addr - 6)
      ensures Follows(memory.image, mmFirstFree, FreeAddresses(start, blocks))
      ensures SameAreas(old(memory.image), memory.image, start, blocks)
    {
      if addr == 0 {
        LinkedIsFreeList(memory.image, mmFirstFree, start, blocks);
        return;
      }
      MarkMeansAfterFree(start, blocks, addr - 6, false);
      FreeKeepsMarked(start, blocks, addr - 6, false);
      ghost var done, rest, q := ReleaseBegins(memory.image, mmFirstFree, start, blocks, addr - 6);
      FreeBehind(addr - 6, done, rest, q);
      blocks := done + Coalesced(rest);
      LinkedIsFreeList(memory.image, mmFirstFree, start, blocks);
    }

    /** The three blocks around `a` in memory, once the middle one is freed. */
    method Coalesce(a: int, ghost q: int, ghost g: int, ghost rest: seq<Block>, ghost before: int)
      requires memory.Valid() && |memory.image| == MEMORY_SIZE && Around(memory.image, q, g, rest, before)
      requires g % 2 == 0 && a == g + rest[0].size
      modifies memory, memory.bytes
      ensures memory.Valid() && |memory.image| == MEMORY_SIZE && |rest| >= 3
      ensures Released(memory.image, q, g, Coalesced(rest), before)
      ensures SameElsewhere(old(memory.image), memory.image, g + 2, WriteEnd(g, rest))
    {
      ghost var m := memory.image;
      ReleaseReads(m, q, g, rest, before);
      var next := memory.ReadWord(a + 2);
      next := Unmarked(next);
      var prev := memory.ReadWord(a);
      var owner := memory.ReadWord(next + 4);
      if owner == 0 {
        JoinThree(prev, next);
        ThreeCoalesced(m, memory.image, q, g, rest, before);
        JoinsWriteLittle(m, memory.image, g, rest);
      } else {
        JoinTwo(prev, next);
        TwoCoalesced(m, memory.image, q, g, rest, before);
        JoinsWriteLittle(m, memory.image, g, rest);
      }
    }

    method FreeBehind(a: int, ghost done: seq<Block>, ghost rest: seq<Block>, ghost q: int)
      requires memory.Valid() && |memory.image| == MEMORY_SIZE && mmFirstFree + 2 <= start && Extent(done) >= 0
      requires Stored(memory.image, start, done) && LinkedTo(memory.image, mmFirstFree, start, done, q)
      requires Tagged(memory.image, start, done, 0) && (start + Extent(done)) % 2 == 0
      requires Around(memory.image, q, start + Extent(done), rest, LastHeader(start, done, 0))
      requires a == start + Extent(done) + rest[0].size
      modifies memory, memory.bytes
      ensures memory.Valid() && |memory.image| == MEMORY_SIZE
      ensures |rest| >= 3 && Stored(memory.image, start, done + Coalesced(rest))
      ensures Linked(memory.image, mmFirstFree, start, done + Coalesced(rest))
      ensures Tagged(memory.image, start, done + Coalesced(rest), 0)
      ensures SameAreas(old(memory.image), memory.image, start, done + Coalesced(rest))
    {
      ghost var m := memory.image;
      Coalesce(a, q, start + Extent(done), rest, LastHeader(start, done, 0));
      ReleaseEnds(m, memory.image, mmFirstFree, start, done, q, Coalesced(rest));
      ReleaseKeepsAreas(m, memory.image, start, done, rest);
    }
  }
}
