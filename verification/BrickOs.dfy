/**
 The brickOS allocator as it runs: loops over 16-bit addresses that rewrite
 header words of the guest memory, proved against the heap as a value.
 */
module BrickOs {
  import opened Words
  import opened BrickOsHeap
  import opened BrickOsHeapLaws

  /** The headers of `blocks` are in memory, one after the other from `p`. */
  ghost predicate Stored(m: seq<byte>, p: int, blocks: seq<Block>)
    requires |m| == MEMORY_SIZE && 0 < p && p + Extent(blocks) <= MEMORY_SIZE
    decreases blocks
  {
    blocks == [] ||
    (&& WordAt(m, p) == blocks[0].owner
     && WordAt(m, p + 2) == blocks[0].len
     && Stored(m, p + blocks[0].Size(), blocks[1..]))
  }

  /** Header and data bytes of the given blocks are the same. */
  ghost predicate SameBytes(m: seq<byte>, m': seq<byte>, owned: map<int, Block>)
    requires |m| == |m'| == MEMORY_SIZE
  {
    forall k, a :: k in owned && k <= a < k + owned[k].Size() && 0 <= a < MEMORY_SIZE ==> m'[a] == m[a]
  }

  /** Below the heap, at most the cached word at `f` differs. */
  ghost predicate SameLow(m: seq<byte>, m': seq<byte>, start: int, f: int)
    requires |m| == |m'| == MEMORY_SIZE
  {
    forall a :: 0 <= a < start && a < MEMORY_SIZE && a != f && a != f + 1 ==> m'[a] == m[a]
  }

  lemma BytesOfSome(m: seq<byte>, m': seq<byte>, owned: map<int, Block>, kept: map<int, Block>)
    requires |m| == |m'| == MEMORY_SIZE && SameBytes(m, m', owned)
    requires forall k :: k in kept ==> k in owned && owned[k] == kept[k]
    ensures SameBytes(m, m', kept)
  {
  }

  lemma SameBytesTransitive(m: seq<byte>, m1: seq<byte>, m2: seq<byte>, kept: map<int, Block>)
    requires |m| == |m1| == |m2| == MEMORY_SIZE && SameBytes(m, m1, kept) && SameBytes(m1, m2, kept)
    ensures SameBytes(m, m2, kept)
  {
  }

  lemma {:induction false} StoredFrame(m: seq<byte>, m': seq<byte>, p: int, blocks: seq<Block>)
    requires |m| == |m'| == MEMORY_SIZE && 0 < p && p + Extent(blocks) <= MEMORY_SIZE
    requires forall a :: p <= a < p + Extent(blocks) ==> m[a] == m'[a]
    requires Stored(m, p, blocks)
    ensures Stored(m', p, blocks)
    decreases blocks
  {
    if blocks != [] {
      StoredFrame(m, m', p + blocks[0].Size(), blocks[1..]);
    }
  }

  lemma {:induction false} StoredSnoc(m: seq<byte>, p: int, done: seq<Block>, b: Block)
    requires |m| == MEMORY_SIZE && 0 < p && p + Extent(done) + b.Size() <= MEMORY_SIZE
    requires Stored(m, p, done)
    requires WordAt(m, p + Extent(done)) == b.owner && WordAt(m, p + Extent(done) + 2) == b.len
    ensures Extent(done + [b]) == Extent(done) + b.Size()
    ensures Stored(m, p, done + [b])
    decreases done
  {
    if done == [] {
      assert (done + [b])[1..] == [];
    } else {
      assert (done + [b])[1..] == done[1..] + [b];
      StoredSnoc(m, p + done[0].Size(), done[1..], b);
    }
  }

  lemma {:induction false} StoredConcat(m: seq<byte>, p: int, a: seq<Block>, b: seq<Block>)
    requires |m| == MEMORY_SIZE && 0 < p && p + Extent(a) + Extent(b) <= MEMORY_SIZE
    requires Stored(m, p, a) && Stored(m, p + Extent(a), b)
    ensures Extent(a + b) == Extent(a) + Extent(b)
    ensures Stored(m, p, a + b)
    decreases a
  {
    if a == [] {
      assert a + b == b;
    } else {
      assert (a + b)[1..] == a[1..] + b;
      StoredConcat(m, p + a[0].Size(), a[1..], b);
    }
  }

  /** `m'` differs from `m` at most in the words at `a` and `b`. */
  ghost predicate SameBut(m: seq<byte>, m': seq<byte>, a: int, b: int)
    requires |m| == |m'|
  {
    forall i :: 0 <= i < |m| && i != a && i != a + 1 && i != b && i != b + 1 ==> m'[i] == m[i]
  }

  /** The 16-bit address of a place in the heap: its top wraps to 0. */
  function Wrapped(q: int): (r: int) {
    if q == MEMORY_SIZE then 0 else q
  }

  /** The address behind a block of `len` words at `ptr`, in 16-bit arithmetic. */
  function Next(ptr: word, len: word): (nptr: word)
    ensures ptr + 4 + 2 * len <= MEMORY_SIZE ==> nptr == Wrapped(ptr + 4 + 2 * len)
  {
    (ptr + 4 + 2 * len) % MEMORY_SIZE
  }

  /** Reading the owner word where a walk stands: zero exactly at a free block. */
  lemma AtNext(m: seq<byte>, q: int, rest: seq<Block>)
    requires |m| == MEMORY_SIZE && WordAt(m, 0) != 0
    requires Fits(q, rest) && Stored(m, q, rest)
    ensures Wrapped(q) == if rest == [] then 0 else q
    ensures WordAt(m, Wrapped(q)) == 0 <==> rest != [] && rest[0].IsFree()
    ensures rest != [] ==> q + rest[0].Size() <= MEMORY_SIZE && WordAt(m, q + 2) == rest[0].len
  {
  }

  /** The free block at `p` has length `len` so far, and `rest` follows it. */
  ghost predicate Merging(m: seq<byte>, p: int, len: nat, rest: seq<Block>)
    requires |m| == MEMORY_SIZE && 0 < p
  {
    && WordAt(m, 0) != 0
    && p + 4 + 2 * len + Extent(rest) == MEMORY_SIZE
    && WordAt(m, p + 2) == len
    && Stored(m, p + 4 + 2 * len, rest)
  }

  /** What one merge leaves: the cached word moved if it named the absorbed
      block, then the length of the absorbing block at `p` rewritten. */
  lemma MergeStep(m: seq<byte>, m1: seq<byte>, m2: seq<byte>, f: int, p: int, len: nat, rest: seq<Block>,
                  len': nat, rest': seq<Block>)
    requires |m| == MEMORY_SIZE && 2 <= f && f + 1 < p
    requires Merging(m, p, len, rest) && rest != [] && rest[0].IsFree()
    requires if WordAt(m, f) == p + 4 + 2 * len then Wrote(m, m1, f, p) else m1 == m
    requires len' == len + 2 + rest[0].len && rest' == rest[1..] && Wrote(m1, m2, p + 2, len')
    ensures SameBut(m, m2, f, p + 2)
    ensures Merging(m2, p, len', rest')
    ensures Absorb(p, len', rest', WordAt(m2, f)) == Absorb(p, len, rest, WordAt(m, f))
  {
    StoredFrame(m, m2, p + 4 + 2 * len', rest');
  }

  /** Every block of `owned` ends below `pos` or is one of `rest`, which starts there. */
  ghost predicate Ahead(owned: map<int, Block>, pos: int, rest: seq<Block>) {
    forall k :: k in owned ==>
      k + owned[k].Size() <= pos || (OwnedAt(pos, rest, k) == owned[k] && !owned[k].IsFree())
  }

  /** A walk from `start` has passed `done` and stands at `pos` before `rest`;
      since `m0` nothing of the blocks in `owned` has changed. */
  ghost predicate Walk(m0: seq<byte>, m: seq<byte>, start: int, f: int, owned: map<int, Block>,
                       done: seq<Block>, pos: int, rest: seq<Block>)
    requires |m0| == |m| == MEMORY_SIZE
  {
    var standing :=
      && 2 <= f && f + 1 < start && (forall k :: k in owned ==> start <= k)
      && WordAt(m, 0) != 0
      && pos == start + Extent(done) && Fits(pos, rest)
      && Stored(m, start, done) && Stored(m, pos, rest)
      && Ahead(owned, pos, rest)
      && SameBytes(m0, m, owned) && SameLow(m0, m, start, f);
    standing
  }

  lemma PassBlock(m0: seq<byte>, m: seq<byte>, start: int, f: int, owned: map<int, Block>,
                done: seq<Block>, pos: int, rest: seq<Block>)
    requires |m0| == |m| == MEMORY_SIZE
    requires Walk(m0, m, start, f, owned, done, pos, rest) && rest != []
    ensures Walk(m0, m, start, f, owned, done + [rest[0]], pos + rest[0].Size(), rest[1..])
  {
    StoredSnoc(m, start, done, rest[0]);
  }

  /** As Walk, standing at a free block of length `len` that has been merged. */
  ghost predicate AtRun(m0: seq<byte>, m: seq<byte>, start: int, f: int, owned: map<int, Block>,
                        done: seq<Block>, pos: int, len: word, rest: seq<Block>)
    requires |m0| == |m| == MEMORY_SIZE
  {
    var standing :=
      && 2 <= f && f + 1 < start && (forall k :: k in owned ==> start <= k)
      && pos == start + Extent(done)
      && Merging(m, pos, len, rest) && WordAt(m, pos) == FREE
      && Stored(m, start, done)
      && Ahead(owned, pos + 4 + 2 * len, rest)
      && (forall k :: k in owned ==> k + owned[k].Size() <= pos || pos + 4 + 2 * len <= k)
      && SameBytes(m0, m, owned) && SameLow(m0, m, start, f);
    standing
  }

  lemma EnterRun(m0: seq<byte>, m: seq<byte>, start: int, f: int, owned: map<int, Block>,
                 done: seq<Block>, pos: int, rest: seq<Block>)
    requires |m0| == |m| == MEMORY_SIZE
    requires Walk(m0, m, start, f, owned, done, pos, rest) && rest != [] && rest[0].IsFree()
    ensures AtRun(m0, m, start, f, owned, done, pos, rest[0].len, rest[1..])
  {
  }

  lemma MergeKeepsAhead(owned: map<int, Block>, pos: int, len: nat, rest: seq<Block>, ff: int, run: Merged)
    requires 0 < pos && pos + 4 + 2 * len + Extent(rest) == MEMORY_SIZE && run == Absorb(pos, len, rest, ff)
    requires Ahead(owned, pos + 4 + 2 * len, rest)
    requires forall k :: k in owned ==> k + owned[k].Size() <= pos || pos + 4 + 2 * len <= k
    ensures Ahead(owned, pos + 4 + 2 * run.len, run.rest)
    ensures forall k :: k in owned ==> k + owned[k].Size() <= pos || pos + 4 + 2 * run.len <= k
  {
    forall k | k in owned && !(k + owned[k].Size() <= pos)
      ensures OwnedAt(pos + 4 + 2 * run.len, run.rest, k) == owned[k] && pos + 4 + 2 * run.len <= k
    {
      AbsorbKeepsOwned(pos, len, rest, ff, k);
    }
  }

  lemma WritesApart(m0: seq<byte>, m: seq<byte>, m': seq<byte>, owned: map<int, Block>, a: int, b: int)
    requires |m0| == |m| == |m'| == MEMORY_SIZE && SameBytes(m0, m, owned) && SameBut(m, m', a, b)
    requires forall k :: k in owned ==> a + 2 <= k && (k + owned[k].Size() <= b || b + 2 <= k)
    ensures SameBytes(m0, m', owned)
  {
  }

  /** Merging behind a block keeps it at a run. */
  lemma MergeAtRun(m0: seq<byte>, m: seq<byte>, m': seq<byte>, start: int, f: int, owned: map<int, Block>,
                   done: seq<Block>, pos: int, len: word, rest: seq<Block>, len': word, rest': seq<Block>)
    requires |m0| == |m| == |m'| == MEMORY_SIZE
    requires AtRun(m0, m, start, f, owned, done, pos, len, rest)
    requires SameBut(m, m', f, pos + 2) && Merging(m', pos, len', rest')
    requires Absorb(pos, len, rest, WordAt(m, f)) == Merged(len', rest', WordAt(m', f))
    ensures AtRun(m0, m', start, f, owned, done, pos, len', rest')
  {
    assert SameBytes(m0, m', owned) && SameLow(m0, m', start, f) by {
      WritesApart(m0, m, m', owned, f, pos + 2);
    }
    assert Stored(m', start, done) by {
      StoredFrame(m, m', start, done);
    }
    MergeKeepsAhead(owned, pos, len, rest, WordAt(m, f), Merged(len', rest', WordAt(m', f)));
  }

  lemma PassRun(m0: seq<byte>, m: seq<byte>, start: int, f: int, owned: map<int, Block>,
                done: seq<Block>, pos: int, len: word, rest: seq<Block>)
    requires |m0| == |m| == MEMORY_SIZE
    requires AtRun(m0, m, start, f, owned, done, pos, len, rest)
    ensures Walk(m0, m, start, f, owned, done + [Block(FREE, len)], pos + 4 + 2 * len, rest)
  {
    StoredSnoc(m, start, done, Block(FREE, len));
  }

  /** `m'` differs from `m` at most in [lo, hi) and in the word at `f`. */
  ghost predicate SameOutside(m: seq<byte>, m': seq<byte>, f: int, lo: int, hi: int)
    requires |m| == |m'|
  {
    forall i :: 0 <= i < |m| && !(lo <= i < hi) && i != f && i != f + 1 ==> m'[i] == m[i]
  }

  /** The pieces an allocation cuts a free run of `len` words into. */
  function Remainder(len: nat, n: nat, rest: seq<Block>): (r: seq<Block>)
    requires n < len && len < 0x8000
    ensures var taken := if len > n + 8 then n else len;
            4 + 2 * taken + Extent(r) == 4 + 2 * len + Extent(rest)
  {
    if len > n + 8 then Push(Block(FREE, len - n - 2), Heap(rest, 0)).blocks else rest
  }

  lemma CutRun(m: seq<byte>, m1: seq<byte>, m2: seq<byte>, m3: seq<byte>, p: int, len: nat, n: nat, rest: seq<Block>)
    requires |m| == MEMORY_SIZE && 0 < p && Merging(m, p, len, rest) && n + 8 < len
    requires Wrote(m, m1, p + 2, n) && Wrote(m1, m2, p + 4 + 2 * n, FREE)
    requires Wrote(m2, m3, p + 4 + 2 * n + 2, len - n - 2)
    ensures SameOutside(m, m3, p, p, p + 4 + 2 * len) && WordAt(m3, p) == WordAt(m, p)
    ensures WordAt(m3, 0) == WordAt(m, 0) && WordAt(m3, p + 2) == n
    ensures Stored(m3, p + 4 + 2 * n, Remainder(len, n, rest))
  {
    StoredFrame(m, m3, p + 4 + 2 * len, rest);
  }

  lemma MarkTaken(m: seq<byte>, m': seq<byte>, p: int, taken: nat, len: nat, rest: seq<Block>)
    requires |m| == MEMORY_SIZE && 2 <= p && taken <= len && Wrote(m, m', p, BEAMED)
    requires p + 4 + 2 * taken + Extent(rest) <= MEMORY_SIZE && Stored(m, p + 4 + 2 * taken, rest)
    ensures Stored(m', p + 4 + 2 * taken, rest) && WordAt(m', p + 2) == WordAt(m, p + 2)
    ensures WordAt(m', 0) == WordAt(m, 0)
    ensures SameOutside(m, m', p, p, p + 4 + 2 * len)
  {
    StoredFrame(m, m', p + 4 + 2 * taken, rest);
  }

  lemma TakeStored(m: seq<byte>, p: int, run: Merged, n: nat)
    requires |m| == MEMORY_SIZE && 0 < p && n < run.len
    requires p + 4 + 2 * run.len + Extent(run.rest) == MEMORY_SIZE
    requires var taken := if run.len > n + 8 then n else run.len;
             && WordAt(m, p) == BEAMED && WordAt(m, p + 2) == taken
             && Stored(m, p + 4 + 2 * taken, Remainder(run.len, n, run.rest))
    ensures var h := Take(p, run, n).heap;
            var q := p + 4 + 2 * if run.len > n + 8 then n else run.len;
            && Stored(m, p, h.blocks)
            && h.firstFree == if run.firstFree == p then NextFree(q, Remainder(run.len, n, run.rest)) else run.firstFree
  {
  }

  /** What remains of an allocation that has passed `done` without success. */
  ghost predicate Resumes(done: seq<Block>, pos: int, rest: seq<Block>, ff: int, n: nat, goal: Outcome)
    requires Fits(pos, rest)
  {
    var o := Malloc(pos, rest, ff, n);
    goal == Outcome(o.addr, Heap(done + o.heap.blocks, o.heap.firstFree))
  }

  /** Where a walk begins and what it has found when it reaches the top. */
  lemma WalkBegins(m: seq<byte>, start: int, f: int, blocks: seq<Block>, n: nat)
    requires |m| == MEMORY_SIZE && 2 <= f && f + 1 < start && WordAt(m, 0) != 0
    requires Fits(start, blocks) && Stored(m, start, blocks)
    ensures Walk(m, m, start, f, Owned(start, blocks), [], start, blocks)
    ensures Resumes([], start, blocks, WordAt(m, f), n, Malloc(start, blocks, WordAt(m, f), n))
  {
    var goal := Malloc(start, blocks, WordAt(m, f), n);
    assert [] + goal.heap.blocks == goal.heap.blocks;
  }

  lemma WalkEnds(done: seq<Block>, ff: int, n: nat, goal: Outcome)
    requires Resumes(done, MEMORY_SIZE, [], ff, n, goal)
    ensures goal == Outcome(0, Heap(done, ff))
  {
    assert done + [] == done;
  }

  lemma ResumesPast(done: seq<Block>, pos: int, rest: seq<Block>, ff: int, n: nat, goal: Outcome)
    requires Fits(pos, rest) && rest != [] && !rest[0].IsFree()
    requires Resumes(done, pos, rest, ff, n, goal)
    ensures Resumes(done + [rest[0]], pos + rest[0].Size(), rest[1..], ff, n, goal)
  {
    assert rest == Push(rest[0], Heap(rest[1..], 0)).blocks;
    MallocPastOwned(pos, rest[0], Heap(rest[1..], 0), ff, n);
    PushedBehind(done, rest[0], Malloc(pos + rest[0].Size(), rest[1..], ff, n).heap);
  }

  lemma PushedBehind(done: seq<Block>, b: Block, h: Heap)
    ensures done + Push(b, h).blocks == (done + [b]) + h.blocks
  {
    assert Push(b, h).blocks == [b] + h.blocks;
  }

  /** An allocation walk at a block, with what remains of it. */
  ghost predicate Searching(m0: seq<byte>, m: seq<byte>, start: int, f: int, owned: map<int, Block>,
                            done: seq<Block>, pos: int, rest: seq<Block>, n: nat, goal: Outcome)
    requires |m0| == |m| == MEMORY_SIZE
  {
    var searching :=
      Walk(m0, m, start, f, owned, done, pos, rest) && Resumes(done, pos, rest, WordAt(m, f), n, goal);
    searching
  }

  lemma PassOwned(m0: seq<byte>, m: seq<byte>, start: int, f: int, owned: map<int, Block>,
                  done: seq<Block>, pos: int, rest: seq<Block>, n: nat, goal: Outcome)
    requires |m0| == |m| == MEMORY_SIZE
    requires Searching(m0, m, start, f, owned, done, pos, rest, n, goal) && rest != [] && !rest[0].IsFree()
    ensures rest[0].len == WordAt(m, pos + 2)
    ensures Searching(m0, m, start, f, owned, done + [rest[0]], pos + rest[0].Size(), rest[1..], n, goal)
  {
    PassBlock(m0, m, start, f, owned, done, pos, rest);
    ResumesPast(done, pos, rest, WordAt(m, f), n, goal);
  }

  lemma ResumesPastRun(done: seq<Block>, pos: int, rest: seq<Block>, ff: int, n: nat, goal: Outcome, run: Merged)
    requires Fits(pos, rest) && rest != [] && rest[0].IsFree()
    requires run == Absorb(pos, rest[0].len, rest[1..], ff) && run.len <= n
    requires Resumes(done, pos, rest, ff, n, goal)
    ensures Resumes(done + [Block(FREE, run.len)], pos + 4 + 2 * run.len, run.rest, run.firstFree, n, goal)
  {
    var q := pos + 4 + 2 * run.len;
    var o := Malloc(q, run.rest, run.firstFree, n);
    MallocPastRun(pos, rest, ff, run, n, q, o);
    PushedBehind(done, Block(FREE, run.len), o.heap);
  }

  lemma ResumesAtRun(done: seq<Block>, pos: int, rest: seq<Block>, ff: int, n: nat, goal: Outcome, run: Merged)
    requires Fits(pos, rest) && rest != [] && rest[0].IsFree()
    requires run == Absorb(pos, rest[0].len, rest[1..], ff) && n < run.len
    requires Resumes(done, pos, rest, ff, n, goal)
    ensures var o := Take(pos, run, n); goal == Outcome(o.addr, Heap(done + o.heap.blocks, o.heap.firstFree))
  {
  }

  /** The blocks stored over a run complete the heap again. */
  lemma FillRun(m0: seq<byte>, m: seq<byte>, m': seq<byte>, start: int, f: int, owned: map<int, Block>,
                done: seq<Block>, pos: int, len: word, rest: seq<Block>, blocks: seq<Block>)
    requires |m0| == |m| == |m'| == MEMORY_SIZE
    requires AtRun(m0, m, start, f, owned, done, pos, len, rest)
    requires SameOutside(m, m', f, pos, pos + 4 + 2 * len)
    requires Fits(pos, blocks) && Stored(m', pos, blocks)
    ensures WordAt(m', 0) != 0 && Fits(start, done + blocks) && Stored(m', start, done + blocks)
    ensures SameBytes(m0, m', owned) && SameLow(m0, m', start, f)
  {
    StoredFrame(m, m', start, done);
    StoredConcat(m', start, done, blocks);
  }

  /** What remains of a release that has passed `done` without meeting `addr`. */
  ghost predicate ResumesFree(done: seq<Block>, pos: int, rest: seq<Block>, ff: int, addr: int, goal: Heap)
    requires Fits(pos, rest)
  {
    var h := Free(pos, rest, ff, addr);
    goal == Heap(done + h.blocks, h.firstFree)
  }

  lemma ReleaseBegins(m: seq<byte>, start: int, f: int, blocks: seq<Block>, addr: int)
    requires |m| == MEMORY_SIZE && 2 <= f && f + 1 < start && WordAt(m, 0) != 0
    requires Fits(start, blocks) && Stored(m, start, blocks)
    ensures Walk(m, m, start, f, Owned(start, blocks) - {addr - 4}, [], start, blocks)
    ensures ResumesFree([], start, blocks, WordAt(m, f), addr, Free(start, blocks, WordAt(m, f), addr))
  {
    var goal := Free(start, blocks, WordAt(m, f), addr);
    assert [] + goal.blocks == goal.blocks;
  }

  lemma ReleaseEnds(done: seq<Block>, ff: int, addr: int, goal: Heap)
    requires ResumesFree(done, MEMORY_SIZE, [], ff, addr, goal)
    ensures goal == Heap(done, ff)
  {
    assert done + [] == done;
  }

  lemma ResumesFreePast(done: seq<Block>, pos: int, rest: seq<Block>, ff: int, addr: int, goal: Heap)
    requires Fits(pos, rest) && rest != [] && pos + 4 != addr
    requires ResumesFree(done, pos, rest, ff, addr, goal)
    ensures ResumesFree(done + [rest[0]], pos + rest[0].Size(), rest[1..], ff, addr, goal)
  {
    var h := Free(pos + rest[0].Size(), rest[1..], ff, addr);
    assert Push(rest[0], h).blocks == [rest[0]] + h.blocks;
    assert done + ([rest[0]] + h.blocks) == (done + [rest[0]]) + h.blocks;
  }

  /** Marking the block at `pos` free and moving a lower cached word to it. */
  lemma MarkFree(m0: seq<byte>, m: seq<byte>, m1: seq<byte>, m2: seq<byte>, start: int, f: int, owned: map<int, Block>,
                 done: seq<Block>, pos: int, rest: seq<Block>)
    requires |m0| == |m| == MEMORY_SIZE
    requires Walk(m0, m, start, f, owned, done, pos, rest) && rest != [] && pos !in owned
    requires Wrote(m, m1, pos, FREE) && (if WordAt(m, f) < pos then Wrote(m1, m2, f, pos) else m2 == m1)
    ensures AtRun(m0, m2, start, f, owned, done, pos, rest[0].len, rest[1..])
    ensures WordAt(m2, f) == if WordAt(m, f) < pos then pos else WordAt(m, f)
  {
    MarkOwner(m0, m, m1, start, f, owned, done, pos, rest, rest[0].len, rest[1..]);
    if WordAt(m, f) < pos {
      MoveCached(m0, m1, m2, start, f, owned, done, pos, rest[0].len, rest[1..]);
    }
  }

  lemma MarkOwner(m0: seq<byte>, m: seq<byte>, m': seq<byte>, start: int, f: int, owned: map<int, Block>,
                  done: seq<Block>, pos: int, rest: seq<Block>, len: word, tail: seq<Block>)
    requires |m0| == |m| == MEMORY_SIZE && rest != [] && len == rest[0].len && tail == rest[1..]
    requires Walk(m0, m, start, f, owned, done, pos, rest) && pos !in owned
    requires Wrote(m, m', pos, FREE)
    ensures AtRun(m0, m', start, f, owned, done, pos, len, tail)
  {
    StoredFrame(m, m', start, done);
    StoredFrame(m, m', pos + 4 + 2 * len, tail);
    AheadOfHead(owned, pos, rest, len, tail);
  }

  lemma AheadOfHead(owned: map<int, Block>, pos: int, rest: seq<Block>, len: word, tail: seq<Block>)
    requires rest != [] && len == rest[0].len && tail == rest[1..]
    requires Ahead(owned, pos, rest) && pos !in owned
    ensures Ahead(owned, pos + 4 + 2 * len, tail)
    ensures forall k :: k in owned ==> k + owned[k].Size() <= pos || pos + 4 + 2 * len <= k
  {
  }

  lemma MoveCached(m0: seq<byte>, m: seq<byte>, m': seq<byte>, start: int, f: int, owned: map<int, Block>,
                   done: seq<Block>, pos: int, len: word, rest: seq<Block>)
    requires |m0| == |m| == MEMORY_SIZE
    requires AtRun(m0, m, start, f, owned, done, pos, len, rest) && Wrote(m, m', f, pos)
    ensures AtRun(m0, m', start, f, owned, done, pos, len, rest)
  {
    StoredFrame(m, m', start, done);
    StoredFrame(m, m', pos + 4 + 2 * len, rest);
  }

  /** A merged run is a free block of the heap. */
  lemma CloseRun(m0: seq<byte>, m: seq<byte>, start: int, f: int, owned: map<int, Block>,
                 done: seq<Block>, pos: int, len: word, rest: seq<Block>)
    requires |m0| == |m| == MEMORY_SIZE
    requires AtRun(m0, m, start, f, owned, done, pos, len, rest)
    ensures var blocks := done + Push(Block(FREE, len), Heap(rest, 0)).blocks;
            var whole := WordAt(m, 0) != 0 && Fits(start, blocks) && Stored(m, start, blocks);
            whole
    ensures SameBytes(m0, m, owned) && SameLow(m0, m, start, f)
  {
    var freed := Push(Block(FREE, len), Heap(rest, 0)).blocks;
    assert Stored(m, pos, freed);
    FillRun(m0, m, m, start, f, owned, done, pos, len, rest, freed);
  }

  /** The heap a release is to reach, in terms of what the merging loop has found. */
  lemma Released(done: seq<Block>, pos: int, rest0: seq<Block>, ff: int, goal: Heap,
                 len: word, rest: seq<Block>, ff': int)
    requires Fits(pos, rest0) && rest0 != [] && ResumesFree(done, pos, rest0, ff, pos + 4, goal)
    requires Absorb(pos, rest0[0].len, rest0[1..], if ff < pos then pos else ff) == Merged(len, rest, ff')
    ensures goal == Heap(done + Push(Block(FREE, len), Heap(rest, 0)).blocks, ff')
  {
  }

  class GuestHeap {
    const memory: Memory
    const mmStart: word        // address of the first header, 0 if unknown
    const mmFirstFree: word    // address of the cached word
    ghost var blocks: seq<Block>

    /** The blocks tile memory from mmStart to the wrapped top, the word the
        walks read there is not zero, and the cached word lies below the heap. */
    ghost predicate Valid()
      reads this, memory, memory.bytes
    {
      && memory.Valid()
      && (mmStart != 0 ==>
            var tiled :=
              && 2 <= mmFirstFree && mmFirstFree + 1 < mmStart
              && WordAt(memory.image, 0) != 0
              && Fits(mmStart, blocks)
              && Stored(memory.image, mmStart, blocks);
            tiled)
    }

    /** Adopts a memory in which the firmware has laid out the heap. */
    constructor (memory: Memory, mmStart: word, mmFirstFree: word, ghost blocks: seq<Block>)
      requires memory.Valid()
      requires mmStart != 0 ==>
                 && 2 <= mmFirstFree && mmFirstFree + 1 < mmStart
                 && WordAt(memory.image, 0) != 0
                 && Fits(mmStart, blocks)
                 && Stored(memory.image, mmStart, blocks)
      ensures Valid() && this.memory == memory && this.mmStart == mmStart && this.mmFirstFree == mmFirstFree
      ensures this.blocks == blocks
    {
      this.memory, this.mmStart, this.mmFirstFree, this.blocks := memory, mmStart, mmFirstFree, blocks;
    }

    /** One round of the merging loop: absorb the free block at `nptr`. */
    method MergeNext(ptr: word, len0: word, nptr0: word, ghost rest0: seq<Block>)
      returns (len: word, nptr: word, ghost rest: seq<Block>)
      requires memory.Valid() && 2 <= mmFirstFree && mmFirstFree + 1 < ptr
      requires Merging(memory.image, ptr, len0, rest0)
      requires rest0 != [] && rest0[0].IsFree() && nptr0 == ptr + 4 + 2 * len0
      modifies memory, memory.bytes
      ensures memory.Valid() && SameBut(old(memory.image), memory.image, mmFirstFree, ptr + 2)
      ensures Merging(memory.image, ptr, len, rest)
      ensures nptr == Wrapped(ptr + 4 + 2 * len) && len0 < len
      ensures Absorb(ptr, len, rest, WordAt(memory.image, mmFirstFree))
           == Absorb(ptr, len0, rest0, old(WordAt(memory.image, mmFirstFree)))
    {
      AtNext(memory.image, nptr0, rest0);
      ghost var m := memory.image;
      var firstFree := memory.ReadWord(mmFirstFree);
      if nptr0 == firstFree {
        memory.WriteWord(mmFirstFree, ptr);
      }
      ghost var m1 := memory.image;
      var more := memory.ReadWord(nptr0 + 2);
      len, rest := len0 + 2 + more, rest0[1..];
      nptr := Next(ptr, len);
      memory.WriteWord(ptr + 2, len);
      MergeStep(m, m1, memory.image, mmFirstFree, ptr, len0, rest0, len, rest);
    }

    /** The loop that merges the free blocks behind the free block at `ptr`. */
    method MergeFollowing(ptr: word, len0: word, ghost rest0: seq<Block>)
      returns (len: word, nptr: word, ghost rest: seq<Block>)
      requires memory.Valid() && 2 <= mmFirstFree && mmFirstFree + 1 < ptr
      requires Merging(memory.image, ptr, len0, rest0)
      modifies memory, memory.bytes
      ensures memory.Valid() && SameBut(old(memory.image), memory.image, mmFirstFree, ptr + 2)
      ensures Merging(memory.image, ptr, len, rest)
      ensures nptr == Wrapped(ptr + 4 + 2 * len)
      ensures Absorb(ptr, len0, rest0, old(WordAt(memory.image, mmFirstFree)))
           == Merged(len, rest, WordAt(memory.image, mmFirstFree))
    {
      len, rest := len0, rest0;
      nptr := Next(ptr, len);
      ghost var goal := Absorb(ptr, len0, rest0, WordAt(memory.image, mmFirstFree));
      AtNext(memory.image, ptr + 4 + 2 * len, rest);
      var owner := memory.ReadWord(nptr);
      while owner == 0
        invariant memory.Valid() && SameBut(old(memory.image), memory.image, mmFirstFree, ptr + 2)
        invariant Merging(memory.image, ptr, len, rest)
        invariant nptr == Wrapped(ptr + 4 + 2 * len)
        invariant owner == 0 <==> rest != [] && rest[0].IsFree()
        invariant Absorb(ptr, len, rest, WordAt(memory.image, mmFirstFree)) == goal
        decreases MEMORY_SIZE - len
      {
        len, nptr, rest := MergeNext(ptr, len, nptr, rest);
        AtNext(memory.image, ptr + 4 + 2 * len, rest);
        owner := memory.ReadWord(nptr);
      }
    }

    /** The walk from `nptr0` to the next free block, or to the wrapped top. */
    method SkipOwned(nptr0: word, ghost pos0: int, ghost rest0: seq<Block>) returns (nptr: word)
      requires memory.Valid() && WordAt(memory.image, 0) != 0
      requires 0 < mmStart <= pos0 && nptr0 == Wrapped(pos0)
      requires Fits(pos0, rest0) && Stored(memory.image, pos0, rest0)
      ensures nptr == NextFree(pos0, rest0)
    {
      nptr := nptr0;
      ghost var pos, rest := pos0, rest0;
      AtNext(memory.image, pos, rest);
      var owner := memory.ReadWord(nptr);
      while owner != 0 && nptr >= mmStart
        invariant Fits(pos, rest) && Stored(memory.image, pos, rest)
        invariant mmStart <= pos && nptr == Wrapped(pos)
        invariant owner == 0 <==> rest != [] && rest[0].IsFree()
        invariant NextFree(pos, rest) == NextFree(pos0, rest0)
        decreases MEMORY_SIZE - pos
      {
        AtNext(memory.image, pos, rest);
        var len := memory.ReadWord(nptr + 2);
        nptr := Next(nptr, len);
        pos, rest := pos + rest[0].Size(), rest[1..];
        AtNext(memory.image, pos, rest);
        owner := memory.ReadWord(nptr);
      }
      AtNext(memory.image, pos, rest);
    }

    /** Splits the free run at `ptr` behind its first `size` words. */
    method Split(ptr: word, len: word, size: word, ghost rest: seq<Block>) returns (nptr: word)
      requires memory.Valid() && 0 < ptr && Merging(memory.image, ptr, len, rest) && size + 8 < len
      modifies memory, memory.bytes
      ensures memory.Valid() && SameOutside(old(memory.image), memory.image, ptr, ptr, ptr + 4 + 2 * len)
      ensures nptr == ptr + 4 + 2 * size
      ensures WordAt(memory.image, 0) != 0 && WordAt(memory.image, ptr + 2) == size
      ensures Stored(memory.image, nptr, Remainder(len, size, rest))
    {
      ghost var m := memory.image;
      memory.WriteWord(ptr + 2, size);
      ghost var m1 := memory.image;
      nptr := ptr + 4 + 2 * size;
      memory.WriteWord(nptr, FREE);
      ghost var m2 := memory.image;
      memory.WriteWord(nptr + 2, len - size - 2);
      CutRun(m, m1, m2, memory.image, ptr, len, size, rest);
    }

    /** Splits the free run at `ptr` if it is long enough and marks it taken. */
    method Carve(ptr: word, len: word, nptr0: word, size: word, ghost rest: seq<Block>)
      returns (nptr: word, ghost taken: word)
      requires memory.Valid() && 2 <= mmFirstFree && mmFirstFree + 1 < ptr
      requires Merging(memory.image, ptr, len, rest) && size < len
      requires nptr0 == Wrapped(ptr + 4 + 2 * len)
      modifies memory, memory.bytes
      ensures memory.Valid() && SameOutside(old(memory.image), memory.image, ptr, ptr, ptr + 4 + 2 * len)
      ensures taken == (if len > size + 8 then size else len)
      ensures nptr == Wrapped(ptr + 4 + 2 * taken)
      ensures WordAt(memory.image, 0) != 0
      ensures WordAt(memory.image, ptr) == BEAMED && WordAt(memory.image, ptr + 2) == taken
      ensures Stored(memory.image, ptr + 4 + 2 * taken, Remainder(len, size, rest))
    {
      nptr, taken := nptr0, len;
      if len > size + 8 {
        nptr := Split(ptr, len, size, rest);
        taken := size;
      }
      ghost var m := memory.image;
      memory.WriteWord(ptr, BEAMED);
      MarkTaken(m, memory.image, ptr, taken, len, Remainder(len, size, rest));
    }

    /** Moves the cached word off the block just taken. */
    method MoveFirstFree(ptr: word, nptr0: word, ghost q: int, ghost rest: seq<Block>)
      requires memory.Valid() && WordAt(memory.image, 0) != 0
      requires 2 <= mmFirstFree && mmFirstFree + 1 < mmStart <= ptr && ptr + 4 <= q
      requires nptr0 == Wrapped(q) && Fits(q, rest) && Stored(memory.image, q, rest)
      modifies memory, memory.bytes
      ensures memory.Valid() && SameBut(old(memory.image), memory.image, mmFirstFree, mmFirstFree)
      ensures Stored(memory.image, q, rest)
      ensures var ff := old(WordAt(memory.image, mmFirstFree));
              WordAt(memory.image, mmFirstFree) == if ff == ptr then NextFree(q, rest) else ff
    {
      ghost var m := memory.image;
      var firstFree := memory.ReadWord(mmFirstFree);
      if ptr == firstFree {
        var nptr := SkipOwned(nptr0, q, rest);
        memory.WriteWord(mmFirstFree, nptr);
        StoredFrame(m, memory.image, q, rest);
      }
    }

    /** Allocates `size` words at the merged free run of `len` words at `ptr`. */
    method TakeAt(ptr: word, len: word, nptr0: word, size: word, ghost rest: seq<Block>) returns (addr: word)
      requires memory.Valid() && 2 <= mmFirstFree && mmFirstFree + 1 < mmStart <= ptr
      requires Merging(memory.image, ptr, len, rest) && size < len
      requires nptr0 == Wrapped(ptr + 4 + 2 * len)
      modifies memory, memory.bytes
      ensures memory.Valid() && SameOutside(old(memory.image), memory.image, mmFirstFree, ptr, ptr + 4 + 2 * len)
      ensures var o := Take(ptr, Merged(len, rest, old(WordAt(memory.image, mmFirstFree))), size);
              && addr == o.addr && WordAt(memory.image, mmFirstFree) == o.heap.firstFree
              && Stored(memory.image, ptr, o.heap.blocks)
    {
      ghost var run := Merged(len, rest, WordAt(memory.image, mmFirstFree));
      var nptr;
      ghost var taken;
      nptr, taken := Carve(ptr, len, nptr0, size, rest);
      MoveFirstFree(ptr, nptr, ptr + 4 + 2 * taken, Remainder(len, size, rest));
      TakeStored(memory.image, ptr, run, size);
      addr := ptr + 4;
    }

    /** brickos_malloc: an area of `size` bytes, or 0. */
    method Malloc(size: word) returns (addr: word)
      requires Valid()
      modifies this, memory, memory.bytes
      ensures Valid()
      ensures mmStart == 0 ==> addr == 0 && memory.image == old(memory.image)
      ensures mmStart != 0 ==>
        var o := BrickOsHeap.Malloc(mmStart, old(blocks), old(WordAt(memory.image, mmFirstFree)), WordsFor(size));
        addr == o.addr && blocks == o.heap.blocks && WordAt(memory.image, mmFirstFree) == o.heap.firstFree
      ensures mmStart != 0 ==>
        && SameLow(old(memory.image), memory.image, mmStart, mmFirstFree)
        && SameBytes(old(memory.image), memory.image, Owned(mmStart, old(blocks)))
    {
      if mmStart == 0 {
        return 0;
      }
      addr := FirstFit(WordsFor(size));
    }

    /** The allocation loop, for a request in words. */
    method FirstFit(words: word) returns (addr: word)
      requires Valid() && mmStart != 0
      modifies this`blocks, memory, memory.bytes
      ensures Valid()
      ensures Outcome(addr, Heap(blocks, WordAt(memory.image, mmFirstFree)))
           == BrickOsHeap.Malloc(mmStart, old(blocks), old(WordAt(memory.image, mmFirstFree)), words)
      ensures SameLow(old(memory.image), memory.image, mmStart, mmFirstFree)
      ensures SameBytes(old(memory.image), memory.image, Owned(mmStart, old(blocks)))
    {
      var ptr := mmStart;
      ghost var m0 := memory.image;
      ghost var owned := Owned(mmStart, blocks);
      ghost var done, pos, rest := [], mmStart as int, blocks;
      ghost var goal := BrickOsHeap.Malloc(mmStart, blocks, WordAt(memory.image, mmFirstFree), words);
      WalkBegins(m0, mmStart, mmFirstFree, blocks, words);
      while ptr >= mmStart
        invariant memory.Valid() && mmStart <= pos
        invariant Searching(m0, memory.image, mmStart, mmFirstFree, owned, done, pos, rest, words, goal)
        invariant ptr == Wrapped(pos)
        decreases MEMORY_SIZE - pos
      {
        AtNext(memory.image, pos, rest);
        assert pos == ptr;
        addr, ptr, done, pos, rest := Visit(ptr, words, m0, owned, done, rest, goal);
        if addr != 0 {
          return;
        }
      }
      addr := 0;
      WalkEnds(done, WordAt(memory.image, mmFirstFree), words, goal);
      blocks := done;
    }

    /** One round of the allocation loop, at the block that heads `rest0`. */
    method Visit(ptr: word, words: word, ghost m0: seq<byte>, ghost owned: map<int, Block>,
                 ghost done0: seq<Block>, ghost rest0: seq<Block>, ghost goal: Outcome)
      returns (addr: word, nptr: word, ghost done: seq<Block>, ghost pos: int, ghost rest: seq<Block>)
      requires memory.Valid() && 0 < mmStart <= ptr && |m0| == MEMORY_SIZE
      requires Searching(m0, memory.image, mmStart, mmFirstFree, owned, done0, ptr, rest0, words, goal)
      modifies this`blocks, memory, memory.bytes
      ensures memory.Valid()
      ensures addr == 0 ==>
        && ptr < pos && nptr == Wrapped(pos)
        && Searching(m0, memory.image, mmStart, mmFirstFree, owned, done, pos, rest, words, goal)
      ensures addr != 0 ==>
        && Valid() && goal == Outcome(addr, Heap(blocks, WordAt(memory.image, mmFirstFree)))
        && SameBytes(m0, memory.image, owned) && SameLow(m0, memory.image, mmStart, mmFirstFree)
    {
      AtNext(memory.image, ptr, rest0);
      var owner := memory.ReadWord(ptr);
      var len := memory.ReadWord(ptr + 2);
      if owner == 0 {
        addr, nptr, done, pos, rest := AllocateAt(ptr, len, words, m0, owned, done0, rest0, goal);
      } else {
        PassOwned(m0, memory.image, mmStart, mmFirstFree, owned, done0, ptr, rest0, words, goal);
        addr, nptr := 0, Next(ptr, len);
        done, pos, rest := done0 + [rest0[0]], ptr + rest0[0].Size(), rest0[1..];
      }
    }

    /** Merges what follows the free block that heads `rest0`. */
    method MergeAt(ptr: word, len0: word, ghost m0: seq<byte>, ghost owned: map<int, Block>,
                   ghost done: seq<Block>, ghost rest0: seq<Block>)
      returns (len: word, nptr: word, ghost rest: seq<Block>)
      requires memory.Valid() && 0 < mmStart <= ptr && |m0| == MEMORY_SIZE
      requires Walk(m0, memory.image, mmStart, mmFirstFree, owned, done, ptr, rest0)
      requires rest0 != [] && rest0[0].IsFree() && rest0[0].len == len0
      modifies memory, memory.bytes
      ensures memory.Valid() && nptr == Wrapped(ptr + 4 + 2 * len)
      ensures AtRun(m0, memory.image, mmStart, mmFirstFree, owned, done, ptr, len, rest)
      ensures Absorb(ptr, len0, rest0[1..], old(WordAt(memory.image, mmFirstFree)))
           == Merged(len, rest, WordAt(memory.image, mmFirstFree))
    {
      ghost var m := memory.image;
      EnterRun(m0, m, mmStart, mmFirstFree, owned, done, ptr, rest0);
      len, nptr, rest := MergeFollowing(ptr, len0, rest0[1..]);
      MergeAtRun(m0, m, memory.image, mmStart, mmFirstFree, owned, done, ptr, len0, rest0[1..], len, rest);
    }

    /** The visit to a free block: merge what follows, then take it if it is long enough. */
    method AllocateAt(ptr: word, len0: word, words: word, ghost m0: seq<byte>, ghost owned: map<int, Block>,
                      ghost done0: seq<Block>, ghost rest0: seq<Block>, ghost goal: Outcome)
      returns (addr: word, nptr: word, ghost done: seq<Block>, ghost pos: int, ghost rest: seq<Block>)
      requires memory.Valid() && 0 < mmStart <= ptr && |m0| == MEMORY_SIZE
      requires Searching(m0, memory.image, mmStart, mmFirstFree, owned, done0, ptr, rest0, words, goal)
      requires rest0 != [] && rest0[0].IsFree() && rest0[0].len == len0
      modifies this`blocks, memory, memory.bytes
      ensures memory.Valid()
      ensures addr == 0 ==>
        && ptr < pos && nptr == Wrapped(pos)
        && Searching(m0, memory.image, mmStart, mmFirstFree, owned, done, pos, rest, words, goal)
      ensures addr != 0 ==>
        && Valid() && goal == Outcome(addr, Heap(blocks, WordAt(memory.image, mmFirstFree)))
        && SameBytes(m0, memory.image, owned) && SameLow(m0, memory.image, mmStart, mmFirstFree)
    {
      ghost var ff := WordAt(memory.image, mmFirstFree);
      var len;
      len, nptr, rest := MergeAt(ptr, len0, m0, owned, done0, rest0);
      ghost var run := Merged(len, rest, WordAt(memory.image, mmFirstFree));
      addr, done, pos := 0, done0 + [Block(FREE, len)], ptr + 4 + 2 * len;
      if len > words {
        ResumesAtRun(done0, ptr, rest0, ff, words, goal, run);
        ghost var m1 := memory.image;
        addr := TakeAt(ptr, len, nptr, words, rest);
        ghost var taken := Take(ptr, run, words).heap.blocks;
        FillRun(m0, m1, memory.image, mmStart, mmFirstFree, owned, done0, ptr, len, rest, taken);
        blocks := done0 + taken;
      } else {
        ResumesPastRun(done0, ptr, rest0, ff, words, goal, run);
        PassRun(m0, memory.image, mmStart, mmFirstFree, owned, done0, ptr, len, rest);
      }
    }

    /** brickos_free: releases the block whose data starts at `addr`, if any. */
    method Free(addr: word)
      requires Valid()
      modifies this, memory, memory.bytes
      ensures Valid()
      ensures mmStart == 0 ==> memory.image == old(memory.image)
      ensures mmStart != 0 ==>
        && Heap(blocks, WordAt(memory.image, mmFirstFree))
             == BrickOsHeap.Free(mmStart, old(blocks), old(WordAt(memory.image, mmFirstFree)), addr)
        && SameLow(old(memory.image), memory.image, mmStart, mmFirstFree)
        && SameBytes(old(memory.image), memory.image, Owned(mmStart, old(blocks)) - {addr - 4})
    {
      if mmStart != 0 {
        FindAndRelease(addr);
      }
    }

    /** The release loop. */
    method FindAndRelease(addr: word)
      requires Valid() && mmStart != 0
      modifies this`blocks, memory, memory.bytes
      ensures Valid()
      ensures Heap(blocks, WordAt(memory.image, mmFirstFree))
           == BrickOsHeap.Free(mmStart, old(blocks), old(WordAt(memory.image, mmFirstFree)), addr)
      ensures SameLow(old(memory.image), memory.image, mmStart, mmFirstFree)
      ensures SameBytes(old(memory.image), memory.image, Owned(mmStart, old(blocks)) - {addr - 4})
    {
      var ptr := mmStart;
      ghost var m0 := memory.image;
      ghost var owned := Owned(mmStart, blocks) - {addr - 4};
      ghost var done, pos, rest := [], mmStart as int, blocks;
      ghost var goal := BrickOsHeap.Free(mmStart, blocks, WordAt(memory.image, mmFirstFree), addr);
      ReleaseBegins(m0, mmStart, mmFirstFree, blocks, addr);
      while ptr >= mmStart
        invariant memory.Valid() && mmStart <= pos
        invariant Walk(m0, memory.image, mmStart, mmFirstFree, owned, done, pos, rest)
        invariant ptr == Wrapped(pos)
        invariant ResumesFree(done, pos, rest, WordAt(memory.image, mmFirstFree), addr, goal)
        decreases MEMORY_SIZE - pos
      {
        AtNext(memory.image, pos, rest);
        assert pos == ptr;
        var found;
        found, ptr, done, pos, rest := VisitForRelease(ptr, addr, m0, owned, done, rest, goal);
        if found {
          return;
        }
      }
      ReleaseEnds(done, WordAt(memory.image, mmFirstFree), addr, goal);
      blocks := done;
    }

    /** One round of the release loop, at the block that heads `rest0`. */
    method VisitForRelease(ptr: word, addr: word, ghost m0: seq<byte>, ghost owned: map<int, Block>,
                           ghost done0: seq<Block>, ghost rest0: seq<Block>, ghost goal: Heap)
      returns (found: bool, nptr: word, ghost done: seq<Block>, ghost pos: int, ghost rest: seq<Block>)
      requires memory.Valid() && 0 < mmStart <= ptr && |m0| == MEMORY_SIZE && addr - 4 !in owned
      requires Walk(m0, memory.image, mmStart, mmFirstFree, owned, done0, ptr, rest0)
      requires ResumesFree(done0, ptr, rest0, WordAt(memory.image, mmFirstFree), addr, goal)
      modifies this`blocks, memory, memory.bytes
      ensures memory.Valid()
      ensures !found ==>
        && ptr < pos && nptr == Wrapped(pos)
        && Walk(m0, memory.image, mmStart, mmFirstFree, owned, done, pos, rest)
        && ResumesFree(done, pos, rest, WordAt(memory.image, mmFirstFree), addr, goal)
      ensures found ==>
        && Valid() && goal == Heap(blocks, WordAt(memory.image, mmFirstFree))
        && SameBytes(m0, memory.image, owned) && SameLow(m0, memory.image, mmStart, mmFirstFree)
    {
      AtNext(memory.image, ptr, rest0);
      var len := memory.ReadWord(ptr + 2);
      found := ptr + 4 == addr;
      done, pos, rest := done0, ptr, rest0;
      nptr := Next(ptr, len);
      if found {
        ReleaseAt(ptr, len, m0, owned, done0, rest0, goal);
      } else {
        PassBlock(m0, memory.image, mmStart, mmFirstFree, owned, done0, ptr, rest0);
        ResumesFreePast(done0, ptr, rest0, WordAt(memory.image, mmFirstFree), addr, goal);
        done, pos, rest := done0 + [rest0[0]], ptr + rest0[0].Size(), rest0[1..];
      }
    }

    /** The release itself, at the block that heads `rest0`. */
    method ReleaseAt(ptr: word, len0: word, ghost m0: seq<byte>, ghost owned: map<int, Block>,
                     ghost done: seq<Block>, ghost rest0: seq<Block>, ghost goal: Heap)
      requires memory.Valid() && 0 < mmStart <= ptr && |m0| == MEMORY_SIZE
      requires Walk(m0, memory.image, mmStart, mmFirstFree, owned, done, ptr, rest0)
      requires rest0 != [] && rest0[0].len == len0 && ptr as int !in owned
      requires ResumesFree(done, ptr, rest0, WordAt(memory.image, mmFirstFree), ptr + 4, goal)
      modifies this`blocks, memory, memory.bytes
      ensures Valid() && goal == Heap(blocks, WordAt(memory.image, mmFirstFree))
      ensures SameBytes(m0, memory.image, owned) && SameLow(m0, memory.image, mmStart, mmFirstFree)
    {
      ghost var m := memory.image;
      memory.WriteWord(ptr, FREE);
      ghost var m1 := memory.image;
      var firstFree := memory.ReadWord(mmFirstFree);
      if firstFree < ptr {
        memory.WriteWord(mmFirstFree, ptr);
      }
      ghost var m2 := memory.image;
      MarkFree(m0, m, m1, m2, mmStart, mmFirstFree, owned, done, ptr, rest0);
      var len, nptr;
      ghost var rest;
      len, nptr, rest := MergeFollowing(ptr, len0, rest0[1..]);
      MergeAtRun(m0, m2, memory.image, mmStart, mmFirstFree, owned, done, ptr, len0, rest0[1..], len, rest);
      blocks := done + Push(Block(FREE, len), Heap(rest, 0)).blocks;
      CloseRun(m0, memory.image, mmStart, mmFirstFree, owned, done, ptr, len, rest);
      Released(done, ptr, rest0, WordAt(m, mmFirstFree), goal, len, rest, WordAt(memory.image, mmFirstFree));
    }
  }
}
