/** Reading an .lx program into memory: the image and its relocations. */
module Lx {
  import opened Words

  /** The header fields and contents of an .lx file. */
  datatype Program = Program(base: word, textSize: word, dataSize: word, bssSize: word,
                             stackSize: word, offset: word, body: seq<byte>, relocs: seq<word>) {
    /** Bytes of memory a loaded program takes: its data is kept twice. */
    function Footprint(): (r: nat) { textSize + 2 * dataSize + bssSize }

    /** The file holds as many bytes as announced, and relocates words inside them. */
    predicate WellFormed() {
      |body| == textSize + dataSize && forall i :: 0 <= i < |relocs| ==> relocs[i] as int + 1 < |body|
    }

    predicate DisjointRelocs() {
      forall i, j :: 0 <= i < j < |relocs| ==>
        relocs[i] as int + 1 < relocs[j] as int || relocs[j] as int + 1 < relocs[i] as int
    }
  }

  function Shifted(w: word, start: word, base: word): (r: word) {
    (w + start - base) % 0x10000
  }

  /** The bytes `m` with the word at `r` shifted. */
  function Patched(m: seq<byte>, r: word, start: word, base: word): (m': seq<byte>)
    requires r + 1 < |m|
    ensures |m'| == |m|
  {
    var w := Shifted(WordAt(m, r), start, base);
    m[r := w / 0x100][r + 1 := w % 0x100]
  }

  /** The bytes `m` with the words at `relocs` shifted, one after the other. */
  function Relocated(m: seq<byte>, relocs: seq<word>, start: word, base: word): (m': seq<byte>)
    requires forall i :: 0 <= i < |relocs| ==> relocs[i] as int + 1 < |m|
    ensures |m'| == |m|
  {
    if relocs == [] then m
    else
      var last := |relocs| - 1;
      Patched(Relocated(m, relocs[..last], start, base), relocs[last], start, base)
  }

  /** A byte that belongs to no relocated word stays as it was. */
  lemma {:induction false} RelocatedElsewhere(m: seq<byte>, relocs: seq<word>, start: word, base: word, k: nat)
    requires forall i :: 0 <= i < |relocs| ==> relocs[i] as int + 1 < |m|
    requires k < |m| && forall i :: 0 <= i < |relocs| ==> k != relocs[i] && k != relocs[i] as int + 1
    ensures Relocated(m, relocs, start, base)[k] == m[k]
    decreases |relocs|
  {
    if relocs != [] {
      RelocatedElsewhere(m, relocs[..|relocs| - 1], start, base, k);
    }
  }

  /** Disjoint relocations shift each named word exactly once. */
  lemma {:induction false} RelocatedOnce(p: Program, n: nat, start: word, i: nat)
    requires p.WellFormed() && p.DisjointRelocs() && i < n <= |p.relocs|
    ensures WordAt(Relocated(p.body, p.relocs[..n], start, p.base), p.relocs[i])
         == Shifted(WordAt(p.body, p.relocs[i]), start, p.base)
    decreases n
  {
    var before := p.relocs[..n][..n - 1];
    assert before == p.relocs[..n - 1];
    if i < n - 1 {
      RelocatedOnce(p, n - 1, start, i);
    } else {
      RelocatedElsewhere(p.body, before, start, p.base, p.relocs[i]);
      RelocatedElsewhere(p.body, before, start, p.base, p.relocs[i] as int + 1);
    }
  }

  /** lx_read: places text and data at `start` and shifts the relocated words. */
  method Read(memory: Memory, p: Program, start: word)
    requires memory.Valid() && p.WellFormed() && start + |p.body| <= MEMORY_SIZE
    modifies memory, memory.bytes
    ensures memory.Valid() && |memory.image| == MEMORY_SIZE
    ensures memory.image[start..start + |p.body|] == Relocated(p.body, p.relocs, start, p.base)
    ensures SameElsewhere(old(memory.image), memory.image, start, start + |p.body|)
  {
    memory.Store(start, p.body);
    for i := 0 to |p.relocs|
      invariant memory.Valid() && |memory.image| == MEMORY_SIZE
      invariant memory.image[start..start + |p.body|] == Relocated(p.body, p.relocs[..i], start, p.base)
      invariant SameElsewhere(old(memory.image), memory.image, start, start + |p.body|)
    {
      var reloc := p.relocs[i];
      var val := memory.ReadWord(start + reloc);
      ghost var m := memory.image;
      memory.WriteWord(start + reloc, Shifted(val, start, p.base));
      PatchInPlace(m, memory.image, start, |p.body|, reloc, p.base);
      assert p.relocs[..i + 1][..i] == p.relocs[..i];
    }
    assert p.relocs[..|p.relocs|] == p.relocs;
  }

  lemma PatchInPlace(m: seq<byte>, m': seq<byte>, start: word, n: nat, r: word, base: word)
    requires start + n <= |m| && r + 1 < n
    requires Wrote(m, m', start + r, Shifted(WordAt(m, start + r), start, base))
    ensures m'[start..start + n] == Patched(m[start..start + n], r, start, base)
  {
  }
}
