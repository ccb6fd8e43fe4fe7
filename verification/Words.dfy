/** Bytes, 16-bit words and the big-endian word access of the guest's flat memory. */
module Words {

  type byte = x: int | 0 <= x < 0x100
  type word = x: int | 0 <= x < 0x10000

  const MEMORY_SIZE := 0x10000

  /** What reading a word at `a` yields. */
  function WordAt(m: seq<byte>, a: int): (w: word)
    requires 0 <= a && a + 1 < |m|
  {
    m[a] as int * 0x100 + m[a + 1]
  }

  /** `m'` is `m` with the word `w` written at `a`. */
  ghost predicate Wrote(m: seq<byte>, m': seq<byte>, a: int, w: word) {
    && |m'| == |m| && 0 <= a && a + 1 < |m|
    && WordAt(m', a) == w
    && forall i :: 0 <= i < |m| && i != a && i != a + 1 ==> m'[i] == m[i]
  }

  /** `m'` differs from `m` at most in [lo, hi). */
  ghost predicate SameElsewhere(m: seq<byte>, m': seq<byte>, lo: int, hi: int) {
    |m'| == |m| && forall i :: 0 <= i < |m| && !(lo <= i < hi) ==> m'[i] == m[i]
  }

  /** The 64 KB byte array, with its contents as a sequence for specifications. */
  class Memory {
    const bytes: array<byte>
    ghost var image: seq<byte>

    ghost predicate Valid()
      reads this, bytes
    {
      bytes.Length == MEMORY_SIZE && image == bytes[..]
    }

    constructor ()
      ensures Valid() && fresh(bytes)
    {
      bytes := new byte[MEMORY_SIZE];
      new;
      image := bytes[..];
    }

    method ReadWord(a: int) returns (w: word)
      requires Valid() && 0 <= a && a + 1 < MEMORY_SIZE
      ensures |image| == MEMORY_SIZE && w == WordAt(image, a)
    {
      w := bytes[a] as int * 0x100 + bytes[a + 1];
    }

    method WriteWord(a: int, w: word)
      requires Valid() && 0 <= a && a + 1 < MEMORY_SIZE
      modifies this, bytes
      ensures Valid() && Wrote(old(image), image, a, w)
    {
      bytes[a] := w / 0x100;
      bytes[a + 1] := w % 0x100;
      image := bytes[..];
    }

    /** Stores the bytes of `s` from `a` on. */
    method Store(a: int, s: seq<byte>)
      requires Valid() && 0 <= a && a + |s| <= MEMORY_SIZE
      modifies this, bytes
      ensures Valid() && |image| == |old(image)| == MEMORY_SIZE
      ensures image[a..a + |s|] == s
      ensures SameElsewhere(old(image), image, a, a + |s|)
    {
      for i := 0 to |s|
        invariant bytes.Length == MEMORY_SIZE
        invariant forall k :: 0 <= k < i ==> bytes[a + k] == s[k]
        invariant forall k :: 0 <= k < MEMORY_SIZE && !(a <= k < a + i) ==> bytes[k] == old(bytes[k])
      {
        bytes[a + i] := s[i];
      }
      image := bytes[..];
    }

    method Fetch(a: int, n: nat) returns (s: seq<byte>)
      requires Valid() && 0 <= a && a + n <= MEMORY_SIZE
      ensures |image| == MEMORY_SIZE && s == image[a..a + n]
    {
      s := bytes[a..a + n];
    }
  }
}
