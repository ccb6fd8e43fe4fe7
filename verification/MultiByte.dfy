/**
 Numbers of any width, byte by byte: a SUB and a run of SUBX instructions
 subtract them and leave flags on which the branches compare them.
 */
module MultiByte {
  import opened Words
  import opened Cpu

  function Pow256(n: nat): (r: int) {
    if n == 0 then 1 else 0x100 * Pow256(n - 1)
  }

  /** A two's complement number of n bytes lies in [-HalfRange(n), HalfRange(n)). */
  function HalfRange(n: nat): (r: int)
    requires n > 0
  {
    if n == 1 then 0x80 else 0x100 * HalfRange(n - 1)
  }

  /** The number with the given bytes, least significant first. */
  function Value(a: seq<byte>): (v: nat) {
    if a == [] then 0 else a[0] + 0x100 * Value(a[1..])
  }

  /** The same bytes read as a two's complement number. */
  function Signed(a: seq<byte>): (r: int)
    requires a != []
  {
    if |a| == 1 then Signed8(a[0]) else a[0] + 0x100 * Signed(a[1..])
  }

  datatype Chained = Chained(dest: seq<byte>, ccr: Flags)

  /** SUBX on every byte from the lowest up. */
  function SubXChain(ccr: Flags, a: seq<byte>, b: seq<byte>): (r: Chained)
    requires |a| == |b|
    ensures |r.dest| == |a|
    decreases |a|
  {
    if a == [] then Chained([], ccr)
    else
      var r := SubX(ccr, a[0], b[0]);
      var rest := SubXChain(r.ccr, a[1..], b[1..]);
      Chained([r.dest] + rest.dest, rest.ccr)
  }

  /** SUB on the lowest byte, SUBX on all others. */
  function SubChain(a: seq<byte>, b: seq<byte>): (r: Chained)
    requires |a| == |b| > 0
    ensures |r.dest| == |a|
    decreases |a|
  {
    var r := Sub(a[0], b[0]);
    var rest := SubXChain(r.ccr, a[1..], b[1..]);
    Chained([r.dest] + rest.dest, rest.ccr)
  }

  function AddXChain(ccr: Flags, a: seq<byte>, b: seq<byte>): (r: Chained)
    requires |a| == |b|
    ensures |r.dest| == |a|
    decreases |a|
  {
    if a == [] then Chained([], ccr)
    else
      var r := AddX(ccr, a[0], b[0]);
      var rest := AddXChain(r.ccr, a[1..], b[1..]);
      Chained([r.dest] + rest.dest, rest.ccr)
  }

  /** ADD on the lowest byte, ADDX on all others. */
  function AddChain(a: seq<byte>, b: seq<byte>): (r: Chained)
    requires |a| == |b| > 0
    ensures |r.dest| == |a|
    decreases |a|
  {
    var r := Add(a[0], b[0]);
    var rest := AddXChain(r.ccr, a[1..], b[1..]);
    Chained([r.dest] + rest.dest, rest.ccr)
  }

  /** A carry out of the highest byte weighs as much as the byte above it. */
  function CarryOut(c: bool, n: nat): (r: int) {
    if c then Pow256(n) else 0
  }

  ghost predicate AllZero(a: seq<byte>) {
    forall i :: 0 <= i < |a| ==> a[i] == 0
  }

  /** The first byte of a sequence decides with the rest. */
  lemma AllZeroStep(b: byte, a: seq<byte>)
    ensures AllZero([b] + a) <==> b == 0 && AllZero(a)
  {
    var s := [b] + a;
    assert s[0] == b && forall i :: 0 <= i < |a| ==> s[i + 1] == a[i];
    assert forall i :: 1 <= i < |s| ==> s[i] == a[i - 1];
  }

  lemma {:induction false} ValueBound(a: seq<byte>)
    ensures Value(a) < Pow256(|a|)
    ensures Value(a) == 0 <==> AllZero(a)
  {
    if a != [] {
      ValueBound(a[1..]);
      AllZeroStep(a[0], a[1..]);
      assert [a[0]] + a[1..] == a;
    }
  }

  lemma {:induction false} SubXChainValue(ccr: Flags, a: seq<byte>, b: seq<byte>)
    requires |a| == |b|
    decreases |a|
    ensures var r := SubXChain(ccr, a, b);
            && Value(r.dest) == Value(a) - Value(b) - ccr.C() + CarryOut(r.ccr.c, |a|)
            && (r.ccr.z <==> ccr.z && AllZero(r.dest))
  {
    if a != [] {
      var r := SubX(ccr, a[0], b[0]);
      var rest := SubXChain(r.ccr, a[1..], b[1..]);
      SubXMeaning(ccr, a[0], b[0]);
      SubXChainValue(r.ccr, a[1..], b[1..]);
      AllZeroStep(r.dest, rest.dest);
      assert ([r.dest] + rest.dest)[1..] == rest.dest;
    }
  }

  /** The signed sense of the last N and V, from any borrow on. */
  lemma {:induction false} SubXChainSigned(ccr: Flags, a: seq<byte>, b: seq<byte>)
    requires |a| == |b| > 0
    decreases |a|
    ensures var r := SubXChain(ccr, a, b);
            var diff := Signed(a) - Signed(b) - ccr.C();
            && (r.ccr.n != r.ccr.v <==> diff < 0)
            && (r.ccr.v <==> !(-HalfRange(|a|) <= diff < HalfRange(|a|)))
  {
    var r := SubX(ccr, a[0], b[0]);
    SubXMeaning(ccr, a[0], b[0]);
    if |a| == 1 {
      assert a[1..] == [];
    } else {
      SubXChainSigned(r.ccr, a[1..], b[1..]);
      LowByteDoesNotDecide(r.dest, Signed(a[1..]) - Signed(b[1..]) - r.ccr.C(), HalfRange(|a| - 1));
    }
  }

  lemma LowByteDoesNotDecide(low: byte, high: int, half: int)
    ensures low + 0x100 * high < 0 <==> high < 0
    ensures -(0x100 * half) <= low + 0x100 * high < 0x100 * half <==> -half <= high < half
  {
  }

  /** Subtraction of any width: the difference, and on the flags the borrow, the
      zero test, the sign and the signed overflow of the whole number. */
  lemma SubChainMeaning(a: seq<byte>, b: seq<byte>)
    requires |a| == |b| > 0
    ensures var r := SubChain(a, b);
            && Value(r.dest) == Value(a) - Value(b) + CarryOut(r.ccr.c, |a|)
            && (r.ccr.c <==> Value(a) < Value(b))
            && (r.ccr.z <==> Value(a) == Value(b))
            && (r.ccr.v <==> !(-HalfRange(|a|) <= Signed(a) - Signed(b) < HalfRange(|a|)))
            && (r.ccr.n != r.ccr.v <==> Signed(a) < Signed(b))
  {
    var clear := Flags(false, true, false, false);
    assert SubX(clear, a[0], b[0]) == Sub(a[0], b[0]);
    assert SubChain(a, b) == SubXChain(clear, a, b);
    SubXChainValue(clear, a, b);
    SubXChainSigned(clear, a, b);
    ValueBound(a);
    ValueBound(b);
    ValueBound(SubChain(a, b).dest);
  }

  /** After a subtraction of any width every branch decides the comparison it is
      named after: the unsigned ones on the values, the signed ones on the signed. */
  lemma BranchesCompare(a: seq<byte>, b: seq<byte>)
    requires |a| == |b| > 0
    ensures var f := SubChain(a, b).ccr;
            && (Hi(f) <==> Value(a) > Value(b)) && (Ls(f) <==> Value(a) <= Value(b))
            && (Cc(f) <==> Value(a) >= Value(b)) && (Cs(f) <==> Value(a) < Value(b))
            && (Ge(f) <==> Signed(a) >= Signed(b)) && (Lt(f) <==> Signed(a) < Signed(b))
            && (Gt(f) <==> Signed(a) > Signed(b)) && (Le(f) <==> Signed(a) <= Signed(b))
  {
    SubChainMeaning(a, b);
    SignedEqual(a, b);
  }

  lemma SignedEqual(a: seq<byte>, b: seq<byte>)
    requires |a| == |b| > 0
    ensures Signed(a) == Signed(b) <==> Value(a) == Value(b)
  {
    SignedIsValue(a);
    SignedIsValue(b);
    SignedBound(a);
    SignedBound(b);
    ValueBound(a);
    ValueBound(b);
  }

  lemma {:induction false} SignedBound(a: seq<byte>)
    requires a != []
    ensures -HalfRange(|a|) <= Signed(a) < HalfRange(|a|) && Pow256(|a|) == 2 * HalfRange(|a|)
  {
    if |a| == 1 {
      assert Pow256(1) == 0x100 * Pow256(0);
    } else {
      SignedBound(a[1..]);
    }
  }

  /** A signed number differs from the unsigned one by nothing or one carry. */
  lemma {:induction false} SignedIsValue(a: seq<byte>)
    requires a != []
    ensures Signed(a) == Value(a) - CarryOut(Signed(a) < 0, |a|)
  {
    if |a| == 1 {
      assert a[1..] == [] && Pow256(1) == 0x100 * Pow256(0);
    } else {
      SignedIsValue(a[1..]);
    }
  }

  lemma {:induction false} AddXChainValue(ccr: Flags, a: seq<byte>, b: seq<byte>)
    requires |a| == |b|
    decreases |a|
    ensures var r := AddXChain(ccr, a, b);
            Value(r.dest) + CarryOut(r.ccr.c, |a|) == Value(a) + Value(b) + ccr.C()
  {
    if a != [] {
      var r := AddX(ccr, a[0], b[0]);
      var rest := AddXChain(r.ccr, a[1..], b[1..]);
      AddMeaning(ccr, a[0], b[0]);
      AddXChainValue(r.ccr, a[1..], b[1..]);
      assert ([r.dest] + rest.dest)[1..] == rest.dest;
    }
  }

  /** Addition of any width: the sum, and the carry of the whole. */
  lemma AddChainMeaning(a: seq<byte>, b: seq<byte>)
    requires |a| == |b| > 0
    ensures var r := AddChain(a, b);
            Value(r.dest) + CarryOut(r.ccr.c, |a|) == Value(a) + Value(b)
  {
    var clear := Flags(false, false, false, false);
    assert AddX(clear, a[0], b[0]) == Add(a[0], b[0]);
    assert AddChain(a, b) == AddXChain(clear, a, b);
    AddXChainValue(clear, a, b);
  }
}
