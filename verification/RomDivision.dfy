/**
 32-bit division in the ROM, instruction by instruction on the byte registers,
 proved against multiplication.
 */
module RomDivision {
  import opened Words
  import opened Cpu

  /** A register pair such as r5:r6, byte by byte from the top. */
  datatype Reg32 = Reg32(hh: byte, hl: byte, lh: byte, ll: byte) {
    function Val(): (r: int) { 0x1000000 * hh + Low24(hl, lh, ll) }
    function High(): (r: word) { Word(hh, hl) }
    function Low(): (r: word) { Word(lh, ll) }
  }

  function Word(h: byte, l: byte): (r: word) { 0x100 * h + l }

  function Low24(hl: byte, lh: byte, ll: byte): (r: int) { 0x10000 * hl + Word(lh, ll) }

  function HighByte(w: word): (r: byte) { w / 0x100 }

  function LowByte(w: word): (l: byte)
    ensures Word(HighByte(w), l) == w
  {
    w % 0x100
  }

  /** The product, by repeated addition; the proofs about states of a division use it
      so that each step is linear. */
  function Product(a: int, b: nat): (r: int)
    decreases b
  {
    if b == 0 then 0 else a + Product(a, b - 1)
  }

  lemma {:induction false} ProductIs(a: int, b: nat)
    ensures Product(a, b) == a * b
    decreases b
  {
    if b > 0 {
      ProductIs(a, b - 1);
      assert a * b == a + a * (b - 1);
    }
  }

  /** What division promises: quotient and remainder of `n` by `d`. */
  ghost predicate Divides(n: int, d: nat, q: int, r: int) {
    n == Product(q, d) + r && 0 <= r < d
  }

  // ------------------------------------------------------ one-byte divisors

  method Divided(w: word, d: byte) returns (q: word, r: byte)
    requires d != 0
    ensures Divides(w, d, q, r)
  {
    q, r := w / d, w % d;
    QuotientAndRemainder(w, d);
    ProductIs(q, d);
  }

  lemma QuotientAndRemainder(w: nat, d: nat)
    requires d > 0
    ensures w == (w / d) * d + w % d && 0 <= w % d < d
  {
  }

  lemma QuotientFits(w: nat, d: nat, q: nat, r: int)
    requires Divides(w, d, q, r) && w < 0x100 * d
    ensures q < 0x100
  {
    ProductIs(0x100, d);
    Cancel(q, 0x100, d);
  }

  lemma Unpack(q: byte, r: byte)
    ensures LowByte(Word(r, q)) == q && HighByte(Word(r, q)) == r
  {
  }

  /** DIVXU: quotient into the low byte, cut off to 8 bits, remainder into the high
      byte; a division by zero leaves the register alone. */
  method DivXU(dest: word, src: byte) returns (x: word)
    ensures src == 0 ==> x == dest
    ensures src != 0 ==> exists q: word :: Divides(dest, src, q, HighByte(x)) && LowByte(x) == LowByte(q)
    ensures src != 0 && dest < 0x100 * src ==> Divides(dest, src, LowByte(x), HighByte(x))
  {
    if src == 0 {
      return dest;
    }
    var q, r := Divided(dest, src);
    x := Word(r, LowByte(q));
    Unpack(LowByte(q), r);
    assert Divides(dest, src, q, HighByte(x)) && LowByte(x) == LowByte(q);
    if dest < 0x100 * src {
      QuotientFits(dest, src, q, r);
      Unpack(q, 0);
    }
  }

  /** DIVXU with the previous remainder in the high byte: one digit of a long
      division in base 256. */
  method DivideDigit(high: byte, low: byte, d: byte) returns (q: byte, r: byte)
    requires d != 0 ==> high < d
    ensures d != 0 ==> Divides(Word(high, low), d, q, r)
    ensures d == 0 ==> q == low && r == high
  {
    var x := DivXU(Word(high, low), d);
    q, r := LowByte(x), HighByte(x);
    if d == 0 {
      Unpack(low, high);
    }
  }

  /** One more digit of base 256. */
  lemma NextDigit(n: int, d: nat, q: int, s: int, low: int, digit: int, r: int)
    requires Divides(n, d, q, s) && Divides(0x100 * s + low, d, digit, r)
    ensures Divides(0x100 * n + low, d, 0x100 * q + digit, r)
  {
    ProductAdds(q, digit, d);
  }

  lemma ProductAdds(q: int, digit: int, d: nat)
    ensures Product(0x100 * q + digit, d) == 0x100 * Product(q, d) + Product(digit, d)
  {
    if d > 0 {
      ProductAdds(q, digit, d - 1);
    }
  }

  lemma Digits(n: Reg32, q: Reg32, s3: byte, s2: byte, s1: byte, s0: byte, d: byte)
    requires Divides(Word(0, n.hh), d, q.hh, s3) && Divides(Word(s3, n.hl), d, q.hl, s2)
    requires Divides(Word(s2, n.lh), d, q.lh, s1) && Divides(Word(s1, n.ll), d, q.ll, s0)
    ensures Divides(n.Val(), d, q.Val(), s0)
  {
    NextDigit(n.hh, d, q.hh, s3, n.hl, q.hl, s2);
    NextDigit(0x100 * n.hh + n.hl, d, 0x100 * q.hh + q.hl, s2, n.lh, q.lh, s1);
    NextDigit(0x100 * (0x100 * n.hh + n.hl) + n.lh, d, 0x100 * (0x100 * q.hh + q.hl) + q.lh, s1, n.ll, q.ll, s0);
  }

  lemma ZeroDigit(d: byte)
    ensures d != 0 ==> Divides(Word(0, 0), d, 0, 0)
  {
    ProductIs(0, d);
  }

  /** The label at which the division enters: that of the first nonzero byte. */
  method FirstDigit(n: Reg32) returns (entry: int)
    ensures 1 <= entry <= 4
    ensures entry <= 1 <==> n.hh != 0
    ensures entry <= 2 <==> n.hh != 0 || n.hl != 0
    ensures entry <= 3 <==> n.hh != 0 || n.hl != 0 || n.lh != 0
  {
    var r3l := n.hh;
    if r3l != 0 {
      return 1;
    }
    r3l := n.hl;
    if r3l != 0 {
      return 2;
    }
    r3l := n.lh;
    if r3l != 0 {
      return 3;
    }
    return 4;
  }

  /** The block at one label: divide unless the program entered further down. */
  method DigitUnlessSkipped(enter: bool, high: byte, low: byte, d: byte) returns (q: byte, r: byte)
    requires d != 0 ==> high < d
    requires !enter ==> high == 0 && low == 0
    ensures d != 0 ==> Divides(Word(high, low), d, q, r)
    ensures d == 0 || !enter ==> q == low && r == high
  {
    if enter {
      q, r := DivideDigit(high, low, d);
    } else {
      ZeroDigit(d);
      q, r := low, high;
    }
  }

  /** The four blocks, each on the remainder of the one before. */
  method FourDigits(n: Reg32, r4l: byte) returns (q: Reg32, s3: byte, s2: byte, s1: byte, s0: byte)
    ensures r4l != 0 ==>
              && Divides(Word(0, n.hh), r4l, q.hh, s3) && Divides(Word(s3, n.hl), r4l, q.hl, s2)
              && Divides(Word(s2, n.lh), r4l, q.lh, s1) && Divides(Word(s1, n.ll), r4l, q.ll, s0)
    ensures r4l == 0 ==> q == n && s0 == 0
  {
    var entry := FirstDigit(n);
    var r5h, r5l, r3l, r6l;
    r5h, s3 := DigitUnlessSkipped(entry <= 1, 0, n.hh, r4l);
    r5l, s2 := DigitUnlessSkipped(entry <= 2, s3, n.hl, r4l);
    r3l, s1 := DigitUnlessSkipped(entry <= 3, s2, n.lh, r4l);
    r6l, s0 := DivideDigit(s1, n.ll, r4l);
    q := Reg32(r5h, r5l, r3l, r6l);
  }

  /** The path for divisors of one byte, entered past the leading zero bytes of
      the dividend.  A zero divisor leaves the dividend as the quotient. */
  method ByteDivide(n: Reg32, r4l: byte) returns (q: Reg32, r: Reg32)
    ensures r4l != 0 ==> Divides(n.Val(), r4l, q.Val(), r.ll)
    ensures r4l == 0 ==> q == n && r.ll == 0
    ensures r == Reg32(0, 0, 0, r.ll)
  {
    var s3, s2, s1, s0;
    q, s3, s2, s1, s0 := FourDigits(n, r4l);
    r := Reg32(0, 0, 0, s0);
    if r4l != 0 {
      Digits(n, q, s3, s2, s1, s0, r4l);
    }
  }

  // -------------------------------------------------- shift and subtract

  function Pow2(k: nat): (p: nat)
    ensures p > 0
  {
    if k == 0 then 1 else 2 * Pow2(k - 1)
  }

  /** n modulo d, by repeated subtraction. */
  function Rest(n: nat, d: nat): (r: nat)
    requires d > 0
    ensures r < d && r <= n && r == n % d
    decreases n
  {
    if n < d then n
    else
      RestStep(n, d);
      Rest(n - d, d)
  }

  lemma RestStep(n: nat, d: nat)
    requires 0 < d <= n
    ensures n % d == (n - d) % d
  {
    assert n == (n / d) * d + n % d && n - d == ((n - d) / d) * d + (n - d) % d;
    var e := n / d - 1 - (n - d) / d;
    assert e * d == (n / d) * d - d - ((n - d) / d) * d;
    SmallMultiple(e, d);
  }

  lemma SmallMultiple(e: int, d: nat)
    requires 0 - d < e * d < d
    ensures e == 0
  {
  }

  /** Dividing `n` bit by bit, the remainder of what precedes any of the last `bits`
      bits, doubled and with that bit brought down, stays below `limit`. */
  ghost predicate Fits(n: nat, d: nat, bits: nat, limit: int)
    requires d > 0
  {
    bits == 0 || (Fits(n / 2, d, bits - 1, limit) && 2 * Rest(n / 2, d) + n % 2 < limit)
  }

  /** The shift register of a division after some steps: the part of the dividend
      not yet consumed, above the inverted bits of the quotient. */
  ghost predicate Shifting(x: int, c: int, todo: int, p: nat, h: int, q: int) {
    && 2 * x + c == 2 * Product(todo, p) + p - 1 - q
    && 0 <= todo < h && 0 <= q < p
  }

  lemma Cancel(x: int, y: int, p: nat)
    requires Product(x, p) < Product(y, p)
    ensures x < y
  {
    ProductIs(x, p);
    ProductIs(y, p);
    Ordered(y, x, p);
  }

  lemma Ordered(x: int, y: int, p: nat)
    ensures x <= y ==> x * p <= y * p
  {
    assert y * p == x * p + (y - x) * p;
  }

  /** What is left of `todo` once a bit of weight `h` has been consumed. */
  function Consumed(todo: int, b: int, h: int): (r: int) { if b == 1 then todo - h else todo }

  lemma Without(todo: int, h: int, p: nat, b: int)
    ensures Product(Consumed(todo, b, h), p) == Consumed(Product(todo, p), b, Product(h, p))
  {
    if p > 0 {
      Without(todo, h, p - 1, b);
    }
  }

  lemma Doubled(a: int, p: nat)
    ensures Product(a, 2 * p) == 2 * Product(a, p)
  {
    ProductIs(a, 2 * p);
    ProductIs(a, p);
    assert a * (2 * p) == 2 * (a * p);
  }

  lemma Constant(p: nat)
    ensures Product(-1, p) == 0 - p && Product(1, p) == p
  {
    ProductIs(-1, p);
    ProductIs(1, p);
  }

  /** One step of the shift register of `2 * size` numbers: the bit that leaves it is
      the next bit of the dividend, the carry `c2` the next inverted quotient bit. */
  lemma ShiftStep(x: int, c: int, todo: int, p: nat, h: int, q: int, x2: int, b: int, c2: int, size: int)
    requires Shifting(x, c, todo, p, 2 * h, q) && Product(h, p) == size && p > 0
    requires x2 == Consumed(2 * x + c, b, 2 * size) && 0 <= x2 < 2 * size
    requires 0 <= b <= 1 && 0 <= c2 <= 1
    ensures Shifting(x2, c2, Consumed(todo, b, h), 2 * p, h, 2 * q + 1 - c2)
  {
    var rest := Consumed(todo, b, h);
    Without(todo, h, p, b);
    Doubled(rest, p);
    Constant(p);
    assert x2 == 2 * Product(rest, p) + p - 1 - q;
    Cancel(-1, rest, p);
    Cancel(rest, h, p);
  }

  /** What the shift and subtract has achieved for the prefix `v` of the dividend:
      quotient and remainder of it, unless a partial remainder has overflowed, in
      which case they stay too small for ever. */
  ghost predicate Partial(v: nat, d: nat, bits: nat, limit: int, q: int, part: int) {
    && 0 <= part < d
    && (if Fits(v, d, bits, limit) then v == Product(q, d) + part else v > Product(q, d) + part)
  }

  lemma RemainderIsUnique(v: nat, d: nat, q: int, part: int)
    requires v == q * d + part && 0 <= part < d
    ensures v % d == part && v / d == q
  {
    var e := v / d - q;
    assert v == (v / d) * d + v % d;
    assert e * d == (v / d) * d - q * d;
    SmallMultiple(e, d);
  }

  /** In the usual terms. */
  lemma DividesMeans(n: nat, d: nat, q: int, r: int)
    ensures Divides(n, d, q, r) <==> n == q * d + r && 0 <= r < d
    ensures d > 0 ==> (Divides(n, d, q, r) <==> q == n / d && r == n % d)
  {
    ProductIs(q, d);
    if d > 0 {
      QuotientAndRemainder(n, d);
      if n == q * d + r && 0 <= r < d {
        RemainderIsUnique(n, d, q, r);
      }
    }
  }

  lemma DoubleQuotient(q: int, d: nat, c2: int)
    requires 0 <= c2 <= 1
    ensures Product(2 * q + 1 - c2, d) == 2 * Product(q, d) + (if c2 == 1 then 0 else d)
  {
    if d > 0 {
      DoubleQuotient(q, d - 1, c2);
    }
  }

  lemma PartialStep(v: nat, d: nat, bits: nat, limit: int, q: int, part: int, b: int, w: int, c2: int, part2: int)
    requires Partial(v, d, bits, limit, q, part) && 0 <= b <= 1 && d < limit
    requires w == if 2 * part + b < limit then 2 * part + b else 2 * part + b - limit
    requires c2 == if w < d then 1 else 0
    requires part2 == if w < d then w else w - d
    ensures Partial(2 * v + b, d, bits + 1, limit, 2 * q + 1 - c2, part2)
  {
    var v2 := 2 * v + b;
    assert v2 / 2 == v && v2 % 2 == b;
    DoubleQuotient(q, d, c2);
    if Fits(v, d, bits, limit) {
      DividesMeans(v, d, q, part);
    }
  }

  method Rotate16(ccr: Flags, h: byte, l: byte) returns (f: Flags, h2: byte, l2: byte)
    ensures Word(h2, l2) + 0x10000 * f.C() == 2 * Word(h, l) + ccr.C()
  {
    RotXLMeaning(ccr, l);
    var a := RotXL(ccr, l);
    RotXLMeaning(a.ccr, h);
    var b := RotXL(a.ccr, h);
    f, h2, l2 := b.ccr, b.dest, a.dest;
  }

  method Rotate24(ccr: Flags, r5l: byte, r6h: byte, r6l: byte)
    returns (f: Flags, s5l: byte, s6h: byte, s6l: byte)
    ensures Low24(s5l, s6h, s6l) + 0x1000000 * f.C() == 2 * Low24(r5l, r6h, r6l) + ccr.C()
  {
    f, s6h, s6l := Rotate16(ccr, r6h, r6l);
    RotXLMeaning(f, r5l);
    var a := RotXL(f, r5l);
    f, s5l := a.ccr, a.dest;
  }

  /** Compare and, unless that borrows, subtract: the carry tells whether it
      borrowed. */
  method TrySubtract(r3: word, r4: word) returns (f: Flags, s3: word)
    ensures f.c <==> r3 < r4
    ensures s3 == if r3 < r4 then r3 else r3 - r4
  {
    WordMeaning(r3, r4);
    var cmp := SubW(r3, r4);
    f, s3 := cmp.ccr, r3;
    if Cc(f) {
      var sub := SubW(s3, r4);
      f, s3 := sub.ccr, sub.dest;
    }
  }

  lemma {:induction false} PowersMeet(i: nat, j: nat)
    ensures Product(Pow2(i), Pow2(j)) == Pow2(i + j)
    decreases j
  {
    if j > 0 {
      PowersMeet(i, j - 1);
      Doubled(Pow2(i), Pow2(j - 1));
    } else {
      assert Product(Pow2(i), 1) == Pow2(i) + Product(Pow2(i), 0);
    }
  }

  /** The state of a division of `n` by `d` after `done` of `bits` steps. */
  ghost predicate Dividing(n: int, d: nat, limit: int, bits: nat, done: nat, v: nat, q: int, x: int, c: int, part: int)
    requires done <= bits
  {
    var h := Pow2(bits - done);
    var todo := n - Product(v, h);
    var holds := todo >= 0 && Shifting(x, c, todo, Pow2(done), h, q) && Partial(v, d, done, limit, q, part);
    holds
  }

  /** One step of the loop: the register `x2` and carry `c2`, the bit `b` that
      moved, and the new partial remainder. */
  lemma DividingStep(n: int, d: nat, limit: int, bits: nat, done: nat, v: nat, q: int, x: int, c: int,
                     part: int, x2: int, b: int, w: int, c2: int, part2: int)
    requires done < bits && d < limit
    requires Dividing(n, d, limit, bits, done, v, q, x, c, part)
    requires 0 <= b <= 1 && 0 <= x2 < Pow2(bits) && x2 == Consumed(2 * x + c, b, Pow2(bits))
    requires w == if 2 * part + b < limit then 2 * part + b else 2 * part + b - limit
    requires c2 == if w < d then 1 else 0
    requires part2 == if w < d then w else w - d
    ensures Dividing(n, d, limit, bits, done + 1, 2 * v + b, 2 * q + 1 - c2, x2, c2, part2)
  {
    var p, h := Pow2(done), Pow2(bits - done - 1);
    PowersMeet(bits - done - 1, done);
    assert Pow2(bits) == 2 * Pow2(bits - 1);
    PrefixGrows(v, b, h);
    ShiftStep(x, c, n - Product(v, 2 * h), p, h, q, x2, b, c2, Pow2(bits - 1));
    PartialStep(v, d, done, limit, q, part, b, w, c2, part2);
  }

  lemma PrefixGrows(v: int, b: int, h: nat)
    requires 0 <= b <= 1
    ensures Product(2 * v + b, h) == Product(v, 2 * h) + (if b == 1 then h else 0)
  {
    Doubled(v, h);
    GrowsByBit(v, b, h);
  }

  lemma GrowsByBit(v: int, b: int, h: nat)
    requires 0 <= b <= 1
    ensures Product(2 * v + b, h) == 2 * Product(v, h) + (if b == 1 then h else 0)
  {
    if h > 0 {
      GrowsByBit(v, b, h - 1);
    }
  }

  lemma Start(n: int, d: nat, limit: int, bits: nat, v: nat, x: int)
    requires 0 <= v < d && 0 <= x < Pow2(bits) && n == Product(v, Pow2(bits)) + x
    ensures Dividing(n, d, limit, bits, 0, v, 0, x, 0, v)
  {
    ProductIs(0, d);
    assert Product(x, 1) == x + Product(x, 0);
  }

  lemma Finish(n: int, d: nat, limit: int, bits: nat, v: nat, q: int, x: int, c: int, part: int)
    requires Dividing(n, d, limit, bits, bits, v, q, x, c, part)
    ensures n >= 0 && 0 <= part < d && (Fits(n, d, bits, limit) <==> Divides(n, d, q, part))
    ensures 2 * x + c == Pow2(bits) - 1 - q && 0 <= q < Pow2(bits)
  {
    assert Product(v, 1) == v + Product(v, 0);
    ProductIs(0, Pow2(bits));
  }

  /** One pass of the loop over r3:r5l:r6. */
  method WordPass(ccr: Flags, r3: word, r5l: byte, r6h: byte, r6l: byte, r4: word)
    returns (f: Flags, s3: word, s5l: byte, s6h: byte, s6l: byte, ghost b: int, ghost w: int)
    ensures 0 <= b <= 1 && Low24(s5l, s6h, s6l) == Consumed(2 * Low24(r5l, r6h, r6l) + ccr.C(), b, 0x1000000)
    ensures var twice := 2 * r3 + b; w == if twice < 0x10000 then twice else twice - 0x10000
    ensures f.c <==> w < r4
    ensures s3 == if w < r4 then w else w - r4
  {
    var s3h, s3l;
    f, s5l, s6h, s6l := Rotate24(ccr, r5l, r6h, r6l);
    b := f.C();
    f, s3h, s3l := Rotate16(f, HighByte(r3), LowByte(r3));
    w := Word(s3h, s3l);
    f, s3 := TrySubtract(Word(s3h, s3l), r4);
  }

  lemma WordDividingStep(n: int, d: nat, done: nat, v: nat, q: int, x: int, c: int, part: int,
                         x2: int, b: int, w: int, c2: int, part2: int)
    requires done < 24 && d < 0x10000
    requires Dividing(n, d, 0x10000, 24, done, v, q, x, c, part)
    requires 0 <= b <= 1 && 0 <= x2 < 0x1000000 && x2 == Consumed(2 * x + c, b, 0x1000000)
    requires w == if 2 * part + b < 0x10000 then 2 * part + b else 2 * part + b - 0x10000
    requires c2 == if w < d then 1 else 0
    requires part2 == if w < d then w else w - d
    ensures Dividing(n, d, 0x10000, 24, done + 1, 2 * v + b, 2 * q + 1 - c2, x2, c2, part2)
  {
    Constants();
    DividingStep(n, d, 0x10000, 24, done, v, q, x, c, part, x2, b, w, c2, part2);
  }

  method WordStep(ghost n: int, ghost done: nat, ghost v: nat, ghost quot: int,
                  ccr: Flags, r3: word, r5l: byte, r6h: byte, r6l: byte, r4: word)
    returns (f: Flags, s3: word, s5l: byte, s6h: byte, s6l: byte, ghost v2: nat, ghost quot2: int)
    requires done < 24
    requires Dividing(n, r4, 0x10000, 24, done, v, quot, Low24(r5l, r6h, r6l), ccr.C(), r3)
    ensures Dividing(n, r4, 0x10000, 24, done + 1, v2, quot2, Low24(s5l, s6h, s6l), f.C(), s3)
  {
    ghost var b, w;
    f, s3, s5l, s6h, s6l, b, w := WordPass(ccr, r3, r5l, r6h, r6l, r4);
    WordDividingStep(n, r4, done, v, quot, Low24(r5l, r6h, r6l), ccr.C(), r3,
                     Low24(s5l, s6h, s6l), b, w, f.C(), s3);
    v2, quot2 := 2 * v + b, 2 * quot + 1 - f.C();
  }

  lemma Constants()
    ensures Pow2(16) == 0x10000 && Pow2(24) == 0x1000000
  {
    assert Pow2(4) == 16;
    PowersMeet(4, 4);
    PowersMeet(8, 8);
    PowersMeet(16, 8);
  }

  /** The last rotation brings in the last quotient bit; inverting gives the quotient. */
  method ShiftOut24(ccr: Flags, r5l: byte, r6h: byte, r6l: byte, ghost q: int) returns (quotient: Reg32)
    requires 2 * Low24(r5l, r6h, r6l) + ccr.C() == 0xffffff - q && 0 <= q < 0x1000000
    ensures quotient.Val() == q
  {
    var f, s5l, s6h, s6l := Rotate24(ccr, r5l, r6h, r6l);
    quotient := Reg32(0, Not(f, s5l).dest, Not(f, s6h).dest, Not(f, s6l).dest);
  }

  /** The path for divisors of two bytes: the remainder is always below the divisor,
      the quotient too small exactly if a partial remainder leaves 16 bits. */
  method WordDivide(n: Reg32, r4: word) returns (q: Reg32, r: Reg32)
    requires r4 >= 0x100
    ensures r.Val() < r4
    ensures Fits(n.Val(), r4, 24, 0x10000) <==> Divides(n.Val(), r4, q.Val(), r.Val())
  {
    var f := Sub(HighByte(r4), 0).ccr;
    var r3: word, r5l, r6h, r6l, r5h := n.hh, n.hl, n.lh, n.ll, 24;
    ghost var v: nat, quot: int := n.hh, 0;
    Constants();
    ProductIs(n.hh, 0x1000000);
    Start(n.Val(), r4, 0x10000, 24, v, Low24(r5l, r6h, r6l));
    while r5h != 0
      invariant 0 <= r5h <= 24
      invariant Dividing(n.Val(), r4, 0x10000, 24, 24 - r5h, v, quot, Low24(r5l, r6h, r6l), f.C(), r3)
    {
      f, r3, r5l, r6h, r6l, v, quot := WordStep(n.Val(), 24 - r5h, v, quot, f, r3, r5l, r6h, r6l, r4);
      f := Dec(f, r5h).ccr;
      r5h := r5h - 1;
    }
    Finish(n.Val(), r4, 0x10000, 24, v, quot, Low24(r5l, r6h, r6l), f.C(), r3);
    q := ShiftOut24(f, r5l, r6h, r6l, quot);
    r := Reg32(0, 0, HighByte(r3), LowByte(r3));
  }

  // ----------------------------------------------------- long divisors

  const TWO32 := 0x1_0000_0000

  method Subtract32(p: Reg32, d: Reg32) returns (f: Flags, s: Reg32)
    ensures s.Val() == p.Val() - d.Val() + TWO32 * f.C()
  {
    WordMeaning(p.Low(), d.Low());
    var low := SubW(p.Low(), d.Low());
    SubXMeaning(low.ccr, p.hl, d.hl);
    var mid := SubX(low.ccr, p.hl, d.hl);
    SubXMeaning(mid.ccr, p.hh, d.hh);
    var top := SubX(mid.ccr, p.hh, d.hh);
    f, s := top.ccr, Reg32(top.dest, mid.dest, HighByte(low.dest), LowByte(low.dest));
  }

  method Add32(p: Reg32, d: Reg32) returns (f: Flags, s: Reg32)
    ensures s.Val() + TWO32 * f.C() == p.Val() + d.Val()
  {
    WordMeaning(p.Low(), d.Low());
    var low := AddW(p.Low(), d.Low());
    AddMeaning(low.ccr, p.hl, d.hl);
    var mid := AddX(low.ccr, p.hl, d.hl);
    AddMeaning(mid.ccr, p.hh, d.hh);
    var top := AddX(mid.ccr, p.hh, d.hh);
    f, s := top.ccr, Reg32(top.dest, mid.dest, HighByte(low.dest), LowByte(low.dest));
  }

  /** Subtract and, if that borrowed, add back: the carry of the addition is the
      borrow once more. */
  method Restore(p: Reg32, d: Reg32) returns (f: Flags, s: Reg32)
    ensures f.c <==> p.Val() < d.Val()
    ensures s.Val() == if p.Val() < d.Val() then p.Val() else p.Val() - d.Val()
  {
    f, s := Subtract32(p, d);
    if !Cc(f) {
      f, s := Add32(s, d);
    }
  }

  /** One pass of the loop over r0:r5:r6. */
  method LongPass(ccr: Flags, p: Reg32, r6h: byte, r6l: byte, d: Reg32)
    returns (f: Flags, p2: Reg32, s6h: byte, s6l: byte, ghost b: int, ghost w: int)
    ensures 0 <= b <= 1 && Word(s6h, s6l) == Consumed(2 * Word(r6h, r6l) + ccr.C(), b, 0x10000)
    ensures var twice := 2 * p.Val() + b; w == if twice < TWO32 then twice else twice - TWO32
    ensures f.c <==> w < d.Val()
    ensures p2.Val() == if w < d.Val() then w else w - d.Val()
  {
    var r5h, r5l, r0h, r0l;
    f, s6h, s6l := Rotate16(ccr, r6h, r6l);
    b := f.C();
    f, r5h, r5l := Rotate16(f, p.lh, p.ll);
    f, r0h, r0l := Rotate16(f, p.hh, p.hl);
    var shifted := Reg32(r0h, r0l, r5h, r5l);
    w := shifted.Val();
    f, p2 := Restore(shifted, d);
  }

  lemma LongDividingStep(n: int, d: nat, done: nat, v: nat, q: int, x: int, c: int, part: int,
                         x2: int, b: int, w: int, c2: int, part2: int)
    requires done < 16 && d < TWO32
    requires Dividing(n, d, TWO32, 16, done, v, q, x, c, part)
    requires 0 <= b <= 1 && 0 <= x2 < 0x10000 && x2 == Consumed(2 * x + c, b, 0x10000)
    requires w == if 2 * part + b < TWO32 then 2 * part + b else 2 * part + b - TWO32
    requires c2 == if w < d then 1 else 0
    requires part2 == if w < d then w else w - d
    ensures Dividing(n, d, TWO32, 16, done + 1, 2 * v + b, 2 * q + 1 - c2, x2, c2, part2)
  {
    Constants();
    DividingStep(n, d, TWO32, 16, done, v, q, x, c, part, x2, b, w, c2, part2);
  }

  method LongStep(ghost n: int, ghost done: nat, ghost v: nat, ghost quot: int,
                  ccr: Flags, p: Reg32, r6h: byte, r6l: byte, d: Reg32)
    returns (f: Flags, p2: Reg32, s6h: byte, s6l: byte, ghost v2: nat, ghost quot2: int)
    requires done < 16
    requires Dividing(n, d.Val(), TWO32, 16, done, v, quot, Word(r6h, r6l), ccr.C(), p.Val())
    ensures Dividing(n, d.Val(), TWO32, 16, done + 1, v2, quot2, Word(s6h, s6l), f.C(), p2.Val())
  {
    ghost var b, w;
    f, p2, s6h, s6l, b, w := LongPass(ccr, p, r6h, r6l, d);
    LongDividingStep(n, d.Val(), done, v, quot, Word(r6h, r6l), ccr.C(), p.Val(),
                     Word(s6h, s6l), b, w, f.C(), p2.Val());
    v2, quot2 := 2 * v + b, 2 * quot + 1 - f.C();
  }

  method ShiftOut16(ccr: Flags, r6h: byte, r6l: byte, ghost q: int) returns (quotient: Reg32)
    requires 2 * Word(r6h, r6l) + ccr.C() == 0xffff - q && 0 <= q < 0x10000
    ensures quotient.Val() == q
  {
    var f, s6h, s6l := Rotate16(ccr, r6h, r6l);
    quotient := Reg32(0, 0, Not(f, s6h).dest, Not(f, s6l).dest);
  }

  /** No partial remainder exceeds the dividend. */
  lemma {:induction false} SmallFits(n: nat, d: nat, bits: nat, limit: int)
    requires d > 0 && n < limit
    ensures Fits(n, d, bits, limit)
  {
    if bits > 0 {
      SmallFits(n / 2, d, bits - 1, limit);
      assert (n / 2) % d <= n / 2;
    }
  }

  /** The path for divisors of more than two bytes: restoring division, right for
      every dividend. */
  method LongDivide(n: Reg32, d: Reg32) returns (q: Reg32, r: Reg32)
    requires d.Val() >= 0x10000
    ensures Divides(n.Val(), d.Val(), q.Val(), r.Val())
  {
    var f := SubW(0, 0).ccr;
    var p, r6h, r6l, r1l := Reg32(0, 0, n.hh, n.hl), n.lh, n.ll, 16;
    ghost var v: nat, quot: int := n.High(), 0;
    Constants();
    ProductIs(n.High(), 0x10000);
    Start(n.Val(), d.Val(), TWO32, 16, v, n.Low());
    while r1l != 0
      invariant 0 <= r1l <= 16
      invariant Dividing(n.Val(), d.Val(), TWO32, 16, 16 - r1l, v, quot, Word(r6h, r6l), f.C(), p.Val())
    {
      f, p, r6h, r6l, v, quot := LongStep(n.Val(), 16 - r1l, v, quot, f, p, r6h, r6l, d);
      f := Dec(f, r1l).ccr;
      r1l := r1l - 1;
    }
    Finish(n.Val(), d.Val(), TWO32, 16, v, quot, Word(r6h, r6l), f.C(), p.Val());
    SmallFits(n.Val(), d.Val(), 16, TWO32);
    q := ShiftOut16(f, r6h, r6l, quot);
    r := p;
  }

  // ------------------------------------------------------- whole divisions

  /** The dividends and divisors on which the routine divides correctly. */
  ghost predicate Divisible(n: nat, d: nat) {
    0 < d < 0x100 || (0x100 <= d < 0x10000 && Fits(n, d, 24, 0x10000)) || d >= 0x10000
  }

  /** Unsigned division: quotient and remainder exactly when `Divisible`; division
      by zero leaves the dividend. */
  method UDivModSi3(n: Reg32, d: Reg32) returns (q: Reg32, r: Reg32)
    ensures Divisible(n.Val(), d.Val()) <==> Divides(n.Val(), d.Val(), q.Val(), r.Val())
    ensures d.Val() != 0 ==> r.Val() < d.Val()
    ensures d.Val() == 0 ==> q == n && r.Val() == 0
  {
    if d.High() != 0 {
      q, r := LongDivide(n, d);
    } else if d.lh != 0 {
      q, r := WordDivide(n, d.Low());
    } else {
      q, r := ByteDivide(n, d.ll);
    }
  }

  lemma {:induction false} SmallDivisorsFit(n: nat, d: nat, bits: nat)
    requires 0 < d <= 0x8000
    ensures Fits(n, d, bits, 0x10000)
  {
    if bits > 0 {
      SmallDivisorsFit(n / 2, d, bits - 1);
    }
  }

  /** Every divisor above 0x8000 that fits a word fails on the dividend 0x10000. */
  lemma LargeWordsFail(d: nat)
    requires 0x8000 < d < 0x10000
    ensures !Fits(0x10000, d, 24, 0x10000)
  {
    assert 0x10000 / 2 == 0x8000 && 0x8000 % d == 0x8000;
  }

  /** The divisors that are right for every dividend. */
  lemma SafeDivisors(d: nat)
    ensures (forall n: nat | n < TWO32 :: Divisible(n, d)) <==> 0 < d <= 0x8000 || d >= 0x10000
  {
    if 0x8000 < d < 0x10000 {
      LargeWordsFail(d);
      assert !Divisible(0x10000, d);
    } else if d == 0 {
      assert !Divisible(0, d);
    } else {
      forall n: nat | n < TWO32 ensures Divisible(n, d) {
        if d <= 0x8000 { SmallDivisorsFit(n, d, 24); }
      }
    }
  }

  // -------------------------------------------------------- signed division

  function Abs(x: int): (r: nat) { if x < 0 then -x else x }

  /** The number a register pair holds as a two's complement number. */
  function SignedVal(x: Reg32): (r: int) { if x.hh < 0x80 then x.Val() else x.Val() - TWO32 }

  /** The register contents of a number between -2^31 and 2^31. */
  function Wrap32(x: int): (r: int) { if x < 0 then x + TWO32 else x }

  /** Division that truncates towards zero, and its remainder. */
  function TruncDiv(a: int, b: int): (r: int)
    requires b != 0
  {
    if (a < 0) == (b < 0) then Abs(a) / Abs(b) else -(Abs(a) / Abs(b))
  }

  function TruncMod(a: int, b: int): (r: int)
    requires b != 0
  {
    if a < 0 then -(Abs(a) % Abs(b)) else Abs(a) % Abs(b)
  }

  /** They are a quotient and remainder; the remainder has the dividend's sign. */
  lemma TruncatingDivision(a: int, b: int)
    requires b != 0
    ensures a == TruncDiv(a, b) * b + TruncMod(a, b)
    ensures Abs(TruncMod(a, b)) < Abs(b)
    ensures TruncMod(a, b) == 0 || (TruncMod(a, b) < 0 <==> a < 0)
  {
    var q, r := Abs(a) / Abs(b), Abs(a) % Abs(b);
    assert Abs(a) == q * Abs(b) + r;
    assert TruncDiv(a, b) * b == (if a < 0 then -(q * Abs(b)) else q * Abs(b));
  }

  /** Invert all bytes and add one. */
  method Negate(x: Reg32) returns (y: Reg32)
    ensures y.Val() == if x.Val() == 0 then 0 else TWO32 - x.Val()
    ensures x.hh >= 0x80 ==> SignedVal(x) == -y.Val()
  {
    var f := Add(0, 0).ccr;
    var ll, lh, hl, hh := Not(f, x.ll).dest, Not(f, x.lh).dest, Not(f, x.hl).dest, Not(f, x.hh).dest;
    AddMeaning(f, ll, 1);
    var a := Add(ll, 1);
    AddMeaning(a.ccr, lh, 0);
    var b := AddX(a.ccr, lh, 0);
    AddMeaning(b.ccr, hl, 0);
    var c := AddX(b.ccr, hl, 0);
    AddMeaning(c.ccr, hh, 0);
    var d := AddX(c.ccr, hh, 0);
    y := Reg32(d.dest, c.dest, b.dest, a.dest);
  }

  predicate Minus(x: Reg32) { x.hh >= 0x80 }

  /** What negation in a register does to a magnitude. */
  function Negated(x: int): (r: int) { if x == 0 then 0 else TWO32 - x }

  /** Magnitudes divided as unsigned numbers and negated by the signs. */
  ghost predicate SignsRestored(a: int, b: int, n: Reg32, d: Reg32, uq: Reg32, ur: Reg32, q: Reg32, r: Reg32) {
    && n.Val() == Abs(a) && d.Val() == Abs(b)
    && (Divisible(n.Val(), d.Val()) <==> Divides(n.Val(), d.Val(), uq.Val(), ur.Val()))
    && (d.Val() == 0 ==> uq == n && ur.Val() == 0)
    && q.Val() == (if (a < 0) == (b < 0) then uq.Val() else Negated(uq.Val()))
    && r.Val() == (if a < 0 then Negated(ur.Val()) else ur.Val())
  }

  lemma SignedResult(a: int, b: int, n: Reg32, d: Reg32, uq: Reg32, ur: Reg32, q: Reg32, r: Reg32)
    requires SignsRestored(a, b, n, d, uq, ur, q, r) && b != 0
    ensures Divisible(Abs(a), Abs(b)) <==>
            q.Val() == Wrap32(TruncDiv(a, b)) && r.Val() == Wrap32(TruncMod(a, b))
  {
    DividesMeans(Abs(a), Abs(b), uq.Val(), ur.Val());
    QuotientAtMost(Abs(a), Abs(b));
  }

  lemma QuotientAtMost(n: nat, d: nat)
    requires d > 0
    ensures 0 <= n / d <= n && 0 <= n % d <= n
  {
    ProductAtLeast(n / d, d);
  }

  lemma ProductAtLeast(q: nat, d: nat)
    requires d > 0
    ensures q * d >= q
  {
  }

  method DivideByMinus(n: Reg32, d: Reg32) returns (q: Reg32, r: Reg32, ghost e: Reg32, ghost uq: Reg32)
    requires !Minus(n) && Minus(d)
    ensures SignsRestored(SignedVal(n), SignedVal(d), n, e, uq, r, q, r)
  {
    var f := Negate(d);
    q, r := UDivModSi3(n, f);
    e, uq := f, q;
    q := Negate(q);
  }

  method DivideMinus(n: Reg32, d: Reg32)
    returns (q: Reg32, r: Reg32, ghost m: Reg32, ghost e: Reg32, ghost uq: Reg32, ghost ur: Reg32)
    requires Minus(n)
    ensures SignsRestored(SignedVal(n), SignedVal(d), m, e, uq, ur, q, r)
  {
    var k := Negate(n);
    m := k;
    if Minus(d) {
      var f := Negate(d);
      q, r := UDivModSi3(k, f);
      e, uq, ur := f, q, r;
    } else {
      q, r := UDivModSi3(k, d);
      e, uq, ur := d, q, r;
      q := Negate(q);
    }
    r := Negate(r);
  }

  /** Signed division, modulo 2^32, truncating towards zero exactly when the
      magnitudes are `Divisible`. */
  method DivModSi3(n: Reg32, d: Reg32) returns (q: Reg32, r: Reg32)
    ensures var a, b := SignedVal(n), SignedVal(d);
            b != 0 ==> (Divisible(Abs(a), Abs(b)) <==>
                        q.Val() == Wrap32(TruncDiv(a, b)) && r.Val() == Wrap32(TruncMod(a, b)))
    ensures d.Val() == 0 ==> q.Val() == n.Val() && r.Val() == 0
  {
    ghost var a, b := SignedVal(n), SignedVal(d);
    ghost var m, e, uq, ur;
    if Minus(n) {
      q, r, m, e, uq, ur := DivideMinus(n, d);
    } else if Minus(d) {
      q, r, e, uq := DivideByMinus(n, d);
      m, ur := n, r;
    } else {
      q, r := UDivModSi3(n, d);
      m, e, uq, ur := n, d, q, r;
    }
    if b != 0 {
      SignedResult(a, b, m, e, uq, ur, q, r);
    }
  }
}
