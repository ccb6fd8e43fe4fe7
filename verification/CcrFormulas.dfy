/**
 The condition codes as the emulator computes them, by exclusive-ors, shifts and
 masks on the whole register, and what they come to.
 */
module CcrFormulas {
  import opened Words
  import Cpu

  /** The condition code register: I - H - N Z V C. */
  type Ccr = bv8

  predicate Carry(ccr: Ccr) { ccr & 0x01 != 0 }
  predicate Overflow(ccr: Ccr) { ccr & 0x02 != 0 }
  predicate Zero(ccr: Ccr) { ccr & 0x04 != 0 }
  predicate Negative(ccr: Ccr) { ccr & 0x08 != 0 }

  /** The four flags of a condition code register. */
  function Flags(ccr: Ccr): (r: Cpu.Flags) {
    Cpu.Flags(Negative(ccr), Zero(ccr), Overflow(ccr), Carry(ccr))
  }

  // ------------------------------------------------------------------- flags

  function SetNZ(ccr: Ccr, dest: bv8): (r: Ccr) {
    var c := ccr | ((dest >> 4) & 0x08);
    if dest == 0 then c | 0x04 else c
  }

  function SetNZV(ccr: Ccr, dest: bv8): (r: Ccr) {
    SetNZ(ccr & 0xf1, dest)
  }

  function SubFlags(ccr: Ccr, oval: bv8, src: bv8, dest: bv8): (r: Ccr) {
    SetNZ(ccr & 0xd0, dest)
      | ((((src ^ oval) & (dest ^ oval)) >> 6) & 0x02)
      | (((src ^ dest ^ oval) << 1) & 0x20)
      | (((src ^ ((src ^ dest) & (dest ^ oval))) >> 7) & 0x01)
  }

  function AddFlags(ccr: Ccr, oval: bv8, src: bv8, dest: bv8): (r: Ccr) {
    SetNZ(ccr & 0xd0, dest)
      | ((((src ^ dest) & (dest ^ oval)) >> 6) & 0x02)
      | (((src ^ dest ^ oval) << 1) & 0x20)
      | (((src ^ ((src ^ oval) & (dest ^ oval))) >> 7) & 0x01)
  }

  function SetNZ16(ccr: Ccr, dest: bv16): (r: Ccr) {
    var c := ccr | (((dest >> 12) & 0x08) as bv8);
    if dest == 0 then c | 0x04 else c
  }

  function SubFlags16(ccr: Ccr, oval: bv16, src: bv16, dest: bv16): (r: Ccr) {
    SetNZ16(ccr & 0xd0, dest)
      | (((((src ^ oval) & (dest ^ oval)) >> 14) & 0x02) as bv8)
      | ((((src ^ dest ^ oval) >> 7) & 0x20) as bv8)
      | ((((src ^ ((src ^ dest) & (dest ^ oval))) >> 15) & 0x01) as bv8)
  }

  function AddFlags16(ccr: Ccr, oval: bv16, src: bv16, dest: bv16): (r: Ccr) {
    SetNZ16(ccr & 0xd0, dest)
      | (((((src ^ dest) & (dest ^ oval)) >> 14) & 0x02) as bv8)
      | ((((src ^ dest ^ oval) >> 7) & 0x20) as bv8)
      | ((((src ^ ((src ^ oval) & (dest ^ oval))) >> 15) & 0x01) as bv8)
  }

  // ------------------------------------------------------- bits and numbers

  predicate Top(b: bv8) { b & 0x80 != 0 }

  predicate Top16(w: bv16) { w & 0x8000 != 0 }

  /** The formulas depend on the top bits (and the low half's borrow) only. */
  lemma SubFlagBits(ccr: Ccr, o: bv8, s: bv8, d: bv8)
    ensures var f := SubFlags(ccr, o, s, d);
            && (Carry(f) <==> Top(s) != (Top(s) != Top(d) && Top(d) != Top(o)))
            && (Overflow(f) <==> Top(s) != Top(o) && Top(d) != Top(o))
            && (Zero(f) <==> d == 0) && (Negative(f) <==> Top(d))
            && f & 0xd0 == ccr & 0xd0
  {
  }

  lemma AddFlagBits(ccr: Ccr, o: bv8, s: bv8, d: bv8)
    ensures var f := AddFlags(ccr, o, s, d);
            && (Carry(f) <==> Top(s) != (Top(s) != Top(o) && Top(d) != Top(o)))
            && (Overflow(f) <==> Top(s) != Top(d) && Top(d) != Top(o))
            && (Zero(f) <==> d == 0) && (Negative(f) <==> Top(d))
            && f & 0xd0 == ccr & 0xd0
  {
  }

  lemma SubFlagBits16(ccr: Ccr, o: bv16, s: bv16, d: bv16)
    ensures var f := SubFlags16(ccr, o, s, d);
            && (Carry(f) <==> Top16(s) != (Top16(s) != Top16(d) && Top16(d) != Top16(o)))
            && (Overflow(f) <==> Top16(s) != Top16(o) && Top16(d) != Top16(o))
            && (Zero(f) <==> d == 0) && (Negative(f) <==> Top16(d))
  {
  }

  lemma AddFlagBits16(ccr: Ccr, o: bv16, s: bv16, d: bv16)
    ensures var f := AddFlags16(ccr, o, s, d);
            && (Carry(f) <==> Top16(s) != (Top16(s) != Top16(o) && Top16(d) != Top16(o)))
            && (Zero(f) <==> d == 0) && (Negative(f) <==> Top16(d))
  {
  }

  lemma TopOfByte(b: byte)
    ensures Top(b as bv8) <==> b >= 0x80
    ensures b as bv8 == 0 <==> b == 0
  {
    TopBit8(b as bv8);
    AtLeastHalf8(b);
    ZeroByte(b);
  }

  lemma TopBit8(b: bv8)
    ensures Top(b) <==> b >= 0x80
  {
  }

  lemma AtLeastHalf8(b: byte)
    ensures b as bv8 >= 0x80 <==> b >= 0x80
  {
    AtLeastHalfBits8(b as bv8);
  }

  lemma AtLeastHalfBits8(b: bv8)
    ensures b >= 0x80 <==> b as int >= 0x80
  {
  }

  lemma ZeroByte(b: byte)
    ensures b as bv8 == 0 <==> b == 0
  {
  }

  lemma TopOfWord(w: word)
    ensures Top16(w as bv16) <==> w >= 0x8000
  {
    TopBit16(w as bv16);
    AtLeastHalf(w);
  }

  lemma TopBit16(b: bv16)
    ensures Top16(b) <==> b >= 0x8000
  {
  }

  lemma AtLeastHalf(w: word)
    ensures w as bv16 >= 0x8000 <==> w >= 0x8000
  {
    AtLeastHalfBits(w as bv16);
  }

  lemma AtLeastHalfBits(b: bv16)
    ensures b >= 0x8000 <==> b as int >= 0x8000
  {
  }

  lemma ZeroWord(w: word)
    ensures w as bv16 == 0 <==> w == 0
  {
  }

  // ------------------------------------------------------------- agreement

  /** The byte and word formulas give the flags of module Cpu, and touch no other
      bit than these and the half carry. */
  lemma ByteFormulasAgree(ccr: Ccr, o: byte, s: byte, d: byte)
    ensures Flags(SubFlags(ccr, o as bv8, s as bv8, d as bv8)) == Cpu.SubFlags(o, s, d)
    ensures Flags(AddFlags(ccr, o as bv8, s as bv8, d as bv8)) == Cpu.AddFlags(o, s, d)
    ensures SubFlags(ccr, o as bv8, s as bv8, d as bv8) & 0xd0 == ccr & 0xd0
    ensures AddFlags(ccr, o as bv8, s as bv8, d as bv8) & 0xd0 == ccr & 0xd0
  {
    SubFlagBits(ccr, o as bv8, s as bv8, d as bv8);
    AddFlagBits(ccr, o as bv8, s as bv8, d as bv8);
    TopOfByte(o);
    TopOfByte(s);
    TopOfByte(d);
  }

  lemma WordFormulasAgree(ccr: Ccr, o: word, s: word, d: word)
    ensures Flags(SubFlags16(ccr, o as bv16, s as bv16, d as bv16)) == Cpu.SubFlags16(o, s, d)
    ensures Flags(AddFlags16(ccr, o as bv16, s as bv16, d as bv16)) == Cpu.AddFlags16(o, s, d)
  {
    SubFlagBits16(ccr, o as bv16, s as bv16, d as bv16);
    AddFlagBits16(ccr, o as bv16, s as bv16, d as bv16);
    TopOfWord(o);
    TopOfWord(s);
    TopOfWord(d);
    ZeroWord(d);
  }

  /** Masking with the old register is what makes the zero flag of SUBX sticky. */
  lemma StickyZero(ccr: Ccr, f: Ccr)
    ensures Flags(f & (ccr | 0xfb)) == Flags(f).(z := Zero(f) && Zero(ccr))
  {
  }

  /** Moves, logical operations and counting keep the carry. */
  lemma MoveFormulaAgrees(ccr: Ccr, d: byte)
    ensures Flags(SetNZV(ccr, d as bv8)) == Cpu.NZV(Flags(ccr), d)
  {
    MoveFlagBits(ccr, d as bv8);
    TopOfByte(d);
  }

  lemma MoveFlagBits(ccr: Ccr, d: bv8)
    ensures Flags(SetNZV(ccr, d)) == Cpu.Flags(Top(d), d == 0, false, Carry(ccr))
  {
  }

  // -------------------------------------------------- rotation, not, counting

  function Rotated(ccr: Ccr, b: bv8): (r: bv8) { (b << 1) | (ccr & 1) }

  function RotateFlags(ccr: Ccr, b: bv8): (r: Ccr) {
    SetNZ((ccr & 0xf0) | (b >> 7), Rotated(ccr, b))
  }

  function DecFlags(ccr: Ccr, dest: bv8): (r: Ccr) {
    var c := SetNZV(ccr, dest);
    if dest == 0x7f then c | 0x02 else c
  }

  lemma RotateBits(ccr: Ccr, b: bv8)
    ensures Flags(RotateFlags(ccr, b)) == Cpu.Flags(Top(Rotated(ccr, b)), Rotated(ccr, b) == 0, false, Top(b))
    ensures Rotated(ccr, b) == if Carry(ccr) then (b << 1) | 1 else b << 1
  {
  }

  lemma DecBits(ccr: Ccr, d: bv8)
    ensures Flags(DecFlags(ccr, d)) == Cpu.Flags(Top(d), d == 0, d == 0x7f, Carry(ccr))
  {
  }

  /** A shift doubles and loses the top bit. */
  lemma ShiftDoubles(b: bv8)
    ensures (b << 1) as int == if b as int < 0x80 then 2 * (b as int) else 2 * (b as int) - 0x100
    ensures ((b << 1) | 1) as int == (b << 1) as int + 1
  {
  }

  lemma InvertMirrors(b: bv8)
    ensures (!b) as int == 0xff - b as int
  {
  }

  lemma DecrementWraps(b: bv8)
    ensures (b - 1) as int == if b == 0 then 0xff else b as int - 1
  {
  }

  lemma TopOfBits(b: bv8)
    ensures Top(b) <==> b as int >= 0x80
    ensures b == 0 <==> b as int == 0
    ensures b == 0x7f <==> b as int == 0x7f
  {
    TopBit8(b);
    AtLeastHalfBits8(b);
  }

  lemma RotatedValue(ccr: Ccr, b: bv8)
    ensures Rotated(ccr, b) as int == Cpu.RotXL(Flags(ccr), b as int).dest
  {
    RotateBits(ccr, b);
    ShiftDoubles(b);
  }

  /** ROTXL, NOT and DEC on registers are RotXL, Not and Dec on numbers: the byte
      and the flags. */
  lemma RotateOnBits(ccr: Ccr, b: bv8)
    ensures Flags(RotateFlags(ccr, b)) == Cpu.RotXL(Flags(ccr), b as int).ccr
  {
    RotatedValue(ccr, b);
    RotateBits(ccr, b);
    TopOfBits(Rotated(ccr, b));
    TopOfBits(b);
  }

  lemma NotOnBits(ccr: Ccr, b: bv8)
    ensures (!b) as int == Cpu.Not(Flags(ccr), b as int).dest
    ensures Flags(SetNZV(ccr, !b)) == Cpu.Not(Flags(ccr), b as int).ccr
  {
    InvertMirrors(b);
    TopOfBits(!b);
    MoveFlagBits(ccr, !b);
  }

  lemma DecOnBits(ccr: Ccr, b: bv8)
    ensures (b - 1) as int == Cpu.Dec(Flags(ccr), b as int).dest
    ensures Flags(DecFlags(ccr, b - 1)) == Cpu.Dec(Flags(ccr), b as int).ccr
  {
    DecrementWraps(b);
    TopOfBits(b - 1);
    DecBits(ccr, b - 1);
  }

  /** Every byte is the number of some eight bits, built from the top bit down. */
  lemma SomeBits(o: int) returns (b: bv8)
    requires 0 <= o < 0x100
    ensures b as int == o
  {
    if o == 0 {
      b := 0;
    } else {
      var half := SomeBits(o / 2);
      ShiftDoubles(half);
      b := if o % 2 == 0 then half << 1 else (half << 1) | 1;
    }
  }

  lemma BitsBack(b: bv8)
    ensures (b as int) as bv8 == b
  {
  }

  lemma ByteBack(o: byte)
    ensures (o as bv8) as int == o
  {
    var b := SomeBits(o);
    BitsBack(b);
  }

  lemma RotateFormulaAgrees(ccr: Ccr, o: byte)
    ensures Rotated(ccr, o as bv8) as int == Cpu.RotXL(Flags(ccr), o).dest
    ensures Flags(RotateFlags(ccr, o as bv8)) == Cpu.RotXL(Flags(ccr), o).ccr
  {
    RotatedValue(ccr, o as bv8);
    RotateOnBits(ccr, o as bv8);
    ByteBack(o);
  }

  lemma NotFormulaAgrees(ccr: Ccr, o: byte)
    ensures (!(o as bv8)) as int == Cpu.Not(Flags(ccr), o).dest
    ensures Flags(SetNZV(ccr, !(o as bv8))) == Cpu.Not(Flags(ccr), o).ccr
  {
    NotOnBits(ccr, o as bv8);
    ByteBack(o);
  }

  lemma DecFormulaAgrees(ccr: Ccr, o: byte)
    ensures (o as bv8 - 1) as int == Cpu.Dec(Flags(ccr), o).dest
    ensures Flags(DecFlags(ccr, o as bv8 - 1)) == Cpu.Dec(Flags(ccr), o).ccr
  {
    DecOnBits(ccr, o as bv8);
    ByteBack(o);
  }

  /** The masks the conditional branches test. */
  lemma BranchFormulasAgree(ccr: Ccr)
    ensures Cpu.Hi(Flags(ccr)) <==> ccr & 0x5 == 0
    ensures Cpu.Ls(Flags(ccr)) <==> ccr & 0x5 != 0
    ensures Cpu.Cc(Flags(ccr)) <==> ccr & 0x1 == 0
    ensures Cpu.Cs(Flags(ccr)) <==> ccr & 0x1 != 0
    ensures Cpu.Ge(Flags(ccr)) <==> ((ccr >> 2) ^ ccr) & 0x2 == 0
    ensures Cpu.Lt(Flags(ccr)) <==> ((ccr >> 2) ^ ccr) & 0x2 != 0
    ensures Cpu.Gt(Flags(ccr)) <==> (((ccr >> 2) & 2) ^ ccr) & 0x6 == 0
    ensures Cpu.Le(Flags(ccr)) <==> (((ccr >> 2) & 2) ^ ccr) & 0x6 != 0
  {
  }
}
