/**
 H8/300 byte and word arithmetic: results within the register width, and the
 condition codes N, Z, V and C.  The codes are given by the top bits of operands
 and result; module CcrFormulas shows that the emulator's shift-and-mask formulas
 on the whole register are the same.
 */
module Cpu {
  import opened Words

  datatype Flags = Flags(n: bool, z: bool, v: bool, c: bool) {
    function C(): (r: int) { BitOf(c) }
  }

  datatype Result8 = Result8(dest: byte, ccr: Flags)
  datatype Result16 = Result16(dest: word, ccr: Flags)

  function BitOf(c: bool): (r: int) { if c then 1 else 0 }

  /** A sum or difference of bytes, kept in a byte. */
  function ToByte(x: int): (r: byte)
    requires -0x100 <= x < 0x200
  {
    if x < 0 then x + 0x100 else if x < 0x100 then x else x - 0x100
  }

  function ToWord(x: int): (r: word)
    requires -0x10000 <= x < 0x20000
  {
    if x < 0 then x + 0x10000 else if x < 0x10000 then x else x - 0x10000
  }

  predicate Top(b: byte) { b >= 0x80 }
  predicate Top16(w: word) { w >= 0x8000 }

  // ------------------------------------------------------------------- flags

  function SubFlags(oval: byte, src: byte, dest: byte): (r: Flags) {
    var o, s, d := Top(oval), Top(src), Top(dest);
    Flags(d, dest == 0, s != o && d != o, s != (s != d && d != o))
  }

  function AddFlags(oval: byte, src: byte, dest: byte): (r: Flags) {
    var o, s, d := Top(oval), Top(src), Top(dest);
    Flags(d, dest == 0, s != d && d != o, s != (s != o && d != o))
  }

  function SubFlags16(oval: word, src: word, dest: word): (r: Flags) {
    var o, s, d := Top16(oval), Top16(src), Top16(dest);
    Flags(d, dest == 0, s != o && d != o, s != (s != d && d != o))
  }

  function AddFlags16(oval: word, src: word, dest: word): (r: Flags) {
    var o, s, d := Top16(oval), Top16(src), Top16(dest);
    Flags(d, dest == 0, s != d && d != o, s != (s != o && d != o))
  }

  /** N and Z from the result, V cleared, C kept. */
  function NZV(ccr: Flags, dest: byte): (r: Flags) {
    Flags(Top(dest), dest == 0, false, ccr.c)
  }

  // ------------------------------------------------------------ instructions

  function Add(oval: byte, src: byte): (r: Result8) {
    var dest := ToByte(oval + src);
    Result8(dest, AddFlags(oval, src, dest))
  }

  function AddX(ccr: Flags, oval: byte, src: byte): (r: Result8) {
    var dest := ToByte(oval + src + ccr.C());
    Result8(dest, AddFlags(oval, src, dest))
  }

  function Sub(oval: byte, src: byte): (r: Result8) {
    var dest := ToByte(oval - src);
    Result8(dest, SubFlags(oval, src, dest))
  }

  /** Subtract with borrow; the zero flag can only be cleared. */
  function SubX(ccr: Flags, oval: byte, src: byte): (r: Result8) {
    var dest := ToByte(oval - src - ccr.C());
    var f := SubFlags(oval, src, dest);
    Result8(dest, f.(z := f.z && ccr.z))
  }

  function AddW(oval: word, src: word): (r: Result16) {
    var dest := ToWord(oval + src);
    Result16(dest, AddFlags16(oval, src, dest))
  }

  function SubW(oval: word, src: word): (r: Result16) {
    var dest := ToWord(oval - src);
    Result16(dest, SubFlags16(oval, src, dest))
  }

  /** Rotate left through the carry. */
  function RotXL(ccr: Flags, oval: byte): (r: Result8) {
    var dest := ToByte(2 * oval + ccr.C());
    Result8(dest, Flags(Top(dest), dest == 0, false, Top(oval)))
  }

  function Not(ccr: Flags, oval: byte): (r: Result8) {
    var dest: byte := 0xff - oval;
    Result8(dest, NZV(ccr, dest))
  }

  function Dec(ccr: Flags, oval: byte): (r: Result8) {
    var dest := ToByte(oval - 1);
    Result8(dest, NZV(ccr, dest).(v := dest == 0x7f))
  }

  // ---------------------------------------------------------------- branches

  predicate Hi(f: Flags) { !f.c && !f.z }
  predicate Ls(f: Flags) { f.c || f.z }
  predicate Cc(f: Flags) { !f.c }
  predicate Cs(f: Flags) { f.c }
  predicate Ge(f: Flags) { f.n == f.v }
  predicate Lt(f: Flags) { f.n != f.v }
  predicate Gt(f: Flags) { !f.z && f.n == f.v }
  predicate Le(f: Flags) { f.z || f.n != f.v }

  // ---------------------------------------------------------- what they mean

  function Signed8(b: byte): (r: int) { if b < 0x80 then b else b - 0x100 }

  lemma SubMeaning(oval: byte, src: byte)
    ensures var r := Sub(oval, src);
            && r.dest == oval - src + 0x100 * r.ccr.C()
            && (r.ccr.v <==> !(-0x80 <= Signed8(oval) - Signed8(src) < 0x80))
  {
  }

  /** Every flag of SUBX is that of the byte difference, except that Z stays
      clear once it is clear. */
  lemma SubXMeaning(ccr: Flags, oval: byte, src: byte)
    ensures var r := SubX(ccr, oval, src);
            && r.dest == oval - src - ccr.C() + 0x100 * r.ccr.C()
            && (r.ccr.z <==> r.dest == 0 && ccr.z)
            && (r.ccr.v <==> !(-0x80 <= Signed8(oval) - Signed8(src) - ccr.C() < 0x80))
  {
  }

  lemma AddMeaning(ccr: Flags, oval: byte, src: byte)
    ensures var r := Add(oval, src); r.dest + 0x100 * r.ccr.C() == oval + src
    ensures var r := AddX(ccr, oval, src); r.dest + 0x100 * r.ccr.C() == oval + src + ccr.C()
  {
  }

  lemma WordMeaning(oval: word, src: word)
    ensures var r := SubW(oval, src); r.dest == oval - src + 0x10000 * r.ccr.C()
    ensures var r := AddW(oval, src); r.dest + 0x10000 * r.ccr.C() == oval + src
  {
  }

  lemma RotXLMeaning(ccr: Flags, oval: byte)
    ensures var r := RotXL(ccr, oval); r.dest + 0x100 * r.ccr.C() == 2 * oval + ccr.C()
  {
  }
}
