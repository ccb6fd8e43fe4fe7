/**
 The LCD on its two-wire bus: the chip that decodes port writes, and the ROM routine
 that makes them.  Start and stop conditions and the byte format are those of
 sections 3.1.4 and 3.1.5 of the I2C-bus specification UM10204; the clock of the
 acknowledge bit (section 3.1.6) is given but the bit is not read.
 */
module LcdLink {
  import opened Words

  const CELLS := 12
  const LCD_DEV_ID: byte := 0x7c
  const STOPPED := -1

  /** What the chip knows; `state` is -1 stopped or ignoring, 0 waiting for the device
      id, 1 for commands, 2 for data. */
  datatype Chip = Chip(state: int, mode: byte, ptr: int, subaddr: int, cells: seq<byte>)

  // ------------------------------------------------------------ whole bytes

  /** A sum kept in a signed byte. */
  function Int8(x: int): (r: int)
    requires -0x80 <= x < 0x100
  {
    if x < 0x80 then x else x - 0x100
  }

  function Display(cells: seq<byte>, i: int, b: byte): (r: seq<byte>)
    ensures |r| == |cells|
  {
    if 0 <= i < |cells| then cells[i := b] else cells
  }

  function Command(c: Chip, b: byte): (r: Chip) {
    var kind := b / 0x20 % 4;
    var d :=
      if kind == 2 then c.(mode := b % 0x20)
      else if kind == 0 then c.(ptr := b % 0x20)
      else if kind == 3 then c.(subaddr := b % 8)
      else c;
    if b < 0x80 then d.(state := 2) else d
  }

  function Data(c: Chip, b: byte): (r: Chip)
    requires -0x80 <= c.ptr < 0x80
  {
    if c.subaddr == 0 then c.(cells := Display(c.cells, c.ptr / 2, b), ptr := Int8(c.ptr + 2)) else c
  }

  /** The effect of one received byte; a chip that is not listening ignores it. */
  function Process(c: Chip, b: byte): (r: Chip)
    requires -0x80 <= c.ptr < 0x80
    ensures -0x80 <= r.ptr < 0x80
  {
    if c.state == 0 then c.(state := if b == LCD_DEV_ID then 1 else STOPPED)
    else if c.state == 1 then Command(c, b)
    else if c.state == 2 then Data(c, b)
    else c
  }

  function ProcessAll(c: Chip, bytes: seq<byte>): (r: Chip)
    requires -0x80 <= c.ptr < 0x80
    ensures -0x80 <= r.ptr < 0x80
    decreases |bytes|
  {
    if bytes == [] then c
    else
      var n := |bytes| - 1;
      Process(ProcessAll(c, bytes[..n]), bytes[n])
  }

  /** A whole transfer: from the start condition to the stop condition. */
  function Received(c: Chip, bytes: seq<byte>): (r: Chip)
    requires -0x80 <= c.ptr < 0x80
  {
    ProcessAll(c.(state := 0), bytes).(state := STOPPED)
  }

  // ----------------------------------------------------------- single writes

  /** The weight of bit k. */
  function Weight(k: int): (r: nat) {
    if k == 0 then 1 else if k == 1 then 2 else if k == 2 then 4 else if k == 3 then 8
    else if k == 4 then 0x10 else if k == 5 then 0x20 else if k == 6 then 0x40 else 0x80
  }

  /** x shifted left by k bits. */
  function Shifted(x: int, k: int): (r: int) {
    if k == 0 then x else if k == 1 then 2 * x else if k == 2 then 4 * x else if k == 3 then 8 * x
    else if k == 4 then 0x10 * x else if k == 5 then 0x20 * x else if k == 6 then 0x40 * x else 0x80 * x
  }

  /** The receiver between two port writes: the chip, the number of the last bit
      received, the bits so far, and the two lines. */
  datatype Receiver = Receiver(chip: Chip, bit: int, shift: int, clock: bool, data: bool)

  ghost predicate ChipOk(c: Chip) {
    -1 <= c.state <= 2 && -0x80 <= c.ptr < 0x80 && |c.cells| == CELLS
  }

  /** A listening chip has received some leading bits of a byte, and no others. */
  ghost predicate Sound(r: Receiver) {
    && ChipOk(r.chip)
    && (r.chip.state >= 0 ==>
          -1 <= r.bit < 8 && 0 <= r.shift <= (if r.bit < 0 then 0 else 0x100 - Weight(7 - r.bit)))
  }

  /** A write to the two lines. */
  function SetPort(r: Receiver, clock: bool, data: bool): (s: Receiver)
    requires Sound(r)
  {
    var s :=
      if !clock then r
      else if !r.clock && r.chip.state >= 0 then Rising(r, data)
      else if r.data && !data then r.(chip := r.chip.(state := 0), bit := -1, shift := 0)
      else if !r.data && data then r.(chip := r.chip.(state := STOPPED))
      else r;
    s.(clock := clock, data := data)
  }

  /** A rising clock: one more bit, or after eight bits the acknowledge clock. */
  function Rising(r: Receiver, data: bool): (s: Receiver)
    requires Sound(r) && r.chip.state >= 0
  {
    if r.bit < 7 then r.(bit := r.bit + 1, shift := r.shift + (if data then Weight(6 - r.bit) else 0))
    else r.(chip := Process(r.chip, r.shift), bit := -1, shift := 0)
  }

  class Lcd {
    var mode: byte
    var ptr: int
    var subaddr: int
    var cells: seq<byte>
    var state: int
    var bit: int
    var shift: int
    var clock: bool
    var data: bool

    ghost function Now(): (r: Receiver)
      reads this
    {
      Receiver(Chip(state, mode, ptr, subaddr, cells), bit, shift, clock, data)
    }

    ghost predicate Valid()
      reads this
    {
      Sound(Now())
    }

    /** A display just switched on: blank and not listening. */
    constructor ()
      ensures Valid()
      ensures Now() == Receiver(Chip(STOPPED, 0, 0, 0, seq(CELLS, i => 0)), 0, 0, false, false)
    {
      state, mode, ptr, subaddr := STOPPED, 0, 0, 0;
      cells := seq(CELLS, i => 0);
      bit, shift, clock, data := 0, 0, false, false;
    }

    /** Acts on a complete byte. */
    method Interpret(b: byte)
      requires ChipOk(Now().chip)
      modifies `state, `mode, `ptr, `subaddr, `cells
      ensures ChipOk(Now().chip) && Now() == old(Now()).(chip := Process(old(Now()).chip, b))
    {
      if state == 0 {
        state := if b == LCD_DEV_ID then 1 else STOPPED;
      } else if state == 1 {
        var kind := b / 0x20 % 4;
        if kind == 2 {
          mode := b % 0x20;
        } else if kind == 0 {
          ptr := b % 0x20;
        } else if kind == 3 {
          subaddr := b % 8;
        }
        if b < 0x80 {
          state := 2;
        }
      } else if state == 2 {
        if subaddr == 0 {
          var i := ptr / 2;
          if 0 <= i < |cells| && cells[i] != b {
            cells := cells[i := b];
          }
          assert cells == Display(old(cells), i, b);
          ptr := Int8(ptr + 2);
        }
      }
    }

    method RisingClock(val: bool)
      requires Valid() && state >= 0
      modifies `state, `mode, `ptr, `subaddr, `cells, `bit, `shift
      ensures Valid() && Now() == Rising(old(Now()), val)
    {
      bit := bit + 1;
      if bit < 8 {
        if val {
          shift := shift + Weight(7 - bit);
        }
      } else {
        Interpret(shift);
        bit := -1;
        shift := 0;
      }
    }

    /** The port write handler, for the clock and data lines. */
    method SetPort6(clockVal: bool, dataVal: bool)
      requires Valid()
      modifies this
      ensures Valid() && Now() == SetPort(old(Now()), clockVal, dataVal)
    {
      if clockVal {
        if !clock && state >= 0 {
          RisingClock(dataVal);
        } else if data && !dataVal {
          state, bit, shift := 0, -1, 0;
        } else if !data && dataVal {
          state := STOPPED;
        }
      }
      clock, data := clockVal, dataVal;
    }
  }

  // -------------------------------------------------------------- the sender

  /** The sender's byte register after some bits: what is left of the byte in front
      of the marker bit, and the bit about to be sent. */
  ghost predicate Sending(k: nat, rest: int, reg: int, next: bool) {
    && k < 8 && 0 <= rest < 2 * Weight(7 - k)
    && (next <==> rest >= Weight(7 - k))
    && reg == 2 * Shifted(rest - (if next then Weight(7 - k) else 0), k) + Weight(k)
  }

  function Shll(reg: byte): (r: byte) { if reg < 0x80 then 2 * reg else 2 * reg - 0x100 }

  lemma FirstBit(b: byte)
    ensures Sending(0, b, Shll(b) + 1, b >= 0x80)
  {
  }

  /** Shifting left moves the next bit into the carry; after eight bits only the
      marker is left, and falls out. */
  lemma NextBit(k: nat, rest: int, reg: byte, next: bool)
    requires Sending(k, rest, reg, next)
    ensures var rest2 := rest - (if next then Weight(7 - k) else 0);
            if k < 7 then Shll(reg) != 0 && Sending(k + 1, rest2, Shll(reg), reg >= 0x80)
            else Shll(reg) == 0 && rest2 == 0
  {
    assert Weight(k) < 0x80 ==> 2 * Weight(k) == Weight(k + 1);
  }

  /** A receiver that has the first k bits of a byte. */
  ghost predicate Receiving(r: Receiver, chip: Chip, k: nat, got: int) {
    r.chip == chip && !r.clock && (chip.state >= 0 ==> r.bit == k - 1 && r.shift == got)
  }

  /** One bit on the wire: data, clock up, clock down. */
  method SendBit(lcd: Lcd, val: bool, ghost chip: Chip, ghost k: nat, ghost got: int)
    requires lcd.Valid() && k < 8 && Receiving(lcd.Now(), chip, k, got)
    modifies lcd
    ensures lcd.Valid() && Receiving(lcd.Now(), chip, k + 1, got + if val then Weight(7 - k) else 0)
  {
    lcd.SetPort6(false, val);
    lcd.SetPort6(true, val);
    lcd.SetPort6(false, val);
  }

  /** Eight bits from the top down, told apart by a marker bit shifted in behind them,
      and the clock of the acknowledge bit. */
  method SendByte(lcd: Lcd, b: byte, ghost chip: Chip)
    requires lcd.Valid() && Receiving(lcd.Now(), chip, 0, 0) && ChipOk(chip)
    modifies lcd
    ensures lcd.Valid() && Receiving(lcd.Now(), Process(chip, b), 0, 0)
  {
    var carry, r5l: byte := b >= 0x80, Shll(b) + 1;
    FirstBit(b);
    ghost var k, rest: int := 0, b;
    while r5l != 0
      invariant k <= 8 && lcd.Valid() && Receiving(lcd.Now(), chip, k, b - rest)
      invariant if k < 8 then r5l != 0 && Sending(k, rest, r5l, carry) else r5l == 0 && rest == 0
      decreases 8 - k
    {
      SendBit(lcd, carry, chip, k, b - rest);
      NextBit(k, rest, r5l, carry);
      rest := rest - if carry then Weight(7 - k) else 0;
      k := k + 1;
      carry, r5l := r5l >= 0x80, Shll(r5l);
    }
    Acknowledge(lcd, chip, b);
  }

  method Acknowledge(lcd: Lcd, ghost chip: Chip, ghost b: byte)
    requires lcd.Valid() && Receiving(lcd.Now(), chip, 8, b) && ChipOk(chip)
    modifies lcd
    ensures lcd.Valid() && Receiving(lcd.Now(), Process(chip, b), 0, 0)
  {
    lcd.SetPort6(true, lcd.data);
    lcd.SetPort6(false, lcd.data);
  }

  /** The chip when the clock rises before a start condition: only a listening chip
      that waits for the acknowledge clock takes that for it. */
  function Completed(r: Receiver): (s: Chip)
    requires Sound(r)
  {
    if r.chip.state >= 0 && !r.clock && r.bit == 7 then Process(r.chip, r.shift) else r.chip
  }

  /** The start condition. */
  method Start(lcd: Lcd)
    requires lcd.Valid()
    modifies lcd
    ensures lcd.Valid() && Receiving(lcd.Now(), Completed(old(lcd.Now())).(state := 0), 0, 0)
  {
    lcd.SetPort6(lcd.clock, true);
    lcd.SetPort6(true, true);
    lcd.SetPort6(true, false);
    lcd.SetPort6(false, false);
  }

  method Stop(lcd: Lcd, ghost chip: Chip)
    requires lcd.Valid() && Receiving(lcd.Now(), chip, 0, 0)
    modifies lcd
    ensures lcd.Valid() && lcd.Now().chip == chip.(state := STOPPED) && lcd.clock && lcd.data
  {
    lcd.SetPort6(false, false);
    lcd.SetPort6(true, false);
    lcd.SetPort6(true, true);
  }

  /** The counter of bytes to send: 0 stands for 256. */
  function Counter(n: nat): (r: byte)
    requires n <= 0x100
  {
    if n < 0x100 then n else 0
  }

  /** The round trip: whatever is sent is what the chip acts on, byte by byte, from any
      state of the receiver; it ends stopped with both lines high. */
  method WriteLcdOutput(lcd: Lcd, bytes: seq<byte>)
    requires lcd.Valid() && 1 <= |bytes| <= 0x100
    modifies lcd
    ensures lcd.Valid() && lcd.Now().chip == Received(Completed(old(lcd.Now())), bytes)
    ensures lcd.state == STOPPED && lcd.clock && lcd.data
  {
    ghost var c := Completed(lcd.Now()).(state := 0);
    Start(lcd);
    var r6, r5h, more := 0, Counter(|bytes|), true;
    while more
      invariant r6 <= |bytes| && lcd.Valid() && ChipOk(ProcessAll(c, bytes[..r6]))
      invariant Receiving(lcd.Now(), ProcessAll(c, bytes[..r6]), 0, 0)
      invariant r5h == Counter(|bytes| - r6) && (more <==> r6 < |bytes|)
      decreases |bytes| - r6
    {
      assert bytes[..r6 + 1][..r6] == bytes[..r6];
      SendByte(lcd, bytes[r6], ProcessAll(c, bytes[..r6]));
      r6 := r6 + 1;
      r5h := if r5h == 0 then 0xff else r5h - 1;
      more := r5h != 0;
    }
    assert bytes[..r6] == bytes;
    Stop(lcd, ProcessAll(c, bytes));
  }

  // ----------------------------------------------------- what is displayed

  /** After a wrong device id the rest of the transfer is ignored. */
  lemma {:induction false} WrongIdIgnored(c: Chip, bytes: seq<byte>)
    requires -0x80 <= c.ptr < 0x80 && bytes != [] && bytes[0] != LCD_DEV_ID
    ensures Received(c, bytes) == c.(state := STOPPED)
    ensures ProcessAll(c.(state := 0), bytes) == c.(state := STOPPED)
    decreases |bytes|
  {
    var n := |bytes| - 1;
    if n > 0 {
      WrongIdIgnored(c, bytes[..n]);
    } else {
      assert bytes[..n] == [];
      assert ProcessAll(c.(state := 0), bytes[..n]) == c.(state := 0);
      assert bytes[n] == bytes[0];
    }
  }

  const MODE_SET: byte := 0xc8
  const LOAD_SUBADDR: byte := 0xe0
  const LOAD_DATAPTR: byte := 0x00
  const HEADER: seq<byte> := [LCD_DEV_ID, MODE_SET, LOAD_SUBADDR, LOAD_DATAPTR]

  /** The chip after the header and some data bytes. */
  function Showing(c: Chip, data: seq<byte>): (r: Chip)
    requires |data| <= |c.cells|
  {
    Chip(2, 0x08, 2 * |data|, 0, data + c.cells[|data|..])
  }

  lemma HeaderReceived(c: Chip)
    requires ChipOk(c)
    ensures ProcessAll(c.(state := 0), HEADER) == Showing(c, [])
  {
    var c0 := c.(state := 0);
    var c1 := c.(state := 1);
    assert HEADER[..0] == [] && HEADER[..1] == [LCD_DEV_ID] && [LCD_DEV_ID][..0] == [];
    assert ProcessAll(c0, HEADER[..1]) == c1;
    assert HEADER[..2][..1] == HEADER[..1];
    assert ProcessAll(c0, HEADER[..2]) == c1.(mode := 0x08);
    assert HEADER[..3][..2] == HEADER[..2];
    assert ProcessAll(c0, HEADER[..3]) == c1.(mode := 0x08, subaddr := 0);
    assert HEADER[..4] == HEADER;
  }

  lemma {:induction false} DataReceived(c: Chip, data: seq<byte>)
    requires ChipOk(c) && |data| <= CELLS
    ensures ProcessAll(c.(state := 0), HEADER + data) == Showing(c, data)
    decreases |data|
  {
    if data == [] {
      assert HEADER + data == HEADER;
      HeaderReceived(c);
    } else {
      var n := |data| - 1;
      DataReceived(c, data[..n]);
      assert (HEADER + data)[..|HEADER| + n] == HEADER + data[..n];
      assert (HEADER + data)[|HEADER| + n] == data[n];
      assert data[..n] + c.cells[n..] == (data[..n] + c.cells[n..])[..n] + c.cells[n..];
      assert (data[..n] + c.cells[n..])[n := data[n]] == data + c.cells[n + 1..];
    }
  }

  /** Whatever the chip held before, the k-th data byte behind the header lands in
      cell k, the other cells stay, and the display is enabled. */
  lemma RefreshShows(c: Chip, data: seq<byte>, k: nat)
    requires ChipOk(c) && |data| <= CELLS && k < CELLS
    ensures var r := Received(c, HEADER + data);
            && |r.cells| == CELLS && r.cells[..|data|] == data
            && r.cells[k] == (if k < |data| then data[k] else c.cells[k])
            && r.mode == 0x08 && r.subaddr == 0 && r.state == STOPPED
  {
    DataReceived(c, data);
  }

  /** Sends the header and the nine bytes of the display area. */
  method LcdRefresh(lcd: Lcd, display: seq<byte>)
    requires lcd.Valid() && |display| == 9
    modifies lcd
    ensures lcd.Valid() && lcd.state == STOPPED && lcd.clock && lcd.mode == 0x08
    ensures lcd.cells == display + Completed(old(lcd.Now())).cells[9..]
  {
    ghost var c := Completed(lcd.Now());
    DataReceived(c, display);
    WriteLcdOutput(lcd, HEADER + display);
  }
}
