/** CRC-16/CCITT-FALSE: the loop over a table of nibbles, the bitwise division it
    stands for, and the changes of a message that it always detects. */
module Crc {
  import opened Bytes

  const INIT: bv16 := 0xffff

  // ---------------------------------------------------------------------------
  // The reference: one bit at a time
  // ---------------------------------------------------------------------------

  function Xor(a: bv16, b: bv16): bv16 {
    a ^ b
  }

  function ShiftBit(c: bv16): bv16 {
    if c & 0x8000 != 0 then (c << 1) ^ 0x1021 else c << 1
  }

  function Shift2(c: bv16): bv16 {
    ShiftBit(ShiftBit(c))
  }

  function Shift4(c: bv16): bv16 {
    Shift2(Shift2(c))
  }

  function Shift8(c: bv16): bv16 {
    Shift4(Shift4(c))
  }

  /** The byte joins the top of the register, then eight bits leave it. */
  function AddByte(c: bv16, b: byte): bv16 {
    Shift8(Xor(c, Top(Wide(b))))
  }

  function CrcFrom(c: bv16, data: seq<byte>): bv16
    decreases data
  {
    if data == [] then c else CrcFrom(AddByte(c, data[0]), data[1..])
  }

  /** The check value of a byte string. */
  function Check(data: seq<byte>): u16 {
    Value(CrcFrom(INIT, data))
  }

  // ---------------------------------------------------------------------------
  // A byte as a vector of 16 bits, and such a vector as a number
  // ---------------------------------------------------------------------------

  predicate Bit(v: nat, n: nat) {
    if n == 0 then v % 2 == 1 else Bit(v / 2, n - 1)
  }

  function Flag(on: bool, mask: bv16): bv16 {
    if on then mask else 0
  }

  function Wide(b: byte): (w: bv16)
    ensures w & 0xff00 == 0
  {
    Flag(Bit(b, 0), 0x01) | Flag(Bit(b, 1), 0x02) | Flag(Bit(b, 2), 0x04) | Flag(Bit(b, 3), 0x08) |
    Flag(Bit(b, 4), 0x10) | Flag(Bit(b, 5), 0x20) | Flag(Bit(b, 6), 0x40) | Flag(Bit(b, 7), 0x80)
  }

  function Top(w: bv16): bv16 {
    w << 8
  }

  function Digit(w: bv16, mask: bv16, value: nat): nat {
    if w & mask != 0 then value else 0
  }

  /** The low byte of a word. */
  function Low(w: bv16): byte {
    Digit(w, 0x01, 0x01) + Digit(w, 0x02, 0x02) + Digit(w, 0x04, 0x04) + Digit(w, 0x08, 0x08) +
    Digit(w, 0x10, 0x10) + Digit(w, 0x20, 0x20) + Digit(w, 0x40, 0x40) + Digit(w, 0x80, 0x80)
  }

  function LowBits(w: bv16): bv16 {
    w & 0xff
  }

  function HighBits(w: bv16): bv16 {
    w >> 8
  }

  function Value(w: bv16): u16 {
    var lo: int, hi: int := Low(w), Low(HighBits(w));
    lo + 0x100 * hi
  }

  /** Equal sums of distinct powers of two have equal terms. */
  lemma DigitsAgree(v: bv16, w: bv16)
    requires Low(v) == Low(w)
    ensures (v & 0x01 != 0) == (w & 0x01 != 0) && (v & 0x02 != 0) == (w & 0x02 != 0)
    ensures (v & 0x04 != 0) == (w & 0x04 != 0) && (v & 0x08 != 0) == (w & 0x08 != 0)
    ensures (v & 0x10 != 0) == (w & 0x10 != 0) && (v & 0x20 != 0) == (w & 0x20 != 0)
    ensures (v & 0x40 != 0) == (w & 0x40 != 0) && (v & 0x80 != 0) == (w & 0x80 != 0)
  {
  }

  lemma LowInjective(v: bv16, w: bv16)
    requires Low(v) == Low(w)
    ensures LowBits(v) == LowBits(w)
  {
    DigitsAgree(v, w);
  }

  lemma JoinHalves(v: bv16, w: bv16)
    requires LowBits(v) == LowBits(w) && LowBits(HighBits(v)) == LowBits(HighBits(w))
    ensures v == w
  {
  }

  lemma ValueInjective(v: bv16, w: bv16)
    requires Value(v) == Value(w)
    ensures v == w
  {
    hide Low, LowBits, HighBits;
    LowInjective(v, w);
    LowInjective(HighBits(v), HighBits(w));
    JoinHalves(v, w);
  }

  lemma FlagsInjective(a0: bool, a1: bool, a2: bool, a3: bool, a4: bool, a5: bool, a6: bool, a7: bool,
                       b0: bool, b1: bool, b2: bool, b3: bool, b4: bool, b5: bool, b6: bool, b7: bool)
    requires Flag(a0, 0x01) | Flag(a1, 0x02) | Flag(a2, 0x04) | Flag(a3, 0x08) |
             Flag(a4, 0x10) | Flag(a5, 0x20) | Flag(a6, 0x40) | Flag(a7, 0x80)
          == Flag(b0, 0x01) | Flag(b1, 0x02) | Flag(b2, 0x04) | Flag(b3, 0x08) |
             Flag(b4, 0x10) | Flag(b5, 0x20) | Flag(b6, 0x40) | Flag(b7, 0x80)
    ensures a0 == b0 && a1 == b1 && a2 == b2 && a3 == b3 && a4 == b4 && a5 == b5 && a6 == b6 && a7 == b7
  {
  }

  function Pow2(n: nat): nat {
    if n == 0 then 1 else 2 * Pow2(n - 1)
  }

  lemma {:induction false} SameBits(v: nat, w: nat, n: nat)
    requires v < Pow2(n) && w < Pow2(n)
    requires forall i: nat :: i < n ==> Bit(v, i) == Bit(w, i)
    ensures v == w
  {
    if n > 0 {
      assert Bit(v, 0) == Bit(w, 0);
      forall i: nat | i < n - 1
        ensures Bit(v / 2, i) == Bit(w / 2, i)
      {
        assert Bit(v, i + 1) == Bit(w, i + 1);
      }
      SameBits(v / 2, w / 2, n - 1);
    }
  }

  lemma SameByte(b: byte, c: byte)
    requires Bit(b, 0) == Bit(c, 0) && Bit(b, 1) == Bit(c, 1) && Bit(b, 2) == Bit(c, 2) && Bit(b, 3) == Bit(c, 3)
    requires Bit(b, 4) == Bit(c, 4) && Bit(b, 5) == Bit(c, 5) && Bit(b, 6) == Bit(c, 6) && Bit(b, 7) == Bit(c, 7)
    ensures b == c
  {
    assert Pow2(4) == 16;
    assert Pow2(8) == 256;
    SameBits(b, c, 8);
  }

  lemma WideInjective(b: byte, c: byte)
    requires Wide(b) == Wide(c)
    ensures b == c
  {
    FlagsInjective(Bit(b, 0), Bit(b, 1), Bit(b, 2), Bit(b, 3), Bit(b, 4), Bit(b, 5), Bit(b, 6), Bit(b, 7),
                   Bit(c, 0), Bit(c, 1), Bit(c, 2), Bit(c, 3), Bit(c, 4), Bit(c, 5), Bit(c, 6), Bit(c, 7));
    SameByte(b, c);
  }

  // ---------------------------------------------------------------------------
  // A shift of the register is linear and injective
  // ---------------------------------------------------------------------------

  lemma LinearBothSet(x: bv16, y: bv16)
    requires x & 0x8000 != 0 && y & 0x8000 != 0
    ensures ShiftBit(Xor(x, y)) == Xor(ShiftBit(x), ShiftBit(y))
  {
  }

  lemma LinearOneSet(x: bv16, y: bv16)
    requires x & 0x8000 != 0 && y & 0x8000 == 0
    ensures ShiftBit(Xor(x, y)) == Xor(ShiftBit(x), ShiftBit(y))
    ensures ShiftBit(Xor(y, x)) == Xor(ShiftBit(y), ShiftBit(x))
  {
  }

  lemma LinearNoneSet(x: bv16, y: bv16)
    requires x & 0x8000 == 0 && y & 0x8000 == 0
    ensures ShiftBit(Xor(x, y)) == Xor(ShiftBit(x), ShiftBit(y))
  {
  }

  lemma ShiftBitLinear(x: bv16, y: bv16)
    ensures ShiftBit(Xor(x, y)) == Xor(ShiftBit(x), ShiftBit(y))
  {
    if x & 0x8000 != 0 {
      if y & 0x8000 != 0 {
        LinearBothSet(x, y);
      } else {
        LinearOneSet(x, y);
      }
    } else {
      if y & 0x8000 != 0 {
        LinearOneSet(y, x);
      } else {
        LinearNoneSet(x, y);
      }
    }
  }

  lemma Shift2Linear(x: bv16, y: bv16)
    ensures Shift2(Xor(x, y)) == Xor(Shift2(x), Shift2(y))
  {
    ShiftBitLinear(x, y);
    ShiftBitLinear(ShiftBit(x), ShiftBit(y));
  }

  lemma Shift4Linear(x: bv16, y: bv16)
    ensures Shift4(Xor(x, y)) == Xor(Shift4(x), Shift4(y))
  {
    Shift2Linear(x, y);
    Shift2Linear(Shift2(x), Shift2(y));
  }

  lemma Shift8Linear(x: bv16, y: bv16)
    ensures Shift8(Xor(x, y)) == Xor(Shift8(x), Shift8(y))
  {
    Shift4Linear(x, y);
    Shift4Linear(Shift4(x), Shift4(y));
  }

  lemma ShiftBitInjective(c: bv16, d: bv16)
    requires ShiftBit(c) == ShiftBit(d)
    ensures c == d
  {
    if c & 0x8000 != 0 {
      if d & 0x8000 != 0 {} else {}
    } else {
      if d & 0x8000 != 0 {} else {}
    }
  }

  lemma Shift2Injective(c: bv16, d: bv16)
    requires Shift2(c) == Shift2(d)
    ensures c == d
  {
    ShiftBitInjective(ShiftBit(c), ShiftBit(d));
    ShiftBitInjective(c, d);
  }

  lemma Shift4Injective(c: bv16, d: bv16)
    requires Shift4(c) == Shift4(d)
    ensures c == d
  {
    Shift2Injective(Shift2(c), Shift2(d));
    Shift2Injective(c, d);
  }

  lemma Shift8Injective(c: bv16, d: bv16)
    requires Shift8(c) == Shift8(d)
    ensures c == d
  {
    Shift4Injective(Shift4(c), Shift4(d));
    Shift4Injective(c, d);
  }

  lemma Shift4OfLow(c: bv16)
    requires c & 0xf000 == 0
    ensures Shift4(c) == DropNibble(c)
  {
    assert ShiftBit(c) == c << 1;
    assert Shift2(c) == c << 2;
    assert ShiftBit(c << 2) == c << 3;
  }

  /** A word whose top byte is clear passes eight shifts unchanged. */
  lemma Shift8OfLow(w: bv16)
    requires w & 0xff00 == 0
    ensures Shift8(w) == Top(w)
  {
    Shift4OfLow(w);
    Shift4OfLow(DropNibble(w));
    ShiftTwice(w);
  }

  lemma ShiftTwice(w: bv16)
    ensures DropNibble(DropNibble(w)) == Top(w)
  {
  }

  // ---------------------------------------------------------------------------
  // The table of nibbles
  // ---------------------------------------------------------------------------

  /** The entry of a nibble. Only the low four bits of `n` count. */
  function Table(n: bv16): bv16 {
    match n & 0x0f
    case 0 => 0x0000 case 1 => 0x1021 case 2 => 0x2042 case 3 => 0x3063
    case 4 => 0x4084 case 5 => 0x50a5 case 6 => 0x60c6 case 7 => 0x70e7
    case 8 => 0x8108 case 9 => 0x9129 case 10 => 0xa14a case 11 => 0xb16b
    case 12 => 0xc18c case 13 => 0xd1ad case 14 => 0xe1ce case _ => 0xf1ef
  }

  lemma TableIsFourShifts(n: bv16)
    requires n <= 0x0f
    ensures Table(n) == Shift4(AtTop(n))
  {
    assert n & 0x0f == n;
    assert n == 0 || n == 1 || n == 2 || n == 3 || n == 4 || n == 5 || n == 6 || n == 7 ||
           n == 8 || n == 9 || n == 10 || n == 11 || n == 12 || n == 13 || n == 14 || n == 15;
  }

  /** One statement of the loop body: a nibble enters, four bits leave. */
  function TableStep(c: bv16, nibble: bv16): bv16 {
    Xor(DropNibble(c), Table(Xor(TopNibble(c), nibble)))
  }

  function DropNibble(c: bv16): bv16 {
    c << 4
  }

  function TopNibble(c: bv16): bv16 {
    c >> 12
  }

  function AtTop(nibble: bv16): bv16 {
    nibble << 12
  }

  function BelowTop(c: bv16): bv16 {
    c & 0x0fff
  }

  lemma SplitTop(c: bv16, n: bv16)
    requires n <= 0x0f
    ensures Xor(TopNibble(c), n) <= 0x0f
    ensures Xor(c, AtTop(n)) == Xor(BelowTop(c), AtTop(Xor(TopNibble(c), n)))
    ensures DropNibble(c) == DropNibble(BelowTop(c)) && BelowTop(c) & 0xf000 == 0
  {
  }

  lemma TableStepIsShift4(c: bv16, n: bv16)
    requires n <= 0x0f
    ensures TableStep(c, n) == Shift4(Xor(c, AtTop(n)))
  {
    hide Shift4, Table, Xor, DropNibble, TopNibble, AtTop, BelowTop;
    SplitTop(c, n);
    TableIsFourShifts(Xor(TopNibble(c), n));
    Shift4OfLow(BelowTop(c));
    Shift4Linear(BelowTop(c), AtTop(Xor(TopNibble(c), n)));
  }

  lemma SplitNibbles(w: bv16)
    requires w & 0xff00 == 0
    ensures w >> 4 <= 0x0f && w & 0x0f <= 0x0f
    ensures ((w & 0x0f) << 8) & 0xf000 == 0 && DropNibble((w & 0x0f) << 8) == AtTop(w & 0x0f)
  {
  }

  lemma JoinNibbles(w: bv16)
    requires w & 0xff00 == 0
    ensures Xor(AtTop(w >> 4), (w & 0x0f) << 8) == Top(w)
  {
  }

  lemma XorAssociative(a: bv16, b: bv16, c: bv16)
    ensures Xor(Xor(a, b), c) == Xor(a, Xor(b, c))
  {
  }

  lemma TwoStepsAreShift8(c: bv16, w: bv16)
    requires w & 0xff00 == 0
    ensures TableStep(TableStep(c, w >> 4), w & 0x0f) == Shift8(Xor(c, Top(w)))
  {
    var x, low := Xor(c, AtTop(w >> 4)), (w & 0x0f) << 8;
    SplitNibbles(w);
    JoinNibbles(w);
    XorAssociative(c, AtTop(w >> 4), low);
    TableStepIsShift4(c, w >> 4);
    TableStepIsShift4(Shift4(x), w & 0x0f);
    Shift4OfLow(low);
    Shift4Linear(x, low);
  }

  /** The check value of `len` bytes of a buffer, by the table. A null buffer gives
      the initial value. */
  method Crc16(data: array?<byte>, start: nat, len: nat) returns (crc: bv16)
    requires data != null ==> start + len <= data.Length
    ensures data == null ==> crc == INIT
    ensures data != null ==> Value(crc) == Check(data[start..start + len])
  {
    hide TableStep, Wide, Shift8;
    crc := INIT;
    if data == null {
      return;
    }
    ghost var message := data[start..start + len];
    var i := start;
    var left := len;
    while left > 0
      invariant start <= i <= start + len && i + left == start + len
      invariant CrcFrom(crc, message[i - start..]) == CrcFrom(INIT, message)
    {
      var b := data[i];
      ghost var rest := message[i - start..];
      assert rest[0] == b && rest[1..] == message[i + 1 - start..];
      TwoStepsAreShift8(crc, Wide(b));
      crc := TableStep(crc, Wide(b) >> 4);
      crc := TableStep(crc, Wide(b) & 0x0f);
      i := i + 1;
      left := left - 1;
    }
  }

  // ---------------------------------------------------------------------------
  // What the check value detects
  // ---------------------------------------------------------------------------

  lemma {:induction false} CrcFromConcat(c: bv16, a: seq<byte>, b: seq<byte>)
    ensures CrcFrom(c, a + b) == CrcFrom(CrcFrom(c, a), b)
    decreases a
  {
    if a == [] {
      assert a + b == b;
    } else {
      assert (a + b)[1..] == a[1..] + b;
      CrcFromConcat(AddByte(c, a[0]), a[1..], b);
    }
  }

  lemma XorCancel(c: bv16, d: bv16, w: bv16)
    requires Xor(c, w) == Xor(d, w)
    ensures c == d
  {
  }

  lemma {:induction false} CrcFromInjective(c: bv16, d: bv16, tail: seq<byte>)
    requires CrcFrom(c, tail) == CrcFrom(d, tail)
    ensures c == d
    decreases tail
  {
    if tail != [] {
      var w := Top(Wide(tail[0]));
      CrcFromInjective(AddByte(c, tail[0]), AddByte(d, tail[0]), tail[1..]);
      Shift8Injective(Xor(c, w), Xor(d, w));
      XorCancel(c, d, w);
    }
  }

  /** Two bytes enter the register as one word of 16 bits. */
  lemma TwoBytes(c: bv16, a: byte, b: byte)
    ensures AddByte(AddByte(c, a), b) == Shift8(Shift8(Xor(Xor(c, Top(Wide(a))), Wide(b))))
  {
    var x := Xor(c, Top(Wide(a)));
    Shift8Linear(x, Wide(b));
    Shift8OfLow(Wide(b));
  }

  lemma XorPair(c: bv16, v: bv16, w: bv16, v': bv16, w': bv16)
    requires v & 0xff00 == 0 && w & 0xff00 == 0 && v' & 0xff00 == 0 && w' & 0xff00 == 0
    requires Xor(Xor(c, Top(v)), w) == Xor(Xor(c, Top(v')), w')
    ensures v == v' && w == w'
  {
  }

  lemma TwoBytesInjective(c: bv16, a: byte, b: byte, a': byte, b': byte)
    requires AddByte(AddByte(c, a), b) == AddByte(AddByte(c, a'), b')
    ensures a == a' && b == b'
  {
    var x := Xor(Xor(c, Top(Wide(a))), Wide(b));
    var y := Xor(Xor(c, Top(Wide(a'))), Wide(b'));
    TwoBytes(c, a, b);
    TwoBytes(c, a', b');
    Shift8Injective(Shift8(x), Shift8(y));
    Shift8Injective(x, y);
    XorPair(c, Wide(a), Wide(b), Wide(a'), Wide(b'));
    WideInjective(a, a');
    WideInjective(b, b');
  }

  lemma CrcFromPair(head: seq<byte>, a: byte, b: byte, tail: seq<byte>)
    ensures CrcFrom(INIT, head + [a, b] + tail)
         == CrcFrom(AddByte(AddByte(CrcFrom(INIT, head), a), b), tail)
  {
    CrcFromConcat(INIT, head + [a, b], tail);
    CrcFromConcat(INIT, head, [a, b]);
    var c := CrcFrom(INIT, head);
    assert [a, b][1..] == [b];
    assert CrcFrom(c, [a, b]) == CrcFrom(AddByte(c, a), [b]);
    assert CrcFrom(AddByte(c, a), [b]) == CrcFrom(AddByte(AddByte(c, a), b), []);
  }

  /** Any change inside two adjacent bytes changes the check value. */
  lemma TwoAdjacentBytesDetected(s: seq<byte>, t: seq<byte>, i: nat)
    requires |s| == |t| && i + 1 < |s|
    requires s != t
    requires forall k :: 0 <= k < |s| && k != i && k != i + 1 ==> s[k] == t[k]
    ensures Check(s) != Check(t)
  {
    if Check(s) == Check(t) {
      var head, tail := s[..i], s[i + 2..];
      assert t[..i] == head && t[i + 2..] == tail;
      assert s == head + [s[i], s[i + 1]] + tail;
      assert t == head + [t[i], t[i + 1]] + tail;
      var c := CrcFrom(INIT, head);
      ValueInjective(CrcFrom(INIT, s), CrcFrom(INIT, t));
      CrcFromPair(head, s[i], s[i + 1], tail);
      CrcFromPair(head, t[i], t[i + 1], tail);
      CrcFromInjective(AddByte(AddByte(c, s[i]), s[i + 1]), AddByte(AddByte(c, t[i]), t[i + 1]), tail);
      TwoBytesInjective(c, s[i], s[i + 1], t[i], t[i + 1]);
      assert false;
    }
  }

  // ---------------------------------------------------------------------------
  // The check value of the variant
  // ---------------------------------------------------------------------------

  lemma NineBytes()
    ensures AddByte(0xffff, 0x31) == 0xc782
    ensures AddByte(0xc782, 0x32) == 0x3dba
    ensures AddByte(0x3dba, 0x33) == 0x5bce
    ensures AddByte(0x5bce, 0x34) == 0x5349
    ensures AddByte(0x5349, 0x35) == 0x4560
    ensures AddByte(0x4560, 0x36) == 0x2ef4
    ensures AddByte(0x2ef4, 0x37) == 0x7718
    ensures AddByte(0x7718, 0x38) == 0xa12b
    ensures AddByte(0xa12b, 0x39) == 0x29b1
  {
  }

  lemma OneByte(c: bv16, b: byte, rest: seq<byte>)
    ensures CrcFrom(c, [b] + rest) == CrcFrom(AddByte(c, b), rest)
  {
    hide AddByte;
  }

  /** The check value of the variant: 0x29b1 for "123456789". */
  lemma CheckOfNineDigits()
    ensures Check([0x31, 0x32, 0x33, 0x34, 0x35, 0x36, 0x37, 0x38, 0x39]) == 0x29b1
  {
    NineBytes();
    assert Value(0x29b1) == 0x29b1;
    hide AddByte, Value;
    OneByte(0xffff, 0x31, [0x32, 0x33, 0x34, 0x35, 0x36, 0x37, 0x38, 0x39]);
    OneByte(0xc782, 0x32, [0x33, 0x34, 0x35, 0x36, 0x37, 0x38, 0x39]);
    OneByte(0x3dba, 0x33, [0x34, 0x35, 0x36, 0x37, 0x38, 0x39]);
    OneByte(0x5bce, 0x34, [0x35, 0x36, 0x37, 0x38, 0x39]);
    OneByte(0x5349, 0x35, [0x36, 0x37, 0x38, 0x39]);
    OneByte(0x4560, 0x36, [0x37, 0x38, 0x39]);
    OneByte(0x2ef4, 0x37, [0x38, 0x39]);
    OneByte(0x7718, 0x38, [0x39]);
    OneByte(0xa12b, 0x39, []);
  }
}
