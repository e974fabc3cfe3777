/** Bytes, 16-bit words and the little-endian fields of a payload. */
module Bytes {

  type byte = b: int | 0 <= b < 0x100

  type u16 = w: int | 0 <= w < 0x1_0000

  type u32 = w: int | 0 <= w < 0x1_0000_0000

  /** Counters of the firmware are 32 bits wide and wrap. */
  const U32_SPAN := 0x1_0000_0000

  function Wrap32(n: nat): u32 {
    n % U32_SPAN
  }

  lemma Wrap32Add(a: nat, b: nat)
    ensures Wrap32(Wrap32(a) + b) == Wrap32(a + b)
  {
    var q := a / U32_SPAN;
    assert a + b == Wrap32(a) + b + q * U32_SPAN;
    ModShift(Wrap32(a) + b, q);
  }

  lemma {:induction false} ModShift(n: nat, q: nat)
    ensures (n + q * U32_SPAN) % U32_SPAN == n % U32_SPAN
    decreases q
  {
    if q > 0 {
      ModShift(n + U32_SPAN, q - 1);
    }
  }

  function GetU16(s: seq<byte>, at: nat): u16
    requires at + 2 <= |s|
  {
    var lo: int, hi: int := s[at], s[at + 1];
    lo + 0x100 * hi
  }

  function PutU16(w: u16): (s: seq<byte>)
    ensures |s| == 2 && GetU16(s, 0) == w
    ensures s[0] as int + 256 * s[1] as int == w
  {
    [w % 0x100, w / 0x100]
  }

  function GetU32(s: seq<byte>, at: nat): u32
    requires at + 4 <= |s|
  {
    var b0: int, b1: int, b2: int, b3: int := s[at], s[at + 1], s[at + 2], s[at + 3];
    b0 + 0x100 * b1 + 0x1_0000 * b2 + 0x100_0000 * b3
  }

  function PutU32(w: u32): (s: seq<byte>)
    ensures |s| == 4 && GetU32(s, 0) == w
    ensures s[0] as int + 256 * (s[1] as int + 256 * (s[2] as int + 256 * s[3] as int)) == w
  {
    var w1 := w / 0x100;
    var w2 := w1 / 0x100;
    [w % 0x100, w1 % 0x100, w2 % 0x100, w2 / 0x100]
  }

  lemma SliceJoins<T>(s: seq<T>, i: nat, j: nat, k: nat)
    requires i <= j <= k <= |s|
    ensures s[i..k] == s[i..j] + s[j..k]
  {
  }

  lemma SliceOfSlice<T>(s: seq<T>, from: nat, to: nat, i: nat, j: nat)
    requires i <= j && from + j <= to <= |s|
    ensures s[from..to][i..j] == s[from + i..from + j]
  {
    forall k | 0 <= k < j - i
      ensures s[from..to][i..j][k] == s[from + i..from + j][k]
    {
    }
  }
}
