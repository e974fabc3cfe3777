/** One character at a time: the decoder of UTF-8 and the lookup in a sorted table. */
module Font {
  import opened Bytes

  const WIDTH := 5
  const FIRST := 0x20
  const LAST := 0x7e

  /** A font: ascending code points, `stride` columns for each, and the columns of the
      built-in ASCII table, already moved down to this cell, when it is the fallback. */
  datatype Font = Font(cp: seq<u16>, cols: seq<u16>, width: nat, stride: nat, ascii: seq<seq<u16>>)

  predicate Ascending(cp: seq<u16>) {
    forall i, j :: 0 <= i < j < |cp| ==> cp[i] < cp[j]
  }

  predicate Wellformed(f: Font) {
    && Ascending(f.cp) && |f.cols| == |f.cp| * f.stride && f.width <= f.stride
    && (f.ascii == [] || |f.ascii| == LAST - FIRST + 1)
    && (forall g :: g in f.ascii ==> |g| == WIDTH)
  }

  // ---------------------------------------------------------------------------
  // UTF-8 (section 3 of RFC 3629), up to three bytes
  // ---------------------------------------------------------------------------

  datatype Char = Char(cp: nat, used: nat)

  predicate Continues(b: byte) {
    0x80 <= b < 0xc0
  }

  /** The character at the front. A byte that starts no valid sequence is a space. */
  function Decode(s: seq<byte>): (c: Char)
    requires s != []
    ensures 1 <= c.used <= |s| && c.used <= 3 && c.cp <= 0xffff
  {
    var p: int := s[0];
    if p < 0x80 then Char(p, 1)
    else if 0xc0 <= p < 0xe0 && |s| >= 2 && Continues(s[1]) then
      var q: int := s[1];
      Char((p - 0xc0) * 0x40 + (q - 0x80), 2)
    else if 0xe0 <= p < 0xf0 && |s| >= 3 && Continues(s[1]) && Continues(s[2]) then
      var q: int, r: int := s[1], s[2];
      Char((p - 0xe0) * 0x1000 + (q - 0x80) * 0x40 + (r - 0x80), 3)
    else Char(0x20, 1)
  }

  function Encode(cp: u16): (s: seq<byte>)
    ensures 1 <= |s| <= 3
  {
    if cp < 0x80 then [cp]
    else if cp < 0x800 then [0xc0 + cp / 0x40, 0x80 + cp % 0x40]
    else [0xe0 + cp / 0x1000, 0x80 + cp / 0x40 % 0x40, 0x80 + cp % 0x40]
  }

  lemma DecodeUndoesEncode(cp: u16, more: seq<byte>)
    ensures Decode(Encode(cp) + more) == Char(cp, |Encode(cp)|)
  {
    var s := Encode(cp) + more;
    if cp < 0x80 {
      assert s[0] == cp;
    } else if cp < 0x800 {
      assert s[0] == 0xc0 + cp / 0x40 && s[1] == 0x80 + cp % 0x40;
    } else {
      Groups(cp);
      assert s[0] == 0xe0 + cp / 0x1000 && s[1] == 0x80 + cp / 0x40 % 0x40 && s[2] == 0x80 + cp % 0x40;
    }
  }

  lemma Groups(cp: u16)
    ensures cp / 0x1000 < 0x10
    ensures cp == cp / 0x1000 * 0x1000 + cp / 0x40 % 0x40 * 0x40 + cp % 0x40
  {
    var high := cp / 0x40;
    assert cp == high * 0x40 + cp % 0x40;
    assert high == high / 0x40 * 0x40 + high % 0x40;
    assert high / 0x40 == cp / 0x1000;
  }

  // ---------------------------------------------------------------------------
  // The lookup
  // ---------------------------------------------------------------------------

  /** The index of a code point, or -1. */
  method Find(f: Font, cp: nat) returns (idx: int)
    requires Ascending(f.cp)
    ensures -1 <= idx < |f.cp|
    ensures idx >= 0 ==> f.cp[idx] == cp
    ensures idx < 0 ==> cp > 0xffff || cp !in f.cp
  {
    if cp > 0xffff {
      return -1;
    }
    var lo, hi := 0, |f.cp| - 1;
    while lo <= hi
      invariant 0 <= lo <= |f.cp| && -1 <= hi < |f.cp|
      invariant forall i :: 0 <= i < lo ==> f.cp[i] < cp
      invariant forall i :: hi < i < |f.cp| ==> f.cp[i] > cp
      decreases hi - lo
    {
      var mid := (lo + hi) / 2;
      if f.cp[mid] == cp {
        return mid;
      }
      if f.cp[mid] < cp {
        lo := mid + 1;
      } else {
        hi := mid - 1;
      }
    }
    idx := -1;
  }

  const BLANK: seq<u16> := [0, 0, 0, 0, 0]

  /** The columns of entry `idx`, filled up with blanks. */
  function Entry(f: Font, idx: nat): (cols: seq<u16>)
    requires Wellformed(f) && idx < |f.cp|
    ensures |cols| == WIDTH
  {
    EntryInside(f, idx);
    seq(WIDTH, c requires 0 <= c < WIDTH => if c < f.width then f.cols[idx * f.stride + c] else 0)
  }

  lemma EntryInside(f: Font, idx: nat)
    requires idx < |f.cp| && |f.cols| == |f.cp| * f.stride
    ensures (idx + 1) * f.stride <= |f.cols| && (idx + 1) * f.stride == idx * f.stride + f.stride
  {
    assert (idx + 1) * f.stride <= |f.cp| * f.stride;
  }

  /** The glyph of a character: its own entry, else the ASCII one, else nothing. */
  ghost function Glyph(f: Font, cp: nat): seq<u16>
    requires Wellformed(f)
  {
    if exists i :: 0 <= i < |f.cp| && f.cp[i] == cp then
      var i :| 0 <= i < |f.cp| && f.cp[i] == cp;
      Entry(f, i)
    else if f.ascii != [] && FIRST <= cp <= LAST then f.ascii[cp - FIRST]
    else BLANK
  }

  lemma GlyphSize(f: Font, cp: nat)
    requires Wellformed(f)
    ensures |Glyph(f, cp)| == WIDTH
  {
  }

  lemma OwnGlyph(f: Font, idx: nat)
    requires Wellformed(f) && idx < |f.cp|
    ensures Glyph(f, f.cp[idx]) == Entry(f, idx)
  {
    hide Entry;
    var i :| 0 <= i < |f.cp| && f.cp[i] == f.cp[idx] && Glyph(f, f.cp[idx]) == Entry(f, i);
    assert i == idx;
  }

  method CopyEntry(f: Font, idx: nat) returns (cols: seq<u16>)
    requires Wellformed(f) && idx < |f.cp|
    ensures cols == Entry(f, idx)
  {
    EntryInside(f, idx);
    var base := idx * f.stride;
    cols := BLANK;
    var col := 0;
    while col < f.width && col < WIDTH
      invariant 0 <= col <= WIDTH && col <= f.width && |cols| == WIDTH
      invariant forall c :: 0 <= c < WIDTH ==> cols[c] == if c < col then f.cols[base + c] else 0
    {
      cols := cols[col := f.cols[base + col]];
      col := col + 1;
    }
  }

  /** Take one character and its columns. */
  method Next(f: Font, s: seq<byte>) returns (used: nat, cols: seq<u16>)
    requires Wellformed(f) && s != []
    ensures used == Decode(s).used && cols == Glyph(f, Decode(s).cp)
  {
    var c := Decode(s);
    used := c.used;
    var idx := Find(f, c.cp);
    if idx >= 0 {
      OwnGlyph(f, idx);
      cols := CopyEntry(f, idx);
      return;
    }
    cols := BLANK;
    if f.ascii != [] && FIRST <= c.cp <= LAST {
      cols := f.ascii[c.cp - FIRST];
    }
  }

  /** The UTF-8 text of every stored code point gives its own columns and length. */
  lemma StoredCharacterDraws(f: Font, idx: nat, more: seq<byte>)
    requires Wellformed(f) && idx < |f.cp|
    ensures Decode(Encode(f.cp[idx]) + more).used == |Encode(f.cp[idx])|
    ensures Glyph(f, Decode(Encode(f.cp[idx]) + more).cp) == Entry(f, idx)
  {
    hide Glyph, Entry, Encode, Decode;
    DecodeUndoesEncode(f.cp[idx], more);
    OwnGlyph(f, idx);
  }

  /** A font without own characters draws the built-in table: the byte 0x20 + k takes one byte
      and has the columns of entry k, and every code point beyond is blank. */
  lemma AsciiDraws(f: Font, k: nat, more: seq<byte>)
    requires Wellformed(f) && f.ascii != [] && k < 95 && 0x20 + k !in f.cp
    ensures Decode([0x20 + k] + more).used == 1
    ensures Glyph(f, Decode([0x20 + k] + more).cp) == f.ascii[k]
  {
  }

  lemma OtherIsBlank(f: Font, cp: nat)
    requires Wellformed(f) && cp !in f.cp && (f.ascii == [] || cp < 0x20 || cp > 0x7e)
    ensures Glyph(f, cp) == [0, 0, 0, 0, 0]
  {
  }

  /** The columns of an entry: those of the table that the width covers, then blanks. */
  lemma EntryColumns(f: Font, idx: nat, c: nat)
    requires Wellformed(f) && idx < |f.cp| && c < 5
    ensures c < f.width ==> idx * f.stride + c < |f.cols| && Entry(f, idx)[c] == f.cols[idx * f.stride + c]
    ensures c >= f.width ==> Entry(f, idx)[c] == 0
  {
    EntryInside(f, idx);
  }

  /** A byte that starts no whole character is a space of one byte, and nothing else but a space is. */
  lemma MalformedIsASpace(s: seq<byte>)
    requires s != []
    ensures Decode(s) == Char(0x20, 1) <==>
            || s[0] == 0x20
            || 0x80 <= s[0] < 0xc0 || s[0] >= 0xf0
            || (0xc0 <= s[0] < 0xe0 && (|s| < 2 || !(0x80 <= s[1] < 0xc0)))
            || (0xe0 <= s[0] < 0xf0 && (|s| < 3 || !(0x80 <= s[1] < 0xc0) || !(0x80 <= s[2] < 0xc0)))
  {
  }
}
