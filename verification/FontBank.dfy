/** The big font: two tables, one of them published; a load fills the other and then
    publishes it, or leaves everything that is published as it was. */
module FontBank {
  import opened Bytes
  import Font

  const MAGIC_LOW: u16 := 0x4754
  const MAGIC_HIGH: u16 := 0x3146
  const HEADER_LEN := 12
  const MAX_GLYPHS := 128
  const MAX_ROWS := 16
  const WIDTH := 5

  const OK := 0
  const ENOENT := -2
  const EINVAL := -22

  /** A whole table: its code points, their columns, and its cell. */
  datatype Table = Table(cps: seq<u16>, cols: seq<seq<u16>>, width: nat, rows: nat, ascent: nat)

  predicate HeaderOk(file: seq<byte>) {
    && |file| >= HEADER_LEN
    && GetU16(file, 0) == MAGIC_LOW && GetU16(file, 2) == MAGIC_HIGH
    && 0 < file[6] <= WIDTH && 0 < file[7] <= MAX_ROWS && file[8] < file[7]
    && GetU16(file, 4) <= MAX_GLYPHS
  }

  function EntryLen(width: nat): nat {
    2 + 2 * width
  }

  /** Where entry i of the file starts. */
  function At(width: nat, i: nat): nat {
    HEADER_LEN + i * EntryLen(width)
  }

  lemma AtNext(width: nat, i: nat)
    ensures At(width, i + 1) == At(width, i) + EntryLen(width)
  {
  }

  lemma {:induction false} AtGrows(width: nat, i: nat, j: nat)
    requires i <= j
    ensures At(width, i) <= At(width, j)
    decreases j - i
  {
    if i < j {
      AtNext(width, i);
      AtGrows(width, i + 1, j);
    }
  }

  /** The file holds all its entries. */
  predicate Complete(file: seq<byte>)
    requires HeaderOk(file)
  {
    At(file[6], GetU16(file, 4)) <= |file|
  }

  function CpAt(file: seq<byte>, width: nat, i: nat): u16 {
    if At(width, i) + 2 <= |file| then GetU16(file, At(width, i)) else 0
  }

  function ColAt(file: seq<byte>, width: nat, i: nat, col: nat): u16 {
    if col < width && At(width, i) + 4 + 2 * col <= |file| then GetU16(file, At(width, i) + 2 + 2 * col) else 0
  }

  /** The files that are fonts: a good header, every entry, the code points going up. */
  predicate Accepts(file: seq<byte>) {
    && HeaderOk(file) && Complete(file)
    && forall i, j :: 0 <= i < j < GetU16(file, 4) ==> CpAt(file, file[6], i) < CpAt(file, file[6], j)
  }

  function TableOf(file: seq<byte>): Table
    requires HeaderOk(file)
  {
    var count, width := GetU16(file, 4), file[6];
    Table(seq(count, i requires 0 <= i => CpAt(file, width, i)),
          seq(count, i requires 0 <= i => seq(WIDTH, col requires 0 <= col => ColAt(file, width, i, col))),
          width, file[7], file[8])
  }

  class Bank {
    const cp: array2<u16>
    const cols: array3<u16>
    var count: seq<nat>
    var width: seq<nat>
    var rows: seq<nat>
    var ascent: seq<nat>
    var big: nat

    ghost predicate Shape()
      reads this
    {
      && big < 2
      && cp.Length0 == 2 && cp.Length1 == MAX_GLYPHS
      && cols.Length0 == 2 && cols.Length1 == MAX_GLYPHS && cols.Length2 == WIDTH
      && |count| == |width| == |rows| == |ascent| == 2
      && (forall b :: 0 <= b < 2 ==> count[b] <= MAX_GLYPHS)
    }

    /** The table that bank b holds. */
    function Held(b: nat): Table
      requires Shape() && b < 2
      reads this, cp, cols
    {
      Table(seq(count[b], i requires Shape() && 0 <= i < count[b] reads this, cp => cp[b, i]),
            seq(count[b], i requires Shape() && 0 <= i < count[b] reads this, cols =>
              seq(WIDTH, col requires Shape() && i < MAX_GLYPHS && 0 <= col < WIDTH reads this, cols =>
                cols[b, i, col])),
            width[b], rows[b], ascent[b])
    }

    /** Bank b holds `t`, entry by entry. */
    ghost predicate Holds(b: nat, t: Table)
      requires Shape() && b < 2
      reads this, cp, cols
    {
      && |t.cps| == |t.cols| == count[b]
      && t.width == width[b] && t.rows == rows[b] && t.ascent == ascent[b]
      && (forall i :: 0 <= i < count[b] ==> t.cps[i] == cp[b, i] && |t.cols[i]| == WIDTH)
      && (forall i, c :: 0 <= i < count[b] && 0 <= c < WIDTH ==> t.cols[i][c] == cols[b, i, c])
    }

    lemma HeldIs(b: nat, t: Table)
      requires Shape() && b < 2
      ensures Holds(b, t) <==> Held(b) == t
    {
      if Holds(b, t) {
        SameTable(Held(b), t);
      }
    }

    function Published(): Table
      requires Shape()
      reads this, cp, cols
    {
      Held(big)
    }

    ghost predicate Valid()
      reads this, cp, cols
    {
      Shape() && Font.Ascending(Published().cps)
    }

    constructor ()
      ensures Valid() && fresh(cp) && fresh(cols)
      ensures Published() == Table([], [], WIDTH, 10, 2)
    {
      cp := new u16[2, MAX_GLYPHS]((b, i) => 0);
      cols := new u16[2, MAX_GLYPHS, WIDTH]((b, i, c) => 0);
      count, width, rows, ascent := [0, 0], [WIDTH, WIDTH], [10, 10], [2, 2];
      big := 0;
    }

    /** Copy entry i of the file, whose bytes start at `at`, into a bank. */
    method FillEntry(file: seq<byte>, w: nat, b: nat, i: nat, at: nat)
      requires Shape() && b < 2 && i < MAX_GLYPHS && w <= WIDTH
      requires at == At(w, i) && at + EntryLen(w) <= |file|
      modifies cp, cols
      ensures cp[b, i] == CpAt(file, w, i)
      ensures forall c :: 0 <= c < WIDTH ==> cols[b, i, c] == ColAt(file, w, i, c)
      ensures forall b', k :: 0 <= b' < 2 && 0 <= k < MAX_GLYPHS && (b' != b || k != i) ==>
                cp[b', k] == old(cp[b', k])
      ensures forall b', k, c :: 0 <= b' < 2 && 0 <= k < MAX_GLYPHS && 0 <= c < WIDTH && (b' != b || k != i) ==>
                cols[b', k, c] == old(cols[b', k, c])
    {
      cp[b, i] := GetU16(file, at);
      var col := 0;
      while col < WIDTH
        invariant 0 <= col <= WIDTH
        invariant cp[b, i] == CpAt(file, w, i)
        invariant forall c :: 0 <= c < col ==> cols[b, i, c] == ColAt(file, w, i, c)
        invariant forall b', k :: 0 <= b' < 2 && 0 <= k < MAX_GLYPHS && (b' != b || k != i) ==>
                    cp[b', k] == old(cp[b', k])
        invariant forall b', k, c :: 0 <= b' < 2 && 0 <= k < MAX_GLYPHS && 0 <= c < WIDTH && (b' != b || k != i) ==>
                    cols[b', k, c] == old(cols[b', k, c])
      {
        cols[b, i, col] := if col < w then GetU16(file, at + 2 + 2 * col) else 0;
        col := col + 1;
      }
    }

    /** Fill a bank from a file with a good header. */
    method Fill(file: seq<byte>, b: nat) returns (ok: bool)
      requires Shape() && b < 2 && HeaderOk(file)
      modifies cp, cols
      ensures ok == Accepts(file)
      ensures ok ==> forall k :: 0 <= k < GetU16(file, 4) ==> cp[b, k] == CpAt(file, file[6], k)
      ensures ok ==> forall k, c :: 0 <= k < GetU16(file, 4) && 0 <= c < WIDTH ==>
                       cols[b, k, c] == ColAt(file, file[6], k, c)
      ensures forall b', k :: 0 <= b' < 2 && b' != b && 0 <= k < MAX_GLYPHS ==> cp[b', k] == old(cp[b', k])
      ensures forall b', k, c :: 0 <= b' < 2 && b' != b && 0 <= k < MAX_GLYPHS && 0 <= c < WIDTH ==>
                cols[b', k, c] == old(cols[b', k, c])
    {
      hide ColAt;
      var n, w := GetU16(file, 4), file[6];
      var i, at := 0, HEADER_LEN;
      var prev: int := -1;
      while i < n
        invariant 0 <= i <= n && at == At(w, i) <= |file|
        invariant prev == if i == 0 then -1 else CpAt(file, w, i - 1)
        invariant forall k :: 0 <= k < i ==> CpAt(file, w, k) <= prev
        invariant forall j, k :: 0 <= j < k < i ==> CpAt(file, w, j) < CpAt(file, w, k)
        invariant forall k :: 0 <= k < i ==> cp[b, k] == CpAt(file, w, k)
        invariant forall k, c :: 0 <= k < i && 0 <= c < WIDTH ==> cols[b, k, c] == ColAt(file, w, k, c)
        invariant forall b', k :: 0 <= b' < 2 && b' != b && 0 <= k < MAX_GLYPHS ==> cp[b', k] == old(cp[b', k])
        invariant forall b', k, c :: 0 <= b' < 2 && b' != b && 0 <= k < MAX_GLYPHS && 0 <= c < WIDTH ==>
                    cols[b', k, c] == old(cols[b', k, c])
      {
        AtNext(w, i);
        AtGrows(w, i + 1, n);
        if at + EntryLen(w) > |file| {
          assert !Complete(file);
          return false;
        }
        var next := GetU16(file, at);
        assert next == CpAt(file, w, i);
        if next <= prev {
          assert i > 0 && CpAt(file, w, i) <= CpAt(file, w, i - 1);
          return false;
        }
        prev := next;
        FillEntry(file, w, b, i, at);
        at := at + EntryLen(w);
        i := i + 1;
      }
      ok := true;
    }

    /** Load a font. A file that is not one leaves the published table as it was. */
    method Load(file: seq<byte>, opens: bool) returns (ret: int)
      requires Valid()
      modifies this, cp, cols
      ensures Valid()
      ensures ret == if !opens then ENOENT else if Accepts(file) then OK else EINVAL
      ensures Published() == if ret == OK then TableOf(file) else old(Published())
      ensures Held(old(big)) == old(Held(big))
    {
      if !opens {
        return ENOENT;
      }
      if !HeaderOk(file) {
        return EINVAL;
      }
      hide Held, Accepts, CpAt, ColAt;
      var bank := if big == 0 then 1 else 0;
      ghost var shown, was := Published(), big;
      HeldIs(big, shown);
      var ok := Fill(file, bank);
      assert Holds(was, shown);
      HeldIs(was, shown);
      if !ok {
        return EINVAL;
      }
      count, width := count[bank := GetU16(file, 4)], width[bank := file[6]];
      rows, ascent := rows[bank := file[7]], ascent[bank := file[8]];
      big := bank;
      assert Holds(was, shown);
      HeldIs(was, shown);
      assert Holds(bank, TableOf(file));
      HeldIs(bank, TableOf(file));
      AcceptedGoesUp(file);
      ret := OK;
    }
  }

  lemma AcceptedGoesUp(file: seq<byte>)
    requires Accepts(file)
    ensures Font.Ascending(TableOf(file).cps)
  {
  }

  lemma SameTable(a: Table, b: Table)
    requires a.width == b.width && a.rows == b.rows && a.ascent == b.ascent
    requires |a.cps| == |b.cps| && |a.cols| == |b.cols|
    requires forall i :: 0 <= i < |a.cps| ==> a.cps[i] == b.cps[i]
    requires forall i :: 0 <= i < |a.cols| ==> |a.cols[i]| == |b.cols[i]|
    requires forall i, c :: 0 <= i < |a.cols| && 0 <= c < |a.cols[i]| ==> a.cols[i][c] == b.cols[i][c]
    ensures a == b
  {
    forall i | 0 <= i < |a.cols|
      ensures a.cols[i] == b.cols[i]
    {
    }
  }

  // ---------------------------------------------------------------------------
  // Any sequence of loads
  // ---------------------------------------------------------------------------

  datatype Attempt = Attempt(file: seq<byte>, opens: bool)

  predicate Succeeds(a: Attempt) {
    a.opens && Accepts(a.file)
  }

  /** The table after the loads, by the contract of one load. */
  function Loaded(start: Table, loads: seq<Attempt>): Table {
    if loads == [] then start
    else
      var a := loads[|loads| - 1];
      if Succeeds(a) then TableOf(a.file) else Loaded(start, loads[..|loads| - 1])
  }

  /** The published table is that of the last good file, and it always goes up. */
  lemma {:induction false} LastGoodFileIsPublished(start: Table, loads: seq<Attempt>, k: nat)
    requires Font.Ascending(start.cps)
    requires k < |loads| && Succeeds(loads[k])
    requires forall i :: k < i < |loads| ==> !Succeeds(loads[i])
    ensures Loaded(start, loads) == TableOf(loads[k].file)
    ensures Font.Ascending(Loaded(start, loads).cps)
    decreases |loads|
  {
    if k < |loads| - 1 {
      LastGoodFileIsPublished(start, loads[..|loads| - 1], k);
    }
  }

  method LoadAll(bank: Bank, loads: seq<Attempt>)
    requires bank.Valid()
    modifies bank, bank.cp, bank.cols
    ensures bank.Valid()
    ensures bank.Published() == Loaded(old(bank.Published()), loads)
  {
    ghost var start := bank.Published();
    var i := 0;
    while i < |loads|
      invariant 0 <= i <= |loads| && bank.Valid()
      invariant bank.Published() == Loaded(start, loads[..i])
    {
      assert loads[..i + 1][..i] == loads[..i];
      var ret := bank.Load(loads[i].file, loads[i].opens);
      i := i + 1;
    }
    assert loads[..i] == loads;
  }

  /** The table as the drawing code reads it: five columns for each entry in a row. */
  function AsFont(t: Table, ascii: seq<seq<u16>>): Font.Font {
    Font.Font(t.cps,
              seq(|t.cps| * WIDTH, k requires 0 <= k =>
                if k / WIDTH < |t.cols| && k % WIDTH < |t.cols[k / WIDTH]| then t.cols[k / WIDTH][k % WIDTH] else 0),
              t.width, WIDTH, ascii)
  }

  /** From the file to the panel: the UTF-8 text of each character of an accepted font
      draws the columns that the file gives for it. */
  lemma AcceptedFontDraws(file: seq<byte>, i: nat, ascii: seq<seq<u16>>, more: seq<byte>)
    requires Accepts(file) && i < GetU16(file, 4)
    requires Font.Wellformed(Font.Font([], [], WIDTH, WIDTH, ascii))
    ensures var f, cp := AsFont(TableOf(file), ascii), CpAt(file, file[6], i);
            && Font.Wellformed(f)
            && Font.Decode(Font.Encode(cp) + more) == Font.Char(cp, |Font.Encode(cp)|)
            && Font.Glyph(f, cp) == seq(WIDTH, c requires 0 <= c => ColAt(file, file[6], i, c))
  {
    hide Font.Encode, Font.Decode, ColAt, CpAt, Font.Glyph;
    var f, t := AsFont(TableOf(file), ascii), TableOf(file);
    AcceptedGoesUp(file);
    Font.DecodeUndoesEncode(CpAt(file, file[6], i), more);
    Font.OwnGlyph(f, i);
    forall c | 0 <= c < WIDTH
      ensures Font.Entry(f, i)[c] == ColAt(file, file[6], i, c)
    {
      assert (i * WIDTH + c) / WIDTH == i && (i * WIDTH + c) % WIDTH == c;
      assert t.cols[i][c] == ColAt(file, file[6], i, c);
      NoColumnBeyond(file, file[6], i, c);
    }
  }

  lemma NoColumnBeyond(file: seq<byte>, width: nat, i: nat, c: nat)
    ensures c >= width ==> ColAt(file, width, i, c) == 0
  {
  }

  // ---------------------------------------------------------------------------
  // The file that the font builder writes
  // ---------------------------------------------------------------------------

  datatype Glyph = Glyph(cp: u16, cols: seq<u16>)

  function ColumnBytes(cols: seq<u16>): (s: seq<byte>)
    ensures |s| == 2 * |cols|
  {
    if cols == [] then [] else PutU16(cols[0]) + ColumnBytes(cols[1..])
  }

  function GlyphBytes(gs: seq<Glyph>): seq<byte> {
    if gs == [] then [] else PutU16(gs[0].cp) + ColumnBytes(gs[0].cols) + GlyphBytes(gs[1..])
  }

  /** "TGF1", the number of glyphs, the width, the rows, the ascent, three spare bytes, and each
      glyph with its columns. */
  function FontFile(gs: seq<Glyph>, width: byte, rows: byte, ascent: byte, spare: seq<byte>): seq<byte>
    requires |gs| <= 0xffff
  {
    [0x54, 0x47, 0x46, 0x31] + PutU16(|gs|) + [width, rows, ascent] + spare + GlyphBytes(gs)
  }

  /** A font that the board takes. */
  predicate FontOk(gs: seq<Glyph>, width: byte, rows: byte, ascent: byte) {
    && 1 <= width <= 5 && 1 <= rows <= 16 && ascent < rows && |gs| <= 128
    && (forall i, j :: 0 <= i < j < |gs| ==> gs[i].cp < gs[j].cp)
  }

  predicate Widths(gs: seq<Glyph>, width: byte) {
    forall i :: 0 <= i < |gs| ==> |gs[i].cols| == width
  }

  lemma {:induction false} ColumnsAt(cols: seq<u16>, c: nat)
    requires c < |cols|
    ensures GetU16(ColumnBytes(cols), 2 * c) == cols[c]
    decreases cols
  {
    if c > 0 {
      ColumnsAt(cols[1..], c - 1);
    }
  }

  /** Where the bytes of glyph i are. */
  lemma {:induction false} GlyphAt(gs: seq<Glyph>, width: byte, i: nat)
    requires Widths(gs, width) && i < |gs|
    ensures |GlyphBytes(gs)| == |gs| * EntryLen(width)
    ensures (i + 1) * EntryLen(width) <= |gs| * EntryLen(width)
    ensures (i + 1) * EntryLen(width) == i * EntryLen(width) + EntryLen(width)
    ensures GlyphBytes(gs)[i * EntryLen(width)..i * EntryLen(width) + EntryLen(width)]
         == PutU16(gs[i].cp) + ColumnBytes(gs[i].cols)
    decreases gs
  {
    hide PutU16, ColumnBytes;
    var len := EntryLen(width);
    var first, rest := PutU16(gs[0].cp) + ColumnBytes(gs[0].cols), GlyphBytes(gs[1..]);
    assert GlyphBytes(gs) == first + rest && |first| == len;
    GlyphLength(gs, width);
    Products(i, |gs|, len);
    if i > 0 {
      GlyphAt(gs[1..], width, i - 1);
      assert i * len == (i - 1) * len + len;
      SliceBehind(first, rest, (i - 1) * len, len);
    }
  }

  lemma SliceBehind(a: seq<byte>, b: seq<byte>, at: nat, n: nat)
    requires at + n <= |b|
    ensures (a + b)[at + |a|..at + |a| + n] == b[at..at + n]
  {
  }

  lemma Products(i: nat, n: nat, len: nat)
    requires i < n
    ensures (i + 1) * len <= n * len && (i + 1) * len == i * len + len
  {
  }

  lemma {:induction false} GlyphLength(gs: seq<Glyph>, width: byte)
    requires Widths(gs, width)
    ensures |GlyphBytes(gs)| == |gs| * EntryLen(width)
    decreases gs
  {
    hide PutU16, ColumnBytes;
    if gs != [] {
      GlyphLength(gs[1..], width);
      Products(|gs| - 1, |gs|, EntryLen(width));
    }
  }

  lemma HeaderOfFile(gs: seq<Glyph>, width: byte, rows: byte, ascent: byte, spare: seq<byte>, more: seq<byte>)
    requires |gs| <= 0xffff && |spare| == 3
    ensures var file := FontFile(gs, width, rows, ascent, spare) + more;
            && |file| >= 12 && GetU16(file, 0) == MAGIC_LOW && GetU16(file, 2) == MAGIC_HIGH
            && GetU16(file, 4) == |gs| && file[6] == width && file[7] == rows && file[8] == ascent
            && file[12..] == GlyphBytes(gs) + more
  {
    hide GlyphBytes;
    var n := PutU16(|gs|);
    var head := [0x54, 0x47, 0x46, 0x31] + n + [width, rows, ascent] + spare;
    var file := FontFile(gs, width, rows, ascent, spare) + more;
    assert file == head + (GlyphBytes(gs) + more);
    assert |head| == 12 && head[4] == n[0] && head[5] == n[1];
  }

  lemma EntryInFile(gs: seq<Glyph>, width: byte, file: seq<byte>, more: seq<byte>, i: nat)
    requires Widths(gs, width) && i < |gs|
    requires |file| >= 12 && file[12..] == GlyphBytes(gs) + more
    ensures At(width, i) + EntryLen(width) <= |file|
    ensures file[At(width, i)..At(width, i) + EntryLen(width)] == PutU16(gs[i].cp) + ColumnBytes(gs[i].cols)
  {
    hide *;
    GlyphAt(gs, width, i);
    AtIs(width, i);
    var at, len := At(width, i) - 12, EntryLen(width);
    SliceOfTail(file, 12, GlyphBytes(gs), more, at, len);
  }

  lemma AtIs(width: nat, i: nat)
    ensures At(width, i) == 12 + i * EntryLen(width)
  {
  }

  lemma SliceOfTail(s: seq<byte>, from: nat, front: seq<byte>, more: seq<byte>, at: nat, n: nat)
    requires from <= |s| && s[from..] == front + more && at + n <= |front|
    ensures from + at + n <= |s| && s[from + at..from + at + n] == front[at..at + n]
  {
    assert s[from..] == s[from..|s|];
    SliceOfSlice(s, from, |s|, at, at + n);
    assert (front + more)[at..at + n] == front[at..at + n];
  }

  lemma FieldsOfGlyph(gs: seq<Glyph>, width: byte, file: seq<byte>, more: seq<byte>, i: nat)
    requires Widths(gs, width) && i < |gs|
    requires |file| >= 12 && file[12..] == GlyphBytes(gs) + more
    ensures CpAt(file, width, i) == gs[i].cp
    ensures forall c :: 0 <= c < width ==> ColAt(file, width, i, c) == gs[i].cols[c]
    ensures forall c :: c >= width ==> ColAt(file, width, i, c) == 0
  {
    EntryInFile(gs, width, file, more, i);
    var at := At(width, i);
    var entry := PutU16(gs[i].cp) + ColumnBytes(gs[i].cols);
    assert |entry| == 2 + 2 * width == EntryLen(width);
    FieldFirst(gs[i].cp, ColumnBytes(gs[i].cols));
    ReadInside(file, at, |entry|, 0);
    forall c | 0 <= c < width
      ensures ColAt(file, width, i, c) == gs[i].cols[c]
    {
      ColumnOfGlyph(gs[i], entry, c);
      ReadInside(file, at, |entry|, 2 + 2 * c);
    }
  }

  lemma ColumnOfGlyph(g: Glyph, entry: seq<byte>, c: nat)
    requires entry == PutU16(g.cp) + ColumnBytes(g.cols) && c < |g.cols|
    ensures GetU16(entry, 2 + 2 * c) == g.cols[c]
  {
    hide PutU16, ColumnBytes, GetU16;
    ColumnsAt(g.cols, c);
    ReadBehind(PutU16(g.cp), ColumnBytes(g.cols), 2 * c);
  }

  lemma ReadInside(file: seq<byte>, at: nat, len: nat, k: nat)
    requires at + len <= |file| && k + 2 <= len
    ensures GetU16(file[at..at + len], k) == GetU16(file, at + k)
  {
  }

  lemma ReadBehind(a: seq<byte>, b: seq<byte>, k: nat)
    requires |a| == 2 && k + 2 <= |b|
    ensures GetU16(a + b, 2 + k) == GetU16(b, k)
  {
  }

  lemma FieldFirst(w: u16, more: seq<byte>)
    ensures GetU16(PutU16(w) + more, 0) == w
  {
  }

  /** What the font builder writes is taken exactly when it is a font of the board, whatever
      follows; then the table has its glyphs, filled up to five columns, and its cell. */
  lemma BuiltFontIsTaken(gs: seq<Glyph>, width: byte, rows: byte, ascent: byte, spare: seq<byte>, more: seq<byte>)
    requires |gs| <= 0xffff && |spare| == 3 && Widths(gs, width)
    ensures var file := FontFile(gs, width, rows, ascent, spare) + more;
            && (Accepts(file) <==> FontOk(gs, width, rows, ascent))
            && (Accepts(file) ==>
                  var t := TableOf(file);
                  && |t.cps| == |t.cols| == |gs| && t.width == width && t.rows == rows && t.ascent == ascent
                  && forall i :: 0 <= i < |gs| ==>
                       && t.cps[i] == gs[i].cp && |t.cols[i]| == 5
                       && forall c :: 0 <= c < 5 ==> t.cols[i][c] == if c < width then gs[i].cols[c] else 0)
  {
    hide PutU16, GlyphBytes, CpAt, ColAt, FontFile, GetU16;
    var file := FontFile(gs, width, rows, ascent, spare) + more;
    HeaderOfFile(gs, width, rows, ascent, spare, more);
    GlyphLength(gs, width);
    forall i | 0 <= i < |gs|
      ensures CpAt(file, width, i) == gs[i].cp
      ensures forall c :: 0 <= c < width ==> ColAt(file, width, i, c) == gs[i].cols[c]
      ensures forall c :: c >= width ==> ColAt(file, width, i, c) == 0
    {
      FieldsOfGlyph(gs, width, file, more, i);
    }
  }

  /** From the font builder to the columns: the UTF-8 text of each glyph of a font that is taken
      draws the columns that were built for it, and blanks to their right. */
  lemma BuiltGlyphDraws(gs: seq<Glyph>, width: byte, rows: byte, ascent: byte, spare: seq<byte>, more: seq<byte>,
                        ascii: seq<seq<u16>>, i: nat, text: seq<byte>)
    requires |spare| == 3 && Widths(gs, width) && FontOk(gs, width, rows, ascent) && i < |gs|
    requires Font.Wellformed(Font.Font([], [], WIDTH, WIDTH, ascii))
    ensures var file := FontFile(gs, width, rows, ascent, spare) + more;
            && Accepts(file)
            && var f := AsFont(TableOf(file), ascii);
            && Font.Wellformed(f) && f.width == width
            && Font.Decode(Font.Encode(gs[i].cp) + text) == Font.Char(gs[i].cp, |Font.Encode(gs[i].cp)|)
            && var cols := Font.Glyph(f, gs[i].cp);
               |cols| == 5 && forall c :: 0 <= c < 5 ==> cols[c] == if c < width then gs[i].cols[c] else 0
  {
    var file := FontFile(gs, width, rows, ascent, spare) + more;
    HeaderOfFile(gs, width, rows, ascent, spare, more);
    BuiltFontIsTaken(gs, width, rows, ascent, spare, more);
    FieldsOfGlyph(gs, width, file, more, i);
    AcceptedFontDraws(file, i, ascii, text);
    hide CpAt, ColAt, FontFile, Font.Glyph, Font.Decode, Font.Encode, GetU16, GlyphBytes;
  }

  // ---------------------------------------------------------------------------
  // Nothing else is taken
  // ---------------------------------------------------------------------------

  /** The columns and the glyphs that a file gives, from number i on. */
  function ColumnsFrom(file: seq<byte>, at: nat, n: nat): (cols: seq<u16>)
    requires at + 2 * n <= |file|
    ensures |cols| == n
    decreases n
  {
    if n == 0 then [] else [GetU16(file, at)] + ColumnsFrom(file, at + 2, n - 1)
  }

  function GlyphsFrom(file: seq<byte>, width: byte, at: nat, n: nat): (gs: seq<Glyph>)
    requires at + n * EntryLen(width) <= |file|
    ensures |gs| == n && Widths(gs, width)
    decreases n
  {
    if n == 0 then []
    else
      Products(0, n, EntryLen(width));
      assert n * EntryLen(width) == (n - 1) * EntryLen(width) + EntryLen(width);
      [Glyph(GetU16(file, at), ColumnsFrom(file, at + 2, width))]
      + GlyphsFrom(file, width, at + EntryLen(width), n - 1)
  }

  lemma PutGet(s: seq<byte>, at: nat)
    requires at + 2 <= |s|
    ensures PutU16(GetU16(s, at)) == s[at..at + 2]
  {
  }

  lemma {:induction false} ColumnsSpell(file: seq<byte>, at: nat, n: nat)
    requires at + 2 * n <= |file|
    ensures ColumnBytes(ColumnsFrom(file, at, n)) == file[at..at + 2 * n]
    decreases n
  {
    hide PutU16;
    if n > 0 {
      PutGet(file, at);
      ColumnsSpell(file, at + 2, n - 1);
      SliceJoins(file, at, at + 2, at + 2 * n);
    }
  }

  lemma {:induction false} GlyphsSpell(file: seq<byte>, width: byte, at: nat, n: nat)
    requires at + n * EntryLen(width) <= |file|
    ensures GlyphBytes(GlyphsFrom(file, width, at, n)) == file[at..at + n * EntryLen(width)]
    decreases n
  {
    hide PutU16, ColumnBytes, ColumnsFrom;
    if n > 0 {
      var len := EntryLen(width);
      Products(0, n, len);
      assert n * len == (n - 1) * len + len;
      PutGet(file, at);
      ColumnsSpell(file, at + 2, width);
      GlyphsSpell(file, width, at + len, n - 1);
      SliceJoins(file, at, at + 2, at + len);
      SliceJoins(file, at, at + len, at + n * len);
    }
  }

  /** A file that is taken starts with what the font builder writes for some font of the board. */
  lemma TakenFontIsBuilt(file: seq<byte>) returns (gs: seq<Glyph>)
    requires Accepts(file)
    ensures |gs| <= 128 && Widths(gs, file[6]) && FontOk(gs, file[6], file[7], file[8])
    ensures FontFile(gs, file[6], file[7], file[8], file[9..12]) <= file
  {
    hide PutU16, GlyphBytes, GlyphsFrom, GetU16;
    var n, width := GetU16(file, 4), file[6];
    gs := GlyphsFrom(file, width, 12, n);
    GlyphsSpell(file, width, 12, n);
    HeaderSpells(file);
    var end := 12 + n * EntryLen(width);
    SliceJoins(file, 0, 12, end);
    assert FontFile(gs, width, file[7], file[8], file[9..12]) == file[..12] + file[12..end];
    var more := file[end..];
    assert file == FontFile(gs, width, file[7], file[8], file[9..12]) + more;
    BuiltFontIsTaken(gs, width, file[7], file[8], file[9..12], more);
  }

  lemma HeaderSpells(file: seq<byte>)
    requires HeaderOk(file)
    ensures file[..12] == [0x54, 0x47, 0x46, 0x31] + PutU16(GetU16(file, 4)) + [file[6], file[7], file[8]] + file[9..12]
  {
    PutGet(file, 4);
    assert file[4..6] == [file[4], file[5]];
  }
}
