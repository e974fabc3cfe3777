/** Texts drawn into a bitmap: one line, and the lines of a wrapped text. */
module Render {
  import opened Arith
  import opened Bitmap
  import opened Bytes
  import opened Panel
  import Crc
  import Font
  import opened Wrap

  /** A font with the height of its cell and the rows above the top of its letters. */
  datatype Cell = Cell(font: Font.Font, rows: nat, ascent: nat)

  predicate CellOk(c: Cell) {
    Font.Wellformed(c.font) && 0 < c.font.width <= Font.WIDTH && c.ascent < c.rows <= 16
  }

  function AdvanceOf(c: Cell): nat {
    c.font.width + 1
  }

  /** Half of a number, cut toward zero. */
  function Half(n: int): int {
    if n >= 0 then n / 2 else -(-n / 2)
  }

  /** The row of the bitmap that row 0 of the cell goes to. */
  function Top(c: Cell, ytop: int, cellHeight: int): int {
    ytop - c.ascent + Half(cellHeight - (c.rows - c.ascent - 1))
  }

  // ---------------------------------------------------------------------------
  // What a text inks
  // ---------------------------------------------------------------------------

  predicate ColumnDot(rows: nat, v: u16, row: int) {
    0 <= row < rows && Crc.Bit(v, row)
  }

  predicate GlyphDot(c: Cell, cols: seq<u16>, col: int, row: int)
    requires |cols| == Font.WIDTH && c.font.width <= Font.WIDTH
  {
    0 <= col < c.font.width && ColumnDot(c.rows, cols[col], row)
  }

  ghost predicate CharDot(c: Cell, cp: nat, col: int, row: int)
    requires CellOk(c)
  {
    Font.GlyphSize(c.font, cp);
    GlyphDot(c, Font.Glyph(c.font, cp), col, row)
  }

  /** The pixels of the text `s` whose first cell starts at column x, in a bitmap of width w. */
  ghost predicate Inked(c: Cell, s: seq<byte>, x: nat, top: int, w: nat, px: int, py: int)
    requires CellOk(c)
    decreases |s|
  {
    s != [] && x < w &&
    (CharDot(c, Font.Decode(s).cp, px - x, py - top) || Inked(c, s[Used(s)..], x + AdvanceOf(c), top, w, px, py))
  }

  /** The bitmap `after` is `before` with the first `n` rows of a column in addition. */
  ghost predicate ColumnAdded(before: seq<bv8>, after: seq<bv8>, w: nat, h: nat,
                              rows: nat, v: u16, x: nat, top: int, n: nat) {
    forall py, px :: 0 <= py < h && 0 <= px < w ==>
      Source(after, Stride(w), py, px)
      == (Source(before, Stride(w), py, px) || (px == x && py - top < n && ColumnDot(rows, v, py - top)))
  }

  /** The same, with the first `n` columns of a glyph. */
  ghost predicate GlyphAdded(before: seq<bv8>, after: seq<bv8>, w: nat, h: nat,
                             c: Cell, cols: seq<u16>, x: nat, top: int, n: nat)
    requires |cols| == Font.WIDTH && c.font.width <= Font.WIDTH
  {
    forall py, px :: 0 <= py < h && 0 <= px < w ==>
      Source(after, Stride(w), py, px)
      == (Source(before, Stride(w), py, px) || (px - x < n && GlyphDot(c, cols, px - x, py - top)))
  }

  /** The same, with a text. */
  ghost predicate TextAdded(before: seq<bv8>, after: seq<bv8>, w: nat, h: nat, c: Cell, s: seq<byte>, x: nat, top: int)
    requires CellOk(c)
  {
    forall py, px :: 0 <= py < h && 0 <= px < w ==>
      Source(after, Stride(w), py, px) == (Source(before, Stride(w), py, px) || Inked(c, s, x, top, w, px, py))
  }

  // ---------------------------------------------------------------------------
  // The loops
  // ---------------------------------------------------------------------------

  lemma WidthFits(w: nat)
    ensures w <= 8 * Stride(w)
  {
  }

  /** One column of a glyph; rows outside the bitmap are left out. */
  method DrawColumn(bits: array<bv8>, w: nat, h: nat, rows: nat, v: u16, x: nat, top: int)
    requires x < w && Stride(w) * h <= bits.Length
    modifies bits
    ensures ColumnAdded(old(bits[..]), bits[..], w, h, rows, v, x, top, rows)
  {
    hide Source, Stride, Crc.Bit;
    WidthFits(w);
    ghost var was := bits[..];
    var row := 0;
    while row < rows
      invariant 0 <= row <= rows
      invariant ColumnAdded(was, bits[..], w, h, rows, v, x, top, row)
    {
      var y := top + row;
      if 0 <= y < h && Crc.Bit(v, row) {
        SetPixel(bits, Stride(w), h, y, x);
      }
      row := row + 1;
    }
  }

  /** One glyph; columns behind the right edge are left out. */
  method DrawGlyph(bits: array<bv8>, w: nat, h: nat, c: Cell, cols: seq<u16>, x: nat, top: int)
    requires |cols| == Font.WIDTH && c.font.width <= Font.WIDTH && Stride(w) * h <= bits.Length
    modifies bits
    ensures GlyphAdded(old(bits[..]), bits[..], w, h, c, cols, x, top, c.font.width)
  {
    hide Source, Stride, Crc.Bit;
    ghost var was := bits[..];
    var col := 0;
    while col < c.font.width && x + col < w
      invariant 0 <= col <= c.font.width
      invariant GlyphAdded(was, bits[..], w, h, c, cols, x, top, col)
    {
      DrawColumn(bits, w, h, c.rows, cols[col], x + col, top);
      col := col + 1;
    }
  }

  /** Draw a text into a bitmap, from column `xoff` on. */
  method RenderTextAt(bits: array<bv8>, c: Cell, w: nat, h: nat, xoff: nat, ytop: int, cellHeight: int, s: seq<byte>)
    requires CellOk(c) && Stride(w) * h <= bits.Length
    modifies bits
    ensures TextAdded(old(bits[..]), bits[..], w, h, c, s, xoff, Top(c, ytop, cellHeight))
  {
    hide Source, Stride, CellOk, GlyphDot, Font.Glyph, Font.Decode;
    CellParts(c);
    ghost var was := bits[..];
    var top := Top(c, ytop, cellHeight);
    var i: nat, x: nat := 0, xoff;
    assert s[0..] == s;
    while i < |s| && x < w
      invariant 0 <= i <= |s|
      invariant Drawing(was, bits[..], c, s, xoff, s[i..], x, top, w, h)
    {
      var used, cols := Font.Next(c.font, s[i..]);
      Font.GlyphSize(c.font, Font.Decode(s[i..]).cp);
      ghost var before := bits[..];
      DrawGlyph(bits, w, h, c, cols, x, top);
      DrawingSteps(was, before, bits[..], c, s, xoff, s[i..], x, top, w, h, cols);
      assert s[i..][used..] == s[i + used..];
      i := i + used;
      x := x + AdvanceOf(c);
    }
  }

  lemma CellParts(c: Cell)
    requires CellOk(c)
    ensures Font.Wellformed(c.font) && c.font.width <= Font.WIDTH
  {
  }

  /** The ink so far and the ink of the text left are the ink of the whole. */
  ghost predicate Drawing(was: seq<bv8>, now: seq<bv8>, c: Cell, s: seq<byte>, xoff: nat,
                          left: seq<byte>, x: nat, top: int, w: nat, h: nat)
    requires CellOk(c)
  {
    forall py, px :: 0 <= py < h && 0 <= px < w ==>
      (Source(now, Stride(w), py, px) || Inked(c, left, x, top, w, px, py))
      == (Source(was, Stride(w), py, px) || Inked(c, s, xoff, top, w, px, py))
  }

  lemma DrawingSteps(was: seq<bv8>, before: seq<bv8>, after: seq<bv8>, c: Cell, s: seq<byte>, xoff: nat,
                     left: seq<byte>, x: nat, top: int, w: nat, h: nat, cols: seq<u16>)
    requires CellOk(c) && left != [] && x < w && |cols| == Font.WIDTH
    requires Drawing(was, before, c, s, xoff, left, x, top, w, h)
    requires cols == Font.Glyph(c.font, Font.Decode(left).cp)
    requires c.font.width <= Font.WIDTH && GlyphAdded(before, after, w, h, c, cols, x, top, c.font.width)
    ensures Drawing(was, after, c, s, xoff, left[Used(left)..], x + AdvanceOf(c), top, w, h)
  {
    hide Source, Stride, ColumnDot, Font.Glyph, Font.Decode;
  }

  // ---------------------------------------------------------------------------
  // Where each character is
  // ---------------------------------------------------------------------------

  /** The code point of character number m. */
  function CharAt(s: seq<byte>, m: nat): nat
    requires m < Chars(s)
    decreases |s|
  {
    if m == 0 then Font.Decode(s).cp else CharAt(s[Used(s)..], m - 1)
  }

  /** Pixel px of a text is inked exactly when the column (px - x) modulo the advance, of
      character number (px - x) divided by it, has a dot there. */
  lemma {:induction false} InkedAt(c: Cell, s: seq<byte>, x: nat, top: int, w: nat, px: nat, py: int)
    requires CellOk(c) && px < w
    ensures Inked(c, s, x, top, w, px, py) <==>
              && px >= x && (px - x) / AdvanceOf(c) < Chars(s)
              && CharDot(c, CharAt(s, (px - x) / AdvanceOf(c)), (px - x) % AdvanceOf(c), py - top)
    decreases |s|
  {
    hide Used, Font.Glyph, Font.Decode, ColumnDot;
    if s != [] {
      InkedAt(c, s[Used(s)..], x + AdvanceOf(c), top, w, px, py);
      if px >= x {
        Quotient(px - x, AdvanceOf(c));
      }
    }
  }

  lemma InkStaysInside(c: Cell, s: seq<byte>, x: nat, top: int, w: nat, px: nat, py: int)
    requires CellOk(c) && px < w && Inked(c, s, x, top, w, px, py)
    ensures x <= px < x + TextWidth(s, AdvanceOf(c)) && top <= py < top + c.rows
  {
    hide CellOk, Chars, Inked, CharDot;
    InkedAt(c, s, x, top, w, px, py);
    var m, col := (px - x) / AdvanceOf(c), (px - x) % AdvanceOf(c);
    DotInside(c, CharAt(s, m), col, py - top);
    CharInside(m, Chars(s), AdvanceOf(c), col);
    Division(px - x, AdvanceOf(c));
    NoChars(s);
  }

  lemma NoChars(s: seq<byte>)
    ensures Chars(s) > 0 <==> s != []
  {
  }

  lemma DotInside(c: Cell, cp: nat, col: int, row: int)
    requires CellOk(c) && CharDot(c, cp, col, row)
    ensures 0 <= col && col + 1 < AdvanceOf(c) && 0 <= row < c.rows
  {
    hide Font.Glyph;
  }

  /** A column of character m is before the end of the text. */
  lemma CharInside(m: nat, n: nat, adv: nat, col: nat)
    requires m < n && col + 1 < adv
    ensures m * adv + col < n * adv - 1
  {
    assert (m + 1) * adv <= n * adv;
    assert (m + 1) * adv == m * adv + adv;
  }

  /** A text that fits shows every column of each of its characters. */
  lemma FittingTextIsWhole(c: Cell, s: seq<byte>, x: nat, top: int, w: nat, m: nat, col: nat, py: int)
    requires CellOk(c) && m < Chars(s) && col < c.font.width
    requires x + TextWidth(s, AdvanceOf(c)) <= w
    ensures var px := x + m * AdvanceOf(c) + col;
            px < w && (Inked(c, s, x, top, w, px, py) <==> CharDot(c, CharAt(s, m), col, py - top))
  {
    hide CellOk, Chars, Inked, CharDot;
    var adv := AdvanceOf(c);
    var px := x + m * adv + col;
    CharInside(m, Chars(s), adv, col);
    NoChars(s);
    QuotientIs(m, col, adv);
    InkedAt(c, s, x, top, w, px, py);
  }

  /** Draw one text on a bitmap made dark first. */
  method RenderText(bits: array<bv8>, c: Cell, w: nat, h: nat, s: seq<byte>)
    requires CellOk(c) && Stride(w) * h <= bits.Length
    modifies bits
    ensures TextShown(bits[..], c, w, h, s)
  {
    hide CellOk, Source, Stride, Inked;
    forall i | 0 <= i < Stride(w) * h {
      bits[i] := 0;
    }
    Dark(bits[..], Stride(w), h);
    WidthFits(w);
    RenderTextAt(bits, c, w, h, 0, 0, h, s);
  }

  /** The bitmap shows the text and nothing else. */
  ghost predicate TextShown(bits: seq<bv8>, c: Cell, w: nat, h: nat, s: seq<byte>)
    requires CellOk(c)
  {
    forall py, px :: 0 <= py < h && 0 <= px < w ==>
      (Source(bits, Stride(w), py, px) <==> Inked(c, s, 0, Top(c, 0, h), w, px, py))
  }

  // ---------------------------------------------------------------------------
  // The lines of a wrapped text
  // ---------------------------------------------------------------------------

  predicate LinesOf(s: seq<byte>, lines: seq<Line>) {
    forall k :: 0 <= k < |lines| ==> lines[k].start + lines[k].len <= |s|
  }

  function LineText(s: seq<byte>, l: Line): seq<byte>
    requires l.start + l.len <= |s|
  {
    s[l.start..l.start + l.len]
  }

  /** The pixels of line number k, in its own cell. */
  ghost predicate LineInk(c: Cell, s: seq<byte>, lines: seq<Line>, xoffs: seq<nat>, k: nat, w: nat, px: int, py: int)
    requires CellOk(c) && LinesOf(s, lines) && k < |lines| == |xoffs|
  {
    Inked(c, LineText(s, lines[k]), xoffs[k], Top(c, k * c.rows, c.rows), w, px, py)
  }

  ghost predicate LinesDrawn(bits: seq<bv8>, c: Cell, s: seq<byte>, lines: seq<Line>, xoffs: seq<nat>,
                             n: nat, w: nat, h: nat)
    requires CellOk(c) && LinesOf(s, lines) && n <= |lines| == |xoffs|
  {
    forall py, px :: 0 <= py < h && 0 <= px < w ==>
      (Source(bits, Stride(w), py, px) <==> exists k :: 0 <= k < n && LineInk(c, s, lines, xoffs, k, w, px, py))
  }

  /** Draw the lines below each other, on a bitmap made dark first. */
  method RenderTextLines(bits: array<bv8>, c: Cell, w: nat, h: nat, lines: seq<Line>, xoffs: seq<nat>, s: seq<byte>)
    requires CellOk(c) && LinesOf(s, lines) && |lines| == |xoffs| && Stride(w) * h <= bits.Length
    modifies bits
    ensures LinesDrawn(bits[..], c, s, lines, xoffs, |lines|, w, h)
  {
    hide CellOk, Source, Stride, Inked;
    forall i | 0 <= i < Stride(w) * h {
      bits[i] := 0;
    }
    Dark(bits[..], Stride(w), h);
    WidthFits(w);
    var k := 0;
    while k < |lines|
      invariant 0 <= k <= |lines|
      invariant LinesDrawn(bits[..], c, s, lines, xoffs, k, w, h)
    {
      ghost var was := bits[..];
      RenderTextAt(bits, c, w, h, xoffs[k], k * c.rows, c.rows, LineText(s, lines[k]));
      OneMoreLine(was, bits[..], c, s, lines, xoffs, k, w, h);
      k := k + 1;
    }
  }

  lemma OneMoreLine(was: seq<bv8>, now: seq<bv8>, c: Cell, s: seq<byte>, lines: seq<Line>, xoffs: seq<nat>,
                    k: nat, w: nat, h: nat)
    requires CellOk(c) && LinesOf(s, lines) && k < |lines| == |xoffs|
    requires LinesDrawn(was, c, s, lines, xoffs, k, w, h)
    requires TextAdded(was, now, w, h, c, LineText(s, lines[k]), xoffs[k],
                       Top(c, k * c.rows, c.rows))
    ensures LinesDrawn(now, c, s, lines, xoffs, k + 1, w, h)
  {
    hide CellOk, Source, Stride, Inked, Top;
    forall py, px | 0 <= py < h && 0 <= px < w
      ensures Source(now, Stride(w), py, px)
         <==> exists j :: 0 <= j < k + 1 && LineInk(c, s, lines, xoffs, j, w, px, py)
    {
      assert Source(now, Stride(w), py, px)
          == (Source(was, Stride(w), py, px) || LineInk(c, s, lines, xoffs, k, w, px, py));
    }
  }

  /** The cell of a line starts half the ascent above its rows. */
  lemma CellTop(c: Cell, k: nat)
    requires CellOk(c)
    ensures Top(c, k * c.rows, c.rows) == k * c.rows - c.ascent / 2
  {
  }

  /** In a cell of any height the letters are centred: of the rows above them and below them, as many
      are on each side, or one more is below; letters taller than the cell stick out as evenly. */
  lemma LettersAreCentred(c: Cell, ytop: int, cellHeight: int)
    requires CellOk(c)
    ensures var letters := c.rows - c.ascent - 1;
            var above := Top(c, ytop, cellHeight) + c.ascent - ytop;
            var below := cellHeight - letters - above;
            if cellHeight >= letters then 0 <= below - above <= 1 else -1 <= below - above <= 0
  {
  }

  /** The line whose cell has row py. */
  function LineAtRow(c: Cell, py: nat): nat
    requires CellOk(c)
  {
    (py + c.ascent / 2) / c.rows
  }

  /** No two lines touch: a pixel belongs to the one line whose cell has its row. */
  lemma EachRowHasOneLine(c: Cell, s: seq<byte>, lines: seq<Line>, xoffs: seq<nat>, w: nat, px: nat, py: nat)
    requires CellOk(c) && LinesOf(s, lines) && |lines| == |xoffs| && px < w
    ensures var k := LineAtRow(c, py);
            (exists j :: 0 <= j < |lines| && LineInk(c, s, lines, xoffs, j, w, px, py)) <==>
            k < |lines| && LineInk(c, s, lines, xoffs, k, w, px, py)
  {
    hide CellOk, LineAtRow, LineInk;
    forall j | 0 <= j < |lines| && LineInk(c, s, lines, xoffs, j, w, px, py)
      ensures j == LineAtRow(c, py)
    {
      InkInCell(c, s, lines, xoffs, j, w, px, py);
    }
  }

  lemma InkInCell(c: Cell, s: seq<byte>, lines: seq<Line>, xoffs: seq<nat>, j: nat, w: nat, px: nat, py: nat)
    requires CellOk(c) && LinesOf(s, lines) && j < |lines| == |xoffs| && px < w
    requires LineInk(c, s, lines, xoffs, j, w, px, py)
    ensures j == LineAtRow(c, py)
  {
    hide Inked, Top;
    CellTop(c, j);
    InkStaysInside(c, LineText(s, lines[j]), xoffs[j], Top(c, j * c.rows, c.rows), w, px, py);
    QuotientIs(j, py + c.ascent / 2 - j * c.rows, c.rows);
  }

  datatype Align = Left | Right | Center

  /** The column at which a line of a text starts. */
  function TextColumn(w: nat, width: int, align: Align): (x: nat)
    ensures 0 <= width <= w ==> x + width <= w
    ensures width > w ==> x == 0
  {
    var space := w - width;
    if space <= 0 then 0
    else
      match align
      case Left => 0
      case Right => space
      case Center => space / 2
  }

  /** A line that fits starts at the left edge, ends at the right one, or has as much room on its
      left as on its right, or one column less. */
  lemma AlignedLine(w: nat, width: int)
    requires 0 <= width <= w
    ensures TextColumn(w, width, Left) == 0
    ensures TextColumn(w, width, Right) + width == w
    ensures var left := TextColumn(w, width, Center); 0 <= (w - width - left) - left <= 1
  {
  }

  /** The bitmap row of row `row` of the cell of line k. */
  function RowOf(c: Cell, k: nat, row: nat): int {
    k * c.rows - c.ascent / 2 + row
  }

  /** The bitmap column of a column of character m of a line. */
  function ColumnOf(c: Cell, xoff: nat, m: nat, col: nat): nat {
    xoff + m * AdvanceOf(c) + col
  }

  /** From the text to the bitmap: every column of every character of every line of a
      wrapped text is at its place and complete, except for the rows above the bitmap. */
  lemma WrappedTextIsDrawn(bits: seq<bv8>, c: Cell, s: seq<byte>, w: nat, h: nat, align: Align, maxlines: nat,
                           lines: seq<Line>, xoffs: seq<nat>, k: nat, m: nat, col: nat, row: nat)
    requires CellOk(c) && AdvanceOf(c) <= w + 1
    requires lines == Lines(s, 0, Fit(w, AdvanceOf(c)), maxlines) && LinesOf(s, lines)
    requires k < |lines| == |xoffs| && LinesDrawn(bits, c, s, lines, xoffs, |lines|, w, h)
    requires xoffs[k] == TextColumn(w, TextWidth(LineText(s, lines[k]), AdvanceOf(c)), align)
    requires m < Chars(LineText(s, lines[k])) && col < c.font.width && row < c.rows
    requires 0 <= RowOf(c, k, row) < h
    ensures var px, py := ColumnOf(c, xoffs[k], m, col), RowOf(c, k, row);
            && px < w
            && (Source(bits, Stride(w), py, px) <==> CharDot(c, CharAt(LineText(s, lines[k]), m), col, row))
  {
    hide CellOk, Source, Stride, Lines, Fit, CharDot, Inked, Top, Chars, LineAtRow;
    var t, adv := LineText(s, lines[k]), AdvanceOf(c);
    AdvancePositive(c);
    var end := LinesPromise(s, 0, adv, w, maxlines);
    assert LineOk(s, lines[k], adv, w);
    WidthIsNat(t, adv);
    FittingTextIsWhole(c, t, xoffs[k], Top(c, k * c.rows, c.rows), w, m, col, RowOf(c, k, row));
    EachRowHasOneLine(c, s, lines, xoffs, w, ColumnOf(c, xoffs[k], m, col), RowOf(c, k, row));
    CellTop(c, k);
    RowOfLine(c, k, row);
  }

  lemma AdvancePositive(c: Cell)
    requires CellOk(c)
    ensures AdvanceOf(c) > 1
  {
  }

  lemma WidthIsNat(t: seq<byte>, adv: nat)
    requires adv > 0
    ensures TextWidth(t, adv) >= 0
  {
    hide Used;
    if t != [] {
      assert Chars(t) >= 1;
      assert Chars(t) * adv >= 1 * adv;
    }
  }

  lemma RowOfLine(c: Cell, k: nat, row: nat)
    requires CellOk(c) && row < c.rows && RowOf(c, k, row) >= 0
    ensures LineAtRow(c, RowOf(c, k, row)) == k
  {
    QuotientIs(k, row, c.rows);
  }

  // ---------------------------------------------------------------------------
  // The dots of a character
  // ---------------------------------------------------------------------------

  function Power2(n: nat): (p: nat)
    ensures p > 0
  {
    if n == 0 then 1 else 2 * Power2(n - 1)
  }

  lemma {:induction false} BitIsDivided(v: nat, n: nat)
    ensures Crc.Bit(v, n) <==> v / Power2(n) % 2 == 1
    decreases n
  {
    if n > 0 {
      BitIsDivided(v / 2, n - 1);
      HalfThenDivide(v, Power2(n - 1));
    }
  }

  lemma HalfThenDivide(v: nat, d: nat)
    requires d > 0
    ensures v / 2 / d == v / (2 * d)
  {
    var q, r := v / 2 / d, v / 2 % d;
    Division(v / 2, d);
    Division(v, 2);
    assert v == q * (2 * d) + (2 * r + v % 2) by {
      assert 2 * (q * d) == q * (2 * d);
    }
    QuotientIs(q, 2 * r + v % 2, 2 * d);
  }

  /** A character has a dot where the bit of that row is set in the word of that column; bit 0 is
      the top row. */
  lemma DotIsABit(c: Cell, cp: nat, col: int, row: int)
    requires CellOk(c)
    ensures |Font.Glyph(c.font, cp)| == 5
    ensures CharDot(c, cp, col, row) <==>
              0 <= col < c.font.width && 0 <= row < c.rows && Font.Glyph(c.font, cp)[col] / Power2(row) % 2 == 1
  {
    Font.GlyphSize(c.font, cp);
    hide Font.Glyph;
    if row >= 0 && 0 <= col < c.font.width {
      BitIsDivided(Font.Glyph(c.font, cp)[col], row);
    }
  }

  /** A text of printable ASCII. */
  predicate Printable(s: seq<byte>) {
    forall i :: 0 <= i < |s| ==> 0x20 <= s[i] <= 0x7e
  }

  lemma {:induction false} CharsOfAscii(s: seq<byte>, m: nat)
    requires Printable(s)
    ensures Chars(s) == |s| && (m < |s| ==> CharAt(s, m) == s[m])
    decreases |s|
  {
    if s != [] {
      assert Font.Decode(s) == Font.Char(s[0], 1);
      CharsOfAscii(s[1..], if m == 0 then 0 else m - 1);
    }
  }

  /** The built-in table has a dot there: the bit of that row of that column of its entry. */
  predicate AsciiDot(f: Font.Font, b: byte, col: nat, row: nat) {
    && 0x20 <= b && b - 0x20 < |f.ascii| && col < |f.ascii[b - 0x20]|
    && f.ascii[b - 0x20][col] / Power2(row) % 2 == 1
  }

  lemma AsciiCharDot(c: Cell, t: seq<byte>, m: nat, col: nat, row: nat)
    requires CellOk(c) && c.font.ascii != [] && Printable(t) && (forall b :: b in t ==> b !in c.font.cp)
    requires m < |t| && col < c.font.width && row < c.rows
    ensures Chars(t) == |t|
    ensures CharDot(c, CharAt(t, m), col, row) <==> AsciiDot(c.font, t[m], col, row)
  {
    CharsOfAscii(t, m);
    CellParts(c);
    var b := t[m];
    assert b in t;
    AsciiGlyph(c.font, b);
    hide CharAt, Chars, Font.Glyph, CharDot, Font.Wellformed;
    DotIsABit(c, b, col, row);
  }

  lemma AsciiGlyph(f: Font.Font, b: byte)
    requires Font.Wellformed(f) && f.ascii != [] && 0x20 <= b <= 0x7e && b !in f.cp
    ensures b - 0x20 < |f.ascii| && |f.ascii[b - 0x20]| == 5 && Font.Glyph(f, b) == f.ascii[b - 0x20]
  {
    Font.AsciiDraws(f, b - 0x20, []);
    assert [0x20 + (b - 0x20)] + [] == [b];
  }

  /** With a font that has none of its characters, a text of ASCII shows the built-in table: in the
      bitmap, column col of byte m of line k has a dot in each row that the table has there. */
  lemma AsciiTextIsDrawn(bits: seq<bv8>, c: Cell, s: seq<byte>, w: nat, h: nat, align: Align, maxlines: nat,
                         lines: seq<Line>, xoffs: seq<nat>, k: nat, m: nat, col: nat, row: nat)
    requires CellOk(c) && AdvanceOf(c) <= w + 1
    requires c.font.ascii != [] && Printable(s) && (forall b :: b in s ==> b !in c.font.cp)
    requires lines == Lines(s, 0, Fit(w, AdvanceOf(c)), maxlines) && LinesOf(s, lines)
    requires k < |lines| == |xoffs| && LinesDrawn(bits, c, s, lines, xoffs, |lines|, w, h)
    requires xoffs[k] == TextColumn(w, TextWidth(LineText(s, lines[k]), AdvanceOf(c)), align)
    requires m < |LineText(s, lines[k])| && col < c.font.width && row < c.rows && 0 <= RowOf(c, k, row) < h
    ensures var px, py := ColumnOf(c, xoffs[k], m, col), RowOf(c, k, row);
            px < w && (Source(bits, Stride(w), py, px) <==> AsciiDot(c.font, LineText(s, lines[k])[m], col, row))
  {
    hide CellOk, Source, Stride, Lines, Fit, CharDot, Chars, LinesDrawn, CharAt, TextWidth, AsciiDot, TextColumn;
    var t := LineText(s, lines[k]);
    AsciiCharDot(c, t, m, col, row);
    WrappedTextIsDrawn(bits, c, s, w, h, align, maxlines, lines, xoffs, k, m, col, row);
  }
}
