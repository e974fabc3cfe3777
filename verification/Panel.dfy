/** The two matrix panels: double-buffered images, the map from logical pixels to the
    columns of the chips, and the pass that fills both shift registers. */
module Panel {

  const ROWS := 16
  const ROW_BYTES := 10
  const COLUMNS := 80
  const CHIP_COLS := 16
  const Y_OFFSET := 2
  const SELECT_BITS := 16

  // ---------------------------------------------------------------------------
  // Bits of a byte
  // ---------------------------------------------------------------------------

  function Mask(k: nat): bv8
    requires k < 8
  {
    if k == 0 then 0x01 else if k == 1 then 0x02 else if k == 2 then 0x04 else if k == 3 then 0x08
    else if k == 4 then 0x10 else if k == 5 then 0x20 else if k == 6 then 0x40 else 0x80
  }

  predicate Bit(b: bv8, k: nat)
    requires k < 8
  {
    b & Mask(k) != 0
  }

  function WithBit(b: bv8, k: nat, on: bool): bv8
    requires k < 8
  {
    if on then b | Mask(k) else b & !Mask(k)
  }

  lemma WithBitSets(b: bv8, k: nat, on: bool, j: nat)
    requires k < 8 && j < 8
    ensures Bit(WithBit(b, k, on), j) == if j == k then on else Bit(b, j)
  {
  }

  // ---------------------------------------------------------------------------
  // The place of a logical pixel
  // ---------------------------------------------------------------------------

  function MapX(x: nat): nat {
    x / CHIP_COLS * CHIP_COLS + (CHIP_COLS - 1 - x % CHIP_COLS)
  }

  function MapY(y: nat): nat {
    y + Y_OFFSET
  }

  /** The map of the columns is its own inverse and stays inside the panel. */
  lemma MapXIsInvolution(x: nat)
    ensures MapX(MapX(x)) == x
    ensures x < COLUMNS <==> MapX(x) < COLUMNS
  {
  }

  /** Inside each chip of 16 columns, column r changes places with column 15 - r; rows start below
      the two that no chip shows. */
  lemma MapTurnsChips(q: nat, r: nat, y: nat)
    requires r < 16
    ensures MapX(16 * q + r) == 16 * q + 15 - r && MapY(y) == y + 2
  {
    assert (16 * q + r) / 16 == q && (16 * q + r) % 16 == r;
  }

  /** Bit k of a byte counts from the low end. */
  lemma BitIsShifted(b: bv8, k: bv8)
    requires k < 8
    ensures Bit(b, k as nat) <==> (b >> k) & 1 == 1
  {
  }

  /** An image as the scan sees it: rows of columns of a chip. */
  type Image = im: seq<seq<bool>> | |im| == ROWS && forall y :: 0 <= y < ROWS ==> |im[y]| == COLUMNS
    witness seq(ROWS, _ => seq(COLUMNS, _ => false))

  lemma SameImage(a: Image, b: Image)
    requires forall y, x :: 0 <= y < ROWS && 0 <= x < COLUMNS ==> a[y][x] == b[y][x]
    ensures a == b
  {
    forall y | 0 <= y < ROWS
      ensures a[y] == b[y]
    {
    }
  }

  predicate OnPanel(width: nat, height: nat, x: int, y: int) {
    0 <= x < width && 0 <= y < height && MapY(y) < ROWS && MapX(x) / 8 < ROW_BYTES
  }

  function PixelDrawn(im: Image, width: nat, height: nat, x: int, y: int, on: bool): Image {
    if OnPanel(width, height, x, y) then im[MapY(y) := im[MapY(y)][MapX(x) := on]] else im
  }

  /** A pixel of a bitmap: rows of whole bytes, bit 7 at the left. */
  predicate Source(bits: seq<bv8>, stride: nat, row: nat, col: nat) {
    row * stride + col / 8 < |bits| && Bit(bits[row * stride + col / 8], 7 - col % 8)
  }

  function Stride(w: nat): nat {
    (w + 7) / 8
  }

  /** The first n pixels of a row of a rectangle. */
  function ColsDrawn(im: Image, width: nat, height: nat, x: int, y: int, row: nat,
                     pix: (nat, nat) -> bool, n: nat): Image
    decreases n
  {
    if n == 0 then im
    else
      PixelDrawn(ColsDrawn(im, width, height, x, y, row, pix, n - 1), width, height, x + n - 1, y + row,
                 pix(row, n - 1))
  }

  /** A rectangle of w by h pixels whose top left corner is at (x, y). */
  function RectDrawn(im: Image, width: nat, height: nat, x: int, y: int, w: nat, h: nat,
                     pix: (nat, nat) -> bool): Image
    decreases h
  {
    if h == 0 then im
    else
      ColsDrawn(RectDrawn(im, width, height, x, y, w, h - 1, pix), width, height, x, y, h - 1, pix, w)
  }

  function BitmapPixels(bits: seq<bv8>, w: nat): (nat, nat) -> bool {
    (row: nat, col: nat) => Source(bits, Stride(w), row, col)
  }

  class Device {
    const width: nat
    const height: nat
    var front: nat
    var dirty: bool
    var swap: bool
    const fb: array3<bv8>

    ghost predicate Valid()
      reads this
    {
      front < 2 && fb.Length0 == 2 && fb.Length1 == ROWS && fb.Length2 == ROW_BYTES
    }

    function Back(): nat
      requires Valid()
      reads this
    {
      1 - front
    }

    predicate Lit(img: nat, y: nat, x: nat)
      requires Valid() && img < 2 && y < ROWS && x < COLUMNS
      reads this, fb
    {
      Bit(fb[img, y, x / 8], x % 8)
    }

    ghost function Shows(img: nat): (im: Image)
      requires Valid() && img < 2
      reads this, fb
      ensures forall y, x :: 0 <= y < ROWS && 0 <= x < COLUMNS ==> im[y][x] == Lit(img, y, x)
    {
      seq(ROWS, y requires 0 <= y < ROWS && Valid() reads this, fb =>
        seq(COLUMNS, x requires 0 <= x < COLUMNS && Valid() reads this, fb => Lit(img, y, x)))
    }

    constructor (width: nat, height: nat)
      ensures Valid() && fresh(fb)
      ensures this.width == width && this.height == height
      ensures !dirty && !swap && Shows(Back()) == Shows(front)
      ensures forall y, x :: 0 <= y < ROWS && 0 <= x < COLUMNS ==> !Lit(front, y, x)
    {
      this.width, this.height := width, height;
      front, dirty, swap := 0, false, false;
      fb := new bv8[2, ROWS, ROW_BYTES]((i, y, b) => 0);
      new;
      SameImage(Shows(0), Shows(1));
    }

    /** Start a change: the first one after a swap copies what the scan shows. */
    method Begin()
      requires Valid()
      modifies this`dirty, fb
      ensures Valid() && dirty
      ensures Shows(front) == old(Shows(front))
      ensures Shows(Back()) == if old(dirty) then old(Shows(Back())) else old(Shows(front))
    {
      if !dirty {
        var back := 1 - front;
        ghost var was := Shows(front);
        forall y, b | 0 <= y < ROWS && 0 <= b < ROW_BYTES {
          fb[back, y, b] := fb[front, y, b];
        }
        dirty := true;
        SameImage(Shows(front), was);
        SameImage(Shows(back), was);
      }
    }

    /** Give the changed image to the scan. */
    method Commit()
      requires Valid()
      modifies this`swap
      ensures Valid() && swap
    {
      swap := true;
    }

    /** The scan takes the changed image, if a writer gave one. */
    method SwapNow()
      requires Valid()
      modifies this`front, this`dirty, this`swap
      ensures Valid() && !swap
      ensures front == if old(swap) then 1 - old(front) else old(front)
      ensures dirty == (old(dirty) && !old(swap))
      ensures Shows(front) == if old(swap) then old(Shows(Back())) else old(Shows(front))
    {
      ghost var back := Shows(Back());
      if swap {
        front := 1 - front;
        swap := false;
        dirty := false;
        SameImage(Shows(front), back);
      }
    }

    method DrawPixel(x: int, y: int, on: bool)
      requires Valid()
      modifies fb
      ensures Valid()
      ensures Shows(Back()) == PixelDrawn(old(Shows(Back())), width, height, x, y, on)
      ensures Shows(front) == old(Shows(front))
    {
      if x < 0 || x >= width || y < 0 || y >= height {
        return;
      }
      var px, py := MapX(x), MapY(y);
      if py >= ROWS || px / 8 >= ROW_BYTES {
        return;
      }
      ghost var back, was, shown := Back(), Shows(Back()), Shows(front);
      SetBit(Back(), py, px, on);
      SameImage(Shows(back), PixelDrawn(was, width, height, x, y, on));
      SameImage(Shows(front), shown);
    }

    /** Put a rectangle of pixels on the panel: it waits for the next swap. */
    method DisplayPixels(x: int, y: int, w: nat, h: nat, bits: seq<bv8>)
      requires Valid() && Stride(w) * h <= |bits|
      modifies this`dirty, this`swap, fb
      ensures Valid() && swap && dirty
      ensures Shows(front) == old(Shows(front))
      ensures Shows(Back())
           == RectDrawn(if old(dirty) then old(Shows(Back())) else old(Shows(front)), width, height, x, y, w, h,
                      BitmapPixels(bits, w))
    {
      Begin();
      DrawBitmap(x, y, w, h, bits);
      ghost var back, shown := Shows(Back()), Shows(front);
      Commit();
      SameImage(Shows(Back()), back);
      SameImage(Shows(front), shown);
    }

    method SetBit(img: nat, py: nat, px: nat, on: bool)
      requires Valid() && img < 2 && py < ROWS && px < COLUMNS
      modifies fb
      ensures forall i, y, x :: 0 <= i < 2 && 0 <= y < ROWS && 0 <= x < COLUMNS ==>
                Lit(i, y, x) == if i == img && y == py && x == px then on else old(Lit(i, y, x))
    {
      ghost var was := fb[img, py, px / 8];
      fb[img, py, px / 8] := WithBit(fb[img, py, px / 8], px % 8, on);
      forall i, y, x | 0 <= i < 2 && 0 <= y < ROWS && 0 <= x < COLUMNS
        ensures Lit(i, y, x) == if i == img && y == py && x == px then on else old(Lit(i, y, x))
      {
        WithBitSets(was, px % 8, on, x % 8);
      }
    }

    /** One row of a bitmap. */
    method DrawRow(x: int, y: int, w: nat, h: nat, row: nat, bits: seq<bv8>)
      requires Valid() && Stride(w) * h <= |bits| && row < h
      modifies fb
      ensures Valid()
      ensures Shows(Back()) == ColsDrawn(old(Shows(Back())), width, height, x, y, row, BitmapPixels(bits, w), w)
      ensures Shows(front) == old(Shows(front))
    {
      hide PixelDrawn, Source;
      ghost var im, pix := Shows(Back()), BitmapPixels(bits, w);
      var stride := (w + 7) / 8;
      var col := 0;
      while col < w
        invariant 0 <= col <= w && Valid()
        invariant Shows(Back()) == ColsDrawn(im, width, height, x, y, row, pix, col)
        invariant Shows(front) == old(Shows(front))
      {
        InBitmap(stride, w, h, row, col);
        var on := Bit(bits[row * stride + col / 8], 7 - col % 8);
        SourceIs(bits, stride, row, col);
        DrawPixel(x + col, y + row, on);
        col := col + 1;
      }
    }

    method DrawBitmap(x: int, y: int, w: nat, h: nat, bits: seq<bv8>)
      requires Valid() && Stride(w) * h <= |bits|
      modifies fb
      ensures Valid()
      ensures Shows(Back()) == RectDrawn(old(Shows(Back())), width, height, x, y, w, h, BitmapPixels(bits, w))
      ensures Shows(front) == old(Shows(front))
    {
      hide ColsDrawn;
      ghost var was, pix := Shows(Back()), BitmapPixels(bits, w);
      var row := 0;
      while row < h
        invariant 0 <= row <= h && Valid()
        invariant Shows(Back()) == RectDrawn(was, width, height, x, y, w, row, pix)
        invariant Shows(front) == old(Shows(front))
      {
        DrawRow(x, y, w, h, row, bits);
        row := row + 1;
      }
    }
  }

  lemma InBitmap(stride: nat, w: nat, h: nat, row: nat, col: nat)
    requires stride == Stride(w) && row < h && col < w
    ensures row * stride + col / 8 < stride * h
  {
    assert col / 8 < stride;
    assert row * stride + stride == (row + 1) * stride;
    assert (row + 1) * stride <= h * stride;
  }

  lemma SourceIs(bits: seq<bv8>, stride: nat, row: nat, col: nat)
    requires row * stride + col / 8 < |bits|
    ensures Source(bits, stride, row, col) == Bit(bits[row * stride + col / 8], 7 - col % 8)
  {
  }

  /** Pixel `col` of a row counts from the high end of its byte. */
  lemma SourceIsABit(bits: seq<bv8>, stride: nat, row: nat, col: nat)
    requires row * stride + col / 8 < |bits|
    ensures Source(bits, stride, row, col) <==> (bits[row * stride + col / 8] >> (7 - col % 8) as bv8) & 1 == 1
  {
    hide Bit;
    SourceIs(bits, stride, row, col);
    ShiftIs(7 - col % 8);
    BitIsShifted(bits[row * stride + col / 8], (7 - col % 8) as bv8);
  }

  lemma ShiftIs(k: nat)
    requires k < 8
    ensures (k as bv8) as nat == k
  {
  }

  // ---------------------------------------------------------------------------
  // What a drawn bitmap shows
  // ---------------------------------------------------------------------------

  /** The logical pixel of a column of a chip, of a row of the scan. */
  predicate Covers(width: nat, height: nat, x: int, y: int, w: nat, h: nat, r: nat, c: nat) {
    var lx, ly := MapX(c), r - Y_OFFSET;
    0 <= lx < width && 0 <= ly < height && x <= lx < x + w && y <= ly < y + h
  }

  lemma PixelShows(im: Image, width: nat, height: nat, x: int, y: int, on: bool, r: nat, c: nat)
    requires r < ROWS && c < COLUMNS
    ensures PixelDrawn(im, width, height, x, y, on)[r][c]
         == if r == y + Y_OFFSET && MapX(c) == x && x < width && 0 <= y < height then on else im[r][c]
  {
    MapXIsInvolution(c);
    if OnPanel(width, height, x, y) {
      MapXIsInvolution(x);
    }
    ByteOfColumn(MapX(MapX(c)));
  }

  lemma ByteOfColumn(c: nat)
    ensures c < COLUMNS <==> c / 8 < ROW_BYTES
  {
  }

  lemma {:induction false} ColsShow(im: Image, width: nat, height: nat, x: int, y: int, row: nat,
                                    pix: (nat, nat) -> bool, n: nat, r: nat, c: nat)
    requires r < ROWS && c < COLUMNS
    ensures var lx := MapX(c);
            ColsDrawn(im, width, height, x, y, row, pix, n)[r][c]
            == if lx < width && 0 <= y + row < height && r == y + row + Y_OFFSET && x <= lx < x + n
               then pix(row, lx - x) else im[r][c]
    decreases n
  {
    hide PixelDrawn, MapX;
    if n > 0 {
      ColsShow(im, width, height, x, y, row, pix, n - 1, r, c);
      PixelShows(ColsDrawn(im, width, height, x, y, row, pix, n - 1), width, height,
                 x + n - 1, y + row, pix(row, n - 1), r, c);
    }
  }

  /** Every pixel of a rectangle that falls on the panel is where it belongs; the others
      are lost, and all other pixels of the panel stay as they were. */
  lemma {:induction false} RectShows(im: Image, width: nat, height: nat, x: int, y: int, w: nat, h: nat,
                                     pix: (nat, nat) -> bool, r: nat, c: nat)
    requires r < ROWS && c < COLUMNS
    ensures RectDrawn(im, width, height, x, y, w, h, pix)[r][c]
         == if Covers(width, height, x, y, w, h, r, c)
            then pix(r - Y_OFFSET - y, MapX(c) - x) else im[r][c]
    decreases h
  {
    hide PixelDrawn, MapX, ColsDrawn;
    if h > 0 {
      RectShows(im, width, height, x, y, w, h - 1, pix, r, c);
      ColsShow(RectDrawn(im, width, height, x, y, w, h - 1, pix), width, height, x, y, h - 1, pix, w, r, c);
    }
  }

  // ---------------------------------------------------------------------------
  // The shift registers
  // ---------------------------------------------------------------------------

  /** The columns that the chips of a panel take. */
  function ColBits(width: nat): nat {
    if width > 32 then 80 else 32
  }

  /** The word that a register must hold for a row: the row select below, one-hot, and
      the columns above it. */
  function RowWord(im: Image, width: nat, row: nat): seq<bool>
    requires row < ROWS
  {
    seq(ColBits(width) + SELECT_BITS, k requires 0 <= k < ColBits(width) + SELECT_BITS =>
      if k < SELECT_BITS then k == row else im[row][k - SELECT_BITS])
  }

  /** A bit enters at index 0 and the last one leaves. */
  function Clock(reg: seq<bool>, bit: bool): (r: seq<bool>)
    requires reg != []
    ensures |r| == |reg| && r[0] == bit
    ensures forall k :: 0 < k < |r| ==> r[k] == reg[k - 1]
  {
    [bit] + reg[..|reg| - 1]
  }

  /** The register after `bits`, the first of them first. */
  function Clocked(reg: seq<bool>, bits: seq<bool>): (r: seq<bool>)
    requires reg != []
    ensures |r| == |reg|
    decreases bits
  {
    if bits == [] then reg else Clock(Clocked(reg, bits[..|bits| - 1]), bits[|bits| - 1])
  }

  /** The bits of a row in the order of the wire: the highest column first. */
  function WireBits(im: Image, width: nat, row: nat): seq<bool>
    requires row < ROWS
  {
    var total := ColBits(width) + SELECT_BITS;
    seq(total, i requires 0 <= i < total => RowWord(im, width, row)[total - 1 - i])
  }

  lemma {:induction false} ClockedAt(reg: seq<bool>, bits: seq<bool>, k: nat)
    requires k < |reg|
    ensures Clocked(reg, bits)[k] == if k < |bits| then bits[|bits| - 1 - k] else reg[k - |bits|]
    decreases bits
  {
    hide Clock;
    if bits != [] {
      var before := Clocked(reg, bits[..|bits| - 1]);
      assert Clocked(reg, bits) == Clock(before, bits[|bits| - 1]);
      if k > 0 {
        ClockedAt(reg, bits[..|bits| - 1], k - 1);
        assert Clocked(reg, bits)[k] == before[k - 1];
      }
    }
  }

  /** Whatever a register held, as many bits as it has places replace all of it, and
      bits sent before them leave it again. */
  lemma LastBitsStay(reg: seq<bool>, before: seq<bool>, im: Image, width: nat, row: nat)
    requires row < ROWS && |reg| == ColBits(width) + SELECT_BITS
    ensures Clocked(reg, before + WireBits(im, width, row)) == RowWord(im, width, row)
  {
    hide Clocked, RowWord, WireBits;
    var wire, word := WireBits(im, width, row), RowWord(im, width, row);
    var bits := before + wire;
    WireMirrors(im, width, row);
    forall k | 0 <= k < |reg|
      ensures Clocked(reg, bits)[k] == word[k]
    {
      ClockedAt(reg, bits, k);
      assert bits[|bits| - 1 - k] == wire[|wire| - 1 - k];
    }
  }

  lemma WireMirrors(im: Image, width: nat, row: nat)
    requires row < ROWS
    ensures var wire, word := WireBits(im, width, row), RowWord(im, width, row);
            && |wire| == |word| == ColBits(width) + SELECT_BITS
            && forall k :: 0 <= k < |wire| ==> wire[|wire| - 1 - k] == word[k]
  {
  }

  /** The bits of a part of a pass. */
  lemma ClockedMore(reg: seq<bool>, bits: seq<bool>, i: nat)
    requires reg != [] && i < |bits|
    ensures Clocked(reg, bits[..i + 1]) == Clock(Clocked(reg, bits[..i]), bits[i])
  {
    assert bits[..i + 1][..i] == bits[..i];
  }

  /** One bit of a pass of `cols` columns and the row select. For a panel with fewer
      columns, the bits at the end of the pass are its own. */
  method PassBit(dev: Device, row: nat, cols: nat, i: nat) returns (on: bool)
    requires dev.Valid() && row < ROWS && cols <= COLUMNS
    requires cols - ColBits(dev.width) <= i < cols + SELECT_BITS && ColBits(dev.width) <= cols
    ensures var bits := WireBits(dev.Shows(dev.front), dev.width, row);
            var k := i - (cols - ColBits(dev.width));
            0 <= k < |bits| && on == bits[k]
  {
    hide WireBits;
    WireLength(dev.Shows(dev.front), dev.width, row);
    WireAt(dev.Shows(dev.front), dev.width, row, i - (cols - ColBits(dev.width)));
    if i < cols {
      on := dev.Lit(dev.front, row, cols - 1 - i);
    } else {
      on := cols + SELECT_BITS - 1 - i == row;
    }
  }

  /** Fill both registers in one pass. The bits of the shorter one go at the end. */
  method ShiftCombined(main: Device, sub: Device, row: nat, mainReg: seq<bool>, subReg: seq<bool>)
    returns (mainOut: seq<bool>, subOut: seq<bool>)
    requires main.Valid() && sub.Valid() && row < ROWS
    requires ColBits(sub.width) <= ColBits(main.width)
    requires |mainReg| == ColBits(main.width) + SELECT_BITS && |subReg| == ColBits(sub.width) + SELECT_BITS
    ensures mainOut == RowWord(main.Shows(main.front), main.width, row)
    ensures subOut == RowWord(sub.Shows(sub.front), sub.width, row)
  {
    hide RowWord, WireBits, Clocked, Clock, Blank, ColBits;
    ColsFit(main.width);
    ColsFit(sub.width);
    var mcols, scols := ColBits(main.width), ColBits(sub.width);
    var total := mcols + SELECT_BITS;
    var subfirst := total - (scols + SELECT_BITS);
    ghost var mim, sim := main.Shows(main.front), sub.Shows(sub.front);
    ghost var mbits, sbits := WireBits(mim, main.width, row), Blank(subfirst) + WireBits(sim, sub.width, row);
    WireLength(mim, main.width, row);
    WireLength(sim, sub.width, row);
    NoBits(mainReg, mbits);
    NoBits(subReg, sbits);
    mainOut, subOut := mainReg, subReg;
    var i := 0;
    while i < total
      invariant 0 <= i <= total
      invariant mainOut == Clocked(mainReg, mbits[..i])
      invariant subOut == Clocked(subReg, sbits[..i])
    {
      var mval := PassBit(main, row, mcols, i);
      var sval := false;
      if i >= subfirst {
        sval := PassBit(sub, row, mcols, i);
      }
      AfterBlank(subfirst, WireBits(sim, sub.width, row), i);
      ClockedMore(mainReg, mbits, i);
      ClockedMore(subReg, sbits, i);
      mainOut, subOut := Clock(mainOut, mval), Clock(subOut, sval);
      i := i + 1;
    }
    WholePass(mainReg, mbits, i);
    WholePass(subReg, sbits, i);
    RowFills(mainReg, mim, main.width, row);
    LastBitsStay(subReg, Blank(subfirst), sim, sub.width, row);
  }

  lemma ColsFit(width: nat)
    ensures 0 < ColBits(width) <= COLUMNS
  {
  }

  /** The bits that the shorter register sees before its own. */
  function Blank(n: nat): (s: seq<bool>)
    ensures |s| == n
  {
    seq(n, _ => false)
  }

  lemma AfterBlank(n: nat, wire: seq<bool>, i: nat)
    requires i < n + |wire|
    ensures (Blank(n) + wire)[i] == if i < n then false else wire[i - n]
  {
  }

  lemma WholePass(reg: seq<bool>, bits: seq<bool>, n: nat)
    requires reg != [] && n == |bits|
    ensures Clocked(reg, bits[..n]) == Clocked(reg, bits)
  {
    assert bits[..n] == bits;
  }

  lemma RowFills(reg: seq<bool>, im: Image, width: nat, row: nat)
    requires row < ROWS && |reg| == ColBits(width) + SELECT_BITS
    ensures Clocked(reg, WireBits(im, width, row)) == RowWord(im, width, row)
  {
    hide Clocked, WireBits, RowWord;
    LastBitsStay(reg, [], im, width, row);
    assert [] + WireBits(im, width, row) == WireBits(im, width, row);
  }

  lemma WireLength(im: Image, width: nat, row: nat)
    requires row < ROWS
    ensures |WireBits(im, width, row)| == ColBits(width) + SELECT_BITS
  {
  }

  lemma WireAt(im: Image, width: nat, row: nat, i: nat)
    requires row < ROWS && i < ColBits(width) + SELECT_BITS
    ensures |WireBits(im, width, row)| == ColBits(width) + SELECT_BITS
    ensures WireBits(im, width, row)[i]
         == if i < ColBits(width) then im[row][ColBits(width) - 1 - i]
            else ColBits(width) + SELECT_BITS - 1 - i == row
  {
    var word, k := RowWord(im, width, row), ColBits(width) + SELECT_BITS - 1 - i;
    assert WireBits(im, width, row)[i] == word[k];
    assert k >= SELECT_BITS ==> word[k] == im[row][k - SELECT_BITS];
  }

  lemma NoBits(reg: seq<bool>, bits: seq<bool>)
    requires reg != []
    ensures Clocked(reg, bits[..0]) == reg
  {
  }

  /** Send a part of a row to the register of one panel. */
  method ShiftBits(dev: Device, row: nat, from: nat, count: nat, reg: seq<bool>) returns (out: seq<bool>)
    requires dev.Valid() && row < ROWS && from <= ColBits(dev.width) + SELECT_BITS && reg != []
    ensures var bits := WireBits(dev.Shows(dev.front), dev.width, row);
            var to := if from + count > |bits| then |bits| else from + count;
            out == Clocked(reg, bits[from..to])
  {
    hide RowWord, WireBits, Clocked, Clock;
    var colbits := ColBits(dev.width);
    var total := colbits + SELECT_BITS;
    var n := if from + count > total then total - from else count;
    ghost var im := dev.Shows(dev.front);
    ghost var bits := WireBits(im, dev.width, row);
    WireLength(im, dev.width, row);
    ghost var part := bits[from..from + n];
    NoBits(reg, part);
    out := reg;
    var i := from;
    while i < from + n
      invariant from <= i <= from + n
      invariant out == Clocked(reg, part[..i - from])
    {
      var on := PassBit(dev, row, colbits, i);
      ClockedMore(reg, part, i - from);
      out := Clock(out, on);
      i := i + 1;
    }
    assert part[..i - from] == part;
  }

  lemma {:induction false} ClockedConcat(reg: seq<bool>, a: seq<bool>, b: seq<bool>)
    requires reg != []
    ensures Clocked(reg, a + b) == Clocked(Clocked(reg, a), b)
    decreases b
  {
    if b == [] {
      assert a + b == a;
    } else {
      assert (a + b)[..|a + b| - 1] == a + b[..|b| - 1];
      ClockedConcat(reg, a, b[..|b| - 1]);
    }
  }

  /** A row sent to one panel in two parts, cut anywhere, fills its register exactly as
      the one pass over both panels does. */
  lemma PartsMakeTheRow(im: Image, width: nat, row: nat, cut: nat, reg: seq<bool>)
    requires row < ROWS && cut <= ColBits(width) + SELECT_BITS && |reg| == ColBits(width) + SELECT_BITS
    ensures var bits := WireBits(im, width, row);
            |bits| == ColBits(width) + SELECT_BITS
            && Clocked(Clocked(reg, bits[..cut]), bits[cut..]) == RowWord(im, width, row)
  {
    hide RowWord, WireBits, Clocked, Clock;
    WireLength(im, width, row);
    var bits := WireBits(im, width, row);
    ClockedConcat(reg, bits[..cut], bits[cut..]);
    assert bits[..cut] + bits[cut..] == [] + bits;
    LastBitsStay(reg, [], im, width, row);
  }

  /** The word of a row: 16 bits that select it, then 80 columns, or 32 for a narrow panel. */
  lemma RegisterLayout(im: Image, width: nat, row: nat)
    requires row < 16
    ensures var word := RowWord(im, width, row);
            && |word| == (if width > 32 then 96 else 48)
            && (forall k :: 0 <= k < 16 ==> (word[k] <==> k == row))
            && (forall k :: 16 <= k < |word| ==> word[k] == im[row][k - 16])
  {
  }

  predicate HasAt(word: seq<bool>, at: int, on: bool) {
    0 <= at < |word| && word[at] == on
  }

  /** Bit k of a byte, counted from its high end. */
  predicate HighBit(bits: seq<bv8>, at: nat, k: nat) {
    at < |bits| && k < 8 && (bits[at] >> (7 - k) as bv8) & 1 == 1
  }

  /** From a bitmap to the wires: once its image is shown, the register of the panel holds each
      pixel of the bitmap at the column of its chip, and selects its row and no other. */
  lemma BitmapReachesTheRegister(im: Image, width: nat, height: nat, x: int, y: int, w: nat, h: nat,
                                 bits: seq<bv8>, col: nat, line: nat)
    requires col < w && line < h && 0 <= x + col < width && 0 <= y + line < height
    requires width <= (if width > 32 then 80 else 32) && height + 2 <= 16
    requires ((w + 7) / 8) * h <= |bits|
    ensures var row, lx := y + line + 2, x + col;
            var word := RowWord(RectDrawn(im, width, height, x, y, w, h, BitmapPixels(bits, w)), width, row);
            && HasAt(word, 16 + lx / 16 * 16 + (15 - lx % 16), HighBit(bits, line * ((w + 7) / 8) + col / 8, col % 8))
            && |word| >= 16 && (forall k :: 0 <= k < 16 ==> (word[k] <==> k == row))
  {
    hide RectDrawn, Source, RowWord;
    var row, lx := y + line + 2, x + col;
    var drawn := RectDrawn(im, width, height, x, y, w, h, BitmapPixels(bits, w));
    MapTurnsChips(lx / 16, lx % 16, y + line);
    MapXIsInvolution(lx);
    InBitmap((w + 7) / 8, w, h, line, col);
    SourceIsABit(bits, (w + 7) / 8, line, col);
    RegisterLayout(drawn, width, row);
    RectShows(im, width, height, x, y, w, h, BitmapPixels(bits, w), row, MapX(lx));
  }
}
