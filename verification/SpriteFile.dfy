/** How an animation starts: from a sprite in the flash, or from pixels that the caller
    gives. */
module SpriteFile {
  import opened Bytes
  import opened Panel
  import opened Render
  import opened Sprite
  import Wrap

  const MAGIC: u32 := 0x3153_4754
  const HEADER_LEN := 10

  /** The bytes that one panel has for the source of its animation. */
  const SRC_MAIN := 512
  const SRC_SUB := 128

  const OK := 0
  const ENOENT := -2
  const EIO := -5
  const E2BIG := -7
  const EINVAL := -22

  /** The header that the sprite builder writes. */
  function Header(w: u16, h: u16, step: byte, vertical: bool): (s: seq<byte>)
    ensures |s| == HEADER_LEN
  {
    PutU32(MAGIC) + PutU16(w) + PutU16(h) + [step, if vertical then 1 else 0]
  }

  lemma HeaderFields(w: u16, h: u16, step: byte, vertical: bool)
    ensures var s := Header(w, h, step, vertical);
            && GetU32(s, 0) == MAGIC && GetU16(s, 4) == w && GetU16(s, 6) == h
            && s[8] == step && s[9] == if vertical then 1 else 0
  {
    var s, magic, width, height := Header(w, h, step, vertical), PutU32(MAGIC), PutU16(w), PutU16(h);
    assert s[0] == magic[0] && s[1] == magic[1] && s[2] == magic[2] && s[3] == magic[3];
    assert s[4] == width[0] && s[5] == width[1] && s[6] == height[0] && s[7] == height[1];
  }

  /** A file is what its two reads give: the header, then the pixels. */
  datatype Input =
    | File(named: bool, opens: bool, head: seq<byte>, pixels: seq<bv8>)
    | Given(srcw: nat, srch: nat, pixels: seq<bv8>)

  /** What the caller asks for. */
  datatype Request = Request(x: int, y: int, w: nat, h: nat, vertical: bool, period: u16, step: byte)

  predicate Readable(input: Input) {
    input.File? && input.named && input.opens && |input.head| == HEADER_LEN && GetU32(input.head, 0) == MAGIC
  }

  /** New bytes at the front of the source buffer. */
  function Over(src: seq<bv8>, pixels: seq<bv8>): (s: seq<bv8>)
    requires |pixels| <= |src|
    ensures |s| == |src|
  {
    pixels + src[|pixels|..]
  }

  function Take(pixels: seq<bv8>, n: nat): seq<bv8> {
    if |pixels| < n then pixels else pixels[..n]
  }

  /** The animation that begins now; its fields are 8 and 16 bits wide. */
  function Begun(r: Request, w: nat, h: nat, vertical: bool, step: byte, srcw: nat, srch: nat, src: seq<bv8>): Anim {
    Anim(vertical, r.x % 0x100, r.y % 0x100, w % 0x100, h % 0x100, r.period, step,
         srcw % U16_SPAN, srch % U16_SPAN, src, 0, 0)
  }

  /** The code of a call, and the animation after it. */
  function Animated(was: Anim, r: Request, input: Input): (out: (int, Anim))
    ensures |out.1.src| == |was.src|
  {
    var cap := |was.src|;
    if r.period == 0 || (input.Given? && (r.step == 0 || r.w == 0 || r.h == 0)) then (EINVAL, was)
    else if input.Given? then
      var need := Stride(input.srcw) * input.srch;
      if input.srcw == 0 || input.srch == 0 then (EINVAL, was)
      else if need > cap then (E2BIG, was)
      else
        (OK, Begun(r, r.w, r.h, r.vertical, r.step, input.srcw, input.srch, Over(was.src, Take(input.pixels, need))))
    else if input.named && !input.opens then (ENOENT, was)
    else if !Readable(input) then (EINVAL, was)
    else
      var srcw, srch, step := GetU16(input.head, 4), GetU16(input.head, 6), input.head[8];
      var want := Stride(srcw) * srch;
      if srcw == 0 || srch == 0 || step == 0 || want > cap then (E2BIG, was)
      else if |input.pixels| < want then (EIO, was.(src := Over(was.src, input.pixels)))
      else
        (OK, Begun(r, if r.w == 0 then step else r.w, if r.h == 0 then srch else r.h,
                   input.head[9] % 2 == 1, step, srcw, srch, Over(was.src, input.pixels[..want])))
  }

  /** Start an animation and draw its first step. The source buffer of a panel is taken
      over in place, so a file that ends early leaves its bytes under the old animation. */
  method Animate(anim: Animation, dev: Device, r: Request, input: Input) returns (ret: int)
    requires dev.Valid() && (|anim.a.src| == SRC_MAIN || |anim.a.src| == SRC_SUB)
    modifies anim, dev`dirty, dev`swap, dev.fb
    ensures dev.Valid() && dev.Shows(dev.front) == old(dev.Shows(dev.front))
    ensures (ret, anim.a) == Animated(old(anim.a), r, input)
    ensures ret != OK ==> dev.Shows(dev.Back()) == old(dev.Shows(dev.Back())) && dev.swap == old(dev.swap)
    ensures ret == OK ==> AnimOk(anim.a) && dev.swap
    ensures ret == OK ==>
              dev.Shows(dev.Back())
              == RectDrawn(if old(dev.dirty) then old(dev.Shows(dev.Back())) else old(dev.Shows(dev.front)),
                           dev.width, dev.height, anim.a.x, anim.a.y, anim.a.w, anim.a.h, WindowPixels(anim.a))
  {
    hide AnimOk, RectDrawn, Animated;
    ret := Prepare(anim, r, input);
    if ret == OK {
      anim.AnimDraw(dev);
    }
  }

  /** The checks, and the new source and fields. */
  method Prepare(anim: Animation, r: Request, input: Input) returns (ret: int)
    requires |anim.a.src| == SRC_MAIN || |anim.a.src| == SRC_SUB
    modifies anim
    ensures (ret, anim.a) == Animated(old(anim.a), r, input)
    ensures ret == OK ==> AnimOk(anim.a)
  {
    hide AnimOk, Over, Begun, Stride;
    var cap := |anim.a.src|;
    var w, h, vertical, step := r.w, r.h, r.vertical, r.step;
    var srcw: nat, srch: nat, src := 0, 0, anim.a.src;
    if r.period == 0 || (step == 0 && !input.File?) || ((w == 0 || h == 0) && !input.File?) {
      return EINVAL;
    }
    if input.File? {
      if !input.named {
        return EINVAL;
      }
      if !input.opens {
        return ENOENT;
      }
      if |input.head| != HEADER_LEN || GetU32(input.head, 0) != MAGIC {
        return EINVAL;
      }
      srcw, srch, step := GetU16(input.head, 4), GetU16(input.head, 6), input.head[8];
      vertical := input.head[9] % 2 == 1;
      var want := Stride(srcw) * srch;
      if srcw == 0 || srch == 0 || step == 0 || want > cap {
        return E2BIG;
      }
      if w == 0 {
        w := step;
      }
      if h == 0 {
        h := srch;
      }
      var read := Take(input.pixels, want);
      src := Over(src, read);
      anim.a := anim.a.(src := src);
      if |read| != want {
        return EIO;
      }
    } else {
      srcw, srch := input.srcw, input.srch;
      if srcw == 0 || srch == 0 {
        return EINVAL;
      }
      if Stride(srcw) * srch > cap {
        return E2BIG;
      }
      src := Over(src, Take(input.pixels, Stride(srcw) * srch));
    }
    anim.a := Begun(r, w, h, vertical, step, srcw, srch, src);
    BegunIsOk(r, w, h, vertical, step, srcw, srch, src);
    ret := OK;
  }

  /** A source that fits the buffer keeps its size in the narrow fields. */
  lemma BegunIsOk(r: Request, w: nat, h: nat, vertical: bool, step: byte, srcw: nat, srch: nat, src: seq<bv8>)
    requires r.period > 0 && srcw > 0 && srch > 0 && Stride(srcw) * srch <= |src| <= SRC_MAIN
    ensures AnimOk(Begun(r, w, h, vertical, step, srcw, srch, src))
    ensures srcw % U16_SPAN == srcw && srch % U16_SPAN == srch
  {
    hide Stride;
    StrideHolds(srcw);
    FactorsFit(Stride(srcw), srch);
  }

  lemma StrideHolds(srcw: nat)
    ensures srcw <= 8 * Stride(srcw)
  {
  }

  lemma FactorsFit(a: nat, b: nat)
    requires a > 0 && b > 0
    ensures a <= a * b && b <= a * b
  {
  }

  /** A call that fails starts nothing; a file that ends before its pixels alone can change
      the source bytes of the animation that runs. */
  lemma FailureKeepsTheAnimation(was: Anim, r: Request, input: Input)
    ensures var (ret, a) := Animated(was, r, input);
            ret != OK ==> a == was.(src := a.src) && (a.src != was.src ==> ret == EIO)
  {
  }

  lemma OverSource(src: seq<bv8>, pixels: seq<bv8>, stride: nat, row: nat, col: nat)
    requires |pixels| <= |src| && row * stride + col / 8 < |pixels|
    ensures Source(Over(src, pixels), stride, row, col) == Source(pixels, stride, row, col)
  {
    hide Bit;
  }

  /** What a call that succeeds starts: its place and period are those of the request, in fields of
      8 and 16 bits; the rest comes from the header of the file, where the request leaves it open,
      or from the request. */
  lemma StartedAsAsked(was: Anim, r: Request, input: Input)
    ensures var (ret, a) := Animated(was, r, input);
            ret == 0 ==>
              && a.x == r.x % 256 && a.y == r.y % 256 && a.period == r.period && a.period > 0
              && a.offset == 0 && a.elapsed == 0 && |a.src| == |was.src|
              && (input.Given? ==>
                    && a.w == r.w % 256 && a.h == r.h % 256 && a.vertical == r.vertical && a.step == r.step
                    && a.srcw == input.srcw % 65536 && a.srch == input.srch % 65536)
              && (input.File? ==>
                    && |input.head| == 10 && input.head[..4] == [0x54, 0x47, 0x53, 0x31]
                    && a.srcw == GetU16(input.head, 4) && a.srch == GetU16(input.head, 6)
                    && a.step == input.head[8] && (a.vertical <==> input.head[9] % 2 == 1)
                    && a.w == (if r.w == 0 then input.head[8] else r.w) % 256
                    && a.h == (if r.h == 0 then GetU16(input.head, 6) else r.h) % 256)
  {
    hide Stride, Over;
    if Readable(input) {
      MagicBytes(input.head);
    }
    if input.File? && |input.head| >= 8 {
      assert GetU16(input.head, 4) < U16_SPAN && GetU16(input.head, 6) < U16_SPAN;
    }
  }

  /** When each code of a call comes, and which comes first. */
  lemma CodesExactlyWhen(was: Anim, r: Request, input: Input)
    ensures var ret := Animated(was, r, input).0;
            var file := input.File?;
            var good := file && input.named && input.opens && |input.head| == 10
                        && input.head[..4] == [0x54, 0x47, 0x53, 0x31];
            var srcw := if !file then input.srcw else if good then GetU16(input.head, 4) else 0;
            var srch := if !file then input.srch else if good then GetU16(input.head, 6) else 0;
            var empty := srcw == 0 || srch == 0;
            var large := (srcw + 7) / 8 * srch > |was.src|;
            var asked := r.period != 0 && (file || (r.step != 0 && r.w != 0 && r.h != 0));
            && (ret == -2 <==> asked && file && input.named && !input.opens)
            && (ret == -22 <==> !asked || (file && ret != -2 && !good) || (!file && empty))
            && (ret == -7 <==> asked && (if file then good && (empty || input.head[8] == 0 || large)
                                         else !empty && large))
            && (ret == -5 <==> asked && good && ret != -7 && |input.pixels| < (srcw + 7) / 8 * srch)
            && (ret == 0 <==> ret != -2 && ret != -22 && ret != -7 && ret != -5)
  {
    hide Over, Begun;
    if input.File? && |input.head| == HEADER_LEN {
      MagicBytes(input.head);
    }
  }

  lemma MagicBytes(s: seq<byte>)
    requires |s| >= 4
    ensures GetU32(s, 0) == MAGIC <==> s[..4] == [0x54, 0x47, 0x53, 0x31]
  {
  }

  /** After n due steps the window shows frame n modulo their count. */
  predicate PlaysOn(a: Anim, frames: seq<Grid>, n: nat, row: nat, col: nat)
    requires AnimOk(a) && frames != [] && row < SIZE && col < SIZE
  {
    var b := Ticks(a, n * TicksOf(a.period));
    AnimParts(b);
    b.offset < b.srcw && WindowLit(b, row, col) == frames[n % |frames|][row][col]
  }

  /** From the frames to the panel. The file of a packed sprite is taken exactly when its
      bitmap fits the source buffer of the panel; then the window shows frame n modulo
      their count after n due steps, whatever the animation was before. */
  lemma PackedSpritePlays(frames: seq<Grid>, bits: seq<bv8>, was: Anim, r: Request,
                          n: nat, row: nat, col: nat)
    requires frames != [] && SIZE * |frames| < U16_SPAN
    requires |bits| == Stride(SIZE * |frames|) * SIZE
    requires forall y: nat, x: nat :: y < SIZE && x < SIZE * |frames| ==>
               Source(bits, Stride(SIZE * |frames|), y, x) == Packed(frames, y, x)
    requires |was.src| <= SRC_MAIN && 0 < r.period <= 65520 && r.w in {0, SIZE} && r.h in {0, SIZE}
    requires row < SIZE && col < SIZE
    ensures var (ret, a) := Animated(was, r, File(true, true, Header(SIZE * |frames|, SIZE, SIZE, false), bits));
            && ret == (if Stride(SIZE * |frames|) * SIZE <= |was.src| then OK else E2BIG)
            && (ret == OK ==>
                  && Plays(a, frames) && PlaysOn(a, frames, n, row, col)
                  && a.x == r.x % 0x100 && a.y == r.y % 0x100 && a.period == r.period)
  {
    hide Packed, Ticks, WindowLit, Over, AnimOk, TicksOf, Header, Source;
    var w := SIZE * |frames|;
    var head := Header(w, SIZE, SIZE, false);
    HeaderFields(w, SIZE, SIZE, false);
    var (ret, a) := Animated(was, r, File(true, true, head, bits));
    if Stride(w) * SIZE <= |was.src| {
      assert bits[..Stride(w) * SIZE] == bits;
      BegunIsOk(r, SIZE, SIZE, false, SIZE, w, SIZE, Over(was.src, bits));
      assert a == Begun(r, SIZE, SIZE, false, SIZE, w, SIZE, Over(was.src, bits));
      FrameCountFits(|frames|);
      forall y: nat, x: nat | y < SIZE && x < w
        ensures Source(a.src, Stride(w), y, x) == Packed(frames, y, x)
      {
        InBitmap(Stride(w), w, SIZE, y, x);
        OverSource(was.src, bits, Stride(w), y, x);
      }
      WindowShowsTheFrame(a, frames, n, row, col);
    }
  }

  /** From the frames to the columns of the chips: the rectangle that is drawn after n due steps has
      each pixel of frame n modulo their count on the panel where the request puts it. */
  lemma FrameReachesThePanel(a: Anim, frames: seq<Grid>, im: Image, width: nat, height: nat,
                             n: nat, row: nat, col: nat)
    requires Plays(a, frames) && a.offset == 0 && a.elapsed == 0 && a.period <= 65520
    requires row < SIZE && col < SIZE && a.x + col < width <= 80 && a.y + row < height <= 14
    ensures var b := Ticks(a, n * TicksOf(a.period));
            var lx := a.x + col;
            && b.srcw > 0 && b.srch > 0 && lx / 16 * 16 + 15 - lx % 16 < 80
            && RectDrawn(im, width, height, b.x, b.y, b.w, b.h, WindowPixels(b))
               [a.y + row + 2][lx / 16 * 16 + 15 - lx % 16] == frames[n % |frames|][row][col]
  {
    hide Ticks, TicksOf, WindowLit, RectDrawn, AnimOk;
    WindowShowsTheFrame(a, frames, n, row, col);
    AfterSteps(a, frames, n);
    var b, lx := Ticks(a, n * TicksOf(a.period)), a.x + col;
    AnimParts(b);
    MapTurnsChips(lx / 16, lx % 16, a.y + row);
    MapXIsInvolution(lx);
    RectShows(im, width, height, b.x, b.y, b.w, b.h, WindowPixels(b), a.y + row + 2, MapX(lx));
  }

  lemma FrameCountFits(k: nat)
    requires Stride(SIZE * k) * SIZE <= SRC_MAIN
    ensures SIZE * k + SIZE < U16_SPAN
  {
  }

  // ---------------------------------------------------------------------------
  // A scrolling text
  // ---------------------------------------------------------------------------

  const GAP_CHARS := 3

  /** The text, a gap of blank columns, and at least the window. */
  function TextSource(c: Cell, s: seq<byte>, w: nat): int {
    var width := Wrap.TextWidth(s, AdvanceOf(c)) + GAP_CHARS * AdvanceOf(c);
    if width < w then w else width
  }

  function TextCode(c: Cell, s: seq<byte>, r: Request, cap: nat): int {
    if r.period == 0 || r.step == 0 || r.w == 0 || r.h == 0 then EINVAL
    else if (TextSource(c, s, r.w) + 7) / 8 * r.h > cap then E2BIG
    else OK
  }

  /** The board draws the text into the source, then moves the window over it. */
  method AnimateText(anim: Animation, dev: Device, r: Request, c: Cell, s: seq<byte>) returns (ret: int)
    requires dev.Valid() && CellOk(c) && (|anim.a.src| == SRC_MAIN || |anim.a.src| == SRC_SUB)
    modifies anim, dev`dirty, dev`swap, dev.fb
    ensures dev.Valid() && dev.Shows(dev.front) == old(dev.Shows(dev.front))
    ensures ret == TextCode(c, s, r, |old(anim.a.src)|)
    ensures ret != OK ==> anim.a == old(anim.a) && dev.Shows(dev.Back()) == old(dev.Shows(dev.Back()))
    ensures ret == OK ==> Scrolls(anim.a, r, c, s) && |anim.a.src| == |old(anim.a.src)| && dev.swap
    ensures ret == OK ==>
              dev.Shows(dev.Back())
              == RectDrawn(if old(dev.dirty) then old(dev.Shows(dev.Back())) else old(dev.Shows(dev.front)),
                           dev.width, dev.height, anim.a.x, anim.a.y, anim.a.w, anim.a.h, WindowPixels(anim.a))
  {
    hide AnimOk, RectDrawn, TextCode, Scrolls;
    ret := PrepareText(anim, r, c, s);
    if ret == OK {
      ScrollsIsOk(anim.a, r, c, s);
      anim.AnimDraw(dev);
    }
  }

  /** When each code of a text comes; its source is as wide as the text and a gap of three
      characters, or as the window. */
  lemma TextCodesExactlyWhen(c: Cell, s: seq<byte>, r: Request, cap: nat)
    requires CellOk(c)
    ensures var adv := c.font.width + 1;
            var width := (if s == [] then 0 else Wrap.Chars(s) * adv - 1) + 3 * adv;
            var srcw, ret := if width < r.w then r.w else width, TextCode(c, s, r, cap);
            && srcw >= 0 && TextSource(c, s, r.w) == srcw
            && (ret == -22 <==> r.period == 0 || r.step == 0 || r.w == 0 || r.h == 0)
            && (ret == -7 <==> ret != -22 && (srcw + 7) / 8 * r.h > cap)
            && (ret == 0 <==> ret != -22 && ret != -7)
  {
    hide Wrap.Chars;
    WidthIsNat(s, AdvanceOf(c));
  }

  /** The source of the animation is the drawn text, on the first rows of its cell. */
  ghost predicate Scrolls(a: Anim, r: Request, c: Cell, s: seq<byte>)
    requires CellOk(c)
  {
    && AnimOk(a) && a.srcw == TextSource(c, s, r.w) && a.srch == r.h
    && a == Begun(r, r.w, r.h, r.vertical, r.step, a.srcw, a.srch, a.src)
    && TextShown(a.src, c, a.srcw, a.srch, s)
  }

  lemma ScrollsIsOk(a: Anim, r: Request, c: Cell, s: seq<byte>)
    requires CellOk(c) && Scrolls(a, r, c, s)
    ensures AnimOk(a)
  {
  }

  method PrepareText(anim: Animation, r: Request, c: Cell, s: seq<byte>) returns (ret: int)
    requires CellOk(c) && (|anim.a.src| == SRC_MAIN || |anim.a.src| == SRC_SUB)
    modifies anim
    ensures ret == TextCode(c, s, r, |old(anim.a.src)|)
    ensures ret != OK ==> anim.a == old(anim.a)
    ensures ret == OK ==> Scrolls(anim.a, r, c, s) && |anim.a.src| == |old(anim.a.src)|
  {
    hide AnimOk, CellOk, Stride, TextShown, Wrap.TextWidth;
    if r.period == 0 || r.step == 0 || r.w == 0 || r.h == 0 {
      return EINVAL;
    }
    var width := Wrap.MeasureText(s, AdvanceOf(c));
    var srcw := width + GAP_CHARS * AdvanceOf(c);
    if srcw < r.w {
      srcw := r.w;
    }
    StrideOf(srcw);
    if Stride(srcw) * r.h > |anim.a.src| {
      return E2BIG;
    }
    var src := anim.a.src;
    var buf := new bv8[|src|](i requires 0 <= i < |src| => src[i]);
    RenderText(buf, c, srcw, r.h, s);
    BegunIsOk(r, r.w, r.h, r.vertical, r.step, srcw, r.h, buf[..]);
    anim.a := Begun(r, r.w, r.h, r.vertical, r.step, srcw, r.h, buf[..]);
    ret := OK;
  }

  lemma StrideOf(w: nat)
    ensures Stride(w) == (w + 7) / 8
  {
  }

  /** After n due steps across, each pixel of the window is the pixel of the text that many
      columns further, around the end of the source; the columns of the gap are dark. */
  lemma ScrollShowsTheText(a: Anim, r: Request, c: Cell, s: seq<byte>, n: nat, row: nat, col: nat)
    requires CellOk(c) && Scrolls(a, r, c, s) && !r.vertical && r.period <= 65520
    requires row < a.srch && |a.src| <= SRC_MAIN
    ensures a.srcw > 0
    ensures var b, px := Ticks(a, n * TicksOf(a.period)), (col + n * r.step % a.srcw) % a.srcw;
            && b.srcw > 0 && b.srch > 0
            && (WindowLit(b, row, col) <==> Inked(c, s, 0, Top(c, 0, a.srch), a.srcw, px, row))
            && (px >= Wrap.TextWidth(s, AdvanceOf(c)) ==> !WindowLit(b, row, col))
  {
    hide CellOk, Ticks, TicksOf, Source, Inked, Top, Wrap.TextWidth;
    AnimParts(a);
    SourceIsNarrow(a);
    MovesOn(a, n);
    var px := (col + n * r.step % a.srcw) % a.srcw;
    assert Source(a.src, Stride(a.srcw), row, px) <==> Inked(c, s, 0, Top(c, 0, a.srch), a.srcw, px, row);
    if Inked(c, s, 0, Top(c, 0, a.srch), a.srcw, px, row) {
      InkStaysInside(c, s, 0, Top(c, 0, a.srch), a.srcw, px, row);
    }
  }

  lemma SourceIsNarrow(a: Anim)
    requires AnimOk(a) && |a.src| <= SRC_MAIN
    ensures a.srcw <= 8 * SRC_MAIN && a.srcw + a.step < U16_SPAN
  {
    hide Stride;
    StrideHolds(a.srcw);
    FactorsFit(if Stride(a.srcw) > 0 then Stride(a.srcw) else 1, a.srch);
  }
}
