/** Sprites: frames packed side by side, and the window that shows them in turn. */
module Sprite {
  import opened Arith
  import opened Bitmap
  import opened Panel

  const SIZE := 13
  const TICK_MS := 20
  const U16_SPAN := 0x1_0000

  /** One frame, row by row. */
  type Grid = g: seq<seq<bool>> | |g| == SIZE && forall y :: 0 <= y < SIZE ==> |g[y]| == SIZE
    witness seq(SIZE, _ => seq(SIZE, _ => false))

  // ---------------------------------------------------------------------------
  // Packing
  // ---------------------------------------------------------------------------

  /** The pixel of the packed frames at (x, y); the padding of a row is dark. */
  predicate Packed(frames: seq<Grid>, y: nat, x: nat) {
    y < SIZE && x / SIZE < |frames| && frames[x / SIZE][y][x % SIZE]
  }

  /** Set the pixels of one row of one frame. */
  method PackRow(bits: array<bv8>, stride: nat, frames: seq<Grid>, index: nat, py: nat)
    requires index < |frames| && py < SIZE && stride == Stride(SIZE * |frames|) && bits.Length == stride * SIZE
    requires forall y, x :: 0 <= y < SIZE && 0 <= x < 8 * stride ==>
               Source(bits[..], stride, y, x) == (Before(index, py, y, x) && Packed(frames, y, x))
    modifies bits
    ensures forall y, x :: 0 <= y < SIZE && 0 <= x < 8 * stride ==>
              Source(bits[..], stride, y, x) == (Before(index, py + 1, y, x) && Packed(frames, y, x))
  {
    var px := 0;
    while px < SIZE
      invariant 0 <= px <= SIZE
      invariant forall y, x :: 0 <= y < SIZE && 0 <= x < 8 * stride ==>
                  Source(bits[..], stride, y, x) ==
                  ((Before(index, py, y, x) || (y == py && x / SIZE == index && x % SIZE < px)) && Packed(frames, y, x))
    {
      if frames[index][py][px] {
        SetPixel(bits, stride, SIZE, py, index * SIZE + px);
      }
      px := px + 1;
    }
  }

  /** The pixels of the frames and rows that are done. */
  predicate Before(index: nat, py: nat, y: nat, x: nat) {
    x / SIZE < index || (x / SIZE == index && y < py)
  }

  /** Put the frames side by side. */
  method Pack(frames: seq<Grid>) returns (bits: array<bv8>)
    ensures bits.Length == Stride(SIZE * |frames|) * SIZE
    ensures forall y, x :: 0 <= y < SIZE && 0 <= x < 8 * Stride(SIZE * |frames|) ==>
              Source(bits[..], Stride(SIZE * |frames|), y, x) == Packed(frames, y, x)
  {
    var w := SIZE * |frames|;
    var stride := Stride(w);
    bits := new bv8[stride * SIZE](_ => 0);
    Dark(bits[..], stride, SIZE);
    var index := 0;
    while index < |frames|
      invariant 0 <= index <= |frames|
      invariant forall y, x :: 0 <= y < SIZE && 0 <= x < 8 * stride ==>
                  Source(bits[..], stride, y, x) == (Before(index, 0, y, x) && Packed(frames, y, x))
    {
      var py := 0;
      while py < SIZE
        invariant 0 <= py <= SIZE
        invariant forall y, x :: 0 <= y < SIZE && 0 <= x < 8 * stride ==>
                    Source(bits[..], stride, y, x) == (Before(index, py, y, x) && Packed(frames, y, x))
      {
        PackRow(bits, stride, frames, index, py);
        py := py + 1;
      }
      index := index + 1;
    }
  }

  // ---------------------------------------------------------------------------
  // The moving window
  // ---------------------------------------------------------------------------

  datatype Anim = Anim(vertical: bool, x: nat, y: nat, w: nat, h: nat, period: nat, step: nat,
                       srcw: nat, srch: nat, src: seq<bv8>, offset: nat, elapsed: nat)

  predicate AnimOk(a: Anim) {
    && 0 < a.srcw < U16_SPAN && 0 < a.srch < U16_SPAN && 0 < a.period < U16_SPAN
    && a.step < 0x100 && a.offset < U16_SPAN && a.elapsed < U16_SPAN
    && Stride(a.srcw) * a.srch <= |a.src|
  }

  /** What the window shows: it wraps at the end of the source. */
  predicate WindowLit(a: Anim, row: nat, col: nat)
    requires a.srcw > 0 && a.srch > 0
  {
    var sy, sx := WindowY(a, row), WindowX(a, col);
    sx < a.srcw && sy < a.srch && Source(a.src, Stride(a.srcw), sy, sx)
  }

  function WindowY(a: Anim, row: nat): nat
    requires a.srch > 0
  {
    if a.vertical then (row + a.offset) % a.srch else row
  }

  function WindowX(a: Anim, col: nat): nat
    requires a.srcw > 0
  {
    if a.vertical then col else (col + a.offset) % a.srcw
  }

  function WindowPixels(a: Anim): (nat, nat) -> bool
    requires a.srcw > 0 && a.srch > 0
  {
    (row: nat, col: nat) => WindowLit(a, row, col)
  }

  /** One tick: nothing yet, or a step that is due. */
  function Ticked(a: Anim): (Anim, bool)
    requires AnimOk(a)
  {
    var elapsed := (a.elapsed + TICK_MS) % U16_SPAN;
    if elapsed < a.period then (a.(elapsed := elapsed), false)
    else
      var offset := (a.offset + a.step) % U16_SPAN;
      (a.(elapsed := 0, offset := if a.vertical then offset % a.srch else offset % a.srcw), true)
  }

  lemma AnimParts(a: Anim)
    requires AnimOk(a)
    ensures a.srcw > 0 && a.srch > 0
  {
  }

  lemma InSource(a: Anim, sy: nat, sx: nat)
    requires AnimOk(a) && sx < a.srcw && sy < a.srch
    ensures sy * Stride(a.srcw) + sx / 8 < |a.src|
    ensures Source(a.src, Stride(a.srcw), sy, sx) == Bit(a.src[sy * Stride(a.srcw) + sx / 8], 7 - sx % 8)
  {
    InBitmap(Stride(a.srcw), a.srcw, a.srch, sy, sx);
    SourceIs(a.src, Stride(a.srcw), sy, sx);
  }

  class Animation {
    var a: Anim

    constructor (a: Anim)
      ensures this.a == a
    {
      this.a := a;
    }

    method WindowBit(row: nat, col: nat) returns (on: bool)
      requires AnimOk(a)
      ensures on == WindowLit(a, row, col)
    {
      hide Source, AnimOk, WindowX, WindowY;
      AnimParts(a);
      var stride := (a.srcw + 7) / 8;
      var sx, sy := WindowX(a, col), WindowY(a, row);
      if sx >= a.srcw || sy >= a.srch {
        return false;
      }
      InSource(a, sy, sx);
      on := Bit(a.src[sy * stride + sx / 8], 7 - sx % 8);
    }

    /** Draw one row of the window. */
    method DrawWindowRow(dev: Device, row: nat)
      requires dev.Valid() && AnimOk(a) && row < a.h
      modifies dev.fb
      ensures dev.Valid()
      ensures dev.Shows(dev.Back())
           == ColsDrawn(old(dev.Shows(dev.Back())), dev.width, dev.height, a.x, a.y, row, WindowPixels(a), a.w)
      ensures dev.Shows(dev.front) == old(dev.Shows(dev.front))
    {
      hide PixelDrawn, WindowLit;
      ghost var im, pix := dev.Shows(dev.Back()), WindowPixels(a);
      var col := 0;
      while col < a.w
        invariant 0 <= col <= a.w && dev.Valid()
        invariant dev.Shows(dev.Back()) == ColsDrawn(im, dev.width, dev.height, a.x, a.y, row, pix, col)
        invariant dev.Shows(dev.front) == old(dev.Shows(dev.front))
      {
        var on := WindowBit(row, col);
        dev.DrawPixel(a.x + col, a.y + row, on);
        col := col + 1;
      }
    }

    /** Put one step of an animation on its rectangle. */
    method AnimDraw(dev: Device)
      requires dev.Valid() && AnimOk(a)
      modifies dev`dirty, dev`swap, dev.fb
      ensures dev.Valid() && dev.swap && dev.dirty
      ensures dev.Shows(dev.front) == old(dev.Shows(dev.front))
      ensures dev.Shows(dev.Back())
           == RectDrawn(if old(dev.dirty) then old(dev.Shows(dev.Back())) else old(dev.Shows(dev.front)),
                        dev.width, dev.height, a.x, a.y, a.w, a.h, WindowPixels(a))
    {
      hide ColsDrawn;
      dev.Begin();
      ghost var was, pix, shown := dev.Shows(dev.Back()), WindowPixels(a), dev.Shows(dev.front);
      var row := 0;
      while row < a.h
        invariant 0 <= row <= a.h && dev.Valid() && dev.dirty
        invariant dev.Shows(dev.Back()) == RectDrawn(was, dev.width, dev.height, a.x, a.y, a.w, row, pix)
        invariant dev.Shows(dev.front) == shown
      {
        DrawWindowRow(dev, row);
        row := row + 1;
      }
      ghost var drawn := dev.Shows(dev.Back());
      dev.Commit();
      SameImage(dev.Shows(dev.Back()), drawn);
      SameImage(dev.Shows(dev.front), shown);
    }

    /** Move the animation if it is due. */
    method AnimTick(dev: Device) returns (due: bool)
      requires dev.Valid() && AnimOk(a)
      modifies this, dev`dirty, dev`swap, dev.fb
      ensures dev.Valid() && AnimOk(a)
      ensures (a, due) == Ticked(old(a))
      ensures dev.Shows(dev.front) == old(dev.Shows(dev.front))
      ensures due ==> dev.swap
      ensures due ==>
                dev.Shows(dev.Back())
                == RectDrawn(if old(dev.dirty) then old(dev.Shows(dev.Back())) else old(dev.Shows(dev.front)),
                             dev.width, dev.height, a.x, a.y, a.w, a.h, WindowPixels(a))
      ensures !due ==> dev.Shows(dev.Back()) == old(dev.Shows(dev.Back())) && dev.swap == old(dev.swap)
    {
      hide AnimOk, Ticked, RectDrawn;
      due := Move();
      if due {
        AnimDraw(dev);
      }
    }

    /** Count one tick, and move the window when the period is over. */
    method Move() returns (due: bool)
      requires AnimOk(a)
      modifies this
      ensures AnimOk(a) && (a, due) == Ticked(old(a))
    {
      a := a.(elapsed := (a.elapsed + TICK_MS) % U16_SPAN);
      if a.elapsed < a.period {
        return false;
      }
      a := a.(elapsed := 0, offset := (a.offset + a.step) % U16_SPAN);
      if a.vertical {
        a := a.(offset := a.offset % (if a.srch > 0 then a.srch else 1));
      } else {
        a := a.(offset := a.offset % (if a.srcw > 0 then a.srcw else 1));
      }
      due := true;
    }
  }

  // ---------------------------------------------------------------------------
  // When a step is due
  // ---------------------------------------------------------------------------

  function Ticks(a: Anim, n: nat): (r: Anim)
    requires AnimOk(a)
    ensures AnimOk(r)
  {
    if n == 0 then a else Ticked(Ticks(a, n - 1)).0
  }

  /** The ticks that a period needs, rounded up. */
  function TicksOf(period: nat): nat {
    (period + TICK_MS - 1) / TICK_MS
  }

  lemma TickWaits(a: Anim)
    requires AnimOk(a) && a.elapsed + TICK_MS < a.period
    ensures Ticked(a) == (a.(elapsed := a.elapsed + TICK_MS), false)
  {
  }

  lemma {:induction false} CountingUp(a: Anim, n: nat)
    requires AnimOk(a) && a.elapsed == 0 && n < TicksOf(a.period)
    ensures Ticks(a, n) == a.(elapsed := TICK_MS * n)
    decreases n
  {
    hide Ticked, AnimOk;
    if n > 0 {
      CountingUp(a, n - 1);
      PeriodBound(a.period, n);
      TickWaits(a.(elapsed := TICK_MS * (n - 1)));
    }
  }

  lemma PeriodBound(period: nat, n: nat)
    requires n < TicksOf(period)
    ensures TICK_MS * n < period
  {
  }

  /** The first step comes after the period, rounded up to whole ticks, exactly for the
      periods up to 65520; the counter of a longer one wraps before it. */
  lemma DueExactlyWhen(a: Anim)
    requires AnimOk(a) && a.elapsed == 0
    ensures Ticked(Ticks(a, TicksOf(a.period) - 1)).1 <==> a.period <= 65520
  {
    hide Ticks, Ticked, AnimOk;
    var t := TicksOf(a.period);
    PeriodParts(a);
    CountingUp(a, t - 1);
    TickDue(a.(elapsed := TICK_MS * (t - 1)));
    CounterWraps(a.period);
  }

  lemma PeriodParts(a: Anim)
    requires AnimOk(a)
    ensures 0 < a.period < U16_SPAN && TicksOf(a.period) > 0
  {
  }

  lemma TickDue(a: Anim)
    requires AnimOk(a)
    ensures Ticked(a).1 <==> (a.elapsed + TICK_MS) % U16_SPAN >= a.period
  {
  }

  lemma CounterWraps(period: nat)
    requires 0 < period < U16_SPAN
    ensures (TICK_MS * TicksOf(period)) % U16_SPAN >= period <==> period <= 65520
  {
    var t := TicksOf(period);
    assert period <= TICK_MS * t < period + TICK_MS;
    if period <= 65520 {
      assert t <= 3276;
    } else {
      assert t == 3277;
    }
  }

  /** A period above 65532 never ends. */
  lemma {:induction false} SlowestNeverMoves(a: Anim, n: nat)
    requires AnimOk(a) && a.elapsed == 0 && a.period > 65532
    ensures exists e: nat :: Ticks(a, n) == a.(elapsed := e) && e % 4 == 0
    ensures !Ticked(Ticks(a, n)).1
    decreases n
  {
    hide Ticked;
    if n > 0 {
      SlowestNeverMoves(a, n - 1);
      var e: nat :| Ticks(a, n - 1) == a.(elapsed := e) && e % 4 == 0;
      TickOfSlowest(Ticks(a, n - 1));
      assert Ticks(a, n) == a.(elapsed := (e + TICK_MS) % U16_SPAN);
    } else {
      assert Ticks(a, 0) == a.(elapsed := 0);
    }
    TickOfSlowest(Ticks(a, n));
  }

  /** While no step is due, the counter counts and wraps. */
  lemma {:induction false} CountingRound(a: Anim, n: nat)
    requires AnimOk(a) && a.elapsed == 0
    requires forall k: nat :: k < n ==> !Ticked(Ticks(a, k)).1
    ensures Ticks(a, n) == a.(elapsed := TICK_MS * n % U16_SPAN)
    decreases n
  {
    hide AnimOk, Ticked;
    if n > 0 {
      CountingRound(a, n - 1);
      TickNotDue(Ticks(a, n - 1));
      WrappedTick(n - 1);
    }
  }

  lemma TickNotDue(a: Anim)
    requires AnimOk(a) && !Ticked(a).1
    ensures Ticked(a).0 == a.(elapsed := (a.elapsed + TICK_MS) % U16_SPAN)
  {
  }

  lemma WrappedTick(n: nat)
    ensures (TICK_MS * n % U16_SPAN + TICK_MS) % U16_SPAN == TICK_MS * (n + 1) % U16_SPAN
  {
    var q, r := TICK_MS * n / U16_SPAN, TICK_MS * n % U16_SPAN;
    assert TICK_MS * (n + 1) == q * U16_SPAN + (r + TICK_MS);
    if r + TICK_MS >= U16_SPAN {
      assert TICK_MS * (n + 1) == (q + 1) * U16_SPAN + (r + TICK_MS - U16_SPAN);
    }
  }

  /** On its way round the counter meets every multiple of four below its span. */
  lemma StepComes(a: Anim) returns (n: nat)
    requires AnimOk(a) && a.elapsed == 0 && a.period <= 65532
    ensures Ticked(Ticks(a, n)).1
  {
    hide AnimOk, Ticked, Ticks;
    if k: nat :| k < 13106 && Ticked(Ticks(a, k)).1 {
      n := k;
    } else {
      n := 13106;
      CountingRound(a, n);
      TickDue(Ticks(a, n));
    }
  }

  /** A step comes at some tick exactly for the periods up to 65532. */
  lemma MovesExactlyWhen(a: Anim)
    requires AnimOk(a) && a.elapsed == 0
    ensures (exists n: nat :: Ticked(Ticks(a, n)).1) <==> a.period <= 65532
  {
    hide AnimOk, Ticked, Ticks;
    if a.period <= 65532 {
      var n := StepComes(a);
    } else {
      forall n: nat
        ensures !Ticked(Ticks(a, n)).1
      {
        SlowestNeverMoves(a, n);
      }
    }
  }

  lemma TickOfSlowest(a: Anim)
    requires AnimOk(a) && a.period > 65532 && a.elapsed % 4 == 0
    ensures Ticked(a) == (a.(elapsed := (a.elapsed + TICK_MS) % U16_SPAN), false)
    ensures (a.elapsed + TICK_MS) % U16_SPAN % 4 == 0
  {
    hide AnimOk;
    ElapsedBelow(a);
    FourStays(a.elapsed);
  }

  lemma ElapsedBelow(a: Anim)
    requires AnimOk(a)
    ensures a.elapsed < U16_SPAN
  {
  }

  lemma FourStays(e: nat)
    requires e < U16_SPAN && e % 4 == 0
    ensures (e + TICK_MS) % U16_SPAN <= 65532 && (e + TICK_MS) % U16_SPAN % 4 == 0
  {
  }

  // ---------------------------------------------------------------------------
  // Any source, any step, both directions
  // ---------------------------------------------------------------------------

  /** The side of the source along which the window moves. */
  function Span(a: Anim): nat {
    if a.vertical then a.srch else a.srcw
  }

  /** The tick that ends a period. */
  lemma LastTick(period: nat)
    requires 0 < period <= 65520
    ensures period <= TICK_MS * (TicksOf(period) - 1) + TICK_MS < U16_SPAN
  {
  }

  lemma NoTicks(a: Anim)
    requires AnimOk(a)
    ensures Ticks(a, 0) == a
  {
  }

  lemma {:induction false} TicksAdd(a: Anim, m: nat, n: nat)
    requires AnimOk(a)
    ensures Ticks(a, m + n) == Ticks(Ticks(a, m), n)
    decreases n
  {
    if n > 0 {
      TicksAdd(a, m, n - 1);
    }
  }

  lemma TickSteps(a: Anim)
    requires AnimOk(a) && a.elapsed + TICK_MS < U16_SPAN && a.elapsed + TICK_MS >= a.period
    requires a.offset + a.step < U16_SPAN
    ensures Span(a) > 0 && Ticked(a) == (a.(elapsed := 0, offset := (a.offset + a.step) % Span(a)), true)
  {
    hide Stride;
    SmallWord(a.elapsed + TICK_MS);
    SmallWord(a.offset + a.step);
  }

  lemma SmallWord(n: nat)
    requires n < U16_SPAN
    ensures n % U16_SPAN == n
  {
  }

  lemma AddThenWrap(m: nat, step: nat, k: nat)
    requires k > 0
    ensures (m % k + step) % k == (m + step) % k
  {
    var q, r := (m % k + step) / k, (m % k + step) % k;
    Division(m, k);
    Division(m % k + step, k);
    assert m + step == (m / k + q) * k + r by {
      assert (m / k + q) * k == m / k * k + q * k;
    }
    QuotientIs(m / k + q, r, k);
  }

  lemma OneMove(a: Anim)
    requires AnimOk(a) && a.elapsed == 0 && a.period <= 65520 && a.offset < Span(a) && Span(a) + a.step < U16_SPAN
    ensures Ticks(a, TicksOf(a.period)) == a.(offset := (a.offset + a.step) % Span(a))
  {
    hide Ticked, AnimOk, TicksOf;
    var t := TicksOf(a.period);
    PeriodParts(a);
    LastTick(a.period);
    CountingUp(a, t - 1);
    TickSteps(a.(elapsed := TICK_MS * (t - 1)));
  }

  /** After n due steps the window is n steps further along the source, around its end,
      across or down. */
  lemma {:induction false} MovesOn(a: Anim, n: nat)
    requires AnimOk(a) && a.offset == 0 && a.elapsed == 0 && a.period <= 65520 && Span(a) + a.step < U16_SPAN
    ensures Span(a) > 0 && Ticks(a, n * TicksOf(a.period)) == a.(offset := n * a.step % Span(a))
    decreases n
  {
    hide Ticked, Ticks, TicksOf, Span, AnimOk;
    var t := TicksOf(a.period);
    SpanOk(a);
    if n == 0 {
      NoTicks(a);
      QuotientIs(0, 0, Span(a));
      OnceMore(0, t);
      OnceMore(0, a.step);
    } else {
      MovesOn(a, n - 1);
      OnceMore(n - 1, t);
      OnceMore(n - 1, a.step);
      TicksAdd(a, (n - 1) * t, t);
      var m := (n - 1) * a.step;
      OneMove(a.(offset := m % Span(a)));
      AddThenWrap(m, a.step, Span(a));
    }
  }

  lemma OnceMore(n: nat, t: nat)
    ensures (n + 1) * t == n * t + t && 0 * t == 0
  {
  }

  /** Every offset inside the source is one that an animation can have. */
  lemma SpanOk(a: Anim)
    requires AnimOk(a)
    ensures Span(a) > 0
    ensures forall o: nat :: o < Span(a) ==> AnimOk(a.(offset := o)) && Span(a.(offset := o)) == Span(a)
  {
    hide Stride;
  }

  /** After n due steps, pixel (row, col) of the window is the pixel of the source n steps further
      across or down, around its end; beyond the other side of the source it is dark. */
  lemma WindowShowsTheSource(a: Anim, n: nat, row: nat, col: nat)
    requires AnimOk(a) && a.offset == 0 && a.elapsed == 0 && a.period <= 65520 && Span(a) + a.step < U16_SPAN
    ensures var b := Ticks(a, n * TicksOf(a.period));
            && b.srcw > 0 && b.srch > 0 && a.srcw > 0 && a.srch > 0
            && var y := if a.vertical then (row + n * a.step) % a.srch else row;
               var x := if a.vertical then col else (col + n * a.step) % a.srcw;
               WindowLit(b, row, col) <==> x < a.srcw && y < a.srch && Source(a.src, (a.srcw + 7) / 8, y, x)
  {
    hide Ticks, TicksOf, Source, AnimOk;
    AnimParts(a);
    MovesOn(a, n);
    var m := n * a.step;
    AddThenWrap(m, if a.vertical then row else col, Span(a));
    WindowAt(a, m % Span(a), row, col);
  }

  lemma WindowAt(a: Anim, offset: nat, row: nat, col: nat)
    requires a.srcw > 0 && a.srch > 0
    ensures var y := if a.vertical then (row + offset) % a.srch else row;
            var x := if a.vertical then col else (col + offset) % a.srcw;
            WindowLit(a.(offset := offset), row, col) <==>
            x < a.srcw && y < a.srch && Source(a.src, (a.srcw + 7) / 8, y, x)
  {
    hide Source;
  }

  // ---------------------------------------------------------------------------
  // A sprite of frames side by side
  // ---------------------------------------------------------------------------

  /** The animation of a packed sprite whose window is one frame. */
  predicate Plays(a: Anim, frames: seq<Grid>) {
    && AnimOk(a) && !a.vertical && frames != []
    && a.w == SIZE && a.h == SIZE && a.step == SIZE
    && a.srcw == SIZE * |frames| && a.srch == SIZE && a.srcw + SIZE < U16_SPAN
    && (forall y: nat, x: nat :: y < SIZE && x < a.srcw ==>
          Source(a.src, Stride(a.srcw), y, x) == Packed(frames, y, x))
  }

  /** The offset of a packed sprite after n due steps. */
  lemma AfterSteps(a: Anim, frames: seq<Grid>, n: nat)
    requires Plays(a, frames) && a.offset == 0 && a.elapsed == 0 && a.period <= 65520
    ensures Ticks(a, n * TicksOf(a.period)) == a.(offset := SIZE * (n % |frames|))
  {
    hide Ticked, Ticks, TicksOf, AnimOk;
    var k := |frames|;
    MovesOn(a, n);
    Division(n, k);
    assert n * SIZE == n / k * (SIZE * k) + SIZE * (n % k) by {
      assert n / k * (SIZE * k) == SIZE * (n / k * k);
    }
    QuotientIs(n / k, SIZE * (n % k), SIZE * k);
  }

  /** After n due steps the window shows exactly frame n modulo the count of frames, and
      the offset stays below the width of the source. */
  lemma WindowShowsTheFrame(a: Anim, frames: seq<Grid>, n: nat, row: nat, col: nat)
    requires Plays(a, frames) && a.offset == 0 && a.elapsed == 0 && a.period <= 65520
    requires row < SIZE && col < SIZE
    ensures var b := Ticks(a, n * TicksOf(a.period));
            && b.offset < b.srcw
            && WindowLit(b, row, col) == frames[n % |frames|][row][col]
  {
    hide Ticked, Ticks, TicksOf, Source, Packed;
    AfterSteps(a, frames, n);
    var r, x := n % |frames|, col + SIZE * (n % |frames|);
    assert x / SIZE == r && x % SIZE == col;
    assert x < SIZE * |frames|;
    QuotientIs(0, x, SIZE * |frames|);
    assert Source(a.src, Stride(a.srcw), row, x) == Packed(frames, row, x);
    PackedPixel(frames, row, r, col);
  }

  lemma PackedPixel(frames: seq<Grid>, row: nat, r: nat, col: nat)
    requires row < SIZE && col < SIZE && r < |frames|
    ensures Packed(frames, row, col + SIZE * r) == frames[r][row][col]
  {
    assert (col + SIZE * r) / SIZE == r && (col + SIZE * r) % SIZE == col;
  }
}
