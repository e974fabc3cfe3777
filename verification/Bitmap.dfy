/** A bitmap in memory, drawn in place one pixel at a time. */
module Bitmap {
  import opened Panel

  /** The byte of a pixel. */
  function Place(stride: nat, y: nat, x: nat): nat {
    y * stride + x / 8
  }

  lemma PlaceLit(src: seq<bv8>, stride: nat, y: nat, x: nat)
    requires Place(stride, y, x) < |src|
    ensures Source(src, stride, y, x) == Bit(src[Place(stride, y, x)], 7 - x % 8)
  {
    hide Bit;
    SourceIs(src, stride, y, x);
  }

  lemma Inside(stride: nat, h: nat, y: nat, x: nat)
    requires y < h && x < 8 * stride
    ensures Place(stride, y, x) < stride * h
  {
    assert y * stride + stride == (y + 1) * stride <= h * stride;
  }

  lemma SamePlace(stride: nat, y: nat, x: nat, y': nat, x': nat)
    requires x < 8 * stride && x' < 8 * stride
    ensures Place(stride, y, x) == Place(stride, y', x') && x % 8 == x' % 8 <==> y == y' && x == x'
  {
    if y < y' {
      assert (y + 1) * stride <= y' * stride && (y + 1) * stride == y * stride + stride;
    } else if y' < y {
      assert (y' + 1) * stride <= y * stride && (y' + 1) * stride == y' * stride + stride;
    }
  }

  /** Light one pixel and leave all others. */
  method SetPixel(bits: array<bv8>, stride: nat, h: nat, y: nat, x: nat)
    requires y < h && x < 8 * stride && stride * h <= bits.Length
    modifies bits
    ensures forall y', x' :: 0 <= y' < h && 0 <= x' < 8 * stride ==>
              Source(bits[..], stride, y', x') == ((y' == y && x' == x) || old(Source(bits[..], stride, y', x')))
  {
    hide Source, WithBit;
    ghost var was := bits[..];
    Inside(stride, h, y, x);
    assert Place(stride, y, x) == y * stride + x / 8;
    var at := y * stride + x / 8;
    bits[at] := WithBit(bits[at], 7 - x % 8, true);
    assert bits[..] == was[at := WithBit(was[at], 7 - x % 8, true)];
    forall y', x' | 0 <= y' < h && 0 <= x' < 8 * stride
      ensures Source(bits[..], stride, y', x') == ((y' == y && x' == x) || Source(was, stride, y', x'))
    {
      PixelSet(was, stride, h, y, x, y', x');
    }
  }

  lemma PixelSet(was: seq<bv8>, stride: nat, h: nat, y: nat, x: nat, y': nat, x': nat)
    requires y < h && x < 8 * stride && y' < h && x' < 8 * stride && stride * h <= |was|
    ensures Place(stride, y, x) < |was|
    ensures var at := Place(stride, y, x);
            Source(was[at := WithBit(was[at], 7 - x % 8, true)], stride, y', x')
            == ((y' == y && x' == x) || Source(was, stride, y', x'))
  {
    hide Source, WithBit, Bit, Place;
    Inside(stride, h, y, x);
    Inside(stride, h, y', x');
    var at, at' := Place(stride, y, x), Place(stride, y', x');
    SamePlace(stride, y, x, y', x');
    WithBitSets(was[at], 7 - x % 8, true, 7 - x' % 8);
    PlaceLit(was[at := WithBit(was[at], 7 - x % 8, true)], stride, y', x');
    PlaceLit(was, stride, y', x');
  }

  lemma Dark(bits: seq<bv8>, stride: nat, h: nat)
    requires stride * h <= |bits| && forall k :: 0 <= k < stride * h ==> bits[k] == 0
    ensures forall y, x :: 0 <= y < h && 0 <= x < 8 * stride ==> !Source(bits, stride, y, x)
  {
    hide Source, Place;
    forall y, x | 0 <= y < h && 0 <= x < 8 * stride
      ensures !Source(bits, stride, y, x)
    {
      Inside(stride, h, y, x);
      PlaceLit(bits, stride, y, x);
      DarkByte(7 - x % 8);
    }
  }

  lemma DarkByte(k: nat)
    requires k < 8
    ensures !Bit(0, k)
  {
  }
}
