/**
  Planes of bytes inside a buffer.  The transforms walk raw cursors; what they produce is stated
  through images, functions from byte column and line to a byte.
*/
module Planes {
  import opened Bits
  import opened Memory

  /** `h` lines of `w` bytes, `stride` bytes apart, from `base` on. */
  datatype View = View(base: nat, stride: nat, w: nat, h: nat) {
    function Size(): nat { h * stride }
  }

  type Image = (nat, nat) -> byte

  function At(v: View, i: nat, j: nat): nat { v.base + j * v.stride + i }

  function Cell(s: seq<byte>, v: View, i: nat, j: nat): byte {
    if At(v, i, j) < |s| then s[At(v, i, j)] else 0
  }

  /** The image a buffer holds. */
  function ImageOf(s: seq<byte>, v: View): Image { (i: nat, j: nat) => Cell(s, v, i, j) }

  ghost predicate Fits(s: seq<byte>, v: View) { v.w <= v.stride && v.base + v.Size() <= |s| }

  /** The buffer shows this image. */
  ghost predicate Shows(s: seq<byte>, v: View, image: Image) {
    forall i: nat, j: nat :: i < v.w && j < v.h ==> Cell(s, v, i, j) == image(i, j)
  }

  /** Two images are the same as far as `w` by `h`. */
  ghost predicate Agree(a: Image, b: Image, w: nat, h: nat) {
    forall i: nat, j: nat :: i < w && j < h ==> a(i, j) == b(i, j)
  }

  lemma AtSteps(v: View, i: nat, j: nat, n: nat)
    ensures At(v, 0, 0) == v.base && At(v, i + n, j) == At(v, i, j) + n && At(v, i, j + 1) == At(v, i, j) + v.stride
    ensures At(v, i, j) == v.base + j * v.stride + i
  {
  }

  /** The line behind the last one, and the first. */
  lemma PlaneEnd(v: View)
    ensures At(v, 0, v.h) == v.base + v.Size() && At(v, 0, 0) == v.base
  {
  }

  lemma AtBounds(v: View, i: nat, j: nat)
    requires i < v.stride && j < v.h
    ensures v.base <= At(v, i, j) < v.base + v.Size()
  {
    MulMonotone(v.stride, j + 1, v.h);
  }

  lemma LineBounds(v: View, i: nat, j: nat)
    requires i <= v.stride && j < v.h
    ensures v.base <= At(v, i, j) <= v.base + v.Size()
  {
    MulMonotone(v.stride, j + 1, v.h);
  }

  /** Lines do not overlap. */
  lemma AtApart(v: View, i: nat, j: nat, i': nat, j': nat)
    requires i < v.stride && i' < v.stride && j != j'
    ensures At(v, i, j) != At(v, i', j')
    ensures j < j' ==> At(v, i, j) < At(v, 0, j')
    ensures j' < j ==> At(v, 0, j') + v.stride <= At(v, i, j)
  {
    if j < j' {
      MulMonotone(v.stride, j + 1, j');
    } else {
      MulMonotone(v.stride, j' + 1, j);
    }
  }

  // ----- Painting a plane from top to bottom -----

  /** The first `y` lines show the image, and so do the first `x` bytes of the next. */
  ghost predicate Painted(d: seq<byte>, v: View, image: Image, y: nat, x: nat) {
    && Fits(d, v)
    && forall i: nat, j: nat :: i < v.w && j < v.h && (j < y || (j == y && i < x)) ==> Cell(d, v, i, j) == image(i, j)
  }

  lemma PaintStart(d: seq<byte>, v: View, image: Image)
    requires Fits(d, v)
    ensures Painted(d, v, image, 0, 0) && Kept(d, d, v.base, v.base + v.Size())
  {
  }

  lemma PaintFits(d: seq<byte>, v: View, image: Image, y: nat, x: nat)
    requires Painted(d, v, image, y, x)
    ensures Fits(d, v)
  {
  }

  /** `n` more bytes of line `y`. */
  lemma PaintSpan(d: seq<byte>, e: seq<byte>, was: seq<byte>, v: View, image: Image, y: nat, x: nat, n: nat)
    requires Painted(d, v, image, y, x) && y < v.h && x + n <= v.stride && |e| == |d|
    requires forall q :: 0 <= q < |d| && (q < At(v, x, y) || At(v, x, y) + n <= q) ==> e[q] == d[q]
    requires forall i: nat :: x <= i < x + n && i < v.w ==> Cell(e, v, i, y) == image(i, y)
    requires Kept(d, was, v.base, v.base + v.Size())
    ensures Painted(e, v, image, y, x + n) && Kept(e, was, v.base, v.base + v.Size())
  {
    hide At, View.Size;
    AtSteps(v, 0, y, x);
    AtSteps(v, x, y, n);
    forall i: nat, j: nat | i < v.w && j < v.h && (j < y || (j == y && i < x + n))
      ensures Cell(e, v, i, j) == image(i, j)
    {
      if j < y || i < x {
        if j < y {
          AtApart(v, i, j, 0, y);
        }
        AtSteps(v, 0, j, i);
        assert At(v, i, j) < At(v, x, y);
        assert Cell(d, v, i, j) == image(i, j);
      }
    }
    LineBounds(v, x, y);
    LineBounds(v, x + n, y);
  }

  /** A finished line is the start of the next. */
  lemma PaintLine(d: seq<byte>, v: View, image: Image, y: nat, x: nat)
    requires Painted(d, v, image, y, x) && x >= v.w
    ensures Painted(d, v, image, y + 1, 0)
  {
    hide At;
  }

  lemma PaintEnd(d: seq<byte>, v: View, image: Image, y: nat)
    requires Painted(d, v, image, y, 0) && y >= v.h
    ensures Shows(d, v, image) && Fits(d, v)
  {
    hide At;
  }

  /** Work on another plane leaves an image alone. */
  lemma ShowsElsewhere(d: seq<byte>, e: seq<byte>, v: View, image: Image, lo: nat, hi: nat)
    requires Shows(d, v, image) && Fits(d, v) && Kept(e, d, lo, hi) && (v.base + v.Size() <= lo || hi <= v.base)
    ensures Shows(e, v, image) && Fits(e, v)
  {
    forall i: nat, j: nat | i < v.w && j < v.h
      ensures Cell(e, v, i, j) == image(i, j)
    {
      AtBounds(v, i, j);
      assert Cell(d, v, i, j) == image(i, j);
    }
  }

  /** Three planes written one after the other. */
  lemma ThreePlanes(d0: seq<byte>, d1: seq<byte>, d2: seq<byte>, d3: seq<byte>, v1: View, v2: View, v3: View,
                    a: Image, b: Image, c: Image)
    requires Shows(d1, v1, a) && Fits(d1, v1) && Kept(d1, d0, v1.base, v1.base + v1.Size())
    requires Shows(d2, v2, b) && Fits(d2, v2) && Kept(d2, d1, v2.base, v2.base + v2.Size())
    requires Shows(d3, v3, c) && Fits(d3, v3) && Kept(d3, d2, v3.base, v3.base + v3.Size())
    requires v1.base + v1.Size() <= v2.base && v2.base + v2.Size() <= v3.base
    ensures Shows(d3, v1, a) && Shows(d3, v2, b) && Shows(d3, v3, c)
    ensures Kept(d3, d0, v1.base, v3.base + v3.Size())
  {
    hide Shows, Fits, Kept, View.Size;
    ShowsElsewhere(d1, d2, v1, a, v2.base, v2.base + v2.Size());
    ShowsElsewhere(d2, d3, v1, a, v3.base, v3.base + v3.Size());
    ShowsElsewhere(d2, d3, v2, b, v3.base, v3.base + v3.Size());
    SizeNonNegative(v1);
    SizeNonNegative(v2);
    SizeNonNegative(v3);
    KeptBoth(d2, d1, d0, v2.base, v2.base + v2.Size(), v1.base, v1.base + v1.Size(), v1.base, v2.base + v2.Size());
    KeptBoth(d3, d2, d0, v3.base, v3.base + v3.Size(), v1.base, v2.base + v2.Size(), v1.base, v3.base + v3.Size());
  }

  lemma SizeNonNegative(v: View)
    ensures v.Size() >= 0
  {
  }

  /** Buffers that show the same image in a packed plane have the same bytes there. */
  lemma PlaceOf(w: nat, h: nat, n: nat) returns (i: nat, j: nat)
    requires n < h * w
    ensures i < w && j < h && n == j * w + i
  {
    DivNonNegative(n, w);
    i, j := n % w, n / w;
    assert n == w * (n / w) + n % w;
    if j >= h {
      MulMonotone(w, h, j);
    }
  }

  lemma PackedSame(s: seq<byte>, t: seq<byte>, base: nat, w: nat, h: nat, image: Image)
    requires base + h * w <= |s| && |s| == |t|
    requires Shows(s, View(base, w, w, h), image) && Shows(t, View(base, w, w, h), image)
    ensures forall q :: base <= q < base + h * w ==> s[q] == t[q]
  {
    forall q | base <= q < base + h * w
      ensures s[q] == t[q]
    {
      var v := View(base, w, w, h);
      var i, j := PlaceOf(w, h, q - base);
      assert At(v, i, j) == q;
      assert Cell(s, v, i, j) == image(i, j) == Cell(t, v, i, j);
    }
  }

  // ----- Frames -----

  /** A pixel format's size, as far as these transforms look at it. */
  datatype Format = Format(width: nat, height: nat, bytesperline: nat)

  function Rgb(f: Format): View { View(0, f.bytesperline, 3 * f.width, f.height) }

  function Luma(f: Format): View { View(0, f.bytesperline, f.width, f.height) }

  function Chroma1(f: Format): View {
    View(f.height * f.bytesperline, f.bytesperline / 2, f.width / 2, f.height / 2)
  }

  function Chroma2(f: Format): View {
    View(f.height * f.bytesperline * 5 / 4, f.bytesperline / 2, f.width / 2, f.height / 2)
  }

  /** Sizes that divide evenly among the planes. */
  predicate Even(f: Format) {
    f.width % 2 == 0 && f.height % 2 == 0 && f.bytesperline % 2 == 0 && f.width <= f.bytesperline
  }

  function FrameSize(f: Format): nat { f.height * f.bytesperline * 3 / 2 }

  /** The planes of an even frame follow one another. */
  lemma PlanesAdjoin(f: Format)
    requires Even(f)
    ensures Luma(f).base + Luma(f).Size() == Chroma1(f).base
    ensures Chroma1(f).base + Chroma1(f).Size() == Chroma2(f).base
    ensures Chroma2(f).base + Chroma2(f).Size() == FrameSize(f)
  {
    var a, b := f.height / 2, f.bytesperline / 2;
    assert f.height * f.bytesperline == 4 * (a * b) by {
      assert f.height == 2 * a && f.bytesperline == 2 * b;
    }
  }

  datatype PixelFormat = Rgb24 | Yuv420

  predicate Rgb24Frame(s: seq<byte>, f: Format) {
    3 * f.width <= f.bytesperline && f.height * f.bytesperline <= |s|
  }

  predicate Yuv420Frame(s: seq<byte>, f: Format) {
    Even(f) && FrameSize(f) <= |s|
  }

  lemma FramePlanes(s: seq<byte>, f: Format)
    requires Yuv420Frame(s, f)
    ensures Fits(s, Luma(f)) && Fits(s, Chroma1(f)) && Fits(s, Chroma2(f))
    ensures Luma(f).base + Luma(f).Size() == Chroma1(f).base
    ensures Chroma1(f).base + Chroma1(f).Size() == Chroma2(f).base
    ensures Chroma2(f).base + Chroma2(f).Size() == FrameSize(f)
  {
    PlanesAdjoin(f);
    SizeNonNegative(Chroma1(f));
    SizeNonNegative(Chroma2(f));
  }

  /** The three planes of a frame show these images. */
  ghost predicate ShowsFrame(d: seq<byte>, f: Format, luma: Image, chroma1: Image, chroma2: Image) {
    Shows(d, Luma(f), luma) && Shows(d, Chroma1(f), chroma1) && Shows(d, Chroma2(f), chroma2)
  }

  lemma SameFrame(d: seq<byte>, e: seq<byte>, f: Format)
    requires Yuv420Frame(d, f) && |e| == |d|
    ensures Yuv420Frame(e, f)
  {
  }

  lemma FrameEven(d: seq<byte>, f: Format)
    requires Yuv420Frame(d, f)
    ensures Even(f)
  {
  }
}
