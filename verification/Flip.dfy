/**
  Flipping and rotating frames: cursor walks over one or three planes, and the group laws of the
  transforms they compute.
*/
module Flip {
  import opened Bits
  import opened Memory
  import opened Planes

  datatype Turn = HFlip | VFlip | HalfTurn | QuarterTurn

  // ----- What the transforms mean -----

  /** Byte `c` of pixel `x`. */
  function Column(bpp: nat, x: nat, c: nat): nat { bpp * x + c }

  /** Where pixel (x, y) of the turned picture comes from; the picture turned is `w` by `h` pixels. */
  function Origin(t: Turn, w: nat, h: nat, x: int, y: int): (int, int) {
    match t
    case HFlip => (w - 1 - x, y)
    case VFlip => (x, h - 1 - y)
    case HalfTurn => (w - 1 - x, h - 1 - y)
    case QuarterTurn => (y, h - 1 - x)
  }

  /** The size of the turned picture. */
  function Size(t: Turn, w: nat, h: nat): (nat, nat) {
    if t == QuarterTurn then (h, w) else (w, h)
  }

  function TurnedAt(t: Turn, image: Image, bpp: nat, w: nat, h: nat, i: nat, j: nat): byte
    requires bpp > 0
  {
    var o := Origin(t, w, h, i / bpp, j);
    if o.0 >= 0 && o.1 >= 0 then image(Column(bpp, o.0, i % bpp), o.1) else 0
  }

  function Turned(t: Turn, image: Image, bpp: nat, w: nat, h: nat): Image
    requires bpp > 0
  {
    (i: nat, j: nat) => TurnedAt(t, image, bpp, w, h, i, j)
  }

  lemma OriginInside(t: Turn, w: nat, h: nat, x: int, y: int)
    requires 0 <= x < Size(t, w, h).0 && 0 <= y < Size(t, w, h).1
    ensures var o := Origin(t, w, h, x, y); 0 <= o.0 < w && 0 <= o.1 < h
  {
  }

  lemma ColumnParts(bpp: nat, x: nat, c: nat)
    requires c < bpp
    ensures Column(bpp, x, c) / bpp == x && Column(bpp, x, c) % bpp == c
  {
    DivMod(x, bpp, c);
  }

  lemma ColumnOf(bpp: nat, i: nat, w: nat)
    requires bpp > 0 && i < bpp * w
    ensures i == Column(bpp, i / bpp, i % bpp) && i / bpp < w && i % bpp < bpp
  {
    if i / bpp >= w {
      MulMonotone(bpp, w, i / bpp);
    }
  }

  lemma ColumnBound(bpp: nat, x: nat, c: nat, w: nat)
    requires x < w && c < bpp
    ensures Column(bpp, x, c) < bpp * w
  {
    MulMonotone(bpp, x + 1, w);
  }

  /** Turning a picture twice composes the origins. */
  lemma TurnedTwice(t: Turn, u: Turn, image: Image, bpp: nat, w: nat, h: nat, i: nat, j: nat)
    requires bpp > 0
    requires var (w', h') := Size(t, w, h); i < bpp * Size(u, w', h').0 && j < Size(u, w', h').1
    ensures var (w', h') := Size(t, w, h);
      var (x', y') := Origin(u, w', h', i / bpp, j);
      var (x, y) := Origin(t, w, h, x', y');
      x >= 0 && y >= 0 && Turned(u, Turned(t, image, bpp, w, h), bpp, w', h')(i, j) == image(Column(bpp, x, i % bpp), y)
  {
    var (w', h') := Size(t, w, h);
    ColumnOf(bpp, i, Size(u, w', h').0);
    OriginInside(u, w', h', i / bpp, j);
    var (x', y') := Origin(u, w', h', i / bpp, j);
    OriginInside(t, w, h, x', y');
    ColumnParts(bpp, x', i % bpp);
    hide Column, Origin, Size;
  }

  /** Turning it once. */
  lemma TurnedOnce(t: Turn, image: Image, bpp: nat, w: nat, h: nat, i: nat, j: nat)
    requires bpp > 0 && i < bpp * Size(t, w, h).0 && j < Size(t, w, h).1
    ensures var o := Origin(t, w, h, i / bpp, j);
      0 <= o.0 < w && 0 <= o.1 < h && Turned(t, image, bpp, w, h)(i, j) == image(Column(bpp, o.0, i % bpp), o.1)
  {
    ColumnOf(bpp, i, Size(t, w, h).0);
    OriginInside(t, w, h, i / bpp, j);
    hide Column, Origin, Size;
  }

  /** Both flips and the half turn are their own inverses. */
  lemma Involution(t: Turn, image: Image, bpp: nat, w: nat, h: nat)
    requires bpp > 0 && t != QuarterTurn
    ensures Agree(Turned(t, Turned(t, image, bpp, w, h), bpp, w, h), image, bpp * w, h)
  {
    forall i: nat, j: nat | i < bpp * w && j < h
      ensures Turned(t, Turned(t, image, bpp, w, h), bpp, w, h)(i, j) == image(i, j)
    {
      TurnedTwice(t, t, image, bpp, w, h, i, j);
      ColumnOf(bpp, i, w);
      hide Turned, Column;
    }
  }

  /** The half turn is both flips, in either order. */
  lemma HalfTurnIsBothFlips(image: Image, bpp: nat, w: nat, h: nat)
    requires bpp > 0
    ensures Agree(Turned(HFlip, Turned(VFlip, image, bpp, w, h), bpp, w, h),
                  Turned(HalfTurn, image, bpp, w, h), bpp * w, h)
    ensures Agree(Turned(VFlip, Turned(HFlip, image, bpp, w, h), bpp, w, h),
                  Turned(HalfTurn, image, bpp, w, h), bpp * w, h)
  {
    forall i: nat, j: nat | i < bpp * w && j < h
      ensures Turned(HFlip, Turned(VFlip, image, bpp, w, h), bpp, w, h)(i, j) ==
        Turned(HalfTurn, image, bpp, w, h)(i, j)
      ensures Turned(VFlip, Turned(HFlip, image, bpp, w, h), bpp, w, h)(i, j) ==
        Turned(HalfTurn, image, bpp, w, h)(i, j)
    {
      TurnedTwice(VFlip, HFlip, image, bpp, w, h, i, j);
      TurnedTwice(HFlip, VFlip, image, bpp, w, h, i, j);
      TurnedOnce(HalfTurn, image, bpp, w, h, i, j);
      hide Column, Turned;
    }
  }

  /** Two quarter turns are a half turn. */
  lemma TwoQuarters(image: Image, bpp: nat, w: nat, h: nat)
    requires bpp > 0
    ensures Agree(Turned(QuarterTurn, Turned(QuarterTurn, image, bpp, w, h), bpp, h, w),
                  Turned(HalfTurn, image, bpp, w, h), bpp * w, h)
  {
    forall i: nat, j: nat | i < bpp * w && j < h
      ensures Turned(QuarterTurn, Turned(QuarterTurn, image, bpp, w, h), bpp, h, w)(i, j)
           == Turned(HalfTurn, image, bpp, w, h)(i, j)
    {
      TurnedTwice(QuarterTurn, QuarterTurn, image, bpp, w, h, i, j);
      TurnedOnce(HalfTurn, image, bpp, w, h, i, j);
      hide Column, Turned;
    }
  }

  /** A turn looks at nothing outside the picture. */
  lemma TurnedAgree(t: Turn, a: Image, b: Image, bpp: nat, w: nat, h: nat)
    requires bpp > 0 && Agree(a, b, bpp * w, h)
    ensures Agree(Turned(t, a, bpp, w, h), Turned(t, b, bpp, w, h), bpp * Size(t, w, h).0, Size(t, w, h).1)
  {
    forall i: nat, j: nat | i < bpp * Size(t, w, h).0 && j < Size(t, w, h).1
      ensures Turned(t, a, bpp, w, h)(i, j) == Turned(t, b, bpp, w, h)(i, j)
    {
      TurnedOnce(t, a, bpp, w, h, i, j);
      TurnedOnce(t, b, bpp, w, h, i, j);
      ColumnBound(bpp, Origin(t, w, h, i / bpp, j).0, i % bpp, w);
      hide Column, Origin, Turned;
    }
  }

  // ----- One plane -----

  /** Where the source cursor stands when a plane is begun, and where it is left. */
  function First(t: Turn, v: View, bpp: nat): int {
    match t
    case HFlip => v.base
    case VFlip => v.base + v.Size()
    case HalfTurn => v.base + v.Size() - bpp
    case QuarterTurn => v.base
  }

  function Last(t: Turn, v: View, bpp: nat): int {
    match t
    case HFlip => v.base + v.Size()
    case VFlip => v.base
    case HalfTurn => v.base - bpp
    case QuarterTurn => v.base
  }

  /** Lines from the last to the first. */
  method VFlipPlane(src: seq<byte>, dst: array<byte>, sv: View, base: nat, bpp: nat, w: nat, source: int, dest: nat)
    returns (s: int, d: nat)
    requires bpp > 0 && sv.w == bpp * w && Fits(src, sv) && Fits(dst[..], View(base, sv.w, sv.w, sv.h))
    requires source == First(VFlip, sv, bpp) && dest == base
    modifies dst
    ensures s == Last(VFlip, sv, bpp) && d == base + View(base, sv.w, sv.w, sv.h).Size()
    ensures var dv := View(base, sv.w, sv.w, sv.h);
      Shows(dst[..], dv, Turned(VFlip, ImageOf(src, sv), bpp, w, sv.h)) && Fits(dst[..], dv)
      && Kept(dst[..], old(dst[..]), base, base + dv.Size())
  {
    hide At, Painted, Kept, View.Size, Turned;
    ghost var dv, image := View(base, sv.w, sv.w, sv.h), Turned(VFlip, ImageOf(src, sv), bpp, w, sv.h);
    s, d := source, dest;
    PaintStart(dst[..], dv, image);
    PlaneEnd(dv);
    PlaneEnd(sv);
    var y := 0;
    while y < sv.h
      invariant 0 <= y <= sv.h && d == At(dv, 0, y) && s == At(sv, 0, sv.h - y)
      invariant Painted(dst[..], dv, image, y, 0)
      invariant Kept(dst[..], old(dst[..]), dv.base, dv.base + dv.Size())
    {
      ghost var before := dst[..];
      AtSteps(sv, 0, sv.h - y - 1, sv.w);
      AtSteps(dv, 0, y, dv.w);
      LineBounds(dv, dv.w, y);
      LineBounds(sv, sv.w, sv.h - y - 1);
      s := s - sv.stride;
      Copy(dst, d, src, s, sv.w);
      VFlippedLine(dst[..], dv, src, sv, bpp, w, y);
      PaintSpan(before, dst[..], old(dst[..]), dv, image, y, 0, dv.w);
      PaintLine(dst[..], dv, image, y, dv.w);
      d, y := d + sv.w, y + 1;
    }
    PaintEnd(dst[..], dv, image, y);
  }

  lemma VFlippedLine(d: seq<byte>, dv: View, src: seq<byte>, sv: View, bpp: nat, w: nat, y: nat)
    requires bpp > 0 && dv.w == sv.w == bpp * w && y < sv.h
    requires At(dv, 0, y) + dv.w <= |d| && At(sv, 0, sv.h - 1 - y) + dv.w <= |src|
    requires forall q :: 0 <= q < |d| && At(dv, 0, y) <= q < At(dv, 0, y) + dv.w ==>
      d[q] == src[At(sv, 0, sv.h - 1 - y) + (q - At(dv, 0, y))]
    ensures forall i: nat :: i < dv.w ==> Cell(d, dv, i, y) == Turned(VFlip, ImageOf(src, sv), bpp, w, sv.h)(i, y)
  {
    hide At;
    forall i: nat | i < dv.w
      ensures Cell(d, dv, i, y) == Turned(VFlip, ImageOf(src, sv), bpp, w, sv.h)(i, y)
    {
      TurnedOnce(VFlip, ImageOf(src, sv), bpp, w, sv.h, i, y);
      ColumnOf(bpp, i, w);
      AtSteps(dv, 0, y, i);
      AtSteps(sv, 0, sv.h - 1 - y, i);
      hide Column, Turned;
    }
  }

  /** One pixel moved to its place. */
  lemma TurnedSpan(d: seq<byte>, dv: View, src: seq<byte>, sv: View, t: Turn, bpp: nat, w: nat, h: nat, x: nat, y: nat,
                   x': nat, y': nat)
    requires bpp > 0 && Origin(t, w, h, x, y) == (x', y')
    requires At(dv, bpp * x, y) + bpp <= |d| && At(sv, bpp * x', y') + bpp <= |src|
    requires forall q :: 0 <= q < |d| && At(dv, bpp * x, y) <= q < At(dv, bpp * x, y) + bpp ==>
      d[q] == src[At(sv, bpp * x', y') + (q - At(dv, bpp * x, y))]
    ensures forall i: nat :: bpp * x <= i < bpp * x + bpp ==>
      Cell(d, dv, i, y) == Turned(t, ImageOf(src, sv), bpp, w, h)(i, y)
  {
    hide At, Origin;
    forall i: nat | bpp * x <= i < bpp * x + bpp
      ensures Cell(d, dv, i, y) == Turned(t, ImageOf(src, sv), bpp, w, h)(i, y)
    {
      var c := i - bpp * x;
      ColumnParts(bpp, x, c);
      AtSteps(dv, bpp * x, y, c);
      AtSteps(sv, bpp * x', y', c);
    }
  }

  /** Moving from pixel to pixel. */
  lemma PixelStep(v: View, bpp: nat, w: nat, x: nat, y: nat)
    requires x < w && y < v.h && bpp * w <= v.stride
    ensures bpp * (x + 1) == bpp * x + bpp <= bpp * w
    ensures At(v, bpp * (x + 1), y) == At(v, bpp * x, y) + bpp <= v.base + v.Size()
  {
    hide View.Size;
    MulMonotone(bpp, x + 1, w);
    assert bpp * (x + 1) == bpp * x + bpp;
    AtSteps(v, bpp * x, y, bpp);
    LineBounds(v, bpp * (x + 1), y);
    hide At;
  }

  /** One pixel from the other end of its line. */
  method HFlipPixel(src: seq<byte>, dst: array<byte>, ghost was: seq<byte>, sv: View, ghost dv: View, bpp: nat, w: nat,
                    ghost x: nat, ghost x': nat, ghost y: nat, source: int, dest: nat) returns (s: int, d: nat)
    requires bpp > 0 && sv.w == bpp * w && x + x' + 1 == w && y < sv.h && dv == View(dv.base, sv.w, sv.w, sv.h)
    requires Fits(src, sv) && Fits(dst[..], dv) && source == At(sv, bpp * (x' + 1), y) && dest == At(dv, bpp * x, y)
    requires Painted(dst[..], dv, Turned(HFlip, ImageOf(src, sv), bpp, w, sv.h), y, bpp * x)
    requires Kept(dst[..], was, dv.base, dv.base + dv.Size())
    modifies dst
    ensures s == At(sv, bpp * x', y) && d == At(dv, bpp * (x + 1), y)
    ensures Painted(dst[..], dv, Turned(HFlip, ImageOf(src, sv), bpp, w, sv.h), y, bpp * (x + 1))
    ensures Kept(dst[..], was, dv.base, dv.base + dv.Size())
  {
    hide At, Painted, Kept, View.Size, Turned;
    ghost var before := dst[..];
    PixelStep(dv, bpp, w, x, y);
    PixelStep(sv, bpp, w, x', y);
    s := source - bpp;
    Copy(dst, dest, src, s, bpp);
    TurnedSpan(dst[..], dv, src, sv, HFlip, bpp, w, sv.h, x, y, x', y);
    PaintSpan(before, dst[..], was, dv, Turned(HFlip, ImageOf(src, sv), bpp, w, sv.h), y, bpp * x, bpp);
    d := dest + bpp;
  }

  /** The pixels of one line from the last to the first. */
  method HFlipLine(src: seq<byte>, dst: array<byte>, ghost was: seq<byte>, sv: View, ghost dv: View, bpp: nat, w: nat,
                   ghost y: nat, source: int, dest: nat) returns (s: int, d: nat)
    requires bpp > 0 && sv.w == bpp * w && y < sv.h && dv == View(dv.base, sv.w, sv.w, sv.h)
    requires Fits(src, sv) && Fits(dst[..], dv) && source == At(sv, sv.w, y) && dest == At(dv, 0, y)
    requires Painted(dst[..], dv, Turned(HFlip, ImageOf(src, sv), bpp, w, sv.h), y, 0)
    requires Kept(dst[..], was, dv.base, dv.base + dv.Size())
    modifies dst
    ensures s == At(sv, 0, y) && d == At(dv, dv.w, y)
    ensures Painted(dst[..], dv, Turned(HFlip, ImageOf(src, sv), bpp, w, sv.h), y + 1, 0)
    ensures Kept(dst[..], was, dv.base, dv.base + dv.Size())
  {
    hide At, Painted, Kept, View.Size, Turned;
    ghost var image := Turned(HFlip, ImageOf(src, sv), bpp, w, sv.h);
    s, d := source, dest;
    var x := 0;
    while x < w
      invariant 0 <= x <= w && d == At(dv, bpp * x, y) && s == At(sv, bpp * (w - x), y)
      invariant Painted(dst[..], dv, image, y, bpp * x) && Kept(dst[..], was, dv.base, dv.base + dv.Size())
    {
      s, d := HFlipPixel(src, dst, was, sv, dv, bpp, w, x, w - 1 - x, y, s, d);
      x := x + 1;
    }
    PaintLine(dst[..], dv, image, y, bpp * x);
  }

  /** Pixels of each line from the last to the first. */
  method HFlipPlane(src: seq<byte>, dst: array<byte>, sv: View, base: nat, bpp: nat, w: nat, source: int, dest: nat)
    returns (s: int, d: nat)
    requires bpp > 0 && sv.w == bpp * w && Fits(src, sv) && Fits(dst[..], View(base, sv.w, sv.w, sv.h))
    requires source == First(HFlip, sv, bpp) && dest == base
    modifies dst
    ensures s == Last(HFlip, sv, bpp) && d == base + View(base, sv.w, sv.w, sv.h).Size()
    ensures var dv := View(base, sv.w, sv.w, sv.h);
      Shows(dst[..], dv, Turned(HFlip, ImageOf(src, sv), bpp, w, sv.h)) && Fits(dst[..], dv)
      && Kept(dst[..], old(dst[..]), base, base + dv.Size())
  {
    hide At, Painted, Kept, View.Size, Turned;
    ghost var dv, image := View(base, sv.w, sv.w, sv.h), Turned(HFlip, ImageOf(src, sv), bpp, w, sv.h);
    ghost var was := dst[..];
    s, d := source, dest;
    PaintStart(dst[..], dv, image);
    PlaneEnd(dv);
    PlaneEnd(sv);
    var y := 0;
    while y < sv.h
      invariant 0 <= y <= sv.h && d == At(dv, 0, y) && s == At(sv, 0, y)
      invariant Painted(dst[..], dv, image, y, 0) && Kept(dst[..], was, dv.base, dv.base + dv.Size())
    {
      AtSteps(sv, 0, y, sv.w);
      s := s + sv.w;
      s, d := HFlipLine(src, dst, was, sv, dv, bpp, w, y, s, d);
      AtSteps(dv, 0, y, sv.w);
      AtSteps(dv, 0, y, 0);
      AtSteps(sv, 0, y, 0);
      s, y := s + sv.stride, y + 1;
    }
    PaintEnd(dst[..], dv, image, y);
  }

  /** A packed plane of `w` by `h` pixels. */
  function PackedView(base: nat, bpp: nat, w: nat, h: nat): View { View(base, bpp * w, bpp * w, h) }

  /** In a packed plane the pixels are consecutive, forwards and backwards. */
  lemma LinearAt(base: nat, bpp: nat, w: nat, h: nat, x: nat, y: nat, x': nat, y': nat)
    requires x < w && y < h && x' == w - 1 - x && y' == h - 1 - y
    ensures At(PackedView(base, bpp, w, h), bpp * x, y) == base + bpp * (y * w + x)
    ensures At(PackedView(base, bpp, w, h), bpp * x', y') == base + bpp * (w * h - 1 - (y * w + x))
  {
    PackedAt(base, bpp, w, h, x, y);
    PackedAt(base, bpp, w, h, x', y');
    assert y' * w + x' == w * h - 1 - (y * w + x) by {
      assert (h - 1 - y) * w == w * h - w - y * w;
    }
  }

  lemma PackedAt(base: nat, bpp: nat, w: nat, h: nat, x: nat, y: nat)
    ensures At(PackedView(base, bpp, w, h), bpp * x, y) == base + bpp * (y * w + x)
  {
    assert y * (bpp * w) == bpp * (y * w);
    assert bpp * (y * w) + bpp * x == bpp * (y * w + x);
  }

  lemma EmptyShows(d: seq<byte>, v: View, image: Image, y: nat, x: nat)
    requires Painted(d, v, image, y, x) && (v.w == 0 || y >= v.h)
    ensures Shows(d, v, image) && Fits(d, v)
  {
  }

  lemma PixelsIn(y: nat, x: nat, w: nat, h: nat)
    requires x < w && y <= h
    ensures y * w + x < w * h ==> y < h
    ensures y * w + x == w * h ==> y == h && x == 0
    ensures y < h ==> y * w + x < w * h
  {
    if y < h {
      MulMonotone(w, y + 1, h);
    }
  }

  /** The pixel behind this one in reading order. */
  function CursorNext(w: nat, x: nat, y: nat): (nat, nat) {
    if x + 1 == w then (0, y + 1) else (x + 1, y)
  }

  lemma CursorStep(w: nat, x: nat, y: nat)
    requires x < w
    ensures var n := CursorNext(w, x, y); n.0 < w && n.1 * w + n.0 == y * w + x + 1
  {
  }

  /** One pixel of a packed plane put where the one opposite to it is. */
  method HalfTurnPixel(src: seq<byte>, dst: array<byte>, ghost was: seq<byte>, ghost sv: View, ghost dv: View, bpp: nat,
                       ghost w: nat, ghost h: nat, ghost x: nat, ghost y: nat, ghost sx: nat, ghost sy: nat, s: int,
                       d: nat)
    returns (ghost x': nat, ghost y': nat)
    requires bpp > 0 && x + sx + 1 == w && y + sy + 1 == h && Fits(src, sv) && Fits(dst[..], dv)
    requires sv == PackedView(sv.base, bpp, w, h) && dv == PackedView(dv.base, bpp, w, h)
    requires s == At(sv, bpp * sx, sy) && d == At(dv, bpp * x, y)
    requires Painted(dst[..], dv, Turned(HalfTurn, ImageOf(src, sv), bpp, w, h), y, bpp * x)
    requires Kept(dst[..], was, dv.base, dv.base + dv.Size())
    modifies dst
    ensures (x', y') == CursorNext(w, x, y)
    ensures Painted(dst[..], dv, Turned(HalfTurn, ImageOf(src, sv), bpp, w, h), y', bpp * x')
    ensures Kept(dst[..], was, dv.base, dv.base + dv.Size())
  {
    hide At, Painted, Kept, View.Size, Turned;
    ghost var before, image := dst[..], Turned(HalfTurn, ImageOf(src, sv), bpp, w, h);
    PixelStep(dv, bpp, w, x, y);
    PixelStep(sv, bpp, w, sx, sy);
    Copy(dst, d, src, s, bpp);
    TurnedSpan(dst[..], dv, src, sv, HalfTurn, bpp, w, h, x, y, sx, sy);
    PaintSpan(before, dst[..], was, dv, image, y, bpp * x, bpp);
    x', y' := x + 1, y;
    if x' == w {
      PaintLine(dst[..], dv, image, y, bpp * x');
      x', y' := 0, y + 1;
    }
  }

  /** All pixels of a packed plane in reverse. */
  method HalfTurnPlane(src: seq<byte>, dst: array<byte>, sbase: nat, dbase: nat, bpp: nat, w: nat, h: nat,
                       source: int, dest: nat) returns (s: int, d: nat)
    requires bpp > 0 && Fits(src, PackedView(sbase, bpp, w, h)) && Fits(dst[..], PackedView(dbase, bpp, w, h))
    requires source == First(HalfTurn, PackedView(sbase, bpp, w, h), bpp) && dest == dbase
    modifies dst
    ensures s == Last(HalfTurn, PackedView(sbase, bpp, w, h), bpp) && d == dbase + PackedView(dbase, bpp, w, h).Size()
    ensures var dv := PackedView(dbase, bpp, w, h);
      Shows(dst[..], dv, Turned(HalfTurn, ImageOf(src, PackedView(sbase, bpp, w, h)), bpp, w, h)) && Fits(dst[..], dv)
      && Kept(dst[..], old(dst[..]), dbase, dbase + dv.Size())
  {
    hide At, Painted, Kept, View.Size, Turned;
    ghost var sv, dv := PackedView(sbase, bpp, w, h), PackedView(dbase, bpp, w, h);
    ghost var image, was := Turned(HalfTurn, ImageOf(src, sv), bpp, w, h), dst[..];
    var n := w * h;
    s, d := source, dest;
    PixelCount(sbase, bpp, w, h);
    PixelCount(dbase, bpp, w, h);
    ghost var x, y := 0, 0;
    PaintStart(dst[..], dv, image);
    var i := 0;
    while i < n
      invariant 0 <= i <= n && 0 <= x && 0 <= y <= h && i == y * w + x && (w > 0 ==> x < w)
      invariant d == dbase + bpp * i && s == sbase + bpp * (n - 1 - i)
      invariant Painted(dst[..], dv, image, y, bpp * x) && Kept(dst[..], was, dbase, dbase + dv.Size())
    {
      PixelsIn(y, x, w, h);
      LinearAt(dbase, bpp, w, h, x, y, w - 1 - x, h - 1 - y);
      LinearAt(sbase, bpp, w, h, x, y, w - 1 - x, h - 1 - y);
      NextPixel(bpp, i, n);
      CursorStep(w, x, y);
      x, y := HalfTurnPixel(src, dst, was, sv, dv, bpp, w, h, x, y, w - 1 - x, h - 1 - y, s, d);
      d, s, i := d + bpp, s - bpp, i + 1;
    }
    if w > 0 {
      PixelsIn(y, x, w, h);
    }
    EmptyShows(dst[..], dv, image, y, bpp * x);
  }

  /** A packed plane has as many bytes as its pixels. */
  lemma PixelCount(base: nat, bpp: nat, w: nat, h: nat)
    ensures PackedView(base, bpp, w, h).Size() == bpp * (w * h) && bpp * (w * h - 1) == bpp * (w * h) - bpp
  {
    assert h * (bpp * w) == bpp * (w * h);
  }

  lemma NextPixel(bpp: nat, i: nat, n: nat)
    ensures bpp * (i + 1) == bpp * i + bpp && bpp * (n - 1 - (i + 1)) == bpp * (n - 1 - i) - bpp
  {
  }

  /** The offset the quarter turn computes for each pixel. */
  lemma QuarterAt(base: nat, bpp: nat, dw: nat, dh: nat, x: nat, y: nat)
    requires x < dw && y < dh
    ensures At(PackedView(base, bpp, dh, dw), bpp * y, dw - 1 - x) == base + ((dw - x - 1) * dh + y) * bpp
  {
    assert (dw - 1 - x) * (bpp * dh) == bpp * ((dw - 1 - x) * dh);
  }

  method QuarterTurnPlane(src: seq<byte>, dst: array<byte>, sbase: nat, dbase: nat, bpp: nat, destWidth: nat,
                          destHeight: nat, dest: nat) returns (d: nat)
    requires bpp > 0 && Fits(src, PackedView(sbase, bpp, destHeight, destWidth))
    requires Fits(dst[..], PackedView(dbase, bpp, destWidth, destHeight))
    requires dest == dbase
    modifies dst
    ensures d == dbase + PackedView(dbase, bpp, destWidth, destHeight).Size()
    ensures var dv := PackedView(dbase, bpp, destWidth, destHeight);
      Shows(dst[..], dv, Turned(QuarterTurn, ImageOf(src, PackedView(sbase, bpp, destHeight, destWidth)),
                                bpp, destHeight, destWidth))
      && Fits(dst[..], dv) && Kept(dst[..], old(dst[..]), dbase, dbase + dv.Size())
  {
    hide At, Painted, Kept, View.Size, Turned;
    ghost var sv, dv := PackedView(sbase, bpp, destHeight, destWidth), PackedView(dbase, bpp, destWidth, destHeight);
    ghost var image, was := Turned(QuarterTurn, ImageOf(src, sv), bpp, destHeight, destWidth), dst[..];
    d := dest;
    PaintStart(dst[..], dv, image);
    PlaneEnd(dv);
    var y := 0;
    while y < destHeight
      invariant 0 <= y <= destHeight && d == At(dv, 0, y)
      invariant Painted(dst[..], dv, image, y, 0) && Kept(dst[..], was, dbase, dbase + dv.Size())
    {
      var x := 0;
      while x < destWidth
        invariant 0 <= x <= destWidth && d == At(dv, bpp * x, y)
        invariant Painted(dst[..], dv, image, y, bpp * x) && Kept(dst[..], was, dbase, dbase + dv.Size())
      {
        ghost var before := dst[..];
        var offset := ((destWidth - x - 1) * destHeight + y) * bpp;
        QuarterAt(sbase, bpp, destWidth, destHeight, x, y);
        PixelStep(dv, bpp, destWidth, x, y);
        PixelStep(sv, bpp, destHeight, y, destWidth - 1 - x);
        Copy(dst, d, src, sbase + offset, bpp);
        TurnedSpan(dst[..], dv, src, sv, QuarterTurn, bpp, destHeight, destWidth, x, y, y, destWidth - 1 - x);
        PaintSpan(before, dst[..], was, dv, image, y, bpp * x, bpp);
        d, x := d + bpp, x + 1;
      }
      PaintLine(dst[..], dv, image, y, bpp * x);
      AtSteps(dv, 0, y, bpp * destWidth);
      AtSteps(dv, 0, y, 0);
      y := y + 1;
    }
    PaintEnd(dst[..], dv, image, y);
  }

  // ----- Frames -----

  /** The target plane of a turn: packed, with the sides exchanged by a quarter turn. */
  function Target(t: Turn, base: nat, bpp: nat, w: nat, h: nat): View {
    PackedView(base, bpp, Size(t, w, h).0, Size(t, w, h).1)
  }

  /** Any turn of a plane; the half and quarter turns take the source for packed. */
  method TurnPlane(t: Turn, src: seq<byte>, dst: array<byte>, sv: View, base: nat, bpp: nat, w: nat, source: int,
                   dest: nat)
    returns (s: int, d: nat)
    requires bpp > 0 && sv.w == bpp * w && Fits(src, sv) && (t == HalfTurn || t == QuarterTurn ==> sv.stride == sv.w)
    requires Fits(dst[..], Target(t, base, bpp, w, sv.h))
    requires source == First(t, sv, bpp) && dest == base
    modifies dst
    ensures s == Last(t, sv, bpp) && d == base + Target(t, base, bpp, w, sv.h).Size()
    ensures Shows(dst[..], Target(t, base, bpp, w, sv.h), Turned(t, ImageOf(src, sv), bpp, w, sv.h))
    ensures Fits(dst[..], Target(t, base, bpp, w, sv.h))
    ensures Kept(dst[..], old(dst[..]), base, base + Target(t, base, bpp, w, sv.h).Size())
  {
    hide Shows, Kept, Fits, Turned, View.Size;
    match t {
      case HFlip => s, d := HFlipPlane(src, dst, sv, base, bpp, w, source, dest);
      case VFlip => s, d := VFlipPlane(src, dst, sv, base, bpp, w, source, dest);
      case HalfTurn =>
        assert sv == PackedView(sv.base, bpp, w, sv.h);
        s, d := HalfTurnPlane(src, dst, sv.base, base, bpp, w, sv.h, source, dest);
      case QuarterTurn =>
        assert sv == PackedView(sv.base, bpp, w, sv.h);
        s := source;
        d := QuarterTurnPlane(src, dst, s, base, bpp, sv.h, w, dest);
    }
  }

  /** A plane of single bytes. */
  method TurnBytes(t: Turn, src: seq<byte>, dst: array<byte>, sv: View, dv: View, source: int, dest: nat)
    returns (s: int, d: nat)
    requires Fits(src, sv) && (t == HalfTurn || t == QuarterTurn ==> sv.stride == sv.w)
    requires Fits(dst[..], dv) && PackedShape(t, dv, sv.w, sv.h)
    requires source == First(t, sv, 1) && dest == dv.base
    modifies dst
    ensures s == Last(t, sv, 1) && d == dv.base + dv.Size()
    ensures Shows(dst[..], dv, Turned(t, ImageOf(src, sv), 1, sv.w, sv.h)) && Fits(dst[..], dv)
    ensures Kept(dst[..], old(dst[..]), dv.base, dv.base + dv.Size())
  {
    s, d := TurnPlane(t, src, dst, sv, dv.base, 1, sv.w, source, dest);
  }

  /** `v4lconvert_fixup_fmt`: what is written has no padding. */
  function FixedUp(format: PixelFormat, f: Format): Format {
    Format(f.width, f.height, if format.Rgb24? then 3 * f.width else f.width)
  }

  /** The format after a turn. */
  function After(t: Turn, format: PixelFormat, f: Format): Format {
    FixedUp(format, Format(Size(t, f.width, f.height).0, Size(t, f.width, f.height).1, f.bytesperline))
  }

  predicate FrameFits(format: PixelFormat, s: seq<byte>, f: Format) {
    if format.Rgb24? then Rgb24Frame(s, f) else Yuv420Frame(s, f)
  }

  function PlaneCount(format: PixelFormat): nat { if format.Rgb24? then 1 else 3 }

  function Bpp(format: PixelFormat): (n: nat)
    ensures n > 0
  {
    if format.Rgb24? then 3 else 1
  }

  function PlaneOf(format: PixelFormat, f: Format, k: nat): View {
    if format.Rgb24? then Rgb(f) else if k == 0 then Luma(f) else if k == 1 then Chroma1(f) else Chroma2(f)
  }

  /** The size of plane `k` in pixels. */
  function PlaneSize(f: Format, k: nat): (nat, nat) {
    if k == 0 then (f.width, f.height) else (f.width / 2, f.height / 2)
  }

  ghost predicate PlaneTurned(t: Turn, format: PixelFormat, d: seq<byte>, df: Format, s: seq<byte>, sf: Format,
                              k: nat) {
    Shows(d, PlaneOf(format, df, k),
          Turned(t, ImageOf(s, PlaneOf(format, sf, k)), Bpp(format), PlaneSize(sf, k).0, PlaneSize(sf, k).1))
  }

  /** Every plane of `d` is the turned plane of `s`. */
  ghost predicate FrameTurned(t: Turn, format: PixelFormat, d: seq<byte>, df: Format, s: seq<byte>, sf: Format) {
    forall k: nat :: k < PlaneCount(format) ==> PlaneTurned(t, format, d, df, s, sf, k)
  }

  /** Every plane of `d` is that of `s`. */
  ghost predicate FrameSame(format: PixelFormat, d: seq<byte>, df: Format, s: seq<byte>, sf: Format) {
    && df.width == sf.width && df.height == sf.height
    && forall k: nat :: k < PlaneCount(format) ==> Shows(d, PlaneOf(format, df, k), ImageOf(s, PlaneOf(format, sf, k)))
  }

  method TurnYuv420(t: Turn, src: seq<byte>, dest: array<byte>, f: Format)
    requires Yuv420Frame(src, f) && Yuv420Frame(dest[..], After(t, Yuv420, f))
    requires t == HalfTurn || t == QuarterTurn ==> f.bytesperline == f.width
    modifies dest
    ensures FrameTurned(t, Yuv420, dest[..], After(t, Yuv420, f), src, f)
    ensures Kept(dest[..], old(dest[..]), 0, FrameSize(After(t, Yuv420, f)))
  {
    hide Shows, Kept, Fits, Turned, View.Size, FrameSize, FrameTurned, PlaneTurned;
    var df := After(t, Yuv420, f);
    TurnViews(t, f, src);
    CursorSteps(t, f);
    hide Luma, Chroma1, Chroma2, Yuv420Frame, After, Even, First, Last, Begin, Between1, Between2;
    FramePlanes(src, f);
    ghost var d0 := dest[..];
    FramePlanes(d0, df);
    var s, d := TurnBytes(t, src, dest, Luma(f), Luma(df), Begin(t, f), 0);
    s := s + Between1(t, f);
    ghost var d1 := dest[..];
    SameFrame(d0, d1, df);
    FramePlanes(d1, df);
    s, d := TurnBytes(t, src, dest, Chroma1(f), Chroma1(df), s, d);
    s := s + Between2(t, f);
    ghost var d2 := dest[..];
    SameFrame(d0, d2, df);
    FramePlanes(d2, df);
    s, d := TurnBytes(t, src, dest, Chroma2(f), Chroma2(df), s, d);
    ThreePlanes(d0, d1, d2, dest[..], Luma(df), Chroma1(df), Chroma2(df),
                Turned(t, ImageOf(src, Luma(f)), 1, f.width, f.height),
                Turned(t, ImageOf(src, Chroma1(f)), 1, f.width / 2, f.height / 2),
                Turned(t, ImageOf(src, Chroma2(f)), 1, f.width / 2, f.height / 2));
    AllTurned(t, dest[..], df, src, f);
  }

  lemma AllTurned(t: Turn, d: seq<byte>, df: Format, s: seq<byte>, f: Format)
    requires Shows(d, Luma(df), Turned(t, ImageOf(s, Luma(f)), 1, f.width, f.height))
    requires Shows(d, Chroma1(df), Turned(t, ImageOf(s, Chroma1(f)), 1, f.width / 2, f.height / 2))
    requires Shows(d, Chroma2(df), Turned(t, ImageOf(s, Chroma2(f)), 1, f.width / 2, f.height / 2))
    ensures FrameTurned(t, Yuv420, d, df, s, f)
  {
    hide Shows, Turned, Luma, Chroma1, Chroma2, ImageOf;
  }

  /** The source cursor of a frame at its start, and its steps between the planes. */
  function Begin(t: Turn, f: Format): int {
    match t
    case HFlip => 0
    case VFlip => f.height * f.bytesperline
    case HalfTurn => f.width * f.height - 1
    case QuarterTurn => 0
  }

  function Between1(t: Turn, f: Format): int {
    match t
    case HFlip => 0
    case VFlip => f.height * f.bytesperline * 5 / 4
    case HalfTurn => f.width * f.height * 5 / 4
    case QuarterTurn => f.width * f.height
  }

  function Between2(t: Turn, f: Format): int {
    match t
    case HFlip => 0
    case VFlip => f.height * f.bytesperline / 2
    case HalfTurn => f.width * f.height / 2
    case QuarterTurn => f.width / 2 * (f.height / 2)
  }

  lemma CursorSteps(t: Turn, f: Format)
    requires Even(f) && (t == HalfTurn || t == QuarterTurn ==> f.bytesperline == f.width)
    ensures Begin(t, f) == First(t, Luma(f), 1)
    ensures Last(t, Luma(f), 1) + Between1(t, f) == First(t, Chroma1(f), 1)
    ensures Last(t, Chroma1(f), 1) + Between2(t, f) == First(t, Chroma2(f), 1)
  {
    PlanesAdjoin(f);
    var a, b := f.height / 2, f.bytesperline / 2;
    assert f.height * f.bytesperline == 4 * (a * b) by {
      assert f.height == 2 * a && f.bytesperline == 2 * b;
    }
  }

  lemma TurnViews(t: Turn, f: Format, s: seq<byte>)
    requires Yuv420Frame(s, f)
    ensures var df := After(t, Yuv420, f);
      && Luma(f).w == f.width && Luma(f).h == f.height && Luma(df).base == 0
      && Chroma1(f).w == Chroma2(f).w == f.width / 2 && Chroma1(f).h == Chroma2(f).h == f.height / 2
      && (f.bytesperline == f.width ==>
            Luma(f).stride == Luma(f).w && Chroma1(f).stride == Chroma1(f).w && Chroma2(f).stride == Chroma2(f).w)
      && PackedShape(t, Luma(df), f.width, f.height) && PackedShape(t, Chroma1(df), f.width / 2, f.height / 2)
      && PackedShape(t, Chroma2(df), f.width / 2, f.height / 2)
  {
  }

  predicate PackedShape(t: Turn, v: View, w: nat, h: nat) {
    v.w == v.stride == Size(t, w, h).0 && v.h == Size(t, w, h).1
  }

  method TurnFrame(t: Turn, src: seq<byte>, dest: array<byte>, format: PixelFormat, f: Format)
    requires FrameFits(format, src, f) && FrameFits(format, dest[..], After(t, format, f))
    requires t == HalfTurn || t == QuarterTurn ==> f == FixedUp(format, f)
    modifies dest
    ensures FrameTurned(t, format, dest[..], After(t, format, f), src, f)
  {
    if format.Rgb24? {
      hide Shows, Kept, Turned;
      var _, _ := TurnPlane(t, src, dest, Rgb(f), 0, 3, f.width, First(t, Rgb(f), 3), 0);
    } else {
      hide FrameTurned, Kept;
      TurnYuv420(t, src, dest, f);
    }
  }

  /** `v4lconvert_flip`: both flips at once are done as a half turn, which takes the frame for packed. */
  method FlipFrame(src: seq<byte>, dest: array<byte>, format: PixelFormat, f: Format, hflip: bool, vflip: bool)
    returns (f': Format)
    requires FrameFits(format, src, f) && FrameFits(format, dest[..], FixedUp(format, f))
    modifies dest
    ensures f' == FixedUp(format, f) == Format(f.width, f.height, if format.Rgb24? then 3 * f.width else f.width)
    ensures hflip && vflip ==> FrameTurned(HalfTurn, format, dest[..], f', src, f')
    ensures hflip && vflip ==> (FrameTurned(HalfTurn, format, dest[..], f', src, f)
                                <==> TurnRight(HalfTurn, format, src, f))
    ensures hflip && !vflip ==> FrameTurned(HFlip, format, dest[..], f', src, f)
    ensures !hflip && vflip ==> FrameTurned(VFlip, format, dest[..], f', src, f)
    ensures !hflip && !vflip ==> dest[..] == old(dest[..])
  {
    f' := FixedUp(format, f);
    if vflip && hflip {
      PackedFits(format, src, f);
      TurnFrame(HalfTurn, src, dest, format, f');
      TurnRightIs(HalfTurn, format, src, f, dest[..]);
    } else if hflip {
      TurnFrame(HFlip, src, dest, format, f);
    } else if vflip {
      TurnFrame(VFlip, src, dest, format, f);
    }
  }

  lemma PackedFits(format: PixelFormat, s: seq<byte>, f: Format)
    requires FrameFits(format, s, f)
    ensures FrameFits(format, s, FixedUp(format, f))
  {
    MulMonotone(f.height, FixedUp(format, f).bytesperline, f.bytesperline);
  }

  /** `v4lconvert_rotate90`. */
  method Rotate90Frame(src: seq<byte>, dest: array<byte>, format: PixelFormat, f: Format) returns (f': Format)
    requires FrameFits(format, src, FixedUp(format, f)) && FrameFits(format, dest[..], After(QuarterTurn, format, f))
    modifies dest
    ensures f' == After(QuarterTurn, format, f)
    ensures f' == Format(f.height, f.width, if format.Rgb24? then 3 * f.height else f.height)
    ensures FrameTurned(QuarterTurn, format, dest[..], f', src, FixedUp(format, f))
    ensures FrameTurned(QuarterTurn, format, dest[..], f', src, f) <==> TurnRight(QuarterTurn, format, src, f)
  {
    f' := After(QuarterTurn, format, f);
    TurnFrame(QuarterTurn, src, dest, format, FixedUp(format, f));
    TurnRightIs(QuarterTurn, format, src, f, dest[..]);
  }

  // ----- Laws for frames -----

  lemma Replace(e: seq<byte>, v: View, a: Image, b: Image)
    requires Shows(e, v, a) && Agree(a, b, v.w, v.h)
    ensures Shows(e, v, b)
  {
  }

  /** A frame turned twice shows the composition. */
  lemma Chain(t: Turn, u: Turn, s: seq<byte>, sv: View, d: seq<byte>, dv: View, e: seq<byte>, ev: View, bpp: nat,
              w: nat, h: nat)
    requires bpp > 0 && Shows(d, dv, Turned(t, ImageOf(s, sv), bpp, w, h))
    requires var (w', h') := Size(t, w, h);
      && dv.w == bpp * w' && dv.h == h' && ev.w == bpp * Size(u, w', h').0 && ev.h == Size(u, w', h').1
      && Shows(e, ev, Turned(u, ImageOf(d, dv), bpp, w', h'))
    ensures var (w', h') := Size(t, w, h);
      Shows(e, ev, Turned(u, Turned(t, ImageOf(s, sv), bpp, w, h), bpp, w', h'))
  {
    var (w', h') := Size(t, w, h);
    TurnedAgree(u, ImageOf(d, dv), Turned(t, ImageOf(s, sv), bpp, w, h), bpp, w', h');
    Replace(e, ev, Turned(u, ImageOf(d, dv), bpp, w', h'),
            Turned(u, Turned(t, ImageOf(s, sv), bpp, w, h), bpp, w', h'));
  }

  /** The planes of a packed frame are as large as their pixels. */
  lemma PlaneShape(t: Turn, format: PixelFormat, f: Format, k: nat)
    requires k < PlaneCount(format) && (format.Yuv420? ==> Even(FixedUp(format, f)))
    ensures var (v, p) := (PlaneOf(format, After(t, format, f), k), Size(t, PlaneSize(f, k).0, PlaneSize(f, k).1));
      v.w == Bpp(format) * p.0 && v.h == p.1 && PlaneSize(After(t, format, f), k) == p
  {
  }

  /** Flipping a frame twice the same way, or turning it half round twice, gives it back. */
  lemma TwiceIsNothing(t: Turn, format: PixelFormat, s: seq<byte>, sf: Format, d: seq<byte>, e: seq<byte>)
    requires t != QuarterTurn && (format.Yuv420? ==> Even(sf))
    requires var f := FixedUp(format, sf); FrameTurned(t, format, d, f, s, sf) && FrameTurned(t, format, e, f, d, f)
    ensures FrameSame(format, e, FixedUp(format, sf), s, sf)
  {
    var f := FixedUp(format, sf);
    forall k: nat | k < PlaneCount(format)
      ensures Shows(e, PlaneOf(format, f, k), ImageOf(s, PlaneOf(format, sf, k)))
    {
      assert PlaneTurned(t, format, d, f, s, sf, k) && PlaneTurned(t, format, e, f, d, f, k);
      var (w, h) := PlaneSize(sf, k);
      PlaneShape(t, format, sf, k);
      var image := ImageOf(s, PlaneOf(format, sf, k));
      hide Shows, Turned, PlaneOf;
      Chain(t, t, s, PlaneOf(format, sf, k), d, PlaneOf(format, f, k), e, PlaneOf(format, f, k), Bpp(format), w, h);
      Involution(t, image, Bpp(format), w, h);
      Replace(e, PlaneOf(format, f, k), Turned(t, Turned(t, image, Bpp(format), w, h), Bpp(format), w, h), image);
    }
  }

  /** Flipping one way and then the other is the half turn, for a frame without padding. */
  lemma BothFlips(format: PixelFormat, s: seq<byte>, f: Format, d: seq<byte>, e: seq<byte>, first: Turn, second: Turn)
    requires f == FixedUp(format, f) && (format.Yuv420? ==> Even(f))
    requires (first, second) == (HFlip, VFlip) || (first, second) == (VFlip, HFlip)
    requires FrameTurned(first, format, d, f, s, f) && FrameTurned(second, format, e, f, d, f)
    ensures FrameTurned(HalfTurn, format, e, f, s, f)
  {
    forall k: nat | k < PlaneCount(format)
      ensures PlaneTurned(HalfTurn, format, e, f, s, f, k)
    {
      assert PlaneTurned(first, format, d, f, s, f, k) && PlaneTurned(second, format, e, f, d, f, k);
      var (w, h) := PlaneSize(f, k);
      PlaneShape(first, format, f, k);
      var image := ImageOf(s, PlaneOf(format, f, k));
      hide Shows, Turned, PlaneOf;
      Chain(first, second, s, PlaneOf(format, f, k), d, PlaneOf(format, f, k), e, PlaneOf(format, f, k), Bpp(format),
            w, h);
      HalfTurnIsBothFlips(image, Bpp(format), w, h);
      Replace(e, PlaneOf(format, f, k), Turned(second, Turned(first, image, Bpp(format), w, h), Bpp(format), w, h),
              Turned(HalfTurn, image, Bpp(format), w, h));
    }
  }

  /** Byte `c` of pixel (x, y) of a plane. */
  function ByteAt(s: seq<byte>, format: PixelFormat, f: Format, k: nat, x: nat, y: nat, c: nat): byte {
    Cell(s, PlaneOf(format, f, k), Bpp(format) * x + c, y)
  }

  /** Which byte of the source a turn puts there. */
  lemma PlaceTurned(t: Turn, format: PixelFormat, s: seq<byte>, f: Format, d: seq<byte>, k: nat, x: nat, y: nat, c: nat)
    requires format.Yuv420? ==> Even(FixedUp(format, f))
    requires FrameTurned(t, format, d, After(t, format, f), s, f)
    requires k < PlaneCount(format) && c < Bpp(format)
    requires x < Size(t, PlaneSize(f, k).0, PlaneSize(f, k).1).0 && y < Size(t, PlaneSize(f, k).0, PlaneSize(f, k).1).1
    ensures var o := Origin(t, PlaneSize(f, k).0, PlaneSize(f, k).1, x, y);
      && 0 <= o.0 && 0 <= o.1
      && ByteAt(d, format, After(t, format, f), k, x, y, c) == ByteAt(s, format, f, k, o.0, o.1, c)
  {
    var (w, h) := PlaneSize(f, k);
    PlaneShape(t, format, f, k);
    assert PlaneTurned(t, format, d, After(t, format, f), s, f, k);
    hide Turned, PlaneOf, Origin, Shows, FrameTurned, FixedUp, After, Bpp, Cell;
    PixelTurned(t, s, PlaneOf(format, f, k), d, PlaneOf(format, After(t, format, f), k), Bpp(format), w, h, x, y, c);
  }

  lemma PixelTurned(t: Turn, s: seq<byte>, sv: View, d: seq<byte>, dv: View, bpp: nat, w: nat, h: nat, x: nat, y: nat,
                    c: nat)
    requires c < bpp && x < Size(t, w, h).0 && y < Size(t, w, h).1
    requires dv.w == bpp * Size(t, w, h).0 && dv.h == Size(t, w, h).1
    requires Shows(d, dv, Turned(t, ImageOf(s, sv), bpp, w, h))
    ensures var o := Origin(t, w, h, x, y);
      0 <= o.0 && 0 <= o.1 && Cell(d, dv, bpp * x + c, y) == Cell(s, sv, bpp * o.0 + c, o.1)
  {
    var i := Column(bpp, x, c);
    ColumnParts(bpp, x, c);
    ColumnBound(bpp, x, c, Size(t, w, h).0);
    TurnedOnce(t, ImageOf(s, sv), bpp, w, h, i, y);
    hide Turned, Origin, Cell;
    assert Cell(d, dv, i, y) == Turned(t, ImageOf(s, sv), bpp, w, h)(i, y);
  }

  /** The flips: one keeps the lines and mirrors the columns, the other keeps the columns and mirrors the lines. */
  lemma FlipsMirror(format: PixelFormat, s: seq<byte>, f: Format, d: seq<byte>, k: nat, x: nat, y: nat, c: nat)
    requires format.Yuv420? ==> Even(FixedUp(format, f))
    requires k < PlaneCount(format) && c < Bpp(format) && x < PlaneSize(f, k).0 && y < PlaneSize(f, k).1
    ensures var (w, h) := PlaneSize(f, k);
      && (FrameTurned(HFlip, format, d, FixedUp(format, f), s, f) ==>
            ByteAt(d, format, FixedUp(format, f), k, x, y, c) == ByteAt(s, format, f, k, w - 1 - x, y, c))
      && (FrameTurned(VFlip, format, d, FixedUp(format, f), s, f) ==>
            ByteAt(d, format, FixedUp(format, f), k, x, y, c) == ByteAt(s, format, f, k, x, h - 1 - y, c))
  {
    hide FrameTurned, ByteAt;
    if FrameTurned(HFlip, format, d, FixedUp(format, f), s, f) {
      PlaceTurned(HFlip, format, s, f, d, k, x, y, c);
    }
    if FrameTurned(VFlip, format, d, FixedUp(format, f), s, f) {
      PlaceTurned(VFlip, format, s, f, d, k, x, y, c);
    }
  }

  /** A quarter turn and a horizontal flip together exchange columns and lines: the turn is to the right. */
  lemma TurnAndFlipTranspose(format: PixelFormat, s: seq<byte>, f: Format, d: seq<byte>, e: seq<byte>, k: nat,
                             x: nat, y: nat, c: nat)
    requires format.Yuv420? ==> Even(FixedUp(format, f))
    requires var q := After(QuarterTurn, format, f);
      FrameTurned(QuarterTurn, format, d, q, s, f) && FrameTurned(HFlip, format, e, q, d, q)
    requires k < PlaneCount(format) && c < Bpp(format) && x < PlaneSize(f, k).1 && y < PlaneSize(f, k).0
    ensures ByteAt(e, format, After(QuarterTurn, format, f), k, x, y, c) == ByteAt(s, format, f, k, y, x, c)
  {
    hide FrameTurned, ByteAt;
    var h := PlaneSize(f, k).1;
    PlaceTurned(HFlip, format, d, After(QuarterTurn, format, f), e, k, x, y, c);
    PlaceTurned(QuarterTurn, format, s, f, d, k, h - 1 - x, y, c);
  }

  /** Two quarter turns of a frame are a half turn. */
  lemma QuarterTwice(format: PixelFormat, s: seq<byte>, f: Format, d: seq<byte>, e: seq<byte>)
    requires f == FixedUp(format, f) && (format.Yuv420? ==> Even(f))
    requires var q := After(QuarterTurn, format, f);
      FrameTurned(QuarterTurn, format, d, q, s, f) && FrameTurned(QuarterTurn, format, e, f, d, q)
    ensures FrameTurned(HalfTurn, format, e, f, s, f)
  {
    var q := After(QuarterTurn, format, f);
    forall k: nat | k < PlaneCount(format)
      ensures PlaneTurned(HalfTurn, format, e, f, s, f, k)
    {
      assert PlaneTurned(QuarterTurn, format, d, q, s, f, k) && PlaneTurned(QuarterTurn, format, e, f, d, q, k);
      var (w, h) := PlaneSize(f, k);
      PlaneShape(QuarterTurn, format, f, k);
      PlaneShape(HalfTurn, format, f, k);
      var image := ImageOf(s, PlaneOf(format, f, k));
      hide Shows, Turned, PlaneOf;
      Chain(QuarterTurn, QuarterTurn, s, PlaneOf(format, f, k), d, PlaneOf(format, q, k), e, PlaneOf(format, f, k),
            Bpp(format), w, h);
      TwoQuarters(image, Bpp(format), w, h);
      Replace(e, PlaneOf(format, f, k),
              Turned(QuarterTurn, Turned(QuarterTurn, image, Bpp(format), w, h), Bpp(format), h, w),
              Turned(HalfTurn, image, Bpp(format), w, h));
    }
  }

  /** Four quarter turns give the frame back. */
  lemma QuarterFourTimes(format: PixelFormat, s: seq<byte>, f: Format, a: seq<byte>, b: seq<byte>, c: seq<byte>,
                         e: seq<byte>)
    requires f == FixedUp(format, f) && (format.Yuv420? ==> Even(f))
    requires var q := After(QuarterTurn, format, f);
      && FrameTurned(QuarterTurn, format, a, q, s, f) && FrameTurned(QuarterTurn, format, b, f, a, q)
      && FrameTurned(QuarterTurn, format, c, q, b, f) && FrameTurned(QuarterTurn, format, e, f, c, q)
    ensures FrameSame(format, e, f, s, f)
  {
    QuarterTwice(format, s, f, a, b);
    QuarterTwice(format, b, f, c, e);
    TwiceIsNothing(HalfTurn, format, s, f, b, e);
  }

  /** A flip does not look at the padding: it makes of a padded frame what it makes of its packed copy. */
  lemma PaddingIgnored(t: Turn, format: PixelFormat, s: seq<byte>, sf: Format, packed: seq<byte>, d: seq<byte>,
                       e: seq<byte>)
    requires t != QuarterTurn && (format.Yuv420? ==> Even(sf))
    requires var f := FixedUp(format, sf);
      FrameSame(format, packed, f, s, sf) && FrameTurned(t, format, d, f, s, sf)
        && FrameTurned(t, format, e, f, packed, f)
    ensures FrameSame(format, d, FixedUp(format, sf), e, FixedUp(format, sf))
  {
    var f := FixedUp(format, sf);
    forall k: nat | k < PlaneCount(format)
      ensures Shows(d, PlaneOf(format, f, k), ImageOf(e, PlaneOf(format, f, k)))
    {
      assert PlaneTurned(t, format, d, f, s, sf, k) && PlaneTurned(t, format, e, f, packed, f, k);
      var (w, h) := PlaneSize(sf, k);
      PlaneShape(t, format, sf, k);
      var v := PlaneOf(format, f, k);
      hide Turned, PlaneOf;
      TurnedAgree(t, ImageOf(packed, v), ImageOf(s, PlaneOf(format, sf, k)), Bpp(format), w, h);
    }
  }

  /** What the padded frame and its packed reading give for plane `k` looks the same. */
  ghost predicate PlaneRight(t: Turn, format: PixelFormat, s: seq<byte>, f: Format, k: nat) {
    var (w, h) := PlaneSize(f, k);
    Agree(Turned(t, ImageOf(s, PlaneOf(format, FixedUp(format, f), k)), Bpp(format), w, h),
          Turned(t, ImageOf(s, PlaneOf(format, f, k)), Bpp(format), w, h),
          Bpp(format) * Size(t, w, h).0, Size(t, w, h).1)
  }

  /** Turned, the frame read as packed looks like the frame itself. */
  ghost predicate TurnRight(t: Turn, format: PixelFormat, s: seq<byte>, f: Format) {
    forall k: nat :: k < PlaneCount(format) ==> PlaneRight(t, format, s, f, k)
  }

  /** That is what makes the output of a turn that reads the frame as packed the turned frame. */
  lemma TurnRightIs(t: Turn, format: PixelFormat, s: seq<byte>, f: Format, d: seq<byte>)
    requires format.Yuv420? ==> Even(FixedUp(format, f))
    requires FrameTurned(t, format, d, After(t, format, f), s, FixedUp(format, f))
    ensures FrameTurned(t, format, d, After(t, format, f), s, f) <==> TurnRight(t, format, s, f)
  {
    var packed, after := FixedUp(format, f), After(t, format, f);
    forall k: nat | k < PlaneCount(format)
      ensures PlaneTurned(t, format, d, after, s, f, k) <==> PlaneRight(t, format, s, f, k)
    {
      var (w, h) := PlaneSize(f, k);
      assert PlaneTurned(t, format, d, after, s, packed, k);
      PlaneShape(t, format, f, k);
      hide PlaneOf, Turned;
      SameShown(d, PlaneOf(format, after, k), Turned(t, ImageOf(s, PlaneOf(format, packed, k)), Bpp(format), w, h),
                Turned(t, ImageOf(s, PlaneOf(format, f, k)), Bpp(format), w, h));
    }
  }

  lemma SameShown(d: seq<byte>, v: View, a: Image, b: Image)
    requires Shows(d, v, a)
    ensures Shows(d, v, b) <==> Agree(a, b, v.w, v.h)
  {
    if Shows(d, v, b) {
      forall i: nat, j: nat | i < v.w && j < v.h
        ensures a(i, j) == b(i, j)
      {
        assert Cell(d, v, i, j) == a(i, j);
        assert Cell(d, v, i, j) == b(i, j);
      }
    } else if Agree(a, b, v.w, v.h) {
      Replace(d, v, a, b);
    }
  }

  /** The lines of a plane are long enough for the pixels. */
  predicate LinesFit(format: PixelFormat, f: Format) {
    if format.Rgb24? then 3 * f.width <= f.bytesperline else Even(f)
  }

  /**
    A half or quarter turn is right for every frame of a format exactly if its lines are not padded, or there is
    at most one line, or nothing in the lines.
  */
  lemma TurnNeedsPacking(t: Turn, format: PixelFormat, f: Format)
    requires LinesFit(format, f) && (t == HalfTurn || t == QuarterTurn)
    ensures (forall s: seq<byte> :: FrameFits(format, s, f) ==> TurnRight(t, format, s, f))
       <==> f == FixedUp(format, f) || f.height <= 1 || f.width == 0
  {
    if f == FixedUp(format, f) || f.height <= 1 || f.width == 0 {
      forall s: seq<byte> | FrameFits(format, s, f)
        ensures TurnRight(t, format, s, f)
      {
        PackedOrSmall(t, format, s, f);
      }
    } else {
      var s := LastPixelLost(t, format, f);
      assert FrameFits(format, s, f) && !TurnRight(t, format, s, f);
    }
  }

  lemma PackedOrSmall(t: Turn, format: PixelFormat, s: seq<byte>, f: Format)
    requires LinesFit(format, f) && (f == FixedUp(format, f) || f.height <= 1 || f.width == 0)
    ensures TurnRight(t, format, s, f)
  {
    var packed := FixedUp(format, f);
    forall k: nat | k < PlaneCount(format)
      ensures PlaneRight(t, format, s, f, k)
    {
      var (w, h) := PlaneSize(f, k);
      if f != packed && h > 0 && w > 0 {
        assert format.Rgb24? && h == 1;
        OneLine(s, Rgb(packed), Rgb(f));
        TurnedAgree(t, ImageOf(s, Rgb(packed)), ImageOf(s, Rgb(f)), Bpp(format), w, h);
      }
    }
  }

  /** A single line does not depend on the line length. */
  lemma OneLine(s: seq<byte>, v: View, u: View)
    requires v.base == u.base && v.w == u.w && v.h == u.h == 1
    ensures Agree(ImageOf(s, v), ImageOf(s, u), v.w, 1)
  {
  }

  /** Longer lines move a byte further back. */
  lemma FurtherBehind(u: View, v: View, i: nat, j: nat)
    requires u.base == v.base && v.stride < u.stride && j > 0
    ensures At(v, i, j) < At(u, i, j)
  {
    Less(j, v.stride, u.stride);
  }

  /** A frame in which only the last pixel is bright. */
  lemma BrightLast(format: PixelFormat, f: Format) returns (s: seq<byte>)
    requires LinesFit(format, f) && f != FixedUp(format, f) && f.height > 1 && f.width > 0
    ensures FrameFits(format, s, f)
    ensures var o := Column(Bpp(format), f.width - 1, 0);
      && ImageOf(s, PlaneOf(format, f, 0))(o, f.height - 1) == 1
      && ImageOf(s, PlaneOf(format, FixedUp(format, f), 0))(o, f.height - 1) == 0
  {
    var packed, bpp := FixedUp(format, f), Bpp(format);
    var v, u := PlaneOf(format, packed, 0), PlaneOf(format, f, 0);
    var col := Column(bpp, f.width - 1, 0);
    var p := At(u, col, f.height - 1);
    s := seq(f.height * f.bytesperline * 2, q => if q == p then 1 else 0);
    FurtherBehind(u, v, col, f.height - 1);
    AtBounds(u, col, f.height - 1);
    assert p < |s|;
    hide At, View.Size;
    assert Cell(s, u, col, f.height - 1) == 1 && Cell(s, v, col, f.height - 1) == 0;
  }

  /** In such a frame, if it is padded, the turn starts from another pixel. */
  lemma LastPixelLost(t: Turn, format: PixelFormat, f: Format) returns (s: seq<byte>)
    requires LinesFit(format, f) && f != FixedUp(format, f) && f.height > 1 && f.width > 0
    requires t == HalfTurn || t == QuarterTurn
    ensures FrameFits(format, s, f) && !TurnRight(t, format, s, f)
  {
    s := BrightLast(format, f);
    var bpp, w, h := Bpp(format), f.width, f.height;
    var a, b := ImageOf(s, PlaneOf(format, FixedUp(format, f), 0)), ImageOf(s, PlaneOf(format, f, 0));
    var y := if t == HalfTurn then 0 else w - 1;
    var (w', h') := Size(t, w, h);
    MulMonotone(bpp, 1, w');
    TurnedOnce(t, a, bpp, w, h, 0, y);
    TurnedOnce(t, b, bpp, w, h, 0, y);
    hide Turned, Column, PlaneOf, FixedUp, FrameFits;
    assert Origin(t, w, h, 0, y) == (w - 1, h - 1);
    assert Turned(t, a, bpp, w, h)(0, y) != Turned(t, b, bpp, w, h)(0, y);
    assert !PlaneRight(t, format, s, f, 0);
  }

  lemma Less(n: nat, x: nat, y: nat)
    requires n > 0 && x < y
    ensures n * x < n * y
  {
    MulMonotone(n, x + 1, y);
  }

  /** Frames without padding that show the same planes are the same bytes. */
  lemma SameBytes(format: PixelFormat, s: seq<byte>, t: seq<byte>, f: Format)
    requires f == FixedUp(format, f) && (format.Yuv420? ==> Even(f)) && FrameSame(format, s, f, t, f)
    requires |s| == |t| == if format.Rgb24? then f.height * f.bytesperline else FrameSize(f)
    ensures s == t
  {
    if format.Rgb24? {
      var v := Rgb(f);
      assert Shows(s, PlaneOf(format, f, 0), ImageOf(t, v)) && Shows(t, v, ImageOf(t, v));
      PackedSame(s, t, 0, v.w, v.h, ImageOf(t, v));
    } else {
      PlanesAdjoin(f);
      forall k: nat | k < 3
        ensures var v := PlaneOf(format, f, k); forall q :: v.base <= q < v.base + v.Size() ==> s[q] == t[q]
      {
        var v := PlaneOf(format, f, k);
        assert Shows(s, v, ImageOf(t, v)) && Shows(t, v, ImageOf(t, v));
        PackedSame(s, t, v.base, v.w, v.h, ImageOf(t, v));
      }
      assert PlaneOf(format, f, 0) == Luma(f) && PlaneOf(format, f, 1) == Chroma1(f)
        && PlaneOf(format, f, 2) == Chroma2(f);
    }
  }
}
