/**
  Fitting a frame into another size: cropping, cropping at half resolution, and adding a border.
*/
module Crop {
  import opened Bits
  import opened Memory
  import opened Planes

  // ----- What the transforms mean -----

  function Shifted(image: Image, sx: nat, sy: nat): Image { (i: nat, j: nat) => image(i + sx, j + sy) }

  /** The `w` by `h` image in the middle of a border. */
  function Bordered(image: Image, w: nat, h: nat, left: nat, top: nat, value: byte): Image {
    (i: nat, j: nat) => if left <= i < left + w && top <= j < top + h then image(i - left, j - top) else value
  }

  /** Every second pixel of every second line. */
  function Reduced(image: Image, bpp: nat, sx: nat, sy: nat): Image
    requires bpp > 0
  {
    (i: nat, j: nat) => image(bpp * (sx + 2 * (i / bpp)) + i % bpp, sy + 2 * j)
  }

  // ----- One plane -----

  /** Lines of the source from column `sx`, line `sy` on; the target cursor ends behind the plane. */
  method CropPlane(src: seq<byte>, dst: array<byte>, sv: View, dv: View, sx: nat, sy: nat, mysrc: nat, dest: nat)
    returns (d: nat)
    requires Fits(src, sv) && Fits(dst[..], dv) && sx + dv.w <= sv.w && sy + dv.h <= sv.h
    requires mysrc == At(sv, sx, sy) && dest == dv.base
    modifies dst
    ensures d == dv.base + dv.Size()
    ensures Shows(dst[..], dv, Shifted(ImageOf(src, sv), sx, sy)) && Fits(dst[..], dv)
    ensures Kept(dst[..], old(dst[..]), dv.base, dv.base + dv.Size())
  {
    hide At, Painted, Kept, View.Size, Shifted;
    ghost var image := Shifted(ImageOf(src, sv), sx, sy);
    var s := mysrc;
    d := dest;
    PaintStart(dst[..], dv, image);
    AtSteps(dv, 0, 0, 0);
    var y := 0;
    while y < dv.h
      invariant 0 <= y <= dv.h && s == At(sv, sx, sy + y) && d == At(dv, 0, y)
      invariant Painted(dst[..], dv, image, y, 0)
      invariant Kept(dst[..], old(dst[..]), dv.base, dv.base + dv.Size())
    {
      ghost var before := dst[..];
      LineBounds(dv, dv.w, y);
      LineBounds(sv, sx + dv.w, sy + y);
      AtSteps(dv, 0, y, dv.w);
      AtSteps(sv, sx, sy + y, dv.w);
      Copy(dst, d, src, s, dv.w);
      CopiedLine(dst[..], dv, src, sv, sx, sy, y);
      PaintSpan(before, dst[..], old(dst[..]), dv, image, y, 0, dv.w);
      PaintLine(dst[..], dv, image, y, dv.w);
      s, d, y := s + sv.stride, d + dv.stride, y + 1;
    }
    PaintEnd(dst[..], dv, image, y);
    PlaneEnd(dv);
  }

  lemma CopiedLine(d: seq<byte>, dv: View, src: seq<byte>, sv: View, sx: nat, sy: nat, y: nat)
    requires At(sv, sx, sy + y) + dv.w <= |src| && At(dv, 0, y) + dv.w <= |d|
    requires forall q :: 0 <= q < |d| && At(dv, 0, y) <= q < At(dv, 0, y) + dv.w ==>
      d[q] == src[At(sv, sx, sy + y) + (q - At(dv, 0, y))]
    ensures forall i: nat :: i < dv.w ==> Cell(d, dv, i, y) == Shifted(ImageOf(src, sv), sx, sy)(i, y)
  {
    hide At;
    forall i: nat | i < dv.w
      ensures Cell(d, dv, i, y) == Shifted(ImageOf(src, sv), sx, sy)(i, y)
    {
      AtSteps(dv, 0, y, i);
      AtSteps(sv, sx, sy + y, i);
    }
  }

  /** A line of border bytes. */
  method BorderLine(dst: array<byte>, ghost was: seq<byte>, dv: View, ghost image: Image, value: byte, d: nat, y: nat,
                    full: nat)
    requires Painted(dst[..], dv, image, y, 0) && Kept(dst[..], was, dv.base, dv.base + dv.Size())
    requires y < dv.h && dv.w <= full <= dv.stride && d == At(dv, 0, y)
    requires forall i: nat :: i < dv.w ==> image(i, y) == value
    modifies dst
    ensures Painted(dst[..], dv, image, y + 1, 0) && Kept(dst[..], was, dv.base, dv.base + dv.Size())
  {
    hide At, Painted, Kept, View.Size;
    BorderSpan(dst, was, dv, image, value, d, y, 0, full);
    PaintLine(dst[..], dv, image, y, full);
  }

  /** Lines of border bytes. */
  method BorderLines(dst: array<byte>, ghost was: seq<byte>, dv: View, ghost image: Image, value: byte, dest: nat,
                     from: nat, n: nat, full: nat) returns (d: nat)
    requires Painted(dst[..], dv, image, from, 0) && Kept(dst[..], was, dv.base, dv.base + dv.Size())
    requires from + n <= dv.h && dv.w <= full <= dv.stride && dest == At(dv, 0, from)
    requires forall i: nat, j: nat :: i < dv.w && from <= j < from + n ==> image(i, j) == value
    modifies dst
    ensures d == At(dv, 0, from + n)
    ensures Painted(dst[..], dv, image, from + n, 0) && Kept(dst[..], was, dv.base, dv.base + dv.Size())
  {
    hide At, Painted, Kept, View.Size;
    d := dest;
    var y := 0;
    while y < n
      invariant 0 <= y <= n && d == At(dv, 0, from + y)
      invariant Painted(dst[..], dv, image, from + y, 0) && Kept(dst[..], was, dv.base, dv.base + dv.Size())
    {
      BorderLine(dst, was, dv, image, value, d, from + y, full);
      AtSteps(dv, 0, from + y, 0);
      d, y := d + dv.stride, y + 1;
    }
  }

  /** A piece of a line of border bytes. */
  method BorderSpan(dst: array<byte>, ghost was: seq<byte>, dv: View, ghost image: Image, value: byte, d: nat,
                    ghost y: nat, ghost x: nat, n: nat)
    requires Painted(dst[..], dv, image, y, x) && Kept(dst[..], was, dv.base, dv.base + dv.Size())
    requires y < dv.h && x + n <= dv.stride && d == At(dv, x, y)
    requires forall i: nat :: x <= i < x + n && i < dv.w ==> image(i, y) == value
    modifies dst
    ensures Painted(dst[..], dv, image, y, x + n) && Kept(dst[..], was, dv.base, dv.base + dv.Size())
  {
    hide At, Painted, Kept, View.Size;
    ghost var before := dst[..];
    PaintFits(before, dv, image, y, x);
    LineBounds(dv, x + n, y);
    AtSteps(dv, x, y, n);
    Set(dst, d, value, n);
    SetSpan(dst[..], dv, y, x, d, n, value);
    PaintSpan(before, dst[..], was, dv, image, y, x, n);
  }

  lemma SetSpan(d: seq<byte>, dv: View, y: nat, x: nat, p: nat, n: nat, value: byte)
    requires p == At(dv, x, y) && p + n <= |d| && forall q :: p <= q < p + n ==> d[q] == value
    ensures forall i: nat :: x <= i < x + n ==> Cell(d, dv, i, y) == value
  {
    hide At;
    forall i: nat | x <= i < x + n
      ensures Cell(d, dv, i, y) == value
    {
      AtSteps(dv, x, y, i - x);
      assert x + (i - x) == i;
    }
  }

  lemma CopySpan(d: seq<byte>, dv: View, y: nat, x: nat, p: nat, n: nat, src: seq<byte>, sv: View, line: nat)
    requires p == At(dv, x, y) && p + n <= |d| && At(sv, 0, line) + n <= |src|
    requires forall q :: p <= q < p + n ==> d[q] == src[At(sv, 0, line) + (q - p)]
    ensures forall i: nat :: x <= i < x + n ==> Cell(d, dv, i, y) == Cell(src, sv, i - x, line)
  {
    hide At;
    forall i: nat | x <= i < x + n
      ensures Cell(d, dv, i, y) == Cell(src, sv, i - x, line)
    {
      AtSteps(dv, x, y, i - x);
      assert x + (i - x) == i;
      AtSteps(sv, 0, line, i - x);
    }
  }

  /** A line of the source between two pieces of border. */
  method FramedLine(src: seq<byte>, dst: array<byte>, ghost was: seq<byte>, sv: View, dv: View, left: nat, top: nat,
                    value: byte, s: nat, d: nat, y: nat)
    requires Fits(src, sv) && dv.w == left + sv.w + left && y < sv.h && top + y < dv.h
    requires s == At(sv, 0, y) && d == At(dv, 0, top + y)
    requires Painted(dst[..], dv, Bordered(ImageOf(src, sv), sv.w, sv.h, left, top, value), top + y, 0)
    requires Kept(dst[..], was, dv.base, dv.base + dv.Size())
    modifies dst
    ensures Painted(dst[..], dv, Bordered(ImageOf(src, sv), sv.w, sv.h, left, top, value), top + y + 1, 0)
    ensures Kept(dst[..], was, dv.base, dv.base + dv.Size())
  {
    hide At, Painted, Kept, View.Size;
    ghost var image := Bordered(ImageOf(src, sv), sv.w, sv.h, left, top, value);
    PaintFits(dst[..], dv, image, top + y, 0);
    LineBounds(dv, dv.w, top + y);
    LineBounds(sv, sv.w, y);
    AtSteps(sv, 0, y, sv.w);
    AtSteps(dv, 0, top + y, left);
    AtSteps(dv, 0, top + y, left + sv.w);
    AtSteps(dv, 0, top + y, dv.w);
    BorderSpan(dst, was, dv, image, value, d, top + y, 0, left);
    ghost var before := dst[..];
    Copy(dst, d + left, src, s, sv.w);
    CopySpan(dst[..], dv, top + y, left, d + left, sv.w, src, sv, y);
    PaintSpan(before, dst[..], was, dv, image, top + y, left, sv.w);
    BorderSpan(dst, was, dv, image, value, d + left + sv.w, top + y, left + sv.w, left);
    PaintLine(dst[..], dv, image, top + y, dv.w);
  }

  /**
    The source in the middle of a border; border lines are `full` bytes long.  Both cursors end behind
    their planes.
  */
  method BorderPlane(src: seq<byte>, dst: array<byte>, sv: View, dv: View, left: nat, top: nat, value: byte, full: nat,
                     source: nat, dest: nat) returns (s: nat, d: nat)
    requires source == sv.base && dest == dv.base
    requires Fits(src, sv) && Fits(dst[..], dv) && dv.w == left + sv.w + left && dv.h == top + sv.h + top
    requires dv.w <= full <= dv.stride
    modifies dst
    ensures s == sv.base + sv.Size() && d == dv.base + dv.Size()
    ensures Shows(dst[..], dv, Bordered(ImageOf(src, sv), sv.w, sv.h, left, top, value)) && Fits(dst[..], dv)
    ensures Kept(dst[..], old(dst[..]), dv.base, dv.base + dv.Size())
  {
    hide At, Painted, Kept, View.Size;
    ghost var image := Bordered(ImageOf(src, sv), sv.w, sv.h, left, top, value);
    ghost var was := dst[..];
    s, d := source, dest;
    PaintStart(dst[..], dv, image);
    AtSteps(dv, 0, 0, 0);
    AtSteps(sv, 0, 0, 0);
    d := BorderLines(dst, was, dv, image, value, d, 0, top, full);
    var y := 0;
    while y < sv.h
      invariant 0 <= y <= sv.h && d == At(dv, 0, top + y) && s == At(sv, 0, y)
      invariant Painted(dst[..], dv, image, top + y, 0) && Kept(dst[..], was, dv.base, dv.base + dv.Size())
    {
      FramedLine(src, dst, was, sv, dv, left, top, value, s, d, y);
      AtSteps(dv, 0, top + y, 0);
      AtSteps(sv, 0, y, 0);
      s, d, y := s + sv.stride, d + dv.stride, y + 1;
    }
    d := BorderLines(dst, was, dv, image, value, d, top + sv.h, top, full);
    PaintEnd(dst[..], dv, image, dv.h);
    PlaneEnd(dv);
    PlaneEnd(sv);
  }

  /** Every second pixel of every second line; the target is packed. */
  method ReducePlane(src: seq<byte>, dst: array<byte>, sv: View, dv: View, bpp: nat, w: nat, sx: nat, sy: nat,
                     start: nat, dest: nat) returns (d: nat)
    requires start == At(sv, bpp * sx, sy) && dest == dv.base
    requires Fits(src, sv) && bpp > 0 && Fits(dst[..], dv) && dv.w == dv.stride == bpp * w
    requires w > 0 ==> bpp * (sx + 2 * w - 1) <= sv.w
    requires dv.h > 0 ==> sy + 2 * dv.h - 1 <= sv.h
    modifies dst
    ensures d == dv.base + dv.Size()
    ensures Shows(dst[..], dv, Reduced(ImageOf(src, sv), bpp, sx, sy)) && Fits(dst[..], dv)
    ensures Kept(dst[..], old(dst[..]), dv.base, dv.base + dv.Size())
  {
    hide At, Painted, Kept, View.Size, Reduced;
    ghost var image := Reduced(ImageOf(src, sv), bpp, sx, sy);
    ghost var was := dst[..];
    PaintStart(dst[..], dv, image);
    AtSteps(dv, 0, 0, 0);
    var mysrc := start;
    d := dest;
    var y := 0;
    while y < dv.h
      invariant 0 <= y <= dv.h && d == At(dv, 0, y) && mysrc == At(sv, bpp * sx, sy + 2 * y)
      invariant Painted(dst[..], dv, image, y, 0) && Kept(dst[..], was, dv.base, dv.base + dv.Size())
    {
      var mysrc2 := mysrc;
      var x := 0;
      while x < w
        invariant 0 <= x <= w && d == At(dv, bpp * x, y) && mysrc2 == At(sv, bpp * (sx + 2 * x), sy + 2 * y)
        invariant Painted(dst[..], dv, image, y, bpp * x) && Kept(dst[..], was, dv.base, dv.base + dv.Size())
      {
        ghost var before := dst[..];
        ReduceStep(sv, dv, bpp, w, sx, sy, x, y);
        Copy(dst, d, src, mysrc2, bpp);
        ReducedSpan(dst[..], dv, src, sv, bpp, sx, sy, x, y);
        PaintSpan(before, dst[..], was, dv, image, y, bpp * x, bpp);
        d, mysrc2, x := d + bpp, mysrc2 + 2 * bpp, x + 1;
      }
      PaintLine(dst[..], dv, image, y, bpp * x);
      AtSteps(dv, 0, y, bpp * w);
      AtSteps(dv, 0, y, 0);
      AtSteps(sv, bpp * sx, sy + 2 * y, 0);
      AtSteps(sv, bpp * sx, sy + 2 * y + 1, 0);
      mysrc, y := mysrc + 2 * sv.stride, y + 1;
    }
    PaintEnd(dst[..], dv, image, y);
    PlaneEnd(dv);
  }

  /** A plane of single bytes. */
  method ReduceBytes(src: seq<byte>, dst: array<byte>, sv: View, dv: View, sx: nat, sy: nat, start: nat, dest: nat)
    returns (d: nat)
    requires start == At(sv, sx, sy) && dest == dv.base
    requires Fits(src, sv) && Fits(dst[..], dv) && dv.w == dv.stride
    requires dv.w > 0 ==> sx + 2 * dv.w - 1 <= sv.w
    requires dv.h > 0 ==> sy + 2 * dv.h - 1 <= sv.h
    modifies dst
    ensures d == dv.base + dv.Size()
    ensures Shows(dst[..], dv, Reduced(ImageOf(src, sv), 1, sx, sy)) && Fits(dst[..], dv)
    ensures Kept(dst[..], old(dst[..]), dv.base, dv.base + dv.Size())
  {
    d := ReducePlane(src, dst, sv, dv, 1, dv.w, sx, sy, start, dest);
  }

  lemma ReduceStep(sv: View, dv: View, bpp: nat, w: nat, sx: nat, sy: nat, x: nat, y: nat)
    requires x < w && y < dv.h && bpp > 0 && bpp * (sx + 2 * w - 1) <= sv.w <= sv.stride && sy + 2 * dv.h - 1 <= sv.h
    requires dv.stride == bpp * w
    ensures bpp * (x + 1) == bpp * x + bpp && bpp * x + bpp <= dv.stride
    ensures bpp * (sx + 2 * (x + 1)) == bpp * (sx + 2 * x) + 2 * bpp && bpp * (sx + 2 * x) + bpp <= sv.w
    ensures At(dv, bpp * x, y) + bpp == At(dv, bpp * x + bpp, y) <= dv.base + dv.Size()
    ensures At(sv, bpp * (sx + 2 * x), sy + 2 * y) + 2 * bpp == At(sv, bpp * (sx + 2 * (x + 1)), sy + 2 * y)
    ensures At(sv, bpp * (sx + 2 * x), sy + 2 * y) + bpp <= sv.base + sv.Size()
  {
    hide At, View.Size;
    MulMonotone(bpp, x + 1, w);
    MulMonotone(bpp, sx + 2 * x + 1, sx + 2 * w - 1);
    assert bpp * (x + 1) == bpp * x + bpp;
    assert bpp * (sx + 2 * (x + 1)) == bpp * (sx + 2 * x) + 2 * bpp;
    assert bpp * (sx + 2 * x + 1) == bpp * (sx + 2 * x) + bpp;
    AtSteps(dv, bpp * x, y, bpp);
    LineBounds(dv, bpp * x + bpp, y);
    AtSteps(sv, bpp * (sx + 2 * x), sy + 2 * y, bpp);
    AtSteps(sv, bpp * (sx + 2 * x), sy + 2 * y, 2 * bpp);
    LineBounds(sv, bpp * (sx + 2 * x) + bpp, sy + 2 * y);
  }

  lemma ReducedAt(image: Image, bpp: nat, sx: nat, sy: nat, x: nat, y: nat, c: nat)
    requires c < bpp
    ensures Reduced(image, bpp, sx, sy)(bpp * x + c, y) == image(bpp * (sx + 2 * x) + c, sy + 2 * y)
  {
    var i := bpp * x + c;
    assert i == x * bpp + c;
    DivMod(x, bpp, c);
    Pixel(image, bpp, sx, sy, i, y, x, c);
  }

  lemma Pixel(image: Image, bpp: nat, sx: nat, sy: nat, i: nat, j: nat, x: nat, c: nat)
    requires bpp > 0 && i / bpp == x && i % bpp == c
    ensures Reduced(image, bpp, sx, sy)(i, j) == image(bpp * (sx + 2 * x) + c, sy + 2 * j)
  {
  }

  lemma ReducedSpan(d: seq<byte>, dv: View, src: seq<byte>, sv: View, bpp: nat, sx: nat, sy: nat, x: nat, y: nat)
    requires bpp > 0 && At(dv, bpp * x, y) + bpp <= |d| && At(sv, bpp * (sx + 2 * x), sy + 2 * y) + bpp <= |src|
    requires forall q :: 0 <= q < |d| && At(dv, bpp * x, y) <= q < At(dv, bpp * x, y) + bpp ==>
      d[q] == src[At(sv, bpp * (sx + 2 * x), sy + 2 * y) + (q - At(dv, bpp * x, y))]
    ensures forall i: nat :: bpp * x <= i < bpp * x + bpp ==>
      Cell(d, dv, i, y) == Reduced(ImageOf(src, sv), bpp, sx, sy)(i, y)
  {
    hide At, Reduced;
    var p, q := bpp * x, bpp * (sx + 2 * x);
    forall i: nat | p <= i < p + bpp
      ensures Cell(d, dv, i, y) == Reduced(ImageOf(src, sv), bpp, sx, sy)(i, y)
    {
      var c := i - p;
      ReducedAt(ImageOf(src, sv), bpp, sx, sy, x, y, c);
      AtSteps(dv, p, y, c);
      AtSteps(sv, q, sy + 2 * y, c);
      assert p + c == i;
    }
  }

  // ----- RGB24 frames -----

  /** What the border leaves: the source and an even border, in the lines of the target. */
  function BorderedFormat(sf: Format, df: Format, left: nat, top: nat): Format {
    Format(left + sf.width + left, top + sf.height + top, df.bytesperline)
  }

  function Half(big: nat, small: nat): nat
    requires small <= big
  {
    (big - small) / 2
  }

  lemma Rgb24Fits(d: seq<byte>, f: Format, df: Format)
    requires Rgb24Frame(d, df) && f.width <= df.width && f.height <= df.height && f.bytesperline == df.bytesperline
    ensures Fits(d, Rgb(f)) && 3 * df.width <= df.bytesperline
  {
    MulMonotone(df.bytesperline, f.height, df.height);
  }

  method AddBorderRgb24(src: seq<byte>, dest: array<byte>, sf: Format, df: Format)
    requires sf.width <= df.width && sf.height <= df.height && Rgb24Frame(src, sf) && Rgb24Frame(dest[..], df)
    modifies dest
    ensures var f := BorderedFormat(sf, df, Half(df.width, sf.width), Half(df.height, sf.height));
      && Shows(dest[..], Rgb(f), Bordered(ImageOf(src, Rgb(sf)), 3 * sf.width, sf.height, 3 * Half(df.width, sf.width),
                                          Half(df.height, sf.height), 0))
      && Kept(dest[..], old(dest[..]), 0, Rgb(f).Size())
  {
    hide Shows, Kept, Fits, Bordered, View.Size, Rgb24Frame;
    var left, top := Half(df.width, sf.width), Half(df.height, sf.height);
    var f := BorderedFormat(sf, df, left, top);
    Rgb24Fits(src, sf, sf);
    Rgb24Fits(dest[..], f, df);
    var _, _ := BorderPlane(src, dest, Rgb(sf), Rgb(f), 3 * left, top, 0, 3 * df.width, 0, 0);
  }

  method CropRgb24(src: seq<byte>, dest: array<byte>, sf: Format, df: Format)
    requires df.width <= sf.width && df.height <= sf.height && Rgb24Frame(src, sf) && Rgb24Frame(dest[..], df)
    modifies dest
    ensures Shows(dest[..], Rgb(df), Shifted(ImageOf(src, Rgb(sf)), 3 * Half(sf.width, df.width),
                                             Half(sf.height, df.height)))
    ensures Kept(dest[..], old(dest[..]), 0, Rgb(df).Size())
  {
    hide Shows, Kept, Fits, Shifted, View.Size, Rgb24Frame;
    Rgb24Fits(src, sf, sf);
    Rgb24Fits(dest[..], df, df);
    var startx, starty := Half(sf.width, df.width), Half(sf.height, df.height);
    AtSteps(Rgb(sf), 3 * startx, starty, 0);
    var _ := CropPlane(src, dest, Rgb(sf), Rgb(df), 3 * startx, starty, starty * sf.bytesperline + 3 * startx, 0);
  }

  method ReduceAndCropRgb24(src: seq<byte>, dest: array<byte>, sf: Format, df: Format)
    requires 2 * df.width <= sf.width && 2 * df.height <= sf.height && Rgb24Frame(src, sf)
    requires Fits(dest[..], View(0, 3 * df.width, 3 * df.width, df.height))
    modifies dest
    ensures Shows(dest[..], View(0, 3 * df.width, 3 * df.width, df.height),
                  Reduced(ImageOf(src, Rgb(sf)), 3, sf.width / 2 - df.width, sf.height / 2 - df.height))
    ensures Kept(dest[..], old(dest[..]), 0, View(0, 3 * df.width, 3 * df.width, df.height).Size())
  {
    hide Shows, Kept, Fits, Reduced, View.Size, Rgb24Frame;
    Rgb24Fits(src, sf, sf);
    var startx, starty := sf.width / 2 - df.width, sf.height / 2 - df.height;
    AtSteps(Rgb(sf), 3 * startx, starty, 0);
    var _ := ReducePlane(src, dest, Rgb(sf), View(0, 3 * df.width, 3 * df.width, df.height), 3, df.width, startx,
                         starty, starty * sf.bytesperline + 3 * startx, 0);
  }

  /** Cropping undoes the border, for every RGB24 source no larger than the target. */
  lemma CropUndoesBorderRgb24(s: seq<byte>, d: seq<byte>, e: seq<byte>, sf: Format, df: Format)
    requires sf.width <= df.width && sf.height <= df.height
    requires var left, top := Half(df.width, sf.width), Half(df.height, sf.height);
      Shows(d, Rgb(BorderedFormat(sf, df, left, top)),
            Bordered(ImageOf(s, Rgb(sf)), 3 * sf.width, sf.height, 3 * left, top, 0))
    requires Shows(e, Rgb(sf), Shifted(ImageOf(d, Rgb(df)), 3 * Half(df.width, sf.width), Half(df.height, sf.height)))
    ensures Shows(e, Rgb(sf), ImageOf(s, Rgb(sf)))
  {
    var left, top := Half(df.width, sf.width), Half(df.height, sf.height);
    UndoPlane(s, d, e, Rgb(sf), Rgb(BorderedFormat(sf, df, left, top)), Rgb(df), 3 * left, top, 0);
  }

  /** One plane: `inner` and `outer` start at the same byte and have the same line length. */
  lemma UndoPlane(s: seq<byte>, d: seq<byte>, e: seq<byte>, sv: View, inner: View, outer: View, left: nat, top: nat,
                  value: byte)
    requires inner.base == outer.base && inner.stride == outer.stride
    requires inner.w == left + sv.w + left && inner.h == top + sv.h + top
    requires Shows(d, inner, Bordered(ImageOf(s, sv), sv.w, sv.h, left, top, value))
    requires Shows(e, sv, Shifted(ImageOf(d, outer), left, top))
    ensures Shows(e, sv, ImageOf(s, sv))
  {
    forall i: nat, j: nat | i < sv.w && j < sv.h
      ensures Cell(e, sv, i, j) == Cell(s, sv, i, j)
    {
      assert Cell(d, outer, i + left, j + top) == Cell(d, inner, i + left, j + top);
    }
  }

  // ----- YUV 4:2:0 frames -----

  /** Half the difference, rounded down to an even number. */
  function EvenHalf(big: nat, small: nat): nat
    requires small <= big
  {
    (big - small) / 2 / 2 * 2
  }

  method AddBorderYuv420(src: seq<byte>, dest: array<byte>, sf: Format, df: Format)
    requires sf.width <= df.width && sf.height <= df.height && Yuv420Frame(src, sf) && Yuv420Frame(dest[..], df)
    modifies dest
    ensures var left, top := EvenHalf(df.width, sf.width), EvenHalf(df.height, sf.height);
      var f := BorderedFormat(sf, df, left, top);
      ShowsFrame(dest[..], f, Bordered(ImageOf(src, Luma(sf)), sf.width, sf.height, left, top, 16),
                 Bordered(ImageOf(src, Chroma1(sf)), sf.width / 2, sf.height / 2, left / 2, top / 2, 128),
                 Bordered(ImageOf(src, Chroma2(sf)), sf.width / 2, sf.height / 2, left / 2, top / 2, 128))
      && Kept(dest[..], old(dest[..]), 0, FrameSize(f))
  {
    FrameEven(src, sf);
    hide EvenHalf, BorderedFormat, Luma, Chroma1, Chroma2, Yuv420Frame, FrameSize;
    hide Shows, Kept, Fits, Bordered, View.Size, Even;
    BorderShape(dest[..], sf, df);
    var left, top := EvenHalf(df.width, sf.width), EvenHalf(df.height, sf.height);
    var f := BorderedFormat(sf, df, left, top);
    FramePlanes(src, sf);
    ghost var d0 := dest[..];
    FramePlanes(d0, f);
    LumaFirst(sf);
    LumaFirst(f);
    var s, d := BorderPlane(src, dest, Luma(sf), Luma(f), left, top, 16, df.width, 0, 0);
    ghost var d1 := dest[..];
    SameFrame(d0, d1, f);
    FramePlanes(d1, f);
    s, d := BorderPlane(src, dest, Chroma1(sf), Chroma1(f), left / 2, top / 2, 128, df.width / 2, s, d);
    ghost var d2 := dest[..];
    SameFrame(d0, d2, f);
    FramePlanes(d2, f);
    s, d := BorderPlane(src, dest, Chroma2(sf), Chroma2(f), left / 2, top / 2, 128, df.width / 2, s, d);
    ThreePlanes(d0, d1, d2, dest[..], Luma(f), Chroma1(f), Chroma2(f),
                Bordered(ImageOf(src, Luma(sf)), sf.width, sf.height, left, top, 16),
                Bordered(ImageOf(src, Chroma1(sf)), sf.width / 2, sf.height / 2, left / 2, top / 2, 128),
                Bordered(ImageOf(src, Chroma2(sf)), sf.width / 2, sf.height / 2, left / 2, top / 2, 128));
  }

  /** The planes the border leaves hold the source's planes between two equal pieces of border. */
  lemma BorderShape(d: seq<byte>, sf: Format, df: Format)
    requires sf.width <= df.width && sf.height <= df.height && Even(sf) && Yuv420Frame(d, df)
    ensures var left, top := EvenHalf(df.width, sf.width), EvenHalf(df.height, sf.height);
      var f := BorderedFormat(sf, df, left, top);
      && Yuv420Frame(d, f)
      && Luma(f).w == left + Luma(sf).w + left <= df.width <= Luma(f).stride
      && Luma(f).h == top + Luma(sf).h + top
      && Chroma1(f).w == Chroma2(f).w == left / 2 + Chroma1(sf).w + left / 2 <= df.width / 2 <= Chroma1(f).stride
      && Chroma1(f).h == Chroma2(f).h == top / 2 + Chroma1(sf).h + top / 2
      && Chroma2(f).stride == Chroma1(f).stride && Chroma1(sf).w == Chroma2(sf).w && Chroma1(sf).h == Chroma2(sf).h
      && Luma(f).base == 0 && f.bytesperline == df.bytesperline
      && Luma(sf).w == sf.width && Luma(sf).h == sf.height && Chroma1(sf).w == sf.width / 2
      && Chroma1(sf).h == sf.height / 2
  {
    hide Yuv420Frame, EvenHalf;
    FrameEven(d, df);
    HalfShape(df.width, sf.width);
    HalfShape(df.height, sf.height);
    SmallerFrame(d, BorderedFormat(sf, df, EvenHalf(df.width, sf.width), EvenHalf(df.height, sf.height)), df);
  }

  lemma HalfShape(big: nat, small: nat)
    requires small <= big && big % 2 == 0 && small % 2 == 0
    ensures var n := EvenHalf(big, small);
      n % 2 == 0 && n + small + n <= big && (n + small + n) % 2 == 0
        && (n + small + n) / 2 == n / 2 + small / 2 + n / 2 <= big / 2
  {
  }

  lemma SmallerFrame(d: seq<byte>, f: Format, df: Format)
    requires Yuv420Frame(d, df) && f.width <= df.width && f.height <= df.height && f.bytesperline == df.bytesperline
    requires f.width % 2 == 0 && f.height % 2 == 0
    ensures Yuv420Frame(d, f)
  {
    MulMonotone(df.bytesperline, f.height, df.height);
  }

  method CropYuv420(src: seq<byte>, dest: array<byte>, sf: Format, df: Format)
    requires df.width <= sf.width && df.height <= sf.height && Yuv420Frame(src, sf) && Yuv420Frame(dest[..], df)
    modifies dest
    ensures var sx, sy := EvenHalf(sf.width, df.width), EvenHalf(sf.height, df.height);
      ShowsFrame(dest[..], df, Shifted(ImageOf(src, Luma(sf)), sx, sy),
                 Shifted(ImageOf(src, Chroma1(sf)), sx / 2, sy / 2), Shifted(ImageOf(src, Chroma2(sf)), sx / 2, sy / 2))
    ensures Kept(dest[..], old(dest[..]), 0, FrameSize(df))
  {
    hide EvenHalf, Luma, Chroma1, Chroma2, Yuv420Frame, FrameSize, At, LumaStart, Chroma1Start, Chroma2Start;
    hide Shows, Kept, Fits, Shifted, View.Size;
    CropShape(src, dest[..], sf, df);
    PlaneStarts(src, sf, EvenHalf(sf.width, df.width), EvenHalf(sf.height, df.height));
    var sx, sy := EvenHalf(sf.width, df.width), EvenHalf(sf.height, df.height);
    var cx, cy := sx / 2, sy / 2;
    var start, start1, start2 := LumaStart(sf, sx, sy), Chroma1Start(sf, sx, sy), Chroma2Start(sf, sx, sy);
    FramePlanes(src, sf);
    ghost var d0 := dest[..];
    FramePlanes(d0, df);
    var d := CropPlane(src, dest, Luma(sf), Luma(df), sx, sy, start, 0);
    ghost var d1 := dest[..];
    SameFrame(d0, d1, df);
    FramePlanes(d1, df);
    d := CropPlane(src, dest, Chroma1(sf), Chroma1(df), cx, cy, start1, d);
    ghost var d2 := dest[..];
    SameFrame(d0, d2, df);
    FramePlanes(d2, df);
    d := CropPlane(src, dest, Chroma2(sf), Chroma2(df), cx, cy, start2, d);
    ThreePlanes(d0, d1, d2, dest[..], Luma(df), Chroma1(df), Chroma2(df), Shifted(ImageOf(src, Luma(sf)), sx, sy),
                Shifted(ImageOf(src, Chroma1(sf)), cx, cy), Shifted(ImageOf(src, Chroma2(sf)), cx, cy));
  }

  lemma CropShape(s: seq<byte>, d: seq<byte>, sf: Format, df: Format)
    requires df.width <= sf.width && df.height <= sf.height && Yuv420Frame(s, sf) && Yuv420Frame(d, df)
    ensures var sx, sy := EvenHalf(sf.width, df.width), EvenHalf(sf.height, df.height);
      && sx + Luma(df).w <= Luma(sf).w && sy + Luma(df).h <= Luma(sf).h
      && sx / 2 + Chroma1(df).w <= Chroma1(sf).w && sy / 2 + Chroma1(df).h <= Chroma1(sf).h
      && sx / 2 + Chroma2(df).w <= Chroma2(sf).w && sy / 2 + Chroma2(df).h <= Chroma2(sf).h
      && Luma(df).base == 0 && sx % 2 == 0 && sy % 2 == 0
  {
    hide Yuv420Frame, EvenHalf;
    FrameEven(s, sf);
    FrameEven(d, df);
    HalfShape(sf.width, df.width);
    HalfShape(sf.height, df.height);
  }

  function ReducedStart(big: nat, small: nat): nat
    requires 2 * small <= big
  {
    (big / 2 - small) / 2 * 2
  }

  /** The target of a reduction is packed. */
  function Packed(f: Format): Format { Format(f.width, f.height, f.width) }

  method ReduceAndCropYuv420(src: seq<byte>, dest: array<byte>, sf: Format, df: Format)
    requires 2 * df.width <= sf.width && 2 * df.height <= sf.height && Yuv420Frame(src, sf)
    requires Yuv420Frame(dest[..], Packed(df))
    modifies dest
    ensures var sx, sy := ReducedStart(sf.width, df.width), ReducedStart(sf.height, df.height);
      ShowsFrame(dest[..], Packed(df), Reduced(ImageOf(src, Luma(sf)), 1, sx, sy),
                 Reduced(ImageOf(src, Chroma1(sf)), 1, sx / 2, sy / 2),
                 Reduced(ImageOf(src, Chroma2(sf)), 1, sx / 2, sy / 2))
    ensures Kept(dest[..], old(dest[..]), 0, FrameSize(Packed(df)))
  {
    hide ReducedStart, Packed, Luma, Chroma1, Chroma2, Yuv420Frame, FrameSize, At, LumaStart, Chroma1Start,
      Chroma2Start;
    hide Shows, Kept, Fits, Reduced, View.Size;
    ReduceShape(src, dest[..], sf, df);
    PlaneStarts(src, sf, ReducedStart(sf.width, df.width), ReducedStart(sf.height, df.height));
    var sx, sy := ReducedStart(sf.width, df.width), ReducedStart(sf.height, df.height);
    var f := Packed(df);
    FramePlanes(src, sf);
    ghost var d0 := dest[..];
    FramePlanes(d0, f);
    var d := ReduceBytes(src, dest, Luma(sf), Luma(f), sx, sy, LumaStart(sf, sx, sy), 0);
    ghost var d1 := dest[..];
    SameFrame(d0, d1, f);
    FramePlanes(d1, f);
    d := ReduceBytes(src, dest, Chroma1(sf), Chroma1(f), sx / 2, sy / 2, Chroma1Start(sf, sx, sy), d);
    ghost var d2 := dest[..];
    SameFrame(d0, d2, f);
    FramePlanes(d2, f);
    d := ReduceBytes(src, dest, Chroma2(sf), Chroma2(f), sx / 2, sy / 2, Chroma2Start(sf, sx, sy), d);
    ThreePlanes(d0, d1, d2, dest[..], Luma(f), Chroma1(f), Chroma2(f), Reduced(ImageOf(src, Luma(sf)), 1, sx, sy),
                Reduced(ImageOf(src, Chroma1(sf)), 1, sx / 2, sy / 2),
                Reduced(ImageOf(src, Chroma2(sf)), 1, sx / 2, sy / 2));
  }

  lemma ReduceShape(s: seq<byte>, d: seq<byte>, sf: Format, df: Format)
    requires 2 * df.width <= sf.width && 2 * df.height <= sf.height && Yuv420Frame(s, sf) && Yuv420Frame(d, Packed(df))
    ensures var f, sx, sy := Packed(df), ReducedStart(sf.width, df.width), ReducedStart(sf.height, df.height);
      && sx % 2 == 0 && sy % 2 == 0
      && Luma(f).w == Luma(f).stride && Luma(f).base == 0 && Chroma1(f).w == Chroma1(f).stride
      && Chroma2(f).w == Chroma2(f).stride
      && (Luma(f).w > 0 ==> sx + 2 * Luma(f).w - 1 <= Luma(sf).w)
      && (Luma(f).h > 0 ==> sy + 2 * Luma(f).h - 1 <= Luma(sf).h)
      && (Chroma1(f).w > 0 ==> sx / 2 + 2 * Chroma1(f).w - 1 <= Chroma1(sf).w)
      && (Chroma1(f).h > 0 ==> sy / 2 + 2 * Chroma1(f).h - 1 <= Chroma1(sf).h)
      && (Chroma2(f).w > 0 ==> sx / 2 + 2 * Chroma2(f).w - 1 <= Chroma2(sf).w)
      && (Chroma2(f).h > 0 ==> sy / 2 + 2 * Chroma2(f).h - 1 <= Chroma2(sf).h)
  {
    hide FrameSize;
  }

  /** Where the three source cursors of a crop start. */
  function LumaStart(f: Format, sx: nat, sy: nat): nat { sy * f.bytesperline + sx }

  function Chroma1Start(f: Format, sx: nat, sy: nat): nat {
    f.height * f.bytesperline + sy / 2 * f.bytesperline / 2 + sx / 2
  }

  function Chroma2Start(f: Format, sx: nat, sy: nat): nat {
    f.height * f.bytesperline * 5 / 4 + sy / 2 * f.bytesperline / 2 + sx / 2
  }

  lemma PlaneStarts(s: seq<byte>, f: Format, sx: nat, sy: nat)
    requires Yuv420Frame(s, f) && sx % 2 == 0 && sy % 2 == 0
    ensures At(Luma(f), sx, sy) == LumaStart(f, sx, sy)
    ensures At(Chroma1(f), sx / 2, sy / 2) == Chroma1Start(f, sx, sy)
    ensures At(Chroma2(f), sx / 2, sy / 2) == Chroma2Start(f, sx, sy)
  {
    var b := f.bytesperline / 2;
    assert sy / 2 * f.bytesperline == 2 * (sy / 2 * b);
  }

  lemma LumaFirst(f: Format)
    ensures Luma(f).base == 0
  {
  }

  /** What `AddBorderYuv420` leaves in the target. */
  ghost predicate BorderedYuv420(s: seq<byte>, before: seq<byte>, d: seq<byte>, sf: Format, df: Format)
    requires sf.width <= df.width && sf.height <= df.height
  {
    var left, top := EvenHalf(df.width, sf.width), EvenHalf(df.height, sf.height);
    var f := BorderedFormat(sf, df, left, top);
    && ShowsFrame(d, f, Bordered(ImageOf(s, Luma(sf)), sf.width, sf.height, left, top, 16),
                  Bordered(ImageOf(s, Chroma1(sf)), sf.width / 2, sf.height / 2, left / 2, top / 2, 128),
                  Bordered(ImageOf(s, Chroma2(sf)), sf.width / 2, sf.height / 2, left / 2, top / 2, 128))
    && Kept(d, before, 0, FrameSize(f))
  }

  /** What `CropYuv420` then makes of it in the source's format. */
  ghost predicate CroppedYuv420(d: seq<byte>, e: seq<byte>, df: Format, sf: Format)
    requires sf.width <= df.width && sf.height <= df.height
  {
    var sx, sy := EvenHalf(df.width, sf.width), EvenHalf(df.height, sf.height);
    ShowsFrame(e, sf, Shifted(ImageOf(d, Luma(df)), sx, sy), Shifted(ImageOf(d, Chroma1(df)), sx / 2, sy / 2),
               Shifted(ImageOf(d, Chroma2(df)), sx / 2, sy / 2))
  }

  /** The view `inner` shows what is in a border of `left` and `top` in the plane `outer`. */
  ghost predicate Framed(inner: View, outer: View, w: nat, h: nat, left: nat, top: nat) {
    inner.base == outer.base && inner.stride == outer.stride && inner.w == left + w + left && inner.h == top + h + top
  }

  lemma BorderPlanes(sf: Format, df: Format)
    requires sf.width <= df.width && sf.height <= df.height && Even(sf) && Even(df)
    ensures var left, top := EvenHalf(df.width, sf.width), EvenHalf(df.height, sf.height);
      var f := BorderedFormat(sf, df, left, top);
      && Framed(Luma(f), Luma(df), Luma(sf).w, Luma(sf).h, left, top)
      && Luma(sf).w == sf.width && Luma(sf).h == sf.height
      && Chroma1(sf).w == Chroma2(sf).w == sf.width / 2 && Chroma1(sf).h == Chroma2(sf).h == sf.height / 2
      && ((df.height - sf.height) % 4 == 0 ==>
            && Framed(Chroma1(f), Chroma1(df), Chroma1(sf).w, Chroma1(sf).h, left / 2, top / 2)
            && Framed(Chroma2(f), Chroma2(df), Chroma2(sf).w, Chroma2(sf).h, left / 2, top / 2))
  {
    HalfShape(df.width, sf.width);
    HalfShape(df.height, sf.height);
    if (df.height - sf.height) % 4 == 0 {
      assert BorderedFormat(sf, df, EvenHalf(df.width, sf.width), EvenHalf(df.height, sf.height)).height == df.height;
    }
  }

  /**
    Cropping undoes the border of the luma plane; of the chroma planes, if the heights differ by a multiple
    of four.
  */
  lemma CropUndoesBorderYuv420(s: seq<byte>, before: seq<byte>, d: seq<byte>, e: seq<byte>, sf: Format, df: Format)
    requires sf.width <= df.width && sf.height <= df.height && Even(sf) && Even(df)
    requires BorderedYuv420(s, before, d, sf, df) && CroppedYuv420(d, e, df, sf)
    ensures Shows(e, Luma(sf), ImageOf(s, Luma(sf)))
    ensures (df.height - sf.height) % 4 == 0 ==>
      ShowsFrame(e, sf, ImageOf(s, Luma(sf)), ImageOf(s, Chroma1(sf)), ImageOf(s, Chroma2(sf)))
  {
    hide Shows, Kept, Bordered, Shifted, EvenHalf, BorderedFormat, Luma, Chroma1, Chroma2;
    var left, top := EvenHalf(df.width, sf.width), EvenHalf(df.height, sf.height);
    var f := BorderedFormat(sf, df, left, top);
    BorderPlanes(sf, df);
    LumaFirst(sf);
    UndoPlane(s, d, e, Luma(sf), Luma(f), Luma(df), left, top, 16);
    if (df.height - sf.height) % 4 == 0 {
      UndoPlane(s, d, e, Chroma1(sf), Chroma1(f), Chroma1(df), left / 2, top / 2, 128);
      UndoPlane(s, d, e, Chroma2(sf), Chroma2(f), Chroma2(df), left / 2, top / 2, 128);
    }
  }

  lemma FourLines(v: View, i: nat, j: nat)
    ensures At(v, i, j + 4) == At(v, i, j) + 4 * v.stride
  {
  }

  /**
    The planes the border leaves are two lines short, so the byte cropping takes for the first of U is four
    lines further on.
  */
  lemma ShortPlanes(df: Format, f: Format, i: nat, j: nat)
    requires Even(f) && Even(df) && f.bytesperline == df.bytesperline && f.height + 2 == df.height
    ensures At(Chroma1(df), i, j) == At(Chroma1(f), i, j + 4)
    ensures j + 4 >= f.height / 2 ==> At(Chroma1(df), i, j) == At(Chroma2(f), i, j + 4 - f.height / 2)
    ensures j + 4 >= f.height ==> At(Chroma1(df), i, j) >= FrameSize(f)
  {
    PlanesAdjoin(f);
    assert Chroma1(df).base == Chroma1(f).base + 2 * f.bytesperline;
    FourLines(Chroma1(f), i, j);
    AtSteps(Chroma1(df), i, j, 0);
    AtSteps(Chroma1(f), i, j, 0);
    hide At, FrameSize;
    var h := f.height / 2;
    if j + 4 >= h {
      NextPlane(Chroma1(f), Chroma2(f), i, j + 4 - h);
      if j + 4 >= f.height {
        PastPlane(Chroma2(f), i, j + 4 - h);
      }
    }
  }

  lemma NextPlane(v: View, u: View, i: nat, r: nat)
    requires u.base == v.base + v.Size() && u.stride == v.stride
    ensures At(v, i, v.h + r) == At(u, i, r)
  {
  }

  lemma PastPlane(v: View, i: nat, r: nat)
    requires r >= v.h
    ensures At(v, i, r) >= v.base + v.Size()
  {
    MulMonotone(v.stride, v.h, r);
  }

  /** One bright sample in the corner of the first chroma plane, nothing else. */
  ghost predicate BrightCorner(s: seq<byte>, f: Format) {
    Yuv420Frame(s, f) && forall q :: 0 <= q < |s| ==> s[q] == if q == Chroma1(f).base then 1 else 0
  }

  lemma BrightCells(s: seq<byte>, f: Format, j: nat)
    requires BrightCorner(s, f) && f.bytesperline > 0 && f.height > 0
    ensures Cell(s, Chroma1(f), 0, 0) == 1
    ensures j > 0 ==> Cell(s, Chroma1(f), 0, j) == 0
    ensures Cell(s, Chroma2(f), 0, j) == 0
  {
    PlanesAdjoin(f);
    AtSteps(Chroma1(f), 0, 0, 0);
    MulMonotone(Chroma1(f).stride, 1, Chroma1(f).h);
    if j > 0 {
      AtApart(Chroma1(f), 0, j, 0, 0);
    }
    LineNonNegative(Chroma2(f), j);
  }

  lemma LineNonNegative(v: View, j: nat)
    ensures At(v, 0, j) >= v.base
  {
  }

  /**
    With a height difference that is not a multiple of four the round trip loses chroma, whatever
    the sizes: this source does not come back.
  */
  lemma ChromaLost(s: seq<byte>, before: seq<byte>, d: seq<byte>, e: seq<byte>, sf: Format, df: Format)
    requires 0 < sf.width <= df.width && 0 < sf.height <= df.height && Even(sf) && Even(df)
    requires (df.height - sf.height) % 4 != 0
    requires BrightCorner(s, sf) && forall q :: 0 <= q < |before| ==> before[q] == 0
    requires BorderedYuv420(s, before, d, sf, df) && CroppedYuv420(d, e, df, sf)
    ensures Cell(e, Chroma1(sf), 0, 0) != 1 == Cell(s, Chroma1(sf), 0, 0)
  {
    hide Shows, Kept, BrightCorner, View.Size, At, Luma, Chroma1, Chroma2, Bordered, Shifted;
    HalfShape(df.width, sf.width);
    HalfShape(df.height, sf.height);
    hide EvenHalf, FrameSize;
    var left, top := EvenHalf(df.width, sf.width), EvenHalf(df.height, sf.height);
    ChromaShape(sf);
    assert BorderedFormat(sf, df, left, top).height + 2 == df.height by {
      OddHalf(df.height, sf.height);
    }
    LostCell(s, before, d, sf, BorderedFormat(sf, df, left, top), df, left / 2, top / 2);
    ShowsCell(e, Chroma1(sf), Shifted(ImageOf(d, Chroma1(df)), left / 2, top / 2), 0, 0);
    ShiftedAt(ImageOf(d, Chroma1(df)), left / 2, top / 2);
    BrightCells(s, sf, 0);
  }

  lemma OddHalf(big: nat, small: nat)
    requires small <= big && big % 2 == 0 && small % 2 == 0 && (big - small) % 4 != 0
    ensures EvenHalf(big, small) + small + EvenHalf(big, small) + 2 == big
  {
  }

  lemma ChromaShape(f: Format)
    ensures Chroma1(f).w == Chroma2(f).w == f.width / 2 && Chroma1(f).h == Chroma2(f).h == f.height / 2
  {
  }

  lemma ShiftedAt(image: Image, l: nat, t: nat)
    ensures Shifted(image, l, t)(0, 0) == image(l, t)
  {
  }

  lemma BorderedAt(image: Image, w: nat, h: nat, l: nat, t: nat, value: byte, r: nat)
    requires w > 0
    ensures Bordered(image, w, h, l, t, value)(l, r) == if t <= r < t + h then image(0, r - t) else value
  {
  }

  lemma LostCell(s: seq<byte>, before: seq<byte>, d: seq<byte>, sf: Format, f: Format, df: Format, l: nat, t: nat)
    requires BrightCorner(s, sf) && sf.width >= 2 && sf.height > 0 && sf.bytesperline > 0
    requires Even(f) && Even(df) && f.bytesperline == df.bytesperline && f.height + 2 == df.height
    requires f.height / 2 == t + sf.height / 2 + t && l < f.width / 2
    requires Shows(d, Chroma1(f), Bordered(ImageOf(s, Chroma1(sf)), sf.width / 2, sf.height / 2, l, t, 128))
    requires Shows(d, Chroma2(f), Bordered(ImageOf(s, Chroma2(sf)), sf.width / 2, sf.height / 2, l, t, 128))
    requires Kept(d, before, 0, FrameSize(f)) && forall q :: 0 <= q < |before| ==> before[q] == 0
    ensures Cell(d, Chroma1(df), l, t) != 1
  {
    hide Shows, Kept, BrightCorner, View.Size, At, Luma, Chroma1, Chroma2, Bordered;
    ShortPlanes(df, f, l, t);
    ChromaShape(f);
    var h := f.height / 2;
    if t + 4 < h {
      ShowsCell(d, Chroma1(f), Bordered(ImageOf(s, Chroma1(sf)), sf.width / 2, sf.height / 2, l, t, 128), l, t + 4);
      BorderedAt(ImageOf(s, Chroma1(sf)), sf.width / 2, sf.height / 2, l, t, 128, t + 4);
      BrightCells(s, sf, 4);
    } else if t + 4 < f.height {
      var r := t + 4 - h;
      ShowsCell(d, Chroma2(f), Bordered(ImageOf(s, Chroma2(sf)), sf.width / 2, sf.height / 2, l, t, 128), l, r);
      BorderedAt(ImageOf(s, Chroma2(sf)), sf.width / 2, sf.height / 2, l, t, 128, r);
      if r >= t {
        BrightCells(s, sf, r - t);
      }
    } else {
      KeptZero(d, before, FrameSize(f), Chroma1(df), l, t);
    }
  }

  lemma ShowsCell(s: seq<byte>, v: View, image: Image, i: nat, j: nat)
    requires Shows(s, v, image) && i < v.w && j < v.h
    ensures Cell(s, v, i, j) == image(i, j)
  {
  }

  lemma KeptZero(d: seq<byte>, before: seq<byte>, hi: nat, v: View, i: nat, j: nat)
    requires Kept(d, before, 0, hi) && At(v, i, j) >= hi && forall q :: 0 <= q < |before| ==> before[q] == 0
    ensures Cell(d, v, i, j) == 0
  {
  }

  // ----- The dispatcher -----

  predicate Grows(sf: Format, df: Format) { sf.width <= df.width && sf.height <= df.height }

  predicate Reduces(sf: Format, df: Format) {
    !Grows(sf, df) && sf.width >= 2 * df.width && sf.height >= 2 * df.height
  }

  /** The pixels of the result: a reduction packs them. */
  function FittedView(sf: Format, df: Format): View {
    if Reduces(sf, df) then View(0, 3 * df.width, 3 * df.width, df.height) else Rgb(df)
  }

  /** What becomes of an RGB24 frame: a border, a reduction, or what is left of it after cropping. */
  ghost predicate FittedRgb24(s: seq<byte>, d: seq<byte>, sf: Format, df: Format)
    requires Grows(sf, df) || Grows(df, sf)
  {
    if Grows(sf, df) then
      var left, top := Half(df.width, sf.width), Half(df.height, sf.height);
      Shows(d, Rgb(BorderedFormat(sf, df, left, top)),
            Bordered(ImageOf(s, Rgb(sf)), 3 * sf.width, sf.height, 3 * left, top, 0))
    else if Reduces(sf, df) then
      Shows(d, FittedView(sf, df),
            Reduced(ImageOf(s, Rgb(sf)), 3, sf.width / 2 - df.width, sf.height / 2 - df.height))
    else
      Shows(d, FittedView(sf, df),
            Shifted(ImageOf(s, Rgb(sf)), 3 * Half(sf.width, df.width), Half(sf.height, df.height)))
  }

  /** The same for a YUV 4:2:0 frame. */
  ghost predicate FittedYuv420(s: seq<byte>, before: seq<byte>, d: seq<byte>, sf: Format, df: Format)
    requires Grows(sf, df) || Grows(df, sf)
  {
    if Grows(sf, df) then BorderedYuv420(s, before, d, sf, df)
    else if Reduces(sf, df) then
      var sx, sy := ReducedStart(sf.width, df.width), ReducedStart(sf.height, df.height);
      ShowsFrame(d, Packed(df), Reduced(ImageOf(s, Luma(sf)), 1, sx, sy),
                 Reduced(ImageOf(s, Chroma1(sf)), 1, sx / 2, sy / 2),
                 Reduced(ImageOf(s, Chroma2(sf)), 1, sx / 2, sy / 2))
    else CroppedYuv420(s, d, sf, df)
  }

  /** Smaller sources get a border, much larger ones are reduced, others cropped. */
  method CropFrame(src: seq<byte>, dest: array<byte>, format: PixelFormat, sf: Format, df: Format)
    requires Grows(sf, df) || Grows(df, sf)
    requires format.Rgb24? ==> Rgb24Frame(src, sf) && Rgb24Frame(dest[..], df)
    requires format.Yuv420? ==> Yuv420Frame(src, sf) && Yuv420Frame(dest[..], df)
    modifies dest
    ensures format.Rgb24? ==> FittedRgb24(src, dest[..], sf, df)
    ensures format.Yuv420? ==> FittedYuv420(src, old(dest[..]), dest[..], sf, df)
  {
    hide Shows, ShowsFrame, Bordered, Shifted, Reduced, Half, EvenHalf, Luma, Chroma1, Chroma2, Rgb, BorderedFormat,
      Packed, View.Size;
    if sf.width <= df.width && sf.height <= df.height {
      if format.Rgb24? {
        AddBorderRgb24(src, dest, sf, df);
      } else {
        AddBorderYuv420(src, dest, sf, df);
      }
    } else if sf.width >= 2 * df.width && sf.height >= 2 * df.height {
      PackedFits(dest[..], df);
      if format.Rgb24? {
        ReduceAndCropRgb24(src, dest, sf, df);
      } else {
        ReduceAndCropYuv420(src, dest, sf, df);
      }
    } else if format.Rgb24? {
      CropRgb24(src, dest, sf, df);
    } else {
      CropYuv420(src, dest, sf, df);
    }
  }

  lemma PackedFits(d: seq<byte>, f: Format)
    ensures Rgb24Frame(d, f) ==> Fits(d, View(0, 3 * f.width, 3 * f.width, f.height))
    ensures Yuv420Frame(d, f) ==> Yuv420Frame(d, Packed(f))
  {
    if Rgb24Frame(d, f) {
      MulMonotone(f.height, 3 * f.width, f.bytesperline);
    }
    if Yuv420Frame(d, f) {
      MulMonotone(f.height, f.width, f.bytesperline);
    }
  }

  // ----- There and back -----

  /** Whatever the dispatcher makes of this frame and then makes of that in the first format is the frame. */
  ghost predicate ComesBack(s: seq<byte>, sf: Format, df: Format)
    requires Grows(sf, df)
  {
    forall d: seq<byte>, e: seq<byte>
      | Rgb24Frame(d, df) && Rgb24Frame(e, sf) && FittedRgb24(s, d, sf, df) && FittedRgb24(d, e, df, sf)
      :: Shows(e, FittedView(df, sf), ImageOf(s, Rgb(sf)))
  }

  /** A frame that shows this image. */
  function Render(v: View, n: nat, image: Image): seq<byte> {
    seq(n, q requires 0 <= q => RenderedAt(v.stride, image, q))
  }

  function RenderedAt(stride: nat, image: Image, q: nat): byte {
    if stride == 0 then 0 else
    DivNonNegative(q, stride);
    image(q % stride, q / stride)
  }

  lemma Rendered(v: View, n: nat, image: Image)
    requires v.base == 0 && v.w <= v.stride && v.Size() <= n
    ensures Shows(Render(v, n, image), v, image)
  {
    hide RenderedAt, At, View.Size;
    forall i: nat, j: nat | i < v.w && j < v.h
      ensures Cell(Render(v, n, image), v, i, j) == image(i, j)
    {
      AtBounds(v, i, j);
      AtSteps(v, i, j, 0);
      RenderedCell(v.stride, image, i, j);
    }
  }

  lemma RenderedCell(stride: nat, image: Image, i: nat, j: nat)
    requires i < stride
    ensures 0 <= j * stride && RenderedAt(stride, image, j * stride + i) == image(i, j)
  {
    DivMod(j, stride, i);
  }

  /**
    Going back halves a frame that has at least twice the size, so the source is returned, for every RGB24
    source, exactly if the target is not that large, or the source has no pixel, or just one in even sizes.
  */
  lemma CropReturns(sf: Format, df: Format)
    requires Grows(sf, df) && 3 * sf.width <= sf.bytesperline && 3 * df.width <= df.bytesperline
    ensures (forall s: seq<byte> :: Rgb24Frame(s, sf) ==> ComesBack(s, sf, df)) <==>
      || !Reduces(df, sf) || sf.width == 0 || sf.height == 0
      || (sf.width == 1 && sf.height == 1 && df.width % 2 == 0 && df.height % 2 == 0)
  {
    if !Reduces(df, sf) || sf.width == 0 || sf.height == 0 || Reread(sf, df) {
      forall s: seq<byte> | Rgb24Frame(s, sf)
        ensures ComesBack(s, sf, df)
      {
        hide Shows;
        forall d: seq<byte>, e: seq<byte> | FittedRgb24(s, d, sf, df) && FittedRgb24(d, e, df, sf)
          ensures Shows(e, FittedView(df, sf), ImageOf(s, Rgb(sf)))
        {
          Returned(s, d, e, sf, df);
        }
      }
    }
    if Reduces(df, sf) && sf.width > 0 && sf.height > 0 {
      ReducedCorner(sf, df);
      if !Reread(sf, df) {
        var s := seq(sf.height * sf.bytesperline, _ => 1);
        FirstLost(s, sf, df);
      }
    }
  }

  /** A reduction of the bordered frame begins with the first pixel of the source. */
  predicate Reread(sf: Format, df: Format)
    requires Grows(sf, df)
  {
    df.width / 2 - sf.width == Half(df.width, sf.width) && df.height / 2 - sf.height == Half(df.height, sf.height)
  }

  lemma ReducedCorner(sf: Format, df: Format)
    requires Grows(sf, df) && Reduces(df, sf) && sf.width > 0 && sf.height > 0
    ensures Reread(sf, df) <==> sf.width == 1 && sf.height == 1 && df.width % 2 == 0 && df.height % 2 == 0
    ensures 0 <= df.width / 2 - sf.width <= Half(df.width, sf.width)
    ensures 0 <= df.height / 2 - sf.height <= Half(df.height, sf.height)
  {
  }

  lemma Returned(s: seq<byte>, d: seq<byte>, e: seq<byte>, sf: Format, df: Format)
    requires Grows(sf, df) && FittedRgb24(s, d, sf, df) && FittedRgb24(d, e, df, sf)
    requires !Reduces(df, sf) || sf.width == 0 || sf.height == 0 || Reread(sf, df)
    ensures Shows(e, FittedView(df, sf), ImageOf(s, Rgb(sf)))
  {
    if Grows(df, sf) {
      forall i: nat, j: nat | i < 3 * sf.width && j < sf.height
        ensures Cell(e, Rgb(sf), i, j) == Cell(s, Rgb(sf), i, j)
      {
        assert Cell(e, Rgb(sf), i, j) == Cell(d, Rgb(df), i, j);
        assert Cell(d, Rgb(df), i, j) == Cell(s, Rgb(sf), i, j);
      }
    } else if !Reduces(df, sf) {
      CropUndoesBorderRgb24(s, d, e, sf, df);
    } else if sf.width > 0 && sf.height > 0 {
      ReducedCorner(sf, df);
      forall i: nat | i < 3
        ensures Cell(e, FittedView(df, sf), i, 0) == Cell(s, Rgb(sf), i, 0)
      {
        FirstPixel(s, d, e, sf, df, i);
      }
    }
  }

  /** The first pixel after a border and a reduction: that of the source, or of the border. */
  lemma FirstPixel(s: seq<byte>, d: seq<byte>, e: seq<byte>, sf: Format, df: Format, i: nat)
    requires Grows(sf, df) && Reduces(df, sf) && sf.width > 0 && sf.height > 0 && i < 3
    requires FittedRgb24(s, d, sf, df) && FittedRgb24(d, e, df, sf)
    ensures Cell(e, FittedView(df, sf), i, 0) == if Reread(sf, df) then Cell(s, Rgb(sf), i, 0) else 0
  {
    ReducedCorner(sf, df);
    var x, y := df.width / 2 - sf.width, df.height / 2 - sf.height;
    hide Half, FittedRgb24, FittedView, Cell;
    CornerReduced(d, e, df, sf, x, y, i);
    CornerBordered(s, d, sf, df, x, y, i);
  }

  lemma CornerReduced(s: seq<byte>, d: seq<byte>, sf: Format, df: Format, x: nat, y: nat, i: nat)
    requires Grows(df, sf) && Reduces(sf, df) && df.width > 0 && df.height > 0 && i < 3 && FittedRgb24(s, d, sf, df)
    requires x == sf.width / 2 - df.width && y == sf.height / 2 - df.height
    ensures Cell(d, FittedView(sf, df), i, 0) == Cell(s, Rgb(sf), 3 * x + i, y)
  {
    hide At, Half, Bordered, Reduced, Cell, Shows;
    ShowsCell(d, FittedView(sf, df), Reduced(ImageOf(s, Rgb(sf)), 3, x, y), i, 0);
    ReducedFirst(ImageOf(s, Rgb(sf)), x, y, i);
  }

  lemma CornerBordered(s: seq<byte>, d: seq<byte>, sf: Format, df: Format, x: nat, y: nat, i: nat)
    requires Grows(sf, df) && sf.width > 0 && sf.height > 0 && i < 3 && FittedRgb24(s, d, sf, df)
    requires x <= Half(df.width, sf.width) && y <= Half(df.height, sf.height)
    ensures Cell(d, Rgb(df), 3 * x + i, y) ==
      if x == Half(df.width, sf.width) && y == Half(df.height, sf.height) then Cell(s, Rgb(sf), i, 0) else 0
  {
    var left, top := Half(df.width, sf.width), Half(df.height, sf.height);
    var f := BorderedFormat(sf, df, left, top);
    hide At, Half, Bordered, Reduced, Cell, Shows;
    SameCell(d, Rgb(df), Rgb(f), 3 * x + i, y);
    ShowsCell(d, Rgb(f), Bordered(ImageOf(s, Rgb(sf)), 3 * sf.width, sf.height, 3 * left, top, 0), 3 * x + i, y);
    BorderedFirst(ImageOf(s, Rgb(sf)), sf.width, sf.height, left, top, x, y, i);
  }

  lemma SameCell(s: seq<byte>, v: View, u: View, i: nat, j: nat)
    requires v.base == u.base && v.stride == u.stride
    ensures Cell(s, v, i, j) == Cell(s, u, i, j)
  {
  }

  lemma ReducedFirst(image: Image, x: nat, y: nat, i: nat)
    requires i < 3
    ensures Reduced(image, 3, x, y)(i, 0) == image(3 * x + i, y)
  {
  }

  lemma BorderedFirst(image: Image, w: nat, h: nat, left: nat, top: nat, x: nat, y: nat, i: nat)
    requires i < 3 && w > 0 && h > 0 && x <= left && y <= top
    ensures Bordered(image, 3 * w, h, 3 * left, top, 0)(3 * x + i, y) ==
      if x == left && y == top then image(i, 0) else 0
  {
  }

  /** Otherwise a bright source does not come back. */
  lemma FirstLost(s: seq<byte>, sf: Format, df: Format)
    requires Grows(sf, df) && Reduces(df, sf) && sf.width > 0 && sf.height > 0 && !Reread(sf, df)
    requires 3 * sf.width <= sf.bytesperline && 3 * df.width <= df.bytesperline
    requires s == seq(sf.height * sf.bytesperline, _ => 1)
    ensures Rgb24Frame(s, sf) && !ComesBack(s, sf, df)
  {
    var d := Bordering(s, sf, df);
    var e := Reducing(d, df, sf);
    FirstPixel(s, d, e, sf, df, 0);
    FirstCell(s, Rgb(sf));
    var v := FittedView(df, sf);
    hide Cell, FittedRgb24, FittedView;
    assert Cell(e, v, 0, 0) != ImageOf(s, Rgb(sf))(0, 0);
    assert v.w > 0 && v.h > 0;
  }

  lemma FirstCell(s: seq<byte>, v: View)
    requires v.base == 0 && v.h > 0 && v.stride > 0 && s == seq(v.h * v.stride, _ => 1)
    ensures Cell(s, v, 0, 0) == 1
  {
    AtBounds(v, 0, 0);
  }

  /** A result of the border. */
  lemma Bordering(s: seq<byte>, sf: Format, df: Format) returns (d: seq<byte>)
    requires Grows(sf, df) && 3 * df.width <= df.bytesperline
    ensures Rgb24Frame(d, df) && FittedRgb24(s, d, sf, df)
  {
    var left, top := Half(df.width, sf.width), Half(df.height, sf.height);
    var f := BorderedFormat(sf, df, left, top);
    var image := Bordered(ImageOf(s, Rgb(sf)), 3 * sf.width, sf.height, 3 * left, top, 0);
    var n: nat := df.height * df.bytesperline;
    MulMonotone(df.bytesperline, f.height, df.height);
    d := Render(Rgb(f), n, image);
    Rendered(Rgb(f), n, image);
  }

  /** A result of the reduction. */
  lemma Reducing(s: seq<byte>, sf: Format, df: Format) returns (d: seq<byte>)
    requires Reduces(sf, df) && Grows(df, sf) && 3 * df.width <= df.bytesperline
    ensures Rgb24Frame(d, df) && FittedRgb24(s, d, sf, df)
  {
    var image := Reduced(ImageOf(s, Rgb(sf)), 3, sf.width / 2 - df.width, sf.height / 2 - df.height);
    var n: nat := df.height * df.bytesperline;
    MulMonotone(df.height, 3 * df.width, df.bytesperline);
    d := Render(FittedView(sf, df), n, image);
    Rendered(FittedView(sf, df), n, image);
  }

  // ----- What is kept lies in the middle -----

  /** Byte `c` of pixel (x, y) of an RGB24 frame. */
  function PixelByte(s: seq<byte>, v: View, x: nat, y: nat, c: nat): byte { Cell(s, v, 3 * x + c, y) }

  /** A bordered RGB24 frame: the source with equal black margins, but for one odd column or line. */
  lemma RgbBorderCentred(s: seq<byte>, d: seq<byte>, sf: Format, df: Format) returns (left: nat, top: nat)
    requires sf.width <= df.width && sf.height <= df.height && FittedRgb24(s, d, sf, df)
    ensures 0 <= df.width - sf.width - 2 * left <= 1 && 0 <= df.height - sf.height - 2 * top <= 1
    ensures forall x: nat, y: nat, c: nat | x < left + sf.width + left && y < top + sf.height + top && c < 3 ::
      PixelByte(d, Rgb(df), x, y, c) ==
        if left <= x < left + sf.width && top <= y < top + sf.height
        then PixelByte(s, Rgb(sf), x - left, y - top, c) else 0
  {
    left, top := Half(df.width, sf.width), Half(df.height, sf.height);
    forall x: nat, y: nat, c: nat | x < left + sf.width + left && y < top + sf.height + top && c < 3
      ensures PixelByte(d, Rgb(df), x, y, c) ==
        if left <= x < left + sf.width && top <= y < top + sf.height
        then PixelByte(s, Rgb(sf), x - left, y - top, c) else 0
    {
      var f := BorderedFormat(sf, df, left, top);
      SameCell(d, Rgb(df), Rgb(f), 3 * x + c, y);
      ShowsCell(d, Rgb(f), Bordered(ImageOf(s, Rgb(sf)), 3 * sf.width, sf.height, 3 * left, top, 0), 3 * x + c, y);
      assert 3 * x + c - 3 * left == 3 * (x - left) + c;
    }
  }

  /** A source at least twice as large in both directions: every second pixel of every second line, from the middle. */
  lemma RgbReductionCentred(s: seq<byte>, d: seq<byte>, sf: Format, df: Format) returns (sx: nat, sy: nat)
    requires df.width <= sf.width && df.height <= sf.height && (df.width < sf.width || df.height < sf.height)
    requires sf.width >= 2 * df.width && sf.height >= 2 * df.height && FittedRgb24(s, d, sf, df)
    ensures 0 <= sf.width - 2 * df.width - 2 * sx <= 1 && 0 <= sf.height - 2 * df.height - 2 * sy <= 1
    ensures var v := View(0, 3 * df.width, 3 * df.width, df.height);
      forall x: nat, y: nat, c: nat | x < df.width && y < df.height && c < 3 ::
        PixelByte(d, v, x, y, c) == PixelByte(s, Rgb(sf), sx + 2 * x, sy + 2 * y, c)
  {
    sx, sy := sf.width / 2 - df.width, sf.height / 2 - df.height;
    var v := View(0, 3 * df.width, 3 * df.width, df.height);
    hide Reduced, At, Cell, Shows, PixelByte;
    forall x: nat, y: nat, c: nat | x < df.width && y < df.height && c < 3
      ensures PixelByte(d, v, x, y, c) == PixelByte(s, Rgb(sf), sx + 2 * x, sy + 2 * y, c)
    {
      ReducedByte(s, Rgb(sf), d, v, sx, sy, x, y, c);
    }
  }

  lemma ReducedByte(s: seq<byte>, v: View, d: seq<byte>, u: View, sx: nat, sy: nat, x: nat, y: nat, c: nat)
    requires Shows(d, u, Reduced(ImageOf(s, v), 3, sx, sy)) && 3 * x + c < u.w && y < u.h && c < 3
    ensures PixelByte(d, u, x, y, c) == PixelByte(s, v, sx + 2 * x, sy + 2 * y, c)
  {
    hide Reduced, At, Cell, Shows;
    ShowsCell(d, u, Reduced(ImageOf(s, v), 3, sx, sy), 3 * x + c, y);
    ReducedAt(ImageOf(s, v), 3, sx, sy, x, y, c);
  }

  /** Any other larger source: its middle. */
  lemma RgbCropCentred(s: seq<byte>, d: seq<byte>, sf: Format, df: Format) returns (sx: nat, sy: nat)
    requires df.width <= sf.width && df.height <= sf.height && (df.width < sf.width || df.height < sf.height)
    requires sf.width < 2 * df.width || sf.height < 2 * df.height
    requires FittedRgb24(s, d, sf, df)
    ensures 0 <= sf.width - df.width - 2 * sx <= 1 && 0 <= sf.height - df.height - 2 * sy <= 1
    ensures forall x: nat, y: nat, c: nat | x < df.width && y < df.height && c < 3 ::
      PixelByte(d, Rgb(df), x, y, c) == PixelByte(s, Rgb(sf), sx + x, sy + y, c)
  {
    sx, sy := Half(sf.width, df.width), Half(sf.height, df.height);
    hide At, Cell, Shows;
    forall x: nat, y: nat, c: nat | x < df.width && y < df.height && c < 3
      ensures PixelByte(d, Rgb(df), x, y, c) == PixelByte(s, Rgb(sf), sx + x, sy + y, c)
    {
      ShowsCell(d, Rgb(df), Shifted(ImageOf(s, Rgb(sf)), 3 * sx, sy), 3 * x + c, y);
      assert 3 * x + c + 3 * sx == 3 * (sx + x) + c && y + sy == sy + y;
    }
  }

  lemma BorderedCells(s: seq<byte>, v: View, d: seq<byte>, u: View, w: nat, h: nat, left: nat, top: nat, value: byte)
    requires Shows(d, u, Bordered(ImageOf(s, v), w, h, left, top, value))
    ensures forall x: nat, y: nat | x < u.w && y < u.h ::
      Cell(d, u, x, y) == if left <= x < left + w && top <= y < top + h then Cell(s, v, x - left, y - top) else value
  {
    hide At;
  }

  lemma ReducedCells(s: seq<byte>, v: View, d: seq<byte>, u: View, sx: nat, sy: nat)
    requires Shows(d, u, Reduced(ImageOf(s, v), 1, sx, sy))
    ensures forall x: nat, y: nat | x < u.w && y < u.h :: Cell(d, u, x, y) == Cell(s, v, sx + 2 * x, sy + 2 * y)
  {
    hide At;
  }

  lemma ShiftedCells(s: seq<byte>, v: View, d: seq<byte>, u: View, sx: nat, sy: nat)
    requires Shows(d, u, Shifted(ImageOf(s, v), sx, sy))
    ensures forall x: nat, y: nat | x < u.w && y < u.h :: Cell(d, u, x, y) == Cell(s, v, sx + x, sy + y)
  {
    hide At;
    forall x: nat, y: nat | x < u.w && y < u.h
      ensures Cell(d, u, x, y) == Cell(s, v, sx + x, sy + y)
    {
      assert Cell(d, u, x, y) == Shifted(ImageOf(s, v), sx, sy)(x, y);
      assert x + sx == sx + x && y + sy == sy + y;
    }
  }

  lemma PlaneSizes(f: Format)
    ensures Luma(f).w == f.width && Luma(f).h == f.height
    ensures Chroma1(f).w == Chroma2(f).w == f.width / 2 && Chroma1(f).h == Chroma2(f).h == f.height / 2
  {
  }

  /** The planes of a YUV 4:2:0 frame between equal margins of black, but for two odd columns or lines. */
  lemma YuvBorderCentred(s: seq<byte>, before: seq<byte>, d: seq<byte>, sf: Format, df: Format)
    returns (left: nat, top: nat, f: Format)
    requires sf.width <= df.width && sf.height <= df.height && Even(sf) && Even(df)
    requires FittedYuv420(s, before, d, sf, df)
    ensures left % 2 == 0 && top % 2 == 0 && f == Format(left + sf.width + left, top + sf.height + top, df.bytesperline)
    ensures 0 <= df.width - f.width <= 2 && 0 <= df.height - f.height <= 2
    ensures forall x: nat, y: nat | x < f.width && y < f.height ::
      Cell(d, Luma(f), x, y) ==
      if left <= x < left + sf.width && top <= y < top + sf.height then Cell(s, Luma(sf), x - left, y - top) else 16
    ensures forall x: nat, y: nat | x < f.width / 2 && y < f.height / 2 ::
      var inside := left / 2 <= x < left / 2 + sf.width / 2 && top / 2 <= y < top / 2 + sf.height / 2;
      && Cell(d, Chroma1(f), x, y) == (if inside then Cell(s, Chroma1(sf), x - left / 2, y - top / 2) else 128)
      && Cell(d, Chroma2(f), x, y) == (if inside then Cell(s, Chroma2(sf), x - left / 2, y - top / 2) else 128)
  {
    left, top := EvenHalf(df.width, sf.width), EvenHalf(df.height, sf.height);
    f := BorderedFormat(sf, df, left, top);
    HalfShape(df.width, sf.width);
    HalfShape(df.height, sf.height);
    Margins(df.width, sf.width);
    Margins(df.height, sf.height);
    hide Bordered, EvenHalf, Luma, Chroma1, Chroma2, FrameSize, Cell, At, Kept, ShowsFrame;
    BorderedFrame(s, d, sf, f, left, top);
  }

  lemma BorderedFrame(s: seq<byte>, d: seq<byte>, sf: Format, f: Format, left: nat, top: nat)
    requires ShowsFrame(d, f, Bordered(ImageOf(s, Luma(sf)), sf.width, sf.height, left, top, 16),
                        Bordered(ImageOf(s, Chroma1(sf)), sf.width / 2, sf.height / 2, left / 2, top / 2, 128),
                        Bordered(ImageOf(s, Chroma2(sf)), sf.width / 2, sf.height / 2, left / 2, top / 2, 128))
    ensures forall x: nat, y: nat | x < f.width && y < f.height ::
      Cell(d, Luma(f), x, y) ==
      if left <= x < left + sf.width && top <= y < top + sf.height then Cell(s, Luma(sf), x - left, y - top) else 16
    ensures forall x: nat, y: nat | x < f.width / 2 && y < f.height / 2 ::
      var inside := left / 2 <= x < left / 2 + sf.width / 2 && top / 2 <= y < top / 2 + sf.height / 2;
      && Cell(d, Chroma1(f), x, y) == (if inside then Cell(s, Chroma1(sf), x - left / 2, y - top / 2) else 128)
      && Cell(d, Chroma2(f), x, y) == (if inside then Cell(s, Chroma2(sf), x - left / 2, y - top / 2) else 128)
  {
    PlaneSizes(f);
    hide Shows, Bordered, Luma, Chroma1, Chroma2, Cell, At;
    BorderedCells(s, Luma(sf), d, Luma(f), sf.width, sf.height, left, top, 16);
    BorderedCells(s, Chroma1(sf), d, Chroma1(f), sf.width / 2, sf.height / 2, left / 2, top / 2, 128);
    BorderedCells(s, Chroma2(sf), d, Chroma2(f), sf.width / 2, sf.height / 2, left / 2, top / 2, 128);
  }

  lemma Margins(big: nat, small: nat)
    requires big % 2 == 0 && small % 2 == 0
    ensures small <= big ==> EvenHalf(big, small) % 2 == 0 && 0 <= big - small - 2 * EvenHalf(big, small) <= 2
    ensures 2 * small <= big ==>
      ReducedStart(big, small) % 2 == 0 && 0 <= big - 2 * small - 2 * ReducedStart(big, small) <= 2
  {
  }

  /** Reduced planes: every second sample of every second line, from the same place in the middle of each. */
  lemma YuvReductionCentred(s: seq<byte>, before: seq<byte>, d: seq<byte>, sf: Format, df: Format)
    returns (sx: nat, sy: nat)
    requires df.width <= sf.width && df.height <= sf.height && (df.width < sf.width || df.height < sf.height)
    requires sf.width >= 2 * df.width && sf.height >= 2 * df.height
    requires Even(sf) && Even(df) && FittedYuv420(s, before, d, sf, df)
    ensures sx % 2 == 0 && sy % 2 == 0
    ensures 0 <= sf.width - 2 * df.width - 2 * sx <= 2 && 0 <= sf.height - 2 * df.height - 2 * sy <= 2
    ensures var f := Format(df.width, df.height, df.width);
      && (forall x: nat, y: nat | x < df.width && y < df.height ::
            Cell(d, Luma(f), x, y) == Cell(s, Luma(sf), sx + 2 * x, sy + 2 * y))
      && (forall x: nat, y: nat | x < df.width / 2 && y < df.height / 2 ::
            && Cell(d, Chroma1(f), x, y) == Cell(s, Chroma1(sf), sx / 2 + 2 * x, sy / 2 + 2 * y)
            && Cell(d, Chroma2(f), x, y) == Cell(s, Chroma2(sf), sx / 2 + 2 * x, sy / 2 + 2 * y))
  {
    var f := Packed(df);
    Margins(sf.width, df.width);
    Margins(sf.height, df.height);
    sx, sy := ReducedStart(sf.width, df.width), ReducedStart(sf.height, df.height);
    hide Reduced, ReducedStart, Luma, Chroma1, Chroma2, FrameSize, Cell, At, Even, ShowsFrame;
    ReducedFrame(s, d, sf, f, sx, sy);
  }

  lemma ReducedFrame(s: seq<byte>, d: seq<byte>, sf: Format, f: Format, sx: nat, sy: nat)
    requires ShowsFrame(d, f, Reduced(ImageOf(s, Luma(sf)), 1, sx, sy),
                        Reduced(ImageOf(s, Chroma1(sf)), 1, sx / 2, sy / 2),
                        Reduced(ImageOf(s, Chroma2(sf)), 1, sx / 2, sy / 2))
    ensures forall x: nat, y: nat | x < f.width && y < f.height ::
      Cell(d, Luma(f), x, y) == Cell(s, Luma(sf), sx + 2 * x, sy + 2 * y)
    ensures forall x: nat, y: nat | x < f.width / 2 && y < f.height / 2 ::
      && Cell(d, Chroma1(f), x, y) == Cell(s, Chroma1(sf), sx / 2 + 2 * x, sy / 2 + 2 * y)
      && Cell(d, Chroma2(f), x, y) == Cell(s, Chroma2(sf), sx / 2 + 2 * x, sy / 2 + 2 * y)
  {
    PlaneSizes(f);
    hide Shows, Reduced, Luma, Chroma1, Chroma2, Cell, At;
    ReducedCells(s, Luma(sf), d, Luma(f), sx, sy);
    ReducedCells(s, Chroma1(sf), d, Chroma1(f), sx / 2, sy / 2);
    ReducedCells(s, Chroma2(sf), d, Chroma2(f), sx / 2, sy / 2);
  }

  /** Cropped planes: the same middle of each. */
  lemma YuvCropCentred(s: seq<byte>, before: seq<byte>, d: seq<byte>, sf: Format, df: Format)
    returns (sx: nat, sy: nat)
    requires df.width <= sf.width && df.height <= sf.height && (df.width < sf.width || df.height < sf.height)
    requires sf.width < 2 * df.width || sf.height < 2 * df.height
    requires Even(sf) && Even(df) && FittedYuv420(s, before, d, sf, df)
    ensures sx % 2 == 0 && sy % 2 == 0
    ensures 0 <= sf.width - df.width - 2 * sx <= 2 && 0 <= sf.height - df.height - 2 * sy <= 2
    ensures forall x: nat, y: nat | x < df.width && y < df.height ::
      Cell(d, Luma(df), x, y) == Cell(s, Luma(sf), sx + x, sy + y)
    ensures forall x: nat, y: nat | x < df.width / 2 && y < df.height / 2 ::
      && Cell(d, Chroma1(df), x, y) == Cell(s, Chroma1(sf), sx / 2 + x, sy / 2 + y)
      && Cell(d, Chroma2(df), x, y) == Cell(s, Chroma2(sf), sx / 2 + x, sy / 2 + y)
  {
    Margins(sf.width, df.width);
    Margins(sf.height, df.height);
    sx, sy := EvenHalf(sf.width, df.width), EvenHalf(sf.height, df.height);
    hide Shifted, EvenHalf, Luma, Chroma1, Chroma2, FrameSize, Cell, At, Even, ShowsFrame;
    ShiftedFrame(s, d, sf, df, sx, sy);
  }

  lemma ShiftedFrame(s: seq<byte>, d: seq<byte>, sf: Format, f: Format, sx: nat, sy: nat)
    requires ShowsFrame(d, f, Shifted(ImageOf(s, Luma(sf)), sx, sy), Shifted(ImageOf(s, Chroma1(sf)), sx / 2, sy / 2),
                        Shifted(ImageOf(s, Chroma2(sf)), sx / 2, sy / 2))
    ensures forall x: nat, y: nat | x < f.width && y < f.height ::
      Cell(d, Luma(f), x, y) == Cell(s, Luma(sf), sx + x, sy + y)
    ensures forall x: nat, y: nat | x < f.width / 2 && y < f.height / 2 ::
      && Cell(d, Chroma1(f), x, y) == Cell(s, Chroma1(sf), sx / 2 + x, sy / 2 + y)
      && Cell(d, Chroma2(f), x, y) == Cell(s, Chroma2(sf), sx / 2 + x, sy / 2 + y)
  {
    PlaneSizes(f);
    hide Shows, Shifted, Luma, Chroma1, Chroma2, Cell, At;
    ShiftedCells(s, Luma(sf), d, Luma(f), sx, sy);
    ShiftedCells(s, Chroma1(sf), d, Chroma1(f), sx / 2, sy / 2);
    ShiftedCells(s, Chroma2(sf), d, Chroma2(f), sx / 2, sy / 2);
  }
}
