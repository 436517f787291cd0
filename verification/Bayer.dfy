/**
  Bayer demosaicing.  The C code walks raw cursors and treats borders case by case; the specification
  is one formula: a missing colour is the rounded mean of that colour in the 3x3 window inside the image.
*/
module Bayer {
  import opened Bits

  /** Output channels; 1 is green, `blueLine` tells whether the row holds channel 0 or channel 2. */
  const GREEN := 1

  /** The channel sampled in column `x` of a row. */
  function Site(x: int, startGreen: bool, blueLine: bool): nat {
    if (x % 2 == 0) == startGreen then GREEN else if blueLine then 0 else 2
  }

  /** A sample and whether it exists; rows outside the image are empty. */
  function V(row: seq<byte>, x: int): int { if 0 <= x < |row| then row[x] else 0 }
  function N(row: seq<byte>, x: int): int { if 0 <= x < |row| then 1 else 0 }

  /** Sum and number of the samples of channel `c` next to column `x` in one row. */
  function RowSum(row: seq<byte>, x: int, c: nat, sg: bool, bl: bool): int {
    (if Site(x - 1, sg, bl) == c then V(row, x - 1) else 0) +
    (if Site(x, sg, bl) == c then V(row, x) else 0) +
    (if Site(x + 1, sg, bl) == c then V(row, x + 1) else 0)
  }

  function RowCount(row: seq<byte>, x: int, c: nat, sg: bool, bl: bool): int {
    (if Site(x - 1, sg, bl) == c then N(row, x - 1) else 0) +
    (if Site(x, sg, bl) == c then N(row, x) else 0) +
    (if Site(x + 1, sg, bl) == c then N(row, x + 1) else 0)
  }

  /** The rounded mean of `n` samples. */
  function Mean(sum: int, n: int): int {
    if n == 0 then 0 else (sum + n / 2) / n
  }

  /** It is as near to the true mean as a whole number can be, and halves go up. */
  lemma MeanIsNearest(sum: int, n: int)
    requires n > 0
    ensures -(n / 2) <= sum - n * Mean(sum, n) < n - n / 2
  {
  }

  /** Channel `c` at column `x` of a row with the given neighbours; the row starts with `sg` and `bl`. */
  function Pixel(above: seq<byte>, cur: seq<byte>, below: seq<byte>, x: nat, c: nat, sg: bool, bl: bool): int
    requires x < |cur|
  {
    if Site(x, sg, bl) == c then cur[x]
    else
      Mean(RowSum(above, x, c, !sg, !bl) + RowSum(cur, x, c, sg, bl) + RowSum(below, x, c, !sg, !bl),
           RowCount(above, x, c, !sg, !bl) + RowCount(cur, x, c, sg, bl) + RowCount(below, x, c, !sg, !bl))
  }

  /** At a green site one channel comes from the sides and the other from above and below. */
  lemma GreenSite(above: seq<byte>, cur: seq<byte>, below: seq<byte>, x: nat, sg: bool, bl: bool)
    requires x < |cur| && Site(x, sg, bl) == GREEN
    ensures var own, other := if bl then 0 else 2, if bl then 2 else 0;
      && Pixel(above, cur, below, x, GREEN, sg, bl) == cur[x]
      && Pixel(above, cur, below, x, own, sg, bl) == Mean(V(cur, x - 1) + V(cur, x + 1), N(cur, x - 1) + N(cur, x + 1))
      && Pixel(above, cur, below, x, other, sg, bl) == Mean(V(above, x) + V(below, x), N(above, x) + N(below, x))
  {
    hide V, N, Mean;
  }

  /** At a coloured site green comes from the four sides and the other channel from the four corners. */
  lemma ColourSite(above: seq<byte>, cur: seq<byte>, below: seq<byte>, x: nat, sg: bool, bl: bool)
    requires x < |cur| && Site(x, sg, bl) != GREEN
    ensures var own, other := if bl then 0 else 2, if bl then 2 else 0;
      && Pixel(above, cur, below, x, own, sg, bl) == cur[x]
      && Pixel(above, cur, below, x, GREEN, sg, bl) ==
         Mean(V(cur, x - 1) + V(cur, x + 1) + V(above, x) + V(below, x),
              N(cur, x - 1) + N(cur, x + 1) + N(above, x) + N(below, x))
      && Pixel(above, cur, below, x, other, sg, bl) ==
         Mean(V(above, x - 1) + V(above, x + 1) + V(below, x - 1) + V(below, x + 1),
              N(above, x - 1) + N(above, x + 1) + N(below, x - 1) + N(below, x + 1))
  {
    hide V, N, Mean;
  }

  /** The pixels `from..to` of an output line are the demosaiced ones. */
  ghost predicate LineDone(out: seq<byte>, o: nat, to: nat, above: seq<byte>, cur: seq<byte>, below: seq<byte>,
                           sg: bool, bl: bool)
    requires to <= |cur|
  {
    o + 3 * to <= |out| &&
    forall x, c | 0 <= x < to && 0 <= c < 3 :: out[o + 3 * x + c] == Pixel(above, cur, below, x, c, sg, bl)
  }

  lemma EmptyLine(out: seq<byte>, o: nat, above: seq<byte>, cur: seq<byte>, below: seq<byte>, sg: bool, bl: bool)
    requires o <= |out|
    ensures LineDone(out, o, 0, above, cur, below, sg, bl)
  {
  }

  /** Stores the next pixel of a line: the row's own channel first on a blue line, last otherwise. */
  method Put(out: array<byte>, o: nat, bl: bool, own: byte, green: byte, other: byte, ghost x: nat,
             ghost above: seq<byte>, ghost cur: seq<byte>, ghost below: seq<byte>, ghost sg: bool)
    returns (next: nat)
    requires x < |cur| && 3 * x <= o && o + 3 <= out.Length
    requires LineDone(out[..], o - 3 * x, x, above, cur, below, sg, bl)
    requires Pixel(above, cur, below, x, if bl then 0 else 2, sg, bl) == own
    requires Pixel(above, cur, below, x, GREEN, sg, bl) == green
    requires Pixel(above, cur, below, x, if bl then 2 else 0, sg, bl) == other
    modifies out
    ensures next == o + 3 && LineDone(out[..], o - 3 * x, x + 1, above, cur, below, sg, bl)
    ensures forall k | 0 <= k < out.Length && !(o <= k < o + 3) :: out[k] == old(out[k])
  {
    hide Pixel;
    if bl {
      out[o] := own;
      out[o + 1] := green;
      out[o + 2] := other;
    } else {
      out[o] := other;
      out[o + 1] := green;
      out[o + 2] := own;
    }
    next := o + 3;
  }

  /** The neighbours of a border line at the cursors of the code. */
  lemma BorderGreen(bayer: seq<byte>, b: nat, a: nat, w: nat, x: nat, sg: bool, bl: bool)
    requires w >= 4 && b + w <= |bayer| && a + w <= |bayer| && x < w && Site(x, sg, bl) == GREEN
    ensures var cur, adj := bayer[b..b + w], bayer[a..a + w];
      && Pixel([], cur, adj, x, GREEN, sg, bl) == bayer[b + x]
      && Pixel([], cur, adj, x, if bl then 0 else 2, sg, bl) ==
         (if x == 0 then bayer[b + 1] as int else if x == w - 1 then bayer[b + x - 1] as int
          else (bayer[b + x - 1] as int + bayer[b + x + 1] as int + 1) / 2)
      && Pixel([], cur, adj, x, if bl then 2 else 0, sg, bl) == bayer[a + x]
  {
    hide Pixel;
    GreenSite([], bayer[b..b + w], bayer[a..a + w], x, sg, bl);
  }

  lemma BorderColour(bayer: seq<byte>, b: nat, a: nat, w: nat, x: nat, sg: bool, bl: bool)
    requires w >= 4 && b + w <= |bayer| && a + w <= |bayer| && x < w && Site(x, sg, bl) != GREEN
    ensures var cur, adj := bayer[b..b + w], bayer[a..a + w];
      && Pixel([], cur, adj, x, if bl then 0 else 2, sg, bl) == bayer[b + x]
      && Pixel([], cur, adj, x, GREEN, sg, bl) ==
         (if x == 0 then (bayer[b + 1] as int + bayer[a] as int + 1) / 2
          else if x == w - 1 then (bayer[b + x - 1] as int + bayer[a + x] as int + 1) / 2
          else (bayer[b + x - 1] as int + bayer[b + x + 1] as int + bayer[a + x] as int + 1) / 3)
      && Pixel([], cur, adj, x, if bl then 2 else 0, sg, bl) ==
         (if x == 0 then bayer[a + 1] as int else if x == w - 1 then bayer[a + x - 1] as int
          else (bayer[a + x - 1] as int + bayer[a + x + 1] as int + 1) / 2)
  {
    hide Pixel;
    ColourSite([], bayer[b..b + w], bayer[a..a + w], x, sg, bl);
  }

  /** The pixels a border line starts with: two in front of a coloured row end, one otherwise. */
  method BorderStart(bayer: seq<byte>, b: nat, a: nat, out: array<byte>, start: nat, w: nat, sg: bool, bl: bool)
    returns (o: nat)
    requires w >= 4 && b + w <= |bayer| && a + w <= |bayer| && start + 3 * w <= out.Length
    modifies out
    ensures o == start + (if sg then 6 else 3)
    ensures LineDone(out[..], start, if sg then 2 else 1, [], bayer[b..b + w], bayer[a..a + w], sg, bl)
    ensures forall k | 0 <= k < out.Length && !(start <= k < start + 3 * w) :: out[k] == old(out[k])
  {
    hide Pixel, LineDone;
    ghost var cur, adj := bayer[b..b + w], bayer[a..a + w];
    EmptyLine(out[..], start, [], cur, adj, sg, bl);
    if sg {
      BorderGreen(bayer, b, a, w, 0, sg, bl);
      o := Put(out, start, bl, bayer[b + 1], bayer[b], bayer[a], 0, [], cur, adj, sg);
      BorderColour(bayer, b, a, w, 1, sg, bl);
      var t0: byte := (bayer[b] as int + bayer[b + 2] as int + bayer[a + 1] as int + 1) / 3;
      var t1: byte := (bayer[a] as int + bayer[a + 2] as int + 1) / 2;
      o := Put(out, o, bl, bayer[b + 1], t0, t1, 1, [], cur, adj, sg);
    } else {
      BorderColour(bayer, b, a, w, 0, sg, bl);
      var t0: byte := (bayer[b + 1] as int + bayer[a] as int + 1) / 2;
      o := Put(out, start, bl, bayer[b], t0, bayer[a + 1], 0, [], cur, adj, sg);
    }
  }

  /** A green pixel at cursor `i`, which is not at either end. */
  method BorderGreenPixel(bayer: seq<byte>, b: nat, a: nat, out: array<byte>, start: nat, w: nat, sg: bool, bl: bool,
                          i: nat, o: nat) returns (next: nat)
    requires w >= 4 && b + w <= |bayer| && a + w <= |bayer| && start + 3 * w <= out.Length
    requires i + 2 < w && o == start + 3 * (i + 1) && Site(i + 1, sg, bl) == GREEN
    requires LineDone(out[..], start, i + 1, [], bayer[b..b + w], bayer[a..a + w], sg, bl)
    modifies out
    ensures next == o + 3 && LineDone(out[..], start, i + 2, [], bayer[b..b + w], bayer[a..a + w], sg, bl)
    ensures forall k | 0 <= k < out.Length && !(start <= k < start + 3 * w) :: out[k] == old(out[k])
  {
    hide Pixel, LineDone;
    BorderGreen(bayer, b, a, w, i + 1, sg, bl);
    var t0: byte := (bayer[b + i] as int + bayer[b + i + 2] as int + 1) / 2;
    next := Put(out, o, bl, t0, bayer[b + i + 1], bayer[a + i + 1], i + 1, [], bayer[b..b + w], bayer[a..a + w], sg);
  }

  method BorderColourPixel(bayer: seq<byte>, b: nat, a: nat, out: array<byte>, start: nat, w: nat, sg: bool, bl: bool,
                           i: nat, o: nat) returns (next: nat)
    requires w >= 4 && b + w <= |bayer| && a + w <= |bayer| && start + 3 * w <= out.Length
    requires i + 2 < w && o == start + 3 * (i + 1) && Site(i + 1, sg, bl) != GREEN
    requires LineDone(out[..], start, i + 1, [], bayer[b..b + w], bayer[a..a + w], sg, bl)
    modifies out
    ensures next == o + 3 && LineDone(out[..], start, i + 2, [], bayer[b..b + w], bayer[a..a + w], sg, bl)
    ensures forall k | 0 <= k < out.Length && !(start <= k < start + 3 * w) :: out[k] == old(out[k])
  {
    hide Pixel, LineDone;
    BorderColour(bayer, b, a, w, i + 1, sg, bl);
    var t0: byte := (bayer[b + i] as int + bayer[b + i + 2] as int + bayer[a + i + 1] as int + 1) / 3;
    var t1: byte := (bayer[a + i] as int + bayer[a + i + 2] as int + 1) / 2;
    next := Put(out, o, bl, bayer[b + i + 1], t0, t1, i + 1, [], bayer[b..b + w], bayer[a..a + w], sg);
  }

  /** The last pixels of a border line. */
  method BorderEnd(bayer: seq<byte>, b: nat, a: nat, out: array<byte>, start: nat, w: nat, sg: bool, bl: bool,
                   i: nat, at: nat, rest: nat)
    requires w >= 4 && w % 2 == 0 && b + w <= |bayer| && a + w <= |bayer| && start + 3 * w <= out.Length
    requires 1 <= rest <= 2 && rest == w - i - 1 && i % 2 == (if sg then 1 else 0) && at == start + 3 * (i + 1)
    requires LineDone(out[..], start, i + 1, [], bayer[b..b + w], bayer[a..a + w], sg, bl)
    modifies out
    ensures LineDone(out[..], start, w, [], bayer[b..b + w], bayer[a..a + w], sg, bl)
    ensures forall k | 0 <= k < out.Length && !(start <= k < start + 3 * w) :: out[k] == old(out[k])
  {
    hide Pixel, LineDone;
    ghost var cur, adj := bayer[b..b + w], bayer[a..a + w];
    var o := at;
    if rest == 2 {
      o := BorderGreenPixel(bayer, b, a, out, start, w, sg, bl, i, o);
      BorderColour(bayer, b, a, w, i + 2, sg, bl);
      var t0: byte := (bayer[b + i + 1] as int + bayer[a + i + 2] as int + 1) / 2;
      o := Put(out, o, bl, bayer[b + i + 2], t0, bayer[a + i + 1], i + 2, [], cur, adj, sg);
    } else {
      BorderGreen(bayer, b, a, w, i + 1, sg, bl);
      o := Put(out, o, bl, bayer[b + i], bayer[b + i + 1], bayer[a + i + 1], i + 1, [], cur, adj, sg);
    }
  }

  /** The first or last line; `a` is its only neighbour. */
  method BorderLine(bayer: seq<byte>, b: nat, a: nat, out: array<byte>, start: nat, w: nat, sg: bool, bl: bool)
    requires w >= 4 && w % 2 == 0 && b + w <= |bayer| && a + w <= |bayer| && start + 3 * w <= out.Length
    modifies out
    ensures LineDone(out[..], start, w, [], bayer[b..b + w], bayer[a..a + w], sg, bl)
    ensures forall k | 0 <= k < out.Length && !(start <= k < start + 3 * w) :: out[k] == old(out[k])
  {
    hide Pixel, LineDone;
    ghost var cur, adj := bayer[b..b + w], bayer[a..a + w];
    ghost var s := out[..];
    var o := BorderStart(bayer, b, a, out, start, w, sg, bl);
    var i: nat, rest := if sg then 1 else 0, if sg then w - 2 else w - 1;
    while rest > 2
      invariant rest == w - i - 1 >= 1 && i % 2 == (if sg then 1 else 0) && o == start + 3 * (i + 1)
      invariant LineDone(out[..], start, i + 1, [], cur, adj, sg, bl)
      invariant forall k | 0 <= k < out.Length && !(start <= k < start + 3 * w) :: out[k] == s[k]
    {
      o := BorderGreenPixel(bayer, b, a, out, start, w, sg, bl, i, o);
      i := i + 1;
      o := BorderColourPixel(bayer, b, a, out, start, w, sg, bl, i, o);
      i := i + 1;
      rest := rest - 2;
    }
    BorderEnd(bayer, b, a, out, start, w, sg, bl, i, o, rest);
  }

  // ----- Interior lines: `b` is the row above the line, whose pattern is `sg` and `bl` -----

  ghost predicate InteriorDone(out: seq<byte>, start: nat, to: nat, bayer: seq<byte>, b: nat, w: nat, sg: bool,
                               bl: bool)
    requires b + 3 * w <= |bayer| && to <= w
  {
    LineDone(out, start, to, bayer[b..b + w], bayer[b + w..b + 2 * w], bayer[b + 2 * w..b + 3 * w], !sg, !bl)
  }

  function Interior(bayer: seq<byte>, b: nat, w: nat, x: nat, c: nat, sg: bool, bl: bool): int
    requires b + 3 * w <= |bayer| && x < w
  {
    Pixel(bayer[b..b + w], bayer[b + w..b + 2 * w], bayer[b + 2 * w..b + 3 * w], x, c, !sg, !bl)
  }

  /** The means at a green site between full rows: fewer samples at the ends of the row. */
  lemma GreenValues(above: seq<byte>, cur: seq<byte>, below: seq<byte>, x: nat, sg: bool, bl: bool)
    requires x < |cur| == |above| == |below| && |cur| >= 2 && Site(x, sg, bl) == GREEN
    ensures var own, other := if bl then 0 else 2, if bl then 2 else 0;
      && Pixel(above, cur, below, x, GREEN, sg, bl) == cur[x]
      && Pixel(above, cur, below, x, own, sg, bl) ==
         (if x == 0 then cur[1] as int else if x == |cur| - 1 then cur[x - 1] as int
          else (cur[x - 1] as int + cur[x + 1] as int + 1) / 2)
      && Pixel(above, cur, below, x, other, sg, bl) == (above[x] as int + below[x] as int + 1) / 2
  {
    hide Pixel;
    GreenSite(above, cur, below, x, sg, bl);
  }

  /** The means at a coloured site. */
  lemma ColourValues(above: seq<byte>, cur: seq<byte>, below: seq<byte>, x: nat, sg: bool, bl: bool)
    requires x < |cur| == |above| == |below| && |cur| >= 2 && Site(x, sg, bl) != GREEN
    ensures var own, other := if bl then 0 else 2, if bl then 2 else 0;
      && Pixel(above, cur, below, x, own, sg, bl) == cur[x]
      && Pixel(above, cur, below, x, GREEN, sg, bl) ==
         (if x == 0 then (above[x] as int + below[x] as int + cur[1] as int + 1) / 3
          else if x == |cur| - 1 then (above[x] as int + below[x] as int + cur[x - 1] as int + 1) / 3
          else (above[x] as int + cur[x - 1] as int + cur[x + 1] as int + below[x] as int + 2) / 4)
      && Pixel(above, cur, below, x, other, sg, bl) ==
         (if x == 0 then (above[1] as int + below[1] as int + 1) / 2
          else if x == |cur| - 1 then (above[x - 1] as int + below[x - 1] as int + 1) / 2
          else (above[x - 1] as int + above[x + 1] as int + below[x - 1] as int + below[x + 1] as int + 2) / 4)
  {
    hide Pixel;
    ColourSite(above, cur, below, x, sg, bl);
  }

  lemma InteriorGreen(bayer: seq<byte>, b: nat, w: nat, x: nat, sg: bool, bl: bool)
    requires w >= 4 && b + 3 * w <= |bayer| && x < w && Site(x, !sg, !bl) == GREEN
    ensures Interior(bayer, b, w, x, GREEN, sg, bl) == bayer[b + w + x]
    ensures Interior(bayer, b, w, x, if bl then 2 else 0, sg, bl) ==
      (if x == 0 then bayer[b + w + 1] as int else if x == w - 1 then bayer[b + w + x - 1] as int
       else (bayer[b + w + x - 1] as int + bayer[b + w + x + 1] as int + 1) / 2)
    ensures Interior(bayer, b, w, x, if bl then 0 else 2, sg, bl) ==
      (bayer[b + x] as int + bayer[b + 2 * w + x] as int + 1) / 2
  {
    hide Pixel, Mean, V, N, Site;
    var a, c, d := bayer[b..b + w], bayer[b + w..b + 2 * w], bayer[b + 2 * w..b + 3 * w];
    assert a[x] == bayer[b + x] && c[x] == bayer[b + w + x] && d[x] == bayer[b + 2 * w + x];
    assert x > 0 ==> c[x - 1] == bayer[b + w + x - 1];
    assert x + 1 < w ==> c[x + 1] == bayer[b + w + x + 1];
    GreenValues(a, c, d, x, !sg, !bl);
  }

  lemma InteriorColour(bayer: seq<byte>, b: nat, w: nat, x: nat, sg: bool, bl: bool)
    requires w >= 4 && b + 3 * w <= |bayer| && x < w && Site(x, !sg, !bl) != GREEN
    ensures Interior(bayer, b, w, x, if bl then 2 else 0, sg, bl) == bayer[b + w + x]
    ensures Interior(bayer, b, w, x, GREEN, sg, bl) ==
      (if x == 0 then (bayer[b] as int + bayer[b + 2 * w] as int + bayer[b + w + 1] as int + 1) / 3
       else if x == w - 1 then (bayer[b + x] as int + bayer[b + 2 * w + x] as int + bayer[b + w + x - 1] as int + 1) / 3
       else (bayer[b + x] as int + bayer[b + w + x - 1] as int + bayer[b + w + x + 1] as int +
             bayer[b + 2 * w + x] as int + 2) / 4)
    ensures Interior(bayer, b, w, x, if bl then 0 else 2, sg, bl) ==
      (if x == 0 then (bayer[b + 1] as int + bayer[b + 2 * w + 1] as int + 1) / 2
       else if x == w - 1 then (bayer[b + x - 1] as int + bayer[b + 2 * w + x - 1] as int + 1) / 2
       else (bayer[b + x - 1] as int + bayer[b + x + 1] as int + bayer[b + 2 * w + x - 1] as int +
             bayer[b + 2 * w + x + 1] as int + 2) / 4)
  {
    hide Pixel, Mean, V, N, Site;
    var a, c, d := bayer[b..b + w], bayer[b + w..b + 2 * w], bayer[b + 2 * w..b + 3 * w];
    assert a[x] == bayer[b + x] && c[x] == bayer[b + w + x] && d[x] == bayer[b + 2 * w + x];
    assert x > 0 ==>
      a[x - 1] == bayer[b + x - 1] && c[x - 1] == bayer[b + w + x - 1] && d[x - 1] == bayer[b + 2 * w + x - 1];
    assert x + 1 < w ==>
      a[x + 1] == bayer[b + x + 1] && c[x + 1] == bayer[b + w + x + 1] && d[x + 1] == bayer[b + 2 * w + x + 1];
    ColourValues(a, c, d, x, !sg, !bl);
  }

  /** Stores the next pixel of an interior line: what stems from the rows around first on a blue line. */
  method PutInterior(out: array<byte>, o: nat, own: byte, green: byte, other: byte, bl: bool, ghost x: nat,
                     ghost start: nat, ghost bayer: seq<byte>, ghost b: nat, ghost w: nat, ghost sg: bool)
    returns (next: nat)
    requires b + 3 * w <= |bayer| && x < w && o == start + 3 * x && o + 3 <= out.Length
    requires InteriorDone(out[..], start, x, bayer, b, w, sg, bl)
    requires Interior(bayer, b, w, x, if bl then 2 else 0, sg, bl) == own
    requires Interior(bayer, b, w, x, GREEN, sg, bl) == green
    requires Interior(bayer, b, w, x, if bl then 0 else 2, sg, bl) == other
    modifies out
    ensures next == o + 3 && InteriorDone(out[..], start, x + 1, bayer, b, w, sg, bl)
    ensures forall k | 0 <= k < out.Length && !(o <= k < o + 3) :: out[k] == old(out[k])
  {
    hide Pixel, LineDone;
    next := Put(out, o, !bl, own, green, other, x, bayer[b..b + w], bayer[b + w..b + 2 * w],
                bayer[b + 2 * w..b + 3 * w], !sg);
  }

  method InteriorStart(bayer: seq<byte>, b: nat, out: array<byte>, start: nat, w: nat, sg: bool, bl: bool)
    returns (o: nat)
    requires w >= 4 && b + 3 * w <= |bayer| && start + 3 * w <= out.Length
    modifies out
    ensures o == start + (if sg then 6 else 3) && InteriorDone(out[..], start, if sg then 2 else 1, bayer, b, w, sg, bl)
    ensures forall k | 0 <= k < out.Length && !(start <= k < start + 3 * w) :: out[k] == old(out[k])
  {
    EmptyLine(out[..], start, bayer[b..b + w], bayer[b + w..b + 2 * w], bayer[b + 2 * w..b + 3 * w], !sg, !bl);
    assert InteriorDone(out[..], start, 0, bayer, b, w, sg, bl);
    hide InteriorDone, Interior;
    if sg {
      InteriorColour(bayer, b, w, 0, sg, bl);
      var t0: byte := (bayer[b + 1] as int + bayer[b + w * 2 + 1] as int + 1) / 2;
      var t1: byte := (bayer[b] as int + bayer[b + w * 2] as int + bayer[b + w + 1] as int + 1) / 3;
      o := PutInterior(out, start, bayer[b + w], t1, t0, bl, 0, start, bayer, b, w, sg);
      InteriorGreen(bayer, b, w, 1, sg, bl);
      t1 := (bayer[b + w] as int + bayer[b + w + 2] as int + 1) / 2;
      o := PutInterior(out, o, t1, bayer[b + w + 1], t0, bl, 1, start, bayer, b, w, sg);
    } else {
      InteriorGreen(bayer, b, w, 0, sg, bl);
      var t0: byte := (bayer[b] as int + bayer[b + w * 2] as int + 1) / 2;
      o := PutInterior(out, start, bayer[b + w + 1], bayer[b + w], t0, bl, 0, start, bayer, b, w, sg);
    }
  }

  /** A coloured pixel at cursor `p`, which is not at either end. */
  method InteriorColourPixel(bayer: seq<byte>, p: nat, out: array<byte>, o: nat, w: nat, sg: bool, bl: bool,
                             ghost start: nat, ghost b: nat) returns (next: nat)
    requires w >= 4 && b + 3 * w <= |bayer| && start + 3 * w <= out.Length
    requires b <= p && p + 2 < b + w && o == start + 3 * (p - b + 1) && Site(p - b + 1, !sg, !bl) != GREEN
    requires InteriorDone(out[..], start, p - b + 1, bayer, b, w, sg, bl)
    modifies out
    ensures next == o + 3 && InteriorDone(out[..], start, p - b + 2, bayer, b, w, sg, bl)
    ensures forall k | 0 <= k < out.Length && !(start <= k < start + 3 * w) :: out[k] == old(out[k])
  {
    hide InteriorDone, Interior;
    InteriorColour(bayer, b, w, p - b + 1, sg, bl);
    var t0: byte := (bayer[p] as int + bayer[p + 2] as int +
                     bayer[p + w * 2] as int + bayer[p + w * 2 + 2] as int + 2) / 4;
    var t1: byte := (bayer[p + 1] as int + bayer[p + w] as int +
                     bayer[p + w + 2] as int + bayer[p + w * 2 + 1] as int + 2) / 4;
    next := PutInterior(out, o, bayer[p + w + 1], t1, t0, bl, p - b + 1, start, bayer, b, w, sg);
  }

  /** The last pixels of an interior line: two if it starts with green, else one. */
  method InteriorEnd(bayer: seq<byte>, q: nat, out: array<byte>, at: nat, w: nat, sg: bool, bl: bool,
                     ghost start: nat, b: nat) returns (p: nat)
    requires w >= 4 && w % 2 == 0 && b + 3 * w <= |bayer| && start + 3 * w <= out.Length
    requires q == (if sg then b + w - 3 else b + w - 2) && at == start + 3 * (q - b + 1)
    requires InteriorDone(out[..], start, q - b + 1, bayer, b, w, sg, bl)
    modifies out
    ensures p == b + w - 2 && InteriorDone(out[..], start, w, bayer, b, w, sg, bl)
    ensures forall k | 0 <= k < out.Length && !(start <= k < start + 3 * w) :: out[k] == old(out[k])
  {
    hide InteriorDone, Interior;
    p := q;
    var o, end := at, b + (w - 2);
    if p < end {
      o := InteriorColourPixel(bayer, p, out, o, w, sg, bl, start, b);
      InteriorGreen(bayer, b, w, p - b + 2, sg, bl);
      var t0: byte := (bayer[p + 2] as int + bayer[p + w * 2 + 2] as int + 1) / 2;
      o := PutInterior(out, o, bayer[p + w + 1], bayer[p + w + 2], t0, bl, p - b + 2, start, bayer, b, w, sg);
      p := p + 1;
    } else {
      InteriorColour(bayer, b, w, p - b + 1, sg, bl);
      var t0: byte := (bayer[p] as int + bayer[p + w * 2] as int + 1) / 2;
      var t1: byte := (bayer[p + 1] as int + bayer[p + w * 2 + 1] as int + bayer[p + w] as int + 1) / 3;
      o := PutInterior(out, o, bayer[p + w + 1], t1, t0, bl, p - b + 1, start, bayer, b, w, sg);
    }
  }

  /** One interior line; the cursor ends on the row below the one it started on. */
  method InteriorLine(bayer: seq<byte>, b: nat, out: array<byte>, start: nat, w: nat, sg: bool, bl: bool)
    returns (p: nat)
    requires w >= 4 && w % 2 == 0 && b + 3 * w <= |bayer| && start + 3 * w <= out.Length
    modifies out
    ensures p == b + w && InteriorDone(out[..], start, w, bayer, b, w, sg, bl)
    ensures forall k | 0 <= k < out.Length && !(start <= k < start + 3 * w) :: out[k] == old(out[k])
  {
    hide InteriorDone, Interior;
    ghost var s := out[..];
    var end := b + (w - 2);
    var o := InteriorStart(bayer, b, out, start, w, sg, bl);
    p := if sg then b + 1 else b;
    while p + 2 <= end
      invariant b <= p <= end && (p - b) % 2 == (if sg then 1 else 0) && o == start + 3 * (p - b + 1)
      invariant InteriorDone(out[..], start, p - b + 1, bayer, b, w, sg, bl)
      invariant forall k | 0 <= k < out.Length && !(start <= k < start + 3 * w) :: out[k] == s[k]
    {
      o := InteriorColourPixel(bayer, p, out, o, w, sg, bl, start, b);
      InteriorGreen(bayer, b, w, p - b + 2, sg, bl);
      var t0: byte := (bayer[p + 2] as int + bayer[p + w * 2 + 2] as int + 1) / 2;
      var t1: byte := (bayer[p + w + 1] as int + bayer[p + w + 3] as int + 1) / 2;
      o := PutInterior(out, o, t1, bayer[p + w + 2], t0, bl, p - b + 2, start, bayer, b, w, sg);
      p := p + 2;
    }
    p := InteriorEnd(bayer, p, out, o, w, sg, bl, start, b);
    // skip 2 border pixels
    p := p + 2;
  }

  // ----- The image -----

  function Offset(w: nat, y: nat): nat {
    MulMonotone(w, 0, y);
    y * w
  }

  lemma Offsets(w: nat, y: nat, h: nat)
    requires y < h
    ensures Offset(w, y + 1) == Offset(w, y) + w && Offset(w, y) + w <= Offset(w, h)
  {
    MulMonotone(w, y + 1, h);
  }

  /** Row `y`, or an empty row outside the image. */
  function Row(img: seq<byte>, w: nat, h: nat, y: int): (r: seq<byte>)
    requires Offset(w, h) <= |img|
    ensures |r| == if 0 <= y < h then w else 0
  {
    hide Offset;
    if 0 <= y < h then
      Offsets(w, y, h);
      img[Offset(w, y)..Offset(w, y) + w]
    else []
  }

  /** The demosaiced channel `c` of pixel (x, y); green starts the even rows if `sg`, else the odd ones. */
  function Demosaic(img: seq<byte>, w: nat, h: nat, x: nat, y: nat, c: nat, sg: bool, bl: bool): int
    requires Offset(w, h) <= |img| && x < w && y < h
  {
    hide Offset;
    var even := y % 2 == 0;
    Pixel(Row(img, w, h, y - 1), Row(img, w, h, y), Row(img, w, h, y + 1), x, c, sg == even, bl == even)
  }

  ghost predicate RowDone(out: seq<byte>, img: seq<byte>, w: nat, h: nat, y: nat, sg: bool, bl: bool)
    requires Offset(w, h) <= |img| && y < h
  {
    hide Offset;
    var even := y % 2 == 0;
    LineDone(out, 3 * Offset(w, y), w, Row(img, w, h, y - 1), Row(img, w, h, y), Row(img, w, h, y + 1), sg == even,
             bl == even)
  }

  lemma Mirror(above: seq<byte>, cur: seq<byte>, below: seq<byte>, x: nat, c: nat, sg: bool, bl: bool)
    requires x < |cur|
    ensures Pixel(above, cur, below, x, c, sg, bl) == Pixel(below, cur, above, x, c, sg, bl)
  {
    hide RowSum, RowCount, Mean;
  }

  lemma MirrorLine(out: seq<byte>, o: nat, w: nat, above: seq<byte>, cur: seq<byte>, below: seq<byte>, sg: bool,
                   bl: bool)
    requires w <= |cur| && LineDone(out, o, w, above, cur, below, sg, bl)
    ensures LineDone(out, o, w, below, cur, above, sg, bl)
  {
    hide Pixel;
    forall x, c | 0 <= x < w && 0 <= c < 3
      ensures out[o + 3 * x + c] == Pixel(below, cur, above, x, c, sg, bl)
    {
      Mirror(above, cur, below, x, c, sg, bl);
    }
  }

  lemma RowKept(s: seq<byte>, t: seq<byte>, img: seq<byte>, w: nat, h: nat, y: nat, z: nat, sg: bool, bl: bool)
    requires Offset(w, h) <= |img| && y < z < h && |s| == |t| && RowDone(s, img, w, h, y, sg, bl)
    requires 3 * Offset(w, z) <= |s| && forall k | 0 <= k < 3 * Offset(w, z) :: t[k] == s[k]
    ensures RowDone(t, img, w, h, y, sg, bl)
  {
    hide Pixel, Row, Offset;
    Offsets(w, y, z);
    var o, even := 3 * Offset(w, y), y % 2 == 0;
    LineKept(s, t, o, w, Row(img, w, h, y - 1), Row(img, w, h, y), Row(img, w, h, y + 1), sg == even, bl == even);
  }

  lemma LineKept(s: seq<byte>, t: seq<byte>, o: nat, w: nat, above: seq<byte>, cur: seq<byte>, below: seq<byte>,
                 sg: bool, bl: bool)
    requires w <= |cur| && LineDone(s, o, w, above, cur, below, sg, bl) && |s| == |t|
    requires forall k | o <= k < o + 3 * w :: t[k] == s[k]
    ensures LineDone(t, o, w, above, cur, below, sg, bl)
  {
    hide Pixel;
  }

  /** The rows before `z` are done. */
  ghost predicate RowsDone(out: seq<byte>, img: seq<byte>, w: nat, h: nat, z: nat, sg: bool, bl: bool)
    requires Offset(w, h) <= |img| && z <= h
  {
    forall y | 0 <= y < z :: RowDone(out, img, w, h, y, sg, bl)
  }

  lemma RowsSnoc(s: seq<byte>, t: seq<byte>, img: seq<byte>, w: nat, h: nat, z: nat, sg: bool, bl: bool)
    requires Offset(w, h) <= |img| && z < h && |s| == |t| >= 3 * Offset(w, h) && RowsDone(s, img, w, h, z, sg, bl)
    requires forall k | 0 <= k < |s| && !(3 * Offset(w, z) <= k < 3 * Offset(w, z) + 3 * w) :: t[k] == s[k]
    requires RowDone(t, img, w, h, z, sg, bl)
    ensures RowsDone(t, img, w, h, z + 1, sg, bl)
  {
    hide RowDone, Offset;
    Offsets(w, z, h);
    forall y | 0 <= y < z
      ensures RowDone(t, img, w, h, y, sg, bl)
    {
      RowKept(s, t, img, w, h, y, z, sg, bl);
    }
  }

  /** A border line in terms of the image: the first row, or the last one with its neighbour above. */
  lemma BorderRow(out: seq<byte>, img: seq<byte>, w: nat, h: nat, y: nat, z: nat, sg: bool, bl: bool)
    requires Offset(w, h) <= |img| && h >= 2 && ((y == 0 && z == 1) || (y == h - 1 && z == h - 2))
    requires Offset(w, y) + w <= |img| && Offset(w, z) + w <= |img|
    requires LineDone(out, 3 * Offset(w, y), w, [], img[Offset(w, y)..Offset(w, y) + w],
                      img[Offset(w, z)..Offset(w, z) + w], sg == (y % 2 == 0), bl == (y % 2 == 0))
    ensures RowDone(out, img, w, h, y, sg, bl)
  {
    hide LineDone, Offset;
    if y > 0 {
      MirrorLine(out, 3 * Offset(w, y), w, [], Row(img, w, h, y), Row(img, w, h, z), sg == (y % 2 == 0),
                 bl == (y % 2 == 0));
    }
  }

  lemma InteriorRow(out: seq<byte>, img: seq<byte>, w: nat, h: nat, y: nat, sg: bool, bl: bool)
    requires Offset(w, h) <= |img| && 1 <= y < h - 1 && Offset(w, y - 1) + 3 * w <= |img|
    requires InteriorDone(out, 3 * Offset(w, y), w, img, Offset(w, y - 1), w, sg == (y % 2 == 1), bl == (y % 2 == 1))
    ensures RowDone(out, img, w, h, y, sg, bl)
  {
    hide LineDone, Offset;
    Offsets(w, y - 1, h);
    Offsets(w, y, h);
  }

  /** Demosaics an image of even width; the flags describe its first row. */
  method ToRgbBgr24(bayer: seq<byte>, bgr: array<byte>, w: nat, h: nat, startGreen: bool, blueLine: bool)
    requires w >= 4 && w % 2 == 0 && h >= 2 && |bayer| >= Offset(w, h) && bgr.Length >= 3 * Offset(w, h)
    modifies bgr
    ensures Demosaiced(bgr[..], bayer, w, h, startGreen, blueLine)
    ensures bgr[3 * Offset(w, h)..] == old(bgr[3 * Offset(w, h)..])
  {
    hide LineDone, InteriorDone, RowDone, Offset, RowsDone, Demosaiced;
    Offsets(w, 0, h);
    Offsets(w, 1, h);
    Offsets(w, h - 2, h);
    Offsets(w, h - 1, h);
    FirstOffset(w);
    ghost var s, old0 := bgr[..], bgr[..];
    NoRows(s, bayer, w, h, startGreen, blueLine);
    var sg, bl := startGreen, blueLine;
    BorderLine(bayer, 0, w, bgr, 0, w, sg, bl);
    BorderRow(bgr[..], bayer, w, h, 0, 1, startGreen, blueLine);
    RowsSnoc(s, bgr[..], bayer, w, h, 0, startGreen, blueLine);
    var p, o := 0, 3 * w;
    var rest := h - 2;
    ghost var y := 1;
    while rest != 0
      invariant 0 <= rest && 1 <= y == h - 1 - rest && p == Offset(w, y - 1) && o == 3 * Offset(w, y)
      invariant sg == (startGreen == (y % 2 == 1)) && bl == (blueLine == (y % 2 == 1))
      invariant RowsDone(bgr[..], bayer, w, h, y, startGreen, blueLine)
      invariant forall k | 3 * Offset(w, h) <= k < bgr.Length :: bgr[k] == old0[k]
    {
      Offsets(w, y - 1, h);
      Offsets(w, y, h);
      Offsets(w, y + 1, h);
      s := bgr[..];
      p := InteriorLine(bayer, p, bgr, o, w, sg, bl);
      InteriorRow(bgr[..], bayer, w, h, y, startGreen, blueLine);
      RowsSnoc(s, bgr[..], bayer, w, h, y, startGreen, blueLine);
      o := o + 3 * w;
      sg, bl := !sg, !bl;
      rest, y := rest - 1, y + 1;
    }
    s := bgr[..];
    BorderLine(bayer, p + w, p, bgr, o, w, !sg, !bl);
    BorderRow(bgr[..], bayer, w, h, h - 1, h - 2, startGreen, blueLine);
    RowsSnoc(s, bgr[..], bayer, w, h, h - 1, startGreen, blueLine);
    RowsAreDemosaiced(bgr[..], bayer, w, h, startGreen, blueLine);
  }

  /** Every channel of every pixel is the demosaiced one. */
  ghost predicate Demosaiced(out: seq<byte>, img: seq<byte>, w: nat, h: nat, sg: bool, bl: bool)
    requires Offset(w, h) <= |img|
  {
    3 * Offset(w, h) <= |out| &&
    forall x: nat, y: nat, c: nat :: x < w && y < h && c < 3 ==>
      Byte(out, 3 * (Offset(w, y) + x) + c) == Demosaic(img, w, h, x, y, c, sg, bl)
  }

  function Byte(s: seq<byte>, k: nat): int { if k < |s| then s[k] else -1 }

  lemma RowsAreDemosaiced(out: seq<byte>, img: seq<byte>, w: nat, h: nat, sg: bool, bl: bool)
    requires Offset(w, h) <= |img| && 3 * Offset(w, h) <= |out| && RowsDone(out, img, w, h, h, sg, bl)
    ensures Demosaiced(out, img, w, h, sg, bl)
  {
    hide Offset, Row, Pixel;
    forall x: nat, y: nat, c: nat | x < w && y < h && c < 3
      ensures Byte(out, 3 * (Offset(w, y) + x) + c) == Demosaic(img, w, h, x, y, c, sg, bl)
    {
      assert RowDone(out, img, w, h, y, sg, bl);
      assert out[3 * Offset(w, y) + 3 * x + c] == Demosaic(img, w, h, x, y, c, sg, bl);
    }
  }

  lemma FirstOffset(w: nat)
    ensures Offset(w, 0) == 0 && Offset(w, 1) == w
  {
  }

  lemma NoRows(out: seq<byte>, img: seq<byte>, w: nat, h: nat, sg: bool, bl: bool)
    requires Offset(w, h) <= |img|
    ensures RowsDone(out, img, w, h, 0, sg, bl)
  {
  }

  // ----- The four colour filter arrays -----

  datatype Format = Bggr | Gbrg | Grbg | Rggb
  datatype Colour = Blue | Green | Red

  /** The colour sampled at (x, y), read off the name of the format: its letters are the top left 2x2 cell. */
  function Sampled(fmt: Format, x: nat, y: nat): Colour {
    var k := x % 2 + 2 * (y % 2);
    match fmt
    case Bggr => [Blue, Green, Green, Red][k]
    case Gbrg => [Green, Blue, Red, Green][k]
    case Grbg => [Green, Red, Blue, Green][k]
    case Rggb => [Red, Green, Green, Blue][k]
  }

  /** The channel order of the two outputs, and the flags their wrappers pass. */
  datatype Order = Rgb | Bgr

  function Channel(order: Order, colour: Colour): (c: nat)
    ensures c < 3
  {
    match colour
    case Blue => if order == Rgb then 2 else 0
    case Green => GREEN
    case Red => if order == Rgb then 0 else 2
  }

  predicate StartGreen(fmt: Format) { fmt == Gbrg || fmt == Grbg }

  predicate BlueLine(order: Order, fmt: Format) {
    if order == Rgb then fmt != Bggr && fmt != Gbrg else fmt == Bggr || fmt == Gbrg
  }

  /** With those flags every colour goes into its channel, for all four formats. */
  lemma ChannelsAreColours(order: Order, fmt: Format, x: nat, y: nat)
    ensures var even := y % 2 == 0;
      Site(x, StartGreen(fmt) == even, BlueLine(order, fmt) == even) == Channel(order, Sampled(fmt, x, y))
  {
    assert x % 2 == 0 || x % 2 == 1;
    assert y % 2 == 0 || y % 2 == 1;
    match fmt
    case Bggr =>
    case Gbrg =>
    case Grbg =>
    case Rggb =>
  }

  /** There is a sample of this colour at (x, y). */
  predicate Has(w: nat, h: nat, fmt: Format, x: int, y: int, colour: Colour) {
    0 <= x < w && 0 <= y < h && Sampled(fmt, x, y) == colour
  }

  function Value(img: seq<byte>, w: nat, h: nat, fmt: Format, x: int, y: int, colour: Colour): int
    requires Offset(w, h) <= |img|
  {
    hide Offset;
    if Has(w, h, fmt, x, y, colour) then
      Offsets(w, y, h);
      img[Offset(w, y) + x] as int
    else 0
  }

  function Count(w: nat, h: nat, fmt: Format, x: int, y: int, colour: Colour): int {
    if Has(w, h, fmt, x, y, colour) then 1 else 0
  }

  /** Sum and number of the samples of a colour at (x - 1, y), (x, y) and (x + 1, y). */
  function Total(img: seq<byte>, w: nat, h: nat, fmt: Format, x: int, y: int, colour: Colour): int
    requires Offset(w, h) <= |img|
  {
    Value(img, w, h, fmt, x - 1, y, colour) + Value(img, w, h, fmt, x, y, colour) +
    Value(img, w, h, fmt, x + 1, y, colour)
  }

  function Number(w: nat, h: nat, fmt: Format, x: int, y: int, colour: Colour): int {
    Count(w, h, fmt, x - 1, y, colour) + Count(w, h, fmt, x, y, colour) + Count(w, h, fmt, x + 1, y, colour)
  }

  /** The colour at (x, y): the raw sample, or the rounded mean of the colour's samples in the 3x3 window. */
  function Reconstructed(img: seq<byte>, w: nat, h: nat, fmt: Format, x: nat, y: nat, colour: Colour): int
    requires Offset(w, h) <= |img| && x < w && y < h
  {
    if Has(w, h, fmt, x, y, colour) then Value(img, w, h, fmt, x, y, colour) else
      Mean(Total(img, w, h, fmt, x, y - 1, colour) + Total(img, w, h, fmt, x, y, colour) +
           Total(img, w, h, fmt, x, y + 1, colour),
           Number(w, h, fmt, x, y - 1, colour) + Number(w, h, fmt, x, y, colour) +
           Number(w, h, fmt, x, y + 1, colour))
  }

  /** One place of the window, in a row of the formula and in the image. */
  lemma PlaceIs(order: Order, img: seq<byte>, w: nat, h: nat, fmt: Format, x: int, y: int, colour: Colour, sg: bool,
                bl: bool)
    requires Offset(w, h) <= |img| && sg == (StartGreen(fmt) == (y % 2 == 0))
    requires bl == (BlueLine(order, fmt) == (y % 2 == 0))
    ensures var row, own := Row(img, w, h, y), Site(x, sg, bl) == Channel(order, colour);
      && (if own then V(row, x) else 0) == Value(img, w, h, fmt, x, y, colour)
      && (if own then N(row, x) else 0) == Count(w, h, fmt, x, y, colour)
  {
    hide Offset, Sampled, StartGreen, BlueLine, Site;
    if 0 <= x < w && 0 <= y < h {
      Offsets(w, y, h);
      ChannelsAreColours(order, fmt, x, y);
    }
  }

  lemma RowSumIs(order: Order, img: seq<byte>, w: nat, h: nat, fmt: Format, x: int, y: int, colour: Colour, sg: bool,
                 bl: bool)
    requires Offset(w, h) <= |img| && sg == (StartGreen(fmt) == (y % 2 == 0))
    requires bl == (BlueLine(order, fmt) == (y % 2 == 0))
    ensures RowSum(Row(img, w, h, y), x, Channel(order, colour), sg, bl) == Total(img, w, h, fmt, x, y, colour)
  {
    hide Offset, Row, Site, V, N, Channel, StartGreen, BlueLine, Value, Count;
    PlaceIs(order, img, w, h, fmt, x - 1, y, colour, sg, bl);
    PlaceIs(order, img, w, h, fmt, x, y, colour, sg, bl);
    PlaceIs(order, img, w, h, fmt, x + 1, y, colour, sg, bl);
  }

  lemma RowCountIs(order: Order, img: seq<byte>, w: nat, h: nat, fmt: Format, x: int, y: int, colour: Colour, sg: bool,
                   bl: bool)
    requires Offset(w, h) <= |img| && sg == (StartGreen(fmt) == (y % 2 == 0))
    requires bl == (BlueLine(order, fmt) == (y % 2 == 0))
    ensures RowCount(Row(img, w, h, y), x, Channel(order, colour), sg, bl) == Number(w, h, fmt, x, y, colour)
  {
    hide Offset, Row, Site, V, N, Channel, StartGreen, BlueLine, Value, Count;
    PlaceIs(order, img, w, h, fmt, x - 1, y, colour, sg, bl);
    PlaceIs(order, img, w, h, fmt, x, y, colour, sg, bl);
    PlaceIs(order, img, w, h, fmt, x + 1, y, colour, sg, bl);
  }

  /** A row of the window around row `y`; the flags alternate from row to row. */
  lemma WindowRow(order: Order, img: seq<byte>, w: nat, h: nat, fmt: Format, x: int, y: int, z: int, colour: Colour)
    requires Offset(w, h) <= |img| && y - 1 <= z <= y + 1
    ensures var same := (y == z) == (y % 2 == 0);
      var sg, bl, row := StartGreen(fmt) == same, BlueLine(order, fmt) == same, Row(img, w, h, z);
      && RowSum(row, x, Channel(order, colour), sg, bl) == Total(img, w, h, fmt, x, z, colour)
      && RowCount(row, x, Channel(order, colour), sg, bl) == Number(w, h, fmt, x, z, colour)
  {
    hide Offset, Row, RowSum, RowCount, Total, Number, Channel, StartGreen, BlueLine;
    var same := (y == z) == (y % 2 == 0);
    assert same == (z % 2 == 0);
    RowSumIs(order, img, w, h, fmt, x, z, colour, StartGreen(fmt) == same, BlueLine(order, fmt) == same);
    RowCountIs(order, img, w, h, fmt, x, z, colour, StartGreen(fmt) == same, BlueLine(order, fmt) == same);
  }

  /** With the wrappers' flags the demosaiced channels are the reconstructed colours. */
  lemma ReconstructedIs(order: Order, img: seq<byte>, w: nat, h: nat, fmt: Format, x: nat, y: nat, colour: Colour)
    requires Offset(w, h) <= |img| && x < w && y < h
    ensures Demosaic(img, w, h, x, y, Channel(order, colour), StartGreen(fmt), BlueLine(order, fmt))
         == Reconstructed(img, w, h, fmt, x, y, colour)
  {
    hide Offset, Row, Site, RowSum, RowCount, Total, Number, Mean, StartGreen, BlueLine, Channel, Value, Has;
    var even := y % 2 == 0;
    var sg, bl := StartGreen(fmt) == even, BlueLine(order, fmt) == even;
    WindowRow(order, img, w, h, fmt, x, y, y - 1, colour);
    WindowRow(order, img, w, h, fmt, x, y, y, colour);
    WindowRow(order, img, w, h, fmt, x, y, y + 1, colour);
    NativeChannel(order, img, w, h, fmt, x, y, colour);
  }

  /** The channel of the colour sampled at a pixel is the raw sample. */
  lemma NativeChannel(order: Order, img: seq<byte>, w: nat, h: nat, fmt: Format, x: nat, y: nat, colour: Colour)
    requires Offset(w, h) <= |img| && x < w && y < h
    ensures var even := y % 2 == 0;
      Has(w, h, fmt, x, y, colour) <==>
      Site(x, StartGreen(fmt) == even, BlueLine(order, fmt) == even) == Channel(order, colour)
    ensures Has(w, h, fmt, x, y, colour) ==> Value(img, w, h, fmt, x, y, colour) == Row(img, w, h, y)[x]
  {
    hide Sampled, Offset, Site, StartGreen, BlueLine;
    Offsets(w, y, h);
    ChannelsAreColours(order, fmt, x, y);
  }

  /** Every pixel holds its three reconstructed colours in the given order. */
  ghost predicate ColoursIn(order: Order, out: seq<byte>, img: seq<byte>, w: nat, h: nat, fmt: Format)
    requires Offset(w, h) <= |img|
  {
    forall x: nat, y: nat, colour: Colour :: x < w && y < h ==>
      Byte(out, 3 * (Offset(w, y) + x) + Channel(order, colour)) == Reconstructed(img, w, h, fmt, x, y, colour)
  }

  lemma DemosaicedColours(order: Order, out: seq<byte>, img: seq<byte>, w: nat, h: nat, fmt: Format)
    requires Offset(w, h) <= |img| && Demosaiced(out, img, w, h, StartGreen(fmt), BlueLine(order, fmt))
    ensures ColoursIn(order, out, img, w, h, fmt)
  {
    hide Offset, Demosaic, Reconstructed, StartGreen, BlueLine, Channel;
    forall x: nat, y: nat, colour: Colour | x < w && y < h
      ensures Byte(out, 3 * (Offset(w, y) + x) + Channel(order, colour)) == Reconstructed(img, w, h, fmt, x, y, colour)
    {
      ReconstructedIs(order, img, w, h, fmt, x, y, colour);
    }
  }

  method ToRgb24(bayer: seq<byte>, bgr: array<byte>, w: nat, h: nat, fmt: Format)
    requires w >= 4 && w % 2 == 0 && h >= 2 && |bayer| >= Offset(w, h) && bgr.Length >= 3 * Offset(w, h)
    modifies bgr
    ensures ColoursIn(Rgb, bgr[..], bayer, w, h, fmt)
    ensures bgr[3 * Offset(w, h)..] == old(bgr[3 * Offset(w, h)..])
  {
    hide Offset, Demosaiced, ColoursIn;
    ToRgbBgr24(bayer, bgr, w, h, fmt == Gbrg || fmt == Grbg, fmt != Bggr && fmt != Gbrg);
    DemosaicedColours(Rgb, bgr[..], bayer, w, h, fmt);
  }

  method ToBgr24(bayer: seq<byte>, bgr: array<byte>, w: nat, h: nat, fmt: Format)
    requires w >= 4 && w % 2 == 0 && h >= 2 && |bayer| >= Offset(w, h) && bgr.Length >= 3 * Offset(w, h)
    modifies bgr
    ensures ColoursIn(Bgr, bgr[..], bayer, w, h, fmt)
    ensures bgr[3 * Offset(w, h)..] == old(bgr[3 * Offset(w, h)..])
  {
    hide Offset, Demosaiced, ColoursIn;
    ToRgbBgr24(bayer, bgr, w, h, fmt == Gbrg || fmt == Grbg, fmt == Bggr || fmt == Gbrg);
    DemosaicedColours(Bgr, bgr[..], bayer, w, h, fmt);
  }

  // ----- What a pixel is made of -----

  /** The colour of the sample at (x, y): the letters of the format name the top left four, line by line. */
  lemma SampledIs(fmt: Format, x: nat, y: nat)
    ensures var name := match fmt case Bggr => "BGGR" case Gbrg => "GBRG" case Grbg => "GRBG" case Rggb => "RGGB";
      var letter := name[x % 2 + 2 * (y % 2)];
      Sampled(fmt, x, y) == if letter == 'B' then Blue else if letter == 'G' then Green else Red
  {
  }

  /** Neighbours differ in colour, but for green ones across a corner. */
  lemma ColoursAround(fmt: Format, x: nat, y: nat)
    ensures Sampled(fmt, x + 2, y) == Sampled(fmt, x, y + 2) == Sampled(fmt, x, y)
    ensures Sampled(fmt, x, y) == Green <==> Sampled(fmt, x + 1, y) != Green
    ensures Sampled(fmt, x, y) == Green <==> Sampled(fmt, x, y + 1) != Green
    ensures Sampled(fmt, x, y) != Sampled(fmt, x + 1, y) && Sampled(fmt, x, y) != Sampled(fmt, x, y + 1)
    ensures Sampled(fmt, x, y) == Green ==> Sampled(fmt, x + 1, y) != Sampled(fmt, x, y + 1)
    ensures Sampled(fmt, x, y) != Green ==> Sampled(fmt, x + 1, y + 1) !in {Green, Sampled(fmt, x, y)}
  {
    assert x % 2 == 0 || x % 2 == 1;
    assert y % 2 == 0 || y % 2 == 1;
    match fmt
    case Bggr =>
    case Gbrg =>
    case Grbg =>
    case Rggb =>
  }

  /** Samples of the rows around an inner pixel, by their place in the image. */
  lemma RowSample(img: seq<byte>, w: nat, h: nat, x: nat, y: nat)
    requires Offset(w, h) <= |img| && x < w && y < h
    ensures |Row(img, w, h, y)| == w && 0 <= y * w + x < |img| && Row(img, w, h, y)[x] == img[y * w + x]
    ensures (y + 1) * w == y * w + w
  {
    Offsets(w, y, h);
  }

  lemma InnerRows(img: seq<byte>, w: nat, h: nat, x: nat, y: nat)
    requires Offset(w, h) <= |img| && 1 <= x && x + 1 < w && 1 <= y && y + 1 < h
    ensures var n := y * w + x; n >= w + 1 && n + w + 1 < |img|
    ensures var n, a, c, b := y * w + x, Row(img, w, h, y - 1), Row(img, w, h, y), Row(img, w, h, y + 1);
      && |a| == |c| == |b| == w
      && a[x - 1] == img[n - w - 1] && a[x] == img[n - w] && a[x + 1] == img[n - w + 1]
      && c[x - 1] == img[n - 1] && c[x] == img[n] && c[x + 1] == img[n + 1]
      && b[x - 1] == img[n + w - 1] && b[x] == img[n + w] && b[x + 1] == img[n + w + 1]
  {
    hide Offset, Row;
    ColumnSamples(img, w, h, x - 1, y);
    ColumnSamples(img, w, h, x, y);
    ColumnSamples(img, w, h, x + 1, y);
  }

  lemma ColumnSamples(img: seq<byte>, w: nat, h: nat, x: nat, y: nat)
    requires Offset(w, h) <= |img| && x < w && 1 <= y && y + 1 < h
    ensures var n := y * w + x; n >= w + x && n + w < |img|
    ensures var n, a, c, b := y * w + x, Row(img, w, h, y - 1), Row(img, w, h, y), Row(img, w, h, y + 1);
      |a| == |c| == |b| == w && a[x] == img[n - w] && c[x] == img[n] && b[x] == img[n + w]
  {
    hide Offset, Row;
    MulMonotone(w, 1, y);
    RowSample(img, w, h, x, y - 1);
    RowSample(img, w, h, x, y);
    RowSample(img, w, h, x, y + 1);
  }

  /**
    Inside the image: its own sample, the mean of the two or four nearest samples of each other colour, halves
    rounded up.
  */
  lemma InteriorPixel(img: seq<byte>, w: nat, h: nat, fmt: Format, x: nat, y: nat)
    requires Offset(w, h) <= |img| && 1 <= x && x + 1 < w && 1 <= y && y + 1 < h
    ensures var n := y * w + x; n >= w + 1 && n + w + 1 < |img|
    ensures var n, own := y * w + x, Sampled(fmt, x, y);
      && Reconstructed(img, w, h, fmt, x, y, own) == img[n]
      && (own != Green ==>
            && Reconstructed(img, w, h, fmt, x, y, Green) ==
               (img[n - 1] as int + img[n + 1] as int + img[n - w] as int + img[n + w] as int + 2) / 4
            && Reconstructed(img, w, h, fmt, x, y, if own == Red then Blue else Red) ==
               (img[n - w - 1] as int + img[n - w + 1] as int + img[n + w - 1] as int + img[n + w + 1] as int + 2) / 4)
      && (own == Green ==>
            && Reconstructed(img, w, h, fmt, x, y, Sampled(fmt, x + 1, y)) ==
              (img[n - 1] as int + img[n + 1] as int + 1) / 2
            && Reconstructed(img, w, h, fmt, x, y, Sampled(fmt, x, y + 1)) ==
              (img[n - w] as int + img[n + w] as int + 1) / 2)
  {
    hide Offset, Row, Reconstructed, Pixel, Sampled, StartGreen, BlueLine;
    InnerRows(img, w, h, x, y);
    var own, even := Sampled(fmt, x, y), y % 2 == 0;
    var sg, bl := StartGreen(fmt) == even, BlueLine(Rgb, fmt) == even;
    ChannelsAreColours(Rgb, fmt, x, y);
    ChannelsAreColours(Rgb, fmt, x + 1, y);
    ChannelsAreColours(Rgb, fmt, x, y + 1);
    ColoursAround(fmt, x, y);
    ReconstructedIs(Rgb, img, w, h, fmt, x, y, own);
    if own == Green {
      ReconstructedIs(Rgb, img, w, h, fmt, x, y, Sampled(fmt, x + 1, y));
      ReconstructedIs(Rgb, img, w, h, fmt, x, y, Sampled(fmt, x, y + 1));
      GreenValues(Row(img, w, h, y - 1), Row(img, w, h, y), Row(img, w, h, y + 1), x, sg, bl);
    } else {
      ReconstructedIs(Rgb, img, w, h, fmt, x, y, Green);
      ReconstructedIs(Rgb, img, w, h, fmt, x, y, if own == Red then Blue else Red);
      ColourValues(Row(img, w, h, y - 1), Row(img, w, h, y), Row(img, w, h, y + 1), x, sg, bl);
    }
  }

  /** A scene of one colour: sampled through the filters of the format, it comes out as it was. */
  lemma SceneReproduced(order: Order, out: seq<byte>, img: seq<byte>, w: nat, h: nat, fmt: Format, r: byte, g: byte,
                        b: byte, x: nat, y: nat)
    requires Offset(w, h) <= |img| && ColoursIn(order, out, img, w, h, fmt) && w >= 2 && h >= 2 && x < w && y < h
    requires forall i: nat, j: nat | i < w && j < h ::
      Row(img, w, h, j)[i] == match Sampled(fmt, i, j) case Red => r case Green => g case Blue => b
    ensures Byte(out, 3 * (Offset(w, y) + x)) == if order == Rgb then r else b
    ensures Byte(out, 3 * (Offset(w, y) + x) + 1) == g
    ensures Byte(out, 3 * (Offset(w, y) + x) + 2) == if order == Rgb then b else r
  {
    hide Offset, Row, Sampled, Reconstructed;
    forall colour: Colour
      ensures Reconstructed(img, w, h, fmt, x, y, colour) == match colour case Red => r case Green => g case Blue => b
    {
      OneColour(img, w, h, fmt, x, y, colour, match colour case Red => r case Green => g case Blue => b);
    }
    assert Channel(order, Green) == 1;
    assert forall colour: Colour :: Byte(out, 3 * (Offset(w, y) + x) + Channel(order, colour))
                                 == Reconstructed(img, w, h, fmt, x, y, colour);
    assert Byte(out, 3 * (Offset(w, y) + x) + Channel(order, Red)) == r;
    assert Byte(out, 3 * (Offset(w, y) + x) + Channel(order, Green)) == g;
    assert Byte(out, 3 * (Offset(w, y) + x) + Channel(order, Blue)) == b;
  }

  /** If all samples of a colour are the same, so is that colour of every pixel. */
  lemma OneColour(img: seq<byte>, w: nat, h: nat, fmt: Format, x: nat, y: nat, colour: Colour, v: byte)
    requires Offset(w, h) <= |img| && w >= 2 && h >= 2 && x < w && y < h
    requires forall i: nat, j: nat | i < w && j < h && Sampled(fmt, i, j) == colour :: Row(img, w, h, j)[i] == v
    ensures Reconstructed(img, w, h, fmt, x, y, colour) == v
  {
    hide Offset, Row, Sampled, Value, Mean;
    forall i: int, j: int | Has(w, h, fmt, i, j, colour)
      ensures Value(img, w, h, fmt, i, j, colour) == v
    {
      ValueIs(img, w, h, fmt, i, j, colour);
    }
    if Sampled(fmt, x, y) != colour {
      Three(img, w, h, fmt, x, y - 1, colour, v);
      Three(img, w, h, fmt, x, y, colour, v);
      Three(img, w, h, fmt, x, y + 1, colour, v);
      var a, c := Number(w, h, fmt, x, y - 1, colour), Number(w, h, fmt, x, y, colour);
      var b := Number(w, h, fmt, x, y + 1, colour);
      SomeSample(w, h, fmt, x, y, colour);
      FlatMean(a, c, b, v);
    }
  }

  lemma ValueIs(img: seq<byte>, w: nat, h: nat, fmt: Format, x: int, y: int, colour: Colour)
    requires Offset(w, h) <= |img|
    ensures Value(img, w, h, fmt, x, y, colour) ==
      if Has(w, h, fmt, x, y, colour) then Row(img, w, h, y)[x] as int else 0
  {
    hide Offset;
    if Has(w, h, fmt, x, y, colour) {
      Offsets(w, y, h);
    }
  }

  lemma Three(img: seq<byte>, w: nat, h: nat, fmt: Format, x: int, y: int, colour: Colour, v: byte)
    requires Offset(w, h) <= |img|
    requires forall i: int, j: int | Has(w, h, fmt, i, j, colour) :: Value(img, w, h, fmt, i, j, colour) == v
    ensures Total(img, w, h, fmt, x, y, colour) == Number(w, h, fmt, x, y, colour) * v
    ensures 0 <= Number(w, h, fmt, x, y, colour) <= 3
  {
    hide Offset, Has, Value, Count;
    CountTimes(img, w, h, fmt, x - 1, y, colour, v);
    CountTimes(img, w, h, fmt, x, y, colour, v);
    CountTimes(img, w, h, fmt, x + 1, y, colour, v);
    Sum3(Count(w, h, fmt, x - 1, y, colour), Count(w, h, fmt, x, y, colour), Count(w, h, fmt, x + 1, y, colour), v);
  }

  lemma CountTimes(img: seq<byte>, w: nat, h: nat, fmt: Format, x: int, y: int, colour: Colour, v: byte)
    requires Offset(w, h) <= |img|
    requires forall i: int, j: int | Has(w, h, fmt, i, j, colour) :: Value(img, w, h, fmt, i, j, colour) == v
    ensures 0 <= Count(w, h, fmt, x, y, colour) <= 1
    ensures Value(img, w, h, fmt, x, y, colour) == Count(w, h, fmt, x, y, colour) * v
  {
    hide Offset, Has;
    ValueIs(img, w, h, fmt, x, y, colour);
  }

  /** Every colour is sampled next to each pixel that does not sample it. */
  lemma SomeSample(w: nat, h: nat, fmt: Format, x: nat, y: nat, colour: Colour)
    requires w >= 2 && h >= 2 && x < w && y < h && Sampled(fmt, x, y) != colour
    ensures Number(w, h, fmt, x, y - 1, colour) + Number(w, h, fmt, x, y, colour) +
      Number(w, h, fmt, x, y + 1, colour) > 0
  {
    hide Sampled;
    var i, j := if x > 0 then x - 1 else x + 1, if y > 0 then y - 1 else y + 1;
    CellHas(fmt, x, y, i, j, colour);
    assert Has(w, h, fmt, i, y, colour) || Has(w, h, fmt, x, j, colour) || Has(w, h, fmt, i, j, colour);
    hide Has;
  }

  lemma CellHas(fmt: Format, x: nat, y: nat, i: nat, j: nat, colour: Colour)
    requires (i == x + 1 || i + 1 == x) && (j == y + 1 || j + 1 == y)
    ensures colour in {Sampled(fmt, x, y), Sampled(fmt, i, y), Sampled(fmt, x, j), Sampled(fmt, i, j)}
  {
    assert i % 2 == 1 - x % 2 && j % 2 == 1 - y % 2;
    assert x % 2 == 0 || x % 2 == 1;
    assert y % 2 == 0 || y % 2 == 1;
    match fmt
    case Bggr =>
    case Gbrg =>
    case Grbg =>
    case Rggb =>
  }

  // ----- A scene of one colour -----

  /** Every sample of channel `c` in the row is `v`. */
  ghost predicate Flat(row: seq<byte>, c: nat, v: byte, sg: bool, bl: bool) {
    forall x | 0 <= x < |row| && Site(x, sg, bl) == c :: row[x] == v
  }

  lemma FlatRow(row: seq<byte>, x: nat, c: nat, v: byte, sg: bool, bl: bool)
    requires Flat(row, c, v, sg, bl)
    ensures RowSum(row, x, c, sg, bl) == RowCount(row, x, c, sg, bl) * v
  {
    hide Site;
    SiteAlternates(x, sg, bl);
  }

  lemma SiteAlternates(x: nat, sg: bool, bl: bool)
    ensures Site(x - 1, sg, bl) == Site(x + 1, sg, bl) != Site(x, sg, bl)
  {
  }

  lemma MeanOfEqual(n: int, v: byte)
    requires n >= 1
    ensures Mean(n * v, n) == v
  {
    DivMod(v, n, n / 2);
  }

  lemma FlatMean(a: int, m: int, b: int, v: byte)
    requires a + m + b >= 1
    ensures Mean(a * v + m * v + b * v, a + m + b) == v
  {
    hide Mean;
    Sum3(a, m, b, v);
    MeanOfEqual(a + m + b, v);
  }

  /** Demosaicing a scene of one colour reproduces it, up to and including the borders. */
  lemma FlatScene(above: seq<byte>, cur: seq<byte>, below: seq<byte>, x: nat, c: nat, v: byte, sg: bool, bl: bool)
    requires x < |cur| && |cur| >= 2 && c < 3
    requires (|above| == |cur| && |below| == 0) || (|above| == 0 && |below| == |cur|) || |above| == |cur| == |below|
    requires Flat(above, c, v, !sg, !bl) && Flat(cur, c, v, sg, bl) && Flat(below, c, v, !sg, !bl)
    ensures Pixel(above, cur, below, x, c, sg, bl) == v
  {
    hide Site, RowCount, RowSum, Mean;
    if Site(x, sg, bl) != c {
      hide Flat;
      FlatRow(above, x, c, v, !sg, !bl);
      FlatRow(cur, x, c, v, sg, bl);
      FlatRow(below, x, c, v, !sg, !bl);
      FlatNeighbour(above, cur, below, x, c, v, sg, bl);
      FlatMean(RowCount(above, x, c, !sg, !bl), RowCount(cur, x, c, sg, bl), RowCount(below, x, c, !sg, !bl), v);
    }
  }

  lemma FlatNeighbour(above: seq<byte>, cur: seq<byte>, below: seq<byte>, x: nat, c: nat, v: byte, sg: bool, bl: bool)
    requires x < |cur| && |cur| >= 2 && c < 3 && Site(x, sg, bl) != c
    requires (|above| == |cur| && |below| == 0) || (|above| == 0 && |below| == |cur|) || |above| == |cur| == |below|
    requires Flat(above, c, v, !sg, !bl) && Flat(cur, c, v, sg, bl) && Flat(below, c, v, !sg, !bl)
    ensures RowCount(above, x, c, !sg, !bl) + RowCount(cur, x, c, sg, bl) + RowCount(below, x, c, !sg, !bl) >= 1
  {
    hide Site, RowCount, RowSum, Flat;
    CountBounds(above, x, c, !sg, !bl);
    CountBounds(cur, x, c, sg, bl);
    CountBounds(below, x, c, !sg, !bl);
    SomeNeighbour(x, c, sg, bl);
    SiteAlternates(x, sg, bl);
    SiteAlternates(x, !sg, !bl);
  }

  lemma CountBounds(row: seq<byte>, x: nat, c: nat, sg: bool, bl: bool)
    ensures RowCount(row, x, c, sg, bl) >= 0
    ensures x + 1 < |row| && Site(x + 1, sg, bl) == c ==> RowCount(row, x, c, sg, bl) >= 1
    ensures 1 <= x <= |row| && Site(x - 1, sg, bl) == c ==> RowCount(row, x, c, sg, bl) >= 1
    ensures x < |row| && Site(x, sg, bl) == c ==> RowCount(row, x, c, sg, bl) >= 1
  {
    hide Site;
  }

  lemma Sum3(a: int, m: int, b: int, v: int)
    ensures a * v + m * v + b * v == (a + m + b) * v
  {
  }

  lemma SomeNeighbour(x: nat, c: nat, sg: bool, bl: bool)
    requires c < 3 && Site(x, sg, bl) != c
    ensures Site(x + 1, sg, bl) == c || Site(x, !sg, !bl) == c || Site(x + 1, !sg, !bl) == c
  {
  }
}
