/**
  HM12: luma and interleaved chroma stored in 16x16 tiles, 45 tiles to a row, untiled either to
  RGB pixels or to a planar YUV 4:2:0 frame.
*/
module Hm12 {
  import opened Bits
  import opened Memory

  // ----- The tile address maps -----

  const STRIDE: nat := 720
  const TILE: nat := 256

  /** Where the luma sample of pixel (px, py) is stored. */
  function LumaAt(px: nat, py: nat): nat {
    (py / 16 * 45 + px / 16) * TILE + py % 16 * 16 + px % 16
  }

  /** Where the first chroma sample of cell (px, py) is stored in the chroma region; the second one follows it. */
  function ChromaAt(px: nat, py: nat): nat {
    (py / 16 * 45 + px / 8) * TILE + py % 16 * 16 + px % 8 * 2
  }

  /** No two samples of a region share an address. */
  lemma LumaInjective(px: nat, py: nat, px': nat, py': nat)
    requires px < STRIDE && px' < STRIDE && LumaAt(px, py) == LumaAt(px', py')
    ensures px == px' && py == py'
  {
    LumaParts(py / 16, px / 16, py % 16, px % 16, py' / 16, px' / 16, py' % 16, px' % 16);
  }

  lemma LumaParts(a: nat, b: nat, r: nat, c: nat, a': nat, b': nat, r': nat, c': nat)
    requires b < 45 && b' < 45 && r < 16 && c < 16 && r' < 16 && c' < 16
    requires (a * 45 + b) * TILE + r * 16 + c == (a' * 45 + b') * TILE + r' * 16 + c'
    ensures a == a' && b == b' && r == r' && c == c'
  {
    TileInjective(a, b, r * 16 + c, a', b', r' * 16 + c');
  }

  lemma ChromaInjective(px: nat, py: nat, v: nat, px': nat, py': nat, v': nat)
    requires px < STRIDE / 2 && px' < STRIDE / 2 && v < 2 && v' < 2 && ChromaAt(px, py) + v == ChromaAt(px', py') + v'
    ensures px == px' && py == py' && v == v'
  {
    LumaParts(py / 16, px / 8, py % 16, px % 8 * 2 + v, py' / 16, px' / 8, py' % 16, px' % 8 * 2 + v');
  }

  lemma TileInjective(a: nat, b: nat, o: nat, a': nat, b': nat, o': nat)
    requires b < 45 && b' < 45 && o < 256 && o' < 256 && (a * 45 + b) * TILE + o == (a' * 45 + b') * TILE + o'
    ensures a == a' && b == b' && o == o'
  {
  }

  /** A region of `rows` lines fills its tiles, and nothing beyond the last row of tiles. */
  lemma RegionBounds(px: nat, py: nat, rows: nat)
    requires py < rows
    ensures px < STRIDE ==> LumaAt(px, py) < STRIDE * RoundUp(rows)
    ensures px < STRIDE / 2 ==> ChromaAt(px, py) + 1 < STRIDE * RoundUp(rows)
  {
    var a := py / 16;
    assert RoundUp(rows) >= 16 * a + 16;
    assert px < STRIDE ==> px / 16 < 45;
    assert px < STRIDE / 2 ==> px / 8 < 45;
    hide RoundUp;
  }

  function RoundUp(rows: nat): nat { (rows + 15) / 16 * 16 }

  /** No luma sample lies at or behind the start of the chroma region exactly for heights that are multiples of 16. */
  lemma RegionsDisjoint(height: nat)
    ensures (forall px: nat, py: nat :: px < STRIDE && py < height ==> LumaAt(px, py) < STRIDE * height)
      <==> height % 16 == 0
  {
    hide LumaAt;
    if height % 16 == 0 {
      assert RoundUp(height) == height;
      hide RoundUp;
      forall px: nat, py: nat | px < STRIDE && py < height
        ensures LumaAt(px, py) < STRIDE * height
      {
        RegionBounds(px, py, height);
      }
    } else {
      LastSample(height);
    }
  }

  lemma LastSample(height: nat)
    requires height % 16 != 0
    ensures LumaAt(STRIDE - 1, height - 1) >= STRIDE * height
  {
    var a, r := height / 16, height % 16;
    assert (height - 1) / 16 == a && (height - 1) % 16 == r - 1;
  }

  /** Some luma sample and some chroma sample of an image with full lines are the same byte. */
  ghost predicate Shared(height: nat) {
    exists px: nat, py: nat, qx: nat, qy: nat, v: nat :: SharedAt(height, px, py, qx, qy, v)
  }

  predicate SharedAt(height: nat, px: nat, py: nat, qx: nat, qy: nat, v: nat) {
    && px < STRIDE && py < height && qx < STRIDE / 2 && qy < height / 2 && v < 2
    && LumaAt(px, py) == STRIDE * height + ChromaAt(qx, qy) + v
  }

  /** Among even heights, that happens exactly if the height is no multiple of 16 and none of four small ones. */
  lemma RegionsOverlap(height: nat)
    requires height % 2 == 0
    ensures Shared(height) <==> height % 16 != 0 && height !in {2, 4, 8, 20}
  {
    if height % 16 == 0 {
      RegionsDisjoint(height);
    } else if height in {2, 4, 8, 20} {
      forall px: nat, py: nat, qx: nat, qy: nat, v: nat
        ensures !SharedAt(height, px, py, qx, qy, v)
      {
        NoSharedByte(height, px, py, qx, qy, v);
      }
    } else {
      SharedByte(height);
    }
  }

  /** The first row of chroma tiles begins 720 * (height % 16) bytes into the last row of luma tiles. */
  lemma SharedByte(height: nat)
    requires height % 2 == 0 && height % 16 != 0 && height !in {2, 4, 8, 20}
    ensures Shared(height)
  {
    hide SharedAt, Shared;
    var a, r := height / 16, height % 16;
    assert height == 16 * a + r && r % 2 == 0;
    assert r == 2 || r == 4 || r == 8 ==> a > 0;
    assert r == 4 ==> a > 1;
    match r {
      case 2 => SharedFrom(height, a, 2, -6, 6);
      case 4 => SharedFrom(height, a, 4, -12, 12);
      case 6 => SharedFrom(height, a, 6, -2, 17);
      case 8 => SharedFrom(height, a, 8, -8, 23);
      case 10 => SharedFrom(height, a, 10, 2, 28);
      case 12 => SharedFrom(height, a, 12, -4, 34);
      case _ => SharedFrom(height, a, 14, 6, 39);
    }
  }

  lemma SharedFrom(height: nat, a: nat, r: nat, e: int, b: nat)
    requires height == 16 * a + r >= 2 && e < r < 16 && 16 * b == 45 * r - e && b < 45
    requires e < 0 ==> -e < 16 && 2 - 2 * e <= height
    ensures Shared(height)
  {
    hide LumaAt, ChromaAt, LumaTile;
    var i, i' := if e > 0 then e else 0, if e < 0 then -e else 0;
    LumaCursor(a, b, i, 0);
    UvCursor(0, 0, i', 0);
    SharedSum(a, b, r, e, i, i');
    assert 2 * i' + 2 <= height && i' < height / 2;
    assert SharedAt(height, 16 * b + 0, 16 * a + i, 8 * 0 + 0, 16 * 0 + i', 0);
  }

  lemma SharedSum(a: nat, b: nat, r: nat, e: int, i: nat, i': nat)
    requires 16 * b == 45 * r - e && i - i' == e
    ensures LumaTile(a, b) + 16 * i == STRIDE * (16 * a + r) + LumaTile(0, 0) + 16 * i'
  {
  }

  lemma NoSharedByte(height: nat, px: nat, py: nat, qx: nat, qy: nat, v: nat)
    requires height in {2, 4, 8, 20}
    ensures !SharedAt(height, px, py, qx, qy, v)
  {
    hide LumaAt, ChromaAt, LumaTile;
    if px < STRIDE && py < height && qx < STRIDE / 2 && qy < height / 2 && v < 2 {
      var a, b, i, j := py / 16, px / 16, py % 16, px % 16;
      var c, k := qx / 8, qx % 8;
      LumaCursor(a, b, i, j);
      UvCursor(0, c, qy, k);
      assert py == 16 * a + i && px == 16 * b + j && qx == 8 * c + k && b < 45 && qy < 16;
      if 16 * a + 16 <= height {
        FullRow(height, a, b, 16 * i + j);
      } else {
        NoSharedRow(height, a, b, i, j, c, 16 * qy + 2 * k + v);
      }
    }
  }

  /** A full row of luma tiles ends before the chroma region. */
  lemma FullRow(height: nat, a: nat, b: nat, o: nat)
    requires 16 * a + 16 <= height && b < 45 && o < TILE
    ensures LumaTile(a, b) + o < STRIDE * height
  {
  }

  lemma NoSharedRow(height: nat, a: nat, b: nat, i: nat, j: nat, c: nat, o: nat)
    requires height in {2, 4, 8, 20} && 16 * a + i < height < 16 * a + 16 && j < 16 && o < 16 * (height / 2)
    ensures LumaTile(a, b) + 16 * i + j != STRIDE * height + LumaTile(0, c) + o
  {
    assert a == if height == 20 then 1 else 0;
    assert height != 20 ==> i < height;
    NoGap(height, 16 * i + j, o, b - c);
  }

  lemma NoGap(height: nat, o: nat, o': nat, t: int)
    requires height in {2, 4, 8, 20} && o < 16 * (height % 16) && o' < 16 * (height / 2)
    ensures TILE * t + o != STRIDE * (height % 16) + o'
  {
  }

  // ----- Walking a plane tile by tile -----

  /** A plane of `w` by `h` cells of `bpp` bytes at `base`, walked in tiles of `tw` by 16. */
  datatype Walk = Walk(base: nat, bpp: nat, w: nat, h: nat, tw: nat) {
    function Size(): nat { bpp * (w * h) }
    ghost predicate Fits(d: seq<byte>) { base + Size() <= |d| }
  }

  type Samples = (nat, nat) -> seq<byte>

  function Pos(k: Walk, px: nat, py: nat): nat { k.base + k.bpp * (px + py * k.w) }

  lemma PosNext(k: Walk, px: nat, py: nat)
    ensures Pos(k, px, py) == k.base + k.bpp * (px + py * k.w)
    ensures Pos(k, px + 1, py) == Pos(k, px, py) + k.bpp
  {
  }

  function Index(w: nat, px: nat, py: nat): nat { px + py * w }

  /** In a plane of bytes. */
  lemma ByteNext(k: Walk, px: nat, py: nat)
    requires k.bpp == 1
    ensures Pos(k, px, py) == k.base + Index(k.w, px, py) && Pos(k, px + 1, py) == Pos(k, px, py) + 1
  {
  }

  lemma PosBounds(k: Walk, px: nat, py: nat)
    requires px < k.w && py < k.h
    ensures k.base <= Pos(k, px, py) && Pos(k, px, py) + k.bpp <= k.base + k.Size()
  {
    var n, total := px + py * k.w, k.w * k.h;
    MulMonotone(k.w, py + 1, k.h);
    Scaled(k.bpp, n, total);
  }

  lemma Scaled(b: nat, n: nat, total: nat)
    requires n < total
    ensures 0 <= b * n && b * n + b <= b * total
  {
    MulMonotone(b, n + 1, total);
  }

  lemma PosApart(k: Walk, px: nat, py: nat, px': nat, py': nat)
    requires px < k.w && px' < k.w && (px, py) != (px', py')
    ensures Pos(k, px, py) + k.bpp <= Pos(k, px', py') || Pos(k, px', py') + k.bpp <= Pos(k, px, py)
  {
    if py < py' || (py == py' && px < px') {
      PosBefore(k, px, py, px', py');
    } else {
      PosBefore(k, px', py', px, py);
    }
  }

  lemma PosBefore(k: Walk, px: nat, py: nat, px': nat, py': nat)
    requires px < k.w && (py < py' || (py == py' && px < px'))
    ensures Pos(k, px, py) + k.bpp <= Pos(k, px', py')
  {
    var m, n := px + py * k.w, px' + py' * k.w;
    assert m < n by {
      if py < py' {
        MulMonotone(k.w, py + 1, py');
      }
    }
    MulMonotone(k.bpp, m + 1, n);
  }

  /** Cell (px, py) comes before line `i`, column `j` of the tile at (x, y). */
  predicate Done(tw: nat, px: nat, py: nat, y: nat, x: nat, i: nat, j: nat) {
    py < y || (py < y + 16 && (px < x || (px < x + tw && (py < y + i || (py == y + i && px < x + j)))))
  }

  ghost predicate CellIs(d: seq<byte>, p: nat, v: seq<byte>) {
    p + |v| <= |d| && d[p..p + |v|] == v
  }

  /** The cells stored so far. */
  type Record = iset<(nat, nat)>

  /** Exactly the cells walked so far have been stored, and they hold their samples. */
  ghost predicate Filled(d: seq<byte>, k: Walk, val: Samples, stored: Record, y: nat, x: nat, i: nat, j: nat) {
    && k.Fits(d)
    && (forall px: nat, py: nat :: (px, py) in stored <==> px < k.w && py < k.h && Done(k.tw, px, py, y, x, i, j))
    && (forall px: nat, py: nat :: (px, py) in stored ==> CellIs(d, Pos(k, px, py), val(px, py)))
  }

  /** The whole plane has been stored and holds its samples. */
  ghost predicate Plane(d: seq<byte>, k: Walk, val: Samples) {
    k.Fits(d) && forall px: nat, py: nat :: px < k.w && py < k.h ==> CellIs(d, Pos(k, px, py), val(px, py))
  }

  ghost predicate AllStored(stored: Record, k: Walk) {
    forall px: nat, py: nat :: (px, py) in stored <==> px < k.w && py < k.h
  }

  /** Progress of a walk: `Filled`, and nothing written outside the plane. */
  ghost predicate Walked(d: seq<byte>, was: seq<byte>, k: Walk, val: Samples, stored: Record, y: nat, x: nat, i: nat,
                         j: nat) {
    Filled(d, k, val, stored, y, x, i, j) && Kept(d, was, k.base, k.base + k.Size())
  }

  lemma WalkStart(d: seq<byte>, k: Walk, val: Samples)
    requires k.Fits(d)
    ensures Walked(d, d, k, val, iset{}, 0, 0, 0, 0)
  {
  }

  lemma WalkedFits(d: seq<byte>, was: seq<byte>, k: Walk, val: Samples, stored: Record, y: nat, x: nat, i: nat, j: nat)
    requires Walked(d, was, k, val, stored, y, x, i, j)
    ensures k.Fits(d)
  {
  }

  /** The next cell has not been stored before. */
  lemma NotYetStored(d: seq<byte>, k: Walk, val: Samples, stored: Record, y: nat, x: nat, i: nat, j: nat)
    requires Filled(d, k, val, stored, y, x, i, j) && i < 16
    ensures (x + j, y + i) !in stored
  {
  }

  /** One more cell. */
  lemma FillCell(d: seq<byte>, e: seq<byte>, k: Walk, val: Samples, stored: Record, y: nat, x: nat, i: nat, j: nat)
    requires Filled(d, k, val, stored, y, x, i, j) && i < 16 && j < k.tw && x + j < k.w && y + i < k.h
    requires forall px: nat, py: nat :: |val(px, py)| == k.bpp
    requires |e| == |d| && CellIs(e, Pos(k, x + j, y + i), val(x + j, y + i))
    requires forall q :: 0 <= q < |d| && (q < Pos(k, x + j, y + i) || Pos(k, x + j, y + i) + k.bpp <= q) ==>
      e[q] == d[q]
    ensures Filled(e, k, val, stored + iset{(x + j, y + i)}, y, x, i, j + 1)
  {
    hide Pos;
    forall px: nat, py: nat | (px, py) in stored
      ensures CellIs(e, Pos(k, px, py), val(px, py))
    {
      if (px, py) != (x + j, y + i) {
        PosApart(k, px, py, x + j, y + i);
        assert CellIs(d, Pos(k, px, py), val(px, py));
      }
    }
  }

  lemma WalkCell(d: seq<byte>, e: seq<byte>, was: seq<byte>, k: Walk, val: Samples, stored: Record, y: nat, x: nat,
                 i: nat, j: nat)
    requires Walked(d, was, k, val, stored, y, x, i, j) && i < 16 && j < k.tw && x + j < k.w && y + i < k.h
    requires forall px: nat, py: nat :: |val(px, py)| == k.bpp
    requires |e| == |d| && CellIs(e, Pos(k, x + j, y + i), val(x + j, y + i))
    requires forall q :: 0 <= q < |d| && (q < Pos(k, x + j, y + i) || Pos(k, x + j, y + i) + k.bpp <= q) ==>
      e[q] == d[q]
    ensures Walked(e, was, k, val, stored + iset{(x + j, y + i)}, y, x, i, j + 1)
  {
    PosBounds(k, x + j, y + i);
    FillCell(d, e, k, val, stored, y, x, i, j);
    hide Pos, Filled, CellIs;
  }

  /** The end of a row, tile or band of tiles is the start of the next. */
  lemma FillNext(d: seq<byte>, k: Walk, val: Samples, stored: Record, y: nat, x: nat, i: nat, j: nat,
                 y': nat, x': nat, i': nat, j': nat)
    requires Filled(d, k, val, stored, y, x, i, j)
    requires forall px: nat, py: nat :: px < k.w && py < k.h ==>
      (Done(k.tw, px, py, y', x', i', j') <==> Done(k.tw, px, py, y, x, i, j))
    ensures Filled(d, k, val, stored, y', x', i', j')
  {
    hide Done, CellIs, Pos;
  }

  lemma WalkNext(d: seq<byte>, was: seq<byte>, k: Walk, val: Samples, stored: Record, y: nat, x: nat, i: nat, j: nat,
                 y': nat, x': nat, i': nat, j': nat)
    requires Walked(d, was, k, val, stored, y, x, i, j)
    requires forall px: nat, py: nat :: px < k.w && py < k.h ==>
      (Done(k.tw, px, py, y', x', i', j') <==> Done(k.tw, px, py, y, x, i, j))
    ensures Walked(d, was, k, val, stored, y', x', i', j')
  {
    hide Filled, Done;
    FillNext(d, k, val, stored, y, x, i, j, y', x', i', j');
  }

  /** Writing elsewhere does no harm. */
  lemma FillElsewhere(d: seq<byte>, e: seq<byte>, k: Walk, val: Samples, stored: Record, y: nat, x: nat, i: nat, j: nat,
                      lo: nat, hi: nat)
    requires Filled(d, k, val, stored, y, x, i, j) && Kept(e, d, lo, hi) && (hi <= k.base || k.base + k.Size() <= lo)
    requires forall px: nat, py: nat :: |val(px, py)| == k.bpp
    ensures Filled(e, k, val, stored, y, x, i, j)
  {
    hide Pos, Done;
    forall px: nat, py: nat | (px, py) in stored
      ensures CellIs(e, Pos(k, px, py), val(px, py))
    {
      PosBounds(k, px, py);
      assert CellIs(d, Pos(k, px, py), val(px, py));
    }
  }

  lemma FillEnd(d: seq<byte>, k: Walk, val: Samples, stored: Record, y: nat)
    requires Filled(d, k, val, stored, y, 0, 0, 0) && y >= k.h
    ensures Plane(d, k, val) && AllStored(stored, k)
  {
    hide Pos, CellIs;
  }

  // ----- To RGB -----

  type Convert = (byte, byte, byte) -> (byte, byte, byte)

  function Sample(src: seq<byte>, p: nat): byte {
    if p < |src| then src[p] else 0
  }

  /** The three bytes of a pixel, in the order the target wants them. */
  function Ordered(c: (byte, byte, byte), rgb: bool): seq<byte> {
    if rgb then [c.0, c.1, c.2] else [c.2, c.1, c.0]
  }

  function RgbAt(src: seq<byte>, height: nat, convert: Convert, rgb: bool, px: nat, py: nat): (v: seq<byte>)
    ensures |v| == 3
  {
    var uv := STRIDE * height + ChromaAt(px / 2, py / 2);
    Ordered(convert(Sample(src, LumaAt(px, py)), Sample(src, uv), Sample(src, uv + 1)), rgb)
  }

  function RgbSample(src: seq<byte>, height: nat, convert: Convert, rgb: bool): Samples {
    (px: nat, py: nat) => RgbAt(src, height, convert, rgb, px, py)
  }

  function LumaSample(src: seq<byte>): Samples {
    (px: nat, py: nat) => [Sample(src, LumaAt(px, py))]
  }

  function ChromaSample(src: seq<byte>, height: nat, v: nat): Samples {
    (px: nat, py: nat) => [Sample(src, STRIDE * height + ChromaAt(px, py) + v)]
  }

  /** Every byte a decoder may read is there. */
  predicate Complete(src: seq<byte>, height: nat) {
    |src| >= STRIDE * RoundUp(height) && |src| >= STRIDE * height + STRIDE * RoundUp((height + 1) / 2)
  }

  /** The cursor of luma tile (a, b), `i` lines down. */
  lemma LumaCursor(a: nat, b: nat, i: nat, j: nat)
    requires i < 16 && j < 16
    ensures LumaAt(16 * b + j, 16 * a + i) == LumaTile(a, b) + 16 * i + j
  {
    assert (16 * b + j) / 16 == b && (16 * a + i) / 16 == a;
  }

  function LumaTile(a: nat, b: nat): nat { (a * 45 + b) * TILE }

  lemma LumaTileAt(y: nat, x: nat)
    requires y % 16 == 0 && x % 16 == 0
    ensures y * STRIDE + x * 16 == LumaTile(y / 16, x / 16) == (y / 16 * 45 + x / 16) * TILE
    ensures ChromaTile(y / 16, x / 16) == (y / 32 * 45 + x / 16) * TILE + if y / 16 % 2 == 1 then TILE / 2 else 0
  {
    assert y / 16 / 2 == y / 32;
  }

  /** Two image tiles above one another share a chroma tile, and two lines share a row of it. */
  lemma ChromaCursor(a: nat, b: nat, i: nat, j: nat)
    requires i < 16 && j < 16
    ensures ChromaAt((16 * b + j) / 2, (16 * a + i) / 2) == ChromaTile(a, b) + i / 2 * 16 + (j - j % 2)
  {
    var px, py := (16 * b + j) / 2, (16 * a + i) / 2;
    assert px == 8 * b + j / 2 && px / 8 == b && px % 8 == j / 2;
    assert py == 8 * a + i / 2 && py / 16 == a / 2 && py % 16 == 8 * (a % 2) + i / 2;
  }

  function ChromaTile(a: nat, b: nat): nat {
    (a / 2 * 45 + b) * TILE + if a % 2 == 1 then TILE / 2 else 0
  }

  lemma UvCursor(a: nat, b: nat, i: nat, j: nat)
    requires i < 16 && j < 8
    ensures ChromaAt(8 * b + j, 16 * a + i) == LumaTile(a, b) + 16 * i + 2 * j
  {
    assert (8 * b + j) / 8 == b && (8 * b + j) % 8 == j && (16 * a + i) / 16 == a && (16 * a + i) % 16 == i;
  }

  /** What the cursors point at is what the pixel needs. */
  lemma RgbReads(src: seq<byte>, height: nat, a: nat, b: nat, i: nat, j: nat)
    requires Complete(src, height) && i < 16 && j < 16 && 16 * a + i < height && 16 * b + j < STRIDE
    ensures LumaAt(16 * b + j, 16 * a + i) == LumaTile(a, b) + 16 * i + j < |src|
    ensures STRIDE * height + ChromaAt((16 * b + j) / 2, (16 * a + i) / 2)
         == STRIDE * height + ChromaTile(a, b) + i / 2 * 16 + (j - j % 2) < |src| - 1
  {
    hide LumaAt, ChromaAt, LumaTile, ChromaTile, RoundUp;
    LumaCursor(a, b, i, j);
    ChromaCursor(a, b, i, j);
    RegionBounds(16 * b + j, 16 * a + i, height);
    assert (16 * a + i) / 2 < (height + 1) / 2;
    RegionBounds((16 * b + j) / 2, (16 * a + i) / 2, (height + 1) / 2);
  }

  lemma RgbSampleIs(src: seq<byte>, height: nat, convert: Convert, rgb: bool, px: nat, py: nat)
    requires LumaAt(px, py) < |src| && STRIDE * height + ChromaAt(px / 2, py / 2) + 1 < |src|
    ensures RgbSample(src, height, convert, rgb)(px, py)
         == Ordered(convert(src[LumaAt(px, py)], src[STRIDE * height + ChromaAt(px / 2, py / 2)],
                            src[STRIDE * height + ChromaAt(px / 2, py / 2) + 1]), rgb)
  {
    hide LumaAt, ChromaAt;
  }

  lemma RgbSampleSize(src: seq<byte>, height: nat, convert: Convert, rgb: bool)
    ensures forall px: nat, py: nat :: |RgbSample(src, height, convert, rgb)(px, py)| == 3
  {
    forall px: nat, py: nat
      ensures |RgbSample(src, height, convert, rgb)(px, py)| == 3
    {
    }
  }

  /** Stores a pixel, which must not have been stored before. */
  method StorePixel(dest: array<byte>, idx: nat, c: (byte, byte, byte), rgb: bool, ghost k: Walk,
                    ghost cell: (nat, nat), ghost stored: Record) returns (ghost after: Record)
    requires idx + 3 <= dest.Length && idx == Pos(k, cell.0, cell.1) && cell !in stored
    modifies dest
    ensures CellIs(dest[..], idx, Ordered(c, rgb)) && after == stored + iset{cell}
    ensures forall q :: 0 <= q < dest.Length && (q < idx || idx + 3 <= q) ==> dest[..][q] == old(dest[..])[q]
  {
    var r := if rgb then 0 else 2;
    var b := 2 - r;
    dest[idx + r] := c.0;
    dest[idx + 1] := c.1;
    dest[idx + b] := c.2;
    after := stored + iset{cell};
  }

  /** One line of an RGB tile. */
  method RgbRow(src: seq<byte>, dest: array<byte>, ghost was: seq<byte>, k: Walk, convert: Convert, rgb: bool,
                y: nat, x: nat, i: nat, maxx: nat, srcY: nat, srcUv: nat, ghost before: Record)
                  returns (ghost stored: Record)
    requires Complete(src, k.h) && k.bpp == 3 && k.tw == 16
    requires y % 16 == 0 && x % 16 == 0 && i < 16 && y + i < k.h
    requires x < k.w <= STRIDE && maxx == if k.w - x < 16 then k.w - x else 16
    requires srcY == LumaTile(y / 16, x / 16) + 16 * i
    requires srcUv == STRIDE * k.h + ChromaTile(y / 16, x / 16) + i / 2 * 16
    requires Walked(dest[..], was, k, RgbSample(src, k.h, convert, rgb), before, y, x, i, 0)
    modifies dest
    ensures Walked(dest[..], was, k, RgbSample(src, k.h, convert, rgb), stored, y, x, i + 1, 0)
  {
    hide LumaAt, ChromaAt, LumaTile, ChromaTile, Walked, Filled, Pos, RgbSample, Kept, Complete, CellIs, Ordered,
      Walk.Size;
    ghost var val := RgbSample(src, k.h, convert, rgb);
    ghost var a, b := y / 16, x / 16;
    assert y == 16 * a && x == 16 * b;
    RgbSampleSize(src, k.h, convert, rgb);
    var idx := k.base + (x + (y + i) * k.w) * 3;
    PosNext(k, x, y + i);
    WalkedFits(dest[..], was, k, val, before, y, x, i, 0);
    stored := before;
    var j := 0;
    while j < maxx
      invariant 0 <= j <= maxx && idx == Pos(k, x + j, y + i)
      invariant Walked(dest[..], was, k, val, stored, y, x, i, j)
    {
      ghost var d := dest[..];
      PosBounds(k, x + j, y + i);
      RgbReads(src, k.h, a, b, i, j);
      RgbSampleIs(src, k.h, convert, rgb, x + j, y + i);
      var c := convert(src[srcY + j], src[srcUv + (j - j % 2)], src[srcUv + (j - j % 2) + 1]);
      NextCell(d, was, k, val, stored, y, x, i, j);
      ghost var was' := stored;
      stored := StorePixel(dest, idx, c, rgb, k, (x + j, y + i), stored);
      WalkCell(d, dest[..], was, k, val, was', y, x, i, j);
      PosNext(k, x + j, y + i);
      idx, j := idx + 3, j + 1;
    }
    WalkNext(dest[..], was, k, val, stored, y, x, i, maxx, y, x, i + 1, 0);
  }

  lemma NextCell(d: seq<byte>, was: seq<byte>, k: Walk, val: Samples, stored: Record, y: nat, x: nat, i: nat, j: nat)
    requires Walked(d, was, k, val, stored, y, x, i, j) && i < 16
    ensures (x + j, y + i) !in stored
  {
    hide Filled;
    NotYetStored(d, k, val, stored, y, x, i, j);
  }

  method RgbTile(src: seq<byte>, dest: array<byte>, ghost was: seq<byte>, k: Walk, convert: Convert, rgb: bool,
                 y: nat, x: nat, maxy: nat, mbY: nat, mbUv: nat, ghost before: Record) returns (ghost stored: Record)
    requires Complete(src, k.h) && k.bpp == 3 && k.tw == 16 && y % 16 == 0 && x % 16 == 0
    requires x < k.w <= STRIDE && y < k.h && maxy == if k.h - y < 16 then k.h - y else 16
    requires mbY == y / 16 * 45 + x / 16 && mbUv == y / 32 * 45 + x / 16
    requires Walked(dest[..], was, k, RgbSample(src, k.h, convert, rgb), before, y, x, 0, 0)
    modifies dest
    ensures Walked(dest[..], was, k, RgbSample(src, k.h, convert, rgb), stored, y, x + 16, 0, 0)
  {
    hide Walked, RgbSample, Complete, LumaTile, ChromaTile, Walk.Size;
    ghost var val := RgbSample(src, k.h, convert, rgb);
    var maxx := if k.w - x < 16 then k.w - x else 16;
    var srcY, srcUv := mbY * TILE, STRIDE * k.h + mbUv * TILE;
    if y / 16 % 2 == 1 {
      srcUv := srcUv + TILE / 2;
    }
    LumaTileAt(y, x);
    stored := before;
    var i := 0;
    while i < maxy
      invariant 0 <= i <= maxy
      invariant srcY == LumaTile(y / 16, x / 16) + 16 * i
      invariant srcUv == STRIDE * k.h + ChromaTile(y / 16, x / 16) + i / 2 * 16
      invariant Walked(dest[..], was, k, val, stored, y, x, i, 0)
    {
      stored := RgbRow(src, dest, was, k, convert, rgb, y, x, i, maxx, srcY, srcUv, stored);
      srcY := srcY + 16;
      if i % 2 == 1 {
        srcUv := srcUv + 16;
      }
      i := i + 1;
    }
    WalkNext(dest[..], was, k, val, stored, y, x, maxy, 0, y, x + 16, 0, 0);
  }

  /**
    Every pixel is stored exactly once, as the colour of its luma sample and its cell's chroma samples;
    nothing else is written.
  */
  method ToRgb(src: seq<byte>, dest: array<byte>, width: nat, height: nat, convert: Convert, rgb: bool)
    returns (ghost stored: Record)
    requires Complete(src, height) && width <= STRIDE && Walk(0, 3, width, height, 16).Size() <= dest.Length
    modifies dest
    ensures Plane(dest[..], Walk(0, 3, width, height, 16), RgbSample(src, height, convert, rgb))
    ensures AllStored(stored, Walk(0, 3, width, height, 16))
    ensures Kept(dest[..], old(dest[..]), 0, Walk(0, 3, width, height, 16).Size())
  {
    hide Walked, RgbSample, Kept, Complete, Plane, AllStored, Walk.Size;
    ghost var val, was := RgbSample(src, height, convert, rgb), dest[..];
    var k := Walk(0, 3, width, height, 16);
    WalkStart(dest[..], k, val);
    stored := iset{};
    var y := 0;
    while y < height
      invariant y % 16 == 0 && Walked(dest[..], was, k, val, stored, y, 0, 0, 0)
    {
      var mbY, mbUv := y / 16 * 45, y / 32 * 45;
      var maxy := if height - y < 16 then height - y else 16;
      var x := 0;
      while x < width
        invariant x % 16 == 0 && mbY == y / 16 * 45 + x / 16 && mbUv == y / 32 * 45 + x / 16
        invariant Walked(dest[..], was, k, val, stored, y, x, 0, 0)
      {
        stored := RgbTile(src, dest, was, k, convert, rgb, y, x, maxy, mbY, mbUv, stored);
        x, mbY, mbUv := x + 16, mbY + 1, mbUv + 1;
      }
      WalkNext(dest[..], was, k, val, stored, y, x, 0, 0, y + 16, 0, 0, 0);
      y := y + 16;
    }
    WalkEnd(dest[..], was, k, val, stored, y);
  }

  lemma WalkEnd(d: seq<byte>, was: seq<byte>, k: Walk, val: Samples, stored: Record, y: nat)
    requires Walked(d, was, k, val, stored, y, 0, 0, 0) && y >= k.h
    ensures Plane(d, k, val) && AllStored(stored, k) && Kept(d, was, k.base, k.base + k.Size())
  {
    hide Filled;
    FillEnd(d, k, val, stored, y);
  }

  // ----- To planar YUV 4:2:0 -----

  lemma LumaReads(src: seq<byte>, height: nat, a: nat, b: nat, i: nat, j: nat)
    requires Complete(src, height) && i < 16 && j < 16 && 16 * a + i < height && 16 * b + j < STRIDE
    ensures LumaTile(a, b) + 16 * i + j < |src|
    ensures LumaSample(src)(16 * b + j, 16 * a + i) == [src[LumaTile(a, b) + 16 * i + j]]
  {
    hide LumaAt, LumaTile, RoundUp;
    LumaCursor(a, b, i, j);
    RegionBounds(16 * b + j, 16 * a + i, height);
  }

  lemma ChromaReads(src: seq<byte>, height: nat, a: nat, b: nat, i: nat, j: nat)
    requires Complete(src, height) && i < 16 && j < 8 && 16 * a + i < height / 2 && 8 * b + j < STRIDE / 2
    ensures STRIDE * height + LumaTile(a, b) + 16 * i + 2 * j + 1 < |src|
    ensures ChromaSample(src, height, 0)(8 * b + j, 16 * a + i) ==
      [src[STRIDE * height + LumaTile(a, b) + 16 * i + 2 * j]]
    ensures ChromaSample(src, height, 1)(8 * b + j, 16 * a + i) ==
      [src[STRIDE * height + LumaTile(a, b) + 16 * i + 2 * j + 1]]
  {
    hide ChromaAt, LumaTile, RoundUp;
    UvCursor(a, b, i, j);
    RegionBounds(8 * b + j, 16 * a + i, (height + 1) / 2);
  }

  lemma SampleSizes(src: seq<byte>, height: nat, v: nat)
    ensures forall px: nat, py: nat :: |LumaSample(src)(px, py)| == 1
    ensures forall px: nat, py: nat :: |ChromaSample(src, height, v)(px, py)| == 1
  {
  }

  /** Stores a byte of a plane, which must not have been stored before. */
  method StoreByte(dest: array<byte>, idx: nat, c: byte, ghost k: Walk, ghost cell: (nat, nat), ghost stored: Record)
    returns (ghost after: Record)
    requires idx < dest.Length && idx == Pos(k, cell.0, cell.1) && cell !in stored
    modifies dest
    ensures CellIs(dest[..], idx, [c]) && after == stored + iset{cell}
    ensures forall q :: 0 <= q < dest.Length && (q < idx || idx + 1 <= q) ==> dest[..][q] == old(dest[..])[q]
  {
    dest[idx] := c;
    after := stored + iset{cell};
  }

  /** One line of a luma tile, copied. */
  method LumaRow(src: seq<byte>, dest: array<byte>, ghost was: seq<byte>, k: Walk, y: nat, x: nat, i: nat, maxx: nat,
                 srcY: nat, ghost before: Record) returns (ghost stored: Record)
    requires Complete(src, k.h) && k.bpp == 1 && k.tw == 16 && y % 16 == 0 && x % 16 == 0 && i < 16 && y + i < k.h
    requires x < k.w <= STRIDE && maxx == (if k.w - x < 16 then k.w - x else 16)
    requires srcY == LumaTile(y / 16, x / 16) + 16 * i
    requires Walked(dest[..], was, k, LumaSample(src), before, y, x, i, 0)
    modifies dest
    ensures Walked(dest[..], was, k, LumaSample(src), stored, y, x, i + 1, 0)
  {
    hide LumaTile, Walked, Pos, Index, LumaSample, Complete, Walk.Size, CellIs;
    SampleSizes(src, k.h, 0);
    ghost var a, b := y / 16, x / 16;
    assert y == 16 * a && x == 16 * b;
    var idx := k.base + Index(k.w, x, y + i);
    ByteNext(k, x, y + i);
    WalkedFits(dest[..], was, k, LumaSample(src), before, y, x, i, 0);
    stored := before;
    var j := 0;
    while j < maxx
      invariant 0 <= j <= maxx && idx + j == Pos(k, x + j, y + i)
      invariant Walked(dest[..], was, k, LumaSample(src), stored, y, x, i, j)
    {
      ghost var d, was' := dest[..], stored;
      PosBounds(k, x + j, y + i);
      LumaReads(src, k.h, a, b, i, j);
      NextCell(d, was, k, LumaSample(src), stored, y, x, i, j);
      stored := StoreByte(dest, idx + j, src[srcY + j], k, (x + j, y + i), stored);
      WalkCell(d, dest[..], was, k, LumaSample(src), was', y, x, i, j);
      ByteNext(k, x + j, y + i);
      j := j + 1;
    }
    WalkNext(dest[..], was, k, LumaSample(src), stored, y, x, i, maxx, y, x, i + 1, 0);
  }

  /** The luma plane, each byte stored once. */
  method DeMacroY(dest: array<byte>, src: seq<byte>, k: Walk) returns (ghost stored: Record)
    requires Complete(src, k.h) && k.w <= STRIDE && k.bpp == 1 && k.tw == 16 && k.base + k.Size() <= dest.Length
    modifies dest
    ensures Plane(dest[..], k, LumaSample(src)) && AllStored(stored, k)
    ensures Kept(dest[..], old(dest[..]), k.base, k.base + k.Size())
  {
    hide Walked, LumaSample, Kept, Complete, Walk.Size, Plane, AllStored, LumaTile;
    ghost var was := dest[..];
    WalkStart(dest[..], k, LumaSample(src));
    stored := iset{};
    var y := 0;
    while y < k.h
      invariant y % 16 == 0 && Walked(dest[..], was, k, LumaSample(src), stored, y, 0, 0, 0)
    {
      var x := 0;
      while x < k.w
        invariant x % 16 == 0 && Walked(dest[..], was, k, LumaSample(src), stored, y, x, 0, 0)
      {
        var srcY := y * STRIDE + x * 16;
        LumaTileAt(y, x);
        var maxy := if k.h - y < 16 then k.h - y else 16;
        var maxx := if k.w - x < 16 then k.w - x else 16;
        var i := 0;
        while i < maxy
          invariant 0 <= i <= maxy && srcY == LumaTile(y / 16, x / 16) + 16 * i
          invariant Walked(dest[..], was, k, LumaSample(src), stored, y, x, i, 0)
        {
          stored := LumaRow(src, dest, was, k, y, x, i, maxx, srcY, stored);
          srcY, i := srcY + 16, i + 1;
        }
        WalkNext(dest[..], was, k, LumaSample(src), stored, y, x, maxy, 0, y, x + 16, 0, 0);
        x := x + 16;
      }
      WalkNext(dest[..], was, k, LumaSample(src), stored, y, x, 0, 0, y + 16, 0, 0, 0);
      y := y + 16;
    }
    WalkEnd(dest[..], was, k, LumaSample(src), stored, y);
  }

  /** The U and V planes, walked together inside the bytes `lo..hi`. */
  ghost predicate Both(d: seq<byte>, was: seq<byte>, ku: Walk, kv: Walk, src: seq<byte>, height: nat, lo: nat, hi: nat,
                       su: Record, sv: Record, y: nat, x: nat, i: nat, j: nat) {
    && Filled(d, ku, ChromaSample(src, height, 0), su, y, x, i, j)
    && Filled(d, kv, ChromaSample(src, height, 1), sv, y, x, i, j)
    && Kept(d, was, lo, hi)
  }

  /** Two planes of the same shape that do not overlap. */
  ghost predicate Twin(ku: Walk, kv: Walk, lo: nat, hi: nat) {
    && ku.bpp == kv.bpp == 1 && ku.tw == kv.tw == 8 && ku.w == kv.w && ku.h == kv.h
    && lo <= ku.base && ku.base + ku.Size() <= hi && lo <= kv.base && kv.base + kv.Size() <= hi
    && (ku.base + ku.Size() <= kv.base || kv.base + kv.Size() <= ku.base)
  }

  /** One cell of a plane stored, seen from the whole buffer. */
  lemma CellKept(d: seq<byte>, e: seq<byte>, k: Walk, px: nat, py: nat)
    requires px < k.w && py < k.h && |e| == |d|
    requires forall q :: 0 <= q < |d| && (q < Pos(k, px, py) || Pos(k, px, py) + k.bpp <= q) ==> e[q] == d[q]
    ensures Kept(e, d, k.base, k.base + k.Size())
  {
    PosBounds(k, px, py);
    hide Pos, Walk.Size;
  }

  /** One more cell in both planes. */
  lemma BothCell(d: seq<byte>, m: seq<byte>, e: seq<byte>, was: seq<byte>, ku: Walk, kv: Walk, src: seq<byte>,
                 height: nat, lo: nat, hi: nat, su: Record, sv: Record, y: nat, x: nat, i: nat, j: nat)
    requires Twin(ku, kv, lo, hi) && Both(d, was, ku, kv, src, height, lo, hi, su, sv, y, x, i, j)
    requires i < 16 && j < 8 && x + j < ku.w && y + i < ku.h && |m| == |d| == |e|
    requires CellIs(m, Pos(ku, x + j, y + i), ChromaSample(src, height, 0)(x + j, y + i))
    requires forall q :: 0 <= q < |d| && (q < Pos(ku, x + j, y + i) || Pos(ku, x + j, y + i) + 1 <= q) ==> m[q] == d[q]
    requires CellIs(e, Pos(kv, x + j, y + i), ChromaSample(src, height, 1)(x + j, y + i))
    requires forall q :: 0 <= q < |d| && (q < Pos(kv, x + j, y + i) || Pos(kv, x + j, y + i) + 1 <= q) ==> e[q] == m[q]
    ensures Both(e, was, ku, kv, src, height, lo, hi, su + iset{(x + j, y + i)}, sv + iset{(x + j, y + i)},
                 y, x, i, j + 1)
  {
    hide Filled, Kept, Pos, Walk.Size, ChromaSample, CellIs;
    SampleSizes(src, height, 0);
    SampleSizes(src, height, 1);
    ghost var cell := iset{(x + j, y + i)};
    CellKept(d, m, ku, x + j, y + i);
    CellKept(m, e, kv, x + j, y + i);
    FillCell(d, m, ku, ChromaSample(src, height, 0), su, y, x, i, j);
    FillElsewhere(d, m, kv, ChromaSample(src, height, 1), sv, y, x, i, j, ku.base, ku.base + ku.Size());
    FillCell(m, e, kv, ChromaSample(src, height, 1), sv, y, x, i, j);
    FillElsewhere(m, e, ku, ChromaSample(src, height, 0), su + cell, y, x, i, j + 1, kv.base, kv.base + kv.Size());
    KeptBoth(m, d, was, ku.base, ku.base + ku.Size(), lo, hi, lo, hi);
    KeptBoth(e, m, was, kv.base, kv.base + kv.Size(), lo, hi, lo, hi);
  }

  lemma BothNext(d: seq<byte>, was: seq<byte>, ku: Walk, kv: Walk, src: seq<byte>, height: nat, lo: nat, hi: nat,
                 su: Record, sv: Record, y: nat, x: nat, i: nat, j: nat, y': nat, x': nat, i': nat, j': nat)
    requires Both(d, was, ku, kv, src, height, lo, hi, su, sv, y, x, i, j) && ku.w == kv.w && ku.h == kv.h
    requires ku.tw == kv.tw
    requires forall px: nat, py: nat :: px < ku.w && py < ku.h ==>
      (Done(ku.tw, px, py, y', x', i', j') <==> Done(ku.tw, px, py, y, x, i, j))
    ensures Both(d, was, ku, kv, src, height, lo, hi, su, sv, y', x', i', j')
  {
    hide Filled, Kept, ChromaSample, Done;
    FillNext(d, ku, ChromaSample(src, height, 0), su, y, x, i, j, y', x', i', j');
    FillNext(d, kv, ChromaSample(src, height, 1), sv, y, x, i, j, y', x', i', j');
  }

  /** The planes are in the buffer, and the next cell is new in both. */
  lemma BothFits(d: seq<byte>, was: seq<byte>, ku: Walk, kv: Walk, src: seq<byte>, height: nat, lo: nat, hi: nat,
                 su: Record, sv: Record, y: nat, x: nat, i: nat, j: nat)
    requires Both(d, was, ku, kv, src, height, lo, hi, su, sv, y, x, i, j) && i < 16
    ensures ku.Fits(d) && kv.Fits(d) && (x + j, y + i) !in su && (x + j, y + i) !in sv
  {
    NotYetStored(d, ku, ChromaSample(src, height, 0), su, y, x, i, j);
    NotYetStored(d, kv, ChromaSample(src, height, 1), sv, y, x, i, j);
  }

  /** One line of a chroma tile: U and V bytes alternate. */
  method UvRow(src: seq<byte>, dest: array<byte>, ghost was: seq<byte>, ku: Walk, kv: Walk, ghost lo: nat,
               ghost hi: nat, height: nat, y: nat, x: nat, i: nat, maxx: nat, srcUv: nat, ghost beforeU: Record,
               ghost beforeV: Record)
    returns (ghost su: Record, ghost sv: Record)
    requires Complete(src, height) && Twin(ku, kv, lo, hi) && ku.h == height / 2 && ku.w <= STRIDE / 2
    requires y % 16 == 0 && x % 8 == 0 && i < 16 && y + i < ku.h && x < ku.w
    requires maxx == (if ku.w - x < 8 then ku.w - x else 8)
    requires srcUv == STRIDE * height + LumaTile(y / 16, x / 8) + 16 * i
    requires Both(dest[..], was, ku, kv, src, height, lo, hi, beforeU, beforeV, y, x, i, 0)
    modifies dest
    ensures Both(dest[..], was, ku, kv, src, height, lo, hi, su, sv, y, x, i + 1, 0)
  {
    hide LumaTile, Both, Pos, Index, ChromaSample, Complete, CellIs, Walk.Size;
    ghost var a, b := y / 16, x / 8;
    assert y == 16 * a && x == 8 * b;
    var idx := Index(ku.w, x, y + i);
    ByteNext(ku, x, y + i);
    ByteNext(kv, x, y + i);
    su, sv := beforeU, beforeV;
    var j := 0;
    while j < maxx
      invariant 0 <= j <= maxx && ku.base + idx + j == Pos(ku, x + j, y + i)
      invariant kv.base + idx + j == Pos(kv, x + j, y + i)
      invariant Both(dest[..], was, ku, kv, src, height, lo, hi, su, sv, y, x, i, j)
    {
      ghost var d, u, v := dest[..], su, sv;
      PosBounds(ku, x + j, y + i);
      PosBounds(kv, x + j, y + i);
      ChromaReads(src, height, a, b, i, j);
      BothFits(d, was, ku, kv, src, height, lo, hi, su, sv, y, x, i, j);
      su := StoreByte(dest, ku.base + idx + j, src[srcUv + 2 * j], ku, (x + j, y + i), su);
      ghost var m := dest[..];
      sv := StoreByte(dest, kv.base + idx + j, src[srcUv + 2 * j + 1], kv, (x + j, y + i), sv);
      BothCell(d, m, dest[..], was, ku, kv, src, height, lo, hi, u, v, y, x, i, j);
      ByteNext(ku, x + j, y + i);
      ByteNext(kv, x + j, y + i);
      j := j + 1;
    }
    BothNext(dest[..], was, ku, kv, src, height, lo, hi, su, sv, y, x, i, maxx, y, x, i + 1, 0);
  }

  /** Both chroma planes, each byte stored once. */
  method DeMacroUv(dest: array<byte>, src: seq<byte>, ku: Walk, kv: Walk, ghost lo: nat, ghost hi: nat, height: nat)
    returns (ghost su: Record, ghost sv: Record)
    requires Complete(src, height) && Twin(ku, kv, lo, hi) && ku.h == height / 2 && ku.w <= STRIDE / 2
    requires hi <= dest.Length
    modifies dest
    ensures Plane(dest[..], ku, ChromaSample(src, height, 0)) && AllStored(su, ku)
    ensures Plane(dest[..], kv, ChromaSample(src, height, 1)) && AllStored(sv, kv)
    ensures Kept(dest[..], old(dest[..]), lo, hi)
  {
    hide Both, ChromaSample, Kept, Complete, Plane, AllStored, LumaTile, Walk.Size;
    ghost var was := dest[..];
    BothStart(was, ku, kv, src, height, lo, hi);
    su, sv := iset{}, iset{};
    var y := 0;
    while y < ku.h
      invariant y % 16 == 0
      invariant Both(dest[..], was, ku, kv, src, height, lo, hi, su, sv, y, 0, 0, 0)
    {
      var x := 0;
      while x < ku.w
        invariant x % 8 == 0
        invariant Both(dest[..], was, ku, kv, src, height, lo, hi, su, sv, y, x, 0, 0)
      {
        var srcUv := STRIDE * height + y * STRIDE + x * 32;
        UvTileAt(y, x);
        var maxy := if ku.h - y < 16 then ku.h - y else 16;
        var maxx := if ku.w - x < 8 then ku.w - x else 8;
        var i := 0;
        while i < maxy
          invariant 0 <= i <= maxy && srcUv == STRIDE * height + LumaTile(y / 16, x / 8) + 16 * i
          invariant Both(dest[..], was, ku, kv, src, height, lo, hi, su, sv, y, x, i, 0)
        {
          su, sv := UvRow(src, dest, was, ku, kv, lo, hi, height, y, x, i, maxx, srcUv, su, sv);
          srcUv, i := srcUv + 16, i + 1;
        }
        BothNext(dest[..], was, ku, kv, src, height, lo, hi, su, sv, y, x, maxy, 0, y, x + 8, 0, 0);
        x := x + 8;
      }
      BothNext(dest[..], was, ku, kv, src, height, lo, hi, su, sv, y, x, 0, 0, y + 16, 0, 0, 0);
      y := y + 16;
    }
    BothEnd(dest[..], was, ku, kv, src, height, lo, hi, su, sv, y);
  }

  lemma UvTileAt(y: nat, x: nat)
    requires y % 16 == 0 && x % 8 == 0
    ensures y * STRIDE + x * 32 == LumaTile(y / 16, x / 8)
  {
  }

  lemma BothStart(d: seq<byte>, ku: Walk, kv: Walk, src: seq<byte>, height: nat, lo: nat, hi: nat)
    requires Twin(ku, kv, lo, hi) && hi <= |d|
    ensures Both(d, d, ku, kv, src, height, lo, hi, iset{}, iset{}, 0, 0, 0, 0)
  {
  }

  lemma BothEnd(d: seq<byte>, was: seq<byte>, ku: Walk, kv: Walk, src: seq<byte>, height: nat, lo: nat, hi: nat,
                su: Record, sv: Record, y: nat)
    requires Both(d, was, ku, kv, src, height, lo, hi, su, sv, y, 0, 0, 0) && ku.h == kv.h && y >= ku.h
    ensures Plane(d, ku, ChromaSample(src, height, 0)) && Plane(d, kv, ChromaSample(src, height, 1))
    ensures Kept(d, was, lo, hi)
    ensures AllStored(su, ku) && AllStored(sv, kv)
  {
    hide ChromaSample, Pos, CellIs, Filled;
    FillEnd(d, ku, ChromaSample(src, height, 0), su, y);
    FillEnd(d, kv, ChromaSample(src, height, 1), sv, y);
  }

  function YWalk(w: nat, h: nat): Walk { Walk(0, 1, w, h, 16) }

  /** The first chroma plane of a frame holds U, or V when `yvu`. */
  function UWalk(w: nat, h: nat, yvu: bool): Walk {
    Walk(if yvu then w * h + w * h / 4 else w * h, 1, w / 2, h / 2, 8)
  }

  function VWalk(w: nat, h: nat, yvu: bool): Walk { UWalk(w, h, !yvu) }

  /** The quarter of the frame left for a chroma plane holds it; with an odd width or height some of it stays unused. */
  lemma ChromaSize(w: nat, h: nat, yvu: bool)
    ensures UWalk(w, h, yvu).Size() <= w * h / 4
    ensures w % 2 == 0 && h % 2 == 0 ==> UWalk(w, h, yvu).Size() == w * h / 4
  {
    var a, b := w / 2, h / 2;
    MulMonotone(2 * a, 2 * b, h);
    MulMonotone(h, 2 * a, w);
    assert 2 * a * (2 * b) == 4 * (a * b);
  }

  /** The three planes of a frame, each byte stored exactly once. */
  method ToYuv420(src: seq<byte>, dest: array<byte>, width: nat, height: nat, yvu: bool)
    returns (ghost sy: Record, ghost su: Record, ghost sv: Record)
    requires Complete(src, height) && width <= STRIDE && width * height * 3 / 2 <= dest.Length
    modifies dest
    ensures Plane(dest[..], YWalk(width, height), LumaSample(src))
    ensures Plane(dest[..], UWalk(width, height, yvu), ChromaSample(src, height, 0))
    ensures Plane(dest[..], VWalk(width, height, yvu), ChromaSample(src, height, 1))
    ensures AllStored(sy, YWalk(width, height)) && AllStored(su, UWalk(width, height, yvu))
    ensures AllStored(sv, VWalk(width, height, yvu))
    ensures Kept(dest[..], old(dest[..]), 0, width * height * 3 / 2)
  {
    hide Plane, AllStored, Complete, Kept, ChromaSample, LumaSample;
    var ky, ku, kv := YWalk(width, height), UWalk(width, height, yvu), VWalk(width, height, yvu);
    ChromaSize(width, height, yvu);
    ChromaSize(width, height, !yvu);
    ghost var lo, hi := width * height, width * height * 3 / 2;
    sy := DeMacroY(dest, src, ky);
    ghost var d := dest[..];
    su, sv := DeMacroUv(dest, src, ku, kv, lo, hi, height);
    PlaneElsewhere(d, dest[..], ky, src, lo, hi);
    KeptBoth(dest[..], d, old(dest[..]), lo, hi, 0, lo, 0, hi);
  }

  lemma PlaneElsewhere(d: seq<byte>, e: seq<byte>, k: Walk, src: seq<byte>, lo: nat, hi: nat)
    requires Plane(d, k, LumaSample(src)) && Kept(e, d, lo, hi) && k.base + k.Size() <= lo && k.bpp == 1
    ensures Plane(e, k, LumaSample(src))
  {
    hide Pos;
    forall px: nat, py: nat | px < k.w && py < k.h
      ensures CellIs(e, Pos(k, px, py), LumaSample(src)(px, py))
    {
      PosBounds(k, px, py);
      assert CellIs(d, Pos(k, px, py), LumaSample(src)(px, py));
    }
  }

  /**
    The two decoders agree: every RGB pixel is the colour of the three samples the planar decoder
    stores for it.
  */
  lemma DecodersAgree(src: seq<byte>, rgbDest: seq<byte>, yuvDest: seq<byte>, w: nat, h: nat, convert: Convert,
                      rgb: bool, yvu: bool, px: nat, py: nat)
    requires px < w && py < h && px / 2 < w / 2 && py / 2 < h / 2
    requires Plane(rgbDest, Walk(0, 3, w, h, 16), RgbSample(src, h, convert, rgb))
    requires Plane(yuvDest, YWalk(w, h), LumaSample(src))
    requires Plane(yuvDest, UWalk(w, h, yvu), ChromaSample(src, h, 0))
    requires Plane(yuvDest, VWalk(w, h, yvu), ChromaSample(src, h, 1))
    ensures var p, u := Pos(YWalk(w, h), px, py), Pos(UWalk(w, h, yvu), px / 2, py / 2);
      var v := Pos(VWalk(w, h, yvu), px / 2, py / 2);
      && p < |yuvDest| && u < |yuvDest| && v < |yuvDest|
      && CellIs(rgbDest, Pos(Walk(0, 3, w, h, 16), px, py), Ordered(convert(yuvDest[p], yuvDest[u], yuvDest[v]), rgb))
  {
    hide Plane, LumaAt, ChromaAt, Pos, UWalk, VWalk, YWalk, Ordered;
    WalkSizes(w, h, yvu);
    PlaneCell(rgbDest, Walk(0, 3, w, h, 16), RgbSample(src, h, convert, rgb), px, py);
    PlaneCell(yuvDest, YWalk(w, h), LumaSample(src), px, py);
    PlaneCell(yuvDest, UWalk(w, h, yvu), ChromaSample(src, h, 0), px / 2, py / 2);
    PlaneCell(yuvDest, VWalk(w, h, yvu), ChromaSample(src, h, 1), px / 2, py / 2);
    CellIsByte(yuvDest, Pos(YWalk(w, h), px, py), Sample(src, LumaAt(px, py)));
    var uv := STRIDE * h + ChromaAt(px / 2, py / 2);
    CellIsByte(yuvDest, Pos(UWalk(w, h, yvu), px / 2, py / 2), Sample(src, uv));
    CellIsByte(yuvDest, Pos(VWalk(w, h, yvu), px / 2, py / 2), Sample(src, uv + 1));
  }

  lemma WalkSizes(w: nat, h: nat, yvu: bool)
    ensures YWalk(w, h).w == w && YWalk(w, h).h == h
    ensures UWalk(w, h, yvu).w == VWalk(w, h, yvu).w == w / 2 && UWalk(w, h, yvu).h == VWalk(w, h, yvu).h == h / 2
  {
  }

  lemma CellIsByte(d: seq<byte>, p: nat, v: byte)
    requires CellIs(d, p, [v])
    ensures p < |d| && d[p] == v
  {
    assert d[p..p + 1][0] == v;
  }

  lemma PlaneCell(d: seq<byte>, k: Walk, val: Samples, px: nat, py: nat)
    requires Plane(d, k, val) && px < k.w && py < k.h
    ensures CellIs(d, Pos(k, px, py), val(px, py))
  {
  }

  // ----- The tiles read back -----

  type Picture = (nat, nat) -> byte

  /**
    Tile by tile, 45 to a row and 256 bytes each, line by line of 16 in a tile: byte `n` of the luma region is the
    sample of this picture.
  */
  ghost predicate LumaTiled(src: seq<byte>, height: nat, p: Picture) {
    forall n: nat | n < 720 * RoundUp(height) && n < |src| ::
      src[n] == p(16 * (n / 256 % 45) + n % 16, 16 * (n / 256 / 45) + n / 16 % 16)
  }

  /** The same for the chroma region, where U and V alternate in tiles of 8 by 16 cells. */
  ghost predicate ChromaTiled(src: seq<byte>, height: nat, u: Picture, v: Picture) {
    forall n: nat | 720 * height + n < |src| ::
      var x, y := 8 * (n / 256 % 45) + n % 16 / 2, 16 * (n / 256 / 45) + n / 16 % 16;
      src[720 * height + n] == if n % 2 == 0 then u(x, y) else v(x, y)
  }

  lemma TileParts(a: nat, b: nat, i: nat, j: nat)
    requires b < 45 && i < 16 && j < 16
    ensures var n := (a * 45 + b) * 256 + i * 16 + j;
      n / 256 % 45 == b && n / 256 / 45 == a && n / 16 % 16 == i && n % 16 == j
  {
    var m := a * 45 + b;
    DivMod(m, 256, i * 16 + j);
    DivMod(a, 45, b);
    DivMod(16 * m + i, 16, j);
    DivMod(m, 16, i);
  }

  /** A picture stored in tiles comes out line by line. */
  lemma LumaReadBack(src: seq<byte>, dest: seq<byte>, w: nat, h: nat, p: Picture, x: nat, y: nat)
    requires Complete(src, h) && LumaTiled(src, h, p) && Plane(dest, YWalk(w, h), LumaSample(src))
    requires x < w <= 720 && y < h
    ensures 0 <= y * w + x < |dest| && dest[y * w + x] == p(x, y)
  {
    LumaPlace(x, y);
    RegionBounds(x, y, h);
    hide LumaAt, RoundUp, Pos;
    var n := LumaAt(x, y);
    LineByLine(0, w, h, 16, x, y);
    PlaneCell(dest, YWalk(w, h), LumaSample(src), x, y);
    CellIsByte(dest, Pos(YWalk(w, h), x, y), Sample(src, n));
  }

  lemma LineByLine(base: nat, w: nat, h: nat, tw: nat, x: nat, y: nat)
    requires x < w && y < h
    ensures 0 <= y * w + x && Pos(Walk(base, 1, w, h, tw), x, y) == base + (y * w + x)
  {
  }

  /** So do both chroma pictures, U first unless the planes are exchanged. */
  lemma ChromaReadBack(src: seq<byte>, dest: seq<byte>, w: nat, h: nat, yvu: bool, u: Picture, v: Picture, x: nat,
                       y: nat)
    requires Complete(src, h) && ChromaTiled(src, h, u, v) && x < w / 2 <= 360 && y < h / 2
    requires Plane(dest, UWalk(w, h, yvu), ChromaSample(src, h, 0))
    requires Plane(dest, VWalk(w, h, yvu), ChromaSample(src, h, 1))
    ensures var n, q := w * h + y * (w / 2) + x, w * h / 4;
      && 0 <= n && n + q < |dest|
      && dest[if yvu then n + q else n] == u(x, y)
      && dest[if yvu then n else n + q] == v(x, y)
  {
    hide ChromaAt, Complete, Plane, ChromaTiled, ChromaSample;
    ChromaByte(src, h, u, v, x, y);
    var first, second := w * h, w * h + w * h / 4;
    ChromaStored(src, dest, w, h, if yvu then second else first, 0, x, y);
    ChromaStored(src, dest, w, h, if yvu then first else second, 1, x, y);
  }

  lemma ChromaStored(src: seq<byte>, dest: seq<byte>, w: nat, h: nat, base: nat, v: nat, x: nat, y: nat)
    requires Plane(dest, Walk(base, 1, w / 2, h / 2, 8), ChromaSample(src, h, v)) && x < w / 2 && y < h / 2
    ensures 0 <= y * (w / 2) + x && base + (y * (w / 2) + x) < |dest|
    ensures dest[base + (y * (w / 2) + x)] == Sample(src, STRIDE * h + ChromaAt(x, y) + v)
  {
    hide ChromaAt, Pos, Plane;
    var k := Walk(base, 1, w / 2, h / 2, 8);
    LineByLine(base, w / 2, h / 2, 8, x, y);
    PlaneCell(dest, k, ChromaSample(src, h, v), x, y);
    CellIsByte(dest, Pos(k, x, y), Sample(src, STRIDE * h + ChromaAt(x, y) + v));
  }

  lemma ChromaByte(src: seq<byte>, h: nat, u: Picture, v: Picture, x: nat, y: nat)
    requires Complete(src, h) && ChromaTiled(src, h, u, v) && x < 360 && y < h / 2
    ensures var at := STRIDE * h + ChromaAt(x, y); Sample(src, at) == u(x, y) && Sample(src, at + 1) == v(x, y)
  {
    hide ChromaAt, Complete, ChromaTiled;
    ChromaInside(src, h, x, y);
    ChromaPlace(x, y, 0);
    ChromaPlace(x, y, 1);
    var n := ChromaAt(x, y);
    TiledAt(src, h, u, v, n, x, y);
    TiledAt(src, h, u, v, n + 1, x, y);
  }

  lemma ChromaInside(src: seq<byte>, h: nat, x: nat, y: nat)
    requires Complete(src, h) && x < 360 && y < h / 2
    ensures STRIDE * h + ChromaAt(x, y) + 1 < |src|
  {
    hide ChromaAt, RoundUp;
    RegionBounds(x, y, (h + 1) / 2);
  }

  lemma TiledAt(src: seq<byte>, h: nat, u: Picture, v: Picture, n: nat, x: nat, y: nat)
    requires ChromaTiled(src, h, u, v) && 720 * h + n < |src|
    requires 8 * (n / 256 % 45) + n % 16 / 2 == x && 16 * (n / 256 / 45) + n / 16 % 16 == y
    ensures src[720 * h + n] == if n % 2 == 0 then u(x, y) else v(x, y)
  {
  }

  lemma ChromaPlace(x: nat, y: nat, k: nat)
    requires x < 360 && k < 2
    ensures var n := ChromaAt(x, y) + k;
      n % 2 == k && 8 * (n / 256 % 45) + n % 16 / 2 == x && 16 * (n / 256 / 45) + n / 16 % 16 == y
  {
    var a, b, i, j := y / 16, x / 8, y % 16, x % 8 * 2 + k;
    assert x == 8 * b + x % 8 && y == 16 * a + i;
    var n := ChromaAt(x, y) + k;
    assert n == (a * 45 + b) * 256 + i * 16 + j;
    hide ChromaAt;
    TileParts(a, b, i, j);
    PairPlace(n, j, x % 8, k);
  }

  lemma PairPlace(n: nat, j: nat, c: nat, k: nat)
    requires n % 16 == j == c * 2 + k && k < 2
    ensures n % 2 == k && n % 16 / 2 == c
  {
  }

  lemma LumaPlace(x: nat, y: nat)
    requires x < 720
    ensures var n := LumaAt(x, y); 16 * (n / 256 % 45) + n % 16 == x && 16 * (n / 256 / 45) + n / 16 % 16 == y
  {
    TileParts(y / 16, x / 16, y % 16, x % 16);
  }
}
