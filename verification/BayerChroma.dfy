/** The chroma planes of the Bayer to YUV 4:2:0 conversion: one value per 2x2 cell. */
module BayerChroma {
  import opened Bits
  import opened Bayer

  /** Sum of the samples of one colour in the 2x2 cell whose top left sample is at `k`. */
  function CellSum(img: seq<byte>, k: nat, w: nat, fmt: Format, colour: Colour): int
    requires k + w + 1 < |img|
  {
    (if Sampled(fmt, 0, 0) == colour then img[k] as int else 0) +
    (if Sampled(fmt, 1, 0) == colour then img[k + 1] as int else 0) +
    (if Sampled(fmt, 0, 1) == colour then img[k + w] as int else 0) +
    (if Sampled(fmt, 1, 1) == colour then img[k + w + 1] as int else 0)
  }

  /** `x >> 15` of a non-negative sum; `g` is the sum of two green samples. */
  function U(r: int, g: int, b: int): int { (-4878 * r - 4789 * g + 14456 * b + 4210688) / 32768 }
  function V(r: int, g: int, b: int): int { (14456 * r - 6052 * g - 2351 * b + 4210688) / 32768 }

  /** Both chroma values stay within the studio range, so no cast loses anything. */
  lemma ChromaRange(r: byte, g: int, b: byte)
    requires 0 <= g <= 510
    ensures 16 <= U(r, g, b) <= 240 && 16 <= V(r, g, b) <= 240
  {
  }

  /** Both are those of ITU-R BT.601 in studio range, up to three units; `g` is the sum of two samples. */
  lemma ChromaIsBt601(r: byte, g: int, b: byte)
    requires 0 <= g <= 510
    ensures -3000 <= 1000 * (U(r, g, b) - 128) - (439 * b - 291 * g / 2 - 148 * r) <= 3000
    ensures -3000 <= 1000 * (V(r, g, b) - 128) - (439 * r - 368 * g / 2 - 71 * b) <= 3000
  {
  }

  /** Grey has no chroma: equal samples give the neutral value. */
  lemma GreyIsNeutral(v: byte)
    ensures U(v, 2 * v, v) == 128 && V(v, 2 * v, v) == 128
  {
  }

  function CellU(img: seq<byte>, k: nat, w: nat, fmt: Format): int
    requires k + w + 1 < |img|
  {
    U(CellSum(img, k, w, fmt, Red), CellSum(img, k, w, fmt, Green), CellSum(img, k, w, fmt, Blue))
  }

  function CellV(img: seq<byte>, k: nat, w: nat, fmt: Format): int
    requires k + w + 1 < |img|
  {
    V(CellSum(img, k, w, fmt, Red), CellSum(img, k, w, fmt, Green), CellSum(img, k, w, fmt, Blue))
  }

  /** The colours of a cell, line by line. */
  lemma CellColours(fmt: Format)
    ensures (Sampled(fmt, 0, 0), Sampled(fmt, 1, 0), Sampled(fmt, 0, 1), Sampled(fmt, 1, 1)) ==
      match fmt
      case Bggr => (Blue, Green, Green, Red)
      case Rggb => (Red, Green, Green, Blue)
      case Gbrg => (Green, Blue, Red, Green)
      case Grbg => (Green, Red, Blue, Green)
  {
  }

  /** The samples each case of the switch picks are the red, green and blue ones of the cell. */
  method Cell(bayer: seq<byte>, k: nat, w: nat, fmt: Format) returns (u: byte, v: byte)
    requires k + w + 1 < |bayer|
    ensures u == CellU(bayer, k, w, fmt) && v == CellV(bayer, k, w, fmt)
  {
    hide U, V, Sampled;
    CellColours(fmt);
    var r: byte, g: int, b: byte;
    match fmt {
    case Bggr =>
      b := bayer[k];
      g := bayer[k + 1] as int + bayer[k + w] as int;
      r := bayer[k + w + 1];
    case Rggb =>
      r := bayer[k];
      g := bayer[k + 1] as int + bayer[k + w] as int;
      b := bayer[k + w + 1];
    case Gbrg =>
      g := bayer[k] as int + bayer[k + w + 1] as int;
      b := bayer[k + 1];
      r := bayer[k + w];
    case Grbg =>
      g := bayer[k] as int + bayer[k + w + 1] as int;
      r := bayer[k + 1];
      b := bayer[k + w];
    }
    ChromaRange(r, g, b);
    u, v := U(r, g, b), V(r, g, b);
  }

  /** The cells of the first `n` rows of cells and, in the row after, of the first `m`, have their chroma at `at`. */
  ghost predicate CellsDone(yuv: seq<byte>, at: nat, img: seq<byte>, c: nat, r: nat, n: nat, m: nat, fmt: Format,
                            blue: bool)
    requires |img| >= 4 * Offset(c, r) && |yuv| >= at + Offset(c, r)
  {
    forall j, i | 0 <= j < r && 0 <= i < c && (j < n || (j == n && i < m)) ::
      CellDone(yuv, at, img, c, r, j, i, fmt, blue)
  }

  ghost predicate CellDone(yuv: seq<byte>, at: nat, img: seq<byte>, c: nat, r: nat, j: nat, i: nat, fmt: Format,
                           blue: bool)
    requires |img| >= 4 * Offset(c, r) && |yuv| >= at + Offset(c, r) && j < r && i < c
  {
    hide Offset;
    Offsets(c, j, r);
    var k := 4 * Offset(c, j) + 2 * i;
    yuv[at + Offset(c, j) + i] == if blue then CellU(img, k, 2 * c, fmt) else CellV(img, k, 2 * c, fmt)
  }

  /** One more cell; the others stand at other places of the planes. */
  lemma CellAdded(s: seq<byte>, t: seq<byte>, at: nat, img: seq<byte>, c: nat, r: nat, n: nat, m: nat, fmt: Format,
                  blue: bool)
    requires |img| >= 4 * Offset(c, r) && |s| == |t| >= at + Offset(c, r) && n < r && m < c
    requires CellsDone(s, at, img, c, r, n, m, fmt, blue) && CellDone(t, at, img, c, r, n, m, fmt, blue)
    requires forall k | at <= k < at + Offset(c, r) && k != at + Offset(c, n) + m :: t[k] == s[k]
    ensures CellsDone(t, at, img, c, r, n, m + 1, fmt, blue)
  {
    hide Offset, CellU, CellV;
    forall j, i | 0 <= j < r && 0 <= i < c && (j < n || (j == n && i < m + 1))
      ensures CellDone(t, at, img, c, r, j, i, fmt, blue)
    {
      if j < n {
        Offsets(c, j, r);
        Offsets(c, j, n);
        Offsets(c, n, r);
        assert CellDone(s, at, img, c, r, j, i, fmt, blue);
      } else if i < m {
        Offsets(c, n, r);
        assert CellDone(s, at, img, c, r, j, i, fmt, blue);
      }
    }
  }

  lemma CellsNextRow(s: seq<byte>, at: nat, img: seq<byte>, c: nat, r: nat, n: nat, fmt: Format, blue: bool)
    requires |img| >= 4 * Offset(c, r) && |s| >= at + Offset(c, r) && n < r
    requires CellsDone(s, at, img, c, r, n, c, fmt, blue)
    ensures CellsDone(s, at, img, c, r, n + 1, 0, fmt, blue)
  {
    hide Offset, CellDone;
  }

  /** Fills the U and V planes behind the luma plane, swapped for YVU; the image is `2 * c` by `2 * r`. */
  method ChromaPlanes(bayer: seq<byte>, yuv: array<byte>, c: nat, r: nat, fmt: Format, yvu: bool)
    requires |bayer| >= 4 * Offset(c, r) && yuv.Length >= 6 * Offset(c, r)
    modifies yuv
    ensures var first, second := 4 * Offset(c, r), 5 * Offset(c, r);
      && CellsDone(yuv[..], if yvu then second else first, bayer, c, r, r, 0, fmt, true)
      && CellsDone(yuv[..], if yvu then first else second, bayer, c, r, r, 0, fmt, false)
    ensures forall k | 0 <= k < 4 * Offset(c, r) || 6 * Offset(c, r) <= k < yuv.Length :: yuv[k] == old(yuv[k])
  {
    hide Offset, CellsDone, CellU, CellV;
    FirstOffset(c);
    NoCells(yuv[..], 4 * Offset(c, r), bayer, c, r, fmt);
    NoCells(yuv[..], 5 * Offset(c, r), bayer, c, r, fmt);
    var n := Offset(c, r);
    var u, v := 4 * n, 5 * n;
    if yvu {
      u, v := v, u;
    }
    ghost var du, dv, base := u, v, yuv[..];
    var p: nat, w := 0, 2 * c;
    for j := 0 to r
      invariant p == 4 * Offset(c, j) && u == du + Offset(c, j) && v == dv + Offset(c, j)
      invariant CellsDone(yuv[..], du, bayer, c, r, j, 0, fmt, true)
      invariant CellsDone(yuv[..], dv, bayer, c, r, j, 0, fmt, false)
      invariant forall k | 0 <= k < 4 * n || 6 * n <= k < yuv.Length :: yuv[k] == base[k]
    {
      Offsets(c, j, r);
      for i := 0 to c
        invariant u == du + Offset(c, j) + i && v == dv + Offset(c, j) + i
        invariant CellsDone(yuv[..], du, bayer, c, r, j, i, fmt, true)
        invariant CellsDone(yuv[..], dv, bayer, c, r, j, i, fmt, false)
        invariant forall k | 0 <= k < 4 * n || 6 * n <= k < yuv.Length :: yuv[k] == base[k]
      {
        ghost var s := yuv[..];
        var cu, cv := Cell(bayer, p + 2 * i, w, fmt);
        yuv[u] := cu;
        yuv[v] := cv;
        BothAdded(s, yuv[..], du, dv, bayer, c, r, j, i, fmt);
        u, v := u + 1, v + 1;
      }
      CellsNextRow(yuv[..], du, bayer, c, r, j, fmt, true);
      CellsNextRow(yuv[..], dv, bayer, c, r, j, fmt, false);
      p := p + 2 * w;
    }
  }

  lemma NoCells(yuv: seq<byte>, at: nat, img: seq<byte>, c: nat, r: nat, fmt: Format)
    requires |img| >= 4 * Offset(c, r) && |yuv| >= at + Offset(c, r)
    ensures CellsDone(yuv, at, img, c, r, 0, 0, fmt, true) && CellsDone(yuv, at, img, c, r, 0, 0, fmt, false)
  {
  }

  /** One cell in both planes, which lie side by side. */
  lemma BothAdded(s: seq<byte>, t: seq<byte>, du: nat, dv: nat, img: seq<byte>, c: nat, r: nat, j: nat, i: nat,
                  fmt: Format)
    requires |img| >= 4 * Offset(c, r) && |s| >= du + Offset(c, r) && |s| >= dv + Offset(c, r) && j < r && i < c
    requires (dv == du + Offset(c, r) || du == dv + Offset(c, r)) && Offset(c, j) + c <= Offset(c, r)
    requires CellsDone(s, du, img, c, r, j, i, fmt, true) && CellsDone(s, dv, img, c, r, j, i, fmt, false)
    requires 4 * Offset(c, j) + 2 * i + 2 * c + 1 < |img|
    requires var k := 4 * Offset(c, j) + 2 * i;
      && 0 <= CellU(img, k, 2 * c, fmt) < 256 && 0 <= CellV(img, k, 2 * c, fmt) < 256
      && t == s[du + Offset(c, j) + i := CellU(img, k, 2 * c, fmt)][dv + Offset(c, j) + i := CellV(img, k, 2 * c, fmt)]
    ensures CellsDone(t, du, img, c, r, j, i + 1, fmt, true) && CellsDone(t, dv, img, c, r, j, i + 1, fmt, false)
  {
    hide Offset, CellsDone, CellU, CellV;
    CellIs(t, du, img, c, r, j, i, fmt, true);
    CellIs(t, dv, img, c, r, j, i, fmt, false);
    CellAdded(s, t, du, img, c, r, j, i, fmt, true);
    CellAdded(s, t, dv, img, c, r, j, i, fmt, false);
  }

  lemma CellIs(yuv: seq<byte>, at: nat, img: seq<byte>, c: nat, r: nat, j: nat, i: nat, fmt: Format, blue: bool)
    requires |img| >= 4 * Offset(c, r) && |yuv| >= at + Offset(c, r) && j < r && i < c
    requires Offset(c, j) + c <= Offset(c, r)
    requires var k := 4 * Offset(c, j) + 2 * i;
      yuv[at + Offset(c, j) + i] == if blue then CellU(img, k, 2 * c, fmt) else CellV(img, k, 2 * c, fmt)
    ensures CellDone(yuv, at, img, c, r, j, i, fmt, blue)
  {
    hide Offset, CellU, CellV;
  }

  function Shade(colour: Colour, red: byte, green: byte, blue: byte): byte {
    match colour case Red => red case Green => green case Blue => blue
  }

  /** The four samples of the cell at `k` are those of one colour. */
  predicate CellOf(img: seq<byte>, k: nat, w: nat, fmt: Format, red: byte, green: byte, blue: byte) {
    && k + w + 1 < |img|
    && img[k] == Shade(Sampled(fmt, 0, 0), red, green, blue)
    && img[k + 1] == Shade(Sampled(fmt, 1, 0), red, green, blue)
    && img[k + w] == Shade(Sampled(fmt, 0, 1), red, green, blue)
    && img[k + w + 1] == Shade(Sampled(fmt, 1, 1), red, green, blue)
  }

  /** There both planes hold the chroma of that colour. */
  lemma CellOfOneColour(yuv: seq<byte>, at: nat, img: seq<byte>, c: nat, r: nat, fmt: Format, inBlue: bool,
                        red: byte, green: byte, blue: byte, j: nat, i: nat)
    requires |img| >= 4 * Offset(c, r) && |yuv| >= at + Offset(c, r) && j < r && i < c && 0 <= j * c
    requires CellsDone(yuv, at, img, c, r, r, 0, fmt, inBlue)
    requires CellOf(img, 4 * (j * c) + 2 * i, 2 * c, fmt, red, green, blue)
    ensures at + j * c + i < |yuv|
    ensures yuv[at + j * c + i] == if inBlue then U(red, 2 * green, blue) else V(red, 2 * green, blue)
  {
    assert CellDone(yuv, at, img, c, r, j, i, fmt, inBlue);
    Offsets(c, j, r);
    assert Offset(c, j) == j * c;
    hide Offset, U, V, CellOf, CellsDone;
    OneColourSums(img, 4 * (j * c) + 2 * i, 2 * c, fmt, red, green, blue);
  }

  lemma OneColourSums(img: seq<byte>, k: nat, w: nat, fmt: Format, red: byte, green: byte, blue: byte)
    requires CellOf(img, k, w, fmt, red, green, blue)
    ensures k + w + 1 < |img|
    ensures CellU(img, k, w, fmt) == U(red, 2 * green, blue) && CellV(img, k, w, fmt) == V(red, 2 * green, blue)
  {
    hide U, V, Sampled;
    CellColours(fmt);
  }
}
