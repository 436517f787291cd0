/**
  The MR97310A decoder: an eight-word prefix code read through a byte window, and a predictor over
  the pixels decoded so far.
*/
module Mr97310a {
  import opened Bits

  // ----- The bit stream -----

  function Stream(q: seq<byte>): (s: seq<bool>)
    ensures |s| == 8 * |q|
  {
    seq(8 * |q|, i requires 0 <= i < 8 * |q| => StreamBit(q, i / 8, i % 8))
  }

  function StreamBit(q: seq<byte>, k: nat, i: nat): bool
    requires k < |q| && i < 8
  {
    Pow2Values();
    ToBits(q[k], 8)[i]
  }

  /** The highest bit of a byte comes first. */
  lemma StreamOrder(q: seq<byte>, k: nat, i: nat)
    requires k < |q| && i < 8
    ensures Stream(q)[8 * k + i] == (Shr(q[k], 7 - i) % 2 == 1)
  {
    hide Pow2, ToBits, Num;
    Pow2Values();
    assert (8 * k + i) / 8 == k && (8 * k + i) % 8 == i;
    NumBit(ToBits(q[k], 8), i);
  }

  /** The eight bits at any bit position, from the two bytes they straddle. */
  method GetByte(q: seq<byte>, bitpos: nat) returns (b: nat)
    requires bitpos / 8 + 1 < |q|
    ensures b == Num(Stream(q)[bitpos..bitpos + 8])
  {
    hide Pow2, Num, ToBits, BitOr, Shl, Shr, Stream;
    var k, s := bitpos / 8, bitpos % 8;
    b := BitOr(Shl(q[k], s), Shr(q[k + 1], 8 - s)) % 0x100;
    Straddle(q[k], q[k + 1], s);
    StreamWindow(q, k, s);
  }

  lemma StreamWindow(q: seq<byte>, k: nat, s: nat)
    requires k + 1 < |q| && s < 8
    ensures q[k] < Pow2(8) && q[k + 1] < Pow2(8)
    ensures Stream(q)[8 * k + s..8 * k + s + 8] == ToBits(q[k], 8)[s..] + ToBits(q[k + 1], 8)[..s]
  {
    hide Pow2, Num, ToBits;
    Pow2Values();
    var w := Stream(q)[8 * k + s..8 * k + s + 8];
    forall i | 0 <= i < 8
      ensures w[i] == if s + i < 8 then StreamBit(q, k, s + i) else StreamBit(q, k + 1, s + i - 8)
    {
      var n := 8 * k + s + i;
      assert if s + i < 8 then n / 8 == k && n % 8 == s + i else n / 8 == k + 1 && n % 8 == s + i - 8;
    }
  }

  lemma Straddle(a: byte, b: byte, s: nat)
    requires s < 8
    ensures a < Pow2(8) && b < Pow2(8)
    ensures BitOr(Shl(a, s), Shr(b, 8 - s)) % 0x100 == Num(ToBits(a, 8)[s..] + ToBits(b, 8)[..s])
  {
    hide Pow2, Num, ToBits, BitOr, Shl, Shr;
    Pow2Values();
    var hi, lo := ToBits(a, 8), ToBits(b, 8);
    NumSplit(lo, s);
    NumConcat(hi[s..], lo[..s]);
    BitOrDisjoint(a, s, Num(lo[..s]));
    Pow2Add(8 - s, s);
    ShiftedOut(a, s);
    AddLow(a * Pow2(s), Num(hi[s..]) * Pow2(s), Num(lo[..s]), Pow2(s), Pow2(8 - s));
  }

  /** What a left shift keeps of a byte. */
  lemma ShiftedOut(a: byte, s: nat)
    requires s < 8
    ensures a < Pow2(8)
    ensures var n := Num(ToBits(a, 8)[s..]); a * Pow2(s) % 0x100 == n * Pow2(s) && n * Pow2(s) + Pow2(s) <= 0x100
  {
    hide Pow2, Num, ToBits;
    Pow2Values();
    var hi := ToBits(a, 8);
    NumSplit(hi, s);
    Pow2Add(8 - s, s);
    ScaledDivMod(Num(hi[..s]), Pow2(8 - s), Num(hi[s..]), Pow2(s));
    MulMonotone(Pow2(s), Num(hi[s..]) + 1, Pow2(8 - s));
  }

  /** Adding below the unit `p` does not disturb a residue that is a multiple of `p`. */
  lemma AddLow(x: nat, r: nat, low: nat, p: nat, d: nat)
    requires d * p == 0x100 && x % 0x100 == r && low < p && r + p <= 0x100
    ensures (x + low) % 0x100 == r + low
  {
  }

  // ----- The code table -----

  datatype Entry = Entry(isAbs: bool, len: nat, val: int)

  const CODES := 8
  const ABSOLUTE := 7
  type CodeIndex = j: nat | j < CODES

  /** The codewords 0, 110, 101, 1000, 1001, 1111, 11100 and 11101, with their pixel differences. */
  const CODE_LEN: seq<nat> := [1, 3, 3, 4, 4, 4, 5, 5]
  const CODE_BITS: seq<nat> := [0, 6, 5, 8, 9, 15, 28, 29]
  const CODE_VAL: seq<int> := [0, -3, 3, 8, -8, -20, 20, 0]

  function Len(j: CodeIndex): (n: nat)
    ensures 1 <= n <= 5
  {
    CODE_LEN[j]
  }

  function Codeword(j: CodeIndex): (w: seq<bool>)
    ensures |w| == Len(j)
  {
    Pow2Values();
    ToBits(CODE_BITS[j], CODE_LEN[j])
  }

  /** The window `i` starts with codeword `j`. */
  predicate Matches(i: nat, j: CodeIndex) {
    i / Pow2(8 - Len(j)) == CODE_BITS[j]
  }

  function Owner(i: nat): CodeIndex
    requires i < 256
  {
    if i < 128 then 0 else if i < 144 then 3 else if i < 160 then 4 else if i < 192 then 2
    else if i < 224 then 1 else if i < 232 then 6 else if i < 240 then 7 else 5
  }

  /** The eight codewords partition the 256 windows. */
  lemma WindowHasOneOwner(i: nat, j: CodeIndex)
    requires i < 256
    ensures Matches(i, j) <==> j == Owner(i)
  {
    hide Pow2;
    Pow2Values();
    match j
    case 0 => assert 8 - Len(j) == 7;
    case 1 => assert 8 - Len(j) == 5;
    case 2 => assert 8 - Len(j) == 5;
    case 3 => assert 8 - Len(j) == 4;
    case 4 => assert 8 - Len(j) == 4;
    case 5 => assert 8 - Len(j) == 4;
    case _ => assert 8 - Len(j) == 3;
  }

  method InitDecoder() returns (table: seq<Entry>)
    ensures |table| == 256
    ensures forall i | 0 <= i < 256 ::
      table[i] == Entry(Owner(i) == ABSOLUTE, Len(Owner(i)), CODE_VAL[Owner(i)])
  {
    var t := new Entry[256](_ => Entry(false, 0, 0));
    for i := 0 to 256
      invariant forall k | 0 <= k < i :: t[k] == Entry(Owner(k) == ABSOLUTE, Len(Owner(k)), CODE_VAL[Owner(k)])
    {
      var isAbs, val, len := false, 0, 0;
      if i / 0x80 == 0 {
        val, len := 0, 1;
      } else if i / 0x20 == 6 {
        val, len := -3, 3;
      } else if i / 0x20 == 5 {
        val, len := 3, 3;
      } else if i / 0x10 == 8 {
        val, len := 8, 4;
      } else if i / 0x10 == 9 {
        val, len := -8, 4;
      } else if i / 0x10 == 15 {
        val, len := -20, 4;
      } else if i / 8 == 28 {
        val, len := 20, 5;
      } else if i / 8 == 29 {
        isAbs, val, len := true, 0, 5;
      }
      t[i] := Entry(isAbs, len, val);
    }
    table := t[..];
  }

  // ----- Pixel codes -----

  /** The code book: length, bits and difference of each word; the last one is followed by five bits of a value. */
  lemma CodeWords(j: CodeIndex)
    ensures (|Codeword(j)|, Num(Codeword(j)), CODE_VAL[j]) ==
      [(1, 0, 0), (3, 6, -3), (3, 5, 3), (4, 8, 8), (4, 9, -8), (4, 15, -20), (5, 28, 20), (5, 29, 0)][j]
    ensures ABSOLUTE == 7
  {
    hide Num, ToBits, Pow2;
  }

  datatype Code = Raw(b: byte) | Delta(j: CodeIndex) | Abs(v: nat) {
    predicate Valid() {
      match this
      case Raw(_) => true
      case Delta(j) => j != ABSOLUTE
      case Abs(v) => v < 32
    }

    function Encode(): (s: seq<bool>)
      requires Valid()
    {
      Pow2Values();
      match this
      case Raw(b) => ToBits(b, 8)
      case Delta(j) => Codeword(j)
      case Abs(v) => Codeword(ABSOLUTE) + ToBits(v, 5)
    }
  }

  lemma WindowPrefix(b: seq<bool>, j: CodeIndex)
    requires |b| >= 8
    ensures Num(b[..8]) < 256
    ensures Codeword(j) <= b <==> j == Owner(Num(b[..8]))
  {
    hide Pow2, Num, ToBits, Owner;
    Pow2Values();
    var k := Len(j);
    NumSplit(b[..8], k);
    assert b[..8][..k] == b[..k];
    if Codeword(j) <= b {
      assert b[..k] == Codeword(j);
    }
    if Num(b[..k]) == CODE_BITS[j] {
      NumInjective(b[..k], Codeword(j));
    }
    WindowHasOneOwner(Num(b[..8]), j);
  }

  /** The code at the front of a stream, for a raw or a coded pixel. */
  function CodeAt(b: seq<bool>, raw: bool): (c: Code)
    requires |b| >= 10
    ensures c.Raw? == raw
  {
    Pow2Values();
    if raw then Raw(Num(b[..8]))
    else if Owner(Num(b[..8])) == ABSOLUTE then Abs(Num(b[5..10]))
    else Delta(Owner(Num(b[..8])))
  }

  /** It is the only code that can stand there. */
  lemma CodeIsUnique(b: seq<bool>, raw: bool)
    requires |b| >= 10
    ensures CodeAt(b, raw).Valid() && CodeAt(b, raw).Encode() <= b && 1 <= |CodeAt(b, raw).Encode()| <= 10
    ensures forall c: Code | c.Valid() && c.Raw? == raw && c.Encode() <= b :: c == CodeAt(b, raw)
  {
    hide Pow2, Num, ToBits, Owner, Codeword;
    Pow2Values();
    var i := Num(b[..8]);
    WindowPrefix(b, Owner(i));
    ToBitsOfNum(b[..8]);
    ToBitsOfNum(b[5..10]);
    if !raw && Owner(i) == ABSOLUTE {
      assert b[..10] == Codeword(ABSOLUTE) + b[5..10];
    }
    forall c: Code | c.Valid() && c.Raw? == raw && c.Encode() <= b
      ensures c == CodeAt(b, raw)
    {
      match c
      case Raw(v) => assert b[..8] == ToBits(v, 8);
      case Delta(j) => WindowPrefix(b, j);
      case Abs(v) =>
        assert Codeword(ABSOLUTE) <= c.Encode();
        WindowPrefix(b, ABSOLUTE);
        assert c.Encode()[5..] == b[5..10];
    }
  }

  // ----- Frames: what the codes of a stream are, and which image they give -----

  /** The first two pixels of the first two rows are stored raw. */
  predicate RawAt(n: nat, w: nat)
    requires w > 0
  {
    n / w < 2 && n % w < 2
  }

  ghost predicate ValidFrom(codes: seq<Code>, k: nat, w: nat)
    requires w > 0
  {
    forall i | 0 <= i < |codes| :: codes[i].Valid() && codes[i].Raw? == RawAt(k + i, w)
  }

  function EncodeAll(codes: seq<Code>): seq<bool>
    requires forall c | c in codes :: c.Valid()
  {
    if codes == [] then [] else codes[0].Encode() + EncodeAll(codes[1..])
  }

  /** The codes of pixels `k..n` at the front of a stream. */
  function CodesFrom(bits: seq<bool>, k: nat, n: nat, w: nat): (codes: seq<Code>)
    requires w > 0 && k <= n && |bits| >= 10 * (n - k)
    ensures |codes| == n - k
    decreases n - k
  {
    hide Code.Encode, CodeAt, RawAt;
    if k == n then []
    else
      var c := CodeAt(bits, RawAt(k, w));
      CodeIsUnique(bits, RawAt(k, w));
      [c] + CodesFrom(bits[|c.Encode()|..], k + 1, n, w)
  }

  function Clip(v: int): byte {
    if v < 0 then 0 else if v > 0xFF then 0xFF else v
  }

  /** The pixel in this row and column, if it comes before the end of `px`. */
  function PixelAt(px: seq<byte>, w: nat, row: nat, col: nat): byte {
    var n := row * w + col;
    if 0 <= n < |px| then px[n] else 0
  }

  /** Two pixels further on in reading order; narrow images continue in the next row. */
  function TwoOn(w: nat, row: nat, col: nat): (nat, nat)
    requires col < w && w >= 2
  {
    if col + 2 < w then (row, col + 2) else (row + 1, col + 2 - w)
  }

  /**
    The prediction for the pixel in this row and column, from pixels of the same colour filter: the left one
    in the first two rows; the top and top right one in the first two columns; the top, left and top left one
    in the last two columns; else a weighted mean of all four.
  */
  function Predictor(px: seq<byte>, w: nat, row: nat, col: nat): int
    requires w >= 2 && col < w && (row < 2 ==> col >= 2)
  {
    if row < 2 then PixelAt(px, w, row, col - 2)
    else
      var top := PixelAt(px, w, row - 2, col) as int;
      var on := TwoOn(w, row - 2, col);
      var topRight := PixelAt(px, w, on.0, on.1) as int;
      if col < 2 then (top + topRight) / 2
      else
        var left, topLeft := PixelAt(px, w, row, col - 2) as int, PixelAt(px, w, row - 2, col - 2) as int;
        if col + 3 > w then (top + left + topLeft + 1) / 3
        else (left + top + topLeft / 2 + topRight / 2 + 1) / 3
  }

  /** Where these pixels are in the output, seen from the one to be predicted. */
  lemma Neighbours(px: seq<byte>, w: nat, row: nat, col: nat)
    requires w >= 2 && col < w && |px| == row * w + col && (row < 2 ==> col >= 2)
    ensures col >= 2 ==> |px| >= 2 && PixelAt(px, w, row, col - 2) == px[|px| - 2]
    ensures row >= 2 ==>
      var on := TwoOn(w, row - 2, col);
      |px| >= 2 * w && PixelAt(px, w, row - 2, col) == px[|px| - 2 * w]
      && PixelAt(px, w, on.0, on.1) == px[|px| - 2 * w + 2]
    ensures row >= 2 && col >= 2 ==> |px| >= 2 * w + 2 && PixelAt(px, w, row - 2, col - 2) == px[|px| - 2 * w - 2]
  {
    if row >= 2 {
      MulMonotone(w, 2, row);
      assert (row - 2) * w == row * w - 2 * w && (row - 2 + 1) * w == row * w - w;
      assert var on := TwoOn(w, row - 2, col); on.0 * w + on.1 == |px| - 2 * w + 2;
    } else {
      MulMonotone(w, 0, row);
    }
  }

  predicate Between(v: int, a: int, b: int, c: int, d: int) {
    && (a <= v || b <= v || c <= v || d <= v)
    && (v <= a || v <= b || v <= c || v <= d)
  }

  /** The formulas over the output, for the three parts of a row from the third one on. */
  lemma PredictorAt(px: seq<byte>, w: nat, row: nat, col: nat)
    requires row >= 2 && w >= 2 && col < w && |px| == row * w + col
    ensures |px| >= 2 * w + if col < 2 then 0 else 2
    ensures Predictor(px, w, row, col) ==
      if col < 2 then Halves(px, 2 * w) else if col + 3 > w then Thirds(px, 2 * w) else Weighted(px, 2 * w)
  {
    hide PixelAt;
    Neighbours(px, w, row, col);
  }

  lemma PredictorsAt(w: nat, row: nat, col: nat)
    requires row >= 2 && w >= 2 && col < w
    ensures row * w + col >= 2 * w + if col < 2 then 0 else 2
    ensures forall px: seq<byte> | |px| == row * w + col ::
      Predictor(px, w, row, col) ==
      if col < 2 then Halves(px, 2 * w) else if col + 3 > w then Thirds(px, 2 * w) else Weighted(px, 2 * w)
  {
    MulMonotone(w, 2, row);
    forall px: seq<byte> | |px| == row * w + col
      ensures Predictor(px, w, row, col) ==
        if col < 2 then Halves(px, 2 * w) else if col + 3 > w then Thirds(px, 2 * w) else Weighted(px, 2 * w)
    {
      PredictorAt(px, w, row, col);
    }
  }

  function Weighted(px: seq<byte>, d: nat): int
    requires |px| >= d + 2 && d >= 5
  {
    var n := |px|;
    (px[n - d] as int + px[n - 2] as int + px[n - d - 2] as int / 2 + px[n - d + 2] as int / 2 + 1) / 3
  }

  lemma WeightedWeights(px: seq<byte>, d: nat)
    requires |px| >= d + 2 && d >= 5
    ensures var p, n := Weighted(px, d), |px|;
      && Between(p, px[n - 2], px[n - d], px[n - d - 2], px[n - d + 2])
      && (px[n - 2] <= 249 ==> Weighted(px[n - 2 := px[n - 2] + 6], d) == p + 2)
      && (px[n - d] <= 249 ==> Weighted(px[n - d := px[n - d] + 6], d) == p + 2)
      && (px[n - d - 2] <= 249 ==> Weighted(px[n - d - 2 := px[n - d - 2] + 6], d) == p + 1)
      && (px[n - d + 2] <= 249 ==> Weighted(px[n - d + 2 := px[n - d + 2] + 6], d) == p + 1)
  {
  }

  /**
    In the middle of a row the prediction lies between its four neighbours; the left one and the one above weigh a
    third each, those above to the left and right a sixth each.
  */
  lemma InnerPrediction(px: seq<byte>, w: nat, row: nat, col: nat)
    requires row >= 2 && 2 <= col && col + 3 <= w && |px| == row * w + col
    ensures |px| >= 2 * w + 2
    ensures var p, n := Predictor(px, w, row, col), |px|;
      && Between(p, px[n - 2], px[n - 2 * w], px[n - 2 * w - 2], px[n - 2 * w + 2])
      && (px[n - 2] <= 249 ==> Predictor(px[n - 2 := px[n - 2] + 6], w, row, col) == p + 2)
      && (px[n - 2 * w] <= 249 ==> Predictor(px[n - 2 * w := px[n - 2 * w] + 6], w, row, col) == p + 2)
      && (px[n - 2 * w - 2] <= 249 ==> Predictor(px[n - 2 * w - 2 := px[n - 2 * w - 2] + 6], w, row, col) == p + 1)
      && (px[n - 2 * w + 2] <= 249 ==> Predictor(px[n - 2 * w + 2 := px[n - 2 * w + 2] + 6], w, row, col) == p + 1)
  {
    hide Predictor, Weighted, Halves, Thirds;
    PredictorsAt(w, row, col);
    WeightedWeights(px, 2 * w);
  }

  function Halves(px: seq<byte>, d: nat): int
    requires |px| >= d && d >= 3
  {
    var n := |px|;
    (px[n - d] as int + px[n - d + 2] as int) / 2
  }

  lemma HalvesWeights(px: seq<byte>, d: nat)
    requires |px| >= d && d >= 3
    ensures var p, n := Halves(px, d), |px|;
      && Between(p, px[n - d], px[n - d], px[n - d + 2], px[n - d + 2])
      && (px[n - d] <= 253 ==> Halves(px[n - d := px[n - d] + 2], d) == p + 1)
      && (px[n - d + 2] <= 253 ==> Halves(px[n - d + 2 := px[n - d + 2] + 2], d) == p + 1)
  {
  }

  /** In the first two columns the pixel above and the one above to the right weigh half each. */
  lemma LeftPrediction(px: seq<byte>, w: nat, row: nat, col: nat)
    requires row >= 2 && col < 2 && col < w && w >= 2 && |px| == row * w + col
    ensures |px| >= 2 * w
    ensures var p, n := Predictor(px, w, row, col), |px|;
      && Between(p, px[n - 2 * w], px[n - 2 * w], px[n - 2 * w + 2], px[n - 2 * w + 2])
      && (px[n - 2 * w] <= 253 ==> Predictor(px[n - 2 * w := px[n - 2 * w] + 2], w, row, col) == p + 1)
      && (px[n - 2 * w + 2] <= 253 ==> Predictor(px[n - 2 * w + 2 := px[n - 2 * w + 2] + 2], w, row, col) == p + 1)
  {
    hide Predictor, Weighted, Halves, Thirds;
    PredictorsAt(w, row, col);
    HalvesWeights(px, 2 * w);
  }

  function Thirds(px: seq<byte>, d: nat): int
    requires |px| >= d + 2 && d >= 3
  {
    var n := |px|;
    (px[n - d] as int + px[n - 2] as int + px[n - d - 2] as int + 1) / 3
  }

  lemma ThirdsWeights(px: seq<byte>, d: nat)
    requires |px| >= d + 2 && d >= 3
    ensures var p, n := Thirds(px, d), |px|;
      && Between(p, px[n - 2], px[n - d], px[n - d - 2], px[n - 2])
      && (px[n - 2] <= 252 ==> Thirds(px[n - 2 := px[n - 2] + 3], d) == p + 1)
      && (px[n - d] <= 252 ==> Thirds(px[n - d := px[n - d] + 3], d) == p + 1)
      && (px[n - d - 2] <= 252 ==> Thirds(px[n - d - 2 := px[n - d - 2] + 3], d) == p + 1)
  {
  }

  /** In the last two columns the left one, the one above and the one above to the left weigh a third each. */
  lemma RightPrediction(px: seq<byte>, w: nat, row: nat, col: nat)
    requires row >= 2 && 2 <= col < w < col + 3 && |px| == row * w + col
    ensures |px| >= 2 * w + 2
    ensures var p, n := Predictor(px, w, row, col), |px|;
      && Between(p, px[n - 2], px[n - 2 * w], px[n - 2 * w - 2], px[n - 2])
      && (px[n - 2] <= 252 ==> Predictor(px[n - 2 := px[n - 2] + 3], w, row, col) == p + 1)
      && (px[n - 2 * w] <= 252 ==> Predictor(px[n - 2 * w := px[n - 2 * w] + 3], w, row, col) == p + 1)
      && (px[n - 2 * w - 2] <= 252 ==> Predictor(px[n - 2 * w - 2 := px[n - 2 * w - 2] + 3], w, row, col) == p + 1)
  {
    hide Predictor, Weighted, Halves, Thirds;
    PredictorsAt(w, row, col);
    ThirdsWeights(px, 2 * w);
  }

  /** In the first two rows the prediction is the pixel of the same colour to the left. */
  lemma TopPrediction(px: seq<byte>, w: nat, row: nat, col: nat)
    requires row < 2 && 2 <= col < w && |px| == row * w + col
    ensures |px| >= 2 && Predictor(px, w, row, col) == px[|px| - 2]
  {
  }

  /** The pixel a code stands for behind the pixels `px`. */
  function PixelOf(c: Code, px: seq<byte>, w: nat): byte
    requires w >= 2 && c.Valid() && c.Raw? == RawAt(|px|, w)
  {
    match c
    case Raw(b) => b
    case Abs(v) => 8 * v
    case Delta(j) =>
      assert |px| == w * (|px| / w) + |px| % w;
      assert |px| / w < 2 ==> |px| % w >= 2;
      Clip(CODE_VAL[j] + Predictor(px, w, |px| / w, |px| % w))
  }

  function Image(codes: seq<Code>, w: nat): (px: seq<byte>)
    requires w >= 2 && ValidFrom(codes, 0, w)
    ensures |px| == |codes|
  {
    if codes == [] then [] else
    var px := Image(codes[..|codes| - 1], w);
    px + [PixelOf(codes[|codes| - 1], px, w)]
  }

  // ----- Frames of any width -----

  /** Codes are raw as in a frame at least two pixels wide, since two pixels are raw whatever the width. */
  function CodeWidth(w: nat): (c: nat)
    ensures c >= 2
  {
    if w < 2 then 2 else w
  }

  function RowPixels(w: nat, row: nat): nat {
    if row < 2 then CodeWidth(w) else w
  }

  /** The pixels of the first `h` rows: in the first two there are the two raw ones whatever the width. */
  function StoredPixels(w: nat, h: nat): nat {
    if h == 0 then 0 else StoredPixels(w, h - 1) + RowPixels(w, h - 1)
  }

  /**
    The pixel stored behind `px`. With a width of one the pixel two rows up and two to the right
    is the byte `at` to be overwritten.
  */
  function NextPixel(c: Code, px: seq<byte>, w: nat, at: byte): byte
    requires c.Valid() && c.Raw? == RawAt(|px|, CodeWidth(w))
  {
    if w >= 2 then PixelOf(c, px, w) else
    match c
    case Raw(b) => b
    case Abs(v) => 8 * v
    case Delta(j) => Clip(CODE_VAL[j] + (px[|px| - 2] as int + at as int) / 2)
  }

  /** A difference is added to the prediction; what leaves the range of a byte stays at its end. */
  lemma CodedPixelIs(px: seq<byte>, w: nat, row: nat, col: nat, at: byte, j: CodeIndex)
    requires w >= 2 && j != ABSOLUTE && col < w && |px| == row * w + col && (row < 2 ==> col >= 2)
    ensures !RawAt(|px|, CodeWidth(w))
    ensures var (v, p) := (NextPixel(Delta(j), px, w, at), Predictor(px, w, row, col) + CODE_VAL[j]);
      v == p || (v == 0 && p < 0) || (v == 255 && p > 255)
  {
    hide Predictor;
    DivMod(row, w, col);
  }

  /** The bytes these codes leave in a buffer that held `was`. */
  function Pixels(codes: seq<Code>, w: nat, was: seq<byte>): (px: seq<byte>)
    requires ValidFrom(codes, 0, CodeWidth(w)) && |codes| <= |was|
    ensures |px| == |codes|
  {
    if codes == [] then [] else
    var n := |codes| - 1;
    var px := Pixels(codes[..n], w, was);
    px + [NextPixel(codes[n], px, w, was[n])]
  }

  /** For all but the narrowest frames they are the image, whatever the buffer held. */
  lemma {:induction false} PixelsAreImage(codes: seq<Code>, w: nat, was: seq<byte>)
    requires w >= 2 && ValidFrom(codes, 0, w) && |codes| <= |was|
    ensures Pixels(codes, w, was) == Image(codes, w)
  {
    hide RawAt, PixelOf;
    if codes != [] {
      PixelsAreImage(codes[..|codes| - 1], w, was);
    }
  }

  /** Each pixel is what its code gives behind the pixels before it. */
  ghost predicate Reproduces(codes: seq<Code>, img: seq<byte>, w: nat)
    requires w >= 2 && ValidFrom(codes, 0, w)
  {
    |img| == |codes| && forall n | 0 <= n < |img| :: img[n] == PixelOf(codes[n], img[..n], w)
  }

  lemma {:induction false} ImageOfReproducing(codes: seq<Code>, img: seq<byte>, w: nat)
    requires w >= 2 && ValidFrom(codes, 0, w) && Reproduces(codes, img, w)
    ensures Image(codes, w) == img
  {
    hide RawAt, PixelOf;
    if codes != [] {
      var n := |img| - 1;
      assert img == img[..n] + [img[n]];
      PrefixReproduces(codes, img, w, n);
      ImageOfReproducing(codes[..n], img[..n], w);
    }
  }

  lemma PrefixReproduces(codes: seq<Code>, img: seq<byte>, w: nat, n: nat)
    requires w >= 2 && ValidFrom(codes, 0, w) && Reproduces(codes, img, w) && n <= |img|
    ensures ValidFrom(codes[..n], 0, w) && Reproduces(codes[..n], img[..n], w)
  {
    hide RawAt, PixelOf;
    forall k | 0 <= k < n
      ensures img[..n][k] == PixelOf(codes[..n][k], img[..n][..k], w)
    {
      assert img[..n][..k] == img[..k];
    }
  }

  lemma {:induction false} CodesFromEncoded(codes: seq<Code>, rest: seq<bool>, k: nat, w: nat)
    requires w > 0 && ValidFrom(codes, k, w) && |EncodeAll(codes) + rest| >= 10 * |codes|
    ensures CodesFrom(EncodeAll(codes) + rest, k, k + |codes|, w) == codes
  {
    hide Code.Encode, CodeAt, RawAt, CodesFrom;
    var bits := EncodeAll(codes) + rest;
    CodesFromFirst(bits, k, k + |codes|, w);
    if codes != [] {
      var c := codes[0];
      Append(c.Encode(), EncodeAll(codes[1..]), rest);
      CodeIsUnique(bits, RawAt(k, w));
      assert codes[0].Raw? == RawAt(k + 0, w);
      assert c.Encode() <= bits;
      assert bits[|c.Encode()|..] == EncodeAll(codes[1..]) + rest;
      TailValid(codes, k, w);
      CodesFromEncoded(codes[1..], rest, k + 1, w);
    }
  }

  lemma TailValid(codes: seq<Code>, k: nat, w: nat)
    requires w > 0 && codes != [] && ValidFrom(codes, k, w)
    ensures codes[0].Valid() && ValidFrom(codes[1..], k + 1, w)
  {
    hide RawAt, Code.Valid;
    assert codes[0].Raw? == RawAt(k + 0, w);
    forall i | 0 <= i < |codes[1..]|
      ensures codes[1..][i].Valid() && codes[1..][i].Raw? == RawAt(k + 1 + i, w)
    {
      assert codes[1..][i] == codes[i + 1];
    }
  }

  lemma CodesFromFirst(bits: seq<bool>, k: nat, n: nat, w: nat)
    requires w > 0 && k <= n && |bits| >= 10 * (n - k)
    ensures k == n ==> CodesFrom(bits, k, n, w) == []
    ensures k < n ==>
      var c := CodeAt(bits, RawAt(k, w));
      |c.Encode()| <= 10 && CodesFrom(bits, k, n, w) == [c] + CodesFrom(bits[|c.Encode()|..], k + 1, n, w)
  {
    hide Code.Encode, CodeAt, RawAt;
    if k < n {
      CodeIsUnique(bits, RawAt(k, w));
    }
  }

  /** Decoding inverts coding: any codes that reproduce an image are found again, and give the image. */
  lemma RoundTrip(codes: seq<Code>, img: seq<byte>, rest: seq<bool>, w: nat)
    requires w >= 2 && ValidFrom(codes, 0, w) && Reproduces(codes, img, w)
    requires |EncodeAll(codes) + rest| >= 10 * |img|
    ensures CodesFrom(EncodeAll(codes) + rest, 0, |img|, w) == codes
    ensures Image(codes, w) == img
  {
    hide Code.Encode, CodesFrom, EncodeAll, Image, Reproduces;
    ImageOfReproducing(codes, img, w);
    CodesFromEncoded(codes, rest, 0, w);
  }

  lemma ConsValid(c: Code, codes: seq<Code>, k: nat, w: nat)
    requires w > 0 && c.Valid() && c.Raw? == RawAt(k, w) && ValidFrom(codes, k + 1, w)
    ensures ValidFrom([c] + codes, k, w)
  {
    hide RawAt, Code.Valid;
    forall i | 0 <= i < |[c] + codes|
      ensures ([c] + codes)[i].Valid() && ([c] + codes)[i].Raw? == RawAt(k + i, w)
    {
      if i > 0 {
        assert RawAt(k + 1 + (i - 1), w) == RawAt(k + i, w);
      }
    }
  }

  lemma {:induction false} CodesAreValid(bits: seq<bool>, k: nat, n: nat, w: nat)
    requires w > 0 && k <= n && |bits| >= 10 * (n - k)
    ensures ValidFrom(CodesFrom(bits, k, n, w), k, w)
    ensures EncodeAll(CodesFrom(bits, k, n, w)) <= bits
    decreases n - k
  {
    hide Code.Encode, Code.Valid, CodeAt, RawAt, CodesFrom;
    CodesFromFirst(bits, k, n, w);
    if k < n {
      var c := CodeAt(bits, RawAt(k, w));
      CodeIsUnique(bits, RawAt(k, w));
      var rest := bits[|c.Encode()|..];
      CodesAreValid(rest, k + 1, n, w);
      var tail := CodesFrom(rest, k + 1, n, w);
      ConsValid(c, tail, k, w);
      assert ([c] + tail)[1..] == tail;
      assert bits == c.Encode() + rest;
    }
  }

  // ----- The decoder -----

  lemma {:induction false} EncodeAllSnoc(codes: seq<Code>, c: Code)
    requires c.Valid() && forall d | d in codes :: d.Valid()
    ensures EncodeAll(codes + [c]) == EncodeAll(codes) + c.Encode()
  {
    hide Code.Encode;
    if codes == [] {
      assert EncodeAll([c]) == c.Encode() + EncodeAll([]);
      Append(c.Encode(), [], []);
    } else {
      EncodeAllSnoc(codes[1..], c);
      ConsAppend(codes, [c]);
      Append(codes[0].Encode(), EncodeAll(codes[1..]), c.Encode());
    }
  }

  /** `n` pixels are decoded, `pos` bits are read, and the rest of the stream holds the other codes. */
  ghost predicate Progress(bits: seq<bool>, n: nat, total: nat, w: nat, pos: nat, done: seq<Code>)
    requires w > 0
  {
    && n <= total && |bits| >= 10 * total + 16
    && |done| == n && ValidFrom(done, 0, w)
    && pos == |EncodeAll(done)| <= 10 * n
    && CodesFrom(bits, 0, total, w) == done + CodesFrom(bits[pos..], n, total, w)
  }

  lemma CodesFromStep(bits: seq<bool>, pos: nat, n: nat, total: nat, w: nat)
    requires n < total && pos <= |bits| && |bits| >= pos + 10 * (total - n) && w > 0
    ensures var c := CodeAt(bits[pos..], RawAt(n, w));
      |c.Encode()| <= 10
      && CodesFrom(bits[pos..], n, total, w) == [c] + CodesFrom(bits[pos + |c.Encode()|..], n + 1, total, w)
  {
    hide Code.Encode, CodeAt, RawAt;
    var c := CodeAt(bits[pos..], RawAt(n, w));
    CodeIsUnique(bits[pos..], RawAt(n, w));
    assert bits[pos..][|c.Encode()|..] == bits[pos + |c.Encode()|..];
  }

  lemma Advance(bits: seq<bool>, n: nat, total: nat, w: nat, pos: nat, done: seq<Code>)
    requires w > 0 && Progress(bits, n, total, w, pos, done) && n < total
    ensures var c := CodeAt(bits[pos..], RawAt(n, w));
      c.Valid() && c.Raw? == RawAt(n, w) && Progress(bits, n + 1, total, w, pos + |c.Encode()|, done + [c])
  {
    hide Code.Encode, CodeAt, RawAt, EncodeAll, CodesFrom;
    var c := CodeAt(bits[pos..], RawAt(n, w));
    CodeIsUnique(bits[pos..], RawAt(n, w));
    EncodeAllSnoc(done, c);
    CodesFromStep(bits, pos, n, total, w);
    Append(done, [c], CodesFrom(bits[pos + |c.Encode()|..], n + 1, total, w));
  }

  lemma PixelsSnoc(done: seq<Code>, c: Code, w: nat, was: seq<byte>)
    requires ValidFrom(done, 0, CodeWidth(w)) && |done| < |was|
    requires c.Valid() && c.Raw? == RawAt(|done|, CodeWidth(w))
    ensures ValidFrom(done + [c], 0, CodeWidth(w))
    ensures var px := Pixels(done, w, was);
      Pixels(done + [c], w, was) == px + [NextPixel(c, px, w, was[|done|])]
  {
    hide RawAt, NextPixel, CodeWidth;
    assert (done + [c])[..|done|] == done;
  }

  /** The bits still needed never exceed those decoded in the end. */
  lemma ReadSoFar(done: seq<Code>, more: seq<Code>)
    requires forall d | d in done + more :: d.Valid()
    ensures forall d | d in done :: d.Valid()
    ensures |EncodeAll(done)| <= |EncodeAll(done + more)|
    decreases |more|
  {
    hide Code.Encode, EncodeAll;
    if more == [] {
      Append(done, [], []);
    } else {
      var init := more[..|more| - 1];
      assert done + more == done + init + [more[|more| - 1]];
      assert forall d | d in done + init :: d in done + more;
      assert forall d | d in done :: d in done + more;
      ReadSoFar(done, init);
      EncodeAllSnoc(done + init, more[|more| - 1]);
    }
  }

  /** The bits a frame takes. */
  ghost function FrameBits(bits: seq<bool>, total: nat, w: nat): nat
    requires w > 0 && |bits| >= 10 * total
  {
    CodesAreValid(bits, 0, total, w);
    |EncodeAll(CodesFrom(bits, 0, total, w))|
  }

  /** The test after each row: the last byte read lies at or behind `src_size - 12`, a 32-bit difference. */
  predicate Overrun(bitpos: int, srcSize: nat) {
    (bitpos - 1) / 8 >= (srcSize - 12) % 0x1_0000_0000
  }

  /** A decoder overruns exactly if it has read bits behind the source, but for its last twelve bytes. */
  lemma OverrunIs(bitpos: nat, srcSize: nat)
    requires bitpos > 0 && 12 <= srcSize < 0x1_0000_0000
    ensures Overrun(bitpos, srcSize) <==> bitpos > 8 * (srcSize - 12)
  {
  }

  lemma Overruns(bits: seq<bool>, n: nat, total: nat, w: nat, pos: nat, done: seq<Code>, srcSize: nat)
    requires w > 0 && Progress(bits, n, total, w, pos, done)
    ensures Overrun(pos, srcSize) ==> Overrun(FrameBits(bits, total, w), srcSize)
    ensures n == total ==> FrameBits(bits, total, w) == pos && CodesFrom(bits, 0, total, w) == done
  {
    hide Code.Encode, EncodeAll, CodeAt, RawAt;
    CodesAreValid(bits, 0, total, w);
    ReadSoFar(done, CodesFrom(bits[pos..], n, total, w));
    Append(done, [], []);
  }

  /** Window, table entry and, for absolute codes, the second window make up the code. */
  lemma CodedWindow(b: seq<bool>, win: nat)
    requires |b| >= 13 && win == Num(b[..8])
    ensures win < 256
    ensures var c, j := CodeAt(b, false), Owner(win);
      && c.Valid()
      && (j == ABSOLUTE ==> |c.Encode()| == 10 && c == Abs(Num(b[5..13]) / 8))
      && (j != ABSOLUTE ==> |c.Encode()| == Len(j) && c == Delta(j))
  {
    hide Num, Pow2, ToBits, Owner, Codeword;
    Pow2Values();
    CodeIsUnique(b, false);
    NumSplit(b[5..13], 5);
    assert b[5..13][..5] == b[5..10];
  }

  // ----- The predicate the decoding loops keep -----

  /** The first `n` bytes of the buffer are the pixels of the codes read so far, the others are as they were. */
  ghost predicate Decoded(bits: seq<bool>, total: nat, w: nat, pos: nat, done: seq<Code>,
                          out: seq<byte>, n: nat, was: seq<byte>)
  {
    && |out| == |was| >= total && Progress(bits, n, total, CodeWidth(w), pos, done)
    && out[..n] == Pixels(done, w, was) && out[n..] == was[n..]
  }

  lemma StepDecoded(bits: seq<bool>, total: nat, w: nat, pos: nat, done: seq<Code>,
                    out: seq<byte>, n: nat, was: seq<byte>)
    requires Decoded(bits, total, w, pos, done, out, n, was) && n < total
    ensures |bits| >= pos + 26
    ensures var c := CodeAt(bits[pos..], RawAt(n, CodeWidth(w)));
      c.Valid() && c.Raw? == RawAt(n, CodeWidth(w)) &&
      Decoded(bits, total, w, pos + |c.Encode()|, done + [c], out[n := NextPixel(c, out[..n], w, out[n])], n + 1, was)
  {
    hide Code.Encode, CodeAt, RawAt, NextPixel, EncodeAll, CodesFrom, Pixels, CodeWidth;
    Advance(bits, n, total, CodeWidth(w), pos, done);
    var c := CodeAt(bits[pos..], RawAt(n, CodeWidth(w)));
    PixelsSnoc(done, c, w, was);
    assert out[n] == out[n..][0] == was[n];
    var next := out[n := NextPixel(c, out[..n], w, out[n])];
    assert next[..n + 1] == out[..n] + [next[n]];
    assert next[n + 1..] == out[n..][1..] == was[n..][1..];
  }

  /** The bytes `px` are the pixels of the codes in the bits, in a buffer that held `was`. */
  ghost predicate FrameDecoded(bits: seq<bool>, px: seq<byte>, w: nat, was: seq<byte>)
    requires |bits| >= 10 * |px|
  {
    var codes := CodesFrom(bits, 0, |px|, CodeWidth(w));
    ValidFrom(codes, 0, CodeWidth(w)) && |px| <= |was| && px == Pixels(codes, w, was)
  }

  /** Nothing at or behind index `end` has changed. */
  ghost predicate KeptFrom(out: seq<byte>, was: seq<byte>, end: int) {
    |out| == |was| && forall q: nat :: end <= q < |out| ==> out[q] == was[q]
  }

  lemma KeptBehind(out: seq<byte>, was: seq<byte>, n: nat, end: int)
    requires n <= end && |out| == |was| >= n && out[n..] == was[n..]
    ensures KeptFrom(out, was, end)
  {
    forall q: nat | end <= q < |out|
      ensures out[q] == was[q]
    {
      assert out[q] == out[n..][q - n] == was[n..][q - n];
    }
  }

  /** The first `stored` bytes are pixels of the frame, the others are as they were. */
  ghost predicate StoppedAt(bits: seq<bool>, stored: nat, w: nat, h: nat, out: seq<byte>, was: seq<byte>) {
    && stored <= StoredPixels(w, h) <= |out| == |was| && |bits| >= 10 * StoredPixels(w, h)
    && FrameDecoded(bits, out[..stored], w, was) && out[stored..] == was[stored..]
  }

  lemma Start(bits: seq<bool>, total: nat, w: nat, out: seq<byte>)
    requires |bits| >= 10 * total + 16 && |out| >= total
    ensures Decoded(bits, total, w, 0, [], out, 0, out)
  {
    Append(CodesFrom(bits, 0, total, CodeWidth(w)), [], []);
    assert bits[0..] == bits;
  }

  lemma RowAndColumn(n: nat, w: nat, row: nat, col: nat)
    requires col < w && n == row * w + col
    ensures n / w == row && n % w == col
    ensures RawAt(n, w) == (row < 2 && col < 2)
  {
    DivMod(row, w, col);
  }

  /** Where the rows begin. */
  lemma {:induction false} RowStart(w: nat, row: nat)
    ensures w >= 2 ==> StoredPixels(w, row) == row * w
    ensures w < 2 ==> StoredPixels(w, row) == if row < 2 then 2 * row else 4 + w * (row - 2)
  {
    if row > 0 {
      RowStart(w, row - 1);
    }
  }

  /** Which pixels of a row are raw. */
  lemma RawInRow(w: nat, row: nat, col: nat)
    requires col < RowPixels(w, row)
    ensures RawAt(StoredPixels(w, row) + col, CodeWidth(w)) == (row < 2 && col < 2)
  {
    RowStart(w, row);
    if w >= 2 {
      RowAndColumn(row * w + col, w, row, col);
    }
  }

  lemma {:induction false} StoredGrows(w: nat, row: nat, h: nat)
    requires row <= h
    ensures StoredPixels(w, row) <= StoredPixels(w, h)
    decreases h
  {
    if row < h {
      StoredGrows(w, row, h - 1);
    }
  }

  /** The bits the first rows of a frame take. */
  ghost function RowBits(bits: seq<bool>, w: nat, row: nat, h: nat): nat
    requires row <= h && |bits| >= 10 * StoredPixels(w, h)
  {
    StoredGrows(w, row, h);
    FrameBits(bits, StoredPixels(w, row), CodeWidth(w))
  }

  /** The rows decoded in the end if `row` of them are: the decoder stops behind the first one that overruns. */
  ghost function Rows(bits: seq<bool>, srcSize: nat, w: nat, row: nat, h: nat): (r: nat)
    requires row <= h && |bits| >= 10 * StoredPixels(w, h)
    ensures row <= r <= h && (row < h ==> row < r)
    decreases h - row
  {
    if row == h then h
    else if Overrun(RowBits(bits, w, row + 1, h), srcSize) then row + 1
    else Rows(bits, srcSize, w, row + 1, h)
  }

  /** The bytes a call stores. */
  ghost function Stores(bits: seq<bool>, srcSize: nat, w: nat, h: nat): nat
    requires |bits| >= 10 * StoredPixels(w, h)
  {
    StoredPixels(w, Rows(bits, srcSize, w, 0, h))
  }

  /** The counter of incomplete frames in a row, and what the call returns. */
  function AfterFrame(dropped: int, incomplete: bool): (r: (int, int)) {
    if !incomplete then (0, 0) else if dropped + 1 == 3 then (0, 0) else (-1, dropped + 1)
  }

  lemma RowLength(w: nat, row: nat)
    ensures RowPixels(w, row) == if row < 2 && w < 2 then 2 else w
    ensures StoredPixels(w, row + 1) == StoredPixels(w, row) + RowPixels(w, row)
  {
  }

  /** The coded pixel in this row and column. */
  lemma NextCoded(px: seq<byte>, w: nat, row: nat, col: nat, at: byte)
    requires |px| == StoredPixels(w, row) + col && col < w && (row < 2 ==> col >= 2)
    ensures !RawAt(|px|, CodeWidth(w))
    ensures if w < 2 then row >= 2 && |px| >= 4 else |px| == row * w + col
    ensures forall v: nat | v < 32 :: NextPixel(Abs(v), px, w, at) == 8 * v
    ensures var p := if w < 2 then (px[|px| - 2] as int + at as int) / 2 else Predictor(px, w, row, col);
      forall j: CodeIndex | j != ABSOLUTE :: NextPixel(Delta(j), px, w, at) == Clip(CODE_VAL[j] + p)
  {
    hide RawAt, Predictor, StoredPixels;
    RowLength(w, row);
    RawInRow(w, row, col);
    RowStart(w, row);
    if w >= 2 {
      RowAndColumn(|px|, w, row, col);
    }
  }

  class Decoder {
    var initialized: bool
    var table: seq<Entry>
    var framesDropped: int

    ghost predicate Valid()
      reads this
    {
      initialized ==>
        |table| == 256 && forall i | 0 <= i < 256 ::
          table[i] == Entry(Owner(i) == ABSOLUTE, Len(Owner(i)), CODE_VAL[Owner(i)])
    }

    constructor ()
      ensures Valid() && framesDropped == 0
    {
      initialized, table, framesDropped := false, [], 0;
    }

    /** The prediction for pixel `n`, read back from the output. */
    method Predict(out: array<byte>, n: nat, w: nat, row: nat, col: nat) returns (p: int)
      requires n < out.Length && col < w && (if w < 2 then row >= 2 && n >= 4 else n == row * w + col)
      requires row < 2 ==> col >= 2
      ensures p == if w < 2 then (out[n - 2] as int + out[n] as int) / 2 else Predictor(out[..n], w, row, col)
    {
      hide PixelAt;
      ghost var px := out[..n];
      if w >= 2 {
        Neighbours(px, w, row, col);
      }
      if row < 2 {
        p := out[n - 2] as int;
      } else {
        var tp := out[n - 2 * w] as int;
        if col < 2 {
          p := (tp + out[n - 2 * w + 2] as int) / 2;
        } else if col + 3 > w {
          p := (tp + out[n - 2] as int + out[n - 2 * w - 2] as int + 1) / 3;
        } else {
          var tlp, trp := out[n - 2 * w - 2] as int / 2, out[n - 2 * w + 2] as int / 2;
          p := (out[n - 2] as int + tp + tlp + trp + 1) / 3;
        }
      }
    }

    /** One pixel that is not raw: reads its code, predicts, and stores it at `n`. */
    method CodedPixel(data: seq<byte>, bitpos: nat, out: array<byte>, n: nat, w: nat, row: nat, col: nat)
      returns (pos: nat)
      requires Valid() && initialized && n == StoredPixels(w, row) + col < out.Length
      requires col < w && (row < 2 ==> col >= 2)
      requires bitpos + 26 <= |Stream(data)|
      modifies out
      ensures !RawAt(n, CodeWidth(w))
      ensures var c := CodeAt(Stream(data)[bitpos..], false);
        c.Valid() && pos == bitpos + |c.Encode()|
        && out[..] == old(out[..])[n := NextPixel(c, old(out[..n]), w, old(out[n]))]
    {
      hide Num, Stream, Owner, RawAt, Predictor, CodeAt, Code.Encode, StoredPixels, RowPixels, NextPixel, CodeWidth;
      ghost var b := Stream(data)[bitpos..];
      NextCoded(out[..n], w, row, col, out[n]);
      var code := GetByte(data, bitpos);
      assert b[..8] == Stream(data)[bitpos..bitpos + 8];
      CodedWindow(b, code);
      pos := bitpos + table[code].len;
      if table[code].isAbs {
        assert b[5..13] == Stream(data)[pos..pos + 8];
        code := GetByte(data, pos);
        out[n] := Clip(code / 8 * 8);
        pos := pos + 5;
      } else {
        var p := Predict(out, n, w, row, col);
        out[n] := Clip(table[code].val + p);
      }
    }

    /** One row: two raw pixels in the first two rows, coded pixels otherwise. */
    method DecodeRow(inp: seq<byte>, pos: nat, out: array<byte>, ghost total: nat, w: nat, row: nat,
                     n: nat, ghost before: seq<Code>, ghost was: seq<byte>)
      returns (bitpos: nat, end: nat, ghost done: seq<Code>)
      requires Valid() && initialized && n == StoredPixels(w, row) && StoredPixels(w, row + 1) <= total
      requires Decoded(Stream(inp), total, w, pos, before, out[..], n, was)
      modifies out
      ensures end == StoredPixels(w, row + 1)
      ensures Decoded(Stream(inp), total, w, bitpos, done, out[..], end, was)
    {
      hide Num, Stream, NextPixel, RawAt, CodeAt, Code.Encode, Decoded, Decoder.Valid, CodeWidth, RowPixels,
        StoredPixels;
      ghost var bits := Stream(inp);
      bitpos, end, done := pos, n, before;
      var col := 0;
      DecodedFits(bits, total, w, pos, before, out[..], n, was);
      RowLength(w, row);
      while row < 2 && col < 2
        invariant col <= 2 && col <= RowPixels(w, row) && end == n + col
        invariant Decoded(bits, total, w, bitpos, done, out[..], end, was)
      {
        RawInRow(w, row, col);
        StepDecoded(bits, total, w, bitpos, done, out[..], end, was);
        var code := GetByte(inp, bitpos);
        RawPixel(bits, bitpos, out[..end], w, out[end], code);
        ghost var prev := out[..];
        out[end] := code;
        assert out[..] == prev[end := NextPixel(CodeAt(bits[bitpos..], true), prev[..end], w, prev[end])];
        done := done + [CodeAt(bits[bitpos..], true)];
        bitpos := bitpos + 8;
        end, col := end + 1, col + 1;
      }
      while col < w
        invariant (row < 2 ==> col >= 2) && col <= RowPixels(w, row) && end == n + col
        invariant Decoded(bits, total, w, bitpos, done, out[..], end, was)
      {
        RawInRow(w, row, col);
        StepDecoded(bits, total, w, bitpos, done, out[..], end, was);
        done := done + [CodeAt(bits[bitpos..], false)];
        bitpos := CodedPixel(inp, bitpos, out, end, w, row, col);
        end, col := end + 1, col + 1;
      }
    }

    /** Decodes one frame; every third incomplete frame in a row is passed off as a success. */
    method Decode(inp: seq<byte>, srcSize: nat, out: array<byte>, w: nat, h: nat) returns (ret: int)
      requires Valid() && out.Length >= StoredPixels(w, h) && srcSize < 0x1_0000_0000
      requires |inp| >= 12 && 8 * |inp[12..]| >= 10 * StoredPixels(w, h) + 16
      modifies this, out
      ensures Valid()
      ensures var bits := Stream(inp[12..]);
        var incomplete := h > 0 && Overrun(RowBits(bits, w, h, h), srcSize);
        var stored := Stores(bits, srcSize, w, h);
        && (ret, framesDropped) == AfterFrame(old(framesDropped), incomplete)
        && (!incomplete ==> stored == StoredPixels(w, h))
        && StoppedAt(bits, stored, w, h, out[..], old(out[..]))
      ensures w >= 2 ==> KeptFrom(out[..], old(out[..]), w * h)
    {
      hide Stream, Decoded, Overrun, FrameBits, FrameDecoded, Owner, Len, RowBits;
      if !initialized {
        Initialize();
      }
      ghost var bits := Stream(inp[12..]);
      ghost var total := StoredPixels(w, h);
      ghost var done: seq<Code> := [];
      ghost var was := out[..];
      Start(bits, total, w, was);
      var bitpos: nat := 0;
      var n := 0;
      for row := 0 to h
        invariant Valid() && initialized && framesDropped == old(framesDropped)
        invariant n == StoredPixels(w, row) && Decoded(bits, total, w, bitpos, done, out[..], n, was)
        invariant row > 0 ==> !Overrun(bitpos, srcSize) && bitpos == RowBits(bits, w, row, h)
        invariant Rows(bits, srcSize, w, 0, h) == Rows(bits, srcSize, w, row, h)
      {
        StoredGrows(w, row + 1, h);
        bitpos, n, done := DecodeRow(inp[12..], bitpos, out, total, w, row, n, done, was);
        RowDecoded(bits, h, w, bitpos, done, out[..], row + 1, was, srcSize);
        if Overrun(bitpos, srcSize) {
          FrameEnd(bits, h, w, bitpos, done, out[..], row + 1, was);
          framesDropped := framesDropped + 1;
          if framesDropped == 3 {
            framesDropped := 0;
            return 0;
          }
          return -1;
        }
      }
      FrameEnd(bits, h, w, bitpos, done, out[..], h, was);
      framesDropped := 0;
      ret := 0;
    }

    method Initialize()
      requires Valid()
      modifies this
      ensures Valid() && initialized && framesDropped == old(framesDropped)
    {
      table := InitDecoder();
      initialized := true;
    }
  }

  lemma DecodedFits(bits: seq<bool>, total: nat, w: nat, pos: nat, done: seq<Code>,
                    out: seq<byte>, n: nat, was: seq<byte>)
    requires Decoded(bits, total, w, pos, done, out, n, was)
    ensures n <= total <= |out| && |bits| >= 10 * total + 16
  {
  }

  lemma RawPixel(bits: seq<bool>, pos: nat, px: seq<byte>, w: nat, at: byte, code: nat)
    requires |bits| >= pos + 10 && RawAt(|px|, CodeWidth(w)) && code == Num(bits[pos..pos + 8])
    ensures code < 256
    ensures var c := CodeAt(bits[pos..], true);
      c.Valid() && |c.Encode()| == 8 && NextPixel(c, px, w, at) == code
  {
    hide Num, Pow2, ToBits;
    Pow2Values();
    assert bits[pos..][..8] == bits[pos..pos + 8];
  }

  /** The codes of fewer pixels are the first of them. */
  lemma {:induction false} CodesPrefix(bits: seq<bool>, k: nat, m: nat, n: nat, w: nat)
    requires w > 0 && k <= m <= n && |bits| >= 10 * (n - k)
    ensures CodesFrom(bits, k, m, w) == CodesFrom(bits, k, n, w)[..m - k]
    decreases m - k
  {
    hide Code.Encode, CodeAt, RawAt, CodesFrom;
    CodesFromFirst(bits, k, m, w);
    CodesFromFirst(bits, k, n, w);
    if k < m {
      CodeIsUnique(bits, RawAt(k, w));
      CodesPrefix(bits[|CodeAt(bits, RawAt(k, w)).Encode()|..], k + 1, m, n, w);
    }
  }

  lemma DoneIsPrefix(bits: seq<bool>, n: nat, total: nat, w: nat, pos: nat, done: seq<Code>)
    requires w > 0 && Progress(bits, n, total, w, pos, done)
    ensures CodesFrom(bits, 0, n, w) == done && FrameBits(bits, n, w) == pos
  {
    hide Code.Encode, EncodeAll, CodeAt, RawAt, CodesFrom;
    CodesPrefix(bits, 0, n, total, w);
    CodesAreValid(bits, 0, n, w);
  }

  /** An overrun behind a row is one behind the frame. */
  lemma RowDecoded(bits: seq<bool>, h: nat, w: nat, pos: nat, done: seq<Code>,
                   out: seq<byte>, row: nat, was: seq<byte>, srcSize: nat)
    requires row <= h
    requires Decoded(bits, StoredPixels(w, h), w, pos, done, out, StoredPixels(w, row), was)
    ensures |bits| >= 10 * StoredPixels(w, h) && pos == RowBits(bits, w, row, h)
    ensures Overrun(pos, srcSize) ==> Overrun(RowBits(bits, w, h, h), srcSize)
  {
    hide Overrun, FrameBits, Pixels, CodesFrom, EncodeAll, CodeWidth;
    var n, total := StoredPixels(w, row), StoredPixels(w, h);
    Overruns(bits, n, total, CodeWidth(w), pos, done, srcSize);
    DoneIsPrefix(bits, n, total, CodeWidth(w), pos, done);
  }

  /** What the call has stored when it stops behind these rows. */
  lemma FrameEnd(bits: seq<bool>, h: nat, w: nat, pos: nat, done: seq<Code>, out: seq<byte>, row: nat, was: seq<byte>)
    requires row <= h
    requires Decoded(bits, StoredPixels(w, h), w, pos, done, out, StoredPixels(w, row), was)
    ensures StoppedAt(bits, StoredPixels(w, row), w, h, out, was)
    ensures w >= 2 ==> KeptFrom(out, was, w * h)
  {
    hide Pixels, CodesFrom, EncodeAll, CodeWidth;
    var n, total := StoredPixels(w, row), StoredPixels(w, h);
    DoneIsPrefix(bits, n, total, CodeWidth(w), pos, done);
    StoredGrows(w, row, h);
    if w >= 2 {
      RowStart(w, h);
      KeptBehind(out, was, n, total);
    }
  }

  // ----- Frames narrower than two pixels are stored beyond the image -----

  /** Coded pixels of no difference take one bit each. */
  lemma {:induction false} ShortCodes(bits: seq<bool>, k: nat, n: nat)
    requires k <= n && |bits| >= 10 * (n - k) && forall i | 0 <= i < |bits| :: !bits[i]
    ensures forall c | c in CodesFrom(bits, k, n, 2) :: c.Valid()
    ensures |EncodeAll(CodesFrom(bits, k, n, 2))| <= n - k + if k < 4 then 7 * (4 - k) else 0
    decreases n - k
  {
    hide CodeAt, RawAt, CodesFrom;
    CodesFromFirst(bits, k, n, 2);
    CodesAreValid(bits, k, n, 2);
    if k < n {
      var c := CodeAt(bits, RawAt(k, 2));
      CodeIsUnique(bits, RawAt(k, 2));
      ZeroCode(bits, k);
      ShortCodes(bits[|c.Encode()|..], k + 1, n);
    }
  }

  lemma ZeroBit()
    ensures Delta(0).Valid() && Delta(0).Encode() == [false]
  {
    assert ToBits(0, 1) == [false];
  }

  lemma ZeroCode(bits: seq<bool>, k: nat)
    requires |bits| >= 10 && forall i | 0 <= i < |bits| :: !bits[i]
    ensures |CodeAt(bits, RawAt(k, 2)).Encode()| <= if k < 4 then 8 else 1
  {
    hide ToBits, Num, Owner, CodeAt;
    CodeIsUnique(bits, RawAt(k, 2));
    ZeroBit();
    assert k >= 4 ==> Delta(0).Encode() <= bits;
  }

  /** With a source as long as its size can say, a call with such bits stores every row. */
  lemma {:induction false} NothingOverruns(bits: seq<bool>, w: nat, row: nat, h: nat)
    requires w < 2 && row <= h < 0x1_0000_0000
    requires |bits| >= 10 * StoredPixels(w, h) && forall i | 0 <= i < |bits| :: !bits[i]
    ensures Rows(bits, 0xFFFF_FFFF, w, row, h) == h
    decreases h - row
  {
    hide StoredPixels, CodesFrom, EncodeAll;
    if row < h {
      var n := StoredPixels(w, row + 1);
      StoredGrows(w, row + 1, h);
      RowStart(w, row + 1);
      ShortCodes(bits, 0, n);
      assert RowBits(bits, w, row + 1, h) <= n + 28 < 0x1_0000_0100;
      assert !Overrun(RowBits(bits, w, row + 1, h), 0xFFFF_FFFF);
      NothingOverruns(bits, w, row + 1, h);
    }
  }

  /** What calls store fits into the image, for every source, exactly if that is at least two pixels wide, or empty. */
  lemma StoresFit(w: nat, h: nat)
    requires w < 0x1_0000_0000 && h < 0x1_0000_0000
    ensures (forall bits: seq<bool>, srcSize: nat
              | |bits| >= 10 * StoredPixels(w, h) + 16 && srcSize < 0x1_0000_0000
              :: Stores(bits, srcSize, w, h) <= w * h)
            <==> w >= 2 || h == 0
  {
    hide Rows;
    RowStart(w, h);
    if w >= 2 || h == 0 {
      forall bits: seq<bool>, srcSize: nat | |bits| >= 10 * StoredPixels(w, h)
        ensures Stores(bits, srcSize, w, h) <= w * h
      {
        StoredGrows(w, Rows(bits, srcSize, w, 0, h), h);
      }
    } else {
      var bits := seq(10 * StoredPixels(w, h) + 16, _ => false);
      NothingOverruns(bits, w, 0, h);
      assert Stores(bits, 0xFFFF_FFFF, w, h) > w * h;
    }
  }

  /**
    Decoding undoes coding: whatever `Decode` accepts from the bits of an image's codes is that image,
    and the bits it has used up, which decide whether the frame is complete, are exactly the code's.
  */
  lemma DecodeUndoesCoding(codes: seq<Code>, img: seq<byte>, rest: seq<bool>, bits: seq<bool>, out: seq<byte>, w: nat)
    requires w >= 2 && ValidFrom(codes, 0, w) && Reproduces(codes, img, w)
    requires bits == EncodeAll(codes) + rest && |bits| >= 10 * |img|
    ensures FrameBits(bits, |img|, w) == |EncodeAll(codes)|
    ensures forall was | |out| == |img| && FrameDecoded(bits, out, w, was) :: out == img
  {
    hide Code.Encode, CodesFrom, EncodeAll, Image, Pixels, Reproduces;
    RoundTrip(codes, img, rest, w);
    forall was: seq<byte> | |out| == |img| && FrameDecoded(bits, out, w, was)
      ensures out == img
    {
      PixelsAreImage(codes, w, was);
    }
  }

  /** Over any run of frames the counter is the length of the current streak of incomplete ones modulo three. */
  function Streak(run: seq<bool>): nat {
    if run == [] || !run[|run| - 1] then 0 else Streak(run[..|run| - 1]) + 1
  }

  function DroppedAfter(run: seq<bool>): int {
    if run == [] then 0 else AfterFrame(DroppedAfter(run[..|run| - 1]), run[|run| - 1]).1
  }

  lemma {:induction false} DroppedOverRuns(run: seq<bool>)
    ensures DroppedAfter(run) == Streak(run) % 3
    ensures run != [] ==>
      (AfterFrame(DroppedAfter(run[..|run| - 1]), run[|run| - 1]).0 == -1 <==> Streak(run) % 3 != 0)
  {
    if run != [] {
      DroppedOverRuns(run[..|run| - 1]);
    }
  }
}
