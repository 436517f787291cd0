/** Decoding of one 4x4 block: header, AC coefficients, inverse transform. */
module JpglBlock {
  import opened Bits
  import opened JpglVlc
  import opened JpglReader
  import opened JpglSymbols

  const ZIGZAG: seq<nat> := [0, 1, 4, 8, 5, 2, 3, 6, 9, 12, 13, 10, 7, 11, 14, 15]

  const QW: seq<seq<int>> := [
    [32768, 17808, 794, 18618, 850, 18618, 43115, 1828, 40960, 1924, 2089, 45511, 2089, 49648, 2216, 2521],
    [32768, 35617, 1589, 37236, 1700, 37236, 86231, 3656, 81920, 3849, 4179, 91022, 4179, 99296, 4432, 5043],
    [32768, 71234, 3179, 74472, 3401, 74472, 172463, 7313, 163840, 7698, 8358, 182044, 8358, 198593, 8865, 10087],
    [32768, 142469, 6359, 148945, 6803, 148945, 344926, 14627, 327680, 15397, 16716, 364088, 16716, 397187, 17730,
     20175]
  ]

  // ----- The AC coefficients of a block -----

  /** A coefficient and its place in zigzag order. */
  datatype Placed = Placed(cc: nat, amp: int)

  datatype AcRun = Complete(coefs: seq<Placed>, rest: seq<bool>) | TooLong

  ghost predicate Padded(b: seq<bool>, cc: nat) {
    cc <= 15 && |b| >= 16 * (16 - cc) + 32
  }

  lemma SymbolBits(s: Symbol)
    requires s.Valid()
    ensures 2 <= |s.Encode()| <= 16 && (!s.Eob? ==> s.Run() >= 0)
  {
    Kinds(s.Head());
  }

  /** Coefficients in front of those of a later run. */
  function Prepend(coefs: seq<Placed>, r: AcRun): AcRun {
    match r
    case TooLong => TooLong
    case Complete(more, end) => Complete(coefs + more, end)
  }

  /** The coefficients a stream holds up to its end-of-block symbol, the last one placed being `cc`. */
  ghost function Coefficients(b: seq<bool>, cc: nat): AcRun
    requires Padded(b, cc)
    decreases 16 - cc
  {
    hide Symbol.Encode, Symbol.Run, Symbol.Amp;
    var s := FirstSymbol(b);
    SymbolBits(s);
    var rest := b[|s.Encode()|..];
    if s.Eob? then Complete([], rest)
    else
      var cc' := cc + s.Run() + 1;
      if cc' > 15 then TooLong
      else Prepend([Placed(cc', s.Amp())], Coefficients(rest, cc'))
  }

  /** The amplitude at one zigzag place, zero where no coefficient was coded. */
  function AmpAt(coefs: seq<Placed>, c: nat): int {
    if coefs == [] then 0
    else if coefs[|coefs| - 1].cc == c then coefs[|coefs| - 1].amp
    else AmpAt(coefs[..|coefs| - 1], c)
  }

  /** Zigzag places strictly increase and stay below 16: every coefficient is written at most once. */
  lemma {:induction false} CoefficientsIncrease(b: seq<bool>, cc: nat)
    requires Padded(b, cc) && Coefficients(b, cc).Complete?
    ensures var coefs := Coefficients(b, cc).coefs;
      && (forall k | 0 <= k < |coefs| :: cc < coefs[k].cc <= 15)
      && (forall k, l | 0 <= k < l < |coefs| :: coefs[k].cc < coefs[l].cc)
    decreases 16 - cc
  {
    hide Symbol.Encode, Symbol.Run, Symbol.Amp;
    var s := FirstSymbol(b);
    SymbolBits(s);
    if !s.Eob? {
      CoefficientsIncrease(b[|s.Encode()|..], cc + s.Run() + 1);
    }
  }

  // ----- Round trip of the symbol code -----

  function EncodeAll(syms: seq<Symbol>): seq<bool>
    requires forall s | s in syms :: s.Valid()
  {
    if syms == [] then [] else syms[0].Encode() + EncodeAll(syms[1..])
  }

  /** Symbols up to the first end of block, and the stream after it. */
  ghost function Symbols(b: seq<bool>): (r: (seq<Symbol>, seq<bool>))
    decreases |b|
  {
    hide Symbol.Encode, Symbol.Run, Symbol.Amp;
    if |b| < 16 then ([], b) else
    var s := FirstSymbol(b);
    SymbolBits(s);
    var rest := b[|s.Encode()|..];
    if s.Eob? then ([], rest) else var r := Symbols(rest); ([s] + r.0, r.1)
  }

  lemma FirstOfEncoded(s: Symbol, rest: seq<bool>)
    requires s.Valid() && |s.Encode() + rest| >= 16
    ensures FirstSymbol(s.Encode() + rest) == s && (s.Encode() + rest)[|s.Encode()|..] == rest
  {
    hide Symbol.Encode;
    UniquelyDecodable(s.Encode() + rest, s, FirstSymbol(s.Encode() + rest));
  }

  lemma NextSymbol(s: Symbol, after: seq<bool>)
    requires s.Valid() && !s.Eob? && |s.Encode() + after| >= 16
    ensures Symbols(s.Encode() + after) == ([s] + Symbols(after).0, Symbols(after).1)
  {
    hide Symbol.Encode;
    FirstOfEncoded(s, after);
  }

  lemma EndOfSymbols(rest: seq<bool>)
    requires |Eob.Encode() + rest| >= 16
    ensures Symbols(Eob.Encode() + rest) == ([], rest)
  {
    hide Symbol.Encode;
    FirstOfEncoded(Eob, rest);
  }

  /** Any symbol sequence closed by an end of block is read back exactly, up to right behind it. */
  lemma SymbolsRoundTrip(syms: seq<Symbol>, rest: seq<bool>)
    requires forall s | s in syms :: s.Valid() && !s.Eob?
    requires |Eob.Encode() + rest| >= 16
    ensures Symbols(EncodeAll(syms) + (Eob.Encode() + rest)) == (syms, rest)
  {
    hide Symbol.Encode, EncodeAll, Symbols;
    SymbolsFollow(syms, Eob.Encode() + rest);
    EndOfSymbols(rest);
    Append(syms, [], []);
  }

  lemma {:induction false} SymbolsFollow(syms: seq<Symbol>, end: seq<bool>)
    requires forall s | s in syms :: s.Valid() && !s.Eob?
    requires |end| >= 16
    ensures Symbols(EncodeAll(syms) + end).0 == syms + Symbols(end).0
    ensures Symbols(EncodeAll(syms) + end).1 == Symbols(end).1
  {
    hide Symbol.Encode;
    if syms == [] {
      Append(end, [], []);
      Append(Symbols(end).0, [], []);
    } else {
      var after := EncodeAll(syms[1..]) + end;
      SymbolsFollow(syms[1..], end);
      Append(syms[0].Encode(), EncodeAll(syms[1..]), end);
      NextSymbol(syms[0], after);
      ConsAppend(syms, Symbols(end).0);
    }
  }

  /** The block reader sees those symbols: it places them, or fails as soon as one falls off the block. */
  lemma {:induction false} CoefficientsOfSymbols(b: seq<bool>, cc: nat)
    requires Padded(b, cc)
    ensures Coefficients(b, cc) == PlaceAll(Symbols(b).0, cc, Symbols(b).1)
    decreases 16 - cc
  {
    hide Symbol.Encode, Symbol.Run, Symbol.Amp;
    var s := FirstSymbol(b);
    SymbolBits(s);
    var rest := b[|s.Encode()|..];
    if !s.Eob? {
      PlaceStep(s, Symbols(rest).0, cc, Symbols(rest).1);
      if cc + s.Run() + 1 <= 15 {
        CoefficientsOfSymbols(rest, cc + s.Run() + 1);
      }
    }
  }

  lemma PlaceStep(s: Symbol, syms: seq<Symbol>, cc: nat, rest: seq<bool>)
    requires s.Run() >= 0
    ensures var cc' := cc + s.Run() + 1;
      PlaceAll([s] + syms, cc, rest) ==
        if cc' > 15 then TooLong
        else Prepend([Placed(cc', s.Amp())], PlaceAll(syms, cc', rest))
  {
    assert ([s] + syms)[0] == s && ([s] + syms)[1..] == syms;
  }

  function PlaceAll(syms: seq<Symbol>, cc: int, rest: seq<bool>): AcRun
    decreases |syms|
  {
    if syms == [] then Complete([], rest)
    else
      var cc' := cc + syms[0].Run() + 1;
      if cc' > 15 || cc' < 0 then TooLong
      else Prepend([Placed(cc', syms[0].Amp())], PlaceAll(syms[1..], cc', rest))
  }

  function RunSum(syms: seq<Symbol>): int {
    if syms == [] then 0 else syms[0].Run() + RunSum(syms[1..])
  }

  /**
    Each coefficient comes behind all that are coded before it and all that their runs and its own leave out; the
    block is too long exactly if the last one would come behind place 15.
  */
  lemma {:induction false} PlacesAreRunSums(syms: seq<Symbol>, cc: nat, rest: seq<bool>)
    requires cc <= 15 && forall s | s in syms :: s.Valid() && !s.Eob?
    ensures PlaceAll(syms, cc, rest).TooLong? <==> cc + |syms| + RunSum(syms) > 15
    ensures match PlaceAll(syms, cc, rest)
      case TooLong => true
      case Complete(coefs, end) =>
        && end == rest && |coefs| == |syms|
        && forall k | 0 <= k < |syms| ::
          coefs[k].cc == cc + (k + 1) + RunSum(syms[..k + 1]) && coefs[k].amp == syms[k].Amp()
    decreases |syms|
  {
    hide Symbol.Run, Symbol.Amp, Symbol.Encode;
    if syms != [] {
      var s, more := syms[0], syms[1..];
      SymbolBits(s);
      RunsNonNegative(more);
      var next := cc + s.Run() + 1;
      if next <= 15 {
        PlacesAreRunSums(more, next, rest);
        var r := PlaceAll(more, next, rest);
        if r.Complete? {
          var coefs := [Placed(next, s.Amp())] + r.coefs;
          forall k | 0 <= k < |syms|
            ensures coefs[k].cc == cc + (k + 1) + RunSum(syms[..k + 1]) && coefs[k].amp == syms[k].Amp()
          {
            assert syms[..k + 1][0] == s && syms[..k + 1][1..] == more[..k];
            if k > 0 {
              assert r.coefs[k - 1].cc == next + k + RunSum(more[..k]) && r.coefs[k - 1].amp == more[k - 1].Amp();
            }
          }
        }
      }
    }
  }

  lemma {:induction false} RunsNonNegative(syms: seq<Symbol>)
    requires forall s | s in syms :: s.Valid() && !s.Eob?
    ensures RunSum(syms) >= 0
    decreases |syms|
  {
    hide Symbol.Run;
    if syms != [] {
      SymbolBits(syms[0]);
      RunsNonNegative(syms[1..]);
    }
  }

  /** Any symbols that fit are placed at the running sums of their runs; too long a block is refused. */
  lemma BlockRoundTrip(syms: seq<Symbol>, rest: seq<bool>)
    requires forall s | s in syms :: s.Valid() && !s.Eob?
    requires |rest| >= 16 * 16 + 32
    ensures Coefficients(EncodeAll(syms) + (Eob.Encode() + rest), 0) == PlaceAll(syms, 0, rest)
  {
    hide Symbol.Encode, Symbol.Run, Symbol.Amp, PlaceAll, Coefficients, EncodeAll, Symbols;
    SymbolsRoundTrip(syms, rest);
    CoefficientsOfSymbols(EncodeAll(syms) + (Eob.Encode() + rest), 0);
  }

  // ----- The inverse transform -----

  /** Row `i` of the column matrix, applied to a column. */
  function Column(i: nat, a: int, b: int, c: int, d: int): int {
    if i == 0 then a + 32 * b + c + 16 * d
    else if i == 1 then a + 15 * b - c - 32 * d
    else if i == 2 then a - 15 * b - c + 32 * d
    else a - 32 * b + c - 16 * d
  }

  /** Row `j` of the line matrix, applied to a line; the fixed point is dropped by a flooring shift. */
  function Line(j: nat, a: int, b: int, c: int, d: int): int {
    (if j == 0 then 128 * a + 183 * b + 128 * c + 86 * d
     else if j == 1 then 128 * a + 86 * b - 128 * c - 183 * d
     else if j == 2 then 128 * a - 86 * b - 128 * c + 183 * d
     else 128 * a - 183 * b + 128 * c - 86 * d) / 0x40_0000
  }

  function ColumnAt(c: seq<int>, i: nat, j: nat): int
    requires |c| == 16 && j < 4
  {
    Column(i, c[j], c[4 + j], c[8 + j], c[12 + j])
  }

  function LineAt(c: seq<int>, i: nat, j: nat): int
    requires |c| == 16 && i < 4
  {
    Line(j, c[4 * i], c[4 * i + 1], c[4 * i + 2], c[4 * i + 3])
  }

  function ColumnPass(c: seq<int>): (r: seq<int>)
    requires |c| == 16
    ensures |r| == 16
  {
    [ColumnAt(c, 0, 0), ColumnAt(c, 0, 1), ColumnAt(c, 0, 2), ColumnAt(c, 0, 3),
     ColumnAt(c, 1, 0), ColumnAt(c, 1, 1), ColumnAt(c, 1, 2), ColumnAt(c, 1, 3),
     ColumnAt(c, 2, 0), ColumnAt(c, 2, 1), ColumnAt(c, 2, 2), ColumnAt(c, 2, 3),
     ColumnAt(c, 3, 0), ColumnAt(c, 3, 1), ColumnAt(c, 3, 2), ColumnAt(c, 3, 3)]
  }

  function LinePass(c: seq<int>): (r: seq<int>)
    requires |c| == 16
    ensures |r| == 16
  {
    [LineAt(c, 0, 0), LineAt(c, 0, 1), LineAt(c, 0, 2), LineAt(c, 0, 3),
     LineAt(c, 1, 0), LineAt(c, 1, 1), LineAt(c, 1, 2), LineAt(c, 1, 3),
     LineAt(c, 2, 0), LineAt(c, 2, 1), LineAt(c, 2, 2), LineAt(c, 2, 3),
     LineAt(c, 3, 0), LineAt(c, 3, 1), LineAt(c, 3, 2), LineAt(c, 3, 3)]
  }

  // ----- What the transform does to a single coefficient -----

  function ColumnOf(c: seq<int>, j: nat): (v: seq<int>)
    requires |c| == 16 && j < 4
    ensures |v| == 4
  {
    [c[j], c[4 + j], c[8 + j], c[12 + j]]
  }

  function LineOf(c: seq<int>, i: nat): (v: seq<int>)
    requires |c| == 16 && i < 4
    ensures |v| == 4
  {
    [c[4 * i], c[4 * i + 1], c[4 * i + 2], c[4 * i + 3]]
  }

  /** Coefficient `k` is positive, the others are zero. */
  predicate Alone(v: seq<int>, k: nat) {
    |v| == 4 && forall i | 0 <= i < 4 :: if i == k then v[i] > 0 else v[i] == 0
  }

  function SignChanges(v: seq<int>): nat
    requires |v| == 4
  {
    (if (v[0] < 0) == (v[1] < 0) then 0 else 1) + (if (v[1] < 0) == (v[2] < 0) then 0 else 1) +
    (if (v[2] < 0) == (v[3] < 0) then 0 else 1)
  }

  function Dot(v: seq<int>, u: seq<int>): int
    requires |v| == |u| == 4
  {
    v[0] * u[0] + v[1] * u[1] + v[2] * u[2] + v[3] * u[3]
  }

  function Plus(c: seq<int>, d: seq<int>): (e: seq<int>)
    requires |c| == |d|
    ensures |e| == |c|
  {
    seq(|c|, i requires 0 <= i < |c| => c[i] + d[i])
  }

  /** A half wave more for each step in frequency, mirrored or turned over at the middle. */
  ghost predicate ColumnWave(v: seq<int>, k: nat)
    requires |v| == 4
  {
    && v[0] > 0 && v[1] != 0 && v[2] != 0 && v[3] != 0 && SignChanges(v) == k
    && (k % 2 == 0 ==> v[3] == v[0] && v[2] == v[1])
    && (k % 2 == 1 ==> v[3] == -v[0] && v[2] == -v[1])
    && (k == 1 ==> v[0] > v[1] > v[2] > v[3])
  }

  /** The same up to the rounding towards minus infinity. */
  ghost predicate LineWave(v: seq<int>, k: nat)
    requires |v| == 4
  {
    && v[0] >= 0 && SignChanges(v) == k
    && (k % 2 == 0 ==> v[3] == v[0] && v[2] == v[1])
    && (k % 2 == 1 ==> -v[0] - 1 <= v[3] <= -v[0] && -1 <= v[1] + v[2] <= 0)
    && (k == 1 ==> v[0] >= v[1] >= v[2] >= v[3])
  }

  ghost predicate ColumnWaves(was: seq<int>, now: seq<int>)
    requires |was| == |now| == 16
  {
    forall j, k | 0 <= j < 4 && 0 <= k < 4 && Alone(ColumnOf(was, j), k) :: ColumnWave(ColumnOf(now, j), k)
  }

  ghost predicate LineWaves(was: seq<int>, now: seq<int>)
    requires |was| == |now| == 16
  {
    forall i, k | 0 <= i < 4 && 0 <= k < 4 && Alone(LineOf(was, i), k) :: LineWave(LineOf(now, i), k)
  }

  function Columns(v: seq<int>): (u: seq<int>)
    requires |v| == 4
    ensures |u| == 4
  {
    [Column(0, v[0], v[1], v[2], v[3]), Column(1, v[0], v[1], v[2], v[3]),
     Column(2, v[0], v[1], v[2], v[3]), Column(3, v[0], v[1], v[2], v[3])]
  }

  function Lines(v: seq<int>): (u: seq<int>)
    requires |v| == 4
    ensures |u| == 4
  {
    [Line(0, v[0], v[1], v[2], v[3]), Line(1, v[0], v[1], v[2], v[3]),
     Line(2, v[0], v[1], v[2], v[3]), Line(3, v[0], v[1], v[2], v[3])]
  }

  lemma PassParts(c: seq<int>, k: nat)
    requires |c| == 16 && k < 4
    ensures ColumnOf(ColumnPass(c), k) == Columns(ColumnOf(c, k))
    ensures LineOf(LinePass(c), k) == Lines(LineOf(c, k))
  {
    hide Column, Line;
  }

  lemma ColumnResponse(v: seq<int>, k: nat)
    requires k < 4 && Alone(v, k)
    ensures ColumnWave(Columns(v), k)
  {
    match k
    case 0 => assert v == [v[0], 0, 0, 0];
    case 1 => assert v == [0, v[1], 0, 0];
    case 2 => assert v == [0, 0, v[2], 0];
    case _ => assert v == [0, 0, 0, v[3]];
  }

  lemma LineResponse(v: seq<int>, k: nat)
    requires k < 4 && Alone(v, k)
    ensures LineWave(Lines(v), k)
  {
    match k
    case 0 => assert v == [v[0], 0, 0, 0];
    case 1 => assert v == [0, v[1], 0, 0];
    case 2 => assert v == [0, 0, v[2], 0];
    case _ => assert v == [0, 0, 0, v[3]];
  }

  lemma ColumnPassWaves(c: seq<int>)
    requires |c| == 16
    ensures ColumnWaves(c, ColumnPass(c))
  {
    hide ColumnPass, ColumnOf, Columns, ColumnWave, Alone;
    forall j, k | 0 <= j < 4 && 0 <= k < 4 && Alone(ColumnOf(c, j), k)
      ensures ColumnWave(ColumnOf(ColumnPass(c), j), k)
    {
      PassParts(c, j);
      ColumnResponse(ColumnOf(c, j), k);
    }
  }

  lemma LinePassWaves(c: seq<int>)
    requires |c| == 16
    ensures LineWaves(c, LinePass(c))
  {
    hide LinePass, LineOf, Lines, LineWave, Alone;
    forall i, k | 0 <= i < 4 && 0 <= k < 4 && Alone(LineOf(c, i), k)
      ensures LineWave(LineOf(LinePass(c), i), k)
    {
      PassParts(c, i);
      LineResponse(LineOf(c, i), k);
    }
  }

  /** The values themselves: multiples of the coefficient. */
  lemma ColumnValues(c: seq<int>, j: nat, n: int)
    requires |c| == 16 && j < 4
    ensures ColumnOf(c, j) == [n, 0, 0, 0] ==> ColumnOf(ColumnPass(c), j) == [n, n, n, n]
    ensures ColumnOf(c, j) == [0, n, 0, 0] ==> ColumnOf(ColumnPass(c), j) == [32 * n, 15 * n, -15 * n, -32 * n]
    ensures ColumnOf(c, j) == [0, 0, n, 0] ==> ColumnOf(ColumnPass(c), j) == [n, -n, -n, n]
    ensures ColumnOf(c, j) == [0, 0, 0, n] ==> ColumnOf(ColumnPass(c), j) == [16 * n, -32 * n, 32 * n, -16 * n]
  {
    hide ColumnPass, ColumnOf;
    PassParts(c, j);
  }

  /** With 22 bits of fixed point, nothing of which is lost for whole numbers. */
  lemma LineValues(c: seq<int>, i: nat, n: int)
    requires |c| == 16 && i < 4
    ensures var m := 0x40_0000 * n;
      && (LineOf(c, i) == [m, 0, 0, 0] ==> LineOf(LinePass(c), i) == [128 * n, 128 * n, 128 * n, 128 * n])
      && (LineOf(c, i) == [0, m, 0, 0] ==> LineOf(LinePass(c), i) == [183 * n, 86 * n, -86 * n, -183 * n])
      && (LineOf(c, i) == [0, 0, m, 0] ==> LineOf(LinePass(c), i) == [128 * n, -128 * n, -128 * n, 128 * n])
      && (LineOf(c, i) == [0, 0, 0, m] ==> LineOf(LinePass(c), i) == [86 * n, -183 * n, 183 * n, -86 * n])
  {
    hide LinePass, LineOf, Lines;
    PassParts(c, i);
    WholeNumbers(n, 0);
    WholeNumbers(n, 1);
    WholeNumbers(n, 2);
    WholeNumbers(n, 3);
  }

  lemma WholeNumbers(n: int, k: nat)
    requires k < 4
    ensures var m := 0x40_0000 * n;
      match k
      case 0 => Lines([m, 0, 0, 0]) == [128 * n, 128 * n, 128 * n, 128 * n]
      case 1 => Lines([0, m, 0, 0]) == [183 * n, 86 * n, -86 * n, -183 * n]
      case 2 => Lines([0, 0, m, 0]) == [128 * n, -128 * n, -128 * n, 128 * n]
      case _ => Lines([0, 0, 0, m]) == [86 * n, -183 * n, 183 * n, -86 * n]
  {
  }

  /** Patterns of different line coefficients are orthogonal. */
  lemma LinesOrthogonal(c: seq<int>, d: seq<int>, i: nat, j: nat, k: nat, l: nat, n: int, m: int)
    requires |c| == |d| == 16 && i < 4 && j < 4 && k < 4 && l < 4 && k != l
    requires Alone(LineOf(c, i), k) && LineOf(c, i)[k] == 0x40_0000 * n
    requires Alone(LineOf(d, j), l) && LineOf(d, j)[l] == 0x40_0000 * m
    ensures Dot(LineOf(LinePass(c), i), LineOf(LinePass(d), j)) == 0
  {
    hide LinePass, LineOf, Dot;
    AloneIs(LineOf(c, i), k);
    AloneIs(LineOf(d, j), l);
    LineValues(c, i, n);
    LineValues(d, j, m);
    if k < l {
      Products(k, l, n, m);
    } else {
      Products(l, k, m, n);
      Swapped(LineOf(LinePass(c), i), LineOf(LinePass(d), j));
    }
  }

  function Pattern(k: nat, n: int): (v: seq<int>)
    ensures |v| == 4
  {
    match k
    case 0 => [128 * n, 128 * n, 128 * n, 128 * n]
    case 1 => [183 * n, 86 * n, -86 * n, -183 * n]
    case 2 => [128 * n, -128 * n, -128 * n, 128 * n]
    case _ => [86 * n, -183 * n, 183 * n, -86 * n]
  }

  lemma Products(k: nat, l: nat, n: int, m: int)
    requires k < l < 4
    ensures Dot(Pattern(k, n), Pattern(l, m)) == 0
  {
  }

  lemma Swapped(v: seq<int>, u: seq<int>)
    requires |v| == |u| == 4
    ensures Dot(v, u) == Dot(u, v)
  {
  }

  lemma AloneIs(v: seq<int>, k: nat)
    requires k < 4 && Alone(v, k)
    ensures v == match k case 0 => [v[0], 0, 0, 0] case 1 => [0, v[1], 0, 0] case 2 => [0, 0, v[2], 0]
                 case _ => [0, 0, 0, v[3]]
  {
  }

  lemma PassAt(c: seq<int>, k: nat)
    requires |c| == 16 && k < 16
    ensures ColumnPass(c)[k] == ColumnAt(c, k / 4, k % 4) && LinePass(c)[k] == LineAt(c, k / 4, k % 4)
  {
    hide ColumnAt, LineAt;
  }

  lemma ColumnAdds(c: seq<int>, d: seq<int>, i: nat, j: nat)
    requires |c| == |d| == 16 && i < 4 && j < 4
    ensures ColumnAt(Plus(c, d), i, j) == ColumnAt(c, i, j) + ColumnAt(d, i, j)
  {
  }

  lemma LineAdds(c: seq<int>, d: seq<int>, i: nat, j: nat)
    requires |c| == |d| == 16 && i < 4 && j < 4
    ensures 0 <= LineAt(Plus(c, d), i, j) - (LineAt(c, i, j) + LineAt(d, i, j)) <= 1
  {
    hide Line;
    LineSum(j, c[4 * i], c[4 * i + 1], c[4 * i + 2], c[4 * i + 3], d[4 * i], d[4 * i + 1], d[4 * i + 2], d[4 * i + 3]);
  }

  lemma LineSum(j: nat, a: int, b: int, c: int, d: int, a': int, b': int, c': int, d': int)
    ensures 0 <= Line(j, a + a', b + b', c + c', d + d') - (Line(j, a, b, c, d) + Line(j, a', b', c', d')) <= 1
  {
  }

  /** The column pass of a sum is the sum of the column passes. */
  lemma ColumnsAdd(c: seq<int>, d: seq<int>)
    requires |c| == |d| == 16
    ensures ColumnPass(Plus(c, d)) == Plus(ColumnPass(c), ColumnPass(d))
  {
    hide ColumnPass, ColumnAt;
    forall k | 0 <= k < 16
      ensures ColumnPass(Plus(c, d))[k] == ColumnPass(c)[k] + ColumnPass(d)[k]
    {
      PassAt(c, k);
      PassAt(d, k);
      PassAt(Plus(c, d), k);
      ColumnAdds(c, d, k / 4, k % 4);
    }
  }

  /** So is the line pass, but for what rounding loses: one at most. */
  lemma LinesAdd(c: seq<int>, d: seq<int>, k: nat)
    requires |c| == |d| == 16 && k < 16
    ensures 0 <= LinePass(Plus(c, d))[k] - (LinePass(c)[k] + LinePass(d)[k]) <= 1
  {
    hide LinePass, LineAt;
    PassAt(c, k);
    PassAt(d, k);
    PassAt(Plus(c, d), k);
    LineAdds(c, d, k / 4, k % 4);
  }

  method IdctColumn(block: array<int>, k: nat)
    requires block.Length == 16 && k < 4
    modifies block
    ensures forall n | 0 <= n < 16 && n != k && n != 4 + k && n != 8 + k && n != 12 + k :: block[n] == old(block[n])
    ensures block[k] == ColumnAt(old(block[..]), 0, k) && block[4 + k] == ColumnAt(old(block[..]), 1, k)
    ensures block[8 + k] == ColumnAt(old(block[..]), 2, k) && block[12 + k] == ColumnAt(old(block[..]), 3, k)
  {
    var b0, b1, b2, b3 := block[k], block[4 + k], block[8 + k], block[12 + k];
    var t0 := (b1 + b3) * 32;
    var t2 := t0 - b3 * 16;
    var t3 := b1 * 47 - t0;
    t0 := b0 + b2;
    var t1 := b0 - b2;
    block[k] := t0 + t2;
    block[4 + k] := t1 + t3;
    block[12 + k] := t0 - t2;
    block[8 + k] := t1 - t3;
  }

  lemma Butterfly(a: int, b: int, c: int, d: int)
    ensures var (t0, t1, t2, t3) := (a * 128 + c * 128, a * 128 - c * 128, b * 183 + d * 86, b * 86 - d * 183);
      && Line(0, a, b, c, d) == (t0 + t2) / 0x40_0000 && Line(1, a, b, c, d) == (t1 + t3) / 0x40_0000
      && Line(2, a, b, c, d) == (t1 - t3) / 0x40_0000 && Line(3, a, b, c, d) == (t0 - t2) / 0x40_0000
  {
  }

  method IdctLine(block: array<int>, k: nat)
    requires block.Length == 16 && k < 4
    modifies block
    ensures forall n | 0 <= n < 16 && !(4 * k <= n < 4 * k + 4) :: block[n] == old(block[n])
    ensures block[4 * k] == LineAt(old(block[..]), k, 0) && block[4 * k + 1] == LineAt(old(block[..]), k, 1)
    ensures block[4 * k + 2] == LineAt(old(block[..]), k, 2) && block[4 * k + 3] == LineAt(old(block[..]), k, 3)
  {
    hide Line;
    var b0, b1, b2, b3 := block[4 * k], block[4 * k + 1], block[4 * k + 2], block[4 * k + 3];
    Butterfly(b0, b1, b2, b3);
    var bm0, bm2 := b0 * 128, b2 * 128;
    var t0, t1 := bm0 + bm2, bm0 - bm2;
    var t2, t3 := b1 * 183 + b3 * 86, b1 * 86 - b3 * 183;
    block[4 * k] := (t0 + t2) / 0x40_0000;
    block[4 * k + 1] := (t1 + t3) / 0x40_0000;
    block[4 * k + 3] := (t0 - t2) / 0x40_0000;
    block[4 * k + 2] := (t1 - t3) / 0x40_0000;
  }

  method IdctColumns(block: array<int>)
    requires block.Length == 16
    modifies block
    ensures block[..] == ColumnPass(old(block[..]))
    ensures ColumnWaves(old(block[..]), block[..])
  {
    hide Column, ColumnWaves;
    ColumnPassWaves(block[..]);
    IdctColumn(block, 0);
    IdctColumn(block, 1);
    IdctColumn(block, 2);
    IdctColumn(block, 3);
  }

  method IdctLines(block: array<int>)
    requires block.Length == 16
    modifies block
    ensures block[..] == LinePass(old(block[..]))
    ensures LineWaves(old(block[..]), block[..])
  {
    hide Line, LineWaves;
    LinePassWaves(block[..]);
    IdctLine(block, 0);
    IdctLine(block, 1);
    IdctLine(block, 2);
    IdctLine(block, 3);
  }

  /** The coefficients before the transform, dequantised and put back in matrix order. */
  ghost predicate Dequantised(c: seq<int>, dc: int, q: nat, coefs: seq<Placed>)
    requires q < 4
  {
    |c| == 16 && c[0] == dc * 32768 && forall n | 1 <= n < 16 :: c[ZIGZAG[n]] == AmpAt(coefs, n) * QW[q][n]
  }

  lemma ZigzagIsPermutation(i: nat, j: nat)
    requires i < 16 && j < 16
    ensures ZIGZAG[i] < 16 && (ZIGZAG[i] == ZIGZAG[j] <==> i == j) && (ZIGZAG[i] == 0 <==> i == 0)
  {
  }

  /** The zigzag walks the diagonals of the block one after the other, each from where the one before ended. */
  lemma ZigzagOrder(i: nat)
    requires i < 15
    ensures ZIGZAG[0] == 0
    ensures var (r, k) := (ZIGZAG[i] / 4, ZIGZAG[i] % 4);
      ZIGZAG[i + 1] ==
        if (r + k) % 2 == 1
        then (if r == 3 then 4 * r + (k + 1) else if k == 0 then 4 * (r + 1) else 4 * (r + 1) + (k - 1))
        else (if k == 3 then 4 * (r + 1) + k else if r == 0 then k + 1 else 4 * (r - 1) + (k + 1))
  {
  }

  /** Each quantiser's factors are half of the next one's, rounded down, but for that of the DC. */
  lemma QuantiserHalves(q: nat, n: nat)
    requires q < 3 && 1 <= n < 16
    ensures QW[q][0] == QW[3][0] == 32768 && QW[q][n] == QW[q + 1][n] / 2 > 0
  {
  }

  /** A block without AC coefficients comes out flat, at its DC. */
  lemma FlatBlock(c: seq<int>, dc: int, q: nat)
    requires q < 4 && Dequantised(c, dc, q, [])
    ensures LinePass(ColumnPass(c)) == seq(16, _ => dc)
  {
    assert forall n | 1 <= n < 16 :: c[ZIGZAG[n]] == 0;
    AllButDcZero(c);
    hide Dequantised, ZIGZAG, QW, LinePass, ColumnPass;
    FlatColumn(dc);
    FlatLines(dc);
  }

  lemma FlatLines(dc: int)
    ensures LinePass([dc * 32768, 0, 0, 0, dc * 32768, 0, 0, 0, dc * 32768, 0, 0, 0, dc * 32768, 0, 0, 0]) ==
      seq(16, _ => dc)
  {
    hide Line;
    LineShifted(0, 0, 0, 0, 0, dc);
    LineShifted(1, 0, 0, 0, 0, dc);
    LineShifted(2, 0, 0, 0, 0, dc);
    LineShifted(3, 0, 0, 0, 0, dc);
    NoLine(0);
    NoLine(1);
    NoLine(2);
    NoLine(3);
  }

  lemma NoLine(j: nat)
    ensures Line(j, 0, 0, 0, 0) == 0
  {
  }

  lemma AllButDcZero(c: seq<int>)
    requires |c| == 16 && forall n | 1 <= n < 16 :: c[ZIGZAG[n]] == 0
    ensures c == [c[0], 0, 0, 0, 0, 0, 0, 0, 0, 0, 0, 0, 0, 0, 0, 0]
  {
    assert c[ZIGZAG[1]] == c[ZIGZAG[2]] == c[ZIGZAG[3]] == c[ZIGZAG[4]] == c[ZIGZAG[5]] == c[ZIGZAG[6]] == 0;
    assert c[ZIGZAG[7]] == c[ZIGZAG[8]] == c[ZIGZAG[9]] == c[ZIGZAG[10]] == c[ZIGZAG[11]] == c[ZIGZAG[12]] == 0;
    assert c[ZIGZAG[13]] == c[ZIGZAG[14]] == c[ZIGZAG[15]] == 0;
  }

  /** The coefficients of a block with this DC and no other. */
  function DcOnly(dc: int): seq<int> { [dc * 32768, 0, 0, 0, 0, 0, 0, 0, 0, 0, 0, 0, 0, 0, 0, 0] }

  /** The DC is added to every pixel. */
  lemma DcShifts(c: seq<int>, dc: int, k: nat)
    requires |c| == 16 && k < 16
    ensures LinePass(ColumnPass(Plus(c, DcOnly(dc))))[k] == LinePass(ColumnPass(c))[k] + dc
  {
    hide LinePass, ColumnPass, LineAt;
    ColumnsAdd(c, DcOnly(dc));
    var m := ColumnPass(c);
    FlatColumn(dc);
    PassAt(m, k);
    PassAt(Plus(m, ColumnPass(DcOnly(dc))), k);
    FlatLine(m, ColumnPass(DcOnly(dc)), dc, k / 4, k % 4);
  }

  lemma FlatColumn(dc: int)
    ensures ColumnPass(DcOnly(dc)) ==
      [dc * 32768, 0, 0, 0, dc * 32768, 0, 0, 0, dc * 32768, 0, 0, 0, dc * 32768, 0, 0, 0]
  {
  }

  lemma FlatLine(m: seq<int>, d: seq<int>, dc: int, i: nat, j: nat)
    requires |m| == 16 && i < 4 && j < 4
    requires d == [dc * 32768, 0, 0, 0, dc * 32768, 0, 0, 0, dc * 32768, 0, 0, 0, dc * 32768, 0, 0, 0]
    ensures LineAt(Plus(m, d), i, j) == LineAt(m, i, j) + dc
  {
    hide Line;
    LineShifted(j, m[4 * i], m[4 * i + 1], m[4 * i + 2], m[4 * i + 3], dc);
    assert d[4 * i] == dc * 32768 && d[4 * i + 1] == d[4 * i + 2] == d[4 * i + 3] == 0;
  }

  lemma LineShifted(j: nat, a: int, b: int, c: int, d: int, dc: int)
    ensures Line(j, a + dc * 32768, b, c, d) == Line(j, a, b, c, d) + dc
  {
  }

  /** Coefficient `k` is not zero, the others are. */
  predicate Single(v: seq<int>, k: nat) {
    |v| == 4 && forall i | 0 <= i < 4 :: v[i] != 0 <==> i == k
  }

  /** One line coefficient gives the same signs, or all the other ones, as any other in its place. */
  lemma LineSigns(v: seq<int>, u: seq<int>, k: nat)
    requires k < 4 && Single(v, k) && Single(u, k)
    ensures SignChanges(Lines(v)) == k && (Lines(v)[0] < 0 <==> v[k] < 0)
    ensures forall j | 0 <= j < 4 :: (Lines(v)[j] < 0) == (Lines(u)[j] < 0) <==> (v[k] < 0) == (u[k] < 0)
  {
    SingleIs(v, k);
    SingleIs(u, k);
  }

  lemma SingleIs(v: seq<int>, k: nat)
    requires k < 4 && Single(v, k)
    ensures v == match k case 0 => [v[0], 0, 0, 0] case 1 => [0, v[1], 0, 0] case 2 => [0, 0, v[2], 0]
                 case _ => [0, 0, 0, v[3]]
  {
  }

  /** As many sign changes along each line and column as the coefficient has half waves in that direction. */
  ghost predicate BlockWave(b: seq<int>, k: nat, r: nat)
    requires |b| == 16
  {
    && b[0] >= 0
    && (forall i | 0 <= i < 4 :: SignChanges(LineOf(b, i)) == k)
    && (forall j | 0 <= j < 4 :: SignChanges(ColumnOf(b, j)) == r)
  }

  /** Only the coefficient in line `r`, column `k` is coded, and it is positive. */
  predicate SingleIn(c: seq<int>, k: nat, r: nat) {
    |c| == 16 && forall n | 0 <= n < 16 :: if n == 4 * r + k then c[n] > 0 else c[n] == 0
  }

  lemma Crossing(c: seq<int>, i: nat, j: nat)
    requires |c| == 16 && i < 4 && j < 4
    ensures LineOf(c, i)[j] == ColumnOf(c, j)[i] == c[4 * i + j]
  {
  }

  lemma SingleCoefficient(c: seq<int>, k: nat, r: nat)
    requires k < 4 && r < 4 && SingleIn(c, k, r)
    ensures BlockWave(LinePass(ColumnPass(c)), k, r)
  {
    hide LinePass, ColumnPass, Lines, Single, LineOf, ColumnOf, SignChanges;
    var m := ColumnPass(c);
    var b := LinePass(m);
    SingleColumn(c, k, r);
    WaveNotZero(ColumnOf(m, k), r);
    forall i, i' | 0 <= i < 4 && 0 <= i' < 4
      ensures SignChanges(LineOf(b, i)) == k && (LineOf(b, i)[0] < 0 <==> LineOf(m, i)[k] < 0)
      ensures forall j | 0 <= j < 4 ::
        (LineOf(b, i)[j] < 0) == (LineOf(b, i')[j] < 0) <==> (LineOf(m, i)[k] < 0) == (LineOf(m, i')[k] < 0)
    {
      PassParts(m, i);
      PassParts(m, i');
      LineSigns(LineOf(m, i), LineOf(m, i'), k);
    }
    forall j | 0 <= j < 4
      ensures SignChanges(ColumnOf(b, j)) == r
    {
      forall i | 0 <= i < 4
        ensures LineOf(b, i)[j] == ColumnOf(b, j)[i] && LineOf(m, i)[k] == ColumnOf(m, k)[i]
      {
        Crossing(b, i, j);
        Crossing(m, i, k);
      }
      SameChanges(ColumnOf(b, j), ColumnOf(m, k));
    }
    Crossing(b, 0, 0);
    Crossing(m, 0, k);
  }

  lemma SameChanges(v: seq<int>, u: seq<int>)
    requires |v| == |u| == 4
    requires forall i, j | 0 <= i < 4 && 0 <= j < 4 :: (v[i] < 0) == (v[j] < 0) <==> (u[i] < 0) == (u[j] < 0)
    ensures SignChanges(v) == SignChanges(u)
  {
  }

  /** After the column pass each line has that one coefficient, with the signs of the column's wave. */
  lemma SingleColumn(c: seq<int>, k: nat, r: nat)
    requires k < 4 && r < 4 && SingleIn(c, k, r)
    ensures ColumnWave(ColumnOf(ColumnPass(c), k), r)
    ensures forall i | 0 <= i < 4 :: Single(LineOf(ColumnPass(c), i), k)
  {
    hide ColumnPass, ColumnWave;
    var m := ColumnPass(c);
    assert Alone(ColumnOf(c, k), r);
    ColumnPassWaves(c);
    WaveNotZero(ColumnOf(m, k), r);
    forall j | 0 <= j < 4 && j != k
      ensures ColumnOf(m, j) == [0, 0, 0, 0]
    {
      assert c[j] == c[4 + j] == c[8 + j] == c[12 + j] == 0;
      ColumnValues(c, j, 0);
    }
    hide ColumnOf, LineOf;
    forall i | 0 <= i < 4
      ensures Single(LineOf(m, i), k)
    {
      forall j | 0 <= j < 4
        ensures LineOf(m, i)[j] != 0 <==> j == k
      {
        Crossing(m, i, j);
      }
    }
  }

  lemma WaveNotZero(v: seq<int>, k: nat)
    requires |v| == 4 && ColumnWave(v, k)
    ensures forall i | 0 <= i < 4 :: v[i] != 0
    ensures SignChanges(v) == k && v[0] > 0
  {
  }

  function NoDc(c: seq<int>): (r: seq<int>)
    requires |c| == 16
    ensures |r| == 16
  {
    c[0 := 0]
  }

  /** The block of one coded coefficient, without the DC. */
  lemma CodedAlone(c: seq<int>, dc: int, q: nat, n: nat, amp: int)
    requires q < 4 && 1 <= n < 16 && Dequantised(c, dc, q, [Placed(n, amp)])
    ensures |c| == 16
    ensures var c0 := NoDc(c); c == Plus(c0, DcOnly(dc)) && c0[ZIGZAG[n]] == amp * QW[q][n]
    ensures forall z | 0 <= z < 16 && z != ZIGZAG[n] :: NoDc(c)[z] == 0
    ensures amp > 0 ==> SingleIn(NoDc(c), ZIGZAG[n] % 4, ZIGZAG[n] / 4)
  {
    var c0 := NoDc(c);
    forall z | 0 <= z < 16
      ensures c0[z] == if z == ZIGZAG[n] then amp * QW[q][n] else 0
    {
      ZigzagIsPermutation(n, 0);
      if z != 0 {
        var m := PlaceOf(z);
        ZigzagIsPermutation(m, n);
        OneAmp(n, amp, m);
        assert c[ZIGZAG[m]] == AmpAt([Placed(n, amp)], m) * QW[q][m];
      }
    }
    if amp > 0 {
      FactorsPositive(q, n);
      MulPositive(amp, QW[q][n]);
    }
    hide ZIGZAG, QW;
    forall z | 0 <= z < 16
      ensures c[z] == Plus(c0, DcOnly(dc))[z]
    {
    }
  }

  lemma OneAmp(n: nat, amp: int, m: nat)
    ensures AmpAt([Placed(n, amp)], m) == if m == n then amp else 0
  {
    assert [Placed(n, amp)][..0] == [];
  }

  lemma FactorsPositive(q: nat, n: nat)
    requires q < 4 && n < 16
    ensures QW[q][n] > 0
  {
  }

  lemma MulPositive(x: int, y: int)
    requires x > 0 && y > 0
    ensures x * y > 0
  {
  }

  /** The zigzag reaches every place. */
  lemma PlaceOf(z: nat) returns (n: nat)
    requires z < 16
    ensures n < 16 && ZIGZAG[n] == z
  {
    n := [0, 1, 5, 6, 2, 4, 7, 12, 3, 8, 11, 13, 9, 10, 14, 15][z];
  }

  /** A block in which one coefficient is coded. */
  lemma CodedWave(c: seq<int>, dc: int, q: nat, n: nat, amp: int)
    requires q < 4 && 1 <= n < 16 && amp > 0 && Dequantised(c, dc, q, [Placed(n, amp)])
    ensures BlockWave(Less(LinePass(ColumnPass(c)), dc), ZIGZAG[n] % 4, ZIGZAG[n] / 4)
  {
    hide LinePass, ColumnPass, BlockWave, Dequantised, QW, DcOnly, SingleIn, NoDc;
    CodedAlone(c, dc, q, n, amp);
    var c0 := NoDc(c);
    ZigzagIsPermutation(n, n);
    SingleCoefficient(c0, ZIGZAG[n] % 4, ZIGZAG[n] / 4);
    forall k | 0 <= k < 16
      ensures Less(LinePass(ColumnPass(c)), dc)[k] == LinePass(ColumnPass(c0))[k]
    {
      DcShifts(c0, dc, k);
    }
    assert Less(LinePass(ColumnPass(c)), dc) == LinePass(ColumnPass(c0));
  }

  /** The block without its DC. */
  function Less(b: seq<int>, dc: int): (r: seq<int>)
    ensures |r| == |b|
  {
    seq(|b|, k requires 0 <= k < |b| => b[k] - dc)
  }

  /** With the coarsest quantiser, what the largest amplitude of each coefficient adds to the first pixel. */
  lemma LargestAmplitude(c: seq<int>, dc: int, n: nat)
    requires 1 <= n < 16 && Dequantised(c, dc, 3, [Placed(n, 31)])
    ensures LinePass(ColumnPass(c))[0] ==
      dc + [0, 192, 192, 140, 294, 140, 219, 442, 443, 233, 361, 344, 340, 252, 268, 205][n]
  {
    hide LinePass, ColumnPass, Corner, Largest, ZIGZAG, QW;
    var c0 := LargestIs(c, dc, n);
    FirstOf(c0, dc);
    if n < 8 {
      FirstCoefficients(c0, n);
    } else {
      LastCoefficients(c0, n);
    }
  }

  predicate Largest(c: seq<int>, n: nat) {
    1 <= n < 16 && |c| == 16 && c[ZIGZAG[n]] == 31 * QW[3][n] && forall z | 0 <= z < 16 && z != ZIGZAG[n] :: c[z] == 0
  }

  lemma LargestIs(c: seq<int>, dc: int, n: nat) returns (c0: seq<int>)
    requires 1 <= n < 16 && Dequantised(c, dc, 3, [Placed(n, 31)])
    ensures Largest(c0, n) && c == Plus(c0, DcOnly(dc))
  {
    hide Plus, DcOnly, SingleIn;
    CodedAlone(c, dc, 3, n, 31);
    c0 := NoDc(c);
  }

  lemma FirstOf(c0: seq<int>, dc: int)
    requires |c0| == 16
    ensures LinePass(ColumnPass(Plus(c0, DcOnly(dc))))[0] == dc + Corner(c0) / 0x40_0000
  {
    hide LinePass, ColumnPass, Plus, DcOnly, Corner;
    DcShifts(c0, dc, 0);
    FirstPixel(c0);
  }

  /** The first pixel before its last 22 bits are dropped. */
  function Corner(c: seq<int>): int
    requires |c| == 16
  {
    128 * (c[0] + 32 * c[4] + c[8] + 16 * c[12]) + 183 * (c[1] + 32 * c[5] + c[9] + 16 * c[13]) +
    128 * (c[2] + 32 * c[6] + c[10] + 16 * c[14]) + 86 * (c[3] + 32 * c[7] + c[11] + 16 * c[15])
  }

  lemma FirstPixel(c: seq<int>)
    requires |c| == 16
    ensures LinePass(ColumnPass(c))[0] == Corner(c) / 0x40_0000
  {
    hide LinePass, ColumnPass;
    var m := ColumnPass(c);
    PassAt(m, 0);
    PassAt(c, 0);
    PassAt(c, 1);
    PassAt(c, 2);
    PassAt(c, 3);
  }

  lemma FirstCoefficients(c: seq<int>, n: nat)
    requires n < 8 && Largest(c, n)
    ensures Corner(c) / 0x40_0000 == [0, 192, 192, 140, 294, 140, 219, 442][n]
  {
  }

  lemma LastCoefficients(c: seq<int>, n: nat)
    requires n >= 8 && Largest(c, n)
    ensures Corner(c) / 0x40_0000 == [443, 233, 361, 344, 340, 252, 268, 205][n - 8]
  {
  }

  // ----- The block decoder -----

  /** A two's complement field. */
  function SignedNum(s: seq<bool>): int
    requires s != []
  {
    Num(s) - if s[0] then Pow2(|s|) else 0
  }

  /** Bits of the header: two of quantiser, one for a differential DC, then the DC itself. */
  function HeaderLength(b: seq<bool>): nat
    requires |b| >= 11
  {
    if b[2] then 8 else 11
  }

  function HeaderDc(b: seq<bool>, dc: int): int
    requires |b| >= 11
  {
    if b[2] then dc + SignedNum(b[3..8]) else SignedNum(b[3..11])
  }

  lemma HeaderFields(b: seq<bool>, hdr: nat)
    requires |b| >= 11 && hdr == Num(b[..11])
    ensures hdr / 0x200 == Num(b[..2]) < 4
    ensures hdr / 0x100 % 2 == if b[2] then 1 else 0
    ensures hdr / 0x100 == Num(b[..3])
    ensures hdr / 0x80 % 2 == if b[3] then 1 else 0
    ensures SignedNum(b[3..8]) == if b[3] then hdr / 8 % 16 - 16 else hdr / 8 % 16
    ensures SignedNum(b[3..11]) == if b[3] then hdr % 128 - 128 else hdr % 128
  {
    hide Pow2, Num;
    var h := b[..11];
    Pow2Values();
    NumSplit(h, 2);
    NumSplit(h, 3);
    NumSplit(h, 4);
    NumBit(h, 2);
    NumBit(h, 3);
    NumField(h, 4, 8);
    assert h[..2] == b[..2] && h[..3] == b[..3] && h[4..8] == b[4..8] && h[4..] == b[4..11];
    SignBit(b[3..8], b[4..8]);
    SignBit(b[3..11], b[4..11]);
  }

  lemma SignBit(s: seq<bool>, t: seq<bool>)
    requires s != [] && t == s[1..]
    ensures SignedNum(s) == Num(t) - if s[0] then Pow2(|t|) else 0
  {
    hide Pow2, Num;
    NumSplit(s, 1);
    NumOne(s[0]);
    Pow2Values();
    Pow2Add(1, |t|);
    assert s[..1] == [s[0]];
  }

  /** The header of a block that states its DC: quantiser, a zero, eight bits of two's complement. */
  lemma DirectHeader(q: nat, v: int, rest: seq<bool>, dc: int)
    requires q < 4 && -128 <= v < 128
    ensures q < Pow2(2) && v % 256 < Pow2(8)
    ensures var b := ToBits(q, 2) + [false] + ToBits(v % 256, 8) + rest;
      Num(b[..2]) == q && HeaderLength(b) == 11 && HeaderDc(b, dc) == v && b[11..] == rest
  {
    hide Num, ToBits, Pow2;
    Pow2Values();
    var b := ToBits(q, 2) + [false] + ToBits(v % 256, 8) + rest;
    assert b[..2] == ToBits(q, 2) && b[3..11] == ToBits(v % 256, 8) && b[11..] == rest;
    TwosComplement(v, 8);
  }

  /** That of a block whose DC differs by `v` from the last one: quantiser, a one, five bits of two's complement. */
  lemma DifferentialHeader(q: nat, v: int, rest: seq<bool>, dc: int)
    requires q < 4 && -16 <= v < 16 && |rest| >= 3
    ensures q < Pow2(2) && v % 32 < Pow2(5)
    ensures var b := ToBits(q, 2) + [true] + ToBits(v % 32, 5) + rest;
      Num(b[..2]) == q && HeaderLength(b) == 8 && HeaderDc(b, dc) == dc + v && b[8..] == rest
  {
    hide Num, ToBits, Pow2;
    Pow2Values();
    var b := ToBits(q, 2) + [true] + ToBits(v % 32, 5) + rest;
    assert b[..2] == ToBits(q, 2) && b[3..8] == ToBits(v % 32, 5) && b[8..] == rest;
    TwosComplement(v, 5);
  }

  lemma TwosComplement(v: int, k: nat)
    requires (k == 8 && -128 <= v < 128) || (k == 5 && -16 <= v < 16)
    ensures v % Pow2(k) < Pow2(k) && SignedNum(ToBits(v % Pow2(k), k)) == v
  {
    hide Num, ToBits, Pow2;
    Pow2Values();
    assert (Pow2(k), Pow2(k - 1)) == if k == 8 then (256, 128) else (32, 16);
    var s := ToBits(v % Pow2(k), k);
    NumSplit(s, 1);
    NumOne(s[0]);
    assert s[..1] == [s[0]];
    assert Num(s[1..]) < Pow2(k - 1);
  }

  method ReadHeader(br: BitReader, dcIn: int) returns (hdr: nat, dc: int)
    requires br.Valid() && |br.Rest()| >= 11 + 32
    modifies br`curBit, br`curData, br`ri
    ensures br.Valid() && hdr == Num(old(br.Rest())[..11]) && dc == HeaderDc(old(br.Rest()), dcIn)
    ensures br.Rest() == old(br.Rest())[HeaderLength(old(br.Rest()))..]
  {
    hide Num, Pow2, SignedNum, Stream, Image;
    ghost var b := br.Rest();
    hdr := br.Peek(11);
    HeaderFields(b, hdr);
    if hdr / 0x100 % 2 == 1 {
      // x | ~0xF is x % 16 - 16, and x | ~0x7F below is x % 128 - 128
      if hdr / 0x80 % 2 == 1 {
        dc := dcIn + (hdr / 8 % 16 - 16);
      } else {
        dc := dcIn + hdr / 8 % 16;
      }
      br.Flush(8);
    } else {
      if hdr / 0x80 % 2 == 1 {
        dc := hdr % 128 - 128;
      } else {
        dc := hdr % 128;
      }
      br.Flush(11);
    }
  }

  lemma PrependTwice(a: seq<Placed>, b: seq<Placed>, r: AcRun)
    ensures Prepend(a, Prepend(b, r)) == Prepend(a + b, r)
    ensures Prepend([], r) == r
  {
    if r.Complete? {
      Append(a, b, r.coefs);
      Append(r.coefs, [], []);
    }
  }

  /** What one more symbol does to the coefficients read so far. */
  ghost predicate Progress(coefs: seq<Placed>, b: seq<bool>, cc: nat, s: Symbol, all: AcRun)
    requires Padded(b, cc) && s.Valid()
  {
    && |s.Encode()| <= 16
    && if s.Eob? then all == Complete(coefs, b[|s.Encode()|..])
       else
         var cc' := cc + s.Run() + 1;
         && s.Run() >= 0
         && if cc' > 15 then all == TooLong
            else all == Prepend(coefs + [Placed(cc', s.Amp())], Coefficients(b[|s.Encode()|..], cc'))
  }

  lemma PrependStep(coefs: seq<Placed>, b: seq<bool>, cc: nat)
    requires Padded(b, cc)
    ensures Progress(coefs, b, cc, FirstSymbol(b), Prepend(coefs, Coefficients(b, cc)))
  {
    hide Symbol.Encode, Symbol.Run, Symbol.Amp;
    var s := FirstSymbol(b);
    SymbolBits(s);
    Append(coefs, [], []);
    if !s.Eob? && cc + s.Run() + 1 <= 15 {
      PrependTwice(coefs, [Placed(cc + s.Run() + 1, s.Amp())], Coefficients(b[|s.Encode()|..], cc + s.Run() + 1));
    }
  }

  lemma StorePlaced(c: seq<int>, dc: int, q: nat, coefs: seq<Placed>, cc: nat, amp: int)
    requires q < 4 && Dequantised(c, dc, q, coefs) && 1 <= cc <= 15
    ensures Dequantised(c[ZIGZAG[cc] := amp * QW[q][cc]], dc, q, coefs + [Placed(cc, amp)])
  {
    var next := coefs + [Placed(cc, amp)];
    assert next[..|next| - 1] == coefs;
    forall n | 1 <= n < 16
      ensures c[ZIGZAG[cc] := amp * QW[q][cc]][ZIGZAG[n]] == AmpAt(next, n) * QW[q][n]
    {
      ZigzagIsPermutation(n, cc);
    }
    ZigzagIsPermutation(0, cc);
  }

  method ReadCoefficients(t: VlcTable, br: BitReader, block: array<int>, q: nat, dc: int) returns (ok: bool)
    requires Expanded(t) && br.Valid() && block.Length == 16 && Padded(br.Rest(), 0)
    requires q < 4 && Dequantised(block[..], dc, q, [])
    modifies br`curBit, br`curData, br`ri, block
    ensures br.Valid()
    ensures match Coefficients(old(br.Rest()), 0)
      case TooLong => !ok
      case Complete(coefs, rest) => ok && br.Rest() == rest && Dequantised(block[..], dc, q, coefs)
  {
    hide Symbol.Encode, Symbol.Run, Symbol.Amp, Coefficients, Prepend, Stream, Image, AmpAt;
    ghost var start := br.Rest();
    ghost var at, coefs: seq<Placed> := start, [];
    PrependTwice([], [], Coefficients(start, 0));
    PrependStep(coefs, at, 0);
    var cc := 0;
    var more, run, amp := ReadAC(t, br);
    ghost var s := FirstSymbol(at);
    while more
      invariant 0 <= cc <= 15 && br.Valid() && Padded(at, cc)
      invariant s.Valid() && |s.Encode()| <= 16 && br.Rest() == at[|s.Encode()|..]
      invariant more == !s.Eob? && run == s.Run() && amp == s.Amp()
      invariant Progress(coefs, at, cc, s, Coefficients(start, 0))
      invariant Dequantised(block[..], dc, q, coefs)
      decreases 16 - cc
    {
      cc := cc + run + 1;
      if cc > 15 {
        return false;
      }
      ZigzagIsPermutation(cc, cc);
      StorePlaced(block[..], dc, q, coefs, cc, amp);
      block[ZIGZAG[cc]] := amp * QW[q][cc];
      at, coefs := br.Rest(), coefs + [Placed(cc, amp)];
      PrependStep(coefs, at, cc);
      more, run, amp := ReadAC(t, br);
      s := FirstSymbol(at);
    }
    ok := true;
  }

  /** A single positive coefficient makes a wave around the DC. */
  ghost predicate OneWave(coefs: seq<Placed>, block: seq<int>, dc: int)
    requires |block| == 16
  {
    |coefs| == 1 && coefs[0].amp > 0 ==>
      var n := coefs[0].cc;
      1 <= n < 16 && BlockWave(Less(block, dc), ZIGZAG[n] % 4, ZIGZAG[n] / 4)
  }

  lemma OneCoded(b: seq<bool>, c: seq<int>, dc: int, q: nat)
    requires Padded(b, 0) && Coefficients(b, 0).Complete? && q < 4 && Dequantised(c, dc, q, Coefficients(b, 0).coefs)
    ensures OneWave(Coefficients(b, 0).coefs, LinePass(ColumnPass(c)), dc)
  {
    hide Coefficients, LinePass, ColumnPass, BlockWave, Dequantised;
    var coefs := Coefficients(b, 0).coefs;
    CoefficientsIncrease(b, 0);
    if |coefs| == 1 && coefs[0].amp > 0 {
      assert coefs == [Placed(coefs[0].cc, coefs[0].amp)];
      CodedWave(c, dc, q, coefs[0].cc, coefs[0].amp);
    }
  }

  method DecodeBlock(t: VlcTable, br: BitReader, block: array<int>, dcIn: int) returns (ret: int, dc: int)
    requires Expanded(t) && br.Valid() && block.Length == 16 && |br.Rest()| >= 11 + 16 * 16 + 32
    modifies br`curBit, br`curData, br`ri, block
    ensures br.Valid()
    ensures var b := old(br.Rest());
      var q := Num(b[..2]);
      && q < 4
      && dc == HeaderDc(b, dcIn)
      && match Coefficients(b[HeaderLength(b)..], 0)
         case TooLong => ret == -1
         case Complete(coefs, rest) =>
           && ret == (if Num(b[..3]) == 0 then 1 else 0)
           && br.Rest() == rest
           && (exists c :: Dequantised(c, dc, q, coefs) && block[..] == LinePass(ColumnPass(c)))
           && OneWave(coefs, block[..], dc)
  {
    hide OneWave, Coefficients, Num, Pow2, HeaderDc, LinePass, ColumnPass, Prepend, Stream, Image;
    ghost var b := br.Rest();
    var hdr;
    hdr, dc := ReadHeader(br, dcIn);
    HeaderFields(b, hdr);

    forall k | 0 <= k < 16 {
      block[k] := if k == 0 then dc * 32768 else 0;
    }
    forall n | 1 <= n < 16
      ensures ZIGZAG[n] < 16 && block[..][ZIGZAG[n]] == AmpAt([], n) * QW[hdr / 0x200][n]
    {
      ZigzagIsPermutation(0, n);
    }

    var ok := ReadCoefficients(t, br, block, hdr / 0x200, dc);
    if !ok {
      return -1, dc;
    }
    ghost var c := block[..];
    IdctColumns(block);
    IdctLines(block);
    OneCoded(b[HeaderLength(b)..], c, dc, hdr / 0x200);
    ret := if hdr / 0x100 == 0 then 1 else 0;
  }
}
