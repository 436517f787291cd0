module JpglVlc {
  import opened Bits

  const VLC_NUM := 28
  const VLC_LEN: seq<nat> := [2, 2, 3, 3, 4, 5, 5, 6, 6, 6, 6, 7, 7, 7, 7, 7, 8, 8, 8, 9, 9, 9, 10, 10, 10, 10, 10, 10]
  const VLC_RUN: seq<int> := [0, 0, 0, 1, 0, 2, 3, 1, 0, 4, 0, 5, 1, 0, -1, -2, 2, 6, 0, 3, 1, 0, 1, 0, 7, 2, 0, 8]
  const VLC_AMP: seq<int> := [0, 1, 2, 1, 3, 1, 1, 2, 4, 1, 5, 1, 3, 6, -1, -2, 2, 1, 7, 2, 4, 8, 5, 9, 1, 3, 10, 1]
  const VLC_COD: seq<nat> := [0x000, 0x002, 0x003, 0x006, 0x00E, 0x008, 0x00B, 0x012, 0x014, 0x03D, 0x03E, 0x078, 0x079,
                              0x07E, 0x026, 0x027, 0x054, 0x057, 0x0FF, 0x0AA, 0x0AC, 0x1FC, 0x156, 0x157, 0x15A, 0x15B,
                              0x3FA, 0x3FB]

  type CodeIndex = j: nat | j < VLC_NUM

  function Len(j: CodeIndex): (n: nat)
    ensures 2 <= n <= 10
  {
    VLC_LEN[j]
  }

  function Cod(j: CodeIndex): (c: nat)
    ensures c < Pow2(Len(j))
  {
    CodewordFits(j);
    VLC_COD[j]
  }

  lemma CodewordFits(j: CodeIndex)
    ensures VLC_COD[j] < Pow2(VLC_LEN[j])
  {
    Pow2Values();
  }

  /** Table row `i` holds codeword `j`: the test of the filling loop. */
  predicate Matches(i: nat, j: CodeIndex) {
    i / Pow2(10 - Len(j)) == Cod(j)
  }

  /** The codewords in the order of the rows they cover; row `i` belongs to `RowOwner(i)`. */
  function RowOwner(i: nat): CodeIndex
    requires i < 1024
  {
    if i < 256 then 0 else if i < 288 then 5 else if i < 304 then 7 else if i < 312 then 14
    else if i < 320 then 15 else if i < 336 then 8 else if i < 340 then 16 else if i < 342 then 19
    else if i < 343 then 22 else if i < 344 then 23 else if i < 346 then 20 else if i < 347 then 24
    else if i < 348 then 25 else if i < 352 then 17 else if i < 384 then 6 else if i < 512 then 2
    else if i < 768 then 1 else if i < 896 then 3 else if i < 960 then 4 else if i < 968 then 11
    else if i < 976 then 12 else if i < 992 then 9 else if i < 1008 then 10 else if i < 1016 then 13
    else if i < 1018 then 21 else if i < 1019 then 26 else if i < 1020 then 27 else 18
  }

  const FIRST: seq<nat> := [0, 512, 384, 768, 896, 256, 352, 288, 320, 976, 992, 960, 968, 1008, 304, 312, 336, 348,
                            1020, 340, 344, 1016, 342, 343, 346, 347, 1018, 1019]

  function Width(len: nat): nat {
    if len == 2 then 256 else if len == 3 then 128 else if len == 4 then 64 else if len == 5 then 32
    else if len == 6 then 16 else if len == 7 then 8 else if len == 8 then 4 else if len == 9 then 2 else 1
  }

  lemma WidthIsPow2(j: CodeIndex)
    ensures Pow2(10 - Len(j)) == Width(Len(j))
  {
    assert Pow2(8) == 256 && Pow2(7) == 128 && Pow2(6) == 64 && Pow2(5) == 32 && Pow2(4) == 16;
    assert Pow2(3) == 8 && Pow2(2) == 4 && Pow2(1) == 2 && Pow2(0) == 1;
  }

  /** `c * Width(len)` without a product of variables. */
  function Scaled(c: nat, len: nat): nat {
    if len == 2 then 256 * c else if len == 3 then 128 * c else if len == 4 then 64 * c else if len == 5 then 32 * c
    else if len == 6 then 16 * c else if len == 7 then 8 * c else if len == 8 then 4 * c else if len == 9 then 2 * c
    else c
  }

  lemma FirstRows(j: CodeIndex)
    ensures Cod(j) * Width(Len(j)) == FIRST[j]
  {
    hide Width, Scaled, Pow2;
    TimesWidth(VLC_COD[j], VLC_LEN[j]);
    if j < 14 {
      FirstShort(j);
    } else {
      FirstLong(j);
    }
  }

  lemma FirstShort(j: CodeIndex)
    requires j < 14
    ensures Scaled(VLC_COD[j], VLC_LEN[j]) == FIRST[j]
  {
  }

  lemma FirstLong(j: CodeIndex)
    requires j >= 14
    ensures Scaled(VLC_COD[j], VLC_LEN[j]) == FIRST[j]
  {
  }

  lemma TimesWidth(c: nat, len: nat)
    ensures c * Width(len) == Scaled(c, len)
  {
  }

  lemma OwnedRows(i: nat, j: CodeIndex)
    requires i < 1024
    ensures j == RowOwner(i) <==> FIRST[j] <= i < FIRST[j] + Width(Len(j))
  {
    hide RowOwner;
    RowsOfOwner(i);
    if FIRST[j] <= i < FIRST[j] + Width(Len(j)) {
      if j < 14 {
        ShortCodeRows(i, j);
      } else {
        LongCodeRows(i, j);
      }
    }
  }

  lemma RowsOfOwner(i: nat)
    requires i < 1024
    ensures var j := RowOwner(i); FIRST[j] <= i < FIRST[j] + Width(Len(j))
  {
  }

  lemma ShortCodeRows(i: nat, j: CodeIndex)
    requires i < 1024 && j < 14 && FIRST[j] <= i < FIRST[j] + Width(Len(j))
    ensures j == RowOwner(i)
  {
  }

  lemma LongCodeRows(i: nat, j: CodeIndex)
    requires i < 1024 && j >= 14 && FIRST[j] <= i < FIRST[j] + Width(Len(j))
    ensures j == RowOwner(i)
  {
  }

  /** The 28 codewords are a complete prefix code: every row of the table has exactly one match. */
  lemma RowHasOneOwner(i: nat, j: CodeIndex)
    requires i < 1024
    ensures Matches(i, j) <==> j == RowOwner(i)
  {
    OwnedRows(i, j);
    WidthIsPow2(j);
    FirstRows(j);
    Interval(i, Width(Len(j)), Cod(j), FIRST[j]);
  }

  lemma Interval(i: nat, w: nat, c: nat, first: nat)
    requires w > 0 && c * w == first
    ensures i / w == c <==> first <= i < first + w
  {
    DivInterval(i, w, c);
    assert (c + 1) * w == c * w + w;
  }

  // ----- Symbols -----

  function Codeword(j: CodeIndex): (w: seq<bool>)
    ensures |w| == Len(j)
  {
    ToBits(Cod(j), Len(j))
  }

  /** Codeword 0 ends a block; codewords 14 and 15 escape to an explicit run and amplitude. */
  const EOB: CodeIndex := 0
  const ESCAPE_5: CodeIndex := 14
  const ESCAPE_4: CodeIndex := 15

  /** What one call of `readAC` consumes. */
  datatype Symbol =
    | Eob
    | Coded(j: CodeIndex, neg: bool)
    | Escape5(neg: bool, r: nat, a: nat)
    | Escape4(neg: bool, r: nat, a: nat)
  {
    predicate Valid() {
      match this
      case Eob => true
      case Coded(j, _) => j != EOB && j != ESCAPE_5 && j != ESCAPE_4
      case Escape5(_, r, a) => r < 8 && a < 32
      case Escape4(_, r, a) => r < 16 && a < 16
    }

    function Head(): CodeIndex {
      match this
      case Eob => EOB
      case Coded(j, _) => j
      case Escape5(_, _, _) => ESCAPE_5
      case Escape4(_, _, _) => ESCAPE_4
    }

    /** The bits of the symbol in the stream. */
    function Encode(): seq<bool>
      requires Valid()
    {
      Codeword(Head()) + Tail()
    }

    function Tail(): (t: seq<bool>)
      requires Valid()
      ensures |t| == match Head() case 0 => 0 case 14 => 9 case 15 => 9 case _ => 1
    {
      assert Pow2(3) == 8 && Pow2(4) == 16 && Pow2(5) == 32;
      match this
      case Eob => []
      case Coded(_, neg) => [neg]
      case Escape5(neg, r, a) => [neg] + ToBits(r, 3) + ToBits(a, 5)
      case Escape4(neg, r, a) => [neg] + ToBits(r, 4) + ToBits(a, 4)
    }

    function Run(): int {
      match this
      case Eob => VLC_RUN[EOB]
      case Coded(j, _) => VLC_RUN[j]
      case Escape5(_, r, _) => r
      case Escape4(_, r, _) => r
    }

    function Amp(): int {
      match this
      case Eob => 0
      case Coded(j, neg) => Signed(neg, VLC_AMP[j])
      case Escape5(neg, _, a) => Signed(neg, a)
      case Escape4(neg, _, a) => Signed(neg, a)
    }
  }

  function Signed(neg: bool, v: int): int { if neg then -v else v }

  /** The code book: length and bits of each word. */
  lemma CodeWords(j: CodeIndex)
    ensures (|Codeword(j)|, Num(Codeword(j))) ==
      [(2, 0x0), (2, 0x2), (3, 0x3), (3, 0x6), (4, 0xE), (5, 0x8), (5, 0xB), (6, 0x12), (6, 0x14),
       (6, 0x3D), (6, 0x3E), (7, 0x78), (7, 0x79), (7, 0x7E), (7, 0x26), (7, 0x27), (8, 0x54), (8, 0x57),
       (8, 0xFF), (9, 0xAA), (9, 0xAC), (9, 0x1FC), (10, 0x156), (10, 0x157), (10, 0x15A), (10, 0x15B),
       (10, 0x3FA), (10, 0x3FB)][j]
  {
    hide Num, ToBits, Pow2;
  }

  /** The run and amplitude of each word, but for the end of block and the two escapes. */
  lemma CodeMeanings(j: CodeIndex)
    ensures EOB == 0 && ESCAPE_5 == 14 && ESCAPE_4 == 15
    ensures (VLC_RUN[j], VLC_AMP[j]) ==
      [(0, 0), (0, 1), (0, 2), (1, 1), (0, 3), (2, 1), (3, 1), (1, 2), (0, 4), (4, 1), (0, 5), (5, 1),
       (1, 3), (0, 6), (-1, -1), (-2, -2), (2, 2), (6, 1), (0, 7), (3, 2), (1, 4), (0, 8), (1, 5), (0, 9),
       (7, 1), (2, 3), (0, 10), (8, 1)][j]
  {
  }

  /** A codeword starts a stream exactly if it matches the row of the stream's first ten bits. */
  lemma PrefixIsMatch(b: seq<bool>, j: CodeIndex)
    requires |b| >= 10
    ensures Codeword(j) <= b <==> Matches(Num(b[..10]), j)
    ensures Codeword(j) <= b <==> j == RowOwner(TenBits(b))
  {
    hide Pow2, Num, ToBits, RowOwner, Len, Cod;
    var k := Len(j);
    NumSplit(b[..10], k);
    assert b[..10][..k] == b[..k];
    if Codeword(j) <= b {
      assert b[..k] == Codeword(j);
    }
    if Num(b[..k]) == Cod(j) {
      NumInjective(b[..k], Codeword(j));
    }
    RowHasOneOwner(TenBits(b), j);
  }

  function TenBits(b: seq<bool>): (i: nat)
    requires |b| >= 10
    ensures i < 1024
  {
    assert Pow2(10) == 1024;
    Num(b[..10])
  }

  lemma TailInjective(s: Symbol, t: Symbol)
    requires s.Valid() && t.Valid() && s.Head() == t.Head() && s.Tail() == t.Tail()
    ensures s == t
  {
    hide Num, ToBits;
    assert !s.Eob? ==> s.Tail()[0] == t.Tail()[0];
    match s
    case Eob =>
    case Coded(_, _) =>
    case Escape5(_, r, a) =>
      assert ToBits(r, 3) == s.Tail()[1..4] == t.Tail()[1..4] == ToBits(t.r, 3);
      assert ToBits(a, 5) == s.Tail()[4..] == t.Tail()[4..] == ToBits(t.a, 5);
    case Escape4(_, r, a) =>
      assert ToBits(r, 4) == s.Tail()[1..5] == t.Tail()[1..5] == ToBits(t.r, 4);
      assert ToBits(a, 4) == s.Tail()[5..] == t.Tail()[5..] == ToBits(t.a, 4);
  }

  /** No symbol is a proper prefix of another, and none is ambiguous. */
  lemma UniquelyDecodable(b: seq<bool>, s: Symbol, t: Symbol)
    requires s.Valid() && t.Valid()
    requires s.Encode() <= b && t.Encode() <= b
    ensures s == t
  {
    hide Pow2, Num, ToBits, RowOwner, Codeword, Len, Cod, Symbol.Tail;
    var c := b + seq(10, _ => false);
    PrefixStarts(c, s);
    PrefixStarts(c, t);
    PrefixIsMatch(c, s.Head());
    PrefixIsMatch(c, t.Head());
    TailInjective(s, t);
  }

  lemma PrefixStarts(b: seq<bool>, s: Symbol)
    requires s.Valid() && s.Encode() <= b
    ensures Codeword(s.Head()) <= b && s.Tail() == b[Len(s.Head())..][..|s.Tail()|]
  {
    hide Pow2, ToBits, Codeword, Len, Cod, Symbol.Tail, Symbol.Head;
    assert s.Encode()[..Len(s.Head())] == Codeword(s.Head());
    assert s.Encode()[Len(s.Head())..] == s.Tail();
  }

  /** Read off the symbol at the front of a stream; the masks and shifts of `readAC` in terms of bits. */
  function SymbolAt(b: seq<bool>): Symbol
    requires |b| >= 16
  {
    var j := RowOwner(TenBits(b));
    assert Pow2(3) == 8 && Pow2(4) == 16 && Pow2(5) == 32;
    if j == EOB then Eob
    else if j == ESCAPE_5 then Escape5(b[7], Num(b[8..11]), Num(b[11..16]))
    else if j == ESCAPE_4 then Escape4(b[7], Num(b[8..12]), Num(b[12..16]))
    else Coded(j, b[Len(j)])
  }

  /** A word of the code book is followed by a sign, two of them by nine more bits for run and amplitude. */
  lemma FrontSymbol(b: seq<bool>, j: CodeIndex)
    requires |b| >= 16 && Codeword(j) <= b
    ensures SymbolAt(b) == match j
      case 0 => Eob
      case 14 => Escape5(b[7], Num(b[8..11]), Num(b[11..16]))
      case 15 => Escape4(b[7], Num(b[8..12]), Num(b[12..16]))
      case _ => Coded(j, b[|Codeword(j)|])
  {
    hide RowOwner, Num, Codeword, Pow2;
    PrefixIsMatch(b, j);
  }

  /** The sign makes the amplitude negative. */
  lemma SymbolMeaning(j: CodeIndex, neg: bool, r: nat, a: nat)
    ensures Coded(j, neg).Run() == VLC_RUN[j] && Coded(j, neg).Amp() == if neg then -VLC_AMP[j] else VLC_AMP[j]
    ensures Escape5(neg, r, a).Run() == Escape4(neg, r, a).Run() == r
    ensures Escape5(neg, r, a).Amp() == Escape4(neg, r, a).Amp()
    ensures Escape4(neg, r, a).Amp() == if neg then 0 - a else a
  {
  }

  /** Every stream of sixteen bits starts with a symbol. */
  lemma Complete(b: seq<bool>)
    requires |b| >= 16
    ensures SymbolAt(b).Valid() && SymbolAt(b).Encode() <= b && SymbolAt(b).Head() == RowOwner(TenBits(b))
  {
    hide Pow2, Num, ToBits, RowOwner, Matches, Codeword, Cod, SymbolAt, Symbol.Tail;
    var s := SymbolAt(b);
    PrefixIsMatch(b, s.Head());
    TailRead(b);
    var k := Len(s.Head());
    assert b[..k] == Codeword(s.Head());
    assert s.Encode() == b[..k] + b[k..][..|s.Tail()|];
  }

  lemma TailRead(b: seq<bool>)
    requires |b| >= 16
    ensures var s := SymbolAt(b);
      s.Valid() && s.Head() == RowOwner(TenBits(b)) && s.Tail() == b[Len(s.Head())..][..|s.Tail()|]
  {
    hide Num, ToBits, RowOwner, Cod;
    var s := SymbolAt(b);
    assert Pow2(3) == 8 && Pow2(4) == 16 && Pow2(5) == 32;
    match s
    case Eob =>
    case Coded(j, neg) => assert b[Len(j)..][..1] == [b[Len(j)]];
    case Escape5(_, _, _) =>
      ToBitsOfNum(b[8..11]);
      ToBitsOfNum(b[11..16]);
      assert b[7..][..9] == [b[7]] + b[8..11] + b[11..16];
    case Escape4(_, _, _) =>
      ToBitsOfNum(b[8..12]);
      ToBitsOfNum(b[12..16]);
      assert b[7..][..9] == [b[7]] + b[8..12] + b[12..16];
  }
}
