/** The expanded 1024-row table and the symbol reader that looks up in it. */
module JpglSymbols {
  import opened Bits
  import opened JpglVlc
  import opened JpglReader

  datatype VlcTable = VlcTable(len: seq<int>, run: seq<int>, amp: seq<int>)

  function EntryLen(j: CodeIndex): int {
    if VLC_RUN[j] < 0 then 16 else if VLC_AMP[j] != 0 then Len(j) + 1 else Len(j)
  }

  /** Each row describes the one codeword its ten-bit index starts with. */
  ghost predicate Expanded(t: VlcTable) {
    && |t.len| == |t.run| == |t.amp| == 1024
    && forall i | 0 <= i < 1024 :: RowOk(i, t.len[i], t.run[i], t.amp[i])
  }

  ghost predicate RowOk(i: nat, len: int, run: int, amp: int)
    requires i < 1024
  {
    var j := RowOwner(i);
    len == EntryLen(j) && run == VLC_RUN[j] && amp == VLC_AMP[j]
  }

  lemma Entry(j: CodeIndex)
    ensures EntryLen(j) == if VLC_RUN[j] >= 0 then (if VLC_AMP[j] != 0 then Len(j) + 1 else Len(j)) else 16
  {
  }

  method VlcTblInit() returns (t: VlcTable)
    ensures Expanded(t)
  {
    hide RowOk;
    var len, run, amp := new int[1024], new int[1024], new int[1024];
    for i := 0 to 1024
      invariant forall k | 0 <= k < i :: RowOk(k, len[k], run[k], amp[k])
    {
      var l, r, a := FindRow(i);
      len[i], run[i], amp[i] := l, r, a;
    }
    t := VlcTable(len[..], run[..], amp[..]);
  }

  /** The inner loop: the first codeword that matches the row fills it. */
  method FindRow(i: nat) returns (len: int, run: int, amp: int)
    requires i < 1024
    ensures RowOk(i, len, run, amp)
  {
    hide RowOwner, EntryLen;
    for j := 0 to VLC_NUM
      invariant j <= RowOwner(i)
    {
      RowHasOneOwner(i, j);
      Entry(j);
      if Shr(i, 10 - Len(j)) == Cod(j) {
        len := if VLC_RUN[j] >= 0 then (if VLC_AMP[j] != 0 then Len(j) + 1 else Len(j)) else 16;
        return len, VLC_RUN[j], VLC_AMP[j];
      }
    }
    assert false;
  }

  /** The one symbol a stream starts with. */
  ghost function FirstSymbol(b: seq<bool>): (s: Symbol)
    requires |b| >= 16
    ensures s.Valid() && s.Encode() <= b
  {
    Complete(b);
    var s: Symbol :| s.Valid() && s.Encode() <= b;
    s
  }

  /** The fields of the sixteen bits `readAC` looks at, in its own shifts and masks. */
  lemma Fields(b: seq<bool>, cod: nat)
    requires |b| >= 16 && cod == Num(b[..16])
    ensures cod / 64 == TenBits(b)
    ensures forall i | 0 <= i < 16 :: cod / Pow2(15 - i) % 2 == if b[i] then 1 else 0
    ensures cod / 32 % 8 == Num(b[8..11]) && cod % 32 == Num(b[11..16])
    ensures cod / 16 % 16 == Num(b[8..12]) && cod % 16 == Num(b[12..16])
  {
    hide Pow2, Num;
    var c := b[..16];
    Pow2Values();
    NumSplit(c, 10);
    assert c[..10] == b[..10];
    forall i | 0 <= i < 16
      ensures cod / Pow2(15 - i) % 2 == if b[i] then 1 else 0
    {
      NumBit(c, i);
    }
    NumField(c, 8, 11);
    NumSplit(c, 11);
    NumField(c, 8, 12);
    NumSplit(c, 12);
    assert c[8..11] == b[8..11] && c[11..] == b[11..16] && c[8..12] == b[8..12] && c[12..] == b[12..16];
  }

  /** What the signs of the base tables say about a codeword. */
  lemma Kinds(j: CodeIndex)
    ensures VLC_AMP[j] == 0 <==> j == EOB
    ensures VLC_AMP[j] == -1 <==> j == ESCAPE_5
    ensures VLC_AMP[j] < -1 <==> j == ESCAPE_4
    ensures VLC_RUN[j] < 0 <==> VLC_AMP[j] < 0
    ensures 2 <= Len(j) <= 10 && Len(ESCAPE_5) == Len(ESCAPE_4) == 7
    ensures 2 <= EntryLen(j) <= 16
  {
  }

  lemma SymbolLength(s: Symbol)
    requires s.Valid()
    ensures |s.Encode()| == EntryLen(s.Head())
  {
    hide Pow2, ToBits, Codeword, Symbol.Tail;
    Kinds(s.Head());
  }

  /** The row of the table that `readAC` looks up belongs to the head of the first symbol. */
  lemma LookedUp(b: seq<bool>, cod: nat)
    requires |b| >= 16 && cod == Num(b[..16])
    ensures cod / 64 == TenBits(b)
    ensures FirstSymbol(b) == SymbolAt(b) && FirstSymbol(b).Head() == RowOwner(cod / 64)
  {
    hide Num, Pow2, RowOwner, SymbolAt, Symbol.Encode;
    Fields(b, cod);
    Complete(b);
    UniquelyDecodable(b, SymbolAt(b), FirstSymbol(b));
  }

  lemma CodedFields(b: seq<bool>, cod: nat, j: CodeIndex)
    requires |b| >= 16 && cod == Num(b[..16]) && j == RowOwner(TenBits(b)) && VLC_AMP[j] > 0
    ensures 0 <= EntryLen(j) <= 16
    ensures SymbolAt(b).Run() == VLC_RUN[j]
    ensures SymbolAt(b).Amp() == Signed(Shr(cod, 16 - EntryLen(j)) % 2 == 1, VLC_AMP[j])
  {
    hide Num, Pow2, RowOwner;
    Kinds(j);
    Fields(b, cod);
    var k := Len(j);
    assert cod / Pow2(15 - k) % 2 == if b[k] then 1 else 0;
  }

  lemma EscapeFields(b: seq<bool>, cod: nat, j: CodeIndex)
    requires |b| >= 16 && cod == Num(b[..16]) && j == RowOwner(TenBits(b)) && VLC_AMP[j] < 0
    ensures j == ESCAPE_5 ==>
      SymbolAt(b).Run() == cod / 32 % 8 && SymbolAt(b).Amp() == Signed(cod / 0x100 % 2 == 1, cod % 32)
    ensures j == ESCAPE_4 ==>
      SymbolAt(b).Run() == cod / 16 % 16 && SymbolAt(b).Amp() == Signed(cod / 0x100 % 2 == 1, cod % 16)
  {
    Fields(b, cod);
    Pow2Values();
    assert cod / Pow2(15 - 7) % 2 == if b[7] then 1 else 0;
  }

  /** Reads one symbol; `more` is false exactly at the end of the block. */
  method ReadAC(t: VlcTable, br: BitReader) returns (more: bool, run: int, amp: int)
    requires Expanded(t) && br.Valid() && |br.Rest()| >= 48
    modifies br`curBit, br`curData, br`ri
    ensures br.Valid()
    ensures var s := FirstSymbol(old(br.Rest()));
      && more == !s.Eob? && run == s.Run() && amp == s.Amp()
      && br.Rest() == old(br.Rest())[|s.Encode()|..]
  {
    hide Num, Pow2, RowOwner, SymbolAt, Symbol.Encode, Stream, Image, TenBits;
    ghost var b := br.Rest();
    var cod := br.Peek(16);
    LookedUp(b, cod);
    ghost var j := RowOwner(cod / 64);
    Kinds(j);
    SymbolLength(FirstSymbol(b));
    assert RowOk(cod / 64, t.len[cod / 64], t.run[cod / 64], t.amp[cod / 64]);
    var len := t.len[cod / 64];
    run := t.run[cod / 64];
    amp := t.amp[cod / 64];
    br.Flush(len);
    more := true;
    if amp > 0 {
      CodedFields(b, cod, j);
      // the mask 0x10000 >> len selects the last bit flushed
      amp := Signed(Shr(cod, 16 - len) % 2 == 1, amp);
    } else {
      if amp == 0 {
        more := false;
      } else if amp == -1 {
        EscapeFields(b, cod, j);
        run := cod / 32 % 8;
        amp := Signed(cod / 0x100 % 2 == 1, cod % 32);
      } else {
        EscapeFields(b, cod, j);
        run := cod / 16 % 16;
        amp := Signed(cod / 0x100 % 2 == 1, cod % 16);
      }
    }
  }
}
