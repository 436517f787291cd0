/**
  The CPIA1 decoder.  A frame is parsed line by line; a compressed frame only codes some pixel pairs
  and takes the others from the last frame that was decoded successfully.
*/
module Cpia1 {
  import opened Bits

  const EOL: byte := 0xFD
  const EOI: byte := 0xFF
  const HEADER_SIZE := 64
  const FRAME_BUFFER := 152064
  const U32 := 0x1_0000_0000

  // ----- The grammar of a frame -----

  /** What a line codes: pixels to keep, or a pair with chroma (even lines) or without (odd lines). */
  datatype Op = Skip(n: nat) | Yuyv(y0: byte, u: byte, y1: byte, v: byte) | Yy(y0: byte, y1: byte) {
    /** In a compressed line the low bit of the first byte tells skips from pairs. */
    predicate Ok(even: bool, compressed: bool) {
      match this
      case Skip(n) => compressed && n % 2 == 0 && n <= 126
      case Yuyv(y0, _, _, _) => even && (compressed ==> y0 % 2 == 0)
      case Yy(y0, _) => !even && (compressed ==> y0 % 2 == 0)
    }

    function Span(): nat { if Skip? then n else 2 }

    function Bytes(): seq<byte> {
      match this
      case Skip(n) => [(2 * n + 1) % 0x100]
      case Yuyv(y0, u, y1, v) => [y0, u, y1, v]
      case Yy(y0, y1) => [y0, y1]
    }
  }

  function Init<T>(s: seq<T>): seq<T>
    requires s != []
  {
    s[..|s| - 1]
  }

  function Last<T>(s: seq<T>): T
    requires s != []
  {
    s[|s| - 1]
  }

  function Span(ops: seq<Op>): nat {
    if ops == [] then 0 else Span(Init(ops)) + Last(ops).Span()
  }

  function OpsBytes(ops: seq<Op>): seq<byte> {
    if ops == [] then [] else OpsBytes(Init(ops)) + Last(ops).Bytes()
  }

  /** The luma a line codes for column `x`, if any. */
  function Luma(ops: seq<Op>, x: nat): Option<byte> {
    if ops == [] then None
    else
      var s := Span(Init(ops));
      if x < s then Luma(Init(ops), x)
      else match Last(ops)
        case Skip(_) => None
        case Yuyv(y0, _, y1, _) => if x == s then Some(y0) else if x == s + 1 then Some(y1) else None
        case Yy(y0, y1) => if x == s then Some(y0) else if x == s + 1 then Some(y1) else None
  }

  /** The chroma a line codes for the pair `i`, if any. */
  function Chroma(ops: seq<Op>, i: nat, blue: bool): Option<byte> {
    if ops == [] then None
    else
      var s := Span(Init(ops)) / 2;
      if i < s then Chroma(Init(ops), i, blue)
      else match Last(ops)
        case Yuyv(_, u, _, v) => if i == s then Some(if blue then u else v) else None
        case _ => None
  }

  /** A line covers exactly `w` pixels and stops as soon as it does. */
  ghost predicate LineOk(ops: seq<Op>, even: bool, compressed: bool, w: nat) {
    && (forall op | op in ops :: op.Ok(even, compressed))
    && Span(ops) == w
    && (forall k | 0 <= k < |ops| :: Span(ops[..k]) < w)
  }

  ghost predicate Encodes(ops: seq<Op>, line: seq<byte>, even: bool, compressed: bool, w: nat) {
    LineOk(ops, even, compressed, w) && OpsBytes(ops) == line
  }

  // ----- Parsing is deterministic -----

  lemma {:induction false} PrefixFacts(ops: seq<Op>, k: nat)
    requires k <= |ops|
    ensures OpsBytes(ops[..k]) <= OpsBytes(ops)
    ensures Span(ops[..k]) <= Span(ops)
  {
    if k < |ops| {
      PrefixFacts(Init(ops), k);
      assert Init(ops)[..k] == ops[..k];
    } else {
      assert ops[..k] == ops;
    }
  }

  /** Behind a prefix that does not fill the line there is another operation, found at its bytes. */
  lemma NextOp(full: seq<Op>, k: nat, line: seq<byte>, even: bool, compressed: bool, w: nat)
    requires Encodes(full, line, even, compressed, w) && k <= |full| && Span(full[..k]) < w
    ensures k < |full| && full[k].Ok(even, compressed)
    ensures var c, b := |OpsBytes(full[..k])|, full[k].Bytes();
      c + |b| <= |line| && line[c..c + |b|] == b && OpsBytes(full[..k]) == line[..c]
  {
    hide Op.Bytes;
    assert full[..|full|] == full;
    PrefixFacts(full, k);
    PrefixFacts(full, k + 1);
    assert Init(full[..k + 1]) == full[..k] && Last(full[..k + 1]) == full[k];
    assert OpsBytes(full[..k + 1]) == OpsBytes(full[..k]) + full[k].Bytes();
  }

  /** The pair coded at byte `c` of a line. */
  function PairAt(line: seq<byte>, c: nat, even: bool): Op
    requires c + (if even then 4 else 2) <= |line|
  {
    if even then Yuyv(line[c], line[c + 1], line[c + 2], line[c + 3]) else Yy(line[c], line[c + 1])
  }

  /** The operation at byte `c` of a compressed line. */
  lemma NextOpIs(full: seq<Op>, k: nat, line: seq<byte>, even: bool, w: nat)
    requires Encodes(full, line, even, true, w) && k <= |full| && Span(full[..k]) < w
    ensures k < |full|
    ensures var c := |OpsBytes(full[..k])|;
      && c < |line|
      && (line[c] % 2 == 1 ==> line[c] / 2 % 2 == 0 && full[k] == Skip(line[c] / 2))
      && (line[c] % 2 == 0 ==> c + (if even then 4 else 2) <= |line| && full[k] == PairAt(line, c, even))
  {
    hide OpsBytes, Span, LineOk;
    NextOp(full, k, line, even, true, w);
    BytesAt(full[k], line, |OpsBytes(full[..k])|, even, true);
  }

  /** The bytes of an operation determine it. */
  lemma BytesAt(op: Op, line: seq<byte>, c: nat, even: bool, compressed: bool)
    requires op.Ok(even, compressed) && c + |op.Bytes()| <= |line| && line[c..c + |op.Bytes()|] == op.Bytes()
    ensures c < |line|
    ensures compressed && line[c] % 2 == 1 ==> line[c] / 2 % 2 == 0 && op == Skip(line[c] / 2)
    ensures !compressed || line[c] % 2 == 0 ==> c + (if even then 4 else 2) <= |line| && op == PairAt(line, c, even)
  {
    var b := op.Bytes();
    assert forall i | 0 <= i < |b| :: line[c + i] == line[c..c + |b|][i] == b[i];
  }

  /** Two ways to read a line agree. */
  lemma {:induction false} LineIsUnique(a: seq<Op>, b: seq<Op>, line: seq<byte>, even: bool, compressed: bool, w: nat,
                                        k: nat)
    requires Encodes(a, line, even, compressed, w) && Encodes(b, line, even, compressed, w)
    requires k <= |a| && k <= |b| && a[..k] == b[..k]
    ensures a == b
    decreases |a| - k
  {
    hide OpsBytes, Span, Op.Bytes, Op.Ok;
    if Span(a[..k]) < w {
      NextOp(a, k, line, even, compressed, w);
      NextOp(b, k, line, even, compressed, w);
      BytesAt(a[k], line, |OpsBytes(a[..k])|, even, compressed);
      BytesAt(b[k], line, |OpsBytes(a[..k])|, even, compressed);
      assert a[..k + 1] == a[..k] + [a[k]] && b[..k + 1] == b[..k] + [b[k]];
      LineIsUnique(a, b, line, even, compressed, w, k + 1);
    } else {
      assert a[..k] == a && b[..k] == b;
    }
  }

  // ----- One line -----

  datatype Outcome = Ok | Error | OverRead

  /** The cursors of a row: luma, the two chroma rows (moved on even lines only), and the row width. */
  datatype Row = Row(d: nat, u: nat, v: nat, even: bool, w: nat) {
    ghost predicate Fits(length: nat) {
      w % 2 == 0 && d + w <= length &&
      (even ==> u + w / 2 <= length && v + w / 2 <= length && Apart())
    }

    ghost predicate Apart() {
      && (d + w <= u || u + w / 2 <= d)
      && (d + w <= v || v + w / 2 <= d)
      && (u + w / 2 <= v || v + w / 2 <= u)
    }

    /** The cursors behind the row: luma moves by the width, chroma by half of it on even lines. */
    function Next(): (nat, nat, nat) {
      if even then (d + w, u + w / 2, v + w / 2) else (d + w, u, v)
    }

    ghost predicate Covers(k: int) {
      d <= k < d + w || (even && (u <= k < u + w / 2 || v <= k < v + w / 2))
    }
  }

  /** `s` is `base` with the row overwritten by what `ops` codes, and nothing else. */
  ghost predicate RowWritten(s: seq<byte>, base: seq<byte>, row: Row, ops: seq<Op>)
    requires |s| == |base| && row.Fits(|base|)
  {
    && (forall k | 0 <= k < |s| && !row.Covers(k) :: s[k] == base[k])
    && (forall x | 0 <= x < row.w :: s[row.d + x] == Luma(ops, x).Or(base[row.d + x]))
    && (row.even ==> forall i | 0 <= i < row.w / 2 ::
          && s[row.u + i] == Chroma(ops, i, true).Or(base[row.u + i])
          && s[row.v + i] == Chroma(ops, i, false).Or(base[row.v + i]))
  }

  /** What storing one more operation at the cursors does. */
  function Store(s: seq<byte>, row: Row, x: nat, op: Op): (r: seq<byte>)
    requires row.Fits(|s|) && x + 2 <= row.w && (op.Yuyv? ==> row.even)
    ensures |r| == |s|
  {
    match op
    case Skip(_) => s
    case Yuyv(y0, u, y1, v) =>
      s[row.d + x := y0][row.u + x / 2 := u][row.d + x + 1 := y1][row.v + x / 2 := v]
    case Yy(y0, y1) => s[row.d + x := y0][row.d + x + 1 := y1]
  }

  lemma SpanSnoc(ops: seq<Op>, op: Op)
    ensures Span(ops + [op]) == Span(ops) + op.Span()
    ensures OpsBytes(ops + [op]) == OpsBytes(ops) + op.Bytes()
    ensures Init(ops + [op]) == ops && Last(ops + [op]) == op
  {
    assert Init(ops + [op]) == ops;
  }

  lemma {:induction false} NothingCodedBehind(ops: seq<Op>, x: nat, even: bool, compressed: bool)
    requires forall op | op in ops :: op.Ok(even, compressed)
    requires x >= Span(ops)
    ensures Span(ops) % 2 == 0
    ensures Luma(ops, x) == None && Chroma(ops, x / 2, true) == None && Chroma(ops, x / 2, false) == None
  {
    if ops != [] {
      assert Last(ops) in ops;
      NothingCodedBehind(Init(ops), x, even, compressed);
    }
  }

  /** An operation codes its pair at the columns it starts at, and changes nothing that was coded before. */
  lemma CodedBySnoc(ops: seq<Op>, op: Op, k: nat, even: bool, compressed: bool)
    requires (forall o | o in ops :: o.Ok(even, compressed)) && op.Ok(even, compressed)
    ensures Span(ops) % 2 == 0
    ensures var x, l := Span(ops), Luma(ops + [op], k);
      if k < x || op.Skip? then l == Luma(ops, k)
      else l == if k == x then Some(op.y0) else if k == x + 1 then Some(op.y1) else None
    ensures var x, u, v := Span(ops) / 2, Chroma(ops + [op], k, true), Chroma(ops + [op], k, false);
      if k < x || op.Skip? then u == Chroma(ops, k, true) && v == Chroma(ops, k, false)
      else
        u == (if k == x && op.Yuyv? then Some(op.u) else None) && v == (if k == x && op.Yuyv? then Some(op.v) else None)
    ensures k >= Span(ops) ==> Luma(ops, k) == None
    ensures k >= Span(ops) / 2 ==> Chroma(ops, k, true) == None && Chroma(ops, k, false) == None
  {
    SpanSnoc(ops, op);
    NothingCodedBehind(ops, Span(ops), even, compressed);
    if k >= Span(ops) {
      NothingCodedBehind(ops, k, even, compressed);
    }
    if k >= Span(ops) / 2 {
      NothingCodedBehind(ops, 2 * k, even, compressed);
    }
  }

  /** Storing an operation at the cursors renders it, inside the row. */
  lemma WriteOp(s: seq<byte>, base: seq<byte>, row: Row, ops: seq<Op>, op: Op, compressed: bool)
    requires |s| == |base| && row.Fits(|base|) && RowWritten(s, base, row, ops)
    requires (forall o | o in ops :: o.Ok(row.even, compressed)) && op.Ok(row.even, compressed)
    requires Span(ops) < row.w
    ensures Span(ops) + 2 <= row.w && (op.Yuyv? ==> row.even)
    ensures RowWritten(Store(s, row, Span(ops), op), base, row, ops + [op])
    ensures op.Skip? ==> Store(s, row, Span(ops), op) == s
  {
    hide Op.Bytes, Op.Ok, Luma, Chroma, Span, Row.Apart;
    CodedBySnoc(ops, op, 0, row.even, compressed);
    OkShape(op, row.even, compressed);
    forall k | 0 <= k < |s| && !row.Covers(k)
      ensures Store(s, row, Span(ops), op)[k] == base[k]
    {
      StoreAt(s, row, Span(ops), op, k);
    }
    WriteLuma(s, base, row, ops, op, compressed);
    WriteChroma(s, base, row, ops, op, compressed);
  }

  lemma WriteLuma(s: seq<byte>, base: seq<byte>, row: Row, ops: seq<Op>, op: Op, compressed: bool)
    requires |s| == |base| && row.Fits(|base|) && RowWritten(s, base, row, ops)
    requires (forall o | o in ops :: o.Ok(row.even, compressed)) && op.Ok(row.even, compressed)
    requires Span(ops) + 2 <= row.w && (op.Yuyv? ==> row.even)
    ensures forall x | 0 <= x < row.w ::
      Store(s, row, Span(ops), op)[row.d + x] == Luma(ops + [op], x).Or(base[row.d + x])
  {
    hide Op.Bytes, Op.Ok, Luma, Chroma, Span, Store;
    OkShape(op, row.even, compressed);
    forall x | 0 <= x < row.w
      ensures Store(s, row, Span(ops), op)[row.d + x] == Luma(ops + [op], x).Or(base[row.d + x])
    {
      CodedBySnoc(ops, op, x, row.even, compressed);
      StoreAt(s, row, Span(ops), op, row.d + x);
    }
  }

  lemma WriteChroma(s: seq<byte>, base: seq<byte>, row: Row, ops: seq<Op>, op: Op, compressed: bool)
    requires |s| == |base| && row.Fits(|base|) && RowWritten(s, base, row, ops)
    requires (forall o | o in ops :: o.Ok(row.even, compressed)) && op.Ok(row.even, compressed)
    requires Span(ops) + 2 <= row.w && (op.Yuyv? ==> row.even)
    ensures row.even ==> forall i | 0 <= i < row.w / 2 ::
      && Store(s, row, Span(ops), op)[row.u + i] == Chroma(ops + [op], i, true).Or(base[row.u + i])
      && Store(s, row, Span(ops), op)[row.v + i] == Chroma(ops + [op], i, false).Or(base[row.v + i])
  {
    hide Op.Bytes, Op.Ok, Luma, Chroma, Span, Store;
    OkShape(op, row.even, compressed);
    forall i | row.even && 0 <= i < row.w / 2
      ensures Store(s, row, Span(ops), op)[row.u + i] == Chroma(ops + [op], i, true).Or(base[row.u + i])
      ensures Store(s, row, Span(ops), op)[row.v + i] == Chroma(ops + [op], i, false).Or(base[row.v + i])
    {
      CodedBySnoc(ops, op, i, row.even, compressed);
      StoreAt(s, row, Span(ops), op, row.u + i);
      StoreAt(s, row, Span(ops), op, row.v + i);
    }
  }

  lemma StoreAt(s: seq<byte>, row: Row, x: nat, op: Op, k: nat)
    requires row.Fits(|s|) && x + 2 <= row.w && x % 2 == 0 && (op.Yuyv? <==> row.even && !op.Skip?) && k < |s|
    ensures Store(s, row, x, op)[k] ==
      if op.Skip? then s[k]
      else if k == row.d + x then op.y0
      else if k == row.d + x + 1 then op.y1
      else if op.Yuyv? && k == row.u + x / 2 then op.u
      else if op.Yuyv? && k == row.v + x / 2 then op.v
      else s[k]
  {
  }

  lemma OkShape(op: Op, even: bool, compressed: bool)
    requires op.Ok(even, compressed)
    ensures op.Yuyv? <==> even && !op.Skip?
  {
  }

  // ----- The loop over a compressed line -----

  ghost predicate Unencodable(line: seq<byte>, even: bool, compressed: bool, w: nat) {
    forall full: seq<Op> :: !Encodes(full, line, even, compressed, w)
  }

  /** The operations read so far are valid, and every way to read the line starts with them. */
  ghost predicate Reading(line: seq<byte>, ops: seq<Op>, even: bool, w: nat) {
    && (forall op | op in ops :: op.Ok(even, true))
    && OpsBytes(ops) <= line
    && (forall k | 0 <= k < |ops| :: Span(ops[..k]) < w)
    && (forall full | Encodes(full, line, even, true, w) :: ops <= full)
  }

  lemma ReadSnoc(line: seq<byte>, ops: seq<Op>, op: Op, even: bool, w: nat)
    requires Reading(line, ops, even, w) && Span(ops) < w && op.Ok(even, true)
    requires |OpsBytes(ops)| + |op.Bytes()| <= |line|
    requires line[|OpsBytes(ops)|..|OpsBytes(ops)| + |op.Bytes()|] == op.Bytes()
    requires forall full | Encodes(full, line, even, true, w) :: |ops| < |full| && full[|ops|] == op
    ensures Reading(line, ops + [op], even, w)
    ensures Span(ops + [op]) == Span(ops) + op.Span() && |OpsBytes(ops + [op])| == |OpsBytes(ops)| + |op.Bytes()|
  {
    hide OpsBytes, Span, Op.Bytes, Op.Ok, Encodes;
    SpanSnoc(ops, op);
    var c, n := |OpsBytes(ops)|, |op.Bytes()|;
    assert line[..c] + line[c..c + n] == line[..c + n];
    forall k | 0 <= k < |ops + [op]|
      ensures Span((ops + [op])[..k]) < w
    {
      assert (ops + [op])[..k] == if k < |ops| then ops[..k] else ops;
    }
    forall full | Encodes(full, line, even, true, w)
      ensures ops + [op] <= full
    {
      assert full[..|ops|] == ops && full[..|ops| + 1] == ops + [op];
    }
  }

  lemma NextIn(line: seq<byte>, ops: seq<Op>, even: bool, w: nat, full: seq<Op>)
    requires Reading(line, ops, even, w) && Span(ops) < w && Encodes(full, line, even, true, w)
    ensures var c := |OpsBytes(ops)|;
      && |ops| < |full| && c < |line|
      && (line[c] % 2 == 1 ==> line[c] / 2 % 2 == 0 && full[|ops|] == Skip(line[c] / 2))
      && (line[c] % 2 == 0 ==> c + (if even then 4 else 2) <= |line| && full[|ops|] == PairAt(line, c, even))
  {
    hide OpsBytes, Span, Op.Bytes, Op.Ok, LineOk;
    assert full[..|ops|] == ops;
    NextOpIs(full, |ops|, line, even, w);
  }

  /** A skip byte. */
  lemma ReadSkip(line: seq<byte>, ops: seq<Op>, even: bool, w: nat)
    requires Reading(line, ops, even, w) && Span(ops) < w
    requires |OpsBytes(ops)| < |line| && line[|OpsBytes(ops)|] % 2 == 1
    ensures var c := |OpsBytes(ops)|;
      if line[c] / 2 % 2 == 1 then Unencodable(line, even, true, w)
      else Reading(line, ops + [Skip(line[c] / 2)], even, w) &&
           Span(ops + [Skip(line[c] / 2)]) == Span(ops) + line[c] / 2 &&
           |OpsBytes(ops + [Skip(line[c] / 2)])| == c + 1 && Skip(line[c] / 2).Ok(even, true)
  {
    hide OpsBytes, Span, Reading, Encodes;
    forall full | Encodes(full, line, even, true, w)
      ensures |ops| < |full| && full[|ops|] == Skip(line[|OpsBytes(ops)|] / 2) && line[|OpsBytes(ops)|] / 2 % 2 == 0
    {
      NextIn(line, ops, even, w, full);
    }
    if line[|OpsBytes(ops)|] / 2 % 2 == 0 {
      ReadSnoc(line, ops, Skip(line[|OpsBytes(ops)|] / 2), even, w);
    }
  }

  /** A pixel pair, which may run into the end of the line. */
  lemma ReadPair(line: seq<byte>, ops: seq<Op>, even: bool, w: nat)
    requires Reading(line, ops, even, w) && Span(ops) < w
    requires |OpsBytes(ops)| < |line| && line[|OpsBytes(ops)|] % 2 == 0
    ensures var c, n := |OpsBytes(ops)|, if even then 4 else 2;
      if c + n > |line| then Unencodable(line, even, true, w)
      else Reading(line, ops + [PairAt(line, c, even)], even, w) &&
           Span(ops + [PairAt(line, c, even)]) == Span(ops) + 2 &&
           |OpsBytes(ops + [PairAt(line, c, even)])| == c + n && PairAt(line, c, even).Ok(even, true)
  {
    hide OpsBytes, Span, Reading, Encodes;
    var c, n := |OpsBytes(ops)|, if even then 4 else 2;
    forall full | Encodes(full, line, even, true, w)
      ensures c + n <= |line| && |ops| < |full| && full[|ops|] == PairAt(line, c, even)
    {
      NextIn(line, ops, even, w, full);
    }
    if c + n <= |line| {
      assert line[c..c + n] == PairAt(line, c, even).Bytes();
      ReadSnoc(line, ops, PairAt(line, c, even), even, w);
    }
  }

  /** The loop stops: the line is read exactly if both the bytes and the pixels are used up. */
  lemma ReadEnd(line: seq<byte>, ops: seq<Op>, even: bool, w: nat)
    requires Reading(line, ops, even, w) && (|OpsBytes(ops)| == |line| || Span(ops) >= w)
    ensures if |OpsBytes(ops)| == |line| && Span(ops) == w then Encodes(ops, line, even, true, w)
            else Unencodable(line, even, true, w)
  {
    hide Op.Bytes, Op.Ok, OpsBytes, Span;
    forall full | Encodes(full, line, even, true, w)
      ensures |OpsBytes(ops)| == |line| && Span(ops) == w
    {
      if Span(ops) < w {
        NextIn(line, ops, even, w, full);
      } else {
        assert full[..|ops|] == ops;
        assert |ops| == |full|;
        assert full == ops;
      }
    }
  }

  /** The state of the loop while it stays inside the line: `x` pixels and `c` bytes are done. */
  ghost predicate Inside(line: seq<byte>, s: seq<byte>, base: seq<byte>, row: Row, ops: seq<Op>, x: nat, c: nat) {
    && |s| == |base| && row.Fits(|base|)
    && Reading(line, ops, row.even, row.w) && Span(ops) == x && |OpsBytes(ops)| == c
    && RowWritten(s, base, row, ops)
  }

  lemma SkipStep(line: seq<byte>, s: seq<byte>, base: seq<byte>, row: Row, ops: seq<Op>, x: nat, c: nat)
    requires Inside(line, s, base, row, ops, x, c) && x < row.w && c < |line| && line[c] % 2 == 1
    ensures if line[c] / 2 % 2 == 1 then Unencodable(line, row.even, true, row.w)
            else Inside(line, s, base, row, ops + [Skip(line[c] / 2)], x + line[c] / 2, c + 1)
  {
    hide OpsBytes, Span, Op.Bytes, Op.Ok, RowWritten, Unencodable, Encodes;
    ReadSkip(line, ops, row.even, row.w);
    if line[c] / 2 % 2 == 0 {
      WriteOp(s, base, row, ops, Skip(line[c] / 2), true);
    }
  }

  lemma PairStep(line: seq<byte>, s: seq<byte>, base: seq<byte>, row: Row, ops: seq<Op>, x: nat, c: nat)
    requires Inside(line, s, base, row, ops, x, c) && x < row.w && c < |line| && line[c] % 2 == 0
    ensures var n := if row.even then 4 else 2;
      if c + n > |line| then Unencodable(line, row.even, true, row.w)
      else
        var op := PairAt(line, c, row.even);
        x + 2 <= row.w && Inside(line, Store(s, row, x, op), base, row, ops + [op], x + 2, c + n)
  {
    hide OpsBytes, Span, Op.Bytes, Op.Ok, RowWritten, Unencodable, Encodes, Store;
    ReadPair(line, ops, row.even, row.w);
    if c + (if row.even then 4 else 2) <= |line| {
      WriteOp(s, base, row, ops, PairAt(line, c, row.even), true);
    }
  }

  lemma EndStep(line: seq<byte>, s: seq<byte>, base: seq<byte>, row: Row, ops: seq<Op>, x: nat, c: nat)
    requires Inside(line, s, base, row, ops, x, c) && (c == |line| || x >= row.w)
    ensures if c == |line| && x == row.w then Encodes(ops, line, row.even, true, row.w) && RowWritten(s, base, row, ops)
            else Unencodable(line, row.even, true, row.w)
  {
    hide OpsBytes, Span, RowWritten, Unencodable, Encodes;
    ReadEnd(line, ops, row.even, row.w);
  }

  lemma PairAtSlice(src: seq<byte>, start: nat, len: nat, pos: nat, even: bool)
    requires start <= pos && 1 <= len && start + len <= |src| && pos + (if even then 4 else 2) < start + len
    ensures PairAt(src[start..start + len - 1], pos - start, even) == PairAt(src, pos, even)
  {
  }

  /** Copies one pair to the cursors. */
  method CopyPair(src: seq<byte>, pos: nat, dest: array<byte>, row: Row, d: nat, u: nat, v: nat, ghost x: nat)
    requires pos + (if row.even then 4 else 2) <= |src| && row.Fits(dest.Length) && x + 2 <= row.w && x % 2 == 0
    requires d == row.d + x && (row.even ==> u == row.u + x / 2 && v == row.v + x / 2)
    modifies dest
    ensures dest[..] == Store(old(dest[..]), row, x, PairAt(src, pos, row.even))
    ensures forall k | 0 <= k < dest.Length && !row.Covers(k) :: dest[k] == old(dest[k])
  {
    if row.even {
      dest[d] := src[pos];
      dest[u] := src[pos + 1];
      dest[d + 1] := src[pos + 2];
      dest[v] := src[pos + 3];
    } else {
      dest[d] := src[pos];
      dest[d + 1] := src[pos + 1];
    }
  }

  /** What reading one line promises: it renders the only operations the line can hold, or there are none. */
  ghost predicate LineDone(outcome: Outcome, line: seq<byte>, compressed: bool, row: Row, ops: seq<Op>,
                           base: seq<byte>, s: seq<byte>, cursors: (nat, nat, nat))
    requires |s| == |base| && row.Fits(|base|)
  {
    && (forall k | 0 <= k < |s| && !row.Covers(k) :: s[k] == base[k])
    && if outcome == Ok then
         && Encodes(ops, line, row.even, compressed, row.w)
         && RowWritten(s, base, row, ops)
         && cursors == row.Next()
       else Unencodable(line, row.even, compressed, row.w)
  }

  /** The variables of the loop; once the line is overrun, `ll` has gone past zero and nothing can be encoded. */
  datatype Cursor = Cursor(pos: nat, ll: nat, x: nat, d: nat, u: nat, v: nat)

  ghost predicate LoopInv(src: seq<byte>, start: nat, len: nat, row: Row, base: seq<byte>, s: seq<byte>,
                          c: Cursor, ops: seq<Op>)
    requires 1 <= len && start + len <= |src| && |s| == |base| && row.Fits(|base|)
  {
    var end, line := start + len, src[start..start + len - 1];
    && start <= c.pos <= |src| && c.x % 2 == 0
    && c.ll == (if c.pos <= end then end - c.pos else end - c.pos + U32)
    && c.d == row.d + c.x
    && (if row.even then c.u == row.u + c.x / 2 && c.v == row.v + c.x / 2 else c.u == row.u && c.v == row.v)
    && (if c.pos < end then Inside(line, s, base, row, ops, c.x, c.pos - start)
        else Unencodable(line, row.even, true, row.w))
    && (forall k | 0 <= k < |s| && !row.Covers(k) :: s[k] == base[k])
  }

  /** The cursors behind a skip. */
  function AfterSkip(row: Row, c: Cursor, skip: nat): Cursor
    requires c.ll > 0
  {
    Cursor(c.pos + 1, c.ll - 1, c.x + skip, c.d + skip,
           if row.even then c.u + skip / 2 else c.u, if row.even then c.v + skip / 2 else c.v)
  }

  /** The cursors behind a pair; the 32-bit counter may wrap. */
  function AfterPair(row: Row, c: Cursor): Cursor {
    var n := if row.even then 4 else 2;
    Cursor(c.pos + n, (c.ll + (U32 - n)) % U32, c.x + 2, c.d + 2,
           if row.even then c.u + 1 else c.u, if row.even then c.v + 1 else c.v)
  }

  /**
    How a line ends, from the cursors alone: it is read past the end of the buffer exactly if, with
    columns left and the counter above one, the next operation is a pair that does not fit any more.
  */
  function Walk(src: seq<byte>, row: Row, c: Cursor): Outcome
    requires c.pos <= |src|
    decreases |src| - c.pos
  {
    if c.x >= row.w || c.ll <= 1 then (if c.ll == 1 && c.x == row.w then Ok else Error)
    else if c.pos < |src| && src[c.pos] % 2 == 1 then
      (if src[c.pos] / 2 % 2 == 1 then Error else Walk(src, row, AfterSkip(row, c, src[c.pos] / 2)))
    else if c.pos + (if row.even then 4 else 2) > |src| then OverRead
    else Walk(src, row, AfterPair(row, c))
  }

  lemma SkipKeeps(src: seq<byte>, start: nat, len: nat, row: Row, base: seq<byte>, s: seq<byte>, c: Cursor,
                  ops: seq<Op>)
    requires 1 <= len && start + len <= |src| < U32 && |s| == |base| && row.Fits(|base|)
    requires LoopInv(src, start, len, row, base, s, c, ops) && c.x < row.w && c.ll > 1
    requires c.pos < |src| && src[c.pos] % 2 == 1
    ensures var skip := src[c.pos] / 2;
      if skip % 2 == 0 then LoopInv(src, start, len, row, base, s, AfterSkip(row, c, skip), ops + [Skip(skip)])
      else LineDone(Error, src[start..start + len - 1], true, row, ops, base, s, (c.d, c.u, c.v))
  {
    hide Encodes, Unencodable, Inside, RowWritten, Row.Covers, Row.Fits;
    if c.pos < start + len {
      SkipStep(src[start..start + len - 1], s, base, row, ops, c.x, c.pos - start);
    }
  }

  lemma PairKeeps(src: seq<byte>, start: nat, len: nat, row: Row, base: seq<byte>, s: seq<byte>, c: Cursor,
                  ops: seq<Op>)
    requires 1 <= len && start + len <= |src| < U32 && |s| == |base| && row.Fits(|base|)
    requires LoopInv(src, start, len, row, base, s, c, ops) && c.x < row.w && c.ll > 1
    requires c.pos < |src| ==> src[c.pos] % 2 == 0
    ensures c.x + 2 <= row.w && c.x % 2 == 0 && c.d == row.d + c.x
    ensures row.even ==> c.u == row.u + c.x / 2 && c.v == row.v + c.x / 2
    ensures var n := if row.even then 4 else 2;
      if c.pos + n > |src| then LineDone(OverRead, src[start..start + len - 1], true, row, ops, base, s,
                                         (c.d, c.u, c.v))
      else
        var op := PairAt(src, c.pos, row.even);
        var t := Store(s, row, c.x, op);
        (forall k | 0 <= k < |t| && !row.Covers(k) :: t[k] == s[k]) ==>
          LoopInv(src, start, len, row, base, t, AfterPair(row, c), ops + [op])
  {
    hide Encodes, Unencodable, Inside, RowWritten, Row.Covers, PairAt, Store;
    if c.pos < start + len {
      PairStep(src[start..start + len - 1], s, base, row, ops, c.x, c.pos - start);
      if c.pos + (if row.even then 4 else 2) < start + len {
        PairAtSlice(src, start, len, c.pos, row.even);
      }
    }
  }

  lemma InvBounds(src: seq<byte>, start: nat, len: nat, row: Row, base: seq<byte>, s: seq<byte>, c: Cursor,
                  ops: seq<Op>)
    requires 1 <= len && start + len <= |src| && |s| == |base| && row.Fits(|base|)
    requires LoopInv(src, start, len, row, base, s, c, ops)
    ensures c.pos <= |src|
  {
  }

  /** One turn of the loop. */
  method ReadOp(src: seq<byte>, start: nat, len: nat, dest: array<byte>, row: Row, c: Cursor,
                ghost base: seq<byte>, ghost ops: seq<Op>)
    returns (outcome: Outcome, c': Cursor, ghost ops': seq<Op>)
    requires 1 <= len && start + len <= |src| < U32 && dest.Length == |base| && row.Fits(|base|)
    requires LoopInv(src, start, len, row, base, dest[..], c, ops) && c.x < row.w && c.ll > 1
    modifies dest
    ensures outcome == Ok ==> LoopInv(src, start, len, row, base, dest[..], c', ops') && c.pos < c'.pos
    ensures outcome != Ok ==>
      LineDone(outcome, src[start..start + len - 1], true, row, ops', base, dest[..], (c'.d, c'.u, c'.v))
    ensures c.pos <= |src| && (outcome == Ok ==> c'.pos <= |src|)
    ensures Walk(src, row, c) == if outcome == Ok then Walk(src, row, c') else outcome
    ensures outcome == OverRead <==>
      (c.pos < |src| ==> src[c.pos] % 2 == 0) && c.pos + (if row.even then 4 else 2) > |src|
  {
    InvBounds(src, start, len, row, base, dest[..], c, ops);
    hide LoopInv, LineDone, PairAt, Store, Row.Covers, Row.Fits;
    outcome, c', ops' := Ok, c, ops;
    if c.pos < |src| && src[c.pos] % 2 == 1 {
      var skip := src[c.pos] / 2;
      SkipKeeps(src, start, len, row, base, dest[..], c, ops);
      if skip % 2 == 1 {
        outcome := Error;
      } else {
        c', ops' := AfterSkip(row, c, skip), ops + [Skip(skip)];
      }
    } else {
      PairKeeps(src, start, len, row, base, dest[..], c, ops);
      if c.pos + (if row.even then 4 else 2) > |src| {
        outcome := OverRead;
      } else {
        CopyPair(src, c.pos, dest, row, c.d, c.u, c.v, c.x);
        c', ops' := AfterPair(row, c), ops + [PairAt(src, c.pos, row.even)];
      }
    }
  }

  /** Reads one compressed line whose length field and end mark have been checked. */
  method CompressedLine(src: seq<byte>, start: nat, len: nat, dest: array<byte>, row: Row)
    returns (outcome: Outcome, c: Cursor, ghost ops: seq<Op>)
    requires 1 <= len && start + len <= |src| < U32 && len < 0x1_0000 && row.Fits(dest.Length)
    modifies dest
    ensures LineDone(outcome, src[start..start + len - 1], true, row, ops, old(dest[..]), dest[..], (c.d, c.u, c.v))
    ensures outcome == Ok ==> c.pos == start + len
    ensures outcome == Walk(src, row, Cursor(start, len, 0, row.d, row.u, row.v))
  {
    hide Encodes, Unencodable, Inside, RowWritten;
    ghost var base := dest[..];
    ghost var line := src[start..start + len - 1];
    ops := [];
    LineStart(line, base, row);
    c := Cursor(start, len, 0, row.d, row.u, row.v);
    while c.x < row.w && c.ll > 1
      invariant LoopInv(src, start, len, row, base, dest[..], c, ops)
      invariant Walk(src, row, c) == Walk(src, row, Cursor(start, len, 0, row.d, row.u, row.v))
      decreases |src| - c.pos
    {
      outcome, c, ops := ReadOp(src, start, len, dest, row, c, base, ops);
      if outcome != Ok {
        return;
      }
    }
    if c.pos < start + len {
      EndStep(line, dest[..], base, row, ops, c.x, c.pos - start);
    }
    if c.ll != 1 || c.x != row.w {
      outcome := Error;
    } else {
      c := c.(pos := c.pos + 1);
      outcome := Ok;
    }
  }

  lemma LineStart(line: seq<byte>, base: seq<byte>, row: Row)
    requires row.Fits(|base|)
    ensures Inside(line, base, base, row, [], 0, 0)
  {
  }

  // ----- Uncompressed lines -----

  lemma {:induction false} RawLength(ops: seq<Op>, even: bool)
    requires forall op | op in ops :: op.Ok(even, false)
    ensures |OpsBytes(ops)| == if even then 2 * Span(ops) else Span(ops)
  {
    if ops != [] {
      assert Last(ops) in ops;
      RawLength(Init(ops), even);
    }
  }

  /** All columns done so far are coded, and no other operation list holds the bytes. */
  ghost predicate RawInside(line: seq<byte>, s: seq<byte>, base: seq<byte>, row: Row, ops: seq<Op>, x: nat) {
    && |s| == |base| && row.Fits(|base|)
    && (forall op | op in ops :: op.Ok(row.even, false))
    && Span(ops) == x && (forall k | 0 <= k < |ops| :: Span(ops[..k]) < row.w)
    && OpsBytes(ops) <= line
    && RowWritten(s, base, row, ops)
  }

  lemma RawStep(line: seq<byte>, s: seq<byte>, base: seq<byte>, row: Row, ops: seq<Op>, x: nat)
    requires RawInside(line, s, base, row, ops, x) && x < row.w && x % 2 == 0
    requires |line| == if row.even then 2 * row.w else row.w
    ensures var c := if row.even then 2 * x else x;
      && c + (if row.even then 4 else 2) <= |line| && x + 2 <= row.w
      && var op := PairAt(line, c, row.even);
         RawInside(line, Store(s, row, x, op), base, row, ops + [op], x + 2)
  {
    hide Luma, Chroma, RowWritten, Store, Span, OpsBytes;
    RawLength(ops, row.even);
    var c, n := |OpsBytes(ops)|, if row.even then 4 else 2;
    var op := PairAt(line, c, row.even);
    WriteOp(s, base, row, ops, op, false);
    SpanSnoc(ops, op);
    assert line[..c] + line[c..c + n] == line[..c + n] && op.Bytes() == line[c..c + n];
    forall k | 0 <= k < |ops + [op]|
      ensures Span((ops + [op])[..k]) < row.w
    {
      assert (ops + [op])[..k] == if k < |ops| then ops[..k] else ops;
    }
  }

  lemma RawStart(line: seq<byte>, base: seq<byte>, row: Row)
    requires row.Fits(|base|)
    ensures RawInside(line, base, base, row, [], 0)
  {
  }

  lemma RawEnd(line: seq<byte>, s: seq<byte>, base: seq<byte>, row: Row, ops: seq<Op>)
    requires RawInside(line, s, base, row, ops, row.w)
    requires |line| == if row.even then 2 * row.w else row.w
    ensures LineDone(Ok, line, false, row, ops, base, s, row.Next())
  {
    hide Luma, Chroma, Span, OpsBytes, Op.Ok;
    RawLength(ops, row.even);
  }

  lemma RawUnencodable(line: seq<byte>, even: bool, w: nat)
    requires |line| != if even then 2 * w else w
    ensures Unencodable(line, even, false, w)
  {
    forall full: seq<Op>
      ensures !Encodes(full, line, even, false, w)
    {
      if Encodes(full, line, even, false, w) {
        RawLength(full, even);
      }
    }
  }

  method RawLine(src: seq<byte>, start: nat, len: nat, dest: array<byte>, row: Row)
    returns (outcome: Outcome, c: Cursor, ghost ops: seq<Op>)
    requires 1 <= len && start + len <= |src| && row.Fits(dest.Length)
    modifies dest
    ensures LineDone(outcome, src[start..start + len - 1], false, row, ops, old(dest[..]), dest[..], (c.d, c.u, c.v))
    ensures outcome != OverRead
    ensures outcome == Ok ==> c.pos == start + len
  {
    hide Encodes, Unencodable, RawInside, RowWritten, PairAt, Store;
    ghost var base := dest[..];
    ghost var line := src[start..start + len - 1];
    ops := [];
    c := Cursor(start, len, 0, row.d, row.u, row.v);
    if len != (if row.even then 2 * row.w + 1 else row.w + 1) {
      RawUnencodable(line, row.even, row.w);
      outcome := Error;
      return;
    }
    RawStart(line, base, row);
    var x: nat := 0;
    while x < row.w
      invariant x <= row.w && x % 2 == 0 && RawInside(line, dest[..], base, row, ops, x)
      invariant c.pos == start + (if row.even then 2 * x else x) && c.d == row.d + x
      invariant if row.even then c.u == row.u + x / 2 && c.v == row.v + x / 2 else c.u == row.u && c.v == row.v
      invariant forall k | 0 <= k < dest.Length && !row.Covers(k) :: dest[k] == base[k]
    {
      var n := if row.even then 4 else 2;
      RawStep(line, dest[..], base, row, ops, x);
      PairAtSlice(src, start, len, c.pos, row.even);
      CopyPair(src, c.pos, dest, row, c.d, c.u, c.v, x);
      ops := ops + [PairAt(src, c.pos, row.even)];
      c := Cursor(c.pos + n, len, 0, c.d + 2, if row.even then c.u + 1 else c.u, if row.even then c.v + 1 else c.v);
      x := x + 2;
    }
    RawEnd(line, dest[..], base, row, ops);
    c := c.(pos := c.pos + 1);
    outcome := Ok;
  }

  // ----- Whole frames -----

  /** A line in the stream: its length, the operations, and the end mark. */
  function LineBytes(ops: seq<Op>): seq<byte> {
    var n := |OpsBytes(ops)| + 1;
    [n % 0x100, n / 0x100 % 0x100] + OpsBytes(ops) + [EOL]
  }

  function FrameBytes(lines: seq<seq<Op>>): seq<byte> {
    if lines == [] then [] else FrameBytes(Init(lines)) + LineBytes(Last(lines))
  }

  predicate HeaderOk(src: seq<byte>, w: nat, h: nat) {
    && w <= 352 && h <= 288 && |src| >= HEADER_SIZE
    && src[0] == 0x19 && src[1] == 0x68
    && src[17] == 0 && src[18] == 0
    && (src[25] as int - src[24] as int) * 8 == w
    && (src[27] as int - src[26] as int) * 4 == h
    && (src[28] == 0 || src[28] == 1) && src[29] == 0
  }

  ghost predicate LinesOk(lines: seq<seq<Op>>, compressed: bool, w: nat) {
    forall y | 0 <= y < |lines| :: LineOk(lines[y], y % 2 == 0, compressed, w) && |OpsBytes(lines[y])| + 1 < 0x1_0000
  }

  /** A well-formed frame: header, one line per row, and a tail that ends in four end-of-image bytes. */
  ghost predicate Parses(src: seq<byte>, w: nat, h: nat, lines: seq<seq<Op>>) {
    && HeaderOk(src, w, h)
    && |lines| == h && LinesOk(lines, src[28] == 1, w)
    && FrameBytes(lines) <= src[HEADER_SIZE..]
    && |src| >= HEADER_SIZE + |FrameBytes(lines)| + 4
    && src[|src| - 4..] == [EOI, EOI, EOI, EOI]
  }

  /** The lines read so far are the first lines of every way to parse the frame. */
  ghost predicate FrameReading(src: seq<byte>, w: nat, h: nat, lines: seq<seq<Op>>, pos: nat) {
    && HeaderOk(src, w, h) && |lines| <= h && LinesOk(lines, src[28] == 1, w)
    && HEADER_SIZE <= pos <= |src| && FrameBytes(lines) == src[HEADER_SIZE..pos]
    && (forall full | Parses(src, w, h, full) :: lines <= full)
  }

  lemma {:induction false} FramePrefix(lines: seq<seq<Op>>, k: nat)
    requires k <= |lines|
    ensures FrameBytes(lines[..k]) <= FrameBytes(lines)
  {
    if k < |lines| {
      FramePrefix(Init(lines), k);
      assert Init(lines)[..k] == lines[..k];
    } else {
      assert lines[..k] == lines;
    }
  }

  /** A frame that parses has its next line at the read position, with the right length and end mark. */
  lemma NextLine(src: seq<byte>, w: nat, h: nat, lines: seq<seq<Op>>, pos: nat, full: seq<seq<Op>>)
    requires FrameReading(src, w, h, lines, pos) && |lines| < h && Parses(src, w, h, full)
    ensures |lines| < |full| && |src| >= pos + 2
    ensures var ll := src[pos] + 0x100 * (src[pos + 1] as int);
      && 1 <= ll && pos + 2 + ll <= |src| && src[pos + 1 + ll] == EOL
      && Encodes(full[|lines|], src[pos + 2..pos + 1 + ll], |lines| % 2 == 0, src[28] == 1, w)
      && LineBytes(full[|lines|]) == src[pos..pos + 2 + ll]
  {
    hide HeaderOk, OpsBytes, LineOk, LineBytes, FrameBytes;
    var y := |lines|;
    var b := LineBytes(full[y]);
    FrameStep(full, y);
    assert full[..y] == lines;
    LineAt(src, pos, b, FrameBytes(lines));
    LineFields(full[y]);
    var n := |OpsBytes(full[y])|;
    assert src[pos + 2..pos + 2 + n] == b[2..2 + n];
  }

  lemma FrameStep(full: seq<seq<Op>>, y: nat)
    requires y < |full|
    ensures FrameBytes(full[..y]) + LineBytes(full[y]) == FrameBytes(full[..y + 1])
    ensures FrameBytes(full[..y + 1]) <= FrameBytes(full)
  {
    hide LineBytes, FrameBytes;
    FramePrefix(full, y + 1);
    TakeSnoc(full, y);
    FrameSnoc(full[..y], full[y]);
  }

  lemma FrameSnoc(lines: seq<seq<Op>>, ops: seq<Op>)
    ensures FrameBytes(lines + [ops]) == FrameBytes(lines) + LineBytes(ops)
  {
    hide LineBytes;
    assert Init(lines + [ops]) == lines && Last(lines + [ops]) == ops;
  }

  lemma LineFields(ops: seq<Op>)
    requires |OpsBytes(ops)| + 1 < 0x1_0000
    ensures var b, n := LineBytes(ops), |OpsBytes(ops)|;
      |b| == n + 3 && b[0] + 0x100 * (b[1] as int) == n + 1 && b[n + 2] == EOL == 0xFD && b[2..2 + n] == OpsBytes(ops)
  {
    hide OpsBytes;
  }

  lemma LineAt(src: seq<byte>, pos: nat, b: seq<byte>, before: seq<byte>)
    requires HEADER_SIZE <= pos <= |src| && before == src[HEADER_SIZE..pos] && before + b <= src[HEADER_SIZE..]
    ensures pos + |b| <= |src| && src[pos..pos + |b|] == b
    ensures forall i | 0 <= i < |b| :: src[pos + i] == b[i]
  {
    assert forall i | 0 <= i < |b| :: (before + b)[|before| + i] == b[i];
  }

  /** One more line has been read. */
  lemma LineRead(src: seq<byte>, w: nat, h: nat, lines: seq<seq<Op>>, pos: nat, ll: nat, ops: seq<Op>)
    requires FrameReading(src, w, h, lines, pos) && |lines| < h && pos + 2 + ll <= |src| && ll >= 1
    requires ll == src[pos] + 0x100 * (src[pos + 1] as int) && src[pos + 1 + ll] == EOL
    requires Encodes(ops, src[pos + 2..pos + 1 + ll], |lines| % 2 == 0, src[28] == 1, w)
    ensures FrameReading(src, w, h, lines + [ops], pos + 2 + ll)
  {
    hide HeaderOk, OpsBytes, LineOk, Parses, FrameBytes;
    assert LineBytes(ops) == src[pos..pos + 2 + ll] by {
      assert ll % 0x100 == src[pos] && ll / 0x100 % 0x100 == src[pos + 1];
      assert src[pos..pos + 2 + ll] == [src[pos], src[pos + 1]] + src[pos + 2..pos + 1 + ll] + [src[pos + 1 + ll]];
    }
    FrameSnoc(lines, ops);
    assert src[HEADER_SIZE..pos] + src[pos..pos + 2 + ll] == src[HEADER_SIZE..pos + 2 + ll];
    forall full | Parses(src, w, h, full)
      ensures lines + [ops] <= full
    {
      NextLine(src, w, h, lines, pos, full);
      LineIsUnique(ops, full[|lines|], src[pos + 2..pos + 1 + ll], |lines| % 2 == 0, src[28] == 1, w, 0);
    }
  }

  ghost predicate NoParse(src: seq<byte>, w: nat, h: nat) {
    forall full :: !Parses(src, w, h, full)
  }

  /** The checks on a line refuse no frame that parses. */
  lemma LineRefused(src: seq<byte>, w: nat, h: nat, lines: seq<seq<Op>>, pos: nat)
    requires FrameReading(src, w, h, lines, pos) && |lines| < h
    requires |src| < pos + 2 ||
      var ll := src[pos] + 0x100 * (src[pos + 1] as int);
      || ll == 0 || |src| < pos + 2 + ll || src[pos + 1 + ll] != EOL
      || Unencodable(src[pos + 2..pos + 1 + ll], |lines| % 2 == 0, src[28] == 1, w)
    ensures NoParse(src, w, h)
  {
    hide HeaderOk, Encodes, Parses, FrameReading;
    forall full: seq<seq<Op>>
      ensures !Parses(src, w, h, full)
    {
      if Parses(src, w, h, full) {
        NextLine(src, w, h, lines, pos, full);
      }
    }
  }

  predicate EndsWithEoi(src: seq<byte>, pos: nat)
    requires pos <= |src|
  {
    |src| - pos >= 4 && src[|src| - 4] == EOI && src[|src| - 3] == EOI && src[|src| - 2] == EOI && src[|src| - 1] == EOI
  }

  lemma FrameEnd(src: seq<byte>, w: nat, h: nat, lines: seq<seq<Op>>, pos: nat)
    requires FrameReading(src, w, h, lines, pos) && |lines| == h
    ensures if EndsWithEoi(src, pos) then Parses(src, w, h, lines)
      && (forall full | Parses(src, w, h, full) :: full == lines)
            else NoParse(src, w, h)
  {
    hide HeaderOk, OpsBytes, LineOk;
    forall full: seq<seq<Op>> | Parses(src, w, h, full)
      ensures full == lines && EndsWithEoi(src, pos)
    {
      assert src[|src| - 4..][0] == EOI && src[|src| - 4..][1] == EOI && src[|src| - 4..][2] == EOI
        && src[|src| - 4..][3] == EOI;
    }
  }

  /** A header, lines and a tail make a frame exactly if the header asks for this size and the tail ends the image. */
  lemma FrameAccepted(head: seq<byte>, lines: seq<seq<Op>>, tail: seq<byte>, w: nat, h: nat)
    requires |head| == 64
    ensures Parses(head + FrameBytes(lines) + tail, w, h, lines) <==>
      && head[0] == 0x19 && head[1] == 0x68 && head[17] == 0 && head[18] == 0 && head[28] <= 1 && head[29] == 0
      && 8 * (head[25] as int - head[24] as int) == w <= 352 && 4 * (head[27] as int - head[26] as int) == h <= 288
      && |lines| == h && LinesOk(lines, head[28] == 1, w)
      && |tail| >= 4 && tail[|tail| - 4..] == [0xFF, 0xFF, 0xFF, 0xFF]
  {
    hide FrameBytes, LinesOk;
    var src := head + FrameBytes(lines) + tail;
    assert src[64..] == FrameBytes(lines) + tail;
    if |tail| >= 4 {
      assert src[|src| - 4..] == tail[|tail| - 4..];
    }
  }

  // ----- What a frame renders -----

  /** The planes of a 4:2:0 image of `2 * c` by `2 * r` pixels, the chroma planes in either order. */
  datatype Layout = Layout(c: nat, r: nat, u: nat, v: nat) {
    ghost predicate Valid() {
      (u == 4 * (r * c) && v == u + r * c) || (v == 4 * (r * c) && u == v + r * c)
    }

    function Width(): nat { 2 * c }

    function Height(): nat { 2 * r }

    function Size(): nat {
      MulMonotone(r, 0, c);
      6 * (r * c)
    }

    function LumaAt(y: nat, x: nat): int { 2 * (y * c) + x }

    function ChromaAt(j: nat, i: nat): int { j * c + i }

    /** The cursors at the start of row `y`: chroma has moved once for each even row before. */
    function RowAt(y: nat): Row
      requires y < Height()
    {
      MulMonotone(c, 0, y);
      MulMonotone(c, 0, (y + 1) / 2);
      Row(LumaAt(y, 0), u + ChromaAt((y + 1) / 2, 0), v + ChromaAt((y + 1) / 2, 0), y % 2 == 0, Width())
    }
  }

  function At(s: seq<byte>, k: int): byte {
    if 0 <= k < |s| then s[k] else 0
  }

  function CodedLuma(lines: seq<seq<Op>>, y: nat, x: nat): Option<byte> {
    if y < |lines| then Luma(lines[y], x) else None
  }

  function CodedChroma(lines: seq<seq<Op>>, j: nat, i: nat, blue: bool): Option<byte> {
    if 2 * j < |lines| then Chroma(lines[2 * j], i, blue) else None
  }

  /** `s` overlays what the lines code on `base`: three planes, pixel by pixel. */
  ghost predicate Overlay(s: seq<byte>, base: seq<byte>, lines: seq<seq<Op>>, p: Layout) {
    && |s| == |base| >= p.Size()
    && (forall y, x | 0 <= y < p.Height() && 0 <= x < p.Width() ::
          At(s, p.LumaAt(y, x)) == CodedLuma(lines, y, x).Or(At(base, p.LumaAt(y, x))))
    && (forall j, i | 0 <= j < p.r && 0 <= i < p.c ::
          && At(s, p.u + p.ChromaAt(j, i)) == CodedChroma(lines, j, i, true).Or(At(base, p.u + p.ChromaAt(j, i)))
          && At(s, p.v + p.ChromaAt(j, i)) == CodedChroma(lines, j, i, false).Or(At(base, p.v + p.ChromaAt(j, i))))
  }

  /** Cells of a plane lie in it, and those of different rows lie apart. */
  lemma Cell(c: nat, r: nat, y: nat, z: nat)
    requires y < r && z < r
    ensures 0 <= y * c && y * c + c <= r * c && 0 <= z * c && z * c + c <= r * c
    ensures y < z ==> y * c + c <= z * c
    ensures y > z ==> z * c + c <= y * c
  {
    MulMonotone(c, 0, y);
    MulMonotone(c, 0, z);
    MulMonotone(c, y + 1, r);
    MulMonotone(c, z + 1, r);
    if y < z {
      MulMonotone(c, y + 1, z);
    } else if y > z {
      MulMonotone(c, z + 1, y);
    }
  }

  lemma LumaCells(p: Layout, y: nat, z: nat)
    requires y < p.Height() && z < p.Height()
    ensures 0 <= p.LumaAt(y, 0) && p.LumaAt(y, 0) + 2 * p.c <= 4 * (p.r * p.c)
    ensures y < z ==> p.LumaAt(y, 0) + 2 * p.c <= p.LumaAt(z, 0)
    ensures y > z ==> p.LumaAt(z, 0) + 2 * p.c <= p.LumaAt(y, 0)
    ensures forall x :: p.LumaAt(y, x) == p.LumaAt(y, 0) + x
  {
    Cell(p.c, p.Height(), y, z);
    assert p.Height() * p.c == 2 * (p.r * p.c);
  }

  lemma ChromaCells(p: Layout, y: nat, z: nat)
    requires y < p.r && z < p.r
    ensures 0 <= p.ChromaAt(y, 0) && p.ChromaAt(y, 0) + p.c <= p.r * p.c
    ensures y < z ==> p.ChromaAt(y, 0) + p.c <= p.ChromaAt(z, 0)
    ensures y > z ==> p.ChromaAt(z, 0) + p.c <= p.ChromaAt(y, 0)
    ensures forall i :: p.ChromaAt(y, i) == p.ChromaAt(y, 0) + i
  {
    Cell(p.c, p.r, y, z);
  }

  lemma RowFits(p: Layout, y: nat, length: nat)
    requires p.Valid() && y < p.Height() && length >= p.Size()
    ensures p.RowAt(y).Fits(length)
  {
    hide Layout.LumaAt, Layout.ChromaAt;
    LumaCells(p, y, y);
    if y % 2 == 0 {
      ChromaCells(p, (y + 1) / 2, (y + 1) / 2);
    }
  }

  /** A luma cell is covered by its own row only. */
  lemma LumaCovered(p: Layout, y: nat, z: nat, x: nat)
    requires p.Valid() && y < p.Height() && z < p.Height() && x < p.Width()
    ensures p.RowAt(z).Covers(p.LumaAt(y, x)) <==> y == z
    ensures 0 <= p.LumaAt(y, x) < p.Size() && p.LumaAt(y, x) == p.LumaAt(y, 0) + x
  {
    hide Layout.LumaAt, Layout.ChromaAt, Layout.Size;
    LumaCells(p, y, z);
    SizeIs(p);
    var row, l := p.RowAt(z), p.LumaAt(y, x);
    assert row.d <= l < row.d + row.w <==> y == z;
    if z % 2 == 0 {
      ChromaCells(p, (z + 1) / 2, (z + 1) / 2);
      assert row.u > l && row.v > l;
    }
  }

  /** A chroma cell is covered by the even row it belongs to only. */
  lemma ChromaCovered(p: Layout, j: nat, i: nat, z: nat)
    requires p.Valid() && j < p.r && i < p.c && z < p.Height()
    ensures p.RowAt(z).Covers(p.u + p.ChromaAt(j, i)) <==> z == 2 * j
    ensures p.RowAt(z).Covers(p.v + p.ChromaAt(j, i)) <==> z == 2 * j
    ensures 0 <= p.ChromaAt(j, i) && p.u + p.ChromaAt(j, i) < p.Size() && p.v + p.ChromaAt(j, i) < p.Size()
    ensures p.ChromaAt(j, i) == p.ChromaAt(j, 0) + i
  {
    hide Layout.LumaAt, Layout.ChromaAt, Layout.Size;
    LumaCells(p, z, z);
    SizeIs(p);
    ChromaCells(p, j, j);
    var row, k := p.RowAt(z), p.ChromaAt(j, i);
    assert row.d + row.w <= p.u + k && row.d + row.w <= p.v + k;
    if z % 2 == 0 {
      var h := (z + 1) / 2;
      ChromaCells(p, j, h);
      ChromaCells(p, h, j);
      assert p.ChromaAt(h, 0) <= k < p.ChromaAt(h, 0) + p.c <==> h == j;
    }
  }

  /** One more line rendered: a luma cell. */
  lemma OverlayLuma(s: seq<byte>, t: seq<byte>, base: seq<byte>, lines: seq<seq<Op>>, ops: seq<Op>, p: Layout, y: nat,
                    x: nat)
    requires p.Valid() && |lines| < p.Height() && |t| == |s| == |base| >= p.Size() && p.RowAt(|lines|).Fits(|s|)
    requires RowWritten(t, s, p.RowAt(|lines|), ops) && y < p.Height() && x < p.Width()
    requires At(s, p.LumaAt(y, x)) == CodedLuma(lines, y, x).Or(At(base, p.LumaAt(y, x)))
    ensures At(t, p.LumaAt(y, x)) == CodedLuma(lines + [ops], y, x).Or(At(base, p.LumaAt(y, x)))
  {
    hide Luma, Chroma, Row.Covers, Layout.LumaAt, Layout.ChromaAt;
    LumaCovered(p, y, |lines|, x);
    if y == |lines| {
      var row := p.RowAt(y);
      assert t[row.d + x] == Luma(ops, x).Or(s[row.d + x]);
    }
  }

  lemma OverlayChroma(s: seq<byte>, t: seq<byte>, base: seq<byte>, lines: seq<seq<Op>>, ops: seq<Op>, p: Layout, j: nat,
                      i: nat)
    requires p.Valid() && |lines| < p.Height() && |t| == |s| == |base| >= p.Size() && p.RowAt(|lines|).Fits(|s|)
    requires RowWritten(t, s, p.RowAt(|lines|), ops) && j < p.r && i < p.c
    requires At(s, p.u + p.ChromaAt(j, i)) == CodedChroma(lines, j, i, true).Or(At(base, p.u + p.ChromaAt(j, i)))
    requires At(s, p.v + p.ChromaAt(j, i)) == CodedChroma(lines, j, i, false).Or(At(base, p.v + p.ChromaAt(j, i)))
    ensures At(t, p.u + p.ChromaAt(j, i)) == CodedChroma(lines + [ops], j, i, true).Or(At(base, p.u + p.ChromaAt(j, i)))
    ensures At(t, p.v + p.ChromaAt(j, i)) ==
      CodedChroma(lines + [ops], j, i, false).Or(At(base, p.v + p.ChromaAt(j, i)))
  {
    hide Luma, Chroma, Row.Covers, Row.Fits, Layout.LumaAt, Layout.ChromaAt, Layout.Size, Layout.RowAt, RowWritten;
    var row, k := p.RowAt(|lines|), p.ChromaAt(j, i);
    ChromaCovered(p, j, i, |lines|);
    if |lines| == 2 * j {
      EvenRow(p, j, i);
      ChromaWritten(s, t, row, ops, i);
    } else {
      NotWritten(s, t, row, ops, p.u + k);
      NotWritten(s, t, row, ops, p.v + k);
    }
  }

  lemma EvenRow(p: Layout, j: nat, i: nat)
    requires j < p.r && i < p.c
    ensures var row := p.RowAt(2 * j);
      row.even && row.w == 2 * p.c && row.u + i == p.u + p.ChromaAt(j, i) && row.v + i == p.v + p.ChromaAt(j, i)
  {
    assert (2 * j + 1) / 2 == j;
  }

  lemma ChromaWritten(s: seq<byte>, t: seq<byte>, row: Row, ops: seq<Op>, i: nat)
    requires |t| == |s| && row.Fits(|s|) && RowWritten(t, s, row, ops) && row.even && i < row.w / 2
    ensures At(t, row.u + i) == Chroma(ops, i, true).Or(At(s, row.u + i))
    ensures At(t, row.v + i) == Chroma(ops, i, false).Or(At(s, row.v + i))
  {
    hide Chroma, Row.Covers;
    assert t[row.u + i] == Chroma(ops, i, true).Or(s[row.u + i]);
    assert t[row.v + i] == Chroma(ops, i, false).Or(s[row.v + i]);
  }

  lemma NotWritten(s: seq<byte>, t: seq<byte>, row: Row, ops: seq<Op>, k: int)
    requires |t| == |s| && row.Fits(|s|) && RowWritten(t, s, row, ops) && !row.Covers(k)
    ensures At(t, k) == At(s, k)
  {
    hide Row.Covers, Chroma, Luma;
  }

  /** One more line rendered. */
  lemma OverlayLine(s: seq<byte>, t: seq<byte>, base: seq<byte>, lines: seq<seq<Op>>, ops: seq<Op>, p: Layout)
    requires p.Valid() && |lines| < p.Height() && |t| == |s| && Overlay(s, base, lines, p)
    requires p.RowAt(|lines|).Fits(|s|) && RowWritten(t, s, p.RowAt(|lines|), ops)
    ensures Overlay(t, base, lines + [ops], p)
  {
    hide CodedLuma, CodedChroma, Row.Fits, Layout.LumaAt, Layout.ChromaAt, RowWritten, At, Layout.Size, Layout.RowAt;
    forall y, x | 0 <= y < p.Height() && 0 <= x < p.Width()
      ensures At(t, p.LumaAt(y, x)) == CodedLuma(lines + [ops], y, x).Or(At(base, p.LumaAt(y, x)))
    {
      OverlayLuma(s, t, base, lines, ops, p, y, x);
    }
    forall j, i | 0 <= j < p.r && 0 <= i < p.c
      ensures At(t, p.u + p.ChromaAt(j, i)) ==
        CodedChroma(lines + [ops], j, i, true).Or(At(base, p.u + p.ChromaAt(j, i)))
      ensures At(t, p.v + p.ChromaAt(j, i)) ==
        CodedChroma(lines + [ops], j, i, false).Or(At(base, p.v + p.ChromaAt(j, i)))
    {
      OverlayChroma(s, t, base, lines, ops, p, j, i);
    }
  }

  lemma OverlayStart(base: seq<byte>, p: Layout)
    requires p.Size() <= |base|
    ensures Overlay(base, base, [], p)
  {
    hide Layout.LumaAt, Layout.ChromaAt;
  }

  /** The planes end at `Size()`: what lies behind does not matter. */
  lemma OverlayPrefix(s: seq<byte>, base: seq<byte>, lines: seq<seq<Op>>, p: Layout, base': seq<byte>)
    requires p.Valid() && Overlay(s, base, lines, p) && |base'| == p.Size() && base' == base[..p.Size()]
    ensures Overlay(s[..p.Size()], base', lines, p)
  {
    hide CodedLuma, CodedChroma, Layout.LumaAt, Layout.ChromaAt;
    forall y, x | 0 <= y < p.Height() && 0 <= x < p.Width()
      ensures At(s[..p.Size()], p.LumaAt(y, x)) == CodedLuma(lines, y, x).Or(At(base', p.LumaAt(y, x)))
    {
      LumaCovered(p, y, y, x);
    }
    forall j, i | 0 <= j < p.r && 0 <= i < p.c
      ensures At(s[..p.Size()], p.u + p.ChromaAt(j, i)) ==
        CodedChroma(lines, j, i, true).Or(At(base', p.u + p.ChromaAt(j, i)))
      ensures At(s[..p.Size()], p.v + p.ChromaAt(j, i)) ==
        CodedChroma(lines, j, i, false).Or(At(base', p.v + p.ChromaAt(j, i)))
    {
      ChromaCovered(p, j, i, 2 * j);
    }
  }

  lemma {:induction false} RawCodesAll(ops: seq<Op>, x: nat, even: bool)
    requires (forall op | op in ops :: op.Ok(even, false)) && x < Span(ops)
    ensures Span(ops) % 2 == 0 && Luma(ops, x).Some?
    ensures even ==> Chroma(ops, x / 2, true).Some? && Chroma(ops, x / 2, false).Some?
  {
    assert Last(ops) in ops;
    var s := Span(Init(ops));
    if x < s {
      RawCodesAll(Init(ops), x, even);
    } else if s > 0 {
      RawCodesAll(Init(ops), 0, even);
    }
  }

  /** An uncompressed frame leaves nothing of what lay below. */
  lemma RawOverlay(s: seq<byte>, base: seq<byte>, lines: seq<seq<Op>>, p: Layout, other: seq<byte>)
    requires p.Valid() && Overlay(s, base, lines, p) && |other| == |base|
    requires |lines| == p.Height() && LinesOk(lines, false, p.Width())
    ensures Overlay(s, other, lines, p)
  {
    hide Layout.LumaAt, Layout.ChromaAt, OpsBytes, Luma, Chroma, At;
    forall y, x | 0 <= y < p.Height() && 0 <= x < p.Width()
      ensures CodedLuma(lines, y, x).Some?
    {
      RawCodesAll(lines[y], x, y % 2 == 0);
    }
    forall j, i | 0 <= j < p.r && 0 <= i < p.c
      ensures CodedChroma(lines, j, i, true).Some? && CodedChroma(lines, j, i, false).Some?
    {
      RawCodesAll(lines[2 * j], 2 * i, true);
    }
  }

  // ----- The decoder -----

  function LayoutOf(w: nat, h: nat, yvu: bool): Layout {
    var c, r := w / 2, h / 2;
    var first, second := w * h, w * h + w * h / 4;
    if yvu then Layout(c, r, second, first) else Layout(c, r, first, second)
  }

  /** Bytes of a 4:2:0 frame. */
  function FrameSize(w: nat, h: nat): nat {
    MulMonotone(w, 0, h);
    w * h * 3 / 2
  }

  lemma LayoutFits(w: nat, h: nat, yvu: bool)
    requires w % 8 == 0 && h % 4 == 0 && w <= 352 && h <= 288
    ensures var p := LayoutOf(w, h, yvu);
      p.Valid() && p.Width() == w && p.Height() == h && p.Size() == FrameSize(w, h) <= FRAME_BUFFER
  {
    hide FrameSize, Layout.Size;
    var c, r := w / 2, h / 2;
    Area(w, h, c, r);
    MulMonotone(r, c, 176);
    SizeIs(LayoutOf(w, h, yvu));
  }

  lemma SizeIs(p: Layout)
    ensures p.Size() == 6 * (p.r * p.c)
  {
  }

  lemma Area(w: nat, h: nat, c: nat, r: nat)
    requires w == 2 * c && h == 2 * r
    ensures w * h == 4 * (r * c) && w * h / 4 == r * c && FrameSize(w, h) == 6 * (r * c)
  {
    assert w * h == 4 * (r * c);
  }

  lemma HeaderSizes(src: seq<byte>, w: nat, h: nat)
    requires HeaderOk(src, w, h)
    ensures w % 8 == 0 && h % 4 == 0 && w <= 352 && h <= 288
  {
  }

  /** Where the cursors stand after `y` rows. */
  function CursorsAt(p: Layout, y: nat): (int, int, int) {
    (p.LumaAt(y, 0), p.u + p.ChromaAt((y + 1) / 2, 0), p.v + p.ChromaAt((y + 1) / 2, 0))
  }

  lemma RowIs(p: Layout, y: nat, row: Row, length: nat)
    requires p.Valid() && y < p.Height() && length >= p.Size()
    requires (row.d, row.u, row.v) == CursorsAt(p, y) && row.even == (y % 2 == 0) && row.w == p.Width()
    ensures p.RowAt(y) == row && row.Fits(length) && row.Fits(p.Size())
    ensures row.Next() == CursorsAt(p, y + 1)
  {
    hide Layout.Size, Layout.Valid, Row.Fits;
    RowFits(p, y, length);
    RowFits(p, y, p.Size());
    NextRow(p, y);
    if y % 2 == 0 {
      assert (y + 2) / 2 == (y + 1) / 2 + 1;
    } else {
      assert (y + 2) / 2 == (y + 1) / 2;
    }
  }

  lemma NextRow(p: Layout, y: nat)
    ensures p.LumaAt(y + 1, 0) == p.LumaAt(y, 0) + 2 * p.c
    ensures p.ChromaAt((y + 1) / 2 + 1, 0) == p.ChromaAt((y + 1) / 2, 0) + p.c
  {
  }

  lemma LineDoneParts(outcome: Outcome, line: seq<byte>, compressed: bool, row: Row, ops: seq<Op>,
                      s: seq<byte>, t: seq<byte>, cursors: (nat, nat, nat), size: nat)
    requires |s| == |t| && row.Fits(|s|) && row.Fits(size) && size <= |s|
    requires LineDone(outcome, line, compressed, row, ops, s, t, cursors)
    ensures t[size..] == s[size..]
    ensures if outcome == Ok then Encodes(ops, line, row.even, compressed, row.w) && RowWritten(t, s, row, ops)
      && cursors == row.Next()
            else Unencodable(line, row.even, compressed, row.w)
  {
    hide Encodes, Unencodable, RowWritten;
    forall k | size <= k < |s|
      ensures t[k] == s[k]
    {
      assert !row.Covers(k);
    }
  }

  lemma FrameStart(src: seq<byte>, w: nat, h: nat)
    requires HeaderOk(src, w, h)
    ensures FrameReading(src, w, h, [], HEADER_SIZE)
  {
    hide Parses;
    assert src[HEADER_SIZE..HEADER_SIZE] == [];
  }

  /** The state of the row loop: `y` lines are read and rendered. */
  ghost predicate Rows(src: seq<byte>, w: nat, h: nat, p: Layout, base: seq<byte>, s: seq<byte>, lines: seq<seq<Op>>,
                       c: Cursor)
    requires p.Size() <= |base|
  {
    && FrameReading(src, w, h, lines, c.pos)
    && Overlay(s, base, lines, p) && s[p.Size()..] == base[p.Size()..]
    && (c.d, c.u, c.v) == CursorsAt(p, |lines|)
  }

  lemma RowsStart(src: seq<byte>, w: nat, h: nat, p: Layout, base: seq<byte>)
    requires HeaderOk(src, w, h) && p.Size() <= |base|
    ensures Rows(src, w, h, p, base, base, [], Cursor(HEADER_SIZE, 0, 0, 0, p.u, p.v))
  {
    hide HeaderOk, FrameReading, Overlay;
    FrameStart(src, w, h);
    OverlayStart(base, p);
  }

  lemma RowsStep(src: seq<byte>, w: nat, h: nat, p: Layout, base: seq<byte>, s: seq<byte>, t: seq<byte>,
                 lines: seq<seq<Op>>, c: Cursor, c': Cursor, row: Row, ops: seq<Op>, outcome: Outcome, ll: nat)
    requires p.Valid() && p.Width() == w && p.Height() == h && p.Size() <= |base| == |s| == |t|
    requires Rows(src, w, h, p, base, s, lines, c) && |lines| < h && |src| >= HEADER_SIZE
    requires c.pos + 2 + ll <= |src| && ll >= 1 && ll == src[c.pos] + 0x100 * (src[c.pos + 1] as int)
    requires src[c.pos + 1 + ll] == EOL && row == Row(c.d, c.u, c.v, |lines| % 2 == 0, w) && row.Fits(|s|)
    requires row.Fits(p.Size())
    requires p.RowAt(|lines|) == row && row.Next() == CursorsAt(p, |lines| + 1)
    requires LineDone(outcome, src[c.pos + 2..c.pos + 1 + ll], src[28] == 1, row, ops, s, t, (c'.d, c'.u, c'.v))
    ensures t[p.Size()..] == base[p.Size()..]
    ensures outcome == Ok && c'.pos == c.pos + 2 + ll ==> Rows(src, w, h, p, base, t, lines + [ops], c')
    ensures outcome != Ok ==> NoParse(src, w, h)
  {
    hide FrameReading, Overlay, Unencodable, NoParse, Encodes, RowWritten, LineDone, Row.Fits, Layout.RowAt, CursorsAt,
      Layout.Size, Layout.Valid, Row.Next;
    LineDoneParts(outcome, src[c.pos + 2..c.pos + 1 + ll], src[28] == 1, row, ops, s, t, (c'.d, c'.u, c'.v), p.Size());
    if outcome != Ok {
      LineRefused(src, w, h, lines, c.pos);
    } else {
      OverlayLine(s, t, base, lines, ops, p);
      LineRead(src, w, h, lines, c.pos, ll, ops);
    }
  }

  lemma RowsRefused(src: seq<byte>, w: nat, h: nat, p: Layout, base: seq<byte>, s: seq<byte>, lines: seq<seq<Op>>,
                    c: Cursor)
    requires p.Size() <= |base| && Rows(src, w, h, p, base, s, lines, c) && |lines| < h
    ensures HEADER_SIZE <= c.pos <= |src| && s[p.Size()..] == base[p.Size()..]
    ensures |s| == |base| && (c.d, c.u, c.v) == CursorsAt(p, |lines|)
    ensures |src| < c.pos + 2 ||
        (var ll := src[c.pos] + 0x100 * (src[c.pos + 1] as int);
         ll == 0 || |src| < c.pos + 2 + ll || src[c.pos + 1 + ll] != EOL)
      ==> NoParse(src, w, h)
  {
    hide NoParse, HeaderOk, LinesOk, Parses, CursorsAt;
    if |src| < c.pos + 2 ||
        (var ll := src[c.pos] + 0x100 * (src[c.pos + 1] as int);
         ll == 0 || |src| < c.pos + 2 + ll || src[c.pos + 1 + ll] != EOL) {
      LineRefused(src, w, h, lines, c.pos);
    }
  }

  /**
    The line at the cursor is read outside the buffer: its length is zero, so that its end mark is looked
    up at index 2^32 - 1, or it is a compressed line whose walk arrives at a pair that does not fit.
  */
  predicate LineOverReads(src: seq<byte>, w: nat, even: bool, c: Cursor) {
    && HEADER_SIZE <= c.pos && c.pos + 2 <= |src|
    && var ll := src[c.pos] + 0x100 * (src[c.pos + 1] as int);
       && c.pos + 2 + ll <= |src|
       && (ll == 0 || (src[c.pos + 1 + ll] == EOL && src[28] == 1 &&
             Walk(src, Row(c.d, c.u, c.v, even, w), Cursor(c.pos + 2, ll, 0, c.d, c.u, c.v)) == OverRead))
  }

  /** One line: its length field, its end mark and its contents. */
  method FrameLine(src: seq<byte>, dest: array<byte>, w: nat, h: nat, p: Layout, y: nat, c: Cursor,
                   ghost base: seq<byte>, ghost lines: seq<seq<Op>>)
    returns (outcome: Outcome, c': Cursor, ghost lines': seq<seq<Op>>)
    requires |src| < U32 && p.Valid() && p.Width() == w && p.Height() == h && p.Size() <= |base| == dest.Length
    requires Rows(src, w, h, p, base, dest[..], lines, c) && |lines| == y < h && HEADER_SIZE <= |src|
    modifies dest
    ensures dest[p.Size()..] == base[p.Size()..]
    ensures outcome == Ok ==> Rows(src, w, h, p, base, dest[..], lines', c') && |lines'| == y + 1
    ensures outcome == OverRead <==> LineOverReads(src, w, y % 2 == 0, c)
    ensures outcome != Ok ==> NoParse(src, w, h)
  {
    hide Rows, NoParse, Row.Fits, Layout.RowAt, Layout.Size, LineDone, CursorsAt, Layout.Valid;
    var pos := c.pos;
    c', lines', outcome := c, lines, Error;
    RowsRefused(src, w, h, p, base, dest[..], lines, c);
    if |src| - pos < 2 {
      return;
    }
    var ll := src[pos] + 0x100 * (src[pos + 1] as int);
    if |src| - pos - 2 < ll {
      return;
    }
    if ll == 0 {
      // the end mark is looked up at index 2^32 - 1
      outcome := OverRead;
      return;
    }
    if src[pos + 1 + ll] != EOL {
      return;
    }
    var row := Row(c.d, c.u, c.v, y % 2 == 0, w);
    RowIs(p, y, row, dest.Length);
    ghost var s, ops := dest[..], [];
    if src[28] != 1 {
      outcome, c', ops := RawLine(src, pos + 2, ll, dest, row);
    } else {
      outcome, c', ops := CompressedLine(src, pos + 2, ll, dest, row);
    }
    RowsStep(src, w, h, p, base, s, dest[..], lines, c, c', row, ops, outcome, ll);
    lines' := lines + [ops];
  }

  // ----- The decoder -----

  /** What one call does to the frame saved: it overlays an accepted frame and ignores any other. */
  ghost predicate Call(prev: seq<byte>, src: seq<byte>, next: seq<byte>, w: nat, h: nat, yvu: bool) {
    (exists lines :: Parses(src, w, h, lines) && Overlay(next, prev, lines, LayoutOf(w, h, yvu))) ||
    (NoParse(src, w, h) && next == prev)
  }

  class Decoder {
    /** The last frame decoded successfully, in a buffer of the largest size. */
    var previous: array?<byte>

    constructor ()
      ensures previous == null
    {
      previous := null;
    }

    /**
      Converts one frame.  `start` is the previous frame on entry, arbitrary on the first call.
      The frame is accepted exactly if it parses; only then is it rendered, over `start`, and committed.
    */
    method ToYuv420(src: seq<byte>, dest: array<byte>, w: nat, h: nat, yvu: bool)
      returns (outcome: Outcome, ghost start: seq<byte>, ghost lines: seq<seq<Op>>)
      requires |src| < U32 && dest.Length >= FrameSize(w, h) && previous != dest
      requires previous != null ==> previous.Length == FRAME_BUFFER
      modifies this, dest, previous
      ensures old(previous) != null ==> previous == old(previous) && start == old(previous[..])
      ensures old(previous) == null && previous != null ==> fresh(previous)
      ensures previous != null ==> previous.Length == FRAME_BUFFER
      ensures dest[FrameSize(w, h)..] == old(dest[FrameSize(w, h)..])
      ensures outcome == Ok ==>
        && Parses(src, w, h, lines) && (forall full | Parses(src, w, h, full) :: full == lines)
        && previous != null && |start| == FRAME_BUFFER && FrameSize(w, h) <= FRAME_BUFFER
        && Overlay(dest[..FrameSize(w, h)], start[..FrameSize(w, h)], lines, LayoutOf(w, h, yvu))
        && previous[..FrameSize(w, h)] == dest[..FrameSize(w, h)]
        && previous[FrameSize(w, h)..] == start[FrameSize(w, h)..]
      ensures outcome != Ok ==> NoParse(src, w, h) && (previous != null ==> previous[..] == start)
      ensures previous != null && FrameSize(w, h) <= FRAME_BUFFER ==>
        |start| == FRAME_BUFFER && Call(start[..FrameSize(w, h)], src, previous[..FrameSize(w, h)], w, h, yvu)
    {
      hide Overlay, NoParse, LayoutOf, Parses, FrameSize;
      lines := [];
      start := [];
      outcome := Error;
      BadHeader(src, w, h);
      if previous != null {
        start := previous[..];
      }
      if w > 352 || h > 288 {
        return;
      }
      if previous == null {
        previous := new byte[FRAME_BUFFER];
        start := previous[..];
      }
      var buffer := previous;
      if |src| < HEADER_SIZE
        || src[0] != 0x19 || src[1] != 0x68
        || src[17] != 0
        || src[18] != 0
        || (src[25] as int - src[24] as int) * 8 % U32 != w
        || (src[27] as int - src[26] as int) * 4 % U32 != h
        || (src[28] != 0 && src[28] != 1)
        || (src[29] != 0 && src[29] != 1) {
        return;
      }
      if src[29] == 1 {
        return;
      }
      var moved;
      outcome, moved, lines := Frame(src, dest, previous, w, h, yvu);
      if outcome == Ok {
        Commit(dest, moved, previous, w, h);
      }
    }

    /** Rewinds the luma cursor by the luma size and saves the frame for the decompression of the next one. */
    method Commit(dest: array<byte>, moved: nat, buffer: array<byte>, w: nat, h: nat)
      requires moved == w * h && FrameSize(w, h) <= dest.Length && FrameSize(w, h) <= buffer.Length && dest != buffer
      modifies buffer
      ensures buffer[..] == dest[..FrameSize(w, h)] + old(buffer[FrameSize(w, h)..])
    {
      forall k | 0 <= k < FrameSize(w, h) {
        buffer[k] := dest[moved - w * h + k];
      }
    }

    /** Renders a frame whose header has been verified over the previous one. */
    method Frame(src: seq<byte>, dest: array<byte>, buffer: array<byte>, w: nat, h: nat, yvu: bool)
      returns (outcome: Outcome, moved: nat, ghost lines: seq<seq<Op>>)
      requires |src| < U32 && HeaderOk(src, w, h) && dest.Length >= FrameSize(w, h)
      requires buffer != dest && buffer.Length == FRAME_BUFFER
      modifies dest
      ensures FrameSize(w, h) <= FRAME_BUFFER
      ensures dest[FrameSize(w, h)..] == old(dest[FrameSize(w, h)..])
      ensures outcome == Ok ==>
        && moved == w * h && Parses(src, w, h, lines) && (forall full | Parses(src, w, h, full) :: full == lines)
        && Overlay(dest[..FrameSize(w, h)], buffer[..FrameSize(w, h)], lines, LayoutOf(w, h, yvu))
      ensures outcome != Ok ==> NoParse(src, w, h)
    {
      HeaderSizes(src, w, h);
      LayoutFits(w, h, yvu);
      hide Overlay, NoParse, Rows, Layout.Size, Layout.Valid, LayoutOf, Parses, HeaderOk, FrameSize;
      lines, moved := [], 0;
      outcome := Error;
      var p := LayoutOf(w, h, yvu);
      var size := FrameSize(w, h);
      if src[28] == 1 {
        forall k | 0 <= k < size {
          dest[k] := buffer[k];
        }
      }
      ghost var base := dest[..];
      RowsStart(src, w, h, p, base);
      var c := Cursor(HEADER_SIZE, 0, 0, 0, p.u, p.v);
      for y := 0 to h
        invariant |lines| == y && Rows(src, w, h, p, base, dest[..], lines, c)
        invariant dest[size..] == base[size..]
      {
        outcome, c, lines := FrameLine(src, dest, w, h, p, y, c, base, lines);
        if outcome != Ok {
          return;
        }
      }
      FrameDone(src, w, h, p, base, dest[..], lines, c, buffer[..]);
      outcome, moved := if EndsWithEoi(src, c.pos) then Ok else Error, c.d;
    }
  }

  lemma BadHeader(src: seq<byte>, w: nat, h: nat)
    ensures !HeaderOk(src, w, h) ==> NoParse(src, w, h)
  {
  }

  lemma RowsRead(src: seq<byte>, w: nat, h: nat, p: Layout, base: seq<byte>, s: seq<byte>, lines: seq<seq<Op>>,
                 c: Cursor)
    requires p.Size() <= |base| && Rows(src, w, h, p, base, s, lines, c)
    ensures FrameReading(src, w, h, lines, c.pos) && c.pos <= |src| && LinesOk(lines, src[28] == 1, w)
    ensures Overlay(s, base, lines, p) && |s| == |base| && c.d == p.LumaAt(|lines|, 0)
  {
    hide HeaderOk, LinesOk, FrameBytes;
  }

  lemma LumaEnd(p: Layout, w: nat, h: nat)
    requires p.Width() == w && p.Height() == h
    ensures p.LumaAt(h, 0) == w * h
  {
  }

  lemma FrameDone(src: seq<byte>, w: nat, h: nat, p: Layout, base: seq<byte>, s: seq<byte>, lines: seq<seq<Op>>,
                  c: Cursor, start: seq<byte>)
    requires HeaderOk(src, w, h) && p.Valid() && p.Width() == w && p.Height() == h && p.Size() <= |base|
    requires p.Size() == FrameSize(w, h) <= |start|
    requires Rows(src, w, h, p, base, s, lines, c) && |lines| == h
    requires src[28] == 1 ==> base[..p.Size()] == start[..p.Size()]
    ensures c.pos <= |src| && c.d == w * h && |s| == |base|
    ensures if EndsWithEoi(src, c.pos) then Parses(src, w, h, lines)
      && (forall full | Parses(src, w, h, full) :: full == lines)
            else NoParse(src, w, h)
    ensures Overlay(s[..p.Size()], start[..p.Size()], lines, p)
  {
    hide HeaderOk, NoParse, Parses, LinesOk, Layout.Valid, FrameSize, Layout.Size, Layout.LumaAt, Layout.ChromaAt;
    RowsRead(src, w, h, p, base, s, lines, c);
    FrameEnd(src, w, h, lines, c.pos);
    LumaEnd(p, w, h);
    hide Rows, Overlay, FrameReading, EndsWithEoi;
    OverlayPrefix(s, base, lines, p, base[..p.Size()]);
    if src[28] != 1 {
      RawOverlay(s[..p.Size()], base[..p.Size()], lines, p, start[..p.Size()]);
    }
  }

  // ----- What an uncompressed frame looks like, byte by byte -----

  /** Pair `i` of an uncompressed line: luma, U, luma, V on even lines, two of luma on odd ones. */
  ghost predicate PairIs(ops: seq<Op>, even: bool, i: nat) {
    var b, n := OpsBytes(ops), if even then 4 * i else 2 * i;
    && n + (if even then 4 else 2) <= |b|
    && Luma(ops, 2 * i) == Some(b[n])
    && Luma(ops, 2 * i + 1) == Some(b[if even then n + 2 else n + 1])
    && (even ==> Chroma(ops, i, true) == Some(b[n + 1]) && Chroma(ops, i, false) == Some(b[n + 3]))
  }

  lemma {:induction false} RawPair(ops: seq<Op>, even: bool, i: nat)
    requires (forall op | op in ops :: op.Ok(even, false)) && 2 * i < Span(ops)
    ensures PairIs(ops, even, i) && 2 * i + 1 < Span(ops)
  {
    hide PairIs, OpsBytes, Luma, Chroma, Op.Ok, Op.Bytes;
    var before := Init(ops);
    assert Last(ops) in ops && forall op | op in before :: op in ops;
    EvenSpan(before, even);
    PairLast(ops, even);
    if 2 * i < Span(before) {
      RawPair(before, even, i);
      PairKept(ops, even, i);
    }
  }

  lemma PairKept(ops: seq<Op>, even: bool, i: nat)
    requires ops != [] && PairIs(Init(ops), even, i) && 2 * i + 1 < Span(Init(ops))
    ensures PairIs(ops, even, i)
  {
    RawKept(ops, 2 * i);
    RawKept(ops, 2 * i + 1);
    hide OpsBytes, Span, Luma, Chroma;
  }

  /** What a line codes before its last operation. */
  lemma RawKept(ops: seq<Op>, x: nat)
    requires ops != [] && x < Span(Init(ops))
    ensures Luma(ops, x) == Luma(Init(ops), x) && OpsBytes(Init(ops)) <= OpsBytes(ops)
    ensures x / 2 < Span(Init(ops)) / 2 ==> forall blue :: Chroma(ops, x / 2, blue) == Chroma(Init(ops), x / 2, blue)
  {
  }

  lemma PairLast(ops: seq<Op>, even: bool)
    requires ops != [] && (forall op | op in ops :: op.Ok(even, false)) && Span(Init(ops)) % 2 == 0
    ensures Span(ops) == Span(Init(ops)) + 2 && PairIs(ops, even, Span(Init(ops)) / 2)
  {
    assert Last(ops) in ops;
    RawLast(ops, even);
    RawLength(Init(ops), even);
    hide OpsBytes, Span, Luma, Chroma, Op.Ok, Op.Bytes;
  }

  /** The bytes of the last operation. */
  lemma RawLast(ops: seq<Op>, even: bool)
    requires ops != [] && Last(ops).Ok(even, false) && Span(Init(ops)) % 2 == 0
    ensures Span(ops) == Span(Init(ops)) + 2 && OpsBytes(ops) == OpsBytes(Init(ops)) + Last(ops).Bytes()
    ensures var s, b := Span(Init(ops)), Last(ops).Bytes();
      && |b| == (if even then 4 else 2)
      && Luma(ops, s) == Some(b[0]) && Luma(ops, s + 1) == Some(b[if even then 2 else 1])
      && (even ==> Chroma(ops, s / 2, true) == Some(b[1]) && Chroma(ops, s / 2, false) == Some(b[3]))
  {
    RawOpBytes(Last(ops), even);
  }

  lemma RawOpBytes(op: Op, even: bool)
    requires op.Ok(even, false)
    ensures op.Span() == 2 && if even then op.Yuyv? && op.Bytes() == [op.y0, op.u, op.y1, op.v]
                                      else op.Yy? && op.Bytes() == [op.y0, op.y1]
  {
  }

  lemma {:induction false} EvenSpan(ops: seq<Op>, even: bool)
    requires forall op | op in ops :: op.Ok(even, false)
    ensures Span(ops) % 2 == 0
  {
    if ops != [] {
      assert Last(ops) in ops;
      EvenSpan(Init(ops), even);
    }
  }

  /** Bytes before line `y`: pairs of lines take `2 * w + 3` and `w + 3`. */
  function RawBefore(w: nat, y: nat): nat {
    if y == 0 then 0 else RawBefore(w, y - 1) + if y % 2 == 1 then 2 * w + 3 else w + 3
  }

  lemma {:induction false} RawBeforePairs(w: nat, j: nat)
    ensures RawBefore(w, 2 * j) == j * (3 * w + 6) && RawBefore(w, 2 * j + 1) == j * (3 * w + 6) + 2 * w + 3
  {
    if j > 0 {
      RawBeforePairs(w, j - 1);
      assert RawBefore(w, 2 * j) == RawBefore(w, 2 * j - 1) + w + 3;
      assert (j - 1) * (3 * w + 6) == j * (3 * w + 6) - (3 * w + 6);
    }
  }

  /** Where line `y` of an uncompressed frame begins. */
  lemma {:induction false} RawLineAt(lines: seq<seq<Op>>, w: nat, y: nat)
    requires LinesOk(lines, false, w) && y <= |lines|
    ensures |FrameBytes(lines[..y])| == RawBefore(w, y)
  {
    hide OpsBytes, Span, FrameBytes, LineOk;
    if y > 0 {
      RawLineAt(lines, w, y - 1);
      FrameStep(lines, y - 1);
      RawLineLength(lines[y - 1], (y - 1) % 2 == 0, w);
      LineFields(lines[y - 1]);
    } else {
      NoLines(lines);
    }
  }

  lemma NoLines(lines: seq<seq<Op>>)
    ensures FrameBytes(lines[..0]) == []
  {
  }

  lemma RawLineLength(ops: seq<Op>, even: bool, w: nat)
    requires LineOk(ops, even, false, w)
    ensures |OpsBytes(ops)| == if even then 2 * w else w
  {
    RawLength(ops, even);
  }

  /** The bytes of line `y` of an uncompressed frame. */
  lemma RawLineIs(src: seq<byte>, w: nat, h: nat, lines: seq<seq<Op>>, y: nat)
    requires Parses(src, w, h, lines) && src[28] != 1 && y < h
    ensures |lines| == h && LineOk(lines[y], y % 2 == 0, false, w)
    ensures var e, b := 66 + RawBefore(w, y), OpsBytes(lines[y]);
      |b| == (if y % 2 == 0 then 2 * w else w) && e + |b| < |src| && forall n | 0 <= n < |b| :: src[e + n] == b[n]
  {
    hide OpsBytes, HeaderOk, LineOk, FrameBytes, RawBefore;
    RawLineAt(lines, w, y);
    RawLineLength(lines[y], y % 2 == 0, w);
    var pos, b := 64 + |FrameBytes(lines[..y])|, LineBytes(lines[y]);
    LineInFrame(src, w, h, lines, y);
    LineFields(lines[y]);
    hide LineBytes, Parses;
    forall n | 0 <= n < |OpsBytes(lines[y])|
      ensures src[pos + 2 + n] == OpsBytes(lines[y])[n]
    {
      assert b[2..2 + |OpsBytes(lines[y])|][n] == b[2 + n] == src[pos + (2 + n)];
    }
  }

  lemma LineInFrame(src: seq<byte>, w: nat, h: nat, lines: seq<seq<Op>>, y: nat)
    requires Parses(src, w, h, lines) && y < h
    ensures var pos, b := 64 + |FrameBytes(lines[..y])|, LineBytes(lines[y]);
      pos + |b| + 4 <= |src| && forall i | 0 <= i < |b| :: src[pos + i] == b[i]
  {
    hide OpsBytes, HeaderOk, LineOk, FrameBytes, LineBytes, LinesOk;
    FrameStep(lines, y);
    var before, b := FrameBytes(lines[..y]), LineBytes(lines[y]);
    LineStored(src[64..], before, b, FrameBytes(lines));
    LineAt(src, 64 + |before|, b, before);
  }

  lemma LineStored(src: seq<byte>, before: seq<byte>, b: seq<byte>, all: seq<byte>)
    requires before + b <= all <= src
    ensures before + b <= src && before == src[..|before|]
  {
    assert before == (before + b)[..|before|];
  }

  /** Where the planes of a frame begin, and how long their lines are. */
  lemma PlanesAt(w: nat, h: nat, yvu: bool, y: nat, x: nat)
    requires w % 2 == 0 && h % 2 == 0
    ensures var p := LayoutOf(w, h, yvu);
      && p.Width() == w && p.Height() == h && p.c == w / 2 && p.r == h / 2
      && p.LumaAt(y, x) == y * w + x && p.ChromaAt(y, x) == y * (w / 2) + x
      && p.u == w * h + (if yvu then w * h / 4 else 0) && p.v == w * h + if yvu then 0 else w * h / 4
  {
    assert y * w == 2 * (y * (w / 2));
  }

  /** A cell of the luma plane and the byte of its line. */
  lemma RawLumaCell(src: seq<byte>, w: nat, h: nat, p: Layout, lines: seq<seq<Op>>, s: seq<byte>, base: seq<byte>,
                    y: nat, x: nat)
    requires Parses(src, w, h, lines) && src[28] != 1 && Overlay(s, base, lines, p)
    requires p.Valid() && p.Width() == w && p.Height() == h && y < h && x < w
    ensures 0 <= p.LumaAt(y, x) < |s|
    ensures var b := OpsBytes(lines[y]);
      && |b| == (if y % 2 == 0 then 2 * w else w)
      && s[p.LumaAt(y, x)] == b[if y % 2 == 0 then 2 * x else x]
  {
    hide FrameBytes, OpsBytes, Luma, Chroma, Layout.Size, Layout.LumaAt, Layout.ChromaAt, HeaderOk, Layout.Valid;
    LumaCovered(p, y, y, x);
    RawPair(lines[y], y % 2 == 0, x / 2);
    RawLineLength(lines[y], y % 2 == 0, w);
    assert At(s, p.LumaAt(y, x)) == CodedLuma(lines, y, x).Or(At(base, p.LumaAt(y, x)));
  }

  /** A cell of the chroma planes. */
  lemma RawChromaCell(src: seq<byte>, w: nat, h: nat, p: Layout, lines: seq<seq<Op>>, s: seq<byte>, base: seq<byte>,
                      j: nat, i: nat)
    requires Parses(src, w, h, lines) && src[28] != 1 && Overlay(s, base, lines, p)
    requires p.Valid() && p.Width() == w && p.Height() == h && j < p.r && i < p.c
    ensures 0 <= p.u + p.ChromaAt(j, i) < |s| && 0 <= p.v + p.ChromaAt(j, i) < |s|
    ensures var b := OpsBytes(lines[2 * j]);
      && |b| == 2 * w
      && s[p.u + p.ChromaAt(j, i)] == b[4 * i + 1] && s[p.v + p.ChromaAt(j, i)] == b[4 * i + 3]
  {
    hide FrameBytes, OpsBytes, Luma, Chroma, Layout.Size, Layout.LumaAt, Layout.ChromaAt, HeaderOk, Layout.Valid;
    ChromaCovered(p, j, i, 2 * j);
    RawPair(lines[2 * j], true, i);
    RawLineLength(lines[2 * j], true, w);
    var k := p.ChromaAt(j, i);
    assert At(s, p.u + k) == CodedChroma(lines, j, i, true).Or(At(base, p.u + k));
    assert At(s, p.v + k) == CodedChroma(lines, j, i, false).Or(At(base, p.v + k));
  }

  lemma LayoutIs(src: seq<byte>, w: nat, h: nat, yvu: bool, lines: seq<seq<Op>>)
    requires Parses(src, w, h, lines)
    ensures |src| > 64 && |lines| == h && w % 2 == 0 && h % 2 == 0
    ensures var p := LayoutOf(w, h, yvu); p.Valid() && p.Width() == w && p.Height() == h
  {
    hide FrameBytes, OpsBytes;
    HeaderSizes(src, w, h);
    LayoutFits(w, h, yvu);
  }

  lemma RawLumaOfLine(src: seq<byte>, w: nat, h: nat, yvu: bool, lines: seq<seq<Op>>, s: seq<byte>, base: seq<byte>,
                      y: nat, x: nat)
    requires Parses(src, w, h, lines) && src[28] != 1 && Overlay(s, base, lines, LayoutOf(w, h, yvu))
    requires y < h && x < w
    ensures var e := 66 + RawBefore(w, y);
      && 0 <= y * w + x < |s| && e + (if y % 2 == 0 then 2 * w else w) < |src|
      && s[y * w + x] == src[e + if y % 2 == 0 then 2 * x else x]
  {
    hide Parses, Overlay, LayoutOf, OpsBytes, RawBefore, Layout.Valid, Layout.LumaAt, Layout.ChromaAt;
    LayoutIs(src, w, h, yvu, lines);
    RawLumaCell(src, w, h, LayoutOf(w, h, yvu), lines, s, base, y, x);
    RawLineIs(src, w, h, lines, y);
    PlanesAt(w, h, yvu, y, x);
  }

  /**
    Every byte of an accepted uncompressed frame: line `y` is coded behind the header of 64 bytes and the pairs of
    lines before it, `2 * w + 3` and `w + 3` bytes with their length fields and end marks.
  */
  lemma RawLumaIs(src: seq<byte>, w: nat, h: nat, yvu: bool, lines: seq<seq<Op>>, s: seq<byte>, base: seq<byte>,
                  j: nat, x: nat)
    requires Parses(src, w, h, lines) && src[28] != 1 && Overlay(s, base, lines, LayoutOf(w, h, yvu))
    requires j < h / 2 && x < w
    ensures var e := 64 + j * (3 * w + 6) + 2;
      && 0 <= 2 * j * w + x < |s| && 0 <= (2 * j + 1) * w + x < |s| && 0 <= e && e + 3 * w + 3 < |src|
      && s[2 * j * w + x] == src[e + 2 * x]
      && s[(2 * j + 1) * w + x] == src[e + 2 * w + 3 + x]
  {
    hide Parses, Overlay, LayoutOf, RawBefore;
    LayoutIs(src, w, h, yvu, lines);
    RawLumaOfLine(src, w, h, yvu, lines, s, base, 2 * j, x);
    RawLumaOfLine(src, w, h, yvu, lines, s, base, 2 * j + 1, x);
    RawBeforePairs(w, j);
  }

  /** U comes before V, unless the planes are exchanged. */
  lemma RawChromaIs(src: seq<byte>, w: nat, h: nat, yvu: bool, lines: seq<seq<Op>>, s: seq<byte>, base: seq<byte>,
                    j: nat, i: nat)
    requires Parses(src, w, h, lines) && src[28] != 1 && Overlay(s, base, lines, LayoutOf(w, h, yvu))
    requires j < h / 2 && i < w / 2
    ensures var e, n, q := 64 + j * (3 * w + 6) + 2, w * h + j * (w / 2) + i, w * h / 4;
      && 0 <= n < |s| && 0 <= n + q < |s| && 0 <= e && e + 2 * w < |src|
      && s[if yvu then n + q else n] == src[e + 4 * i + 1]
      && s[if yvu then n else n + q] == src[e + 4 * i + 3]
  {
    hide Parses, Overlay, LayoutOf, OpsBytes, RawBefore, Layout.Valid, Layout.LumaAt, Layout.ChromaAt;
    var p := LayoutOf(w, h, yvu);
    LayoutIs(src, w, h, yvu, lines);
    PlanesAt(w, h, yvu, j, i);
    RawChromaCell(src, w, h, p, lines, s, base, j, i);
    RawLineIs(src, w, h, lines, 2 * j);
    RawBeforePairs(w, j);
  }

  // ----- What a compressed line codes, byte by byte -----

  /** Operations that follow do not change what a line codes so far. */
  lemma {:induction false} CodedSoFar(ops: seq<Op>, k: nat, x: nat)
    requires k <= |ops| && x < Span(ops[..k]) && Span(ops[..k]) % 2 == 0
    ensures Luma(ops, x) == Luma(ops[..k], x)
    ensures forall blue :: Chroma(ops, x / 2, blue) == Chroma(ops[..k], x / 2, blue)
  {
    if k < |ops| {
      PrefixFacts(Init(ops), k);
      assert Init(ops)[..k] == ops[..k];
      CodedSoFar(Init(ops), k, x);
    } else {
      assert ops[..k] == ops;
    }
  }

  lemma {:induction false} EvenColumns(ops: seq<Op>, even: bool, compressed: bool)
    requires forall op | op in ops :: op.Ok(even, compressed)
    ensures Span(ops) % 2 == 0
  {
    if ops != [] {
      assert Last(ops) in ops;
      EvenColumns(Init(ops), even, compressed);
    }
  }

  /**
    The operation at byte `c` of a compressed line, at column `x`: an odd byte leaves out half as many pixels,
    an even one is the first of a pair.
  */
  lemma OpMeaning(ops: seq<Op>, line: seq<byte>, even: bool, w: nat, k: nat)
    requires Encodes(ops, line, even, true, w) && k < |ops|
    ensures Span(ops[..k]) % 2 == 0 && |OpsBytes(ops[..k])| < |line|
    ensures var x, c := Span(ops[..k]), |OpsBytes(ops[..k])|;
      if line[c] % 2 == 1 then
        && Span(ops[..k + 1]) == x + line[c] / 2 && |OpsBytes(ops[..k + 1])| == c + 1
        && forall t | x <= t < x + line[c] / 2 ::
          Luma(ops, t) == None && forall blue :: Chroma(ops, t / 2, blue) == None
      else
        && Span(ops[..k + 1]) == x + 2 && |OpsBytes(ops[..k + 1])| == c + (if even then 4 else 2) <= |line|
        && Luma(ops, x) == Some(line[c]) && Luma(ops, x + 1) == Some(line[if even then c + 2 else c + 1])
        && (even ==> Chroma(ops, x / 2, true) == Some(line[c + 1]) && Chroma(ops, x / 2, false) == Some(line[c + 3]))
  {
    var x, c := Span(ops[..k]), |OpsBytes(ops[..k])|;
    var next := ops[..k + 1];
    EvenColumns(ops[..k], even, true);
    NextOpIs(ops, k, line, even, w);
    assert Init(next) == ops[..k] && Last(next) == ops[k];
    EvenColumns(next, even, true);
    forall t | x <= t < Span(next)
      ensures Luma(ops, t) == Luma(next, t)
      ensures forall blue :: Chroma(ops, t / 2, blue) == Chroma(next, t / 2, blue)
    {
      CodedSoFar(ops, k + 1, t);
    }
  }

  // ----- Runs of frames -----

  /** Two ways to parse a frame agree. */
  lemma {:induction false} ParseUnique(src: seq<byte>, w: nat, h: nat, a: seq<seq<Op>>, k: nat, pos: nat)
    requires Parses(src, w, h, a) && k <= h && FrameReading(src, w, h, a[..k], pos)
    ensures forall full | Parses(src, w, h, full) :: full == a
    decreases h - k
  {
    hide HeaderOk, LinesOk, Parses, FrameReading, OpsBytes;
    if k < h {
      ParseSizes(src, w, h, a);
      NextLine(src, w, h, a[..k], pos, a);
      var ll := src[pos] + 0x100 * (src[pos + 1] as int);
      LineRead(src, w, h, a[..k], pos, ll, a[k]);
      TakeSnoc(a, k);
      ParseUnique(src, w, h, a, k + 1, pos + 2 + ll);
    } else {
      ParseSizes(src, w, h, a);
      FrameEnd(src, w, h, a[..k], pos);
    }
  }

  lemma ParseSizes(src: seq<byte>, w: nat, h: nat, a: seq<seq<Op>>)
    requires Parses(src, w, h, a)
    ensures |a| == h && a[..h] == a && HeaderOk(src, w, h)
  {
  }

  /** The lines of the frames that are accepted, in order; which frames are does not depend on the state. */
  ghost function Accepted(srcs: seq<seq<byte>>, w: nat, h: nat): seq<seq<seq<Op>>> {
    if srcs == [] then []
    else if NoParse(Last(srcs), w, h) then Accepted(Init(srcs), w, h)
    else
      var lines :| Parses(Last(srcs), w, h, lines);
      Accepted(Init(srcs), w, h) + [lines]
  }

  /** The value a pixel was last coded with, if it ever was. */
  function LastLuma(frames: seq<seq<seq<Op>>>, y: nat, x: nat): Option<byte> {
    if frames == [] then None
    else if CodedLuma(Last(frames), y, x).Some? then CodedLuma(Last(frames), y, x)
    else LastLuma(Init(frames), y, x)
  }

  function LastChroma(frames: seq<seq<seq<Op>>>, j: nat, i: nat, blue: bool): Option<byte> {
    if frames == [] then None
    else if CodedChroma(Last(frames), j, i, blue).Some? then CodedChroma(Last(frames), j, i, blue)
    else LastChroma(Init(frames), j, i, blue)
  }

  ghost predicate History(s: seq<byte>, base: seq<byte>, frames: seq<seq<seq<Op>>>, p: Layout) {
    && (forall y, x | 0 <= y < p.Height() && 0 <= x < p.Width() ::
          At(s, p.LumaAt(y, x)) == LastLuma(frames, y, x).Or(At(base, p.LumaAt(y, x))))
    && (forall j, i | 0 <= j < p.r && 0 <= i < p.c ::
          && At(s, p.u + p.ChromaAt(j, i)) == LastChroma(frames, j, i, true).Or(At(base, p.u + p.ChromaAt(j, i)))
          && At(s, p.v + p.ChromaAt(j, i)) == LastChroma(frames, j, i, false).Or(At(base, p.v + p.ChromaAt(j, i))))
  }

  lemma HistoryStep(s: seq<byte>, t: seq<byte>, base: seq<byte>, frames: seq<seq<seq<Op>>>, lines: seq<seq<Op>>,
                    p: Layout)
    requires History(s, base, frames, p) && Overlay(t, s, lines, p)
    ensures History(t, base, frames + [lines], p)
  {
    hide CodedLuma, CodedChroma, At, Layout.LumaAt, Layout.ChromaAt, Layout.Size;
    TakeSnoc(frames + [lines], |frames|);
    assert Init(frames + [lines]) == frames && Last(frames + [lines]) == lines;
  }

  /** After any run of calls every pixel has the value it was last coded with in an accepted frame. */
  lemma {:induction false} RunIsHistory(states: seq<seq<byte>>, srcs: seq<seq<byte>>, w: nat, h: nat, yvu: bool)
    requires |states| == |srcs| + 1
    requires forall n | 0 <= n < |srcs| :: Call(states[n], srcs[n], states[n + 1], w, h, yvu)
    ensures History(Last(states), states[0], Accepted(srcs, w, h), LayoutOf(w, h, yvu))
  {
    hide History, Overlay, Parses, LayoutOf;
    var p := LayoutOf(w, h, yvu);
    if srcs == [] {
      HistoryStart(states[0], p);
    } else {
      var n := |srcs| - 1;
      RunIsHistory(Init(states), Init(srcs), w, h, yvu);
      assert Call(states[n], srcs[n], states[n + 1], w, h, yvu);
      if NoParse(srcs[n], w, h) {
        assert Accepted(srcs, w, h) == Accepted(Init(srcs), w, h);
      } else {
        var lines :| Parses(srcs[n], w, h, lines) && Overlay(states[n + 1], states[n], lines, p);
        ParseSizes(srcs[n], w, h, lines);
        FrameStart(srcs[n], w, h);
        ParseUnique(srcs[n], w, h, lines, 0, HEADER_SIZE);
        assert Accepted(srcs, w, h) == Accepted(Init(srcs), w, h) + [lines];
        HistoryStep(states[n], states[n + 1], states[0], Accepted(Init(srcs), w, h), lines, p);
      }
    }
  }

  lemma HistoryStart(s: seq<byte>, p: Layout)
    ensures History(s, s, [], p)
  {
    hide Layout.LumaAt, Layout.ChromaAt, At;
  }
}
