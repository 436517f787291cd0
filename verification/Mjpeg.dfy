/** Insertion of the standard Huffman tables into MJPEG frames that come without any. */
module Mjpeg {
  import opened Bits
  import Memory

  const SOI: byte := 0xD8
  const DHT: byte := 0xC4
  const SOS: byte := 0xDA

  // ----- The table segment -----

  /** A table specification: class and destination, the number of codes of each length, the symbols. */
  datatype Table = Table(id: byte, counts: seq<byte>, symbols: seq<byte>) {
    function Bytes(): seq<byte> { [id] + counts + symbols }
  }

  /** The symbols of a run of zeros with coefficients of at least this size. */
  function Sizes(run: nat, from: nat): (s: seq<byte>)
    requires run < 16 && 1 <= from <= 11
    ensures |s| == 11 - from
  {
    seq(11 - from, i requires 0 <= i < 11 - from => 16 * run + from + i)
  }

  predicate Froms(from: seq<nat>) { |from| == 16 && forall r | 0 <= r < 16 :: 1 <= from[r] <= 11 }

  /** Those of the first `n` runs. */
  function AllSizes(from: seq<nat>, n: nat): (s: seq<byte>)
    requires Froms(from) && n <= 16
    ensures |s| == 11 * n - Total(from, n)
  {
    if n == 0 then [] else AllSizes(from, n - 1) + Sizes(n - 1, from[n - 1])
  }

  function Total(from: seq<nat>, n: nat): nat
    requires n <= |from|
  {
    if n == 0 then 0 else Total(from, n - 1) + from[n - 1]
  }

  lemma TotalIs(from: seq<nat>)
    requires |from| == 16
    ensures Total(from, 16) == from[0] + from[1] + from[2] + from[3] + from[4] + from[5] + from[6] + from[7] + from[8] +
      from[9] + from[10] + from[11] + from[12] + from[13] + from[14] + from[15]
  {
    assert Total(from, 2) == Total(from, 0) + from[0] + from[1];
    assert Total(from, 4) == Total(from, 2) + from[2] + from[3];
    assert Total(from, 6) == Total(from, 4) + from[4] + from[5];
    assert Total(from, 8) == Total(from, 6) + from[6] + from[7];
    assert Total(from, 10) == Total(from, 8) + from[8] + from[9];
    assert Total(from, 12) == Total(from, 10) + from[10] + from[11];
    assert Total(from, 14) == Total(from, 12) + from[12] + from[13];
  }

  lemma {:induction false} HasSizes(from: seq<nat>, n: nat, run: nat, size: nat)
    requires Froms(from) && run < n <= 16 && from[run] <= size <= 10
    ensures 16 * run + size in AllSizes(from, n)
  {
    if run == n - 1 {
      assert Sizes(run, from[run])[size - from[run]] == 16 * run + size;
    } else {
      HasSizes(from, n - 1, run, size);
    }
  }

  /** They ascend. */
  lemma {:induction false} SizesAscend(from: seq<nat>, n: nat)
    requires Froms(from) && n <= 16
    ensures forall i | 0 <= i < |AllSizes(from, n)| :: 1 <= AllSizes(from, n)[i] < 16 * n
    ensures forall i, j | 0 <= i < j < |AllSizes(from, n)| :: AllSizes(from, n)[i] < AllSizes(from, n)[j]
  {
    if n > 0 {
      SizesAscend(from, n - 1);
    }
  }

  const DC_LUMA_COUNTS: seq<byte> := [0, 1, 5, 1, 1, 1, 1, 1, 1, 0, 0, 0, 0, 0, 0, 0]
  const DC_LUMA_SYMBOLS: seq<byte> :=
    [0x00, 0x01, 0x02, 0x03, 0x04, 0x05, 0x06, 0x07, 0x08, 0x09, 0x0A, 0x0B]
  const DC_LUMA: Table := Table(0x00, DC_LUMA_COUNTS, DC_LUMA_SYMBOLS)

  const DC_CHROMA_COUNTS: seq<byte> := [0, 3, 1, 1, 1, 1, 1, 1, 1, 1, 1, 0, 0, 0, 0, 0]
  const DC_CHROMA_SYMBOLS: seq<byte> :=
    [0x00, 0x01, 0x02, 0x03, 0x04, 0x05, 0x06, 0x07, 0x08, 0x09, 0x0A, 0x0B]
  const DC_CHROMA: Table := Table(0x01, DC_CHROMA_COUNTS, DC_CHROMA_SYMBOLS)

  const AC_LUMA_COUNTS: seq<byte> := [0, 2, 1, 3, 3, 2, 4, 3, 5, 5, 4, 4, 0, 0, 1, 125]
  /** The symbols with codes of up to fifteen bits, and for each run the size from which on codes have sixteen. */
  const AC_LUMA_SHORT: seq<byte> :=
    [0x01, 0x02, 0x03, 0x00, 0x04, 0x11, 0x05, 0x12, 0x21, 0x31, 0x41, 0x06, 0x13, 0x51, 0x61, 0x07, 0x22, 0x71,
     0x14, 0x32, 0x81, 0x91, 0xA1, 0x08, 0x23, 0x42, 0xB1, 0xC1, 0x15, 0x52, 0xD1, 0xF0, 0x24, 0x33, 0x62, 0x72,
     0x82]
  const AC_LUMA_FROM: seq<nat> := [9, 6, 5, 4, 3, 3, 3, 3, 3, 2, 2, 2, 2, 2, 1, 1]
  const AC_LUMA_LONG: seq<byte> := AllSizes(AC_LUMA_FROM, 16)
  const AC_LUMA_SYMBOLS: seq<byte> := AC_LUMA_SHORT + AC_LUMA_LONG
  const AC_LUMA: Table := Table(0x10, AC_LUMA_COUNTS, AC_LUMA_SYMBOLS)

  const AC_CHROMA_COUNTS: seq<byte> := [0, 2, 1, 2, 4, 4, 3, 4, 7, 5, 4, 4, 0, 1, 2, 119]
  /** The symbols with codes of up to fifteen bits, and for each run the size from which on codes have sixteen. */
  const AC_CHROMA_SHORT: seq<byte> :=
    [0x00, 0x01, 0x02, 0x03, 0x11, 0x04, 0x05, 0x21, 0x31, 0x06, 0x12, 0x41, 0x51, 0x07, 0x61, 0x71, 0x13, 0x22,
     0x32, 0x81, 0x08, 0x14, 0x42, 0x91, 0xA1, 0xB1, 0xC1, 0x09, 0x23, 0x33, 0x52, 0xF0, 0x15, 0x62, 0x72, 0xD1,
     0x0A, 0x16, 0x24, 0x34, 0xE1, 0x25, 0xF1]
  const AC_CHROMA_FROM: seq<nat> := [11, 7, 6, 5, 3, 3, 3, 3, 2, 2, 2, 2, 2, 2, 2, 2]
  const AC_CHROMA_LONG: seq<byte> := AllSizes(AC_CHROMA_FROM, 16)
  const AC_CHROMA_SYMBOLS: seq<byte> := AC_CHROMA_SHORT + AC_CHROMA_LONG
  const AC_CHROMA: Table := Table(0x11, AC_CHROMA_COUNTS, AC_CHROMA_SYMBOLS)

  /** The 420 bytes: marker, length and the four tables. */
  const HUFFMAN_TABLE: seq<byte> :=
    [0xFF, DHT, 0x01, 0xA2] + DC_LUMA.Bytes() + DC_CHROMA.Bytes() + AC_LUMA.Bytes() + AC_CHROMA.Bytes()

  /** The number of codes of all sixteen lengths. */
  function Codes(n: seq<byte>): int
    requires |n| == 16
  {
    n[0] as int + n[1] as int + n[2] as int + n[3] as int + n[4] as int + n[5] as int + n[6] as int + n[7] as int +
    n[8] as int + n[9] as int + n[10] as int + n[11] as int + n[12] as int + n[13] as int + n[14] as int + n[15] as int
  }

  /** The code space they take: a code of length `i` covers `2^(16 - i)` of the `2^16` words of sixteen bits. */
  function CodeSpace(n: seq<byte>): int
    requires |n| == 16
  {
    32768 * n[0] as int + 16384 * n[1] as int + 8192 * n[2] as int + 4096 * n[3] as int +
    2048 * n[4] as int + 1024 * n[5] as int + 512 * n[6] as int + 256 * n[7] as int +
    128 * n[8] as int + 64 * n[9] as int + 32 * n[10] as int + 16 * n[11] as int +
    8 * n[12] as int + 4 * n[13] as int + 2 * n[14] as int + n[15] as int
  }

  /** One symbol per code, and room left for the code of ones only, which is reserved. */
  ghost predicate WellFormed(t: Table) {
    |t.counts| == 16 && Codes(t.counts) == |t.symbols| && CodeSpace(t.counts) < 65536
  }

  /** The segment holds four well-formed tables, DC and AC for two destinations, and its length field is right. */
  lemma TablesWellFormed()
    ensures WellFormed(DC_LUMA) && WellFormed(DC_CHROMA) && WellFormed(AC_LUMA) && WellFormed(AC_CHROMA)
    ensures [DC_LUMA.id, DC_CHROMA.id, AC_LUMA.id, AC_CHROMA.id] == [0x00, 0x01, 0x10, 0x11]
  {
    hide WellFormed, HUFFMAN_TABLE, DC_LUMA, DC_CHROMA, AC_LUMA, AC_CHROMA;
    DcTables();
    AcTables();
  }

  lemma DcTables()
    ensures WellFormed(DC_LUMA) && WellFormed(DC_CHROMA) && DC_LUMA.id == 0x00 && DC_CHROMA.id == 0x01
  {
    hide HUFFMAN_TABLE, AC_LUMA_LONG, AC_CHROMA_LONG, AllSizes;
  }

  lemma AcTables()
    ensures WellFormed(AC_LUMA) && WellFormed(AC_CHROMA) && AC_LUMA.id == 0x10 && AC_CHROMA.id == 0x11
  {
    hide HUFFMAN_TABLE, AC_LUMA_SYMBOLS, AC_CHROMA_SYMBOLS;
    SymbolCounts();
    assert Codes(AC_LUMA_COUNTS) == 162 && CodeSpace(AC_LUMA_COUNTS) < 65536;
    assert Codes(AC_CHROMA_COUNTS) == 162 && CodeSpace(AC_CHROMA_COUNTS) < 65536;
  }

  /** DC symbols are the sizes from 0 to 11, in this order for both tables. */
  lemma DcByLength()
    ensures DC_LUMA_COUNTS == [0, 1, 5, 1, 1, 1, 1, 1, 1, 0, 0, 0, 0, 0, 0, 0]
    ensures DC_CHROMA_COUNTS == [0, 3, 1, 1, 1, 1, 1, 1, 1, 1, 1, 0, 0, 0, 0, 0]
    ensures DC_LUMA_SYMBOLS == DC_CHROMA_SYMBOLS == seq(12, i requires 0 <= i < 12 => i)
  {
  }

  /** The symbols with codes of up to fifteen bits, one line for each length. */
  lemma LumaByLength()
    ensures AC_LUMA_COUNTS == [0, 2, 1, 3, 3, 2, 4, 3, 5, 5, 4, 4, 0, 0, 1, 125]
    ensures AC_LUMA_SHORT == [
      0x01, 0x02,
      0x03,
      0x00, 0x04, 0x11,
      0x05, 0x12, 0x21,
      0x31, 0x41,
      0x06, 0x13, 0x51, 0x61,
      0x07, 0x22, 0x71,
      0x14, 0x32, 0x81, 0x91, 0xA1,
      0x08, 0x23, 0x42, 0xB1, 0xC1,
      0x15, 0x52, 0xD1, 0xF0,
      0x24, 0x33, 0x62, 0x72,
      0x82]
  {
  }

  /** The symbols with codes of up to fifteen bits, one line for each length. */
  lemma ChromaByLength()
    ensures AC_CHROMA_COUNTS == [0, 2, 1, 2, 4, 4, 3, 4, 7, 5, 4, 4, 0, 1, 2, 119]
    ensures AC_CHROMA_SHORT == [
      0x00, 0x01,
      0x02,
      0x03, 0x11,
      0x04, 0x05, 0x21, 0x31,
      0x06, 0x12, 0x41, 0x51,
      0x07, 0x61, 0x71,
      0x13, 0x22, 0x32, 0x81,
      0x08, 0x14, 0x42, 0x91, 0xA1, 0xB1, 0xC1,
      0x09, 0x23, 0x33, 0x52, 0xF0,
      0x15, 0x62, 0x72, 0xD1,
      0x0A, 0x16, 0x24, 0x34,
      0xE1,
      0x25, 0xF1]
  {
  }

  /** Every pair of a run and a size has a code, and those of sixteen bits ascend. */
  lemma LumaComplete(run: nat, size: nat)
    requires run < 16 && 1 <= size <= 10
    ensures 16 * run + size in AC_LUMA_SYMBOLS
    ensures |AC_LUMA_SYMBOLS| == 16 * 10 + 2 && AC_LUMA_SYMBOLS[..|AC_LUMA_SHORT|] == AC_LUMA_SHORT
    ensures forall i, j | |AC_LUMA_SHORT| <= i < j < 162 :: AC_LUMA_SYMBOLS[i] < AC_LUMA_SYMBOLS[j]
  {
    hide AllSizes;
    LongLengths();
    SizesAscend(AC_LUMA_FROM, 16);
    if size >= AC_LUMA_FROM[run] {
      HasSizes(AC_LUMA_FROM, 16, run, size);
    } else {
      LumaShort(run, size);
    }
  }

  lemma LumaShort(run: nat, size: nat)
    requires run < 16 && 1 <= size < AC_LUMA_FROM[run]
    ensures 16 * run + size in AC_LUMA_SHORT
  {
  }

  /** Every pair of a run and a size has a code, and those of sixteen bits ascend. */
  lemma ChromaComplete(run: nat, size: nat)
    requires run < 16 && 1 <= size <= 10
    ensures 16 * run + size in AC_CHROMA_SYMBOLS
    ensures |AC_CHROMA_SYMBOLS| == 16 * 10 + 2 && AC_CHROMA_SYMBOLS[..|AC_CHROMA_SHORT|] == AC_CHROMA_SHORT
    ensures forall i, j | |AC_CHROMA_SHORT| <= i < j < 162 :: AC_CHROMA_SYMBOLS[i] < AC_CHROMA_SYMBOLS[j]
  {
    hide AllSizes;
    LongLengths();
    SizesAscend(AC_CHROMA_FROM, 16);
    if size >= AC_CHROMA_FROM[run] {
      HasSizes(AC_CHROMA_FROM, 16, run, size);
    } else {
      ChromaShort(run, size);
    }
  }

  lemma ChromaShort(run: nat, size: nat)
    requires run < 16 && 1 <= size < AC_CHROMA_FROM[run]
    ensures 16 * run + size in AC_CHROMA_SHORT
  {
  }

  lemma SymbolCounts()
    ensures |AC_LUMA_SYMBOLS| == |AC_CHROMA_SYMBOLS| == 162
  {
    hide AC_LUMA_LONG, AC_CHROMA_LONG;
    LongLengths();
  }

  lemma LongLengths()
    ensures |AC_LUMA_LONG| == 125 && |AC_CHROMA_LONG| == 119
  {
    hide AllSizes;
    TotalIs(AC_LUMA_FROM);
    TotalIs(AC_CHROMA_FROM);
  }

  lemma TableSize()
    ensures |HUFFMAN_TABLE| == 420 == 2 + (0x100 * 0x01 + 0xA2)
    ensures HUFFMAN_TABLE[0] == 0xFF && HUFFMAN_TABLE[1] == DHT && HUFFMAN_TABLE[2] == 0x01 && HUFFMAN_TABLE[3] == 0xA2
  {
    hide AC_LUMA_SYMBOLS, AC_CHROMA_SYMBOLS;
    SymbolCounts();
  }

  // ----- The scan -----

  datatype Scan = Invalid | OverRead | HasTables(end: nat) | NoTables(at: nat)

  /** Walks the segments from `p`: the position behind the first table segment, or of the start of scan. */
  function ScanFrom(src: seq<byte>, p: nat): (r: Scan)
    ensures r.HasTables? ==> p + 2 <= r.end <= |src|
    ensures r.NoTables? ==> p <= r.at && r.at + 2 <= |src| && src[r.at] == 0xFF && src[r.at + 1] == SOS
    decreases |src| - p
  {
    if p >= |src| then OverRead
    else if src[p] != 0xFF then Invalid
    else if p + 1 >= |src| then OverRead
    else if src[p + 1] == SOS then NoTables(p)
    else if p + 4 > |src| then OverRead
    else
      var next := p + 2 + (0x100 * src[p + 2] as int + src[p + 3] as int);
      if next > |src| then OverRead
      else if src[p + 1] == DHT then HasTables(next)
      else ScanFrom(src, next)
  }

  /** The check of the start of image: it only refuses a frame in which both bytes are wrong. */
  predicate StartRefused(src: seq<byte>)
    requires |src| >= 2
  {
    src[0] != 0xFF && src[1] != SOI
  }

  /** What the frame is rewritten to; `None` where the code refuses it or reads past its end. */
  function Rewritten(src: seq<byte>): Option<seq<byte>> {
    if |src| < 2 || StartRefused(src) then None
    else match ScanFrom(src, 2)
      case HasTables(_) => Some(src)
      case NoTables(at) => Some(src[..at] + HUFFMAN_TABLE + src[at..])
      case _ => None
  }

  datatype Outcome = Done | Refused | PastEnd

  /** The loop: copies segments up to the tables or the start of scan. */
  method CopySegments(src: seq<byte>, dst: array<byte>) returns (scan: Scan)
    requires 2 <= |src| <= dst.Length && dst[..2] == src[..2]
    modifies dst
    ensures scan == ScanFrom(src, 2)
    ensures scan.HasTables? ==> dst[..scan.end] == src[..scan.end]
    ensures scan.NoTables? ==> dst[..scan.at] == src[..scan.at]
  {
    var ptr: nat := 2;
    var hasDht := false;
    while !hasDht
      invariant 2 <= ptr <= |src| && dst[..ptr] == src[..ptr]
      invariant if hasDht then ScanFrom(src, 2) == HasTables(ptr) else ScanFrom(src, 2) == ScanFrom(src, ptr)
      decreases |src| - ptr, if hasDht then 0 else 1
    {
      if ptr >= |src| {
        return OverRead;
      }
      if src[ptr] != 0xFF {
        return Invalid;
      }
      if ptr + 1 >= |src| {
        return OverRead;
      }
      if src[ptr + 1] == DHT {
        hasDht := true;
      } else if src[ptr + 1] == SOS {
        break;
      }
      if ptr + 4 > |src| {
        return OverRead;
      }
      var length := 0x100 * src[ptr + 2] as int + src[ptr + 3] as int;
      if ptr + 2 + length > |src| {
        return OverRead;
      }
      CopyBehind(dst, ptr, src, ptr, 2 + length);
      ptr := ptr + 2 + length;
    }
    scan := if hasDht then HasTables(ptr) else NoTables(ptr);
  }

  /** Rewrites a frame; the size returned is zero for a frame that is refused. */
  method EncodeMjpeg(src: seq<byte>, dst: array<byte>) returns (outcome: Outcome, size: nat)
    requires dst.Length >= |src| + 420
    modifies dst
    ensures outcome == Done <==> Rewritten(src).Some?
    ensures outcome == Done ==> size == |Rewritten(src).value| <= dst.Length && dst[..size] == Rewritten(src).value
    ensures outcome != Done ==> size == 0
    ensures outcome == Refused <==> |src| >= 2 && (StartRefused(src) || ScanFrom(src, 2) == Invalid)
  {
    hide HUFFMAN_TABLE, AC_LUMA_LONG, AC_CHROMA_LONG, AllSizes, ScanFrom;
    TableSize();
    if |src| < 2 {
      return PastEnd, 0;
    }
    if src[0] != 0xFF && src[1] != SOI {
      return Refused, 0;
    }
    dst[0], dst[1] := src[0], src[1];
    var scan := CopySegments(src, dst);
    match scan {
    case Invalid => return Refused, 0;
    case OverRead => return PastEnd, 0;
    case HasTables(ptr) =>
      CopyBehind(dst, ptr, src, ptr, |src| - ptr);
      outcome, size := Done, |src|;
      Joined(src, ptr, []);
    case NoTables(ptr) =>
      size := InsertTables(src, dst, ptr);
      outcome := Done;
    }
  }

  /** The tables, and the rest of the frame behind them. */
  method InsertTables(src: seq<byte>, dst: array<byte>, ptr: nat) returns (size: nat)
    requires dst.Length >= |src| + 420 && ptr <= |src| && dst[..ptr] == src[..ptr]
    modifies dst
    ensures size == |src| + 420 && dst[..size] == src[..ptr] + HUFFMAN_TABLE + src[ptr..]
  {
    hide HUFFMAN_TABLE, AC_LUMA_LONG, AC_CHROMA_LONG, AllSizes;
    TableSize();
    CopyBehind(dst, ptr, HUFFMAN_TABLE, 0, 420);
    CopyBehind(dst, ptr + 420, src, ptr, |src| - ptr);
    size := 420 + |src|;
    Joined(src, ptr, HUFFMAN_TABLE);
  }

  lemma Joined(src: seq<byte>, p: nat, mid: seq<byte>)
    requires p <= |src|
    ensures src[p..p + (|src| - p)] == src[p..] && mid[0..|mid|] == mid
    ensures mid == [] ==> src[..p] + mid + src[p..] == src
  {
  }

  /** `memcpy` behind the bytes written so far. */
  method CopyBehind(dst: array<byte>, d: nat, src: seq<byte>, s: nat, n: nat)
    requires d + n <= dst.Length && s + n <= |src|
    modifies dst
    ensures dst[..d + n] == old(dst[..d]) + src[s..s + n]
  {
    ghost var was := dst[..d];
    Memory.Copy(dst, d, src, s, n);
    CopiedBehind(dst[..], was, src, d, s, n);
    assert dst[..][..d + n] == dst[..d + n];
  }

  lemma CopiedBehind(dst: seq<byte>, was: seq<byte>, src: seq<byte>, d: nat, s: nat, n: nat)
    requires d + n <= |dst| && s + n <= |src| && |was| == d && forall q :: 0 <= q < d ==> dst[q] == was[q]
    requires forall q :: d <= q < d + n ==> dst[q] == src[s + (q - d)]
    ensures dst[..d + n] == was + src[s..s + n]
  {
  }

  // ----- Well-formed frames -----

  /** A marker segment: the length field counts itself and the payload. */
  datatype Segment = Segment(marker: byte, payload: seq<byte>) {
    predicate Ok() {
      |payload| + 2 < 0x1_0000
    }

    function Bytes(): seq<byte>
      requires Ok()
    {
      var n := |payload| + 2;
      [0xFF, marker, n / 0x100, n % 0x100] + payload
    }
  }

  function Bytes(segments: seq<Segment>): seq<byte>
    requires forall s | s in segments :: s.Ok()
    decreases |segments|
  {
    if segments == [] then [] else segments[0].Bytes() + Bytes(segments[1..])
  }

  /** The scan passes from a segment to the next; the length field counts its own two bytes and the payload. */
  lemma SegmentScanned(src: seq<byte>, p: nat, s: Segment)
    requires s.Ok() && s.marker != SOS && p <= |src| && s.Bytes() <= src[p..]
    ensures var n := |s.payload| + 2; s.Bytes() == [0xFF, s.marker, n / 0x100, n % 0x100] + s.payload
    ensures p + |s.Bytes()| <= |src|
    ensures ScanFrom(src, p) == if s.marker == DHT then HasTables(p + |s.Bytes()|) else ScanFrom(src, p + |s.Bytes()|)
  {
    var b := s.Bytes();
    assert src[p..][0] == b[0] && src[p..][1] == b[1] && src[p..][2] == b[2] && src[p..][3] == b[3];
  }

  lemma BytesAhead(src: seq<byte>, p: nat, a: seq<byte>, b: seq<byte>)
    requires p <= |src| && a + b <= src[p..]
    ensures p + |a| <= |src| && a <= src[p..] && b <= src[p + |a|..]
  {
    assert src[p..][..|a|] == (a + b)[..|a|] == a;
    assert src[p + |a|..] == src[p..][|a|..];
    assert src[p..][|a|..][..|b|] == (a + b)[|a|..] == b;
  }

  /** The scan passes over segments that are neither tables nor the start of scan. */
  lemma {:induction false} SegmentsScanned(src: seq<byte>, p: nat, segments: seq<Segment>)
    requires forall s | s in segments :: s.Ok() && s.marker != SOS && s.marker != DHT
    requires p <= |src| && Bytes(segments) <= src[p..]
    ensures ScanFrom(src, p) == ScanFrom(src, p + |Bytes(segments)|)
    decreases |segments|
  {
    hide ScanFrom, Segment.Bytes;
    if segments != [] {
      var s := segments[0];
      BytesAhead(src, p, s.Bytes(), Bytes(segments[1..]));
      SegmentScanned(src, p, s);
      SegmentsScanned(src, p + |s.Bytes()|, segments[1..]);
    }
  }

  function Frame(segments: seq<Segment>, rest: seq<byte>): seq<byte>
    requires forall s | s in segments :: s.Ok()
  {
    [0xFF, SOI] + Bytes(segments) + rest
  }

  /** A well-formed frame without tables gets them right before its start of scan. */
  lemma TablesSplicedIn(segments: seq<Segment>, scan: seq<byte>)
    requires forall s | s in segments :: s.Ok() && s.marker != 0xDA && s.marker != 0xC4
    requires |scan| >= 2 && scan[0] == 0xFF && scan[1] == 0xDA
    ensures Rewritten([0xFF, 0xD8] + Bytes(segments) + scan) ==
      Some([0xFF, 0xD8] + Bytes(segments) + (HUFFMAN_TABLE + scan))
  {
    hide HUFFMAN_TABLE, AllSizes, ScanFrom, Bytes, Rewritten;
    var src := Frame(segments, scan);
    InFrame(Bytes(segments), scan);
    SegmentsScanned(src, 2, segments);
    InsertedBefore(src, [0xFF, SOI] + Bytes(segments), scan);
  }

  lemma InsertedBefore(src: seq<byte>, before: seq<byte>, scan: seq<byte>)
    requires src == before + scan && |before| >= 2 && before[0] == 0xFF && before[1] == SOI
    requires |scan| >= 2 && scan[0] == 0xFF && scan[1] == SOS && ScanFrom(src, 2) == ScanFrom(src, |before|)
    ensures Rewritten(src) == Some(before + (HUFFMAN_TABLE + scan))
  {
    hide HUFFMAN_TABLE, AllSizes, ScanFrom;
    var at := |before|;
    assert src[at] == scan[0] && src[at + 1] == scan[1] && src[0] == before[0] && src[1] == before[1];
    StartOfScan(src, at);
    assert src[..at] == before && src[at..] == scan;
    Append(before, HUFFMAN_TABLE, scan);
  }

  lemma InFrame(mid: seq<byte>, scan: seq<byte>)
    ensures var src, at := [0xFF, SOI] + mid + scan, 2 + |mid|;
      mid <= src[2..] && src[..at] == [0xFF, SOI] + mid && src[at..] == scan && src[0] == 0xFF && src[1] == SOI
  {
    var src, at := [0xFF, SOI] + mid + scan, 2 + |mid|;
    assert src[2..] == mid + scan;
  }

  lemma StartOfScan(src: seq<byte>, at: nat)
    requires at + 2 <= |src| && src[at] == 0xFF && src[at + 1] == SOS
    ensures ScanFrom(src, at) == NoTables(at)
  {
  }

  /** A well-formed frame with tables in front of the start of scan is left alone. */
  lemma TablesKept(segments: seq<Segment>, tables: Segment, rest: seq<byte>)
    requires forall s | s in segments :: s.Ok() && s.marker != 0xDA && s.marker != 0xC4
    requires tables.Ok() && tables.marker == 0xC4
    ensures Rewritten(Frame(segments, tables.Bytes() + rest)) == Some(Frame(segments, tables.Bytes() + rest))
  {
    hide HUFFMAN_TABLE, AllSizes, ScanFrom, Bytes, Segment.Bytes;
    var src, at := Frame(segments, tables.Bytes() + rest), 2 + |Bytes(segments)|;
    InFrame(Bytes(segments), tables.Bytes() + rest);
    SegmentsScanned(src, 2, segments);
    SegmentScanned(src, at, tables);
  }

  /** Inserting once is enough: the tables found are those put in before. */
  lemma {:induction false} ScanAfterInsertion(src: seq<byte>, p: nat, at: nat, dst: seq<byte>)
    requires ScanFrom(src, p) == NoTables(at) && dst == src[..at] + HUFFMAN_TABLE + src[at..]
    ensures ScanFrom(dst, p).HasTables?
    decreases |src| - p
  {
    hide HUFFMAN_TABLE, AC_LUMA_LONG, AC_CHROMA_LONG, AllSizes;
    TableSize();
    if p == at {
      assert dst[at] == HUFFMAN_TABLE[0] && dst[at + 1] == HUFFMAN_TABLE[1] && dst[at + 2] == HUFFMAN_TABLE[2]
        && dst[at + 3] == HUFFMAN_TABLE[3];
    } else {
      var next := p + 2 + (0x100 * src[p + 2] as int + src[p + 3] as int);
      ScanAfterInsertion(src, next, at, dst);
      assert next <= at && p + 4 <= at;
      assert dst[p] == src[p] && dst[p + 1] == src[p + 1] && dst[p + 2] == src[p + 2] && dst[p + 3] == src[p + 3];
    }
  }

  lemma Idempotent(src: seq<byte>)
    requires Rewritten(src).Some?
    ensures Rewritten(Rewritten(src).value) == Rewritten(src)
  {
    hide HUFFMAN_TABLE, AC_LUMA_LONG, AC_CHROMA_LONG, AllSizes, ScanFrom;
    TableSize();
    if ScanFrom(src, 2).NoTables? {
      ScanAfterInsertion(src, 2, ScanFrom(src, 2).at, Rewritten(src).value);
    }
  }

  /**
    The check of the first two bytes lets a frame pass without a start of image: it is right exactly if
    not just one byte is.
  */
  lemma StartCheck(src: seq<byte>)
    requires |src| >= 2
    ensures StartRefused(src) == !(src[0] == 0xFF && src[1] == 0xD8) <==> (src[0] == 0xFF) == (src[1] == 0xD8)
    ensures !StartRefused([0xFF, 0xD9, 0xFF, SOS]) && Rewritten([0xFF, 0xD9, 0xFF, SOS]).Some?
  {
    hide HUFFMAN_TABLE, AllSizes;
    StartOfScan([0xFF, 0xD9, 0xFF, SOS], 2);
  }
}
