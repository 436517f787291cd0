/** The bit reader over 16-bit little-endian words, the expanded VLC table and the symbol reader. */
module JpglReader {
  import opened Bits
  import opened JpglVlc

  /** Sixteen bits of the word at byte `2 * k` of a queue, most significant bit first. */
  function Word(q: seq<byte>, k: nat): (w: nat)
    requires 2 * k + 1 < |q|
    ensures w < Pow2(16)
  {
    Pow2Values();
    q[2 * k] + 0x100 * (q[2 * k + 1] as int)
  }

  /** The stream a queue holds. */
  function Stream(q: seq<byte>): (s: seq<bool>)
    ensures |s| == 16 * (|q| / 2)
  {
    seq(16 * (|q| / 2), i requires 0 <= i < 16 * (|q| / 2) => StreamBit(q, i / 16, i % 16))
  }

  function StreamBit(q: seq<byte>, k: nat, i: nat): bool
    requires 2 * k + 1 < |q| && i < 16
  {
    ToBits(Word(q, k), 16)[i]
  }

  lemma StreamWord(q: seq<byte>, k: nat)
    requires 2 * k + 1 < |q|
    ensures Stream(q)[16 * k..16 * k + 16] == ToBits(Word(q, k), 16)
  {
    hide Pow2, ToBits, Num, Word;
    var s := Stream(q)[16 * k..16 * k + 16];
    forall i | 0 <= i < 16
      ensures s[i] == StreamBit(q, k, i)
    {
      assert (16 * k + i) / 16 == k && (16 * k + i) % 16 == i;
    }
  }

  /** The second byte of each pair comes first, and of each byte the highest bit. */
  lemma StreamOrder(q: seq<byte>, k: nat, i: nat)
    requires k < |q| / 2 && 2 * k + 1 < |q| && i < 8
    ensures 16 * k + 16 <= |Stream(q)|
    ensures Stream(q)[16 * k + i] == (Shr(q[2 * k + 1], 7 - i) % 2 == 1)
    ensures Stream(q)[16 * k + 8 + i] == (Shr(q[2 * k], 7 - i) % 2 == 1)
  {
    hide Pow2, ToBits, Num;
    var s := ToBits(Word(q, k), 16);
    var n := 16 * k + 8 + i;
    assert (16 * k + i) / 16 == k && (16 * k + i) % 16 == i && n / 16 == k && n % 16 == 8 + i;
    assert s == s[..8] + s[8..];
    Pow2Values();
    NumSplit(s, 8);
    assert Num(s[..8]) == q[2 * k + 1] && Num(s[8..]) == q[2 * k];
    NumBit(s[..8], i);
    NumBit(s[8..], i);
  }

  class BitReader {
    var curBit: int
    var curData: nat
    var ri: nat
    const queue: seq<byte>

    /** Bits consumed since `Init`. */
    ghost function Pos(): int
      reads this
    {
      8 * ri - curBit
    }

    /** The bits not yet consumed. */
    ghost function Rest(): seq<bool>
      requires 0 <= Pos() <= |Stream(queue)|
      reads this
    {
      Stream(queue)[Pos()..]
    }

    ghost predicate Valid()
      reads this
    {
      Buffered(queue, ri, curBit, curData)
    }

    constructor Init(q: seq<byte>)
      requires |q| >= 4
      ensures Valid() && queue == q && Rest() == Stream(q)
    {
      queue := q;
      curBit := 16;
      curData := q[2] + 0x100 * (q[3] as int) + 0x1_0000 * (q[0] as int) + 0x100_0000 * (q[1] as int);
      ri := 2;
      new;
      hide Buffered, Stream;
      InitBuffered(q);
    }

    method Peek(n: nat) returns (v: nat)
      requires Valid() && n <= 17
      ensures v == Num(Rest()[..n])
    {
      hide Pow2, ToBits, Num, BitOr, Stream, Image;
      v := Shr(curData, 32 - n);
      PeekImage(Stream(queue)[Pos()..8 * ri + 16], n);
      assert Rest()[..n] == Stream(queue)[Pos()..8 * ri + 16][..n];
    }

    /** Drops `n` bits; the queue has to be padded, as the code refills without looking at its length. */
    method Flush(n: nat)
      requires Valid() && n <= 16 && |Rest()| >= n + 32
      modifies this`curBit, this`curData, this`ri
      ensures Valid() && Rest() == old(Rest())[n..]
    {
      hide Pow2, ToBits, Num, BitOr, Shl, Stream, Image;
      ghost var s, pos := Stream(queue), Pos();
      FlushKeeps(queue, ri, curBit, curData, n);
      curData := Shl(curData, n) % 0x1_0000_0000;
      curBit := curBit - n;
      if curBit <= 0 {
        curData := BitOr(curData, BitOr(Shl(queue[ri + 2], -curBit), Shl(queue[ri + 3], 8 - curBit)));
        ri := ri + 2;
        curBit := curBit + 16;
      }
      assert Rest() == s[pos + n..] == s[pos..][n..];
    }
  }

  /** The top `16 + curBit` bits of the 32-bit `curData` are the next stream bits, the others are zero. */
  ghost predicate Buffered(q: seq<byte>, ri: nat, curBit: int, curData: nat) {
    && ri % 2 == 0 && ri >= 2
    && 1 <= curBit <= 16
    && 8 * ri + 16 <= |Stream(q)|
    && curData == Image(Stream(q)[8 * ri - curBit..8 * ri + 16])
  }

  lemma FlushKeeps(q: seq<byte>, ri: nat, curBit: int, curData: nat, n: nat)
    requires Buffered(q, ri, curBit, curData) && n <= 16 && 8 * ri - curBit + n + 32 <= |Stream(q)|
    ensures curBit > n ==> Buffered(q, ri, curBit - n, Shl(curData, n) % 0x1_0000_0000)
    ensures curBit <= n ==>
      Buffered(q, ri + 2, curBit - n + 16,
        BitOr(Shl(curData, n) % 0x1_0000_0000, BitOr(Shl(q[ri + 2], n - curBit), Shl(q[ri + 3], 8 + (n - curBit)))))
  {
    hide Pow2, ToBits, Num, BitOr, Shl, Stream, Image;
    var s, pos, end := Stream(q), 8 * ri - curBit, 8 * ri + 16;
    ShiftImage(s[pos..end], n);
    assert s[pos..end][n..] == s[pos + n..end];
    if curBit <= n {
      RefillStream(q, pos + n, ri, n - curBit);
    }
  }

  lemma RefillStream(q: seq<byte>, from: nat, ri: nat, shift: nat)
    requires ri % 2 == 0 && 8 * ri + 32 <= |Stream(q)| && from + 16 == 8 * ri + 16 + shift && shift <= 15
    ensures BitOr(Image(Stream(q)[from..8 * ri + 16]), BitOr(Shl(q[ri + 2], shift), Shl(q[ri + 3], 8 + shift)))
         == Image(Stream(q)[from..8 * ri + 32])
  {
    hide Pow2, ToBits, Num, BitOr, Shl, Stream, Image;
    var s, end, k := Stream(q), 8 * ri + 16, ri / 2 + 1;
    StreamWord(q, k);
    assert s[from..end + 16] == s[from..end] + s[end..end + 16];
    assert Word(q, k) == q[ri + 2] + 0x100 * (q[ri + 3] as int);
    RefillImage(s[from..end], shift, q[ri + 2], q[ri + 3], Word(q, k));
  }

  /** A 32-bit word holding the bits `w` on top of zeros. */
  ghost function Image(w: seq<bool>): nat
    requires |w| <= 32
  {
    Shl(Num(w), 32 - |w|)
  }

  lemma InitBuffered(q: seq<byte>)
    requires |q| >= 4
    ensures var data := q[2] + 0x100 * (q[3] as int) + 0x1_0000 * (q[0] as int) + 0x100_0000 * (q[1] as int);
      Buffered(q, 2, 16, data) && Stream(q)[0..] == Stream(q)
  {
    hide Pow2, ToBits, Num, Stream, Image;
    InitImage(q);
  }

  lemma InitImage(q: seq<byte>)
    requires |q| >= 4
    ensures Image(Stream(q)[..32]) == q[2] + 0x100 * (q[3] as int) + 0x1_0000 * (q[0] as int) +
      0x100_0000 * (q[1] as int)
  {
    hide Pow2, ToBits, Num, Stream, Image;
    StreamWord(q, 0);
    StreamWord(q, 1);
    assert Stream(q)[..32] == Stream(q)[16 * 0..16 * 0 + 16] + Stream(q)[16 * 1..16 * 1 + 16];
    TwoWords(Word(q, 0), Word(q, 1));
  }

  lemma TwoWords(v: nat, w: nat)
    requires v < Pow2(16) && w < Pow2(16)
    ensures Image(ToBits(v, 16) + ToBits(w, 16)) == v * 0x1_0000 + w
  {
    hide Pow2, ToBits, Num;
    NumConcat(ToBits(v, 16), ToBits(w, 16));
    Pow2Values();
  }

  lemma PeekImage(w: seq<bool>, n: nat)
    requires 17 <= |w| <= 32 && n <= 17
    ensures Shr(Image(w), 32 - n) == Num(w[..n])
  {
    hide Pow2, Num;
    NumSplit(w, n);
    Pow2Add(|w| - n, 32 - |w|);
    ScaledDivMod(Num(w[..n]), Pow2(|w| - n), Num(w[n..]), Pow2(32 - |w|));
  }

  lemma ShiftImage(w: seq<bool>, n: nat)
    requires n <= 16 <= |w| <= 32
    ensures Shl(Image(w), n) % 0x1_0000_0000 == Image(w[n..])
  {
    hide Pow2, Num;
    NumSplit(w, n);
    Pow2Add(32 - |w|, n);
    Associate(Num(w), Pow2(32 - |w|), Pow2(n));
    Pow2Add(|w| - n, 32 - |w| + n);
    Pow2Values();
    ScaledDivMod(Num(w[..n]), Pow2(|w| - n), Num(w[n..]), Pow2(32 - |w| + n));
  }

  lemma Associate(a: nat, b: nat, c: nat)
    ensures a * b * c == a * (b * c)
  {
  }

  /** The bytes of a word do not overlap, wherever the word is shifted. */
  lemma WordShifted(shift: nat, lo: byte, hi: byte)
    ensures BitOr(Shl(lo, shift), Shl(hi, 8 + shift)) == Shl(lo + 0x100 * (hi as int), shift)
  {
    hide Pow2, BitOr;
    Pow2Values();
    Pow2Add(8, shift);
    ByteFits(lo, Pow2(shift));
    BitOrDisjoint(hi, 8 + shift, Shl(lo, shift));
    Gather(lo, hi, Pow2(shift));
  }

  lemma ByteFits(b: byte, p: nat)
    requires p > 0
    ensures b * p < 0x100 * p
  {
    MulMonotone(p, b, 0xFF);
  }

  lemma Gather(lo: byte, hi: byte, p: nat)
    ensures lo * p + hi * (0x100 * p) == (lo + 0x100 * (hi as int)) * p
  {
  }

  /** Or-ing the shifted bytes of the next word below `s` appends its bits. */
  lemma RefillImage(s: seq<bool>, shift: nat, lo: byte, hi: byte, word: nat)
    requires |s| + shift == 16 && word == lo + 0x100 * (hi as int) < Pow2(16)
    ensures BitOr(Image(s), BitOr(Shl(lo, shift), Shl(hi, 8 + shift))) == Image(s + ToBits(word, 16))
  {
    hide Pow2, Num, ToBits, BitOr;
    WordShifted(shift, lo, hi);
    NumConcat(s, ToBits(word, 16));
    Refill(Num(s), word, shift);
  }

  lemma Refill(n: nat, word: nat, shift: nat)
    requires word < Pow2(16)
    ensures BitOr(Shl(n, 16 + shift), Shl(word, shift)) == Shl(Shl(n, 16) + word, shift)
  {
    hide Pow2, BitOr;
    Pow2Values();
    Pow2Add(16, shift);
    WordFits(word, Pow2(shift));
    BitOrDisjoint(n, 16 + shift, Shl(word, shift));
    Distribute(n, Pow2(16), word, Pow2(shift));
  }

  lemma WordFits(word: nat, p: nat)
    requires word < 0x1_0000 && p > 0
    ensures word * p < 0x1_0000 * p
  {
    MulMonotone(p, word, 0xFFFF);
  }
}
