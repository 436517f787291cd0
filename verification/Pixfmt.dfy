/**
  Packed YUV 4:2:2 to planar: the scalar loops and the SSE2 and SSSE3 forms of one of them.
  A register is sixteen bytes; the instructions work on its 8, 16 and 32-bit lanes.
*/
module Pixfmt {
  import Bits

  // ----- Registers and instructions -----

  type Reg = r: seq<bv8> | |r| == 16 witness [0, 0, 0, 0, 0, 0, 0, 0, 0, 0, 0, 0, 0, 0, 0, 0]

  function Byte64(x: bv64, i: nat): bv8
    requires i < 8
  {
    if i == 0 then (x & 0xFF) as bv8 else if i == 1 then ((x >> 8) & 0xFF) as bv8
    else if i == 2 then ((x >> 16) & 0xFF) as bv8 else if i == 3 then ((x >> 24) & 0xFF) as bv8
    else if i == 4 then ((x >> 32) & 0xFF) as bv8 else if i == 5 then ((x >> 40) & 0xFF) as bv8
    else if i == 6 then ((x >> 48) & 0xFF) as bv8 else ((x >> 56) & 0xFF) as bv8
  }

  /** A constant register, given as two little-endian words. */
  function Const128(lo: bv64, hi: bv64): Reg {
    seq(16, i requires 0 <= i < 16 => if i < 8 then Byte64(lo, i) else Byte64(hi, i - 8))
  }

  function And(a: Reg, b: Reg): Reg {
    seq(16, i requires 0 <= i < 16 => a[i] & b[i])
  }

  function Or(a: Reg, b: Reg): Reg {
    seq(16, i requires 0 <= i < 16 => a[i] | b[i])
  }

  /** `_mm_shuffle_epi8`: each control byte selects a byte, or zero if its top bit is set. */
  function Shuffle(a: Reg, control: Reg): Reg {
    seq(16, i requires 0 <= i < 16 => if control[i] & 0x80 != 0 then 0 else a[(control[i] & 0x0F) as int])
  }

  function Word16(lo: bv8, hi: bv8): bv16 { (hi as bv16 << 8) | lo as bv16 }

  function Word32(b0: bv8, b1: bv8, b2: bv8, b3: bv8): bv32 {
    (b3 as bv32 << 24) | (b2 as bv32 << 16) | (b1 as bv32 << 8) | b0 as bv32
  }

  function Lane16(a: Reg, k: nat): bv16
    requires k < 8
  {
    Word16(a[2 * k], a[2 * k + 1])
  }

  function Lane32(a: Reg, k: nat): bv32
    requires k < 4
  {
    Word32(a[4 * k], a[4 * k + 1], a[4 * k + 2], a[4 * k + 3])
  }

  function Low8(x: bv16): bv8 { (x & 0xFF) as bv8 }
  function High8(x: bv16): bv8 { (x >> 8) as bv8 }

  /** A signed word saturated to an unsigned byte. */
  function SaturateU8(x: bv16): bv8 {
    if x & 0x8000 != 0 then 0 else if x > 0xFF then 0xFF else x as bv8
  }

  /** A signed double word saturated to a signed word. */
  function SaturateS16(x: bv32): bv16 {
    if x & 0x8000_0000 == 0 then (if x > 0x7FFF then 0x7FFF else x as bv16)
    else if x < 0xFFFF_8000 then 0x8000 else (x & 0xFFFF) as bv16
  }

  /** `_mm_packus_epi16`. */
  function PackUs16(a: Reg, b: Reg): Reg {
    seq(16, i requires 0 <= i < 16 => SaturateU8(if i < 8 then Lane16(a, i) else Lane16(b, i - 8)))
  }

  /** `_mm_packs_epi32`. */
  function PackS32(a: Reg, b: Reg): Reg {
    seq(16, i requires 0 <= i < 16 =>
      var x := SaturateS16(if i < 8 then Lane32(a, i / 2) else Lane32(b, i / 2 - 4));
      if i % 2 == 0 then Low8(x) else High8(x))
  }

  function Byte32(x: bv32, j: nat): bv8 {
    if j == 0 then (x & 0xFF) as bv8 else if j == 1 then ((x >> 8) & 0xFF) as bv8
    else if j == 2 then ((x >> 16) & 0xFF) as bv8 else (x >> 24) as bv8
  }

  function Shr32(x: bv32, bits: nat): bv32
    requires bits == 8 || bits == 24
  {
    if bits == 8 then x >> 8 else x >> 24
  }

  /** `_mm_srli_epi32` by whole bytes, 8 or 24 bits. */
  function ShiftRight32(a: Reg, bits: nat): Reg
    requires bits == 8 || bits == 24
  {
    seq(16, i requires 0 <= i < 16 =>
      Byte32(Shr32(Lane32(a, i / 4), bits), i % 4))
  }

  // ----- One block of 64 source bytes -----

  const Y_MASK := Const128(0x00FF00FF00FF00FF, 0x00FF00FF00FF00FF)
  const U_MASK := Const128(0x0000FF000000FF00, 0x0000FF000000FF00)
  const V_MASK := Const128(0xFF000000FF000000, 0xFF000000FF000000)

  lemma Masks(i: nat)
    requires i < 16
    ensures Y_MASK[i] == if i % 2 == 0 then 0xFF else 0
    ensures U_MASK[i] == if i % 4 == 1 then 0xFF else 0
    ensures V_MASK[i] == if i % 4 == 3 then 0xFF else 0
  {
  }

  /** Every second byte of two registers. */
  function PackY(a: Reg, b: Reg): Reg { PackUs16(And(a, Y_MASK), And(b, Y_MASK)) }

  lemma MaskByte(x: bv8)
    ensures x & 0xFF == x && x & 0 == 0
    ensures Word16(x, 0) <= 0xFF && SaturateU8(Word16(x, 0)) == x
  {
  }

  /** The luma lanes of one register: even bytes, so none saturates. */
  lemma LumaLane(r: Reg, k: nat)
    requires k < 8
    ensures Lane16(And(r, Y_MASK), k) == Word16(r[2 * k], 0) <= 0xFF
    ensures SaturateU8(Lane16(And(r, Y_MASK), k)) == r[2 * k]
  {
    hide Y_MASK, SaturateU8, Word16;
    Masks(2 * k);
    Masks(2 * k + 1);
    MaskByte(r[2 * k]);
    MaskByte(r[2 * k + 1]);
  }

  lemma PackYIs(a: Reg, b: Reg, i: nat)
    requires i < 16
    ensures PackY(a, b)[i] == if i < 8 then a[2 * i] else b[2 * i - 16]
  {
    hide Y_MASK, SaturateU8, And, Lane16;
    if i < 8 {
      LumaLane(a, i);
    } else {
      LumaLane(b, i - 8);
    }
  }

  /** One chroma channel of four registers: masked, shifted to the bottom of its lane, packed twice. */
  function Chroma(r: Reg, mask: Reg, bits: nat): Reg
    requires bits == 8 || bits == 24
  {
    ShiftRight32(And(r, mask), bits)
  }

  function PackChroma(a: Reg, b: Reg, c: Reg, d: Reg, mask: Reg, bits: nat): Reg
    requires bits == 8 || bits == 24
  {
    PackUs16(PackS32(Chroma(a, mask, bits), Chroma(b, mask, bits)),
             PackS32(Chroma(c, mask, bits), Chroma(d, mask, bits)))
  }

  function MaskOf(bits: nat): Reg { if bits == 8 then U_MASK else V_MASK }

  lemma ShiftedByte(x: bv8)
    ensures x & 0xFF == x && x & 0 == 0
    ensures Shr32(Word32(0, x, 0, 0), 8) == Word32(x, 0, 0, 0) == Shr32(Word32(0, 0, 0, x), 24)
    ensures Byte32(Word32(x, 0, 0, 0), 0) == x
    ensures Byte32(Word32(x, 0, 0, 0), 1) == Byte32(Word32(x, 0, 0, 0), 2) == Byte32(Word32(x, 0, 0, 0), 3) == 0
    ensures Word32(x, 0, 0, 0) <= 0x7FFF && SaturateS16(Word32(x, 0, 0, 0)) == Word16(x, 0)
    ensures Low8(Word16(x, 0)) == x && High8(Word16(x, 0)) == 0
    ensures Word16(x, 0) <= 0xFF && SaturateU8(Word16(x, 0)) == x
  {
  }

  lemma MaskedLane(r: Reg, k: nat)
    requires k < 4
    ensures Lane32(And(r, U_MASK), k) == Word32(0, r[4 * k + 1], 0, 0)
    ensures Lane32(And(r, V_MASK), k) == Word32(0, 0, 0, r[4 * k + 3])
  {
    hide U_MASK, V_MASK, Word32;
    forall i | 4 * k <= i < 4 * k + 4
      ensures And(r, U_MASK)[i] == if i == 4 * k + 1 then r[i] else 0
      ensures And(r, V_MASK)[i] == if i == 4 * k + 3 then r[i] else 0
    {
      Masks(i);
      ShiftedByte(r[i]);
    }
  }

  lemma ShiftedLane(a: Reg, bits: nat, k: nat)
    requires k < 4 && (bits == 8 || bits == 24)
    ensures var w := Shr32(Lane32(a, k), bits);
      Lane32(ShiftRight32(a, bits), k) == Word32(Byte32(w, 0), Byte32(w, 1), Byte32(w, 2), Byte32(w, 3))
  {
    hide Word32, Shr32, Byte32;
    assert (4 * k) / 4 == (4 * k + 1) / 4 == (4 * k + 2) / 4 == (4 * k + 3) / 4 == k;
    assert (4 * k) % 4 == 0 && (4 * k + 1) % 4 == 1 && (4 * k + 2) % 4 == 2 && (4 * k + 3) % 4 == 3;
  }

  /** A chroma lane holds just its byte, so no pack saturates. */
  lemma ChromaLane(r: Reg, bits: nat, k: nat)
    requires k < 4 && (bits == 8 || bits == 24)
    ensures Lane32(Chroma(r, MaskOf(bits), bits), k) == Word32(r[4 * k + bits / 8], 0, 0, 0) <= 0x7FFF
  {
    hide U_MASK, V_MASK, Word32, Shr32, Byte32, And, Lane32, ShiftRight32;
    MaskedLane(r, k);
    ShiftedLane(And(r, MaskOf(bits)), bits, k);
    ShiftedByte(r[4 * k + bits / 8]);
  }

  lemma PackedLane(a: Reg, b: Reg, bits: nat, k: nat)
    requires k < 8 && (bits == 8 || bits == 24)
    ensures var x := if k < 4 then a[4 * k + bits / 8] else b[4 * k - 16 + bits / 8];
      Lane16(PackS32(Chroma(a, MaskOf(bits), bits), Chroma(b, MaskOf(bits), bits)), k) == Word16(x, 0) <= 0xFF
  {
    hide Chroma, Word32, Word16, Shr32, Byte32, MaskOf, Lane32, Low8, High8, SaturateS16;
    var x := if k < 4 then a[4 * k + bits / 8] else b[4 * k - 16 + bits / 8];
    if k < 4 {
      ChromaLane(a, bits, k);
    } else {
      ChromaLane(b, bits, k - 4);
    }
    ShiftedByte(x);
    assert (2 * k) / 2 == (2 * k + 1) / 2 == k;
  }

  lemma PackChromaIs(a: Reg, b: Reg, c: Reg, d: Reg, bits: nat, i: nat)
    requires i < 16 && (bits == 8 || bits == 24)
    ensures PackChroma(a, b, c, d, MaskOf(bits), bits)[i] ==
      (if i < 4 then a[4 * i + bits / 8] else if i < 8 then b[4 * i - 16 + bits / 8]
       else if i < 12 then c[4 * i - 32 + bits / 8] else d[4 * i - 48 + bits / 8])
  {
    hide Chroma, PackS32, Word16, MaskOf, Lane16, SaturateU8;
    var x := if i < 4 then a[4 * i + bits / 8] else if i < 8 then b[4 * i - 16 + bits / 8]
             else if i < 12 then c[4 * i - 32 + bits / 8] else d[4 * i - 48 + bits / 8];
    if i < 8 {
      PackedLane(a, b, bits, i);
    } else {
      PackedLane(c, d, bits, i - 8);
    }
    MaskByte(x);
  }

  // ----- The shuffles -----

  const Y_SHUFF1 := Const128(0x0E0C0A0806040200, 0xFFFFFFFFFFFFFFFF)
  const Y_SHUFF2 := Const128(0xFFFFFFFFFFFFFFFF, 0x0E0C0A0806040200)
  const U_SHUFF1 := Const128(0xFFFFFFFF0D090501, 0xFFFFFFFFFFFFFFFF)
  const U_SHUFF2 := Const128(0x0D090501FFFFFFFF, 0xFFFFFFFFFFFFFFFF)
  const U_SHUFF3 := Const128(0xFFFFFFFFFFFFFFFF, 0xFFFFFFFF0D090501)
  const U_SHUFF4 := Const128(0xFFFFFFFFFFFFFFFF, 0x0D090501FFFFFFFF)
  const V_SHUFF1 := Const128(0xFFFFFFFF0F0B0703, 0xFFFFFFFFFFFFFFFF)
  const V_SHUFF2 := Const128(0x0F0B0703FFFFFFFF, 0xFFFFFFFFFFFFFFFF)
  const V_SHUFF3 := Const128(0xFFFFFFFFFFFFFFFF, 0xFFFFFFFF0F0B0703)
  const V_SHUFF4 := Const128(0xFFFFFFFFFFFFFFFF, 0x0F0B0703FFFFFFFF)

  /** What a control byte selects. */
  function Select(a: Reg, control: bv8): bv8 {
    if control & 0x80 != 0 then 0 else a[(control & 0x0F) as int]
  }

  lemma ControlBytes(a: Reg)
    ensures Select(a, 0xFF) == 0
    ensures Select(a, 0x00) == a[0] && Select(a, 0x02) == a[2] && Select(a, 0x04) == a[4] && Select(a, 0x06) == a[6]
    ensures Select(a, 0x08) == a[8] && Select(a, 0x0A) == a[10] && Select(a, 0x0C) == a[12] && Select(a, 0x0E) == a[14]
    ensures Select(a, 0x01) == a[1] && Select(a, 0x05) == a[5] && Select(a, 0x09) == a[9] && Select(a, 0x0D) == a[13]
    ensures Select(a, 0x03) == a[3] && Select(a, 0x07) == a[7] && Select(a, 0x0B) == a[11] && Select(a, 0x0F) == a[15]
  {
  }

  /** The byte `k`, or zero if the shuffle clears the place. */
  function Pick(a: Reg, k: int): bv8 {
    if 0 <= k < 16 then a[k] else 0
  }

  lemma ShuffleIs(a: Reg, control: Reg, i: nat)
    requires i < 16
    ensures Shuffle(a, control)[i] == Select(a, control[i])
  {
  }

  lemma YControls(a: Reg, i: nat)
    requires i < 16
    ensures Shuffle(a, Y_SHUFF1)[i] == Pick(a, if i < 8 then 2 * i else -1)
    ensures Shuffle(a, Y_SHUFF2)[i] == Pick(a, if i < 8 then -1 else 2 * i - 16)
  {
    hide Select;
    ControlBytes(a);
    ShuffleIs(a, Y_SHUFF1, i);
    ShuffleIs(a, Y_SHUFF2, i);
    hide Shuffle;
    match i
    case 0 => case 1 => case 2 => case 3 => case 4 => case 5 => case 6 => case 7 => case 8 => case 9 => case 10 =>
    case 11 => case 12 => case 13 => case 14 => case _ =>
  }

  function ChromaShuffle(j: nat, o: nat): Reg
    requires j < 4 && (o == 1 || o == 3)
  {
    if o == 1 then (if j == 0 then U_SHUFF1 else if j == 1 then U_SHUFF2 else if j == 2 then U_SHUFF3 else U_SHUFF4)
    else (if j == 0 then V_SHUFF1 else if j == 1 then V_SHUFF2 else if j == 2 then V_SHUFF3 else V_SHUFF4)
  }

  lemma ConstAt(lo: bv64, hi: bv64, i: nat)
    requires i < 16
    ensures Const128(lo, hi)[i] == if i < 8 then Byte64(lo, i) else Byte64(hi, i - 8)
  {
  }

  /** The control byte for chroma sample `t` of a register. */
  function Tap(t: nat, o: nat): bv8 {
    if o == 1 then (if t == 0 then 0x01 else if t == 1 then 0x05 else if t == 2 then 0x09 else 0x0D)
    else (if t == 0 then 0x03 else if t == 1 then 0x07 else if t == 2 then 0x0B else 0x0F)
  }

  lemma ChromaBytes(i: nat)
    requires i < 16
    ensures U_SHUFF1[i] == if i / 4 == 0 then Tap(i % 4, 1) else 0xFF
    ensures U_SHUFF2[i] == if i / 4 == 1 then Tap(i % 4, 1) else 0xFF
    ensures U_SHUFF3[i] == if i / 4 == 2 then Tap(i % 4, 1) else 0xFF
    ensures U_SHUFF4[i] == if i / 4 == 3 then Tap(i % 4, 1) else 0xFF
    ensures V_SHUFF1[i] == if i / 4 == 0 then Tap(i % 4, 3) else 0xFF
    ensures V_SHUFF2[i] == if i / 4 == 1 then Tap(i % 4, 3) else 0xFF
    ensures V_SHUFF3[i] == if i / 4 == 2 then Tap(i % 4, 3) else 0xFF
    ensures V_SHUFF4[i] == if i / 4 == 3 then Tap(i % 4, 3) else 0xFF
  {
    ConstAt(0xFFFFFFFF0D090501, 0xFFFFFFFFFFFFFFFF, i);
    ConstAt(0x0D090501FFFFFFFF, 0xFFFFFFFFFFFFFFFF, i);
    ConstAt(0xFFFFFFFFFFFFFFFF, 0xFFFFFFFF0D090501, i);
    ConstAt(0xFFFFFFFFFFFFFFFF, 0x0D090501FFFFFFFF, i);
    ConstAt(0xFFFFFFFF0F0B0703, 0xFFFFFFFFFFFFFFFF, i);
    ConstAt(0x0F0B0703FFFFFFFF, 0xFFFFFFFFFFFFFFFF, i);
    ConstAt(0xFFFFFFFFFFFFFFFF, 0xFFFFFFFF0F0B0703, i);
    ConstAt(0xFFFFFFFFFFFFFFFF, 0x0F0B0703FFFFFFFF, i);
    hide Const128;
    match i
    case 0 => case 1 => case 2 => case 3 => case 4 => case 5 => case 6 => case 7 => case 8 => case 9 => case 10 =>
    case 11 => case 12 => case 13 => case 14 => case _ =>
  }

  lemma ChromaControls(a: Reg, j: nat, o: nat, i: nat)
    requires i < 16 && j < 4 && (o == 1 || o == 3)
    ensures Shuffle(a, ChromaShuffle(j, o))[i] == Pick(a, if i / 4 == j then 4 * (i % 4) + o else -1)
  {
    hide Select, Shuffle, U_SHUFF1, U_SHUFF2, U_SHUFF3, U_SHUFF4, V_SHUFF1, V_SHUFF2, V_SHUFF3, V_SHUFF4;
    ControlBytes(a);
    ChromaBytes(i);
    ShuffleIs(a, ChromaShuffle(j, o), i);
  }

  lemma OrZero(x: bv8)
    ensures x | 0 == x == 0 | x
  {
  }

  function ShuffleY(a: Reg, b: Reg): Reg { Or(Shuffle(a, Y_SHUFF1), Shuffle(b, Y_SHUFF2)) }

  lemma ShuffleYIs(a: Reg, b: Reg, i: nat)
    requires i < 16
    ensures ShuffleY(a, b)[i] == if i < 8 then a[2 * i] else b[2 * i - 16]
  {
    hide Shuffle, Y_SHUFF1, Y_SHUFF2;
    YControls(a, i);
    YControls(b, i);
    OrZero(if i < 8 then a[2 * i] else b[2 * i - 16]);
  }

  function ShuffleChroma(a: Reg, b: Reg, c: Reg, d: Reg, o: nat): Reg
    requires o == 1 || o == 3
  {
    Or(Or(Or(Shuffle(a, ChromaShuffle(0, o)), Shuffle(b, ChromaShuffle(1, o))),
       Shuffle(c, ChromaShuffle(2, o))), Shuffle(d, ChromaShuffle(3, o)))
  }

  lemma ShuffleChromaIs(a: Reg, b: Reg, c: Reg, d: Reg, o: nat, i: nat)
    requires i < 16 && (o == 1 || o == 3)
    ensures ShuffleChroma(a, b, c, d, o)[i] ==
      (if i < 4 then a[4 * i + o] else if i < 8 then b[4 * i - 16 + o]
       else if i < 12 then c[4 * i - 32 + o] else d[4 * i - 48 + o])
  {
    hide Shuffle, ChromaShuffle;
    ChromaControls(a, 0, o, i);
    ChromaControls(b, 1, o, i);
    ChromaControls(c, 2, o, i);
    ChromaControls(d, 3, o, i);
    OrZero(if i < 4 then a[4 * i + o] else if i < 8 then b[4 * i - 16 + o]
           else if i < 12 then c[4 * i - 32 + o] else d[4 * i - 48 + o]);
    OrZero(0);
  }

  // ----- Whole images -----

  /**
    The first `k` of `h` pairs of pixels are in their planes: luma at 0, the two chroma planes at
    `2 * h` and `3 * h`.  Each pair takes four source bytes, with U and V at `u0` and `v0` and the
    two luma bytes at `y0` and `y0 + 2`.
  */
  ghost predicate Planar(dst: seq<bv8>, src: seq<bv8>, h: nat, k: nat, y0: nat, u0: nat, v0: nat) {
    && k <= h && |dst| >= 4 * h && |src| >= 4 * h && y0 < 2 && u0 < 4 && v0 < 4
    && (forall i :: 0 <= i < 2 * k ==> dst[i] == src[2 * i + y0])
    && (forall i :: 2 * h <= i < 2 * h + k ==> dst[i] == src[4 * (i - 2 * h) + u0])
    && (forall i :: 3 * h <= i < 3 * h + k ==> dst[i] == src[4 * (i - 3 * h) + v0])
  }

  /** The planes are fixed by the source, so any two converters that establish them agree on every byte. */
  lemma PlanarUnique(d1: seq<bv8>, d2: seq<bv8>, src: seq<bv8>, h: nat, y0: nat, u0: nat, v0: nat)
    requires Planar(d1, src, h, h, y0, u0, v0) && Planar(d2, src, h, h, y0, u0, v0)
    ensures d1[..4 * h] == d2[..4 * h]
  {
  }

  /**
    The pixels of an image of even width: luma line by line, then one U and one V for every two pixels.  Each group
    of four source bytes is Y U Y V with the first arguments, U Y V Y with the second, Y V Y U with the third.
  */
  lemma PixelsPlanar(dst: seq<bv8>, src: seq<bv8>, w: nat, h: nat, x: nat, y: nat)
    requires w % 2 == 0 && x < w && y < h
    ensures var n, a := y * w + x, w * h;
      && 0 <= n < a && a % 2 == 0
      && (Planar(dst, src, a / 2, a / 2, 0, 1, 3) ==>
            && dst[n] == src[2 * n]
            && dst[a + n / 2] == src[4 * (n / 2) + 1] && dst[a + a / 2 + n / 2] == src[4 * (n / 2) + 3])
      && (Planar(dst, src, a / 2, a / 2, 1, 0, 2) ==>
            && dst[n] == src[2 * n + 1]
            && dst[a + n / 2] == src[4 * (n / 2)] && dst[a + a / 2 + n / 2] == src[4 * (n / 2) + 2])
      && (Planar(dst, src, a / 2, a / 2, 0, 3, 1) ==>
            && dst[n] == src[2 * n]
            && dst[a + n / 2] == src[4 * (n / 2) + 3] && dst[a + a / 2 + n / 2] == src[4 * (n / 2) + 1])
  {
    hide Planar;
    Inside(w, h, x, y);
    PlanarAt(dst, src, w * h, y * w + x, 0, 1, 3);
    PlanarAt(dst, src, w * h, y * w + x, 1, 0, 2);
    PlanarAt(dst, src, w * h, y * w + x, 0, 3, 1);
  }

  lemma PlanarAt(dst: seq<bv8>, src: seq<bv8>, a: nat, n: nat, y0: nat, u0: nat, v0: nat)
    requires n < a && a % 2 == 0
    ensures Planar(dst, src, a / 2, a / 2, y0, u0, v0) ==>
      && |dst| >= 2 * a && |src| >= 2 * a && y0 < 2 && u0 < 4 && v0 < 4
      && dst[n] == src[2 * n + y0]
      && dst[a + n / 2] == src[4 * (n / 2) + u0] && dst[a + a / 2 + n / 2] == src[4 * (n / 2) + v0]
  {
    var k := n / 2;
    assert a == 2 * (a / 2) && k < a / 2;
    if Planar(dst, src, a / 2, a / 2, y0, u0, v0) {
      assert dst[a + k] == src[4 * (a + k - 2 * (a / 2)) + u0];
      assert dst[a + a / 2 + k] == src[4 * (a + a / 2 + k - 3 * (a / 2)) + v0];
    }
  }

  lemma Inside(w: nat, h: nat, x: nat, y: nat)
    requires w % 2 == 0 && x < w && y < h
    ensures 0 <= y * w + x < w * h && w * h % 2 == 0
  {
    Bits.MulMonotone(w, y + 1, h);
    Bits.MulMonotone(w, 0, y);
    assert w * h == 2 * (w / 2 * h);
  }

  /** What lies behind the planes. */
  ghost function Rest(d: seq<bv8>, p: nat): seq<bv8> {
    if p <= |d| then d[p..] else []
  }

  /** Writing one pair. */
  lemma PairStep(d: seq<bv8>, src: seq<bv8>, h: nat, k: nat, y0: nat, u0: nat, v0: nat)
    requires Planar(d, src, h, k, y0, u0, v0) && k < h
    ensures 4 * k + 3 < |src| && 3 * h + k < |d|
    ensures var e := d[2 * k := src[4 * k + y0]][2 * k + 1 := src[4 * k + 2 + y0]][2 * h + k := src[4 * k + u0]]
          [3 * h + k := src[4 * k + v0]];
      Planar(e, src, h, k + 1, y0, u0, v0) && Rest(e, 4 * h) == Rest(d, 4 * h)
  {
  }

  lemma PlanarStart(dst: seq<bv8>, src: seq<bv8>, h: nat, y0: nat, u0: nat, v0: nat)
    requires |dst| >= 4 * h && |src| >= 4 * h && y0 < 2 && u0 < 4 && v0 < 4
    ensures Planar(dst, src, h, 0, y0, u0, v0)
  {
  }

  lemma PlanarSizes(dst: seq<bv8>, src: seq<bv8>, h: nat, k: nat)
    requires Planar(dst, src, h, k, 0, 1, 3)
    ensures k <= h && |dst| >= 4 * h && |src| >= 4 * h
  {
  }

  function Area(width: nat, height: nat): nat { width * height }

  /** The four stores of one pair. */
  method WritePair(dst: array<bv8>, y: nat, u: nat, v: nat, y0: bv8, u0: bv8, y1: bv8, v0: bv8)
    requires y + 1 < u < v < dst.Length
    modifies dst
    ensures dst[..] == old(dst[..])[y := y0][y + 1 := y1][u := u0][v := v0]
  {
    dst[y] := y0;
    dst[u] := u0;
    dst[y + 1] := y1;
    dst[v] := v0;
  }

  method YuyvToPlanar(src: seq<bv8>, dst: array<bv8>, width: nat, height: nat)
    requires Area(width, height) % 2 == 0 && |src| >= 2 * Area(width, height) && dst.Length >= 2 * Area(width, height)
    modifies dst
    ensures Planar(dst[..], src, Area(width, height) / 2, Area(width, height) / 2, 0, 1, 3)
    ensures Rest(dst[..], 2 * Area(width, height)) == Rest(old(dst[..]), 2 * Area(width, height))
  {
    hide Area, Planar, Rest;
    var n := Area(width, height);
    ghost var h, k := n / 2, 0;
    var nbPixels, y, u, v, s := n, 0, n, n + n / 2, 0;
    PlanarStart(dst[..], src, h, 0, 1, 3);
    while nbPixels > 0
      invariant 0 <= k <= h && nbPixels == n - 2 * k
      invariant y == 2 * k && u == n + k && v == n + n / 2 + k && s == 4 * k
      invariant Planar(dst[..], src, h, k, 0, 1, 3)
      invariant Rest(dst[..], 2 * n) == Rest(old(dst[..]), 2 * n)
    {
      PairStep(dst[..], src, h, k, 0, 1, 3);
      WritePair(dst, y, u, v, src[s], src[s + 1], src[s + 2], src[s + 3]);
      y, u, v, s, nbPixels := y + 2, u + 1, v + 1, s + 4, nbPixels - 2;
      k := k + 1;
    }
  }

  method UyvyToPlanar(src: seq<bv8>, dst: array<bv8>, width: nat, height: nat)
    requires Area(width, height) % 2 == 0 && |src| >= 2 * Area(width, height) && dst.Length >= 2 * Area(width, height)
    modifies dst
    ensures Planar(dst[..], src, Area(width, height) / 2, Area(width, height) / 2, 1, 0, 2)
    ensures Rest(dst[..], 2 * Area(width, height)) == Rest(old(dst[..]), 2 * Area(width, height))
  {
    hide Area, Planar, Rest;
    var n := Area(width, height);
    ghost var h, k := n / 2, 0;
    var nbPixels, y, u, v, s := n, 0, n, n + n / 2, 0;
    PlanarStart(dst[..], src, h, 1, 0, 2);
    while nbPixels > 0
      invariant 0 <= k <= h && nbPixels == n - 2 * k
      invariant y == 2 * k && u == n + k && v == n + n / 2 + k && s == 4 * k
      invariant Planar(dst[..], src, h, k, 1, 0, 2)
      invariant Rest(dst[..], 2 * n) == Rest(old(dst[..]), 2 * n)
    {
      PairStep(dst[..], src, h, k, 1, 0, 2);
      WritePair(dst, y, u, v, src[s + 1], src[s], src[s + 3], src[s + 2]);
      y, u, v, s, nbPixels := y + 2, u + 1, v + 1, s + 4, nbPixels - 2;
      k := k + 1;
    }
  }

  method YvyuToPlanar(src: seq<bv8>, dst: array<bv8>, width: nat, height: nat)
    requires Area(width, height) % 2 == 0 && |src| >= 2 * Area(width, height) && dst.Length >= 2 * Area(width, height)
    modifies dst
    ensures Planar(dst[..], src, Area(width, height) / 2, Area(width, height) / 2, 0, 3, 1)
    ensures Rest(dst[..], 2 * Area(width, height)) == Rest(old(dst[..]), 2 * Area(width, height))
  {
    hide Area, Planar, Rest;
    var n := Area(width, height);
    ghost var h, k := n / 2, 0;
    var nbPixels, y, u, v, s := n, 0, n, n + n / 2, 0;
    PlanarStart(dst[..], src, h, 0, 3, 1);
    while nbPixels > 0
      invariant 0 <= k <= h && nbPixels == n - 2 * k
      invariant y == 2 * k && u == n + k && v == n + n / 2 + k && s == 4 * k
      invariant Planar(dst[..], src, h, k, 0, 3, 1)
      invariant Rest(dst[..], 2 * n) == Rest(old(dst[..]), 2 * n)
    {
      PairStep(dst[..], src, h, k, 0, 3, 1);
      WritePair(dst, y, u, v, src[s], src[s + 3], src[s + 2], src[s + 1]);
      y, u, v, s, nbPixels := y + 2, u + 1, v + 1, s + 4, nbPixels - 2;
      k := k + 1;
    }
  }

  function Load(src: seq<bv8>, s: nat): Reg
    requires s + 16 <= |src|
  {
    src[s..s + 16]
  }

  method Store(dst: array<bv8>, p: nat, r: Reg)
    requires p + 16 <= dst.Length
    modifies dst
    ensures dst[p..p + 16] == r
    ensures forall i :: 0 <= i < dst.Length && (i < p || p + 16 <= i) ==> dst[i] == old(dst[i])
  {
    forall i | 0 <= i < 16 {
      dst[p + i] := r[i];
    }
  }

  /** What the four stores of a block must hold: 32 luma bytes, 16 of each chroma. */
  ghost predicate BlockRegs(src: seq<bv8>, s: nat, y0: Reg, y1: Reg, u: Reg, v: Reg) {
    && s + 64 <= |src|
    && forall i :: 0 <= i < 16 ==>
      y0[i] == src[s + 2 * i] && y1[i] == src[s + 32 + 2 * i] && u[i] == src[s + 4 * i + 1]
        && v[i] == src[s + 4 * i + 3]
  }

  predicate Outside(i: int, p: nat, n: nat) { i < p || p + n <= i }

  /** The bytes of a stored block. */
  lemma BlockBytes(e: seq<bv8>, src: seq<bv8>, h: nat, k: nat, y0: Reg, y1: Reg, u: Reg, v: Reg)
    requires k + 16 <= h && 4 * h <= |e| && BlockRegs(src, 4 * k, y0, y1, u, v)
    requires e[2 * k..2 * k + 16] == y0 && e[2 * k + 16..2 * k + 32] == y1
    requires e[2 * h + k..2 * h + k + 16] == u && e[3 * h + k..3 * h + k + 16] == v
    ensures 4 * k + 64 <= |src|
    ensures forall i :: 2 * k <= i < 2 * k + 32 ==> e[i] == src[2 * i]
    ensures forall i :: 2 * h + k <= i < 2 * h + k + 16 ==> e[i] == src[4 * (i - 2 * h) + 1]
    ensures forall i :: 3 * h + k <= i < 3 * h + k + 16 ==> e[i] == src[4 * (i - 3 * h) + 3]
  {
    forall i | 2 * k <= i < 2 * k + 32
      ensures e[i] == src[2 * i]
    {
      if i < 2 * k + 16 {
        assert e[i] == y0[i - 2 * k];
      } else {
        assert e[i] == y1[i - 2 * k - 16];
      }
    }
    forall i | 2 * h + k <= i < 2 * h + k + 16
      ensures e[i] == src[4 * (i - 2 * h) + 1]
    {
      assert e[i] == u[i - 2 * h - k];
    }
    forall i | 3 * h + k <= i < 3 * h + k + 16
      ensures e[i] == src[4 * (i - 3 * h) + 3]
    {
      assert e[i] == v[i - 3 * h - k];
    }
  }

  /** Storing a block extends the planes by 16 pairs. */
  lemma BlockStep(d: seq<bv8>, e: seq<bv8>, src: seq<bv8>, h: nat, k: nat, y0: Reg, y1: Reg, u: Reg, v: Reg)
    requires Planar(d, src, h, k, 0, 1, 3) && k + 16 <= h && |e| == |d| && BlockRegs(src, 4 * k, y0, y1, u, v)
    requires e[2 * k..2 * k + 16] == y0 && e[2 * k + 16..2 * k + 32] == y1
    requires e[2 * h + k..2 * h + k + 16] == u && e[3 * h + k..3 * h + k + 16] == v
    requires forall i :: 0 <= i < |e| && Outside(i, 2 * k, 32) && Outside(i, 2 * h + k, 16) && Outside(i, 3 * h + k, 16)
                         ==> e[i] == d[i]
    ensures Planar(e, src, h, k + 16, 0, 1, 3)
    ensures Rest(e, 4 * h) == Rest(d, 4 * h)
  {
    hide BlockRegs;
    BlockBytes(e, src, h, k, y0, y1, u, v);
  }

  method StoreBlock(dst: array<bv8>, h: nat, k: nat, y0: Reg, y1: Reg, u: Reg, v: Reg, ghost src: seq<bv8>)
    requires Planar(dst[..], src, h, k, 0, 1, 3) && k + 16 <= h && BlockRegs(src, 4 * k, y0, y1, u, v)
    modifies dst
    ensures Planar(dst[..], src, h, k + 16, 0, 1, 3)
    ensures Rest(dst[..], 4 * h) == Rest(old(dst[..]), 4 * h)
  {
    ghost var d := dst[..];
    PlanarSizes(d, src, h, k);
    hide Area, Planar, BlockRegs;
    Store(dst, 2 * k, y0);
    Store(dst, 2 * k + 16, y1);
    Store(dst, 2 * h + k, u);
    Store(dst, 3 * h + k, v);
    BlockStep(d, dst[..], src, h, k, y0, y1, u, v);
  }

  lemma PackedBlock(src: seq<bv8>, s: nat)
    requires s + 64 <= |src|
    ensures var a, b, c, d := Load(src, s), Load(src, s + 16), Load(src, s + 32), Load(src, s + 48);
      BlockRegs(src, s, PackY(a, b), PackY(c, d), PackChroma(a, b, c, d, U_MASK, 8), PackChroma(a, b, c, d, V_MASK, 24))
  {
    hide PackY, PackChroma, U_MASK, V_MASK;
    var a, b, c, d := Load(src, s), Load(src, s + 16), Load(src, s + 32), Load(src, s + 48);
    forall i | 0 <= i < 16
      ensures PackY(a, b)[i] == src[s + 2 * i] && PackY(c, d)[i] == src[s + 32 + 2 * i]
      ensures PackChroma(a, b, c, d, U_MASK, 8)[i] == src[s + 4 * i + 1]
      ensures PackChroma(a, b, c, d, V_MASK, 24)[i] == src[s + 4 * i + 3]
    {
      PackYIs(a, b, i);
      PackYIs(c, d, i);
      PackChromaIs(a, b, c, d, 8, i);
      PackChromaIs(a, b, c, d, 24, i);
    }
  }

  lemma ShuffledBlock(src: seq<bv8>, s: nat)
    requires s + 64 <= |src|
    ensures var a, b, c, d := Load(src, s), Load(src, s + 16), Load(src, s + 32), Load(src, s + 48);
      BlockRegs(src, s, ShuffleY(a, b), ShuffleY(c, d), ShuffleChroma(a, b, c, d, 1), ShuffleChroma(a, b, c, d, 3))
  {
    hide ShuffleY, ShuffleChroma;
    var a, b, c, d := Load(src, s), Load(src, s + 16), Load(src, s + 32), Load(src, s + 48);
    forall i | 0 <= i < 16
      ensures ShuffleY(a, b)[i] == src[s + 2 * i] && ShuffleY(c, d)[i] == src[s + 32 + 2 * i]
      ensures ShuffleChroma(a, b, c, d, 1)[i] == src[s + 4 * i + 1]
      ensures ShuffleChroma(a, b, c, d, 3)[i] == src[s + 4 * i + 3]
    {
      ShuffleYIs(a, b, i);
      ShuffleYIs(c, d, i);
      ShuffleChromaIs(a, b, c, d, 1, i);
      ShuffleChromaIs(a, b, c, d, 3, i);
    }
  }

  /** One turn of the loop. */
  method PackedStep(src: seq<bv8>, s: nat, dst: array<bv8>, h: nat, k: nat)
    requires Planar(dst[..], src, h, k, 0, 1, 3) && k + 16 <= h && s == 4 * k && s + 64 <= |src|
    modifies dst
    ensures Planar(dst[..], src, h, k + 16, 0, 1, 3)
    ensures Rest(dst[..], 4 * h) == Rest(old(dst[..]), 4 * h)
  {
    hide Planar, Rest, BlockRegs, PackY, PackChroma, U_MASK, V_MASK, Load;
    var a, b, c, d := Load(src, s), Load(src, s + 16), Load(src, s + 32), Load(src, s + 48);
    PackedBlock(src, s);
    StoreBlock(dst, h, k, PackY(a, b), PackY(c, d),
               PackChroma(a, b, c, d, U_MASK, 8), PackChroma(a, b, c, d, V_MASK, 24), src);
  }

  lemma BlockAt(n: nat, left: nat, t: nat)
    requires n % 32 == 0 && t <= n / 32 && left == 32 * (n / 32 - t)
    ensures n == 32 * (n / 32) && n / 2 == 16 * (n / 32) && (n - left) / 2 == 16 * t
  {
  }

  method YuyvToPlanarSse2(src: seq<bv8>, dst: array<bv8>, width: nat, height: nat)
    requires Area(width, height) % 32 == 0 && |src| >= 2 * Area(width, height) && dst.Length >= 2 * Area(width, height)
    modifies dst
    ensures Planar(dst[..], src, Area(width, height) / 2, Area(width, height) / 2, 0, 1, 3)
    ensures Rest(dst[..], 2 * Area(width, height)) == Rest(old(dst[..]), 2 * Area(width, height))
  {
    hide Area, Planar, Rest;
    var n := Area(width, height);
    var nbPixels, s := n, 0;
    ghost var h, blocks, t := n / 2, n / 32, 0;
    BlockAt(n, n, 0);
    PlanarStart(dst[..], src, h, 0, 1, 3);
    while nbPixels > 0
      invariant 0 <= t <= blocks && nbPixels == 32 * (blocks - t) && s == 64 * t
      invariant Planar(dst[..], src, h, 16 * t, 0, 1, 3)
      invariant Rest(dst[..], 2 * n) == Rest(old(dst[..]), 2 * n)
    {
      BlockAt(n, nbPixels, t);
      PackedStep(src, s, dst, n / 2, (n - nbPixels) / 2);
      s, nbPixels := s + 64, nbPixels - 32;
      t := t + 1;
    }
  }

  /** One turn of the loop. */
  method ShuffledStep(src: seq<bv8>, s: nat, dst: array<bv8>, h: nat, k: nat)
    requires Planar(dst[..], src, h, k, 0, 1, 3) && k + 16 <= h && s == 4 * k && s + 64 <= |src|
    modifies dst
    ensures Planar(dst[..], src, h, k + 16, 0, 1, 3)
    ensures Rest(dst[..], 4 * h) == Rest(old(dst[..]), 4 * h)
  {
    hide Planar, Rest, BlockRegs, ShuffleY, ShuffleChroma, Load;
    var a, b, c, d := Load(src, s), Load(src, s + 16), Load(src, s + 32), Load(src, s + 48);
    ShuffledBlock(src, s);
    StoreBlock(dst, h, k, ShuffleY(a, b), ShuffleY(c, d),
               ShuffleChroma(a, b, c, d, 1), ShuffleChroma(a, b, c, d, 3), src);
  }

  method YuyvToPlanarSsse3(src: seq<bv8>, dst: array<bv8>, width: nat, height: nat)
    requires Area(width, height) % 32 == 0 && |src| >= 2 * Area(width, height) && dst.Length >= 2 * Area(width, height)
    modifies dst
    ensures Planar(dst[..], src, Area(width, height) / 2, Area(width, height) / 2, 0, 1, 3)
    ensures Rest(dst[..], 2 * Area(width, height)) == Rest(old(dst[..]), 2 * Area(width, height))
  {
    hide Area, Planar, Rest;
    var n := Area(width, height);
    var nbPixels, s := n, 0;
    ghost var h, blocks, t := n / 2, n / 32, 0;
    BlockAt(n, n, 0);
    PlanarStart(dst[..], src, h, 0, 1, 3);
    while nbPixels > 0
      invariant 0 <= t <= blocks && nbPixels == 32 * (blocks - t) && s == 64 * t
      invariant Planar(dst[..], src, h, 16 * t, 0, 1, 3)
      invariant Rest(dst[..], 2 * n) == Rest(old(dst[..]), 2 * n)
    {
      BlockAt(n, nbPixels, t);
      ShuffledStep(src, s, dst, n / 2, (n - nbPixels) / 2);
      s, nbPixels := s + 64, nbPixels - 32;
      t := t + 1;
    }
  }
}
