/**
  Bit sequences, most significant bit first, and the numbers they denote.  Both entropy decoders
  are specified over bit sequences; the C code works on shifted and masked integers.
*/
module Bits {

  type byte = x: int | 0 <= x < 256

  datatype Option<T> = None | Some(value: T) {
    function Or(default: T): T {
      match this
      case None => default
      case Some(v) => v
    }
  }

  function Pow2(n: nat): (p: nat)
    ensures p >= 1
  {
    if n == 0 then 1 else 2 * Pow2(n - 1)
  }

  lemma {:induction false} Pow2Add(a: nat, b: nat)
    ensures Pow2(a + b) == Pow2(a) * Pow2(b)
  {
    hide Pow2;
    Empty();
    if a != 0 {
      Pow2Add(a - 1, b);
      Pow2Step(a - 1);
      Pow2Step(a - 1 + b);
      MulDouble(Pow2(b), Pow2(a - 1));
    }
  }

  lemma Pow2Values()
    ensures Pow2(0) == 1 && Pow2(1) == 2 && Pow2(2) == 4 && Pow2(3) == 8 && Pow2(4) == 16 && Pow2(5) == 32
    ensures Pow2(6) == 64 && Pow2(7) == 128 && Pow2(8) == 256 && Pow2(9) == 512 && Pow2(10) == 1024
    ensures Pow2(16) == 0x1_0000 && Pow2(32) == 0x1_0000_0000
  {
    assert Pow2(5) == 32;
    assert Pow2(10) == 1024;
    Pow2Add(8, 8);
    Pow2Add(16, 16);
  }

  lemma ConsAppend<T>(a: seq<T>, b: seq<T>)
    requires a != []
    ensures a + b == [a[0]] + (a[1..] + b)
  {
  }

  lemma TakeSnoc<T>(s: seq<T>, k: nat)
    requires k < |s|
    ensures s[..k + 1] == s[..k] + [s[k]]
  {
  }

  lemma Append<T>(a: seq<T>, b: seq<T>, c: seq<T>)
    ensures (a + b) + c == a + (b + c)
    ensures [] + a == a == a + []
  {
  }

  /** The number a bit sequence denotes. */
  function Num(s: seq<bool>): (n: nat)
    ensures n < Pow2(|s|)
  {
    if s == [] then 0 else 2 * Num(s[..|s| - 1]) + (if s[|s| - 1] then 1 else 0)
  }

  /** The `k` bits of `n`. */
  function ToBits(n: nat, k: nat): (s: seq<bool>)
    requires n < Pow2(k)
    ensures |s| == k && Num(s) == n
  {
    if k == 0 then [] else
      var r := ToBits(n / 2, k - 1) + [n % 2 == 1];
      assert r[..|r| - 1] == ToBits(n / 2, k - 1);
      r
  }

  lemma {:induction false} NumConcat(a: seq<bool>, b: seq<bool>)
    ensures Num(a + b) == Num(a) * Pow2(|b|) + Num(b)
  {
    hide Num, Pow2;
    Empty();
    if b == [] {
      assert a + b == a;
    } else {
      var b', c := b[..|b| - 1], a + b;
      Pow2Step(|b'|);
      assert c[..|c| - 1] == a + b' && c[|c| - 1] == b[|b| - 1];
      NumConcat(a, b');
      NumLast(c);
      NumLast(b);
      MulDouble(Num(a), Pow2(|b'|));
    }
  }

  lemma Empty()
    ensures Num([]) == 0 && Pow2(0) == 1
  {
  }

  lemma Pow2Step(n: nat)
    ensures Pow2(n + 1) == 2 * Pow2(n)
  {
  }

  lemma NumLast(s: seq<bool>)
    requires s != []
    ensures Num(s) == 2 * Num(s[..|s| - 1]) + (if s[|s| - 1] then 1 else 0)
  {
  }

  lemma NumOne(b: bool)
    ensures Num([b]) == if b then 1 else 0
  {
    NumLast([b]);
  }

  lemma MulDouble(x: nat, p: nat)
    ensures x * (2 * p) == 2 * (x * p)
  {
  }

  lemma {:induction false} NumInjective(a: seq<bool>, b: seq<bool>)
    requires |a| == |b| && Num(a) == Num(b)
    ensures a == b
  {
    if a != [] {
      NumInjective(a[..|a| - 1], b[..|b| - 1]);
      assert a == a[..|a| - 1] + [a[|a| - 1]];
      assert b == b[..|b| - 1] + [b[|b| - 1]];
    }
  }

  /** A right shift keeps a prefix, a mask keeps a suffix. */
  lemma NumSplit(s: seq<bool>, k: nat)
    requires k <= |s|
    ensures Num(s) == Num(s[..k]) * Pow2(|s| - k) + Num(s[k..])
    ensures Num(s) / Pow2(|s| - k) == Num(s[..k])
    ensures Num(s) % Pow2(|s| - k) == Num(s[k..])
  {
    hide Pow2, Num;
    assert s == s[..k] + s[k..];
    NumConcat(s[..k], s[k..]);
    DivMod(Num(s[..k]), Pow2(|s| - k), Num(s[k..]));
  }

  /** `(n >> (len - k)) & mask` reads the field of bits `i..k`. */
  lemma NumField(s: seq<bool>, i: nat, k: nat)
    requires i <= k <= |s|
    ensures Num(s) / Pow2(|s| - k) % Pow2(k - i) == Num(s[i..k])
  {
    hide Pow2, Num;
    NumSplit(s, k);
    NumSplit(s[..k], i);
    assert s[..k][i..] == s[i..k];
  }

  lemma NumBit(s: seq<bool>, i: nat)
    requires i < |s|
    ensures Num(s) / Pow2(|s| - i - 1) % 2 == if s[i] then 1 else 0
  {
    hide Pow2, Num;
    NumField(s, i, i + 1);
    assert s[i..i + 1] == [s[i]];
    NumOne(s[i]);
    Pow2Values();
  }

  lemma ToBitsOfNum(s: seq<bool>)
    ensures ToBits(Num(s), |s|) == s
  {
    NumInjective(ToBits(Num(s), |s|), s);
  }

  lemma DivMod(q: nat, d: nat, r: nat)
    requires r < d
    ensures (q * d + r) / d == q && (q * d + r) % d == r
  {
    var n := q * d + r;
    assert n == d * (n / d) + n % d;
    assert d * (n / d - q) == r - n % d;
    SmallMultiple(d, n / d - q);
  }

  lemma SmallMultiple(d: int, k: int)
    requires -d < d * k < d
    ensures k == 0
  {
    if k > 0 {
      MulMonotone(d, 1, k);
    } else if k < 0 {
      MulMonotone(d, k, -1);
    }
  }

  lemma MulMonotone(d: nat, x: int, y: int)
    requires x <= y
    ensures d * x <= d * y
  {
  }

  /** Scaling both sides of a division keeps the quotient and scales the remainder. */
  lemma ScaledDivMod(h: nat, p: nat, l: nat, z: nat)
    requires l < p && z > 0
    ensures p * z > 0
    ensures (h * p + l) * z / (p * z) == h && (h * p + l) * z % (p * z) == l * z
  {
    MulMonotone(z, l, p - 1);
    assert (p - 1) * z == p * z - z;
    assert l * z <= (p - 1) * z;
    Distribute(h, p, l, z);
    DivMod(h, p * z, l * z);
  }

  lemma Distribute(h: nat, p: nat, l: nat, z: nat)
    ensures (h * p + l) * z == h * (p * z) + l * z
  {
  }

  lemma DivNonNegative(x: nat, d: nat)
    requires d > 0
    ensures x / d >= 0
  {
    assert x == d * (x / d) + x % d;
    if x / d < 0 {
      MulMonotone(d, x / d, -1);
    }
  }

  lemma DivInterval(i: nat, w: nat, c: nat)
    requires w > 0
    ensures i / w == c <==> c * w <= i < (c + 1) * w
  {
    assert i == w * (i / w) + i % w;
    if i / w < c {
      MulMonotone(w, i / w, c - 1);
    } else if i / w > c {
      MulMonotone(w, c + 1, i / w);
    }
  }

  /** `x << k` before any truncation, and `x >> k`. */
  function Shl(x: nat, k: nat): (r: nat)
    ensures r == x * Pow2(k)
  {
    MulMonotone(x, 0, Pow2(k));
    x * Pow2(k)
  }

  function Shr(x: nat, k: nat): (r: nat)
    ensures r == x / Pow2(k)
  {
    DivNonNegative(x, Pow2(k));
    x / Pow2(k)
  }

  /** `a | b` on non-negative integers. */
  function BitOr(a: nat, b: nat): nat {
    if a == 0 then b
    else if b == 0 then a
    else 2 * BitOr(a / 2, b / 2) + (if a % 2 == 1 || b % 2 == 1 then 1 else 0)
  }

  /** Or-ing operands that share no bit adds them. */
  lemma {:induction false} BitOrDisjoint(h: nat, k: nat, b: nat)
    requires b < Pow2(k)
    ensures BitOr(Shl(h, k), b) == BitOr(b, Shl(h, k)) == Shl(h, k) + b
  {
    if k != 0 && h != 0 && b != 0 {
      assert Shl(h, k) == 2 * Shl(h, k - 1);
      BitOrDisjoint(h, k - 1, b / 2);
    }
  }
}
