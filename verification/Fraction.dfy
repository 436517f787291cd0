/**
  Approximating a number by a fraction: the continued fraction of the number, cut off when the
  remainder is within a tolerance that grows on the way.  Modelled over the reals.
*/
module Fraction {
  import opened Bits

  /** The conversion to `int` in C, towards zero. */
  function Trunc(f: real): int {
    if f >= 0.0 then f.Floor else -((-f).Floor)
  }

  /** What the code takes for the fractional part. */
  function Rest(f: real): (r: real)
    ensures 0.0 <= r < 1.0
  {
    var d := f - Trunc(f) as real;
    if d >= 0.0 then d else -d
  }

  datatype Ratio = Ratio(whole: int, num: int, den: int)

  // ----- Products, kept apart from the linear steps -----

  function Times(x: real, y: real): real { x * y }

  lemma Distribute(x: real, y: real, z: real)
    ensures Times(x, y + z) == Times(x, y) + Times(x, z) && Times(y + z, x) == Times(y, x) + Times(z, x)
    ensures Times(x, y - z) == Times(x, y) - Times(x, z) && Times(y - z, x) == Times(y, x) - Times(z, x)
  {
  }

  lemma Regroup(x: real, y: real, z: real)
    ensures Times(x, y) == Times(y, x) && Times(Times(x, y), z) == Times(y, Times(x, z)) == Times(x, Times(y, z))
  {
  }

  lemma Signs(x: real, y: real)
    ensures y >= 0.0 && x >= 0.0 ==> Times(x, y) >= 0.0
    ensures y >= 0.0 && x <= 0.0 ==> Times(x, y) <= 0.0
    ensures y > 0.0 && x > 0.0 ==> Times(x, y) > 0.0
    ensures Times(x, 1.0) == x && Times(x, -1.0) == -x
  {
  }

  // ----- The recursion -----

  function Inv(x: real): real
    requires x > 0.0
  {
    1.0 / x
  }

  /** What the recursion uses up. */
  function Measure(p: real): nat
    requires p > 0.0
  {
    Inv(p).Floor
  }

  /** One level of the recursion: the tolerance more than doubles, so there are few. */
  function Tolerance(p: real, rest: real): (q: real)
    requires 0.0 < p < rest < 1.0
    ensures q > 2.0 * p && Measure(q) < Measure(p)
  {
    ToleranceGrows(p, rest);
    p + p / rest
  }

  lemma ToleranceGrows(p: real, rest: real)
    requires 0.0 < p < rest < 1.0
    ensures p + p / rest > 2.0 * p && Measure(p + p / rest) < Measure(p)
  {
    hide Times;
    var r, q := p / rest, p + p / rest;
    DivTimes(p, rest);
    QuotientGrows(p, rest, r);
    DivTimes(1.0, p);
    DivTimes(1.0, q);
    InverseShrinks(1.0 / p, p, 1.0 / q, q);
  }

  lemma DivTimes(x: real, y: real)
    requires y != 0.0
    ensures Times(x / y, y) == x
  {
  }

  lemma TimesMonotone(x: real, y: real, z: real)
    requires x < y && z > 0.0
    ensures Times(x, z) < Times(y, z)
  {
    assert (y - x) * z > 0.0;
  }

  lemma QuotientGrows(p: real, rest: real, r: real)
    requires 0.0 < p && 0.0 < rest < 1.0 && Times(r, rest) == p
    ensures r > p
  {
    hide Times;
    Regroup(p, rest, 1.0);
    Regroup(p, 1.0, 1.0);
    Signs(p, rest);
    TimesMonotone(rest, 1.0, p);
    if r < p {
      TimesMonotone(r, p, rest);
    }
  }

  lemma InverseShrinks(x: real, p: real, y: real, q: real)
    requires Times(x, p) == 1.0 && Times(y, q) == 1.0 && 0.0 < 2.0 * p < q && p < 1.0
    ensures x > 1.0 && y > 0.0 && 2.0 * y < x
  {
    hide Times;
    Signs(p, 1.0);
    Regroup(p, 1.0, 1.0);
    Signs(x, p);
    Signs(y, q);
    if x < 1.0 {
      TimesMonotone(x, 1.0, p);
    }
    Regroup(y, q, 1.0);
    Regroup(y, 2.0 * p, 1.0);
    TimesMonotone(2.0 * p, q, y);
    DoubleTimes(y, p);
    if x < 2.0 * y {
      TimesMonotone(x, 2.0 * y, p);
    }
  }

  lemma DoubleTimes(x: real, y: real)
    ensures Times(2.0 * x, y) == Times(x, 2.0 * y) == 2.0 * Times(x, y)
  {
  }

  /** `float_to_fraction_recursive`. */
  function Recursive(f: real, p: real): Ratio
    requires p > 0.0
    decreases Measure(p)
  {
    var whole, rest := Trunc(f), Rest(f);
    if rest > p then
      var r := Recursive(Inv(rest), Tolerance(p, rest));
      Ratio(whole, r.den, r.den * r.whole + r.num)
    else
      Ratio(whole, 0, 1)
  }

  /** `float_to_fraction`: the whole part is put back into the numerator. */
  function ToFraction(f: real, p: real): (int, int)
    requires p > 0.0
  {
    var r := Recursive(f, p);
    (r.num + r.whole * r.den, r.den)
  }

  /** The number of recursive calls. */
  function Depth(f: real, p: real): nat
    requires p > 0.0
    decreases Measure(p)
  {
    if Rest(f) > p then 1 + Depth(Inv(Rest(f)), Tolerance(p, Rest(f))) else 0
  }

  /** The recursion is one level deep exactly if the inverse of the remainder leaves one within the grown tolerance. */
  lemma OneLevel(f: real, p: real)
    requires p > 0.0 && Rest(f) > p
    ensures Depth(f, p) == 1 <==> Rest(1.0 / Rest(f)) <= p + p / Rest(f)
  {
    hide Rest, Measure;
    assert Depth(f, p) == 1 + Depth(Inv(Rest(f)), Tolerance(p, Rest(f)));
  }

  /** The depth is at most logarithmic in the tolerance. */
  lemma {:induction false} DepthBound(f: real, p: real)
    requires p > 0.0 && Depth(f, p) > 0
    ensures Times(Pow2(Depth(f, p) - 1) as real, p) < 1.0
    decreases Measure(p)
  {
    hide Trunc, Rest, Inv, Measure, Tolerance, Times, Pow2;
    var q := Tolerance(p, Rest(f));
    var d := Depth(f, p);
    if d > 1 {
      DepthBound(Inv(Rest(f)), q);
      Doubled(d - 1);
      Halve(Pow2(d - 2) as real, p, q);
    } else {
      Pow2Values();
      Signs(p, 1.0);
      Regroup(p, 1.0, 1.0);
    }
  }

  lemma Doubled(d: nat)
    requires d > 0
    ensures Pow2(d) as real == 2.0 * Pow2(d - 1) as real
  {
  }

  lemma Halve(m: real, p: real, q: real)
    requires m > 0.0 && q > 2.0 * p && Times(m, q) < 1.0
    ensures Times(2.0 * m, p) < 1.0
  {
    hide Times;
    Distribute(m, q, 2.0 * p);
    Signs(m, q - 2.0 * p);
    Distribute(m, p, p);
    Distribute(p, m, m);
    Regroup(m, p, p);
  }

  /** A convergent with its predecessor and the remainder that was cut off. */
  datatype Convergent = Convergent(n: int, d: int, n': int, d': int, r: real)

  function Value(f: real): real { Trunc(f) as real + Rest(f) }

  /** The convergent the recursion stops at. */
  ghost function Cut(f: real, p: real): Convergent
    requires p > 0.0
    decreases Measure(p)
  {
    var whole, rest := Trunc(f), Rest(f);
    if rest > p then
      var c := Cut(Inv(rest), Tolerance(p, rest));
      Convergent(whole * c.n + c.d, c.n, whole * c.n' + c.d', c.n', c.r)
    else
      Convergent(whole, 1, 1, 0, rest)
  }

  ghost predicate Exact(v: real, c: Convergent) {
    && c.d >= 1 && c.d' >= 0 && c.n' * c.d - c.n * c.d' in {1, -1} && 0.0 <= c.r < 1.0
    && Times(v, c.d as real + Times(c.r, c.d' as real)) == c.n as real + Times(c.r, c.n' as real)
  }

  lemma {:induction false} CutExact(f: real, p: real)
    requires p > 0.0
    ensures Exact(Value(f), Cut(f, p))
    ensures f >= 1.0 ==> Cut(f, p).n >= 1 && Cut(f, p).n' >= 0
    ensures ToFraction(f, p) == (Cut(f, p).n, Cut(f, p).d)
    decreases Measure(p)
  {
    var whole, rest := Trunc(f), Rest(f);
    if rest > p {
      var g, q := Inv(rest), Tolerance(p, rest);
      hide Inv, Measure, Tolerance, Exact, Cut, Recursive, ToFraction, Rest;
      CutExact(g, q);
      Inverse(rest);
      CutUnfolds(f, p);
      FractionUnfolds(f, p);
      ExactSigns(g, Cut(g, q));
      StepExact(whole, rest, Cut(g, q));
      StepPositive(whole, Cut(g, q));
    } else {
      StopExact(whole, rest);
    }
  }

  lemma CutUnfolds(f: real, p: real)
    requires 0.0 < p < Rest(f)
    ensures var (g, q) := (Inv(Rest(f)), Tolerance(p, Rest(f)));
      var (c, r) := (Cut(g, q), Recursive(g, q));
      Cut(f, p) == Convergent(Trunc(f) * c.n + c.d, c.n, Trunc(f) * c.n' + c.d', c.n', c.r)
      && Recursive(f, p) == Ratio(Trunc(f), r.den, r.den * r.whole + r.num)
  {
    hide Trunc, Rest, Inv, Tolerance;
  }

  lemma FractionUnfolds(f: real, p: real)
    requires 0.0 < p < Rest(f)
    ensures var (n, d) := ToFraction(Inv(Rest(f)), Tolerance(p, Rest(f))); ToFraction(f, p) == (Trunc(f) * n + d, n)
  {
    hide Trunc, Rest, Inv, Tolerance, Recursive, Cut;
    CutUnfolds(f, p);
  }

  lemma ExactSigns(v: real, c: Convergent)
    requires Exact(v, c)
    ensures c.d >= 1 && c.d' >= 0 && c.n' * c.d - c.n * c.d' in {1, -1}
  {
  }

  lemma StopExact(whole: int, rest: real)
    requires 0.0 <= rest < 1.0
    ensures Exact(whole as real + rest, Convergent(whole, 1, 1, 0, rest))
  {
  }

  lemma StepPositive(whole: int, c: Convergent)
    requires c.n >= 1 && c.n' >= 0 && c.d >= 1 && c.d' >= 0
    ensures whole >= 1 ==> whole * c.n + c.d >= 1 && whole * c.n' + c.d' >= 0
  {
  }

  lemma Inverse(rest: real)
    requires 0.0 < rest < 1.0
    ensures var g := Inv(rest); g > 1.0 && g * rest == 1.0 && Value(g) == g
  {
    var g := Inv(rest);
    assert g * rest == 1.0;
  }

  /** Putting a whole part in front of the inverse of a convergent. */
  lemma StepExact(whole: int, rest: real, c: Convergent)
    requires 0.0 < rest < 1.0 && Exact(Inv(rest), c) && c.n >= 1 && c.n' >= 0
    ensures Exact(whole as real + rest, Convergent(whole * c.n + c.d, c.n, whole * c.n' + c.d', c.n', c.r))
  {
    var w, n, d, n', d' := whole as real, c.n as real, c.d as real, c.n' as real, c.d' as real;
    var s, t := d + Times(c.r, d'), n + Times(c.r, n');
    assert Times(rest, Inv(rest)) == 1.0;
    TimesInt(whole, c.n);
    TimesInt(whole, c.n');
    StepDeterminant(whole, c.n, c.d, c.n', c.d');
    hide Times, Inv;
    assert Times(rest, t) == s by {
      Regroup(rest, Inv(rest), s);
      Regroup(s, 1.0, 1.0);
      Signs(s, 1.0);
    }
    assert Times(w + rest, t) == Times(w, n) + d + Times(c.r, Times(w, n') + d') by {
      Distribute(t, w, rest);
      Distribute(w, n, Times(c.r, n'));
      Regroup(w, c.r, n');
      Distribute(c.r, Times(w, n'), d');
    }
  }

  lemma StepDeterminant(w: int, n: int, d: int, n': int, d': int)
    ensures (w * n' + d') * n - (w * n + d) * n' == -(n' * d - n * d')
  {
  }

  // ----- Results -----

  predicate Divides(k: int, n: int)
    requires k != 0
  {
    n % k == 0
  }

  /** The fraction is in lowest terms, with a positive denominator. */
  lemma LowestTerms(f: real, p: real, k: int)
    requires p > 0.0 && k > 1
    ensures ToFraction(f, p).1 >= 1
    ensures !(Divides(k, ToFraction(f, p).0) && Divides(k, ToFraction(f, p).1))
  {
    CutExact(f, p);
    var c := Cut(f, p);
    ExactSigns(Value(f), c);
    hide ToFraction, Cut, Exact;
    hide Divides;
    NoCommonDivisor(c.n, c.d, c.n', c.d', k);
  }

  lemma NoCommonDivisor(n: int, d: int, n': int, d': int, k: int)
    requires k > 1 && n' * d - n * d' in {1, -1}
    ensures !(Divides(k, n) && Divides(k, d))
  {
    if Divides(k, n) && Divides(k, d) {
      var a, b := n / k, d / k;
      assert n == k * a && d == k * b;
      CommonDivisor(a, b, n', d', k);
    }
  }

  lemma CommonDivisor(a: int, b: int, n': int, d': int, k: int)
    requires k > 1
    ensures n' * (k * b) - (k * a) * d' !in {1, -1}
  {
    var m := n' * b - a * d';
    assert n' * (k * b) - (k * a) * d' == k * m;
    if m >= 1 {
      MulMonotone(k, 1, m);
    } else if m <= -1 {
      MulMonotone(k, m, -1);
    }
  }

  /** The error is smaller than one over the square of the denominator. */
  lemma ErrorBound(f: real, p: real)
    requires p > 0.0
    ensures var (n, d) := ToFraction(f, p);
      d >= 1 && -1.0 < Times(Times(Value(f), d as real) - n as real, d as real) < 1.0
  {
    CutExact(f, p);
    var v, c := Value(f), Cut(f, p);
    hide ToFraction, Value, Cut;
    TimesInt(c.n', c.d);
    TimesInt(c.n, c.d');
    hide Times;
    ErrorOf(v, c.n as real, c.d as real, c.n' as real, c.d' as real, c.r);
  }

  lemma TimesInt(x: int, y: int)
    ensures Times(x as real, y as real) == (x * y) as real
  {
  }

  lemma ErrorOf(v: real, n: real, d: real, n': real, d': real, r: real)
    requires d >= 1.0 && d' >= 0.0 && Times(n', d) - Times(n, d') in {1.0, -1.0} && 0.0 <= r < 1.0
    requires Times(v, d + Times(r, d')) == n + Times(r, n')
    ensures -1.0 < Times(Times(v, d) - n, d) < 1.0
  {
    hide Times;
    var a, b, y := Times(r, d'), Times(r, n'), Times(v, d) - n;
    assert Times(y, d + a) == Times(d, b) - Times(n, a) by {
      Distribute(d + a, Times(v, d), n);
      Regroup(v, d, d + a);
      Distribute(d, n, b);
      Distribute(n, d, a);
      Regroup(d, n, n);
    }
    assert Times(d, b) - Times(n, a) == Times(r, Times(n', d) - Times(n, d')) by {
      Regroup(d, r, n');
      Regroup(n, r, d');
      Regroup(d, n', n');
      Distribute(r, Times(n', d), Times(n, d'));
    }
    Signs(r, 1.0);
    Signs(r, d');
    Distribute(y, d, a);
    Signs(y, a);
    Signs(y, d);
  }

  /** The number the result stands for is the argument, unless that is negative and no integer. */
  lemma ValueIs(f: real)
    ensures Value(f) == f <==> f >= 0.0 || f == Trunc(f) as real
  {
  }

  /** The result approximates the argument to within one over the square of its denominator. */
  ghost predicate Approximates(f: real, r: (int, int)) {
    -1.0 < Times(Times(f, r.1 as real) - r.0 as real, r.1 as real) < 1.0
  }

  /**
    It does exactly when the argument is not negative or lies within the tolerance of an integer: the
    fractional part of a negative number is taken without its sign.
  */
  lemma ApproximatesArgument(f: real, p: real)
    requires p > 0.0
    ensures Approximates(f, ToFraction(f, p)) <==> f >= 0.0 || Rest(f) <= p
  {
    if f >= 0.0 {
      ErrorBound(f, p);
      ValueIs(f);
    } else if Rest(f) <= p {
      var whole := Trunc(f) as real;
      assert ToFraction(f, p) == (Trunc(f), 1);
      Signs(f, 1.0);
      Signs(f - whole, 1.0);
      hide Times;
    } else {
      Mirrored(f, p);
    }
  }

  lemma Mirrored(f: real, p: real)
    requires f < 0.0 && 0.0 < p < Rest(f)
    ensures !Approximates(f, ToFraction(f, p))
  {
    var g, q := Inv(Rest(f)), Tolerance(p, Rest(f));
    var whole, rest := Trunc(f), Rest(f);
    assert f == whole as real - rest;
    CutExact(g, q);
    Inverse(rest);
    ExactSigns(g, Cut(g, q));
    FractionUnfolds(f, p);
    hide Trunc, Rest, Inv, Tolerance, Cut, Value, Exact;
    var (n, d) := ToFraction(g, q);
    hide ToFraction;
    TimesInt(whole, n);
    FarOff(whole as real, rest, n as real, d as real);
  }

  lemma FarOff(whole: real, rest: real, n: real, d: real)
    requires rest > 0.0 && n >= 1.0 && d >= 1.0
    ensures Times(Times(whole - rest, n) - (Times(whole, n) + d), n) <= -1.0
  {
    Distribute(n, whole, rest);
    Signs(rest, n);
    var y := Times(rest, n) + d;
    assert Times(whole - rest, n) - (Times(whole, n) + d) == -y;
    Distribute(n, 0.0 - y, 0.0);
    Distribute(y, n, 1.0);
    Signs(y, n - 1.0);
    Distribute(y, n - 1.0, 1.0);
    Signs(y, 1.0);
    assert Times(-y, n) == -Times(y, n);
    hide Times;
  }

  /** For one: minus a half becomes plus a half. */
  lemma NegativeHalf(p: real)
    requires 0.0 < p < 0.5
    ensures ToFraction(-0.5, p) == (1, 2)
  {
    var q := Tolerance(p, 0.5);
    assert Trunc(-0.5) == 0 && Rest(-0.5) == 0.5 && Inv(0.5) == 2.0;
    assert Trunc(2.0) == 2 && Rest(2.0) == 0.0;
    assert Recursive(2.0, q) == Ratio(2, 0, 1);
  }

  /** An integer is its own approximation. */
  lemma Integers(k: int, p: real)
    requires p > 0.0
    ensures ToFraction(k as real, p) == (k, 1)
  {
  }
}
