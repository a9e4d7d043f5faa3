/** Polynomials over the scalar field, and numbers written in a radix, which are polynomials too. */
module Polynomials {
  import opened Modular
  import opened Vectors

  /** `p[0] + p[1]*x + p[2]*x^2 + ...`, unreduced. */
  function Eval(p: seq<int>, x: int): int {
    if |p| == 0 then 0 else p[0] + x * Eval(p[1..], x)
  }

  /** Synthetic division by `x - a`: coefficient `i` of the quotient is the tail above `i`, at `a`. */
  function Quotient(p: seq<int>, a: int): (r: seq<int>)
    ensures |r| == if |p| == 0 then 0 else |p| - 1
  {
    if |p| <= 1 then [] else [Eval(p[1..], a)] + Quotient(p[1..], a)
  }

  lemma {:induction false} QuotientCorrect(p: seq<int>, a: int, x: int)
    ensures Eval(p, x) == Eval(p, a) + (x - a) * Eval(Quotient(p, a), x)
  {
    if |p| > 1 {
      var t := p[1..];
      QuotientCorrect(t, a, x);
      assert Quotient(p, a)[1..] == Quotient(t, a);
      QuotientStep(x, a, Eval(t, x), Eval(t, a), Eval(Quotient(t, a), x));
    }
  }

  lemma QuotientStep(x: int, a: int, tx: int, ta: int, qx: int)
    requires tx == ta + (x - a) * qx
    ensures x * tx == a * ta + (x - a) * (ta + x * qx)
  {
    assert x * tx == x * ta + x * ((x - a) * qx);
    assert (x - a) * (ta + x * qx) == x * ta - a * ta + (x - a) * (x * qx);
    assert x * ((x - a) * qx) == (x - a) * (x * qx);
  }

  lemma {:induction false} QuotientEntry(p: seq<int>, a: int, i: nat)
    requires i + 1 < |p|
    ensures Quotient(p, a)[i] == Eval(p[i + 1..], a)
  {
    if i > 0 {
      QuotientEntry(p[1..], a, i - 1);
      assert p[1..][i..] == p[i + 1..];
    }
  }

  ghost predicate Root(q: int, p: seq<int>, x: int)
    requires q > 0
  {
    Eval(p, x) % q == 0
  }

  ghost predicate DistinctMod(q: int, xs: seq<int>)
    requires q > 0
  {
    forall i, j :: 0 <= i < j < |xs| ==> !Cong(q, xs[i], xs[j])
  }

  /** A polynomial with at least as many roots as coefficients is zero. */
  lemma {:induction false} TooManyRoots(q: int, p: seq<int>, xs: seq<int>)
    requires Prime(q) && |xs| >= |p| && DistinctMod(q, xs)
    requires forall i :: 0 <= i < |xs| ==> Root(q, p, xs[i])
    ensures forall i :: 0 <= i < |p| ==> p[i] % q == 0
    decreases |p|
  {
    if |p| > 0 {
      var a, t := xs[0], Quotient(p, xs[0]);
      forall i | 0 <= i < |xs| - 1 ensures Root(q, t, xs[1..][i]) {
        RootOfQuotient(q, p, a, xs[i + 1]);
      }
      TooManyRoots(q, t, xs[1..]);
      forall i | 0 <= i < |p| ensures p[i] % q == 0 {
        CoefficientVanishes(q, p, a, i);
      }
    }
  }

  lemma RootOfQuotient(q: int, p: seq<int>, a: int, x: int)
    requires Prime(q) && Root(q, p, a) && Root(q, p, x) && !Cong(q, a, x)
    ensures Root(q, Quotient(p, a), x)
  {
    QuotientCorrect(p, a, x);
    var e := Eval(Quotient(p, a), x);
    CongSub(q, Eval(p, x), 0, Eval(p, a), 0);
    CongZero(q, x, a);
    NoZeroDivisors(q, x - a, e);
  }

  lemma CoefficientVanishes(q: int, p: seq<int>, a: int, i: nat)
    requires q > 0 && i < |p| && Root(q, p, a)
    requires forall j :: 0 <= j < |p| - 1 ==> Quotient(p, a)[j] % q == 0
    ensures p[i] % q == 0
  {
    var here := Eval(p[i..], a);
    var above := Eval(p[i + 1..], a);
    assert p[i..][1..] == p[i + 1..];
    if i == 0 {
      assert p[0..] == p;
    } else {
      QuotientEntry(p, a, i - 1);
    }
    if i + 1 < |p| {
      QuotientEntry(p, a, i);
    }
    assert here % q == 0 && above % q == 0;
    CongMulLeft(q, a, above, 0);
    CongSub(q, here, 0, a * above, 0);
  }

  // ---------------------------------------------------------------- linearity

  lemma {:induction false} EvalPlus(a: Vec, b: Vec, x: int)
    requires |a| == |b|
    ensures Eval(Plus(a, b), x) == Eval(a, x) + Eval(b, x)
    decreases |a|
  {
    if |a| > 0 {
      EvalPlus(a[1..], b[1..], x);
      assert Plus(a, b)[1..] == Plus(a[1..], b[1..]);
      assert x * (Eval(a[1..], x) + Eval(b[1..], x)) == x * Eval(a[1..], x) + x * Eval(b[1..], x);
    }
  }

  lemma {:induction false} EvalScale(c: int, a: Vec, x: int)
    ensures Eval(Scale(c, a), x) == c * Eval(a, x)
    decreases |a|
  {
    if |a| > 0 {
      EvalScale(c, a[1..], x);
      assert Scale(c, a)[1..] == Scale(c, a[1..]);
      ScaledHorner(c, a[0], x, Eval(a[1..], x));
    }
  }

  lemma ScaledHorner(c: int, a: int, x: int, t: int)
    ensures c * (a + x * t) == c * a + x * (c * t)
  {}

  lemma {:induction false} EvalCong(q: int, a: Vec, b: Vec, x: int)
    requires q > 0 && CongV(q, a, b)
    ensures Cong(q, Eval(a, x), Eval(b, x))
    decreases |a|
  {
    if |a| > 0 {
      EvalCong(q, a[1..], b[1..], x);
      CongMulLeft(q, x, Eval(a[1..], x), Eval(b[1..], x));
      CongAdd(q, a[0], b[0], x * Eval(a[1..], x), x * Eval(b[1..], x));
    }
  }

  // ---------------------------------------------------------------- radix

  /** `v` without its lowest digit. */
  function High(base: nat, v: nat): (r: nat)
    requires base > 1
  {
    Split(base, v);
    v / base
  }

  function Low(base: nat, v: nat): (r: nat)
    requires base > 1
    ensures r < base
  {
    v % base
  }

  lemma Split(base: nat, v: nat)
    requires base > 1
    ensures v / base >= 0 && v == base * (v / base) + v % base
  {
    var k, b: int := v / base, base;
    assert v == k * b + v % b;
    assert k < 0 ==> k * b <= -b;
  }

  /** The `count` low digits of `v`, least significant first. */
  function DigitsOf(base: nat, v: nat, count: nat): (r: seq<int>)
    requires base > 1
    ensures |r| == count
    decreases count
  {
    if count == 0 then [] else [Low(base, v)] + DigitsOf(base, High(base, v), count - 1)
  }

  /** `base^k` */
  function Power(base: nat, k: nat): (r: nat) {
    if k == 0 then 1 else Product(base, Power(base, k - 1))
  }

  function Product(a: nat, b: nat): (r: nat) { a * b }

  ghost predicate InRadix(base: int, d: seq<int>) {
    forall i :: 0 <= i < |d| ==> 0 <= d[i] < base
  }

  lemma {:induction false} DigitsCorrect(base: nat, v: nat, count: nat)
    requires base > 1
    ensures InRadix(base, DigitsOf(base, v, count))
    ensures Eval(DigitsOf(base, v, count), base) == v <==> v < Power(base, count)
    decreases count
  {
    hide Product, Low, High;
    if count > 0 {
      var h, low := High(base, v), Low(base, v);
      var tail := DigitsOf(base, h, count - 1);
      DigitsCorrect(base, h, count - 1);
      assert DigitsOf(base, v, count)[1..] == tail;
      DigitStep(base, v, Eval(tail, base), Power(base, count - 1));
    }
  }

  lemma DigitStep(base: nat, v: nat, t: int, p: nat)
    requires base > 1 && (t == High(base, v) <==> High(base, v) < p)
    ensures Low(base, v) + base * t == v <==> v < Product(base, p)
  {
    var h := High(base, v);
    Split(base, v);
    assert base * h == base * t ==> h == t by {
      if h != t {
        assert base * (h - t) != 0;
      }
    }
    if h < p {
      assert base * (h + 1) <= base * p;
    } else {
      assert base * h >= base * p;
    }
  }

  lemma {:induction false} RadixBounds(base: nat, d: seq<int>)
    requires base > 1 && InRadix(base, d)
    ensures 0 <= Eval(d, base) < Power(base, |d|)
  {
    hide Product;
    if |d| > 0 {
      RadixBounds(base, d[1..]);
      BoundStep(base, d[0], Eval(d[1..], base), Power(base, |d| - 1));
    }
  }

  lemma BoundStep(base: nat, low: int, t: int, p: nat)
    requires base > 1 && 0 <= low < base && 0 <= t < p
    ensures 0 <= low + base * t < Product(base, p)
  {
    assert base * t <= base * (p - 1);
    assert base * t >= 0;
    assert base * (p - 1) == base * p - base;
  }

  /** Digits are determined by the number they write. */
  lemma {:induction false} RadixUnique(base: nat, d: seq<int>)
    requires base > 1 && InRadix(base, d)
    ensures Eval(d, base) >= 0 && DigitsOf(base, Eval(d, base), |d|) == d
  {
    RadixBounds(base, d);
    if |d| > 0 {
      RadixUnique(base, d[1..]);
      var t := Eval(d[1..], base);
      ModIs(base, Eval(d, base), t, d[0]);
      assert High(base, Eval(d, base)) == t && Low(base, Eval(d, base)) == d[0];
      assert d == [d[0]] + d[1..];
    }
  }

  // ---------------------------------------------------------------- bytes

  /** The number in `count` bytes, most significant first, as `FillBytes` and `PutUint64` write it. */
  function BigEndian(v: nat, count: nat): (r: seq<int>)
    ensures |r| == count
    decreases count
  {
    if count == 0 then [] else BigEndian(High(256, v), count - 1) + [Low(256, v)]
  }

  lemma {:induction false} BigEndianReversed(v: nat, count: nat, i: nat)
    requires i < count
    ensures BigEndian(v, count)[count - 1 - i] == DigitsOf(256, v, count)[i]
    decreases count
  {
    hide Low, High;
    if i > 0 {
      BigEndianReversed(High(256, v), count - 1, i - 1);
    }
  }

  /** The number written by the bytes. */
  function BigEndianValue(b: seq<int>): int {
    if |b| == 0 then 0 else BigEndianValue(b[..|b| - 1]) * 256 + b[|b| - 1]
  }

  lemma {:induction false} BigEndianRoundTrip(v: nat, count: nat)
    requires v < Power(256, count)
    ensures BigEndianValue(BigEndian(v, count)) == v
    decreases count
  {
    hide Low, High, Product;
    if count > 0 {
      var h := High(256, v);
      LowByte(v, Power(256, count - 1));
      BigEndianRoundTrip(h, count - 1);
      assert BigEndian(v, count) == BigEndian(h, count - 1) + [Low(256, v)];
    }
  }

  lemma LowByte(v: nat, p: nat)
    requires v < Product(256, p)
    ensures High(256, v) < p && High(256, v) * 256 + Low(256, v) == v
  {}
}
