/** Vectors of scalars or points: inner products, multi-scalar sums and their linearity. */
module Vectors {
  import opened Modular

  type Vec = seq<int>

  function Pow(x: int, k: nat): int {
    if k == 0 then 1 else Pow(x, k - 1) * x
  }

  /** The inner product, unreduced; it is also the multi-scalar sum of points by scalars. */
  function Inner(a: Vec, b: Vec): int
    requires |a| == |b|
  {
    Sum(a, b, |a|)
  }

  /** The first `n` products, summed. */
  function Sum(a: Vec, b: Vec, n: nat): int
    requires n <= |a| && n <= |b|
  {
    if n == 0 then 0 else Sum(a, b, n - 1) + a[n - 1] * b[n - 1]
  }

  function Scale(s: int, v: Vec): (r: Vec)
    ensures |r| == |v|
  {
    seq(|v|, i requires 0 <= i < |v| => s * v[i])
  }

  function Plus(v: Vec, w: Vec): (r: Vec)
    requires |v| == |w|
    ensures |r| == |v|
  {
    seq(|v|, i requires 0 <= i < |v| => v[i] + w[i])
  }

  /** Pointwise product. */
  function Times(v: Vec, w: Vec): (r: Vec)
    requires |v| == |w|
    ensures |r| == |v|
  {
    seq(|v|, i requires 0 <= i < |v| => v[i] * w[i])
  }

  ghost predicate CongV(q: int, a: Vec, b: Vec)
    requires q > 0
  {
    |a| == |b| && forall i :: 0 <= i < |a| ==> Cong(q, a[i], b[i])
  }

  lemma CongVRefl(q: int, v: Vec)
    requires q > 0
    ensures CongV(q, v, v)
  {}

  /** A partial sum only reads the entries it adds. */
  lemma {:induction false} SumCongruent(a: Vec, b: Vec, a': Vec, b': Vec, n: nat)
    requires n <= |a| && n <= |b| && n <= |a'| && n <= |b'|
    requires forall i :: 0 <= i < n ==> a[i] == a'[i] && b[i] == b'[i]
    ensures Sum(a, b, n) == Sum(a', b', n)
  {
    if n > 0 {
      SumCongruent(a, b, a', b', n - 1);
    }
  }

  lemma {:induction false} SumConcat(a: Vec, b: Vec, c: Vec, d: Vec, n: nat)
    requires |a| == |b| && |c| == |d| && n <= |c|
    ensures Sum(a + c, b + d, |a| + n) == Inner(a, b) + Sum(c, d, n)
  {
    if n == 0 {
      SumCongruent(a + c, b + d, a, b, |a|);
    } else {
      SumConcat(a, b, c, d, n - 1);
    }
  }

  lemma InnerConcat(a: Vec, b: Vec, c: Vec, d: Vec)
    requires |a| == |b| && |c| == |d|
    ensures Inner(a + c, b + d) == Inner(a, b) + Inner(c, d)
  {
    SumConcat(a, b, c, d, |c|);
  }

  lemma {:induction false} SumComm(a: Vec, b: Vec, n: nat)
    requires n <= |a| && n <= |b|
    ensures Sum(a, b, n) == Sum(b, a, n)
  {
    if n > 0 {
      SumComm(a, b, n - 1);
    }
  }

  lemma InnerComm(a: Vec, b: Vec)
    requires |a| == |b|
    ensures Inner(a, b) == Inner(b, a)
  {
    SumComm(a, b, |a|);
  }

  lemma {:induction false} SumScale(s: int, a: Vec, b: Vec, n: nat)
    requires n <= |a| && n <= |b|
    ensures Sum(Scale(s, a), b, n) == s * Sum(a, b, n)
  {
    if n > 0 {
      SumScale(s, a, b, n - 1);
      ScaleStep(s, a[n - 1], b[n - 1], Sum(a, b, n - 1), Sum(a, b, n));
    }
  }

  lemma ScaleStep(s: int, x: int, y: int, before: int, after: int)
    requires after == before + x * y
    ensures s * after == s * before + (s * x) * y
  {
    assert s * (x * y) == (s * x) * y;
  }

  lemma InnerScale(s: int, a: Vec, b: Vec)
    requires |a| == |b|
    ensures Inner(Scale(s, a), b) == s * Inner(a, b)
  {
    SumScale(s, a, b, |a|);
  }

  lemma {:induction false} SumPlus(a: Vec, a': Vec, b: Vec, n: nat)
    requires |a| == |a'| && n <= |a| && n <= |b|
    ensures Sum(Plus(a, a'), b, n) == Sum(a, b, n) + Sum(a', b, n)
  {
    if n > 0 {
      SumPlus(a, a', b, n - 1);
      assert (a[n - 1] + a'[n - 1]) * b[n - 1] == a[n - 1] * b[n - 1] + a'[n - 1] * b[n - 1];
    }
  }

  lemma InnerPlus(a: Vec, a': Vec, b: Vec)
    requires |a| == |a'| == |b|
    ensures Inner(Plus(a, a'), b) == Inner(a, b) + Inner(a', b)
  {
    SumPlus(a, a', b, |a|);
  }

  lemma {:induction false} SumCong(q: int, a: Vec, a': Vec, b: Vec, b': Vec, n: nat)
    requires q > 0 && CongV(q, a, a') && CongV(q, b, b') && n <= |a| && n <= |b|
    ensures Cong(q, Sum(a, b, n), Sum(a', b', n))
  {
    if n > 0 {
      SumCong(q, a, a', b, b', n - 1);
      CongMul(q, a[n - 1], a'[n - 1], b[n - 1], b'[n - 1]);
      CongAdd(q, Sum(a, b, n - 1), Sum(a', b', n - 1), a[n - 1] * b[n - 1], a'[n - 1] * b'[n - 1]);
    }
  }

  lemma InnerCong(q: int, a: Vec, a': Vec, b: Vec, b': Vec)
    requires q > 0 && CongV(q, a, a') && CongV(q, b, b') && |a| == |b|
    ensures Cong(q, Inner(a, b), Inner(a', b'))
  {
    SumCong(q, a, a', b, b', |a|);
  }

  /** Both halves of a split vector, one scaled by `c` and the other by `d`. */
  lemma InnerHalves(c: int, d: int, lo: Vec, hi: Vec, w: Vec)
    requires |lo| == |hi| == |w|
    ensures Inner(Plus(Scale(c, lo), Scale(d, hi)), w) == c * Inner(lo, w) + d * Inner(hi, w)
  {
    InnerPlus(Scale(c, lo), Scale(d, hi), w);
    InnerScale(c, lo, w);
    InnerScale(d, hi, w);
  }

  /** One step of a reduced running sum. */
  lemma SumStep(q: int, a: Vec, b: Vec, n: nat)
    requires q > 0 && n < |a| && n < |b|
    ensures (Sum(a, b, n) % q + a[n] * b[n] % q) % q == Sum(a, b, n + 1) % q
  {
    AddReduced(q, Sum(a, b, n), a[n] * b[n]);
  }

  lemma AddReduced(q: int, s: int, p: int)
    requires q > 0
    ensures (s % q + p % q) % q == (s + p) % q
  {
    ModAdd(q, s, p % q);
    ModAdd(q, s, p);
  }

  /** The scalar inner product and the point multi-sum are this same loop. */
  method InnerProduct(q: int, left: Vec, right: Vec) returns (out: int)
    requires q > 0 && |left| == |right|
    ensures out == Inner(left, right) % q
  {
    out := 0;
    ModSmall(q, 0);
    for i := 0 to |left|
      invariant out == Sum(left, right, i) % q
    {
      SumStep(q, left, right, i);
      out := (out + left[i] * right[i] % q) % q;
    }
  }
}
