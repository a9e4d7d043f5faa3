/**
  All lanes of the comparator at once: the borrow equations laid out in one vector, the coefficient
  form the program uses to combine them, and what a vanishing combination says about the scalars.
 */
module ComparatorRows {
  import opened Common
  import opened Modular
  import opened Vectors
  import opened Polynomials
  import opened RangeVectors
  import opened Comparator

  /** One value per commitment: the points themselves, the committed values, or the blindings. */
  datatype Family = Family(unit: int, s: Vec, c: Vec, b: Vec)

  function Offset(width: nat, k: nat): nat {
    if k == 0 then 0 else Offset(width, k - 1) + width
  }

  lemma {:induction false} OffsetProduct(width: nat, k: nat)
    ensures Offset(width, k) == k * width
  {
    if k > 0 {
      OffsetProduct(width, k - 1);
      assert k * width == (k - 1) * width + width;
    }
  }

  lemma {:induction false} OffsetMono(width: nat, j: nat, k: nat)
    requires j <= k
    ensures Offset(width, j) <= Offset(width, k)
  {
    if j < k {
      OffsetMono(width, j, k - 1);
    }
  }

  predicate Shape(x: Family, chunks: nat, lanes: nat) {
    chunks > 0 && |x.s| == |x.c| == Offset(chunks, lanes) && |x.b| == Offset(chunks - 1, lanes)
  }

  function LaneAt(v: Vec, width: nat, k: nat): (r: Vec)
    requires Offset(width, k + 1) <= |v|
    ensures |r| == width
  {
    v[Offset(width, k)..Offset(width, k + 1)]
  }

  function LaneRows(m: Vec, s: Vec, c: Vec, b: Vec): (r: Vec)
    requires |m| == |s| == |c| == |b| + 1
    ensures |r| == |m|
  {
    seq(|m|, k requires 0 <= k < |m| => LaneRow(m, s, c, b, k))
  }

  predicate Covers(x: Family, chunks: nat, n: nat) {
    chunks > 0 && |x.s| == |x.c| && Offset(chunks, n) <= |x.s| && Offset(chunks - 1, n) <= |x.b|
  }

  /** The equations of lane `k`. */
  function RowsOfLane(x: Family, m: Vec, k: nat): (r: Vec)
    requires Covers(x, |m|, k + 1)
    ensures |r| == |m|
  {
    LaneRows(Scale(x.unit, m), LaneAt(x.s, |m|, k), LaneAt(x.c, |m|, k), LaneAt(x.b, |m| - 1, k))
  }

  /** The equations of the first `n` lanes, in order. */
  function Rows(x: Family, m: Vec, n: nat): (r: Vec)
    requires Covers(x, |m|, n)
    ensures |r| == Offset(|m|, n)
  {
    if n == 0 then [] else Rows(x, m, n - 1) + RowsOfLane(x, m, n - 1)
  }

  lemma {:induction false} RowsEntry(x: Family, m: Vec, n: nat, lane: nat, k: nat)
    requires Covers(x, |m|, n) && lane < n && k < |m|
    ensures Covers(x, |m|, lane + 1) && Offset(|m|, lane) + k < Offset(|m|, n)
    ensures Rows(x, m, n)[Offset(|m|, lane) + k] == RowsOfLane(x, m, lane)[k]
  {
    if lane < n - 1 {
      RowsEntry(x, m, n - 1, lane, k);
    }
  }

  // ---------------------------------------------------------------- coefficients

  /** A borrow leaves one digit with weight 256 and enters the next with weight -1. */
  function BorrowLane(w: Vec): (r: Vec)
    requires |w| > 0
    ensures |r| == |w| - 1
  {
    seq(|w| - 1, k requires 0 <= k < |w| - 1 => RADIX * w[k] - w[k + 1])
  }

  function BorrowCoefficients(w: Vec, chunks: nat, n: nat): (r: Vec)
    requires chunks > 0 && Offset(chunks, n) <= |w|
    ensures |r| == Offset(chunks - 1, n)
  {
    if n == 0 then [] else BorrowCoefficients(w, chunks, n - 1) + BorrowLane(LaneAt(w, chunks, n - 1))
  }

  function GeneratorCoefficient(w: Vec, m: Vec, n: nat): int
    requires Offset(|m|, n) <= |w|
  {
    if n == 0 then 0 else GeneratorCoefficient(w, m, n - 1) + Inner(LaneAt(w, |m|, n - 1), m)
  }

  lemma {:induction false} LaneSum(unit: int, m: Vec, s: Vec, c: Vec, b: Vec, w: Vec, n: nat)
    requires |m| == |s| == |c| == |w| == |b| + 1 && 0 < n <= |m|
    ensures Sum(w, LaneRows(Scale(unit, m), s, c, b), n) ==
            unit * Sum(w, m, n) - Sum(w, s, n) - Sum(w, c, n) + Sum(BorrowLane(w), b, n - 1)
            + (if n < |m| then (RADIX * w[n - 1]) * b[n - 1] else 0)
  {
    hide RADIX;
    var k := n - 1;
    var rows := LaneRows(Scale(unit, m), s, c, b);
    var up := if k > 0 then b[k - 1] else 0;
    var out := if k < |b| then RADIX * b[k] else 0;
    assert rows[k] == unit * m[k] - s[k] - c[k] - up + out;
    DistributeRow(w[k], unit, m[k], s[k], c[k], up, out);
    ScaleStep(unit, w[k], m[k], Sum(w, m, k), Sum(w, m, n));
    assert w[k] * out == if n < |m| then (RADIX * w[k]) * b[k] else 0 by {
      if n < |m| {
        assert w[k] * (RADIX * b[k]) == (RADIX * w[k]) * b[k];
      }
    }
    if k > 0 {
      LaneSum(unit, m, s, c, b, w, k);
      BorrowStep(RADIX * w[k - 1], w[k], b[k - 1]);
    }
  }

  lemma DistributeRow(w: int, unit: int, m: int, s: int, c: int, up: int, out: int)
    ensures w * (unit * m - s - c - up + out) == (unit * w) * m - w * s - w * c - w * up + w * out
  {
    assert w * (unit * m) == (unit * w) * m;
  }

  lemma BorrowStep(a: int, w: int, b: int)
    ensures (a - w) * b == a * b - w * b
  {}

  lemma RegroupLane(unit: int, m: Vec, s: Vec, c: Vec, b: Vec, w: Vec)
    requires |m| == |s| == |c| == |w| == |b| + 1
    ensures Inner(w, LaneRows(Scale(unit, m), s, c, b)) ==
            unit * Inner(w, m) - Inner(w, s) - Inner(w, c) + Inner(BorrowLane(w), b)
  {
    LaneSum(unit, m, s, c, b, w, |m|);
  }

  function Prod(a: int, b: int): int { a * b }

  /** The coefficient form of the weighted equations: one coefficient per commitment. */
  function Combined(x: Family, m: Vec, w: Vec, n: nat): int
    requires Covers(x, |m|, n) && Offset(|m|, n) <= |w|
  {
    var o := Offset(|m|, n);
    Prod(x.unit, GeneratorCoefficient(w, m, n)) - Inner(w[..o], x.s[..o]) - Inner(w[..o], x.c[..o])
    + Inner(BorrowCoefficients(w, |m|, n), x.b[..Offset(|m| - 1, n)])
  }

  lemma PrefixStep(v: Vec, width: nat, n: nat)
    requires n > 0 && Offset(width, n) <= |v|
    ensures v[..Offset(width, n)] == v[..Offset(width, n - 1)] + LaneAt(v, width, n - 1)
  {}

  /** Combining coefficients per commitment is the same as weighting whole equations. */
  lemma {:induction false} Regroup(x: Family, m: Vec, w: Vec, n: nat)
    requires Covers(x, |m|, n) && Offset(|m|, n) <= |w|
    ensures Combined(x, m, w, n) == Inner(w[..Offset(|m|, n)], Rows(x, m, n))
  {
    hide Inner, LaneRows, LaneAt, BorrowLane, Scale;
    if n == 0 {
      EmptyInner();
    } else {
      Regroup(x, m, w, n - 1);
      RegroupLane(x.unit, m, LaneAt(x.s, |m|, n - 1), LaneAt(x.c, |m|, n - 1), LaneAt(x.b, |m| - 1, n - 1),
                  LaneAt(w, |m|, n - 1));
      CombinedStep(x, m, w, n);
      PrefixStep(w, |m|, n);
      InnerConcat(w[..Offset(|m|, n - 1)], Rows(x, m, n - 1), LaneAt(w, |m|, n - 1), RowsOfLane(x, m, n - 1));
    }
  }

  lemma CombinedStep(x: Family, m: Vec, w: Vec, n: nat)
    requires n > 0 && Covers(x, |m|, n) && Offset(|m|, n) <= |w|
    ensures var wl := LaneAt(w, |m|, n - 1);
            Combined(x, m, w, n) == Combined(x, m, w, n - 1) + Prod(x.unit, Inner(wl, m))
            - Inner(wl, LaneAt(x.s, |m|, n - 1)) - Inner(wl, LaneAt(x.c, |m|, n - 1))
            + Inner(BorrowLane(wl), LaneAt(x.b, |m| - 1, n - 1))
  {
    hide Inner, LaneAt, BorrowLane, Prod;
    var wl := LaneAt(w, |m|, n - 1);
    InnerPrefix(w, x.s, |m|, n);
    InnerPrefix(w, x.c, |m|, n);
    BorrowPrefix(w, x.b, |m|, n);
    AddCombined(x.unit, GeneratorCoefficient(w, m, n - 1), Inner(wl, m));
  }

  lemma InnerPrefix(w: Vec, v: Vec, width: nat, n: nat)
    requires n > 0 && Offset(width, n) <= |w| && Offset(width, n) <= |v|
    ensures var o := Offset(width, n - 1);
            Inner(w[..Offset(width, n)], v[..Offset(width, n)])
            == Inner(w[..o], v[..o]) + Inner(LaneAt(w, width, n - 1), LaneAt(v, width, n - 1))
  {
    hide Inner, LaneAt;
    var o := Offset(width, n - 1);
    PrefixStep(w, width, n);
    PrefixStep(v, width, n);
    InnerConcat(w[..o], v[..o], LaneAt(w, width, n - 1), LaneAt(v, width, n - 1));
  }

  lemma BorrowPrefix(w: Vec, b: Vec, chunks: nat, n: nat)
    requires n > 0 && chunks > 0 && Offset(chunks, n) <= |w| && Offset(chunks - 1, n) <= |b|
    ensures Inner(BorrowCoefficients(w, chunks, n), b[..Offset(chunks - 1, n)])
            == Inner(BorrowCoefficients(w, chunks, n - 1), b[..Offset(chunks - 1, n - 1)])
               + Inner(BorrowLane(LaneAt(w, chunks, n - 1)), LaneAt(b, chunks - 1, n - 1))
  {
    hide Inner, LaneAt, BorrowLane;
    PrefixStep(b, chunks - 1, n);
    InnerConcat(BorrowCoefficients(w, chunks, n - 1), b[..Offset(chunks - 1, n - 1)],
                BorrowLane(LaneAt(w, chunks, n - 1)), LaneAt(b, chunks - 1, n - 1));
  }

  lemma EmptyInner()
    ensures Inner([], []) == 0
  {}

  lemma AddCombined(unit: int, g: int, h: int)
    ensures Prod(unit, g + h) == Prod(unit, g) + Prod(unit, h)
  {}

  // ---------------------------------------------------------------- openings

  predicate OpensTo(q: int, G: Point, H: Point, p: int, v: int, r: int)
    requires q > 0
  {
    Cong(q, p, G * v + H * r)
  }

  ghost predicate OpenedVec(q: int, G: Point, H: Point, p: Vec, v: Vec, r: Vec)
    requires q > 0
  {
    |p| == |v| == |r| && forall i :: 0 <= i < |p| ==> OpensTo(q, G, H, p[i], v[i], r[i])
  }

  /** `x` holds commitments to the values `v` under the blindings `r`. */
  ghost predicate Opened(q: int, G: Point, H: Point, x: Family, v: Family, r: Family)
    requires q > 0
  {
    x.unit == G && v.unit == 1 && r.unit == 0 &&
    OpenedVec(q, G, H, x.s, v.s, r.s) && OpenedVec(q, G, H, x.c, v.c, r.c) && OpenedVec(q, G, H, x.b, v.b, r.b)
  }

  lemma OpensCombine(q: int, G: Point, H: Point, p: int, v: int, r: int, p': int, v': int, r': int, a: int, a': int)
    requires q > 0 && OpensTo(q, G, H, p, v, r) && OpensTo(q, G, H, p', v', r')
    ensures OpensTo(q, G, H, a * p + a' * p', a * v + a' * v', a * r + a' * r')
  {
    CongMulLeft(q, a, p, G * v + H * r);
    CongMulLeft(q, a', p', G * v' + H * r');
    CongAdd(q, a * p, a * (G * v + H * r), a' * p', a' * (G * v' + H * r'));
    LinearPair(G, H, v, r, a);
    LinearPair(G, H, v', r', a');
    assert G * (a * v + a' * v') == G * (a * v) + G * (a' * v');
    assert H * (a * r + a' * r') == H * (a * r) + H * (a' * r');
  }

  lemma LinearPair(G: int, H: int, v: int, r: int, a: int)
    ensures a * (G * v + H * r) == G * (a * v) + H * (a * r)
  {
    assert a * (G * v) == G * (a * v) && a * (H * r) == H * (a * r);
  }

  /** A combination of commitments opens to the combination of what they open to. */
  lemma {:induction false} SumOpens(q: int, G: Point, H: Point, w: Vec, p: Vec, v: Vec, r: Vec, n: nat)
    requires q > 0 && OpenedVec(q, G, H, p, v, r) && n <= |w| && n <= |p|
    ensures OpensTo(q, G, H, Sum(w, p, n), Sum(w, v, n), Sum(w, r, n))
  {
    if n == 0 {
      assert G * 0 + H * 0 == 0;
    } else {
      SumOpens(q, G, H, w, p, v, r, n - 1);
      var k := n - 1;
      OpensCombine(q, G, H, Sum(w, p, k), Sum(w, v, k), Sum(w, r, k), p[k], v[k], r[k], 1, w[k]);
    }
  }

  lemma LaneRowOpens(q: int, G: Point, H: Point, mx: Vec, mv: Vec, mr: Vec, x: Family, v: Family, r: Family, k: nat)
    requires q > 0 && OpenedVec(q, G, H, mx, mv, mr) && k < |mx|
    requires OpenedVec(q, G, H, x.s, v.s, r.s) && OpenedVec(q, G, H, x.c, v.c, r.c) && OpenedVec(q, G, H, x.b, v.b, r.b)
    requires |mx| == |x.s| == |x.c| == |x.b| + 1
    ensures OpensTo(q, G, H, LaneRow(mx, x.s, x.c, x.b, k), LaneRow(mv, v.s, v.c, v.b, k), LaneRow(mr, r.s, r.c, r.b, k))
  {
    OpensCombine(q, G, H, mx[k], mv[k], mr[k], x.s[k], v.s[k], r.s[k], 1, -1);
    var p0, v0, r0 := mx[k] - x.s[k], mv[k] - v.s[k], mr[k] - r.s[k];
    OpensCombine(q, G, H, p0, v0, r0, x.c[k], v.c[k], r.c[k], 1, -1);
    var p1, v1, r1 := p0 - x.c[k], v0 - v.c[k], r0 - r.c[k];
    if k > 0 {
      OpensCombine(q, G, H, p1, v1, r1, x.b[k - 1], v.b[k - 1], r.b[k - 1], 1, -1);
      p1, v1, r1 := p1 - x.b[k - 1], v1 - v.b[k - 1], r1 - r.b[k - 1];
    }
    if k < |x.b| {
      OpensCombine(q, G, H, p1, v1, r1, x.b[k], v.b[k], r.b[k], 1, RADIX);
    }
  }

  lemma ScaledOpens(q: int, G: Point, H: Point, m: Vec)
    requires q > 0
    ensures OpenedVec(q, G, H, Scale(G, m), Scale(1, m), Scale(0, m))
  {
    forall i | 0 <= i < |m| ensures OpensTo(q, G, H, Scale(G, m)[i], Scale(1, m)[i], Scale(0, m)[i]) {
      assert H * 0 == 0;
    }
  }

  lemma {:induction false} RowsOpen(q: int, G: Point, H: Point, m: Vec, x: Family, v: Family, r: Family, n: nat)
    requires q > 0 && Opened(q, G, H, x, v, r) && Covers(x, |m|, n)
    ensures Covers(v, |m|, n) && Covers(r, |m|, n)
    ensures OpenedVec(q, G, H, Rows(x, m, n), Rows(v, m, n), Rows(r, m, n))
  {
    hide OpensTo, RowsOfLane;
    if n > 0 {
      RowsOpen(q, G, H, m, x, v, r, n - 1);
      RowsOfLaneOpen(q, G, H, m, x, v, r, n - 1);
      ConcatOpens(q, G, H, Rows(x, m, n - 1), Rows(v, m, n - 1), Rows(r, m, n - 1),
                  RowsOfLane(x, m, n - 1), RowsOfLane(v, m, n - 1), RowsOfLane(r, m, n - 1));
    }
  }

  lemma ConcatOpens(q: int, G: Point, H: Point, p: Vec, v: Vec, r: Vec, p': Vec, v': Vec, r': Vec)
    requires q > 0 && OpenedVec(q, G, H, p, v, r) && OpenedVec(q, G, H, p', v', r')
    ensures OpenedVec(q, G, H, p + p', v + v', r + r')
  {}

  lemma RowsOfLaneOpen(q: int, G: Point, H: Point, m: Vec, x: Family, v: Family, r: Family, k: nat)
    requires q > 0 && Opened(q, G, H, x, v, r) && Covers(x, |m|, k + 1)
    ensures Covers(v, |m|, k + 1) && Covers(r, |m|, k + 1)
    ensures OpenedVec(q, G, H, RowsOfLane(x, m, k), RowsOfLane(v, m, k), RowsOfLane(r, m, k))
  {
    hide LaneRow, OpensTo;
    ScaledOpens(q, G, H, m);
    var xl := LaneFamily(x, |m|, k);
    var vl := LaneFamily(v, |m|, k);
    var rl := LaneFamily(r, |m|, k);
    forall j | 0 <= j < |m|
      ensures OpensTo(q, G, H, RowsOfLane(x, m, k)[j], RowsOfLane(v, m, k)[j], RowsOfLane(r, m, k)[j])
    {
      LaneRowOpens(q, G, H, Scale(G, m), Scale(1, m), Scale(0, m), xl, vl, rl, j);
    }
  }

  function LaneFamily(x: Family, chunks: nat, k: nat): Family
    requires Covers(x, chunks, k + 1)
  {
    Family(x.unit, LaneAt(x.s, chunks, k), LaneAt(x.c, chunks, k), LaneAt(x.b, chunks - 1, k))
  }

  // ---------------------------------------------------------------- what the equations mean

  ghost predicate DigitsInRange(v: Family) {
    InRadix(RADIX, v.s) && InRadix(RADIX, v.c) && InRadix(2, v.b)
  }

  /** Lane `k` writes a scalar below the modulus, with its true complement and borrows. */
  ghost predicate CanonicalLane(q: int, m: Vec, v: Family, k: nat) {
    Covers(v, |m|, k + 1) &&
    var l := LaneFamily(v, |m|, k);
    && 0 <= Eval(l.s, RADIX) <= q - 1
    && Eval(l.s, RADIX) + Eval(l.c, RADIX) == q - 1
    && BorrowChain(m, l.s, l.c, 0) == Some(l.b)
  }

  lemma CoversMono(v: Family, chunks: nat, j: nat, k: nat)
    requires j <= k && Covers(v, chunks, k)
    ensures Covers(v, chunks, j)
  {
    OffsetMono(chunks, j, k);
    OffsetMono(chunks - 1, j, k);
  }

  lemma LaneInRange(v: Family, chunks: nat, k: nat)
    requires Covers(v, chunks, k + 1) && DigitsInRange(v)
    ensures DigitsInRange(LaneFamily(v, chunks, k))
  {}

  lemma LaneMeaning(q: int, m: Vec, v: Family, k: nat)
    requires Covers(v, |m|, k + 1) && v.unit == 1 && DigitsInRange(v)
    requires q >= 2 * RADIX && InRadix(RADIX, m) && Eval(m, RADIX) == q - 1
    ensures (forall j :: 0 <= j < |m| ==> RowsOfLane(v, m, k)[j] % q == 0) <==> CanonicalLane(q, m, v, k)
  {
    hide LaneRow, Eval, BorrowChain;
    var l := LaneFamily(v, |m|, k);
    var rows := RowsOfLane(v, m, k);
    assert Scale(1, m) == m;
    LaneInRange(v, |m|, k);
    LaneExact(q, m, l.s, l.c, l.b);
    RadixBounds(RADIX, l.s);
    RadixBounds(RADIX, l.c);
    forall j | 0 <= j < |m| ensures rows[j] == LaneRow(m, l.s, l.c, l.b, j) {}
  }

  lemma InnerSingle(a: int, b: int)
    ensures Inner([a], [b]) == a * b
  {
    assert Sum([a], [b], 1) == Sum([a], [b], 0) + a * b;
  }

  lemma ShiftPowers(x: int, e: nat, n: nat)
    requires n > 0
    ensures Scale(Pow(x, e), Powers(x, n)) == [Pow(x, e)] + Scale(Pow(x, e + 1), Powers(x, n - 1))
  {
    var left, right := Scale(Pow(x, e), Powers(x, n)), [Pow(x, e)] + Scale(Pow(x, e + 1), Powers(x, n - 1));
    forall i | 0 <= i < n ensures left[i] == right[i] {
      if i > 0 {
        assert Pow(x, e) * (Pow(x, i - 1) * x) == (Pow(x, e) * x) * Pow(x, i - 1);
      }
    }
  }

  /** `Inner` with powers is polynomial evaluation. */
  lemma {:induction false} PowersEval(p: Vec, x: int, e: nat)
    ensures Inner(Scale(Pow(x, e), Powers(x, |p|)), p) == Pow(x, e) * Eval(p, x)
    decreases |p|
  {
    hide Inner, Scale, Powers;
    if |p| == 0 {
      assert Scale(Pow(x, e), Powers(x, 0)) == [];
      EmptyInner();
    } else {
      var t, c := p[1..], Pow(x, e);
      var tail := Scale(Pow(x, e + 1), Powers(x, |t|));
      PowersEval(t, x, e + 1);
      ShiftPowers(x, e, |p|);
      InnerConcat([c], [p[0]], tail, t);
      assert [p[0]] + t == p;
      InnerSingle(c, p[0]);
      assert c * (p[0] + x * Eval(t, x)) == c * p[0] + (c * x) * Eval(t, x);
    }
  }

  lemma InnerPowers(p: Vec, x: int)
    ensures Inner(Powers(x, |p|), p) == Eval(p, x)
  {
    PowersEval(p, x, 0);
    assert Scale(Pow(x, 0), Powers(x, |p|)) == Powers(x, |p|);
  }

  /** The value part of the verifier's combination at one weight. */
  ghost predicate Vanishes(q: int, m: Vec, v: Family, lanes: nat, weight: int)
    requires q > 0 && Covers(v, |m|, lanes)
  {
    Inner(Powers(weight, Offset(|m|, lanes)), Rows(v, m, lanes)) % q == 0
  }

  /**
    Soundness: in-range digits and bits for which the combination vanishes at as many distinct weights
    as there are equations write canonical scalars, every one of them at most `q - 1`.
   */
  lemma VanishingIsCanonical(q: int, m: Vec, v: Family, lanes: nat, weights: seq<int>)
    requires Prime(q) && q >= 2 * RADIX && InRadix(RADIX, m) && Eval(m, RADIX) == q - 1
    requires Shape(v, |m|, lanes) && v.unit == 1 && DigitsInRange(v)
    requires DistinctMod(q, weights) && |weights| >= Offset(|m|, lanes)
    requires forall i :: 0 <= i < |weights| ==> Vanishes(q, m, v, lanes, weights[i])
    ensures forall k :: 0 <= k < lanes ==> CanonicalLane(q, m, v, k)
  {
    hide LaneRows, Inner, CanonicalLane, DigitsInRange;
    var rows := Rows(v, m, lanes);
    forall i | 0 <= i < |weights| ensures Root(q, rows, weights[i]) {
      assert Vanishes(q, m, v, lanes, weights[i]);
      InnerPowers(rows, weights[i]);
    }
    TooManyRoots(q, rows, weights);
    forall k | 0 <= k < lanes ensures CanonicalLane(q, m, v, k) {
      CoversMono(v, |m|, k + 1, lanes);
      forall j | 0 <= j < |m| ensures RowsOfLane(v, m, k)[j] % q == 0 {
        RowsEntry(v, m, lanes, k, j);
      }
      LaneMeaning(q, m, v, k);
    }
  }

  /** Completeness: canonical lanes make the combination vanish at every weight. */
  lemma CanonicalVanishes(q: int, m: Vec, v: Family, lanes: nat, w: Vec)
    requires q >= 2 * RADIX && InRadix(RADIX, m) && Eval(m, RADIX) == q - 1
    requires Shape(v, |m|, lanes) && v.unit == 1 && DigitsInRange(v) && |w| == Offset(|m|, lanes)
    requires forall k :: 0 <= k < lanes ==> CanonicalLane(q, m, v, k)
    ensures Inner(w, Rows(v, m, lanes)) % q == 0
  {
    RowsVanish(q, m, v, lanes);
    SumVanishes(q, w, Rows(v, m, lanes), |w|);
  }

  lemma {:induction false} RowsVanish(q: int, m: Vec, v: Family, n: nat)
    requires q >= 2 * RADIX && InRadix(RADIX, m) && Eval(m, RADIX) == q - 1
    requires Covers(v, |m|, n) && v.unit == 1 && DigitsInRange(v)
    requires forall k :: 0 <= k < n ==> CanonicalLane(q, m, v, k)
    ensures forall i :: 0 <= i < Offset(|m|, n) ==> Rows(v, m, n)[i] % q == 0
  {
    hide RowsOfLane, CanonicalLane;
    if n > 0 {
      RowsVanish(q, m, v, n - 1);
      LaneMeaning(q, m, v, n - 1);
    }
  }

  lemma {:induction false} SumVanishes(q: int, w: Vec, p: Vec, n: nat)
    requires q > 0 && n <= |w| && n <= |p| && forall i :: 0 <= i < |p| ==> p[i] % q == 0
    ensures Sum(w, p, n) % q == 0
  {
    if n == 0 {
      ModSmall(q, 0);
    } else {
      SumVanishes(q, w, p, n - 1);
      CongMulLeft(q, w[n - 1], p[n - 1], 0);
      CongAdd(q, Sum(w, p, n - 1), 0, w[n - 1] * p[n - 1], 0);
    }
  }
}
