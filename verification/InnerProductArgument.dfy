/**
  The logarithmic inner-product argument of the compact range proof.

  The prover folds generators and witness in half each round.  The verifier never folds: it computes
  one coefficient per generator from the bits of the generator's index and checks a single
  multi-scalar sum.  `RecursiveAccepts` is the verifier a reader would write first; `Verify` is
  proved to decide exactly that predicate, and honest proofs are proved to satisfy it.
 */
module InnerProductArgument {
  import opened Common
  import opened Modular
  import opened Bits
  import opened Vectors

  datatype Proof = Proof(left: seq<Point>, right: seq<Point>, a: Scalar, b: Scalar)

  // ---------------------------------------------------------------- specification

  /** The two halves of `v`, the first scaled by `c`, the second by `d`. */
  function Fold(q: int, c: int, d: int, v: Vec): (r: Vec)
    requires q > 0 && |v| % 2 == 0
    ensures |r| == |v| / 2
  {
    var half := |v| / 2;
    seq(half, i requires 0 <= i < half => FoldEntry(q, c, d, v[i], v[half + i]))
  }

  function FoldEntry(q: int, c: int, d: int, low: int, high: int): int
    requires q > 0
  {
    (c * low + d * high) % q
  }

  function Challenge(q: int, oracle: Oracle, t: Transcript, round: nat, left: Point, right: Point): int
    requires q > 0
  {
    oracle("inner", t + [round, left, right]) % q
  }

  /** The challenge of every round, each binding all earlier round points. */
  function Challenges(q: int, oracle: Oracle, t: Transcript, round: nat,
                      left: seq<Point>, right: seq<Point>): (xs: seq<int>)
    requires q > 0 && |left| == |right|
    ensures |xs| == |left|
    decreases |left|
  {
    if |left| == 0 then []
    else [Challenge(q, oracle, t, round, left[0], right[0])]
         + Challenges(q, oracle, t + [left[0], right[0]], round + 1, left[1..], right[1..])
  }

  function Inverses(q: int, xs: seq<int>): (r: seq<int>)
    requires q > 1
    ensures |r| == |xs|
  {
    seq(|xs|, i requires 0 <= i < |xs| => Inv(q, xs[i]))
  }

  /** The value committed to by generators `g`, `h`, `u` and vectors `a`, `b`. */
  function Commit(q: int, g: seq<Point>, h: seq<Point>, u: Point, a: Vec, b: Vec): Point
    requires q > 0 && |g| == |h| == |a| == |b|
  {
    (Inner(g, a) + Inner(h, b) + Inner(a, b) * u) % q
  }

  function CrossLeft(q: int, g: seq<Point>, h: seq<Point>, u: Point, a: Vec, b: Vec): Point
    requires q > 0 && |g| == |h| == |a| == |b| && |g| % 2 == 0
  {
    var half := |g| / 2;
    (Inner(g[half..], a[..half]) + Inner(h[..half], b[half..]) + Inner(a[..half], b[half..]) * u) % q
  }

  function CrossRight(q: int, g: seq<Point>, h: seq<Point>, u: Point, a: Vec, b: Vec): Point
    requires q > 0 && |g| == |h| == |a| == |b| && |g| % 2 == 0
  {
    var half := |g| / 2;
    (Inner(g[..half], a[half..]) + Inner(h[half..], b[..half]) + Inner(a[half..], b[..half]) * u) % q
  }

  /** The proof an honest prover sends, or `None` when some challenge is zero. */
  function HonestProof(q: int, oracle: Oracle, t: Transcript, round: nat,
                       g: seq<Point>, h: seq<Point>, u: Point, a: Vec, b: Vec): (r: Option<Proof>)
    requires q > 1 && |g| == |h| == |a| == |b| && IsPow2(|g|)
    decreases |g|
  {
    if |g| == 1 then Some(Proof([], [], a[0], b[0]))
    else
      var left := CrossLeft(q, g, h, u, a, b);
      var right := CrossRight(q, g, h, u, a, b);
      var x := Challenge(q, oracle, t, round, left, right);
      if x == 0 then None
      else
        var y := Inv(q, x);
        match HonestProof(q, oracle, t + [left, right], round + 1,
                          Fold(q, y, x, g), Fold(q, x, y, h), u, Fold(q, x, y, a), Fold(q, y, x, b))
        case None => None
        case Some(rest) => Some(Proof([left] + rest.left, [right] + rest.right, rest.a, rest.b))
  }

  /** The commitment after a round with challenge `x` and inverse `y`. */
  function NextCommitment(q: int, p: Point, x: int, y: int, left: Point, right: Point): Point
    requires q > 0
  {
    (p + x * x * left + y * y * right) % q
  }

  /** The verifier that folds the generators and the commitment round by round. */
  ghost predicate RecursiveAccepts(q: int, xs: seq<int>, g: seq<Point>, h: seq<Point>, u: Point, p: Point,
                                   left: seq<Point>, right: seq<Point>, a: Scalar, b: Scalar)
    requires q > 1 && |xs| == |left| == |right| && |g| == |h| == Pow2(|xs|)
    decreases |xs|
  {
    if |xs| == 0 then Cong(q, p, a * g[0] + b * h[0] + a * b * u)
    else
      var x := xs[0];
      var y := Inv(q, x);
      RecursiveAccepts(q, xs[1..], Fold(q, y, x, g), Fold(q, x, y, h), u,
                       NextCommitment(q, p, x, y, left[0], right[0]), left[1..], right[1..], a, b)
  }

  predicate Shape(g: seq<Point>, h: seq<Point>, proof: Proof) {
    |g| == |h| && |proof.left| == |proof.right| && |g| == Pow2(|proof.left|)
  }

  /** What an accepted inner-product proof means. */
  ghost predicate Accepts(q: int, oracle: Oracle, t: Transcript,
                          g: seq<Point>, h: seq<Point>, u: Point, p: Point, proof: Proof)
    requires q > 1
  {
    AcceptsFrom(q, oracle, t, 0, g, h, u, p, proof)
  }

  /** The same, with the rounds numbered from `round` on. */
  ghost predicate AcceptsFrom(q: int, oracle: Oracle, t: Transcript, round: nat,
                              g: seq<Point>, h: seq<Point>, u: Point, p: Point, proof: Proof)
    requires q > 1
  {
    Shape(g, h, proof) &&
    var xs := Challenges(q, oracle, t, round, proof.left, proof.right);
    0 !in xs && RecursiveAccepts(q, xs, g, h, u, p, proof.left, proof.right, proof.a, proof.b)
  }

  // ---------------------------------------------------------------- expanding the folds

  /** One coefficient per original generator: the expansion of folding with `lo`, `hi` round by round. */
  function Weights(lo: seq<int>, hi: seq<int>): (w: Vec)
    requires |lo| == |hi|
    ensures |w| == Pow2(|lo|)
  {
    if |lo| == 0 then [1]
    else Scale(lo[0], Weights(lo[1..], hi[1..])) + Scale(hi[0], Weights(lo[1..], hi[1..]))
  }

  /** The multi-scalar sum of `v` by those coefficients. */
  function Weighted(v: Vec, lo: seq<int>, hi: seq<int>): int
    requires |lo| == |hi| && |v| == Pow2(|lo|)
  {
    Inner(v, Weights(lo, hi))
  }

  /** The same coefficient read off the bits of the generator's index, highest bit first. */
  function BitWeight(lo: seq<int>, hi: seq<int>, i: nat): int
    requires |lo| == |hi|
  {
    if |lo| == 0 then 1
    else (if Bit(i, |lo| - 1) == 0 then lo[0] else hi[0]) * BitWeight(lo[1..], hi[1..], i)
  }

  lemma {:induction false} BitWeightHighBit(lo: seq<int>, hi: seq<int>, i: nat, k: nat)
    requires |lo| == |hi| && |lo| <= k && Pow2(k) <= i
    ensures BitWeight(lo, hi, i - Pow2(k)) == BitWeight(lo, hi, i)
    decreases |lo|
  {
    if |lo| > 0 {
      BitBelow(i, |lo| - 1, k);
      BitWeightHighBit(lo[1..], hi[1..], i, k);
    }
  }

  /** Reading the bits of the index gives the coefficient that the recursive folds produce. */
  lemma {:induction false} BitWeightIsWeight(lo: seq<int>, hi: seq<int>, i: nat)
    requires |lo| == |hi| && i < Pow2(|lo|)
    ensures BitWeight(lo, hi, i) == Weights(lo, hi)[i]
    decreases |lo|
  {
    if |lo| > 0 {
      var k := |lo| - 1;
      if i < Pow2(k) {
        BitOfSmall(i, k);
        BitWeightIsWeight(lo[1..], hi[1..], i);
      } else {
        BitOfLarge(i, k);
        BitWeightHighBit(lo[1..], hi[1..], i, k);
        BitWeightIsWeight(lo[1..], hi[1..], i - Pow2(k));
      }
    }
  }

  lemma FoldCong(q: int, c: int, d: int, v: Vec)
    requires q > 0 && |v| % 2 == 0
    ensures CongV(q, Fold(q, c, d, v), Plus(Scale(c, v[..|v| / 2]), Scale(d, v[|v| / 2..])))
  {
    forall i | 0 <= i < |v| / 2
      ensures Cong(q, Fold(q, c, d, v)[i], Plus(Scale(c, v[..|v| / 2]), Scale(d, v[|v| / 2..]))[i])
    {
      ModCong(q, c * v[i] + d * v[|v| / 2 + i]);
    }
  }

  /** A vector weighted by scaled copies of `w`, half by half. */
  lemma InnerScaledHalves(c: int, d: int, lo: Vec, hi: Vec, w: Vec)
    requires |lo| == |hi| == |w|
    ensures Inner(lo + hi, Scale(c, w) + Scale(d, w)) == Inner(Plus(Scale(c, lo), Scale(d, hi)), w)
  {
    InnerConcat(lo, Scale(c, w), hi, Scale(d, w));
    InnerComm(lo, Scale(c, w));
    InnerScale(c, w, lo);
    InnerComm(lo, w);
    InnerComm(hi, Scale(d, w));
    InnerScale(d, w, hi);
    InnerComm(hi, w);
    InnerHalves(c, d, lo, hi, w);
  }

  /** Folding a vector and weighting the result agrees with weighting the original. */
  lemma FoldWeights(q: int, lo: seq<int>, hi: seq<int>, v: Vec)
    requires q > 0 && |lo| == |hi| > 0 && |v| == Pow2(|lo|)
    ensures Cong(q, Weighted(v, lo, hi), Weighted(Fold(q, lo[0], hi[0], v), lo[1..], hi[1..]))
  {
    var half := |v| / 2;
    var w := Weights(lo[1..], hi[1..]);
    var c, d := lo[0], hi[0];
    assert Weights(lo, hi) == Scale(c, w) + Scale(d, w);
    assert v == v[..half] + v[half..];
    InnerScaledHalves(c, d, v[..half], v[half..], w);
    FoldCong(q, c, d, v);
    CongVRefl(q, w);
    InnerCong(q, Fold(q, c, d, v), Plus(Scale(c, v[..half]), Scale(d, v[half..])), w, w);
  }

  function FoldAll(q: int, lo: seq<int>, hi: seq<int>, v: Vec): int
    requires q > 0 && |lo| == |hi| && |v| == Pow2(|lo|)
    decreases |lo|
  {
    if |lo| == 0 then v[0] else FoldAll(q, lo[1..], hi[1..], Fold(q, lo[0], hi[0], v))
  }

  lemma WeightedSingle(v: Vec, lo: seq<int>, hi: seq<int>)
    requires |lo| == |hi| == 0 && |v| == 1
    ensures Weighted(v, lo, hi) == v[0]
  {
    InnerSingle(v, [1]);
  }

  /** The bit-indexed multi-scalar sum is the generator left after all the folds. */
  lemma {:induction false} WeightsExpandFolds(q: int, lo: seq<int>, hi: seq<int>, v: Vec)
    requires q > 0 && |lo| == |hi| && |v| == Pow2(|lo|)
    ensures Cong(q, Weighted(v, lo, hi), FoldAll(q, lo, hi, v))
    decreases |lo|
  {
    hide Inner, Weights, Fold, FoldEntry, Weighted;
    if |lo| == 0 {
      WeightedSingle(v, lo, hi);
    } else {
      FoldWeights(q, lo, hi, v);
      WeightsExpandFolds(q, lo[1..], hi[1..], Fold(q, lo[0], hi[0], v));
    }
  }

  function Squares(xs: seq<int>): (r: seq<int>)
    ensures |r| == |xs|
  {
    seq(|xs|, i requires 0 <= i < |xs| => xs[i] * xs[i])
  }

  /** The left-hand side of the verifier's single equation. */
  function Expanded(xs: seq<int>, ys: seq<int>, g: seq<Point>, h: seq<Point>, u: Point, p: Point,
                    left: seq<Point>, right: seq<Point>, a: Scalar, b: Scalar): int
    requires |xs| == |ys| == |left| == |right| && |g| == |h| == Pow2(|xs|)
  {
    p + Inner(left, Squares(xs)) + Inner(right, Squares(ys))
    - a * Weighted(g, ys, xs) - b * Weighted(h, xs, ys) - a * b * u
  }

  lemma InnerSingle(a: Vec, b: Vec)
    requires |a| == |b| == 1
    ensures Inner(a, b) == a[0] * b[0]
  {
    assert Sum(a, b, 0) == 0;
  }

  lemma InnerHead(a: Vec, b: Vec)
    requires |a| == |b| > 0
    ensures Inner(a, b) == a[0] * b[0] + Inner(a[1..], b[1..])
  {
    assert a == [a[0]] + a[1..] && b == [b[0]] + b[1..];
    InnerConcat([a[0]], [b[0]], a[1..], b[1..]);
    InnerSingle([a[0]], [b[0]]);
  }

  lemma EquationCong(q: int, p: int, l: int, r: int, p': int, lt: int, rt: int, t: int,
                     a: int, b: int, G: int, G': int, H: int, H': int)
    requires q > 0 && Cong(q, G, G') && Cong(q, H, H') && Cong(q, p + l + r, p')
    ensures Cong(q, p + (l + lt) + (r + rt) - a * G - b * H - t, p' + lt + rt - a * G' - b * H' - t)
  {
    var tail := lt + rt - t;
    CongAdd(q, p + l + r, p', tail, tail);
    CongMulLeft(q, a, G, G');
    CongMulLeft(q, b, H, H');
    CongSub(q, p + l + r + tail, p' + tail, a * G, a * G');
    CongSub(q, p + l + r + tail - a * G, p' + tail - a * G', b * H, b * H');
  }

  lemma NextCommitmentCong(q: int, p: Point, x: int, y: int, left: Point, right: Point)
    requires q > 0
    ensures Cong(q, p + x * x * left + y * y * right, NextCommitment(q, p, x, y, left, right))
  {
    ModCong(q, p + x * x * left + y * y * right);
  }

  lemma SquaresHead(points: seq<Point>, xs: seq<int>)
    requires |points| == |xs| > 0
    ensures Inner(points, Squares(xs)) == xs[0] * xs[0] * points[0] + Inner(points[1..], Squares(xs[1..]))
  {
    InnerHead(points, Squares(xs));
    assert Squares(xs)[1..] == Squares(xs[1..]);
  }

  lemma ExpandedIs(xs: seq<int>, ys: seq<int>, g: seq<Point>, h: seq<Point>, u: Point, p: Point,
                   left: seq<Point>, right: seq<Point>, a: Scalar, b: Scalar)
    requires |xs| == |ys| == |left| == |right| && |g| == |h| == Pow2(|xs|)
    ensures Expanded(xs, ys, g, h, u, p, left, right, a, b)
            == p + Inner(left, Squares(xs)) + Inner(right, Squares(ys))
               - a * Weighted(g, ys, xs) - b * Weighted(h, xs, ys) - a * b * u
  {}

  /** One round of folding leaves the value of the single equation unchanged. */
  lemma ExpandedStep(q: int, xs: seq<int>, ys: seq<int>, g: seq<Point>, h: seq<Point>, u: Point, p: Point,
                     left: seq<Point>, right: seq<Point>, a: Scalar, b: Scalar)
    requires q > 0 && |xs| == |ys| == |left| == |right| > 0 && |g| == |h| == Pow2(|xs|) == 2 * Pow2(|xs| - 1)
    ensures Cong(q, Expanded(xs, ys, g, h, u, p, left, right, a, b),
                 Expanded(xs[1..], ys[1..], Fold(q, ys[0], xs[0], g), Fold(q, xs[0], ys[0], h), u,
                          NextCommitment(q, p, xs[0], ys[0], left[0], right[0]),
                          left[1..], right[1..], a, b))
  {
    hide Inner, Weighted, Fold, Squares, Cong, NextCommitment, Expanded;
    var x, y := xs[0], ys[0];
    var g', h' := Fold(q, y, x, g), Fold(q, x, y, h);
    var p' := NextCommitment(q, p, x, y, left[0], right[0]);
    var l, r := x * x * left[0], y * y * right[0];
    SquaresHead(left, xs);
    SquaresHead(right, ys);
    FoldWeights(q, ys, xs, g);
    FoldWeights(q, xs, ys, h);
    NextCommitmentCong(q, p, x, y, left[0], right[0]);
    EquationCong(q, p, l, r, p', Inner(left[1..], Squares(xs[1..])), Inner(right[1..], Squares(ys[1..])), a * b * u,
                 a, b, Weighted(g, ys, xs), Weighted(g', ys[1..], xs[1..]),
                 Weighted(h, xs, ys), Weighted(h', xs[1..], ys[1..]));
    ExpandedIs(xs, ys, g, h, u, p, left, right, a, b);
    ExpandedIs(xs[1..], ys[1..], g', h', u, p', left[1..], right[1..], a, b);
  }

  /** Without rounds the single equation is the final check itself. */
  lemma LastEquation(q: int, g: seq<Point>, h: seq<Point>, u: Point, p: Point, a: Scalar, b: Scalar)
    requires q > 1 && |g| == |h| == 1
    ensures Expanded([], [], g, h, u, p, [], [], a, b) % q == 0 <==> Cong(q, p, a * g[0] + b * h[0] + a * b * u)
  {
    InnerSingle(g, [1]);
    InnerSingle(h, [1]);
    CongZero(q, p, a * g[0] + b * h[0] + a * b * u);
  }

  /** The single multi-scalar sum vanishes exactly when the folding verifier accepts. */
  lemma {:induction false} SingleSumDecidesRecursive(
      q: int, xs: seq<int>, g: seq<Point>, h: seq<Point>, u: Point, p: Point,
      left: seq<Point>, right: seq<Point>, a: Scalar, b: Scalar)
    requires q > 1 && |xs| == |left| == |right| && |g| == |h| == Pow2(|xs|)
    ensures Expanded(xs, Inverses(q, xs), g, h, u, p, left, right, a, b) % q == 0
            <==> RecursiveAccepts(q, xs, g, h, u, p, left, right, a, b)
    decreases |xs|
  {
    hide Inner, Weighted, Fold, FoldEntry, NextCommitment, Expanded, Squares;
    var ys := Inverses(q, xs);
    if |xs| == 0 {
      LastEquation(q, g, h, u, p, a, b);
      assert xs == [] && ys == [] && left == [] && right == [];
    } else {
      var x, y := xs[0], ys[0];
      ExpandedStep(q, xs, ys, g, h, u, p, left, right, a, b);
      assert ys[1..] == Inverses(q, xs[1..]);
      SingleSumDecidesRecursive(q, xs[1..], Fold(q, y, x, g), Fold(q, x, y, h), u,
                                NextCommitment(q, p, x, y, left[0], right[0]), left[1..], right[1..], a, b);
    }
  }

  // ---------------------------------------------------------------- completeness

  lemma InnerOfHalves(c: int, d: int, vl: Vec, vh: Vec, wl: Vec, wh: Vec)
    requires |vl| == |vh| == |wl| == |wh|
    ensures Inner(Plus(Scale(c, vl), Scale(d, vh)), Plus(Scale(d, wl), Scale(c, wh)))
            == (c * d) * (Inner(vl, wl) + Inner(vh, wh)) + (c * c * Inner(vl, wh) + d * d * Inner(vh, wl))
  {
    var fw := Plus(Scale(d, wl), Scale(c, wh));
    InnerHalves(c, d, vl, vh, fw);
    InnerRightHalves(d, c, wl, wh, vl);
    InnerRightHalves(d, c, wl, wh, vh);
    HalvesProduct(c, d, Inner(vl, wl), Inner(vl, wh), Inner(vh, wl), Inner(vh, wh), Inner(vl, fw), Inner(vh, fw));
  }

  lemma HalvesProduct(c: int, d: int, ll: int, lh: int, hl: int, hh: int, l: int, h: int)
    requires l == d * ll + c * lh && h == d * hl + c * hh
    ensures c * l + d * h == (c * d) * (ll + hh) + (c * c * lh + d * d * hl)
  {
    assert c * (d * ll + c * lh) == (c * d) * ll + c * c * lh;
    assert d * (d * hl + c * hh) == d * d * hl + (c * d) * hh;
  }

  lemma InnerRightHalves(c: int, d: int, lo: Vec, hi: Vec, w: Vec)
    requires |lo| == |hi| == |w|
    ensures Inner(w, Plus(Scale(c, lo), Scale(d, hi))) == c * Inner(w, lo) + d * Inner(w, hi)
  {
    InnerComm(w, Plus(Scale(c, lo), Scale(d, hi)));
    InnerHalves(c, d, lo, hi, w);
    InnerComm(w, lo);
    InnerComm(w, hi);
  }

  /** Folding two vectors with reciprocal factors keeps their product up to the two cross terms. */
  lemma FoldInner(q: int, c: int, d: int, v: Vec, w: Vec)
    requires q > 1 && |v| == |w| && |v| % 2 == 0 && (c * d) % q == 1
    ensures var half := |v| / 2;
            Cong(q, Inner(Fold(q, c, d, v), Fold(q, d, c, w)),
                 Inner(v, w) + c * c * Inner(v[..half], w[half..]) + d * d * Inner(v[half..], w[..half]))
  {
    var half := |v| / 2;
    var vl, vh, wl, wh := v[..half], v[half..], w[..half], w[half..];
    FoldCong(q, c, d, v);
    FoldCong(q, d, c, w);
    InnerCong(q, Fold(q, c, d, v), Plus(Scale(c, vl), Scale(d, vh)), Fold(q, d, c, w), Plus(Scale(d, wl), Scale(c, wh)));
    InnerOfHalves(c, d, vl, vh, wl, wh);
    assert v == vl + vh && w == wl + wh;
    InnerConcat(vl, wl, vh, wh);
    CrossTerms(q, c * d, Inner(v, w), c * c * Inner(vl, wh) + d * d * Inner(vh, wl));
  }

  lemma CrossTerms(q: int, unit: int, z: int, cross: int)
    requires q > 1 && unit % q == 1
    ensures Cong(q, unit * z + cross, z + cross)
  {
    UnitFactor(q, unit, z);
    CongAdd(q, unit * z, z, cross, cross);
  }

  /** The folded commitment is the old one plus the two weighted cross points. */
  lemma FoldCommit(q: int, x: int, y: int, g: seq<Point>, h: seq<Point>, u: Point, a: Vec, b: Vec)
    requires q > 1 && |g| == |h| == |a| == |b| && |g| % 2 == 0 && (x * y) % q == 1
    ensures Commit(q, Fold(q, y, x, g), Fold(q, x, y, h), u, Fold(q, x, y, a), Fold(q, y, x, b))
            == NextCommitment(q, Commit(q, g, h, u, a, b), x, y,
                              CrossLeft(q, g, h, u, a, b), CrossRight(q, g, h, u, a, b))
  {
    var half := |g| / 2;
    assert y * x == x * y;
    FoldInner(q, y, x, g, a);
    FoldInner(q, x, y, h, b);
    FoldInner(q, x, y, a, b);
    CommitCong(q, x * x, y * y, u,
               Inner(Fold(q, y, x, g), Fold(q, x, y, a)), Inner(Fold(q, x, y, h), Fold(q, y, x, b)),
               Inner(Fold(q, x, y, a), Fold(q, y, x, b)), Inner(g, a), Inner(h, b), Inner(a, b),
               Inner(g[half..], a[..half]), Inner(h[..half], b[half..]), Inner(a[..half], b[half..]),
               Inner(g[..half], a[half..]), Inner(h[half..], b[..half]), Inner(a[half..], b[..half]));
  }

  lemma CommitCong(q: int, X: int, Y: int, u: int, ga: int, hb: int, ab: int, G: int, H: int, I: int,
                   g1: int, h1: int, i1: int, g2: int, h2: int, i2: int)
    requires q > 0 && Cong(q, ga, G + Y * g2 + X * g1) && Cong(q, hb, H + X * h1 + Y * h2)
    requires Cong(q, ab, I + X * i1 + Y * i2)
    ensures Cong(q, ga + hb + ab * u,
                 (G + H + I * u) % q + X * ((g1 + h1 + i1 * u) % q) + Y * ((g2 + h2 + i2 * u) % q))
  {
    CongAdd(q, ga, G + Y * g2 + X * g1, hb, H + X * h1 + Y * h2);
    CongMul(q, ab, I + X * i1 + Y * i2, u, u);
    CongAdd(q, ga + hb, G + Y * g2 + X * g1 + (H + X * h1 + Y * h2), ab * u, (I + X * i1 + Y * i2) * u);
    Regroup(G, H, I, u, X, Y, g1, h1, i1, g2, h2, i2);
    var C, L, R := G + H + I * u, g1 + h1 + i1 * u, g2 + h2 + i2 * u;
    ModCong(q, C);
    ModCong(q, L);
    ModCong(q, R);
    CongMulLeft(q, X, L, L % q);
    CongMulLeft(q, Y, R, R % q);
    CongAdd(q, C, C % q, X * L, X * (L % q));
    CongAdd(q, C + X * L, C % q + X * (L % q), Y * R, Y * (R % q));
  }

  lemma Regroup(G: int, H: int, I: int, u: int, X: int, Y: int,
                g1: int, h1: int, i1: int, g2: int, h2: int, i2: int)
    ensures G + Y * g2 + X * g1 + (H + X * h1 + Y * h2) + (I + X * i1 + Y * i2) * u
            == (G + H + I * u) + X * (g1 + h1 + i1 * u) + Y * (g2 + h2 + i2 * u)
  {
    assert (I + X * i1 + Y * i2) * u == I * u + X * (i1 * u) + Y * (i2 * u);
    assert X * (g1 + h1 + i1 * u) == X * g1 + X * h1 + X * (i1 * u);
    assert Y * (g2 + h2 + i2 * u) == Y * g2 + Y * h2 + Y * (i2 * u);
  }

  /** An honest proof of the committed vectors satisfies the folding verifier. */
  lemma {:induction false} HonestAccepted(q: int, oracle: Oracle, t: Transcript, round: nat,
                                          g: seq<Point>, h: seq<Point>, u: Point, a: Vec, b: Vec)
    requires Prime(q) && |g| == |h| == |a| == |b| && IsPow2(|g|)
    requires HonestProof(q, oracle, t, round, g, h, u, a, b).Some?
    ensures AcceptsFrom(q, oracle, t, round, g, h, u, Commit(q, g, h, u, a, b),
                        HonestProof(q, oracle, t, round, g, h, u, a, b).value)
    decreases |g|
  {
    if |g| == 1 {
      InnerSingle(g, a);
      InnerSingle(h, b);
      InnerSingle(a, b);
      ModCong(q, a[0] * g[0] + b[0] * h[0] + a[0] * b[0] * u);
    } else {
      hide Inner, Fold, CrossLeft, CrossRight, Commit, Challenge, Cong, NextCommitment;
      var left, right := CrossLeft(q, g, h, u, a, b), CrossRight(q, g, h, u, a, b);
      var x := Challenge(q, oracle, t, round, left, right);
      var y := Inv(q, x);
      ReciprocalChallenge(q, oracle, t, round, left, right);
      FoldCommit(q, x, y, g, h, u, a, b);
      HonestAccepted(q, oracle, t + [left, right], round + 1,
                     Fold(q, y, x, g), Fold(q, x, y, h), u, Fold(q, x, y, a), Fold(q, y, x, b));
      var rest := HonestProof(q, oracle, t + [left, right], round + 1,
                              Fold(q, y, x, g), Fold(q, x, y, h), u, Fold(q, x, y, a), Fold(q, y, x, b)).value;
      var proof := HonestProof(q, oracle, t, round, g, h, u, a, b).value;
      assert proof.left[1..] == rest.left && proof.right[1..] == rest.right;
      var xs := Challenges(q, oracle, t, round, proof.left, proof.right);
      assert xs[1..] == Challenges(q, oracle, t + [left, right], round + 1, rest.left, rest.right);
    }
  }

  lemma ReciprocalChallenge(q: int, oracle: Oracle, t: Transcript, round: nat, left: Point, right: Point)
    requires Prime(q) && Challenge(q, oracle, t, round, left, right) != 0
    ensures var x := Challenge(q, oracle, t, round, left, right); (x * Inv(q, x)) % q == 1
  {
    var x := Challenge(q, oracle, t, round, left, right);
    ModSmall(q, x);
    InvCorrect(q, x);
  }

  /** Completeness: the prover's output is accepted for the commitment to its own witness. */
  lemma Complete(q: int, oracle: Oracle, t: Transcript, g: seq<Point>, h: seq<Point>, u: Point, a: Vec, b: Vec)
    requires Prime(q) && |g| == |h| == |a| == |b| && IsPow2(|g|)
    requires HonestProof(q, oracle, t, 0, g, h, u, a, b).Some?
    ensures Accepts(q, oracle, t, g, h, u, Commit(q, g, h, u, a, b),
                    HonestProof(q, oracle, t, 0, g, h, u, a, b).value)
  {
    HonestAccepted(q, oracle, t, 0, g, h, u, a, b);
  }

  // ---------------------------------------------------------------- the running prover and verifier

  lemma FoldEntryReduced(q: int, c: int, d: int, low: int, high: int)
    requires q > 0
    ensures (c * low % q + d * high % q) % q == FoldEntry(q, c, d, low, high)
  {
    ModAdd(q, c * low, d * high % q);
    ModAdd(q, c * low, d * high);
  }

  method FoldVector(q: int, c: int, d: int, v: Vec) returns (r: Vec)
    requires q > 0 && |v| % 2 == 0
    ensures r == Fold(q, c, d, v)
  {
    hide FoldEntry;
    var half := |v| / 2;
    r := [];
    for i := 0 to half
      invariant r == Fold(q, c, d, v)[..i]
    {
      FoldEntryReduced(q, c, d, v[i], v[half + i]);
      r := r + [(c * v[i] % q + d * v[half + i] % q) % q];
    }
  }

  /** One cross point of a round: two multi-scalar sums and one scaled `u`. */
  method CrossPoint(q: int, points: seq<Point>, scalars: Vec, points': seq<Point>, scalars': Vec,
                    u: Point, left: Vec, right: Vec) returns (out: Point)
    requires q > 0 && |points| == |scalars| && |points'| == |scalars'| && |left| == |right|
    ensures out == (Inner(points, scalars) + Inner(points', scalars') + Inner(left, right) * u) % q
  {
    out := InnerProduct(q, points, scalars);
    var second := InnerProduct(q, points', scalars');
    var inner := InnerProduct(q, left, right);
    ModAdd(q, Inner(points, scalars), second);
    ModAdd(q, Inner(points, scalars), Inner(points', scalars'));
    out := (out + second) % q;
    ModMul(q, Inner(left, right), u);
    ModAdd(q, Inner(points, scalars) + Inner(points', scalars'), inner * u % q);
    ModAdd(q, Inner(points, scalars) + Inner(points', scalars'), Inner(left, right) * u);
    out := (out + inner * u % q) % q;
  }

  method CrossPoints(q: int, g: seq<Point>, h: seq<Point>, u: Point, a: Vec, b: Vec)
    returns (left: Point, right: Point)
    requires q > 0 && |g| == |h| == |a| == |b| && |g| % 2 == 0
    ensures left == CrossLeft(q, g, h, u, a, b) && right == CrossRight(q, g, h, u, a, b)
  {
    var half := |a| / 2;
    left := CrossPoint(q, g[half..], a[..half], h[..half], b[half..], u, a[..half], b[half..]);
    right := CrossPoint(q, g[..half], a[half..], h[half..], b[..half], u, a[half..], b[..half]);
  }

  function Prepend(left: seq<Point>, right: seq<Point>, rest: Option<Proof>): Option<Proof> {
    match rest
    case None => None
    case Some(proof) => Some(Proof(left + proof.left, right + proof.right, proof.a, proof.b))
  }

  lemma PrependNone(left: seq<Point>, right: seq<Point>)
    ensures Prepend(left, right, None) == None
  {}

  lemma PrependOne(left: seq<Point>, right: seq<Point>, l: Point, r: Point, rest: Option<Proof>)
    ensures Prepend(left, right, Prepend([l], [r], rest)) == Prepend(left + [l], right + [r], rest)
  {
    if rest.Some? {
      assert left + ([l] + rest.value.left) == left + [l] + rest.value.left;
      assert right + ([r] + rest.value.right) == right + [r] + rest.value.right;
    }
  }

  /** The honest proof of one round followed by the honest proof of the folded instance. */
  lemma HonestRound(q: int, oracle: Oracle, t: Transcript, round: nat,
                    g: seq<Point>, h: seq<Point>, u: Point, a: Vec, b: Vec)
    requires q > 1 && |g| == |h| == |a| == |b| && IsPow2(|g|) && |g| > 1
    ensures var l, r := CrossLeft(q, g, h, u, a, b), CrossRight(q, g, h, u, a, b);
            var x := Challenge(q, oracle, t, round, l, r);
            var y := Inv(q, x);
            HonestProof(q, oracle, t, round, g, h, u, a, b) ==
            if x == 0 then None
            else Prepend([l], [r], HonestProof(q, oracle, t + [l, r], round + 1, Fold(q, y, x, g), Fold(q, x, y, h), u,
                                               Fold(q, x, y, a), Fold(q, y, x, b)))
  {
    hide Fold, CrossLeft, CrossRight, Challenge;
  }

  method ProveRounds(q: int, oracle: Oracle, prefix: Transcript, g: seq<Point>, h: seq<Point>, u: Point, a: Vec, b: Vec)
    returns (r: Option<Proof>)
    requires q > 1 && |g| == |h| == |a| == |b| && IsPow2(|g|)
    ensures r == HonestProof(q, oracle, prefix, 0, g, h, u, a, b)
  {
    hide Fold, CrossLeft, CrossRight, Challenge, HonestProof, Prepend, Inv;
    var gWork, hWork, aWork, bWork, transcript := g, h, a, b, prefix;
    var left: seq<Point>, right: seq<Point> := [], [];
    var round := 0;
    ghost var goal := HonestProof(q, oracle, prefix, 0, g, h, u, a, b);
    PrependNothing(goal);
    while |aWork| > 1
      invariant |gWork| == |hWork| == |aWork| == |bWork| && IsPow2(|gWork|) && round >= 0
      invariant goal == Prepend(left, right, HonestProof(q, oracle, transcript, round, gWork, hWork, u, aWork, bWork))
      decreases |aWork|
    {
      var l, r' := CrossPoints(q, gWork, hWork, u, aWork, bWork);
      var x := Challenge(q, oracle, transcript, round, l, r');
      HonestRound(q, oracle, transcript, round, gWork, hWork, u, aWork, bWork);
      if x == 0 {
        PrependNone(left, right);
        return None;
      }
      var y := Inv(q, x);
      PrependOne(left, right, l, r', HonestProof(q, oracle, transcript + [l, r'], round + 1, Fold(q, y, x, gWork),
                 Fold(q, x, y, hWork), u, Fold(q, x, y, aWork), Fold(q, y, x, bWork)));
      gWork := FoldVector(q, y, x, gWork);
      hWork := FoldVector(q, x, y, hWork);
      aWork := FoldVector(q, x, y, aWork);
      bWork := FoldVector(q, y, x, bWork);
      left, right, transcript := left + [l], right + [r'], transcript + [l, r'];
      round := round + 1;
    }
    HonestLast(q, oracle, transcript, round, gWork, hWork, u, aWork, bWork, left, right);
    r := Some(Proof(left, right, aWork[0], bWork[0]));
  }

  lemma PrependNothing(proof: Option<Proof>)
    ensures Prepend([], [], proof) == proof
  {
    if proof.Some? {
      assert [] + proof.value.left == proof.value.left && [] + proof.value.right == proof.value.right;
    }
  }

  lemma HonestLast(q: int, oracle: Oracle, t: Transcript, round: nat, g: seq<Point>, h: seq<Point>, u: Point,
                   a: Vec, b: Vec, left: seq<Point>, right: seq<Point>)
    requires q > 1 && |g| == |h| == |a| == |b| == 1
    ensures Prepend(left, right, HonestProof(q, oracle, t, round, g, h, u, a, b)) == Some(Proof(left, right, a[0], b[0]))
  {
    assert left + [] == left && right + [] == right;
  }

  /** The folding prover; malformed witnesses and zero challenges are rejected. */
  method Prove(q: int, oracle: Oracle, prefix: Transcript, g: seq<Point>, h: seq<Point>, u: Point, a: Vec, b: Vec)
    returns (r: Option<Proof>)
    requires q > 1
    ensures |g| == |h| == |a| == |b| && IsPow2(|g|) ==> r == HonestProof(q, oracle, prefix, 0, g, h, u, a, b)
    ensures !(|g| == |h| == |a| == |b| && IsPow2(|g|)) ==> r == None
  {
    if |g| > 0 { AndPredecessor(|g|); }
    if |g| == 0 || |g| != |h| || |g| != |a| || |a| != |b| || And(|g|, |g| - 1) != 0 {
      return None;
    }
    r := ProveRounds(q, oracle, prefix, g, h, u, a, b);
  }

  /** The weight of one generator, by testing the bits of its index. */
  method GeneratorWeight(q: int, lo: seq<int>, hi: seq<int>, generator: nat, size: nat) returns (weight: int)
    requires q > 1 && |lo| == |hi| && size == Pow2(|lo|)
    ensures weight == BitWeight(lo, hi, generator) % q
  {
    weight := 1;
    ModSmall(q, 1);
    var half := size / 2;
    for round := 0 to |lo|
      invariant round < |lo| ==> half == Pow2(|lo| - 1 - round)
      invariant (weight * BitWeight(lo[round..], hi[round..], generator)) % q == BitWeight(lo, hi, generator) % q
      invariant weight == weight % q
    {
      AndPow2(generator, |lo| - 1 - round);
      var factor := if And(generator, half) == 0 then lo[round] else hi[round];
      ghost var rest := BitWeight(lo[round + 1..], hi[round + 1..], generator);
      assert lo[round..][1..] == lo[round + 1..] && hi[round..][1..] == hi[round + 1..];
      assert BitWeight(lo[round..], hi[round..], generator) == factor * rest;
      WeightStep(q, weight, factor, rest);
      weight := weight * factor % q;
      half := half / 2;
    }
    assert lo[|lo|..] == [] && hi[|lo|..] == [];
  }

  lemma WeightStep(q: int, weight: int, factor: int, rest: int)
    requires q > 1
    ensures ((weight * factor % q) * rest) % q == (weight * (factor * rest)) % q
    ensures weight * factor % q == (weight * factor % q) % q
  {
    ModMul(q, weight * factor, rest);
    assert weight * factor * rest == weight * (factor * rest);
    ModCong(q, weight * factor);
  }

  /** All generator coefficients, each multiplied by `s` and negated. */
  method NegatedWeights(q: int, lo: seq<int>, hi: seq<int>, size: nat, s: int) returns (w: Vec)
    requires q > 1 && |lo| == |hi| && size == Pow2(|lo|)
    ensures CongV(q, w, Scale(-s, Weights(lo, hi)))
  {
    w := [];
    for generator := 0 to size
      invariant |w| == generator
      invariant forall i :: 0 <= i < generator ==> Cong(q, w[i], -s * Weights(lo, hi)[i])
    {
      var weight := GeneratorWeight(q, lo, hi, generator, size);
      BitWeightIsWeight(lo, hi, generator);
      NegatedProduct(q, Weights(lo, hi)[generator], s);
      w := w + [-(weight * s % q) % q];
    }
  }

  lemma NegatedProduct(q: int, w: int, s: int)
    requires q > 1
    ensures Cong(q, -((w % q) * s % q) % q, -s * w)
  {
    ModMul(q, w, s);
    ModCong(q, w * s);
    CongNeg(q, w * s % q, w * s);
    ModCong(q, -(w * s % q));
    assert -(w * s) == -s * w;
  }

  /** The concatenated multi-scalar sum is the expanded equation. */
  lemma ConcatenatedSum(q: int, xs: seq<int>, ys: seq<int>, g: seq<Point>, h: seq<Point>, u: Point, p: Point,
                        proof: Proof, lc: Vec, rc: Vec, gw: Vec, hw: Vec)
    requires q > 1 && |xs| == |ys| == |proof.left| == |proof.right| && |g| == |h| == Pow2(|xs|)
    requires CongV(q, lc, Squares(xs)) && CongV(q, rc, Squares(ys))
    requires CongV(q, gw, Scale(-proof.a, Weights(ys, xs))) && CongV(q, hw, Scale(-proof.b, Weights(xs, ys)))
    ensures Cong(q, Inner([p] + proof.left + proof.right + g + h + [u],
                          [1] + lc + rc + gw + hw + [-(proof.a * proof.b % q) % q]),
                 Expanded(xs, ys, g, h, u, p, proof.left, proof.right, proof.a, proof.b))
  {
    hide Inner, Weights, Squares, Scale, CongV, Cong, Weighted;
    var last := -(proof.a * proof.b % q) % q;
    var p1, c1 := [p] + proof.left, [1] + lc;
    var p2, c2 := p1 + proof.right, c1 + rc;
    var p3, c3 := p2 + g, c2 + gw;
    var p4, c4 := p3 + h, c3 + hw;
    CongVLength(q, lc, Squares(xs));
    CongVLength(q, rc, Squares(ys));
    CongVLength(q, gw, Scale(-proof.a, Weights(ys, xs)));
    CongVLength(q, hw, Scale(-proof.b, Weights(xs, ys)));
    InnerConcat([p], [1], proof.left, lc);
    InnerConcat(p1, c1, proof.right, rc);
    InnerConcat(p2, c2, g, gw);
    InnerConcat(p3, c3, h, hw);
    InnerConcat(p4, c4, [u], [last]);
    InnerSingle([p], [1]);
    InnerSingle([u], [last]);
    RightCong(q, proof.left, lc, Squares(xs));
    RightCong(q, proof.right, rc, Squares(ys));
    NegatedSum(q, g, gw, proof.a, ys, xs);
    NegatedSum(q, h, hw, proof.b, xs, ys);
    LastTerm(q, proof.a, proof.b, u);
    SixTerms(q, p, Inner(proof.left, lc), Inner(proof.left, Squares(xs)),
             Inner(proof.right, rc), Inner(proof.right, Squares(ys)),
             Inner(g, gw), -(proof.a * Weighted(g, ys, xs)), Inner(h, hw), -(proof.b * Weighted(h, xs, ys)),
             u * last, -(proof.a * proof.b * u));
  }

  lemma CongVLength(q: int, a: Vec, b: Vec)
    requires q > 0 && CongV(q, a, b)
    ensures |a| == |b|
  {}

  lemma RightCong(q: int, points: seq<Point>, c: Vec, c': Vec)
    requires q > 0 && |points| == |c| && CongV(q, c, c')
    ensures |c| == |c'| && Cong(q, Inner(points, c), Inner(points, c'))
  {
    CongVRefl(q, points);
    InnerCong(q, points, points, c, c');
  }

  lemma NegatedSum(q: int, points: seq<Point>, w: Vec, s: int, lo: seq<int>, hi: seq<int>)
    requires q > 0 && |lo| == |hi| && |points| == |w| == Pow2(|lo|) && CongV(q, w, Scale(-s, Weights(lo, hi)))
    ensures Cong(q, Inner(points, w), -(s * Weighted(points, lo, hi)))
  {
    RightCong(q, points, w, Scale(-s, Weights(lo, hi)));
    InnerComm(points, Scale(-s, Weights(lo, hi)));
    InnerScale(-s, Weights(lo, hi), points);
    InnerComm(points, Weights(lo, hi));
    assert -s * Weighted(points, lo, hi) == -(s * Weighted(points, lo, hi));
  }

  lemma LastTerm(q: int, a: int, b: int, u: int)
    requires q > 1
    ensures Cong(q, u * (-(a * b % q) % q), -(a * b * u))
  {
    ModCong(q, a * b);
    CongNeg(q, a * b % q, a * b);
    ModCong(q, -(a * b % q));
    CongMulLeft(q, u, -(a * b % q) % q, -(a * b));
    assert u * -(a * b) == -(a * b * u);
  }

  lemma SixTerms(q: int, p: int, a: int, a': int, b: int, b': int, c: int, c': int, d: int, d': int, e: int, e': int)
    requires q > 0 && Cong(q, a, a') && Cong(q, b, b') && Cong(q, c, c') && Cong(q, d, d') && Cong(q, e, e')
    ensures Cong(q, p + a + b + c + d + e, p + a' + b' + c' + d' + e')
  {
    CongAdd(q, p + a, p + a', b, b') by { CongAdd(q, p, p, a, a'); }
    CongAdd(q, p + a + b, p + a' + b', c, c');
    CongAdd(q, p + a + b + c, p + a' + b' + c', d, d');
    CongAdd(q, p + a + b + c + d, p + a' + b' + c' + d', e, e');
  }

  function SquareMod(q: int, x: int): int
    requires q > 0
  {
    x * x % q
  }

  lemma SquaresReduced(q: int, xs: seq<int>, c: Vec)
    requires q > 0 && |c| == |xs| && forall i :: 0 <= i < |xs| ==> c[i] == SquareMod(q, xs[i])
    ensures CongV(q, c, Squares(xs))
  {
    forall i | 0 <= i < |xs|
      ensures Cong(q, c[i], Squares(xs)[i])
    {
      ModCong(q, xs[i] * xs[i]);
    }
  }

  /** The round challenges, their inverses and the squared coefficients, recomputed from the proof. */
  method RoundChallenges(q: int, oracle: Oracle, prefix: Transcript, proof: Proof)
    returns (ok: bool, xs: seq<int>, ys: seq<int>, lc: Vec, rc: Vec)
    requires q > 1 && |proof.left| == |proof.right|
    ensures ok <==> 0 !in Challenges(q, oracle, prefix, 0, proof.left, proof.right)
    ensures ok ==> xs == Challenges(q, oracle, prefix, 0, proof.left, proof.right) && ys == Inverses(q, xs)
    ensures ok ==> CongV(q, lc, Squares(xs)) && CongV(q, rc, Squares(ys))
  {
    hide SquareMod, Challenge, Inv, CongV, Squares;
    var transcript := prefix;
    xs, ys, lc, rc := [], [], [], [];
    ghost var goal := Challenges(q, oracle, prefix, 0, proof.left, proof.right);
    for round := 0 to |proof.left|
      invariant |xs| == |ys| == |lc| == |rc| == round
      invariant goal == xs + Challenges(q, oracle, transcript, round, proof.left[round..], proof.right[round..])
      invariant 0 !in xs
      invariant forall i :: 0 <= i < round ==> ys[i] == Inv(q, xs[i])
      invariant forall i :: 0 <= i < round ==> lc[i] == SquareMod(q, xs[i]) && rc[i] == SquareMod(q, ys[i])
    {
      var left, right := proof.left[round], proof.right[round];
      var x := Challenge(q, oracle, transcript, round, left, right);
      assert proof.left[round..][1..] == proof.left[round + 1..];
      assert proof.right[round..][1..] == proof.right[round + 1..];
      assert goal[round] == x;
      if x == 0 {
        return false, xs, ys, lc, rc;
      }
      transcript := transcript + [left, right];
      var y := Inv(q, x);
      xs, ys, lc, rc := xs + [x], ys + [y], lc + [SquareMod(q, x)], rc + [SquareMod(q, y)];
    }
    ok := true;
    assert proof.left[|proof.left|..] == [];
    SquaresReduced(q, xs, lc);
    SquaresReduced(q, ys, rc);
  }

  method VerifySum(q: int, xs: seq<int>, ys: seq<int>, lc: Vec, rc: Vec, g: seq<Point>, h: seq<Point>,
                   u: Point, p: Point, proof: Proof) returns (ok: bool)
    requires q > 1 && Shape(g, h, proof) && |xs| == |proof.left| && ys == Inverses(q, xs)
    requires CongV(q, lc, Squares(xs)) && CongV(q, rc, Squares(ys))
    ensures ok <==> RecursiveAccepts(q, xs, g, h, u, p, proof.left, proof.right, proof.a, proof.b)
  {
    hide Inner, Squares, Weights, RecursiveAccepts, Expanded, Pow2;
    var gw := NegatedWeights(q, ys, xs, |g|, proof.a);
    var hw := NegatedWeights(q, xs, ys, |h|, proof.b);
    var points := [p] + proof.left + proof.right + g + h + [u];
    var coefficients := [1] + lc + rc + gw + hw + [-(proof.a * proof.b % q) % q];
    var result := InnerProduct(q, points, coefficients);
    ConcatenatedSum(q, xs, ys, g, h, u, p, proof, lc, rc, gw, hw);
    SingleSumDecidesRecursive(q, xs, g, h, u, p, proof.left, proof.right, proof.a, proof.b);
    ok := result == 0;
  }

  /** The single-sum verifier decides exactly what the folding verifier accepts, for every proof. */
  method Verify(q: int, oracle: Oracle, prefix: Transcript, g: seq<Point>, h: seq<Point>, u: Point, p: Point,
                proof: Proof) returns (ok: bool)
    requires q > 1
    ensures ok <==> Accepts(q, oracle, prefix, g, h, u, p, proof)
  {
    Pow2IsPow2(|proof.left|);
    if |g| > 0 { AndPredecessor(|g|); }
    if |g| == 0 || |g| != |h| || And(|g|, |g| - 1) != 0 ||
       |proof.left| != |proof.right| || Pow2(|proof.left|) != |g|
    {
      return false;
    }
    var nonzero, xs, ys, lc, rc := RoundChallenges(q, oracle, prefix, proof);
    if !nonzero {
      return false;
    }
    ok := VerifySum(q, xs, ys, lc, rc, g, h, u, p, proof);
  }
}
