/**
  What accepted range proofs with different challenges reveal, level by level: two `w` give the two
  evaluated vectors with their true inner product, two `x` the vectors behind the first commitments, three
  `x` an opening of the weighted commitments, and as many `z` as there are commitments an opening of every
  one of them.  Everything computed is a function of challenges and answers, never of points; where two
  computations disagree, their difference is a relation between the bases.
 */
module RangeExtraction {
  import opened Common
  import opened Modular
  import opened Bits
  import opened Vectors
  import opened Polynomials
  import opened Interpolation
  import opened RangeVectors
  import opened RangeProof
  import opened InnerProductSoundness
  import RC = RangeCompleteness
  import IPA = InnerProductArgument
  import ComparatorRows

  /** The answers after one `w`, after one `x`, after one `z` and after one `y`. */
  datatype WFork = WFork(w: int, tree: Tree)
  datatype XFork = XFork(x: int, tauX: Scalar, mu: Scalar, tHat: Scalar, ws: seq<WFork>)
  datatype ZFork = ZFork(z: int, xs: seq<XFork>)
  datatype YFork = YFork(y: int, zs: seq<ZFork>)

  /** What the proofs are about; vectors have `2^rounds` entries. */
  datatype Claim = Claim(q: int, bases: Bases, commitments: seq<Point>, padded: nat, bits: nat, rounds: nat)

  ghost predicate Sane(c: Claim) {
    Prime(c.q) && 0 < |c.commitments| <= c.padded && c.padded * c.bits == Pow2(c.rounds)
  }

  function Size(c: Claim): nat { Pow2(c.rounds) }

  function G(c: Claim): (r: seq<Point>)
    ensures |r| == Size(c)
  {
    Take(c.bases.g, Size(c))
  }

  function H(c: Claim): (r: seq<Point>)
    ensures |r| == Size(c)
  {
    Take(c.bases.h, Size(c))
  }

  /** All bases in a row. */
  function AllBases(c: Claim): (r: Vec)
    ensures |r| == 2 * Size(c) + 3
  {
    G(c) + H(c) + [c.bases.u, c.bases.value, c.bases.blind]
  }

  lemma InnerAll(c: Claim, x: Vec, y: Vec, u: int, v: int, b: int)
    requires |x| == |y| == Size(c)
    ensures Inner(AllBases(c), x + y + [u, v, b])
            == Inner(G(c), x) + Inner(H(c), y) + c.bases.u * u + c.bases.value * v + c.bases.blind * b
  {
    InnerConcat(G(c) + H(c), x + y, [c.bases.u, c.bases.value, c.bases.blind], [u, v, b]);
    InnerConcat(G(c), x, H(c), y);
    var p, r := [c.bases.u, c.bases.value, c.bases.blind], [u, v, b];
    assert Sum(p, r, 1) == p[0] * r[0] && Sum(p, r, 2) == Sum(p, r, 1) + p[1] * r[1] && Sum(p, r, 3) == Sum(p, r, 2) + p[2] * r[2];
  }

  // ---------------------------------------------------------------- scaled generators

  /** Entry `i` divided by `y^i`: the same vector over the unscaled generators. */
  function Unscaled(q: int, y: int, v: Vec): (r: Vec)
    requires q > 1
    ensures |r| == |v|
  {
    seq(|v|, i requires 0 <= i < |v| => Pow(Inv(q, y), i) * v[i])
  }

  lemma {:induction false} UnscaledSum(q: int, h: seq<Point>, y: int, v: Vec, n: nat)
    requires q > 1 && |h| == |v| && n <= |h|
    ensures Cong(q, Sum(ScaledGenerators(q, h, y), v, n), Sum(h, Unscaled(q, y, v), n))
  {
    if n > 0 {
      var k := n - 1;
      UnscaledSum(q, h, y, v, k);
      var t := Pow(Inv(q, y), k);
      ModCong(q, h[k] * t);
      CongMul(q, h[k] * t % q, h[k] * t, v[k], v[k]);
      assert (h[k] * t) * v[k] == h[k] * (t * v[k]);
      CongAdd(q, Sum(ScaledGenerators(q, h, y), v, k), Sum(h, Unscaled(q, y, v), k), (h[k] * t % q) * v[k], h[k] * (t * v[k]));
    }
  }

  lemma UnscaledInner(q: int, h: seq<Point>, y: int, v: Vec)
    requires q > 1 && |h| == |v|
    ensures Cong(q, Inner(ScaledGenerators(q, h, y), v), Inner(h, Unscaled(q, y, v)))
  {
    UnscaledSum(q, h, y, v, |h|);
  }

  lemma InversePower(q: int, y: int, i: nat)
    requires Prime(q) && y % q != 0
    ensures (Pow(Inv(q, y), i) * Pow(y, i)) % q == 1 && Pow(Inv(q, y), i) % q != 0
  {
    RC.PowInverse(q, y, i);
    var t := Pow(Inv(q, y), i);
    if t % q == 0 {
      ModSmall(q, 0);
      CongMul(q, t, 0, Pow(y, i), Pow(y, i));
    }
  }

  // ---------------------------------------------------------------- two values of w

  /** The generators and the commitment of the inner-product argument. */
  function HPrime(c: Claim, y: int): (r: seq<Point>)
    requires c.q > 1
    ensures |r| == Size(c)
  {
    ScaledGenerators(c.q, H(c), y)
  }

  function Coefficients(c: Claim, y: int, z: int): (r: Vec)
    requires c.padded * c.bits == Size(c)
    ensures |r| == Size(c)
  {
    HCoefficients(z, Powers(y, Size(c)), BlockWeights(z, c.padded, c.bits))
  }

  function Rebuilt(c: Claim, a: Point, s: Point, y: int, z: int, f: XFork, w: int): Point
    requires c.q > 1 && c.padded * c.bits == Size(c)
  {
    Reconstructed(c.q, G(c), HPrime(c, y), c.bases.blind, c.bases.u * w % c.q, a, s, f.x, z, Powers(y, Size(c)),
                  BlockWeights(z, c.padded, c.bits), f.mu, f.tHat)
  }

  predicate Shaped(c: Claim, f: XFork) {
    |f.ws| == 2 && forall m :: 0 <= m < 2 ==> Full(f.ws[m].tree, c.rounds)
  }

  /** Both inner-product trees of the fork are accepted. */
  ghost predicate TreesGrown(c: Claim, a: Point, s: Point, y: int, z: int, f: XFork)
    requires c.q > 1 && c.padded * c.bits == Size(c)
  {
    && Shaped(c, f) && !Cong(c.q, f.ws[0].w, f.ws[1].w)
    && forall m :: 0 <= m < 2 ==>
         f.ws[m].w % c.q != 0 &&
         Grown(c.q, f.ws[m].tree, c.rounds, G(c), HPrime(c, y), c.bases.u * f.ws[m].w % c.q, Rebuilt(c, a, s, y, z, f, f.ws[m].w))
  }

  /** The evaluated vectors, as computed from tree `m`. */
  function L(c: Claim, f: XFork, m: nat): (r: Vec)
    requires c.q > 1 && Shaped(c, f) && m < 2
    ensures |r| == Size(c)
  {
    Witness(c.q, f.ws[m].tree, c.rounds).0
  }

  function R(c: Claim, f: XFork, m: nat): (r: Vec)
    requires c.q > 1 && Shaped(c, f) && m < 2
    ensures |r| == Size(c)
  {
    Witness(c.q, f.ws[m].tree, c.rounds).1
  }

  /** The representation of the commitment without its product term. */
  function WRep(c: Claim, y: int, f: XFork, m: nat): (r: Vec)
    requires c.q > 1 && Shaped(c, f) && m < 2
    ensures |r| == 2 * Size(c) + 3
  {
    L(c, f, m) + Unscaled(c.q, y, R(c, f, m)) + [(Inner(L(c, f, m), R(c, f, m)) - f.tHat) * f.ws[m].w, 0, 0]
  }

  function WGap(c: Claim, y: int, f: XFork): Vec
    requires c.q > 1 && Shaped(c, f)
  {
    Minus(WRep(c, y, f, 0), WRep(c, y, f, 1))
  }

  /** A relation between the generators of the inner product, over all bases. */
  function Widened(c: Claim, y: int, w: int, r: Vec): (s: Vec)
    requires c.q > 1 && |r| == 2 * Size(c) + 1
    ensures |s| == 2 * Size(c) + 3
  {
    var n := Size(c);
    r[..n] + Unscaled(c.q, y, r[n..2 * n]) + [w * r[2 * n], 0, 0]
  }

  lemma WidenedRelation(c: Claim, y: int, w: int, r: Vec)
    requires Prime(c.q) && y % c.q != 0 && w % c.q != 0
    requires IsRelation(c.q, Row(G(c), HPrime(c, y), c.bases.u * w % c.q), r)
    ensures IsRelation(c.q, AllBases(c), Widened(c, y, w, r))
  {
    hide Inner, AllBases;
    var q, n := c.q, Size(c);
    var a, b, e := r[..n], r[n..2 * n], r[2 * n];
    var s := Widened(c, y, w, r);
    assert r == a + b + [e];
    InnerThree(G(c), HPrime(c, y), c.bases.u * w % q, a, b, e);
    InnerAll(c, a, Unscaled(q, y, b), w * e, 0, 0);
    UnscaledInner(q, H(c), y, b);
    ModCong(q, c.bases.u * w);
    CongMul(q, c.bases.u * w % q, c.bases.u * w, e, e);
    assert (c.bases.u * w) * e == c.bases.u * (w * e);
    var ga, hb, hb' := Inner(G(c), a), Inner(HPrime(c, y), b), Inner(H(c), Unscaled(q, y, b));
    CongAdd(q, ga, ga, hb, hb');
    CongAdd(q, ga + hb, ga + hb', (c.bases.u * w % q) * e, c.bases.u * (w * e));
    var i :| 0 <= i < |r| && r[i] % q != 0;
    if n <= i < 2 * n {
      InversePower(q, y, i - n);
      NonZeroProduct(q, Pow(Inv(q, y), i - n), r[i]);
    } else {
      NonZeroProduct(q, w, r[i]);
    }
    assert s[i] % q != 0;
  }

  /** The reconstructed commitment without its product term. */
  function Bare(c: Claim, a: Point, s: Point, y: int, z: int, f: XFork): int
    requires c.q > 1 && c.padded * c.bits == Size(c)
  {
    a + f.x * s + Inner(G(c), Scale(-z, Ones(Size(c)))) + Inner(HPrime(c, y), Coefficients(c, y, z)) - f.mu * c.bases.blind
  }

  lemma WRepRepresents(c: Claim, a: Point, s: Point, y: int, z: int, f: XFork, m: nat)
    requires c.q > 1 && c.padded * c.bits == Size(c) && Shaped(c, f) && m < 2
    requires Opens(c.q, G(c), HPrime(c, y), c.bases.u * f.ws[m].w % c.q, Rebuilt(c, a, s, y, z, f, f.ws[m].w), L(c, f, m), R(c, f, m))
    ensures Cong(c.q, Bare(c, a, s, y, z, f), Inner(AllBases(c), WRep(c, y, f, m)))
  {
    hide Inner, AllBases, L, R, BlockWeights, Powers;
    var q, w := c.q, f.ws[m].w;
    var l, r, u := L(c, f, m), R(c, f, m), c.bases.u * w % q;
    var product := Inner(l, r);
    InnerAll(c, l, Unscaled(q, y, r), (product - f.tHat) * w, 0, 0);
    UnscaledInner(q, H(c), y, r);
    ModCong(q, Bare(c, a, s, y, z, f) + f.tHat * u);
    ModCong(q, c.bases.u * w);
    BareArithmetic(q, Bare(c, a, s, y, z, f), f.tHat, u, c.bases.u, w, product, Inner(G(c), l), Inner(HPrime(c, y), r),
                   Inner(H(c), Unscaled(q, y, r)));
  }

  lemma BareArithmetic(q: int, bare: int, t: int, u: int, base: int, w: int, product: int, gl: int, hr: int, hr': int)
    requires q > 0 && Cong(q, u, base * w) && Cong(q, hr, hr') && Cong(q, bare + t * u, gl + hr + product * u)
    ensures Cong(q, bare, gl + hr' + base * ((product - t) * w))
  {
    CongSub(q, bare + t * u, gl + hr + product * u, t * u, t * u);
    CongMulLeft(q, product - t, u, base * w);
    assert product * u - t * u == (product - t) * u;
    assert (product - t) * (base * w) == base * ((product - t) * w);
    CongAdd(q, gl, gl, hr, hr');
    CongAdd(q, gl + hr, gl + hr', (product - t) * u, base * ((product - t) * w));
  }

  /** The fork's vectors are the same for both `w`, and `tHat` is their inner product. */
  ghost predicate Evaluated(c: Claim, a: Point, s: Point, y: int, z: int, f: XFork)
    requires c.q > 1 && c.padded * c.bits == Size(c) && Shaped(c, f)
  {
    Cong(c.q, Inner(L(c, f, 0), R(c, f, 0)), f.tHat) &&
    Cong(c.q, Bare(c, a, s, y, z, f), Inner(AllBases(c), WRep(c, y, f, 0)))
  }

  /** A relation computed in one of the two trees, over all bases. */
  ghost predicate TreeComputed(c: Claim, y: int, f: XFork, r: Vec)
    requires c.q > 1 && Shaped(c, f)
  {
    exists m, s: Vec :: 0 <= m < 2 && |s| == 2 * Size(c) + 1 && Computed(c.q, f.ws[m].tree, c.rounds, s) &&
      r == Widened(c, y, f.ws[m].w, s)
  }

  lemma TreeOpens(c: Claim, a: Point, s: Point, y: int, z: int, f: XFork, m: nat)
    requires Sane(c) && y % c.q != 0 && TreesGrown(c, a, s, y, z, f) && m < 2
    ensures (exists r :: TreeComputed(c, y, f, r) && IsRelation(c.q, AllBases(c), r)) ||
            Cong(c.q, Bare(c, a, s, y, z, f), Inner(AllBases(c), WRep(c, y, f, m)))
  {
    hide Inner, AllBases, Grown, Computed, IsRelation, Opens, Rebuilt, Bare, WRep;
    var q, w := c.q, f.ws[m].w;
    var u, p := c.bases.u * w % q, Rebuilt(c, a, s, y, z, f, w);
    WitnessOpens(q, f.ws[m].tree, c.rounds, G(c), HPrime(c, y), u, p);
    if Opens(q, G(c), HPrime(c, y), u, p, L(c, f, m), R(c, f, m)) {
      WRepRepresents(c, a, s, y, z, f, m);
    } else {
      var r :| Computed(q, f.ws[m].tree, c.rounds, r) && IsRelation(q, Row(G(c), HPrime(c, y), u), r);
      RelationSize(q, Row(G(c), HPrime(c, y), u), r);
      WidenedRelation(c, y, w, r);
      assert TreeComputed(c, y, f, Widened(c, y, w, r));
    }
  }

  /** Two values of `w`. */
  lemma TwoW(c: Claim, a: Point, s: Point, y: int, z: int, f: XFork)
    requires Sane(c) && y % c.q != 0 && TreesGrown(c, a, s, y, z, f)
    ensures (exists r :: TreeComputed(c, y, f, r) && IsRelation(c.q, AllBases(c), r)) ||
            IsRelation(c.q, AllBases(c), WGap(c, y, f)) || Evaluated(c, a, s, y, z, f)
  {
    hide Inner, AllBases, Grown, TreeComputed, IsRelation, Rebuilt, Bare, WRep;
    TreeOpens(c, a, s, y, z, f, 0);
    TreeOpens(c, a, s, y, z, f, 1);
    if !exists r :: TreeComputed(c, y, f, r) && IsRelation(c.q, AllBases(c), r) {
      TwoRepresentations(c.q, AllBases(c), Bare(c, a, s, y, z, f), WRep(c, y, f, 0), WRep(c, y, f, 1));
      if CongV(c.q, WRep(c, y, f, 0), WRep(c, y, f, 1)) {
        SameProduct(c, y, f);
      }
    }
  }

  lemma SameProduct(c: Claim, y: int, f: XFork)
    requires Prime(c.q) && y % c.q != 0 && Shaped(c, f) && !Cong(c.q, f.ws[0].w, f.ws[1].w)
    requires CongV(c.q, WRep(c, y, f, 0), WRep(c, y, f, 1))
    ensures Cong(c.q, Inner(L(c, f, 0), R(c, f, 0)), f.tHat)
  {
    hide Inner, L, R;
    var q, n := c.q, Size(c);
    var v, w := WRep(c, y, f, 0), WRep(c, y, f, 1);
    var l, r, l', r' := L(c, f, 0), R(c, f, 0), L(c, f, 1), R(c, f, 1);
    forall i | 0 <= i < n ensures Cong(q, l[i], l'[i]) && Cong(q, r[i], r'[i]) {
      assert Cong(q, v[i], w[i]) && Cong(q, v[n + i], w[n + i]);
      InversePower(q, y, i);
      Cancel(q, Pow(Inv(q, y), i), r[i], r'[i]);
    }
    InnerCong(q, l, l', r, r');
    assert Cong(q, v[2 * n], w[2 * n]);
    ProductIs(q, Inner(l, r), Inner(l', r'), f.tHat, f.ws[0].w, f.ws[1].w);
  }

  lemma ProductIs(q: int, c: int, c': int, t: int, w: int, w': int)
    requires Prime(q) && Cong(q, c, c') && !Cong(q, w, w') && Cong(q, (c - t) * w, (c' - t) * w')
    ensures Cong(q, c, t)
  {
    CongSub(q, c', c, t, t);
    CongMul(q, c' - t, c - t, w', w');
    CongSub(q, (c - t) * w, (c - t) * w', (c - t) * w', (c - t) * w');
    assert (c - t) * w - (c - t) * w' == (c - t) * (w - w');
    ModSmall(q, 0);
    NoZeroDivisors(q, c - t, w - w');
    CongZero(q, w, w');
    CongZero(q, c, t);
  }

  // ---------------------------------------------------------------- the first commitments

  /** The representation of `a + x*s`. */
  function XRep(c: Claim, y: int, z: int, f: XFork): (r: Vec)
    requires c.q > 1 && c.padded * c.bits == Size(c) && Shaped(c, f)
    ensures |r| == 2 * Size(c) + 3
  {
    Shifted(L(c, f, 0), z) + Unscaled(c.q, y, Minus(R(c, f, 0), Coefficients(c, y, z))) + [0, 0, f.mu]
  }

  lemma InnerShifted(v: Vec, l: Vec, z: int)
    requires |v| == |l|
    ensures Inner(v, Shifted(l, z)) == Inner(v, l) - Inner(v, Scale(-z, Ones(|v|)))
  {
    hide Inner;
    assert Shifted(l, z) == Plus(l, Scale(z, Ones(|v|)));
    RC.InnerRightPlus(v, l, Scale(z, Ones(|v|)));
    InnerRightScale(z, v, Ones(|v|));
    InnerRightScale(-z, v, Ones(|v|));
    assert -z * Inner(v, Ones(|v|)) == -(z * Inner(v, Ones(|v|)));
  }

  lemma InnerMinus(v: Vec, a: Vec, b: Vec)
    requires |v| == |a| == |b|
    ensures Inner(v, Minus(a, b)) == Inner(v, a) - Inner(v, b)
  {
    hide Inner;
    assert Minus(a, b) == Plus(a, Scale(-1, b));
    RC.InnerRightPlus(v, a, Scale(-1, b));
    InnerRightScale(-1, v, b);
  }

  lemma WRepInner(c: Claim, y: int, f: XFork)
    requires c.q > 1 && Shaped(c, f)
    ensures var l, r := L(c, f, 0), R(c, f, 0);
            Inner(AllBases(c), WRep(c, y, f, 0))
            == Inner(G(c), l) + Inner(H(c), Unscaled(c.q, y, r)) + c.bases.u * ((Inner(l, r) - f.tHat) * f.ws[0].w)
  {
    hide Inner, AllBases, L, R;
    var l, r := L(c, f, 0), R(c, f, 0);
    InnerAll(c, l, Unscaled(c.q, y, r), (Inner(l, r) - f.tHat) * f.ws[0].w, 0, 0);
  }

  lemma XRepInner(c: Claim, y: int, z: int, f: XFork)
    requires c.q > 1 && c.padded * c.bits == Size(c) && Shaped(c, f)
    ensures var gz, r, k := Inner(G(c), Scale(-z, Ones(Size(c)))), R(c, f, 0), Coefficients(c, y, z);
            Inner(AllBases(c), XRep(c, y, z, f))
            == Inner(G(c), L(c, f, 0)) - gz + Inner(H(c), Unscaled(c.q, y, Minus(r, k))) + f.mu * c.bases.blind
  {
    hide Inner, AllBases, L, R, Coefficients;
    var l, r, k := L(c, f, 0), R(c, f, 0), Coefficients(c, y, z);
    InnerAll(c, Shifted(l, z), Unscaled(c.q, y, Minus(r, k)), 0, 0, f.mu);
    InnerShifted(G(c), l, z);
  }

  lemma XRepRepresents(c: Claim, a: Point, s: Point, y: int, z: int, f: XFork)
    requires c.q > 1 && c.padded * c.bits == Size(c) && Shaped(c, f) && Evaluated(c, a, s, y, z, f)
    ensures Cong(c.q, a + f.x * s, Inner(AllBases(c), XRep(c, y, z, f)))
  {
    var gz, hk := Inner(G(c), Scale(-z, Ones(Size(c)))), Inner(HPrime(c, y), Coefficients(c, y, z));
    FromBare(c, y, z, f, a + f.x * s, gz, hk, f.mu * c.bases.blind);
  }

  lemma FromBare(c: Claim, y: int, z: int, f: XFork, e: int, gz: int, hk: int, mu: int)
    requires c.q > 1 && c.padded * c.bits == Size(c) && Shaped(c, f) && Cong(c.q, Inner(L(c, f, 0), R(c, f, 0)), f.tHat)
    requires gz == Inner(G(c), Scale(-z, Ones(Size(c)))) && hk == Inner(HPrime(c, y), Coefficients(c, y, z))
    requires mu == f.mu * c.bases.blind && Cong(c.q, e + gz + hk - mu, Inner(AllBases(c), WRep(c, y, f, 0)))
    ensures Cong(c.q, e, Inner(AllBases(c), XRep(c, y, z, f)))
  {
    hide Inner, AllBases, L, R, Coefficients, XRep, Unscaled, Cong, WRep, Minus;
    var q := c.q;
    var l, r, k := L(c, f, 0), R(c, f, 0), Coefficients(c, y, z);
    WRepInner(c, y, f);
    NoExtra(q, Inner(l, r), f.tHat, f.ws[0].w, c.bases.u);
    XRepInner(c, y, z, f);
    InnerMinus(HPrime(c, y), r, k);
    UnscaledInner(q, H(c), y, r);
    UnscaledInner(q, H(c), y, Minus(r, k));
    XArithmetic(q, e, gz, hk, mu, Inner(G(c), l), Inner(HPrime(c, y), r), Inner(H(c), Unscaled(q, y, r)),
                Inner(H(c), Unscaled(q, y, Minus(r, k))), c.bases.u * ((Inner(l, r) - f.tHat) * f.ws[0].w));
  }

  lemma NoExtra(q: int, product: int, t: int, w: int, u: int)
    requires q > 0 && Cong(q, product, t)
    ensures Cong(q, u * ((product - t) * w), 0)
  {
    ModSmall(q, 0);
    CongSub(q, product, t, t, t);
    CongMul(q, product - t, 0, w, w);
    CongMulLeft(q, u, (product - t) * w, 0);
  }

  lemma XArithmetic(q: int, e: int, gz: int, hk: int, mu: int, gl: int, hr: int, hr': int, hrk: int, extra: int)
    requires q > 0 && Cong(q, e + gz + hk - mu, gl + hr' + extra) && Cong(q, hr, hr')
    requires Cong(q, hr - hk, hrk) && Cong(q, extra, 0)
    ensures Cong(q, e, gl - gz + hrk + mu)
  {
    CongAdd(q, gl + hr', gl + hr', extra, 0);
    var rest := gz + hk - mu;
    CongSub(q, e + rest, gl + hr', rest, rest);
    CongSub(q, hr', hr, hk, hk);
    CongAdd(q, hr' - hk, hrk, gl - gz + mu, gl - gz + mu);
  }

  /** From two forks: the representations of the first commitments. */
  function First(c: Claim, y: int, z: int, f: XFork, f': XFork, i: nat): (r: Vec)
    requires c.q > 1 && c.padded * c.bits == Size(c) && Shaped(c, f) && Shaped(c, f') && i < 2
    ensures |r| == 2 * Size(c) + 3
  {
    Coefficient(c.q, [f.x, f'.x], [XRep(c, y, z, f), XRep(c, y, z, f')], 2 * Size(c) + 3, i)
  }

  lemma LinearEval(a: int, b: int, x: int)
    ensures Eval([a, b], x) == a + x * b
  {
    assert Eval([a, b], x) == a + x * Eval([b], x);
    assert Eval([b], x) == b + x * Eval([], x);
  }

  lemma FirstRepresents(c: Claim, a: Point, s: Point, y: int, z: int, f: XFork, f': XFork)
    requires Sane(c) && Shaped(c, f) && Shaped(c, f') && !Cong(c.q, f.x, f'.x)
    requires Evaluated(c, a, s, y, z, f) && Evaluated(c, a, s, y, z, f')
    ensures Cong(c.q, a, Inner(AllBases(c), First(c, y, z, f, f', 0))) && Cong(c.q, s, Inner(AllBases(c), First(c, y, z, f, f', 1)))
  {
    hide Inner, AllBases, XRep, Evaluated, Coefficient;
    XRepRepresents(c, a, s, y, z, f);
    XRepRepresents(c, a, s, y, z, f');
    LinearEval(a, s, f.x);
    LinearEval(a, s, f'.x);
    var nodes, reps := [f.x, f'.x], [XRep(c, y, z, f), XRep(c, y, z, f')];
    forall i | 0 <= i < 2 ensures Cong(c.q, Eval([a, s], nodes[i]), Inner(AllBases(c), reps[i])) {}
    CoefficientRepresents(c.q, nodes, AllBases(c), reps, [a, s], 0);
    CoefficientRepresents(c.q, nodes, AllBases(c), reps, [a, s], 1);
  }

  /** What a fork says beyond the representations `va`, `vs` of the first commitments. */
  function XGap(c: Claim, y: int, z: int, f: XFork, va: Vec, vs: Vec): Vec
    requires c.q > 1 && c.padded * c.bits == Size(c) && Shaped(c, f) && |va| == |vs| == 2 * Size(c) + 3
  {
    Minus(XRep(c, y, z, f), Plus(va, Scale(f.x, vs)))
  }

  lemma XAgrees(c: Claim, a: Point, s: Point, y: int, z: int, f: XFork, va: Vec, vs: Vec)
    requires Sane(c) && Shaped(c, f) && Evaluated(c, a, s, y, z, f) && |va| == |vs| == 2 * Size(c) + 3
    requires Cong(c.q, a, Inner(AllBases(c), va)) && Cong(c.q, s, Inner(AllBases(c), vs))
    ensures IsRelation(c.q, AllBases(c), XGap(c, y, z, f, va, vs)) || CongV(c.q, XRep(c, y, z, f), Plus(va, Scale(f.x, vs)))
  {
    hide Inner, AllBases, XRep, Evaluated, IsRelation, CongV;
    var all := AllBases(c);
    XRepRepresents(c, a, s, y, z, f);
    RC.InnerRightLinear(all, va, f.x, vs);
    CongMulLeft(c.q, f.x, s, Inner(all, vs));
    CongAdd(c.q, a, Inner(all, va), f.x * s, f.x * Inner(all, vs));
    TwoRepresentations(c.q, all, a + f.x * s, XRep(c, y, z, f), Plus(va, Scale(f.x, vs)));
  }

  // ---------------------------------------------------------------- the polynomial

  function Xs(f: ZFork): (r: seq<int>)
    ensures |r| == |f.xs|
  {
    seq(|f.xs|, k requires 0 <= k < |f.xs| => f.xs[k].x)
  }

  /** The answers `(tHat, tauX)`, which open the polynomial at each `x`. */
  function Answers(f: ZFork): (r: seq<Vec>)
    ensures |r| == |f.xs| && forall k :: 0 <= k < |r| ==> |r[k]| == 2
  {
    seq(|f.xs|, k requires 0 <= k < |f.xs| => [f.xs[k].tHat, f.xs[k].tauX])
  }

  /** The value and blinding of the polynomial at zero, interpolated from three answers. */
  function AtZero(q: int, f: ZFork): (r: Vec)
    requires q > 1 && |f.xs| == 3
    ensures |r| == 2
  {
    Coefficient(q, Xs(f), Answers(f), 2, 0)
  }

  /** The opening of the weighted commitments: value first. */
  function Weighed(c: Claim, y: int, f: ZFork): (r: Vec)
    requires c.q > 1 && |f.xs| == 3
    ensures |r| == 2
  {
    var t := AtZero(c.q, f);
    [t[0] - Delta(y, f.z, c.padded, c.bits), t[1]]
  }

  function Pair(c: Claim): (r: Vec)
    ensures |r| == 2
  {
    [c.bases.value, c.bases.blind]
  }

  lemma InnerPair(c: Claim, v: int, b: int)
    ensures Inner(Pair(c), [v, b]) == c.bases.value * v + c.bases.blind * b
  {
    var p, r := Pair(c), [v, b];
    assert Sum(p, r, 1) == p[0] * r[0] && Sum(p, r, 2) == Sum(p, r, 1) + p[1] * r[1];
  }

  ghost predicate Checked(c: Claim, t1: Point, t2: Point, y: int, z: int, f: XFork)
    requires c.q > 1
  {
    PolynomialCheck(c.q, c.bases, c.commitments, t1, t2, f.tauX, f.tHat, f.x, z, Delta(y, z, c.padded, c.bits))
  }

  /**
    Three answers that pass the polynomial check open the weighted commitments, with the value and the
    blinding interpolated from them.
   */
  lemma ThreeX(c: Claim, t1: Point, t2: Point, y: int, f: ZFork)
    requires Prime(c.q) && |f.xs| == 3 && DistinctMod(c.q, Xs(f))
    requires forall k :: 0 <= k < 3 ==> Checked(c, t1, t2, y, f.z, f.xs[k])
    ensures Cong(c.q, Inner(ValueWeights(f.z, |c.commitments|), c.commitments), Inner(Pair(c), Weighed(c, y, f)))
  {
    hide Inner, Delta, Coefficient;
    var q, delta := c.q, Delta(y, f.z, c.padded, c.bits);
    var total := Inner(ValueWeights(f.z, |c.commitments|), c.commitments);
    var p := [c.bases.value * delta + total, t1, t2];
    forall k | 0 <= k < 3 ensures Cong(q, Eval(p, Xs(f)[k]), Inner(Pair(c), Answers(f)[k])) {
      var g := f.xs[k];
      assert Checked(c, t1, t2, y, f.z, g);
      QuadraticEval(p[0], t1, t2, g.x);
      assert g.x * t1 == t1 * g.x && g.x * g.x * t2 == t2 * (g.x * g.x);
      InnerPair(c, g.tHat, g.tauX);
    }
    CoefficientRepresents(q, Xs(f), Pair(c), Answers(f), p, 0);
    var t := AtZero(q, f);
    assert t == [t[0], t[1]];
    InnerPair(c, t[0], t[1]);
    InnerPair(c, t[0] - delta, t[1]);
    CongSub(q, p[0], Inner(Pair(c), t), c.bases.value * delta, c.bases.value * delta);
    assert c.bases.value * (t[0] - delta) == c.bases.value * t[0] - c.bases.value * delta;
  }

  // ---------------------------------------------------------------- every commitment

  function Zs(f: YFork, n: nat): (r: seq<int>)
    requires n <= |f.zs|
    ensures |r| == n
  {
    seq(n, j requires 0 <= j < n => f.zs[j].z)
  }

  /** The opening of the commitments weighted by `1, z, z^2, ...`. */
  function Evened(c: Claim, y: int, f: ZFork): (r: Vec)
    requires c.q > 1 && |f.xs| == 3
    ensures |r| == 2
  {
    var i := Inv(c.q, f.z);
    Scale(i * i, Weighed(c, y, f))
  }

  function Evens(c: Claim, f: YFork): (r: seq<Vec>)
    requires c.q > 1 && |c.commitments| <= |f.zs| && forall j :: 0 <= j < |f.zs| ==> |f.zs[j].xs| == 3
    ensures |r| == |c.commitments| && forall j :: 0 <= j < |r| ==> |r[j]| == 2
  {
    seq(|c.commitments|, j requires 0 <= j < |c.commitments| => Evened(c, f.y, f.zs[j]))
  }

  /** The value and blinding of commitment `k`, interpolated from as many `z` as there are commitments. */
  function Opening(c: Claim, f: YFork, k: nat): (r: Vec)
    requires c.q > 1 && k < |c.commitments| <= |f.zs| && forall j :: 0 <= j < |f.zs| ==> |f.zs[j].xs| == 3
    ensures |r| == 2
  {
    Coefficient(c.q, Zs(f, |c.commitments|), Evens(c, f), 2, k)
  }

  lemma WeightIs(z: int, j: nat)
    ensures ValueWeight(z, j) == z * z * Pow(z, j) && Pow(z, 2) == z * z
  {
    var p := Pow(z, j);
    assert Pow(z, j + 1) == p * z;
    assert Pow(z, j + 2) == Pow(z, j + 1) * z;
    assert p * z * z == z * z * p;
    assert Pow(z, 1) == Pow(z, 0) * z && Pow(z, 2) == Pow(z, 1) * z;
  }

  /** The weights `z^2, z^3, ...` are `z^2` times a polynomial evaluation. */
  lemma ValueWeightsEval(z: int, v: Vec)
    ensures Inner(ValueWeights(z, |v|), v) == z * z * Eval(v, z)
  {
    hide Inner, Eval, Pow, ValueWeight;
    ComparatorRows.PowersEval(v, z, 2);
    WeightIs(z, 0);
    var left, right := ValueWeights(z, |v|), Scale(Pow(z, 2), Powers(z, |v|));
    forall j | 0 <= j < |v| ensures left[j] == right[j] {
      WeightIs(z, j);
    }
    assert left == right;
  }

  /** A fork whose three answers pass the polynomial check. */
  ghost predicate ZChecked(c: Claim, y: int, f: ZFork)
    requires c.q > 1
  {
    f.z % c.q != 0 && |f.xs| == 3 && DistinctMod(c.q, Xs(f)) && exists t1: Point, t2: Point :: AllChecked(c, t1, t2, y, f)
  }

  ghost predicate AllChecked(c: Claim, t1: Point, t2: Point, y: int, f: ZFork)
    requires c.q > 1
  {
    forall k :: 0 <= k < |f.xs| ==> Checked(c, t1, t2, y, f.z, f.xs[k])
  }

  lemma WeighedOpens(c: Claim, y: int, f: ZFork)
    requires Prime(c.q) && ZChecked(c, y, f)
    ensures Cong(c.q, Inner(ValueWeights(f.z, |c.commitments|), c.commitments), Inner(Pair(c), Weighed(c, y, f)))
  {
    hide Checked, Inner, Weighed;
    var t1: Point, t2: Point :| AllChecked(c, t1, t2, y, f);
    ThreeX(c, t1, t2, y, f);
  }

  lemma EvenedOpens(c: Claim, y: int, f: ZFork)
    requires Prime(c.q) && ZChecked(c, y, f)
    ensures Cong(c.q, Eval(c.commitments, f.z), Inner(Pair(c), Evened(c, y, f)))
  {
    hide Checked, Weighed, Inner, Eval;
    var q, z, i, e := c.q, f.z, Inv(c.q, f.z), Eval(c.commitments, f.z);
    var w := Weighed(c, y, f);
    WeighedOpens(c, y, f);
    ValueWeightsEval(z, c.commitments);
    InvCorrect(q, z);
    ModSmall(q, 1);
    CongMul(q, z * i, 1, z * i, 1);
    UnitFactor(q, (z * i) * (z * i), e);
    CongMulLeft(q, i * i, z * z * e, Inner(Pair(c), w));
    assert (i * i) * (z * z * e) == ((z * i) * (z * i)) * e by {
      assert (i * i) * (z * z) == (z * i) * (z * i);
    }
    InnerRightScale(i * i, Pair(c), w);
  }

  /** As many different `z` as commitments: each commitment opens to its interpolated value and blinding. */
  lemma EveryCommitmentOpens(c: Claim, f: YFork, k: nat)
    requires Prime(c.q) && k < |c.commitments| <= |f.zs| && DistinctMod(c.q, Zs(f, |f.zs|))
    requires forall j :: 0 <= j < |f.zs| ==> |f.zs[j].xs| == 3 && ZChecked(c, f.y, f.zs[j])
    ensures Cong(c.q, c.commitments[k], Inner(Pair(c), Opening(c, f, k)))
  {
    hide Checked, Evened, Inner, Eval, Coefficient;
    var n := |c.commitments|;
    forall j | 0 <= j < n ensures Cong(c.q, Eval(c.commitments, Zs(f, n)[j]), Inner(Pair(c), Evens(c, f)[j])) {
      EvenedOpens(c, f.y, f.zs[j]);
    }
    assert DistinctMod(c.q, Zs(f, n)) by {
      forall i, j | 0 <= i < j < n ensures !Cong(c.q, Zs(f, n)[i], Zs(f, n)[j]) {
        assert !Cong(c.q, Zs(f, |f.zs|)[i], Zs(f, |f.zs|)[j]);
      }
    }
    CoefficientRepresents(c.q, Zs(f, n), Pair(c), Evens(c, f), c.commitments, k);
  }
}
