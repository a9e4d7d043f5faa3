/**
  Knowledge soundness of the aggregated range proof.  From accepted proofs over one list of commitments,
  with enough different challenges at every step, each commitment is opened to a number of the proved
  width; otherwise something computed from the answers is a relation between the bases.
 */
module RangeSoundness {
  import opened Common
  import opened Modular
  import opened Bits
  import opened Vectors
  import opened Polynomials
  import opened Interpolation
  import opened RangeVectors
  import opened RangeProof
  import opened RangeExtraction
  import RC = RangeCompleteness
  import IPA = InnerProductArgument
  import IPS = InnerProductSoundness
  import ComparatorRows

  // ---------------------------------------------------------------- the evidence

  type Evidence = seq<YFork>

  /** One `y` per vector entry, two more `z` than values, three `x` and two `w`. */
  predicate WellShaped(c: Claim, ev: Evidence) {
    |ev| == Size(c) && forall i :: 0 <= i < |ev| ==> YShaped(c, ev[i])
  }

  predicate YShaped(c: Claim, f: YFork) {
    |f.zs| == c.padded + 2 && forall j :: 0 <= j < |f.zs| ==> ZShaped(c, f.zs[j])
  }

  predicate ZShaped(c: Claim, f: ZFork) {
    |f.xs| == 3 && forall k :: 0 <= k < 3 ==> Shaped(c, f.xs[k])
  }

  function Ys(ev: Evidence): (r: seq<int>)
    ensures |r| == |ev|
  {
    seq(|ev|, i requires 0 <= i < |ev| => ev[i].y)
  }

  /** All proofs of the evidence are accepted; `a` and `s` are the first messages they share. */
  ghost predicate Shared(c: Claim, ev: Evidence, a: Point, s: Point)
    requires Sane(c)
  {
    && WellShaped(c, ev) && DistinctMod(c.q, Ys(ev))
    && forall i :: 0 <= i < |ev| ==> YAccepted(c, a, s, ev[i])
  }

  ghost predicate YAccepted(c: Claim, a: Point, s: Point, f: YFork)
    requires Sane(c)
  {
    && f.y % c.q != 0 && DistinctMod(c.q, Zs(f, |f.zs|))
    && forall j :: 0 <= j < |f.zs| ==> ZAccepted(c, a, s, f.y, f.zs[j])
  }

  ghost predicate ZAccepted(c: Claim, a: Point, s: Point, y: int, f: ZFork)
    requires Sane(c)
  {
    ZChecked(c, y, f) && forall k :: 0 <= k < |f.xs| ==> TreesGrown(c, a, s, y, f.z, f.xs[k])
  }

  ghost predicate Accepted(c: Claim, ev: Evidence)
    requires Sane(c)
  {
    exists a: Point, s: Point :: Shared(c, ev, a, s)
  }

  // ---------------------------------------------------------------- what is computed

  lemma NonEmptyEvidence(c: Claim)
    requires Sane(c)
    ensures Size(c) > 0
  {}

  /** The representations of the first messages, from the first two forks. */
  function FirstOf(c: Claim, ev: Evidence, i: nat): (r: Vec)
    requires c.q > 1 && c.padded * c.bits == Size(c) && WellShaped(c, ev) && |ev| > 0 && i < 2
    ensures |r| == 2 * Size(c) + 3
  {
    assert YShaped(c, ev[0]) && ZShaped(c, ev[0].zs[0]);
    var f := ev[0].zs[0];
    First(c, ev[0].y, f.z, f.xs[0], f.xs[1], i)
  }

  /** The values and blindings of the commitments. */
  function ValuesOf(c: Claim, ev: Evidence, i: nat): (r: Vec)
    requires c.q > 1 && WellShaped(c, ev) && |ev| > 0 && |c.commitments| <= c.padded && i < 2
    ensures |r| == |c.commitments|
  {
    assert YShaped(c, ev[0]);
    assert forall j :: 0 <= j < |ev[0].zs| ==> ZShaped(c, ev[0].zs[j]);
    seq(|c.commitments|, k requires 0 <= k < |c.commitments| => Opening(c, ev[0], k)[i])
  }

  /** The weighted values and blindings at one `z`. */
  function Combined(c: Claim, ev: Evidence, z: int): (r: Vec)
    requires c.q > 1 && WellShaped(c, ev) && |ev| > 0 && |c.commitments| <= c.padded
    ensures |r| == 2
  {
    var w := ValueWeights(z, |c.commitments|);
    [Inner(w, ValuesOf(c, ev, 0)), Inner(w, ValuesOf(c, ev, 1))]
  }

  /** What the answers at `y`, `z` say beyond the openings of the commitments. */
  function OpenGap(c: Claim, ev: Evidence, y: int, f: ZFork): Vec
    requires c.q > 1 && WellShaped(c, ev) && |ev| > 0 && |c.commitments| <= c.padded && |f.xs| == 3
  {
    Minus(Weighed(c, y, f), Combined(c, ev, f.z))
  }

  /** A vector over all bases that is computed from the answers at one fork. */
  ghost predicate Exposed(c: Claim, ev: Evidence, y: int, z: int, f: XFork, r: Vec)
    requires c.q > 1 && c.padded * c.bits == Size(c) && WellShaped(c, ev) && |ev| > 0 && Shaped(c, f)
  {
    TreeComputed(c, y, f, r) || r == WGap(c, y, f) || r == XGap(c, y, z, f, FirstOf(c, ev, 0), FirstOf(c, ev, 1))
  }

  ghost predicate BrokenAt(c: Claim, ev: Evidence, y: int, f: ZFork)
    requires c.q > 1 && c.padded * c.bits == Size(c) && WellShaped(c, ev) && |ev| > 0 && |c.commitments| <= c.padded && ZShaped(c, f)
  {
    IsRelation(c.q, Pair(c), OpenGap(c, ev, y, f)) ||
    exists k, r :: 0 <= k < 3 && Exposed(c, ev, y, f.z, f.xs[k], r) && IsRelation(c.q, AllBases(c), r)
  }

  /** Some vector computed from the answers is a relation between the bases. */
  ghost predicate Broken(c: Claim, ev: Evidence)
    requires c.q > 1 && c.padded * c.bits == Size(c) && WellShaped(c, ev) && |ev| > 0 && |c.commitments| <= c.padded
  {
    exists i, j :: 0 <= i < |ev| && 0 <= j < |ev[i].zs| && ZShaped(c, ev[i].zs[j]) && BrokenAt(c, ev, ev[i].y, ev[i].zs[j])
  }

  // ---------------------------------------------------------------- one fork

  lemma SpotEvaluated(c: Claim, ev: Evidence, a: Point, s: Point, y: int, f: ZFork, k: nat)
    requires Sane(c) && WellShaped(c, ev) && |ev| > 0 && ZShaped(c, f) && k < 3
    requires y % c.q != 0 && ZAccepted(c, a, s, y, f) && !BrokenAt(c, ev, y, f)
    ensures Evaluated(c, a, s, y, f.z, f.xs[k])
  {
    hide Inner, AllBases, TreesGrown, TreeComputed, IsRelation, Evaluated, WGap, XGap, FirstOf, OpenGap, ZChecked;
    TwoW(c, a, s, y, f.z, f.xs[k]);
    forall r | TreeComputed(c, y, f.xs[k], r) ensures !IsRelation(c.q, AllBases(c), r) {
      assert Exposed(c, ev, y, f.z, f.xs[k], r);
    }
    assert Exposed(c, ev, y, f.z, f.xs[k], WGap(c, y, f.xs[k]));
  }

  /** Unless something is broken, every fork agrees with the vectors behind the first messages. */
  lemma SpotAgrees(c: Claim, ev: Evidence, a: Point, s: Point, y: int, f: ZFork, k: nat)
    requires Sane(c) && WellShaped(c, ev) && |ev| > 0 && ZShaped(c, f) && k < 3
    requires y % c.q != 0 && ZAccepted(c, a, s, y, f) && !BrokenAt(c, ev, y, f)
    requires Cong(c.q, a, Inner(AllBases(c), FirstOf(c, ev, 0))) && Cong(c.q, s, Inner(AllBases(c), FirstOf(c, ev, 1)))
    ensures Cong(c.q, Inner(L(c, f.xs[k], 0), R(c, f.xs[k], 0)), f.xs[k].tHat)
    ensures CongV(c.q, XRep(c, y, f.z, f.xs[k]), Plus(FirstOf(c, ev, 0), Scale(f.xs[k].x, FirstOf(c, ev, 1))))
  {
    hide Inner, AllBases, IsRelation, XGap, FirstOf, OpenGap, XRep, ZAccepted, CongV;
    SpotEvaluated(c, ev, a, s, y, f, k);
    XAgrees(c, a, s, y, f.z, f.xs[k], FirstOf(c, ev, 0), FirstOf(c, ev, 1));
    assert Exposed(c, ev, y, f.z, f.xs[k], XGap(c, y, f.z, f.xs[k], FirstOf(c, ev, 0), FirstOf(c, ev, 1)));
  }

  lemma FirstMessages(c: Claim, ev: Evidence, a: Point, s: Point)
    requires Sane(c) && Shared(c, ev, a, s) && |ev| > 0 && !Broken(c, ev)
    ensures Cong(c.q, a, Inner(AllBases(c), FirstOf(c, ev, 0))) && Cong(c.q, s, Inner(AllBases(c), FirstOf(c, ev, 1)))
  {
    hide Inner, AllBases, BrokenAt, Evaluated, First, ZChecked, TreesGrown;
    assert YShaped(c, ev[0]) && YAccepted(c, a, s, ev[0]);
    var f := ev[0].zs[0];
    assert ZShaped(c, f) && ZAccepted(c, a, s, ev[0].y, f);
    assert !BrokenAt(c, ev, ev[0].y, f);
    SpotEvaluated(c, ev, a, s, ev[0].y, f, 0);
    SpotEvaluated(c, ev, a, s, ev[0].y, f, 1);
    DifferentXs(c, ev[0].y, f);
    FirstRepresents(c, a, s, ev[0].y, f.z, f.xs[0], f.xs[1]);
  }

  lemma DifferentXs(c: Claim, y: int, f: ZFork)
    requires c.q > 1 && ZChecked(c, y, f)
    ensures |f.xs| == 3 && DistinctMod(c.q, Xs(f)) && !Cong(c.q, f.xs[0].x, f.xs[1].x)
  {
    assert !Cong(c.q, Xs(f)[0], Xs(f)[1]);
  }

  // ---------------------------------------------------------------- the vectors

  /** The constant coefficient of the right vector, for any `aR`. */
  function RightOf(aR: Vec, yPowers: Vec, blocks: Vec, z: int): (r: Vec)
    requires |aR| == |yPowers| == |blocks|
    ensures |r| == |aR|
  {
    seq(|aR|, i requires 0 <= i < |aR| => yPowers[i] * (aR[i] + z) + blocks[i])
  }

  /** The two vectors of a fork are the evaluations of the two vector polynomials. */
  lemma VectorsAre(c: Claim, y: int, z: int, f: XFork, va: Vec, vs: Vec)
    requires Sane(c) && Shaped(c, f) && y % c.q != 0 && |va| == |vs| == 2 * Size(c) + 3
    requires CongV(c.q, XRep(c, y, z, f), Plus(va, Scale(f.x, vs)))
    ensures var n, Y, B := Size(c), Powers(y, Size(c)), BlockWeights(z, c.padded, c.bits);
            CongV(c.q, L(c, f, 0), Plus(Shifted(va[..n], -z), Scale(f.x, vs[..n]))) &&
            CongV(c.q, R(c, f, 0), Plus(RightOf(va[n..2 * n], Y, B, z), Scale(f.x, Times(Y, vs[n..2 * n]))))
  {
    hide L, R, BlockWeights, Inner;
    var q, n, Y, B := c.q, Size(c), Powers(y, Size(c)), BlockWeights(z, c.padded, c.bits);
    var l, r := L(c, f, 0), R(c, f, 0);
    var v, e := XRep(c, y, z, f), Plus(va, Scale(f.x, vs));
    forall i | 0 <= i < n
      ensures Cong(q, l[i], va[i] - z + f.x * vs[i])
      ensures Cong(q, r[i], Y[i] * (va[n + i] + z) + B[i] + f.x * (Y[i] * vs[n + i]))
    {
      assert Cong(q, v[i], e[i]) && Cong(q, v[n + i], e[n + i]);
      assert v[i] == l[i] + z && v[n + i] == Pow(Inv(q, y), i) * (r[i] - (z * Y[i] + B[i]));
      CongSub(q, l[i] + z, va[i] + f.x * vs[i], z, z);
      InversePower(q, y, i);
      RightEntry(q, Pow(Inv(q, y), i), Y[i], r[i], z, B[i], va[n + i], f.x, vs[n + i]);
    }
  }

  lemma RightEntry(q: int, t: int, Y: int, r: int, z: int, B: int, a: int, x: int, s: int)
    requires q > 1 && (t * Y) % q == 1 && Cong(q, t * (r - (z * Y + B)), a + x * s)
    ensures Cong(q, r, Y * (a + z) + B + x * (Y * s))
  {
    var d := r - (z * Y + B);
    CongMulLeft(q, Y, t * d, a + x * s);
    assert Y * (t * d) == (t * Y) * d;
    UnitFactor(q, t * Y, d);
    CongAdd(q, d, Y * (a + x * s), z * Y + B, z * Y + B);
    assert Y * (a + x * s) + z * Y == Y * (a + z) + x * (Y * s);
  }

  /** The two vectors behind the first messages. */
  function Part(c: Claim, ev: Evidence, i: nat, right: bool): (r: Vec)
    requires c.q > 1 && c.padded * c.bits == Size(c) && WellShaped(c, ev) && |ev| > 0 && i < 2
    ensures |r| == Size(c)
  {
    var n := Size(c);
    if right then FirstOf(c, ev, i)[n..2 * n] else FirstOf(c, ev, i)[..n]
  }

  /** The constant term of `t` at `y`, `z`, for vectors `aL`, `aR`. */
  function Constant(c: Claim, aL: Vec, aR: Vec, y: int, z: int): int
    requires |aL| == |aR| == Size(c) == c.padded * c.bits
  {
    Inner(Shifted(aL, -z), RightOf(aR, Powers(y, Size(c)), BlockWeights(z, c.padded, c.bits), z))
  }

  /** The value interpolated at zero is the constant term. */
  lemma ZeroIsConstant(c: Claim, ev: Evidence, a: Point, s: Point, y: int, f: ZFork)
    requires Sane(c) && WellShaped(c, ev) && |ev| > 0 && ZShaped(c, f)
    requires y % c.q != 0 && ZAccepted(c, a, s, y, f) && !BrokenAt(c, ev, y, f)
    requires Cong(c.q, a, Inner(AllBases(c), FirstOf(c, ev, 0))) && Cong(c.q, s, Inner(AllBases(c), FirstOf(c, ev, 1)))
    ensures Cong(c.q, AtZero(c.q, f)[0], Constant(c, Part(c, ev, 0, false), Part(c, ev, 0, true), y, f.z))
  {
    hide Inner, AllBases, FirstOf, BrokenAt, ZAccepted, XRep, Interpolated, BlockWeights, CongV, L, R, Powers;
    var q, n := c.q, Size(c);
    var Y, B := Powers(y, n), BlockWeights(f.z, c.padded, c.bits);
    var l0, l1 := Shifted(Part(c, ev, 0, false), -f.z), Part(c, ev, 1, false);
    var r0, r1 := RightOf(Part(c, ev, 0, true), Y, B, f.z), Times(Y, Part(c, ev, 1, true));
    var p := [Inner(l0, r0), Inner(l1, r0) + Inner(l0, r1), Inner(l1, r1)];
    var values := Entries(Answers(f), 2, 0);
    forall k | 0 <= k < 3 ensures Cong(q, Eval(p, Xs(f)[k]), values[k]) {
      var g := f.xs[k];
      SpotAgrees(c, ev, a, s, y, f, k);
      VectorsAre(c, y, f.z, g, FirstOf(c, ev, 0), FirstOf(c, ev, 1));
      InnerCong(q, L(c, g, 0), Plus(l0, Scale(g.x, l1)), R(c, g, 0), Plus(r0, Scale(g.x, r1)));
      RC.ProductExpansion(l0, l1, r0, r1, g.x);
      IPS.QuadraticEval(p[0], p[1], p[2], g.x);
    }
    XsDistinct(c, a, s, y, f);
    InterpolatedUnique(q, Xs(f), values, p);
    FirstOfCong(q, p, Interpolated(q, Xs(f), values));
  }

  lemma FirstOfCong(q: int, a: Vec, b: Vec)
    requires q > 0 && CongV(q, a, b) && |a| > 0
    ensures |b| > 0 && Cong(q, b[0], a[0])
  {}

  lemma XsDistinct(c: Claim, a: Point, s: Point, y: int, f: ZFork)
    requires Sane(c) && ZAccepted(c, a, s, y, f)
    ensures |f.xs| == 3 && DistinctMod(c.q, Xs(f)) && ZChecked(c, y, f)
  {
    hide ZChecked;
    DifferentXs(c, y, f);
  }

  // ---------------------------------------------------------------- two openings of the weighted commitments

  lemma CombinedOpens(c: Claim, ev: Evidence, z: int)
    requires c.q > 1 && WellShaped(c, ev) && |ev| > 0 && |c.commitments| <= c.padded
    requires forall k :: 0 <= k < |c.commitments| ==> CommitmentOpens(c, ev, k)
    ensures Cong(c.q, Inner(ValueWeights(z, |c.commitments|), c.commitments), Inner(Pair(c), Combined(c, ev, z)))
  {
    hide Inner, ValuesOf;
    var n := |c.commitments|;
    var w, vs, bs := ValueWeights(z, n), ValuesOf(c, ev, 0), ValuesOf(c, ev, 1);
    var opened' := Plus(Scale(c.bases.value, vs), Scale(c.bases.blind, bs));
    forall k | 0 <= k < n ensures Cong(c.q, c.commitments[k], opened'[k]) {
      assert CommitmentOpens(c, ev, k);
    }
    CongVRefl(c.q, w);
    InnerCong(c.q, w, w, c.commitments, opened');
    IPA.InnerRightHalves(c.bases.value, c.bases.blind, vs, bs, w);
    InnerPair(c, Inner(w, vs), Inner(w, bs));
  }

  /** Commitment `k` opens to its computed value and blinding. */
  ghost predicate CommitmentOpens(c: Claim, ev: Evidence, k: nat)
    requires c.q > 1 && WellShaped(c, ev) && |ev| > 0 && k < |c.commitments| <= c.padded
  {
    Cong(c.q, c.commitments[k], c.bases.value * ValuesOf(c, ev, 0)[k] + c.bases.blind * ValuesOf(c, ev, 1)[k])
  }

  lemma CommitmentsOpen(c: Claim, ev: Evidence, a: Point, s: Point, k: nat)
    requires Sane(c) && Shared(c, ev, a, s) && |ev| > 0 && k < |c.commitments|
    ensures CommitmentOpens(c, ev, k)
  {
    hide Inner, ZChecked, TreesGrown, Opening;
    assert YShaped(c, ev[0]) && YAccepted(c, a, s, ev[0]);
    forall j | 0 <= j < |ev[0].zs| ensures |ev[0].zs[j].xs| == 3 && ZChecked(c, ev[0].y, ev[0].zs[j]) {
      assert ZShaped(c, ev[0].zs[j]) && ZAccepted(c, a, s, ev[0].y, ev[0].zs[j]);
    }
    EveryCommitmentOpens(c, ev[0], k);
    var o := Opening(c, ev[0], k);
    assert o == [o[0], o[1]];
    InnerPair(c, o[0], o[1]);
  }

  /** Unless something is broken, the constant term less delta is the weighted sum of the computed values. */
  lemma ConstantIsValues(c: Claim, ev: Evidence, a: Point, s: Point, y: int, f: ZFork)
    requires Sane(c) && WellShaped(c, ev) && |ev| > 0 && ZShaped(c, f)
    requires y % c.q != 0 && ZAccepted(c, a, s, y, f) && !BrokenAt(c, ev, y, f)
    requires Cong(c.q, a, Inner(AllBases(c), FirstOf(c, ev, 0))) && Cong(c.q, s, Inner(AllBases(c), FirstOf(c, ev, 1)))
    requires forall k :: 0 <= k < |c.commitments| ==> CommitmentOpens(c, ev, k)
    ensures Cong(c.q, Constant(c, Part(c, ev, 0, false), Part(c, ev, 0, true), y, f.z) - Delta(y, f.z, c.padded, c.bits),
                 Inner(ValueWeights(f.z, |c.commitments|), ValuesOf(c, ev, 0)))
  {
    hide Inner, AllBases, FirstOf, ZAccepted, CommitmentOpens, ValuesOf, AtZero, Constant, Delta, ZChecked, IsRelation, Part;
    XsDistinct(c, a, s, y, f);
    WeighedOpens(c, y, f);
    CombinedOpens(c, ev, f.z);
    var w, e := Weighed(c, y, f), Combined(c, ev, f.z);
    TwoRepresentations(c.q, Pair(c), Inner(ValueWeights(f.z, |c.commitments|), c.commitments), w, e);
    assert CongV(c.q, w, e);
    assert Cong(c.q, w[0], e[0]);
    ZeroIsConstant(c, ev, a, s, y, f);
    var constant := Constant(c, Part(c, ev, 0, false), Part(c, ev, 0, true), y, f.z);
    CongSub(c.q, constant, AtZero(c.q, f)[0], Delta(y, f.z, c.padded, c.bits), Delta(y, f.z, c.padded, c.bits));
  }

  // ---------------------------------------------------------------- the identity in y and z

  /** `aL - aR - 1` */
  function Off(aL: Vec, aR: Vec): (r: Vec)
    requires |aL| == |aR|
    ensures |r| == |aL|
  {
    seq(|aL|, i requires 0 <= i < |aL| => aL[i] - aR[i] - 1)
  }

  lemma ConstantEntry(l: int, r: int, y: int, w: int, z: int)
    ensures (l - z) * (y * (r + z) + w) == y * (l * r) + z * (y * (l - r - 1)) + (z - z * z) * y + l * w - z * w
  {
    var a, b := l * r, l - r - 1;
    EntryProduct(l, r, z);
    EntryScaled(y, l - z, r + z, a, z, b, z - z * z);
    assert (l - z) * (y * (r + z) + w) == (l - z) * (y * (r + z)) + (l * w - z * w);
  }

  lemma EntryProduct(l: int, r: int, z: int)
    ensures (l - z) * (r + z) == l * r + z * (l - r - 1) + (z - z * z)
  {
    assert (l - z) * (r + z) == l * r + l * z - z * r - z * z;
  }

  lemma EntryScaled(y: int, u: int, v: int, a: int, z: int, b: int, d: int)
    requires u * v == a + z * b + d
    ensures u * (y * v) == y * a + z * (y * b) + d * y
  {
    assert u * (y * v) == y * (u * v);
    assert y * (a + z * b + d) == y * a + y * (z * b) + d * y;
    assert y * (z * b) == z * (y * b);
  }

  lemma {:induction false} ConstantSums(aL: Vec, aR: Vec, Y: Vec, B: Vec, z: int, n: nat)
    requires |aL| == |aR| == |Y| == |B| && n <= |aL|
    ensures Sum(Shifted(aL, -z), RightOf(aR, Y, B, z), n)
            == Sum(Y, Times(aL, aR), n) + z * Sum(Y, Off(aL, aR), n) + (z - z * z) * Sum(Ones(|aL|), Y, n)
               + Sum(aL, B, n) - z * Sum(Ones(|aL|), B, n)
  {
    if n > 0 {
      var k := n - 1;
      ConstantSums(aL, aR, Y, B, z, k);
      ConstantEntry(aL[k], aR[k], Y[k], B[k], z);
      assert Ones(|aL|)[k] == 1;
      AddTerm(z, Sum(Y, Off(aL, aR), k), Y[k] * Off(aL, aR)[k], Sum(Y, Off(aL, aR), n));
      AddTerm(z - z * z, Sum(Ones(|aL|), Y, k), Y[k], Sum(Ones(|aL|), Y, n));
      AddTerm(z, Sum(Ones(|aL|), B, k), B[k], Sum(Ones(|aL|), B, n));
    }
  }

  /** The numbers written by the blocks of a vector. */
  function BlockValues(v: Vec, count: nat, bits: nat): (r: Vec)
    requires |v| == count * bits
    ensures |r| == count
  {
    if count == 0 then []
    else
      var n := (count - 1) * bits;
      BlockFits(count, bits);
      BlockValues(v[..n], count - 1, bits) + [Inner(v[n..], TwoPowers(bits))]
  }

  lemma BlockFits(count: nat, bits: nat)
    requires count > 0
    ensures 0 <= (count - 1) * bits && (count - 1) * bits + bits == count * bits
  {}

  lemma {:induction false} BlocksToValues(z: int, v: Vec, count: nat, bits: nat)
    requires |v| == count * bits
    ensures Inner(v, BlockWeights(z, count, bits)) == Inner(ValueWeights(z, count), BlockValues(v, count, bits))
  {
    hide ValueWeight, TwoPowers;
    if count > 0 {
      var n, w := (count - 1) * bits, ValueWeight(z, count - 1);
      BlockFits(count, bits);
      var front, last := v[..n], v[n..];
      BlocksToValues(z, front, count - 1, bits);
      assert v == front + last;
      InnerConcat(front, BlockWeights(z, count - 1, bits), last, Scale(w, TwoPowers(bits)));
      InnerRightScale(w, last, TwoPowers(bits));
      assert ValueWeights(z, count) == ValueWeights(z, count - 1) + [w];
      InnerAppend(ValueWeights(z, count - 1), BlockValues(front, count - 1, bits), w, Inner(last, TwoPowers(bits)));
    }
  }

  /** The constant term less delta: a product part, a bit part and the values of the blocks. */
  lemma ConstantParts(c: Claim, aL: Vec, aR: Vec, y: int, z: int)
    requires |aL| == |aR| == Size(c) == c.padded * c.bits
    ensures var Y := Powers(y, Size(c));
            Constant(c, aL, aR, y, z) - Delta(y, z, c.padded, c.bits)
            == Inner(Y, Times(aL, aR)) + z * Inner(Y, Off(aL, aR)) + Inner(ValueWeights(z, c.padded), BlockValues(aL, c.padded, c.bits))
  {
    hide Inner, BlockWeights, ValueWeights, Pow2, Powers, BlockValues;
    var n, Y, B := Size(c), Powers(y, Size(c)), BlockWeights(z, c.padded, c.bits);
    InnerIsSum(Shifted(aL, -z), RightOf(aR, Y, B, z));
    InnerIsSum(Y, Times(aL, aR));
    InnerIsSum(Y, Off(aL, aR));
    InnerIsSum(Ones(n), Y);
    InnerIsSum(Ones(n), B);
    InnerIsSum(aL, B);
    ConstantSums(aL, aR, Y, B, z, n);
    BlockWeightsTotal(z, c.padded, c.bits);
    BlocksToValues(z, aL, c.padded, c.bits);
  }

  lemma InnerIsSum(a: Vec, b: Vec)
    requires |a| == |b|
    ensures Inner(a, b) == Sum(a, b, |a|)
  {}

  // ---------------------------------------------------------------- the bits

  /** The coefficients of the identity as a polynomial in `z`. */
  function InZ(c: Claim, aL: Vec, aR: Vec, values: Vec, y: int): (r: Vec)
    requires |aL| == |aR| == Size(c) == c.padded * c.bits && |values| == |c.commitments| <= c.padded
    ensures |r| == c.padded + 2
  {
    var Y := Powers(y, Size(c));
    [Inner(Y, Times(aL, aR)), Inner(Y, Off(aL, aR))] + Minus(BlockValues(aL, c.padded, c.bits), RC.Padded(values, c.padded))
  }

  lemma InZRoot(c: Claim, aL: Vec, aR: Vec, values: Vec, y: int, z: int)
    requires c.q > 1 && |aL| == |aR| == Size(c) == c.padded * c.bits && |values| == |c.commitments| <= c.padded
    requires Cong(c.q, Constant(c, aL, aR, y, z) - Delta(y, z, c.padded, c.bits), Inner(ValueWeights(z, |values|), values))
    ensures Root(c.q, InZ(c, aL, aR, values, y), z)
  {
    hide Inner, BlockValues, Delta, Constant, Powers, Eval;
    var Y, p := Powers(y, Size(c)), InZ(c, aL, aR, values, y);
    var bv, pv := BlockValues(aL, c.padded, c.bits), RC.Padded(values, c.padded);
    var e, d, rest := Inner(Y, Times(aL, aR)), Inner(Y, Off(aL, aR)), Minus(bv, pv);
    ConstantParts(c, aL, aR, y, z);
    RC.PaddingIsFree(z, values, c.padded);
    ValueWeightsEval(z, rest);
    InnerMinus(ValueWeights(z, c.padded), bv, pv);
    TwoHeads(e, d, rest, z);
    CongZero(c.q, Constant(c, aL, aR, y, z) - Delta(y, z, c.padded, c.bits), Inner(ValueWeights(z, |values|), values));
  }

  lemma TwoHeads(e: int, d: int, rest: Vec, z: int)
    ensures Eval([e, d] + rest, z) == e + z * d + z * z * Eval(rest, z)
  {
    var p := [e, d] + rest;
    assert p[1..] == [d] + rest && ([d] + rest)[1..] == rest;
    var t := Eval(rest, z);
    assert Eval([d] + rest, z) == d + z * t;
    assert z * (d + z * t) == z * d + z * z * t;
  }

  /** `aL` and `aR` satisfy the identity at every `y` and `z` of the evidence. */
  ghost predicate Identity(c: Claim, ev: Evidence, aL: Vec, aR: Vec, values: Vec)
    requires c.q > 1 && |aL| == |aR| == Size(c) == c.padded * c.bits && |values| == |c.commitments| <= c.padded && WellShaped(c, ev)
  {
    forall i, j :: 0 <= i < |ev| && 0 <= j < |ev[i].zs| ==> Root(c.q, InZ(c, aL, aR, values, ev[i].y), ev[i].zs[j].z)
  }

  lemma CoefficientsVanish(c: Claim, ev: Evidence, aL: Vec, aR: Vec, values: Vec, i: nat, k: nat)
    requires Sane(c) && |aL| == |aR| == Size(c) && |values| == |c.commitments| && WellShaped(c, ev)
    requires Identity(c, ev, aL, aR, values) && i < |ev| && DistinctMod(c.q, Zs(ev[i], |ev[i].zs|)) && k < c.padded + 2
    ensures InZ(c, aL, aR, values, ev[i].y)[k] % c.q == 0
  {
    hide InZ;
    assert YShaped(c, ev[i]);
    var p, zs := InZ(c, aL, aR, values, ev[i].y), Zs(ev[i], |ev[i].zs|);
    forall j | 0 <= j < |zs| ensures Root(c.q, p, zs[j]) {
      assert Root(c.q, InZ(c, aL, aR, values, ev[i].y), ev[i].zs[j].z);
    }
    TooManyRoots(c.q, p, zs);
  }

  /** Every entry is a bit, and the values are the numbers its blocks write. */
  lemma BitsFollow(c: Claim, ev: Evidence, aL: Vec, aR: Vec, values: Vec)
    requires Sane(c) && |aL| == |aR| == Size(c) && |values| == |c.commitments| && WellShaped(c, ev) && |ev| > 0
    requires Identity(c, ev, aL, aR, values) && DistinctMod(c.q, Ys(ev))
    requires forall i :: 0 <= i < |ev| ==> DistinctMod(c.q, Zs(ev[i], |ev[i].zs|))
    ensures forall i :: 0 <= i < |aL| ==> aL[i] % c.q == 0 || aL[i] % c.q == 1
    ensures forall k :: 0 <= k < |values| ==> Cong(c.q, BlockValues(aL, c.padded, c.bits)[k], values[k])
  {
    hide Identity, BlockValues, Inner, Eval;
    var q, e, d := c.q, Times(aL, aR), Off(aL, aR);
    forall i | 0 <= i < |ev| ensures Root(q, e, Ys(ev)[i]) && Root(q, d, Ys(ev)[i]) {
      CoefficientsVanish(c, ev, aL, aR, values, i, 0);
      CoefficientsVanish(c, ev, aL, aR, values, i, 1);
      ComparatorRows.InnerPowers(e, ev[i].y);
      ComparatorRows.InnerPowers(d, ev[i].y);
    }
    TooManyRoots(q, e, Ys(ev));
    TooManyRoots(q, d, Ys(ev));
    forall i | 0 <= i < |aL| ensures aL[i] % q == 0 || aL[i] % q == 1 {
      assert e[i] % q == 0 && d[i] % q == 0;
      IsBit(q, aL[i], aR[i]);
    }
    forall k | 0 <= k < |values| ensures Cong(q, BlockValues(aL, c.padded, c.bits)[k], values[k]) {
      CoefficientsVanish(c, ev, aL, aR, values, 0, k + 2);
      CongZero(q, BlockValues(aL, c.padded, c.bits)[k], values[k]);
    }
  }

  lemma IsBit(q: int, l: int, r: int)
    requires Prime(q) && (l * r) % q == 0 && (l - r - 1) % q == 0
    ensures l % q == 0 || l % q == 1
  {
    NoZeroDivisors(q, l, r);
    if r % q == 0 {
      CongZero(q, l - 1, r);
      ModSmall(q, 0);
      ModSmall(q, 1);
      CongAdd(q, l - 1, 0, 1, 1);
    }
  }

  // ---------------------------------------------------------------- in range

  /** The computed bits. */
  function BitVector(c: Claim, ev: Evidence): (r: Vec)
    requires c.q > 1 && c.padded * c.bits == Size(c) && WellShaped(c, ev) && |ev| > 0
    ensures |r| == Size(c)
  {
    var aL := Part(c, ev, 0, false);
    seq(|aL|, i requires 0 <= i < |aL| => aL[i] % c.q)
  }

  /** The number that commitment `k` is opened to. */
  function Value(c: Claim, ev: Evidence, k: nat): int
    requires c.q > 1 && c.padded * c.bits == Size(c) && WellShaped(c, ev) && |ev| > 0 && k < c.padded
  {
    BlockValues(BitVector(c, ev), c.padded, c.bits)[k]
  }

  function Blinding(c: Claim, ev: Evidence, k: nat): int
    requires c.q > 1 && WellShaped(c, ev) && |ev| > 0 && k < |c.commitments| <= c.padded
  {
    ValuesOf(c, ev, 1)[k]
  }

  lemma {:induction false} BitsBound(v: Vec, bits: nat, n: nat)
    requires |v| == bits && n <= bits && IsBits(v)
    ensures 0 <= Sum(v, TwoPowers(bits), n) < Pow2(n)
  {
    if n > 0 {
      BitsBound(v, bits, n - 1);
      assert v[n - 1] == 0 || v[n - 1] == 1;
      assert Pow2(n) == 2 * Pow2(n - 1);
    }
  }

  lemma {:induction false} BlocksBound(v: Vec, count: nat, bits: nat)
    requires |v| == count * bits && IsBits(v)
    ensures forall k :: 0 <= k < count ==> 0 <= BlockValues(v, count, bits)[k] < Pow2(bits)
  {
    if count > 0 {
      var n := (count - 1) * bits;
      BlockFits(count, bits);
      BlocksBound(v[..n], count - 1, bits);
      BitsBound(v[n..], bits, bits);
    }
  }

  lemma {:induction false} BlocksCong(q: int, v: Vec, w: Vec, count: nat, bits: nat)
    requires q > 0 && |v| == |w| == count * bits && CongV(q, v, w)
    ensures CongV(q, BlockValues(v, count, bits), BlockValues(w, count, bits))
  {
    if count > 0 {
      var n := (count - 1) * bits;
      BlockFits(count, bits);
      BlocksCong(q, v[..n], w[..n], count - 1, bits);
      CongVRefl(q, TwoPowers(bits));
      InnerCong(q, v[n..], w[n..], TwoPowers(bits), TwoPowers(bits));
    }
  }

  /** The commitment opens to a number of the proved width. */
  ghost predicate InRangeOpening(c: Claim, ev: Evidence, k: nat)
    requires c.q > 1 && c.padded * c.bits == Size(c) && WellShaped(c, ev) && |ev| > 0 && k < |c.commitments| <= c.padded
  {
    0 <= Value(c, ev, k) < Pow2(c.bits) &&
    Cong(c.q, c.commitments[k], c.bases.value * Value(c, ev, k) + c.bases.blind * Blinding(c, ev, k))
  }

  lemma IdentityHolds(c: Claim, ev: Evidence, a: Point, s: Point)
    requires Sane(c) && Shared(c, ev, a, s) && |ev| > 0 && !Broken(c, ev)
    ensures Identity(c, ev, Part(c, ev, 0, false), Part(c, ev, 0, true), ValuesOf(c, ev, 0))
  {
    hide Inner, AllBases, FirstOf, Part, ValuesOf, InZ, Constant, Delta, BrokenAt, CommitmentOpens, TreesGrown, ZChecked, Root;
    FirstMessages(c, ev, a, s);
    forall k | 0 <= k < |c.commitments| ensures CommitmentOpens(c, ev, k) {
      CommitmentsOpen(c, ev, a, s, k);
    }
    forall i, j | 0 <= i < |ev| && 0 <= j < |ev[i].zs|
      ensures Root(c.q, InZ(c, Part(c, ev, 0, false), Part(c, ev, 0, true), ValuesOf(c, ev, 0), ev[i].y), ev[i].zs[j].z)
    {
      var f := ev[i].zs[j];
      assert YShaped(c, ev[i]) && YAccepted(c, a, s, ev[i]);
      assert ZShaped(c, f) && ZAccepted(c, a, s, ev[i].y, f);
      assert !BrokenAt(c, ev, ev[i].y, f);
      ConstantIsValues(c, ev, a, s, ev[i].y, f);
      InZRoot(c, Part(c, ev, 0, false), Part(c, ev, 0, true), ValuesOf(c, ev, 0), ev[i].y, f.z);
    }
  }

  /**
    Knowledge soundness of the range proof: every commitment opens to a number of the proved width,
    computed from the answers, or something computed from the answers is a relation between the bases.
   */
  lemma Sound(c: Claim, ev: Evidence)
    requires Sane(c) && Accepted(c, ev)
    ensures WellShaped(c, ev) && |ev| > 0
    ensures Broken(c, ev) || forall k :: 0 <= k < |c.commitments| ==> InRangeOpening(c, ev, k)
  {
    hide Inner, FirstOf, ValuesOf, BrokenAt, YAccepted, Identity, Part, Shared, Broken, BlockValues;
    var a: Point, s: Point :| Shared(c, ev, a, s);
    SharedShape(c, ev, a, s);
    NonEmptyEvidence(c);
    if !Broken(c, ev) {
      IdentityHolds(c, ev, a, s);
      var aL, values := Part(c, ev, 0, false), ValuesOf(c, ev, 0);
      BitsFollow(c, ev, aL, Part(c, ev, 0, true), values);
      var bits := BitVector(c, ev);
      BlocksBound(bits, c.padded, c.bits);
      forall i | 0 <= i < |aL| ensures Cong(c.q, bits[i], aL[i]) {
        ModCong(c.q, aL[i]);
      }
      BlocksCong(c.q, bits, aL, c.padded, c.bits);
      forall k | 0 <= k < |c.commitments| ensures InRangeOpening(c, ev, k) {
        CommitmentsOpen(c, ev, a, s, k);
        SwapValue(c.q, c.commitments[k], c.bases.value, c.bases.blind, values[k], Value(c, ev, k), Blinding(c, ev, k));
      }
    }
  }

  lemma SharedShape(c: Claim, ev: Evidence, a: Point, s: Point)
    requires Sane(c) && Shared(c, ev, a, s)
    ensures WellShaped(c, ev) && DistinctMod(c.q, Ys(ev))
    ensures forall i :: 0 <= i < |ev| ==> DistinctMod(c.q, Zs(ev[i], |ev[i].zs|))
  {
    hide ZAccepted;
    forall i | 0 <= i < |ev| ensures DistinctMod(c.q, Zs(ev[i], |ev[i].zs|)) {
      assert YAccepted(c, a, s, ev[i]);
    }
  }

  lemma SwapValue(q: int, point: int, V: int, B: int, v: int, w: int, b: int)
    requires q > 0 && Cong(q, point, V * v + B * b) && Cong(q, w, v)
    ensures Cong(q, point, V * w + B * b)
  {
    CongMulLeft(q, V, w, v);
    CongAdd(q, V * w, V * v, B * b, B * b);
  }
}
