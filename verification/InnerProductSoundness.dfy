/**
  Knowledge soundness of the inner-product argument.  From accepted proofs that form a tree, four
  challenges with different squares per round, two vectors are computed that open the commitment with
  their inner product; otherwise one of the vectors computed on the way is a relation between the
  generators.  Everything computed is a function of challenges and answers, never of points.
 */
module InnerProductSoundness {
  import opened Common
  import opened Modular
  import opened Bits
  import opened Vectors
  import opened Polynomials
  import opened Interpolation
  import IPA = InnerProductArgument

  /** The challenges and final answers of a tree of proofs. */
  datatype Tree = Leaf(a: Scalar, b: Scalar) | Node(xs: seq<int>, kids: seq<Tree>)

  predicate Full(tree: Tree, k: nat)
    decreases k
  {
    if k == 0 then tree.Leaf?
    else tree.Node? && |tree.xs| == |tree.kids| == 4 && forall j :: 0 <= j < 4 ==> Full(tree.kids[j], k - 1)
  }

  /** The generators of one level in a row. */
  function Row(g: seq<Point>, h: seq<Point>, u: Point): (r: Vec)
    ensures |r| == |g| + |h| + 1
  {
    g + h + [u]
  }

  // ---------------------------------------------------------------- the tree of accepted proofs

  /** Every path of the tree is an accepted proof, with round points that only depend on the path so far. */
  ghost predicate Grown(q: int, tree: Tree, k: nat, g: seq<Point>, h: seq<Point>, u: Point, p: Point)
    requires q > 1
    decreases k, 0
  {
    Full(tree, k) && |g| == |h| == Pow2(k) &&
    if k == 0 then Cong(q, p, tree.a * g[0] + tree.b * h[0] + tree.a * tree.b * u)
    else exists left: Point, right: Point :: Round(q, tree, k, g, h, u, p, left, right)
  }

  ghost predicate Round(q: int, tree: Tree, k: nat, g: seq<Point>, h: seq<Point>, u: Point, p: Point, left: Point, right: Point)
    requires q > 1 && k > 0 && Full(tree, k) && |g| == |h| == Pow2(k)
    decreases k - 1, 1
  {
    DistinctMod(q, IPA.Squares(tree.xs)) &&
    forall j :: 0 <= j < 4 ==>
      tree.xs[j] % q != 0 &&
      Grown(q, tree.kids[j], k - 1, IPA.Fold(q, Inv(q, tree.xs[j]), tree.xs[j], g),
            IPA.Fold(q, tree.xs[j], Inv(q, tree.xs[j]), h), u,
            IPA.NextCommitment(q, p, tree.xs[j], Inv(q, tree.xs[j]), left, right))
  }

  // ---------------------------------------------------------------- what is computed

  /** A representation over folded generators, as one over the generators before the fold. */
  function PullBack(q: int, x: int, r: Vec, n: nat): (s: Vec)
    requires q > 1 && |r| == 2 * n + 1
    ensures |s| == 4 * n + 1
  {
    var y := Inv(q, x);
    Scale(y, r[..n]) + Scale(x, r[..n]) + (Scale(x, r[n..2 * n]) + Scale(y, r[n..2 * n])) + [r[2 * n]]
  }

  /** What an opening of the next commitment says about the present one, times the squared challenge. */
  function Lifted(q: int, x: int, a: Vec, b: Vec): (s: Vec)
    requires q > 1 && |a| == |b|
    ensures |s| == 4 * |a| + 1
  {
    Scale(x * x, PullBack(q, x, a + b + [Inner(a, b)], |a|))
  }

  /** The opening computed from the tree: both vectors in a row. */
  function Witness(q: int, tree: Tree, k: nat): (w: (Vec, Vec))
    requires q > 1 && Full(tree, k)
    ensures |w.0| == |w.1| == Pow2(k)
    decreases k, 0
  {
    if k == 0 then ([tree.a], [tree.b])
    else
      var p, n := Part(q, tree, k, 1), Pow2(k);
      (p[..n], p[n..2 * n])
  }

  function Lifts(q: int, tree: Tree, k: nat): (r: seq<Vec>)
    requires q > 1 && k > 0 && Full(tree, k)
    ensures |r| == 4 && forall j :: 0 <= j < 4 ==> |r[j]| == 2 * Pow2(k) + 1
    decreases k - 1, 1
  {
    seq(4, j requires 0 <= j < 4 => Lifted(q, tree.xs[j], Witness(q, tree.kids[j], k - 1).0, Witness(q, tree.kids[j], k - 1).1))
  }

  /** From the first three answers: the representations of the right point, the commitment and the left point. */
  function Part(q: int, tree: Tree, k: nat, i: nat): (r: Vec)
    requires q > 1 && k > 0 && Full(tree, k) && i < 3
    ensures |r| == 2 * Pow2(k) + 1
    decreases k - 1, 2
  {
    Coefficient(q, IPA.Squares(tree.xs)[..3], Lifts(q, tree, k)[..3], 2 * Pow2(k) + 1, i)
  }

  /** `a + x*b + x*x*c` */
  function At(a: Vec, b: Vec, c: Vec, x: int): (r: Vec)
    requires |a| == |b| == |c|
    ensures |r| == |a|
  {
    Plus(a, Plus(Scale(x, b), Scale(x * x, c)))
  }

  /** What the fourth answer says beyond the first three. */
  function Gap(q: int, tree: Tree, k: nat): (r: Vec)
    requires q > 1 && k > 0 && Full(tree, k)
    ensures |r| == 2 * Pow2(k) + 1
  {
    var x := tree.xs[3] * tree.xs[3];
    Minus(Lifts(q, tree, k)[3], At(Part(q, tree, k, 0), Part(q, tree, k, 1), Part(q, tree, k, 2), x))
  }

  /** The vectors computed on the way: the gap of every node, over the generators at the root. */
  ghost predicate Computed(q: int, tree: Tree, k: nat, r: Vec)
    requires q > 1 && Full(tree, k)
    decreases k
  {
    k > 0 &&
    (r == Gap(q, tree, k) ||
     exists j, s: Vec :: 0 <= j < 4 && |s| == 2 * Pow2(k - 1) + 1 && Computed(q, tree.kids[j], k - 1, s) &&
       r == PullBack(q, tree.xs[j], s, Pow2(k - 1)))
  }

  // ---------------------------------------------------------------- folds and representations

  lemma {:induction false} InnerThree(a: Vec, b: Vec, c: int, x: Vec, y: Vec, z: int)
    requires |a| == |x| && |b| == |y|
    ensures Inner(a + b + [c], x + y + [z]) == Inner(a, x) + Inner(b, y) + c * z
  {
    hide Inner;
    InnerConcat(a + b, x + y, [c], [z]);
    InnerConcat(a, x, b, y);
    IPA.InnerSingle([c], [z]);
  }

  lemma FoldedInner(q: int, c: int, d: int, v: Vec, w: Vec)
    requires q > 0 && |v| == 2 * |w|
    ensures Cong(q, Inner(IPA.Fold(q, c, d, v), w), Inner(v, Scale(c, w) + Scale(d, w)))
  {
    hide Inner, IPA.FoldEntry;
    var n := |w|;
    IPA.FoldCong(q, c, d, v);
    CongVRefl(q, w);
    InnerCong(q, IPA.Fold(q, c, d, v), Plus(Scale(c, v[..n]), Scale(d, v[n..])), w, w);
    IPA.InnerScaledHalves(c, d, v[..n], v[n..], w);
    assert v == v[..n] + v[n..];
  }

  /** Folding the generators or pulling the representation back gives the same point. */
  lemma PullBackInner(q: int, x: int, g: seq<Point>, h: seq<Point>, u: Point, r: Vec, n: nat)
    requires q > 1 && |r| == 2 * n + 1 && |g| == |h| == 2 * n
    ensures var y := Inv(q, x);
            Cong(q, Inner(Row(IPA.Fold(q, y, x, g), IPA.Fold(q, x, y, h), u), r), Inner(Row(g, h, u), PullBack(q, x, r, n)))
  {
    hide Inner, IPA.Fold;
    var y := Inv(q, x);
    var a, b := r[..n], r[n..2 * n];
    assert r == a + b + [r[2 * n]];
    var g', h' := IPA.Fold(q, y, x, g), IPA.Fold(q, x, y, h);
    FoldedInner(q, y, x, g, a);
    FoldedInner(q, x, y, h, b);
    InnerThree(g', h', u, a, b, r[2 * n]);
    InnerThree(g, h, u, Scale(y, a) + Scale(x, a), Scale(x, b) + Scale(y, b), r[2 * n]);
    var z := u * r[2 * n];
    CongAdd(q, Inner(g', a), Inner(g, Scale(y, a) + Scale(x, a)), Inner(h', b), Inner(h, Scale(x, b) + Scale(y, b)));
    CongAdd(q, Inner(g', a) + Inner(h', b), Inner(g, Scale(y, a) + Scale(x, a)) + Inner(h, Scale(x, b) + Scale(y, b)), z, z);
  }

  /** A relation between folded generators pulls back to one between the generators. */
  lemma PullBackRelation(q: int, x: int, g: seq<Point>, h: seq<Point>, u: Point, r: Vec, n: nat)
    requires Prime(q) && x % q != 0 && |g| == |h| == 2 * n
    requires var y := Inv(q, x); IsRelation(q, Row(IPA.Fold(q, y, x, g), IPA.Fold(q, x, y, h), u), r)
    ensures IsRelation(q, Row(g, h, u), PullBack(q, x, r, n))
  {
    hide Inner, IPA.Fold;
    PullBackInner(q, x, g, h, u, r, n);
    var s := PullBack(q, x, r, n);
    var i :| 0 <= i < |r| && r[i] % q != 0;
    NonZeroProduct(q, x, r[i]);
    var k := if i < n then n + i else if i < 2 * n then n + i else 4 * n;
    assert s[k] == if i < 2 * n then x * r[i] else r[i];
    assert s[k] % q != 0;
  }

  lemma NonZeroProduct(q: int, a: int, b: int)
    requires Prime(q) && a % q != 0 && b % q != 0
    ensures (a * b) % q != 0
  {
    if (a * b) % q == 0 {
      NoZeroDivisors(q, a, b);
    }
  }

  /** The pair opens the commitment together with its inner product. */
  ghost predicate Opens(q: int, g: seq<Point>, h: seq<Point>, u: Point, p: Point, a: Vec, b: Vec)
    requires q > 0 && |g| == |h| == |a| == |b|
  {
    Cong(q, p, Inner(g, a) + Inner(h, b) + Inner(a, b) * u)
  }

  lemma QuadraticEval(a: int, b: int, c: int, x: int)
    ensures Eval([a, b, c], x) == a + x * b + x * x * c
  {
    assert Eval([a, b, c], x) == a + x * Eval([b, c], x);
    assert Eval([b, c], x) == b + x * Eval([c], x);
    assert Eval([c], x) == c + x * Eval([], x);
    assert x * (b + x * c) == x * b + x * x * c;
  }

  /** An opening of the next commitment, lifted, represents the three points combined. */
  lemma LiftRepresents(q: int, x: int, g: seq<Point>, h: seq<Point>, u: Point, p: Point, left: Point, right: Point, a: Vec, b: Vec)
    requires Prime(q) && x % q != 0 && |g| == |h| == 2 * |a| && |a| == |b|
    requires var y := Inv(q, x);
             Opens(q, IPA.Fold(q, y, x, g), IPA.Fold(q, x, y, h), u, IPA.NextCommitment(q, p, x, y, left, right), a, b)
    ensures Cong(q, Eval([right, p, left], x * x), Inner(Row(g, h, u), Lifted(q, x, a, b)))
  {
    hide Inner, IPA.Fold, IPA.NextCommitment, PullBack;
    var y, X := Inv(q, x), x * x;
    var r := a + b + [Inner(a, b)];
    var next := IPA.NextCommitment(q, p, x, y, left, right);
    var g', h' := IPA.Fold(q, y, x, g), IPA.Fold(q, x, y, h);
    InnerThree(g', h', u, a, b, Inner(a, b));
    assert Inner(a, b) * u == u * Inner(a, b);
    PullBackInner(q, x, g, h, u, r, |a|);
    var s := PullBack(q, x, r, |a|);
    CongMulLeft(q, X, next, Inner(Row(g, h, u), s));
    InnerComm(Row(g, h, u), Scale(X, s));
    InnerScale(X, s, Row(g, h, u));
    InnerComm(Row(g, h, u), s);
    IPA.NextCommitmentCong(q, p, x, y, left, right);
    CongMulLeft(q, X, p + x * x * left + y * y * right, next);
    QuadraticEval(right, p, left, X);
    InvCorrect(q, x);
    SquaresCancel(q, x, y, p, left, right);
  }

  lemma SquaresCancel(q: int, x: int, y: int, p: int, left: int, right: int)
    requires q > 1 && (x * y) % q == 1
    ensures Cong(q, (x * x) * (p + x * x * left + y * y * right), right + (x * x) * p + (x * x) * (x * x) * left)
  {
    var X, t := x * x, x * y;
    ModSmall(q, 1);
    CongMul(q, t, 1, t, 1);
    UnitFactor(q, t * t, right);
    assert X * (y * y * right) == (t * t) * right by {
      assert X * (y * y) == t * t;
    }
    assert X * (p + X * left + y * y * right) == X * p + X * X * left + X * (y * y * right);
    CongAdd(q, X * p + X * X * left, X * p + X * X * left, (t * t) * right, right);
  }

  // ---------------------------------------------------------------- four answers

  /** At a node the interpolated parts give the lifted answer back. */
  lemma AtNode(q: int, tree: Tree, k: nat, j: nat)
    requires Prime(q) && k > 0 && Full(tree, k) && j < 3 && DistinctMod(q, IPA.Squares(tree.xs))
    ensures CongV(q, Lifts(q, tree, k)[j],
                  At(Part(q, tree, k, 0), Part(q, tree, k, 1), Part(q, tree, k, 2), tree.xs[j] * tree.xs[j]))
  {
    hide Interpolated, Lifts;
    var nodes, lifts := IPA.Squares(tree.xs)[..3], Lifts(q, tree, k)[..3];
    var width, x := 2 * Pow2(k) + 1, tree.xs[j] * tree.xs[j];
    var at := At(Part(q, tree, k, 0), Part(q, tree, k, 1), Part(q, tree, k, 2), x);
    forall c | 0 <= c < width ensures Cong(q, lifts[j][c], at[c]) {
      var p := Interpolated(q, nodes, Entries(lifts, width, c));
      InterpolatedEval(q, nodes, Entries(lifts, width, c), j);
      QuadraticEval(p[0], p[1], p[2], x);
      assert p == [p[0], p[1], p[2]];
    }
  }

  lemma {:induction false} CubicEval(a: int, b: int, c: int, d: int, x: int)
    ensures Eval([a, b, c, d], x) == a + x * (b + x * c + x * x * d)
  {
    QuadraticEval(b, c, d, x);
    assert [a, b, c, d][1..] == [b, c, d];
  }

  /** One entry of a lifted answer in the two halves. */
  ghost predicate TwoHalves(q: int, x: int, e: int, rl: int, pl: int, ll: int, rh: int, ph: int, lh: int)
    requires q > 1
  {
    var X := x * x;
    Cong(q, X * (Inv(q, x) * e), rl + X * pl + X * X * ll) && Cong(q, X * (x * e), rh + X * ph + X * X * lh)
  }

  lemma HalvesRoot(q: int, x: int, e: int, rl: int, pl: int, ll: int, rh: int, ph: int, lh: int)
    requires Prime(q) && x % q != 0 && TwoHalves(q, x, e, rl, pl, ll, rh, ph, lh)
    ensures Root(q, [-rh, rl - ph, pl - lh, ll], x * x)
  {
    var X, y := x * x, Inv(q, x);
    var low, high := rl + X * pl + X * X * ll, rh + X * ph + X * X * lh;
    InvCorrect(q, x);
    CongMulLeft(q, X, X * (y * e), low);
    UnitFactor(q, x * y, X * (x * e));
    Shuffle(x, y, e, X);
    CongSub(q, X * low, X * (x * e), X * (x * e), high);
    CongAdd(q, X * low - X * (x * e), X * (x * e) - high, X * (x * e), X * (x * e));
    CubicEval(-rh, rl - ph, pl - lh, ll, X);
    RootAlgebra(X, rl, pl, ll, rh, ph, lh);
    CongZero(q, X * low, high);
  }

  lemma Shuffle(x: int, y: int, e: int, X: int)
    requires X == x * x
    ensures X * (X * (y * e)) == (x * y) * (X * (x * e))
  {
    assert X * (y * e) == (x * y) * (x * e);
  }

  lemma RootAlgebra(X: int, rl: int, pl: int, ll: int, rh: int, ph: int, lh: int)
    ensures -rh + X * ((rl - ph) + X * (pl - lh) + X * X * ll) == X * (rl + X * pl + X * X * ll) - (rh + X * ph + X * X * lh)
  {
    assert X * (X * (pl - lh)) == X * (X * pl) - X * X * lh;
    assert X * ((rl - ph) + X * (pl - lh) + X * X * ll) == X * (rl - ph) + X * (X * (pl - lh)) + X * (X * X * ll);
    assert X * (rl + X * pl + X * X * ll) == X * rl + X * (X * pl) + X * (X * X * ll);
  }

  /** Four answers make an entry of the folded vector the fold of the two entries of the commitment's opening. */
  lemma FoldedEntry(q: int, xs: seq<int>, e: seq<int>, rl: int, pl: int, ll: int, rh: int, ph: int, lh: int)
    requires Prime(q) && |xs| == |e| == 4 && DistinctMod(q, IPA.Squares(xs))
    requires forall j :: 0 <= j < 4 ==> xs[j] % q != 0 && TwoHalves(q, xs[j], e[j], rl, pl, ll, rh, ph, lh)
    ensures forall j :: 0 <= j < 4 ==> Cong(q, e[j], xs[j] * pl + Inv(q, xs[j]) * ph)
  {
    hide TwoHalves;
    var p, squares := [-rh, rl - ph, pl - lh, ll], IPA.Squares(xs);
    forall j | 0 <= j < |squares| ensures Root(q, p, squares[j]) {
      HalvesRoot(q, xs[j], e[j], rl, pl, ll, rh, ph, lh);
    }
    TooManyRoots(q, p, squares);
    assert p[1] % q == 0 && p[3] % q == 0;
    CongZero(q, rl, ph);
    forall j | 0 <= j < 4 ensures Cong(q, e[j], xs[j] * pl + Inv(q, xs[j]) * ph) {
      SolveEntry(q, xs[j], e[j], rl, pl, ll, rh, ph, lh);
    }
  }

  lemma SolveEntry(q: int, x: int, e: int, rl: int, pl: int, ll: int, rh: int, ph: int, lh: int)
    requires Prime(q) && x % q != 0 && TwoHalves(q, x, e, rl, pl, ll, rh, ph, lh) && Cong(q, rl, ph) && ll % q == 0
    ensures Cong(q, e, x * pl + Inv(q, x) * ph)
  {
    var X, y := x * x, Inv(q, x);
    InvCorrect(q, x);
    ModSmall(q, 0);
    CongMulLeft(q, X * X, ll, 0);
    CongAdd(q, rl, ph, X * pl, X * pl);
    CongAdd(q, rl + X * pl, ph + X * pl, X * X * ll, 0);
    CongMulLeft(q, y, X * (y * e), ph + X * pl);
    var t := x * y;
    assert y * (X * (y * e)) == t * (t * e) by {
      assert X * (y * e) == x * (t * e);
    }
    UnitFactor(q, t, t * e);
    UnitFactor(q, t, e);
    assert y * (ph + X * pl) == y * ph + t * (x * pl) by {
      assert y * (X * pl) == t * (x * pl);
    }
    UnitFactor(q, t, x * pl);
    CongAdd(q, y * ph, y * ph, t * (x * pl), x * pl);
  }

  /** The answers of the four kids lift to one set of parts. */
  ghost predicate Consistent(q: int, xs: seq<int>, a: seq<Vec>, b: seq<Vec>, n: nat, r: Vec, p: Vec, l: Vec)
    requires q > 1
  {
    && |xs| == |a| == |b| == 4 && DistinctMod(q, IPA.Squares(xs)) && |r| == |p| == |l| == 4 * n + 1
    && forall j :: 0 <= j < 4 ==>
         xs[j] % q != 0 && |a[j]| == |b[j]| == n && CongV(q, Lifted(q, xs[j], a[j], b[j]), At(r, p, l, xs[j] * xs[j]))
  }

  function EntryOf(v: seq<Vec>, n: nat, i: nat): (r: seq<int>)
    requires i < n && forall j :: 0 <= j < |v| ==> |v[j]| == n
    ensures |r| == |v|
  {
    seq(|v|, j requires 0 <= j < |v| => v[j][i])
  }

  lemma LiftedEntry(q: int, x: int, a: Vec, b: Vec, i: nat)
    requires q > 1 && |a| == |b| && i < |a|
    ensures var s, y, n := Lifted(q, x, a, b), Inv(q, x), |a|;
            s[i] == x * x * (y * a[i]) && s[n + i] == x * x * (x * a[i]) &&
            s[2 * n + i] == x * x * (x * b[i]) && s[3 * n + i] == x * x * (y * b[i]) && s[4 * n] == x * x * Inner(a, b)
  {
    hide Inner;
    var r, n := a + b + [Inner(a, b)], |a|;
    assert r[..n] == a && r[n..2 * n] == b;
  }

  lemma HalvesOfConsistent(q: int, xs: seq<int>, a: seq<Vec>, b: seq<Vec>, n: nat, r: Vec, p: Vec, l: Vec, i: nat, j: nat)
    requires q > 1 && Consistent(q, xs, a, b, n, r, p, l) && i < n && j < 4
    ensures TwoHalves(q, xs[j], a[j][i], r[i], p[i], l[i], r[n + i], p[n + i], l[n + i])
    ensures TwoHalves(q, xs[j], b[j][i], r[3 * n + i], p[3 * n + i], l[3 * n + i], r[2 * n + i], p[2 * n + i], l[2 * n + i])
  {
    hide Lifted;
    LiftedEntry(q, xs[j], a[j], b[j], i);
    var s, at := Lifted(q, xs[j], a[j], b[j]), At(r, p, l, xs[j] * xs[j]);
    assert CongV(q, s, at);
    assert Cong(q, s[i], at[i]) && Cong(q, s[n + i], at[n + i]);
    assert Cong(q, s[2 * n + i], at[2 * n + i]) && Cong(q, s[3 * n + i], at[3 * n + i]);
  }

  /** The folded vectors are the folds of the commitment's opening. */
  lemma FoldsOfConsistent(q: int, xs: seq<int>, a: seq<Vec>, b: seq<Vec>, n: nat, r: Vec, p: Vec, l: Vec, j: nat)
    requires Prime(q) && Consistent(q, xs, a, b, n, r, p, l) && j < 4
    ensures var x, y := xs[j], Inv(q, xs[j]);
            CongV(q, a[j], Plus(Scale(x, p[..n]), Scale(y, p[n..2 * n]))) &&
            CongV(q, b[j], Plus(Scale(y, p[2 * n..3 * n]), Scale(x, p[3 * n..4 * n])))
  {
    var x, y := xs[j], Inv(q, xs[j]);
    var va, vb := Plus(Scale(x, p[..n]), Scale(y, p[n..2 * n])), Plus(Scale(y, p[2 * n..3 * n]), Scale(x, p[3 * n..4 * n]));
    forall i | 0 <= i < n ensures Cong(q, a[j][i], va[i]) && Cong(q, b[j][i], vb[i]) {
      EntriesOfConsistent(q, xs, a, b, n, r, p, l, j, i);
    }
  }

  lemma EntriesOfConsistent(q: int, xs: seq<int>, a: seq<Vec>, b: seq<Vec>, n: nat, r: Vec, p: Vec, l: Vec, j: nat, i: nat)
    requires Prime(q) && Consistent(q, xs, a, b, n, r, p, l) && j < 4 && i < n
    ensures var x, y := xs[j], Inv(q, xs[j]);
            Cong(q, a[j][i], x * p[i] + y * p[n + i]) && Cong(q, b[j][i], x * p[3 * n + i] + y * p[2 * n + i])
  {
    hide TwoHalves, CongV, Lifted, At;
    var ea, eb := EntryOf(a, n, i), EntryOf(b, n, i);
    forall k | 0 <= k < 4
      ensures TwoHalves(q, xs[k], ea[k], r[i], p[i], l[i], r[n + i], p[n + i], l[n + i])
      ensures TwoHalves(q, xs[k], eb[k], r[3 * n + i], p[3 * n + i], l[3 * n + i], r[2 * n + i], p[2 * n + i], l[2 * n + i])
    {
      HalvesOfConsistent(q, xs, a, b, n, r, p, l, i, k);
    }
    FoldedEntry(q, xs, ea, r[i], p[i], l[i], r[n + i], p[n + i], l[n + i]);
    FoldedEntry(q, xs, eb, r[3 * n + i], p[3 * n + i], l[3 * n + i], r[2 * n + i], p[2 * n + i], l[2 * n + i]);
  }

  /** The last entry of the commitment's opening is the inner product of the rest. */
  lemma ConsistentInner(q: int, xs: seq<int>, a: seq<Vec>, b: seq<Vec>, n: nat, r: Vec, p: Vec, l: Vec)
    requires Prime(q) && Consistent(q, xs, a, b, n, r, p, l)
    ensures Cong(q, p[4 * n], Inner(p[..2 * n], p[2 * n..4 * n]))
  {
    hide Inner, Consistent;
    ConsistentSizes(q, xs, a, b, n, r, p, l);
    var al, ah, bl, bh := p[..n], p[n..2 * n], p[2 * n..3 * n], p[3 * n..4 * n];
    var whole := Inner(al, bl) + Inner(ah, bh);
    var d := [Inner(ah, bl) - r[4 * n], whole - p[4 * n], Inner(al, bh) - l[4 * n]];
    forall j | 0 <= j < 4 ensures Root(q, d, IPA.Squares(xs)[j]) {
      ProductAt(q, xs, a, b, n, r, p, l, j);
      QuadraticEval(d[0], d[1], d[2], xs[j] * xs[j]);
      assert d == [d[0], d[1], d[2]];
    }
    TooManyRoots(q, d, IPA.Squares(xs));
    assert d[1] % q == 0;
    CongZero(q, whole, p[4 * n]);
    assert p[..2 * n] == al + ah && p[2 * n..4 * n] == bl + bh;
    InnerConcat(al, bl, ah, bh);
  }

  lemma ConsistentSizes(q: int, xs: seq<int>, a: seq<Vec>, b: seq<Vec>, n: nat, r: Vec, p: Vec, l: Vec)
    requires q > 1 && Consistent(q, xs, a, b, n, r, p, l)
    ensures |xs| == 4 && DistinctMod(q, IPA.Squares(xs)) && |r| == |p| == |l| == 4 * n + 1
  {}

  lemma ProductAt(q: int, xs: seq<int>, a: seq<Vec>, b: seq<Vec>, n: nat, r: Vec, p: Vec, l: Vec, j: nat)
    requires Prime(q) && Consistent(q, xs, a, b, n, r, p, l) && j < 4
    ensures var al, ah, bl, bh := p[..n], p[n..2 * n], p[2 * n..3 * n], p[3 * n..4 * n];
            var X := xs[j] * xs[j];
            ((Inner(ah, bl) - r[4 * n]) + X * (Inner(al, bl) + Inner(ah, bh) - p[4 * n]) + X * X * (Inner(al, bh) - l[4 * n])) % q == 0
  {
    hide Inner, Lifted, At, CongV, DistinctMod;
    var x, y := xs[j], Inv(q, xs[j]);
    var al, ah, bl, bh := p[..n], p[n..2 * n], p[2 * n..3 * n], p[3 * n..4 * n];
    FoldsOfConsistent(q, xs, a, b, n, r, p, l, j);
    var va, vb := Plus(Scale(x, al), Scale(y, ah)), Plus(Scale(y, bl), Scale(x, bh));
    InnerCong(q, a[j], va, b[j], vb);
    IPA.InnerOfHalves(x, y, al, ah, bl, bh);
    LastEntry(q, xs, a, b, n, r, p, l, j);
    InvCorrect(q, x);
    ProductAlgebra(q, x, y, Inner(a[j], b[j]), Inner(al, bl) + Inner(ah, bh), Inner(al, bh), Inner(ah, bl), r[4 * n], p[4 * n],
                   l[4 * n]);
  }

  lemma LastEntry(q: int, xs: seq<int>, a: seq<Vec>, b: seq<Vec>, n: nat, r: Vec, p: Vec, l: Vec, j: nat)
    requires q > 1 && Consistent(q, xs, a, b, n, r, p, l) && j < 4
    ensures var X := xs[j] * xs[j]; Cong(q, X * Inner(a[j], b[j]), r[4 * n] + X * p[4 * n] + X * X * l[4 * n])
  {
    hide Inner;
    var s, at := Lifted(q, xs[j], a[j], b[j]), At(r, p, l, xs[j] * xs[j]);
    assert s[4 * n] == xs[j] * xs[j] * Inner(a[j], b[j]);
    assert Cong(q, s[4 * n], at[4 * n]);
  }

  lemma ProductAlgebra(q: int, x: int, y: int, c: int, w: int, lh: int, hl: int, r: int, p: int, l: int)
    requires q > 1 && (x * y) % q == 1 && Cong(q, c, (x * y) * w + (x * x * lh + y * y * hl))
    requires var X := x * x; Cong(q, X * c, r + X * p + X * X * l)
    ensures var X := x * x; ((hl - r) + X * (w - p) + X * X * (lh - l)) % q == 0
  {
    var X, t := x * x, x * y;
    var e := t * w + (x * x * lh + y * y * hl);
    CongMulLeft(q, X, c, e);
    UnitFactor(q, t, X * w);
    ModSmall(q, 1);
    CongMul(q, t, 1, t, 1);
    UnitFactor(q, t * t, hl);
    ExpandProduct(x, y, w, lh, hl, X, t);
    CongAdd(q, t * (X * w), X * w, (t * t) * hl, hl);
    CongAdd(q, t * (X * w) + (t * t) * hl, X * w + hl, X * X * lh, X * X * lh);
    assert Cong(q, hl + X * w + X * X * lh, r + X * p + X * X * l);
    CongZero(q, hl + X * w + X * X * lh, r + X * p + X * X * l);
    assert X * (w - p) == X * w - X * p && X * X * (lh - l) == X * X * lh - X * X * l;
  }

  lemma ExpandProduct(x: int, y: int, w: int, lh: int, hl: int, X: int, t: int)
    requires X == x * x && t == x * y
    ensures X * (t * w + (x * x * lh + y * y * hl)) == t * (X * w) + (t * t) * hl + X * X * lh
  {
    assert X * (t * w) == t * (X * w);
    assert X * (y * y * hl) == (t * t) * hl by {
      assert X * (y * y) == t * t;
    }
    assert X * (x * x * lh) == X * X * lh;
  }

  // ---------------------------------------------------------------- soundness

  /** The kids of a node are opened by their witnesses. */
  ghost predicate KidsOpen(q: int, tree: Tree, k: nat, g: seq<Point>, h: seq<Point>, u: Point, p: Point, left: Point, right: Point)
    requires q > 1 && k > 0 && Full(tree, k) && |g| == |h| == Pow2(k)
  {
    DistinctMod(q, IPA.Squares(tree.xs)) &&
    forall j :: 0 <= j < 4 ==>
      tree.xs[j] % q != 0 &&
      Opens(q, IPA.Fold(q, Inv(q, tree.xs[j]), tree.xs[j], g), IPA.Fold(q, tree.xs[j], Inv(q, tree.xs[j]), h), u,
            IPA.NextCommitment(q, p, tree.xs[j], Inv(q, tree.xs[j]), left, right), Witness(q, tree.kids[j], k - 1).0,
            Witness(q, tree.kids[j], k - 1).1)
  }

  lemma LiftsRepresent(q: int, tree: Tree, k: nat, g: seq<Point>, h: seq<Point>, u: Point, p: Point, left: Point, right: Point, j: nat)
    requires Prime(q) && k > 0 && Full(tree, k) && |g| == |h| == Pow2(k) && j < 4
    requires KidsOpen(q, tree, k, g, h, u, p, left, right)
    ensures Cong(q, Eval([right, p, left], IPA.Squares(tree.xs)[j]), Inner(Row(g, h, u), Lifts(q, tree, k)[j]))
  {
    hide Inner, IPA.Fold, IPA.NextCommitment, Lifted, Opens, Eval, DistinctMod;
    LiftRepresents(q, tree.xs[j], g, h, u, p, left, right, Witness(q, tree.kids[j], k - 1).0, Witness(q, tree.kids[j], k - 1).1);
  }

  /** From the first three answers: the three points are represented by the parts. */
  lemma PartsRepresent(q: int, tree: Tree, k: nat, g: seq<Point>, h: seq<Point>, u: Point, p: Point, left: Point, right: Point, i: nat)
    requires Prime(q) && k > 0 && Full(tree, k) && |g| == |h| == Pow2(k) && i < 3
    requires KidsOpen(q, tree, k, g, h, u, p, left, right)
    ensures Cong(q, [right, p, left][i], Inner(Row(g, h, u), Part(q, tree, k, i)))
  {
    hide Inner, Lifts, Coefficient, KidsOpen, Eval;
    var nodes := IPA.Squares(tree.xs);
    NodesDistinct(q, tree, k, g, h, u, p, left, right);
    forall j | 0 <= j < 3 ensures Cong(q, Eval([right, p, left], nodes[..3][j]), Inner(Row(g, h, u), Lifts(q, tree, k)[..3][j])) {
      LiftsRepresent(q, tree, k, g, h, u, p, left, right, j);
    }
    CoefficientRepresents(q, nodes[..3], Row(g, h, u), Lifts(q, tree, k)[..3], [right, p, left], i);
  }

  lemma NodesDistinct(q: int, tree: Tree, k: nat, g: seq<Point>, h: seq<Point>, u: Point, p: Point, left: Point, right: Point)
    requires q > 1 && k > 0 && Full(tree, k) && |g| == |h| == Pow2(k) && KidsOpen(q, tree, k, g, h, u, p, left, right)
    ensures DistinctMod(q, IPA.Squares(tree.xs)) && |tree.xs| == 4 && DistinctMod(q, IPA.Squares(tree.xs)[..3])
  {}

  lemma InnerAt(bases: Vec, a: Vec, b: Vec, c: Vec, x: int)
    requires |bases| == |a| == |b| == |c|
    ensures Inner(bases, At(a, b, c, x)) == Inner(bases, a) + x * Inner(bases, b) + x * x * Inner(bases, c)
  {
    hide Inner;
    var rest := Plus(Scale(x, b), Scale(x * x, c));
    InnerComm(bases, At(a, b, c, x));
    InnerPlus(a, rest, bases);
    InnerHalves(x, x * x, b, c, bases);
    InnerComm(bases, a);
    InnerComm(bases, b);
    InnerComm(bases, c);
  }

  /** The fourth answer agrees with the parts, or the gap is a relation. */
  lemma FourthAnswer(q: int, tree: Tree, k: nat, g: seq<Point>, h: seq<Point>, u: Point, p: Point, left: Point, right: Point)
    requires Prime(q) && k > 0 && Full(tree, k) && |g| == |h| == Pow2(k)
    requires KidsOpen(q, tree, k, g, h, u, p, left, right)
    ensures IsRelation(q, Row(g, h, u), Gap(q, tree, k)) ||
            CongV(q, Lifts(q, tree, k)[3],
                  At(Part(q, tree, k, 0), Part(q, tree, k, 1), Part(q, tree, k, 2), tree.xs[3] * tree.xs[3]))
  {
    hide Inner, Lifts, Part, KidsOpen, At, IsRelation, CongV;
    NodesDistinct(q, tree, k, g, h, u, p, left, right);
    var x, row := tree.xs[3] * tree.xs[3], Row(g, h, u);
    var a, b, c := Part(q, tree, k, 0), Part(q, tree, k, 1), Part(q, tree, k, 2);
    PartsRepresent(q, tree, k, g, h, u, p, left, right, 0);
    PartsRepresent(q, tree, k, g, h, u, p, left, right, 1);
    PartsRepresent(q, tree, k, g, h, u, p, left, right, 2);
    LiftsRepresent(q, tree, k, g, h, u, p, left, right, 3);
    QuadraticEval(right, p, left, x);
    InnerAt(row, a, b, c, x);
    CongMulLeft(q, x, p, Inner(row, b));
    CongMulLeft(q, x * x, left, Inner(row, c));
    CongAdd(q, right, Inner(row, a), x * p, x * Inner(row, b));
    CongAdd(q, right + x * p, Inner(row, a) + x * Inner(row, b), x * x * left, x * x * Inner(row, c));
    TwoRepresentations(q, row, Eval([right, p, left], x), Lifts(q, tree, k)[3], At(a, b, c, x));
  }

  /** Kids that open make the node open, or its gap is a relation. */
  lemma NodeOpens(q: int, tree: Tree, k: nat, g: seq<Point>, h: seq<Point>, u: Point, p: Point, left: Point, right: Point)
    requires Prime(q) && k > 0 && Full(tree, k) && |g| == |h| == Pow2(k)
    requires KidsOpen(q, tree, k, g, h, u, p, left, right)
    ensures IsRelation(q, Row(g, h, u), Gap(q, tree, k)) ||
            Opens(q, g, h, u, p, Witness(q, tree, k).0, Witness(q, tree, k).1)
  {
    hide Inner, Lifts, Part, KidsOpen, At, Gap, IsRelation, Lifted;
    FourthAnswer(q, tree, k, g, h, u, p, left, right);
    if !IsRelation(q, Row(g, h, u), Gap(q, tree, k)) {
      AllConsistent(q, tree, k, g, h, u, p, left, right);
      var v, n := Part(q, tree, k, 1), Pow2(k - 1);
      ConsistentInner(q, tree.xs, KidVectors(q, tree, k, true), KidVectors(q, tree, k, false), n, Part(q, tree, k, 0), v,
                      Part(q, tree, k, 2));
      PartsRepresent(q, tree, k, g, h, u, p, left, right, 1);
      var a, b := v[..2 * n], v[2 * n..4 * n];
      assert v == a + b + [v[4 * n]];
      InnerThree(g, h, u, a, b, v[4 * n]);
      CongMulLeft(q, u, v[4 * n], Inner(a, b));
      assert u * Inner(a, b) == Inner(a, b) * u;
      CongAdd(q, Inner(g, a) + Inner(h, b), Inner(g, a) + Inner(h, b), u * v[4 * n], u * Inner(a, b));
    }
  }

  function KidVectors(q: int, tree: Tree, k: nat, first: bool): (r: seq<Vec>)
    requires q > 1 && k > 0 && Full(tree, k)
    ensures |r| == 4 && forall j :: 0 <= j < 4 ==> |r[j]| == Pow2(k - 1)
  {
    seq(4, j requires 0 <= j < 4 => if first then Witness(q, tree.kids[j], k - 1).0 else Witness(q, tree.kids[j], k - 1).1)
  }

  lemma AllConsistent(q: int, tree: Tree, k: nat, g: seq<Point>, h: seq<Point>, u: Point, p: Point, left: Point, right: Point)
    requires Prime(q) && k > 0 && Full(tree, k) && |g| == |h| == Pow2(k)
    requires KidsOpen(q, tree, k, g, h, u, p, left, right)
    requires CongV(q, Lifts(q, tree, k)[3],
                   At(Part(q, tree, k, 0), Part(q, tree, k, 1), Part(q, tree, k, 2), tree.xs[3] * tree.xs[3]))
    ensures Consistent(q, tree.xs, KidVectors(q, tree, k, true), KidVectors(q, tree, k, false), Pow2(k - 1), Part(q, tree, k, 0),
                       Part(q, tree, k, 1), Part(q, tree, k, 2))
  {
    hide Inner, Part, At, Lifted, CongV, Opens, IPA.Fold, IPA.NextCommitment;
    var a, b := KidVectors(q, tree, k, true), KidVectors(q, tree, k, false);
    forall j | 0 <= j < 4
      ensures CongV(q, Lifted(q, tree.xs[j], a[j], b[j]),
                    At(Part(q, tree, k, 0), Part(q, tree, k, 1), Part(q, tree, k, 2), tree.xs[j] * tree.xs[j]))
    {
      assert Lifts(q, tree, k)[j] == Lifted(q, tree.xs[j], a[j], b[j]);
      if j < 3 {
        AtNode(q, tree, k, j);
      }
    }
  }

  /**
    Knowledge soundness: the vectors computed from a tree of accepted proofs open the commitment with
    their inner product, or something computed on the way is a relation between the generators.
   */
  lemma {:induction false} WitnessOpens(q: int, tree: Tree, k: nat, g: seq<Point>, h: seq<Point>, u: Point, p: Point)
    requires Prime(q) && Grown(q, tree, k, g, h, u, p)
    ensures |g| == |h| == Pow2(k)
    ensures (exists r :: Computed(q, tree, k, r) && IsRelation(q, Row(g, h, u), r)) ||
            Opens(q, g, h, u, p, Witness(q, tree, k).0, Witness(q, tree, k).1)
    decreases k
  {
    hide Inner, IPA.Fold, IPA.NextCommitment, Opens, Gap, IsRelation;
    if k == 0 {
      LeafOpens(q, tree, g, h, u, p);
    } else {
      var left: Point, right: Point :| Round(q, tree, k, g, h, u, p, left, right);
      if KidsOpen(q, tree, k, g, h, u, p, left, right) {
        NodeOpens(q, tree, k, g, h, u, p, left, right);
        assert Computed(q, tree, k, Gap(q, tree, k));
      } else {
        var j :| 0 <= j < 4 && !Opens(q, IPA.Fold(q, Inv(q, tree.xs[j]), tree.xs[j], g),
                                      IPA.Fold(q, tree.xs[j], Inv(q, tree.xs[j]), h), u,
                                      IPA.NextCommitment(q, p, tree.xs[j], Inv(q, tree.xs[j]), left, right),
                                      Witness(q, tree.kids[j], k - 1).0, Witness(q, tree.kids[j], k - 1).1);
        var x, y := tree.xs[j], Inv(q, tree.xs[j]);
        var g', h' := IPA.Fold(q, y, x, g), IPA.Fold(q, x, y, h);
        WitnessOpens(q, tree.kids[j], k - 1, g', h', u, IPA.NextCommitment(q, p, x, y, left, right));
        var r :| Computed(q, tree.kids[j], k - 1, r) && IsRelation(q, Row(g', h', u), r);
        PullBackRelation(q, x, g, h, u, r, Pow2(k - 1));
        RelationSize(q, Row(g', h', u), r);
        assert Computed(q, tree, k, PullBack(q, x, r, Pow2(k - 1)));
      }
    }
  }

  lemma RelationSize(q: int, bases: Vec, r: Vec)
    requires q > 0 && IsRelation(q, bases, r)
    ensures |r| == |bases|
  {}

  lemma LeafOpens(q: int, tree: Tree, g: seq<Point>, h: seq<Point>, u: Point, p: Point)
    requires q > 1 && Grown(q, tree, 0, g, h, u, p)
    ensures Opens(q, g, h, u, p, [tree.a], [tree.b])
  {
    IPA.InnerSingle(g, [tree.a]);
    IPA.InnerSingle(h, [tree.b]);
    IPA.InnerSingle([tree.a], [tree.b]);
  }
}
