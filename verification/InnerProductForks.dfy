/**
  Accepted inner-product proofs whose challenges part where their paths part make the tree that the
  extraction of openings works on.
 */
module InnerProductForks {
  import opened Common
  import opened Modular
  import opened Bits
  import opened Vectors
  import opened Polynomials
  import opened InnerProductSoundness
  import IPA = InnerProductArgument

  /** Which challenge was asked in every round. */
  type Path = seq<nat>

  predicate Choices(c: Path, k: nat) {
    |c| == k && forall i :: 0 <= i < k ==> c[i] < 4
  }

  /** The challenges of a proof and the proof. */
  datatype End = End(xs: seq<int>, proof: IPA.Proof)

  predicate Sized(e: End, k: nat) {
    |e.xs| == |e.proof.left| == |e.proof.right| == k
  }

  /** The paths share their first `i` choices. */
  predicate Meet(c: Path, d: Path, i: nat) {
    i < |c| == |d| && c[..i] == d[..i]
  }

  /** Round `i` has the same points, and the same challenge exactly when the choice is the same. */
  ghost predicate SameRound(q: int, e: End, e': End, i: nat, same: bool)
    requires q > 0
  {
    i < |e.xs| && i < |e'.xs| && Sized(e, |e.xs|) && Sized(e', |e'.xs|) &&
    e.proof.left[i] == e'.proof.left[i] && e.proof.right[i] == e'.proof.right[i] &&
    if same then e.xs[i] == e'.xs[i] else !Cong(q, e.xs[i] * e.xs[i], e'.xs[i] * e'.xs[i])
  }

  /** Proofs that part where their paths part. */
  ghost predicate Forks(q: int, f: Path -> End, k: nat)
    requires q > 0
  {
    (forall c :: Choices(c, k) ==> Sized(f(c), k) && forall i :: 0 <= i < k ==> f(c).xs[i] % q != 0) &&
    forall c, d, i: nat :: Choices(c, k) && Choices(d, k) && Meet(c, d, i) ==> SameRound(q, f(c), f(d), i, c[i] == d[i])
  }

  function Tail(e: End): End {
    if |e.xs| == 0 || |e.proof.left| == 0 || |e.proof.right| == 0 then e
    else End(e.xs[1..], IPA.Proof(e.proof.left[1..], e.proof.right[1..], e.proof.a, e.proof.b))
  }

  function Sub(f: Path -> End, j: nat): Path -> End {
    (c: Path) => Tail(f([j] + c))
  }

  function Zeros(k: nat): (c: Path)
    ensures Choices(c, k)
  {
    seq(k, i => 0)
  }

  /** The first challenge after choice `j`. */
  function Head(f: Path -> End, k: nat, j: nat): int
    requires k > 0
  {
    var xs := f([j] + Zeros(k - 1)).xs;
    if |xs| == 0 then 0 else xs[0]
  }

  /** The challenges and answers of the proofs as a tree. */
  function TreeOf(f: Path -> End, k: nat): (t: Tree)
    ensures Full(t, k)
    decreases k
  {
    if k == 0 then Leaf(f([]).proof.a, f([]).proof.b)
    else Node(seq(4, j requires 0 <= j < 4 => Head(f, k, j)), seq(4, j requires 0 <= j < 4 => TreeOf(Sub(f, j), k - 1)))
  }

  lemma SubRound(q: int, f: Path -> End, k: nat, j: nat, c: Path, d: Path, i: nat)
    requires q > 0 && k > 0 && j < 4 && Forks(q, f, k) && Choices(c, k - 1) && Choices(d, k - 1) && Meet(c, d, i)
    ensures SameRound(q, Sub(f, j)(c), Sub(f, j)(d), i, c[i] == d[i])
  {
    hide SameRound, Tail;
    var c', d' := [j] + c, [j] + d;
    assert Choices(c', k) && Choices(d', k);
    assert c'[..i + 1] == [j] + c[..i] && d'[..i + 1] == [j] + d[..i];
    assert Meet(c', d', i + 1);
    assert SameRound(q, f(c'), f(d'), i + 1, c'[i + 1] == d'[i + 1]);
    TailRound(q, f(c'), f(d'), i, c[i] == d[i]);
  }

  lemma TailRound(q: int, e: End, e': End, i: nat, same: bool)
    requires q > 0 && SameRound(q, e, e', i + 1, same)
    ensures SameRound(q, Tail(e), Tail(e'), i, same)
  {
    hide Cong;
  }

  lemma SubSized(q: int, f: Path -> End, k: nat, j: nat, c: Path)
    requires q > 0 && k > 0 && j < 4 && Forks(q, f, k) && Choices(c, k - 1)
    ensures Sized(Sub(f, j)(c), k - 1) && forall i :: 0 <= i < k - 1 ==> Sub(f, j)(c).xs[i] % q != 0
  {
    assert Choices([j] + c, k);
  }

  lemma SubForks(q: int, f: Path -> End, k: nat, j: nat)
    requires q > 0 && k > 0 && j < 4 && Forks(q, f, k)
    ensures Forks(q, Sub(f, j), k - 1)
  {
    hide SameRound, Choices, Meet, Sub;
    var g := Sub(f, j);
    forall c | Choices(c, k - 1) ensures Sized(g(c), k - 1) && forall i :: 0 <= i < k - 1 ==> g(c).xs[i] % q != 0 {
      SubSized(q, f, k, j, c);
    }
    forall c, d, i: nat | Choices(c, k - 1) && Choices(d, k - 1) && Meet(c, d, i)
      ensures i < |c| && i < |d| && SameRound(q, g(c), g(d), i, c[i] == d[i])
    {
      MeetBounds(c, d, i);
      SubRound(q, f, k, j, c, d, i);
    }
  }

  lemma MeetBounds(c: Path, d: Path, i: nat)
    requires Meet(c, d, i)
    ensures i < |c| && i < |d|
  {}

  ghost predicate EndAccepts(q: int, e: End, k: nat, g: seq<Point>, h: seq<Point>, u: Point, p: Point)
    requires q > 1 && |g| == |h| == Pow2(k)
  {
    Sized(e, k) && IPA.RecursiveAccepts(q, e.xs, g, h, u, p, e.proof.left, e.proof.right, e.proof.a, e.proof.b)
  }

  lemma HeadIs(q: int, f: Path -> End, k: nat, c: Path)
    requires q > 0 && k > 0 && Forks(q, f, k) && Choices(c, k)
    ensures Sized(f(c), k) && f(c).xs[0] == Head(f, k, c[0]) && f(c).xs[0] % q != 0
    ensures f(c).proof.left[0] == f(Zeros(k)).proof.left[0] && f(c).proof.right[0] == f(Zeros(k)).proof.right[0]
    ensures Sized(f(Zeros(k)), k)
  {
    var d := [c[0]] + Zeros(k - 1);
    assert Choices(d, k);
    assert Meet(c, d, 0) && Meet(c, Zeros(k), 0);
    assert SameRound(q, f(c), f(d), 0, c[0] == d[0]);
    assert SameRound(q, f(c), f(Zeros(k)), 0, c[0] == Zeros(k)[0]);
  }

  /** One round of an accepted proof. */
  lemma EndStep(q: int, f: Path -> End, k: nat, j: nat, c: Path, g: seq<Point>, h: seq<Point>, u: Point, p: Point)
    requires q > 1 && k > 0 && j < 4 && Forks(q, f, k) && Choices(c, k - 1) && |g| == |h| == Pow2(k)
    requires EndAccepts(q, f([j] + c), k, g, h, u, p)
    ensures var x, z := Head(f, k, j), f(Zeros(k)).proof;
            |z.left| > 0 && |z.right| > 0 &&
            EndAccepts(q, Sub(f, j)(c), k - 1, IPA.Fold(q, Inv(q, x), x, g), IPA.Fold(q, x, Inv(q, x), h), u,
                       IPA.NextCommitment(q, p, x, Inv(q, x), z.left[0], z.right[0]))
  {
    hide IPA.Fold, IPA.NextCommitment, Forks;
    var d := [j] + c;
    assert Choices(d, k);
    HeadIs(q, f, k, d);
  }

  lemma HeadsDiffer(q: int, f: Path -> End, k: nat)
    requires q > 0 && k > 0 && Forks(q, f, k)
    ensures DistinctMod(q, IPA.Squares(TreeOf(f, k).xs))
  {
    var xs := TreeOf(f, k).xs;
    forall i, j | 0 <= i < j < 4 ensures !Cong(q, xs[i] * xs[i], xs[j] * xs[j]) {
      var c, d := [i] + Zeros(k - 1), [j] + Zeros(k - 1);
      assert Choices(c, k) && Choices(d, k) && Meet(c, d, 0);
      HeadIs(q, f, k, c);
      HeadIs(q, f, k, d);
      assert SameRound(q, f(c), f(d), 0, c[0] == d[0]);
    }
  }

  /** Every proof of the family is accepted. */
  ghost predicate AllAccepted(q: int, f: Path -> End, k: nat, g: seq<Point>, h: seq<Point>, u: Point, p: Point)
    requires q > 1 && |g| == |h| == Pow2(k)
  {
    forall c :: Choices(c, k) ==> EndAccepts(q, f(c), k, g, h, u, p)
  }

  lemma Extends(j: nat, c: Path, k: nat)
    requires k > 0 && j < 4 && Choices(c, k - 1)
    ensures Choices([j] + c, k) && ([j] + c)[0] == j
  {}

  /** Choice `j` leaves a family of accepted proofs over the folded generators. */
  lemma SubAccepted(q: int, f: Path -> End, k: nat, j: nat, x: int, left: Point, right: Point, g: seq<Point>, h: seq<Point>,
                    u: Point, p: Point)
    requires q > 1 && k > 0 && j < 4 && Forks(q, f, k) && |g| == |h| == Pow2(k) && AllAccepted(q, f, k, g, h, u, p)
    requires x == Head(f, k, j) && Sized(f(Zeros(k)), k) && left == f(Zeros(k)).proof.left[0] && right == f(Zeros(k)).proof.right[0]
    ensures AllAccepted(q, Sub(f, j), k - 1, IPA.Fold(q, Inv(q, x), x, g), IPA.Fold(q, x, Inv(q, x), h), u,
                        IPA.NextCommitment(q, p, x, Inv(q, x), left, right))
  {
    hide IPA.Fold, IPA.NextCommitment, Forks, EndAccepts, Sub, Choices, Zeros, Head;
    var g', h' := IPA.Fold(q, Inv(q, x), x, g), IPA.Fold(q, x, Inv(q, x), h);
    var p' := IPA.NextCommitment(q, p, x, Inv(q, x), left, right);
    forall c | Choices(c, k - 1) ensures EndAccepts(q, Sub(f, j)(c), k - 1, g', h', u, p') {
      Extends(j, c, k);
      EndStep(q, f, k, j, c, g, h, u, p);
    }
  }

  /** Kid `j` of the tree is grown. */
  ghost predicate KidGrown(q: int, tree: Tree, k: nat, g: seq<Point>, h: seq<Point>, u: Point, p: Point, left: Point, right: Point,
                           j: nat)
    requires q > 1 && k > 0 && Full(tree, k) && |g| == |h| == Pow2(k) && j < 4
  {
    tree.xs[j] % q != 0 &&
    Grown(q, tree.kids[j], k - 1, IPA.Fold(q, Inv(q, tree.xs[j]), tree.xs[j], g),
          IPA.Fold(q, tree.xs[j], Inv(q, tree.xs[j]), h), u,
          IPA.NextCommitment(q, p, tree.xs[j], Inv(q, tree.xs[j]), left, right))
  }

  lemma KidsGrown(q: int, tree: Tree, k: nat, g: seq<Point>, h: seq<Point>, u: Point, p: Point, left: Point, right: Point)
    requires q > 1 && k > 0 && Full(tree, k) && |g| == |h| == Pow2(k) && DistinctMod(q, IPA.Squares(tree.xs))
    requires forall j :: 0 <= j < 4 ==> KidGrown(q, tree, k, g, h, u, p, left, right, j)
    ensures Grown(q, tree, k, g, h, u, p)
  {
    hide IPA.Fold, IPA.NextCommitment;
    forall j | 0 <= j < 4
      ensures tree.xs[j] % q != 0 &&
              Grown(q, tree.kids[j], k - 1, IPA.Fold(q, Inv(q, tree.xs[j]), tree.xs[j], g),
                    IPA.Fold(q, tree.xs[j], Inv(q, tree.xs[j]), h), u,
                    IPA.NextCommitment(q, p, tree.xs[j], Inv(q, tree.xs[j]), left, right))
    {
      assert KidGrown(q, tree, k, g, h, u, p, left, right, j);
    }
    assert Round(q, tree, k, g, h, u, p, left, right);
  }

  /** Accepted proofs that part where their paths part make a tree of accepted proofs. */
  lemma {:induction false} TreeGrown(q: int, f: Path -> End, k: nat, g: seq<Point>, h: seq<Point>, u: Point, p: Point)
    requires q > 1 && Forks(q, f, k) && |g| == |h| == Pow2(k) && AllAccepted(q, f, k, g, h, u, p)
    ensures Grown(q, TreeOf(f, k), k, g, h, u, p)
    decreases k
  {
    hide IPA.Fold, IPA.NextCommitment, Forks, AllAccepted, Head, Sub, Grown, Zeros, Choices, DistinctMod;
    if k == 0 {
      LeafGrown(q, f, g, h, u, p);
    } else {
      var tree, z := TreeOf(f, k), f(Zeros(k));
      HeadIs(q, f, k, Zeros(k));
      HeadsDiffer(q, f, k);
      var left, right := z.proof.left[0], z.proof.right[0];
      forall j | 0 <= j < 4 ensures KidGrown(q, tree, k, g, h, u, p, left, right, j) {
        var x := tree.xs[j];
        Extends(j, Zeros(k - 1), k);
        HeadIs(q, f, k, [j] + Zeros(k - 1));
        SubForks(q, f, k, j);
        SubAccepted(q, f, k, j, x, left, right, g, h, u, p);
        TreeGrown(q, Sub(f, j), k - 1, IPA.Fold(q, Inv(q, x), x, g), IPA.Fold(q, x, Inv(q, x), h), u,
                  IPA.NextCommitment(q, p, x, Inv(q, x), left, right));
      }
      KidsGrown(q, tree, k, g, h, u, p, left, right);
    }
  }

  lemma LeafGrown(q: int, f: Path -> End, g: seq<Point>, h: seq<Point>, u: Point, p: Point)
    requires q > 1 && |g| == |h| == 1 && AllAccepted(q, f, 0, g, h, u, p)
    ensures Grown(q, TreeOf(f, 0), 0, g, h, u, p)
  {
    assert Choices([], 0);
    assert EndAccepts(q, f([]), 0, g, h, u, p);
  }
}
