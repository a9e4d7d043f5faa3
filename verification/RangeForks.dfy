/**
  Accepted range proofs over one statement whose challenges part where their paths part: from them every
  commitment is opened to a number of the proved width, or a relation between the bases is computed.
 */
module RangeForks {
  import opened Common
  import opened Modular
  import opened Bits
  import opened Vectors
  import opened Polynomials
  import opened RangeVectors
  import opened RangeProof
  import opened RangeExtraction
  import opened RangeSoundness
  import opened InnerProductSoundness
  import opened InnerProductForks
  import IPA = InnerProductArgument

  /** What prover and verifier share. */
  datatype Public = Public(q: int, bases: Bases, statement: seq<int>, commitments: seq<Point>, bits: nat)

  /** A range proof together with the oracle it was made for. */
  datatype Run = Run(oracle: Oracle, proof: Proof)

  /** The padded count, and vectors of `2^rounds` entries. */
  ghost predicate Supported(p: Public, rounds: nat) {
    Prime(p.q) && Dimensions(|p.commitments|, p.bits).Some? && Dimensions(|p.commitments|, p.bits).value.1 == Pow2(rounds)
  }

  function ClaimOf(p: Public, rounds: nat): Claim
    requires Dimensions(|p.commitments|, p.bits).Some?
  {
    Claim(p.q, p.bases, p.commitments, Dimensions(|p.commitments|, p.bits).value.0, p.bits, rounds)
  }

  lemma ClaimIsSane(p: Public, rounds: nat)
    requires Supported(p, rounds)
    ensures Sane(ClaimOf(p, rounds))
  {
    DimensionsSound(|p.commitments|, p.bits);
  }

  // ---------------------------------------------------------------- the challenges of a run

  function Start(p: Public): Transcript {
    BaseTranscript(p.statement, p.commitments, |p.commitments|, p.bits)
  }

  function Y(p: Public, x: Run): int
    requires p.q > 0
  {
    ChallengeY(p.q, x.oracle, Start(p), x.proof.a, x.proof.s)
  }

  function Z(p: Public, x: Run): int
    requires p.q > 0
  {
    ChallengeZ(p.q, x.oracle, Start(p), x.proof.a, x.proof.s)
  }

  function X(p: Public, x: Run): int
    requires p.q > 0
  {
    ChallengeX(p.q, x.oracle, Start(p), x.proof.a, x.proof.s, x.proof.t1, x.proof.t2)
  }

  function MovesOf(p: Public, x: Run): Transcript
    requires p.q > 0
  {
    Moves(p.q, x.oracle, Start(p), x.proof.a, x.proof.s, x.proof.t1, x.proof.t2, x.proof.tauX, x.proof.mu, x.proof.tHat)
  }

  function W(p: Public, x: Run): int
    requires p.q > 0
  {
    ChallengeW(p.q, x.oracle, MovesOf(p, x))
  }

  /** The answers of a run after `x`, without its trees. */
  function FlatFork(p: Public, x: Run): XFork
    requires p.q > 0
  {
    XFork(X(p, x), x.proof.tauX, x.proof.mu, x.proof.tHat, [])
  }

  /** The commitment that the run's inner product is about. */
  function RebuiltOf(p: Public, rounds: nat, x: Run): Point
    requires p.q > 1 && Supported(p, rounds)
  {
    DimensionsSound(|p.commitments|, p.bits);
    Rebuilt(ClaimOf(p, rounds), x.proof.a, x.proof.s, Y(p, x), Z(p, x), FlatFork(p, x), W(p, x))
  }

  /** The challenges of the inner product and its proof. */
  function EndOf(p: Public, rounds: nat, x: Run): End
    requires p.q > 1 && Supported(p, rounds)
  {
    var inner := x.proof.inner;
    if |inner.left| != |inner.right| then End([], inner)
    else End(IPA.Challenges(p.q, x.oracle, MovesOf(p, x) + [RebuiltOf(p, rounds, x)], 0, inner.left, inner.right), inner)
  }

  ghost predicate RunAccepted(p: Public, x: Run)
    requires p.q > 1
  {
    Accepts(p.q, x.oracle, p.bases, p.statement, p.commitments, x.proof, p.bits)
  }

  // ---------------------------------------------------------------- the forest

  /** One `y` per vector entry, two more `z` than values, three `x`, two `w`, four challenges per round. */
  predicate In(p: Public, rounds: nat, c: Path)
    requires Dimensions(|p.commitments|, p.bits).Some?
  {
    |c| == 4 + rounds && c[0] < Pow2(rounds) && c[1] < Dimensions(|p.commitments|, p.bits).value.0 + 2 && c[2] < 3 && c[3] < 2 &&
    Choices(c[4..], rounds)
  }

  /** The messages sent before challenge number `e`. */
  predicate SameMessage(x: Proof, y: Proof, e: nat) {
    if e == 0 then x.a == y.a && x.s == y.s
    else if e == 2 then x.t1 == y.t1 && x.t2 == y.t2
    else if e == 3 then x.tauX == y.tauX && x.mu == y.mu && x.tHat == y.tHat
    else true
  }

  function Asked(p: Public, x: Run, e: nat): int
    requires p.q > 0
  {
    if e == 0 then Y(p, x) else if e == 1 then Z(p, x) else if e == 2 then X(p, x) else W(p, x)
  }

  /** At step `e` the runs have the same message, and the same challenge exactly when the choice is the same. */
  ghost predicate Agree(p: Public, rounds: nat, x: Run, y: Run, e: nat, same: bool)
    requires p.q > 1 && Supported(p, rounds)
  {
    if e < 4 then
      SameMessage(x.proof, y.proof, e) && if same then Asked(p, x, e) == Asked(p, y, e) else !Cong(p.q, Asked(p, x, e), Asked(p, y, e))
    else SameRound(p.q, EndOf(p, rounds, x), EndOf(p, rounds, y), e - 4, same)
  }

  /** Accepted runs that part where their paths part. */
  ghost predicate Forest(p: Public, rounds: nat, run: Path -> Run)
    requires p.q > 1 && Supported(p, rounds)
  {
    (forall c :: In(p, rounds, c) ==> RunAccepted(p, run(c))) &&
    forall c, d, e: nat :: In(p, rounds, c) && In(p, rounds, d) && Meet(c, d, e) ==> Agree(p, rounds, run(c), run(d), e, c[e] == d[e])
  }

  // ---------------------------------------------------------------- the evidence

  function Fill(prefix: Path, length: nat): (c: Path)
    requires |prefix| <= length
    ensures |c| == length && c[..|prefix|] == prefix
  {
    prefix + Zeros(length - |prefix|)
  }

  function At(rounds: nat, run: Path -> Run, prefix: Path): Run
    requires |prefix| <= 4
  {
    run(Fill(prefix, 4 + rounds))
  }

  function Ends(p: Public, rounds: nat, run: Path -> Run, prefix: Path): Path -> End
    requires p.q > 1 && Supported(p, rounds)
  {
    (c: Path) => EndOf(p, rounds, run(prefix + c))
  }

  function WOf(p: Public, rounds: nat, run: Path -> Run, prefix: Path): WFork
    requires p.q > 1 && Supported(p, rounds) && |prefix| == 4
  {
    WFork(W(p, At(rounds, run, prefix)), TreeOf(Ends(p, rounds, run, prefix), rounds))
  }

  function XOf(p: Public, rounds: nat, run: Path -> Run, prefix: Path): XFork
    requires p.q > 1 && Supported(p, rounds) && |prefix| == 3
  {
    var x := At(rounds, run, prefix);
    XFork(X(p, x), x.proof.tauX, x.proof.mu, x.proof.tHat, [WOf(p, rounds, run, prefix + [0]), WOf(p, rounds, run, prefix + [1])])
  }

  function ZOf(p: Public, rounds: nat, run: Path -> Run, prefix: Path): ZFork
    requires p.q > 1 && Supported(p, rounds) && |prefix| == 2
  {
    ZFork(Z(p, At(rounds, run, prefix)), seq(3, k requires 0 <= k < 3 => XOf(p, rounds, run, prefix + [k])))
  }

  function YOf(p: Public, rounds: nat, run: Path -> Run, prefix: Path): YFork
    requires p.q > 1 && Supported(p, rounds) && |prefix| == 1
  {
    var n := Dimensions(|p.commitments|, p.bits).value.0 + 2;
    YFork(Y(p, At(rounds, run, prefix)), seq(n, j requires 0 <= j < n => ZOf(p, rounds, run, prefix + [j])))
  }

  /** The challenges and answers of all runs, ordered by their paths. */
  function EvidenceOf(p: Public, rounds: nat, run: Path -> Run): Evidence
    requires p.q > 1 && Supported(p, rounds)
  {
    seq(Pow2(rounds), i requires 0 <= i < Pow2(rounds) => YOf(p, rounds, run, [i]))
  }

  // ---------------------------------------------------------------- one accepted run

  lemma {:induction false} ChallengesReduced(q: int, oracle: Oracle, t: Transcript, round: nat, left: seq<Point>, right: seq<Point>, i: nat)
    requires q > 0 && |left| == |right| && i < |left|
    ensures 0 <= IPA.Challenges(q, oracle, t, round, left, right)[i] < q
    decreases |left|
  {
    if i > 0 {
      ChallengesReduced(q, oracle, t + [left[0], right[0]], round + 1, left[1..], right[1..], i - 1);
    }
  }

  lemma {:induction false} Pow2Injective(a: nat, b: nat)
    requires Pow2(a) == Pow2(b)
    ensures a == b
  {
    if a < b {
      Pow2Mono(a + 1, b);
    } else if b < a {
      Pow2Mono(b + 1, a);
    }
  }

  /** What acceptance gives before the inner product. */
  lemma ChecksHold(p: Public, rounds: nat, x: Run)
    requires p.q > 1 && Supported(p, rounds) && RunAccepted(p, x)
    ensures Y(p, x) % p.q != 0 && Z(p, x) % p.q != 0 && W(p, x) % p.q != 0
    ensures Checked(ClaimOf(p, rounds), x.proof.t1, x.proof.t2, Y(p, x), Z(p, x), FlatFork(p, x))
  {
    hide PolynomialCheck, Dimensions, IPA.Accepts, Reconstructed, Delta, Moves, Pow2;
    ModSmall(p.q, Y(p, x));
    ModSmall(p.q, Z(p, x));
    ModSmall(p.q, W(p, x));
  }

  /** The inner product of an accepted run is accepted for the reconstructed commitment. */
  lemma InnerAccepted(p: Public, rounds: nat, x: Run)
    requires p.q > 1 && Supported(p, rounds) && RunAccepted(p, x)
    ensures var c := ClaimOf(p, rounds);
            IPA.Accepts(p.q, x.oracle, MovesOf(p, x) + [RebuiltOf(p, rounds, x)], G(c), HPrime(c, Y(p, x)),
                        p.bases.u * W(p, x) % p.q, RebuiltOf(p, rounds, x), x.proof.inner)
  {
    hide PolynomialCheck, Dimensions, IPA.Accepts, Reconstructed, Delta, Moves, ChallengeY, ChallengeZ, ChallengeX, ChallengeW,
      ScaledGenerators, Powers, BlockWeights, Take;
    DimensionsSound(|p.commitments|, p.bits);
  }

  lemma EndHolds(p: Public, rounds: nat, x: Run)
    requires p.q > 1 && Supported(p, rounds) && RunAccepted(p, x)
    ensures var c, e := ClaimOf(p, rounds), EndOf(p, rounds, x);
            Sized(e, rounds) && (forall i :: 0 <= i < rounds ==> e.xs[i] % p.q != 0) &&
            EndAccepts(p.q, e, rounds, G(c), HPrime(c, Y(p, x)), p.bases.u * W(p, x) % p.q, RebuiltOf(p, rounds, x))
  {
    hide RunAccepted, RebuiltOf, MovesOf, Dimensions, HPrime, Take, Pow2, IPA.RecursiveAccepts, IPA.Challenges;
    InnerAccepted(p, rounds, x);
    var inner := x.proof.inner;
    Pow2Injective(rounds, |inner.left|);
    var e := EndOf(p, rounds, x);
    forall i | 0 <= i < rounds ensures e.xs[i] % p.q != 0 {
      ChallengesReduced(p.q, x.oracle, MovesOf(p, x) + [RebuiltOf(p, rounds, x)], 0, inner.left, inner.right, i);
      ModSmall(p.q, e.xs[i]);
      assert e.xs[i] in e.xs;
    }
  }

  // ---------------------------------------------------------------- runs under one prefix

  /** Two runs whose paths share `n` steps share the messages and challenges of those steps. */
  lemma Together(p: Public, rounds: nat, run: Path -> Run, c: Path, d: Path, n: nat)
    requires p.q > 1 && Supported(p, rounds) && Forest(p, rounds, run) && In(p, rounds, c) && In(p, rounds, d)
    requires n <= 4 && c[..n] == d[..n]
    ensures SameMessage(run(c).proof, run(d).proof, 0)
    ensures n >= 1 ==> Y(p, run(c)) == Y(p, run(d))
    ensures n >= 2 ==> Z(p, run(c)) == Z(p, run(d)) && SameMessage(run(c).proof, run(d).proof, 2)
    ensures n >= 3 ==> X(p, run(c)) == X(p, run(d)) && SameMessage(run(c).proof, run(d).proof, 3)
    ensures n >= 4 ==> W(p, run(c)) == W(p, run(d))
  {
    hide In, Y, Z, X, W, EndOf, SameRound, RunAccepted;
    InSize(p, rounds, c);
    InSize(p, rounds, d);
    forall e: nat | e <= n && e < 4 ensures Agree(p, rounds, run(c), run(d), e, c[e] == d[e]) && (e < n ==> c[e] == d[e]) {
      assert c[..e] == c[..n][..e] && d[..e] == d[..n][..e];
      assert Meet(c, d, e);
      assert e < n ==> c[e] == c[..n][e] && d[e] == d[..n][e];
    }
    assert Agree(p, rounds, run(c), run(d), 0, c[0] == d[0]);
    assert n >= 1 ==> Agree(p, rounds, run(c), run(d), 1, c[1] == d[1]);
    assert n >= 2 ==> Agree(p, rounds, run(c), run(d), 2, c[2] == d[2]);
    assert n >= 3 ==> Agree(p, rounds, run(c), run(d), 3, c[3] == d[3]);
  }

  lemma InSize(p: Public, rounds: nat, c: Path)
    requires Dimensions(|p.commitments|, p.bits).Some? && In(p, rounds, c)
    ensures |c| == 4 + rounds
  {}

  /** The prefix leads to runs of the forest. */
  predicate Prefix(p: Public, rounds: nat, prefix: Path)
    requires Dimensions(|p.commitments|, p.bits).Some?
  {
    |prefix| <= 4 && (|prefix| > 0 ==> prefix[0] < Pow2(rounds)) &&
    (|prefix| > 1 ==> prefix[1] < Dimensions(|p.commitments|, p.bits).value.0 + 2) && (|prefix| > 2 ==> prefix[2] < 3) &&
    (|prefix| > 3 ==> prefix[3] < 2)
  }

  lemma FilledIn(p: Public, rounds: nat, prefix: Path)
    requires Dimensions(|p.commitments|, p.bits).Some? && Prefix(p, rounds, prefix)
    ensures In(p, rounds, Fill(prefix, 4 + rounds))
  {
    hide Dimensions;
    var c := Fill(prefix, 4 + rounds);
    Pow2Mono(0, rounds);
    assert c[4..] == Zeros(rounds);
  }

  lemma ExtendedIn(p: Public, rounds: nat, prefix: Path, c: Path)
    requires Dimensions(|p.commitments|, p.bits).Some? && Prefix(p, rounds, prefix) && |prefix| == 4 && Choices(c, rounds)
    ensures In(p, rounds, prefix + c) && (prefix + c)[..4] == prefix
  {
    assert (prefix + c)[4..] == c;
  }

  // ---------------------------------------------------------------- the trees

  lemma EndsFork(p: Public, rounds: nat, run: Path -> Run, prefix: Path)
    requires p.q > 1 && Supported(p, rounds) && Forest(p, rounds, run) && Prefix(p, rounds, prefix) && |prefix| == 4
    ensures Forks(p.q, Ends(p, rounds, run, prefix), rounds)
  {
    hide EndOf, SameRound, Prefix, In, RunAccepted, Choices;
    var f := Ends(p, rounds, run, prefix);
    forall c | Choices(c, rounds) ensures Sized(f(c), rounds) && forall i :: 0 <= i < rounds ==> f(c).xs[i] % p.q != 0 {
      ExtendedIn(p, rounds, prefix, c);
      EndHolds(p, rounds, run(prefix + c));
    }
    forall c, d, i: nat | Choices(c, rounds) && Choices(d, rounds) && Meet(c, d, i) ensures SameRound(p.q, f(c), f(d), i, c[i] == d[i]) {
      ExtendedIn(p, rounds, prefix, c);
      ExtendedIn(p, rounds, prefix, d);
      var c', d' := prefix + c, prefix + d;
      assert c'[..4 + i] == prefix + c[..i] && d'[..4 + i] == prefix + d[..i];
      assert Meet(c', d', 4 + i);
      assert Agree(p, rounds, run(c'), run(d'), 4 + i, c'[4 + i] == d'[4 + i]);
    }
  }

  lemma EndsAccepted(p: Public, rounds: nat, run: Path -> Run, prefix: Path)
    requires p.q > 1 && Supported(p, rounds) && Forest(p, rounds, run) && Prefix(p, rounds, prefix) && |prefix| == 4
    ensures var c, x := ClaimOf(p, rounds), At(rounds, run, prefix);
            AllAccepted(p.q, Ends(p, rounds, run, prefix), rounds, G(c), HPrime(c, Y(p, x)), p.bases.u * W(p, x) % p.q,
                        RebuiltOf(p, rounds, x))
  {
    hide EndOf, Prefix, In, RunAccepted, Choices, EndAccepts, HPrime, Agree, Rebuilt;
    var f, x := Ends(p, rounds, run, prefix), At(rounds, run, prefix);
    FilledIn(p, rounds, prefix);
    var cl := ClaimOf(p, rounds);
    var u := p.bases.u * W(p, x) % p.q;
    forall c | Choices(c, rounds) ensures EndAccepts(p.q, f(c), rounds, G(cl), HPrime(cl, Y(p, x)), u, RebuiltOf(p, rounds, x)) {
      ExtendedIn(p, rounds, prefix, c);
      EndHolds(p, rounds, run(prefix + c));
      Together(p, rounds, run, prefix + c, Fill(prefix, 4 + rounds), 4);
    }
  }

  lemma Widened(prefix: Path, m: nat, length: nat)
    requires |prefix| < 4 <= length
    ensures Fill(prefix + [m], length)[..|prefix|] == prefix && Fill(prefix, length)[..|prefix|] == prefix
    ensures Fill(prefix + [m], length)[|prefix|] == m
  {
    assert Fill(prefix + [m], length)[..|prefix|] == (prefix + [m])[..|prefix|];
  }

  /** Both trees of a fork are grown. */
  lemma ForkGrown(p: Public, rounds: nat, run: Path -> Run, prefix: Path)
    requires p.q > 1 && Supported(p, rounds) && Forest(p, rounds, run) && Prefix(p, rounds, prefix) && |prefix| == 3
    requires p.q > 1 && ClaimOf(p, rounds).padded * p.bits == Pow2(rounds)
    ensures var x := At(rounds, run, prefix);
            TreesGrown(ClaimOf(p, rounds), x.proof.a, x.proof.s, Y(p, x), Z(p, x), XOf(p, rounds, run, prefix))
  {
    hide EndOf, In, RunAccepted, HPrime, TreeOf, Ends, Grown, Y, Z, X, W, Rebuilt, Forest, Dimensions;
    FilledIn(p, rounds, prefix);
    var x, f := At(rounds, run, prefix), XOf(p, rounds, run, prefix);
    forall m: nat | m < 2
      ensures f.ws[m].w % p.q != 0
      ensures Grown(p.q, f.ws[m].tree, rounds, G(ClaimOf(p, rounds)), HPrime(ClaimOf(p, rounds), Y(p, x)), p.bases.u * f.ws[m].w % p.q,
                    Rebuilt(ClaimOf(p, rounds), x.proof.a, x.proof.s, Y(p, x), Z(p, x), f, f.ws[m].w))
    {
      TreeAt(p, rounds, run, prefix, m);
    }
    WsDiffer(p, rounds, run, prefix);
  }

  lemma TreeAt(p: Public, rounds: nat, run: Path -> Run, prefix: Path, m: nat)
    requires p.q > 1 && Supported(p, rounds) && Forest(p, rounds, run) && Prefix(p, rounds, prefix) && |prefix| == 3 && m < 2
    requires ClaimOf(p, rounds).padded * p.bits == Pow2(rounds)
    ensures var c, x, f, w := ClaimOf(p, rounds), At(rounds, run, prefix), XOf(p, rounds, run, prefix), WOf(p, rounds, run, prefix + [m]);
            w.w % p.q != 0 &&
            Grown(p.q, w.tree, rounds, G(c), HPrime(c, Y(p, x)), p.bases.u * w.w % p.q,
                  Rebuilt(c, x.proof.a, x.proof.s, Y(p, x), Z(p, x), f, w.w))
  {
    hide EndOf, In, RunAccepted, HPrime, TreeOf, Ends, Grown, Y, Z, X, W, Dimensions, Reconstructed, Agree;
    var v, x := At(rounds, run, prefix + [m]), At(rounds, run, prefix);
    FilledIn(p, rounds, prefix);
    FilledIn(p, rounds, prefix + [m]);
    Widened(prefix, m, 4 + rounds);
    Together(p, rounds, run, Fill(prefix + [m], 4 + rounds), Fill(prefix, 4 + rounds), 3);
    ChecksHold(p, rounds, v);
    EndsFork(p, rounds, run, prefix + [m]);
    EndsAccepted(p, rounds, run, prefix + [m]);
    var c := ClaimOf(p, rounds);
    TreeGrown(p.q, Ends(p, rounds, run, prefix + [m]), rounds, G(c), HPrime(c, Y(p, v)), p.bases.u * W(p, v) % p.q, RebuiltOf(p, rounds, v));
  }

  lemma WsDiffer(p: Public, rounds: nat, run: Path -> Run, prefix: Path)
    requires p.q > 1 && Supported(p, rounds) && Forest(p, rounds, run) && Prefix(p, rounds, prefix) && |prefix| == 3
    ensures !Cong(p.q, WOf(p, rounds, run, prefix + [0]).w, WOf(p, rounds, run, prefix + [1]).w)
  {
    Differ(p, rounds, run, prefix, 0, 1);
  }

  /** Runs that part at a step have different challenges there. */
  lemma Differ(p: Public, rounds: nat, run: Path -> Run, prefix: Path, i: nat, j: nat)
    requires p.q > 1 && Supported(p, rounds) && Forest(p, rounds, run) && |prefix| < 4 && i != j
    requires Prefix(p, rounds, prefix + [i]) && Prefix(p, rounds, prefix + [j])
    ensures !Cong(p.q, Asked(p, At(rounds, run, prefix + [i]), |prefix|), Asked(p, At(rounds, run, prefix + [j]), |prefix|))
  {
    hide Prefix, In, Asked, RunAccepted, EndOf, SameRound;
    FilledIn(p, rounds, prefix + [i]);
    FilledIn(p, rounds, prefix + [j]);
    Widened(prefix, i, 4 + rounds);
    Widened(prefix, j, 4 + rounds);
    var c, d := Fill(prefix + [i], 4 + rounds), Fill(prefix + [j], 4 + rounds);
    assert Meet(c, d, |prefix|);
    assert Agree(p, rounds, run(c), run(d), |prefix|, c[|prefix|] == d[|prefix|]);
  }

  // ---------------------------------------------------------------- all of it

  lemma ZHolds(p: Public, rounds: nat, run: Path -> Run, prefix: Path)
    requires p.q > 1 && Supported(p, rounds) && Forest(p, rounds, run) && Prefix(p, rounds, prefix) && |prefix| == 2
    requires Sane(ClaimOf(p, rounds))
    ensures var x := At(rounds, run, prefix);
            ZAccepted(ClaimOf(p, rounds), x.proof.a, x.proof.s, Y(p, x), ZOf(p, rounds, run, prefix)) &&
            ZShaped(ClaimOf(p, rounds), ZOf(p, rounds, run, prefix))
  {
    hide EndOf, In, RunAccepted, Y, Z, X, W, Dimensions, TreesGrown, Checked, Forest, Agree, Ends, TreeOf;
    var c, x, f := ClaimOf(p, rounds), At(rounds, run, prefix), ZOf(p, rounds, run, prefix);
    forall k: nat | k < 3
      ensures Checked(c, x.proof.t1, x.proof.t2, Y(p, x), f.z, f.xs[k]) && TreesGrown(c, x.proof.a, x.proof.s, Y(p, x), f.z, f.xs[k]) &&
              Shaped(c, f.xs[k])
    {
      SpotHolds(p, rounds, run, prefix, k);
    }
    FilledIn(p, rounds, prefix);
    AcceptedAt(p, rounds, run, prefix);
    ChecksHold(p, rounds, x);
    forall i, j | 0 <= i < j < 3 ensures !Cong(p.q, Xs(f)[i], Xs(f)[j]) {
      Differ(p, rounds, run, prefix, i, j);
    }
    assert AllChecked(c, x.proof.t1, x.proof.t2, Y(p, x), f);
  }

  lemma AcceptedAt(p: Public, rounds: nat, run: Path -> Run, prefix: Path)
    requires p.q > 1 && Supported(p, rounds) && Forest(p, rounds, run) && Prefix(p, rounds, prefix)
    ensures RunAccepted(p, At(rounds, run, prefix))
  {
    hide RunAccepted, In, Agree, Prefix;
    FilledIn(p, rounds, prefix);
  }

  lemma SpotHolds(p: Public, rounds: nat, run: Path -> Run, prefix: Path, k: nat)
    requires p.q > 1 && Supported(p, rounds) && Forest(p, rounds, run) && Prefix(p, rounds, prefix) && |prefix| == 2 && k < 3
    requires Sane(ClaimOf(p, rounds))
    ensures var c, x, z := ClaimOf(p, rounds), At(rounds, run, prefix), Z(p, At(rounds, run, prefix));
            var f := XOf(p, rounds, run, prefix + [k]);
            Checked(c, x.proof.t1, x.proof.t2, Y(p, x), z, f) && TreesGrown(c, x.proof.a, x.proof.s, Y(p, x), z, f) && Shaped(c, f)
  {
    hide EndOf, In, RunAccepted, Y, Z, X, W, Dimensions, TreesGrown, Forest, Agree, Ends, TreeOf, PolynomialCheck, Delta;
    var pre := prefix + [k];
    var x, v := At(rounds, run, prefix), At(rounds, run, pre);
    FilledIn(p, rounds, prefix);
    FilledIn(p, rounds, pre);
    Widened(prefix, k, 4 + rounds);
    Together(p, rounds, run, Fill(pre, 4 + rounds), Fill(prefix, 4 + rounds), 2);
    AcceptedAt(p, rounds, run, pre);
    ChecksHold(p, rounds, v);
    ForkGrown(p, rounds, run, pre);
    GrownShaped(ClaimOf(p, rounds), x.proof.a, x.proof.s, Y(p, v), Z(p, v), XOf(p, rounds, run, pre));
  }

  lemma GrownShaped(c: Claim, a: Point, s: Point, y: int, z: int, f: XFork)
    requires c.q > 1 && c.padded * c.bits == Size(c) && TreesGrown(c, a, s, y, z, f)
    ensures Shaped(c, f)
  {}

  lemma YHolds(p: Public, rounds: nat, run: Path -> Run, prefix: Path)
    requires p.q > 1 && Supported(p, rounds) && Forest(p, rounds, run) && Prefix(p, rounds, prefix) && |prefix| == 1
    requires Sane(ClaimOf(p, rounds))
    ensures var x := At(rounds, run, prefix);
            YAccepted(ClaimOf(p, rounds), x.proof.a, x.proof.s, YOf(p, rounds, run, prefix)) &&
            YShaped(ClaimOf(p, rounds), YOf(p, rounds, run, prefix))
  {
    hide EndOf, In, RunAccepted, Y, Z, X, W, Dimensions, Forest, Agree, ZOf, ZAccepted, ZShaped;
    var c, x, f := ClaimOf(p, rounds), At(rounds, run, prefix), YOf(p, rounds, run, prefix);
    FilledIn(p, rounds, prefix);
    AcceptedAt(p, rounds, run, prefix);
    ChecksHold(p, rounds, x);
    forall j: nat | j < |f.zs| ensures ZAccepted(c, x.proof.a, x.proof.s, f.y, f.zs[j]) && ZShaped(c, f.zs[j]) {
      var pre := prefix + [j];
      ZHolds(p, rounds, run, pre);
      FilledIn(p, rounds, pre);
      Widened(prefix, j, 4 + rounds);
      Together(p, rounds, run, Fill(pre, 4 + rounds), Fill(prefix, 4 + rounds), 1);
    }
    forall i, j | 0 <= i < j < |f.zs| ensures !Cong(p.q, Zs(f, |f.zs|)[i], Zs(f, |f.zs|)[j]) {
      Differ(p, rounds, run, prefix, i, j);
      ZIs(p, rounds, run, prefix + [i]);
      ZIs(p, rounds, run, prefix + [j]);
    }
  }

  lemma ZIs(p: Public, rounds: nat, run: Path -> Run, prefix: Path)
    requires p.q > 1 && Supported(p, rounds) && |prefix| == 2
    ensures ZOf(p, rounds, run, prefix).z == Asked(p, At(rounds, run, prefix), 1)
  {}

  /** The runs of a forest are evidence that is accepted. */
  lemma ForestAccepted(p: Public, rounds: nat, run: Path -> Run)
    requires p.q > 1 && Supported(p, rounds) && Forest(p, rounds, run) && Sane(ClaimOf(p, rounds))
    ensures Accepted(ClaimOf(p, rounds), EvidenceOf(p, rounds, run))
  {
    hide EndOf, In, RunAccepted, Y, Z, X, W, Dimensions, Forest, Agree, YOf, YAccepted, YShaped;
    var c, ev, root := ClaimOf(p, rounds), EvidenceOf(p, rounds, run), At(rounds, run, []);
    FilledIn(p, rounds, []);
    forall i: nat | i < |ev| ensures YAccepted(c, root.proof.a, root.proof.s, ev[i]) && YShaped(c, ev[i]) {
      YHolds(p, rounds, run, [i]);
      FilledIn(p, rounds, [i]);
      assert [] + [i] == [i];
      Together(p, rounds, run, Fill([i], 4 + rounds), Fill([], 4 + rounds), 0);
    }
    forall i, j | 0 <= i < j < |ev| ensures !Cong(p.q, Ys(ev)[i], Ys(ev)[j]) {
      assert [] + [i] == [i] && [] + [j] == [j];
      Differ(p, rounds, run, [], i, j);
      YIs(p, rounds, run, i);
      YIs(p, rounds, run, j);
    }
    assert Shared(c, ev, root.proof.a, root.proof.s);
  }

  lemma YIs(p: Public, rounds: nat, run: Path -> Run, i: nat)
    requires p.q > 1 && Supported(p, rounds)
    ensures YOf(p, rounds, run, [i]).y == Asked(p, At(rounds, run, [i]), 0)
  {}

  /**
    Knowledge soundness of the range verifier: from accepted range proofs for one statement and one list
    of commitments, every commitment opens to a number below `2^bits`, value and blinding computed from
    the answers, or something computed from the answers is a relation between the bases.
   */
  lemma RangeSound(p: Public, rounds: nat, run: Path -> Run)
    requires p.q > 1 && Supported(p, rounds) && Forest(p, rounds, run)
    ensures var c, ev := ClaimOf(p, rounds), EvidenceOf(p, rounds, run);
            Sane(c) && WellShaped(c, ev) && |ev| > 0 &&
            (Broken(c, ev) || forall k :: 0 <= k < |p.commitments| ==> InRangeOpening(c, ev, k))
  {
    hide Forest, Dimensions, Broken, InRangeOpening, Accepted, EvidenceOf;
    ClaimIsSane(p, rounds);
    ForestAccepted(p, rounds, run);
    Sound(ClaimOf(p, rounds), EvidenceOf(p, rounds, run));
  }

  // ---------------------------------------------------------------- a few proofs at a time

  /** The answers of three runs that share everything up to `z`, `t1` and `t2`. */
  function Three(p: Public, xs: seq<Run>): ZFork
    requires p.q > 0 && |xs| == 3
  {
    ZFork(Z(p, xs[0]), [FlatFork(p, xs[0]), FlatFork(p, xs[1]), FlatFork(p, xs[2])])
  }

  /** Accepted runs that part at `x`. */
  ghost predicate PartAtX(p: Public, xs: seq<Run>, y: int)
    requires p.q > 1
  {
    && |xs| == 3 && DistinctMod(p.q, Xs(Three(p, xs)))
    && forall k :: 0 <= k < 3 ==>
         RunAccepted(p, xs[k]) && SameMessage(xs[k].proof, xs[0].proof, 2) && Y(p, xs[k]) == y && Z(p, xs[k]) == Z(p, xs[0])
  }

  lemma PartChecked(p: Public, rounds: nat, xs: seq<Run>, y: int)
    requires p.q > 1 && Supported(p, rounds) && PartAtX(p, xs, y)
    ensures ZChecked(ClaimOf(p, rounds), y, Three(p, xs))
  {
    hide RunAccepted, Dimensions, Y, Z, X, PolynomialCheck, Delta;
    var c, f := ClaimOf(p, rounds), Three(p, xs);
    forall k: nat | k < 3 ensures Checked(c, xs[0].proof.t1, xs[0].proof.t2, y, f.z, f.xs[k]) {
      ChecksHold(p, rounds, xs[k]);
    }
    ChecksHold(p, rounds, xs[0]);
    assert AllChecked(c, xs[0].proof.t1, xs[0].proof.t2, y, f);
  }

  /**
    Three accepted proofs that part at `x` open the weighted commitments: with the answers interpolated
    at zero, `v` and `b`, they are `value * (v - delta) + blind * b`.
   */
  lemma ThreeProofs(p: Public, rounds: nat, xs: seq<Run>, y: int)
    requires p.q > 1 && Supported(p, rounds) && PartAtX(p, xs, y)
    ensures var z, n, o := Z(p, xs[0]), |p.commitments|, AtZero(p.q, Three(p, xs));
            Cong(p.q, Inner(ValueWeights(z, n), p.commitments),
                 p.bases.value * (o[0] - Delta(y, z, ClaimOf(p, rounds).padded, p.bits)) + p.bases.blind * o[1])
  {
    hide Dimensions, RunAccepted, ZChecked, Z, AtZero, Delta, Inner;
    PartChecked(p, rounds, xs, y);
    var c, f, o := ClaimOf(p, rounds), Three(p, xs), AtZero(p.q, Three(p, xs));
    WeighedOpens(c, y, f);
    InnerPair(c, o[0] - Delta(y, f.z, c.padded, c.bits), o[1]);
  }

  /** As many different `z` as commitments, three proofs for each: every commitment gets its own opening. */
  lemma ManyProofs(p: Public, rounds: nat, runs: seq<seq<Run>>, y: int, f: YFork, k: nat)
    requires p.q > 1 && Supported(p, rounds) && k < |p.commitments| <= |runs| == |f.zs| && f.y == y
    requires forall j :: 0 <= j < |runs| ==> PartAtX(p, runs[j], y) && f.zs[j] == Three(p, runs[j])
    requires DistinctMod(p.q, Zs(f, |f.zs|))
    ensures forall j :: 0 <= j < |f.zs| ==> |f.zs[j].xs| == 3
    ensures var o := Opening(ClaimOf(p, rounds), f, k);
            Cong(p.q, p.commitments[k], p.bases.value * o[0] + p.bases.blind * o[1])
  {
    hide Dimensions, PartAtX, ZChecked, Three, Opening, Inner;
    var c := ClaimOf(p, rounds);
    forall j | 0 <= j < |f.zs| ensures |f.zs[j].xs| == 3 && ZChecked(c, f.y, f.zs[j]) {
      PartChecked(p, rounds, runs[j], y);
      DifferentXs(c, y, f.zs[j]);
    }
    EveryCommitmentOpens(c, f, k);
    var o := Opening(c, f, k);
    assert o == [o[0], o[1]];
    InnerPair(c, o[0], o[1]);
  }
}
