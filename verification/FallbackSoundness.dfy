/**
  Soundness of the compact fallback as one statement.  From accepted fallbacks that share their
  commitments and differ in their challenges, and from the openings that the range proofs stand for, every
  receiver's share is the encryption of the bytes of a canonical scalar, or an explicit relation between
  the two commitment bases has been computed from those proofs.
 */
module FallbackSoundness {
  import opened Common
  import opened Modular
  import opened Vectors
  import opened Polynomials
  import opened RangeVectors
  import opened Comparator
  import opened ComparatorRows
  import opened Fallback
  import RangeProof
  import CP = ComparatorProof
  import CE = ChunkEncryption
  import LP = LinkProof

  /** What prover and verifier share. */
  datatype Public = Public(q: int, hash: CP.Digest, bases: RangeProof.Bases, leaf: LP.Leaf, setDigest: seq<int>, chunks: nat)

  /** A fallback together with the oracle it was made for. */
  datatype Run = Run(oracle: Oracle, proof: Proof)

  ghost predicate Field(p: Public) {
    Prime(p.q) && p.q >= 2 * RADIX
  }

  ghost predicate Accepted(p: Public, x: Run)
    requires p.q > 1
  {
    Accepts(p.q, x.oracle, p.hash, p.bases, p.leaf, p.setDigest, p.chunks, x.proof)
  }

  function PointsOf(p: Public, x: Proof): Family {
    CP.Points(p.bases, LinkCommitments(x.link.lanes), x.comparator.complement, x.comparator.borrow)
  }

  /** The same commitments in all three parts. */
  predicate SameCommitments(p: Public, x: Proof, y: Proof) {
    PointsOf(p, x) == PointsOf(p, y) && |x.link.lanes| == |y.link.lanes|
  }

  function ShareOf(p: Public, x: Proof, k: nat): CE.Share
    requires k < |x.link.lanes| && 0 < x.link.lanes[k].receiver <= |p.leaf.receivers|
  {
    p.leaf.receivers[x.link.lanes[k].receiver - 1]
  }

  /** Numbers that show the two bases to be dependent. */
  predicate Dependence(p: Public, a: int, b: int)
    requires p.q > 0
  {
    a % p.q != 0 && Cong(p.q, p.bases.value * a + p.bases.blind * b, 0)
  }

  lemma TwoOpenings(p: Public, point: Point, a: int, b: int, a': int, b': int)
    requires p.q > 0
    requires OpensTo(p.q, p.bases.value, p.bases.blind, point, a, b)
    requires OpensTo(p.q, p.bases.value, p.bases.blind, point, a', b')
    ensures Cong(p.q, p.bases.value * (a - a') + p.bases.blind * (b - b'), 0)
    ensures Dependence(p, a - a', b - b') || Cong(p.q, a, a')
  {
    var q, G, H := p.q, p.bases.value, p.bases.blind;
    CongSub(q, point, G * a + H * b, point, G * a' + H * b');
    SubtractOpenings(G, H, a, b, a', b');
    CongZero(q, a, a');
  }

  lemma SubtractOpenings(G: int, H: int, a: int, b: int, a': int, b': int)
    ensures (G * a + H * b) - (G * a' + H * b') == G * (a - a') + H * (b - b')
  {}

  // ---------------------------------------------------------------- the comparator

  function StatementOf(p: Public, x: Proof): seq<int> {
    CP.Statement(p.hash, p.setDigest, LinkCommitments(x.link.lanes), x.comparator.complement, x.comparator.borrow)
  }

  function Weight(p: Public, x: Run): int
    requires p.q > 0
  {
    CP.WeightOf(p.q, x.oracle, StatementOf(p, x.proof))
  }

  function Modulus(p: Public): (m: Vec)
    requires p.q > 0
    ensures |m| == p.chunks
  {
    DigitsOf(RADIX, p.q - 1, p.chunks)
  }

  /** The comparator's challenge. */
  function Asked(p: Public, x: Run): int
    requires p.q > 0 && Shape(PointsOf(p, x.proof), p.chunks, |x.proof.link.lanes|)
  {
    var aggregate := CP.Relation(Weight(p, x), Modulus(p), PointsOf(p, x.proof), |x.proof.link.lanes|) % p.q;
    CP.ChallengeOf(p.q, x.oracle, StatementOf(p, x.proof), aggregate, x.proof.comparator.tRelation)
  }

  /** Two accepted runs that part at the comparator's challenge. */
  ghost predicate Forks(p: Public, x: Run, y: Run)
    requires p.q > 1
  {
    && Accepted(p, x) && Accepted(p, y) && SameCommitments(p, x.proof, y.proof)
    && x.proof.comparator.tRelation == y.proof.comparator.tRelation && Weight(p, x) == Weight(p, y)
    && Shape(PointsOf(p, x.proof), p.chunks, |x.proof.link.lanes|) && !Cong(p.q, Asked(p, x), Asked(p, y))
  }

  /** The multiple of the blinding base that the two responses show the aggregate to be. */
  function Revealed(p: Public, x: Run, y: Run): Scalar
    requires p.q > 1 && Shape(PointsOf(p, x.proof), p.chunks, |x.proof.link.lanes|)
    requires Shape(PointsOf(p, y.proof), p.chunks, |y.proof.link.lanes|)
  {
    (x.proof.comparator.zRelation - y.proof.comparator.zRelation) * Inv(p.q, Asked(p, x) - Asked(p, y))
  }

  lemma ForkReveals(p: Public, x: Run, y: Run)
    requires Field(p) && Forks(p, x, y)
    ensures Cong(p.q, CP.Relation(Weight(p, x), Modulus(p), PointsOf(p, x.proof), |x.proof.link.lanes|),
                 p.bases.blind * Revealed(p, x, y))
  {
    hide LP.Accepts, RangeProof.Accepts, CP.Relation, Power, DigitsOf, LinkCommitments;
    var a := CP.Relation(Weight(p, x), Modulus(p), PointsOf(p, x.proof), |x.proof.link.lanes|);
    CP.RelationExtracts(p.q, p.bases.blind, a % p.q, x.proof.comparator.tRelation, x.proof.comparator.zRelation,
                        y.proof.comparator.zRelation, Asked(p, x), Asked(p, y));
    ModCong(p.q, a);
  }

  /** The openings `v` of the commitments under the blindings `r`, bytes and bits: what the range proofs are for. */
  ghost predicate Ranged(p: Public, x: Proof, v: Family, r: Family)
    requires p.q > 0
  {
    Opened(p.q, p.bases.value, p.bases.blind, PointsOf(p, x), v, r) && DigitsInRange(v) &&
    Shape(v, p.chunks, |x.link.lanes|) && Shape(r, p.chunks, |x.link.lanes|)
  }

  /** At one weight the combination vanishes, or it gives a dependence of the bases. */
  lemma VanishesOrDepends(p: Public, x: Run, y: Run, v: Family, r: Family)
    requires Field(p) && Forks(p, x, y) && Ranged(p, x.proof, v, r)
    ensures var lanes := |x.proof.link.lanes|;
            CP.Relation(Weight(p, x), Modulus(p), v, lanes) % p.q == 0 ||
            Dependence(p, CP.Relation(Weight(p, x), Modulus(p), v, lanes),
                       CP.Relation(Weight(p, x), Modulus(p), r, lanes) - Revealed(p, x, y))
  {
    hide Forks, DigitsInRange, OpensTo, Powers, Revealed, Weight, Rows, PointsOf;
    var lanes, m := |x.proof.link.lanes|, Modulus(p);
    var points := PointsOf(p, x.proof);
    var q, G, H := p.q, p.bases.value, p.bases.blind;
    ForkShape(p, x, y);
    ForkReveals(p, x, y);
    var w := Powers(Weight(p, x), Offset(|m|, lanes));
    RowsOpen(q, G, H, m, points, v, r, lanes);
    SumOpens(q, G, H, w, Rows(points, m, lanes), Rows(v, m, lanes), Rows(r, m, lanes), |w|);
    var aggregate := CP.Relation(Weight(p, x), m, points, lanes);
    RevealedOpens(q, G, H, aggregate, Revealed(p, x, y));
    TwoOpenings(p, aggregate, CP.Relation(Weight(p, x), m, v, lanes), CP.Relation(Weight(p, x), m, r, lanes), 0,
                Revealed(p, x, y));
    ModSmall(q, 0);
  }

  lemma ForkShape(p: Public, x: Run, y: Run)
    requires p.q > 1 && Forks(p, x, y)
    ensures Shape(PointsOf(p, x.proof), p.chunks, |x.proof.link.lanes|)
    ensures Shape(PointsOf(p, y.proof), p.chunks, |y.proof.link.lanes|)
  {}

  lemma RevealedOpens(q: int, G: Point, H: Point, point: Point, k: Scalar)
    requires q > 0 && Cong(q, point, H * k)
    ensures OpensTo(q, G, H, point, 0, k)
  {
    assert G * 0 == 0;
  }

  // ---------------------------------------------------------------- the link

  /** Two accepted runs that part at the link's challenge. */
  ghost predicate LinkForks(p: Public, x: Run, y: Run)
    requires p.q > 1
  {
    && Accepted(p, x) && Accepted(p, y)
    && x.proof.link.feldman == y.proof.link.feldman && |x.proof.link.lanes| == |y.proof.link.lanes|
    && (forall k :: 0 <= k < |x.proof.link.lanes| ==> LP.SameFirstMove(x.proof.link.lanes[k], y.proof.link.lanes[k]))
    && !Cong(p.q, LP.Challenge(p.q, x.oracle, p.setDigest, x.proof.link), LP.Challenge(p.q, y.oracle, p.setDigest, y.proof.link))
  }

  /** Lane `k` is for a receiver of the leaf and has one digit per chunk. */
  predicate LaneSized(p: Public, x: Run, y: Run, k: nat) {
    k < |x.proof.link.lanes| == |y.proof.link.lanes| && 0 < x.proof.link.lanes[k].receiver <= |p.leaf.receivers| &&
    |x.proof.link.lanes[k].digits| == |y.proof.link.lanes[k].digits| == p.chunks
  }

  /** What the two link proofs open lane `k` to. */
  function LinkOpening(p: Public, x: Run, y: Run, k: nat): LP.Openings
    requires p.q > 1 && LaneSized(p, x, y, k)
  {
    LP.ExtractAll(p.q, x.proof.link.lanes[k], y.proof.link.lanes[k], LP.Challenge(p.q, x.oracle, p.setDigest, x.proof.link),
                  LP.Challenge(p.q, y.oracle, p.setDigest, y.proof.link))
  }

  lemma LinkOpens(p: Public, x: Run, y: Run, k: nat)
    requires Field(p) && LinkForks(p, x, y) && k < |x.proof.link.lanes|
    ensures LaneSized(p, x, y, k)
    ensures LP.LaneOpened(SettingOf(p.q, p.bases, p.chunks), x.proof.link.feldman, ShareOf(p, x.proof, k), x.proof.link.lanes[k],
                          LinkOpening(p, x, y, k))
    ensures |ShareOf(p, x.proof, k).chunks| == p.chunks
  {
    hide LP.LaneAccepts, LP.LaneOpened, LP.ExtractAll, RangeProof.Accepts, CP.Accepts, LinkCommitments, LP.Challenge;
    var s := SettingOf(p.q, p.bases, p.chunks);
    assert LP.InLeaf(s, p.leaf, x.proof.link.lanes[k]);
    LP.SpecialSound(s, x.proof.link.feldman, ShareOf(p, x.proof, k), x.proof.link.lanes[k], y.proof.link.lanes[k],
                    LP.Challenge(p.q, x.oracle, p.setDigest, x.proof.link), LP.Challenge(p.q, y.oracle, p.setDigest, y.proof.link));
  }

  /** The commitments of lane `k` sit at its offset. */
  lemma {:induction false} LaneCommitments(lanes: seq<LP.LaneProof>, chunks: nat, k: nat)
    requires k < |lanes| && forall j :: 0 <= j < |lanes| ==> |lanes[j].digits| == chunks
    ensures |LinkCommitments(lanes)| == Offset(chunks, |lanes|) && Offset(chunks, k + 1) <= Offset(chunks, |lanes|)
    ensures LaneAt(LinkCommitments(lanes), chunks, k) == Commitments(lanes[k].digits)
  {
    hide LaneAt;
    var n := |lanes| - 1;
    var front, last := LinkCommitments(lanes[..n]), Commitments(lanes[n].digits);
    if n > 0 {
      LaneCommitments(lanes[..n], chunks, if k < n then k else 0);
    }
    if k < n {
      CP.LaneBeforeAppend(front, last, chunks, k);
    } else {
      CP.LaneOfAppend(front, last, chunks, n);
    }
  }

  /** Digits of the link opening that differ from the ranged ones give a dependence of the bases. */
  ghost predicate LaneDepends(p: Public, x: Run, y: Run, v: Family, r: Family, k: nat)
    requires p.q > 1
  {
    && LaneSized(p, x, y, k) && Offset(p.chunks, k + 1) <= |v.s| == |r.s|
    && var o := LinkOpening(p, x, y, k);
    exists i :: 0 <= i < p.chunks &&
      Dependence(p, o.digits[i] - LaneAt(v.s, p.chunks, k)[i], o.rhos[i] - LaneAt(r.s, p.chunks, k)[i])
  }

  lemma LaneAgreesOrDepends(p: Public, x: Run, y: Run, v: Family, r: Family, k: nat)
    requires Field(p) && LinkForks(p, x, y) && Ranged(p, x.proof, v, r) && k < |x.proof.link.lanes|
    ensures LaneSized(p, x, y, k) && Offset(p.chunks, k + 1) <= |v.s|
    ensures CongV(p.q, LinkOpening(p, x, y, k).digits, LaneAt(v.s, p.chunks, k)) || LaneDepends(p, x, y, v, r, k)
  {
    hide LinkForks, LP.Extract, Dependence, LP.LaneOpened, LP.Challenge, Ranged;
    LinkOpens(p, x, y, k);
    LaneRanged(p, x, y, v, r, k);
    var o, d := LinkOpening(p, x, y, k), LaneAt(v.s, p.chunks, k);
    var blinds := LaneAt(r.s, p.chunks, k);
    forall i | 0 <= i < p.chunks
      ensures Dependence(p, o.digits[i] - d[i], o.rhos[i] - blinds[i]) || Cong(p.q, o.digits[i], d[i])
    {
      LinkPoint(p, ShareOf(p, x.proof, k), x.proof.link.feldman, x.proof.link.lanes[k], o, i);
      TwoOpenings(p, x.proof.link.lanes[k].digits[i].commitment, o.digits[i], o.rhos[i], d[i], blinds[i]);
    }
  }

  lemma LaneRanged(p: Public, x: Run, y: Run, v: Family, r: Family, k: nat)
    requires Field(p) && LinkForks(p, x, y) && Ranged(p, x.proof, v, r) && k < |x.proof.link.lanes|
    requires |x.proof.link.lanes[k].digits| == p.chunks
    ensures Offset(p.chunks, k + 1) <= |v.s| == |r.s|
    ensures forall i :: 0 <= i < p.chunks ==>
              OpensTo(p.q, p.bases.value, p.bases.blind, x.proof.link.lanes[k].digits[i].commitment,
                      LaneAt(v.s, p.chunks, k)[i], LaneAt(r.s, p.chunks, k)[i])
  {
    hide LinkForks, OpensTo, DigitsInRange, LinkCommitments;
    var lanes := x.proof.link.lanes;
    forall j | 0 <= j < |lanes| ensures |lanes[j].digits| == p.chunks {
      LinkOpens(p, x, y, j);
    }
    LaneCommitments(lanes, p.chunks, k);
    forall i | 0 <= i < p.chunks
      ensures OpensTo(p.q, p.bases.value, p.bases.blind, lanes[k].digits[i].commitment, LaneAt(v.s, p.chunks, k)[i],
                      LaneAt(r.s, p.chunks, k)[i])
    {
      assert Commitments(lanes[k].digits)[i] == LinkCommitments(lanes)[Offset(p.chunks, k) + i];
    }
  }

  lemma LinkPoint(p: Public, share: CE.Share, feldman: bool, lane: LP.LaneProof, o: LP.Openings, i: nat)
    requires p.q > 0 && LP.LaneOpened(SettingOf(p.q, p.bases, p.chunks), feldman, share, lane, o) && i < |lane.digits|
    requires |o.digits| == |o.rhos| == |lane.digits|
    ensures OpensTo(p.q, p.bases.value, p.bases.blind, lane.digits[i].commitment, o.digits[i], o.rhos[i])
  {
    assert LP.DigitOpened(SettingOf(p.q, p.bases, p.chunks), share, lane, o, i);
  }

  /** Openings may be replaced by congruent ones. */
  lemma Reopened(s: LP.Setting, feldman: bool, share: CE.Share, lane: LP.LaneProof, o: LP.Openings, d: Vec)
    requires s.q > 0 && LP.LaneOpened(s, feldman, share, lane, o) && CongV(s.q, o.digits, d)
    ensures LP.LaneOpened(s, feldman, share, lane, o.(digits := d))
  {
    hide Eval;
    forall i | 0 <= i < |lane.digits| ensures LP.DigitOpened(s, share, lane, o.(digits := d), i) {
      assert LP.DigitOpened(s, share, lane, o, i);
      Replace(s.q, lane.digits[i].commitment, s.G, o.digits[i], d[i], s.H * o.rhos[i]);
      Replace(s.q, share.chunks[i].c, s.G, o.digits[i], d[i], share.pk * o.coins[i]);
    }
    EvalCong(s.q, o.digits, d, s.base);
    Replace(s.q, share.commitment, s.G, Eval(o.digits, s.base), Eval(d, s.base), s.H * (if feldman then 0 else o.blinding));
  }

  lemma Replace(q: int, point: Point, G: Point, a: int, b: int, rest: int)
    requires q > 0 && Cong(q, point, G * a + rest) && Cong(q, a, b)
    ensures Cong(q, point, G * b + rest)
  {
    CongMulLeft(q, G, a, b);
    CongAdd(q, G * a, G * b, rest, rest);
  }

  // ---------------------------------------------------------------- the whole fallback

  /** The runs behind one extraction: a fork at the link and forks at the comparator, over one set of commitments. */
  datatype Evidence = Evidence(link: (Run, Run), forks: seq<(Run, Run)>)

  function Weights(p: Public, forks: seq<(Run, Run)>): (r: seq<int>)
    requires p.q > 0
    ensures |r| == |forks|
  {
    seq(|forks|, j requires 0 <= j < |forks| => Weight(p, forks[j].0))
  }

  ghost predicate Conclusive(p: Public, e: Evidence)
    requires p.q > 1
  {
    && LinkForks(p, e.link.0, e.link.1)
    && (forall j :: 0 <= j < |e.forks| ==> Forks(p, e.forks[j].0, e.forks[j].1) &&
                                           SameCommitments(p, e.link.0.proof, e.forks[j].0.proof))
    && DistinctMod(p.q, Weights(p, e.forks)) && |e.forks| >= Offset(p.chunks, |e.link.0.proof.link.lanes|)
  }

  /** The dependence of the bases computed from comparator fork `j`. */
  ghost predicate ForkDepends(p: Public, x: Run, y: Run, v: Family, r: Family)
    requires p.q > 1
  {
    && Forks(p, x, y) && Ranged(p, x.proof, v, r)
    && var lanes := |x.proof.link.lanes|;
    Dependence(p, CP.Relation(Weight(p, x), Modulus(p), v, lanes), CP.Relation(Weight(p, x), Modulus(p), r, lanes) - Revealed(p, x, y))
  }

  /** Lane `k` writes a canonical scalar and its receiver, whoever holds the key, decrypts exactly that. */
  ghost predicate LaneSound(p: Public, x: Proof, v: Family, k: nat)
    requires p.q > 1
  {
    && k < |x.link.lanes| && 0 < x.link.lanes[k].receiver <= |p.leaf.receivers| && CanonicalLane(p.q, Modulus(p), v, k)
    && var digits, share, G := LaneAt(v.s, p.chunks, k), ShareOf(p, x, k), p.bases.value;
    forall sk: Scalar :: Cong(p.q, G * sk, share.pk) ==>
      CE.Reads(p.q, G, sk, RADIX - 1, share, digits) &&
      forall e, d :: CE.Reads(p.q, G, sk, RADIX - 1, share, e) && CE.Opens(p.q, G, sk, RADIX, share, e, d) ==>
        e == digits && d.scalar == Eval(digits, RADIX) && CE.VerifyRelation(p.q, G, share, d)
  }

  lemma SameRange(p: Public, x: Proof, y: Proof, v: Family, r: Family)
    requires p.q > 0 && Ranged(p, x, v, r) && SameCommitments(p, x, y)
    ensures Ranged(p, y, v, r)
  {}

  /** Enough forks at the comparator: canonical lanes, or some fork gives a dependence. */
  lemma CanonicalOrDepends(p: Public, e: Evidence, v: Family, r: Family)
    requires Field(p) && Conclusive(p, e) && Ranged(p, e.link.0.proof, v, r)
    ensures (exists j :: 0 <= j < |e.forks| && ForkDepends(p, e.forks[j].0, e.forks[j].1, v, r)) ||
            forall k :: 0 <= k < |e.link.0.proof.link.lanes| ==> CanonicalLane(p.q, Modulus(p), v, k)
  {
    hide Forks, LinkForks, Ranged, Weight, CanonicalLane, Dependence, Rows, Powers, Inner, Revealed, PointsOf;
    var lanes, m := |e.link.0.proof.link.lanes|, Modulus(p);
    if !exists j :: 0 <= j < |e.forks| && ForkDepends(p, e.forks[j].0, e.forks[j].1, v, r) {
      ModulusWrites(p, e.link.0, e.link.1, v, r);
      var weights := Weights(p, e.forks);
      forall j | 0 <= j < |weights| ensures Vanishes(p.q, m, v, lanes, weights[j]) {
        SameRange(p, e.link.0.proof, e.forks[j].0.proof, v, r);
        VanishesOrDepends(p, e.forks[j].0, e.forks[j].1, v, r);
      }
      VanishingIsCanonical(p.q, m, v, lanes, weights);
    }
  }

  /** An accepted fallback has enough chunks for the modulus. */
  lemma EnoughChunks(p: Public, x: Run, y: Run)
    requires p.q > 1 && LinkForks(p, x, y)
    ensures p.q - 1 < Power(RADIX, p.chunks)
  {
    hide LP.Accepts, RangeProof.Accepts, Power, LP.SameFirstMove, CP.Relation, LP.Challenge, LinkCommitments, DigitsOf;
  }

  lemma ModulusWrites(p: Public, x: Run, y: Run, v: Family, r: Family)
    requires Field(p) && LinkForks(p, x, y) && Ranged(p, x.proof, v, r)
    ensures InRadix(RADIX, Modulus(p)) && Eval(Modulus(p), RADIX) == p.q - 1
    ensures Shape(v, p.chunks, |x.proof.link.lanes|) && v.unit == 1 && DigitsInRange(v)
  {
    hide LinkForks, Power;
    EnoughChunks(p, x, y);
    DigitsCorrect(RADIX, p.q - 1, p.chunks);
  }

  lemma LaneIsSound(p: Public, x: Run, y: Run, v: Family, r: Family, k: nat)
    requires Field(p) && LinkForks(p, x, y) && Ranged(p, x.proof, v, r) && k < |x.proof.link.lanes|
    requires p.bases.value % p.q != 0 && CanonicalLane(p.q, Modulus(p), v, k) && LaneSized(p, x, y, k)
    requires x.proof.link.feldman ==> ShareOf(p, x.proof, k).blinding == CE.Ciphertext(0, 0)
    requires CongV(p.q, LinkOpening(p, x, y, k).digits, LaneAt(v.s, p.chunks, k))
    ensures LaneSound(p, x.proof, v, k)
  {
    hide LinkForks, LP.LaneOpened, CE.Reads, CE.Opens, CE.VerifyRelation, Eval, LinkOpening, BorrowChain, CongV;
    var s := SettingOf(p.q, p.bases, p.chunks);
    var share, lane, d := ShareOf(p, x.proof, k), x.proof.link.lanes[k], LaneAt(v.s, p.chunks, k);
    LinkOpens(p, x, y, k);
    Reopened(s, x.proof.link.feldman, share, lane, LinkOpening(p, x, y, k), d);
    forall sk: Scalar | Cong(p.q, p.bases.value * sk, share.pk)
      ensures CE.Reads(p.q, p.bases.value, sk, RADIX - 1, share, d) &&
              forall e, dec :: CE.Reads(p.q, p.bases.value, sk, RADIX - 1, share, e) &&
                               CE.Opens(p.q, p.bases.value, sk, RADIX, share, e, dec) ==>
                e == d && dec.scalar == Eval(d, RADIX) && CE.VerifyRelation(p.q, p.bases.value, share, dec)
    {
      OpenedLaneDecrypts(s, x.proof.link.feldman, share, lane, LinkOpening(p, x, y, k).(digits := d), sk);
    }
  }

  /**
    Soundness of the fallback.  Accepted fallbacks over one set of commitments, two that part at the
    link's challenge and pairs at as many distinct weights as there are digit equations that part at the
    comparator's, leave one of three outcomes: a comparator pair gives a dependence of the commitment
    bases, a digit that the link and the range openings disagree on gives one, or every lane of the leaf
    is sound.
   */
  lemma Sound(p: Public, e: Evidence, v: Family, r: Family)
    requires Field(p) && p.bases.value % p.q != 0 && Conclusive(p, e) && Ranged(p, e.link.0.proof, v, r)
    requires var x := e.link.0.proof;
             x.link.feldman ==> forall s :: s in p.leaf.receivers ==> s.blinding == CE.Ciphertext(0, 0)
    ensures var x, y := e.link.0, e.link.1;
            || (exists j :: 0 <= j < |e.forks| && ForkDepends(p, e.forks[j].0, e.forks[j].1, v, r))
            || (exists k :: 0 <= k < |x.proof.link.lanes| && LaneDepends(p, x, y, v, r, k))
            || forall k :: 0 <= k < |x.proof.link.lanes| ==> LaneSound(p, x.proof, v, k)
  {
    hide Forks, LinkForks, Ranged, LaneSound, ForkDepends, LaneDepends, CanonicalLane, CongV, LinkOpening, LaneSized, LaneAt;
    var x, y := e.link.0, e.link.1;
    CanonicalOrDepends(p, e, v, r);
    if forall k :: 0 <= k < |x.proof.link.lanes| ==> CanonicalLane(p.q, Modulus(p), v, k) {
      forall k | 0 <= k < |x.proof.link.lanes| && !LaneDepends(p, x, y, v, r, k) ensures LaneSound(p, x.proof, v, k) {
        LaneAgreesOrDepends(p, x, y, v, r, k);
        SizedLane(p, x, y, k);
        LaneIsSound(p, x, y, v, r, k);
      }
    }
  }

  lemma SizedLane(p: Public, x: Run, y: Run, k: nat)
    requires LaneSized(p, x, y, k)
    ensures k < |x.proof.link.lanes| && 0 < x.proof.link.lanes[k].receiver <= |p.leaf.receivers|
  {}
}
