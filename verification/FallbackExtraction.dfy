/**
  Soundness of the fallback from accepted fallbacks alone: the openings that `FallbackSoundness` works with
  are extracted from its three range proofs.
 */
module FallbackExtraction {
  import opened Common
  import opened Modular
  import opened Vectors
  import opened Polynomials
  import opened Comparator
  import opened ComparatorRows
  import opened Fallback
  import opened FallbackSoundness
  import Bits
  import RangeProof
  import RangeExtraction
  import RangeSoundness
  import RF = RangeForks
  import IPF = InnerProductForks
  import CP = ComparatorProof
  import CE = ChunkEncryption
  import LP = LinkProof

  /** The three range proofs of a fallback. */
  datatype Part = Digits | Complements | Borrows

  function RangeOf(x: Proof, part: Part): RangeProof.Proof {
    match part
    case Digits => x.digitRange
    case Complements => x.comparator.complementRange
    case Borrows => x.comparator.borrowRange
  }

  function CommitmentsOf(x: Proof, part: Part): seq<Point> {
    match part
    case Digits => LinkCommitments(x.link.lanes)
    case Complements => x.comparator.complement
    case Borrows => x.comparator.borrow
  }

  function BitsOf(part: Part): nat {
    if part == Borrows then 1 else 8
  }

  function LabelOf(part: Part): string {
    match part
    case Digits => "scalar-digit-range"
    case Complements => "complement-range"
    case Borrows => "borrow-range"
  }

  /** What the range proof of one part is about. */
  function RangePublic(p: Public, x: Proof, part: Part): RF.Public {
    RF.Public(p.q, p.bases, CP.Subproof(p.hash, StatementOf(p, x), LabelOf(part)), CommitmentsOf(x, part), BitsOf(part))
  }

  function RangeRun(x: Run, part: Part): RF.Run {
    RF.Run(x.oracle, RangeOf(x.proof, part))
  }

  function Rounds(x: Proof, part: Part): nat {
    |RangeOf(x, part).inner.left|
  }

  /** An accepted fallback has three accepted range proofs. */
  lemma RangeAccepted(p: Public, x: Run, part: Part)
    requires p.q > 1 && Accepted(p, x)
    ensures RF.RunAccepted(RangePublic(p, x.proof, part), RangeRun(x, part))
  {
    hide LP.Accepts, RangeProof.Accepts, CP.Relation, DigitsOf, LinkCommitments, Power;
  }

  lemma RangeSupported(p: Public, x: Run, part: Part)
    requires Prime(p.q) && Accepted(p, x)
    ensures RF.Supported(RangePublic(p, x.proof, part), Rounds(x.proof, part))
  {
    hide Accepted, RangePublic, RF.RunAccepted, RF.Supported;
    RangeAccepted(p, x, part);
    SamePrime(p, x.proof, part);
    AcceptedSupported(RangePublic(p, x.proof, part), RangeRun(x, part));
  }

  lemma SamePrime(p: Public, x: Proof, part: Part)
    ensures RangePublic(p, x, part).q == p.q && RangePublic(p, x, part).bases == p.bases
    ensures RangePublic(p, x, part).commitments == CommitmentsOf(x, part) && RangePublic(p, x, part).bits == BitsOf(part)
  {}

  lemma AcceptedSupported(r: RF.Public, x: RF.Run)
    requires Prime(r.q) && RF.RunAccepted(r, x)
    ensures RF.Supported(r, |x.proof.inner.left|)
  {
    hide RangeProof.PolynomialCheck, RangeProof.Reconstructed, Bits.Pow2;
  }

  // ---------------------------------------------------------------- the forests

  /** Accepted fallbacks with the commitments of `x` that part, in one range proof, where their paths part. */
  ghost predicate PartForest(p: Public, x: Run, part: Part, run: IPF.Path -> Run)
    requires Prime(p.q) && Accepted(p, x)
  {
    RangeSupported(p, x, part);
    var r, rounds := RangePublic(p, x.proof, part), Rounds(x.proof, part);
    (forall c :: RF.In(r, rounds, c) ==> Accepted(p, run(c)) && SameCommitments(p, x.proof, run(c).proof)) &&
    forall c, d, e: nat :: RF.In(r, rounds, c) && RF.In(r, rounds, d) && IPF.Meet(c, d, e) ==>
      RF.Agree(r, rounds, RangeRun(run(c), part), RangeRun(run(d), part), e, c[e] == d[e])
  }

  function Projected(part: Part, run: IPF.Path -> Run): IPF.Path -> RF.Run {
    (c: IPF.Path) => RangeRun(run(c), part)
  }

  lemma SameStatement(p: Public, x: Proof, y: Proof, part: Part)
    requires SameCommitments(p, x, y)
    ensures RangePublic(p, x, part) == RangePublic(p, y, part)
  {}

  lemma ForestProjected(p: Public, x: Run, part: Part, run: IPF.Path -> Run)
    requires Prime(p.q) && Accepted(p, x) && PartForest(p, x, part, run)
    ensures RF.Supported(RangePublic(p, x.proof, part), Rounds(x.proof, part))
    ensures RF.Forest(RangePublic(p, x.proof, part), Rounds(x.proof, part), Projected(part, run))
  {
    hide Accepted, RangePublic, RF.RunAccepted, RF.Agree, RF.In, SameCommitments;
    RangeSupported(p, x, part);
    SamePrime(p, x.proof, part);
    var r, rounds := RangePublic(p, x.proof, part), Rounds(x.proof, part);
    forall c | RF.In(r, rounds, c) ensures RF.RunAccepted(r, Projected(part, run)(c)) {
      RangeAccepted(p, run(c), part);
      SameStatement(p, x.proof, run(c).proof, part);
    }
  }

  // ---------------------------------------------------------------- the openings

  ghost function ClaimFor(p: Public, x: Run, part: Part): RangeExtraction.Claim
    requires Prime(p.q) && Accepted(p, x)
  {
    RangeSupported(p, x, part);
    RF.ClaimOf(RangePublic(p, x.proof, part), Rounds(x.proof, part))
  }

  ghost function EvidenceFor(p: Public, x: Run, part: Part, run: IPF.Path -> Run): RangeSoundness.Evidence
    requires Prime(p.q) && Accepted(p, x)
  {
    RangeSupported(p, x, part);
    RF.EvidenceOf(RangePublic(p, x.proof, part), Rounds(x.proof, part), Projected(part, run))
  }

  ghost predicate EvidenceFits(c: RangeExtraction.Claim, ev: RangeSoundness.Evidence) {
    RangeExtraction.Sane(c) && RangeSoundness.WellShaped(c, ev) && |ev| > 0
  }

  /** Something computed from the answers to one range proof is a relation between the bases. */
  ghost predicate PartBroken(p: Public, x: Run, part: Part, run: IPF.Path -> Run)
    requires Prime(p.q) && Accepted(p, x)
  {
    var c, ev := ClaimFor(p, x, part), EvidenceFor(p, x, part, run);
    EvidenceFits(c, ev) && RangeSoundness.Broken(c, ev)
  }

  /** The values or the blindings extracted from one range proof. */
  ghost function PartValues(c: RangeExtraction.Claim, ev: RangeSoundness.Evidence, blinding: bool): (r: Vec)
    requires EvidenceFits(c, ev)
    ensures |r| == |c.commitments|
  {
    seq(|c.commitments|, k requires 0 <= k < |c.commitments| =>
          if blinding then RangeSoundness.Blinding(c, ev, k) else RangeSoundness.Value(c, ev, k))
  }

  /** The computed values and blindings open the commitments, and the values have the proved width. */
  lemma ValuesOpen(c: RangeExtraction.Claim, ev: RangeSoundness.Evidence)
    requires EvidenceFits(c, ev) && forall k :: 0 <= k < |c.commitments| ==> RangeSoundness.InRangeOpening(c, ev, k)
    ensures OpenedVec(c.q, c.bases.value, c.bases.blind, c.commitments, PartValues(c, ev, false), PartValues(c, ev, true))
    ensures InRadix(Bits.Pow2(c.bits), PartValues(c, ev, false))
  {
    hide RangeSoundness.Value, RangeSoundness.Blinding, Bits.Pow2, RangeSoundness.WellShaped;
    forall k | 0 <= k < |c.commitments|
      ensures OpensTo(c.q, c.bases.value, c.bases.blind, c.commitments[k], PartValues(c, ev, false)[k], PartValues(c, ev, true)[k])
      ensures 0 <= PartValues(c, ev, false)[k] < Bits.Pow2(c.bits)
    {
      assert RangeSoundness.InRangeOpening(c, ev, k);
    }
  }

  ghost predicate PartOpened(c: RangeExtraction.Claim, ev: RangeSoundness.Evidence)
    requires EvidenceFits(c, ev)
  {
    OpenedVec(c.q, c.bases.value, c.bases.blind, c.commitments, PartValues(c, ev, false), PartValues(c, ev, true)) &&
    InRadix(Bits.Pow2(c.bits), PartValues(c, ev, false))
  }

  lemma PartFits(p: Public, x: Run, part: Part, run: IPF.Path -> Run)
    requires Prime(p.q) && Accepted(p, x) && PartForest(p, x, part, run)
    ensures EvidenceFits(ClaimFor(p, x, part), EvidenceFor(p, x, part, run))
    ensures PartBroken(p, x, part, run) || PartOpened(ClaimFor(p, x, part), EvidenceFor(p, x, part, run))
  {
    hide Accepted, RangePublic, RF.Forest, RF.Supported, RangeSoundness.Broken, RangeSoundness.WellShaped, PartForest, Bits.Pow2,
      RF.EvidenceOf, RangeSoundness.InRangeOpening, PartOpened;
    ForestProjected(p, x, part, run);
    SamePrime(p, x.proof, part);
    RF.RangeSound(RangePublic(p, x.proof, part), Rounds(x.proof, part), Projected(part, run));
    ClaimFields(p, x, part);
    if !PartBroken(p, x, part, run) {
      PartIsOpened(ClaimFor(p, x, part), EvidenceFor(p, x, part, run));
    }
  }

  lemma PartIsOpened(c: RangeExtraction.Claim, ev: RangeSoundness.Evidence)
    requires EvidenceFits(c, ev) && forall k :: 0 <= k < |c.commitments| ==> RangeSoundness.InRangeOpening(c, ev, k)
    ensures PartOpened(c, ev)
  {
    hide RangeSoundness.InRangeOpening, EvidenceFits, OpenedVec, InRadix;
    ValuesOpen(c, ev);
  }

  lemma ClaimFields(p: Public, x: Run, part: Part)
    requires Prime(p.q) && Accepted(p, x)
    ensures var c := ClaimFor(p, x, part);
            c.q == p.q && c.bases == p.bases && c.commitments == CommitmentsOf(x.proof, part) && c.bits == BitsOf(part)
  {
    hide Accepted, RF.Supported;
    RangeSupported(p, x, part);
  }

  // ---------------------------------------------------------------- the whole fallback

  /** The forests of all three parts. */
  ghost predicate AllForests(p: Public, x: Run, runs: Part -> IPF.Path -> Run)
    requires Prime(p.q) && Accepted(p, x)
  {
    forall part: Part :: PartForest(p, x, part, runs(part))
  }

  ghost predicate AllFit(p: Public, x: Run, runs: Part -> IPF.Path -> Run)
    requires Prime(p.q) && Accepted(p, x)
  {
    forall part: Part :: EvidenceFits(ClaimFor(p, x, part), EvidenceFor(p, x, part, runs(part)))
  }

  /** Everything extracted: values under `1`, blindings under `0`. */
  ghost function Extracted(p: Public, x: Run, runs: Part -> IPF.Path -> Run, blinding: bool): Family
    requires Prime(p.q) && Accepted(p, x) && AllFit(p, x, runs)
  {
    Family(if blinding then 0 else 1, PartValues(ClaimFor(p, x, Digits), EvidenceFor(p, x, Digits, runs(Digits)), blinding),
           PartValues(ClaimFor(p, x, Complements), EvidenceFor(p, x, Complements, runs(Complements)), blinding),
           PartValues(ClaimFor(p, x, Borrows), EvidenceFor(p, x, Borrows, runs(Borrows)), blinding))
  }

  lemma ExtractedRanged(p: Public, x: Run, runs: Part -> IPF.Path -> Run)
    requires Prime(p.q) && Accepted(p, x) && AllForests(p, x, runs)
    ensures AllFit(p, x, runs)
    ensures (exists part: Part :: PartBroken(p, x, part, runs(part))) ||
            Ranged(p, x.proof, Extracted(p, x, runs, false), Extracted(p, x, runs, true))
  {
    hide Accepted, PartForest, PartBroken, EvidenceFits, PartValues, OpenedVec, InRadix, ClaimFor, EvidenceFor;
    forall part: Part
      ensures EvidenceFits(ClaimFor(p, x, part), EvidenceFor(p, x, part, runs(part)))
      ensures PartBroken(p, x, part, runs(part)) || PartOpened(ClaimFor(p, x, part), EvidenceFor(p, x, part, runs(part)))
    {
      PartFits(p, x, part, runs(part));
    }
    ClaimFields(p, x, Digits);
    ClaimFields(p, x, Complements);
    ClaimFields(p, x, Borrows);
    AcceptedShape(p, x);
    assert Bits.Pow2(8) == RADIX && Bits.Pow2(1) == 2;
  }

  lemma AcceptedShape(p: Public, x: Run)
    requires p.q > 1 && Accepted(p, x)
    ensures Shape(PointsOf(p, x.proof), p.chunks, |x.proof.link.lanes|)
  {
    hide LP.Accepts, RangeProof.Accepts, CP.Relation, DigitsOf, LinkCommitments, Power, CP.RelationHolds;
  }

  /** Accepted fallbacks with enough different challenges everywhere. */
  ghost predicate Convincing(p: Public, e: Evidence, runs: Part -> IPF.Path -> Run) {
    && Field(p) && p.bases.value % p.q != 0 && Conclusive(p, e) && Accepted(p, e.link.0) && AllForests(p, e.link.0, runs)
    && (e.link.0.proof.link.feldman ==> forall s :: s in p.leaf.receivers ==> s.blinding == CE.Ciphertext(0, 0))
  }

  /**
    In a range proof something computed from the answers is a relation between the bases, or a
    comparator fork or a lane gives a dependence of the two commitment bases, or every lane writes a
    canonical scalar and its receiver decrypts exactly that.
   */
  ghost predicate Outcome(p: Public, e: Evidence, runs: Part -> IPF.Path -> Run)
    requires Prime(p.q) && Accepted(p, e.link.0) && AllFit(p, e.link.0, runs)
  {
    var x, y := e.link.0, e.link.1;
    var v, r := Extracted(p, x, runs, false), Extracted(p, x, runs, true);
    || (exists part: Part :: PartBroken(p, x, part, runs(part)))
    || (exists j :: 0 <= j < |e.forks| && ForkDepends(p, e.forks[j].0, e.forks[j].1, v, r))
    || (exists k :: 0 <= k < |x.proof.link.lanes| && LaneDepends(p, x, y, v, r, k))
    || forall k :: 0 <= k < |x.proof.link.lanes| ==> LaneSound(p, x.proof, v, k)
  }

  /** Soundness of the fallback from accepted fallbacks alone. */
  lemma SoundFromProofs(p: Public, e: Evidence, runs: Part -> IPF.Path -> Run)
    requires Convincing(p, e, runs)
    ensures AllFit(p, e.link.0, runs) && Outcome(p, e, runs)
  {
    hide Accepted, AllForests, PartBroken, Conclusive, Ranged, ForkDepends, LaneDepends, LaneSound, Extracted, AllFit;
    ExtractedRanged(p, e.link.0, runs);
    var v, r := Extracted(p, e.link.0, runs, false), Extracted(p, e.link.0, runs, true);
    if Ranged(p, e.link.0.proof, v, r) {
      Sound(p, e, v, r);
    }
  }
}
