/**
  The link proof: one sigma protocol showing that the digits inside a receiver's ciphertexts are the
  digits inside the digit commitments, and that weighted by powers of the radix they make up the
  evaluation commitment.  In Pedersen mode the blinding of that commitment is linked to its own
  ciphertext as well; in Feldman mode there is no blinding.

  `Complete` shows every honest proof is accepted; `SpecialSound` extracts the openings from two
  accepted responses.
 */
module LinkProof {
  import opened Common
  import opened Modular
  import opened Vectors
  import opened Polynomials
  import opened DiscreteLog
  import opened ChunkEncryption
  import opened ChunkRoundTrip

  datatype DigitProof = DigitProof(commitment: Point, tCommitment: Point, tCoin: Point, tCiphertext: Point,
                                   zDigit: Scalar, zCommitment: Scalar, zCoin: Scalar)
  datatype LaneProof = LaneProof(receiver: int, digits: seq<DigitProof>, tEvaluation: Point, tBlindingCoin: Point,
                                 tBlinding: Point, zBlinding: Scalar, zBlindingCoin: Scalar)
  datatype Proof = Proof(feldman: bool, lanes: seq<LaneProof>)

  /** The public bases and the radix. */
  datatype Setting = Setting(q: int, G: Point, H: Point, base: nat, chunks: nat)

  /** The receivers' encrypted shares and how many lanes one proof may cover. */
  datatype Leaf = Leaf(receivers: seq<Share>, laneLimit: nat)

  // ---------------------------------------------------------------- one relation

  /** `t + e*P == A*z + B*w`: the check of one first move against one response. */
  predicate Checks(q: int, t: Point, e: int, P: Point, A: Point, z: Scalar, B: Point, w: Scalar)
    requires q > 0
  {
    Cong(q, t + P * e, A * z + B * w)
  }

  /** An honest response passes its check. */
  lemma HonestChecks(q: int, e: int, P: Point, A: Point, d: Scalar, m: Scalar, B: Point, r: Scalar, n: Scalar,
                     t: Point, z: Scalar, w: Scalar)
    requires q > 0 && Cong(q, P, A * d + B * r) && Cong(q, t, A * m + B * n)
    requires Cong(q, z, e * d + m) && Cong(q, w, e * r + n)
    ensures Checks(q, t, e, P, A, z, B, w)
  {
    CongMul(q, P, A * d + B * r, e, e);
    CongAdd(q, t, A * m + B * n, P * e, (A * d + B * r) * e);
    CongMulLeft(q, A, z, e * d + m);
    CongMulLeft(q, B, w, e * r + n);
    CongAdd(q, A * z, A * (e * d + m), B * w, B * (e * r + n));
    RegroupResponse(A, B, d, r, m, n, e);
  }

  lemma RegroupResponse(A: int, B: int, d: int, r: int, m: int, n: int, e: int)
    ensures A * (e * d + m) + B * (e * r + n) == (A * m + B * n) + (A * d + B * r) * e
  {
    assert A * (e * d) == (A * d) * e && B * (e * r) == (B * r) * e;
  }

  /** What two responses to different challenges reveal. */
  function Extract(q: int, z: Scalar, z': Scalar, e: int, e': int): Scalar
    requires q > 1
  {
    (z - z') * Inv(q, e - e')
  }

  lemma ExtractOpens(q: int, e: int, e': int, t: Point, P: Point, A: Point, z: Scalar, z': Scalar, B: Point,
                     w: Scalar, w': Scalar)
    requires Prime(q) && !Cong(q, e, e') && Checks(q, t, e, P, A, z, B, w) && Checks(q, t, e', P, A, z', B, w')
    ensures Cong(q, P, A * Extract(q, z, z', e, e') + B * Extract(q, w, w', e, e'))
  {
    var d, i := e - e', Inv(q, e - e');
    CongSub(q, t + P * e, A * z + B * w, t + P * e', A * z' + B * w');
    CongZero(q, e, e');
    InvCorrect(q, d);
    SubtractChecks(t, P, e, e', A, B, z, z', w, w');
    CongMulLeft(q, i, P * d, A * (z - z') + B * (w - w'));
    MultiplyOut(i, P, d, A, z - z', B, w - w');
    UnitFactor(q, d * i, P);
  }

  lemma SubtractChecks(t: int, P: int, e: int, e': int, A: int, B: int, z: int, z': int, w: int, w': int)
    ensures (t + P * e) - (t + P * e') == P * (e - e')
    ensures (A * z + B * w) - (A * z' + B * w') == A * (z - z') + B * (w - w')
  {}

  lemma MultiplyOut(i: int, P: int, d: int, A: int, x: int, B: int, y: int)
    ensures i * (P * d) == (d * i) * P && i * (A * x + B * y) == A * (x * i) + B * (y * i)
  {
    assert i * (A * x) == A * (x * i) && i * (B * y) == B * (y * i);
  }

  // ---------------------------------------------------------------- acceptance

  predicate DigitAccepts(s: Setting, pk: Point, c: Ciphertext, e: int, d: DigitProof)
    requires s.q > 0
  {
    && Checks(s.q, d.tCommitment, e, d.commitment, s.G, d.zDigit, s.H, d.zCommitment)
    && Checks(s.q, d.tCoin, e, c.r, s.G, d.zCoin, 0, 0)
    && Checks(s.q, d.tCiphertext, e, c.c, s.G, d.zDigit, pk, d.zCoin)
  }

  function DigitResponses(digits: seq<DigitProof>): (r: Vec)
    ensures |r| == |digits|
  {
    seq(|digits|, i requires 0 <= i < |digits| => digits[i].zDigit)
  }

  predicate EvaluationAccepts(s: Setting, feldman: bool, share: Share, e: int, lane: LaneProof)
    requires s.q > 0
  {
    Checks(s.q, lane.tEvaluation, e, share.commitment, s.G, Eval(DigitResponses(lane.digits), s.base), s.H,
           if feldman then 0 else lane.zBlinding)
  }

  predicate BlindingAccepts(s: Setting, share: Share, e: int, lane: LaneProof)
    requires s.q > 0
  {
    Checks(s.q, lane.tBlindingCoin, e, share.blinding.r, s.G, lane.zBlindingCoin, 0, 0) &&
    Checks(s.q, lane.tBlinding, e, share.blinding.c, s.H, lane.zBlinding, share.pk, lane.zBlindingCoin)
  }

  /** Every check of one lane under one challenge. */
  ghost predicate LaneAccepts(s: Setting, feldman: bool, share: Share, e: int, lane: LaneProof)
    requires s.q > 0
  {
    && |lane.digits| == |share.chunks|
    && (forall i :: 0 <= i < |lane.digits| ==> DigitAccepts(s, share.pk, share.chunks[i], e, lane.digits[i]))
    && EvaluationAccepts(s, feldman, share, e, lane)
    && (!feldman ==> BlindingAccepts(s, share, e, lane))
  }

  predicate InLeaf(s: Setting, leaf: Leaf, lane: LaneProof) {
    0 < lane.receiver <= |leaf.receivers| && |lane.digits| == s.chunks &&
    |leaf.receivers[lane.receiver - 1].chunks| == s.chunks
  }

  /** Lanes in strictly increasing receiver order, all with the right number of digits. */
  ghost predicate ShapeOk(s: Setting, leaf: Leaf, lanes: seq<LaneProof>) {
    && 0 < |lanes| <= leaf.laneLimit
    && (forall k :: 0 <= k < |lanes| ==> InLeaf(s, leaf, lanes[k]))
    && (forall j, k :: 0 <= j < k < |lanes| ==> lanes[j].receiver < lanes[k].receiver)
  }

  /** The first move of a digit and of a lane, as hashed. */
  function DigitMoves(digits: seq<DigitProof>): Transcript {
    if |digits| == 0 then []
    else
      var d := digits[|digits| - 1];
      DigitMoves(digits[..|digits| - 1]) + [d.commitment, d.tCommitment, d.tCoin, d.tCiphertext]
  }

  function LaneMoves(feldman: bool, lane: LaneProof): Transcript {
    [lane.receiver, |lane.digits|] + DigitMoves(lane.digits) + [lane.tEvaluation] +
    (if feldman then [] else [lane.tBlindingCoin, lane.tBlinding])
  }

  function FirstMoves(feldman: bool, lanes: seq<LaneProof>): Transcript {
    if |lanes| == 0 then []
    else FirstMoves(feldman, lanes[..|lanes| - 1]) + LaneMoves(feldman, lanes[|lanes| - 1])
  }

  function Challenge(q: int, oracle: Oracle, statement: seq<int>, proof: Proof): int
    requires q > 0
  {
    oracle(if proof.feldman then "feldman-link/challenge/v1" else "compact-link/challenge",
           statement + [|proof.lanes|] + FirstMoves(proof.feldman, proof.lanes)) % q
  }

  ghost predicate Accepts(s: Setting, oracle: Oracle, leaf: Leaf, statement: seq<int>, proof: Proof)
    requires s.q > 0
  {
    && |statement| == 32 && ShapeOk(s, leaf, proof.lanes)
    && var e := Challenge(s.q, oracle, statement, proof);
    forall k :: 0 <= k < |proof.lanes| ==>
      LaneAccepts(s, proof.feldman, leaf.receivers[proof.lanes[k].receiver - 1], e, proof.lanes[k])
  }

  /** An accepted proof covers different receivers of the leaf, within its lane limit, one digit per chunk. */
  lemma AcceptedLanes(s: Setting, oracle: Oracle, leaf: Leaf, statement: seq<int>, proof: Proof)
    requires s.q > 0 && Accepts(s, oracle, leaf, statement, proof)
    ensures |statement| == 32 && 0 < |proof.lanes| <= leaf.laneLimit
    ensures forall k :: 0 <= k < |proof.lanes| ==>
              1 <= proof.lanes[k].receiver <= |leaf.receivers| && |proof.lanes[k].digits| == s.chunks
    ensures forall j, k :: 0 <= j < k < |proof.lanes| ==> proof.lanes[j].receiver != proof.lanes[k].receiver
  {
    forall k | 0 <= k < |proof.lanes| ensures 1 <= proof.lanes[k].receiver <= |leaf.receivers| && |proof.lanes[k].digits| == s.chunks {
      assert InLeaf(s, leaf, proof.lanes[k]);
    }
  }

  // ---------------------------------------------------------------- special soundness

  /** What the extractor learns about one lane. */
  datatype Openings = Openings(digits: Vec, rhos: Vec, coins: Vec, blinding: Scalar, blindingCoin: Scalar)

  ghost predicate DigitOpened(s: Setting, share: Share, lane: LaneProof, o: Openings, i: nat)
    requires s.q > 0
  {
    i < |lane.digits| == |share.chunks| == |o.digits| == |o.rhos| == |o.coins| &&
    Cong(s.q, lane.digits[i].commitment, s.G * o.digits[i] + s.H * o.rhos[i]) &&
    Cong(s.q, share.chunks[i].r, s.G * o.coins[i]) &&
    Cong(s.q, share.chunks[i].c, s.G * o.digits[i] + share.pk * o.coins[i])
  }

  /** One set of digits and coins that opens everything the lane commits to. */
  ghost predicate LaneOpened(s: Setting, feldman: bool, share: Share, lane: LaneProof, o: Openings)
    requires s.q > 0
  {
    && |o.digits| == |lane.digits|
    && (forall i :: 0 <= i < |lane.digits| ==> DigitOpened(s, share, lane, o, i))
    && Cong(s.q, share.commitment, s.G * Eval(o.digits, s.base) + s.H * (if feldman then 0 else o.blinding))
    && (!feldman ==>
          Cong(s.q, share.blinding.r, s.G * o.blindingCoin) &&
          Cong(s.q, share.blinding.c, s.H * o.blinding + share.pk * o.blindingCoin))
  }

  /** The same first move. */
  predicate SameFirstMove(a: LaneProof, b: LaneProof) {
    |a.digits| == |b.digits| && a.receiver == b.receiver && a.tEvaluation == b.tEvaluation &&
    a.tBlindingCoin == b.tBlindingCoin && a.tBlinding == b.tBlinding &&
    forall i :: 0 <= i < |a.digits| ==> SameDigitMove(a.digits[i], b.digits[i])
  }

  predicate SameDigitMove(a: DigitProof, b: DigitProof) {
    a.commitment == b.commitment && a.tCommitment == b.tCommitment && a.tCoin == b.tCoin && a.tCiphertext == b.tCiphertext
  }

  function ExtractAll(q: int, a: LaneProof, b: LaneProof, e: int, e': int): Openings
    requires q > 1 && |a.digits| == |b.digits|
  {
    var n := |a.digits|;
    Openings(seq(n, i requires 0 <= i < n => Extract(q, a.digits[i].zDigit, b.digits[i].zDigit, e, e')),
             seq(n, i requires 0 <= i < n => Extract(q, a.digits[i].zCommitment, b.digits[i].zCommitment, e, e')),
             seq(n, i requires 0 <= i < n => Extract(q, a.digits[i].zCoin, b.digits[i].zCoin, e, e')),
             Extract(q, a.zBlinding, b.zBlinding, e, e'), Extract(q, a.zBlindingCoin, b.zBlindingCoin, e, e'))
  }

  /** Two accepted responses to one first move determine openings of everything at once. */
  lemma SpecialSound(s: Setting, feldman: bool, share: Share, a: LaneProof, b: LaneProof, e: int, e': int)
    requires Prime(s.q) && !Cong(s.q, e, e') && SameFirstMove(a, b)
    requires LaneAccepts(s, feldman, share, e, a) && LaneAccepts(s, feldman, share, e', b)
    ensures LaneOpened(s, feldman, share, a, ExtractAll(s.q, a, b, e, e'))
  {
    hide Checks, Eval, Extract, DigitOpened, DigitAccepts;
    var o := ExtractAll(s.q, a, b, e, e');
    forall i | 0 <= i < |a.digits| ensures DigitOpened(s, share, a, o, i) {
      DigitExtracted(s, share, a, b, e, e', i);
    }
    EvaluationExtracted(s, feldman, share, a, b, e, e');
    if !feldman {
      BlindingExtracted(s, share, a, b, e, e');
    }
  }

  lemma NoSecondBase(q: int, P: Point, A: Point, x: Scalar, y: Scalar)
    requires q > 0 && Cong(q, P, A * x + 0 * y)
    ensures Cong(q, P, A * x)
  {}

  lemma DigitExtracted(s: Setting, share: Share, a: LaneProof, b: LaneProof, e: int, e': int, i: nat)
    requires Prime(s.q) && !Cong(s.q, e, e') && SameFirstMove(a, b) && i < |a.digits| == |share.chunks|
    requires DigitAccepts(s, share.pk, share.chunks[i], e, a.digits[i])
    requires DigitAccepts(s, share.pk, share.chunks[i], e', b.digits[i])
    ensures DigitOpened(s, share, a, ExtractAll(s.q, a, b, e, e'), i)
  {
    hide Checks, Extract;
    var d, d', c := a.digits[i], b.digits[i], share.chunks[i];
    assert SameDigitMove(d, d');
    ExtractOpens(s.q, e, e', d.tCommitment, d.commitment, s.G, d.zDigit, d'.zDigit, s.H, d.zCommitment, d'.zCommitment);
    ExtractOpens(s.q, e, e', d.tCoin, c.r, s.G, d.zCoin, d'.zCoin, 0, 0, 0);
    NoSecondBase(s.q, c.r, s.G, Extract(s.q, d.zCoin, d'.zCoin, e, e'), Extract(s.q, 0, 0, e, e'));
    ExtractOpens(s.q, e, e', d.tCiphertext, c.c, s.G, d.zDigit, d'.zDigit, share.pk, d.zCoin, d'.zCoin);
  }

  lemma EvaluationExtracted(s: Setting, feldman: bool, share: Share, a: LaneProof, b: LaneProof, e: int, e': int)
    requires Prime(s.q) && !Cong(s.q, e, e') && SameFirstMove(a, b)
    requires EvaluationAccepts(s, feldman, share, e, a) && EvaluationAccepts(s, feldman, share, e', b)
    ensures var o := ExtractAll(s.q, a, b, e, e');
            Cong(s.q, share.commitment, s.G * Eval(o.digits, s.base) + s.H * (if feldman then 0 else o.blinding))
  {
    hide Checks, Eval;
    var o := ExtractAll(s.q, a, b, e, e');
    var z, z' := DigitResponses(a.digits), DigitResponses(b.digits);
    ExtractOpens(s.q, e, e', a.tEvaluation, share.commitment, s.G, Eval(z, s.base), Eval(z', s.base), s.H,
                 if feldman then 0 else a.zBlinding, if feldman then 0 else b.zBlinding);
    var i := Inv(s.q, e - e');
    ScaledDifference(z, z', i, s.base, o.digits);
  }

  lemma {:induction false} ScaledDifference(z: Vec, z': Vec, i: int, x: int, d: Vec)
    requires |z| == |z'| == |d| && forall k :: 0 <= k < |z| ==> d[k] == (z[k] - z'[k]) * i
    ensures Eval(d, x) == (Eval(z, x) - Eval(z', x)) * i
    decreases |z|
  {
    if |z| > 0 {
      ScaledDifference(z[1..], z'[1..], i, x, d[1..]);
      DifferenceStep(z[0], z'[0], Eval(z[1..], x), Eval(z'[1..], x), i, x);
    }
  }

  lemma DifferenceStep(a: int, b: int, s: int, t: int, i: int, x: int)
    ensures (a - b) * i + x * ((s - t) * i) == ((a + x * s) - (b + x * t)) * i
  {
    assert x * ((s - t) * i) == (x * s - x * t) * i;
  }

  lemma BlindingExtracted(s: Setting, share: Share, a: LaneProof, b: LaneProof, e: int, e': int)
    requires Prime(s.q) && !Cong(s.q, e, e') && SameFirstMove(a, b)
    requires BlindingAccepts(s, share, e, a) && BlindingAccepts(s, share, e', b)
    ensures var o := ExtractAll(s.q, a, b, e, e');
            Cong(s.q, share.blinding.r, s.G * o.blindingCoin) &&
            Cong(s.q, share.blinding.c, s.H * o.blinding + share.pk * o.blindingCoin)
  {
    hide Checks, Extract;
    ExtractOpens(s.q, e, e', a.tBlindingCoin, share.blinding.r, s.G, a.zBlindingCoin, b.zBlindingCoin, 0, 0, 0);
    NoSecondBase(s.q, share.blinding.r, s.G, Extract(s.q, a.zBlindingCoin, b.zBlindingCoin, e, e'),
                 Extract(s.q, 0, 0, e, e'));
    ExtractOpens(s.q, e, e', a.tBlinding, share.blinding.c, s.H, a.zBlinding, b.zBlinding, share.pk, a.zBlindingCoin,
                 b.zBlindingCoin);
  }

  /**
    An opened lane is a share that the receiver decrypts to exactly the opened digits.  A Feldman lane
    carries the identity as its blinding ciphertext and opens with no blinding.
   */
  lemma OpenedDecrypts(s: Setting, feldman: bool, share: Share, lane: LaneProof, o: Openings, sk: Scalar)
    requires s.q > 0 && LaneOpened(s, feldman, share, lane, o) && Cong(s.q, s.G * sk, share.pk)
    requires |lane.digits| == |share.chunks| && (feldman ==> share.blinding == Ciphertext(0, 0))
    ensures Holds(s.q, s.G, s.H, sk, share, o.digits, Eval(o.digits, s.base), if feldman then 0 else o.blinding)
  {
    hide Eval;
    forall i | 0 <= i < |o.digits| ensures Message(s.q, sk, share.chunks[i]) == PointTimes(s.q, s.G, o.digits[i]) {
      assert DigitOpened(s, share, lane, o, i);
      OpenedMessage(s.q, s.G, sk, share.pk, share.chunks[i], s.G, o.digits[i], o.coins[i]);
    }
    if !feldman {
      OpenedMessage(s.q, s.G, sk, share.pk, share.blinding, s.H, o.blinding, o.blindingCoin);
    }
  }

  lemma OpenedMessage(q: int, G: Point, sk: Scalar, pk: Point, c: Ciphertext, B: Point, v: Scalar, coin: Scalar)
    requires q > 0 && Cong(q, G * sk, pk) && Cong(q, c.r, G * coin) && Cong(q, c.c, B * v + pk * coin)
    ensures Message(q, sk, c) == PointTimes(q, B, v)
  {
    CongMul(q, c.r, G * coin, sk, sk);
    CongMul(q, G * sk, pk, coin, coin);
    SwapFactors(G, coin, sk);
    CongSub(q, c.c, B * v + pk * coin, c.r * sk, pk * coin);
    assert v * B == B * v;
  }
}
