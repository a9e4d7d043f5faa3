/** The running link prover and verifier, and the completeness of the proofs they exchange. */
module LinkMethods {
  import opened Common
  import opened Modular
  import opened Vectors
  import opened Polynomials
  import opened ChunkEncryption
  import opened DiscreteLog
  import opened LinkProof

  /** The randomness of one digit: the commitment blinding and the three masks. */
  datatype DigitMask = DigitMask(rho: Scalar, digit: Scalar, commitment: Scalar, coin: Scalar)
  datatype LaneMask = LaneMask(digits: seq<DigitMask>, blinding: Scalar, blindingCoin: Scalar)

  /** The dealer's secrets for one receiver. */
  datatype Witness = Witness(scalar: nat, coins: seq<Scalar>, blinding: Scalar, blindingCoin: Scalar)

  // ---------------------------------------------------------------- the honest lane

  function FirstDigit(s: Setting, pk: Point, value: int, m: DigitMask): DigitProof
    requires s.q > 0
  {
    DigitProof((s.G * value + s.H * m.rho) % s.q, (s.G * m.digit + s.H * m.commitment) % s.q, s.G * m.coin % s.q,
               (s.G * m.digit + pk * m.coin) % s.q, 0, 0, 0)
  }

  function AnswerDigit(q: int, e: int, value: int, coin: Scalar, m: DigitMask, d: DigitProof): DigitProof
    requires q > 0
  {
    d.(zDigit := (e * value + m.digit) % q, zCommitment := (e * m.rho + m.commitment) % q,
    zCoin := (e * coin + m.coin) % q)
  }

  function DigitMasks(masks: seq<DigitMask>): (r: Vec)
    ensures |r| == |masks|
  {
    seq(|masks|, i requires 0 <= i < |masks| => masks[i].digit)
  }

  function FirstLane(s: Setting, feldman: bool, share: Share, receiver: int, digits: Vec, mask: LaneMask): LaneProof
    requires s.q > 0 && |digits| == |mask.digits|
  {
    var n := |digits|;
    var first := seq(n, i requires 0 <= i < n => FirstDigit(s, share.pk, digits[i], mask.digits[i]));
    var evaluation := Eval(DigitMasks(mask.digits), s.base);
    if feldman then LaneProof(receiver, first, s.G * evaluation % s.q, 0, 0, 0, 0)
    else LaneProof(receiver, first, (s.G * evaluation + s.H * mask.blinding) % s.q, s.G * mask.blindingCoin % s.q,
                   (s.H * mask.blinding + share.pk * mask.blindingCoin) % s.q, 0, 0)
  }

  function AnswerLane(q: int, feldman: bool, e: int, digits: Vec, w: Witness, mask: LaneMask, lane: LaneProof): LaneProof
    requires q > 0 && |digits| == |mask.digits| == |w.coins| == |lane.digits|
  {
    var n := |digits|;
    var answered := seq(n, i requires 0 <= i < n =>
      AnswerDigit(q, e, digits[i], w.coins[i], mask.digits[i], lane.digits[i]));
    if feldman then lane.(digits := answered)
    else lane.(digits := answered, zBlinding := (e * w.blinding + mask.blinding) % q,
               zBlindingCoin := (e * w.blindingCoin + mask.blindingCoin) % q)
  }

  /** The share is the honest encryption of the witness; in Feldman mode without a blinding. */
  predicate WitnessOpens(s: Setting, feldman: bool, share: Share, w: Witness)
    requires s.q > 0 && s.base > 1
  {
    |w.coins| == s.chunks &&
    share == Encrypted(s.q, s.G, s.H, share.pk, DigitsOf(s.base, w.scalar, s.chunks), w.scalar,
                       if feldman then 0 else w.blinding, w.coins, if feldman then 0 else w.blindingCoin)
  }

  lemma DigitComplete(s: Setting, pk: Point, value: int, coin: Scalar, m: DigitMask, e: int)
    requires s.q > 0
    ensures DigitAccepts(s, pk, EncryptPoint(s.q, s.G, pk, PointTimes(s.q, s.G, value), coin), e,
                         AnswerDigit(s.q, e, value, coin, m, FirstDigit(s, pk, value, m)))
  {
    hide Checks;
    var d := AnswerDigit(s.q, e, value, coin, m, FirstDigit(s, pk, value, m));
    var c := EncryptPoint(s.q, s.G, pk, PointTimes(s.q, s.G, value), coin);
    Reductions(s.q, e * value + m.digit, e * m.rho + m.commitment, e * coin + m.coin);
    Reductions(s.q, s.G * value + s.H * m.rho, s.G * m.digit + s.H * m.commitment, s.G * m.coin);
    Reductions(s.q, s.G * m.digit + pk * m.coin, s.G * coin, s.G * coin);
    CiphertextOpens(s.q, s.G, pk, value, coin);
    HonestChecks(s.q, e, d.commitment, s.G, value, m.digit, s.H, m.rho, m.commitment, d.tCommitment, d.zDigit, d.zCommitment);
    HonestChecks(s.q, e, c.r, s.G, coin, m.coin, 0, 0, 0, d.tCoin, d.zCoin, 0);
    HonestChecks(s.q, e, c.c, s.G, value, m.digit, pk, coin, m.coin, d.tCiphertext, d.zDigit, d.zCoin);
  }

  lemma Reductions(q: int, a: int, b: int, c: int)
    requires q > 0
    ensures Cong(q, a % q, a) && Cong(q, b % q, b) && Cong(q, c % q, c)
  {
    ModCong(q, a);
    ModCong(q, b);
    ModCong(q, c);
  }

  lemma CiphertextOpens(q: int, G: Point, pk: Point, value: int, coin: Scalar)
    requires q > 0
    ensures Cong(q, EncryptPoint(q, G, pk, PointTimes(q, G, value), coin).c, G * value + pk * coin)
  {
    ModCong(q, pk * coin + PointTimes(q, G, value));
    ModAdd(q, pk * coin, value * G);
    assert value * G == G * value;
  }

  lemma EvaluationComplete(s: Setting, digits: Vec, masks: seq<DigitMask>, zs: Vec, e: int)
    requires s.q > 0 && |digits| == |masks| == |zs|
    requires forall i :: 0 <= i < |digits| ==> zs[i] == (e * digits[i] + masks[i].digit) % s.q
    ensures Cong(s.q, Eval(zs, s.base), e * Eval(digits, s.base) + Eval(DigitMasks(masks), s.base))
  {
    hide Eval;
    var plain := Plus(Scale(e, digits), DigitMasks(masks));
    EvalScale(e, digits, s.base);
    EvalPlus(Scale(e, digits), DigitMasks(masks), s.base);
    forall i | 0 <= i < |zs| ensures Cong(s.q, zs[i], plain[i]) {
      ModCong(s.q, e * digits[i] + masks[i].digit);
    }
    EvalCong(s.q, zs, plain, s.base);
  }

  /** An honest lane is accepted under every challenge, in both modes. */
  lemma LaneComplete(s: Setting, feldman: bool, share: Share, receiver: int, w: Witness, mask: LaneMask, e: int)
    requires s.q > 0 && s.base > 1 && WitnessOpens(s, feldman, share, w) && |mask.digits| == s.chunks
    requires w.scalar < Power(s.base, s.chunks)
    ensures var digits := DigitsOf(s.base, w.scalar, s.chunks);
            LaneAccepts(s, feldman, share, e,
                        AnswerLane(s.q, feldman, e, digits, w, mask, FirstLane(s, feldman, share, receiver, digits, mask)))
  {
    hide DigitAccepts, AnswerDigit, FirstDigit, EncryptPoint, Checks, Eval, Power;
    var digits := DigitsOf(s.base, w.scalar, s.chunks);
    var lane := AnswerLane(s.q, feldman, e, digits, w, mask, FirstLane(s, feldman, share, receiver, digits, mask));
    forall i | 0 <= i < s.chunks ensures DigitAccepts(s, share.pk, share.chunks[i], e, lane.digits[i]) {
      DigitComplete(s, share.pk, digits[i], w.coins[i], mask.digits[i], e);
    }
    LaneEvaluation(s, feldman, share, receiver, w, mask, e);
    if !feldman {
      LaneBlinding(s, share, receiver, w, mask, e);
    }
  }

  lemma LaneEvaluation(s: Setting, feldman: bool, share: Share, receiver: int, w: Witness, mask: LaneMask, e: int)
    requires s.q > 0 && s.base > 1 && WitnessOpens(s, feldman, share, w) && |mask.digits| == s.chunks
    requires w.scalar < Power(s.base, s.chunks)
    ensures var digits := DigitsOf(s.base, w.scalar, s.chunks);
            EvaluationAccepts(s, feldman, share, e,
                        AnswerLane(s.q, feldman, e, digits, w, mask, FirstLane(s, feldman, share, receiver, digits, mask)))
  {
    hide FirstDigit, EncryptPoint, Checks, Eval, Power;
    var digits := DigitsOf(s.base, w.scalar, s.chunks);
    var lane := AnswerLane(s.q, feldman, e, digits, w, mask, FirstLane(s, feldman, share, receiver, digits, mask));
    DigitsCorrect(s.base, w.scalar, s.chunks);
    EvaluationComplete(s, digits, mask.digits, DigitResponses(lane.digits), e);
    var b, n := if feldman then 0 else w.blinding, if feldman then 0 else mask.blinding;
    var m := Eval(DigitMasks(mask.digits), s.base);
    Reductions(s.q, s.G * w.scalar + s.H * b, s.G * m + s.H * n, e * b + n);
    HonestChecks(s.q, e, share.commitment, s.G, w.scalar, m, s.H, b, n, lane.tEvaluation,
                 Eval(DigitResponses(lane.digits), s.base), if feldman then 0 else lane.zBlinding);
  }

  lemma LaneBlinding(s: Setting, share: Share, receiver: int, w: Witness, mask: LaneMask, e: int)
    requires s.q > 0 && s.base > 1 && WitnessOpens(s, false, share, w) && |mask.digits| == s.chunks
    ensures var digits := DigitsOf(s.base, w.scalar, s.chunks);
            BlindingAccepts(s, share, e,
                        AnswerLane(s.q, false, e, digits, w, mask, FirstLane(s, false, share, receiver, digits, mask)))
  {
    hide FirstDigit, AnswerDigit, Checks, Eval;
    var digits := DigitsOf(s.base, w.scalar, s.chunks);
    var lane := AnswerLane(s.q, false, e, digits, w, mask, FirstLane(s, false, share, receiver, digits, mask));
    Reductions(s.q, e * w.blinding + mask.blinding, e * w.blindingCoin + mask.blindingCoin, s.G * w.blindingCoin);
    Reductions(s.q, s.G * mask.blindingCoin, s.H * mask.blinding + share.pk * mask.blindingCoin, 0);
    CiphertextOfPoint(s.q, share.pk, s.H * w.blinding, w.blindingCoin);
    HonestChecks(s.q, e, share.blinding.r, s.G, w.blindingCoin, mask.blindingCoin, 0, 0, 0, lane.tBlindingCoin,
                 lane.zBlindingCoin, 0);
    HonestChecks(s.q, e, share.blinding.c, s.H, w.blinding, mask.blinding, share.pk, w.blindingCoin, mask.blindingCoin,
                 lane.tBlinding, lane.zBlinding, lane.zBlindingCoin);
  }

  lemma CiphertextOfPoint(q: int, pk: Point, message: int, coin: Scalar)
    requires q > 0
    ensures Cong(q, (pk * coin + message % q) % q, message + pk * coin)
  {
    ModCong(q, pk * coin + message % q);
    ModAdd(q, pk * coin, message);
  }

  // ---------------------------------------------------------------- the whole proof

  /** The inputs of one lane: which receiver, its secrets and its randomness. */
  datatype LaneInput = LaneInput(receiver: int, w: Witness, mask: LaneMask)

  /** A receiver of the leaf whose share the witness opens; the scalar is canonical. */
  predicate GoodInput(s: Setting, feldman: bool, leaf: Leaf, input: LaneInput)
    requires s.q > 0 && s.base > 1
  {
    0 < input.receiver <= |leaf.receivers| && |input.mask.digits| == s.chunks &&
    WitnessOpens(s, feldman, leaf.receivers[input.receiver - 1], input.w)
  }

  function FirstOf(s: Setting, feldman: bool, leaf: Leaf, input: LaneInput): LaneProof
    requires s.q > 0 && s.base > 1 && GoodInput(s, feldman, leaf, input)
  {
    FirstLane(s, feldman, leaf.receivers[input.receiver - 1], input.receiver,
              DigitsOf(s.base, input.w.scalar, s.chunks), input.mask)
  }

  function AnswerOf(s: Setting, feldman: bool, leaf: Leaf, e: int, input: LaneInput): LaneProof
    requires s.q > 0 && s.base > 1 && GoodInput(s, feldman, leaf, input)
  {
    AnswerLane(s.q, feldman, e, DigitsOf(s.base, input.w.scalar, s.chunks), input.w, input.mask,
               FirstOf(s, feldman, leaf, input))
  }

  ghost predicate GoodInputs(s: Setting, feldman: bool, leaf: Leaf, inputs: seq<LaneInput>)
    requires s.q > 0 && s.base > 1
  {
    forall k :: 0 <= k < |inputs| ==> GoodInput(s, feldman, leaf, inputs[k])
  }

  function FirstProof(s: Setting, feldman: bool, leaf: Leaf, inputs: seq<LaneInput>): Proof
    requires s.q > 0 && s.base > 1 && GoodInputs(s, feldman, leaf, inputs)
  {
    Proof(feldman, seq(|inputs|, k requires 0 <= k < |inputs| => FirstOf(s, feldman, leaf, inputs[k])))
  }

  /** The proof an honest dealer sends. */
  function HonestProof(s: Setting, oracle: Oracle, feldman: bool, leaf: Leaf, statement: seq<int>,
                       inputs: seq<LaneInput>): Proof
    requires s.q > 0 && s.base > 1 && GoodInputs(s, feldman, leaf, inputs)
  {
    var e := Challenge(s.q, oracle, statement, FirstProof(s, feldman, leaf, inputs));
    Proof(feldman, seq(|inputs|, k requires 0 <= k < |inputs| => AnswerOf(s, feldman, leaf, e, inputs[k])))
  }

  lemma {:induction false} SameDigitMoves(a: seq<DigitProof>, b: seq<DigitProof>)
    requires |a| == |b| && forall i :: 0 <= i < |a| ==> SameDigitMove(a[i], b[i])
    ensures DigitMoves(a) == DigitMoves(b)
  {
    if |a| > 0 {
      SameDigitMoves(a[..|a| - 1], b[..|b| - 1]);
      assert SameDigitMove(a[|a| - 1], b[|b| - 1]);
    }
  }

  lemma {:induction false} SameFirstMoves(feldman: bool, a: seq<LaneProof>, b: seq<LaneProof>)
    requires |a| == |b| && forall k :: 0 <= k < |a| ==> SameFirstMove(a[k], b[k])
    ensures FirstMoves(feldman, a) == FirstMoves(feldman, b)
  {
    if |a| > 0 {
      SameFirstMoves(feldman, a[..|a| - 1], b[..|b| - 1]);
      assert SameFirstMove(a[|a| - 1], b[|b| - 1]);
      SameDigitMoves(a[|a| - 1].digits, b[|b| - 1].digits);
    }
  }

  /** Filling in the responses does not change the challenge. */
  lemma SameChallenge(s: Setting, oracle: Oracle, feldman: bool, leaf: Leaf, statement: seq<int>, inputs: seq<LaneInput>)
    requires s.q > 0 && s.base > 1 && GoodInputs(s, feldman, leaf, inputs)
    ensures Challenge(s.q, oracle, statement, HonestProof(s, oracle, feldman, leaf, statement, inputs))
            == Challenge(s.q, oracle, statement, FirstProof(s, feldman, leaf, inputs))
  {
    hide FirstDigit, Eval, FirstMoves, GoodInput;
    var a, b := HonestProof(s, oracle, feldman, leaf, statement, inputs), FirstProof(s, feldman, leaf, inputs);
    forall k | 0 <= k < |inputs| ensures SameFirstMove(a.lanes[k], b.lanes[k]) {
      AnswerKeepsMoves(s, feldman, leaf, Challenge(s.q, oracle, statement, b), inputs[k]);
    }
    SameFirstMoves(feldman, a.lanes, b.lanes);
  }

  lemma AnswerKeepsMoves(s: Setting, feldman: bool, leaf: Leaf, e: int, input: LaneInput)
    requires s.q > 0 && s.base > 1 && GoodInput(s, feldman, leaf, input)
    ensures SameFirstMove(AnswerOf(s, feldman, leaf, e, input), FirstOf(s, feldman, leaf, input))
  {
    hide FirstDigit, Eval;
  }

  /** The receivers named by the inputs form an acceptable list of lanes. */
  ghost predicate InputShape(leaf: Leaf, inputs: seq<LaneInput>) {
    0 < |inputs| <= leaf.laneLimit &&
    forall j, k :: 0 <= j < k < |inputs| ==> inputs[j].receiver < inputs[k].receiver
  }

  /** Completeness in both modes, for every choice of receivers, secrets and randomness. */
  lemma Complete(s: Setting, oracle: Oracle, feldman: bool, leaf: Leaf, statement: seq<int>, inputs: seq<LaneInput>)
    requires s.q > 0 && s.base > 1 && GoodInputs(s, feldman, leaf, inputs) && |statement| == 32
    requires InputShape(leaf, inputs)
    requires forall k :: 0 <= k < |inputs| ==> inputs[k].w.scalar < Power(s.base, s.chunks)
    ensures Accepts(s, oracle, leaf, statement, HonestProof(s, oracle, feldman, leaf, statement, inputs))
  {
    hide Eval, LaneAccepts, Challenge, FirstLane, AnswerLane, Power, WitnessOpens, DigitsOf;
    var proof := HonestProof(s, oracle, feldman, leaf, statement, inputs);
    var e := Challenge(s.q, oracle, statement, proof);
    SameChallenge(s, oracle, feldman, leaf, statement, inputs);
    forall k | 0 <= k < |inputs|
      ensures proof.lanes[k].receiver == inputs[k].receiver && InLeaf(s, leaf, proof.lanes[k])
      ensures LaneAccepts(s, feldman, leaf.receivers[inputs[k].receiver - 1], e, proof.lanes[k])
    {
      AnswerShape(s, feldman, leaf, e, inputs[k]);
      LaneComplete(s, feldman, leaf.receivers[inputs[k].receiver - 1], inputs[k].receiver, inputs[k].w, inputs[k].mask, e);
    }
  }

  lemma AnswerShape(s: Setting, feldman: bool, leaf: Leaf, e: int, input: LaneInput)
    requires s.q > 0 && s.base > 1 && GoodInput(s, feldman, leaf, input)
    ensures AnswerOf(s, feldman, leaf, e, input).receiver == input.receiver
    ensures InLeaf(s, leaf, AnswerOf(s, feldman, leaf, e, input))
  {
    hide FirstDigit, AnswerDigit, Eval, EncryptPoint;
  }

  // ---------------------------------------------------------------- the verifier

  method CheckShape(s: Setting, leaf: Leaf, lanes: seq<LaneProof>) returns (ok: bool)
    ensures ok <==> ShapeOk(s, leaf, lanes)
  {
    if |lanes| == 0 || |lanes| > leaf.laneLimit {
      return false;
    }
    var previous := 0;
    for k := 0 to |lanes|
      invariant forall j :: 0 <= j < k ==> InLeaf(s, leaf, lanes[j])
      invariant forall i, j :: 0 <= i < j < k ==> lanes[i].receiver < lanes[j].receiver
      invariant previous == if k == 0 then 0 else lanes[k - 1].receiver
    {
      if lanes[k].receiver <= previous || !InLeaf(s, leaf, lanes[k]) {
        assert k > 0 && lanes[k].receiver <= previous ==> lanes[k - 1].receiver >= lanes[k].receiver;
        return false;
      }
      previous := lanes[k].receiver;
    }
    ok := true;
  }

  method VerifyLane(s: Setting, feldman: bool, share: Share, e: int, lane: LaneProof) returns (ok: bool)
    requires s.q > 0 && |lane.digits| == |share.chunks|
    ensures ok <==> LaneAccepts(s, feldman, share, e, lane)
  {
    hide DigitAccepts, Eval, Power, Checks;
    var response, power := 0, 1;
    EvalStart(s.q, s.base);
    ghost var zs := DigitResponses(lane.digits);
    for i := 0 to |lane.digits|
      invariant forall k :: 0 <= k < i ==> DigitAccepts(s, share.pk, share.chunks[k], e, lane.digits[k])
      invariant Cong(s.q, power, Power(s.base, i)) && Cong(s.q, response, Eval(zs[..i], s.base))
    {
      if !DigitAccepts(s, share.pk, share.chunks[i], e, lane.digits[i]) {
        return false;
      }
      EvalStep(s.q, s.base, zs, i, response, power);
      response := (response + lane.digits[i].zDigit * power % s.q) % s.q;
      power := power * s.base % s.q;
    }
    assert zs[..|zs|] == zs;
    var blinding := if feldman then 0 else lane.zBlinding;
    EvaluationUsesResponse(s, share, e, lane, response, blinding);
    if !Checks(s.q, lane.tEvaluation, e, share.commitment, s.G, response, s.H, blinding) {
      return false;
    }
    ok := feldman || BlindingAccepts(s, share, e, lane);
  }

  lemma EvalStart(q: int, base: nat)
    requires q > 0
    ensures Cong(q, 1, Power(base, 0)) && Eval([], base) == 0
  {}

  lemma EvalStep(q: int, base: nat, zs: Vec, i: nat, response: int, power: int)
    requires q > 0 && i < |zs| && Cong(q, power, Power(base, i)) && Cong(q, response, Eval(zs[..i], base))
    ensures Cong(q, (response + zs[i] * power % q) % q, Eval(zs[..i + 1], base))
    ensures Cong(q, power * base % q, Power(base, i + 1))
  {
    hide Eval;
    assert zs[..i + 1] == zs[..i] + [zs[i]];
    EvalAppend(base, zs[..i], zs[i]);
    CongMulLeft(q, zs[i], power, Power(base, i));
    ModCong(q, zs[i] * power);
    CongAdd(q, response, Eval(zs[..i], base), zs[i] * power % q, zs[i] * Power(base, i));
    ModCong(q, response + zs[i] * power % q);
    CongMul(q, power, Power(base, i), base, base);
    ModCong(q, power * base);
    assert Power(base, i + 1) == Power(base, i) * base;
  }

  lemma EvaluationUsesResponse(s: Setting, share: Share, e: int, lane: LaneProof, response: int, blinding: Scalar)
    requires s.q > 0 && Cong(s.q, response, Eval(DigitResponses(lane.digits), s.base))
    ensures Checks(s.q, lane.tEvaluation, e, share.commitment, s.G, response, s.H, blinding) <==>
            Checks(s.q, lane.tEvaluation, e, share.commitment, s.G, Eval(DigitResponses(lane.digits), s.base), s.H, blinding)
  {
    var z := Eval(DigitResponses(lane.digits), s.base);
    CongMulLeft(s.q, s.G, response, z);
    CongAdd(s.q, s.G * response, s.G * z, s.H * blinding, s.H * blinding);
  }

  /** The verifier accepts exactly the proofs described by `Accepts`. */
  method Verify(s: Setting, oracle: Oracle, leaf: Leaf, statement: seq<int>, proof: Proof) returns (ok: bool)
    requires s.q > 0
    ensures ok <==> Accepts(s, oracle, leaf, statement, proof)
  {
    hide LaneAccepts, Challenge;
    var shape := CheckShape(s, leaf, proof.lanes);
    if !shape || |statement| != 32 {
      return false;
    }
    var e := Challenge(s.q, oracle, statement, proof);
    for k := 0 to |proof.lanes|
      invariant forall j :: 0 <= j < k ==>
                  LaneAccepts(s, proof.feldman, leaf.receivers[proof.lanes[j].receiver - 1], e, proof.lanes[j])
    {
      var lane := proof.lanes[k];
      var laneOk := VerifyLane(s, proof.feldman, leaf.receivers[lane.receiver - 1], e, lane);
      if !laneOk {
        return false;
      }
    }
    ok := true;
  }

  // ---------------------------------------------------------------- the prover

  method FirstLaneOf(s: Setting, feldman: bool, share: Share, receiver: int, digits: Vec, mask: LaneMask)
    returns (lane: LaneProof)
    requires s.q > 1 && |digits| == |mask.digits|
    ensures lane == FirstLane(s, feldman, share, receiver, digits, mask)
  {
    hide Eval, Power;
    var evaluation, power := 0, 1;
    EvalStart(s.q, s.base);
    ghost var ms := DigitMasks(mask.digits);
    var first := [];
    for i := 0 to |digits|
      invariant |first| == i
      invariant forall k :: 0 <= k < i ==> first[k] == FirstDigit(s, share.pk, digits[k], mask.digits[k])
      invariant Cong(s.q, power, Power(s.base, i)) && Cong(s.q, evaluation, Eval(ms[..i], s.base))
    {
      first := first + [FirstDigit(s, share.pk, digits[i], mask.digits[i])];
      EvalStep(s.q, s.base, ms, i, evaluation, power);
      evaluation := (evaluation + mask.digits[i].digit * power % s.q) % s.q;
      power := power * s.base % s.q;
    }
    assert ms[..|ms|] == ms;
    FirstEvaluation(s.q, s.G, evaluation, Eval(ms, s.base), s.H * mask.blinding);
    if feldman {
      lane := LaneProof(receiver, first, s.G * evaluation % s.q, 0, 0, 0, 0);
    } else {
      lane := LaneProof(receiver, first, (s.G * evaluation + s.H * mask.blinding) % s.q, s.G * mask.blindingCoin % s.q,
                        (s.H * mask.blinding + share.pk * mask.blindingCoin) % s.q, 0, 0);
    }
  }

  lemma FirstEvaluation(q: int, G: Point, v: int, v': int, b: int)
    requires q > 0 && Cong(q, v, v')
    ensures G * v % q == G * v' % q && (G * v + b) % q == (G * v' + b) % q
  {
    CongMulLeft(q, G, v, v');
    CongAdd(q, G * v, G * v', b, b);
  }

  method AnswerLaneOf(q: int, feldman: bool, e: int, digits: Vec, w: Witness, mask: LaneMask, lane: LaneProof)
    returns (r: LaneProof)
    requires q > 0 && |digits| == |mask.digits| == |w.coins| == |lane.digits|
    ensures r == AnswerLane(q, feldman, e, digits, w, mask, lane)
  {
    hide AnswerDigit;
    var answered := lane.digits;
    for i := 0 to |digits|
      invariant |answered| == |digits|
      invariant forall k :: 0 <= k < i ==> answered[k] == AnswerDigit(q, e, digits[k], w.coins[k], mask.digits[k], lane.digits[k])
      invariant forall k :: i <= k < |digits| ==> answered[k] == lane.digits[k]
    {
      answered := answered[i := AnswerDigit(q, e, digits[i], w.coins[i], mask.digits[i], answered[i])];
    }
    r := lane.(digits := answered);
    if !feldman {
      r := r.(zBlinding := (e * w.blinding + mask.blinding) % q, zBlindingCoin := (e * w.blindingCoin + mask.blindingCoin) % q);
    }
    assert answered == AnswerLane(q, feldman, e, digits, w, mask, lane).digits;
  }

  /** The prover sends the honest proof whenever the witness opens every named lane, and nothing otherwise. */
  method Prove(s: Setting, oracle: Oracle, feldman: bool, leaf: Leaf, statement: seq<int>, inputs: seq<LaneInput>)
    returns (r: Option<Proof>)
    requires s.q > 1 && s.base > 1 && s.q < Power(s.base, s.chunks)
    requires forall k :: 0 <= k < |inputs| ==> inputs[k].w.scalar < s.q
    ensures r.Some? <==> GoodInputs(s, feldman, leaf, inputs) && InputShape(leaf, inputs) && |statement| == 32
    ensures r.Some? ==> r.value == HonestProof(s, oracle, feldman, leaf, statement, inputs)
    ensures r.Some? ==> Accepts(s, oracle, leaf, statement, r.value)
  {
    hide Eval, Power, FirstLane, AnswerLane, WitnessOpens, DigitsOf, Challenge, Accepts;
    var first: seq<LaneProof> := [];
    for k := 0 to |inputs|
      invariant |first| == k && forall j :: 0 <= j < k ==> GoodInput(s, feldman, leaf, inputs[j])
      invariant forall j :: 0 <= j < k ==> first[j] == FirstOf(s, feldman, leaf, inputs[j])
    {
      var input := inputs[k];
      if !GoodInput(s, feldman, leaf, input) {
        return None;
      }
      var lane := FirstLaneOf(s, feldman, leaf.receivers[input.receiver - 1], input.receiver,
                              DigitsOf(s.base, input.w.scalar, s.chunks), input.mask);
      first := first + [lane];
    }
    FirstShape(s, feldman, leaf, inputs, first);
    var shape := CheckShape(s, leaf, first);
    if !shape || |statement| != 32 {
      return None;
    }
    var e := Challenge(s.q, oracle, statement, Proof(feldman, first));
    assert Proof(feldman, first) == FirstProof(s, feldman, leaf, inputs);
    var answered: seq<LaneProof> := [];
    for k := 0 to |inputs|
      invariant |answered| == k
      invariant forall j :: 0 <= j < k ==> answered[j] == AnswerOf(s, feldman, leaf, e, inputs[j])
    {
      InputFits(s, feldman, leaf, inputs[k]);
      var lane := AnswerLaneOf(s.q, feldman, e, DigitsOf(s.base, inputs[k].w.scalar, s.chunks), inputs[k].w,
                               inputs[k].mask, first[k]);
      answered := answered + [lane];
    }
    Complete(s, oracle, feldman, leaf, statement, inputs);
    r := Some(Proof(feldman, answered));
  }

  lemma InputFits(s: Setting, feldman: bool, leaf: Leaf, input: LaneInput)
    requires s.q > 0 && s.base > 1 && GoodInput(s, feldman, leaf, input)
    ensures |input.w.coins| == |input.mask.digits| == s.chunks == |FirstOf(s, feldman, leaf, input).digits|
  {}

  lemma FirstShape(s: Setting, feldman: bool, leaf: Leaf, inputs: seq<LaneInput>, first: seq<LaneProof>)
    requires s.q > 0 && s.base > 1 && GoodInputs(s, feldman, leaf, inputs) && |first| == |inputs|
    requires forall k :: 0 <= k < |inputs| ==> first[k] == FirstOf(s, feldman, leaf, inputs[k])
    ensures ShapeOk(s, leaf, first) <==> InputShape(leaf, inputs)
  {
    hide FirstDigit, Eval, EncryptPoint;
    forall k | 0 <= k < |inputs| ensures first[k].receiver == inputs[k].receiver && InLeaf(s, leaf, first[k]) {
      assert GoodInput(s, feldman, leaf, inputs[k]);
    }
  }
}
