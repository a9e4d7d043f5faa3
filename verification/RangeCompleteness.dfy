/** Every honest range proof is accepted. */
module RangeCompleteness {
  import opened Common
  import opened Modular
  import opened Bits
  import opened Vectors
  import opened RangeVectors
  import opened RangeProof
  import IPA = InnerProductArgument

  // ---------------------------------------------------------------- linearity on the right

  lemma InnerRightPlus(w: Vec, a: Vec, b: Vec)
    requires |w| == |a| == |b|
    ensures Inner(w, Plus(a, b)) == Inner(w, a) + Inner(w, b)
  {
    InnerComm(w, Plus(a, b));
    InnerPlus(a, b, w);
    InnerComm(w, a);
    InnerComm(w, b);
  }

  lemma InnerRightLinear(w: Vec, a: Vec, x: int, b: Vec)
    requires |w| == |a| == |b|
    ensures Inner(w, Plus(a, Scale(x, b))) == Inner(w, a) + x * Inner(w, b)
  {
    InnerRightPlus(w, a, Scale(x, b));
    InnerRightScale(x, w, b);
  }

  lemma EvaluateCong(q: int, constant: Vec, linear: Vec, x: int)
    requires q > 0 && |constant| == |linear|
    ensures CongV(q, Evaluate(q, constant, linear, x), Plus(constant, Scale(x, linear)))
  {
    forall i | 0 <= i < |constant|
      ensures Cong(q, Evaluate(q, constant, linear, x)[i], Plus(constant, Scale(x, linear))[i])
    {
      ModCong(q, constant[i] + x * linear[i]);
    }
  }

  // ---------------------------------------------------------------- the polynomial t(X)

  lemma ProductExpansion(l0: Vec, l1: Vec, r0: Vec, r1: Vec, x: int)
    requires |l0| == |l1| == |r0| == |r1|
    ensures Inner(Plus(l0, Scale(x, l1)), Plus(r0, Scale(x, r1)))
            == Inner(l0, r0) + x * (Inner(l1, r0) + Inner(l0, r1)) + (x * x) * Inner(l1, r1)
  {
    var r := Plus(r0, Scale(x, r1));
    InnerPlus(l0, Scale(x, l1), r);
    InnerScale(x, l1, r);
    InnerRightLinear(l0, r0, x, r1);
    InnerRightLinear(l1, r0, x, r1);
    ExpansionArithmetic(x, Inner(l0, r0), Inner(l0, r1), Inner(l1, r0), Inner(l1, r1), Inner(l1, r));
  }

  lemma ExpansionArithmetic(x: int, a: int, b: int, c: int, d: int, e: int)
    requires e == c + x * d
    ensures a + x * b + x * e == a + x * (c + b) + (x * x) * d
  {
    assert x * (c + x * d) == x * c + (x * x) * d;
  }

  /** `t(x)` has the three coefficients the prover commits to. */
  lemma PolynomialValue(q: int, l0: Vec, l1: Vec, r0: Vec, r1: Vec, x: int)
    requires q > 0 && |l0| == |l1| == |r0| == |r1|
    ensures Cong(q, Inner(Evaluate(q, l0, l1, x), Evaluate(q, r0, r1, x)),
                 Inner(l0, r0) + x * (Inner(l1, r0) + Inner(l0, r1)) + (x * x) * Inner(l1, r1))
  {
    EvaluateCong(q, l0, l1, x);
    EvaluateCong(q, r0, r1, x);
    InnerCong(q, Evaluate(q, l0, l1, x), Plus(l0, Scale(x, l1)), Evaluate(q, r0, r1, x), Plus(r0, Scale(x, r1)));
    ProductExpansion(l0, l1, r0, r1, x);
  }

  // ---------------------------------------------------------------- the polynomial check

  /** A vector extended with public zeros. */
  function Padded(v: Vec, padded: nat): (r: Vec)
    requires |v| <= padded
    ensures |r| == padded
  {
    v + seq(padded - |v|, i => 0)
  }

  /** Zeros added as padding change no weighted sum: not of values, of blindings or of commitments. */
  lemma {:induction false} PaddingIsFree(z: int, v: Vec, padded: nat)
    requires |v| <= padded
    ensures Inner(ValueWeights(z, padded), Padded(v, padded)) == Inner(ValueWeights(z, |v|), v)
    decreases padded
  {
    if |v| == padded {
      assert Padded(v, padded) == v;
    } else {
      var n := padded - 1;
      PaddingIsFree(z, v, n);
      assert ValueWeights(z, padded) == ValueWeights(z, n) + [ValueWeight(z, n)];
      assert Padded(v, padded) == Padded(v, n) + [0];
      InnerAppend(ValueWeights(z, n), Padded(v, n), ValueWeight(z, n), 0);
    }
  }

  /** Padded commitments still open to the padded values under the padded blindings, entry by entry. */
  lemma PaddedOpenings(q: int, bases: Bases, commitments: seq<Point>, values: seq<nat>, blindings: seq<Scalar>, padded: nat)
    requires q > 0 && |commitments| == |values| == |blindings| <= padded
    requires forall j :: 0 <= j < |values| ==> commitments[j] == Commitment(q, bases, values[j], blindings[j])
    ensures forall j :: 0 <= j < padded ==>
              Padded(commitments, padded)[j] == Commitment(q, bases, Pad(values, padded)[j], Padded(blindings, padded)[j])
  {
    ModSmall(q, 0);
    assert bases.value * 0 + bases.blind * 0 == 0;
  }

  /** The weighted commitments open to the weighted values and blindings. */
  lemma WeightedCommitments(q: int, bases: Bases, commitments: seq<Point>, values: seq<nat>, blindings: seq<Scalar>,
                            w: Vec)
    requires q > 0 && |commitments| == |values| == |blindings| == |w|
    requires forall j :: 0 <= j < |values| ==> commitments[j] == Commitment(q, bases, values[j], blindings[j])
    ensures Cong(q, Inner(w, commitments), bases.value * Inner(w, values) + bases.blind * Inner(w, blindings))
  {
    var opened' := Plus(Scale(bases.value, values), Scale(bases.blind, blindings));
    forall j | 0 <= j < |values|
      ensures Cong(q, commitments[j], opened'[j])
    {
      ModCong(q, bases.value * values[j] + bases.blind * blindings[j]);
    }
    CongVRefl(q, w);
    InnerCong(q, w, w, commitments, opened');
    IPA.InnerRightHalves(bases.value, bases.blind, values, blindings, w);
  }

  lemma CheckArithmetic(q: int, V: int, B: int, tHat: int, tauX: int, delta: int, values: int, blindings: int,
                        T1: int, T2: int, tau1: int, tau2: int, x: int, C: int, t1: int, t2: int)
    requires q > 0
    requires Cong(q, tHat, values + delta + x * T1 + (x * x) * T2)
    requires Cong(q, tauX, tau2 * (x * x) + tau1 * x + blindings)
    requires Cong(q, C, V * values + B * blindings)
    requires Cong(q, t1, V * T1 + B * tau1) && Cong(q, t2, V * T2 + B * tau2)
    ensures Cong(q, V * tHat + B * tauX, V * delta + C + t1 * x + t2 * (x * x))
  {
    var X := x * x;
    var t, u := values + delta + x * T1 + X * T2, tau2 * X + tau1 * x + blindings;
    CongMulLeft(q, V, tHat, t);
    CongMulLeft(q, B, tauX, u);
    CongAdd(q, V * tHat, V * t, B * tauX, B * u);
    var c, d1, d2 := V * values + B * blindings, V * T1 + B * tau1, V * T2 + B * tau2;
    CongMul(q, t1, d1, x, x);
    CongMul(q, t2, d2, X, X);
    CongAdd(q, V * delta, V * delta, C, c);
    CongAdd(q, V * delta + C, V * delta + c, t1 * x, d1 * x);
    CongAdd(q, V * delta + C + t1 * x, V * delta + c + d1 * x, t2 * X, d2 * X);
    OpenedArithmetic(V, B, delta, values, blindings, T1, T2, tau1, tau2, x, X);
  }

  lemma OpenedArithmetic(V: int, B: int, delta: int, values: int, blindings: int,
                         T1: int, T2: int, tau1: int, tau2: int, x: int, X: int)
    ensures V * (values + delta + x * T1 + X * T2) + B * (tau2 * X + tau1 * x + blindings)
            == V * delta + (V * values + B * blindings) + (V * T1 + B * tau1) * x + (V * T2 + B * tau2) * X
  {
    assert V * (values + delta + x * T1 + X * T2) == V * values + V * delta + (V * T1) * x + (V * T2) * X;
    assert B * (tau2 * X + tau1 * x + blindings) == (B * tau2) * X + (B * tau1) * x + B * blindings;
    assert (V * T1 + B * tau1) * x == (V * T1) * x + (B * tau1) * x;
    assert (V * T2 + B * tau2) * X == (V * T2) * X + (B * tau2) * X;
  }

  /** The honest answers pass the polynomial commitment check, whatever the challenges. */
  lemma HonestPolynomialCheck(q: int, bases: Bases, commitments: seq<Point>, values: seq<nat>,
                              blindings: seq<Scalar>, bits: nat, padded: nat, l1: Vec, r1: Vec,
                              tau1: Scalar, tau2: Scalar, y: int, z: int, x: int)
    requires q > 0 && GoodWitness(q, bases, commitments, values, blindings, bits)
    requires |values| <= padded && |l1| == |r1| == padded * bits
    ensures var aL := AllBits(Pad(values, padded), bits);
            var l0 := LeftConstant(aL, z);
            var r0 := RightConstant(aL, Powers(y, padded * bits), BlockWeights(z, padded, bits), z);
            PolynomialCheck(q, bases, commitments,
                            Commitment(q, bases, Inner(l1, r0) + Inner(l0, r1), tau1),
                            Commitment(q, bases, Inner(l1, r1), tau2),
                            TauX(q, tau1, tau2, x, Inner(ValueWeights(z, |values|), blindings)),
                            Inner(Evaluate(q, l0, l1, x), Evaluate(q, r0, r1, x)) % q,
                            x, z, Delta(y, z, padded, bits))
  {
    var all := Pad(values, padded);
    var aL := AllBits(all, bits);
    var l0 := LeftConstant(aL, z);
    var r0 := RightConstant(aL, Powers(y, padded * bits), BlockWeights(z, padded, bits), z);
    var T1, T2 := Inner(l1, r0) + Inner(l0, r1), Inner(l1, r1);
    var w := ValueWeights(z, |values|);
    var t := Inner(Evaluate(q, l0, l1, x), Evaluate(q, r0, r1, x));
    PolynomialValue(q, l0, l1, r0, r1, x);
    assert InRange(all, bits);
    ConstantIsValuesPlusDelta(y, z, all, bits);
    PaddingIsFree(z, values, padded);
    assert Padded(values, padded) == Pad(values, padded);
    ModCong(q, t);
    ModCong(q, tau2 * (x * x) + tau1 * x + Inner(w, blindings));
    ModCong(q, bases.value * T1 + bases.blind * tau1);
    ModCong(q, bases.value * T2 + bases.blind * tau2);
    WeightedCommitments(q, bases, commitments, values, blindings, w);
    CheckArithmetic(q, bases.value, bases.blind, t % q, TauX(q, tau1, tau2, x, Inner(w, blindings)),
                    Delta(y, z, padded, bits), Inner(w, values), Inner(w, blindings), T1, T2, tau1, tau2, x,
                    Inner(w, commitments), Commitment(q, bases, T1, tau1), Commitment(q, bases, T2, tau2));
  }

  // ---------------------------------------------------------------- the reconstructed commitment

  lemma {:induction false} PowInverse(q: int, y: int, i: nat)
    requires Prime(q) && y % q != 0
    ensures (Pow(Inv(q, y), i) * Pow(y, i)) % q == 1
  {
    ModSmall(q, 1);
    if i > 0 {
      PowInverse(q, y, i - 1);
      InvCorrect(q, y);
      UnitProduct(q, Pow(Inv(q, y), i - 1), Pow(y, i - 1), Inv(q, y), y);
    }
  }

  lemma UnitProduct(q: int, a: int, b: int, c: int, d: int)
    requires q > 1 && (a * b) % q == 1 && (d * c) % q == 1
    ensures ((a * c) * (b * d)) % q == 1
  {
    ModSmall(q, 1);
    CongMul(q, a * b, 1, d * c, 1);
    assert (a * c) * (b * d) == (a * b) * (d * c);
  }

  /** Scaling back by the power of the challenge recovers the generator. */
  lemma ScaledBack(q: int, h: seq<Point>, y: int, i: nat)
    requires Prime(q) && y % q != 0 && i < |h|
    ensures Cong(q, ScaledGenerators(q, h, y)[i] * Powers(y, |h|)[i], h[i])
  {
    var p, v := Pow(Inv(q, y), i), Pow(y, i);
    PowInverse(q, y, i);
    ModCong(q, h[i] * p);
    CongMul(q, h[i] * p % q, h[i] * p, v, v);
    UnitFactor(q, p * v, h[i]);
    assert h[i] * p * v == (p * v) * h[i];
  }

  lemma RightTerm(q: int, hp: int, h: int, Y: int, c: int, z: int, w: int, x: int, s: int)
    requires q > 0 && Cong(q, hp * Y, h)
    ensures Cong(q, hp * (Y * (c + z) + w + x * (Y * s)), h * (c + x * s) + hp * (z * Y + w))
  {
    var e := c + x * s;
    RightTermArithmetic(hp, Y, c, z, w, x, s, e);
    CongMul(q, hp * Y, h, e, e);
    CongAdd(q, (hp * Y) * e, h * e, hp * (z * Y + w), hp * (z * Y + w));
  }

  lemma RightTermArithmetic(hp: int, Y: int, c: int, z: int, w: int, x: int, s: int, e: int)
    requires e == c + x * s
    ensures hp * (Y * (c + z) + w + x * (Y * s)) == (hp * Y) * e + hp * (z * Y + w)
  {
    assert Y * (c + z) + w + x * (Y * s) == Y * e + (z * Y + w) by {
      assert Y * (c + z) == Y * c + z * Y;
      assert x * (Y * s) == Y * (x * s);
      assert Y * e == Y * c + Y * (x * s);
    }
    assert hp * (Y * e) == (hp * Y) * e;
  }

  /** Sum form: the right vector against scaled generators splits into plain and weighted parts. */
  lemma {:induction false} RightSum(q: int, h: seq<Point>, y: int, bits: Vec, blocks: Vec, z: int, x: int, sR: Vec,
                                    n: nat)
    requires Prime(q) && y % q != 0 && |h| == |bits| == |blocks| == |sR| && n <= |h|
    ensures Cong(q, Sum(ScaledGenerators(q, h, y),
                        Plus(RightConstant(bits, Powers(y, |h|), blocks, z), Scale(x, Times(Powers(y, |h|), sR))), n),
                 Sum(h, Plus(Shifted(bits, -1), Scale(x, sR)), n)
                 + Sum(ScaledGenerators(q, h, y), HCoefficients(z, Powers(y, |h|), blocks), n))
  {
    if n > 0 {
      var k := n - 1;
      var hp, Y := ScaledGenerators(q, h, y), Powers(y, |h|);
      var R := Plus(RightConstant(bits, Y, blocks, z), Scale(x, Times(Y, sR)));
      var A, H := Plus(Shifted(bits, -1), Scale(x, sR)), HCoefficients(z, Y, blocks);
      RightSum(q, h, y, bits, blocks, z, x, sR, k);
      ScaledBack(q, h, y, k);
      RightTerm(q, hp[k], h[k], Y[k], bits[k] - 1, z, blocks[k], x, sR[k]);
      CongAdd(q, Sum(hp, R, k), Sum(h, A, k) + Sum(hp, H, k), hp[k] * R[k], h[k] * A[k] + hp[k] * H[k]);
    }
  }

  lemma RightSide(q: int, h: seq<Point>, y: int, bits: Vec, blocks: Vec, z: int, x: int, sR: Vec)
    requires Prime(q) && y % q != 0 && |h| == |bits| == |blocks| == |sR|
    ensures var Y := Powers(y, |h|);
            Cong(q, Inner(ScaledGenerators(q, h, y), Evaluate(q, RightConstant(bits, Y, blocks, z), Times(Y, sR), x)),
                 Inner(h, Shifted(bits, -1)) + x * Inner(h, sR)
                 + Inner(ScaledGenerators(q, h, y), HCoefficients(z, Y, blocks)))
  {
    var hp, Y := ScaledGenerators(q, h, y), Powers(y, |h|);
    var r0, r1 := RightConstant(bits, Y, blocks, z), Times(Y, sR);
    EvaluateCong(q, r0, r1, x);
    IPA.RightCong(q, hp, Evaluate(q, r0, r1, x), Plus(r0, Scale(x, r1)));
    RightSum(q, h, y, bits, blocks, z, x, sR, |h|);
    InnerRightLinear(h, Shifted(bits, -1), x, sR);
  }

  lemma LeftSide(q: int, g: seq<Point>, bits: Vec, z: int, x: int, sL: Vec)
    requires q > 0 && |g| == |bits| == |sL|
    ensures Cong(q, Inner(g, Evaluate(q, LeftConstant(bits, z), sL, x)),
                 Inner(g, bits) + Inner(g, Scale(-z, Ones(|g|))) + x * Inner(g, sL))
  {
    var l0 := LeftConstant(bits, z);
    EvaluateCong(q, l0, sL, x);
    IPA.RightCong(q, g, Evaluate(q, l0, sL, x), Plus(l0, Scale(x, sL)));
    InnerRightLinear(g, l0, x, sL);
    assert l0 == Plus(bits, Scale(-z, Ones(|g|)));
    InnerRightPlus(g, bits, Scale(-z, Ones(|g|)));
  }

  lemma ReconstructArithmetic(q: int, a: int, s: int, x: int, B: int, alpha: int, rho: int, mu: int, tHat: int, u: int,
                              ga: int, gs: int, gz: int, ha: int, hs: int, hc: int, gl: int, hr: int, lr: int)
    requires q > 0
    requires Cong(q, a, ga + ha + B * alpha) && Cong(q, s, gs + hs + B * rho) && Cong(q, mu, rho * x + alpha)
    requires Cong(q, gl, ga + gz + x * gs) && Cong(q, hr, ha + x * hs + hc) && Cong(q, tHat, lr)
    ensures Cong(q, a + x * s + gz + hc - mu * B + tHat * u, gl + hr + lr * u)
  {
    var m := rho * x + alpha;
    CongMulLeft(q, x, s, gs + hs + B * rho);
    CongMul(q, mu, m, B, B);
    CongMul(q, tHat, lr, u, u);
    CongAdd(q, a, ga + ha + B * alpha, x * s, x * (gs + hs + B * rho));
    CongAdd(q, a + x * s, ga + ha + B * alpha + x * (gs + hs + B * rho), gz + hc, gz + hc);
    CongSub(q, a + x * s + (gz + hc), ga + ha + B * alpha + x * (gs + hs + B * rho) + (gz + hc), mu * B, m * B);
    CongAdd(q, a + x * s + (gz + hc) - mu * B,
            ga + ha + B * alpha + x * (gs + hs + B * rho) + (gz + hc) - m * B, tHat * u, lr * u);
    assert x * (gs + hs + B * rho) == x * gs + x * hs + (rho * x) * B;
    assert m * B == (rho * x) * B + B * alpha;
    CongAdd(q, gl, ga + gz + x * gs, hr, ha + x * hs + hc);
    CongAdd(q, gl + hr, ga + gz + x * gs + (ha + x * hs + hc), lr * u, lr * u);
  }

  /** The verifier's reconstructed commitment commits to exactly the prover's two vectors. */
  lemma ReconstructedIsCommit(q: int, g: seq<Point>, h: seq<Point>, blind: Point, uPrime: Point, bits: Vec,
                              sL: Vec, sR: Vec, alpha: Scalar, rho: Scalar, y: int, z: int, x: int, blocks: Vec)
    requires Prime(q) && y % q != 0 && |g| == |h| == |bits| == |sL| == |sR| == |blocks|
    ensures var Y := Powers(y, |h|);
            var l := Evaluate(q, LeftConstant(bits, z), sL, x);
            var r := Evaluate(q, RightConstant(bits, Y, blocks, z), Times(Y, sR), x);
            Reconstructed(q, g, ScaledGenerators(q, h, y), blind, uPrime,
                          VectorCommitment(q, g, h, blind, bits, Shifted(bits, -1), alpha),
                          VectorCommitment(q, g, h, blind, sL, sR, rho), x, z, Y, blocks,
                          Mu(q, alpha, rho, x), Inner(l, r) % q)
            == IPA.Commit(q, g, ScaledGenerators(q, h, y), uPrime, l, r)
  {
    var Y := Powers(y, |h|);
    var hp := ScaledGenerators(q, h, y);
    var l := Evaluate(q, LeftConstant(bits, z), sL, x);
    var r := Evaluate(q, RightConstant(bits, Y, blocks, z), Times(Y, sR), x);
    LeftSide(q, g, bits, z, x, sL);
    RightSide(q, h, y, bits, blocks, z, x, sR);
    ModCong(q, Inner(g, bits) + Inner(h, Shifted(bits, -1)) + blind * alpha);
    ModCong(q, Inner(g, sL) + Inner(h, sR) + blind * rho);
    ModCong(q, rho * x + alpha);
    ModCong(q, Inner(l, r));
    ReconstructArithmetic(q, VectorCommitment(q, g, h, blind, bits, Shifted(bits, -1), alpha),
                          VectorCommitment(q, g, h, blind, sL, sR, rho), x, blind, alpha, rho,
                          Mu(q, alpha, rho, x), Inner(l, r) % q, uPrime,
                          Inner(g, bits), Inner(g, sL), Inner(g, Scale(-z, Ones(|g|))),
                          Inner(h, Shifted(bits, -1)), Inner(h, sR), Inner(hp, HCoefficients(z, Y, blocks)),
                          Inner(g, l), Inner(hp, r), Inner(l, r));
  }

  // ---------------------------------------------------------------- completeness

  /** Completeness of the range proof: for every supported count and width, every in-range witness,
      all coins and all challenges, an honest proof is accepted. */
  lemma Complete(q: int, oracle: Oracle, bases: Bases, statement: seq<int>, commitments: seq<Point>,
                 values: seq<nat>, blindings: seq<Scalar>, bits: nat, coins: Coins)
    requires Prime(q) && |statement| == 32
    requires GoodWitness(q, bases, commitments, values, blindings, bits) && Dimensions(|values|, bits).Some?
    requires |coins.sL| == |coins.sR| == Dimensions(|values|, bits).value.1
    requires HonestProof(q, oracle, bases, statement, commitments, values, blindings, bits, coins).Some?
    ensures Accepts(q, oracle, bases, statement, commitments,
                    HonestProof(q, oracle, bases, statement, commitments, values, blindings, bits, coins).value, bits)
  {
    hide Inner, Evaluate, LeftConstant, RightConstant, Reconstructed, VectorCommitment, PolynomialCheck, Delta,
      AllBits, BlockWeights, Powers, Times, ScaledGenerators, Take, Commitment, TauX, Mu, Moves, Shifted,
      ChallengeY, ChallengeZ, ChallengeX, ChallengeW, IPA.Accepts, IPA.HonestProof, IPA.Commit, IsPow2, Dimensions;
    DimensionsSound(|values|, bits);
    var proof := HonestProof(q, oracle, bases, statement, commitments, values, blindings, bits, coins).value;
    var (padded, size) := Dimensions(|values|, bits).value;
    var t := BaseTranscript(statement, commitments, |values|, bits);
    var y, z := ChallengeY(q, oracle, t, proof.a, proof.s), ChallengeZ(q, oracle, t, proof.a, proof.s);
    var x := ChallengeX(q, oracle, t, proof.a, proof.s, proof.t1, proof.t2);
    var moves := Moves(q, oracle, t, proof.a, proof.s, proof.t1, proof.t2, proof.tauX, proof.mu, proof.tHat);
    var uPrime := bases.u * ChallengeW(q, oracle, moves) % q;
    var g, h := Take(bases.g, size), Take(bases.h, size);
    var aL := AllBits(Pad(values, padded), bits);
    var blocks := BlockWeights(z, padded, bits);
    var l := Evaluate(q, LeftConstant(aL, z), coins.sL, x);
    var r := Evaluate(q, RightConstant(aL, Powers(y, size), blocks, z), Times(Powers(y, size), coins.sR), x);
    ModSmall(q, y);
    HonestPolynomialCheck(q, bases, commitments, values, blindings, bits, padded, coins.sL,
                          Times(Powers(y, size), coins.sR), coins.tau1, coins.tau2, y, z, x);
    ReconstructedIsCommit(q, g, h, bases.blind, uPrime, aL, coins.sL, coins.sR, coins.alpha, coins.rho, y, z, x, blocks);
    var p := IPA.Commit(q, g, ScaledGenerators(q, h, y), uPrime, l, r);
    IPA.Complete(q, oracle, moves + [p], g, ScaledGenerators(q, h, y), uPrime, l, r);
  }
}
