/**
  The aggregated Bulletproof range proof over a batch of Pedersen commitments, padded to a power of
  two with public zero commitments.

  `Accepts` says what an accepted proof satisfies, with the inner product checked by folding;
  `HonestProof` is what the prover sends for given coins.  `Complete` proves that every honest proof
  is accepted, for every count of in-range values and every supported width.
 */
module RangeProof {
  import opened Common
  import opened Modular
  import opened Bits
  import opened Vectors
  import opened RangeVectors
  import IPA = InnerProductArgument

  /** The generator families, the value base and the blinding base. */
  datatype Bases = Bases(g: nat -> Point, h: nat -> Point, u: Point, value: Point, blind: Point)

  datatype Coins = Coins(sL: Vec, sR: Vec, alpha: Scalar, rho: Scalar, tau1: Scalar, tau2: Scalar)

  datatype Proof = Proof(valueCount: nat, bits: nat, a: Point, s: Point, t1: Point, t2: Point,
                         tauX: Scalar, mu: Scalar, tHat: Scalar, inner: IPA.Proof)

  // ---------------------------------------------------------------- dimensions

  const MAX_VECTOR: nat := Pow2(20)

  /** The least power of two that is at least `value`. */
  function NextPowerOfTwo(value: nat): Option<nat> {
    if value == 0 || value > MAX_VECTOR then None else Some(RoundUp(value, 1))
  }

  function RoundUp(value: nat, out: nat): (r: nat)
    requires out > 0
    ensures r >= value && r >= out
    decreases value - out
  {
    if out >= value then out else RoundUp(value, 2 * out)
  }

  lemma {:induction false} RoundUpLeast(value: nat, out: nat, p: nat)
    requires out > 0 && IsPow2(out)
    ensures IsPow2(RoundUp(value, out))
    ensures IsPow2(p) && p >= value && p >= out ==> RoundUp(value, out) <= p
    decreases value - out
  {
    if out < value {
      assert 2 * out / 2 == out;
      RoundUpLeast(value, 2 * out, p);
      if IsPow2(p) && p >= value && p >= out {
        Pow2Gap(out, p);
      }
    }
  }

  /** Powers of two at least double. */
  lemma {:induction false} Pow2Gap(a: nat, b: nat)
    requires IsPow2(a) && IsPow2(b) && a < b
    ensures 2 * a <= b
  {
    if a > 1 {
      Pow2Gap(a / 2, b / 2);
    }
  }

  /** The padded count and the vector length, when both are supported. */
  function Dimensions(valueCount: nat, bits: nat): (d: Option<(nat, nat)>)
  {
    if valueCount == 0 || bits == 0 || bits > 63 then None
    else
      match NextPowerOfTwo(valueCount)
      case None => None
      case Some(padded) =>
        if NextPowerOfTwo(padded * bits) == Some(padded * bits) then Some((padded, padded * bits)) else None
  }

  /** Supported dimensions are powers of two, and the padding is the least that fits. */
  lemma DimensionsSound(valueCount: nat, bits: nat)
    requires Dimensions(valueCount, bits).Some?
    ensures var (padded, size) := Dimensions(valueCount, bits).value;
            IsPow2(padded) && IsPow2(size) && size == padded * bits && valueCount <= padded < 2 * valueCount
  {
    var (padded, size) := Dimensions(valueCount, bits).value;
    RoundUpLeast(valueCount, 1, 1);
    RoundUpLeast(size, 1, 1);
    if padded >= 2 * valueCount && padded > 1 {
      RoundUpLeast(valueCount, 1, padded / 2);
    }
  }

  lemma RoundUpIs(value: nat, padded: nat)
    requires IsPow2(padded) && value <= padded < 2 * value
    ensures RoundUp(value, 1) == padded
  {
    RoundUpLeast(value, 1, padded);
    var r := RoundUp(value, 1);
    if r < padded {
      Pow2Gap(r, padded);
    }
  }

  /**
    The supported sizes in plain numbers: 1 to 63 bits per value, and a power of two of at most 2^20 bits
    once the values are padded to a power of two.
   */
  lemma DimensionsExactly(valueCount: nat, bits: nat, padded: nat)
    requires IsPow2(padded) && valueCount <= padded < 2 * valueCount
    ensures Dimensions(valueCount, bits) ==
            if 1 <= bits <= 63 && valueCount <= 0x10_0000 && padded * bits <= 0x10_0000 && IsPow2(padded * bits)
            then Some((padded, padded * bits)) else None
  {
    assert Pow2(20) == 0x10_0000 by {
      assert Pow2(10) == 1024;
      Pow2Sum(10, 10);
    }
    RoundUpIs(valueCount, padded);
    var size := padded * bits;
    if bits > 0 {
      assert size > 0;
      RoundUpLeast(size, 1, size);
      if IsPow2(size) {
        RoundUpIs(size, size);
      }
    }
  }

  // ---------------------------------------------------------------- shared formulas

  function Take(f: nat -> Point, n: nat): (r: seq<Point>)
    ensures |r| == n
  {
    seq(n, i requires 0 <= i < n => f(i))
  }

  /** `hPrime`: generator `i` scaled by the `i`-th power of the inverse challenge. */
  function ScaledGenerators(q: int, h: seq<Point>, y: int): (r: seq<Point>)
    requires q > 1
    ensures |r| == |h|
  {
    seq(|h|, i requires 0 <= i < |h| => h[i] * Pow(Inv(q, y), i) % q)
  }

  function Pad(values: seq<nat>, padded: nat): (r: seq<nat>)
    requires |values| <= padded
    ensures |r| == padded
  {
    values + seq(padded - |values|, i => 0)
  }

  function BaseTranscript(statement: seq<int>, commitments: seq<Point>, valueCount: nat, bits: nat): Transcript {
    statement + [valueCount, bits] + commitments
  }

  function ChallengeY(q: int, oracle: Oracle, t: Transcript, a: Point, s: Point): (y: int)
    requires q > 0
    ensures 0 <= y < q
  {
    oracle("y", t + [a, s]) % q
  }

  function ChallengeZ(q: int, oracle: Oracle, t: Transcript, a: Point, s: Point): int
    requires q > 0
  {
    oracle("z", t + [a, s, ChallengeY(q, oracle, t, a, s)]) % q
  }

  function ChallengeX(q: int, oracle: Oracle, t: Transcript, a: Point, s: Point, t1: Point, t2: Point): int
    requires q > 0
  {
    oracle("x", t + [a, s, ChallengeY(q, oracle, t, a, s), ChallengeZ(q, oracle, t, a, s), t1, t2]) % q
  }

  /** Everything sent before the inner product, in order. */
  function Moves(q: int, oracle: Oracle, t: Transcript, a: Point, s: Point, t1: Point, t2: Point,
                 tauX: Scalar, mu: Scalar, tHat: Scalar): Transcript
    requires q > 0
  {
    t + [a, s, ChallengeY(q, oracle, t, a, s), ChallengeZ(q, oracle, t, a, s),
         ChallengeX(q, oracle, t, a, s, t1, t2), tauX, mu, tHat, t1, t2]
  }

  function ChallengeW(q: int, oracle: Oracle, moves: Transcript): int
    requires q > 0
  {
    oracle("w", moves) % q
  }

  /** The weight of generator `h'_i` in the reconstructed commitment. */
  function HCoefficients(z: int, yPowers: Vec, blocks: Vec): (r: Vec)
    requires |yPowers| == |blocks|
    ensures |r| == |yPowers|
  {
    seq(|yPowers|, i requires 0 <= i < |yPowers| => z * yPowers[i] + blocks[i])
  }

  /** The commitment to the folded vectors, rebuilt from the first moves. */
  function Reconstructed(q: int, g: seq<Point>, hPrime: seq<Point>, blind: Point, uPrime: Point,
                         a: Point, s: Point, x: int, z: int, yPowers: Vec, blocks: Vec,
                         mu: Scalar, tHat: Scalar): Point
    requires q > 0 && |g| == |hPrime| == |yPowers| == |blocks|
  {
    (a + x * s + Inner(g, Scale(-z, Ones(|g|))) + Inner(hPrime, HCoefficients(z, yPowers, blocks))
     - mu * blind + tHat * uPrime) % q
  }

  /** Both sides of the polynomial commitment check. */
  ghost predicate PolynomialCheck(q: int, bases: Bases, commitments: seq<Point>, t1: Point, t2: Point,
                                  tauX: Scalar, tHat: Scalar, x: int, z: int, delta: int)
    requires q > 0
  {
    Cong(q, bases.value * tHat + bases.blind * tauX,
         bases.value * delta + Inner(ValueWeights(z, |commitments|), commitments) + t1 * x + t2 * (x * x))
  }

  /** What an accepted range proof satisfies. */
  ghost predicate Accepts(q: int, oracle: Oracle, bases: Bases, statement: seq<int>, commitments: seq<Point>,
                          proof: Proof, bits: nat)
    requires q > 1
  {
    && proof.valueCount == |commitments| && proof.bits == bits
    && Dimensions(|commitments|, bits).Some?
    && |statement| == 32
    && var (padded, size) := Dimensions(|commitments|, bits).value;
    var t := BaseTranscript(statement, commitments, |commitments|, bits);
    var y := ChallengeY(q, oracle, t, proof.a, proof.s);
    var z := ChallengeZ(q, oracle, t, proof.a, proof.s);
    var x := ChallengeX(q, oracle, t, proof.a, proof.s, proof.t1, proof.t2);
    var moves := Moves(q, oracle, t, proof.a, proof.s, proof.t1, proof.t2, proof.tauX, proof.mu, proof.tHat);
    var w := ChallengeW(q, oracle, moves);
    var g := Take(bases.g, size);
    var hPrime := ScaledGenerators(q, Take(bases.h, size), y);
    var uPrime := bases.u * w % q;
    && y != 0 && z != 0 && x != 0
    && PolynomialCheck(q, bases, commitments, proof.t1, proof.t2, proof.tauX, proof.tHat, x, z,
                       Delta(y, z, padded, bits))
    && w != 0
    && (DimensionsSound(|commitments|, bits);
        var p := Reconstructed(q, g, hPrime, bases.blind, uPrime, proof.a, proof.s, x, z,
                               Powers(y, size), BlockWeights(z, padded, bits), proof.mu, proof.tHat);
        IPA.Accepts(q, oracle, moves + [p], g, hPrime, uPrime, p, proof.inner))
  }

  /** The proof is for this many values of this width, the statement is a digest, and no challenge is zero. */
  lemma AcceptedHeader(q: int, oracle: Oracle, bases: Bases, statement: seq<int>, commitments: seq<Point>, proof: Proof, bits: nat)
    requires q > 1 && Accepts(q, oracle, bases, statement, commitments, proof, bits)
    ensures proof.valueCount == |commitments| > 0 && proof.bits == bits && 1 <= bits <= 63 && |statement| == 32
    ensures var t := BaseTranscript(statement, commitments, |commitments|, bits);
            ChallengeY(q, oracle, t, proof.a, proof.s) != 0 && ChallengeZ(q, oracle, t, proof.a, proof.s) != 0 &&
            ChallengeX(q, oracle, t, proof.a, proof.s, proof.t1, proof.t2) != 0
  {
    hide PolynomialCheck, Reconstructed, IPA.Accepts, Delta;
  }

  // ---------------------------------------------------------------- the honest prover

  function Commitment(q: int, bases: Bases, value: int, blinding: Scalar): Point
    requires q > 0
  {
    (bases.value * value + bases.blind * blinding) % q
  }

  /** The blinding of `t(x)`. */
  function TauX(q: int, tau1: Scalar, tau2: Scalar, x: int, weightedBlindings: int): Scalar
    requires q > 0
  {
    (tau2 * (x * x) + tau1 * x + weightedBlindings) % q
  }

  /** The blinding of the evaluated vector commitment. */
  function Mu(q: int, alpha: Scalar, rho: Scalar, x: int): Scalar
    requires q > 0
  {
    (rho * x + alpha) % q
  }

  function VectorCommitment(q: int, g: seq<Point>, h: seq<Point>, blind: Point, l: Vec, r: Vec, coin: Scalar): Point
    requires q > 0 && |g| == |h| == |l| == |r|
  {
    (Inner(g, l) + Inner(h, r) + blind * coin) % q
  }

  /** A vector polynomial evaluated at the challenge, reduced. */
  function Evaluate(q: int, constant: Vec, linear: Vec, x: int): (r: Vec)
    requires q > 0 && |constant| == |linear|
    ensures |r| == |constant|
  {
    seq(|constant|, i requires 0 <= i < |constant| => (constant[i] + x * linear[i]) % q)
  }

  ghost predicate GoodWitness(q: int, bases: Bases, commitments: seq<Point>, values: seq<nat>, blindings: seq<Scalar>,
                              bits: nat)
    requires q > 0
  {
    |commitments| == |values| == |blindings| && |values| > 0 && InRange(values, bits) &&
    forall j :: 0 <= j < |values| ==> commitments[j] == Commitment(q, bases, values[j], blindings[j])
  }

  /** The proof an honest prover sends, or `None` when some challenge is zero. */
  function HonestProof(q: int, oracle: Oracle, bases: Bases, statement: seq<int>, commitments: seq<Point>,
                       values: seq<nat>, blindings: seq<Scalar>, bits: nat, coins: Coins): Option<Proof>
    requires q > 1 && |commitments| == |values| == |blindings| && Dimensions(|values|, bits).Some?
    requires |coins.sL| == |coins.sR| == Dimensions(|values|, bits).value.1
  {
    DimensionsSound(|values|, bits);
    var (padded, size) := Dimensions(|values|, bits).value;
    var t := BaseTranscript(statement, commitments, |values|, bits);
    var g, h := Take(bases.g, size), Take(bases.h, size);
    var aL := AllBits(Pad(values, padded), bits);
    var a := VectorCommitment(q, g, h, bases.blind, aL, Shifted(aL, -1), coins.alpha);
    var s := VectorCommitment(q, g, h, bases.blind, coins.sL, coins.sR, coins.rho);
    var y, z := ChallengeY(q, oracle, t, a, s), ChallengeZ(q, oracle, t, a, s);
    if y == 0 || z == 0 then None
    else
      var yPowers, blocks := Powers(y, size), BlockWeights(z, padded, bits);
      var l0, r0 := LeftConstant(aL, z), RightConstant(aL, yPowers, blocks, z);
      var r1 := Times(yPowers, coins.sR);
      var t1 := Commitment(q, bases, Inner(coins.sL, r0) + Inner(l0, r1), coins.tau1);
      var t2 := Commitment(q, bases, Inner(coins.sL, r1), coins.tau2);
      var x := ChallengeX(q, oracle, t, a, s, t1, t2);
      if x == 0 then None
      else
        var l, r := Evaluate(q, l0, coins.sL, x), Evaluate(q, r0, r1, x);
        var tHat := Inner(l, r) % q;
        var tauX := TauX(q, coins.tau1, coins.tau2, x, Inner(ValueWeights(z, |values|), blindings));
        var mu := Mu(q, coins.alpha, coins.rho, x);
        var moves := Moves(q, oracle, t, a, s, t1, t2, tauX, mu, tHat);
        var w := ChallengeW(q, oracle, moves);
        if w == 0 then None
        else
          var hPrime, uPrime := ScaledGenerators(q, h, y), bases.u * w % q;
          var p := Reconstructed(q, g, hPrime, bases.blind, uPrime, a, s, x, z, yPowers, blocks, mu, tHat);
          match IPA.HonestProof(q, oracle, moves + [p], 0, g, hPrime, uPrime, l, r)
          case None => None
          case Some(inner) => Some(Proof(|values|, bits, a, s, t1, t2, tauX, mu, tHat, inner))
  }
}
