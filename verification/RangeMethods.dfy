/**
  The running prover and verifier of the range proof: every vector is built in a loop with one
  reduction per operation, and the results are proved to be the specified ones.
 */
module RangeMethods {
  import opened Common
  import opened Modular
  import opened Bits
  import opened Vectors
  import opened RangeVectors
  import opened RangeProof
  import opened RangeCompleteness
  import IPA = InnerProductArgument

  // ---------------------------------------------------------------- dimensions

  method RoundedUp(value: nat) returns (r: Option<nat>)
    ensures r == NextPowerOfTwo(value)
    ensures r.Some? ==> IsPow2(r.value) && value <= r.value < 2 * value
  {
    if value == 0 || value > MAX_VECTOR {
      return None;
    }
    var out := 1;
    while out < value
      invariant out > 0 && IsPow2(out) && out < 2 * value && RoundUp(value, out) == RoundUp(value, 1)
      decreases value - out
    {
      assert 2 * out / 2 == out;
      out := 2 * out;
    }
    r := Some(out);
  }

  method RangeDimensions(valueCount: nat, bits: nat) returns (r: Option<(nat, nat)>)
    ensures r == Dimensions(valueCount, bits)
  {
    hide NextPowerOfTwo, RoundUp, IsPow2;
    if valueCount == 0 || bits == 0 || bits > 63 {
      return None;
    }
    var padded := RoundedUp(valueCount);
    if padded == None {
      return None;
    }
    var product := padded.value * bits;
    var size := RoundedUp(product);
    if size == None || size.value != product {
      return None;
    }
    r := Some((padded.value, product));
  }

  // ---------------------------------------------------------------- vectors

  lemma PowerStep(q: int, power: int, x: int, k: nat)
    requires q > 1 && Cong(q, power, Pow(x, k))
    ensures Cong(q, power * x % q, Pow(x, k + 1))
  {
    CongMul(q, power, Pow(x, k), x, x);
    ModCong(q, power * x);
  }

  lemma FirstWeight(q: int, z: int)
    requires q > 1
    ensures ValueWeight(z, 0) == z * z && Cong(q, z * z % q, ValueWeight(z, 0))
  {
    assert Pow(z, 0) == 1 && Pow(z, 1) == z && Pow(z, 2) == z * z;
    ModCong(q, z * z);
  }

  lemma NextWeight(q: int, zPower: int, z: int, j: nat)
    requires q > 1 && Cong(q, zPower, ValueWeight(z, j))
    ensures Cong(q, zPower * z % q, ValueWeight(z, j + 1))
  {
    PowerStep(q, zPower, z, j + 2);
  }

  method ScalarPowers(q: int, x: int, count: nat) returns (out: Vec)
    requires q > 1
    ensures CongV(q, out, Powers(x, count))
  {
    out := [];
    for i := 0 to count
      invariant |out| == i
      invariant forall k :: 0 <= k < i ==> Cong(q, out[k], Pow(x, k))
    {
      var next := 1;
      if i > 0 {
        next := out[i - 1] * x % q;
        PowerStep(q, out[i - 1], x, i - 1);
      }
      out := out + [next];
    }
  }

  /** The bits of every value, zero for the padding. */
  method BitVector(values: seq<nat>, padded: nat, bits: nat) returns (aL: Vec)
    requires |values| <= padded
    ensures aL == AllBits(Pad(values, padded), bits)
  {
    ghost var all := Pad(values, padded);
    aL := [];
    for valueIndex := 0 to padded
      invariant aL == AllBits(all[..valueIndex], bits)
    {
      var value := if valueIndex < |values| then values[valueIndex] else 0;
      ghost var before := aL;
      for bit := 0 to bits
        invariant aL == before + BitsOf(value, bits)[..bit]
      {
        aL := aL + [Bit(value, bit)];
      }
      assert all[..valueIndex + 1][..valueIndex] == all[..valueIndex];
      assert BitsOf(value, bits)[..bits] == BitsOf(value, bits);
    }
    assert all[..padded] == all;
  }

  method Block(q: int, zPower: int, bits: nat, ghost w: int) returns (block: Vec)
    requires q > 1 && Cong(q, zPower, w)
    ensures CongV(q, block, Scale(w, TwoPowers(bits)))
  {
    var two := 1;
    block := [];
    for bit := 0 to bits
      invariant |block| == bit && Cong(q, two, Pow2(bit))
      invariant forall k :: 0 <= k < bit ==> Cong(q, block[k], w * TwoPowers(bits)[k])
    {
      CongMul(q, zPower, w, two, Pow2(bit));
      ModCong(q, zPower * two);
      block := block + [zPower * two % q];
      CongMulLeft(q, 2, two, Pow2(bit));
      ModCong(q, 2 * two);
      two := 2 * two % q;
    }
  }

  method BlockVector(q: int, z: int, padded: nat, bits: nat) returns (out: Vec)
    requires q > 1
    ensures CongV(q, out, BlockWeights(z, padded, bits))
  {
    out := [];
    var zPower := z * z % q;
    FirstWeight(q, z);
    for valueIndex := 0 to padded
      invariant CongV(q, out, BlockWeights(z, valueIndex, bits))
      invariant Cong(q, zPower, ValueWeight(z, valueIndex))
    {
      var block := Block(q, zPower, bits, ValueWeight(z, valueIndex));
      out := out + block;
      NextWeight(q, zPower, z, valueIndex);
      zPower := zPower * z % q;
    }
  }

  /** The right vector's constant part, `y^i (aL_i - 1 + z) + w_i`, from reduced inputs. */
  method RightConstantVector(q: int, aL: Vec, ys: Vec, ws: Vec, z: int, ghost yPowers: Vec, ghost blocks: Vec)
    returns (r0: Vec)
    requires q > 1 && |aL| == |yPowers| == |blocks| && CongV(q, ys, yPowers) && CongV(q, ws, blocks)
    ensures CongV(q, r0, RightConstant(aL, yPowers, blocks, z))
  {
    r0 := [];
    for i := 0 to |aL|
      invariant |r0| == i
      invariant forall k :: 0 <= k < i ==> Cong(q, r0[k], RightConstant(aL, yPowers, blocks, z)[k])
    {
      var shifted := ((aL[i] - 1) % q + z) % q;
      RightEntry(q, aL[i], ys[i], ws[i], z, yPowers[i], blocks[i]);
      r0 := r0 + [(ys[i] * shifted % q + ws[i]) % q];
    }
  }

  lemma RightEntry(q: int, bit: int, y: int, w: int, z: int, y': int, w': int)
    requires q > 1 && Cong(q, y, y') && Cong(q, w, w')
    ensures Cong(q, (y * (((bit - 1) % q + z) % q) % q + w) % q, y' * (bit - 1 + z) + w')
  {
    ModAdd(q, bit - 1, z);
    var s := (bit - 1 + z) % q;
    ModCong(q, bit - 1 + z);
    CongMul(q, y, y', s, bit - 1 + z);
    ModCong(q, y * s);
    CongAdd(q, y * s % q, y' * (bit - 1 + z), w, w');
    ModCong(q, y * s % q + w);
  }

  method ShiftVector(q: int, v: Vec, c: int) returns (out: Vec)
    requires q > 1
    ensures CongV(q, out, Shifted(v, c))
  {
    out := [];
    for i := 0 to |v|
      invariant |out| == i && forall k :: 0 <= k < i ==> Cong(q, out[k], v[k] + c)
    {
      ModCong(q, v[i] + c);
      out := out + [(v[i] + c) % q];
    }
  }

  method TimesVector(q: int, v: Vec, w: Vec, ghost v': Vec) returns (out: Vec)
    requires q > 1 && |v| == |w| && CongV(q, v, v')
    ensures CongV(q, out, Times(v', w))
  {
    out := [];
    for i := 0 to |v|
      invariant |out| == i && forall k :: 0 <= k < i ==> Cong(q, out[k], v'[k] * w[k])
    {
      CongMul(q, v[i], v'[i], w[i], w[i]);
      ModCong(q, v[i] * w[i]);
      out := out + [v[i] * w[i] % q];
    }
  }

  method EvaluateVector(q: int, constant: Vec, linear: Vec, x: int, ghost constant': Vec, ghost linear': Vec)
    returns (out: Vec)
    requires q > 1 && |constant| == |linear| && CongV(q, constant, constant') && CongV(q, linear, linear')
    ensures out == Evaluate(q, constant', linear', x)
  {
    out := [];
    for i := 0 to |constant|
      invariant out == Evaluate(q, constant', linear', x)[..i]
    {
      ModAdd(q, constant[i], linear[i] * x);
      CongMul(q, linear[i], linear'[i], x, x);
      CongAdd(q, constant[i], constant'[i], linear[i] * x, linear'[i] * x);
      assert linear'[i] * x == x * linear'[i];
      out := out + [(constant[i] + linear[i] * x % q) % q];
    }
  }

  /** Points scaled entry by entry. */
  method ScaledPoints(q: int, h: seq<Point>, y: int) returns (out: seq<Point>)
    requires q > 1
    ensures out == ScaledGenerators(q, h, y)
  {
    var inverse := Inv(q, y);
    var powers := ScalarPowers(q, inverse, |h|);
    out := [];
    for i := 0 to |h|
      invariant out == ScaledGenerators(q, h, y)[..i]
    {
      CongMulLeft(q, h[i], powers[i], Pow(inverse, i));
      out := out + [h[i] * powers[i] % q];
    }
  }

  method HCoefficientVector(q: int, z: int, ys: Vec, ws: Vec, ghost yPowers: Vec, ghost blocks: Vec)
    returns (out: Vec)
    requires q > 1 && |yPowers| == |blocks| && CongV(q, ys, yPowers) && CongV(q, ws, blocks)
    ensures CongV(q, out, HCoefficients(z, yPowers, blocks))
  {
    out := [];
    for i := 0 to |ys|
      invariant |out| == i && forall k :: 0 <= k < i ==> Cong(q, out[k], z * yPowers[k] + blocks[k])
    {
      CongMulLeft(q, z, ys[i], yPowers[i]);
      ModAdd(q, z * ys[i], ws[i]);
      CongAdd(q, z * ys[i], z * yPowers[i], ws[i], blocks[i]);
      ModCong(q, z * ys[i] + ws[i]);
      out := out + [(z * ys[i] % q + ws[i]) % q];
    }
  }

  // ---------------------------------------------------------------- scalars and points

  /** The running sum of `z^(j+3) (2^bits - 1)`. */
  lemma {:induction false} SubtractedTerms(z: int, n: nat)
    ensures WeightTotal(z, n + 1) == WeightTotal(z, n) + ValueWeight(z, n)
    ensures ValueWeight(z, n + 1) == ValueWeight(z, n) * z
  {
    assert Ones(n + 1) == Ones(n) + [1] && ValueWeights(z, n + 1) == ValueWeights(z, n) + [ValueWeight(z, n)];
    InnerAppend(Ones(n), ValueWeights(z, n), 1, ValueWeight(z, n));
  }

  method PowersTotal(q: int, y: int, size: nat) returns (sumY: int)
    requires q > 1
    ensures Cong(q, sumY, Inner(Ones(size), Powers(y, size)))
  {
    var ys := ScalarPowers(q, y, size);
    sumY := 0;
    ghost var ones := Ones(size);
    for i := 0 to size
      invariant Cong(q, sumY, Sum(ones, Powers(y, size), i))
    {
      CongAdd(q, sumY, Sum(ones, Powers(y, size), i), ys[i], Powers(y, size)[i]);
      ModCong(q, sumY + ys[i]);
      sumY := (sumY + ys[i]) % q;
    }
  }

  /** The weights of all values from `z^3` on. */
  function WeightTotal(z: int, n: nat): int {
    Inner(Ones(n), ValueWeights(z, n))
  }

  method SubtractedTotal(q: int, z: int, zSquared: int, twoSum: int, padded: nat) returns (subtract: int)
    requires q > 1 && zSquared == z * z % q
    ensures Cong(q, subtract, z * (twoSum * WeightTotal(z, padded)))
  {
    hide WeightTotal, ValueWeight;
    FirstWeight(q, z);
    SubtractStart(z, twoSum);
    var zPower := zSquared * z % q;
    NextWeight(q, zSquared, z, 0);
    subtract := 0;
    for i := 0 to padded
      invariant Cong(q, zPower, ValueWeight(z, i + 1))
      invariant Cong(q, subtract, z * (twoSum * WeightTotal(z, i)))
    {
      SubtractedTerms(z, i);
      SubtractStep(q, zPower, ValueWeight(z, i), z, twoSum, subtract, WeightTotal(z, i), WeightTotal(z, i + 1));
      subtract := (subtract + zPower * twoSum % q) % q;
      NextWeight(q, zPower, z, i + 1);
      zPower := zPower * z % q;
    }
  }

  lemma SubtractStart(z: int, twoSum: int)
    ensures z * (twoSum * WeightTotal(z, 0)) == 0
  {
    assert Sum(Ones(0), ValueWeights(z, 0), 0) == 0;
  }

  /** `delta(y,z)` computed with two loops. */
  method RangeDelta(q: int, y: int, z: int, padded: nat, bits: nat) returns (delta: int)
    requires q > 1
    ensures delta == Delta(y, z, padded, bits) % q
  {
    var sumY := PowersTotal(q, y, padded * bits);
    var twoSum := Pow2(bits) - 1;
    var zSquared := z * z % q;
    ModCong(q, z * z);
    var first := ((z - zSquared) % q * sumY) % q;
    var subtract := SubtractedTotal(q, z, zSquared, twoSum, padded);
    DeltaStep(q, z, zSquared, sumY, Inner(Ones(padded * bits), Powers(y, padded * bits)), subtract,
              z * (twoSum * WeightTotal(z, padded)));
    delta := (first - subtract) % q;
  }

  lemma SubtractStep(q: int, zPower: int, w: int, z: int, two: int, subtract: int, before: int, after: int)
    requires q > 1 && Cong(q, zPower, w * z) && Cong(q, subtract, z * (two * before)) && after == before + w
    ensures Cong(q, (subtract + zPower * two % q) % q, z * (two * after))
  {
    CongMul(q, zPower, w * z, two, two);
    ModAdd(q, subtract, zPower * two);
    CongAdd(q, subtract, z * (two * before), zPower * two, w * z * two);
    ModCong(q, subtract + zPower * two);
    assert z * (two * after) == z * (two * before) + w * z * two by {
      assert two * after == two * before + two * w;
    }
  }

  lemma DeltaStep(q: int, z: int, zSquared: int, sumY: int, sumY': int, subtract: int, subtract': int)
    requires q > 1 && Cong(q, zSquared, z * z) && Cong(q, sumY, sumY') && Cong(q, subtract, subtract')
    ensures (((z - zSquared) % q * sumY) % q - subtract) % q == ((z - z * z) * sumY' - subtract') % q
  {
    CongSub(q, z, z, zSquared, z * z);
    ModCong(q, z - zSquared);
    CongMul(q, (z - zSquared) % q, z - z * z, sumY, sumY');
    ModCong(q, (z - zSquared) % q * sumY);
    CongSub(q, ((z - zSquared) % q * sumY) % q, (z - z * z) * sumY', subtract, subtract');
  }

  /** `start` plus the entries weighted by `z^2, z^3, ...`, stopping at the last real entry. */
  method WeightedSum(q: int, z: int, entries: seq<int>, padded: nat, start: int) returns (out: int)
    requires q > 1 && |entries| <= padded
    ensures Cong(q, out, start + Inner(ValueWeights(z, |entries|), entries))
  {
    out := start;
    var zPower := z * z % q;
    FirstWeight(q, z);
    ghost var ws := ValueWeights(z, |entries|);
    for i := 0 to padded
      invariant Cong(q, zPower, ValueWeight(z, i))
      invariant Cong(q, out, start + Sum(ws, entries, if i < |entries| then i else |entries|))
    {
      if i < |entries| {
        AddWeighted(q, out, start + Sum(ws, entries, i), zPower, ws[i], entries[i]);
        out := (out + zPower * entries[i] % q) % q;
      }
      NextWeight(q, zPower, z, i);
      zPower := zPower * z % q;
    }
  }

  lemma AddWeighted(q: int, out: int, out': int, w: int, w': int, entry: int)
    requires q > 0 && Cong(q, out, out') && Cong(q, w, w')
    ensures Cong(q, (out + w * entry % q) % q, out' + w' * entry)
  {
    CongMul(q, w, w', entry, entry);
    CongAdd(q, out, out', w * entry, w' * entry);
    ModAdd(q, out, w * entry);
    ModCong(q, out + w * entry);
  }

  method VectorCommit(q: int, g: seq<Point>, h: seq<Point>, blind: Point, l: Vec, r: Vec, coin: Scalar, ghost r': Vec)
    returns (out: Point)
    requires q > 1 && |g| == |h| == |l| == |r| && CongV(q, r, r')
    ensures out == VectorCommitment(q, g, h, blind, l, r', coin)
  {
    hide Inner, CongV, VectorCommitment;
    IPA.CongVLength(q, r, r');
    var left := InnerProduct(q, g, l);
    var right := InnerProduct(q, h, r);
    IPA.RightCong(q, h, r, r');
    Commit3(q, g, h, blind, l, r', coin, left, right);
    out := ((left + right) % q + blind * coin % q) % q;
  }

  lemma Commit3(q: int, g: seq<Point>, h: seq<Point>, blind: Point, l: Vec, r: Vec, coin: Scalar, left: int, right: int)
    requires q > 1 && |g| == |h| == |l| == |r| && left == Inner(g, l) % q && right == Inner(h, r) % q
    ensures ((left + right) % q + blind * coin % q) % q == VectorCommitment(q, g, h, blind, l, r, coin)
  {
    hide Inner;
    Commit3Sums(q, Inner(g, l), Inner(h, r), blind * coin, left, right);
  }

  lemma Commit3Sums(q: int, a: int, b: int, c: int, left: int, right: int)
    requires q > 0 && left == a % q && right == b % q
    ensures ((left + right) % q + c % q) % q == (a + b + c) % q
  {
    Sum3(q, a, b, c);
  }

  lemma Sum3(q: int, a: int, b: int, c: int)
    requires q > 0
    ensures ((a % q + b % q) % q + c % q) % q == (a + b + c) % q
  {
    ModAdd(q, a, b % q);
    ModAdd(q, a, b);
    ModAdd(q, a + b, c % q);
    ModAdd(q, a + b, c);
  }

  method PairCommit(q: int, bases: Bases, value: int, blinding: Scalar) returns (out: Point)
    requires q > 1
    ensures out == Commitment(q, bases, value, blinding)
  {
    ModAdd(q, bases.value * value, bases.blind * blinding % q);
    ModAdd(q, bases.value * value, bases.blind * blinding);
    out := (bases.value * value % q + bases.blind * blinding % q) % q;
  }

  /** The commitment that the inner-product argument opens. */
  method Reconstruct(q: int, g: seq<Point>, hPrime: seq<Point>, blind: Point, uPrime: Point, a: Point, s: Point,
                     x: int, z: int, ys: Vec, ws: Vec, mu: Scalar, tHat: Scalar, ghost yPowers: Vec, ghost blocks: Vec)
    returns (p: Point)
    requires q > 1 && |g| == |hPrime| == |yPowers| == |blocks| && CongV(q, ys, yPowers) && CongV(q, ws, blocks)
    ensures p == Reconstructed(q, g, hPrime, blind, uPrime, a, s, x, z, yPowers, blocks, mu, tHat)
  {
    hide Inner, HCoefficients, Scale, Ones, CongV;
    var gCoefficients := MinusZ(q, z, |g|);
    var hCoefficients := HCoefficientVector(q, z, ys, ws, yPowers, blocks);
    IPA.CongVLength(q, gCoefficients, Scale(-z, Ones(|g|)));
    IPA.CongVLength(q, hCoefficients, HCoefficients(z, yPowers, blocks));
    var gSum := InnerProduct(q, g, gCoefficients);
    var hSum := InnerProduct(q, hPrime, hCoefficients);
    IPA.RightCong(q, g, gCoefficients, Scale(-z, Ones(|g|)));
    IPA.RightCong(q, hPrime, hCoefficients, HCoefficients(z, yPowers, blocks));
    p := (a + s * x % q) % q;
    p := (p + gSum) % q;
    p := (p + hSum) % q;
    p := (p + blind * (-mu % q) % q) % q;
    p := (p + uPrime * tHat % q) % q;
    ReconstructSteps(q, a, s * x, Inner(g, Scale(-z, Ones(|g|))), Inner(hPrime, HCoefficients(z, yPowers, blocks)),
                     blind, mu, uPrime * tHat);
  }

  lemma ReconstructSteps(q: int, a: int, sx: int, gs: int, hs: int, blind: int, mu: int, ut: int)
    requires q > 1
    ensures (((((a + sx % q) % q + gs % q) % q + hs % q) % q + blind * (-mu % q) % q) % q + ut % q) % q
            == (a + sx + gs + hs - mu * blind + ut) % q
  {
    var b := blind * (-mu % q);
    Reassociate(q, a, sx % q, gs % q, hs % q, b % q, ut % q);
    Reassociate(q, a, sx, gs, hs, b, ut);
    ModCong(q, sx);
    ModCong(q, gs);
    ModCong(q, hs);
    ModCong(q, b);
    ModCong(q, ut);
    IPA.SixTerms(q, a, sx % q, sx, gs % q, gs, hs % q, hs, b % q, -(mu * blind), ut % q, ut) by {
      ModCong(q, -mu);
      CongMulLeft(q, blind, -mu % q, -mu);
      assert blind * -mu == -(mu * blind);
    }
  }

  lemma Reassociate(q: int, a: int, b: int, c: int, d: int, e: int, f: int)
    requires q > 1
    ensures (((((a + b) % q + c) % q + d) % q + e) % q + f) % q == (a + b + c + d + e + f) % q
  {
    ModAdd(q, a + b, c);
    ModAdd(q, a + b + c, d);
    ModAdd(q, a + b + c + d, e);
    ModAdd(q, a + b + c + d + e, f);
  }

  method MinusZ(q: int, z: int, n: nat) returns (out: Vec)
    requires q > 1
    ensures CongV(q, out, Scale(-z, Ones(n)))
  {
    out := [];
    for i := 0 to n
      invariant |out| == i && forall k :: 0 <= k < i ==> Cong(q, out[k], -z * 1)
    {
      ModCong(q, -z);
      out := out + [-z % q];
    }
  }

  // ---------------------------------------------------------------- verifier

  method CheckPolynomial(q: int, bases: Bases, commitments: seq<Point>, proof: Proof, x: int, y: int, z: int,
                         padded: nat, bits: nat) returns (ok: bool)
    requires q > 1 && |commitments| <= padded
    ensures ok <==> PolynomialCheck(q, bases, commitments, proof.t1, proof.t2, proof.tauX, proof.tHat, x, z,
                                    Delta(y, z, padded, bits))
  {
    hide Inner, Delta;
    var left := PairCommit(q, bases, proof.tHat, proof.tauX);
    var delta := RangeDelta(q, y, z, padded, bits);
    var total := WeightedSum(q, z, commitments, padded, bases.value * delta % q);
    RightSideSteps(q, bases.value, delta, Delta(y, z, padded, bits), total,
                   Inner(ValueWeights(z, |commitments|), commitments), proof.t1 * x, proof.t2, x * x);
    var right := ((total + proof.t1 * x % q) % q + proof.t2 * (x * x % q) % q) % q;
    ModCong(q, (total + proof.t1 * x % q) % q + proof.t2 * (x * x % q) % q);
    ModCong(q, bases.value * proof.tHat + bases.blind * proof.tauX);
    ok := left == right;
  }

  lemma RightSideSteps(q: int, V: int, d: int, d': int, total: int, sum: int, t1x: int, t2: int, xx: int)
    requires q > 1 && d == d' % q && Cong(q, total, V * d % q + sum)
    ensures Cong(q, (total + t1x % q) % q + t2 * (xx % q) % q, V * d' + sum + t1x + t2 * xx)
  {
    ModCong(q, d');
    CongMulLeft(q, V, d, d');
    ModCong(q, V * d);
    CongAdd(q, V * d % q, V * d', sum, sum);
    ModAdd(q, total, t1x);
    ModCong(q, total + t1x);
    CongAdd(q, total, V * d' + sum, t1x, t1x);
    ModCong(q, xx);
    CongMulLeft(q, t2, xx % q, xx);
    ModCong(q, t2 * (xx % q));
    CongAdd(q, (total + t1x % q) % q, V * d' + sum + t1x, t2 * (xx % q) % q, t2 * xx);
  }

  method CheckInner(q: int, oracle: Oracle, bases: Bases, proof: Proof, moves: Transcript, x: int, y: int, z: int, w: int,
                    padded: nat, bits: nat) returns (ok: bool)
    requires q > 1
    ensures var g := Take(bases.g, padded * bits);
            var hPrime := ScaledGenerators(q, Take(bases.h, padded * bits), y);
            var p := Reconstructed(q, g, hPrime, bases.blind, bases.u * w % q, proof.a, proof.s, x, z,
                                   Powers(y, padded * bits), BlockWeights(z, padded, bits), proof.mu, proof.tHat);
            ok <==> IPA.Accepts(q, oracle, moves + [p], g, hPrime, bases.u * w % q, p, proof.inner)
  {
    var size := padded * bits;
    var g, h := Take(bases.g, size), Take(bases.h, size);
    var ys := ScalarPowers(q, y, size);
    var hPrime := ScaledPoints(q, h, y);
    var ws := BlockVector(q, z, padded, bits);
    var uPrime := bases.u * w % q;
    var p := Reconstruct(q, g, hPrime, bases.blind, uPrime, proof.a, proof.s, x, z, ys, ws, proof.mu, proof.tHat,
                         Powers(y, size), BlockWeights(z, padded, bits));
    ok := IPA.Verify(q, oracle, moves + [p], g, hPrime, uPrime, p, proof.inner);
  }

  /** The range verifier accepts exactly the proofs described by `Accepts`. */
  method Verify(q: int, oracle: Oracle, bases: Bases, statement: seq<int>, commitments: seq<Point>, proof: Proof,
                bits: nat) returns (ok: bool)
    requires q > 1
    ensures ok <==> Accepts(q, oracle, bases, statement, commitments, proof, bits)
  {
    hide Inner, Dimensions, Take, ScaledGenerators, Reconstructed, BlockWeights, Powers, PolynomialCheck, Delta,
      IPA.Accepts, ChallengeY, ChallengeZ, ChallengeX, ChallengeW, Moves, IsPow2;
    if proof.valueCount != |commitments| || proof.bits != bits {
      return false;
    }
    var dimensions := RangeDimensions(|commitments|, bits);
    if dimensions == None || |statement| != 32 {
      return false;
    }
    DimensionsSound(|commitments|, bits);
    var (padded, size) := dimensions.value;
    var t := BaseTranscript(statement, commitments, |commitments|, bits);
    var y := ChallengeY(q, oracle, t, proof.a, proof.s);
    var z := ChallengeZ(q, oracle, t, proof.a, proof.s);
    var x := ChallengeX(q, oracle, t, proof.a, proof.s, proof.t1, proof.t2);
    if y == 0 || z == 0 || x == 0 {
      return false;
    }
    var equation := CheckPolynomial(q, bases, commitments, proof, x, y, z, padded, bits);
    if !equation {
      return false;
    }
    var moves := Moves(q, oracle, t, proof.a, proof.s, proof.t1, proof.t2, proof.tauX, proof.mu, proof.tHat);
    var w := ChallengeW(q, oracle, moves);
    if w == 0 {
      return false;
    }
    ok := CheckInner(q, oracle, bases, proof, moves, x, y, z, w, padded, bits);
  }

  // ---------------------------------------------------------------- prover

  /** The prover's own checks of its witness. */
  method CheckWitness(q: int, bases: Bases, commitments: seq<Point>, values: seq<nat>, blindings: seq<Scalar>, bits: nat)
    returns (ok: bool)
    requires q > 1
    ensures ok <==> GoodWitness(q, bases, commitments, values, blindings, bits)
  {
    if |commitments| == 0 || |commitments| != |values| || |values| != |blindings| {
      return false;
    }
    var limit := Pow2(bits);
    for i := 0 to |values|
      invariant forall j :: 0 <= j < i ==> values[j] < Pow2(bits)
      invariant forall j :: 0 <= j < i ==> commitments[j] == Commitment(q, bases, values[j], blindings[j])
    {
      var expected := PairCommit(q, bases, values[i], blindings[i]);
      if values[i] >= limit || commitments[i] != expected {
        return false;
      }
    }
    ok := true;
  }

  /** The two vector commitments that open the protocol. */
  method FirstMoves(q: int, bases: Bases, aL: Vec, coins: Coins) returns (a: Point, s: Point)
    requires q > 1 && |aL| == |coins.sL| == |coins.sR|
    ensures a == VectorCommitment(q, Take(bases.g, |aL|), Take(bases.h, |aL|), bases.blind, aL, Shifted(aL, -1),
                                  coins.alpha)
    ensures s == VectorCommitment(q, Take(bases.g, |aL|), Take(bases.h, |aL|), bases.blind, coins.sL, coins.sR,
                                  coins.rho)
  {
    hide VectorCommitment, Take;
    var g, h := Take(bases.g, |aL|), Take(bases.h, |aL|);
    var aR := ShiftVector(q, aL, -1);
    a := VectorCommit(q, g, h, bases.blind, aL, aR, coins.alpha, Shifted(aL, -1));
    CongVRefl(q, coins.sR);
    s := VectorCommit(q, g, h, bases.blind, coins.sL, coins.sR, coins.rho, coins.sR);
  }

  /** The two coefficient commitments of `t(X)`. */
  method SecondMoves(q: int, bases: Bases, l0: Vec, r0: Vec, r1: Vec, coins: Coins,
                     ghost l0': Vec, ghost r0': Vec, ghost r1': Vec) returns (t1: Point, t2: Point)
    requires q > 1 && |l0| == |r0| == |r1| == |coins.sL|
    requires CongV(q, l0, l0') && CongV(q, r0, r0') && CongV(q, r1, r1')
    ensures t1 == Commitment(q, bases, Inner(coins.sL, r0') + Inner(l0', r1'), coins.tau1)
    ensures t2 == Commitment(q, bases, Inner(coins.sL, r1'), coins.tau2)
  {
    hide Inner, CongV;
    IPA.CongVLength(q, l0, l0');
    IPA.CongVLength(q, r0, r0');
    IPA.CongVLength(q, r1, r1');
    var left := InnerProduct(q, coins.sL, r0);
    var right := InnerProduct(q, l0, r1);
    var square := InnerProduct(q, coins.sL, r1);
    IPA.RightCong(q, coins.sL, r0, r0');
    IPA.RightCong(q, coins.sL, r1, r1');
    InnerCong(q, l0, l0', r1, r1');
    CongAdd(q, Inner(coins.sL, r0), Inner(coins.sL, r0'), Inner(l0, r1), Inner(l0', r1'));
    ModAdd(q, Inner(coins.sL, r0), right);
    ModAdd(q, Inner(coins.sL, r0), Inner(l0, r1));
    t1 := PairCommit(q, bases, (left + right) % q, coins.tau1);
    t2 := PairCommit(q, bases, square, coins.tau2);
    CommitmentCong(q, bases, (left + right) % q, Inner(coins.sL, r0') + Inner(l0', r1'), coins.tau1);
    CommitmentCong(q, bases, square, Inner(coins.sL, r1'), coins.tau2);
  }

  lemma CommitmentCong(q: int, bases: Bases, v: int, v': int, blinding: Scalar)
    requires q > 1 && v == v' % q
    ensures Commitment(q, bases, v, blinding) == Commitment(q, bases, v', blinding)
  {
    ModCong(q, v');
    CongMulLeft(q, bases.value, v, v');
    CongAdd(q, bases.value * v, bases.value * v', bases.blind * blinding, bases.blind * blinding);
  }

  /** The answers to the evaluation challenge. */
  method Answers(q: int, z: int, x: int, blindings: seq<Scalar>, padded: nat, coins: Coins)
    returns (tauX: Scalar, mu: Scalar)
    requires q > 1 && |blindings| <= padded
    ensures tauX == TauX(q, coins.tau1, coins.tau2, x, Inner(ValueWeights(z, |blindings|), blindings))
    ensures mu == Mu(q, coins.alpha, coins.rho, x)
  {
    hide Inner;
    var start := (coins.tau2 * (x * x % q) % q + coins.tau1 * x % q) % q;
    tauX := WeightedSum(q, z, blindings, padded, start);
    TauSteps(q, coins.tau2, x * x, coins.tau1 * x, Inner(ValueWeights(z, |blindings|), blindings), tauX);
    tauX := tauX % q;
    ModAdd(q, coins.rho * x, coins.alpha);
    mu := (coins.rho * x % q + coins.alpha) % q;
  }

  lemma TauSteps(q: int, tau2: int, xx: int, t1x: int, sum: int, total: int)
    requires q > 1 && Cong(q, total, (tau2 * (xx % q) % q + t1x % q) % q + sum)
    ensures total % q == (tau2 * xx + t1x + sum) % q
  {
    ModMul(q, tau2, xx);
    ModAdd(q, tau2 * xx, t1x % q);
    ModAdd(q, tau2 * xx, t1x);
    ModAdd(q, tau2 * xx + t1x, sum);
  }

  /** The range prover: it sends the honest proof, and that proof is always accepted. */
  method Prove(q: int, oracle: Oracle, bases: Bases, statement: seq<int>, commitments: seq<Point>, values: seq<nat>,
               blindings: seq<Scalar>, bits: nat, coins: Coins) returns (r: Option<Proof>)
    requires Prime(q)
    requires Dimensions(|values|, bits).Some? ==>
               |coins.sL| == |coins.sR| == Dimensions(|values|, bits).value.1
    ensures GoodWitness(q, bases, commitments, values, blindings, bits) && Dimensions(|values|, bits).Some? &&
            |statement| == 32
            ==> r == HonestProof(q, oracle, bases, statement, commitments, values, blindings, bits, coins)
    ensures (!GoodWitness(q, bases, commitments, values, blindings, bits) || Dimensions(|values|, bits).None? ||
             |statement| != 32) ==> r == None
    ensures r.Some? ==> Accepts(q, oracle, bases, statement, commitments, r.value, bits)
  {
    hide Dimensions, IsPow2, GoodWitness, Accepts, HonestProof;
    var dimensions := RangeDimensions(|values|, bits);
    if dimensions == None || |statement| != 32 {
      return None;
    }
    var good := CheckWitness(q, bases, commitments, values, blindings, bits);
    if !good {
      return None;
    }
    WitnessShape(q, bases, commitments, values, blindings, bits);
    DimensionsSound(|values|, bits);
    r := ProveHonest(q, oracle, bases, statement, commitments, values, blindings, bits, coins, dimensions.value.0);
    if r.Some? {
      Complete(q, oracle, bases, statement, commitments, values, blindings, bits, coins);
    }
  }

  lemma WitnessShape(q: int, bases: Bases, commitments: seq<Point>, values: seq<nat>, blindings: seq<Scalar>, bits: nat)
    requires q > 1 && GoodWitness(q, bases, commitments, values, blindings, bits)
    ensures |commitments| == |values| == |blindings|
  {}

  method ProveHonest(q: int, oracle: Oracle, bases: Bases, statement: seq<int>, commitments: seq<Point>,
                     values: seq<nat>, blindings: seq<Scalar>, bits: nat, coins: Coins, padded: nat)
    returns (r: Option<Proof>)
    requires q > 1 && |commitments| == |values| == |blindings|
    requires Dimensions(|values|, bits) == Some((padded, padded * bits))
    requires |coins.sL| == |coins.sR| == padded * bits
    ensures r == HonestProof(q, oracle, bases, statement, commitments, values, blindings, bits, coins)
  {
    hide Inner, Dimensions, IsPow2, AllBits, Take, ScaledGenerators, Reconstructed, BlockWeights, Powers, Times,
      LeftConstant, RightConstant, VectorCommitment, Shifted, Commitment, TauX, Mu, Evaluate, ChallengeY, ChallengeZ,
      ChallengeX, ChallengeW, Moves, IPA.HonestProof, Pad;
    DimensionsSound(|values|, bits);
    var size := padded * bits;
    var t := BaseTranscript(statement, commitments, |values|, bits);
    var aL := BitVector(values, padded, bits);
    var a, s := FirstMoves(q, bases, aL, coins);
    var y, z := ChallengeY(q, oracle, t, a, s), ChallengeZ(q, oracle, t, a, s);
    if y == 0 || z == 0 {
      return None;
    }
    var ys := ScalarPowers(q, y, size);
    var ws := BlockVector(q, z, padded, bits);
    ghost var yPowers, blocks := Powers(y, size), BlockWeights(z, padded, bits);
    var l0 := LeftVector(q, aL, z);
    var r0 := RightConstantVector(q, aL, ys, ws, z, yPowers, blocks);
    var r1 := TimesVector(q, ys, coins.sR, yPowers);
    ghost var l0', r0', r1' := LeftConstant(aL, z), RightConstant(aL, yPowers, blocks, z), Times(yPowers, coins.sR);
    var t1, t2 := SecondMoves(q, bases, l0, r0, r1, coins, l0', r0', r1');
    var x := ChallengeX(q, oracle, t, a, s, t1, t2);
    if x == 0 {
      return None;
    }
    CongVRefl(q, coins.sL);
    var l := EvaluateVector(q, l0, coins.sL, x, l0', coins.sL);
    var r' := EvaluateVector(q, r0, r1, x, r0', r1');
    var tHat := InnerProduct(q, l, r');
    var tauX, mu := Answers(q, z, x, blindings, padded, coins);
    var moves := Moves(q, oracle, t, a, s, t1, t2, tauX, mu, tHat);
    var w := ChallengeW(q, oracle, moves);
    if w == 0 {
      return None;
    }
    var g, h := Take(bases.g, size), Take(bases.h, size);
    var hPrime := ScaledPoints(q, h, y);
    var uPrime := bases.u * w % q;
    var p := Reconstruct(q, g, hPrime, bases.blind, uPrime, a, s, x, z, ys, ws, mu, tHat, yPowers, blocks);
    var inner := IPA.Prove(q, oracle, moves + [p], g, hPrime, uPrime, l, r');
    if inner == None {
      return None;
    }
    r := Some(Proof(|values|, bits, a, s, t1, t2, tauX, mu, tHat, inner.value));
  }

  method LeftVector(q: int, aL: Vec, z: int) returns (l0: Vec)
    requires q > 1
    ensures CongV(q, l0, LeftConstant(aL, z))
  {
    l0 := ShiftVector(q, aL, -z);
  }
}
