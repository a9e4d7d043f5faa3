/**
  The vectors of an aggregated range proof and the identities between them: the bits of every value,
  the powers of the two challenges, and the constant term that the verifier calls `delta`.
 */
module RangeVectors {
  import opened Modular
  import opened Bits
  import opened Vectors

  /** `1, x, x^2, ...` */
  function Powers(x: int, n: nat): (r: Vec)
    ensures |r| == n
  {
    seq(n, i requires 0 <= i < n => Pow(x, i))
  }

  function Ones(n: nat): (r: Vec)
    ensures |r| == n
  {
    seq(n, i requires 0 <= i < n => 1)
  }

  /** `1, 2, 4, ...` */
  function TwoPowers(bits: nat): (r: Vec)
    ensures |r| == bits
  {
    seq(bits, i requires 0 <= i < bits => Pow2(i))
  }

  function BitsOf(value: nat, bits: nat): (r: Vec)
    ensures |r| == bits
  {
    seq(bits, i requires 0 <= i < bits => Bit(value, i))
  }

  /** The weight `z^(j+2)` of value number `j`. */
  function ValueWeight(z: int, j: nat): int {
    Pow(z, j + 2)
  }

  function ValueWeights(z: int, count: nat): (r: Vec)
    ensures |r| == count
  {
    seq(count, j requires 0 <= j < count => ValueWeight(z, j))
  }

  /** The bits of all values, one block per value. */
  function AllBits(values: seq<nat>, bits: nat): (r: Vec)
    ensures |r| == |values| * bits
  {
    if |values| == 0 then []
    else AllBits(values[..|values| - 1], bits) + BitsOf(values[|values| - 1], bits)
  }

  /** Block `j` is `z^(j+2)` times the powers of two. */
  function BlockWeights(z: int, count: nat, bits: nat): (r: Vec)
    ensures |r| == count * bits
  {
    if count == 0 then []
    else BlockWeights(z, count - 1, bits) + Scale(ValueWeight(z, count - 1), TwoPowers(bits))
  }

  function LowBits(v: nat, k: nat): nat {
    if k == 0 then 0 else v % 2 + 2 * LowBits(v / 2, k - 1)
  }

  lemma {:induction false} LowBitsNext(v: nat, k: nat)
    ensures LowBits(v, k + 1) == LowBits(v, k) + Pow2(k) * Bit(v, k)
  {
    if k > 0 {
      LowBitsNext(v / 2, k - 1);
      DoubledBit(Pow2(k - 1), Bit(v, k));
    }
  }

  lemma DoubledBit(p: nat, b: int)
    ensures 2 * (p * b) == (2 * p) * b
  {}

  lemma {:induction false} LowBitsAll(v: nat, k: nat)
    requires v < Pow2(k)
    ensures LowBits(v, k) == v
  {
    if k > 0 {
      LowBitsAll(v / 2, k - 1);
    }
  }

  lemma {:induction false} BitsSum(v: nat, bits: nat, n: nat)
    requires n <= bits
    ensures Sum(BitsOf(v, bits), TwoPowers(bits), n) == LowBits(v, n)
  {
    if n > 0 {
      BitsSum(v, bits, n - 1);
      LowBitsNext(v, n - 1);
    }
  }

  /** The bits of an in-range value, weighted by powers of two, give the value back. */
  lemma BitsRecompose(v: nat, bits: nat)
    requires v < Pow2(bits)
    ensures Inner(BitsOf(v, bits), TwoPowers(bits)) == v
  {
    BitsSum(v, bits, bits);
    LowBitsAll(v, bits);
  }

  lemma {:induction false} OnesTwoPowers(bits: nat, n: nat)
    requires n <= bits
    ensures Sum(Ones(bits), TwoPowers(bits), n) == Pow2(n) - 1
  {
    if n > 0 {
      OnesTwoPowers(bits, n - 1);
    }
  }

  lemma InnerRightScale(s: int, a: Vec, b: Vec)
    requires |a| == |b|
    ensures Inner(a, Scale(s, b)) == s * Inner(a, b)
  {
    InnerComm(a, Scale(s, b));
    InnerScale(s, b, a);
    InnerComm(a, b);
  }

  lemma InnerAppend(a: Vec, b: Vec, x: int, y: int)
    requires |a| == |b|
    ensures Inner(a + [x], b + [y]) == Inner(a, b) + x * y
  {
    InnerConcat(a, b, [x], [y]);
    assert Sum([x], [y], 0) == 0;
    assert Inner([x], [y]) == x * y;
  }

  ghost predicate InRange(values: seq<nat>, bits: nat) {
    forall j :: 0 <= j < |values| ==> values[j] < Pow2(bits)
  }

  /** The block weights applied to the bits are the value weights applied to the values. */
  lemma {:induction false} BitsToValues(z: int, values: seq<nat>, bits: nat)
    requires InRange(values, bits)
    ensures Inner(AllBits(values, bits), BlockWeights(z, |values|, bits)) == Inner(ValueWeights(z, |values|), values)
  {
    if |values| > 0 {
      var n := |values| - 1;
      var w := ValueWeight(z, n);
      BitsToValues(z, values[..n], bits);
      InnerConcat(AllBits(values[..n], bits), BlockWeights(z, n, bits), BitsOf(values[n], bits), Scale(w, TwoPowers(bits)));
      InnerRightScale(w, BitsOf(values[n], bits), TwoPowers(bits));
      BitsRecompose(values[n], bits);
      assert ValueWeights(z, n + 1) == ValueWeights(z, n) + [w];
      assert values == values[..n] + [values[n]];
      InnerAppend(ValueWeights(z, n), values[..n], w, values[n]);
    }
  }

  /** The block weights sum to `2^bits - 1` for every value weight. */
  lemma {:induction false} BlockWeightsTotal(z: int, count: nat, bits: nat)
    ensures Inner(Ones(count * bits), BlockWeights(z, count, bits))
            == (Pow2(bits) - 1) * Inner(Ones(count), ValueWeights(z, count))
  {
    hide ValueWeight;
    if count > 0 {
      var n := count - 1;
      var w := ValueWeight(z, n);
      BlockWeightsTotal(z, n, bits);
      assert Ones(count * bits) == Ones(n * bits) + Ones(bits);
      InnerConcat(Ones(n * bits), BlockWeights(z, n, bits), Ones(bits), Scale(w, TwoPowers(bits)));
      InnerRightScale(w, Ones(bits), TwoPowers(bits));
      OnesTwoPowers(bits, bits);
      assert Ones(count) == Ones(n) + [1] && ValueWeights(z, count) == ValueWeights(z, n) + [w];
      InnerAppend(Ones(n), ValueWeights(z, n), 1, w);
      Distribute(Pow2(bits) - 1, Inner(Ones(n), ValueWeights(z, n)), w, Inner(Ones(count), ValueWeights(z, count)));
    }
  }

  lemma Distribute(t: int, a: int, b: int, c: int)
    requires c == a + b
    ensures t * c == t * a + b * t
  {}

  // ---------------------------------------------------------------- the constant term

  function Shifted(v: Vec, c: int): (r: Vec)
    ensures |r| == |v|
  {
    seq(|v|, i requires 0 <= i < |v| => v[i] + c)
  }

  /** The constant coefficient of the prover's left vector. */
  function LeftConstant(bits: Vec, z: int): (r: Vec)
    ensures |r| == |bits|
  {
    Shifted(bits, -z)
  }

  /** The constant coefficient of the prover's right vector. */
  function RightConstant(bits: Vec, yPowers: Vec, blocks: Vec, z: int): (r: Vec)
    requires |bits| == |yPowers| == |blocks|
    ensures |r| == |bits|
  {
    seq(|bits|, i requires 0 <= i < |bits| => yPowers[i] * (bits[i] - 1 + z) + blocks[i])
  }

  lemma ConstantTerm(bit: int, y: int, w: int, z: int)
    requires bit == 0 || bit == 1
    ensures (bit - z) * (y * (bit - 1 + z) + w) == (z - z * z) * y + bit * w - z * w
  {
    var s := z - z * z;
    if bit == 0 {
      assert -z * (y * (z - 1) + w) == s * y - z * w by {
        assert -z * (y * (z - 1)) == y * s by { assert -z * (z - 1) == s; }
      }
    } else {
      assert (1 - z) * (y * z) == y * s by { assert (1 - z) * z == s; }
      assert (1 - z) * (y * z + w) == (1 - z) * (y * z) + (w - z * w);
    }
  }

  ghost predicate IsBits(v: Vec) {
    forall i :: 0 <= i < |v| ==> v[i] == 0 || v[i] == 1
  }

  lemma {:induction false} ConstantSum(bits: Vec, yPowers: Vec, blocks: Vec, z: int, n: nat)
    requires |bits| == |yPowers| == |blocks| && n <= |bits| && IsBits(bits)
    ensures Sum(LeftConstant(bits, z), RightConstant(bits, yPowers, blocks, z), n)
            == (z - z * z) * Sum(Ones(|bits|), yPowers, n) + Sum(bits, blocks, n) - z * Sum(Ones(|bits|), blocks, n)
  {
    if n > 0 {
      var k := n - 1;
      ConstantSum(bits, yPowers, blocks, z, k);
      ConstantTerm(bits[k], yPowers[k], blocks[k], z);
      assert Ones(|bits|)[k] == 1;
      AddTerm(z - z * z, Sum(Ones(|bits|), yPowers, k), yPowers[k], Sum(Ones(|bits|), yPowers, n));
      AddTerm(z, Sum(Ones(|bits|), blocks, k), blocks[k], Sum(Ones(|bits|), blocks, n));
    }
  }

  lemma AddTerm(s: int, before: int, x: int, after: int)
    requires after == before + x
    ensures s * after == s * before + s * x
  {}

  /** `delta(y,z)` as the verifier computes it: a closed form without any bit. */
  function Delta(y: int, z: int, count: nat, bits: nat): int {
    (z - z * z) * Inner(Ones(count * bits), Powers(y, count * bits))
    - z * ((Pow2(bits) - 1) * Inner(Ones(count), ValueWeights(z, count)))
  }

  lemma {:induction false} AllBitsAreBits(values: seq<nat>, bits: nat)
    ensures IsBits(AllBits(values, bits))
  {
    if |values| > 0 {
      AllBitsAreBits(values[..|values| - 1], bits);
    }
  }

  /** The constant term of the product is the weighted values plus `delta`. */
  lemma ConstantIsValuesPlusDelta(y: int, z: int, values: seq<nat>, bits: nat)
    requires InRange(values, bits)
    ensures var b := AllBits(values, bits);
            Inner(LeftConstant(b, z), RightConstant(b, Powers(y, |b|), BlockWeights(z, |values|, bits), z))
            == Inner(ValueWeights(z, |values|), values) + Delta(y, z, |values|, bits)
  {
    var b := AllBits(values, bits);
    var w := BlockWeights(z, |values|, bits);
    AllBitsAreBits(values, bits);
    ConstantSum(b, Powers(y, |b|), w, z, |b|);
    BitsToValues(z, values, bits);
    BlockWeightsTotal(z, |values|, bits);
    assert z * Inner(Ones(|b|), w) == z * ((Pow2(bits) - 1) * Inner(Ones(|values|), ValueWeights(z, |values|)));
  }
}
