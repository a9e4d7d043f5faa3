/**
  Shard fingerprints: sixteen random GF(256) combinations of a shard's bytes.  They commute with any
  GF(256)-linear erasure code, so encoding the data fingerprints predicts the fingerprint of every
  shard, parity shards included.
 */
module Codeword {
  import opened Common
  import opened FiniteField

  const CHECKS: nat := 16

  /** The encoding matrix of the erasure code: row `j` says how shard `j` combines the data shards. */
  type Matrix = (nat, nat) -> Byte

  type Bytes = seq<Byte>

  // ---------------------------------------------------------------- sums

  /** The first `n` products of `a` and `b`, added. */
  function Dot(a: Bytes, b: Bytes, n: nat): Byte
    requires n <= |a| && n <= |b|
  {
    if n == 0 then 0 else Add(Dot(a, b, n - 1), Mul(a[n - 1], b[n - 1]))
  }

  /** Row `j` of the matrix times the first `n` of the values `x`. */
  function RowSum(m: Matrix, j: nat, x: Bytes, n: nat): Byte
    requires n <= |x|
  {
    if n == 0 then 0 else Add(RowSum(m, j, x, n - 1), Mul(m(j, n - 1), x[n - 1]))
  }

  function Column(data: seq<Bytes>, k: nat): (r: Bytes)
    requires forall i :: 0 <= i < |data| ==> k < |data[i]|
    ensures |r| == |data|
  {
    seq(|data|, i requires 0 <= i < |data| => data[i][k])
  }

  predicate Rectangular(data: seq<Bytes>, width: nat) {
    forall i :: 0 <= i < |data| ==> |data[i]| == width
  }

  /** Shard `j` of the codeword of `data`. */
  function Shard(m: Matrix, data: seq<Bytes>, width: nat, j: nat): (r: Bytes)
    requires Rectangular(data, width)
    ensures |r| == width
  {
    seq(width, k requires 0 <= k < width => RowSum(m, j, Column(data, k), |data|))
  }

  function Encode(m: Matrix, data: seq<Bytes>, width: nat, total: nat): (r: seq<Bytes>)
    requires Rectangular(data, width)
    ensures |r| == total && Rectangular(r, width)
  {
    seq(total, j requires 0 <= j < total => Shard(m, data, width, j))
  }

  /** The first shards are the data itself. */
  ghost predicate Systematic(m: Matrix, dataShards: nat) {
    forall i, j :: 0 <= i < dataShards && 0 <= j < dataShards ==> m(j, i) == if i == j then 1 else 0
  }

  // ---------------------------------------------------------------- fingerprints

  function Row(coefficients: Bytes, width: nat, check: nat): (r: Bytes)
    requires |coefficients| == CHECKS * width && check < CHECKS
    ensures |r| == width
  {
    RowFits(width, check);
    coefficients[check * width..(check + 1) * width]
  }

  lemma RowFits(width: nat, check: nat)
    requires check < CHECKS
    ensures check * width <= (check + 1) * width == check * width + width <= CHECKS * width
  {
    assert (check + 1) * width == check * width + width;
    assert (CHECKS - check - 1) * width >= 0;
  }

  function Fingerprint(payload: Bytes, coefficients: Bytes): (r: Bytes)
    requires |coefficients| == CHECKS * |payload|
    ensures |r| == 16
  {
    seq(CHECKS, check requires 0 <= check < CHECKS => Dot(Row(coefficients, |payload|, check), payload, |payload|))
  }

  method ShardFingerprint(payload: Bytes, coefficients: Bytes) returns (r: Option<Bytes>)
    ensures r.Some? <==> |payload| > 0 && |coefficients| == CHECKS * |payload|
    ensures r.Some? ==> r.value == Fingerprint(payload, coefficients)
  {
    if |payload| == 0 || |coefficients| != CHECKS * |payload| {
      return None;
    }
    var fingerprint: Bytes := [];
    for check := 0 to CHECKS
      invariant |fingerprint| == check
      invariant forall k :: 0 <= k < check ==> fingerprint[k] == Fingerprint(payload, coefficients)[k]
    {
      RowFits(|payload|, check);
      var row := coefficients[check * |payload|..(check + 1) * |payload|];
      var value: Byte := 0;
      for i := 0 to |payload|
        invariant value == Dot(row, payload, i)
      {
        var product := GF256Mul(row[i], payload[i]);
        value := Add(value, product);
      }
      fingerprint := fingerprint + [value];
    }
    r := Some(fingerprint);
  }

  /** The payload that is one at position `i` and zero elsewhere. */
  function Unit(width: nat, i: nat): (r: Bytes)
    requires i < width
    ensures |r| == width && forall k :: 0 <= k < width ==> r[k] == if k == i then 1 else 0
  {
    seq(width, k => if k == i then 1 else 0)
  }

  lemma {:induction false} DotUnit(row: Bytes, i: nat, n: nat)
    requires i < |row| && n <= |row|
    ensures Dot(row, Unit(|row|, i), n) == if i < n then row[i] else 0
  {
    hide Mul, Add, Unit;
    if n > 0 {
      DotUnit(row, i, n - 1);
      MulOne(row[n - 1]);
      MulCommutes(1, row[n - 1]);
      MulDistributes(row[n - 1], 0, 0);
      AddLaws(row[i], 0, 0);
      AddLaws(row[n - 1], 0, 0);
      AddLaws(0, 0, 0);
    }
  }

  /**
    The fingerprint of a unit payload shows its sixteen coefficients: coefficient `check * width + i` is
    what byte `i` counts for in check number `check`.  Being linear, the fingerprint is determined by this.
   */
  lemma FingerprintOfUnit(width: nat, coefficients: Bytes, i: nat, check: nat)
    requires i < width && |coefficients| == 16 * width && check < 16
    ensures check * width + i < |coefficients|
    ensures |Fingerprint(Unit(width, i), coefficients)| == 16
    ensures Fingerprint(Unit(width, i), coefficients)[check] == coefficients[check * width + i]
  {
    hide Mul, Add;
    RowFits(width, check);
    DotUnit(Row(coefficients, width, check), i, width);
  }

  // ---------------------------------------------------------------- commutation

  lemma {:induction false} RowSumScaled(m: Matrix, j: nat, x: Bytes, y: Bytes, c: Byte, n: nat)
    requires |x| == |y| && n <= |x| && forall i :: 0 <= i < |x| ==> y[i] == Mul(c, x[i])
    ensures RowSum(m, j, y, n) == Mul(c, RowSum(m, j, x, n))
  {
    hide Mul, Add;
    MulDistributes(c, 0, 0);
    if n > 0 {
      RowSumScaled(m, j, x, y, c, n - 1);
      MulDistributes(c, RowSum(m, j, x, n - 1), Mul(m(j, n - 1), x[n - 1]));
      MoveFactor(m(j, n - 1), c, x[n - 1]);
    }
  }

  lemma MoveFactor(a: Byte, b: Byte, c: Byte)
    ensures Mul(a, Mul(b, c)) == Mul(b, Mul(a, c))
  {
    hide Mul;
    MulAssociates(a, b, c);
    MulAssociates(b, a, c);
    MulCommutes(a, b);
  }

  lemma {:induction false} RowSumAdds(m: Matrix, j: nat, x: Bytes, y: Bytes, z: Bytes, n: nat)
    requires |x| == |y| == |z| && n <= |x| && forall i :: 0 <= i < |x| ==> z[i] == Add(x[i], y[i])
    ensures RowSum(m, j, z, n) == Add(RowSum(m, j, x, n), RowSum(m, j, y, n))
  {
    hide Mul, Add;
    AddLaws(0, 0, 0);
    if n > 0 {
      RowSumAdds(m, j, x, y, z, n - 1);
      var c := m(j, n - 1);
      MulDistributes(c, x[n - 1], y[n - 1]);
      Regroup4(RowSum(m, j, x, n - 1), RowSum(m, j, y, n - 1), Mul(c, x[n - 1]), Mul(c, y[n - 1]));
    }
  }

  lemma {:induction false} RowSumZero(m: Matrix, j: nat, x: Bytes, n: nat)
    requires n <= |x| && forall i :: 0 <= i < |x| ==> x[i] == 0
    ensures RowSum(m, j, x, n) == 0
  {
    hide Mul, Add;
    if n > 0 {
      RowSumZero(m, j, x, n - 1);
      MulDistributes(m(j, n - 1), 0, 0);
      AddLaws(0, 0, 0);
    }
  }

  /** The partial fingerprints of all data shards under one coefficient row. */
  function Dots(row: Bytes, data: seq<Bytes>, n: nat): (r: Bytes)
    requires n <= |row| && forall i :: 0 <= i < |data| ==> n <= |data[i]|
    ensures |r| == |data|
  {
    seq(|data|, i requires 0 <= i < |data| => Dot(row, data[i], n))
  }

  /** Combining a shard's bytes is the same as combining the data shards' combinations. */
  lemma {:induction false} DotCommutes(m: Matrix, j: nat, data: seq<Bytes>, width: nat, row: Bytes, n: nat)
    requires Rectangular(data, width) && |row| == width && n <= width
    ensures Dot(row, Shard(m, data, width, j), n) == RowSum(m, j, Dots(row, data, n), |data|)
  {
    hide Mul, Add;
    if n == 0 {
      RowSumZero(m, j, Dots(row, data, 0), |data|);
    } else {
      DotCommutes(m, j, data, width, row, n - 1);
      var column := Column(data, n - 1);
      var scaled := seq(|data|, i requires 0 <= i < |data| => Mul(row[n - 1], data[i][n - 1]));
      RowSumScaled(m, j, column, scaled, row[n - 1], |data|);
      RowSumAdds(m, j, Dots(row, data, n - 1), scaled, Dots(row, data, n), |data|);
    }
  }

  function Fingerprints(data: seq<Bytes>, width: nat, coefficients: Bytes): (r: seq<Bytes>)
    requires Rectangular(data, width) && |coefficients| == CHECKS * width
    ensures |r| == |data| && Rectangular(r, CHECKS)
  {
    seq(|data|, i requires 0 <= i < |data| => Fingerprint(data[i], coefficients))
  }

  /** Fingerprinting commutes with the erasure code, for every shard. */
  lemma FingerprintCommutes(m: Matrix, data: seq<Bytes>, width: nat, coefficients: Bytes, j: nat)
    requires Rectangular(data, width) && |coefficients| == CHECKS * width
    ensures Fingerprint(Shard(m, data, width, j), coefficients)
            == Shard(m, Fingerprints(data, width, coefficients), CHECKS, j)
  {
    hide Mul, Add;
    var left := Fingerprint(Shard(m, data, width, j), coefficients);
    var prints := Fingerprints(data, width, coefficients);
    var right := Shard(m, prints, CHECKS, j);
    forall check | 0 <= check < CHECKS ensures left[check] == right[check] {
      var row := Row(coefficients, width, check);
      DotCommutes(m, j, data, width, row, width);
      assert Dots(row, data, width) == Column(prints, check);
    }
  }

  // ---------------------------------------------------------------- the check

  /** The codeword part of the shard verifier, once the Merkle branch has been checked. */
  predicate ShardAccepted(m: Matrix, prints: seq<Bytes>, total: nat, width: nat, coefficients: Bytes, index: nat,
                                payload: Bytes)
    requires Rectangular(prints, CHECKS) && |coefficients| == CHECKS * width
  {
    |payload| == width && index < total && Fingerprint(payload, coefficients) == Encode(m, prints, CHECKS, total)[index]
  }

  lemma {:induction false} UnitRow(m: Matrix, dataShards: nat, j: nat, x: Bytes, n: nat)
    requires Systematic(m, dataShards) && j < dataShards && n <= |x| == dataShards
    ensures RowSum(m, j, x, n) == if j < n then x[j] else 0
  {
    hide Mul, Add;
    if n > 0 {
      UnitRow(m, dataShards, j, x, n - 1);
      MulOne(x[n - 1]);
      MulDistributes(x[n - 1], 0, 0);
      AddLaws(0, x[n - 1], 0);
      AddLaws(x[j], 0, 0);
      AddLaws(0, 0, 0);
      assert m(j, n - 1) == if n - 1 == j then 1 else 0;
    }
  }

  lemma DataShards(m: Matrix, data: seq<Bytes>, width: nat, j: nat)
    requires Rectangular(data, width) && Systematic(m, |data|) && j < |data|
    ensures Shard(m, data, width, j) == data[j]
  {
    forall k | 0 <= k < width ensures Shard(m, data, width, j)[k] == data[j][k] {
      UnitRow(m, |data|, j, Column(data, k), |data|);
    }
  }

  lemma {:induction false} RowSumUnit(m: Matrix, j: nat, x: Bytes, i: nat, n: nat)
    requires i < |x| && n <= |x| && forall k :: 0 <= k < |x| ==> x[k] == if k == i then 1 else 0
    ensures RowSum(m, j, x, n) == if i < n then m(j, i) else 0
  {
    hide Mul, Add;
    if n > 0 {
      RowSumUnit(m, j, x, i, n - 1);
      MulOne(m(j, n - 1));
      MulCommutes(1, m(j, n - 1));
      MulDistributes(m(j, n - 1), 0, 0);
      AddLaws(m(j, i), 0, 0);
      AddLaws(m(j, n - 1), 0, 0);
      AddLaws(0, 0, 0);
    }
  }

  /** Entry `(j, i)` of the matrix is what data shard `i` counts for in shard `j`, byte by byte. */
  lemma ShardOfUnit(m: Matrix, data: seq<Bytes>, width: nat, i: nat, k: nat, j: nat)
    requires Rectangular(data, width) && i < |data| && k < width
    requires forall a :: 0 <= a < |data| ==> data[a][k] == if a == i then 1 else 0
    ensures Shard(m, data, width, j)[k] == m(j, i)
  {
    RowSumUnit(m, j, Column(data, k), i, |data|);
  }

  /** The dealer's proof: the fingerprints of the data shards of the codeword. */
  method BuildCodewordProof(coefficients: Bytes, shards: seq<Bytes>, dataShards: int, ghost width: nat)
    returns (r: Option<seq<Bytes>>)
    requires |shards| > 0 && |coefficients| == CHECKS * |shards[0]| && width == |shards[0]|
    ensures r.Some? <==> 0 < dataShards <= |shards| && width > 0 && Rectangular(shards[..dataShards], width)
    ensures r.Some? ==> r.value == Fingerprints(shards[..dataShards], width, coefficients)
  {
    if |shards| < dataShards || dataShards <= 0 || |shards[0]| == 0 {
      return None;
    }
    var prints: seq<Bytes> := [];
    for i := 0 to dataShards
      invariant |prints| == i && forall k :: 0 <= k < i ==> |shards[k]| == width
      invariant forall k :: 0 <= k < i ==> prints[k] == Fingerprint(shards[k], coefficients)
    {
      if |shards[i]| != |shards[0]| {
        assert shards[..dataShards][i] == shards[i];
        return None;
      }
      var fingerprint := ShardFingerprint(shards[i], coefficients);
      prints := prints + [fingerprint.value];
    }
    r := Some(prints);
  }

  /** Every shard of an honest encoding passes, parity shards included. */
  lemma HonestShardsAccepted(m: Matrix, data: seq<Bytes>, width: nat, total: nat, coefficients: Bytes, index: nat)
    requires Rectangular(data, width) && Systematic(m, |data|) && |data| <= total && index < total
    requires |coefficients| == CHECKS * width
    ensures var shards := Encode(m, data, width, total);
            Rectangular(shards[..|data|], width) &&
            ShardAccepted(m, Fingerprints(shards[..|data|], width, coefficients), total, width, coefficients, index, shards[index])
  {
    var shards := Encode(m, data, width, total);
    assert shards[..|data|] == data by {
      forall j | 0 <= j < |data| ensures shards[j] == data[j] {
        DataShards(m, data, width, j);
      }
    }
    FingerprintCommutes(m, data, width, coefficients, index);
  }

  // ---------------------------------------------------------------- what else passes

  function Difference(a: Bytes, b: Bytes): (r: Bytes)
    requires |a| == |b|
    ensures |r| == |a|
  {
    seq(|a|, i requires 0 <= i < |a| => Add(a[i], b[i]))
  }

  lemma {:induction false} DotDifference(row: Bytes, a: Bytes, b: Bytes, n: nat)
    requires |a| == |b| && n <= |a| && n <= |row|
    ensures Dot(row, Difference(a, b), n) == Add(Dot(row, a, n), Dot(row, b, n))
  {
    hide Mul, Add;
    AddLaws(0, 0, 0);
    if n > 0 {
      DotDifference(row, a, b, n - 1);
      MulDistributes(row[n - 1], a[n - 1], b[n - 1]);
      Regroup4(Dot(row, a, n - 1), Dot(row, b, n - 1), Mul(row[n - 1], a[n - 1]), Mul(row[n - 1], b[n - 1]));
    }
  }

  /** No fingerprint at all. */
  predicate IsZero(fingerprint: Bytes) {
    forall i :: 0 <= i < |fingerprint| ==> fingerprint[i] == 0
  }

  /** Two payloads have one fingerprint exactly when their difference has none. */
  lemma FingerprintDifference(a: Bytes, b: Bytes, coefficients: Bytes)
    requires |a| == |b| && |coefficients| == CHECKS * |a|
    ensures IsZero(Fingerprint(Difference(a, b), coefficients)) <==> Fingerprint(a, coefficients) == Fingerprint(b, coefficients)
  {
    hide Mul;
    var difference := Fingerprint(Difference(a, b), coefficients);
    var left, right := Fingerprint(a, coefficients), Fingerprint(b, coefficients);
    forall check | 0 <= check < CHECKS ensures difference[check] == 0 <==> left[check] == right[check] {
      DotDifference(Row(coefficients, |a|, check), a, b, |a|);
    }
    assert left == right <==> forall check :: 0 <= check < CHECKS ==> left[check] == right[check];
  }

  /** A payload passes exactly when its difference from the codeword shard has a zero fingerprint. */
  lemma AcceptedExactly(m: Matrix, data: seq<Bytes>, width: nat, total: nat, coefficients: Bytes, index: nat, payload: Bytes)
    requires Rectangular(data, width) && |data| <= total && index < total && |coefficients| == CHECKS * width
    requires |payload| == width
    ensures ShardAccepted(m, Fingerprints(data, width, coefficients), total, width, coefficients, index, payload)
            <==> IsZero(Fingerprint(Difference(payload, Shard(m, data, width, index)), coefficients))
  {
    FingerprintCommutes(m, data, width, coefficients, index);
    FingerprintDifference(payload, Shard(m, data, width, index), coefficients);
  }
}
