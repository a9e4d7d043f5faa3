/**
  One shard of a component: its Merkle branch and its codeword equations.  The branch loop takes branches
  of any length, so it alone does not bind an index to one payload; `SamePayloadOrFork` and
  `ForkExactly` say what the two checks together do.
 */
module ComponentShards {
  import opened Common
  import opened Bits
  import opened Merkle
  import opened Codeword
  import opened FiniteField

  datatype Dispersal = Dispersal(nonce: Tag, dataShards: int, shardBytes: int, payloadDigest: Tag, semantic: Tag,
                                 root: Digest, fingerprints: seq<Bytes>)
  datatype Piece = Piece(index: int, payload: Payload, siblings: seq<Digest>)

  /** The code's matrix per size, the coefficients drawn from a root, and how a number is a byte. */
  datatype Setup = Setup(matrix: (nat, nat) -> Matrix, coefficients: (Digest, nat) -> Bytes, byteOf: int -> Byte)

  function ToBytes(setup: Setup, payload: Payload): (r: Bytes)
    ensures |r| == |payload|
  {
    seq(|payload|, i requires 0 <= i < |payload| => setup.byteOf(payload[i]))
  }

  predicate ValidDispersal(d: Dispersal, total: nat) {
    total > 0 && 0 < d.dataShards <= total && d.shardBytes > 0 && |d.fingerprints| == d.dataShards &&
    Rectangular(d.fingerprints, CHECKS)
  }

  /** The branch leads to the root, whatever its length. */
  predicate OnBranch(d: Dispersal, s: Piece) {
    s.index >= 0 && Climb(ShardHash(d.nonce, s.index, s.payload), s.index, s.siblings) == d.root
  }

  /** `cvVerifyComponentCodewordShard`: the fingerprint is the one the data fingerprints predict. */
  predicate InCodeword(setup: Setup, d: Dispersal, total: nat, s: Piece)
    requires ValidDispersal(d, total)
  {
    var coefficients := setup.coefficients(d.root, d.shardBytes);
    |s.payload| == d.shardBytes && |coefficients| == CHECKS * d.shardBytes && 0 <= s.index < total &&
    Fingerprint(ToBytes(setup, s.payload), coefficients)
    == Codeword.Encode(setup.matrix(d.dataShards, total), d.fingerprints, CHECKS, total)[s.index]
  }

  /** `cvVerifyComponentShard` */
  predicate ValidPiece(setup: Setup, d: Dispersal, total: nat, s: Piece) {
    ValidDispersal(d, total) && 0 <= s.index < total && |s.payload| > 0 && OnBranch(d, s) && InCodeword(setup, d, total, s)
  }

  /** The verifier's two parts, in order. */
  method VerifyPiece(setup: Setup, d: Dispersal, total: nat, s: Piece) returns (ok: bool)
    ensures ok <==> ValidPiece(setup, d, total, s)
    ensures ok ==> 0 <= s.index < total && |s.payload| == d.shardBytes > 0 && 0 < d.dataShards == |d.fingerprints| <= total
  {
    if !ValidDispersal(d, total) || s.index < 0 || s.index >= total || |s.payload| == 0 {
      return false;
    }
    var digest := ClimbBranch(ShardHash(d.nonce, s.index, s.payload), s.index, s.siblings);
    if digest != d.root {
      return false;
    }
    if |s.payload| != d.shardBytes {
      return false;
    }
    var coefficients := setup.coefficients(d.root, d.shardBytes);
    var actual := ShardFingerprint(ToBytes(setup, s.payload), coefficients);
    if actual == None {
      return false;
    }
    var expected := Codeword.Encode(setup.matrix(d.dataShards, total), d.fingerprints, CHECKS, total);
    ok := actual.value == expected[s.index];
  }

  // ---------------------------------------------------------------- two shards of one index

  /** The two branch lengths send the index down one path. */
  ghost predicate SamePath(i: nat, n: nat, m: nat) {
    if n <= m then Aligned(i, n, m) else Aligned(i, m, n)
  }

  /** The fingerprint of the difference of two payloads vanishes under the coefficients of the root. */
  predicate Collide(setup: Setup, root: Digest, x: Payload, y: Payload) {
    |x| == |y| && |setup.coefficients(root, |x|)| == CHECKS * |x| &&
    IsZero(Fingerprint(Difference(ToBytes(setup, x), ToBytes(setup, y)), setup.coefficients(root, |x|)))
  }

  /** Given one valid shard, another payload on a branch of the same index is valid exactly when they collide. */
  lemma SecondPieceExactly(setup: Setup, d: Dispersal, total: nat, a: Piece, b: Piece)
    requires ValidPiece(setup, d, total, a) && a.index == b.index && OnBranch(d, b)
    ensures ValidPiece(setup, d, total, b) <==> Collide(setup, d.root, a.payload, b.payload)
  {
    if |b.payload| == d.shardBytes {
      FingerprintDifference(ToBytes(setup, a.payload), ToBytes(setup, b.payload), setup.coefficients(d.root, d.shardBytes));
    }
  }

  lemma ForkPaths(d: Dispersal, a: Piece, b: Piece)
    requires OnBranch(d, a) && OnBranch(d, b) && a.index == b.index && a.payload != b.payload
    ensures !SamePath(a.index, |a.siblings|, |b.siblings|)
  {
    var i, n, m := a.index, |a.siblings|, |b.siblings|;
    if n <= m {
      ConflictExactly(d.nonce, i, n, m, a.payload, b.payload);
      assert Climb(ShardHash(d.nonce, i, a.payload), i, a.siblings) == Climb(ShardHash(d.nonce, i, b.payload), i, b.siblings);
    } else {
      ConflictExactly(d.nonce, i, m, n, b.payload, a.payload);
      assert Climb(ShardHash(d.nonce, i, b.payload), i, b.siblings) == Climb(ShardHash(d.nonce, i, a.payload), i, a.siblings);
    }
  }

  /**
    Two valid shards of one dispersal and index carry one payload, or else their branches have lengths
    that send the index down different paths and their difference has a zero fingerprint under the
    coefficients drawn from the very root.
   */
  lemma SamePayloadOrFork(setup: Setup, d: Dispersal, total: nat, a: Piece, b: Piece)
    requires ValidPiece(setup, d, total, a) && ValidPiece(setup, d, total, b) && a.index == b.index
    ensures a.payload == b.payload ||
            (!SamePath(a.index, |a.siblings|, |b.siblings|) && Collide(setup, d.root, a.payload, b.payload))
  {
    if a.payload != b.payload {
      ForkPaths(d, a, b);
      SecondPieceExactly(setup, d, total, a, b);
    }
  }

  /** Some dispersal accepts both payloads for the index, on branches of these lengths. */
  ghost predicate CanFork(setup: Setup, nonce: Tag, total: nat, i: nat, n: nat, m: nat, x: Payload, y: Payload) {
    exists d: Dispersal, s: seq<Digest>, t: seq<Digest> :: d.nonce == nonce && |s| == n && |t| == m &&
      ValidPiece(setup, d, total, Piece(i, x, s)) && ValidPiece(setup, d, total, Piece(i, y, t))
  }

  /** Some root carries both payloads on branches of these lengths and its coefficients make them collide. */
  ghost predicate CollidingRoot(setup: Setup, nonce: Tag, i: nat, n: nat, m: nat, x: Payload, y: Payload) {
    exists s: seq<Digest>, t: seq<Digest> :: |s| == n && |t| == m &&
      Climb(ShardHash(nonce, i, x), i, s) == Climb(ShardHash(nonce, i, y), i, t) &&
      Collide(setup, Climb(ShardHash(nonce, i, x), i, s), x, y)
  }

  /** The dispersal whose data fingerprints make `x` the shard of index `i`. */
  function Predicting(setup: Setup, nonce: Tag, i: nat, root: Digest, x: Payload): Dispersal
    requires |setup.coefficients(root, |x|)| == CHECKS * |x|
  {
    Dispersal(nonce, i + 1, |x|, [], [], root,
              seq(i + 1, j => Fingerprint(ToBytes(setup, x), setup.coefficients(root, |x|))))
  }

  lemma PredictedPiece(setup: Setup, nonce: Tag, total: nat, i: nat, x: Payload, s: seq<Digest>)
    requires i < total && |x| > 0 && Systematic(setup.matrix(i + 1, total), i + 1)
    requires var root := Climb(ShardHash(nonce, i, x), i, s); |setup.coefficients(root, |x|)| == CHECKS * |x|
    ensures var root := Climb(ShardHash(nonce, i, x), i, s);
            ValidPiece(setup, Predicting(setup, nonce, i, root, x), total, Piece(i, x, s))
  {
    var d := Predicting(setup, nonce, i, Climb(ShardHash(nonce, i, x), i, s), x);
    DataShards(setup.matrix(i + 1, total), d.fingerprints, CHECKS, i);
  }

  /**
    One dispersal can carry two payloads for one index exactly when some root carries both on branches
    of those lengths, which needs the two lengths to send the index down different paths, and its own
    coefficients give their difference a zero fingerprint.
   */
  lemma ForkExactly(setup: Setup, nonce: Tag, total: nat, i: nat, n: nat, m: nat, x: Payload, y: Payload)
    requires i < total && |x| > 0 && x != y && Systematic(setup.matrix(i + 1, total), i + 1)
    ensures CanFork(setup, nonce, total, i, n, m, x, y) <==> CollidingRoot(setup, nonce, i, n, m, x, y)
    ensures CanFork(setup, nonce, total, i, n, m, x, y) ==> !SamePath(i, n, m)
  {
    if CanFork(setup, nonce, total, i, n, m, x, y) {
      var d: Dispersal, s: seq<Digest>, t: seq<Digest> :| d.nonce == nonce && |s| == n && |t| == m &&
        ValidPiece(setup, d, total, Piece(i, x, s)) && ValidPiece(setup, d, total, Piece(i, y, t));
      SamePayloadOrFork(setup, d, total, Piece(i, x, s), Piece(i, y, t));
    }
    if CollidingRoot(setup, nonce, i, n, m, x, y) {
      var s: seq<Digest>, t: seq<Digest> :| |s| == n && |t| == m &&
        Climb(ShardHash(nonce, i, x), i, s) == Climb(ShardHash(nonce, i, y), i, t) &&
        Collide(setup, Climb(ShardHash(nonce, i, x), i, s), x, y);
      var d := Predicting(setup, nonce, i, Climb(ShardHash(nonce, i, x), i, s), x);
      PredictedPiece(setup, nonce, total, i, x, s);
      SecondPieceExactly(setup, d, total, Piece(i, x, s), Piece(i, y, t));
    }
  }

  /** Dispersals that differ only in digests of the leaf accept the same shards. */
  lemma SameShape(setup: Setup, d: Dispersal, e: Dispersal, total: nat, s: Piece)
    requires d.nonce == e.nonce && d.dataShards == e.dataShards && d.shardBytes == e.shardBytes && d.root == e.root
    requires d.fingerprints == e.fingerprints
    ensures ValidPiece(setup, d, total, s) <==> ValidPiece(setup, e, total, s)
  {}
}
