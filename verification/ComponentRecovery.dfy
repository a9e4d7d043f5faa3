/**
  A component's dispersal by its dealer and its recovery by a retriever.  Shards carry Merkle branches of
  unchecked length and codeword fingerprints; what is recovered must hash to the dispersal's digests.
 */
module ComponentRecovery {
  import opened Common
  import opened Modular
  import opened Polynomials
  import opened Merkle
  import opened ComponentShards
  import D = Dispersal
  import C = Codeword

  const MAX_LEAF: nat := 0x400_0000

  /** The digests of a leaf. */
  datatype Digests = Digests(payload: Payload -> Tag, nonce: Payload -> Tag, semantic: Payload -> Option<Tag>)

  /** The width of a shard: the framed leaf split evenly, rounded up. */
  function Width(leaf: Payload, dataShards: nat): nat
    requires dataShards > 0
  {
    WidthIsNat(D.HEADER + |leaf| + dataShards - 1, dataShards);
    (D.HEADER + |leaf| + dataShards - 1) / dataShards
  }

  lemma WidthIsNat(a: nat, k: nat)
    requires k > 0
    ensures a / k >= 0
  {
    if k > 1 {
      Split(k, a);
    }
  }

  lemma WidthCovers(leaf: Payload, dataShards: nat)
    requires dataShards > 0
    ensures Width(leaf, dataShards) > 0 && D.HEADER + |leaf| <= Product(dataShards, Width(leaf, dataShards))
  {
    var a, k := D.HEADER + |leaf| + dataShards - 1, dataShards;
    var w := Width(leaf, k);
    assert a == w * k + a % k;
    assert w * k == k * w;
    assert w == 0 ==> w * k == 0;
  }

  /** The shards of a leaf; the erasure code pads the last data shard with zeros. */
  function ShardsOf(codec: D.Codec, leaf: Payload, total: nat, dataShards: nat): Option<seq<Payload>>
    requires dataShards > 0
  {
    WidthCovers(leaf, dataShards);
    codec.encode(D.Packed(leaf, Product(dataShards, Width(leaf, dataShards))), dataShards, total)
  }

  function PieceOf(nonce: Tag, shards: seq<Payload>, i: nat): Piece
    requires i < |shards|
  {
    Piece(i, shards[i], Branch(Leaves(nonce, shards), i))
  }

  function AllBytes(setup: Setup, shards: seq<Payload>): (r: seq<C.Bytes>)
    ensures |r| == |shards|
  {
    seq(|shards|, i requires 0 <= i < |shards| => ToBytes(setup, shards[i]))
  }

  /** The dealer's codeword proof: the fingerprints of the data shards under the coefficients of the root. */
  function PrintsOf(setup: Setup, root: Digest, shards: seq<Payload>, dataShards: nat): Option<seq<C.Bytes>> {
    if |shards| == 0 || dataShards > |shards| then None
    else
      var width := |shards[0]|;
      var coefficients := setup.coefficients(root, width);
      var data := AllBytes(setup, shards[..dataShards]);
      if |coefficients| != C.CHECKS * width || !C.Rectangular(data, width) then None
      else Some(C.Fingerprints(data, width, coefficients))
  }

  /** The dispersal is the honest one of the leaf. */
  ghost predicate HonestDispersal(g: Digests, codec: D.Codec, setup: Setup, leaf: Payload, total: nat, d: Dispersal) {
    && 0 < |leaf| <= MAX_LEAF && 0 < d.dataShards <= total
    && ShardsOf(codec, leaf, total, d.dataShards).Some?
    && var shards := ShardsOf(codec, leaf, total, d.dataShards).value;
    && |shards| == total && |shards[0]| == d.shardBytes > 0
    && d.nonce == g.nonce(leaf) && d.root == ShardRoot(d.nonce, shards)
    && PrintsOf(setup, d.root, shards, d.dataShards) == Some(d.fingerprints)
    && d.payloadDigest == g.payload(leaf) && g.semantic(leaf) == Some(d.semantic)
  }

  /** The dealer's side: the honest dispersal and one shard with its branch per holder. */
  method Disperse(g: Digests, codec: D.Codec, setup: Setup, leaf: Payload, total: nat, dataShards: nat)
    returns (r: Option<(Dispersal, seq<Piece>)>)
    ensures r.Some? ==> HonestDispersal(g, codec, setup, leaf, total, r.value.0) && r.value.0.dataShards == dataShards &&
                        var shards := ShardsOf(codec, leaf, total, dataShards).value;
                        |r.value.1| == total &&
                        forall i :: 0 <= i < total ==> r.value.1[i] == PieceOf(r.value.0.nonce, shards, i)
    ensures r.None? ==> forall d: Dispersal :: d.dataShards == dataShards ==> !HonestDispersal(g, codec, setup, leaf, total, d)
    ensures (1 <= |leaf| <= 0x400_0000 && 1 <= dataShards <= total && CodeFits(setup, codec, leaf, total, dataShards) &&
             g.semantic(leaf).Some?) ==> r.Some?
  {
    hide Branch, Leaves, Product, Merkle.Root, C.Fingerprints, C.Rectangular, CodeFits, PrintsOf, ShardsOf;
    if 1 <= dataShards <= total && CodeFits(setup, codec, leaf, total, dataShards) {
      CodeFitting(setup, codec, leaf, total, dataShards);
    }
    if |leaf| == 0 || |leaf| > MAX_LEAF || total == 0 || dataShards == 0 || dataShards > total {
      return None;
    }
    var shards := ShardsOf(codec, leaf, total, dataShards);
    if shards == None || |shards.value| != total || |shards.value[0]| == 0 {
      return None;
    }
    var nonce := g.nonce(leaf);
    var root, branches := BuildMerkle(nonce, shards.value);
    var prints := PrintsOf(setup, root, shards.value, dataShards);
    var semantic := g.semantic(leaf);
    if prints == None || semantic == None {
      return None;
    }
    var encoded := [];
    for i := 0 to total
      invariant |encoded| == i && forall k :: 0 <= k < i ==> encoded[k] == PieceOf(nonce, shards.value, k)
    {
      encoded := encoded + [Piece(i, shards.value[i], branches[i])];
    }
    r := Some((Dispersal(nonce, dataShards, |shards.value[0]|, g.payload(leaf), semantic.value, root, prints.value), encoded));
  }

  /** The erasure code is the linear code of the matrix: every shard combines the data shards. */
  ghost predicate IsCodeword(setup: Setup, shards: seq<Payload>, k: nat, n: nat, w: nat) {
    k <= n == |shards| && (forall i :: 0 <= i < n ==> |shards[i]| == w) &&
    C.Rectangular(AllBytes(setup, shards[..k]), w) &&
    forall j: nat :: j < n ==> ToBytes(setup, shards[j]) == C.Shard(setup.matrix(k, n), AllBytes(setup, shards[..k]), w, j)
  }

  ghost predicate LinearCode(setup: Setup, codec: D.Codec, k: nat, n: nat, w: nat) {
    forall packed :: |packed| == Product(k, w) ==>
      codec.encode(packed, k, n).Some? && IsCodeword(setup, codec.encode(packed, k, n).value, k, n, w)
  }

  /** The code is linear at the leaf's width, and sixteen coefficients per byte are drawn there. */
  ghost predicate CodeFits(setup: Setup, codec: D.Codec, leaf: Payload, total: nat, dataShards: nat)
    requires dataShards > 0
  {
    LinearCode(setup, codec, dataShards, total, Width(leaf, dataShards)) &&
    forall root :: |setup.coefficients(root, Width(leaf, dataShards))| == 16 * Width(leaf, dataShards)
  }

  lemma CodeFitting(setup: Setup, codec: D.Codec, leaf: Payload, total: nat, dataShards: nat)
    requires 1 <= dataShards <= total && CodeFits(setup, codec, leaf, total, dataShards)
    ensures ShardsOf(codec, leaf, total, dataShards).Some?
    ensures var shards := ShardsOf(codec, leaf, total, dataShards).value;
            |shards| == total && |shards[0]| > 0 && forall root :: PrintsOf(setup, root, shards, dataShards).Some?
  {
    hide D.Packed, Product, Width, C.Shard, C.Fingerprints;
    WidthCovers(leaf, dataShards);
    var w := Width(leaf, dataShards);
    var shards := codec.encode(D.Packed(leaf, Product(dataShards, w)), dataShards, total);
    assert IsCodeword(setup, shards.value, dataShards, total, w);
  }

  /** Every shard of an honest dispersal is valid, parity shards included. */
  lemma HonestPieceValid(g: Digests, codec: D.Codec, setup: Setup, leaf: Payload, total: nat, d: Dispersal, i: nat)
    requires HonestDispersal(g, codec, setup, leaf, total, d) && i < total
    requires LinearCode(setup, codec, d.dataShards, total, Width(leaf, d.dataShards))
    ensures ValidPiece(setup, d, total, PieceOf(d.nonce, ShardsOf(codec, leaf, total, d.dataShards).value, i))
  {
    hide Product, C.Fingerprint, D.Packed, Width, C.Shard;
    var k := d.dataShards;
    var shards := ShardsOf(codec, leaf, total, k).value;
    WidthCovers(leaf, k);
    BranchCorrect(Leaves(d.nonce, shards), i);
    var w := Width(leaf, k);
    assert IsCodeword(setup, shards, k, total, w);
    var data := AllBytes(setup, shards[..k]);
    C.FingerprintCommutes(setup.matrix(k, total), data, w, setup.coefficients(d.root, w), i);
  }

  // ---------------------------------------------------------------- recovery

  /** Enough shards, each valid and filed under its own index. */
  ghost predicate Available(setup: Setup, d: Dispersal, total: nat, available: map<int, Piece>) {
    ValidDispersal(d, total) && |available| >= d.dataShards &&
    forall i :: i in available ==> available[i].index == i && ValidPiece(setup, d, total, available[i])
  }

  /** The table of shards, whatever order the map is read in. */
  method FillTable(setup: Setup, d: Dispersal, total: nat, available: map<int, Piece>)
    returns (r: Option<seq<Option<Payload>>>)
    ensures r.Some? <==> forall i :: i in available ==> available[i].index == i && ValidPiece(setup, d, total, available[i])
    ensures r.Some? ==> r.value == Table(total, available)
  {
    hide ValidPiece;
    var table: seq<Option<Payload>> := seq(total, i => None);
    var rest := available.Keys;
    while rest != {}
      invariant forall i :: i in rest ==> i in available
      invariant |table| == total
      invariant forall i :: i in available && i !in rest ==> available[i].index == i && ValidPiece(setup, d, total, available[i])
      invariant forall k :: 0 <= k < total ==> (table[k].Some? <==> k in available && k !in rest)
      invariant forall k :: 0 <= k < total && table[k].Some? ==> k in available && table[k].value == available[k].payload
      decreases |rest|
    {
      NonEmpty(rest);
      var index :| index in rest;
      var shard := available[index];
      if index != shard.index || !ValidPiece(setup, d, total, shard) {
        return None;
      }
      InTable(setup, d, total, shard);
      table := table[index := Some(shard.payload)];
      rest := rest - {index};
    }
    r := Some(table);
  }

  lemma InTable(setup: Setup, d: Dispersal, total: nat, shard: Piece)
    requires ValidPiece(setup, d, total, shard)
    ensures 0 <= shard.index < total
  {}

  /** The table of the available shards. */
  function Table(total: nat, available: map<int, Piece>): (r: seq<Option<Payload>>)
    ensures |r| == total
  {
    seq(total, i requires 0 <= i < total => if i in available then Some(available[i].payload) else None)
  }

  /** What recovery returns for a set of shards. */
  ghost function Recovered(g: Digests, codec: D.Codec, setup: Setup, d: Dispersal, total: nat, available: map<int, Piece>)
    : Option<Payload>
  {
    if !Available(setup, d, total, available) then None
    else
      match codec.decode(Table(total, available), d.dataShards)
      case None => None
      case Some(packed) =>
        var leaf := Framed(packed);
        if leaf.None? || g.payload(leaf.value) != d.payloadDigest || g.semantic(leaf.value) != Some(d.semantic) then None
        else leaf
  }

  method Recover(g: Digests, codec: D.Codec, setup: Setup, d: Dispersal, total: nat, available: map<int, Piece>)
    returns (r: Option<Payload>)
    ensures r == Recovered(g, codec, setup, d, total, available)
  {
    hide ValidPiece, D.Count, Framed;
    if !ValidDispersal(d, total) || |available| < d.dataShards {
      return None;
    }
    var table := FillTable(setup, d, total, available);
    if table == None {
      return None;
    }
    var packed := codec.decode(table.value, d.dataShards);
    if packed == None {
      return None;
    }
    var leaf := Framed(packed.value);
    if leaf == None || g.payload(leaf.value) != d.payloadDigest || g.semantic(leaf.value) != Some(d.semantic) {
      return None;
    }
    r := leaf;
  }

  /** For an honest dispersal every sufficient set of valid shards gives the leaf back. */
  lemma HonestRecovered(g: Digests, codec: D.Codec, setup: Setup, d: Dispersal, total: nat, available: map<int, Piece>, leaf: Payload)
    requires Available(setup, d, total, available) && HonestDispersal(g, codec, setup, leaf, total, d)
    requires LawfulFor(codec, leaf, total, d)
    ensures Recovered(g, codec, setup, d, total, available) == Some(leaf)
  {
    hide ValidPiece, D.Count, Framed, HonestDispersal, LawfulFor;
    TableCount(setup, d, total, available);
    DecodesHonest(g, codec, setup, d, total, available, Table(total, available), leaf);
  }

  /** The table has one entry per available shard. */
  lemma {:induction false} TableCount(setup: Setup, d: Dispersal, total: nat, available: map<int, Piece>)
    requires forall i :: i in available ==> available[i].index == i && ValidPiece(setup, d, total, available[i])
    ensures D.Count(Table(total, available)) == |available|
    decreases |available|
  {
    hide ValidPiece, D.Count;
    if available.Keys == {} {
      assert available == map[];
      D.CountNone(Table(total, available));
    } else {
      NonEmpty(available.Keys);
      var i :| i in available.Keys;
      var rest := available - {i};
      InTable(setup, d, total, available[i]);
      assert available.Keys == rest.Keys + {i};
      assert |available.Keys| == |available| && |rest.Keys| == |rest|;
      TableCount(setup, d, total, rest);
      D.CountUpdate(Table(total, rest), i, available[i].payload);
      assert Table(total, available) == Table(total, rest)[i := Some(available[i].payload)];
    }
  }

  /** The leaf framed in the decoded bytes, when its length is plausible. */
  function Framed(packed: Payload): (r: Option<Payload>)
    ensures r.Some? ==> |r.value| <= MAX_LEAF
  {
    if |packed| < D.HEADER then None
    else
      var length := BigEndianValue(packed[..D.HEADER]);
      if length < 0 || length > |packed| - D.HEADER || length > MAX_LEAF then None
      else Some(packed[D.HEADER..D.HEADER + length])
  }

  /** The code decodes this leaf's encoding from any sufficient subset. */
  ghost predicate LawfulFor(codec: D.Codec, leaf: Payload, total: nat, d: Dispersal) {
    d.dataShards > 0 && D.Lawful(codec, d.dataShards, total, Width(leaf, d.dataShards))
  }

  lemma DecodesHonest(g: Digests, codec: D.Codec, setup: Setup, d: Dispersal, total: nat, available: map<int, Piece>,
                      table: seq<Option<Payload>>, leaf: Payload)
    requires Available(setup, d, total, available) && HonestDispersal(g, codec, setup, leaf, total, d) && LawfulFor(codec, leaf, total, d)
    requires |table| == total && D.Count(table) == |available|
    requires forall k :: 0 <= k < total && table[k].Some? ==> k in available && table[k].value == available[k].payload
    ensures var packed := codec.decode(table, d.dataShards);
            packed.Some? && Framed(packed.value) == Some(leaf)
    ensures |leaf| <= MAX_LEAF && g.payload(leaf) == d.payloadDigest && g.semantic(leaf) == Some(d.semantic)
  {
    hide Product, Power, D.Count, Framed;
    var w := Width(leaf, d.dataShards);
    var size := Product(d.dataShards, w);
    WidthCovers(leaf, d.dataShards);
    var shards := ShardsOf(codec, leaf, total, d.dataShards).value;
    forall k | 0 <= k < total && table[k].Some? ensures table[k].value == shards[k] {
      var s := available[k];
      assert ValidPiece(setup, d, total, s);
      HonestRootBinds(d.nonce, shards, k, s.payload, s.siblings);
    }
    assert D.EncodesWell(codec, d.dataShards, total, w, D.Packed(leaf, size));
    assert D.Agrees(table, shards);
    FramedPacked(leaf, size);
  }

  lemma FramedPacked(leaf: Payload, size: nat)
    requires |leaf| <= MAX_LEAF && D.HEADER + |leaf| <= size
    ensures Framed(D.Packed(leaf, size)) == Some(leaf)
  {
    D.WordPower();
    BigEndianRoundTrip(|leaf|, D.HEADER);
  }

  /**
    The payload digest pins the leaf: whatever shards two retrievers hold, and even for dispersals that
    agree only in that digest, their recoveries agree.
   */
  lemma RecoveriesAgree(g: Digests, codec: D.Codec, setup: Setup, d: Dispersal, e: Dispersal, total: nat,
                        a: map<int, Piece>, b: map<int, Piece>)
    requires forall x: Payload, y: Payload :: g.payload(x) == g.payload(y) ==> x == y
    requires d.payloadDigest == e.payloadDigest
    requires Recovered(g, codec, setup, d, total, a).Some? && Recovered(g, codec, setup, e, total, b).Some?
    ensures Recovered(g, codec, setup, d, total, a) == Recovered(g, codec, setup, e, total, b)
    ensures g.semantic(Recovered(g, codec, setup, d, total, a).value) == Some(d.semantic) && d.semantic == e.semantic
  {
    var x, y := Recovered(g, codec, setup, d, total, a).value, Recovered(g, codec, setup, e, total, b).value;
    assert g.payload(x) == g.payload(y);
  }
}
