/**
  An honest dealer from end to end: it encrypts its scalars, proves the leaf, the fallback is accepted, and
  every receiver decrypts its own scalar.  A proof is missing only when the oracle gives a zero challenge.
 */
module HonestDealer {
  import opened Common
  import opened Modular
  import opened Vectors
  import opened Polynomials
  import opened Comparator
  import opened ComparatorRows
  import opened Fallback
  import Bits
  import RangeVectors
  import RangeProof
  import IPA = InnerProductArgument
  import CP = ComparatorProof
  import CE = ChunkEncryption
  import RT = ChunkRoundTrip
  import LP = LinkProof
  import LM = LinkMethods

  // ---------------------------------------------------------------- honest proofs exist

  /** No challenge is zero. */
  ghost predicate NonVanishing(q: int, oracle: Oracle)
    requires q > 0
  {
    forall domain, t :: oracle(domain, t) % q != 0
  }

  lemma {:induction false} InnerExists(q: int, oracle: Oracle, t: Transcript, round: nat, g: seq<Point>, h: seq<Point>, u: Point,
                                       a: Vec, b: Vec)
    requires q > 1 && NonVanishing(q, oracle) && |g| == |h| == |a| == |b| && Bits.IsPow2(|g|)
    ensures IPA.HonestProof(q, oracle, t, round, g, h, u, a, b).Some?
    decreases |g|
  {
    hide IPA.Fold, IPA.CrossLeft, IPA.CrossRight;
    if |g| > 1 {
      var left, right := IPA.CrossLeft(q, g, h, u, a, b), IPA.CrossRight(q, g, h, u, a, b);
      var x := IPA.Challenge(q, oracle, t, round, left, right);
      var y := Inv(q, x);
      InnerExists(q, oracle, t + [left, right], round + 1, IPA.Fold(q, y, x, g), IPA.Fold(q, x, y, h), u, IPA.Fold(q, x, y, a),
                  IPA.Fold(q, y, x, b));
    }
  }

  lemma RangeExists(q: int, oracle: Oracle, bases: RangeProof.Bases, statement: seq<int>, commitments: seq<Point>, values: seq<nat>,
                    blindings: seq<Scalar>, bits: nat, coins: RangeProof.Coins)
    requires q > 1 && NonVanishing(q, oracle) && |commitments| == |values| == |blindings|
    requires RangeProof.Dimensions(|values|, bits).Some? && CP.CoinsFit(coins, |values|, bits)
    ensures CP.HonestRange(q, oracle, bases, statement, commitments, values, blindings, bits, coins).Some?
  {
    hide RangeProof.Dimensions, RangeProof.VectorCommitment, RangeProof.Commitment, RangeProof.Evaluate, RangeProof.Reconstructed,
      RangeProof.ScaledGenerators, RangeProof.TauX, RangeProof.Mu, IPA.HonestProof, RangeProof.Take;
    RangeProof.DimensionsSound(|values|, bits);
    forall t, g, h, u, a, b | |g| == |h| == |a| == |b| && Bits.IsPow2(|g|) ensures IPA.HonestProof(q, oracle, t, 0, g, h, u, a, b).Some? {
      InnerExists(q, oracle, t, 0, g, h, u, a, b);
    }
  }

  lemma ComparatorExists(q: int, oracle: Oracle, hash: CP.Digest, bases: RangeProof.Bases, setDigest: seq<int>, link: seq<Point>,
                         m: Vec, lanes: nat, v: Family, blindings: Vec, coins: CP.Coins)
    requires q > 1 && NonVanishing(q, oracle) && Shape(v, |m|, lanes) && DigitsInRange(v) && CP.AllCoinsFit(coins, |m|, lanes)
    requires |link| == |blindings| == |v.s|
    requires RangeProof.Dimensions(|v.c|, 8).Some? && RangeProof.Dimensions(|v.b|, 1).Some?
    ensures CP.HonestProof(q, oracle, hash, bases, setDigest, link, m, lanes, v, blindings, coins).Some?
  {
    hide RangeProof.Dimensions, CP.HonestRange, CP.Commitments, CP.Relation, CP.CoinsFit;
    var complement, borrow := CP.Commitments(q, bases, v.c, coins.complement), CP.Commitments(q, bases, v.b, coins.borrow);
    var statement := CP.Statement(hash, setDigest, link, complement, borrow);
    RangeExists(q, oracle, bases, CP.Subproof(hash, statement, "complement-range"), complement, v.c, coins.complement, 8,
                coins.complementRange);
    RangeExists(q, oracle, bases, CP.Subproof(hash, statement, "borrow-range"), borrow, v.b, coins.borrow, 1, coins.borrowRange);
  }

  /** With supported sizes and no zero challenge, the honest comparator and digit range exist. */
  lemma DigitsExist(q: int, oracle: Oracle, hash: CP.Digest, bases: RangeProof.Bases, setDigest: seq<int>, commitments: seq<Point>,
                    chunks: nat, lanes: nat, v: Family, rhos: Vec, coins: Coins)
    requires q > 1 && NonVanishing(q, oracle) && chunks > 0 && Shape(v, chunks, lanes) && DigitsInRange(v)
    requires |commitments| == |rhos| == |v.s|
    requires CP.AllCoinsFit(coins.comparator, chunks, lanes) && CP.CoinsFit(coins.digitRange, |v.s|, 8)
    requires RangeProof.Dimensions(Offset(chunks, lanes), 8).Some? && RangeProof.Dimensions(Offset(chunks - 1, lanes), 1).Some?
    ensures HonestDigits(q, oracle, hash, bases, setDigest, commitments, chunks, lanes, v, rhos, coins).Some?
  {
    hide RangeProof.Dimensions, CP.HonestRange, CP.HonestProof, CP.CoinsFit, CP.AllCoinsFit, DigitsOf;
    var m := DigitsOf(RADIX, q - 1, chunks);
    ComparatorExists(q, oracle, hash, bases, setDigest, commitments, m, lanes, v, rhos, coins.comparator);
    var proof := CP.HonestProof(q, oracle, hash, bases, setDigest, commitments, m, lanes, v, rhos, coins.comparator).value;
    var statement := CP.Statement(hash, setDigest, commitments, proof.complement, proof.borrow);
    RangeExists(q, oracle, bases, CP.Subproof(hash, statement, "scalar-digit-range"), commitments, v.s, rhos, 8, coins.digitRange);
  }

  // ---------------------------------------------------------------- dealing

  /** What the dealer draws for one receiver. */
  datatype Secret = Secret(scalar: nat, blinding: Scalar, coins: seq<Scalar>, blindingCoin: Scalar, mask: LM.LaneMask)

  function ChunkCount(q: int, profile: CE.Profile): nat
    requires q > 1 && CE.ProfileOf(q, profile).Some?
  {
    CE.ProfileOf(q, profile).value.chunks
  }

  /** Canonical scalars, and one coin and one mask per chunk. */
  ghost predicate GoodSecrets(q: int, chunks: nat, secrets: seq<Secret>) {
    forall k :: 0 <= k < |secrets| ==>
      secrets[k].scalar < q && |secrets[k].coins| == chunks && |secrets[k].mask.digits| == chunks
  }

  /** The share is the honest encryption of the secret under the key. */
  ghost predicate ShareOf(q: int, bases: RangeProof.Bases, chunks: nat, pk: Point, secret: Secret, share: CE.Share)
    requires q > 0
  {
    |secret.coins| == chunks &&
    share == CE.Encrypted(q, bases.value, bases.blind, pk, DigitsOf(RADIX, secret.scalar, chunks), secret.scalar, secret.blinding,
                          secret.coins, secret.blindingCoin)
  }

  lemma ByteProfile(q: int, profile: CE.Profile)
    requires q > 1 && CE.ProfileOf(q, profile).Some? && profile.chunkBits == 8
    ensures CE.ProfileOf(q, profile).value.base == RADIX && ChunkCount(q, profile) > 0 && q < Power(RADIX, ChunkCount(q, profile))
  {
    CE.ProfileSound(q, profile);
    assert Bits.Pow2(8) == 256;
  }

  method EncryptAll(q: int, profile: CE.Profile, bases: RangeProof.Bases, pks: seq<Point>, secrets: seq<Secret>)
    returns (shares: seq<CE.Share>)
    requires q > 1 && CE.ProfileOf(q, profile).Some? && profile.chunkBits == 8 && |pks| == |secrets|
    requires GoodSecrets(q, ChunkCount(q, profile), secrets) && forall k :: 0 <= k < |pks| ==> pks[k] % q != 0
    ensures |shares| == |secrets|
    ensures forall k :: 0 <= k < |shares| ==> ShareOf(q, bases, ChunkCount(q, profile), pks[k], secrets[k], shares[k])
  {
    hide CE.ProfileOf, CE.Encrypted, DigitsOf;
    ByteProfile(q, profile);
    shares := [];
    for k := 0 to |secrets|
      invariant |shares| == k
      invariant forall j :: 0 <= j < k ==> ShareOf(q, bases, ChunkCount(q, profile), pks[j], secrets[j], shares[j])
    {
      var s := secrets[k];
      var share := CE.EncryptShare(q, profile, bases.value, bases.blind, pks[k], s.scalar, s.blinding, s.coins, s.blindingCoin);
      shares := shares + [share.value];
    }
  }

  function Inputs(secrets: seq<Secret>): (r: seq<LM.LaneInput>)
    ensures |r| == |secrets|
  {
    seq(|secrets|, k requires 0 <= k < |secrets| =>
          LM.LaneInput(k + 1, LM.Witness(secrets[k].scalar, secrets[k].coins, secrets[k].blinding, secrets[k].blindingCoin), secrets[k].mask))
  }

  lemma InputsGood(q: int, bases: RangeProof.Bases, chunks: nat, pks: seq<Point>, secrets: seq<Secret>, shares: seq<CE.Share>)
    requires q > 0 && |pks| == |secrets| == |shares| > 0 && GoodSecrets(q, chunks, secrets)
    requires forall k :: 0 <= k < |shares| ==> ShareOf(q, bases, chunks, pks[k], secrets[k], shares[k])
    ensures LM.GoodInputs(SettingOf(q, bases, chunks), false, LP.Leaf(shares, |shares|), Inputs(secrets))
    ensures LM.InputShape(LP.Leaf(shares, |shares|), Inputs(secrets))
  {
    hide CE.Encrypted, DigitsOf;
    var inputs, leaf := Inputs(secrets), LP.Leaf(shares, |shares|);
    forall k | 0 <= k < |inputs| ensures LM.GoodInput(SettingOf(q, bases, chunks), false, leaf, inputs[k]) {
      assert ShareOf(q, bases, chunks, pks[k], secrets[k], shares[k]);
      SharePk(q, bases, chunks, pks[k], secrets[k], shares[k]);
    }
  }

  lemma SharePk(q: int, bases: RangeProof.Bases, chunks: nat, pk: Point, secret: Secret, share: CE.Share)
    requires q > 0 && ShareOf(q, bases, chunks, pk, secret, share)
    ensures share.pk == pk && |share.chunks| == chunks
  {}

  /** The coins of the proofs fit, and the three range proofs have supported sizes. */
  ghost predicate Provable(q: int, chunks: nat, lanes: nat, coins: Coins) {
    chunks > 0 && CP.AllCoinsFit(coins.comparator, chunks, lanes) && CP.CoinsFit(coins.digitRange, Offset(chunks, lanes), 8) &&
    RangeProof.Dimensions(Offset(chunks, lanes), 8).Some? && RangeProof.Dimensions(Offset(chunks - 1, lanes), 1).Some?
  }

  /**
    The dealer's side: with supported sizes and no zero challenge the fallback is always produced, for any
    canonical scalars and any receivers, and the verifier accepts it.
   */
  method DealAndProve(q: int, oracle: Oracle, hash: CP.Digest, bases: RangeProof.Bases, profile: CE.Profile, setDigest: seq<int>,
                      pks: seq<Point>, secrets: seq<Secret>, coins: Coins) returns (leaf: LP.Leaf, proof: Option<Proof>, ok: bool)
    requires Prime(q) && q >= 2 * RADIX && CP.WellSized(hash) && |setDigest| == 32 && NonVanishing(q, oracle)
    requires CE.ProfileOf(q, profile).Some? && profile.chunkBits == 8 && |pks| == |secrets| > 0
    requires GoodSecrets(q, ChunkCount(q, profile), secrets) && forall k :: 0 <= k < |pks| ==> pks[k] % q != 0
    requires Provable(q, ChunkCount(q, profile), |secrets|, coins)
    ensures ok && proof.Some? && |leaf.receivers| == |secrets|
    ensures Accepts(q, oracle, hash, bases, leaf, setDigest, ChunkCount(q, profile), proof.value)
    ensures forall k :: 0 <= k < |secrets| ==> ShareOf(q, bases, ChunkCount(q, profile), pks[k], secrets[k], leaf.receivers[k])
  {
    hide CE.ProfileOf, Accepts, LM.GoodInputs, LM.HonestProof, ShareOf, Power, CP.AllCoinsFit, CP.CoinsFit, HonestDigits,
      RangeProof.Dimensions, LinkCommitments, NonVanishing, HonestOpenings, LM.InputShape, RhosOfInputs, CP.WellSized;
    var chunks := ChunkCount(q, profile);
    ByteProfile(q, profile);
    var shares := EncryptAll(q, profile, bases, pks, secrets);
    leaf := LP.Leaf(shares, |shares|);
    var inputs := Inputs(secrets);
    InputsGood(q, bases, chunks, pks, secrets, shares);
    ghost var v;
    proof, v := Fallback.Prove(q, oracle, hash, bases, leaf, setDigest, chunks, inputs, coins);
    Opened(q, chunks, inputs, v);
    ghost var link := LM.HonestProof(SettingOf(q, bases, chunks), oracle, false, leaf, setDigest, inputs);
    DigitsExist(q, oracle, hash, bases, setDigest, LinkCommitments(link.lanes), chunks, |inputs|, v, RhosOfInputs(inputs), coins);
    ok := Fallback.Verify(q, oracle, hash, bases, leaf, setDigest, chunks, proof.value);
  }

  lemma Opened(q: int, chunks: nat, inputs: seq<LM.LaneInput>, v: Family)
    requires HonestOpenings(q, chunks, inputs, v)
    ensures chunks > 0 && Shape(v, chunks, |inputs|) && DigitsInRange(v) && |v.s| == Offset(chunks, |inputs|)
  {}

  /** The share has one reading: the digits of the dealt scalar. */
  lemma SecretReads(q: int, bases: RangeProof.Bases, profile: CE.Profile, sk: Scalar, secret: Secret, share: CE.Share)
    requires Prime(q) && bases.value % q != 0 && Cong(q, bases.value * sk, share.pk)
    requires CE.ProfileOf(q, profile).Some? && profile.chunkBits == 8 && secret.scalar < q
    requires ShareOf(q, bases, ChunkCount(q, profile), share.pk, secret, share)
    ensures var bound, digits := CE.DecryptBound(q, profile, 1), DigitsOf(RADIX, secret.scalar, ChunkCount(q, profile));
            CE.Reads(q, bases.value, sk, bound, share, digits) &&
            forall e, d :: CE.Reads(q, bases.value, sk, bound, share, e) && CE.Opens(q, bases.value, sk, RADIX, share, e, d) ==>
              d.scalar == secret.scalar && CE.VerifyRelation(q, bases.value, share, d)
  {
    hide CE.ProfileOf, CE.Reads, CE.Opens, CE.VerifyRelation, Eval, CE.Encrypted, Power, RT.Holds, DigitsOf;
    ByteProfile(q, profile);
    var digits := DigitsOf(RADIX, secret.scalar, ChunkCount(q, profile));
    DigitsCorrect(RADIX, secret.scalar, ChunkCount(q, profile));
    RT.EncryptedHolds(q, bases.value, bases.blind, sk, share.pk, digits,
                      RT.Dealer(secret.scalar, secret.blinding, secret.coins, secret.blindingCoin));
    OneComponent(q, profile);
    RT.OneReading(q, bases.value, bases.blind, sk, RADIX, RADIX - 1, share, digits, secret.scalar, secret.blinding);
    ModSmall(q, secret.scalar);
  }

  /** The receiver's side: its share decrypts to exactly the dealt scalar, and the public relation holds. */
  method Receive(q: int, bases: RangeProof.Bases, profile: CE.Profile, sk: Scalar, ghost secret: Secret, share: CE.Share, estimate: nat)
    returns (d: Option<CE.Decrypted>)
    requires Prime(q) && bases.value % q != 0 && sk % q != 0 && estimate <= q && estimate < 0x8000_0000
    requires CE.ProfileOf(q, profile).Some? && profile.chunkBits == 8 && secret.scalar < q
    requires ShareOf(q, bases, ChunkCount(q, profile), bases.value * sk % q, secret, share)
    ensures d.Some? && d.value.scalar == secret.scalar && CE.VerifyRelation(q, bases.value, share, d.value)
  {
    hide CE.ProfileOf, CE.Reads, CE.Opens, CE.VerifyRelation, ShareOf, DigitsOf, CE.DecryptBound;
    ByteProfile(q, profile);
    RT.KeyIsUsable(q, bases.value, sk);
    SharePk(q, bases, ChunkCount(q, profile), bases.value * sk % q, secret, share);
    SecretReads(q, bases, profile, sk, secret, share);
    OneComponent(q, profile);
    ghost var read;
    d, read := CE.Decrypt(q, profile, bases.value, sk, share, 1, estimate);
  }

  lemma OneComponent(q: int, profile: CE.Profile)
    requires q > 1 && CE.ProfileOf(q, profile).Some? && profile.chunkBits == 8
    ensures 1 <= profile.maxComponents && CE.DecryptBound(q, profile, 1) == RADIX - 1 < q
  {
    ByteProfile(q, profile);
    CE.ProfileSound(q, profile);
    CE.DecryptBoundSmall(q, profile, 1);
  }
}
