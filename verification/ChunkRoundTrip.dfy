/** Encrypting, adding and decrypting: the sum of the scalars comes back, and the relation holds. */
module ChunkRoundTrip {
  import opened Common
  import opened Modular
  import opened Vectors
  import opened Polynomials
  import opened DiscreteLog
  import opened ChunkEncryption

  /** One dealer's inputs to encryption. */
  datatype Dealer = Dealer(scalar: nat, blinding: Scalar, coins: seq<Scalar>, blindingCoin: Scalar)

  /** Under `sk` the share reads as these digits, and its commitment hides the scalar and the blinding. */
  ghost predicate Holds(q: int, G: Point, H: Point, sk: Scalar, share: Share, digits: Vec, scalar: int, blinding: int)
    requires q > 0
  {
    && |digits| == |share.chunks|
    && (forall i :: 0 <= i < |digits| ==> Message(q, sk, share.chunks[i]) == PointTimes(q, G, digits[i]))
    && Message(q, sk, share.blinding) == PointTimes(q, H, blinding)
    && Cong(q, share.commitment, G * scalar + H * blinding)
  }

  /** Decryption undoes encryption under the matching key. */
  lemma MessageOfEncrypted(q: int, G: Point, sk: Scalar, pk: Point, message: Point, coin: Scalar)
    requires q > 0 && Cong(q, G * sk, pk)
    ensures Message(q, sk, EncryptPoint(q, G, pk, message, coin)) == message % q
  {
    var r, c := G * coin, pk * coin + message;
    ModCong(q, r);
    ModCong(q, c);
    CongMul(q, r % q, r, sk, sk);
    CongMul(q, G * sk, pk, coin, coin);
    SwapFactors(G, coin, sk);
    CongSub(q, c % q, c, (r % q) * sk, pk * coin);
  }

  lemma SwapFactors(a: int, b: int, c: int)
    ensures (a * b) * c == (a * c) * b
  {}

  lemma EncryptedHolds(q: int, G: Point, H: Point, sk: Scalar, pk: Point, digits: Vec, dealer: Dealer)
    requires q > 0 && Cong(q, G * sk, pk) && |digits| == |dealer.coins|
    ensures Holds(q, G, H, sk,
                  Encrypted(q, G, H, pk, digits, dealer.scalar, dealer.blinding, dealer.coins, dealer.blindingCoin),
                  digits, dealer.scalar, dealer.blinding)
  {
    hide Message, EncryptPoint;
    forall i | 0 <= i < |digits|
      ensures Message(q, sk, EncryptDigits(q, G, pk, digits, dealer.coins)[i]) == PointTimes(q, G, digits[i])
    {
      MessageOfEncrypted(q, G, sk, pk, PointTimes(q, G, digits[i]), dealer.coins[i]);
      ModSmall(q, PointTimes(q, G, digits[i]));
    }
    MessageOfEncrypted(q, G, sk, pk, H * dealer.blinding % q, dealer.blindingCoin);
    ModSmall(q, H * dealer.blinding % q);
    ModCong(q, G * dealer.scalar + H * dealer.blinding);
  }

  /** Adding ciphertexts adds messages. */
  lemma MessageAdds(q: int, sk: Scalar, a: Ciphertext, b: Ciphertext, P: Point, x: int, y: int)
    requires q > 0 && Message(q, sk, a) == PointTimes(q, P, x) && Message(q, sk, b) == PointTimes(q, P, y)
    ensures Message(q, sk, AddCiphertext(q, a, b)) == PointTimes(q, P, x + y)
  {
    var r, c := a.r + b.r, a.c + b.c;
    ModCong(q, r);
    ModCong(q, c);
    CongMul(q, r % q, r, sk, sk);
    CongSub(q, c % q, c, (r % q) * sk, r * sk);
    AddAlgebra(a.c, a.r, b.c, b.r, sk, x, y, P);
    CongAdd(q, a.c - a.r * sk, x * P, b.c - b.r * sk, y * P);
  }

  lemma AddAlgebra(c: int, r: int, c': int, r': int, sk: int, x: int, y: int, P: int)
    ensures (c + c') - (r + r') * sk == (c - r * sk) + (c' - r' * sk) && (x + y) * P == x * P + y * P
  {}

  lemma AddHolds(q: int, G: Point, H: Point, sk: Scalar, a: Share, b: Share, d: Vec, e: Vec, s: int, t: int, u: int, v: int)
    requires q > 0 && Holds(q, G, H, sk, a, d, s, u) && Holds(q, G, H, sk, b, e, t, v) && |d| == |e|
    ensures Holds(q, G, H, sk, AddShare(q, a, b), Plus(d, e), s + t, u + v)
  {
    hide Message, AddCiphertext, PointTimes;
    var sum := AddShare(q, a, b);
    forall i | 0 <= i < |d| ensures Message(q, sk, sum.chunks[i]) == PointTimes(q, G, d[i] + e[i]) {
      MessageAdds(q, sk, a.chunks[i], b.chunks[i], G, d[i], e[i]);
    }
    MessageAdds(q, sk, a.blinding, b.blinding, H, u, v);
    CongAdd(q, a.commitment, G * s + H * u, b.commitment, G * t + H * v);
    ModCong(q, a.commitment + b.commitment);
    RegroupSum(G, H, s, t, u, v);
  }

  lemma RegroupSum(G: int, H: int, s: int, t: int, u: int, v: int)
    ensures G * (s + t) + H * (u + v) == (G * s + H * u) + (G * t + H * v)
  {}

  // ---------------------------------------------------------------- sums over dealers

  function TotalScalar(dealers: seq<Dealer>, n: nat): nat
    requires n <= |dealers|
  {
    if n == 0 then 0 else TotalScalar(dealers, n - 1) + dealers[n - 1].scalar
  }

  function TotalBlinding(dealers: seq<Dealer>, n: nat): int
    requires n <= |dealers|
  {
    if n == 0 then 0 else TotalBlinding(dealers, n - 1) + dealers[n - 1].blinding
  }

  /** The digits of the first `n` dealers, added position by position without carries. */
  function TotalDigits(base: nat, chunks: nat, dealers: seq<Dealer>, n: nat): (r: Vec)
    requires base > 1 && 0 < n <= |dealers|
    ensures |r| == chunks
  {
    var last := DigitsOf(base, dealers[n - 1].scalar, chunks);
    if n == 1 then last else Plus(TotalDigits(base, chunks, dealers, n - 1), last)
  }

  /** Summed digits never exceed the bound, and they still write the sum of the scalars. */
  lemma {:induction false} TotalDigitsSound(base: nat, chunks: nat, dealers: seq<Dealer>, n: nat)
    requires base > 1 && 0 < n <= |dealers|
    requires forall j :: 0 <= j < n ==> dealers[j].scalar < Power(base, chunks)
    ensures forall i :: 0 <= i < chunks ==> 0 <= TotalDigits(base, chunks, dealers, n)[i] <= Product(n, base - 1)
    ensures Eval(TotalDigits(base, chunks, dealers, n), base) == TotalScalar(dealers, n)
  {
    hide Power, Product;
    DigitsCorrect(base, dealers[n - 1].scalar, chunks);
    ProductNext(n, base - 1);
    if n > 1 {
      TotalDigitsSound(base, chunks, dealers, n - 1);
      EvalPlus(TotalDigits(base, chunks, dealers, n - 1), DigitsOf(base, dealers[n - 1].scalar, chunks), base);
    } else {
      assert TotalScalar(dealers, 0) == 0;
    }
  }

  lemma ProductNext(n: nat, d: nat)
    requires n > 0
    ensures Product(n, d) == Product(n - 1, d) + d && Product(0, d) == 0
  {}

  /** `shares[j]` is what dealer `j` sends honestly to `pk`. */
  ghost predicate HonestShares(q: int, G: Point, H: Point, pk: Point, p: Parameters, dealers: seq<Dealer>,
                               shares: seq<Share>)
    requires q > 0
  {
    p.base > 1 && |shares| == |dealers| &&
    forall j :: 0 <= j < |dealers| ==> HonestShare(q, G, H, pk, p, dealers[j], shares[j])
  }

  ghost predicate HonestShare(q: int, G: Point, H: Point, pk: Point, p: Parameters, dealer: Dealer, share: Share)
    requires q > 0
  {
    p.base > 1 && dealer.scalar < q && |dealer.coins| == p.chunks &&
    share == Encrypted(q, G, H, pk, DigitsOf(p.base, dealer.scalar, p.chunks), dealer.scalar, dealer.blinding,
                       dealer.coins, dealer.blindingCoin)
  }

  lemma {:induction false} SumHolds(q: int, G: Point, H: Point, sk: Scalar, pk: Point, p: Parameters,
                                    dealers: seq<Dealer>, shares: seq<Share>, n: nat)
    requires q > 0 && Cong(q, G * sk, pk) && HonestShares(q, G, H, pk, p, dealers, shares) && 0 < n <= |dealers|
    ensures Holds(q, G, H, sk, SumShares(q, shares, n), TotalDigits(p.base, p.chunks, dealers, n),
                  TotalScalar(dealers, n), TotalBlinding(dealers, n))
  {
    hide Holds, AddShare, EncryptDigits;
    var last := DigitsOf(p.base, dealers[n - 1].scalar, p.chunks);
    EncryptedHolds(q, G, H, sk, pk, last, dealers[n - 1]);
    if n == 1 {
      assert TotalScalar(dealers, 0) == 0 && TotalBlinding(dealers, 0) == 0;
    } else {
      SumHolds(q, G, H, sk, pk, p, dealers, shares, n - 1);
      AddHolds(q, G, H, sk, SumShares(q, shares, n - 1), shares[n - 1], TotalDigits(p.base, p.chunks, dealers, n - 1), last,
               TotalScalar(dealers, n - 1), dealers[n - 1].scalar, TotalBlinding(dealers, n - 1), dealers[n - 1].blinding);
    }
  }

  // ---------------------------------------------------------------- the round trip

  /**
    Honest shares for one key, summed: decryption finds digits, and whatever it returns is the sum of
    the scalars in the field together with an opening that satisfies the public relation.
   */
  lemma EndToEnd(q: int, profile: Profile, G: Point, H: Point, sk: Scalar, pk: Point, dealers: seq<Dealer>,
                 shares: seq<Share>, componentCount: nat)
    requires Prime(q) && G % q != 0 && Cong(q, G * sk, pk) && ProfileOf(q, profile).Some?
    requires HonestShares(q, G, H, pk, ProfileOf(q, profile).value, dealers, shares)
    requires 0 < |dealers| <= componentCount <= profile.maxComponents
    ensures var p := ProfileOf(q, profile).value;
            var bound := DecryptBound(q, profile, componentCount);
            var total := SumShares(q, shares, |shares|);
            var digits := TotalDigits(p.base, p.chunks, dealers, |dealers|);
            Reads(q, G, sk, bound, total, digits) &&
            forall e, d :: Reads(q, G, sk, bound, total, e) && Opens(q, G, sk, p.base, total, e, d) ==>
              e == digits && d.scalar == TotalScalar(dealers, |dealers|) % q &&
              d.blindingOpening == PointTimes(q, H, TotalBlinding(dealers, |dealers|)) &&
              VerifyRelation(q, G, total, d)
  {
    hide ProfileOf, DecryptBound, Eval, Reads, Opens, VerifyRelation, Holds, HonestShare, Product, Power, SumShares,
      TotalDigits;
    var p := ProfileOf(q, profile).value;
    var n := |dealers|;
    HonestScalars(q, G, H, pk, p, dealers, shares);
    ProfileSound(q, profile);
    SumHolds(q, G, H, sk, pk, p, dealers, shares, n);
    TotalDigitsSound(p.base, p.chunks, dealers, n);
    BoundCovers(q, profile, n, componentCount);
    DecryptBoundSmall(q, profile, componentCount);
    OneReading(q, G, H, sk, p.base, DecryptBound(q, profile, componentCount), SumShares(q, shares, n),
               TotalDigits(p.base, p.chunks, dealers, n), TotalScalar(dealers, n), TotalBlinding(dealers, n));
  }

  lemma OneReading(q: int, G: Point, H: Point, sk: Scalar, base: nat, bound: nat, share: Share, digits: Vec, scalar: int,
                   blinding: int)
    requires Prime(q) && G % q != 0 && bound < q && Holds(q, G, H, sk, share, digits, scalar, blinding)
    requires Eval(digits, base) == scalar && forall i :: 0 <= i < |digits| ==> 0 <= digits[i] <= bound
    ensures Reads(q, G, sk, bound, share, digits)
    ensures forall e, d :: Reads(q, G, sk, bound, share, e) && Opens(q, G, sk, base, share, e, d) ==>
              e == digits && d.scalar == scalar % q && d.blindingOpening == PointTimes(q, H, blinding) &&
              VerifyRelation(q, G, share, d)
  {
    hide Eval, Opens, VerifyRelation, PointTimes, Message;
    forall e, d | Reads(q, G, sk, bound, share, e) && Opens(q, G, sk, base, share, e, d)
      ensures e == digits && d.scalar == scalar % q && d.blindingOpening == PointTimes(q, H, blinding) &&
              VerifyRelation(q, G, share, d)
    {
      ReadsOnce(q, G, sk, bound, share, e, digits);
      OpeningVerifies(q, G, H, sk, base, share, digits, scalar, blinding, d);
    }
  }

  lemma HonestScalars(q: int, G: Point, H: Point, pk: Point, p: Parameters, dealers: seq<Dealer>, shares: seq<Share>)
    requires q > 0 && HonestShares(q, G, H, pk, p, dealers, shares)
    ensures forall j :: 0 <= j < |dealers| ==> dealers[j].scalar < q && |shares[j].chunks| == p.chunks
  {
    forall j | 0 <= j < |dealers| ensures dealers[j].scalar < q && |shares[j].chunks| == p.chunks {
      assert HonestShare(q, G, H, pk, p, dealers[j], shares[j]);
    }
  }

  lemma BoundCovers(q: int, profile: Profile, n: nat, componentCount: nat)
    requires q > 1 && ProfileOf(q, profile).Some? && n <= componentCount
    ensures ProfileOf(q, profile).value.base > 1
    ensures Product(n, ProfileOf(q, profile).value.base - 1) <= DecryptBound(q, profile, componentCount)
  {
    hide ProfileOf;
    ProfileSound(q, profile);
    ProductMono(n, componentCount, ProfileOf(q, profile).value.base - 1);
  }

  lemma OpeningVerifies(q: int, G: Point, H: Point, sk: Scalar, base: nat, share: Share, digits: Vec, scalar: int,
                        blinding: int, d: Decrypted)
    requires q > 0 && Holds(q, G, H, sk, share, digits, scalar, blinding)
    requires Eval(digits, base) == scalar && Opens(q, G, sk, base, share, digits, d)
    ensures d.scalar == scalar % q && d.blindingOpening == PointTimes(q, H, blinding) && VerifyRelation(q, G, share, d)
  {
    ModCong(q, G * d.scalar);
    ModMul(q, G, scalar);
    ModCong(q, H * blinding);
    CongAdd(q, d.publicScalar, G * scalar, d.blindingOpening, H * blinding);
  }

  // ---------------------------------------------------------------- the program's own steps

  ghost predicate GoodDealers(q: int, chunks: nat, dealers: seq<Dealer>) {
    forall j :: 0 <= j < |dealers| ==> dealers[j].scalar < q && |dealers[j].coins| == chunks
  }

  /** Every dealer encrypts its scalar to the key. */
  method EncryptAll(q: int, profile: Profile, G: Point, H: Point, pk: Point, dealers: seq<Dealer>) returns (shares: seq<Share>)
    requires q > 1 && pk % q != 0 && ProfileOf(q, profile).Some?
    requires GoodDealers(q, ProfileOf(q, profile).value.chunks, dealers)
    ensures HonestShares(q, G, H, pk, ProfileOf(q, profile).value, dealers, shares)
  {
    hide ProfileOf, Encrypted;
    ghost var p := ProfileOf(q, profile).value;
    ProfileSound(q, profile);
    shares := [];
    for j := 0 to |dealers|
      invariant |shares| == j && forall k :: 0 <= k < j ==> HonestShare(q, G, H, pk, p, dealers[k], shares[k])
    {
      var d := dealers[j];
      var share := EncryptShare(q, profile, G, H, pk, d.scalar, d.blinding, d.coins, d.blindingCoin);
      shares := shares + [share.value];
    }
  }

  /**
    Encrypt, aggregate and decrypt with the program's own operations: the result is always there, it is
    the sum of the scalars in the field, and it satisfies the public relation of the aggregate.
   */
  method EncryptAggregateDecrypt(q: int, profile: Profile, G: Point, H: Point, sk: Scalar, dealers: seq<Dealer>,
                                 componentCount: nat, estimate: nat)
    returns (total: Option<Share>, d: Option<Decrypted>)
    requires Prime(q) && G % q != 0 && sk % q != 0 && estimate <= q && estimate < 0x8000_0000
    requires ProfileOf(q, profile).Some? && GoodDealers(q, ProfileOf(q, profile).value.chunks, dealers)
    requires 0 < |dealers| <= componentCount <= profile.maxComponents
    ensures total.Some? && d.Some? && d.value.scalar == TotalScalar(dealers, |dealers|) % q
    ensures d.value.blindingOpening == PointTimes(q, H, TotalBlinding(dealers, |dealers|))
    ensures VerifyRelation(q, G, total.value, d.value)
  {
    hide ProfileOf, Reads, Opens, VerifyRelation, TotalDigits, SumShares, HonestShare, DecryptBound, PointTimes, Encrypted;
    var pk := G * sk % q;
    KeyIsUsable(q, G, sk);
    var shares := EncryptAll(q, profile, G, H, pk, dealers);
    SharesCompatible(q, G, H, pk, ProfileOf(q, profile).value, dealers, shares);
    total := Aggregate(q, profile, shares);
    EndToEnd(q, profile, G, H, sk, pk, dealers, shares, componentCount);
    ghost var digits;
    d, digits := Decrypt(q, profile, G, sk, total.value, componentCount, estimate);
  }

  lemma KeyIsUsable(q: int, G: Point, sk: Scalar)
    requires Prime(q) && G % q != 0 && sk % q != 0
    ensures var pk := G * sk % q; pk % q != 0 && Cong(q, G * sk, pk)
  {
    ModCong(q, G * sk);
    if (G * sk) % q == 0 {
      NoZeroDivisors(q, G, sk);
    }
  }

  lemma SharesCompatible(q: int, G: Point, H: Point, pk: Point, p: Parameters, dealers: seq<Dealer>, shares: seq<Share>)
    requires q > 0 && pk % q != 0 && |dealers| > 0 && HonestShares(q, G, H, pk, p, dealers, shares)
    ensures Compatible(q, shares, p.chunks) && shares[0].pk == pk
  {
    forall j | 0 <= j < |shares| ensures ValidShare(q, shares[j], p.chunks) && shares[j].pk == pk {
      assert HonestShare(q, G, H, pk, p, dealers[j], shares[j]);
    }
  }
}
