/**
  Shares encrypted digit by digit under exponential ElGamal, summed homomorphically, and decrypted
  through the bounded discrete-logarithm solver.

  `EndToEnd` is the point of the design: encrypting up to `maxComponents` scalars to one key, adding the
  ciphertexts and decrypting gives exactly the sum of the scalars in the field.
 */
module ChunkEncryption {
  import opened Common
  import opened Modular
  import opened Bits
  import opened Polynomials
  import opened DiscreteLog

  datatype Profile = Profile(chunkBits: nat, maxComponents: int)
  datatype Parameters = Parameters(base: nat, bound: nat, chunks: nat)

  datatype Ciphertext = Ciphertext(r: Point, c: Point)
  datatype Share = Share(pk: Point, chunks: seq<Ciphertext>, blinding: Ciphertext, commitment: Point)
  datatype Decrypted = Decrypted(scalar: Scalar, publicScalar: Point, blindingOpening: Point)

  const MAX_CHUNK_BITS: nat := 20
  const MAX_DLOG_BOUND: nat := 0x1_0000_0000

  // ---------------------------------------------------------------- the profile

  function ProfileOf(q: int, profile: Profile): (r: Option<Parameters>)
    requires q > 1
  {
    if profile.chunkBits == 0 || profile.chunkBits > MAX_CHUNK_BITS || profile.maxComponents <= 0 then None
    else
      var base := Pow2(profile.chunkBits);
      BaseSize(profile.chunkBits);
      if profile.maxComponents > (WORD - 1) / (base - 1) then None
      else
        var bound := Product(profile.maxComponents, base - 1);
        if bound >= q || bound > MAX_DLOG_BOUND then None
        else Some(Parameters(base, bound, (BitLen(q) + profile.chunkBits - 1) / profile.chunkBits))
  }

  lemma BaseSize(k: nat)
    requires 0 < k <= MAX_CHUNK_BITS
    ensures 2 <= Pow2(k) <= 0x10_0000
  {
    Pow2Mono(1, k);
    Pow2Mono(k, MAX_CHUNK_BITS);
    assert Pow2(5) == 32;
    Pow2Sum(5, 5);
    Pow2Sum(10, 10);
  }

  lemma {:induction false} PowerOfPow2(a: nat, n: nat)
    ensures Power(Pow2(a), n) == Pow2(Product(a, n))
  {
    if n > 0 {
      PowerOfPow2(a, n - 1);
      Pow2Sum(a, a * (n - 1));
      assert a * n == a + a * (n - 1);
    }
  }

  /**
    What a supported profile guarantees: the digits cover every scalar, a sum of `maxComponents`
    digits stays below the modulus, and it is small enough to search.
   */
  lemma ProfileSound(q: int, profile: Profile)
    requires q > 1 && ProfileOf(q, profile).Some?
    ensures var p := ProfileOf(q, profile).value;
            p.base == Pow2(profile.chunkBits) >= 2 && p.chunks > 0 &&
            Power(p.base, p.chunks - 1) <= q < Power(p.base, p.chunks) &&
            p.bound == profile.maxComponents * (p.base - 1) < q && p.bound <= MAX_DLOG_BOUND < WORD
  {
    var p := ProfileOf(q, profile).value;
    var k, n := profile.chunkBits, p.chunks;
    BaseSize(k);
    ChunksFit(q, k);
  }

  /** The chunk count is the least that covers every bit of the modulus. */
  lemma ChunksFit(q: int, k: nat)
    requires q > 1 && k > 0
    ensures var n := (BitLen(q) + k - 1) / k;
            n > 0 && Power(Pow2(k), n - 1) <= q < Power(Pow2(k), n)
  {
    hide Power, Product;
    BitLenBounds(q);
    CeilingCovers(BitLen(q), k);
    BetweenPowers(q, k, BitLen(q), (BitLen(q) + k - 1) / k);
  }

  lemma BetweenPowers(q: int, k: nat, length: nat, n: nat)
    requires n > 0 && length > 0 && Pow2(length - 1) <= q < Pow2(length) && Product(k, n - 1) < length <= Product(k, n)
    ensures Power(Pow2(k), n - 1) <= q < Power(Pow2(k), n)
  {
    hide Power, Product, Pow2;
    Pow2Mono(length, Product(k, n));
    PowerOfPow2(k, n);
    Pow2Mono(Product(k, n - 1), length - 1);
    PowerOfPow2(k, n - 1);
  }

  /** The supported profiles: 1 to 20 bits per chunk, and digit sums below the modulus and at most 2^32. */
  lemma ProfileSupported(q: int, profile: Profile)
    requires q > 1
    ensures ProfileOf(q, profile).Some? <==>
            1 <= profile.chunkBits <= 20 && profile.maxComponents >= 1 &&
            profile.maxComponents * (Pow2(profile.chunkBits) - 1) < q &&
            profile.maxComponents * (Pow2(profile.chunkBits) - 1) <= 0x1_0000_0000
  {
    if 1 <= profile.chunkBits <= 20 && profile.maxComponents >= 1 {
      BaseSize(profile.chunkBits);
      GuardIsFree(profile.maxComponents, Pow2(profile.chunkBits) - 1);
    }
  }

  /** A product that fits in a word is not refused by the overflow guard. */
  lemma GuardIsFree(n: nat, d: nat)
    requires d > 0
    ensures n > (WORD - 1) / d ==> n * d >= WORD
  {
    var k := (WORD - 1) / d;
    assert WORD - 1 == k * d + (WORD - 1) % d;
    if n > k {
      assert n * d >= (k + 1) * d;
    }
  }

  lemma CeilingCovers(a: nat, k: nat)
    requires a > 0 && k > 0
    ensures (a + k - 1) / k > 0 && a <= Product(k, (a + k - 1) / k) && Product(k, (a + k - 1) / k - 1) < a
  {
    var n := (a + k - 1) / k;
    assert a + k - 1 == n * k + (a + k - 1) % k;
    assert n <= 0 ==> n * k <= 0;
  }

  // ---------------------------------------------------------------- digits

  /** The digits of a canonical scalar by masking and shifting; they always cover it. */
  method ScalarDigits(q: int, scalar: nat, profile: Profile) returns (r: Option<seq<int>>)
    requires q > 1 && scalar < q
    ensures r.Some? <==> ProfileOf(q, profile).Some?
    ensures r.Some? ==>
              var p := ProfileOf(q, profile).value;
              r.value == DigitsOf(p.base, scalar, p.chunks) && InRadix(p.base, r.value) && Eval(r.value, p.base) == scalar
  {
    hide Power, And, Product, Low, High, Eval, ProfileOf;
    var p := ProfileOf(q, profile);
    if p == None {
      return None;
    }
    ProfileSound(q, profile);
    var base, chunks := p.value.base, p.value.chunks;
    DigitsCorrect(base, scalar, chunks);
    ghost var all := DigitsOf(base, scalar, chunks);
    var remaining: nat := scalar;
    var digits := [];
    NothingRead(base, scalar);
    for i := 0 to chunks
      invariant |digits| == i && digits + DigitsOf(base, remaining, chunks - i) == all
      invariant Eval(digits, base) + Product(remaining, Power(base, i)) == scalar
      invariant InRadix(base, digits)
    {
      var digit := And(remaining, base - 1);
      MaskedDigit(q, profile, remaining);
      DigitShifts(base, digits, remaining, i, scalar);
      assert digits + DigitsOf(base, remaining, chunks - i) ==
             digits + [Low(base, remaining)] + DigitsOf(base, High(base, remaining), chunks - i - 1);
      digits := digits + [digit];
      remaining := High(base, remaining);
    }
    assert digits == all;
    ShiftedOut(base, chunks, remaining);
    if remaining != 0 {
      return None;
    }
    r := Some(digits);
  }

  lemma NothingRead(base: nat, scalar: nat)
    ensures Eval([], base) + Product(scalar, Power(base, 0)) == scalar
  {}

  lemma MaskedDigit(q: int, profile: Profile, v: nat)
    requires q > 1 && ProfileOf(q, profile).Some?
    ensures var base := ProfileOf(q, profile).value.base; base > 1 && And(v, base - 1) == Low(base, v)
  {
    BaseSize(profile.chunkBits);
    AndMask(v, profile.chunkBits);
  }

  lemma {:induction false} PowerPositive(base: nat, k: nat)
    requires base > 0
    ensures Power(base, k) > 0
  {
    if k > 0 {
      PowerPositive(base, k - 1);
    }
  }

  lemma ShiftedOut(base: nat, k: nat, remaining: nat)
    requires base > 0 && Product(remaining, Power(base, k)) == 0
    ensures remaining == 0
  {
    PowerPositive(base, k);
    var p := Power(base, k);
    assert remaining > 0 ==> remaining * p >= p;
  }

  /** Appending a digit adds it at its power of the base. */
  lemma {:induction false} EvalAppend(base: nat, d: seq<int>, x: int)
    ensures Eval(d + [x], base) == Eval(d, base) + x * Power(base, |d|)
  {
    hide Product;
    if |d| == 0 {
      assert (d + [x])[1..] == [];
    } else {
      EvalAppend(base, d[1..], x);
      assert (d + [x])[1..] == d[1..] + [x];
      AppendStep(base, Eval(d[1..], base), x, Power(base, |d| - 1));
    }
  }

  lemma AppendStep(base: nat, t: int, x: int, p: nat)
    ensures base * (t + x * p) == base * t + x * Product(base, p)
  {
    assert base * (x * p) == x * (base * p);
  }

  lemma DigitShifts(base: nat, digits: seq<int>, remaining: nat, i: nat, total: int)
    requires base > 1 && |digits| == i && Eval(digits, base) + Product(remaining, Power(base, i)) == total
    ensures Eval(digits + [Low(base, remaining)], base) + Product(High(base, remaining), Power(base, i + 1)) == total
  {
    EvalAppend(base, digits, Low(base, remaining));
    Split(base, remaining);
    MoveStep(base, High(base, remaining), Low(base, remaining), remaining, Power(base, i));
  }

  lemma MoveStep(base: nat, high: nat, low: nat, v: nat, p: nat)
    requires v == base * high + low
    ensures v * p == low * p + high * Product(base, p)
  {
    assert (base * high) * p == high * (base * p);
  }

  // ---------------------------------------------------------------- encryption

  /** Exponential ElGamal: `(coin*G, coin*pk + message)`. */
  function EncryptPoint(q: int, G: Point, pk: Point, message: Point, coin: Scalar): Ciphertext
    requires q > 0
  {
    Ciphertext(G * coin % q, (pk * coin + message) % q)
  }

  /** The message a secret key reads out of a ciphertext. */
  function Message(q: int, sk: Scalar, e: Ciphertext): (p: Point)
    requires q > 0
    ensures 0 <= p < q
  {
    (e.c - e.r * sk) % q
  }

  function EncryptDigits(q: int, G: Point, pk: Point, digits: seq<int>, coins: seq<Scalar>): (r: seq<Ciphertext>)
    requires q > 0 && |digits| == |coins|
    ensures |r| == |digits|
  {
    seq(|digits|, i requires 0 <= i < |digits| => EncryptPoint(q, G, pk, PointTimes(q, G, digits[i]), coins[i]))
  }

  function Commitment(q: int, G: Point, H: Point, scalar: Scalar, blinding: Scalar): Point
    requires q > 0
  {
    (G * scalar + H * blinding) % q
  }

  /** The share an honest dealer sends for a scalar written in the given digits. */
  function Encrypted(q: int, G: Point, H: Point, pk: Point, digits: seq<int>, scalar: Scalar, blinding: Scalar,
                     coins: seq<Scalar>, blindingCoin: Scalar): Share
    requires q > 0 && |digits| == |coins|
  {
    Share(pk, EncryptDigits(q, G, pk, digits, coins), EncryptPoint(q, G, pk, H * blinding % q, blindingCoin),
          Commitment(q, G, H, scalar, blinding))
  }

  method EncryptShare(q: int, profile: Profile, G: Point, H: Point, pk: Point, scalar: nat, blinding: Scalar,
                      coins: seq<Scalar>, blindingCoin: Scalar) returns (r: Option<Share>)
    requires q > 1 && scalar < q
    ensures r.Some? <==> pk % q != 0 && ProfileOf(q, profile).Some? && |coins| == ProfileOf(q, profile).value.chunks
    ensures r.Some? ==>
              ProfileOf(q, profile).value.base > 1 &&
              var p := ProfileOf(q, profile).value;
              r.value == Encrypted(q, G, H, pk, DigitsOf(p.base, scalar, p.chunks), scalar, blinding, coins, blindingCoin)
  {
    hide Eval, ProfileOf, Commitment, EncryptPoint;
    if pk % q == 0 {
      return None;
    }
    var digits := ScalarDigits(q, scalar, profile);
    if digits == None {
      return None;
    }
    ProfileSound(q, profile);
    if |coins| != |digits.value| {
      return None;
    }
    var chunks := [];
    for i := 0 to |coins|
      invariant |chunks| == i
      invariant forall k :: 0 <= k < i ==> chunks[k] == EncryptDigits(q, G, pk, digits.value, coins)[k]
    {
      var digitPoint := PointTimes(q, G, digits.value[i]);
      chunks := chunks + [EncryptPoint(q, G, pk, digitPoint, coins[i])];
    }
    var blindingPoint := H * blinding % q;
    var commitment := AddCommitment(q, G, H, scalar, blinding);
    assert chunks == EncryptDigits(q, G, pk, digits.value, coins);
    r := Some(Share(pk, chunks, EncryptPoint(q, G, pk, blindingPoint, blindingCoin), commitment));
  }

  method AddCommitment(q: int, G: Point, H: Point, scalar: Scalar, blinding: Scalar) returns (p: Point)
    requires q > 1
    ensures p == Commitment(q, G, H, scalar, blinding)
  {
    ModAdd(q, G * scalar, H * blinding % q);
    ModAdd(q, G * scalar, H * blinding);
    p := (G * scalar % q + H * blinding % q) % q;
  }

  // ---------------------------------------------------------------- aggregation

  function AddCiphertext(q: int, a: Ciphertext, b: Ciphertext): Ciphertext
    requires q > 0
  {
    Ciphertext(Add(q, a.r, b.r), Add(q, a.c, b.c))
  }

  function AddChunks(q: int, a: seq<Ciphertext>, b: seq<Ciphertext>): (r: seq<Ciphertext>)
    requires q > 0 && |a| == |b|
    ensures |r| == |a|
  {
    seq(|a|, i requires 0 <= i < |a| => AddCiphertext(q, a[i], b[i]))
  }

  function AddShare(q: int, a: Share, b: Share): Share
    requires q > 0 && |a.chunks| == |b.chunks|
  {
    Share(a.pk, AddChunks(q, a.chunks, b.chunks), AddCiphertext(q, a.blinding, b.blinding),
          Add(q, a.commitment, b.commitment))
  }

  predicate ValidShare(q: int, share: Share, chunks: nat)
    requires q > 0
  {
    share.pk % q != 0 && |share.chunks| == chunks
  }

  /** Shares that may be aggregated: all valid and all for one key. */
  ghost predicate Compatible(q: int, shares: seq<Share>, chunks: nat)
    requires q > 0
  {
    |shares| > 0 && forall j :: 0 <= j < |shares| ==> ValidShare(q, shares[j], chunks) && shares[j].pk == shares[0].pk
  }

  function SumShares(q: int, shares: seq<Share>, n: nat): (r: Share)
    requires q > 0 && 0 < n <= |shares|
    requires forall j :: 0 <= j < n ==> |shares[j].chunks| == |shares[0].chunks|
    ensures |r.chunks| == |shares[0].chunks| && r.pk == shares[0].pk
  {
    if n == 1 then shares[0] else AddShare(q, SumShares(q, shares, n - 1), shares[n - 1])
  }

  method Aggregate(q: int, profile: Profile, shares: seq<Share>) returns (r: Option<Share>)
    requires q > 1
    ensures r.Some? <==> ProfileOf(q, profile).Some? && 0 < |shares| <= profile.maxComponents &&
                         Compatible(q, shares, ProfileOf(q, profile).value.chunks)
    ensures r.Some? ==> r.value == SumShares(q, shares, |shares|)
  {
    hide ProfileOf, AddShare, Add;
    var p := ProfileOf(q, profile);
    if p == None || |shares| == 0 || |shares| > profile.maxComponents {
      return None;
    }
    var chunks := p.value.chunks;
    if !ValidShare(q, shares[0], chunks) {
      return None;
    }
    var total := shares[0];
    for j := 1 to |shares|
      invariant forall k :: 0 <= k < j ==> ValidShare(q, shares[k], chunks) && shares[k].pk == shares[0].pk
      invariant total == SumShares(q, shares, j)
    {
      if !ValidShare(q, shares[j], chunks) || shares[j].pk != total.pk {
        return None;
      }
      total := AddInPlace(q, total, shares[j]);
    }
    r := Some(total);
  }

  method AddInPlace(q: int, a: Share, b: Share) returns (r: Share)
    requires q > 1 && |a.chunks| == |b.chunks|
    ensures r == AddShare(q, a, b)
  {
    hide AddCiphertext, Add;
    var chunks := a.chunks;
    for i := 0 to |chunks|
      invariant |chunks| == |a.chunks|
      invariant forall k :: 0 <= k < i ==> chunks[k] == AddCiphertext(q, a.chunks[k], b.chunks[k])
      invariant forall k :: i <= k < |chunks| ==> chunks[k] == a.chunks[k]
    {
      chunks := chunks[i := AddCiphertext(q, chunks[i], b.chunks[i])];
    }
    assert chunks == AddChunks(q, a.chunks, b.chunks);
    r := Share(a.pk, chunks, AddCiphertext(q, a.blinding, b.blinding), Add(q, a.commitment, b.commitment));
  }

  // ---------------------------------------------------------------- decryption

  /** The secret key reads these digits, all within the bound, out of the share. */
  ghost predicate Reads(q: int, G: Point, sk: Scalar, bound: nat, share: Share, digits: seq<int>)
    requires q > 0
  {
    |digits| == |share.chunks| &&
    forall i :: 0 <= i < |digits| ==> 0 <= digits[i] <= bound && PointTimes(q, G, digits[i]) == Message(q, sk, share.chunks[i])
  }

  /** What `d` says about the digits that were read. */
  predicate Opens(q: int, G: Point, sk: Scalar, base: nat, share: Share, digits: seq<int>, d: Decrypted)
    requires q > 0
  {
    d.scalar == Eval(digits, base) % q && d.publicScalar == G * d.scalar % q &&
    d.blindingOpening == Message(q, sk, share.blinding)
  }

  /** Everything decryption checks before it searches. */
  predicate Decryptable(q: int, profile: Profile, G: Point, sk: Scalar, share: Share, componentCount: int)
    requires q > 1
  {
    ProfileOf(q, profile).Some? && 0 < componentCount <= profile.maxComponents &&
    ValidShare(q, share, ProfileOf(q, profile).value.chunks) && sk % q != 0 && Cong(q, G * sk, share.pk)
  }

  function DecryptBound(q: int, profile: Profile, componentCount: nat): nat
    requires q > 1 && ProfileOf(q, profile).Some?
  {
    ProfileSound(q, profile);
    Product(componentCount, ProfileOf(q, profile).value.base - 1)
  }

  lemma DecryptBoundSmall(q: int, profile: Profile, componentCount: nat)
    requires q > 1 && ProfileOf(q, profile).Some? && componentCount <= profile.maxComponents
    ensures DecryptBound(q, profile, componentCount) <= ProfileOf(q, profile).value.bound
  {
    hide ProfileOf;
    ProfileSound(q, profile);
    ProductMono(componentCount, profile.maxComponents, ProfileOf(q, profile).value.base - 1);
  }

  lemma ProductMono(a: nat, b: int, d: nat)
    requires a <= b
    ensures Product(a, d) <= b * d
  {}

  /** Decryption succeeds exactly when every chunk hides a digit within the bound. */
  method Decrypt(q: int, profile: Profile, G: Point, sk: Scalar, share: Share, componentCount: int, estimate: nat)
    returns (r: Option<Decrypted>, ghost digits: seq<int>)
    requires Prime(q) && G % q != 0 && estimate <= q && estimate < 0x8000_0000
    ensures r.Some? ==> sk % q != 0 && Cong(q, G * sk, share.pk) && 0 < componentCount <= profile.maxComponents
    ensures r.Some? ==> Decryptable(q, profile, G, sk, share, componentCount) &&
                        Reads(q, G, sk, DecryptBound(q, profile, componentCount), share, digits) &&
                        Opens(q, G, sk, ProfileOf(q, profile).value.base, share, digits, r.value)
    ensures r.None? && Decryptable(q, profile, G, sk, share, componentCount) ==>
              forall d: seq<int> :: !Reads(q, G, sk, DecryptBound(q, profile, componentCount), share, d)
  {
    hide ProfileOf, Eval, Reads, PointTimes, Message, Product;
    var p := ProfileOf(q, profile);
    CongZero(q, G * sk, share.pk);
    if p == None || componentCount <= 0 || componentCount > profile.maxComponents ||
       !ValidShare(q, share, p.value.chunks) || sk % q == 0 || (G * sk - share.pk) % q != 0 {
      return None, [];
    }
    ProfileSound(q, profile);
    DecryptBoundSmall(q, profile, componentCount);
    var bound := Product(componentCount, p.value.base - 1);
    var solver := NewSolver(q, G, bound, estimate);
    var sum;
    sum, digits := ReadChunks(q, profile, G, sk, share, solver);
    if sum == None {
      return None, [];
    }
    var scalar := sum.value % q;
    r := Some(Decrypted(scalar, G * scalar % q, Message(q, sk, share.blinding)));
  }

  method ReadChunks(q: int, profile: Profile, G: Point, sk: Scalar, share: Share, solver: Solver)
    returns (r: Option<int>, ghost digits: seq<int>)
    requires q > 1 && ProfileOf(q, profile).Some? && DiscreteLog.Valid(q, G, solver)
    ensures r.Some? ==> Reads(q, G, sk, solver.bound, share, digits) &&
                        r.value == Eval(digits, ProfileOf(q, profile).value.base)
    ensures r.None? ==> forall d: seq<int> :: !Reads(q, G, sk, solver.bound, share, d)
  {
    hide ProfileOf, Eval, PointTimes, Message, DiscreteLog.Valid, Power, Pow2;
    var sum := 0;
    digits := [];
    ghost var base := ProfileOf(q, profile).value.base;
    EmptySum(base);
    for i := 0 to |share.chunks|
      invariant |digits| == i && sum == Eval(digits, base)
      invariant forall k :: 0 <= k < i ==>
                  0 <= digits[k] <= solver.bound && PointTimes(q, G, digits[k]) == Message(q, sk, share.chunks[k])
    {
      var digit := Solve(q, G, solver, Message(q, sk, share.chunks[i]));
      if digit == None {
        NothingReads(q, G, sk, solver.bound, share, i);
        return None, [];
      }
      EvalAppend(base, digits, digit.value);
      ShiftedTerm(q, profile, i);
      sum := sum + digit.value * Pow2(i * profile.chunkBits);
      digits := digits + [digit.value];
    }
    r := Some(sum);
  }

  lemma EmptySum(base: nat)
    ensures Eval([], base) == 0
  {}

  lemma ShiftedTerm(q: int, profile: Profile, i: nat)
    requires q > 1 && ProfileOf(q, profile).Some?
    ensures Pow2(i * profile.chunkBits) == Power(ProfileOf(q, profile).value.base, i)
  {
    PowerOfPow2(profile.chunkBits, i);
    assert i * profile.chunkBits == profile.chunkBits * i;
  }

  lemma NothingReads(q: int, G: Point, sk: Scalar, bound: nat, share: Share, i: nat)
    requires q > 0 && i < |share.chunks| && !Solvable(q, G, bound, Message(q, sk, share.chunks[i]))
    ensures forall d: seq<int> :: !Reads(q, G, sk, bound, share, d)
  {}

  /** A share has one reading. */
  lemma ReadsOnce(q: int, G: Point, sk: Scalar, bound: nat, share: Share, d: seq<int>, e: seq<int>)
    requires Prime(q) && G % q != 0 && bound < q && Reads(q, G, sk, bound, share, d) && Reads(q, G, sk, bound, share, e)
    ensures d == e
  {
    forall i | 0 <= i < |d| ensures d[i] == e[i] {
      TimesInjective(q, G, d[i], e[i]);
    }
  }

  predicate VerifyRelation(q: int, G: Point, share: Share, d: Decrypted)
    requires q > 0
  {
    Cong(q, G * d.scalar, d.publicScalar) && Cong(q, d.publicScalar + d.blindingOpening, share.commitment)
  }
}
