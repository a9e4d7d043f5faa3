/**
  The running comparator: the loops that build the coefficients and the openings, the prover and the
  verifier.  An honest proof is always accepted.
 */
module ComparatorProof {
  import opened Common
  import opened Modular
  import opened Vectors
  import opened Polynomials
  import opened RangeVectors
  import opened Comparator
  import opened ComparatorRows
  import Bits
  import RangeProof
  import RangeMethods

  /** `hashBytes` under a domain label, 32 numbers long. */
  type Digest = (string, Transcript) -> seq<int>

  ghost predicate WellSized(hash: Digest) {
    forall d, t :: |hash(d, t)| == 32
  }

  datatype Proof = Proof(complement: seq<Point>, borrow: seq<Point>, complementRange: RangeProof.Proof,
                         borrowRange: RangeProof.Proof, tRelation: Point, zRelation: Scalar)

  // ---------------------------------------------------------------- coefficients

  /** Entry `k` of the borrow coefficients of a lane once its first `digit` rows have been added. */
  function PartialBorrow(wl: Vec, digit: nat, k: nat): int
    requires k + 1 < |wl|
  {
    (if k < digit then RADIX * wl[k] else 0) - (if k + 1 < digit then wl[k + 1] else 0)
  }

  method LaneCoefficients(wl: Vec, m: Vec) returns (borrow: Vec, generator: int)
    requires |wl| == |m| > 0
    ensures borrow == BorrowLane(wl) && generator == Inner(wl, m)
  {
    borrow, generator := seq(|m| - 1, i => 0), 0;
    for digit := 0 to |m|
      invariant |borrow| == |m| - 1 && generator == Sum(wl, m, digit)
      invariant forall k :: 0 <= k < |m| - 1 ==> borrow[k] == PartialBorrow(wl, digit, k)
    {
      generator := generator + wl[digit] * m[digit];
      if digit > 0 {
        borrow := borrow[digit - 1 := borrow[digit - 1] - wl[digit]];
      }
      if digit + 1 < |m| {
        borrow := borrow[digit := borrow[digit] + wl[digit] * RADIX];
      }
    }
  }

  /** One coefficient per commitment and one for the generator. */
  method Coefficients(w: Vec, m: Vec, lanes: nat) returns (scalar: Vec, complement: Vec, borrow: Vec, generator: int)
    requires |m| > 0 && |w| == Offset(|m|, lanes)
    ensures scalar == Scale(-1, w) && complement == Scale(-1, w)
    ensures borrow == BorrowCoefficients(w, |m|, lanes) && generator == GeneratorCoefficient(w, m, lanes)
  {
    hide Inner, BorrowLane;
    scalar, complement, borrow, generator := [], [], [], 0;
    for lane := 0 to lanes
      invariant Offset(|m|, lane) <= |w| && |scalar| == |complement| == Offset(|m|, lane)
      invariant forall i :: 0 <= i < |scalar| ==> scalar[i] == complement[i] == -w[i]
      invariant borrow == BorrowCoefficients(w, |m|, lane) && generator == GeneratorCoefficient(w, m, lane)
    {
      OffsetMono(|m|, lane + 1, lanes);
      var start := |scalar|;
      for digit := 0 to |m|
        invariant |scalar| == |complement| == start + digit
        invariant forall i :: 0 <= i < |scalar| ==> scalar[i] == complement[i] == -w[i]
      {
        scalar := scalar + [-w[start + digit]];
        complement := complement + [-w[start + digit]];
      }
      var laneBorrow, laneGenerator := LaneCoefficients(w[start..start + |m|], m);
      borrow, generator := borrow + laneBorrow, generator + laneGenerator;
    }
  }

  // ---------------------------------------------------------------- the relation

  function Points(bases: RangeProof.Bases, link: seq<Point>, complement: seq<Point>, borrow: seq<Point>): Family {
    Family(bases.value, link, complement, borrow)
  }

  /** The weighted sum of the equations, applied to one family of values. */
  function Relation(weight: int, m: Vec, x: Family, lanes: nat): int
    requires Shape(x, |m|, lanes)
  {
    Inner(Powers(weight, Offset(|m|, lanes)), Rows(x, m, lanes))
  }

  /** The aggregate point, or the aggregate blinding when the family holds blindings. */
  method Aggregate(q: int, weight: int, m: Vec, x: Family, lanes: nat) returns (total: int)
    requires q > 1 && Shape(x, |m|, lanes)
    ensures total == Relation(weight, m, x, lanes) % q
  {
    hide Inner, LaneRows, BorrowCoefficients;
    var size := Offset(|m|, lanes);
    var w := RangeMethods.ScalarPowers(q, weight, size);
    var scalar, complement, borrow, generator := Coefficients(w, m, lanes);
    total := InnerProduct(q, scalar + complement + borrow + [generator], x.s + x.c + x.b + [x.unit]);
    InnerConcat(scalar + complement + borrow, x.s + x.c + x.b, [generator], [x.unit]);
    InnerConcat(scalar + complement, x.s + x.c, borrow, x.b);
    InnerConcat(scalar, x.s, complement, x.c);
    InnerSingle(generator, x.unit);
    InnerScale(-1, w, x.s);
    InnerScale(-1, w, x.c);
    Regroup(x, m, w, lanes);
    assert w[..size] == w && x.s[..size] == x.s && x.c[..size] == x.c && x.b[..Offset(|m| - 1, lanes)] == x.b;
    var rows := Rows(x, m, lanes);
    CongVRefl(q, rows);
    InnerCong(q, w, Powers(weight, size), rows, rows);
  }

  function Statement(hash: Digest, setDigest: seq<int>, link: seq<Point>, complement: seq<Point>,
                     borrow: seq<Point>): seq<int> {
    hash("canonical-comparator/statement", setDigest + link + complement + borrow)
  }

  function Subproof(hash: Digest, statement: seq<int>, domain: string): seq<int> {
    hash("compact-fallback/" + domain, statement)
  }

  function WeightOf(q: int, oracle: Oracle, statement: seq<int>): int
    requires q > 0
  {
    oracle("canonical-comparator/weight", statement) % q
  }

  function ChallengeOf(q: int, oracle: Oracle, statement: seq<int>, aggregate: Point, t: Point): int
    requires q > 0
  {
    oracle("canonical-comparator/challenge", statement + [aggregate, t]) % q
  }

  /** The final check: the aggregate is a known multiple of the blinding base. */
  predicate RelationHolds(q: int, blind: Point, aggregate: Point, t: Point, z: Scalar, challenge: int)
    requires q > 0
  {
    Cong(q, blind * z, t + aggregate * challenge)
  }

  predicate Sized(link: seq<Point>, complement: seq<Point>, borrow: seq<Point>, chunks: nat, lanes: nat) {
    chunks > 0 && |link| == |complement| == Offset(chunks, lanes) && |borrow| == Offset(chunks - 1, lanes)
  }

  /** What an accepted comparator proof satisfies; `m` holds the digits of `q - 1`. */
  ghost predicate Accepts(q: int, oracle: Oracle, hash: Digest, bases: RangeProof.Bases, setDigest: seq<int>,
                          link: seq<Point>, chunks: nat, lanes: nat, proof: Proof)
    requires q > 1
  {
    && Sized(link, proof.complement, proof.borrow, chunks, lanes)
    && var statement := Statement(hash, setDigest, link, proof.complement, proof.borrow);
    var weight := WeightOf(q, oracle, statement);
    var m := DigitsOf(RADIX, q - 1, chunks);
    var aggregate := Relation(weight, m, Points(bases, link, proof.complement, proof.borrow), lanes) % q;
    var challenge := ChallengeOf(q, oracle, statement, aggregate, proof.tRelation);
    && RangeProof.Accepts(q, oracle, bases, Subproof(hash, statement, "complement-range"), proof.complement,
                          proof.complementRange, 8)
    && RangeProof.Accepts(q, oracle, bases, Subproof(hash, statement, "borrow-range"), proof.borrow,
                          proof.borrowRange, 1)
    && q - 1 < Power(RADIX, chunks)
    && weight != 0 && challenge != 0
    && RelationHolds(q, bases.blind, aggregate, proof.tRelation, proof.zRelation, challenge)
  }

  /** The proof has one complement per digit, one borrow less per lane, and neither challenge is zero. */
  lemma AcceptedSizes(q: int, oracle: Oracle, hash: Digest, bases: RangeProof.Bases, setDigest: seq<int>, link: seq<Point>,
                      chunks: nat, lanes: nat, proof: Proof)
    requires q > 1 && Accepts(q, oracle, hash, bases, setDigest, link, chunks, lanes, proof)
    ensures chunks > 0 && |link| == |proof.complement| == lanes * chunks && |proof.borrow| == lanes * (chunks - 1)
    ensures q <= Power(256, chunks) && WeightOf(q, oracle, Statement(hash, setDigest, link, proof.complement, proof.borrow)) != 0
  {
    hide RangeProof.Accepts, Relation, DigitsOf, Power, RelationHolds;
    OffsetProduct(chunks, lanes);
    OffsetProduct(chunks - 1, lanes);
  }

  method Verify(q: int, oracle: Oracle, hash: Digest, bases: RangeProof.Bases, setDigest: seq<int>, link: seq<Point>,
                chunks: nat, lanes: nat, proof: Proof) returns (ok: bool)
    requires Prime(q) && WellSized(hash)
    ensures ok <==> Accepts(q, oracle, hash, bases, setDigest, link, chunks, lanes, proof)
  {
    hide RangeProof.Accepts, Relation, Power, DigitsOf, Eval, InRadix;
    OffsetProduct(chunks, lanes);
    if chunks == 0 {
      return false;
    }
    OffsetProduct(chunks - 1, lanes);
    if |link| != lanes * chunks || |proof.complement| != lanes * chunks || |proof.borrow| != lanes * (chunks - 1) {
      return false;
    }
    var statement := Statement(hash, setDigest, link, proof.complement, proof.borrow);
    var complementOk := RangeMethods.Verify(q, oracle, bases, Subproof(hash, statement, "complement-range"),
                                            proof.complement, proof.complementRange, 8);
    if !complementOk {
      return false;
    }
    var borrowOk := RangeMethods.Verify(q, oracle, bases, Subproof(hash, statement, "borrow-range"), proof.borrow,
                                        proof.borrowRange, 1);
    if !borrowOk {
      return false;
    }
    var m := ModulusDigits(q, chunks);
    if m == None {
      return false;
    }
    RadixUnique(RADIX, m.value);
    var weight := WeightOf(q, oracle, statement);
    if weight == 0 {
      return false;
    }
    var aggregate := Aggregate(q, weight, m.value, Points(bases, link, proof.complement, proof.borrow), lanes);
    var challenge := ChallengeOf(q, oracle, statement, aggregate, proof.tRelation);
    if challenge == 0 {
      return false;
    }
    ok := bases.blind * proof.zRelation % q == (proof.tRelation + aggregate * challenge) % q;
  }

  // ---------------------------------------------------------------- honest proofs

  /** Honest openings make the aggregate the aggregate blinding times the blinding base. */
  lemma HonestAggregate(q: int, G: Point, H: Point, weight: int, m: Vec, x: Family, v: Family, r: Family, lanes: nat)
    requires q >= 2 * RADIX && InRadix(RADIX, m) && Eval(m, RADIX) == q - 1
    requires Opened(q, G, H, x, v, r) && Shape(x, |m|, lanes) && DigitsInRange(v)
    requires forall k :: 0 <= k < lanes ==> CanonicalLane(q, m, v, k)
    ensures Shape(r, |m|, lanes) && Cong(q, Relation(weight, m, x, lanes), H * Relation(weight, m, r, lanes))
  {
    hide CanonicalLane, DigitsInRange, RowsOfLane, OpensTo, InRadix, Powers, Eval;
    var w := Powers(weight, Offset(|m|, lanes));
    RowsOpen(q, G, H, m, x, v, r, lanes);
    SumOpens(q, G, H, w, Rows(x, m, lanes), Rows(v, m, lanes), Rows(r, m, lanes), |w|);
    CanonicalVanishes(q, m, v, lanes, w);
    OpensZero(q, G, H, Inner(w, Rows(x, m, lanes)), Inner(w, Rows(v, m, lanes)), Inner(w, Rows(r, m, lanes)));
  }

  lemma OpensZero(q: int, G: Point, H: Point, p: int, v: int, r: int)
    requires q > 0 && OpensTo(q, G, H, p, v, r) && v % q == 0
    ensures Cong(q, p, H * r)
  {
    CongMulLeft(q, G, v, 0);
    CongAdd(q, G * v, 0, H * r, H * r);
  }

  /** The response computed from the aggregate blinding passes the final check. */
  lemma HonestRelation(q: int, H: Point, aggregate: Point, blinding: Scalar, k: Scalar, challenge: int)
    requires q > 0 && Cong(q, aggregate, H * blinding)
    ensures RelationHolds(q, H, aggregate, H * k % q, (challenge * blinding + k) % q, challenge)
  {
    var z := challenge * blinding + k;
    ModMul(q, H, z);
    assert (H * (z % q)) % q == (H * z) % q;
    ModAdd(q, H * k, aggregate * challenge);
    CongMul(q, aggregate, H * blinding, challenge, challenge);
    CongAdd(q, H * k, H * k, aggregate * challenge, (H * blinding) * challenge);
    assert H * z == H * k + (H * blinding) * challenge by {
      assert H * (challenge * blinding) == (H * blinding) * challenge;
    }
  }

  /** Two accepted responses to one first move: the aggregate is a multiple of the blinding base. */
  lemma RelationExtracts(q: int, H: Point, aggregate: Point, t: Point, z: Scalar, z': Scalar, e: int, e': int)
    requires Prime(q) && !Cong(q, e, e')
    requires RelationHolds(q, H, aggregate, t, z, e) && RelationHolds(q, H, aggregate, t, z', e')
    ensures Cong(q, aggregate, H * ((z - z') * Inv(q, e - e')))
  {
    var d, i := e - e', Inv(q, e - e');
    CongSub(q, H * z, t + aggregate * e, H * z', t + aggregate * e');
    CongZero(q, e, e');
    InvCorrect(q, d);
    DifferenceOfResponses(H, aggregate, t, z, z', e, e');
    CongMulLeft(q, i, H * (z - z'), aggregate * d);
    RegroupInverse(H, aggregate, z - z', d, i);
    UnitFactor(q, d * i, aggregate);
  }

  lemma DifferenceOfResponses(H: int, a: int, t: int, z: int, z': int, e: int, e': int)
    ensures H * z - H * z' == H * (z - z') && (t + a * e) - (t + a * e') == a * (e - e')
  {}

  lemma RegroupInverse(H: int, a: int, y: int, d: int, i: int)
    ensures i * (H * y) == H * (y * i) && i * (a * d) == (d * i) * a
  {}

  // ---------------------------------------------------------------- the prover

  /** Everything the prover draws at random. */
  datatype Coins = Coins(complement: Vec, borrow: Vec, complementRange: RangeProof.Coins, borrowRange: RangeProof.Coins,
                         k: Scalar)

  /** Lane `k` of the digits writes the canonical scalar of that lane. */
  ghost predicate WritesScalar(q: int, digits: Vec, chunks: nat, scalars: seq<nat>, k: nat) {
    k < |scalars| && Offset(chunks, k + 1) <= |digits| &&
    scalars[k] < q && Eval(LaneAt(digits, chunks, k), RADIX) == scalars[k]
  }

  lemma AppendLane(q: int, m: Vec, v: Family, n: nat, l: Family)
    requires Shape(v, |m|, n) && Shape(l, |m|, 1) && v.unit == 1
    ensures var v' := Family(1, v.s + l.s, v.c + l.c, v.b + l.b);
            Shape(v', |m|, n + 1) &&
            LaneFamily(v', |m|, n) == Family(1, l.s, l.c, l.b) &&
            forall k :: 0 <= k < n ==> CanonicalLane(q, m, v, k) ==> CanonicalLane(q, m, v', k)
  {
    hide LaneAt, Eval, BorrowChain;
    var v' := Family(1, v.s + l.s, v.c + l.c, v.b + l.b);
    assert Offset(|m|, 1) == |m| && Offset(|m| - 1, 1) == |m| - 1;
    LaneOfAppend(v.s, l.s, |m|, n);
    LaneOfAppend(v.c, l.c, |m|, n);
    LaneOfAppend(v.b, l.b, |m| - 1, n);
    forall k | 0 <= k < n && CanonicalLane(q, m, v, k) ensures CanonicalLane(q, m, v', k) {
      CoversMono(v', |m|, k + 1, n);
      LaneBeforeAppend(v.s, l.s, |m|, k);
      LaneBeforeAppend(v.c, l.c, |m|, k);
      LaneBeforeAppend(v.b, l.b, |m| - 1, k);
    }
  }

  lemma LaneOfAppend(v: Vec, l: Vec, width: nat, n: nat)
    requires |v| == Offset(width, n) && |l| == width
    ensures LaneAt(v + l, width, n) == l
  {}

  lemma LaneBeforeAppend(v: Vec, l: Vec, width: nat, k: nat)
    requires Offset(width, k + 1) <= |v|
    ensures LaneAt(v + l, width, k) == LaneAt(v, width, k)
  {}

  /** The complements and borrows of all lanes; they exist exactly when the digits write the scalars. */
  method Openings(q: int, m: Vec, scalars: seq<nat>, digits: Vec) returns (r: Option<(Vec, Vec)>)
    requires q > 1 && |m| > 0 && InRadix(RADIX, m) && Eval(m, RADIX) == q - 1
    requires InRadix(RADIX, digits) && |digits| == Offset(|m|, |scalars|)
    ensures r.Some? <==> forall k :: 0 <= k < |scalars| ==> WritesScalar(q, digits, |m|, scalars, k)
    ensures r.Some? ==>
              var v := Family(1, digits, r.value.0, r.value.1);
              Shape(v, |m|, |scalars|) && DigitsInRange(v) && forall k :: 0 <= k < |scalars| ==> CanonicalLane(q, m, v, k)
  {
    hide CanonicalLane, Eval, Power, LaneFamily, BorrowChain;
    var complements: Vec, borrows: Vec := [], [];
    ghost var v := Family(1, [], [], []);
    RadixBounds(RADIX, m);
    for lane := 0 to |scalars|
      invariant Offset(|m|, lane) <= |digits|
      invariant v == Family(1, digits[..Offset(|m|, lane)], complements, borrows)
      invariant Shape(v, |m|, lane) && DigitsInRange(v)
      invariant forall k :: 0 <= k < lane ==> CanonicalLane(q, m, v, k)
      invariant forall k :: 0 <= k < lane ==> WritesScalar(q, digits, |m|, scalars, k)
    {
      OffsetMono(|m|, lane + 1, |scalars|);
      var s := digits[Offset(|m|, lane)..Offset(|m|, lane) + |m|];
      assert s == LaneAt(digits, |m|, lane);
      var c := ComplementDigits(q, scalars[lane], |m|);
      if c == None {
        assert !WritesScalar(q, digits, |m|, scalars, lane);
        return None;
      }
      var b := Borrows(m, s, c.value);
      if b == None {
        assert !WritesScalar(q, digits, |m|, scalars, lane);
        return None;
      }
      ghost var l := Family(1, s, c.value, b.value);
      AppendLane(q, m, v, lane, l);
      NewLane(q, m, s, c.value, b.value);
      ghost var v' := Family(1, v.s + l.s, v.c + l.c, v.b + l.b);
      LaneIsCanonical(q, m, v', lane);
      PrefixStep(digits, |m|, lane + 1);
      complements, borrows := complements + c.value, borrows + b.value;
      v := v';
    }
    assert digits[..Offset(|m|, |scalars|)] == digits;
    r := Some((complements, borrows));
  }

  lemma NewLane(q: int, m: Vec, s: Vec, c: Vec, b: Vec)
    requires |m| == |s| == |c| == |b| + 1 && BalancedLane(m, s, c, b)
    requires InRadix(RADIX, m) && InRadix(RADIX, s) && InRadix(RADIX, c) && InRadix(2, b)
    ensures BorrowChain(m, s, c, 0) == Some(b) && Eval(s, RADIX) >= 0 && Eval(c, RADIX) >= 0
  {
    BalancedGivesBorrows(m, s, c, b, 0);
    assert m[0..] == m && s[0..] == s && c[0..] == c && b[0..] == b;
    RadixBounds(RADIX, s);
    RadixBounds(RADIX, c);
  }

  lemma LaneIsCanonical(q: int, m: Vec, v: Family, k: nat)
    requires Covers(v, |m|, k + 1)
    requires var l := LaneFamily(v, |m|, k);
             Eval(l.s, RADIX) >= 0 && Eval(l.c, RADIX) >= 0 && Eval(l.s, RADIX) + Eval(l.c, RADIX) == q - 1 &&
             BorrowChain(m, l.s, l.c, 0) == Some(l.b)
    ensures CanonicalLane(q, m, v, k)
  {}

  ghost predicate CommitsTo(q: int, bases: RangeProof.Bases, points: seq<Point>, values: Vec, blindings: Vec)
    requires q > 0
  {
    |points| == |values| == |blindings| &&
    forall i :: 0 <= i < |points| ==> points[i] == RangeProof.Commitment(q, bases, values[i], blindings[i])
  }

  method Commit(q: int, bases: RangeProof.Bases, values: Vec, blindings: Vec) returns (points: seq<Point>)
    requires q > 1 && |values| == |blindings|
    ensures points == Commitments(q, bases, values, blindings) && CommitsTo(q, bases, points, values, blindings)
  {
    hide RangeProof.Commitment;
    points := [];
    for i := 0 to |values|
      invariant |points| == i
      invariant forall k :: 0 <= k < i ==> points[k] == RangeProof.Commitment(q, bases, values[k], blindings[k])
    {
      var point := RangeMethods.PairCommit(q, bases, values[i], blindings[i]);
      points := points + [point];
    }
  }

  function Commitments(q: int, bases: RangeProof.Bases, values: Vec, blindings: Vec): (r: seq<Point>)
    requires q > 0 && |values| == |blindings|
    ensures |r| == |values|
  {
    seq(|values|, i requires 0 <= i < |values| => RangeProof.Commitment(q, bases, values[i], blindings[i]))
  }

  /** The honest range proof for values of that width, `None` when the count is not supported. */
  ghost function HonestRange(q: int, oracle: Oracle, bases: RangeProof.Bases, statement: seq<int>, points: seq<Point>,
                             values: seq<nat>, blindings: Vec, bits: nat, coins: RangeProof.Coins)
    : Option<RangeProof.Proof>
    requires q > 1 && |points| == |values| == |blindings| && CoinsFit(coins, |values|, bits)
  {
    if RangeProof.Dimensions(|values|, bits).None? then None
    else RangeProof.HonestProof(q, oracle, bases, statement, points, values, blindings, bits, coins)
  }

  /** The proof an honest prover sends for opened lanes `v`, `None` when some challenge is zero. */
  ghost function HonestProof(q: int, oracle: Oracle, hash: Digest, bases: RangeProof.Bases, setDigest: seq<int>,
                             link: seq<Point>, m: Vec, lanes: nat, v: Family, blindings: Vec, coins: Coins)
    : Option<Proof>
    requires q > 1 && Shape(v, |m|, lanes) && DigitsInRange(v) && AllCoinsFit(coins, |m|, lanes)
    requires |link| == |blindings| == |v.s|
  {
    var complement, borrow := Commitments(q, bases, v.c, coins.complement), Commitments(q, bases, v.b, coins.borrow);
    var statement := Statement(hash, setDigest, link, complement, borrow);
    var complementRange := HonestRange(q, oracle, bases, Subproof(hash, statement, "complement-range"), complement, v.c,
                                       coins.complement, 8, coins.complementRange);
    var borrowRange := HonestRange(q, oracle, bases, Subproof(hash, statement, "borrow-range"), borrow, v.b,
                                   coins.borrow, 1, coins.borrowRange);
    var weight := WeightOf(q, oracle, statement);
    if complementRange.None? || borrowRange.None? || weight == 0 then None
    else
      var aggregate := Relation(weight, m, Points(bases, link, complement, borrow), lanes) % q;
      var blinding := Relation(weight, m, Family(0, blindings, coins.complement, coins.borrow), lanes) % q;
      var t := bases.blind * coins.k % q;
      var challenge := ChallengeOf(q, oracle, statement, aggregate, t);
      if challenge == 0 then None
      else Some(Proof(complement, borrow, complementRange.value, borrowRange.value, t,
                      (challenge * blinding + coins.k) % q))
  }

  lemma CommitsSized(q: int, bases: RangeProof.Bases, points: seq<Point>, values: Vec, blindings: Vec)
    requires q > 0 && CommitsTo(q, bases, points, values, blindings)
    ensures |points| == |values| == |blindings|
  {}

  lemma CommitsOpen(q: int, bases: RangeProof.Bases, points: seq<Point>, values: Vec, blindings: Vec)
    requires q > 0 && CommitsTo(q, bases, points, values, blindings)
    ensures OpenedVec(q, bases.value, bases.blind, points, values, blindings)
  {
    forall i | 0 <= i < |points| ensures OpensTo(q, bases.value, bases.blind, points[i], values[i], blindings[i]) {
      ModCong(q, bases.value * values[i] + bases.blind * blindings[i]);
    }
  }

  method ProveRange(q: int, oracle: Oracle, bases: RangeProof.Bases, statement: seq<int>, points: seq<Point>,
                    values: Vec, blindings: Vec, bits: nat, coins: RangeProof.Coins)
    returns (r: Option<RangeProof.Proof>)
    requires Prime(q) && CommitsTo(q, bases, points, values, blindings)
    requires InRadix(Bits.Pow2(bits), values)
    requires CoinsFit(coins, |values|, bits) && |statement| == 32
    ensures r == HonestRange(q, oracle, bases, statement, points, values, blindings, bits, coins)
    ensures r.Some? ==> RangeProof.Accepts(q, oracle, bases, statement, points, r.value, bits)
  {
    hide RangeProof.Accepts, RangeProof.Dimensions, RangeProof.HonestProof;
    var naturals: seq<nat> := values;
    if |values| > 0 {
      assert RangeProof.GoodWitness(q, bases, points, naturals, blindings, bits);
    }
    Supported(q, oracle, bases, statement, points, bits);
    r := RangeMethods.Prove(q, oracle, bases, statement, points, naturals, blindings, bits, coins);
  }

  lemma Supported(q: int, oracle: Oracle, bases: RangeProof.Bases, statement: seq<int>, points: seq<Point>, bits: nat)
    requires q > 1
    ensures forall proof :: RangeProof.Accepts(q, oracle, bases, statement, points, proof, bits) ==>
              RangeProof.Dimensions(|points|, bits).Some?
    ensures |points| == 0 ==> RangeProof.Dimensions(|points|, bits).None?
  {}

  predicate CoinsFit(coins: RangeProof.Coins, count: nat, bits: nat) {
    RangeProof.Dimensions(count, bits).Some? ==>
      |coins.sL| == |coins.sR| == RangeProof.Dimensions(count, bits).value.1
  }

  predicate AllCoinsFit(coins: Coins, chunks: nat, lanes: nat) {
    chunks > 0 &&
    |coins.complement| == Offset(chunks, lanes) && |coins.borrow| == Offset(chunks - 1, lanes) &&
    CoinsFit(coins.complementRange, |coins.complement|, 8) && CoinsFit(coins.borrowRange, |coins.borrow|, 1)
  }

  /**
    The comparator prover.  The link commitments open to digits below 256; a proof is produced only
    when those digits write the canonical scalars, it is then the honest one, and it is accepted.
   */
  method Prove(q: int, oracle: Oracle, hash: Digest, bases: RangeProof.Bases, setDigest: seq<int>, link: seq<Point>,
               chunks: nat, scalars: seq<nat>, digits: Vec, blindings: Vec, coins: Coins)
    returns (r: Option<Proof>, ghost v: Family)
    requires Prime(q) && q >= 2 * RADIX && WellSized(hash)
    requires InRadix(RADIX, digits) && CommitsTo(q, bases, link, digits, blindings)
    requires AllCoinsFit(coins, chunks, |scalars|)
    ensures r.Some? ==> Accepts(q, oracle, hash, bases, setDigest, link, chunks, |scalars|, r.value)
    ensures r.Some? ==> forall k :: 0 <= k < |scalars| ==> WritesScalar(q, digits, chunks, scalars, k)
    ensures |digits| == Offset(chunks, |scalars|) && q - 1 < Power(RADIX, chunks) &&
            (forall k :: 0 <= k < |scalars| ==> WritesScalar(q, digits, chunks, scalars, k))
            ==> v.unit == 1 && v.s == digits && Shape(v, chunks, |scalars|) && DigitsInRange(v) &&
                var m := DigitsOf(RADIX, q - 1, chunks);
                (forall k :: 0 <= k < |scalars| ==> CanonicalLane(q, m, v, k)) &&
                r == HonestProof(q, oracle, hash, bases, setDigest, link, m, |scalars|, v, blindings, coins)
  {
    hide Accepts, HonestProof, CanonicalLane, WritesScalar, Power, Eval, CoinsFit, CommitsTo, WellSized;
    var lanes := |scalars|;
    CommitsSized(q, bases, link, digits, blindings);
    if |digits| != Offset(chunks, lanes) {
      return None, Family(1, [], [], []);
    }
    var m := ModulusDigits(q, chunks);
    if m == None {
      return None, Family(1, [], [], []);
    }
    var openings := Openings(q, m.value, scalars, digits);
    if openings == None {
      return None, Family(1, [], [], []);
    }
    RadixUnique(RADIX, m.value);
    var lanesOpened := Family(1, digits, openings.value.0, openings.value.1);
    v := lanesOpened;
    r := ProveOpened(q, oracle, hash, bases, setDigest, link, m.value, lanes, lanesOpened, blindings, coins);
  }

  /** The prover once every lane has its complement and borrows. */
  method ProveOpened(q: int, oracle: Oracle, hash: Digest, bases: RangeProof.Bases, setDigest: seq<int>,
                     link: seq<Point>, m: Vec, lanes: nat, v: Family, blindings: Vec, coins: Coins)
    returns (r: Option<Proof>)
    requires Prime(q) && q >= 2 * RADIX && WellSized(hash) && AllCoinsFit(coins, |m|, lanes)
    requires InRadix(RADIX, m) && Eval(m, RADIX) == q - 1 && m == DigitsOf(RADIX, q - 1, |m|)
    requires q - 1 < Power(RADIX, |m|) && CommitsTo(q, bases, link, v.s, blindings)
    requires v.unit == 1 && Shape(v, |m|, lanes) && DigitsInRange(v)
    requires forall k :: 0 <= k < lanes ==> CanonicalLane(q, m, v, k)
    ensures r == HonestProof(q, oracle, hash, bases, setDigest, link, m, lanes, v, blindings, coins)
    ensures r.Some? ==> Accepts(q, oracle, hash, bases, setDigest, link, |m|, lanes, r.value)
  {
    hide RangeProof.Accepts, Relation, CanonicalLane, Power, Eval, CoinsFit, RelationHolds, DigitsOf, WellSized, Offset,
      InRadix, HonestRange, Commitments;
    var complement := Commit(q, bases, v.c, coins.complement);
    var borrow := Commit(q, bases, v.b, coins.borrow);
    var statement := Statement(hash, setDigest, link, complement, borrow);
    var ranges := ProveRanges(q, oracle, hash, bases, statement, complement, borrow, v, coins);
    var weight := WeightOf(q, oracle, statement);
    if ranges == None || weight == 0 {
      return None;
    }
    var x := Points(bases, link, complement, borrow);
    var blinds := Family(0, blindings, coins.complement, coins.borrow);
    var aggregate := Aggregate(q, weight, m, x, lanes);
    var aggregateBlinding := Aggregate(q, weight, m, blinds, lanes);
    var t := bases.blind * coins.k % q;
    var challenge := ChallengeOf(q, oracle, statement, aggregate, t);
    if challenge == 0 {
      return None;
    }
    var z := (challenge * aggregateBlinding + coins.k) % q;
    FinalCheck(q, bases, weight, m, x, v, blinds, lanes, coins.k, challenge);
    r := Some(Proof(complement, borrow, ranges.value.0, ranges.value.1, t, z));
  }

  method ProveRanges(q: int, oracle: Oracle, hash: Digest, bases: RangeProof.Bases, statement: seq<int>,
                     complement: seq<Point>, borrow: seq<Point>, v: Family, coins: Coins)
    returns (r: Option<(RangeProof.Proof, RangeProof.Proof)>)
    requires Prime(q) && DigitsInRange(v)
    requires CommitsTo(q, bases, complement, v.c, coins.complement) && CommitsTo(q, bases, borrow, v.b, coins.borrow)
    requires CoinsFit(coins.complementRange, |v.c|, 8) && CoinsFit(coins.borrowRange, |v.b|, 1) && WellSized(hash)
    ensures var complementRange := HonestRange(q, oracle, bases, Subproof(hash, statement, "complement-range"),
                                               complement, v.c, coins.complement, 8, coins.complementRange);
            var borrowRange := HonestRange(q, oracle, bases, Subproof(hash, statement, "borrow-range"), borrow, v.b,
                                           coins.borrow, 1, coins.borrowRange);
            r == if complementRange.None? || borrowRange.None? then None
                 else Some((complementRange.value, borrowRange.value))
    ensures r.Some? ==>
              RangeProof.Accepts(q, oracle, bases, Subproof(hash, statement, "complement-range"), complement, r.value.0, 8) &&
              RangeProof.Accepts(q, oracle, bases, Subproof(hash, statement, "borrow-range"), borrow, r.value.1, 1)
  {
    hide RangeProof.Accepts, CoinsFit, HonestRange;
    assert Bits.Pow2(8) == RADIX && Bits.Pow2(1) == 2;
    var complementRange := ProveRange(q, oracle, bases, Subproof(hash, statement, "complement-range"), complement,
                                      v.c, coins.complement, 8, coins.complementRange);
    if complementRange == None {
      return None;
    }
    var borrowRange := ProveRange(q, oracle, bases, Subproof(hash, statement, "borrow-range"), borrow,
                                  v.b, coins.borrow, 1, coins.borrowRange);
    if borrowRange == None {
      return None;
    }
    r := Some((complementRange.value, borrowRange.value));
  }

  lemma FinalCheck(q: int, bases: RangeProof.Bases, weight: int, m: Vec, x: Family, v: Family, r: Family, lanes: nat,
                   k: Scalar, challenge: int)
    requires q >= 2 * RADIX && InRadix(RADIX, m) && Eval(m, RADIX) == q - 1
    requires x.unit == bases.value && v.unit == 1 && r.unit == 0
    requires CommitsTo(q, bases, x.s, v.s, r.s) && CommitsTo(q, bases, x.c, v.c, r.c) && CommitsTo(q, bases, x.b, v.b, r.b)
    requires Shape(x, |m|, lanes) && DigitsInRange(v) && forall j :: 0 <= j < lanes ==> CanonicalLane(q, m, v, j)
    ensures Shape(r, |m|, lanes)
    ensures RelationHolds(q, bases.blind, Relation(weight, m, x, lanes) % q, bases.blind * k % q,
                          (challenge * (Relation(weight, m, r, lanes) % q) + k) % q, challenge)
  {
    hide Relation, CanonicalLane, DigitsInRange, Eval, InRadix, CommitsTo, OpenedVec, RelationHolds;
    CommitsOpen(q, bases, x.s, v.s, r.s);
    CommitsOpen(q, bases, x.c, v.c, r.c);
    CommitsOpen(q, bases, x.b, v.b, r.b);
    HonestAggregate(q, bases.value, bases.blind, weight, m, x, v, r, lanes);
    var a, b := Relation(weight, m, x, lanes), Relation(weight, m, r, lanes);
    ReducedAggregate(q, bases.blind, a, b);
    HonestRelation(q, bases.blind, a % q, b % q, k, challenge);
  }

  lemma ReducedAggregate(q: int, H: Point, a: int, b: int)
    requires q > 0 && Cong(q, a, H * b)
    ensures Cong(q, a % q, H * (b % q))
  {
    ModCong(q, a);
    ModMul(q, H, b);
  }
}
