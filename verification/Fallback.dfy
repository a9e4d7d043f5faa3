/**
  The compact fallback proof of a leaf: the link proof, the range proof of its digit commitments and the
  canonical comparator, over one statement.  An honest dealer's fallback is accepted, and whatever its
  extracted openings are, the receiver decrypts the canonical scalar they write.
 */
module Fallback {
  import opened Common
  import opened Modular
  import opened Vectors
  import opened Polynomials
  import opened Comparator
  import opened ComparatorRows
  import Bits
  import RangeProof
  import RangeMethods
  import CP = ComparatorProof
  import CE = ChunkEncryption
  import RT = ChunkRoundTrip
  import DiscreteLog
  import LP = LinkProof
  import LM = LinkMethods

  datatype Proof = Proof(link: LP.Proof, digitRange: RangeProof.Proof, comparator: CP.Proof)

  datatype Coins = Coins(digitRange: RangeProof.Coins, comparator: CP.Coins)

  /** The digit commitments of all lanes, in order. */
  function LinkCommitments(lanes: seq<LP.LaneProof>): seq<Point> {
    if |lanes| == 0 then []
    else LinkCommitments(lanes[..|lanes| - 1]) + Commitments(lanes[|lanes| - 1].digits)
  }

  function Commitments(digits: seq<LP.DigitProof>): (r: seq<Point>)
    ensures |r| == |digits|
  {
    seq(|digits|, i requires 0 <= i < |digits| => digits[i].commitment)
  }

  method CollectCommitments(lanes: seq<LP.LaneProof>) returns (r: seq<Point>)
    ensures r == LinkCommitments(lanes)
  {
    r := [];
    for k := 0 to |lanes|
      invariant r == LinkCommitments(lanes[..k])
    {
      assert lanes[..k + 1][..k] == lanes[..k];
      ghost var before := r;
      var digits := lanes[k].digits;
      for i := 0 to |digits|
        invariant r == before + Commitments(digits)[..i]
      {
        r := r + [digits[i].commitment];
      }
      assert Commitments(digits)[..|digits|] == Commitments(digits);
    }
    assert lanes[..|lanes|] == lanes;
  }

  function SettingOf(q: int, bases: RangeProof.Bases, chunks: nat): LP.Setting {
    LP.Setting(q, bases.value, bases.blind, RADIX, chunks)
  }

  /** What an accepted fallback satisfies. */
  ghost predicate Accepts(q: int, oracle: Oracle, hash: CP.Digest, bases: RangeProof.Bases, leaf: LP.Leaf,
                          setDigest: seq<int>, chunks: nat, proof: Proof)
    requires q > 1
  {
    && LP.Accepts(SettingOf(q, bases, chunks), oracle, leaf, setDigest, proof.link)
    && var commitments := LinkCommitments(proof.link.lanes);
    var statement := CP.Statement(hash, setDigest, commitments, proof.comparator.complement, proof.comparator.borrow);
    && RangeProof.Accepts(q, oracle, bases, CP.Subproof(hash, statement, "scalar-digit-range"), commitments,
                          proof.digitRange, 8)
    && CP.Accepts(q, oracle, hash, bases, setDigest, commitments, chunks, |proof.link.lanes|, proof.comparator)
  }

  method Verify(q: int, oracle: Oracle, hash: CP.Digest, bases: RangeProof.Bases, leaf: LP.Leaf, setDigest: seq<int>,
                chunks: nat, proof: Proof) returns (ok: bool)
    requires Prime(q) && CP.WellSized(hash)
    ensures ok <==> Accepts(q, oracle, hash, bases, leaf, setDigest, chunks, proof)
  {
    hide LP.Accepts, RangeProof.Accepts, CP.Accepts, LinkCommitments;
    var linkOk := LM.Verify(SettingOf(q, bases, chunks), oracle, leaf, setDigest, proof.link);
    if !linkOk {
      return false;
    }
    var commitments := CollectCommitments(proof.link.lanes);
    var statement := CP.Statement(hash, setDigest, commitments, proof.comparator.complement, proof.comparator.borrow);
    var rangeOk := RangeMethods.Verify(q, oracle, bases, CP.Subproof(hash, statement, "scalar-digit-range"), commitments,
                                       proof.digitRange, 8);
    if !rangeOk {
      return false;
    }
    ok := CP.Verify(q, oracle, hash, bases, setDigest, commitments, chunks, |proof.link.lanes|, proof.comparator);
  }

  // ---------------------------------------------------------------- the honest dealer

  function DigitsOfInputs(inputs: seq<LM.LaneInput>, chunks: nat): (r: Vec)
    ensures |r| == Offset(chunks, |inputs|)
  {
    if |inputs| == 0 then []
    else DigitsOfInputs(inputs[..|inputs| - 1], chunks) + DigitsOf(RADIX, inputs[|inputs| - 1].w.scalar, chunks)
  }

  function Rhos(masks: seq<LM.DigitMask>): (r: Vec)
    ensures |r| == |masks|
  {
    seq(|masks|, i requires 0 <= i < |masks| => masks[i].rho)
  }

  function RhosOfInputs(inputs: seq<LM.LaneInput>): Vec {
    if |inputs| == 0 then [] else RhosOfInputs(inputs[..|inputs| - 1]) + Rhos(inputs[|inputs| - 1].mask.digits)
  }

  function Scalars(inputs: seq<LM.LaneInput>): (r: seq<nat>)
    ensures |r| == |inputs|
  {
    seq(|inputs|, i requires 0 <= i < |inputs| => inputs[i].w.scalar)
  }

  lemma {:induction false} DigitsInRadix(inputs: seq<LM.LaneInput>, chunks: nat)
    ensures InRadix(RADIX, DigitsOfInputs(inputs, chunks))
  {
    if |inputs| > 0 {
      DigitsInRadix(inputs[..|inputs| - 1], chunks);
      DigitsCorrect(RADIX, inputs[|inputs| - 1].w.scalar, chunks);
    }
  }

  /** The honest link commits to the digits of the scalars under the drawn blindings. */
  lemma {:induction false} LinkCommits(q: int, bases: RangeProof.Bases, feldman: bool, leaf: LP.Leaf, chunks: nat, e: int,
                                       inputs: seq<LM.LaneInput>, lanes: seq<LP.LaneProof>)
    requires q > 1 && |lanes| == |inputs|
    requires LM.GoodInputs(SettingOf(q, bases, chunks), feldman, leaf, inputs)
    requires forall k :: 0 <= k < |inputs| ==> lanes[k] == LM.AnswerOf(SettingOf(q, bases, chunks), feldman, leaf, e, inputs[k])
    ensures CP.CommitsTo(q, bases, LinkCommitments(lanes), DigitsOfInputs(inputs, chunks), RhosOfInputs(inputs))
  {
    hide Eval;
    if |inputs| > 0 {
      var n := |inputs| - 1;
      var s := SettingOf(q, bases, chunks);
      assert LM.GoodInputs(s, feldman, leaf, inputs[..n]) by {
        forall k | 0 <= k < n ensures LM.GoodInput(s, feldman, leaf, inputs[..n][k]) {
          assert LM.GoodInput(s, feldman, leaf, inputs[k]);
        }
      }
      LinkCommits(q, bases, feldman, leaf, chunks, e, inputs[..n], lanes[..n]);
      assert LM.GoodInput(s, feldman, leaf, inputs[n]);
      LaneCommits(q, bases, feldman, leaf, chunks, e, inputs[n], lanes[n]);
      CommitsConcat(q, bases, LinkCommitments(lanes[..n]), DigitsOfInputs(inputs[..n], chunks), RhosOfInputs(inputs[..n]),
                    Commitments(lanes[n].digits), DigitsOf(RADIX, inputs[n].w.scalar, chunks), Rhos(inputs[n].mask.digits));
    }
  }

  lemma CommitsConcat(q: int, bases: RangeProof.Bases, a: seq<Point>, v: Vec, r: Vec, b: seq<Point>, w: Vec, t: Vec)
    requires q > 0 && CP.CommitsTo(q, bases, a, v, r) && CP.CommitsTo(q, bases, b, w, t)
    ensures CP.CommitsTo(q, bases, a + b, v + w, r + t)
  {
    hide RangeProof.Commitment;
  }

  lemma LaneCommits(q: int, bases: RangeProof.Bases, feldman: bool, leaf: LP.Leaf, chunks: nat, e: int,
                    input: LM.LaneInput, lane: LP.LaneProof)
    requires q > 1 && LM.GoodInput(SettingOf(q, bases, chunks), feldman, leaf, input)
    requires lane == LM.AnswerOf(SettingOf(q, bases, chunks), feldman, leaf, e, input)
    ensures CP.CommitsTo(q, bases, Commitments(lane.digits), DigitsOf(RADIX, input.w.scalar, chunks), Rhos(input.mask.digits))
  {
    hide Eval;
  }

  /** The digits of the inputs write their scalars, lane by lane. */
  lemma {:induction false} InputsWrite(q: int, inputs: seq<LM.LaneInput>, chunks: nat)
    requires q < Power(RADIX, chunks) && forall k :: 0 <= k < |inputs| ==> inputs[k].w.scalar < q
    ensures forall k :: 0 <= k < |inputs| ==>
              CP.WritesScalar(q, DigitsOfInputs(inputs, chunks), chunks, Scalars(inputs), k)
  {
    hide Eval, Power, LaneAt;
    if |inputs| > 0 {
      var n := |inputs| - 1;
      var front, last := DigitsOfInputs(inputs[..n], chunks), DigitsOf(RADIX, inputs[n].w.scalar, chunks);
      InputsWrite(q, inputs[..n], chunks);
      DigitsCorrect(RADIX, inputs[n].w.scalar, chunks);
      CP.LaneOfAppend(front, last, chunks, n);
      forall k | 0 <= k < n ensures CP.WritesScalar(q, front + last, chunks, Scalars(inputs), k) {
        assert CP.WritesScalar(q, front, chunks, Scalars(inputs[..n]), k);
        CP.LaneBeforeAppend(front, last, chunks, k);
      }
    }
  }

  /** The comparator and the digit range an honest dealer sends for opened lanes `v`. */
  ghost function HonestDigits(q: int, oracle: Oracle, hash: CP.Digest, bases: RangeProof.Bases, setDigest: seq<int>,
                              commitments: seq<Point>, chunks: nat, lanes: nat, v: Family, rhos: Vec, coins: Coins)
    : Option<(RangeProof.Proof, CP.Proof)>
    requires q > 1 && chunks > 0 && Shape(v, chunks, lanes) && DigitsInRange(v) && |commitments| == |rhos| == |v.s|
    requires CP.AllCoinsFit(coins.comparator, chunks, lanes) && CP.CoinsFit(coins.digitRange, |v.s|, 8)
  {
    var comparator := CP.HonestProof(q, oracle, hash, bases, setDigest, commitments, DigitsOf(RADIX, q - 1, chunks), lanes, v,
                                     rhos, coins.comparator);
    if comparator.None? then None
    else
      var statement := CP.Statement(hash, setDigest, commitments, comparator.value.complement, comparator.value.borrow);
      var range := CP.HonestRange(q, oracle, bases, CP.Subproof(hash, statement, "scalar-digit-range"), commitments, v.s, rhos, 8,
                                  coins.digitRange);
      if range.None? then None else Some((range.value, comparator.value))
  }

  /** The openings of the honest lanes: the digits of the scalars, their complements and borrows. */
  ghost predicate HonestOpenings(q: int, chunks: nat, inputs: seq<LM.LaneInput>, v: Family) {
    q > 1 && chunks > 0 && v.unit == 1 && v.s == DigitsOfInputs(inputs, chunks) && Shape(v, chunks, |inputs|) && DigitsInRange(v) &&
    var m := DigitsOf(RADIX, q - 1, chunks);
    forall k :: 0 <= k < |inputs| ==> CanonicalLane(q, m, v, k)
  }

  /** The prover; it sends the honest proof whenever the witness opens the lanes, and that is accepted. */
  method Prove(q: int, oracle: Oracle, hash: CP.Digest, bases: RangeProof.Bases, leaf: LP.Leaf, setDigest: seq<int>,
               chunks: nat, inputs: seq<LM.LaneInput>, coins: Coins)
    returns (r: Option<Proof>, ghost v: Family)
    requires Prime(q) && q >= 2 * RADIX && CP.WellSized(hash) && q < Power(RADIX, chunks)
    requires forall k :: 0 <= k < |inputs| ==> inputs[k].w.scalar < q
    requires CP.AllCoinsFit(coins.comparator, chunks, |inputs|)
    requires CP.CoinsFit(coins.digitRange, Offset(chunks, |inputs|), 8)
    ensures r.Some? ==> Accepts(q, oracle, hash, bases, leaf, setDigest, chunks, r.value)
    ensures r.Some? ==> LM.GoodInputs(SettingOf(q, bases, chunks), false, leaf, inputs) &&
                        r.value.link == LM.HonestProof(SettingOf(q, bases, chunks), oracle, false, leaf, setDigest, inputs)
    ensures LM.GoodInputs(SettingOf(q, bases, chunks), false, leaf, inputs) && LM.InputShape(leaf, inputs) && |setDigest| == 32
            ==> HonestOpenings(q, chunks, inputs, v) &&
                var link := LM.HonestProof(SettingOf(q, bases, chunks), oracle, false, leaf, setDigest, inputs);
                var commitments, rhos := LinkCommitments(link.lanes), RhosOfInputs(inputs);
                |commitments| == |rhos| == |v.s| &&
                var digits := HonestDigits(q, oracle, hash, bases, setDigest, commitments, chunks, |inputs|, v, rhos, coins);
                r == if digits.None? then None else Some(Proof(link, digits.value.0, digits.value.1))
  {
    hide LP.Accepts, RangeProof.Accepts, CP.Accepts, LinkCommitments, LM.GoodInputs, LM.HonestProof, Power, CP.CommitsTo,
      CP.AllCoinsFit, CP.CoinsFit, DigitsOfInputs, RhosOfInputs, LM.InputShape, CP.WellSized;
    var s := SettingOf(q, bases, chunks);
    var link := LM.Prove(s, oracle, false, leaf, setDigest, inputs);
    if link == None {
      return None, Family(1, [], [], []);
    }
    var commitments := CollectCommitments(link.value.lanes);
    HonestCommits(q, oracle, bases, leaf, setDigest, chunks, inputs);
    var rest;
    rest, v := ProveDigits(q, oracle, hash, bases, setDigest, commitments, chunks, inputs, coins);
    CP.CommitsSized(q, bases, commitments, DigitsOfInputs(inputs, chunks), RhosOfInputs(inputs));
    if rest == None {
      return None, v;
    }
    r := Some(Proof(link.value, rest.value.0, rest.value.1));
  }

  lemma HonestCommits(q: int, oracle: Oracle, bases: RangeProof.Bases, leaf: LP.Leaf, setDigest: seq<int>, chunks: nat,
                      inputs: seq<LM.LaneInput>)
    requires q > 1 && LM.GoodInputs(SettingOf(q, bases, chunks), false, leaf, inputs)
    ensures var link := LM.HonestProof(SettingOf(q, bases, chunks), oracle, false, leaf, setDigest, inputs);
            |link.lanes| == |inputs| &&
            CP.CommitsTo(q, bases, LinkCommitments(link.lanes), DigitsOfInputs(inputs, chunks), RhosOfInputs(inputs))
  {
    hide LM.GoodInput, LM.AnswerOf, LinkCommitments, DigitsOfInputs, RhosOfInputs, CP.CommitsTo;
    var s := SettingOf(q, bases, chunks);
    var e := LP.Challenge(q, oracle, setDigest, LM.FirstProof(s, false, leaf, inputs));
    LinkCommits(q, bases, false, leaf, chunks, e, inputs, LM.HonestProof(s, oracle, false, leaf, setDigest, inputs).lanes);
  }

  /** The comparator and the digit range over the link's commitments. */
  method ProveDigits(q: int, oracle: Oracle, hash: CP.Digest, bases: RangeProof.Bases, setDigest: seq<int>,
                     commitments: seq<Point>, chunks: nat, inputs: seq<LM.LaneInput>, coins: Coins)
    returns (r: Option<(RangeProof.Proof, CP.Proof)>, ghost v: Family)
    requires Prime(q) && q >= 2 * RADIX && CP.WellSized(hash) && q < Power(RADIX, chunks)
    requires forall k :: 0 <= k < |inputs| ==> inputs[k].w.scalar < q
    requires CP.CommitsTo(q, bases, commitments, DigitsOfInputs(inputs, chunks), RhosOfInputs(inputs))
    requires CP.AllCoinsFit(coins.comparator, chunks, |inputs|)
    requires CP.CoinsFit(coins.digitRange, Offset(chunks, |inputs|), 8)
    ensures r.Some? ==>
              var statement := CP.Statement(hash, setDigest, commitments, r.value.1.complement, r.value.1.borrow);
              RangeProof.Accepts(q, oracle, bases, CP.Subproof(hash, statement, "scalar-digit-range"), commitments, r.value.0, 8) &&
              CP.Accepts(q, oracle, hash, bases, setDigest, commitments, chunks, |inputs|, r.value.1)
    ensures HonestOpenings(q, chunks, inputs, v) && |commitments| == |RhosOfInputs(inputs)| == |v.s|
    ensures r == HonestDigits(q, oracle, hash, bases, setDigest, commitments, chunks, |inputs|, v, RhosOfInputs(inputs), coins)
  {
    hide RangeProof.Accepts, CP.Accepts, CP.CommitsTo, CP.CoinsFit, RhosOfInputs, CP.HonestProof,
      CP.HonestRange, CP.WritesScalar, CanonicalLane, Power, DigitsOf;
    InputsWrite(q, inputs, chunks);
    CP.CommitsSized(q, bases, commitments, DigitsOfInputs(inputs, chunks), RhosOfInputs(inputs));
    var digits, rhos := DigitsOfInputs(inputs, chunks), RhosOfInputs(inputs);
    DigitsInRadix(inputs, chunks);
    var comparator;
    comparator, v := CP.Prove(q, oracle, hash, bases, setDigest, commitments, chunks, Scalars(inputs), digits, rhos,
                              coins.comparator);
    if comparator == None {
      return None, v;
    }
    var statement := CP.Statement(hash, setDigest, commitments, comparator.value.complement, comparator.value.borrow);
    assert Bits.Pow2(8) == RADIX;
    var digitRange := CP.ProveRange(q, oracle, bases, CP.Subproof(hash, statement, "scalar-digit-range"), commitments, digits,
                                    rhos, 8, coins.digitRange);
    if digitRange == None {
      return None, v;
    }
    r := Some((digitRange.value, comparator.value));
  }

  // ---------------------------------------------------------------- what openings guarantee

  /**
    Openings of a lane whose digits are bytes and write a canonical scalar: the receiver's only reading
    of the share is those digits, the decrypted scalar is exactly the number they write, and the public
    relation holds.
   */
  lemma OpenedLaneDecrypts(s: LP.Setting, feldman: bool, share: CE.Share, lane: LP.LaneProof, o: LP.Openings, sk: Scalar)
    requires Prime(s.q) && s.q >= 2 * RADIX && s.base == RADIX && s.G % s.q != 0 && Cong(s.q, s.G * sk, share.pk)
    requires LP.LaneOpened(s, feldman, share, lane, o) && |lane.digits| == |share.chunks|
    requires feldman ==> share.blinding == CE.Ciphertext(0, 0)
    requires InRadix(RADIX, o.digits) && Eval(o.digits, RADIX) <= s.q - 1
    ensures CE.Reads(s.q, s.G, sk, RADIX - 1, share, o.digits)
    ensures forall e, d :: CE.Reads(s.q, s.G, sk, RADIX - 1, share, e) && CE.Opens(s.q, s.G, sk, RADIX, share, e, d) ==>
              e == o.digits && d.scalar == Eval(o.digits, RADIX) && CE.VerifyRelation(s.q, s.G, share, d)
  {
    hide Eval, CE.Reads, CE.Opens, CE.VerifyRelation, LP.LaneOpened;
    LP.OpenedDecrypts(s, feldman, share, lane, o, sk);
    RadixBounds(RADIX, o.digits);
    ModSmall(s.q, Eval(o.digits, RADIX));
    RT.OneReading(s.q, s.G, s.H, sk, RADIX, RADIX - 1, share, o.digits, Eval(o.digits, RADIX), if feldman then 0 else o.blinding);
  }
}
