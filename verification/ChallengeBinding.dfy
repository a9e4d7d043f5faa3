/**
  What the Fiat-Shamir challenges bind.  A challenge that is the same under every oracle comes from the
  same messages: no message can be changed after its challenge is known.
 */
module ChallengeBinding {
  import opened Common
  import opened Modular
  import RangeProof
  import IPA = InnerProductArgument
  import CP = ComparatorProof
  import LP = LinkProof

  /** The oracle that singles out one label and transcript. */
  function Only(domain: string, t: Transcript): Oracle {
    (l, u) => if l == domain && u == t then 1 else 0
  }

  lemma OnlyOne(q: int, domain: string, t: Transcript, domain': string, t': Transcript)
    requires q > 1 && Only(domain, t)(domain, t) % q == Only(domain, t)(domain', t') % q
    ensures domain == domain' && t == t'
  {
    ModSmall(q, 1);
    ModSmall(q, 0);
  }

  // ---------------------------------------------------------------- the inner product

  lemma InnerChallengeBinds(q: int, t: Transcript, round: nat, left: Point, right: Point, t': Transcript, round': nat,
                            left': Point, right': Point)
    requires q > 1
    requires forall o: Oracle :: IPA.Challenge(q, o, t, round, left, right) == IPA.Challenge(q, o, t', round', left', right')
    ensures t == t' && round == round' && left == left' && right == right'
  {
    var u, u' := t + [round, left, right], t' + [round', left', right'];
    var o := Only("inner", u);
    assert IPA.Challenge(q, o, t, round, left, right) == IPA.Challenge(q, o, t', round', left', right');
    OnlyOne(q, "inner", u, "inner", u');
    Tails(t, [round, left, right], t', [round', left', right']);
  }

  /** Equal sequences with equally long ends have equal beginnings and ends. */
  lemma Tails(a: Transcript, b: Transcript, a': Transcript, b': Transcript)
    requires a + b == a' + b' && |b| == |b'|
    ensures a == a' && b == b'
  {
    assert a == (a + b)[..|a|] && b == (a + b)[|a|..];
    assert a' == (a' + b')[..|a'|] && b' == (a' + b')[|a'|..];
  }

  function RoundChallenge(q: int, o: Oracle, t: Transcript, round: nat, left: seq<Point>, right: seq<Point>, k: nat): int
    requires q > 0 && k < |left| == |right|
  {
    IPA.Challenges(q, o, t, round, left, right)[k]
  }

  /** The challenge of round `k` binds the transcript and every round point up to its own. */
  lemma {:induction false} RoundsBind(q: int, t: Transcript, round: nat, left: seq<Point>, right: seq<Point>, t': Transcript,
                                      left': seq<Point>, right': seq<Point>, k: nat)
    requires q > 1 && |left| == |right| && |left'| == |right'| && k < |left| && k < |left'|
    requires forall o: Oracle ::
               RoundChallenge(q, o, t, round, left, right, k) == RoundChallenge(q, o, t', round, left', right', k)
    ensures t == t' && left[..k + 1] == left'[..k + 1] && right[..k + 1] == right'[..k + 1]
    decreases k
  {
    if k == 0 {
      forall o: Oracle ensures IPA.Challenge(q, o, t, round, left[0], right[0]) == IPA.Challenge(q, o, t', round, left'[0], right'[0]) {
        assert RoundChallenge(q, o, t, round, left, right, 0) == RoundChallenge(q, o, t', round, left', right', 0);
      }
      InnerChallengeBinds(q, t, round, left[0], right[0], t', round, left'[0], right'[0]);
    } else {
      var u, u' := t + [left[0], right[0]], t' + [left'[0], right'[0]];
      var next, j := round + 1, k - 1;
      var l, r, l', r' := left[1..], right[1..], left'[1..], right'[1..];
      forall o: Oracle ensures RoundChallenge(q, o, u, next, l, r, j) == RoundChallenge(q, o, u', next, l', r', j) {
        assert RoundChallenge(q, o, t, round, left, right, k) == RoundChallenge(q, o, t', round, left', right', k);
      }
      RoundsBind(q, u, next, l, r, u', l', r', j);
      Tails(t, [left[0], right[0]], t', [left'[0], right'[0]]);
      Rejoin(left, left', k);
      Rejoin(right, right', k);
    }
  }

  lemma Rejoin(v: seq<Point>, w: seq<Point>, k: nat)
    requires 0 < k < |v| && k < |w| && v[0] == w[0] && v[1..][..k] == w[1..][..k]
    ensures v[..k + 1] == w[..k + 1]
  {
    assert v[..k + 1] == [v[0]] + v[1..][..k] && w[..k + 1] == [w[0]] + w[1..][..k];
  }

  // ---------------------------------------------------------------- the range proof

  /** The transcript of a 32-byte statement determines it, the sizes and the commitments. */
  lemma BaseBinds(statement: seq<int>, commitments: seq<Point>, count: nat, bits: nat, statement': seq<int>,
                  commitments': seq<Point>, count': nat, bits': nat)
    requires |statement| == |statement'| == 32
    requires RangeProof.BaseTranscript(statement, commitments, count, bits)
             == RangeProof.BaseTranscript(statement', commitments', count', bits')
    ensures statement == statement' && commitments == commitments' && count == count' && bits == bits'
  {
    var t, t' := statement + [count, bits] + commitments, statement' + [count', bits'] + commitments';
    assert statement == t[..32] && statement' == t'[..32];
    assert t[32] == count && t'[32] == count' && t[33] == bits && t'[33] == bits';
    assert commitments == t[34..] && commitments' == t'[34..];
  }

  /** The first challenge binds the statement and both vector commitments. */
  lemma YBinds(q: int, t: Transcript, a: Point, s: Point, t': Transcript, a': Point, s': Point)
    requires q > 1 && forall o: Oracle :: RangeProof.ChallengeY(q, o, t, a, s) == RangeProof.ChallengeY(q, o, t', a', s')
    ensures t == t' && a == a' && s == s'
  {
    var o := Only("y", t + [a, s]);
    assert RangeProof.ChallengeY(q, o, t, a, s) == RangeProof.ChallengeY(q, o, t', a', s');
    OnlyOne(q, "y", t + [a, s], "y", t' + [a', s']);
    Tails(t, [a, s], t', [a', s']);
  }

  lemma ZBinds(q: int, t: Transcript, a: Point, s: Point, t': Transcript, a': Point, s': Point)
    requires q > 1 && forall o: Oracle :: RangeProof.ChallengeZ(q, o, t, a, s) == RangeProof.ChallengeZ(q, o, t', a', s')
    ensures t == t' && a == a' && s == s'
  {
    var u := t + [a, s, 0];
    var o := Only("z", u);
    ModSmall(q, 0);
    assert RangeProof.ChallengeZ(q, o, t, a, s) == RangeProof.ChallengeZ(q, o, t', a', s');
    OnlyOne(q, "z", u, "z", t' + [a', s', 0]);
    Tails(t, [a, s, 0], t', [a', s', 0]);
  }

  /** The third challenge also binds both polynomial commitments. */
  lemma XBinds(q: int, t: Transcript, a: Point, s: Point, t1: Point, t2: Point, t': Transcript, a': Point, s': Point,
               t1': Point, t2': Point)
    requires q > 1
    requires forall o: Oracle ::
               RangeProof.ChallengeX(q, o, t, a, s, t1, t2) == RangeProof.ChallengeX(q, o, t', a', s', t1', t2')
    ensures t == t' && a == a' && s == s' && t1 == t1' && t2 == t2'
  {
    var u := t + [a, s, 0, 0, t1, t2];
    var o := Only("x", u);
    ModSmall(q, 0);
    assert RangeProof.ChallengeX(q, o, t, a, s, t1, t2) == RangeProof.ChallengeX(q, o, t', a', s', t1', t2');
    OnlyOne(q, "x", u, "x", t' + [a', s', 0, 0, t1', t2']);
    Tails(t, [a, s, 0, 0, t1, t2], t', [a', s', 0, 0, t1', t2']);
  }

  /** The last one binds the three answers as well. */
  lemma WBinds(q: int, t: Transcript, a: Point, s: Point, t1: Point, t2: Point, tauX: Scalar, mu: Scalar, tHat: Scalar,
               t': Transcript, a': Point, s': Point, t1': Point, t2': Point, tauX': Scalar, mu': Scalar, tHat': Scalar)
    requires q > 1
    requires forall o: Oracle ::
               RangeProof.ChallengeW(q, o, RangeProof.Moves(q, o, t, a, s, t1, t2, tauX, mu, tHat)) ==
               RangeProof.ChallengeW(q, o, RangeProof.Moves(q, o, t', a', s', t1', t2', tauX', mu', tHat'))
    ensures t == t' && a == a' && s == s' && t1 == t1' && t2 == t2' && tauX == tauX' && mu == mu' && tHat == tHat'
  {
    var m, m' := [a, s, 0, 0, 0, tauX, mu, tHat, t1, t2], [a', s', 0, 0, 0, tauX', mu', tHat', t1', t2'];
    var o := Only("w", t + m);
    ModSmall(q, 0);
    assert RangeProof.Moves(q, o, t, a, s, t1, t2, tauX, mu, tHat) == t + m;
    assert RangeProof.Moves(q, o, t', a', s', t1', t2', tauX', mu', tHat') == t' + m';
    assert RangeProof.ChallengeW(q, o, t + m) == RangeProof.ChallengeW(q, o, t' + m');
    OnlyOne(q, "w", t + m, "w", t' + m');
    Tails(t, m, t', m');
  }

  // ---------------------------------------------------------------- comparator and link

  lemma ComparatorBinds(q: int, statement: seq<int>, aggregate: Point, t: Point, statement': seq<int>, aggregate': Point, t': Point)
    requires q > 1
    requires forall o: Oracle :: CP.ChallengeOf(q, o, statement, aggregate, t) == CP.ChallengeOf(q, o, statement', aggregate', t')
    ensures statement == statement' && aggregate == aggregate' && t == t'
  {
    var domain := "canonical-comparator/challenge";
    var o := Only(domain, statement + [aggregate, t]);
    assert CP.ChallengeOf(q, o, statement, aggregate, t) == CP.ChallengeOf(q, o, statement', aggregate', t');
    OnlyOne(q, domain, statement + [aggregate, t], domain, statement' + [aggregate', t']);
    Tails(statement, [aggregate, t], statement', [aggregate', t']);
  }

  lemma WeightBinds(q: int, statement: seq<int>, statement': seq<int>)
    requires q > 1 && forall o: Oracle :: CP.WeightOf(q, o, statement) == CP.WeightOf(q, o, statement')
    ensures statement == statement'
  {
    var o := Only("canonical-comparator/weight", statement);
    assert CP.WeightOf(q, o, statement) == CP.WeightOf(q, o, statement');
    OnlyOne(q, "canonical-comparator/weight", statement, "canonical-comparator/weight", statement');
  }

  /** The first moves of a lane, without the answers. */
  ghost predicate SameMoves(feldman: bool, a: LP.LaneProof, b: LP.LaneProof) {
    && a.receiver == b.receiver && |a.digits| == |b.digits|
    && (forall i :: 0 <= i < |a.digits| ==> LP.SameDigitMove(a.digits[i], b.digits[i]))
    && a.tEvaluation == b.tEvaluation && (!feldman ==> a.tBlindingCoin == b.tBlindingCoin && a.tBlinding == b.tBlinding)
  }

  lemma {:induction false} DigitMovesBind(a: seq<LP.DigitProof>, b: seq<LP.DigitProof>)
    requires |a| == |b|
    ensures |LP.DigitMoves(a)| == |LP.DigitMoves(b)| == 4 * |a|
    ensures LP.DigitMoves(a) == LP.DigitMoves(b) ==> forall i :: 0 <= i < |a| ==> LP.SameDigitMove(a[i], b[i])
  {
    if |a| > 0 {
      var n := |a| - 1;
      DigitMovesBind(a[..n], b[..n]);
      if LP.DigitMoves(a) == LP.DigitMoves(b) {
        var d, e := a[n], b[n];
        Tails(LP.DigitMoves(a[..n]), [d.commitment, d.tCommitment, d.tCoin, d.tCiphertext],
              LP.DigitMoves(b[..n]), [e.commitment, e.tCommitment, e.tCoin, e.tCiphertext]);
        var x, y := [d.commitment, d.tCommitment, d.tCoin, d.tCiphertext], [e.commitment, e.tCommitment, e.tCoin, e.tCiphertext];
        assert x[0] == y[0] && x[1] == y[1] && x[2] == y[2] && x[3] == y[3];
      }
    }
  }

  lemma LaneParts(feldman: bool, a: LP.LaneProof)
    ensures var m, d := LP.LaneMoves(feldman, a), LP.DigitMoves(a.digits);
            |m| == |d| + (if feldman then 3 else 5) && m[0] == a.receiver && m[1] == |a.digits| && m[2..2 + |d|] == d &&
            m[2 + |d|] == a.tEvaluation && (!feldman ==> m[3 + |d|] == a.tBlindingCoin && m[4 + |d|] == a.tBlinding)
  {
    var d := LP.DigitMoves(a.digits);
    var end: Transcript := [a.tEvaluation] + if feldman then [] else [a.tBlindingCoin, a.tBlinding];
    assert LP.LaneMoves(feldman, a) == [a.receiver, |a.digits|] + d + end;
  }

  /** The first two entries of a lane say how long it is. */
  lemma LaneMovesBind(feldman: bool, a: LP.LaneProof, b: LP.LaneProof, rest: Transcript, rest': Transcript)
    requires LP.LaneMoves(feldman, a) + rest == LP.LaneMoves(feldman, b) + rest'
    ensures SameMoves(feldman, a, b) && rest == rest'
  {
    hide LP.LaneMoves, LP.DigitMoves;
    var m, m' := LP.LaneMoves(feldman, a), LP.LaneMoves(feldman, b);
    LaneParts(feldman, a);
    LaneParts(feldman, b);
    assert (m + rest)[1] == m[1] && (m' + rest')[1] == m'[1];
    DigitMovesBind(a.digits, b.digits);
    assert |rest| == |rest'|;
    Tails(m, rest, m', rest');
  }

  lemma {:induction false} FirstMovesCons(feldman: bool, lanes: seq<LP.LaneProof>)
    requires |lanes| > 0
    ensures LP.FirstMoves(feldman, lanes) == LP.LaneMoves(feldman, lanes[0]) + LP.FirstMoves(feldman, lanes[1..])
  {
    var n := |lanes| - 1;
    if n > 0 {
      FirstMovesCons(feldman, lanes[..n]);
      assert lanes[1..][..n - 1] == lanes[..n][1..];
    } else {
      assert LP.FirstMoves(feldman, lanes[..0]) == [] && LP.FirstMoves(feldman, lanes[1..]) == [];
    }
  }

  lemma {:induction false} FirstMovesBind(feldman: bool, a: seq<LP.LaneProof>, b: seq<LP.LaneProof>)
    requires |a| == |b| && LP.FirstMoves(feldman, a) == LP.FirstMoves(feldman, b)
    ensures forall k :: 0 <= k < |a| ==> SameMoves(feldman, a[k], b[k])
  {
    if |a| > 0 {
      FirstMovesCons(feldman, a);
      FirstMovesCons(feldman, b);
      LaneMovesBind(feldman, a[0], b[0], LP.FirstMoves(feldman, a[1..]), LP.FirstMoves(feldman, b[1..]));
      FirstMovesBind(feldman, a[1..], b[1..]);
      forall k | 0 <= k < |a| ensures SameMoves(feldman, a[k], b[k]) {
        if k > 0 {
          assert SameMoves(feldman, a[1..][k - 1], b[1..][k - 1]);
        }
      }
    }
  }

  /** The link's challenge binds the mode, the statement and every lane's first move. */
  lemma LinkBinds(q: int, statement: seq<int>, a: LP.Proof, statement': seq<int>, b: LP.Proof)
    requires q > 1 && |statement| == |statement'| == 32
    requires forall o: Oracle :: LP.Challenge(q, o, statement, a) == LP.Challenge(q, o, statement', b)
    ensures a.feldman == b.feldman && statement == statement' && |a.lanes| == |b.lanes|
    ensures forall k :: 0 <= k < |a.lanes| ==> SameMoves(a.feldman, a.lanes[k], b.lanes[k])
  {
    var domain := if a.feldman then "feldman-link/challenge/v1" else "compact-link/challenge";
    var domain' := if b.feldman then "feldman-link/challenge/v1" else "compact-link/challenge";
    var u := statement + [|a.lanes|] + LP.FirstMoves(a.feldman, a.lanes);
    var u' := statement' + [|b.lanes|] + LP.FirstMoves(b.feldman, b.lanes);
    var o := Only(domain, u);
    assert LP.Challenge(q, o, statement, a) == LP.Challenge(q, o, statement', b);
    OnlyOne(q, domain, u, domain', u');
    assert "feldman-link/challenge/v1"[0] != "compact-link/challenge"[0];
    assert u[..32] == statement && u'[..32] == statement' && u[32] == |a.lanes| && u'[32] == |b.lanes|;
    assert u[33..] == LP.FirstMoves(a.feldman, a.lanes) && u'[33..] == LP.FirstMoves(b.feldman, b.lanes);
    FirstMovesBind(a.feldman, a.lanes, b.lanes);
  }
}
