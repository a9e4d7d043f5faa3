/**
  The threshold BLS signer: Shamir shares of a group secret, signature shares that are multiples of the
  hashed message, and Lagrange recovery in the exponent.  Any `t` distinct members recover the same
  signature, the group secret times the hashed message, and it is the only one that verifies.

  A pairing is the product of exponents, so a pairing check is an equation between products.
 */
module ThresholdSigner {
  import opened Common
  import opened Modular
  import opened Vectors
  import opened Polynomials
  import opened Lagrange
  import opened Sorting

  datatype Signer = Signer(t: nat, n: nat, pubKey: Point, pubKeyShares: seq<Point>, shares: seq<Scalar>,
                           memberOrder: seq<int>, memberIndex: map<int, nat>, signing: Option<set<int>>)

  // ---------------------------------------------------------------- key generation

  /** The signer's keys come from this sharing polynomial, one share per member position. */
  ghost predicate KeyedBy(q: int, G2: Point, s: Signer, coeffs: seq<Scalar>)
    requires q > 1
  {
    && 0 < s.t == |coeffs| <= s.n == |s.shares| == |s.pubKeyShares| == |s.memberOrder|
    && (forall i :: 0 <= i < s.n ==> s.shares[i] == Eval(coeffs, i + 1) % q)
    && (forall i :: 0 <= i < s.n ==> s.pubKeyShares[i] == G2 * s.shares[i] % q)
    && s.pubKey == G2 * Eval(coeffs, 0) % q
    && (forall id :: id in s.memberIndex ==> s.memberIndex[id] < s.n && s.memberOrder[s.memberIndex[id]] == id)
  }

  /** Shamir shares at `1..n`, each evaluated with a running power. */
  method NewSigner(q: int, G2: Point, members: seq<int>, threshold: int, coeffs: seq<Scalar>) returns (r: Option<Signer>)
    requires q > 1 && |coeffs| == if threshold < 0 then 0 else threshold
    ensures r.Some? <==> |members| > 0 && 0 < threshold <= |members|
    ensures r.Some? ==> KeyedBy(q, G2, r.value, coeffs) && r.value.t == threshold && r.value.n == |members| &&
                        r.value.memberIndex.Keys == (set id | id in members) && r.value.signing == None
  {
    if |members| == 0 || threshold <= 0 || threshold > |members| {
      return None;
    }
    var n := |members|;
    var shares := [];
    for i := 0 to n
      invariant |shares| == i && forall k :: 0 <= k < i ==> shares[k] == Eval(coeffs, k + 1) % q
    {
      var share := EvalShare(q, coeffs, i + 1);
      shares := shares + [share];
    }
    var pubKeyShares := [];
    for i := 0 to n
      invariant |pubKeyShares| == i && forall k :: 0 <= k < i ==> pubKeyShares[k] == G2 * shares[k] % q
    {
      pubKeyShares := pubKeyShares + [G2 * shares[i] % q];
    }
    assert Eval(coeffs, 0) == coeffs[0];
    var memberOrder := Sorted(members);
    SortedElements(members);
    var memberIndex: map<int, nat> := map[];
    for i := 0 to n
      invariant memberIndex.Keys == set k | 0 <= k < i :: memberOrder[k]
      invariant forall id :: id in memberIndex ==> memberIndex[id] < i && memberOrder[memberIndex[id]] == id
    {
      memberIndex := memberIndex[memberOrder[i] := i];
    }
    assert forall id :: id in members <==> id in memberOrder;
    assert forall id :: id in memberIndex <==> id in memberOrder;
    r := Some(Signer(threshold, n, G2 * coeffs[0] % q, pubKeyShares, shares, memberOrder, memberIndex, None));
  }

  method EvalShare(q: int, coeffs: seq<Scalar>, x: int) returns (share: Scalar)
    requires q > 1
    ensures share == Eval(coeffs, x) % q
  {
    hide Eval;
    share := 0;
    var xPow := 1;
    ghost var p := 1;
    EvalNothing(q, x);
    for j := 0 to |coeffs|
      invariant Cong(q, xPow, p) && p == Pow(x, j)
      invariant share == Eval(coeffs[..j], x) % q
    {
      EvalTerm(q, coeffs, x, j, xPow);
      share := (share + coeffs[j] * xPow % q) % q;
      CongMul(q, xPow, p, x, x);
      ModCong(q, xPow * x);
      xPow := xPow * x % q;
      p := p * x;
    }
    assert coeffs[..|coeffs|] == coeffs;
  }

  lemma EvalNothing(q: int, x: int)
    requires q > 1
    ensures Eval([], x) % q == 0
  {
    ModSmall(q, 0);
  }

  lemma {:induction false} EvalLast(p: seq<int>, x: int)
    requires |p| > 0
    ensures Eval(p, x) == Eval(p[..|p| - 1], x) + p[|p| - 1] * Pow(x, |p| - 1)
  {
    if |p| > 1 {
      var t := p[1..];
      EvalLast(t, x);
      assert t[..|t| - 1] == p[..|p| - 1][1..];
      LastStep(x, Eval(t[..|t| - 1], x), p[|p| - 1], Pow(x, |t| - 1));
    }
  }

  lemma LastStep(x: int, t: int, c: int, p: int)
    ensures x * (t + c * p) == x * t + c * (p * x)
  {
    assert x * (c * p) == c * (p * x);
  }

  lemma EvalTerm(q: int, coeffs: seq<int>, x: int, j: nat, xPow: int)
    requires q > 1 && j < |coeffs| && Cong(q, xPow, Pow(x, j))
    ensures (Eval(coeffs[..j], x) % q + coeffs[j] * xPow % q) % q == Eval(coeffs[..j + 1], x) % q
  {
    hide Eval;
    var p := coeffs[..j + 1];
    EvalLast(p, x);
    assert p[..|p| - 1] == coeffs[..j];
    CongMulLeft(q, coeffs[j], xPow, Pow(x, j));
    ModAdd(q, Eval(coeffs[..j], x), coeffs[j] * xPow % q);
    ModAdd(q, Eval(coeffs[..j], x), coeffs[j] * xPow);
    CongAdd(q, Eval(coeffs[..j], x), Eval(coeffs[..j], x), coeffs[j] * xPow, coeffs[j] * Pow(x, j));
  }

  // ---------------------------------------------------------------- shares

  method SignShare(q: int, s: Signer, member: int, h: Point) returns (r: Option<Point>)
    requires q > 1 && forall id :: id in s.memberIndex ==> s.memberIndex[id] < |s.shares|
    ensures r.Some? <==> member in s.memberIndex && (s.signing.Some? ==> member in s.signing.value)
    ensures r.Some? ==> r.value == h * s.shares[s.memberIndex[member]] % q
  {
    if member !in s.memberIndex {
      return None;
    }
    if s.signing.Some? && member !in s.signing.value {
      return None;
    }
    r := Some(h * s.shares[s.memberIndex[member]] % q);
  }

  /** `e(sig, G2) == e(h, pk)` */
  predicate PairingCheck(q: int, sig: Point, G2: Point, h: Point, pk: Point)
    requires q > 0
  {
    (sig * G2 + h * -pk) % q == 0
  }

  predicate VerifyShare(q: int, G2: Point, s: Signer, member: int, h: Point, sig: Point)
    requires q > 0
  {
    member in s.memberIndex && s.memberIndex[member] < |s.pubKeyShares| &&
    PairingCheck(q, sig, G2, h, s.pubKeyShares[s.memberIndex[member]])
  }

  predicate VerifyRecovered(q: int, G2: Point, s: Signer, h: Point, sig: Point)
    requires q > 0
  {
    PairingCheck(q, sig, G2, h, s.pubKey)
  }

  /** A pairing check against the key of secret `x` accepts exactly the multiple `x*h`. */
  lemma PairingExact(q: int, sig: Point, G2: Point, h: Point, x: Scalar)
    requires Prime(q) && G2 % q != 0
    ensures PairingCheck(q, sig, G2, h, G2 * x % q) <==> Cong(q, sig, h * x)
  {
    var pk := G2 * x;
    ModCong(q, pk);
    CongMulLeft(q, h, pk % q, pk);
    CongNeg(q, h * (pk % q), h * pk);
    CongAdd(q, sig * G2, sig * G2, -(h * (pk % q)), -(h * pk));
    assert h * -(pk % q) == -(h * (pk % q));
    CongZero(q, G2 * sig, G2 * (h * x));
    FactorOut(G2, sig, h, x);
    if Cong(q, sig, h * x) {
      CongMulLeft(q, G2, sig, h * x);
    }
    if Cong(q, G2 * sig, G2 * (h * x)) {
      Cancel(q, G2, sig, h * x);
    }
  }

  lemma FactorOut(g: int, s: int, h: int, x: int)
    ensures s * g + -(h * (g * x)) == g * s - g * (h * x)
  {
    assert h * (g * x) == g * (h * x);
  }

  // ---------------------------------------------------------------- recovery

  /** A missing map entry reads as index zero. */
  function IndexOf(s: Signer, id: int): nat {
    if id in s.memberIndex then s.memberIndex[id] else 0
  }

  /** One-based evaluation points of the members. */
  function Nodes(s: Signer, order: seq<int>): (r: seq<int>)
    ensures |r| == |order|
  {
    seq(|order|, i requires 0 <= i < |order| => IndexOf(s, order[i]) + 1)
  }

  /** The first `k` shares, each times its Lagrange coefficient. */
  function Combined(q: int, nodes: seq<int>, order: seq<int>, shares: map<int, Point>, k: nat): int
    requires q > 1 && |nodes| == |order| && k <= |order| && forall id :: id in order ==> id in shares
  {
    if k == 0 then 0
    else Combined(q, nodes, order, shares, k - 1) + shares[order[k - 1]] * Coefficient(q, nodes, nodes[k - 1])
  }

  /** All contributors, each once, by member position. */
  ghost predicate OrderOf(s: Signer, shares: map<int, Point>, order: seq<int>) {
    |order| == |shares| && Distinct(order) && (forall id :: id in order <==> id in shares) &&
    forall i, j :: 0 <= i < j < |order| ==> IndexOf(s, order[i]) <= IndexOf(s, order[j])
  }

  method InsertMember(s: Signer, order: seq<int>, id: int) returns (r: seq<int>)
    requires Distinct(order) && id !in order
    requires forall i, j :: 0 <= i < j < |order| ==> IndexOf(s, order[i]) <= IndexOf(s, order[j])
    ensures |r| == |order| + 1 && Distinct(r) && forall x :: x in r <==> x == id || x in order
    ensures forall i, j :: 0 <= i < j < |r| ==> IndexOf(s, r[i]) <= IndexOf(s, r[j])
  {
    var k := 0;
    while k < |order| && IndexOf(s, order[k]) <= IndexOf(s, id)
      invariant 0 <= k <= |order|
      invariant forall i :: 0 <= i < k ==> IndexOf(s, order[i]) <= IndexOf(s, id)
    {
      k := k + 1;
    }
    r := order[..k] + [id] + order[k..];
  }

  method AnyMember(s: set<int>) returns (id: int)
    requires s != {}
    ensures id in s
  {
    NonEmpty(s);
    id :| id in s;
  }

  method OrderMembers(s: Signer, shares: map<int, Point>) returns (order: seq<int>)
    ensures OrderOf(s, shares, order)
  {
    order := [];
    var rest := shares.Keys;
    while rest != {}
      invariant rest <= shares.Keys && |order| + |rest| == |shares.Keys| && Distinct(order)
      invariant forall id :: id in order <==> id in shares && id !in rest
      invariant forall i, j :: 0 <= i < j < |order| ==> IndexOf(s, order[i]) <= IndexOf(s, order[j])
      decreases |rest|
    {
      var id := AnyMember(rest);
      order := InsertMember(s, order, id);
      rest := rest - {id};
    }
    assert |shares.Keys| == |shares|;
  }

  /** The Lagrange coefficient of one node, accumulated factor by factor. */
  method LagrangeCoefficient(q: int, ids: seq<int>, id1: int) returns (c: Scalar)
    requires q > 1
    ensures Cong(q, c, Coefficient(q, ids, id1))
  {
    hide Factor;
    c := 1;
    for j := 0 to |ids|
      invariant Cong(q, c, Coefficient(q, ids[..j], id1))
    {
      var id2 := ids[j];
      assert ids[..j + 1][..j] == ids[..j];
      FactorIs(q, id2, id1);
      if id1 != id2 {
        var nf := id2 * Inv(q, id2 - id1) % q;
        ModCong(q, id2 * Inv(q, id2 - id1));
        CongMul(q, c, Coefficient(q, ids[..j], id1), nf, Factor(q, id2, id1));
        ModCong(q, c * nf);
        c := c * nf % q;
      }
    }
    assert ids[..|ids|] == ids;
  }

  lemma FactorIs(q: int, p: int, x: int)
    requires q > 1
    ensures Factor(q, p, x) == if p == x then 1 else p * Inv(q, p - x)
  {}

  /** Recovery needs `t` shares and returns their Lagrange combination, in member order. */
  method Recover(q: int, s: Signer, shares: map<int, Point>) returns (r: Option<Point>, ghost order: seq<int>)
    requires q > 1
    ensures OrderOf(s, shares, order)
    ensures r == if |shares| < s.t then None else Some(Combined(q, Nodes(s, order), order, shares, |order|) % q)
  {
    hide Coefficient;
    var memberIDs := OrderMembers(s, shares);
    order := memberIDs;
    if |shares| < s.t {
      return None, order;
    }
    var ids := Nodes(s, memberIDs);
    var recovered := 0;
    ModSmall(q, 0);
    for i := 0 to |memberIDs|
      invariant recovered == Combined(q, ids, memberIDs, shares, i) % q
    {
      var c := LagrangeCoefficient(q, ids, ids[i]);
      var term := shares[memberIDs[i]] * c % q;
      CombinedStep(q, Combined(q, ids, memberIDs, shares, i), shares[memberIDs[i]], c, Coefficient(q, ids, ids[i]));
      recovered := (recovered + term) % q;
    }
    r := Some(recovered);
  }

  lemma CombinedStep(q: int, sum: int, share: int, c: int, c': int)
    requires q > 1 && Cong(q, c, c')
    ensures (sum % q + share * c % q) % q == (sum + share * c') % q
  {
    CongMulLeft(q, share, c, c');
    ModAdd(q, sum, share * c % q);
    ModAdd(q, sum, share * c);
    CongAdd(q, sum, sum, share * c, share * c');
  }

  /** Verified shares of one message, all from members. */
  ghost predicate VerifiedShares(q: int, G2: Point, s: Signer, h: Point, shares: map<int, Point>)
    requires q > 0
  {
    forall id :: id in shares ==> VerifyShare(q, G2, s, id, h, shares[id])
  }

  lemma {:induction false} CombinedIsInterpolation(q: int, s: Signer, G2: Point, coeffs: seq<Scalar>, h: Point, order: seq<int>,
                                                   shares: map<int, Point>, k: nat)
    requires Prime(q) && G2 % q != 0 && KeyedBy(q, G2, s, coeffs) && VerifiedShares(q, G2, s, h, shares)
    requires k <= |order| && forall id :: id in order ==> id in shares
    ensures Cong(q, Combined(q, Nodes(s, order), order, shares, k),
                 h * Interpolate(q, Nodes(s, order), Nodes(s, order)[..k], coeffs))
  {
    hide Coefficient, Eval;
    if k > 0 {
      CombinedIsInterpolation(q, s, G2, coeffs, h, order, shares, k - 1);
      var nodes, id := Nodes(s, order), order[k - 1];
      assert VerifyShare(q, G2, s, id, h, shares[id]);
      var x := nodes[k - 1];
      ShareOfMember(q, G2, s, coeffs, id, h, shares[id]);
      assert nodes[..k][..k - 1] == nodes[..k - 1];
      InterpolationStep(q, h, Combined(q, nodes, order, shares, k - 1), Interpolate(q, nodes, nodes[..k - 1], coeffs),
                        shares[id], Coefficient(q, nodes, x), Eval(coeffs, x));
    }
  }

  lemma ShareOfMember(q: int, G2: Point, s: Signer, coeffs: seq<Scalar>, id: int, h: Point, sig: Point)
    requires Prime(q) && G2 % q != 0 && KeyedBy(q, G2, s, coeffs) && VerifyShare(q, G2, s, id, h, sig)
    ensures Cong(q, sig, h * Eval(coeffs, IndexOf(s, id) + 1))
  {
    hide Eval;
    var i := s.memberIndex[id];
    PairingExact(q, sig, G2, h, s.shares[i]);
    ModCong(q, Eval(coeffs, i + 1));
    CongMulLeft(q, h, s.shares[i], Eval(coeffs, i + 1));
  }

  lemma InterpolationStep(q: int, h: int, sum: int, sum': int, share: int, c: int, v: int)
    requires q > 0 && Cong(q, sum, h * sum') && Cong(q, share, h * v)
    ensures Cong(q, sum + share * c, h * (sum' + c * v))
  {
    CongMul(q, share, h * v, c, c);
    CongAdd(q, sum, h * sum', share * c, (h * v) * c);
    assert (h * v) * c == h * (c * v) && h * (sum' + c * v) == h * sum' + h * (c * v);
  }

  lemma NodesDistinct(q: int, G2: Point, s: Signer, coeffs: seq<Scalar>, order: seq<int>)
    requires q > 1 && KeyedBy(q, G2, s, coeffs) && s.n < q && Distinct(order)
    requires forall id :: id in order ==> id in s.memberIndex
    ensures DistinctMod(q, Nodes(s, order))
  {
    var nodes := Nodes(s, order);
    forall i, j | 0 <= i < j < |nodes| ensures !Cong(q, nodes[i], nodes[j]) {
      assert order[i] in s.memberIndex && order[j] in s.memberIndex;
      ModSmall(q, nodes[i]);
      ModSmall(q, nodes[j]);
    }
  }

  /**
    Any `t` or more verified shares of distinct members recover the group secret times the hashed
    message, whichever members contributed, and the result is accepted; nothing else is.
   */
  lemma RecoverySound(q: int, G2: Point, s: Signer, coeffs: seq<Scalar>, h: Point, shares: map<int, Point>, order: seq<int>)
    requires Prime(q) && G2 % q != 0 && KeyedBy(q, G2, s, coeffs) && s.n < q
    requires VerifiedShares(q, G2, s, h, shares) && |shares| >= s.t && OrderOf(s, shares, order)
    ensures Combined(q, Nodes(s, order), order, shares, |order|) % q == h * Eval(coeffs, 0) % q
    ensures VerifyRecovered(q, G2, s, h, Combined(q, Nodes(s, order), order, shares, |order|) % q)
    ensures forall sig :: 0 <= sig < q && VerifyRecovered(q, G2, s, h, sig) ==> sig == h * Eval(coeffs, 0) % q
  {
    hide Eval, Interpolate, Combined, PairingCheck;
    var nodes := Nodes(s, order);
    forall id | id in order ensures id in s.memberIndex {
      assert VerifyShare(q, G2, s, id, h, shares[id]);
    }
    NodesDistinct(q, G2, s, coeffs, order);
    CombinedIsInterpolation(q, s, G2, coeffs, h, order, shares, |order|);
    assert nodes[..|order|] == nodes;
    InterpolationAtZero(q, nodes, coeffs);
    CongMulLeft(q, h, Interpolate(q, nodes, nodes, coeffs), Eval(coeffs, 0));
    var secret := Eval(coeffs, 0);
    ModCong(q, h * secret);
    PairingExact(q, h * secret % q, G2, h, secret);
    forall sig | 0 <= sig < q && VerifyRecovered(q, G2, s, h, sig) ensures sig == h * secret % q {
      PairingExact(q, sig, G2, h, secret);
      ModSmall(q, sig);
    }
  }

  /** Every share an honest member signs is a verified share. */
  lemma HonestShareVerifies(q: int, G2: Point, s: Signer, coeffs: seq<Scalar>, h: Point, member: int)
    requires Prime(q) && G2 % q != 0 && KeyedBy(q, G2, s, coeffs) && member in s.memberIndex
    ensures VerifyShare(q, G2, s, member, h, h * s.shares[s.memberIndex[member]] % q)
  {
    var x := s.shares[s.memberIndex[member]];
    ModCong(q, h * x);
    PairingExact(q, h * x % q, G2, h, x);
  }
}
