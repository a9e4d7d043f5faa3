/**
  The collector of stored shares for one dispersal: it keeps one verified signature share per holder
  and turns the first `t` of them, in roster order, into a lock certificate.
 */
module LockCollector {
  import opened Common
  import opened Modular
  import opened Polynomials
  import opened Merkle
  import opened ThresholdSigner

  type Wire = seq<int>

  datatype StoredShare = StoredShare(instance: Tag, root: Digest, share: Point)
  datatype SignedLock = SignedLock(instance: Tag, root: Digest, certificate: Point)

  class Collector {
    const q: int
    const G2: Point
    const signer: Signer
    const instance: Tag
    const root: Digest
    const roster: seq<int>
    const hashed: Point
    ghost const coeffs: seq<Scalar>
    var shares: map<int, Point>
    var shareWires: map<int, Wire>

    /** The signer's keys are consistent and every share kept has been verified. */
    ghost predicate Valid()
      reads this
    {
      && Prime(q) && G2 % q != 0 && KeyedBy(q, G2, signer, coeffs) && signer.n < q
      && (forall m :: m in roster <==> m in signer.memberIndex)
      && shares.Keys == shareWires.Keys
      && VerifiedShares(q, G2, signer, hashed, shares)
    }

    /** `hashed` is the hashed statement that binds the instance and the root. */
    constructor (q: int, G2: Point, signer: Signer, instance: Tag, root: Digest, roster: seq<int>, hashed: Point,
                 ghost coeffs: seq<Scalar>)
      requires Prime(q) && G2 % q != 0 && KeyedBy(q, G2, signer, coeffs) && signer.n < q
      requires forall m :: m in roster <==> m in signer.memberIndex
      ensures Valid() && shares == map[] && this.signer == signer && this.coeffs == coeffs && this.hashed == hashed
    {
      this.q, this.G2, this.signer, this.instance, this.root := q, G2, signer, instance, root;
      this.roster, this.hashed, this.coeffs := roster, hashed, coeffs;
      this.shares, this.shareWires := map[], map[];
    }

    /** The response answers this collector's statement with a valid share. */
    predicate Fits(from: int, response: StoredShare)
      requires q > 0
    {
      from in roster && response.instance == instance && response.root == root &&
      VerifyShare(q, G2, signer, from, hashed, response.share)
    }

    method AddDecodedStoredShare(from: int, response: StoredShare, wire: Wire) returns (r: Option<bool>)
      requires Valid()
      modifies this`shares, this`shareWires
      ensures Valid()
      ensures var added := |wire| > 0 && Fits(from, response) && from !in old(shareWires);
              && shares == (if added then old(shares)[from := response.share] else old(shares))
              && shareWires == (if added then old(shareWires)[from := wire] else old(shareWires))
      ensures r.Some? <==> |wire| > 0 && from in roster &&
                           (if from in old(shareWires) then old(shareWires)[from] == wire else Fits(from, response))
      ensures r.Some? ==> (r.value <==> |shares| >= signer.t)
    {
      if |wire| == 0 || from !in roster {
        return None;
      }
      if from in shareWires && shareWires[from] == wire {
        return Some(|shares| >= signer.t);
      }
      if response.instance != instance || response.root != root ||
         !VerifyShare(q, G2, signer, from, hashed, response.share) {
        return None;
      }
      if from in shareWires {
        return None;
      }
      shares := shares[from := response.share];
      shareWires := shareWires[from := wire];
      r := Some(|shares| >= signer.t);
    }

    /** The share that a member signs for this statement fits. */
    lemma HonestFits(m: int)
      requires Valid() && m in roster
      ensures signer.memberIndex[m] < |signer.shares|
      ensures Fits(m, StoredShare(instance, root, hashed * signer.shares[signer.memberIndex[m]] % q))
    {
      hide Eval;
      var x := signer.shares[signer.memberIndex[m]];
      ModCong(q, hashed * x);
      PairingExact(q, hashed * x % q, G2, hashed, x);
    }

    lemma SharesFromRoster()
      requires Valid()
      ensures signer.t > 0 && forall m :: m in shares ==> m in roster
    {
      forall m | m in shares ensures m in roster {
        assert VerifyShare(q, G2, signer, m, hashed, shares[m]);
      }
    }

    /** With enough shares a lock is always produced, and its certificate is the unique valid one. */
    method RecoverLock() returns (r: Option<SignedLock>)
      requires Valid()
      ensures r.Some? <==> |shares| >= signer.t
      ensures r.Some? ==> r.value == SignedLock(instance, root, hashed * Eval(coeffs, 0) % q) &&
                          VerifyRecovered(q, G2, signer, hashed, r.value.certificate)
    {
      hide VerifyRecovered, KeyedBy, VerifyShare;
      if |shares| < signer.t {
        return None;
      }
      SharesFromRoster();
      var chosen := FirstShares(roster, shares, signer.t);
      var certificate, order := Recover(q, signer, chosen);
      RecoverySound(q, G2, signer, coeffs, hashed, chosen, order);
      if certificate == None || !VerifyRecovered(q, G2, signer, hashed, certificate.value) {
        return None;
      }
      r := Some(SignedLock(instance, root, certificate.value));
    }
  }

  /**
    From enough members of the roster, in any order, the lock is produced: every member signs with its
    own key, every share is accepted, and the certificate is the group's signature.
   */
  method CollectAndLock(c: Collector, members: seq<int>, wire: Wire) returns (r: Option<SignedLock>)
    requires c.Valid() && c.shares == map[] && |wire| > 0 && |members| >= c.signer.t
    requires forall i :: 0 <= i < |members| ==> members[i] in c.roster
    requires forall i, j :: 0 <= i < j < |members| ==> members[i] != members[j]
    modifies c
    ensures c.Valid() && r == Some(SignedLock(c.instance, c.root, c.hashed * Eval(c.coeffs, 0) % c.q))
  {
    hide Eval, KeyedBy, VerifyShare, VerifyRecovered;
    for i := 0 to |members|
      invariant c.Valid() && |c.shares| == i
      invariant forall m :: m in c.shares <==> m in members[..i]
    {
      var m := members[i];
      assert members[..i + 1] == members[..i] + [m];
      c.HonestFits(m);
      Keyed(c, m);
      var share := SignShare(c.q, c.signer.(signing := Some({m})), m, c.hashed);
      assert m !in c.shares;
      ghost var before := c.shares;
      var added := c.AddDecodedStoredShare(m, StoredShare(c.instance, c.root, share.value), wire);
      assert c.shares.Keys == before.Keys + {m};
      assert |c.shares.Keys| == |c.shares| && |before.Keys| == |before|;
    }
    r := c.RecoverLock();
  }

  lemma Keyed(c: Collector, m: int)
    requires c.Valid() && m in c.roster
    ensures m in c.signer.memberIndex && forall id :: id in c.signer.memberIndex ==> c.signer.memberIndex[id] < |c.signer.shares|
  {}

  /** The shares of the first `t` contributors in roster order. */
  method FirstShares(roster: seq<int>, shares: map<int, Point>, t: nat) returns (chosen: map<int, Point>)
    requires 0 < t <= |shares| && forall m :: m in shares ==> m in roster
    ensures |chosen| == t && forall m :: m in chosen ==> m in shares && chosen[m] == shares[m]
  {
    chosen := map[];
    for i := 0 to |roster|
      invariant |chosen| < t && forall m :: m in chosen ==> m in shares && chosen[m] == shares[m]
      invariant forall m :: m in shares && m in roster[..i] ==> m in chosen
    {
      assert roster[..i + 1] == roster[..i] + [roster[i]];
      if roster[i] in shares {
        chosen := Extended(chosen, roster[i], shares[roster[i]]);
        if |chosen| == t {
          return;
        }
      }
    }
    assert roster[..|roster|] == roster;
    AllChosen(shares, chosen);
    assert false;
  }

  function Extended(m: map<int, Point>, k: int, v: Point): (r: map<int, Point>)
    ensures |r| <= |m| + 1
  {
    assert k in m ==> m[k := v].Keys == m.Keys;
    assert k !in m ==> m[k := v].Keys == m.Keys + {k};
    assert |m.Keys| == |m| && |m[k := v].Keys| == |m[k := v]|;
    m[k := v]
  }

  lemma AllChosen(a: map<int, Point>, b: map<int, Point>)
    requires forall m :: m in a ==> m in b
    ensures |a| <= |b|
  {
    SubsetSize(a.Keys, b.Keys);
    assert |a.Keys| == |a| && |b.Keys| == |b|;
  }
}
