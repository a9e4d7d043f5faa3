/**
  Uniqueness of component certificates per dealer.  The claim that keeps a holder from acknowledging, and
  a dealer from signing, two statements of one dealer does not survive a restart.  A dealer can get two
  valid descriptors exactly when at least `n - 3f` honest members restart; a dealer that is honest and does
  not restart never can.
 */
module ComponentRestarts {
  import opened Common
  import opened FiniteField
  import opened Codeword
  import opened Merkle
  import opened OneShot
  import opened ComponentShards
  import opened Components
  import opened ComponentRuns

  // ---------------------------------------------------------------- what claims are worth

  /** A member that never restarted has claimed everything it signed, as holder or as dealer. */
  ghost predicate ClaimsCover(p: Net, sys: System, restarted: set<Member>)
    requires WellFormed(p, sys)
  {
    (forall h: Member, s: Statement :: Honest(p, h) && h !in restarted && (h, s) in sys.base.signed ==> Claimed(p, sys, h, s)) &&
    forall s: Statement :: s in sys.endorsed ==>
      0 <= s.dealer < p.n && (Honest(p, s.dealer) && s.dealer !in restarted ==> Claimed(p, sys, s.dealer, s))
  }

  /** What an honest member claims or signs is its own or has its dealer's signature. */
  ghost predicate DealerBehind(p: Net, sys: System)
    requires WellFormed(p, sys)
  {
    (forall h: Member, d: int :: Honest(p, h) && d in sys.claims[h] ==>
       sys.claims[h][d].dealer == d && (sys.claims[h][d] in sys.endorsed || d == h)) &&
    forall h: Member, s: Statement :: Honest(p, h) && (h, s) in sys.base.signed ==> s in sys.endorsed || s.dealer == h
  }

  lemma EventKeepsClaims(p: Net, faulty: set<Member>, setup: Setup, sys: System, e: Event, restarted: set<Member>)
    requires p == ComponentProtocol(p.n, faulty, setup) && WellFormed(p, sys) && Possible(p, sys, e)
    requires ClaimsCover(p, sys, restarted) && DealerBehind(p, sys)
    ensures ClaimsCover(p, After(p, sys, e), restarted + (if e.Base? && e.step.Restart? then {e.step.h} else {}))
    ensures DealerBehind(p, After(p, sys, e))
  {}

  lemma {:induction false} ExecuteKeepsClaims(p: Net, faulty: set<Member>, setup: Setup, events: Events)
    requires p == ComponentProtocol(p.n, faulty, setup) && Execute(p, Start(p), events).Some?
    ensures ClaimsCover(p, Execute(p, Start(p), events).value, Restarted(events))
    ensures DealerBehind(p, Execute(p, Start(p), events).value)
  {
    if |events| > 0 {
      var front, e := events[..|events| - 1], events[|events| - 1];
      ExecuteKeepsClaims(p, faulty, setup, front);
      EventKeepsClaims(p, faulty, setup, Execute(p, Start(p), front).value, e, Restarted(front));
    }
  }

  /** Fewer than `n - 3f` restarts: two certificates for one dealer certify the same statement. */
  lemma CertificatesAgreePerDealer(n: nat, faulty: set<Member>, f: nat, setup: Setup, events: Events, s: Statement,
                                   s': Statement)
    requires |faulty| <= f && n >= 3 * f + 1 + |Restarted(events)| && s.dealer == s'.dealer
    requires var p := ComponentProtocol(n, faulty, setup); HasCertificate(p, events, n - f, s) && HasCertificate(p, events, n - f, s')
    ensures s == s'
  {
    var p := ComponentProtocol(n, faulty, setup);
    var sys := Execute(p, Start(p), events).value;
    var restarted := Restarted(events);
    ExecuteKeepsClaims(p, faulty, setup, events);
    assert |faulty + restarted| <= |faulty| + |restarted|;
    var h := QuorumsMeet(n, faulty + restarted, f + |restarted|, n - f, Signers(p, sys.base, s), Signers(p, sys.base, s'));
    assert Honest(p, h);
  }

  lemma HonestSigner(p: Net, sys: System, f: nat, s: Statement) returns (h: Member)
    requires WellFormed(p, sys) && |p.faulty| <= f && p.n >= 2 * f + 1 && Certified(p, sys.base, p.n - f, s)
    ensures Honest(p, h) && (h, s) in sys.base.signed
  {
    var signers := Signers(p, sys.base, s);
    var honest := signers - p.faulty;
    SubsetSize(signers, honest + p.faulty);
    assert |honest + p.faulty| <= |honest| + |p.faulty|;
    assert (forall x :: x !in honest) ==> honest == {};
    h :| h in honest;
  }

  /** A dealer that is honest and does not restart has at most one certified statement, whoever else restarts. */
  lemma HonestDealerUnique(n: nat, faulty: set<Member>, f: nat, setup: Setup, events: Events, s: Statement, s': Statement)
    requires n >= 3 * f + 1 && |faulty| <= f && s.dealer == s'.dealer
    requires 0 <= s.dealer < n && s.dealer !in faulty && s.dealer !in Restarted(events)
    requires var p := ComponentProtocol(n, faulty, setup); HasCertificate(p, events, n - f, s) && HasCertificate(p, events, n - f, s')
    ensures s == s'
  {
    var p := ComponentProtocol(n, faulty, setup);
    var sys := Execute(p, Start(p), events).value;
    ExecuteKeepsClaims(p, faulty, setup, events);
    var h := HonestSigner(p, sys, f, s);
    var h' := HonestSigner(p, sys, f, s');
    assert Claimed(p, sys, s.dealer, s) && Claimed(p, sys, s.dealer, s');
  }

  // ---------------------------------------------------------------- two dispersals

  /** Coefficients for one-byte shards exist, and zero is a zero byte. */
  ghost predicate SetupOk(setup: Setup) {
    setup.byteOf(0) == 0 && forall root :: |setup.coefficients(root, 1)| == CHECKS
  }

  /** One zero byte for every holder. */
  function ZeroShards(n: nat): (r: seq<Payload>)
    ensures |r| == n && forall i :: 0 <= i < n ==> r[i] == [0]
  {
    seq(n, i => [0])
  }

  /** A dispersal of the all-zero codeword under some nonce. */
  function ZeroDispersal(n: nat, k: nat, nonce: Tag): Dispersal
    requires n > 0
  {
    Dispersal(nonce, k, 1, [], [], ShardRoot(nonce, ZeroShards(n)), seq(k, j => seq(CHECKS, i => 0)))
  }

  function ZeroArtifact(n: nat, k: nat, dealer: int, tag: Tag, h: nat): Artifact
    requires n > 0
  {
    var i := if h < n then h else 0;
    Artifact(dealer, tag, ZeroDispersal(n, k, tag), Piece(i, [0], Branch(Leaves(tag, ZeroShards(n)), i)))
  }

  lemma {:induction false} DotZero(row: Bytes, b: Bytes, n: nat)
    requires n <= |row| && n <= |b| && forall i :: 0 <= i < |b| ==> b[i] == 0
    ensures Dot(row, b, n) == 0
  {
    hide Mul, Add;
    if n > 0 {
      DotZero(row, b, n - 1);
      MulDistributes(row[n - 1], 0, 0);
      AddLaws(0, 0, 0);
    }
  }

  /** The all-zero codeword passes every check, parity shards included. */
  lemma ZeroFileable(setup: Setup, n: nat, k: nat, dealer: int, tag: Tag, h: nat)
    requires SetupOk(setup) && 0 < k <= n && dealer >= 0 && h < n
    ensures Fileable(setup, n, h, ZeroArtifact(n, k, dealer, tag, h))
  {
    hide Mul, Add;
    var d := ZeroDispersal(n, k, tag);
    var a := ZeroArtifact(n, k, dealer, tag, h);
    BranchCorrect(Leaves(tag, ZeroShards(n)), h);
    var coefficients := setup.coefficients(d.root, 1);
    var actual := Fingerprint(ToBytes(setup, [0]), coefficients);
    var expected := Encode(setup.matrix(k, n), d.fingerprints, CHECKS, n)[h];
    forall check | 0 <= check < CHECKS ensures actual[check] == 0 && expected[check] == 0 {
      DotZero(Row(coefficients, 1, check), ToBytes(setup, [0]), 1);
      RowSumZero(setup.matrix(k, n), h, Column(d.fingerprints, check), k);
    }
    assert actual == expected;
  }

  // ---------------------------------------------------------------- the exact number of restarts

  /** Some run with at most `f` faulty members and `k` restarts gives one dealer two valid descriptors. */
  ghost predicate CanConflictPerDealer(setup: Setup, n: nat, f: nat, k: nat) {
    exists faulty: set<Member>, events: Events, a: Descriptor, b: Descriptor ::
      Conflicting(setup, n, f, k, faulty, events, a, b)
  }

  ghost predicate Conflicting(setup: Setup, n: nat, f: nat, k: nat, faulty: set<Member>, events: Events, a: Descriptor,
                              b: Descriptor) {
    |faulty| <= f && |Restarted(events)| <= k && a != b && a.dealer == b.dealer &&
    DescriptorValid(ComponentProtocol(n, faulty, setup), events, f, a) &&
    DescriptorValid(ComponentProtocol(n, faulty, setup), events, f, b)
  }

  function ZeroDescriptor(n: nat, f: nat, dealer: int, tag: Tag): Descriptor
    requires n > 2 * f
  {
    Descriptor(dealer, tag, ZeroDispersal(n, n - 2 * f, tag))
  }

  /**
    The run behind a conflict: member `f` is the dealer, faulty when there are faulty members and
    otherwise an honest one that restarts.  Everyone acknowledges its first dispersal, `n - 3f` members
    restart, and everyone outside the first `f` acknowledges its second.
   */
  lemma ConflictingRun(setup: Setup, n: nat, f: nat, x: Member -> Artifact, y: Member -> Artifact, s: Statement, s': Statement)
    returns (events: Events)
    requires n >= 3 * f + 1 && s.dealer == s'.dealer == f && s.leaf != s'.leaf
    requires forall h: Member :: h < n ==> Fileable(setup, n, h, x(h)) && StatementOf(x(h)) == s
    requires forall h: Member :: h < n ==> Fileable(setup, n, h, y(h)) && StatementOf(y(h)) == s'
    ensures Restarted(events) == Range(2 * f, n - f)
    ensures var p := ComponentProtocol(n, Range(f, 2 * f), setup);
            HasCertificate(p, events, n - f, s) && HasCertificate(p, events, n - f, s')
  {
    hide Fileable, Execute, Restarted, Done, Certified, Free, After, Possible;
    var faulty := Range(f, 2 * f);
    var p := ComponentProtocol(n, faulty, setup);
    var start := Start(p);
    var first := FirstDispersal(p, setup, x, s, f);
    var mid := Execute(p, start, first).value;
    var second, third := SecondDispersal(p, setup, mid, y, s, s', f);
    events := first + second + third;
    var restarted := Execute(p, mid, second).value;
    ExecuteThree(p, start, first, second, third);
    BothCertified(p, start, mid, restarted, Execute(p, restarted, third).value, s, s', f);
  }

  ghost predicate Offered(p: Net, setup: Setup, x: Member -> Artifact, s: Statement, f: nat) {
    p.n >= 3 * f + 1 && p == ComponentProtocol(p.n, Range(f, 2 * f), setup) && s.dealer == f &&
    forall h: Member :: h < p.n ==> p.accept(h, x(h)) && StatementOf(x(h)) == s
  }

  lemma FirstDispersal(p: Net, setup: Setup, x: Member -> Artifact, s: Statement, f: nat) returns (first: Events)
    requires Offered(p, setup, x, s, f)
    ensures Execute(p, Start(p), first).Some? && Restarted(first) == {}
    ensures Done(p, Start(p), Execute(p, Start(p), first).value, s, 0, p.n - f, true)
  {
    hide Fileable, Execute, Restarted, Done, Free, After, Possible;
    StartFree(p, x, s, p.n - f);
    first := Dispersing(p, p.faulty, setup, Start(p), x, s, 0, p.n - f, true);
  }

  lemma SecondDispersal(p: Net, setup: Setup, mid: System, y: Member -> Artifact, s: Statement, s': Statement, f: nat)
    returns (second: Events, third: Events)
    requires Offered(p, setup, y, s', f) && s.leaf != s'.leaf && WellFormed(p, mid)
    requires Done(p, Start(p), mid, s, 0, p.n - f, true)
    ensures Execute(p, mid, second).Some? && Restarted(second) == Range(2 * f, p.n - f)
    ensures var restarted := Execute(p, mid, second).value;
            restarted.base.signed == mid.base.signed && Execute(p, restarted, third).Some? && Restarted(third) == {} &&
            Done(p, restarted, Execute(p, restarted, third).value, s', f, p.n, true)
  {
    hide Fileable, Execute, Restarted, Done, Free, After, Possible;
    second := Restarting(p, mid, 2 * f, p.n - f);
    var restarted := Execute(p, mid, second).value;
    NowFree(p, Start(p), mid, restarted, y, s, s', f);
    third := Dispersing(p, p.faulty, setup, restarted, y, s', f, p.n, true);
  }

  lemma RestartsConflict(setup: Setup, n: nat, f: nat)
    requires n >= 3 * f + 1 && SetupOk(setup)
    ensures CanConflictPerDealer(setup, n, f, n - 3 * f)
  {
    hide Fileable, ZeroArtifact, ZeroDispersal, HasCertificate, Restarted, SetupOk, DescriptorValid;
    var faulty := Range(f, 2 * f);
    var a, b := ZeroDescriptor(n, f, f, [0]), ZeroDescriptor(n, f, f, [1]);
    var x := (h: Member) => ZeroArtifact(n, n - 2 * f, f, [0], h);
    var y := (h: Member) => ZeroArtifact(n, n - 2 * f, f, [1], h);
    ZeroFamily(setup, n, f, [0], x);
    ZeroFamily(setup, n, f, [1], y);
    var events := ConflictingRun(setup, n, f, x, y, Statement(f, [0], a.dispersal), Statement(f, [1], b.dispersal));
    ZeroDescriptorValid(setup, n, f, events, [0]);
    ZeroDescriptorValid(setup, n, f, events, [1]);
    assert Conflicting(setup, n, f, n - 3 * f, faulty, events, a, b);
  }

  lemma ZeroDescriptorValid(setup: Setup, n: nat, f: nat, events: Events, tag: Tag)
    requires n >= 3 * f + 1
    requires HasCertificate(ComponentProtocol(n, Range(f, 2 * f), setup), events, n - f,
                            Statement(f, tag, ZeroDispersal(n, n - 2 * f, tag)))
    ensures DescriptorValid(ComponentProtocol(n, Range(f, 2 * f), setup), events, f, ZeroDescriptor(n, f, f, tag))
  {}

  lemma ZeroFamily(setup: Setup, n: nat, f: nat, tag: Tag, x: Member -> Artifact)
    requires n >= 3 * f + 1 && SetupOk(setup) && forall h :: x(h) == ZeroArtifact(n, n - 2 * f, f, tag, h)
    ensures forall h: Member :: h < n ==>
              Fileable(setup, n, h, x(h)) && StatementOf(x(h)) == Statement(f, tag, ZeroDispersal(n, n - 2 * f, tag))
  {
    forall h: Member | h < n
      ensures Fileable(setup, n, h, x(h)) && StatementOf(x(h)) == Statement(f, tag, ZeroDispersal(n, n - 2 * f, tag))
    {
      ZeroFileable(setup, n, n - 2 * f, f, tag, h);
    }
  }

  /** After the restarts everyone in the second quorum is free again. */
  lemma NowFree(p: Net, start: System, mid: System, restarted: System, y: Member -> Artifact, s: Statement, s': Statement, f: nat)
    requires start == Start(p) && WellFormed(p, mid) && WellFormed(p, restarted) && p.n >= 3 * f + 1
    requires p.faulty == Range(f, 2 * f) && s.leaf != s'.leaf
    requires Done(p, start, mid, s, 0, p.n - f, true)
    requires restarted.base.files == mid.base.files
    requires forall h :: 2 * f <= h < p.n - f ==> restarted.claims[h] == map[]
    requires forall h :: 0 <= h < p.n && !(2 * f <= h < p.n - f) ==> restarted.claims[h] == mid.claims[h]
    requires forall h: Member :: h < p.n ==> p.accept(h, y(h)) && StatementOf(y(h)) == s'
    ensures Free(p, restarted, y, s', f, p.n)
  {}

  lemma BothCertified(p: Net, start: System, mid: System, restarted: System, end: System, s: Statement, s': Statement, f: nat)
    requires WellFormed(p, start) && WellFormed(p, mid) && WellFormed(p, restarted) && WellFormed(p, end) && p.n >= 3 * f + 1
    requires Done(p, start, mid, s, 0, p.n - f, true) && restarted.base.signed == mid.base.signed
    requires Done(p, restarted, end, s', f, p.n, true)
    ensures Certified(p, end.base, p.n - f, s) && Certified(p, end.base, p.n - f, s')
  {
    SubsetSize(Range(0, p.n - f), Signers(p, end.base, s));
    SubsetSize(Range(f, p.n), Signers(p, end.base, s'));
  }

  lemma MoreRestarts(setup: Setup, n: nat, f: nat, k: nat, k': nat)
    requires k <= k' && CanConflictPerDealer(setup, n, f, k)
    ensures CanConflictPerDealer(setup, n, f, k')
  {
    var faulty: set<Member>, events: Events, a: Descriptor, b: Descriptor :| Conflicting(setup, n, f, k, faulty, events, a, b);
    assert Conflicting(setup, n, f, k', faulty, events, a, b);
  }

  /** A dealer can get two valid descriptors if and only if at least `n - 3f` members restart. */
  lemma ConflictPerDealerExactly(setup: Setup, n: nat, f: nat, k: nat)
    requires n >= 3 * f + 1 && SetupOk(setup)
    ensures CanConflictPerDealer(setup, n, f, k) <==> k >= n - 3 * f
  {
    if k >= n - 3 * f {
      RestartsConflict(setup, n, f);
      MoreRestarts(setup, n, f, n - 3 * f, k);
    } else if CanConflictPerDealer(setup, n, f, k) {
      var faulty: set<Member>, events: Events, a: Descriptor, b: Descriptor :| Conflicting(setup, n, f, k, faulty, events, a, b);
      CertificatesAgreePerDealer(n, faulty, f, setup, events, Statement(a.dealer, a.leaf, a.dispersal),
                                 Statement(b.dealer, b.leaf, b.dispersal));
      assert false;
    }
  }
}
