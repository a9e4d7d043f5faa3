/**
  The life of an honest component: its shards are accepted by every holder, it gets its certificate from
  the honest members alone, and from then on, whatever happens, its descriptor is served by enough honest
  holders for the leaf to be recovered.
 */
module ComponentLife {
  import opened Common
  import opened Merkle
  import opened OneShot
  import opened ComponentShards
  import opened Components
  import opened ComponentRuns
  import opened ComponentRecovery
  import D = Dispersal

  /** An honest dealer's component: what is dispersed, under which tag, with which code. */
  datatype Component = Component(g: Digests, codec: D.Codec, setup: Setup, payload: Payload, dealer: int, tag: Tag,
                                 dispersal: Dispersal)

  /** The dispersal is the honest one for `n` holders and the code is linear and decodes. */
  ghost predicate Honestly(c: Component, n: nat, f: nat) {
    && n >= 3 * f + 1 && 0 <= c.dealer < n && c.dispersal.dataShards == n - 2 * f
    && HonestDispersal(c.g, c.codec, c.setup, c.payload, n, c.dispersal)
    && LinearCode(c.setup, c.codec, c.dispersal.dataShards, n, Width(c.payload, c.dispersal.dataShards))
    && LawfulFor(c.codec, c.payload, n, c.dispersal)
  }

  function StatementFor(c: Component): Statement {
    Statement(c.dealer, c.tag, c.dispersal)
  }

  function DescriptorFor(c: Component): Descriptor {
    Descriptor(c.dealer, c.tag, c.dispersal)
  }

  /** The artifact sent to position `h`. */
  function ArtifactFor(c: Component, shards: seq<Payload>, h: nat): Artifact
    requires |shards| > 0
  {
    Artifact(c.dealer, c.tag, c.dispersal, PieceOf(c.dispersal.nonce, shards, if h < |shards| then h else 0))
  }

  /** Every leaf of admissible size can be dealt: its dispersal exists, and it is an honest component. */
  method Deal(g: Digests, codec: D.Codec, setup: Setup, payload: Payload, dealer: int, tag: Tag, n: nat, f: nat)
    returns (c: Component)
    requires n >= 3 * f + 1 && 0 <= dealer < n && 1 <= |payload| <= 0x400_0000 && g.semantic(payload).Some?
    requires CodeFits(setup, codec, payload, n, n - 2 * f)
    requires D.Lawful(codec, n - 2 * f, n, Width(payload, n - 2 * f))
    ensures Honestly(c, n, f) && c == Component(g, codec, setup, payload, dealer, tag, c.dispersal)
  {
    hide HonestDispersal, LinearCode, D.Lawful;
    var r := Disperse(g, codec, setup, payload, n, n - 2 * f);
    c := Component(g, codec, setup, payload, dealer, tag, r.value.0);
  }

  /** Every holder accepts its artifact. */
  lemma ArtifactsFileable(c: Component, n: nat, f: nat) returns (r: Member -> Artifact)
    requires Honestly(c, n, f)
    ensures ValidDispersal(c.dispersal, n)
    ensures forall h: Member :: h < n ==> Fileable(c.setup, n, h, r(h)) && StatementOf(r(h)) == StatementFor(c)
  {
    hide ValidPiece, LinearCode, LawfulFor;
    var shards := ShardsOf(c.codec, c.payload, n, c.dispersal.dataShards).value;
    r := (h: Member) => ArtifactFor(c, shards, h);
    forall h: Member | h < n ensures Fileable(c.setup, n, h, r(h)) {
      HonestPieceValid(c.g, c.codec, c.setup, c.payload, n, c.dispersal, h);
    }
    PieceIsFramed(c.setup, c.dispersal, n, r(0).shard);
  }

  lemma PieceIsFramed(setup: Setup, d: Dispersal, total: nat, s: Piece)
    requires ValidPiece(setup, d, total, s)
    ensures ValidDispersal(d, total)
  {}

  // ---------------------------------------------------------------- certified

  /** The honest dealer acknowledges and signs, then everyone else acknowledges; the faulty stay silent. */
  lemma DispersingFrom(p: Net, faulty: set<Member>, setup: Setup, r: Member -> Artifact, s: Statement) returns (events: Events)
    requires p == ComponentProtocol(p.n, faulty, setup) && 0 <= s.dealer < p.n && Honest(p, s.dealer)
    requires forall h: Member :: h < p.n ==> p.accept(h, r(h)) && StatementOf(r(h)) == s
    ensures Execute(p, Start(p), events).Some? && Restarted(events) == {}
    ensures forall h: Member :: h < p.n && Honest(p, h) ==> (h, s) in Execute(p, Start(p), events).value.base.signed
  {
    hide Execute, Restarted, Possible, After, Done, Fileable;
    var sys, dealer, e: Event := Start(p), s.dealer, Endorsing(s);
    StartFree(p, r, s, p.n);
    var own := Acknowledging(p, faulty, setup, sys, r, s, dealer, dealer + 1, false);
    var mid := Execute(p, sys, own).value;
    OwnClaim(p, sys, mid, s, dealer, false);
    var next := After(p, mid, e);
    Endorsed(p, mid, s, false, dealer);
    ExecuteOne(p, mid, e);
    OthersFree(p, sys, mid, next, r, s, dealer);
    var left := Acknowledging(p, faulty, setup, next, r, s, 0, dealer, false);
    var half := Execute(p, next, left).value;
    RightFree(p, next, half, r, s, dealer);
    var right := Acknowledging(p, faulty, setup, half, r, s, dealer + 1, p.n, false);
    ExecuteThree(p, sys, own, [e], left);
    events := own + [e] + left + right;
    ExecuteAppend(p, sys, own + [e] + left, right);
    RestartedAppend(own + [e] + left, right);
    AllSigned(p, sys, mid, next, half, Execute(p, half, right).value, s, dealer);
  }

  lemma OthersFree(p: Net, sys: System, mid: System, next: System, r: Member -> Artifact, s: Statement, dealer: Member)
    requires WellFormed(p, sys) && WellFormed(p, mid) && WellFormed(p, next) && dealer < p.n
    requires Free(p, sys, r, s, 0, p.n) && Done(p, sys, mid, s, dealer, dealer + 1, false)
    requires next.claims == mid.claims && next.base == mid.base
    ensures Free(p, next, r, s, 0, dealer) && Free(p, next, r, s, dealer + 1, p.n)
  {}

  lemma RightFree(p: Net, next: System, half: System, r: Member -> Artifact, s: Statement, dealer: Member)
    requires WellFormed(p, next) && WellFormed(p, half) && dealer < p.n
    requires Free(p, next, r, s, dealer + 1, p.n) && Done(p, next, half, s, 0, dealer, false)
    ensures Free(p, half, r, s, dealer + 1, p.n) && next.endorsed <= half.endorsed
  {}

  lemma AllSigned(p: Net, sys: System, mid: System, next: System, half: System, end: System, s: Statement, dealer: Member)
    requires WellFormed(p, sys) && WellFormed(p, mid) && WellFormed(p, next) && WellFormed(p, half) && WellFormed(p, end)
    requires dealer < p.n && Done(p, sys, mid, s, dealer, dealer + 1, false) && next.base == mid.base
    requires Done(p, next, half, s, 0, dealer, false) && Done(p, half, end, s, dealer + 1, p.n, false)
    ensures forall h: Member :: h < p.n && Honest(p, h) ==> (h, s) in end.base.signed
  {}

  lemma HonestQuorum(p: Net, sys: System, f: nat, s: Statement)
    requires WellFormed(p, sys) && |p.faulty| <= f && p.n >= f
    requires forall h: Member :: h < p.n && Honest(p, h) ==> (h, s) in sys.base.signed
    ensures Certified(p, sys.base, p.n - f, s)
  {
    var signers := Signers(p, sys.base, s);
    SubsetSize(Range(0, p.n), signers + p.faulty);
    assert |signers + p.faulty| <= |signers| + |p.faulty|;
  }

  /** An honest dealer's component is certified by the honest members alone, without a restart. */
  lemma HonestCertified(c: Component, n: nat, faulty: set<Member>, f: nat) returns (events: Events)
    requires Honestly(c, n, f) && |faulty| <= f && c.dealer !in faulty
    ensures Restarted(events) == {} && DescriptorValid(ComponentProtocol(n, faulty, c.setup), events, f, DescriptorFor(c))
  {
    hide Fileable, Execute, Restarted, HonestDispersal, LinearCode, LawfulFor;
    var p := ComponentProtocol(n, faulty, c.setup);
    var r := ArtifactsFileable(c, n, f);
    var s := StatementFor(c);
    events := DispersingFrom(p, faulty, c.setup, r, s);
    HonestQuorum(p, Execute(p, Start(p), events).value, f, s);
  }

  // ---------------------------------------------------------------- retrieved and recovered

  /** The shards that a retriever gets from the honest holders that serve the descriptor. */
  ghost function Served(p: Net, setup: Setup, sys: System, d: Descriptor): (r: map<int, Piece>)
    requires WellFormed(p, sys)
  {
    map h: Member | h in Servers(p, setup, sys, d) :: sys.base.files[h][FileKey(d.dealer, d.leaf)].shard
  }

  /** In every run with a valid descriptor the honest holders serve enough valid shards for recovery. */
  lemma ServedAvailable(n: nat, faulty: set<Member>, f: nat, setup: Setup, events: Events, d: Descriptor)
    requires n >= 3 * f + 1 && |faulty| <= f && DescriptorValid(ComponentProtocol(n, faulty, setup), events, f, d)
    ensures var p := ComponentProtocol(n, faulty, setup);
            Available(setup, d.dispersal, n, Served(p, setup, Execute(p, Start(p), events).value, d))
  {
    hide ValidPiece, Execute;
    var p := ComponentProtocol(n, faulty, setup);
    DescriptorRetrievable(n, faulty, f, setup, events, d);
    var sys := Execute(p, Start(p), events).value;
    var served := Served(p, setup, sys, d);
    assert served.Keys == Servers(p, setup, sys, d);
    assert |served.Keys| == |served|;
    forall i | i in served ensures served[i].index == i && ValidPiece(setup, d.dispersal, n, served[i]) {
      SameShape(setup, sys.base.files[i][FileKey(d.dealer, d.leaf)].dispersal, d.dispersal, n, served[i]);
    }
  }

  /** Whatever happened in the run: a valid descriptor of an honest component gives its leaf back. */
  lemma CertifiedRecovered(c: Component, n: nat, faulty: set<Member>, f: nat, events: Events)
    requires Honestly(c, n, f) && |faulty| <= f
    requires DescriptorValid(ComponentProtocol(n, faulty, c.setup), events, f, DescriptorFor(c))
    ensures var p := ComponentProtocol(n, faulty, c.setup);
            var served := Served(p, c.setup, Execute(p, Start(p), events).value, DescriptorFor(c));
            Recovered(c.g, c.codec, c.setup, c.dispersal, n, served) == Some(c.payload)
  {
    hide HonestDispersal, LawfulFor, LinearCode, Available, Recovered;
    var p := ComponentProtocol(n, faulty, c.setup);
    ServedAvailable(n, faulty, f, c.setup, events, DescriptorFor(c));
    HonestRecovered(c.g, c.codec, c.setup, c.dispersal, n,
                    Served(p, c.setup, Execute(p, Start(p), events).value, DescriptorFor(c)), c.payload);
  }

  lemma {:induction false} StepsAppend(a: Events, b: Events)
    ensures Steps(a + b) == Steps(a) + Steps(b)
    decreases |b|
  {
    if |b| == 0 {
      assert a + b == a;
    } else {
      assert (a + b)[..|a + b| - 1] == a + b[..|b| - 1];
      StepsAppend(a, b[..|b| - 1]);
    }
  }

  /** A certificate is never lost. */
  lemma DescriptorStays(p: Net, events: Events, more: Events, f: nat, d: Descriptor)
    requires DescriptorValid(p, events, f, d) && Execute(p, Start(p), events + more).Some?
    ensures DescriptorValid(p, events + more, f, d)
  {
    hide Execute;
    Refines(p, events);
    Refines(p, events + more);
    StepsAppend(events, more);
    CertifiedStays(p, Steps(events), Steps(more), p.n - f, Statement(d.dealer, d.leaf, d.dispersal));
  }

  /**
    An honest dealer, with any at most `f` faulty members keeping silent, gets its component certified
    without a restart; and whatever the members do afterwards, crashes and forged signatures included, the
    shards that the honest holders serve give the leaf back.
   */
  lemma HonestLife(c: Component, n: nat, faulty: set<Member>, f: nat) returns (events: Events)
    requires Honestly(c, n, f) && |faulty| <= f && c.dealer !in faulty
    ensures Restarted(events) == {} && DescriptorValid(ComponentProtocol(n, faulty, c.setup), events, f, DescriptorFor(c))
    ensures forall more: Events :: var p := ComponentProtocol(n, faulty, c.setup);
              Execute(p, Start(p), events + more).Some? ==>
                var served := Served(p, c.setup, Execute(p, Start(p), events + more).value, DescriptorFor(c));
                Recovered(c.g, c.codec, c.setup, c.dispersal, n, served) == Some(c.payload)
  {
    hide Honestly, Recovered, DescriptorValid, Execute, Served;
    events := HonestCertified(c, n, faulty, f);
    var p := ComponentProtocol(n, faulty, c.setup);
    forall more: Events | Execute(p, Start(p), events + more).Some?
      ensures var served := Served(p, c.setup, Execute(p, Start(p), events + more).value, DescriptorFor(c));
              Recovered(c.g, c.codec, c.setup, c.dispersal, n, served) == Some(c.payload)
    {
      DescriptorStays(p, events, more, f, DescriptorFor(c));
      CertifiedRecovered(c, n, faulty, f, events + more);
    }
  }
}
