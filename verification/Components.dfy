/**
  Component dispersal: a dealer sends every holder one shard of its component; a holder claims the
  statement for that dealer, files the shard and acknowledges with a signature share, and `n - f`
  shares make a component certificate.

  The claim lives in memory only.  The file, keyed by dealer and leaf digest, is durable.  A holder also
  asks for the dealer's own signature on the statement; an honest dealer signs what it has claimed itself.
 */
module Components {
  import opened Common
  import opened Merkle
  import opened OneShot
  import opened ComponentShards

  datatype Artifact = Artifact(dealer: int, leaf: Tag, dispersal: Dispersal, shard: Piece)

  /** What the component certificate signs. */
  datatype Statement = Statement(dealer: int, leaf: Tag, dispersal: Dispersal)

  datatype FileKey = FileKey(dealer: int, leaf: Tag)

  function StatementOf(a: Artifact): Statement {
    Statement(a.dealer, a.leaf, a.dispersal)
  }

  /** An artifact that position `h` may file. */
  predicate Fileable(setup: Setup, total: nat, h: int, a: Artifact) {
    a.dealer >= 0 && a.shard.index == h && ValidPiece(setup, a.dispersal, total, a.shard)
  }

  // ---------------------------------------------------------------- the holder

  datatype Init = Init(artifact: Artifact, dealerSigValid: bool)
  datatype Ack = Ack(dealer: int, holder: int, leaf: Tag, signed: Statement)

  /** The acknowledgement is for a statement that is claimed and whose shard is on file. */
  ghost predicate Supported(position: int, claims: map<int, Statement>, files: map<FileKey, Artifact>, s: Statement, ack: Ack) {
    ack == Ack(s.dealer, position, s.leaf, s) && s.dealer in claims && claims[s.dealer] == s &&
    FileKey(s.dealer, s.leaf) in files && StatementOf(files[FileKey(s.dealer, s.leaf)]) == s
  }

  lemma SupportKept(position: int, claims: map<int, Statement>, files: map<FileKey, Artifact>, a: Artifact)
    requires CanPut(files, FileKey(a.dealer, a.leaf), a)
    ensures var files' := files[FileKey(a.dealer, a.leaf) := a];
            forall s, ack :: Supported(position, claims, files, s, ack) ==> Supported(position, claims, files', s, ack)
  {}

  class Holder {
    const position: int
    const total: nat
    const setup: Setup
    var claims: map<int, Statement>
    var files: map<FileKey, Artifact>
    var acks: map<Statement, Ack>
    var initAcks: map<Init, Ack>

    /** Every remembered acknowledgement is for a claimed statement whose shard is on file. */
    ghost predicate Valid()
      reads this
    {
      && (forall s :: s in acks ==> Backed(s, acks[s]))
      && (forall i :: i in initAcks ==> i.artifact.dealer >= 0 && Backed(StatementOf(i.artifact), initAcks[i]))
      && (forall k :: k in files ==> files[k].dealer == k.dealer && files[k].leaf == k.leaf &&
                                     Fileable(setup, total, position, files[k]))
    }

    ghost predicate FilesKept(before: map<FileKey, Artifact>, after: map<FileKey, Artifact>) {
      forall k :: k in before ==> k in after && after[k] == before[k]
    }

    ghost predicate Backed(s: Statement, ack: Ack)
      reads this
    {
      Supported(position, claims, files, s, ack)
    }

    constructor (position: int, total: nat, setup: Setup)
      ensures Valid() && files == map[] && claims == map[]
      ensures this.position == position && this.total == total && this.setup == setup
    {
      this.position, this.total, this.setup := position, total, setup;
      claims, files, acks, initAcks := map[], map[], map[], map[];
    }

    /** The first statement claimed for a dealer is the only one until the process ends. */
    method Claim(dealer: int, s: Statement) returns (ok: bool)
      modifies this`claims
      ensures ok <==> dealer >= 0 && (dealer in old(claims) ==> old(claims)[dealer] == s)
      ensures claims == if ok then old(claims)[dealer := s] else old(claims)
    {
      if dealer < 0 {
        return false;
      }
      if dealer in claims {
        return claims[dealer] == s;
      }
      claims := claims[dealer := s];
      ok := true;
    }

    /** A restart keeps the files and nothing else. */
    method Restart()
      requires Valid()
      modifies this
      ensures Valid() && files == old(files) && claims == map[] && acks == map[] && initAcks == map[]
    {
      claims, acks, initAcks := map[], map[], map[];
    }

    /**
      An acknowledgement leaves only for a claimed statement whose shard is on file; claims and files
      never change what they already hold.
     */
    method HandleInit(from: int, init: Init) returns (r: Option<Ack>)
      requires Valid()
      modifies this
      ensures Valid()
      ensures forall d :: d in old(claims) ==> d in claims && claims[d] == old(claims)[d]
      ensures FilesKept(old(files), files)
      ensures r.Some? ==> Backed(StatementOf(init.artifact), r.value)
      ensures init !in old(initAcks) && StatementOf(init.artifact) !in old(acks) ==>
                var a := init.artifact;
                var s := StatementOf(a);
                var k := FileKey(a.dealer, a.leaf);
                (r.Some? <==>
                   Fileable(setup, total, position, a) && a.dealer == from && init.dealerSigValid &&
                   (a.dealer in old(claims) ==> old(claims)[a.dealer] == s) && CanPut(old(files), k, a))
    {
      hide Fileable, CanPut;
      if init in initAcks {
        return Some(initAcks[init]);
      }
      var a := init.artifact;
      if !Fileable(setup, total, position, a) || a.dealer != from {
        return None;
      }
      var s := StatementOf(a);
      if s in acks {
        return Some(acks[s]);
      }
      if !init.dealerSigValid {
        return None;
      }
      DealerNonNegative(a);
      var claimed := Claim(a.dealer, s);
      if !claimed {
        return None;
      }
      r := FileAndAcknowledge(init);
    }

    lemma DealerNonNegative(a: Artifact)
      requires Fileable(setup, total, position, a)
      ensures a.dealer >= 0
    {}

    /** Persist first, then sign and remember the acknowledgement. */
    method FileAndAcknowledge(init: Init) returns (r: Option<Ack>)
      requires Valid() && Fileable(setup, total, position, init.artifact)
      requires var s := StatementOf(init.artifact); s.dealer in claims && claims[s.dealer] == s
      modifies this`files, this`acks, this`initAcks
      ensures Valid()
      ensures var k := FileKey(init.artifact.dealer, init.artifact.leaf);
              && (r.Some? <==> CanPut(old(files), k, init.artifact))
              && files == (if r.Some? then old(files)[k := init.artifact] else old(files))
              && (r.Some? ==> Backed(StatementOf(init.artifact), r.value))
              && FilesKept(old(files), files)
    {
      hide Fileable;
      var a, s := init.artifact, StatementOf(init.artifact);
      DealerNonNegative(a);
      var k := FileKey(a.dealer, a.leaf);
      if !CanPut(files, k, a) {
        return None;
      }
      SupportKept(position, claims, files, a);
      files := files[k := a];
      var ack := Ack(a.dealer, position, a.leaf, s);
      acks := acks[s := ack];
      initAcks := initAcks[init := ack];
      r := Some(ack);
    }

    /** The filed artifact for a request. */
    method HandleGet(dealer: int, leaf: Tag) returns (r: Option<Artifact>)
      requires Valid()
      ensures r.Some? <==> FileKey(dealer, leaf) in files
      ensures r.Some? ==> r.value == files[FileKey(dealer, leaf)] && Fileable(setup, total, position, r.value)
    {
      var k := FileKey(dealer, leaf);
      r := if k in files then Some(files[k]) else None;
    }
  }

  // ---------------------------------------------------------------- the retriever

  datatype Descriptor = Descriptor(dealer: int, leaf: Tag, dispersal: Dispersal)

  /** The comparison of dispersals leaves the semantic commitment out. */
  predicate SameDispersal(a: Dispersal, b: Dispersal) {
    a.dataShards == b.dataShards && a.shardBytes == b.shardBytes && a.nonce == b.nonce &&
    a.payloadDigest == b.payloadDigest && a.root == b.root && a.fingerprints == b.fingerprints
  }

  /** What the retriever checks of an artifact sent by the holder at position `h`. */
  predicate RetrieverAccepts(setup: Setup, total: nat, h: int, d: Descriptor, a: Artifact) {
    a.dealer == d.dealer && ValidPiece(setup, a.dispersal, total, a.shard) && a.leaf == d.leaf && a.shard.index == h &&
    SameDispersal(a.dispersal, d.dispersal)
  }

  /** Whoever sent it, an accepted artifact holds a valid shard of the descriptor's dispersal under the sender's index. */
  lemma AcceptedIsValid(setup: Setup, total: nat, h: int, d: Descriptor, a: Artifact)
    requires RetrieverAccepts(setup, total, h, d, a)
    ensures a.dealer == d.dealer && a.leaf == d.leaf && a.shard.index == h && ValidPiece(setup, d.dispersal, total, a.shard)
  {
    SameShape(setup, a.dispersal, d.dispersal, total, a.shard);
  }

  // ---------------------------------------------------------------- the protocol

  type Net = Protocol<FileKey, Artifact, Statement>

  function ComponentProtocol(n: nat, faulty: set<Member>, setup: Setup): Net {
    Protocol(n, faulty, (a: Artifact) => FileKey(a.dealer, a.leaf), (a: Artifact) => StatementOf(a),
             (h, a: Artifact) => Fileable(setup, n, h, a))
  }

  /** The durable part of the system, the dealers' signatures, and the members' volatile claims. */
  datatype System = System(base: State<FileKey, Artifact, Statement>, endorsed: set<Statement>, claims: seq<map<int, Statement>>)

  datatype Event =
    | Endorsing(s: Statement)
    | Claiming(h: Member, s: Statement)
    | Base(step: Step<Artifact, Statement>)

  type Events = seq<Event>

  ghost predicate WellFormed(p: Net, sys: System) {
    Shaped(p, sys.base) && |sys.claims| == p.n
  }

  ghost function Start(p: Net): (r: System)
    ensures WellFormed(p, r)
  {
    System(OneShot.Init(p), {}, seq(p.n, i => map[]))
  }

  /** The member has claimed the statement for its dealer. */
  ghost predicate Claimed(p: Net, sys: System, h: Member, s: Statement)
    requires WellFormed(p, sys) && h < p.n
  {
    s.dealer in sys.claims[h] && sys.claims[h][s.dealer] == s
  }

  /**
    An honest dealer signs a statement it has claimed; a holder claims what its dealer has signed, or its
    own; a member signs only what it has claimed.  Everything else is as in the durable protocol.
   */
  ghost predicate Possible(p: Net, sys: System, e: Event)
    requires WellFormed(p, sys)
  {
    match e
    case Endorsing(s) => 0 <= s.dealer < p.n && (Honest(p, s.dealer) ==> Claimed(p, sys, s.dealer, s))
    case Claiming(h, s) => Honest(p, h) && s.dealer !in sys.claims[h] && (s in sys.endorsed || s.dealer == h)
    case Base(step) => Enabled(p, sys.base, step) && (step.Sign? ==> Claimed(p, sys, step.h, StatementOf(step.r)))
  }

  ghost function After(p: Net, sys: System, e: Event): (r: System)
    requires WellFormed(p, sys) && Possible(p, sys, e)
    ensures WellFormed(p, r)
  {
    match e
    case Endorsing(s) => sys.(endorsed := sys.endorsed + {s})
    case Claiming(h, s) => sys.(claims := sys.claims[h := sys.claims[h][s.dealer := s]])
    case Base(step) =>
      var next := sys.(base := Next(p, sys.base, step));
      if step.Restart? then next.(claims := sys.claims[step.h := map[]]) else next
  }

  ghost function Execute(p: Net, start: System, events: Events): (r: Option<System>)
    requires WellFormed(p, start)
    ensures r.Some? ==> WellFormed(p, r.value)
  {
    if |events| == 0 then Some(start)
    else
      var before := Execute(p, start, events[..|events| - 1]);
      var e := events[|events| - 1];
      if before.None? || !Possible(p, before.value, e) then None else Some(After(p, before.value, e))
  }

  /** The durable steps of a run. */
  function Steps(events: Events): seq<Step<Artifact, Statement>> {
    if |events| == 0 then []
    else
      var e := events[|events| - 1];
      Steps(events[..|events| - 1]) + (if e.Base? then [e.step] else [])
  }

  /** Forgetting the claims turns a run into a run of the durable one-shot protocol. */
  lemma {:induction false} Refines(p: Net, events: Events)
    requires Execute(p, Start(p), events).Some?
    ensures Run(p, Steps(events)) == Some(Execute(p, Start(p), events).value.base)
  {
    if |events| > 0 {
      var front, e := events[..|events| - 1], events[|events| - 1];
      Refines(p, front);
      if e.Base? {
        var steps := Steps(events);
        assert steps[..|steps| - 1] == Steps(front);
      } else {
        assert Steps(events) == Steps(front);
      }
    }
  }

  /** A certificate for the statement exists at the end of the run. */
  ghost predicate HasCertificate(p: Net, events: Events, t: nat, s: Statement) {
    Execute(p, Start(p), events).Some? && Certified(p, Execute(p, Start(p), events).value.base, t, s)
  }

  /** Certificates for one dealer and one leaf digest agree in every run, restarts or not. */
  lemma CertificatesAgreePerLeaf(n: nat, faulty: set<Member>, f: nat, setup: Setup, events: Events, s: Statement,
                                 s': Statement)
    requires n >= 3 * f + 1 && |faulty| <= f && s.dealer == s'.dealer && s.leaf == s'.leaf
    requires var p := ComponentProtocol(n, faulty, setup); HasCertificate(p, events, n - f, s) && HasCertificate(p, events, n - f, s')
    ensures s == s'
  {
    var p := ComponentProtocol(n, faulty, setup);
    Refines(p, events);
    CertificatesAgree(p, Steps(events), f, n - f, s, s', FileKey(s.dealer, s.leaf));
  }

  /** The descriptor check: a valid certificate and the right recovery threshold. */
  ghost predicate DescriptorValid(p: Net, events: Events, f: nat, d: Descriptor) {
    0 <= d.dealer < p.n && p.n >= f && ValidDispersal(d.dispersal, p.n) && d.dispersal.dataShards == p.n - 2 * f &&
    HasCertificate(p, events, p.n - f, Statement(d.dealer, d.leaf, d.dispersal))
  }

  /** The honest members that answer a request with something the retriever accepts. */
  ghost predicate Serves(p: Net, setup: Setup, sys: System, d: Descriptor, h: Member)
    requires WellFormed(p, sys)
  {
    Honest(p, h) && FileKey(d.dealer, d.leaf) in sys.base.files[h] &&
    RetrieverAccepts(setup, p.n, h, d, sys.base.files[h][FileKey(d.dealer, d.leaf)])
  }

  ghost function Servers(p: Net, setup: Setup, sys: System, d: Descriptor): set<Member>
    requires WellFormed(p, sys)
  {
    set h: Member | h in Range(0, p.n) && Serves(p, setup, sys, d, h)
  }

  /** Every valid descriptor is served by at least as many honest holders as recovery needs shards. */
  lemma DescriptorRetrievable(n: nat, faulty: set<Member>, f: nat, setup: Setup, events: Events, d: Descriptor)
    requires n >= 3 * f + 1 && |faulty| <= f && DescriptorValid(ComponentProtocol(n, faulty, setup), events, f, d)
    ensures var p := ComponentProtocol(n, faulty, setup);
            |Servers(p, setup, Execute(p, Start(p), events).value, d)| >= n - 2 * f == d.dispersal.dataShards
  {
    var p := ComponentProtocol(n, faulty, setup);
    var sys := Execute(p, Start(p), events).value;
    var s := Statement(d.dealer, d.leaf, d.dispersal);
    Refines(p, events);
    RunKeepsInv(p, Steps(events));
    CertifiedIsHeld(p, Steps(events), f, n - f, s);
    forall h | h in Holders(p, sys.base, s) ensures h in Servers(p, setup, sys, d) {
      HolderServes(p, faulty, setup, sys, d, h);
    }
    SubsetSize(Holders(p, sys.base, s), Servers(p, setup, sys, d));
  }

  lemma HolderServes(p: Net, faulty: set<Member>, setup: Setup, sys: System,
                     d: Descriptor, h: Member)
    requires p == ComponentProtocol(p.n, faulty, setup) && WellFormed(p, sys) && Inv(p, sys.base)
    requires h in Holders(p, sys.base, Statement(d.dealer, d.leaf, d.dispersal))
    ensures Serves(p, setup, sys, d, h)
  {
    var s := Statement(d.dealer, d.leaf, d.dispersal);
    assert OneShot.Backed(p, sys.base, h, s);
    var a :| Filed(p, sys.base, h, a) && p.statement(a) == s;
    assert p.accept(h, sys.base.files[h][p.key(a)]);
  }
}
