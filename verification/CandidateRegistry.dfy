/**
  The registry of certified candidates: announcements, candidates from the network and the node's own
  publication arrive in any order.  Each proposer has at most one accepted candidate, so the channel of
  accepted candidates, which holds one per sampled proposer, never fills.

  A node publishes only what it has certified, and certification refuses a proposer outside the sample.
  Publication itself does not look at the sample again; `OverflowExactly` says what that check is worth.
 */
module CandidateRegistry {
  import opened Common

  /** A verified agreement object; its digest determines it. */
  datatype Candidate = Candidate(proposer: int, body: seq<int>)
  datatype Digest = Of(c: Candidate) | Unknown(id: nat)

  /** The eligibility sample, its size, which is also the channel's capacity, and the local node. */
  datatype Config = Config(eligible: set<int>, sampleSize: nat, local: int)

  datatype State = State(digestByProposer: map<int, Digest>, candidates: set<Candidate>, sent: seq<Candidate>)

  datatype Event =
    | Announce(origin: int, digest: Digest)
    | Network(c: Candidate)
    | Publish(c: Candidate)

  // ---------------------------------------------------------------- the transitions

  /** `rememberVerifiedCertifiedCandidateScalar`: the first candidate of a proposer is kept and sent on. */
  function Remember(st: State, c: Candidate): State {
    if c.proposer in st.digestByProposer && st.digestByProposer[c.proposer] != Of(c) then st
    else if c in st.candidates then st
    else State(st.digestByProposer[c.proposer := Of(c)], st.candidates + {c}, st.sent + [c])
  }

  /** `registerCandidateOriginScalar`: an eligible origin reserves its slot for one digest. */
  function Register(cfg: Config, st: State, origin: int, digest: Digest): State {
    if origin !in cfg.eligible || origin in st.digestByProposer || |st.digestByProposer| >= cfg.sampleSize then st
    else st.(digestByProposer := st.digestByProposer[origin := digest])
  }

  /** `CertifyAggregate` validates the request, and with it that the proposer is in the sample. */
  predicate Certifiable(cfg: Config, c: Candidate) {
    c.proposer in cfg.eligible
  }

  /**
    Network candidates are fully validated, so their proposer is eligible.  A local candidate is the
    node's own; `certifies` says that it went through certification first, as it does in the program.
   */
  function Step(cfg: Config, certifies: bool, st: State, e: Event): State {
    match e
    case Announce(origin, digest) => Register(cfg, st, origin, digest)
    case Network(c) => if c.proposer in cfg.eligible then Remember(st, c) else st
    case Publish(c) => if c.proposer == cfg.local && (certifies ==> Certifiable(cfg, c)) then Remember(st, c) else st
  }

  /** The runs of the program, and with `certifies` off those of publication without certification. */
  function RunWith(cfg: Config, certifies: bool, events: seq<Event>): State {
    if |events| == 0 then State(map[], {}, [])
    else Step(cfg, certifies, RunWith(cfg, certifies, events[..|events| - 1]), events[|events| - 1])
  }

  function Run(cfg: Config, events: seq<Event>): State {
    RunWith(cfg, true, events)
  }

  // ---------------------------------------------------------------- the registry object

  class Registry {
    const cfg: Config
    var digestByProposer: map<int, Digest>
    var candidates: set<Candidate>
    var origins: map<Digest, set<int>>
    var sent: seq<Candidate>

    function Value(): State
      reads this
    {
      State(digestByProposer, candidates, sent)
    }

    constructor (cfg: Config)
      ensures this.cfg == cfg && Value() == State(map[], {}, [])
    {
      this.cfg := cfg;
      digestByProposer, candidates, origins, sent := map[], {}, map[], [];
    }

    /** `Some(true)` when newly accepted, `Some(false)` when already known, `None` on a conflict. */
    method RememberVerified(c: Candidate) returns (r: Option<bool>)
      modifies this`digestByProposer, this`candidates, this`sent
      ensures Value() == Remember(old(Value()), c)
      ensures r == Some(true) <==> sent == old(sent) + [c]
      ensures r.None? <==> c.proposer in old(digestByProposer) && old(digestByProposer)[c.proposer] != Of(c)
    {
      var digest := Of(c);
      if c.proposer in digestByProposer && digestByProposer[c.proposer] != digest {
        return None;
      }
      if c in candidates {
        return Some(false);
      }
      digestByProposer := digestByProposer[c.proposer := digest];
      candidates := candidates + {c};
      sent := sent + [c];
      r := Some(true);
    }

    /** A candidate from the network, after full validation. */
    method AcceptNetwork(c: Candidate) returns (r: Option<bool>)
      modifies this`digestByProposer, this`candidates, this`sent
      ensures Value() == Step(cfg, true, old(Value()), Network(c))
    {
      if c.proposer !in cfg.eligible {
        return None;
      }
      r := RememberVerified(c);
    }

    /** The local proposer slot: certify, then publish. */
    method CertifyAndPublish(c: Candidate) returns (r: Option<bool>)
      modifies this`digestByProposer, this`candidates, this`sent
      ensures Value() == Step(cfg, true, old(Value()), Publish(c))
    {
      if !Certifiable(cfg, c) || c.proposer != cfg.local {
        return None;
      }
      r := RememberVerified(c);
    }

    method RegisterOrigin(origin: int, digest: Digest) returns (ok: bool)
      modifies this`digestByProposer, this`origins
      ensures Value() == Register(cfg, old(Value()), origin, digest)
      ensures ok <==> origin in cfg.eligible && origin !in old(digestByProposer) && |old(digestByProposer)| < cfg.sampleSize
      ensures ok ==> digest in origins && origin in origins[digest]
    {
      if origin !in cfg.eligible {
        return false;
      }
      if origin in digestByProposer {
        return false;
      }
      if |digestByProposer| >= cfg.sampleSize {
        return false;
      }
      digestByProposer := digestByProposer[origin := digest];
      var known := if digest in origins then origins[digest] else {};
      origins := origins[digest := known + {origin}];
      ok := true;
    }
  }

  // ---------------------------------------------------------------- every run

  /** Accepted candidates are sent once each, hold their proposer's slot and come from the sample. */
  ghost predicate Inv(cfg: Config, certifies: bool, st: State) {
    && (forall c :: c in st.candidates ==> c.proposer in st.digestByProposer && st.digestByProposer[c.proposer] == Of(c))
    && (forall c :: c in st.candidates ==> c.proposer in cfg.eligible || (!certifies && c.proposer == cfg.local))
    && (forall c :: c in st.sent <==> c in st.candidates)
    && (forall i, j :: 0 <= i < j < |st.sent| ==> st.sent[i] != st.sent[j])
  }

  lemma {:induction false} RunKeepsInv(cfg: Config, certifies: bool, events: seq<Event>)
    ensures Inv(cfg, certifies, RunWith(cfg, certifies, events))
  {
    if |events| > 0 {
      RunKeepsInv(cfg, certifies, events[..|events| - 1]);
    }
  }

  /** In every interleaving each proposer has at most one accepted candidate, and it is eligible. */
  lemma OnePerProposer(cfg: Config, events: seq<Event>, c: Candidate, d: Candidate)
    requires c in Run(cfg, events).candidates && d in Run(cfg, events).candidates && c.proposer == d.proposer
    ensures c == d && c.proposer in cfg.eligible
  {
    RunKeepsInv(cfg, true, events);
  }

  /** What the slot of a proposer holds. */
  function Slot(st: State, proposer: int): Option<Digest> {
    if proposer in st.digestByProposer then Some(st.digestByProposer[proposer]) else None
  }

  /** A network candidate is accepted and sent exactly when it is eligible and its slot is free or its own. */
  lemma NetworkExactly(cfg: Config, events: seq<Event>, c: Candidate)
    ensures var before, after := Run(cfg, events), Run(cfg, events + [Network(c)]);
            (c in after.candidates <==> c.proposer in cfg.eligible && (Slot(before, c.proposer) in {None, Some(Of(c))})) &&
            (c in after.sent <==> c in after.candidates)
  {
    RunKeepsInv(cfg, true, events);
    RunKeepsInv(cfg, true, events + [Network(c)]);
    assert (events + [Network(c)])[..|events|] == events;
  }

  /** An announcement takes the slot exactly when the origin is eligible, the slot free and the sample not full. */
  lemma AnnounceExactly(cfg: Config, events: seq<Event>, origin: int, digest: Digest)
    ensures var before, after := Run(cfg, events), Run(cfg, events + [Announce(origin, digest)]);
            if origin in cfg.eligible && Slot(before, origin).None? && |before.digestByProposer| < cfg.sampleSize
            then Slot(after, origin) == Some(digest) else after == before
  {
    assert (events + [Announce(origin, digest)])[..|events|] == events;
  }

  /** A slot, once taken, keeps its digest, and what was sent stays sent. */
  lemma {:induction false} SlotStays(cfg: Config, events: seq<Event>, more: seq<Event>, proposer: int)
    requires Slot(Run(cfg, events), proposer).Some?
    ensures Slot(Run(cfg, events + more), proposer) == Slot(Run(cfg, events), proposer)
    decreases |more|
  {
    if |more| == 0 {
      assert events + more == events;
    } else {
      var front := more[..|more| - 1];
      SlotStays(cfg, events, front, proposer);
      assert (events + more)[..|events + more| - 1] == events + front;
    }
  }

  /**
    The announced candidate gets through: once its origin has reserved the slot with its digest, then
    whatever else arrives in between, the candidate is accepted and sent when it comes, and no other
    candidate of that origin ever is.
   */
  lemma AnnouncedIsSent(cfg: Config, events: seq<Event>, more: seq<Event>, c: Candidate, d: Candidate)
    requires c.proposer in cfg.eligible && Slot(Run(cfg, events), c.proposer).None?
    requires |Run(cfg, events).digestByProposer| < cfg.sampleSize
    requires d.proposer == c.proposer && d != c
    ensures var announced := events + [Announce(c.proposer, Of(c))];
            c in Run(cfg, announced + more + [Network(c)]).sent && d !in Run(cfg, announced + more).sent
  {
    var announced := events + [Announce(c.proposer, Of(c))];
    AnnounceExactly(cfg, events, c.proposer, Of(c));
    SlotStays(cfg, announced, more, c.proposer);
    NetworkExactly(cfg, announced + more, c);
    RunKeepsInv(cfg, true, announced + more);
  }

  lemma {:induction false} DistinctProposers(sent: seq<Candidate>, proposers: set<int>)
    requires forall i :: 0 <= i < |sent| ==> sent[i].proposer in proposers
    requires forall i, j :: 0 <= i < j < |sent| ==> sent[i].proposer != sent[j].proposer
    ensures |sent| <= |proposers|
  {
    if |sent| > 0 {
      var last := sent[|sent| - 1].proposer;
      DistinctProposers(sent[..|sent| - 1], proposers - {last});
    }
  }

  lemma SentFrom(cfg: Config, certifies: bool, events: seq<Event>, proposers: set<int>)
    requires forall c :: c in RunWith(cfg, certifies, events).candidates ==> c.proposer in proposers
    ensures |RunWith(cfg, certifies, events).sent| <= |proposers|
  {
    var st := RunWith(cfg, certifies, events);
    RunKeepsInv(cfg, certifies, events);
    forall i, j | 0 <= i < j < |st.sent| ensures st.sent[i].proposer != st.sent[j].proposer {
      assert st.sent[i] in st.candidates && st.sent[j] in st.candidates;
    }
    forall i | 0 <= i < |st.sent| ensures st.sent[i].proposer in proposers {
      assert st.sent[i] in st.candidates;
    }
    DistinctProposers(st.sent, proposers);
  }

  /** In every run the candidates ever sent number at most the sample, so no send on the channel blocks. */
  lemma SentBound(cfg: Config, events: seq<Event>)
    requires |cfg.eligible| <= cfg.sampleSize
    ensures |Run(cfg, events).sent| <= cfg.sampleSize
  {
    RunKeepsInv(cfg, true, events);
    SentFrom(cfg, true, events, cfg.eligible);
  }

  /** A run in which the given proposers send one candidate each. */
  function OneEach(proposers: seq<int>): seq<Event> {
    seq(|proposers|, i requires 0 <= i < |proposers| => Network(Candidate(proposers[i], [])))
  }

  lemma {:induction false} OneEachAccepted(cfg: Config, certifies: bool, proposers: seq<int>)
    requires forall i :: 0 <= i < |proposers| ==> proposers[i] in cfg.eligible
    requires forall i, j :: 0 <= i < j < |proposers| ==> proposers[i] != proposers[j]
    ensures var st := RunWith(cfg, certifies, OneEach(proposers));
            |st.sent| == |proposers| && (forall p :: p in st.digestByProposer <==> p in proposers) &&
            forall c :: c in st.candidates ==> c.proposer in proposers
  {
    if |proposers| > 0 {
      var front := proposers[..|proposers| - 1];
      OneEachAccepted(cfg, certifies, front);
      assert OneEach(proposers)[..|proposers| - 1] == OneEach(front);
      assert proposers == front + [proposers[|proposers| - 1]];
    }
  }

  lemma {:induction false} Listing(s: set<int>) returns (xs: seq<int>)
    ensures |xs| == |s| && forall i :: 0 <= i < |xs| ==> xs[i] in s
    ensures forall i, j :: 0 <= i < j < |xs| ==> xs[i] != xs[j]
    decreases s
  {
    if s == {} {
      xs := [];
    } else {
      NonEmpty(s);
      var x :| x in s;
      var rest := Listing(s - {x});
      xs := rest + [x];
    }
  }

  /** Some run sends more candidates than the channel holds. */
  ghost predicate CanOverflow(cfg: Config, certifies: bool) {
    exists events :: |RunWith(cfg, certifies, events).sent| > cfg.sampleSize
  }

  /**
    Certification is what keeps the channel from overflowing: without it, and only then, a node outside
    a full sample could send one candidate too many.
   */
  lemma OverflowExactly(cfg: Config, certifies: bool)
    requires |cfg.eligible| == cfg.sampleSize
    ensures CanOverflow(cfg, certifies) <==> !certifies && cfg.local !in cfg.eligible
  {
    if certifies || cfg.local in cfg.eligible {
      forall events ensures |RunWith(cfg, certifies, events).sent| <= cfg.sampleSize {
        RunKeepsInv(cfg, certifies, events);
        SentFrom(cfg, certifies, events, cfg.eligible);
      }
    } else {
      var proposers := Listing(cfg.eligible);
      OneEachAccepted(cfg, certifies, proposers);
      var events := OneEach(proposers) + [Publish(Candidate(cfg.local, []))];
      assert events[..|events| - 1] == OneEach(proposers);
      assert |RunWith(cfg, certifies, events).sent| > cfg.sampleSize;
    }
  }
}
