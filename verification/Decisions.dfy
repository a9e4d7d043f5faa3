/**
  The one-shot decision: every old member persists the handoff it is about to sign, once per session,
  before its signature share leaves; a decision certificate needs `n - f` shares.  All handoffs that
  honest nodes accept in a run carry the same header and lock.
 */
module Decisions {
  import opened Common
  import opened Merkle
  import opened OneShot

  /** The aggregate header, by its canonical bytes. */
  type Header = seq<int>

  /** The aggregate recovery certificate: a dispersal lock with its signature. */
  datatype Arc = Arc(instance: Tag, root: Digest, certificate: int)

  /** What is hashed into the decision statement. */
  datatype Statement = Statement(context: Tag, header: Header, arc: Arc)

  datatype Handoff = Handoff(context: Tag, header: Header, arc: Arc)

  datatype Key = Key(sid: string, epoch: nat, member: int)

  /** The durable record names its key and the statement. */
  datatype Record = Record(key: Key, statement: Statement)

  // ---------------------------------------------------------------- the member's store

  class DecisionStore {
    var files: map<Key, Record>

    constructor ()
      ensures files == map[]
    {
      files := map[];
    }

    /** The write is the one-shot transition; the statement is signed only when its record is the one on file. */
    method SignHandoffOnce(sid: string, epoch: nat, member: int, context: Tag, header: Header, arc: Arc, canSign: bool)
      returns (r: Option<Statement>)
      modifies this
      ensures var k := Key(sid, epoch, member);
              var record := Record(k, Statement(context, header, arc));
              var ok := !Blank(sid) && 0 < epoch <= MAX_EPOCH && member >= 0 && canSign && CanPut(old(files), k, record);
              r == (if ok then Some(record.statement) else None) &&
              files == if ok then old(files)[k := record] else old(files)
      ensures forall k :: k in old(files) ==> k in files && files[k] == old(files)[k]
    {
      if sid == "" || epoch == 0 || member < 0 || !canSign {
        return None;
      }
      if epoch > MAX_EPOCH || Blank(sid) {
        return None;
      }
      var k := Key(sid, epoch, member);
      var record := Record(k, Statement(context, header, arc));
      if !CanPut(files, k, record) {
        return None;
      }
      files := files[k := record];
      r := Some(record.statement);
    }
  }

  // ---------------------------------------------------------------- the protocol

  type DecisionSteps = seq<Step<Record, Statement>>
  type DecisionNet = Protocol<bool, Record, Statement>

  function StatementOf(h: Handoff): Statement {
    Statement(h.context, h.header, h.arc)
  }

  /** One session: each member has one key, its own. */
  function DecisionProtocol(n: nat, faulty: set<Member>, sid: string, epoch: nat): DecisionNet {
    Protocol(n, faulty, (r: Record) => true, (r: Record) => r.statement, (h, r: Record) => r.key == Key(sid, epoch, h))
  }

  /** The handoff passes the decision certificate check at that point of the run. */
  ghost predicate HandoffValid(p: DecisionNet, steps: DecisionSteps, t: nat, context: Tag, h: Handoff) {
    Run(p, steps).Some? && h.context == context && Certified(p, Run(p, steps).value, t, StatementOf(h))
  }

  // ---------------------------------------------------------------- the receiving node

  /** What a node remembers about handoffs. */
  class Receiver {
    const isOld: bool
    const isNew: bool
    const context: Tag
    var verified: Option<Handoff>
    var accepted: Option<Handoff>
    var certificates: set<Statement>

    /** Everything remembered has a valid decision certificate at this point of the run. */
    ghost predicate Sound(p: DecisionNet, steps: DecisionSteps, t: nat)
      reads this
    {
      && Run(p, steps).Some?
      && (verified.Some? ==> HandoffValid(p, steps, t, context, verified.value))
      && (accepted.Some? ==> HandoffValid(p, steps, t, context, accepted.value))
      && (forall s :: s in certificates ==> s.context == context && Certified(p, Run(p, steps).value, t, s))
    }

    constructor (isOld: bool, isNew: bool, context: Tag)
      ensures verified == None && accepted == None && certificates == {}
      ensures this.isOld == isOld && this.isNew == isNew && this.context == context
    {
      this.isOld, this.isNew, this.context := isOld, isNew, context;
      verified, accepted, certificates := None, None, {};
    }

    /**
      The first valid handoff is kept for ever; an old member also keeps the certificate.  `valid` is the
      outcome of the certificate check when the handoff arrives, `more` steps after the node was last
      looked at.
     */
    method HandleHandoff(handoff: Handoff, valid: bool, ghost p: DecisionNet, ghost steps: DecisionSteps,
                         ghost more: DecisionSteps, ghost t: nat)
      requires Sound(p, steps, t) && Run(p, steps + more).Some?
      requires valid <==> HandoffValid(p, steps + more, t, context, handoff)
      modifies this
      ensures Sound(p, steps + more, t)
      ensures var ok := (isOld || isNew) && old(verified) != Some(handoff) && valid;
              && accepted == (if ok && isNew && old(accepted).None? then Some(handoff) else old(accepted))
              && certificates == (if ok && isOld then old(certificates) + {StatementOf(handoff)} else old(certificates))
              && verified == (if ok && old(verified).None? then Some(handoff) else old(verified))
    {
      hide HandoffValid, Certified;
      StillSound(p, steps, more, t);
      if !isOld && !isNew {
        return;
      }
      if verified == Some(handoff) {
        return;
      }
      if !valid {
        return;
      }
      ValidIsCertified(p, steps + more, t, context, handoff);
      if verified == None {
        verified := Some(handoff);
      }
      if isOld {
        certificates := certificates + {StatementOf(handoff)};
      }
      if isNew && accepted == None {
        accepted := Some(handoff);
      }
    }

    /** What a node remembers stays valid however the run goes on. */
    lemma StillSound(p: DecisionNet, steps: DecisionSteps, more: DecisionSteps, t: nat)
      requires Sound(p, steps, t) && Run(p, steps + more).Some?
      ensures Sound(p, steps + more, t)
    {
      if verified.Some? {
        CertifiedStays(p, steps, more, t, StatementOf(verified.value));
      }
      if accepted.Some? {
        CertifiedStays(p, steps, more, t, StatementOf(accepted.value));
      }
      forall s | s in certificates ensures Certified(p, Run(p, steps + more).value, t, s) {
        CertifiedStays(p, steps, more, t, s);
      }
    }
  }

  lemma ValidIsCertified(p: DecisionNet, steps: DecisionSteps, t: nat, context: Tag, h: Handoff)
    requires HandoffValid(p, steps, t, context, h)
    ensures Run(p, steps).Some? && h.context == context && Certified(p, Run(p, steps).value, t, StatementOf(h))
  {}

  /** No honest member ever signs two decision statements in one session, restarts included. */
  lemma MemberDecidesOnce(n: nat, faulty: set<Member>, sid: string, epoch: nat, steps: DecisionSteps, h: Member,
                          s: Statement, s': Statement)
    requires var p := DecisionProtocol(n, faulty, sid, epoch);
             Run(p, steps).Some? && Honest(p, h) &&
             (h, s) in Run(p, steps).value.signed && (h, s') in Run(p, steps).value.signed
    ensures s == s'
  {
    HonestSignsOnce(DecisionProtocol(n, faulty, sid, epoch), steps, h, s, s', true);
  }

  /**
    Decision agreement: at any two points of a run, with `2t > n + f`, two valid handoffs carry the same
    header and lock.
   */
  lemma DecisionAgreement(n: nat, faulty: set<Member>, f: nat, t: nat, sid: string, epoch: nat, steps: DecisionSteps,
                          more: DecisionSteps, context: Tag, a: Handoff, b: Handoff)
    requires |faulty| <= f && 2 * t > n + f
    requires HandoffValid(DecisionProtocol(n, faulty, sid, epoch), steps, t, context, a)
    requires HandoffValid(DecisionProtocol(n, faulty, sid, epoch), steps + more, t, context, b)
    ensures a == b
  {
    var p := DecisionProtocol(n, faulty, sid, epoch);
    CertifiedStays(p, steps, more, t, StatementOf(a));
    CertificatesAgree(p, steps + more, f, t, StatementOf(a), StatementOf(b), true);
  }

  /** The derived decision threshold `n - f` always suffices, since `n >= 3f + 1`. */
  lemma DerivedDecisionThreshold(n: nat, faulty: set<Member>, f: nat, sid: string, epoch: nat, steps: DecisionSteps,
                                 more: DecisionSteps, context: Tag, a: Handoff, b: Handoff)
    requires n >= 3 * f + 1 && |faulty| <= f
    requires HandoffValid(DecisionProtocol(n, faulty, sid, epoch), steps, n - f, context, a)
    requires HandoffValid(DecisionProtocol(n, faulty, sid, epoch), steps + more, n - f, context, b)
    ensures a == b
  {
    DecisionAgreement(n, faulty, f, n - f, sid, epoch, steps, more, context, a, b);
  }

  /** A decision that the honest members take is certified by them alone: its handoff becomes valid. */
  lemma DecisionReached(n: nat, faulty: set<Member>, f: nat, sid: string, epoch: nat, h: Handoff) returns (steps: DecisionSteps)
    requires |faulty| <= f <= n
    ensures forall k :: 0 <= k < |steps| ==> steps[k].Persist? || steps[k].Sign?
    ensures HandoffValid(DecisionProtocol(n, faulty, sid, epoch), steps, n - f, h.context, h)
  {
    var r := (m: Member) => Record(Key(sid, epoch, m), StatementOf(h));
    steps := HonestCertify(DecisionProtocol(n, faulty, sid, epoch), r, StatementOf(h), f);
  }

  /** Whatever two nodes have accepted in a run is the same handoff. */
  lemma ReceiversAgree(n: nat, faulty: set<Member>, f: nat, t: nat, sid: string, epoch: nat, steps: DecisionSteps,
                       a: Receiver, b: Receiver)
    requires |faulty| <= f && 2 * t > n + f && a.context == b.context
    requires a.Sound(DecisionProtocol(n, faulty, sid, epoch), steps, t)
    requires b.Sound(DecisionProtocol(n, faulty, sid, epoch), steps, t)
    ensures a.accepted.Some? && b.accepted.Some? ==> a.accepted == b.accepted
  {
    if a.accepted.Some? && b.accepted.Some? {
      assert steps + [] == steps;
      DecisionAgreement(n, faulty, f, t, sid, epoch, steps, [], a.context, a.accepted.value, b.accepted.value);
    }
  }
}
