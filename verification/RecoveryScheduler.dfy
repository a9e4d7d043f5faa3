/**
  The request scheduler of a recovery: planned waves first, then retry rounds to whoever has not been
  reached.  The environment decides which sends succeed and when cancellation or completion is seen.
 */
module RecoveryScheduler {
  import opened Common

  /** What a poll of the two contexts and the completion channel finds. */
  datatype Poll = Clear | Cancelled | Completed

  datatype Wave = Wave(recipients: seq<int>, hasGrace: bool, waitAfterSend: bool)

  /** `delivers(k, r)`: the `k`-th send reports success for `r`.  `poll(k)`: what the `k`-th poll sees. */
  datatype Environment = Environment(delivers: (nat, int) -> bool, poll: nat -> Poll)

  datatype Outcome = Ready | Reached | Cancel | Exhausted

  // ---------------------------------------------------------------- what happened

  /** Recipient `r` was reached by one of the sends in the log. */
  ghost predicate WasReached(env: Environment, log: seq<seq<int>>, r: int) {
    exists k :: 0 <= k < |log| && r in log[k] && env.delivers(k, r)
  }

  /** Everyone reached by the sends in the log. */
  ghost function ReachedBy(env: Environment, log: seq<seq<int>>): set<int> {
    set k, r | 0 <= k < |log| && r in log[k] && env.delivers(k, r) :: r
  }

  /** No send addresses a recipient that an earlier send has reached. */
  ghost predicate NeverResends(env: Environment, log: seq<seq<int>>) {
    forall j, k, r :: 0 <= j < k < |log| && r in log[j] && env.delivers(j, r) ==> r !in log[k]
  }

  /** The reports are exactly the recipients reached, each once. */
  ghost predicate ReportsExact(env: Environment, log: seq<seq<int>>, reported: seq<int>) {
    (forall i, j :: 0 <= i < j < |reported| ==> reported[i] != reported[j]) &&
    forall r :: r in reported <==> WasReached(env, log, r)
  }

  ghost predicate OnlyTo(log: seq<seq<int>>, recipients: seq<int>) {
    forall k, r :: 0 <= k < |log| && r in log[k] ==> r in recipients
  }

  /** Everything the scheduler keeps while it runs. */
  ghost predicate Sound(env: Environment, recipients: seq<int>, log: seq<seq<int>>, reported: seq<int>, succeeded: set<int>) {
    NeverResends(env, log) && ReportsExact(env, log, reported) && OnlyTo(log, recipients) &&
    (forall r :: r in succeeded <==> r in reported) && |succeeded| == |reported| && succeeded == ReachedBy(env, log)
  }

  // ---------------------------------------------------------------- one send

  /** The recipients of the next send have not been reached yet. */
  ghost predicate FreshTargets(succeeded: set<int>, recipients: seq<int>, targets: seq<int>) {
    forall r :: r in targets ==> r !in succeeded && r in recipients
  }

  /** Process the results of one send: new successes are reported, failures stay missing. */
  method Track(env: Environment, ghost recipients: seq<int>, log: seq<seq<int>>, reported: seq<int>, succeeded: set<int>, targets: seq<int>)
    returns (log': seq<seq<int>>, reported': seq<int>, succeeded': set<int>, missing: seq<int>)
    requires Sound(env, recipients, log, reported, succeeded) && FreshTargets(succeeded, recipients, targets)
    ensures log' == log + [targets] && Sound(env, recipients, log', reported', succeeded')
    ensures succeeded <= succeeded'
    ensures forall r :: r in missing <==> r in targets && r !in succeeded'
  {
    var k := |log|;
    log' := log + [targets];
    reported', succeeded', missing := reported, succeeded, [];
    for i := 0 to |targets|
      invariant succeeded <= succeeded' && |succeeded'| == |reported'|
      invariant forall r :: r in succeeded' <==> r in reported'
      invariant forall i, j :: 0 <= i < j < |reported'| ==> reported'[i] != reported'[j]
      invariant forall r :: r in reported' <==> r in reported || (r in targets[..i] && env.delivers(k, r))
      invariant forall r :: r in missing <==> r in targets[..i] && !env.delivers(k, r)
    {
      var recipient := targets[i];
      assert targets[..i + 1] == targets[..i] + [recipient];
      if !env.delivers(k, recipient) {
        missing := missing + [recipient];
      } else if recipient !in succeeded' {
        succeeded' := succeeded' + {recipient};
        reported' := reported' + [recipient];
      }
    }
    assert targets[..|targets|] == targets;
    SendKeepsSound(env, recipients, log, reported, succeeded, targets, reported');
  }

  lemma SendKeepsSound(env: Environment, recipients: seq<int>, log: seq<seq<int>>, reported: seq<int>, succeeded: set<int>,
                       targets: seq<int>, reported': seq<int>)
    requires Sound(env, recipients, log, reported, succeeded) && FreshTargets(succeeded, recipients, targets)
    requires forall i, j :: 0 <= i < j < |reported'| ==> reported'[i] != reported'[j]
    requires forall r :: r in reported' <==> r in reported || (r in targets && env.delivers(|log|, r))
    ensures var log' := log + [targets]; NeverResends(env, log') && OnlyTo(log', recipients) && ReportsExact(env, log', reported')
  {
    var log' := log + [targets];
    forall j, k, r | 0 <= j < k < |log'| && r in log'[j] && env.delivers(j, r) ensures r !in log'[k] {
      assert WasReached(env, log, r);
    }
    forall r ensures r in reported' <==> WasReached(env, log', r) {
      if r in reported {
        var k :| 0 <= k < |log| && r in log[k] && env.delivers(k, r);
        assert r in log'[k];
      } else if r in reported' {
        assert r in log'[|log|];
      }
      if WasReached(env, log', r) {
        var k :| 0 <= k < |log'| && r in log'[k] && env.delivers(k, r);
        if k < |log| {
          assert WasReached(env, log, r);
        }
      }
    }
  }

  /** The targets of a wave: allowed, not reached yet, each once. */
  method WaveTargets(recipients: seq<int>, succeeded: set<int>, wave: seq<int>) returns (targets: seq<int>)
    ensures FreshTargets(succeeded, recipients, targets)
    ensures forall r :: r in targets <==> r in wave && r in recipients && r !in succeeded
    ensures forall i, j :: 0 <= i < j < |targets| ==> targets[i] != targets[j]
  {
    targets := [];
    for i := 0 to |wave|
      invariant forall r :: r in targets <==> r in wave[..i] && r in recipients && r !in succeeded
      invariant forall i, j :: 0 <= i < j < |targets| ==> targets[i] != targets[j]
    {
      assert wave[..i + 1] == wave[..i] + [wave[i]];
      if wave[i] in recipients && wave[i] !in succeeded && wave[i] !in targets {
        targets := targets + [wave[i]];
      }
    }
    assert wave[..|wave|] == wave;
  }

  method Unreached(recipients: seq<int>, succeeded: set<int>) returns (missing: seq<int>)
    ensures FreshTargets(succeeded, recipients, missing)
    ensures forall r :: r in missing <==> r in recipients && r !in succeeded
  {
    missing := [];
    for i := 0 to |recipients|
      invariant forall r :: r in missing <==> r in recipients[..i] && r !in succeeded
    {
      assert recipients[..i + 1] == recipients[..i] + [recipients[i]];
      if recipients[i] !in succeeded {
        missing := missing + [recipients[i]];
      }
    }
    assert recipients[..|recipients|] == recipients;
  }

  // ---------------------------------------------------------------- the schedule

  /** What the caller learns: the sends made, the successes reported and how it ended. */
  datatype Result = Result(outcome: Outcome, log: seq<seq<int>>, reported: seq<int>, succeeded: set<int>)

  /** Completion and cancellation are only ever reported when a poll has seen them. */
  ghost predicate Observed(env: Environment, outcome: Outcome) {
    match outcome
    case Ready => exists k :: env.poll(k) == Completed
    case Cancel => exists k :: env.poll(k) == Cancelled
    case _ => false
  }

  /** Send number `k` asks exactly the members of the group that are recipients and not reached before. */
  ghost predicate Asks(env: Environment, recipients: seq<int>, log: seq<seq<int>>, k: nat, group: seq<int>)
    requires k < |log|
  {
    forall r :: r in log[k] <==> r in group && r in recipients && !WasReached(env, log[..k], r)
  }

  /** Everyone in the group that may be asked was reached by one of the first `k` sends. */
  ghost predicate NobodyLeft(env: Environment, recipients: seq<int>, log: seq<seq<int>>, k: nat, group: seq<int>)
    requires k <= |log|
  {
    forall r :: r in group && r in recipients ==> WasReached(env, log[..k], r)
  }

  /** How many of the sends belong to earlier waves. */
  ghost function Before(sent: seq<nat>, w: nat): (k: nat)
    ensures k <= |sent|
  {
    if |sent| == 0 then 0
    else if sent[|sent| - 1] < w then |sent|
    else Before(sent[..|sent| - 1], w)
  }

  /**
    The sends are the waves: one per wave that still has someone to ask, in wave order; `sent[k]` is the
    wave of send `k`.  A wave without a send had nobody left when its turn came.
   */
  ghost predicate WavesSent(env: Environment, recipients: seq<int>, waves: seq<Wave>, log: seq<seq<int>>, sent: seq<nat>) {
    && |sent| == |log|
    && (forall k :: 0 <= k < |log| ==> sent[k] < |waves| && log[k] != [] && Asks(env, recipients, log, k, waves[sent[k]].recipients))
    && (forall j, k :: 0 <= j < k < |sent| ==> sent[j] < sent[k])
    && forall w :: 0 <= w < |waves| && w !in sent ==> NobodyLeft(env, recipients, log, Before(sent, w), waves[w].recipients)
  }

  /** Each of the last `rounds` sends asks exactly the recipients that are not reached yet. */
  ghost predicate Retries(env: Environment, recipients: seq<int>, log: seq<seq<int>>, rounds: nat) {
    rounds <= |log| && forall k :: |log| - rounds <= k < |log| ==> Asks(env, recipients, log, k, recipients)
  }

  ghost predicate AllReached(recipients: seq<int>, succeeded: set<int>) {
    forall r :: r in recipients ==> r in succeeded
  }

  lemma Start(env: Environment, recipients: seq<int>)
    ensures Sound(env, recipients, [], [], {}) && WavesSent(env, recipients, [], [], [])
  {}

  /** One more send leaves the earlier ones as they were. */
  lemma EarlierSends(env: Environment, recipients: seq<int>, log: seq<seq<int>>, targets: seq<int>, k: nat, group: seq<int>)
    requires k <= |log|
    ensures k < |log| ==> (Asks(env, recipients, log + [targets], k, group) <==> Asks(env, recipients, log, k, group))
    ensures NobodyLeft(env, recipients, log + [targets], k, group) <==> NobodyLeft(env, recipients, log, k, group)
  {
    assert (log + [targets])[..k] == log[..k];
  }

  /** A wave that is sent. */
  lemma WaveIsSent(env: Environment, recipients: seq<int>, waves: seq<Wave>, log: seq<seq<int>>, sent: seq<nat>, w: nat,
                   targets: seq<int>)
    requires w < |waves| && WavesSent(env, recipients, waves[..w], log, sent) && targets != []
    requires forall r :: r in targets <==> r in waves[w].recipients && r in recipients && !WasReached(env, log, r)
    ensures WavesSent(env, recipients, waves[..w + 1], log + [targets], sent + [w])
  {
    hide Asks, NobodyLeft;
    var log', sent' := log + [targets], sent + [w];
    LastSend(env, recipients, log, targets, waves[w].recipients);
    forall k | 0 <= k < |log| ensures log'[k] != [] && Asks(env, recipients, log', k, waves[..w + 1][sent'[k]].recipients) {
      EarlierSends(env, recipients, log, targets, k, waves[sent[k]].recipients);
    }
    forall v | 0 <= v < w + 1 && v !in sent' ensures NobodyLeft(env, recipients, log', Before(sent', v), waves[..w + 1][v].recipients) {
      NotSentBefore(sent, w, v);
      EarlierSends(env, recipients, log, targets, Before(sent, v), waves[v].recipients);
    }
  }

  lemma NotSentBefore(sent: seq<nat>, w: nat, v: nat)
    requires v <= w && v !in sent + [w]
    ensures v < w && v !in sent && Before(sent + [w], v) == Before(sent, v)
  {
    assert (sent + [w])[|sent|] == w;
    assert (sent + [w])[..|sent|] == sent;
  }

  lemma LastSend(env: Environment, recipients: seq<int>, log: seq<seq<int>>, targets: seq<int>, group: seq<int>)
    requires forall r :: r in targets <==> r in group && r in recipients && !WasReached(env, log, r)
    ensures Asks(env, recipients, log + [targets], |log|, group)
  {
    assert (log + [targets])[..|log|] == log;
  }

  /** A wave that has nobody left. */
  lemma WaveIsSkipped(env: Environment, recipients: seq<int>, waves: seq<Wave>, log: seq<seq<int>>, sent: seq<nat>, w: nat)
    requires w < |waves| && WavesSent(env, recipients, waves[..w], log, sent)
    requires forall r :: r in waves[w].recipients && r in recipients ==> WasReached(env, log, r)
    ensures WavesSent(env, recipients, waves[..w + 1], log, sent)
  {
    assert log[..|log|] == log;
  }

  lemma SucceededIsReached(env: Environment, recipients: seq<int>, log: seq<seq<int>>, reported: seq<int>, succeeded: set<int>)
    requires Sound(env, recipients, log, reported, succeeded)
    ensures forall r :: r in succeeded <==> WasReached(env, log, r)
    ensures succeeded == ReachedBy(env, log)
  {}

  /** The waves; `None` in `ended` means the schedule goes on, and then all waves have been dealt with. */
  method RunWaves(env: Environment, recipients: seq<int>, dataShards: int, waves: seq<Wave>)
    returns (ended: Option<Outcome>, polls: nat, log: seq<seq<int>>, reported: seq<int>, succeeded: set<int>,
             ghost done: nat, ghost sent: seq<nat>)
    ensures Sound(env, recipients, log, reported, succeeded)
    ensures done <= |waves| && WavesSent(env, recipients, waves[..done], log, sent) && (ended.None? ==> done == |waves|)
    ensures ended.Some? ==> Observed(env, ended.value)
  {
    hide Sound, WavesSent, WasReached;
    ended, polls, log, reported, succeeded := None, 0, [], [], {};
    done, sent := 0, [];
    Start(env, recipients);
    for w := 0 to |waves|
      invariant Sound(env, recipients, log, reported, succeeded) && ended == None
      invariant done == w && WavesSent(env, recipients, waves[..w], log, sent)
    {
      var targets := WaveTargets(recipients, succeeded, waves[w].recipients);
      SucceededIsReached(env, recipients, log, reported, succeeded);
      if |targets| > 0 {
        var seen := env.poll(polls);
        polls := polls + 1;
        if seen != Clear {
          return Some(if seen == Completed then Ready else Cancel), polls, log, reported, succeeded, done, sent;
        }
        var before := |succeeded|;
        WaveIsSent(env, recipients, waves, log, sent, w, targets);
        ghost var missing;
        log, reported, succeeded, missing := Track(env, recipients, log, reported, succeeded, targets);
        sent := sent + [w];
        if ((waves[w].waitAfterSend && |succeeded| > before) || |succeeded| >= dataShards) && waves[w].hasGrace {
          seen := env.poll(polls);
          polls := polls + 1;
          if seen != Clear {
            return Some(if seen == Completed then Ready else Cancel), polls, log, reported, succeeded, w + 1, sent;
          }
        }
      } else {
        assert forall r :: r !in targets;
        WaveIsSkipped(env, recipients, waves, log, sent, w);
      }
      done := w + 1;
    }
    assert waves[..|waves|] == waves;
  }

  /**
    The first sends are the waves and the last `rounds` are retries; there is a second retry, or a later
    one, only while fewer than `dataShards` are reached.
   */
  ghost predicate Schedule(env: Environment, recipients: seq<int>, dataShards: int, waves: seq<Wave>, log: seq<seq<int>>,
                           sent: seq<nat>, rounds: nat) {
    && rounds <= |log| && WavesSent(env, recipients, waves, log[..|log| - rounds], sent)
    && Retries(env, recipients, log, rounds)
    && (rounds >= 2 ==> |ReachedBy(env, log[..|log| - 1])| < dataShards)
  }

  lemma OnlyWaves(env: Environment, recipients: seq<int>, dataShards: int, waves: seq<Wave>, log: seq<seq<int>>, sent: seq<nat>)
    requires WavesSent(env, recipients, waves, log, sent)
    ensures Schedule(env, recipients, dataShards, waves, log, sent, 0)
  {
    assert log[..|log|] == log;
  }

  /** One more retry round. */
  lemma NextRound(env: Environment, recipients: seq<int>, dataShards: int, waves: seq<Wave>, log: seq<seq<int>>,
                  sent: seq<nat>, rounds: nat, missing: seq<int>)
    requires Schedule(env, recipients, dataShards, waves, log, sent, rounds)
    requires rounds >= 1 ==> |ReachedBy(env, log)| < dataShards
    requires forall r :: r in missing <==> r in recipients && !WasReached(env, log, r)
    ensures Schedule(env, recipients, dataShards, waves, log + [missing], sent, rounds + 1)
  {
    hide WavesSent, WasReached, ReachedBy, Asks;
    var log' := log + [missing];
    LastSend(env, recipients, log, missing, recipients);
    forall k | |log| - rounds <= k < |log| ensures Asks(env, recipients, log', k, recipients) {
      EarlierSends(env, recipients, log, missing, k, recipients);
    }
    assert log'[..|log'| - (rounds + 1)] == log[..|log| - rounds] && log'[..|log'| - 1] == log;
  }

  /**
    The whole schedule.  The first sends are the waves, the last `rounds` are retries to everyone still
    missing, and there is a retry only after all waves, and another only while fewer than `dataShards`
    are reached.  No recipient that was reached is ever addressed again, every success is reported
    exactly once, the retries are bounded, and a return without error and without completion means that
    enough recipients, or all of them, were reached.
   */
  method SendRequests(env: Environment, recipients: seq<int>, dataShards: int, maxRetries: int, waves: seq<Wave>)
    returns (r: Result, ghost rounds: nat, ghost done: nat, ghost sent: seq<nat>)
    ensures Sound(env, recipients, r.log, r.reported, r.succeeded)
    ensures rounds <= (if maxRetries < 0 then 0 else maxRetries) + 1
    ensures done <= |waves| && Schedule(env, recipients, dataShards, waves[..done], r.log, sent, rounds)
    ensures rounds > 0 || r.outcome == Reached || r.outcome == Exhausted ==> done == |waves|
    ensures r.outcome == Reached ==>
              AllReached(recipients, r.succeeded) || (rounds > 0 && |r.succeeded| >= dataShards)
    ensures r.outcome == Exhausted ==> |r.succeeded| < dataShards && rounds == (if maxRetries < 0 then 0 else maxRetries) + 1
    ensures r.outcome == Ready || r.outcome == Cancel ==> Observed(env, r.outcome)
  {
    hide Sound, WavesSent, Schedule, WasReached, ReachedBy;
    rounds := 0;
    var ended, polls, log, reported, succeeded;
    ended, polls, log, reported, succeeded, done, sent := RunWaves(env, recipients, dataShards, waves);
    OnlyWaves(env, recipients, dataShards, waves[..done], log, sent);
    if ended.Some? {
      return Result(ended.value, log, reported, succeeded), rounds, done, sent;
    }
    var missing := Unreached(recipients, succeeded);
    if |missing| == 0 {
      assert forall x :: x !in missing;
      return Result(Reached, log, reported, succeeded), rounds, done, sent;
    }
    var attempt := 0;
    while true
      invariant Sound(env, recipients, log, reported, succeeded) && FreshTargets(succeeded, recipients, missing)
      invariant done == |waves| && Schedule(env, recipients, dataShards, waves[..done], log, sent, rounds)
      invariant forall r :: r in missing <==> r in recipients && r !in succeeded
      invariant rounds >= 1 ==> |succeeded| < dataShards
      invariant rounds == attempt && 0 <= attempt && (attempt > 0 ==> attempt <= maxRetries)
      decreases maxRetries - attempt
    {
      var seen := env.poll(polls);
      polls := polls + 1;
      if seen != Clear {
        return Result(if seen == Completed then Ready else Cancel, log, reported, succeeded), rounds, done, sent;
      }
      SucceededIsReached(env, recipients, log, reported, succeeded);
      NextRound(env, recipients, dataShards, waves[..done], log, sent, rounds, missing);
      var nextMissing;
      log, reported, succeeded, nextMissing := Track(env, recipients, log, reported, succeeded, missing);
      rounds := rounds + 1;
      if |succeeded| >= dataShards {
        return Result(Reached, log, reported, succeeded), rounds, done, sent;
      }
      if env.poll(polls) == Completed {
        return Result(Ready, log, reported, succeeded), rounds, done, sent;
      }
      polls := polls + 1;
      if attempt >= maxRetries {
        return Result(Exhausted, log, reported, succeeded), rounds, done, sent;
      }
      missing := nextMissing;
      seen := env.poll(polls);
      polls := polls + 1;
      if seen != Clear {
        return Result(if seen == Completed then Ready else Cancel, log, reported, succeeded), rounds, done, sent;
      }
      attempt := attempt + 1;
    }
  }
}
