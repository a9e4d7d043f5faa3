/** Building runs of the component protocol: dispersals that everyone acknowledges, and restarts. */
module ComponentRuns {
  import opened Common
  import opened OneShot
  import opened ComponentShards
  import opened Components

  /** The members that restart somewhere in the run. */
  function Restarted(events: Events): set<Member> {
    if |events| == 0 then {}
    else
      var e := events[|events| - 1];
      Restarted(events[..|events| - 1]) + (if e.Base? && e.step.Restart? then {e.step.h} else {})
  }

  lemma {:induction false} ExecuteAppend(p: Net, start: System, a: Events, b: Events)
    requires WellFormed(p, start) && Execute(p, start, a).Some?
    ensures Execute(p, start, a + b) == Execute(p, Execute(p, start, a).value, b)
    decreases |b|
  {
    if |b| == 0 {
      assert a + b == a;
    } else {
      assert (a + b)[..|a + b| - 1] == a + b[..|b| - 1];
      ExecuteAppend(p, start, a, b[..|b| - 1]);
    }
  }

  lemma {:induction false} RestartedAppend(a: Events, b: Events)
    ensures Restarted(a + b) == Restarted(a) + Restarted(b)
    decreases |b|
  {
    if |b| == 0 {
      assert a + b == a;
    } else {
      assert (a + b)[..|a + b| - 1] == a + b[..|b| - 1];
      RestartedAppend(a, b[..|b| - 1]);
    }
  }

  lemma ExecuteOne(p: Net, sys: System, e: Event)
    requires WellFormed(p, sys) && Possible(p, sys, e)
    ensures Execute(p, sys, [e]) == Some(After(p, sys, e)) && Restarted([e]) == if e.Base? && e.step.Restart? then {e.step.h} else {}
  {
    assert [e][..0] == [];
    assert Execute(p, sys, []) == Some(sys);
    assert Restarted([]) == {};
  }

  lemma ExecuteThree(p: Net, sys: System, a: Events, b: Events, c: Events)
    requires WellFormed(p, sys) && Execute(p, sys, a).Some? && Execute(p, Execute(p, sys, a).value, b).Some?
    ensures Execute(p, sys, a + b + c) == Execute(p, Execute(p, Execute(p, sys, a).value, b).value, c)
    ensures Restarted(a + b + c) == Restarted(a) + Restarted(b) + Restarted(c)
  {
    ExecuteAppend(p, sys, a, b);
    ExecuteAppend(p, sys, a + b, c);
    RestartedAppend(a, b);
    RestartedAppend(a + b, c);
  }

  // ---------------------------------------------------------------- everyone acknowledges

  /** Every honest member of `a .. b-1` is free to claim, file and sign its artifact for `s`. */
  ghost predicate Free(p: Net, sys: System, r: Member -> Artifact, s: Statement, a: nat, b: nat)
    requires WellFormed(p, sys)
  {
    a <= b <= p.n &&
    forall h :: a <= h < b ==> Honest(p, h) ==>
      p.accept(h, r(h)) && StatementOf(r(h)) == s && s.dealer !in sys.claims[h] &&
      FileKey(s.dealer, s.leaf) !in sys.base.files[h]
  }

  lemma StartFree(p: Net, x: Member -> Artifact, s: Statement, b: nat)
    requires b <= p.n && forall h: Member :: h < p.n ==> p.accept(h, x(h)) && StatementOf(x(h)) == s
    ensures Free(p, Start(p), x, s, 0, b)
  {}

  /** What a round of acknowledgements leaves behind; faulty members take part only when they `forge`. */
  ghost predicate Done(p: Net, before: System, after: System, s: Statement, a: nat, b: nat, forge: bool)
    requires WellFormed(p, before) && WellFormed(p, after) && a <= b <= p.n
  {
    && before.base.signed <= after.base.signed && before.endorsed <= after.endorsed
    && (forall h :: a <= h < b && (Honest(p, h) || forge) ==> (h, s) in after.base.signed)
    && (forall h: Member :: a <= h < b && Honest(p, h) ==> Claimed(p, after, h, s))
    && (forall i :: 0 <= i < p.n && !(a <= i < b) ==> after.claims[i] == before.claims[i])
    && (forall i, k :: 0 <= i < p.n && k != FileKey(s.dealer, s.leaf) ==> (k in after.base.files[i] <==> k in before.base.files[i]))
    && (forall i :: 0 <= i < p.n && !(a <= i < b) ==> after.base.files[i] == before.base.files[i])
  }

  function PartEvents(p: Net, r: Member -> Artifact, s: Statement, h: Member, forge: bool): Events {
    if h in p.faulty then if forge then [Base(Forge(h, s))] else []
    else [Claiming(h, s), Base(Persist(h, r(h))), Base(Sign(h, r(h)))]
  }

  /** Claim, file and sign, one after the other. */
  lemma HonestPart(p: Net, faulty: set<Member>, setup: Setup, sys: System, r: Artifact, s: Statement, h: Member, forge: bool)
    returns (s1: System, s2: System)
    requires p == ComponentProtocol(p.n, faulty, setup) && WellFormed(p, sys) && Honest(p, h)
    requires p.accept(h, r) && StatementOf(r) == s && s.dealer !in sys.claims[h] && (s in sys.endorsed || s.dealer == h)
    requires FileKey(s.dealer, s.leaf) !in sys.base.files[h]
    ensures Possible(p, sys, Claiming(h, s)) && s1 == After(p, sys, Claiming(h, s))
    ensures Possible(p, s1, Base(Persist(h, r))) && s2 == After(p, s1, Base(Persist(h, r)))
    ensures Possible(p, s2, Base(Sign(h, r))) && Done(p, sys, After(p, s2, Base(Sign(h, r))), s, h, h + 1, forge)
  {
    s1 := After(p, sys, Claiming(h, s));
    s2 := After(p, s1, Base(Persist(h, r)));
  }

  lemma FaultyPart(p: Net, sys: System, s: Statement, h: Member, forge: bool)
    requires WellFormed(p, sys) && h < p.n && h in p.faulty
    ensures var part: Events := if forge then [Base(Forge(h, s))] else [];
            Execute(p, sys, part).Some? && Done(p, sys, Execute(p, sys, part).value, s, h, h + 1, forge) && Restarted(part) == {}
  {
    if forge {
      ExecuteOne(p, sys, Base(Forge(h, s)));
    }
  }

  lemma PartExecutes(p: Net, faulty: set<Member>, setup: Setup, sys: System, r: Member -> Artifact, s: Statement, h: Member,
                     forge: bool)
    requires p == ComponentProtocol(p.n, faulty, setup) && WellFormed(p, sys) && h < p.n && Free(p, sys, r, s, h, h + 1)
    requires s in sys.endorsed || s.dealer == h
    ensures var part := PartEvents(p, r, s, h, forge);
            Execute(p, sys, part).Some? && Done(p, sys, Execute(p, sys, part).value, s, h, h + 1, forge) && Restarted(part) == {}
  {
    hide Execute, Possible, After, Done, Restarted;
    if h in p.faulty {
      FaultyPart(p, sys, s, h, forge);
    } else {
      var e1: Event, e2: Event, e3: Event := Claiming(h, s), Base(Persist(h, r(h))), Base(Sign(h, r(h)));
      var s1, s2 := HonestPart(p, faulty, setup, sys, r(h), s, h, forge);
      ExecuteOne(p, sys, e1);
      ExecuteOne(p, s1, e2);
      ExecuteOne(p, s2, e3);
      ExecuteThree(p, sys, [e1], [e2], [e3]);
      assert PartEvents(p, r, s, h, forge) == [e1] + [e2] + [e3];
    }
  }

  lemma {:induction false} Acknowledging(p: Net, faulty: set<Member>, setup: Setup, sys: System, r: Member -> Artifact,
                                         s: Statement, a: nat, b: nat, forge: bool) returns (events: Events)
    requires p == ComponentProtocol(p.n, faulty, setup) && WellFormed(p, sys) && Free(p, sys, r, s, a, b)
    requires s in sys.endorsed || (b <= a + 1 && s.dealer == a)
    ensures Execute(p, sys, events).Some? && Done(p, sys, Execute(p, sys, events).value, s, a, b, forge)
    ensures Restarted(events) == {}
    decreases b - a
  {
    hide PartEvents, Done, Execute, Restarted, Free;
    ShorterFree(p, sys, r, s, a, b);
    if a == b {
      events := [];
      NothingDone(p, sys, s, a, forge);
    } else {
      var k: nat := b - 1;
      var front := Acknowledging(p, faulty, setup, sys, r, s, a, k, forge);
      var mid := Execute(p, sys, front).value;
      LastFree(p, sys, mid, r, s, a, k, forge);
      PartExecutes(p, faulty, setup, mid, r, s, k, forge);
      var part := PartEvents(p, r, s, k, forge);
      events := front + part;
      ExecuteAppend(p, sys, front, part);
      RestartedAppend(front, part);
      DoneJoins(p, sys, mid, Execute(p, mid, part).value, s, a, k, b, forge);
    }
  }

  lemma NothingDone(p: Net, sys: System, s: Statement, a: nat, forge: bool)
    requires WellFormed(p, sys) && a <= p.n
    ensures Execute(p, sys, []) == Some(sys) && Done(p, sys, sys, s, a, a, forge) && Restarted([]) == {}
  {}

  lemma ShorterFree(p: Net, sys: System, r: Member -> Artifact, s: Statement, a: nat, b: nat)
    requires WellFormed(p, sys) && Free(p, sys, r, s, a, b)
    ensures a <= b <= p.n && (a < b ==> Free(p, sys, r, s, a, b - 1))
  {}

  /** Members that have not taken part yet are still free. */
  lemma LastFree(p: Net, sys: System, mid: System, r: Member -> Artifact, s: Statement, a: nat, k: nat, forge: bool)
    requires WellFormed(p, sys) && WellFormed(p, mid) && Free(p, sys, r, s, a, k + 1) && a <= k && Done(p, sys, mid, s, a, k, forge)
    ensures Free(p, mid, r, s, k, k + 1) && sys.endorsed <= mid.endorsed
  {}

  lemma DoneJoins(p: Net, x: System, y: System, z: System, s: Statement, a: nat, m: nat, b: nat, forge: bool)
    requires WellFormed(p, x) && WellFormed(p, y) && WellFormed(p, z) && a <= m <= b <= p.n
    requires Done(p, x, y, s, a, m, forge) && Done(p, y, z, s, m, b, forge)
    ensures Done(p, x, z, s, a, b, forge)
  {}

  lemma Endorsed(p: Net, sys: System, s: Statement, forge: bool, a: nat)
    requires WellFormed(p, sys) && Possible(p, sys, Endorsing(s)) && a <= p.n
    ensures Done(p, sys, After(p, sys, Endorsing(s)), s, a, a, forge) && s in After(p, sys, Endorsing(s)).endorsed
    ensures After(p, sys, Endorsing(s)).claims == sys.claims && After(p, sys, Endorsing(s)).base == sys.base
  {}

  /** A dealer's dispersal of `s`: a faulty dealer signs at once, an honest one acknowledges first. */
  lemma Dispersing(p: Net, faulty: set<Member>, setup: Setup, sys: System, r: Member -> Artifact, s: Statement, a: nat, b: nat,
                   forge: bool) returns (events: Events)
    requires p == ComponentProtocol(p.n, faulty, setup) && WellFormed(p, sys) && a < b && Free(p, sys, r, s, a, b)
    requires 0 <= s.dealer < p.n && (s.dealer in p.faulty || s.dealer == a)
    ensures Execute(p, sys, events).Some? && Done(p, sys, Execute(p, sys, events).value, s, a, b, forge)
    ensures Restarted(events) == {}
  {
    hide Done, Execute, Restarted;
    var e: Event := Endorsing(s);
    if s.dealer in p.faulty {
      var next := After(p, sys, e);
      Endorsed(p, sys, s, forge, a);
      ExecuteOne(p, sys, e);
      var rest := Acknowledging(p, faulty, setup, next, r, s, a, b, forge);
      events := [e] + rest;
      ExecuteAppend(p, sys, [e], rest);
      RestartedAppend([e], rest);
      DoneJoins(p, sys, next, Execute(p, next, rest).value, s, a, a, b, forge);
    } else {
      var own := Acknowledging(p, faulty, setup, sys, r, s, a, a + 1, forge);
      var mid := Execute(p, sys, own).value;
      OwnClaim(p, sys, mid, s, a, forge);
      var next := After(p, mid, e);
      Endorsed(p, mid, s, forge, a + 1);
      ExecuteOne(p, mid, e);
      StillFree(p, sys, mid, r, s, a, b, forge);
      var rest := Acknowledging(p, faulty, setup, next, r, s, a + 1, b, forge);
      events := own + [e] + rest;
      ExecuteThree(p, sys, own, [e], rest);
      DoneJoins(p, sys, mid, next, s, a, a + 1, a + 1, forge);
      DoneJoins(p, sys, next, Execute(p, next, rest).value, s, a, a + 1, b, forge);
    }
  }

  lemma OwnClaim(p: Net, sys: System, mid: System, s: Statement, a: nat, forge: bool)
    requires WellFormed(p, sys) && WellFormed(p, mid) && a < p.n && s.dealer == a && Honest(p, a)
    requires Done(p, sys, mid, s, a, a + 1, forge)
    ensures Possible(p, mid, Endorsing(s))
  {}

  lemma StillFree(p: Net, sys: System, mid: System, r: Member -> Artifact, s: Statement, a: nat, b: nat, forge: bool)
    requires WellFormed(p, sys) && WellFormed(p, mid) && a < b && Free(p, sys, r, s, a, b)
    requires Done(p, sys, mid, s, a, a + 1, forge)
    ensures Free(p, mid, r, s, a + 1, b)
  {}

  // ---------------------------------------------------------------- restarts

  /** Restarting the honest members of `a .. b-1` clears their claims and nothing durable. */
  lemma {:induction false} Restarting(p: Net, sys: System, a: nat, b: nat) returns (events: Events)
    requires WellFormed(p, sys) && a <= b <= p.n && forall h :: a <= h < b ==> Honest(p, h)
    ensures Execute(p, sys, events).Some? && Restarted(events) == Range(a, b)
    ensures var after := Execute(p, sys, events).value;
            after.base.signed == sys.base.signed && after.base.files == sys.base.files && after.endorsed == sys.endorsed &&
            (forall h :: a <= h < b ==> after.claims[h] == map[]) &&
            forall h :: 0 <= h < p.n && !(a <= h < b) ==> after.claims[h] == sys.claims[h]
    decreases b - a
  {
    if a == b {
      events := [];
    } else {
      var front := Restarting(p, sys, a, b - 1);
      var mid := Execute(p, sys, front).value;
      var e: Event := Base(Restart(b - 1));
      ExecuteOne(p, mid, e);
      events := front + [e];
      ExecuteAppend(p, sys, front, [e]);
      RestartedAppend(front, [e]);
    }
  }
}
