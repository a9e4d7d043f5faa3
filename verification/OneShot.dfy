/**
  One-shot signing as a distributed protocol.  Every member keeps a write-once file map.  An honest
  member signs the statement of a record only after the record is durably filed under its key; a
  restart loses everything except the files.  Faulty members sign whatever they like.  Messages may be
  delayed, repeated and reordered without limit, so any member may be asked for anything at any step.

  A threshold certificate for a statement exists exactly when enough distinct members have signed it.
 */
module OneShot {
  import opened Common

  type Member = nat

  /** `key` and `statement` of a record, and what an honest member checks before filing it. */
  datatype Protocol<!K, !R, !S> = Protocol(n: nat, faulty: set<Member>, key: R -> K, statement: R -> S,
                                           accept: (Member, R) -> bool)

  /** `ready` holds the records whose write has returned but whose signature is not released yet. */
  datatype State<!K(==), !R(==), !S(==)> = State(files: seq<map<K, R>>, ready: seq<set<R>>, signed: set<(Member, S)>)

  datatype Step<R, S> =
    | Persist(h: Member, r: R)
    | Sign(h: Member, r: R)
    | Restart(h: Member)
    | Forge(b: Member, s: S)

  predicate Honest<K(!new), R(!new), S(!new)>(p: Protocol<K, R, S>, h: Member) {
    h < p.n && h !in p.faulty
  }

  ghost function Init<K(!new), R(!new), S(!new)>(p: Protocol<K, R, S>): State<K, R, S> {
    State(seq(p.n, i => map[]), seq(p.n, i => {}), {})
  }

  ghost predicate Shaped<K(!new), R(!new), S(!new)>(p: Protocol<K, R, S>, st: State<K, R, S>) {
    |st.files| == |st.ready| == p.n
  }

  // Store keys carry a session identifier and an epoch that fits a signed word.

  const MAX_EPOCH: nat := 0x7fff_ffff_ffff_ffff

  /** White space as `unicode.IsSpace` knows it. */
  predicate IsSpace(c: char) {
    var u := c as int;
    9 <= u <= 13 || u == 0x20 || u == 0x85 || u == 0xa0 || u == 0x1680 || 0x2000 <= u <= 0x200a || u == 0x2028 || u == 0x2029 ||
    u == 0x202f || u == 0x205f || u == 0x3000
  }

  /** Nothing but white space. */
  predicate Blank(sid: string) {
    forall i :: 0 <= i < |sid| ==> IsSpace(sid[i])
  }

  /** `cvPutImmutableFile`: a key keeps its first contents; writing them again succeeds, others fail. */
  predicate CanPut<K(==), R(==)>(files: map<K, R>, k: K, r: R) {
    k in files ==> files[k] == r
  }

  ghost predicate Enabled<K(!new), R(!new), S(!new)>(p: Protocol<K, R, S>, st: State<K, R, S>, step: Step<R, S>)
    requires Shaped(p, st)
  {
    match step
    case Persist(h, r) => Honest(p, h) && p.accept(h, r) && CanPut(st.files[h], p.key(r), r)
    case Sign(h, r) => Honest(p, h) && r in st.ready[h]
    case Restart(h) => Honest(p, h)
    case Forge(b, _) => b in p.faulty
  }

  ghost function Next<K(!new), R(!new), S(!new)>(p: Protocol<K, R, S>, st: State<K, R, S>, step: Step<R, S>): (r: State<K, R, S>)
    requires Shaped(p, st) && Enabled(p, st, step)
    ensures Shaped(p, r)
  {
    match step
    case Persist(h, r) =>
      st.(files := st.files[h := st.files[h][p.key(r) := r]], ready := st.ready[h := st.ready[h] + {r}])
    case Sign(h, r) => st.(signed := st.signed + {(h, p.statement(r))})
    case Restart(h) => st.(ready := st.ready[h := {}])
    case Forge(b, s) => st.(signed := st.signed + {(b, s)})
  }

  /** The state after a list of steps, when all of them were possible. */
  ghost function RunFrom<K(!new), R(!new), S(!new)>(p: Protocol<K, R, S>, start: State<K, R, S>, steps: seq<Step<R, S>>)
    : (r: Option<State<K, R, S>>)
    requires Shaped(p, start)
    ensures r.Some? ==> Shaped(p, r.value)
  {
    if |steps| == 0 then Some(start)
    else
      var before := RunFrom(p, start, steps[..|steps| - 1]);
      var step := steps[|steps| - 1];
      if before.None? || !Enabled(p, before.value, step) then None else Some(Next(p, before.value, step))
  }

  ghost function Run<K(!new), R(!new), S(!new)>(p: Protocol<K, R, S>, steps: seq<Step<R, S>>): (r: Option<State<K, R, S>>)
    ensures r.Some? ==> Shaped(p, r.value)
  {
    RunFrom(p, Init(p), steps)
  }

  lemma {:induction false} RunAppend<K(!new), R(!new), S(!new)>(p: Protocol<K, R, S>, start: State<K, R, S>,
                                                               a: seq<Step<R, S>>, b: seq<Step<R, S>>)
    requires Shaped(p, start) && RunFrom(p, start, a).Some?
    ensures RunFrom(p, start, a + b) == RunFrom(p, RunFrom(p, start, a).value, b)
    decreases |b|
  {
    if |b| == 0 {
      assert a + b == a;
    } else {
      assert (a + b)[..|a + b| - 1] == a + b[..|b| - 1];
      RunAppend(p, start, a, b[..|b| - 1]);
    }
  }

  // ---------------------------------------------------------------- what every run keeps

  /** A filed record sits under its own key and was accepted. */
  ghost predicate Filed<K(!new), R(!new), S(!new)>(p: Protocol<K, R, S>, st: State<K, R, S>, h: Member, r: R)
    requires Shaped(p, st)
  {
    h < p.n && p.key(r) in st.files[h] && st.files[h][p.key(r)] == r
  }

  ghost predicate FilesSound<K(!new), R(!new), S(!new)>(p: Protocol<K, R, S>, st: State<K, R, S>)
    requires Shaped(p, st)
  {
    forall h: Member, k: K :: Honest(p, h) && k in st.files[h] ==> p.key(st.files[h][k]) == k && p.accept(h, st.files[h][k])
  }

  ghost predicate ReadySound<K(!new), R(!new), S(!new)>(p: Protocol<K, R, S>, st: State<K, R, S>)
    requires Shaped(p, st)
  {
    forall h: Member, r: R :: Honest(p, h) && r in st.ready[h] ==> Filed(p, st, h, r)
  }

  /** A member signed the statement of a record it has on file. */
  ghost predicate Backed<K(!new), R(!new), S(!new)>(p: Protocol<K, R, S>, st: State<K, R, S>, h: Member, s: S)
    requires Shaped(p, st) && h < p.n
  {
    exists r :: Filed(p, st, h, r) && p.statement(r) == s
  }

  ghost predicate SignedSound<K(!new), R(!new), S(!new)>(p: Protocol<K, R, S>, st: State<K, R, S>)
    requires Shaped(p, st)
  {
    forall h: Member, s: S :: Honest(p, h) && (h, s) in st.signed ==> Backed(p, st, h, s)
  }

  ghost predicate Inv<K(!new), R(!new), S(!new)>(p: Protocol<K, R, S>, st: State<K, R, S>) {
    Shaped(p, st) && FilesSound(p, st) && ReadySound(p, st) && SignedSound(p, st)
  }

  /** No step removes a filed record. */
  lemma FiledStays<K(!new), R(!new), S(!new)>(p: Protocol<K, R, S>, st: State<K, R, S>, step: Step<R, S>, h: Member, r: R)
    requires Shaped(p, st) && Enabled(p, st, step) && Filed(p, st, h, r)
    ensures Filed(p, Next(p, st, step), h, r)
  {}

  lemma StepKeepsInv<K(!new), R(!new), S(!new)>(p: Protocol<K, R, S>, st: State<K, R, S>, step: Step<R, S>)
    requires Inv(p, st) && Enabled(p, st, step)
    ensures Inv(p, Next(p, st, step))
  {
    var after := Next(p, st, step);
    forall h: Member, r: R | Honest(p, h) && r in after.ready[h] ensures Filed(p, after, h, r) {
      if r in st.ready[h] {
        FiledStays(p, st, step, h, r);
      }
    }
    forall h: Member, s: S | Honest(p, h) && (h, s) in after.signed ensures Backed(p, after, h, s) {
      if (h, s) in st.signed {
        var r :| Filed(p, st, h, r) && p.statement(r) == s;
        FiledStays(p, st, step, h, r);
      } else {
        FiledStays(p, st, step, h, step.r);
      }
    }
  }

  lemma {:induction false} RunFromKeepsInv<K(!new), R(!new), S(!new)>(p: Protocol<K, R, S>, start: State<K, R, S>,
                                                                     steps: seq<Step<R, S>>)
    requires Inv(p, start) && RunFrom(p, start, steps).Some?
    ensures Inv(p, RunFrom(p, start, steps).value)
    ensures forall h, r :: Filed(p, start, h, r) ==> Filed(p, RunFrom(p, start, steps).value, h, r)
  {
    if |steps| > 0 {
      var before, step := RunFrom(p, start, steps[..|steps| - 1]).value, steps[|steps| - 1];
      RunFromKeepsInv(p, start, steps[..|steps| - 1]);
      StepKeepsInv(p, before, step);
      forall h, r | Filed(p, start, h, r) ensures Filed(p, Next(p, before, step), h, r) {
        FiledStays(p, before, step, h, r);
      }
    }
  }

  /** The invariant holds in every reachable state. */
  lemma RunKeepsInv<K(!new), R(!new), S(!new)>(p: Protocol<K, R, S>, steps: seq<Step<R, S>>)
    requires Run(p, steps).Some?
    ensures Inv(p, Run(p, steps).value)
  {
    RunFromKeepsInv(p, Init(p), steps);
  }

  /** Across restarts, no honest member signs two statements whose records share a key. */
  lemma HonestSignsOnce<K(!new), R(!new), S(!new)>(p: Protocol<K, R, S>, steps: seq<Step<R, S>>, h: Member, s: S, s': S, k: K)
    requires Run(p, steps).Some? && Honest(p, h)
    requires forall r :: p.statement(r) == s || p.statement(r) == s' ==> p.key(r) == k
    requires (h, s) in Run(p, steps).value.signed && (h, s') in Run(p, steps).value.signed
    ensures s == s'
  {
    var st := Run(p, steps).value;
    RunKeepsInv(p, steps);
    var r :| Filed(p, st, h, r) && p.statement(r) == s;
    var r' :| Filed(p, st, h, r') && p.statement(r') == s';
    assert p.key(r) == k && p.key(r') == k;
  }

  // ---------------------------------------------------------------- certificates

  ghost function Signers<K(!new), R(!new), S(!new)>(p: Protocol<K, R, S>, st: State<K, R, S>, s: S): set<Member> {
    set h: Member | h in Range(0, p.n) && (h, s) in st.signed
  }

  ghost predicate Certified<K(!new), R(!new), S(!new)>(p: Protocol<K, R, S>, st: State<K, R, S>, t: nat, s: S) {
    |Signers(p, st, s)| >= t
  }

  /** Two sets of members of which enough are honest share an honest member. */
  lemma QuorumsMeet(n: nat, faulty: set<nat>, f: nat, t: nat, a: set<nat>, b: set<nat>) returns (h: nat)
    requires |faulty| <= f && 2 * t > n + f && |a| >= t && |b| >= t
    requires forall x :: x in a ==> x < n
    requires forall x :: x in b ==> x < n
    ensures h in a && h in b && h !in faulty
  {
    SubsetSize(a + b, Range(0, n));
    assert |a + b| == |a| + |b| - |a * b|;
    var both := a * b - faulty;
    SubsetSize(a * b, both + faulty);
    assert |both + faulty| <= |both| + |faulty|;
    assert both != {};
    assert (forall x :: x !in both) ==> both == {};
    h :| h in both;
  }

  /**
    With `2t > n + f`, two certified statements whose records share a key are the same statement, in
    every run.
   */
  lemma CertificatesAgree<K(!new), R(!new), S(!new)>(p: Protocol<K, R, S>, steps: seq<Step<R, S>>, f: nat, t: nat, s: S, s': S, k: K)
    requires Run(p, steps).Some? && |p.faulty| <= f && 2 * t > p.n + f
    requires forall r :: p.statement(r) == s || p.statement(r) == s' ==> p.key(r) == k
    requires Certified(p, Run(p, steps).value, t, s) && Certified(p, Run(p, steps).value, t, s')
    ensures s == s'
  {
    var st := Run(p, steps).value;
    var h := QuorumsMeet(p.n, p.faulty, f, t, Signers(p, st, s), Signers(p, st, s'));
    HonestSignsOnce(p, steps, h, s, s', k);
  }

  lemma {:induction false} SignedStays<K(!new), R(!new), S(!new)>(p: Protocol<K, R, S>, start: State<K, R, S>,
                                                                 steps: seq<Step<R, S>>)
    requires Shaped(p, start) && RunFrom(p, start, steps).Some?
    ensures start.signed <= RunFrom(p, start, steps).value.signed
  {
    if |steps| > 0 {
      SignedStays(p, start, steps[..|steps| - 1]);
    }
  }

  /** A certificate stays one however the run goes on. */
  lemma CertifiedStays<K(!new), R(!new), S(!new)>(p: Protocol<K, R, S>, steps: seq<Step<R, S>>, more: seq<Step<R, S>>,
                                                  t: nat, s: S)
    requires Run(p, steps).Some? && Run(p, steps + more).Some? && Certified(p, Run(p, steps).value, t, s)
    ensures Certified(p, Run(p, steps + more).value, t, s)
  {
    RunAppend(p, Init(p), steps, more);
    var a, b := Run(p, steps).value, Run(p, steps + more).value;
    SignedStays(p, a, more);
    SubsetSize(Signers(p, a, s), Signers(p, b, s));
  }

  /** The honest members that have a record of the statement on file. */
  ghost function Holders<K(!new), R(!new), S(!new)>(p: Protocol<K, R, S>, st: State<K, R, S>, s: S): set<Member>
    requires Shaped(p, st)
  {
    set h: Member | h in Range(0, p.n) && h !in p.faulty && Backed(p, st, h, s)
  }

  /** A certificate means that at least `t - f` honest members hold the record, and keep it. */
  lemma CertifiedIsHeld<K(!new), R(!new), S(!new)>(p: Protocol<K, R, S>, steps: seq<Step<R, S>>, f: nat, t: nat, s: S)
    requires Run(p, steps).Some? && |p.faulty| <= f && Certified(p, Run(p, steps).value, t, s)
    ensures |Holders(p, Run(p, steps).value, s)| >= t - f
  {
    var st := Run(p, steps).value;
    RunKeepsInv(p, steps);
    var signers, holders := Signers(p, st, s), Holders(p, st, s);
    forall h | h in signers ensures h in holders + p.faulty {
      if h !in p.faulty {
        assert Backed(p, st, h, s);
      }
    }
    SubsetSize(signers, holders + p.faulty);
    assert |holders + p.faulty| <= |holders| + |p.faulty|;
  }

  // ---------------------------------------------------------------- the honest members suffice

  /** The honest members file and sign one after the other; nobody else does anything. */
  lemma {:induction false} HonestCampaign<K(!new), R(!new), S(!new)>(p: Protocol<K, R, S>, r: Member -> R, s: S, b: nat)
    returns (steps: seq<Step<R, S>>)
    requires b <= p.n && forall h :: 0 <= h < b && Honest(p, h) ==> p.accept(h, r(h)) && p.statement(r(h)) == s
    ensures forall k :: 0 <= k < |steps| ==> steps[k].Persist? || steps[k].Sign?
    ensures var after := Run(p, steps);
            after.Some? && (forall h :: 0 <= h < b && Honest(p, h) ==> (h, s) in after.value.signed) &&
            forall i :: b <= i < p.n ==> after.value.files[i] == map[]
    decreases b
  {
    if b == 0 {
      steps := [];
    } else {
      var front := HonestCampaign(p, r, s, b - 1);
      var mid := Run(p, front).value;
      if b - 1 in p.faulty {
        steps := front;
      } else {
        PartRuns(p, mid, r, s, b - 1);
        steps := front + Part(p, r, s, b - 1);
        RunAppend(p, Init(p), front, Part(p, r, s, b - 1));
      }
    }
  }

  /** A statement whose records all honest members accept is certified by them alone. */
  lemma HonestCertify<K(!new), R(!new), S(!new)>(p: Protocol<K, R, S>, r: Member -> R, s: S, f: nat) returns (steps: seq<Step<R, S>>)
    requires |p.faulty| <= f <= p.n
    requires forall h :: 0 <= h < p.n && Honest(p, h) ==> p.accept(h, r(h)) && p.statement(r(h)) == s
    ensures forall k :: 0 <= k < |steps| ==> steps[k].Persist? || steps[k].Sign?
    ensures Run(p, steps).Some? && Certified(p, Run(p, steps).value, p.n - f, s)
  {
    steps := HonestCampaign(p, r, s, p.n);
    var signers := Signers(p, Run(p, steps).value, s);
    SubsetSize(Range(0, p.n), signers + p.faulty);
    assert |signers + p.faulty| <= |signers| + |p.faulty|;
  }

  // ---------------------------------------------------------------- when thresholds are too low

  /** Every honest member in `a .. b-1` can file its record and so sign `s`. */
  ghost predicate Willing<K(!new), R(!new), S(!new)>(p: Protocol<K, R, S>, st: State<K, R, S>, r: Member -> R, s: S,
                                                     a: nat, b: nat)
    requires Shaped(p, st)
  {
    a <= b <= p.n &&
    forall h :: a <= h < b ==> Honest(p, h) ==>
      p.accept(h, r(h)) && CanPut(st.files[h], p.key(r(h)), r(h)) && p.statement(r(h)) == s
  }

  /** One member's part: file and sign, or just sign when faulty. */
  function Part<K(!new), R(!new), S(!new)>(p: Protocol<K, R, S>, r: Member -> R, s: S, h: Member): seq<Step<R, S>> {
    if h in p.faulty then [Forge(h, s)] else [Persist(h, r(h)), Sign(h, r(h))]
  }

  lemma PartRuns<K(!new), R(!new), S(!new)>(p: Protocol<K, R, S>, st: State<K, R, S>, r: Member -> R, s: S, h: Member)
    requires Shaped(p, st) && h < p.n && Willing(p, st, r, s, h, h + 1)
    ensures var after := RunFrom(p, st, Part(p, r, s, h));
            after.Some? && st.signed + {(h, s)} <= after.value.signed &&
            forall i :: 0 <= i < p.n && i != h ==> after.value.files[i] == st.files[i]
  {
    if h in p.faulty {
      assert Part(p, r, s, h)[..0] == [];
    } else {
      var persist, sign := Persist(h, r(h)), Sign(h, r(h));
      var mid := Next(p, st, persist);
      assert [persist][..0] == [];
      assert RunFrom(p, st, [persist]) == Some(mid);
      assert Part(p, r, s, h)[..1] == [persist];
      assert Enabled(p, mid, sign);
    }
  }

  lemma {:induction false} Campaign<K(!new), R(!new), S(!new)>(p: Protocol<K, R, S>, st: State<K, R, S>, r: Member -> R, s: S,
                                                              a: nat, b: nat) returns (steps: seq<Step<R, S>>)
    requires Shaped(p, st) && Willing(p, st, r, s, a, b)
    ensures var after := RunFrom(p, st, steps);
            after.Some? && st.signed <= after.value.signed &&
            (forall h :: a <= h < b ==> (h, s) in after.value.signed) &&
            forall i :: 0 <= i < p.n && !(a <= i < b) ==> after.value.files[i] == st.files[i]
    decreases b - a
  {
    if a == b {
      steps := [];
    } else {
      var front := Campaign(p, st, r, s, a, b - 1);
      var mid := RunFrom(p, st, front).value;
      PartRuns(p, mid, r, s, b - 1);
      steps := front + Part(p, r, s, b - 1);
      RunAppend(p, st, front, Part(p, r, s, b - 1));
    }
  }

  /** The members whom a conflict needs to be faulty. */
  function Overlap(n: nat, t: nat): (r: set<nat>)
    requires t <= n
    ensures |r| == if 2 * t > n then 2 * t - n else 0
  {
    if 2 * t > n then Range(n - t, t) else {}
  }

  /**
    With `2t <= n + f`, at most `f` faulty members suffice for a run that certifies two statements
    under one key, whatever the two are.
   */
  lemma ConflictRun<K(!new), R(!new), S(!new)>(p: Protocol<K, R, S>, t: nat, a: Member -> R, b: Member -> R, s: S, s': S)
    returns (steps: seq<Step<R, S>>)
    requires t <= p.n && p.faulty == Overlap(p.n, t)
    requires forall h :: 0 <= h < p.n ==> p.accept(h, a(h)) && p.statement(a(h)) == s
    requires forall h :: 0 <= h < p.n ==> p.accept(h, b(h)) && p.statement(b(h)) == s'
    ensures Run(p, steps).Some?
    ensures Certified(p, Run(p, steps).value, t, s) && Certified(p, Run(p, steps).value, t, s')
  {
    var start := Init(p);
    var first := Campaign(p, start, a, s, 0, t);
    var mid := RunFrom(p, start, first).value;
    var second := Campaign(p, mid, b, s', p.n - t, p.n);
    steps := first + second;
    RunAppend(p, start, first, second);
    var end := Run(p, steps).value;
    SubsetSize(Range(0, t), Signers(p, end, s));
    SubsetSize(Range(p.n - t, p.n), Signers(p, end, s'));
  }
}
