/**
  The bounded worker pools: jobs leave a queue in order, any worker takes the next one, and each worker
  writes its result at the job's own index whenever it finishes.  Whatever the schedule, the finished
  table is the plain map over the jobs, and the reported error is the lowest-index one.
 */
module WorkerPool {
  import opened Common

  /** `busy` maps a worker to its job; `results` holds what has been written so far. */
  datatype Pool<+T> = Pool(next: nat, busy: map<nat, nat>, results: seq<Option<T>>)

  datatype Step = Take(worker: nat) | Finish(worker: nat)

  function Idle<T>(jobs: nat): Pool<T> {
    Pool(0, map[], seq(jobs, i => None))
  }

  predicate Enabled<T>(p: Pool<T>, workers: nat, step: Step) {
    match step
    case Take(w) => w < workers && w !in p.busy && p.next < |p.results|
    case Finish(w) => w in p.busy && p.busy[w] < |p.results|
  }

  function Advance<T>(p: Pool<T>, workers: nat, job: nat -> T, step: Step): Pool<T>
    requires Enabled(p, workers, step)
  {
    match step
    case Take(w) => p.(busy := p.busy[w := p.next], next := p.next + 1)
    case Finish(w) => p.(results := p.results[p.busy[w] := Some(job(p.busy[w]))], busy := p.busy - {w})
  }

  ghost function Schedule<T(!new)>(jobs: nat, workers: nat, job: nat -> T, steps: seq<Step>): Option<Pool<T>> {
    if |steps| == 0 then Some(Idle(jobs))
    else
      var before := Schedule(jobs, workers, job, steps[..|steps| - 1]);
      var step := steps[|steps| - 1];
      if before.None? || !Enabled(before.value, workers, step) then None
      else Some(Advance(before.value, workers, job, step))
  }

  /** Jobs taken are either in some worker's hands, and in only one, or correctly recorded. */
  ghost predicate Inv<T(!new)>(p: Pool<T>, jobs: nat, job: nat -> T) {
    && |p.results| == jobs && p.next <= jobs
    && (forall w :: w in p.busy ==> p.busy[w] < p.next)
    && (forall w, v :: w in p.busy && v in p.busy && w != v ==> p.busy[w] != p.busy[v])
    && (forall i :: 0 <= i < p.next ==> p.results[i] == Some(job(i)) || exists w :: w in p.busy && p.busy[w] == i)
  }

  lemma StepKeepsInv<T(!new)>(p: Pool<T>, jobs: nat, workers: nat, job: nat -> T, step: Step)
    requires Inv(p, jobs, job) && Enabled(p, workers, step)
    ensures Inv(Advance(p, workers, job, step), jobs, job)
  {
    var q := Advance(p, workers, job, step);
    forall i | 0 <= i < q.next ensures q.results[i] == Some(job(i)) || exists w :: w in q.busy && q.busy[w] == i {
      if i < p.next && p.results[i] != Some(job(i)) {
        var w :| w in p.busy && p.busy[w] == i;
        assert w == step.worker && step.Finish? ==> q.results[i] == Some(job(i));
        assert w != step.worker ==> w in q.busy && q.busy[w] == i;
      } else if i == p.next {
        assert step.worker in q.busy && q.busy[step.worker] == i;
      }
    }
  }

  lemma {:induction false} ScheduleKeepsInv<T(!new)>(jobs: nat, workers: nat, job: nat -> T, steps: seq<Step>)
    requires Schedule(jobs, workers, job, steps).Some?
    ensures Inv(Schedule(jobs, workers, job, steps).value, jobs, job)
  {
    if |steps| > 0 {
      var front := steps[..|steps| - 1];
      ScheduleKeepsInv(jobs, workers, job, front);
      StepKeepsInv(Schedule(jobs, workers, job, front).value, jobs, workers, job, steps[|steps| - 1]);
    }
  }

  /** The wait group releases when the queue is empty and no worker is busy. */
  predicate Done<T>(p: Pool<T>) {
    p.next == |p.results| && p.busy == map[]
  }

  /** No deadlock: with a worker at all, something can happen until everything is done. */
  lemma NextStep<T(!new)>(p: Pool<T>, jobs: nat, workers: nat, job: nat -> T) returns (step: Step)
    requires Inv(p, jobs, job) && workers > 0 && !Done(p)
    ensures Enabled(p, workers, step)
  {
    if p.busy.Keys != {} {
      assert exists w :: w in p.busy.Keys;
      var w :| w in p.busy;
      step := Finish(w);
    } else {
      assert p.busy == map[];
      step := Take(0);
    }
  }

  /** What is left to do: two steps per job not taken, one per job in hand. */
  ghost function Left<T>(p: Pool<T>): int {
    2 * (|p.results| - p.next) + |p.busy|
  }

  /** Every step does one of them, so every schedule ends after two steps per job. */
  lemma StepCounts<T(!new)>(p: Pool<T>, jobs: nat, workers: nat, job: nat -> T, step: Step)
    requires Inv(p, jobs, job) && Enabled(p, workers, step)
    ensures Left(Advance(p, workers, job, step)) == Left(p) - 1
  {
    var q := Advance(p, workers, job, step);
    match step
    case Take(w) => assert q.busy.Keys == p.busy.Keys + {w};
    case Finish(w) => assert q.busy.Keys == p.busy.Keys - {w};
  }

  lemma {:induction false} ScheduleCounts<T(!new)>(jobs: nat, workers: nat, job: nat -> T, steps: seq<Step>)
    requires Schedule(jobs, workers, job, steps).Some?
    ensures |steps| + Left(Schedule(jobs, workers, job, steps).value) == 2 * jobs
  {
    if |steps| > 0 {
      var front := steps[..|steps| - 1];
      ScheduleCounts(jobs, workers, job, front);
      ScheduleKeepsInv(jobs, workers, job, front);
      StepCounts(Schedule(jobs, workers, job, front).value, jobs, workers, job, steps[|steps| - 1]);
    }
  }

  lemma LeftOver<T(!new)>(p: Pool<T>, jobs: nat, job: nat -> T)
    requires Inv(p, jobs, job)
    ensures Left(p) >= 0 && (Done(p) <==> Left(p) == 0)
  {
    assert |p.busy| == 0 <==> p.busy == map[];
  }

  /** However a schedule began, it can be carried to its end, and it is over exactly after two steps per job. */
  lemma {:induction false} Finishes<T(!new)>(jobs: nat, workers: nat, job: nat -> T, steps: seq<Step>) returns (all: seq<Step>)
    requires workers > 0 && Schedule(jobs, workers, job, steps).Some?
    ensures |all| == 2 * jobs && |steps| <= |all| && all[..|steps|] == steps
    ensures Schedule(jobs, workers, job, all).Some? && Done(Schedule(jobs, workers, job, all).value)
    decreases 2 * jobs - |steps|
  {
    hide Advance, Enabled, Inv, Left, Done;
    var p := Schedule(jobs, workers, job, steps).value;
    ScheduleKeepsInv(jobs, workers, job, steps);
    ScheduleCounts(jobs, workers, job, steps);
    LeftOver(p, jobs, job);
    if Done(p) {
      all := steps;
    } else {
      var step := NextStep(p, jobs, workers, job);
      assert (steps + [step])[..|steps|] == steps;
      all := Finishes(jobs, workers, job, steps + [step]);
      assert all[..|steps|] == all[..|steps| + 1][..|steps|];
    }
  }

  /** Every finished schedule leaves the same table. */
  lemma FinishedTable<T(!new)>(jobs: nat, workers: nat, job: nat -> T, steps: seq<Step>)
    requires Schedule(jobs, workers, job, steps).Some? && Done(Schedule(jobs, workers, job, steps).value)
    ensures Schedule(jobs, workers, job, steps).value.results == seq(jobs, i requires 0 <= i < jobs => Some(job(i)))
  {
    ScheduleKeepsInv(jobs, workers, job, steps);
  }

  // ---------------------------------------------------------------- error selection

  /** The lowest-index error of the first `n` jobs. */
  function FirstError<E>(check: nat -> Option<E>, n: nat): Option<E> {
    if n == 0 then None
    else
      var before := FirstError(check, n - 1);
      if before.Some? then before else check(n - 1)
  }

  /** It is the error of the first job that has one. */
  lemma {:induction false} FirstErrorExactly<E>(check: nat -> Option<E>, n: nat)
    ensures FirstError(check, n).None? <==> forall i :: 0 <= i < n ==> check(i).None?
    ensures FirstError(check, n).Some? ==>
              exists i: nat :: i < n && check(i) == FirstError(check, n) && forall j :: 0 <= j < i ==> check(j).None?
  {
    if n > 0 {
      FirstErrorExactly(check, n - 1);
      if FirstError(check, n - 1).None? && check(n - 1).Some? {
        assert check(n - 1) == FirstError(check, n);
      }
    }
  }

  /** One worker: stop at the first error. */
  method RunSequential<E>(jobs: nat, check: nat -> Option<E>) returns (r: Option<E>)
    ensures r == FirstError(check, jobs)
  {
    for index := 0 to jobs
      invariant FirstError(check, index) == None
    {
      var e := check(index);
      if e.Some? {
        FirstErrorStays(check, index + 1, jobs);
        return e;
      }
    }
    r := None;
  }

  lemma {:induction false} FirstErrorStays<E>(check: nat -> Option<E>, n: nat, m: nat)
    requires n <= m && FirstError(check, n).Some?
    ensures FirstError(check, m) == FirstError(check, n)
  {
    if n < m {
      FirstErrorStays(check, n, m - 1);
    }
  }

  /** The first error in a finished table, in index order. */
  function Scan<E>(errs: seq<Option<Option<E>>>): Option<E> {
    if |errs| == 0 then None
    else
      var before := Scan(errs[..|errs| - 1]);
      if before.Some? then before else if errs[|errs| - 1].Some? then errs[|errs| - 1].value else None
  }

  /** Many workers: scan the table once they are done. */
  method FirstOrderedError<E>(errs: seq<Option<Option<E>>>) returns (r: Option<E>)
    requires forall i :: 0 <= i < |errs| ==> errs[i].Some?
    ensures r == Scan(errs)
  {
    for index := 0 to |errs|
      invariant Scan(errs[..index]) == None
    {
      assert errs[..index + 1][..index] == errs[..index];
      if errs[index].value.Some? {
        ScanStays(errs, index + 1);
        return errs[index].value;
      }
    }
    assert errs[..|errs|] == errs;
    r := None;
  }

  lemma {:induction false} ScanStays<E>(errs: seq<Option<Option<E>>>, n: nat)
    requires n <= |errs| && Scan(errs[..n]).Some?
    ensures Scan(errs) == Scan(errs[..n])
    decreases |errs|
  {
    if n == |errs| {
      assert errs[..n] == errs;
    } else {
      assert errs[..|errs| - 1][..n] == errs[..n];
      ScanStays(errs[..|errs| - 1], n);
    }
  }

  lemma {:induction false} ScanTable<E>(errs: seq<Option<Option<E>>>, check: nat -> Option<E>)
    requires forall i :: 0 <= i < |errs| ==> errs[i] == Some(check(i))
    ensures Scan(errs) == FirstError(check, |errs|)
  {
    if |errs| > 0 {
      ScanTable(errs[..|errs| - 1], check);
    }
  }

  /** For every schedule the parallel run reports exactly what the sequential one does. */
  lemma ParallelMatchesSequential<E(!new)>(jobs: nat, workers: nat, check: nat -> Option<E>, steps: seq<Step>)
    requires Schedule(jobs, workers, check, steps).Some? && Done(Schedule(jobs, workers, check, steps).value)
    ensures Scan(Schedule(jobs, workers, check, steps).value.results) == FirstError(check, jobs)
  {
    FinishedTable(jobs, workers, check, steps);
    ScanTable(Schedule(jobs, workers, check, steps).value.results, check);
  }
}
