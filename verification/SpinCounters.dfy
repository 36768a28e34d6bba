/** p4-final/handin/counter.c under the spinlock, with the workload of p4/testcount.c: each thread
    increments, or decrements, a number of times.  An increment is a load and a later store. */
module SpinCounters {

  datatype PC = Between | Acquire | Load | Store | Release

  /** `step` is 1 for a thread that increments and -1 for one that decrements. */
  datatype Job = Job(step: int, times: nat)

  /** `done` counts the thread's stores to the counter. */
  datatype Thread = Thread(pc: PC, job: Job, done: nat, reg: int)

  /** `owner` is auxiliary: the thread between acquire and release, or -1. */
  datatype State = State(flag: nat, val: int, threads: seq<Thread>, owner: int)

  function Move(s: State, t: nat, th: Thread): State
    requires t < |s.threads|
  {
    s.(threads := s.threads[t := th])
  }

  function Step(s: State, t: nat): State
    requires t < |s.threads|
  {
    var th := s.threads[t];
    match th.pc
    case Between => if th.done < th.job.times then Move(s, t, th.(pc := Acquire)) else s
    case Acquire => if s.flag == 1 then s.(flag := 1) else Move(s, t, th.(pc := Load)).(flag := 1, owner := t)
    case Load => Move(s, t, th.(pc := Store, reg := s.val))
    case Store => Move(s, t, th.(pc := Release, done := th.done + 1)).(val := th.reg + th.job.step)
    case Release => Move(s, t, th.(pc := Between)).(flag := 0, owner := -1)
  }

  function Start(value: int, jobs: seq<Job>): State {
    State(0, value, seq(|jobs|, i requires 0 <= i < |jobs| => Thread(Between, jobs[i], 0, 0)), -1)
  }

  /** Which thread moves at each step. */
  function Execute(s: State, turns: seq<nat>): State
    decreases |turns|
  {
    if turns == [] then s
    else Execute(if turns[0] < |s.threads| then Step(s, turns[0]) else s, turns[1..])
  }

  /** The sum of what the threads have added so far. */
  function Added(threads: seq<Thread>): int {
    if threads == [] then 0 else threads[0].job.step * threads[0].done + Added(threads[1..])
  }

  /** The sum of what their jobs add. */
  function Planned(jobs: seq<Job>): int {
    if jobs == [] then 0 else jobs[0].step * jobs[0].times + Planned(jobs[1..])
  }

  /** Job by job. */
  lemma {:induction false} PlannedOne(jobs: seq<Job>, step: int, times: nat)
    ensures Planned([]) == 0 && Planned(jobs + [Job(step, times)]) == Planned(jobs) + step * times
  {
    if jobs == [] {
      assert [] + [Job(step, times)] == [Job(step, times)];
    } else {
      PlannedOne(jobs[1..], step, times);
      assert (jobs + [Job(step, times)])[1..] == jobs[1..] + [Job(step, times)];
    }
  }

  predicate Critical(pc: PC) {
    pc.Load? || pc.Store? || pc.Release?
  }

  ghost predicate ThreadOk(s: State, t: nat)
    requires t < |s.threads|
  {
    var th := s.threads[t];
    && (Critical(th.pc) <==> t == s.owner)
    && th.done <= th.job.times
    && (th.pc.Acquire? || th.pc.Load? || th.pc.Store? ==> th.done < th.job.times)
    && (th.pc.Store? ==> th.reg == s.val)
  }

  ghost predicate Inv(s: State, value: int, jobs: seq<Job>) {
    && |s.threads| == |jobs|
    && -1 <= s.owner < |jobs|
    && s.flag == (if s.owner == -1 then 0 else 1)
    && (forall t :: 0 <= t < |jobs| ==> ThreadOk(s, t) && s.threads[t].job == jobs[t])
    && s.val == value + Added(s.threads)
  }

  lemma {:induction false} AddedUpdate(threads: seq<Thread>, t: nat, th: Thread)
    requires t < |threads|
    ensures Added(threads[t := th]) == Added(threads) - threads[t].job.step * threads[t].done + th.job.step * th.done
  {
    if t == 0 {
      assert threads[t := th][1..] == threads[1..];
    } else {
      AddedUpdate(threads[1..], t - 1, th);
      assert threads[t := th][1..] == threads[1..][t - 1 := th];
    }
  }

  lemma OneMore(step: int, done: nat)
    ensures step * (done + 1) == step * done + step
  {
  }

  lemma StepKeepsInv(s: State, t: nat, value: int, jobs: seq<Job>)
    requires Inv(s, value, jobs) && t < |s.threads|
    ensures Inv(Step(s, t), value, jobs)
  {
    assert ThreadOk(s, t);
    var s' := Step(s, t);
    AddedUpdate(s.threads, t, s'.threads[t]);
    OneMore(s.threads[t].job.step, s.threads[t].done);
    assert s.threads[t := s.threads[t]] == s.threads;
    forall u | 0 <= u < |jobs|
      ensures ThreadOk(s', u) && s'.threads[u].job == jobs[u]
    {
      assert ThreadOk(s, u);
    }
  }

  lemma {:induction false} StartInv(value: int, jobs: seq<Job>)
    ensures Inv(Start(value, jobs), value, jobs)
    ensures Added(Start(value, jobs).threads) == 0
  {
    if jobs != [] {
      StartInv(value, jobs[1..]);
      assert Start(value, jobs).threads[1..] == Start(value, jobs[1..]).threads;
    }
  }

  lemma {:induction false} ExecuteKeepsInv(s: State, turns: seq<nat>, value: int, jobs: seq<Job>)
    requires Inv(s, value, jobs)
    ensures Inv(Execute(s, turns), value, jobs)
    decreases |turns|
  {
    if turns != [] {
      if turns[0] < |s.threads| {
        StepKeepsInv(s, turns[0], value, jobs);
        ExecuteKeepsInv(Step(s, turns[0]), turns[1..], value, jobs);
      } else {
        ExecuteKeepsInv(s, turns[1..], value, jobs);
      }
    }
  }

  lemma {:induction false} AllAdded(threads: seq<Thread>, jobs: seq<Job>)
    requires |threads| == |jobs|
    requires forall t :: 0 <= t < |jobs| ==> threads[t].job == jobs[t] && threads[t].done == jobs[t].times
    ensures Added(threads) == Planned(jobs)
  {
    if jobs != [] { AllAdded(threads[1..], jobs[1..]); }
  }

  /** In every execution the counter holds the initial value plus what has been stored so far, and
      once all threads have done their jobs, the initial value plus increments minus decrements. */
  lemma CounterTotal(value: int, jobs: seq<Job>, turns: seq<nat>)
    ensures var s := Execute(Start(value, jobs), turns);
            s.val == value + Added(s.threads) &&
            ((forall t :: 0 <= t < |s.threads| ==> s.threads[t].done == s.threads[t].job.times) ==>
               s.val == value + Planned(jobs))
  {
    StartInv(value, jobs);
    ExecuteKeepsInv(Start(value, jobs), turns, value, jobs);
    var s := Execute(Start(value, jobs), turns);
    if forall t :: 0 <= t < |s.threads| ==> s.threads[t].done == s.threads[t].job.times {
      AllAdded(s.threads, jobs);
    }
  }

  // ---------- Every job can be finished ----------

  /** The steps thread `th` still needs if nobody holds it up. */
  function Rank(th: Thread): int {
    5 * (th.job.times - th.done) +
    (match th.pc
     case Between => 0
     case Acquire => -1
     case Load => -2
     case Store => -3
     case Release => 1)
  }

  /** The steps of thread `t` alone. */
  lemma {:induction false} SoloFinishes(s: State, t: nat, value: int, jobs: seq<Job>)
    returns (turns: seq<nat>, s': State)
    requires Inv(s, value, jobs) && t < |s.threads| && (s.owner == -1 || s.owner == t)
    ensures s' == Execute(s, turns) && Inv(s', value, jobs) && s'.owner == -1
    ensures s'.threads == s.threads[t := s'.threads[t]] && Finished(s'.threads[t])
    decreases Rank(s.threads[t]) + 5
  {
    assert ThreadOk(s, t);
    if Finished(s.threads[t]) {
      turns, s' := [], s;
    } else {
      StepKeepsInv(s, t, value, jobs);
      StepAdvances(s, t);
      var rest;
      rest, s' := SoloFinishes(Step(s, t), t, value, jobs);
      turns := [t] + rest;
      assert turns[1..] == rest;
    }
  }

  predicate Finished(th: Thread) {
    th.pc.Between? && th.done == th.job.times
  }

  lemma StepAdvances(s: State, t: nat)
    requires t < |s.threads| && ThreadOk(s, t) && (s.owner == -1 || s.owner == t) && !Finished(s.threads[t])
    requires s.flag == (if s.owner == -1 then 0 else 1)
    ensures var s' := Step(s, t);
            s'.threads == s.threads[t := s'.threads[t]] && (s'.owner == -1 || s'.owner == t) &&
            -5 < Rank(s'.threads[t]) < Rank(s.threads[t])
  {
  }

  lemma {:induction false} ExecuteAppend(s: State, xs: seq<nat>, ys: seq<nat>)
    ensures Execute(s, xs + ys) == Execute(Execute(s, xs), ys)
    decreases |xs|
  {
    if xs == [] {
      assert xs + ys == ys;
    } else {
      assert (xs + ys)[1..] == xs[1..] + ys;
      ExecuteAppend(if xs[0] < |s.threads| then Step(s, xs[0]) else s, xs[1..], ys);
    }
  }

  /** One thread after the other, from thread `t` on. */
  lemma {:induction false} RestFinish(s: State, t: nat, value: int, jobs: seq<Job>) returns (turns: seq<nat>, s': State)
    requires Inv(s, value, jobs) && t <= |s.threads| && s.owner == -1
    requires forall u :: 0 <= u < t ==> Finished(s.threads[u])
    ensures s' == Execute(s, turns) && Inv(s', value, jobs) && s'.owner == -1
    ensures forall u :: 0 <= u < |s'.threads| ==> Finished(s'.threads[u])
    decreases |s.threads| - t
  {
    if t == |s.threads| {
      turns, s' := [], s;
    } else {
      var now, mid := SoloFinishes(s, t, value, jobs);
      var later;
      later, s' := RestFinish(mid, t + 1, value, jobs);
      turns := now + later;
      ExecuteAppend(s, now, later);
    }
  }

  /** After `turns` every job is done, the lock is free, and the counter holds what all the jobs add. */
  ghost predicate Completes(value: int, jobs: seq<Job>, turns: seq<nat>) {
    var s := Execute(Start(value, jobs), turns);
    && |s.threads| == |jobs| && s.flag == 0 && s.val == value + Planned(jobs)
    && (forall t :: 0 <= t < |jobs| ==> Finished(s.threads[t]))
  }

  /** However an execution has gone so far, it can go on so that every thread does its job: no increment
      or decrement can deadlock. */
  lemma JobsComplete(value: int, jobs: seq<Job>, sofar: seq<nat>)
    ensures exists more :: Completes(value, jobs, sofar + more)
  {
    StartInv(value, jobs);
    ExecuteKeepsInv(Start(value, jobs), sofar, value, jobs);
    var s := Execute(Start(value, jobs), sofar);
    var first: seq<nat>, mid := [], s;
    if s.owner != -1 {
      first, mid := SoloFinishes(s, s.owner, value, jobs);
    }
    var rest, end := RestFinish(mid, 0, value, jobs);
    ExecuteAppend(s, first, rest);
    ExecuteAppend(Start(value, jobs), sofar, first + rest);
    AllAdded(end.threads, jobs);
    assert Completes(value, jobs, sofar + (first + rest));
  }
}
