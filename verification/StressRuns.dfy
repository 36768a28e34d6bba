/** The stress test can be run to its end: for any number of threads and operations some execution
    finishes every thread's workload. */
module StressRuns {
  import opened KeyedLists
  import opened SpinLists
  import opened Linearization
  import opened Progress
  import opened StressTest

  /** What a thread has been asked to do and has not yet done. */
  function Owed(th: Thread): seq<Op> {
    if th.pc.Idle? || th.done then [] else [th.op]
  }

  /** Every thread's effects but those of `t` are what they were. */
  ghost predicate OthersSame(s: State, s': State, t: nat)
    requires t < |s.threads|
  {
    && |s'.threads| == |s.threads| && s'.threads == s.threads[t := s'.threads[t]]
    && forall u: nat :: u != t ==> OpsOf(s'.hist, u) == OpsOf(s.hist, u)
  }

  lemma OthersStaySame(s: State, mid: State, s': State, t: nat)
    requires t < |s.threads| && OthersSame(s, mid, t) && OthersSame(mid, s', t)
    ensures OthersSame(s, s', t)
  {
  }

  lemma RecordOne(hist: seq<Event>, e: Event, u: nat)
    ensures OpsOf(hist + [e], u) == OpsOf(hist, u) + (if e.Effect? && e.tid == u then [e.op] else [])
  {
    assert (hist + [e])[..|hist|] == hist;
  }

  /** A step does nothing, or exactly what the thread owes. */
  lemma StepPays(s: State, s': State, t: nat)
    requires Inv(s) && Inv(s') && t < |s.threads| && Matches(s, s', t)
    ensures OthersSame(s, s', t)
    ensures !s.threads[t].pc.Idle? ==> OpsOf(s'.hist, t) + Owed(s'.threads[t]) == OpsOf(s.hist, t) + Owed(s.threads[t])
    ensures s.threads[t].pc.Idle? ==> OpsOf(s'.hist, t) == OpsOf(s.hist, t)
  {
    assert ThreadOk(s, t) && ThreadOk(s', t);
    if s'.hist != s.hist {
      var e := s'.hist[|s.hist|];
      assert s'.hist == s.hist + [e];
      forall u: nat
        ensures OpsOf(s'.hist, u) == OpsOf(s.hist, u) + (if e.Effect? && e.tid == u then [e.op] else [])
      {
        RecordOne(s.hist, e, u);
      }
    }
  }

  lemma OneStep(s: State, t: nat, c: Choice) returns (s': State)
    requires Inv(s) && t < |s.threads|
    ensures s' == Step(s, t, c) && Inv(s') && OthersSame(s, s', t)
    ensures !s.threads[t].pc.Idle? ==> OpsOf(s'.hist, t) + Owed(s'.threads[t]) == OpsOf(s.hist, t) + Owed(s.threads[t])
    ensures s.threads[t].pc.Idle? ==> OpsOf(s'.hist, t) == OpsOf(s.hist, t)
  {
    StepMatches(s, t, c);
    s' := Step(s, t, c);
    StepPays(s, s', t);
  }

  lemma OneTurn(s: State, turn: Turn, rest: seq<Turn>)
    requires turn.tid < |s.threads|
    ensures Execute(s, [turn] + rest) == Execute(Step(s, turn.tid, turn.choice), rest)
  {
    assert ([turn] + rest)[1..] == rest;
  }

  /** A thread that runs alone pays what it owes. */
  lemma {:induction false} SoloPays(s: State, t: nat) returns (turns: seq<Turn>, s': State)
    requires Inv(s) && t < |s.threads| && Unhindered(s, t)
    ensures s' == Execute(s, turns) && Inv(s') && OthersSame(s, s', t)
    ensures s'.threads[t].pc.Idle? && s'.owner == -1
    ensures OpsOf(s'.hist, t) == OpsOf(s.hist, t) + Owed(s.threads[t])
    decreases Rank(s.threads[t], |s.chain|)
  {
    if s.threads[t].pc.Idle? {
      turns, s' := [], s;
    } else {
      var a := FreshAddress(s.heap);
      var c := Choice(Lookup(0), a, Node(0, 0, 0, 0));
      StepAdvances(s, t, c);
      var next := OneStep(s, t, c);
      var rest;
      rest, s' := SoloPays(next, t);
      turns := [Turn(t, c)] + rest;
      OneTurn(s, Turn(t, c), rest);
    }
  }

  /** An idle thread calls an operation and runs it to its end. */
  lemma Performs(s: State, t: nat, op: Op) returns (turns: seq<Turn>, s': State)
    requires Inv(s) && t < |s.threads| && s.owner == -1 && s.threads[t].pc.Idle?
    ensures s' == Execute(s, turns) && Inv(s') && OthersSame(s, s', t)
    ensures s'.threads[t].pc.Idle? && s'.owner == -1 && OpsOf(s'.hist, t) == OpsOf(s.hist, t) + [op]
  {
    var c := Choice(op, 0, Node(0, 0, 0, 0));
    var next := OneStep(s, t, c);
    assert next == Begin(s, t, op) && Owed(next.threads[t]) == [op];
    var rest;
    rest, s' := SoloPays(next, t);
    turns := [Turn(t, c)] + rest;
    OneTurn(s, Turn(t, c), rest);
  }

  lemma Joined(s: State, mid: State, s': State, t: nat, ops: seq<Op>, first: seq<Turn>, rest: seq<Turn>)
    returns (turns: seq<Turn>)
    requires t < |s.threads| && ops != [] && mid == Execute(s, first) && s' == Execute(mid, rest)
    requires OthersSame(s, mid, t) && OthersSame(mid, s', t)
    requires OpsOf(mid.hist, t) == OpsOf(s.hist, t) + [ops[0]] && OpsOf(s'.hist, t) == OpsOf(mid.hist, t) + ops[1..]
    ensures s' == Execute(s, turns) && OthersSame(s, s', t) && OpsOf(s'.hist, t) == OpsOf(s.hist, t) + ops
  {
    turns := first + rest;
    assert s' == Execute(s, turns) by { ExecuteAppend(s, first, rest); }
    assert OthersSame(s, s', t) by { OthersStaySame(s, mid, s', t); }
    FirstAndRest(OpsOf(s.hist, t), ops);
  }

  lemma FirstAndRest(before: seq<Op>, ops: seq<Op>)
    requires ops != []
    ensures (before + [ops[0]]) + ops[1..] == before + ops
  {
  }

  /** One operation after the other. */
  lemma {:induction false} PerformsAll(s: State, t: nat, ops: seq<Op>) returns (turns: seq<Turn>, s': State)
    requires Inv(s) && t < |s.threads| && s.owner == -1 && s.threads[t].pc.Idle?
    ensures s' == Execute(s, turns) && Inv(s') && OthersSame(s, s', t)
    ensures s'.threads[t].pc.Idle? && s'.owner == -1 && OpsOf(s'.hist, t) == OpsOf(s.hist, t) + ops
    decreases |ops|
  {
    if ops == [] {
      turns, s' := [], s;
    } else {
      var first, next := Performs(s, t, ops[0]);
      var rest;
      rest, s' := PerformsAll(next, t, ops[1..]);
      turns := Joined(s, next, s', t, ops, first, rest);
    }
  }

  /** Threads 0 to t - 1 have done their workloads and the others nothing; nobody is busy. */
  ghost predicate DoneUpTo(s: State, t: nat, n: nat) {
    && Inv(s) && s.owner == -1
    && (forall u :: 0 <= u < |s.threads| ==> s.threads[u].pc.Idle?)
    && (forall u: nat :: OpsOf(s.hist, u) == if u < t then Program(u * n, n) else [])
  }

  lemma {:induction false} RestDone(s: State, t: nat, n: nat) returns (turns: seq<Turn>)
    requires t <= |s.threads| && DoneUpTo(s, t, n)
    ensures var s' := Execute(s, turns); |s'.threads| == |s.threads| && DoneUpTo(s', |s.threads|, n)
    decreases |s.threads| - t
  {
    if t == |s.threads| {
      turns := [];
    } else {
      var now, next := PerformsAll(s, t, Program(t * n, n));
      var later := RestDone(next, t + 1, n);
      turns := now + later;
      ExecuteAppend(s, now, later);
    }
  }

  ghost predicate Completes(threads: nat, n: nat, turns: seq<Turn>) {
    Finished(Execute(Start(threads), turns).hist, threads, n)
  }

  /** So the executions that the test's final check is about exist. */
  lemma StressCompletes(threads: nat, n: nat)
    ensures exists turns :: Completes(threads, n, turns)
  {
    StartInv(threads);
    assert DoneUpTo(Start(threads), 0, n);
    var turns := RestDone(Start(threads), 0, n);
    assert Completes(threads, n, turns);
  }
}
