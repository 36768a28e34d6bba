/** What can be called on the hash table: any operation by any thread that is idle, as soon as the lock of
    the key's bucket is free.  So any workload can be run to its end. */
module HashRuns {
  import opened KeyedLists
  import opened SpinLists
  import opened Linearization
  import opened Progress
  import opened StressTest
  import opened StressRuns
  import opened HashLinearization
  import opened HashProgress

  lemma OpsAppend(hist: seq<Event>, news: seq<Event>, t: nat)
    requires |news| <= 1
    ensures OpsOf(hist + news, t) == OpsOf(hist, t) + OpsOf(news, t)
  {
    if news == [] {
      assert hist + news == hist;
    } else {
      assert news == [news[0]] && [] + news == news;
      RecordOne(hist, news[0], t);
      RecordOne([], news[0], t);
    }
  }

  lemma Cancel(a: seq<Op>, x: seq<Op>, y: seq<Op>, z: seq<Op>)
    requires (a + x) + y == a + z
    ensures x + y == z
  {
    assert (a + x) + y == a + (x + y);
    assert (a + (x + y))[|a|..] == x + y && (a + z)[|a|..] == z;
  }

  /** No thread but `t` has done anything. */
  ghost predicate OnlyBy(h: HashState, h': HashState, t: nat) {
    forall u: nat :: u != t ==> OpsOf(h'.hist, u) == OpsOf(h.hist, u)
  }

  /** What one step records is what the thread owes, or nothing. */
  lemma NewsPay(s: State, s': State, t: nat, news: seq<Event>)
    requires Inv(s) && Inv(s') && t < |s.threads| && Matches(s, s', t) && s'.hist == s.hist + news && |news| <= 1
    ensures t < |s'.threads| && forall u: nat :: u != t ==> OpsOf(news, u) == []
    ensures !s.threads[t].pc.Idle? ==> OpsOf(news, t) + Owed(s'.threads[t]) == Owed(s.threads[t])
    ensures s.threads[t].pc.Idle? ==> OpsOf(news, t) == []
  {
    StepPays(s, s', t);
    forall u: nat
      ensures OpsOf(s'.hist, u) == OpsOf(s.hist, u) + OpsOf(news, u)
    {
      OpsAppend(s.hist, news, u);
    }
    if !s.threads[t].pc.Idle? {
      Cancel(OpsOf(s.hist, t), OpsOf(news, t), Owed(s'.threads[t]), Owed(s.threads[t]));
    }
  }

  /** A step in one bucket, and what it records. */
  lemma StepNews(h: HashState, turn: HashTurn, n: nat) returns (s': State, news: seq<Event>)
    requires HashInv(h, n) && Enabled(h, turn)
    ensures HashStep(h, turn) == HashState(h.buckets[turn.bucket := s'], h.hist + news) && |news| <= 1
    ensures |s'.threads| == |h.buckets[turn.bucket].threads|
    ensures forall u: nat :: u != turn.tid ==> OpsOf(news, u) == []
    ensures var th := h.buckets[turn.bucket].threads[turn.tid];
            if th.pc.Idle? then OpsOf(news, turn.tid) == []
            else OpsOf(news, turn.tid) + Owed(s'.threads[turn.tid]) == Owed(th)
  {
    assert BucketOk(h, turn.bucket, n);
    s', news := TakesStep(h, turn, n);
    SteppedTo(h, turn);
    assert s' == HashStep(h, turn).buckets[turn.bucket];
    StepMatches(h.buckets[turn.bucket], turn.tid, turn.choice);
    NewsPay(h.buckets[turn.bucket], s', turn.tid, news);
  }

  /** A step of the table does nothing, or exactly what the thread owes in that bucket. */
  lemma StepPaysIn(h: HashState, turn: HashTurn, n: nat) returns (next: HashState)
    requires HashInv(h, n) && Enabled(h, turn)
    ensures next == HashStep(h, turn) && HashInv(next, n)
    ensures OnlyIn(h, next, turn.bucket) && OnlyBy(h, next, turn.tid)
    ensures next.buckets[turn.bucket] == Step(h.buckets[turn.bucket], turn.tid, turn.choice)
    ensures |next.buckets[turn.bucket].threads| == |h.buckets[turn.bucket].threads|
    ensures var th, th' := h.buckets[turn.bucket].threads[turn.tid], next.buckets[turn.bucket].threads[turn.tid];
            OpsOf(next.hist, turn.tid) + (if th.pc.Idle? then [] else Owed(th')) ==
            OpsOf(h.hist, turn.tid) + (if th.pc.Idle? then [] else Owed(th))
  {
    var s', news := StepNews(h, turn, n);
    StepKeepsHash(h, turn, n);
    next := HashStep(h, turn);
    SteppedTo(h, turn);
    forall u: nat
      ensures OpsOf(next.hist, u) == OpsOf(h.hist, u) + OpsOf(news, u)
    {
      OpsAppend(h.hist, news, u);
    }
  }

  lemma SteppedTo(h: HashState, turn: HashTurn)
    requires Enabled(h, turn)
    ensures |HashStep(h, turn).buckets| == |h.buckets|
    ensures HashStep(h, turn).buckets[turn.bucket] == Step(h.buckets[turn.bucket], turn.tid, turn.choice)
  {
  }

  ghost predicate AllBy(turns: seq<HashTurn>, t: nat) {
    forall i :: 0 <= i < |turns| ==> turns[i].tid == t
  }

  /** In bucket `b` only thread `t` has moved, and it is idle there; the lock is free. */
  ghost predicate Comes(h: HashState, h': HashState, n: nat, b: nat, t: nat)
    requires b < |h.buckets| && |h.buckets[b].threads| == n && t < n
  {
    && HashInv(h', n) && OnlyIn(h, h', b) && OnlyBy(h, h', t)
    && |h'.buckets[b].threads| == n && h'.buckets[b].owner == -1
    && h'.buckets[b].threads == h.buckets[b].threads[t := h'.buckets[b].threads[t]] && IdleIn(h', b, t)
  }

  /** A thread that runs alone in its bucket makes the operation it has called take effect there. */
  lemma {:induction false} SoloPaysIn(h: HashState, n: nat, b: nat, t: nat)
    returns (turns: seq<HashTurn>, h': HashState)
    requires HashInv(h, n) && b < |h.buckets| && |h.buckets[b].threads| == n && t < n && Unhindered(h.buckets[b], t)
    ensures h' == HashExecute(h, turns) && AllBy(turns, t) && Comes(h, h', n, b, t)
    ensures OpsOf(h'.hist, t) == OpsOf(h.hist, t) + Owed(h.buckets[b].threads[t])
    decreases Rank(h.buckets[b].threads[t], |h.buckets[b].chain|)
  {
    if IdleIn(h, b, t) {
      turns, h' := [], h;
      assert BucketOk(h, b, n);
      IdleOwnsNothing(h.buckets[b], t);
    } else {
      var turn, next := BusyStep(h, n, b, t);
      var same := StepPaysIn(h, turn, n);
      var rest;
      rest, h' := SoloPaysIn(next, n, b, t);
      turns := [turn] + rest;
      assert turns[1..] == rest;
    }
  }

  /** The call of an operation: the thread then owes it, in the bucket of its key. */
  lemma CallsIn(h: HashState, n: nat, b: nat, t: nat, op: Op) returns (turn: HashTurn, next: HashState)
    requires HashInv(h, n) && t < n && forall c :: 0 <= c < |h.buckets| ==> IdleIn(h, c, t)
    requires b < |h.buckets| && b == op.key % |h.buckets|
    ensures turn.tid == t && next == HashStep(h, turn) && HashInv(next, n) && OnlyIn(h, next, b) && OnlyBy(h, next, t)
    ensures |h.buckets[b].threads| == n == |next.buckets[b].threads| && next.buckets[b].owner == h.buckets[b].owner
    ensures next.buckets[b].threads == h.buckets[b].threads[t := next.buckets[b].threads[t]]
    ensures Owed(next.buckets[b].threads[t]) == [op] && OpsOf(next.hist, t) == OpsOf(h.hist, t)
  {
    assert BucketOk(h, b, n) && IdleIn(h, b, t);
    turn := HashTurn(b, t, Choice(op, 0, Node(0, 0, 0, 0)));
    next := StepPaysIn(h, turn, n);
    Called(h.buckets[b], t, turn.choice);
  }

  /** A thread that is idle everywhere can call any operation, and by itself bring it to its end, when the
      lock of the key's bucket is free. */
  lemma HashPerforms(h: HashState, n: nat, b: nat, t: nat, op: Op) returns (turns: seq<HashTurn>, h': HashState)
    requires HashInv(h, n) && t < n && forall c :: 0 <= c < |h.buckets| ==> IdleIn(h, c, t)
    requires b < |h.buckets| && b == op.key % |h.buckets| && h.buckets[b].owner == -1
    ensures |h.buckets[b].threads| == n
    ensures h' == HashExecute(h, turns) && AllBy(turns, t) && Comes(h, h', n, b, t)
    ensures OpsOf(h'.hist, t) == OpsOf(h.hist, t) + [op]
  {
    var turn, next := CallsIn(h, n, b, t, op);
    var rest;
    rest, h' := SoloPaysIn(next, n, b, t);
    turns := [turn] + rest;
    assert turns[1..] == rest;
  }

  lemma Called(s: State, t: nat, c: Choice)
    requires t < |s.threads| && s.threads[t].pc.Idle?
    ensures var s' := Step(s, t, c);
            s'.owner == s.owner && s'.threads == s.threads[t := s'.threads[t]] && Owed(s'.threads[t]) == [c.op]
  {
  }

  // ---------- Whole workloads ----------

  /** Nobody is busy anywhere and every lock is free. */
  ghost predicate Resting(h: HashState, n: nat) {
    && HashInv(h, n)
    && forall b :: 0 <= b < |h.buckets| ==> Quiet(h.buckets[b], n)
  }

  ghost predicate Quiet(s: State, n: nat) {
    |s.threads| == n && s.owner == -1 && forall u :: 0 <= u < n ==> s.threads[u].pc.Idle?
  }

  lemma StillResting(h: HashState, h': HashState, n: nat, b: nat, t: nat)
    requires Resting(h, n) && b < |h.buckets| && |h.buckets[b].threads| == n && t < n && Comes(h, h', n, b, t)
    ensures Resting(h', n) && |h'.buckets| == |h.buckets|
  {
    assert Quiet(h.buckets[b], n);
    forall c | 0 <= c < |h'.buckets|
      ensures Quiet(h'.buckets[c], n)
    {
      if c != b { assert h'.buckets[c] == h.buckets[c] && Quiet(h.buckets[c], n); }
    }
  }

  /** One operation after the other. */
  lemma {:induction false} PerformsProgram(h: HashState, n: nat, t: nat, ops: seq<Op>)
    returns (turns: seq<HashTurn>, h': HashState)
    requires Resting(h, n) && t < n
    ensures h' == HashExecute(h, turns) && Resting(h', n) && |h'.buckets| == |h.buckets| && OnlyBy(h, h', t)
    ensures OpsOf(h'.hist, t) == OpsOf(h.hist, t) + ops
    decreases |ops|
  {
    if ops == [] {
      turns, h' := [], h;
    } else {
      forall b | 0 <= b < |h.buckets|
        ensures IdleIn(h, b, t)
      {
        assert Quiet(h.buckets[b], n);
      }
      var b := ops[0].key % |h.buckets|;
      assert Quiet(h.buckets[b], n);
      var now, next := HashPerforms(h, n, b, t, ops[0]);
      StillResting(h, next, n, b, t);
      var later;
      later, h' := PerformsProgram(next, n, t, ops[1..]);
      turns := now + later;
      HashAppend(h, now, later);
      FirstAndRest(OpsOf(h.hist, t), ops);
    }
  }

  /** The first `t` threads have run their programs, and the others nothing. */
  ghost predicate RunUpTo(h: HashState, programs: seq<seq<Op>>, t: nat) {
    && Resting(h, |programs|)
    && forall u: nat :: OpsOf(h.hist, u) == if u < t && u < |programs| then programs[u] else []
  }

  lemma {:induction false} RestRun(h: HashState, programs: seq<seq<Op>>, t: nat)
    returns (turns: seq<HashTurn>, h': HashState)
    requires t <= |programs| && RunUpTo(h, programs, t)
    ensures h' == HashExecute(h, turns) && RunUpTo(h', programs, |programs|)
    decreases |programs| - t
  {
    if t == |programs| {
      turns, h' := [], h;
    } else {
      var now, next := PerformsProgram(h, |programs|, t, programs[t]);
      var later;
      later, h' := RestRun(next, programs, t + 1);
      turns := now + later;
      HashAppend(h, now, later);
    }
  }

  /** Every thread performs exactly its own program. */
  ghost predicate RunsAll(m: nat, programs: seq<seq<Op>>, turns: seq<HashTurn>) {
    var h := HashExecute(HashStart(m, |programs|), turns);
    forall t: nat :: OpsOf(h.hist, t) == if t < |programs| then programs[t] else []
  }

  /** For any number of buckets and any program for each thread, some execution performs them all. */
  lemma ProgramsRun(m: nat, programs: seq<seq<Op>>)
    requires m > 0
    ensures exists turns :: RunsAll(m, programs, turns)
  {
    var n := |programs|;
    StartHash(m, n);
    var h := HashStart(m, n);
    forall b | 0 <= b < m
      ensures Quiet(h.buckets[b], n)
    {
      assert h.buckets[b] == Start(n);
    }
    assert RunUpTo(h, programs, 0);
    var turns, end := RestRun(h, programs, 0);
    assert RunsAll(m, programs, turns);
  }
}
