/** The locks of the hash table cannot deadlock it: a thread is busy in one bucket at a time, and every
    bucket can be brought to rest by itself. */
module HashProgress {
  import opened KeyedLists
  import opened SpinLists
  import opened Linearization
  import opened Progress
  import opened HashLinearization

  lemma {:induction false} AboveAll(buckets: seq<State>) returns (m: nat)
    ensures forall b, a :: 0 <= b < |buckets| && a in buckets[b].heap ==> a < m
  {
    if buckets == [] {
      m := 0;
    } else {
      var rest := AboveAll(buckets[1..]);
      var first := Above(buckets[0].heap.Keys);
      m := if first < rest then rest else first;
      forall b, a | 0 <= b < |buckets| && a in buckets[b].heap
        ensures a < m
      {
        if b == 0 { assert a in buckets[0].heap.Keys; } else { assert buckets[1..][b - 1] == buckets[b]; }
      }
    }
  }

  /** Nothing happens outside bucket `b`. */
  ghost predicate OnlyIn(h: HashState, h': HashState, b: nat) {
    && b < |h.buckets| == |h'.buckets|
    && forall c :: 0 <= c < |h.buckets| && c != b ==> h'.buckets[c] == h.buckets[c]
  }

  /** A busy thread whose bucket's lock is free or its own can take a step there. */
  lemma BusyStep(h: HashState, n: nat, b: nat, t: nat) returns (turn: HashTurn, next: HashState)
    requires HashInv(h, n) && b < |h.buckets| && t < n && !IdleIn(h, b, t) && Unhindered(h.buckets[b], t)
    ensures turn.bucket == b && turn.tid == t && Enabled(h, turn)
    ensures next == HashStep(h, turn) && HashInv(next, n) && OnlyIn(h, next, b)
    ensures Advances(h.buckets[b], next.buckets[b], t)
  {
    assert BucketOk(h, b, n);
    var m := AboveAll(h.buckets);
    var c := Choice(Lookup(0), m + 1, Node(0, 0, 0, 0));
    StepAdvances(h.buckets[b], t, c);
    turn := HashTurn(b, t, c);
    assert Enabled(h, turn);
    StepKeepsHash(h, turn, n);
    next := HashStep(h, turn);
  }

  lemma IdleOwnsNothing(s: State, t: nat)
    requires Inv(s) && t < |s.threads| && s.threads[t].pc.Idle?
    ensures s.owner != t
  {
    assert !Critical(s.threads[t].pc);
  }

  /** A thread that runs alone finishes what it is doing in bucket `b`. */
  lemma {:induction false} SoloInBucket(h: HashState, n: nat, b: nat, t: nat)
    returns (turns: seq<HashTurn>, h': HashState)
    requires HashInv(h, n) && b < |h.buckets| && |h.buckets[b].threads| == n && t < n && Unhindered(h.buckets[b], t)
    ensures h' == HashExecute(h, turns) && HashInv(h', n) && OnlyIn(h, h', b)
    ensures h'.buckets[b].owner == -1 && |h'.buckets[b].threads| == n
    ensures h'.buckets[b].threads == h.buckets[b].threads[t := h'.buckets[b].threads[t]] && IdleIn(h', b, t)
    decreases Rank(h.buckets[b].threads[t], |h.buckets[b].chain|)
  {
    assert BucketOk(h, b, n);
    if IdleIn(h, b, t) {
      turns, h' := [], h;
      IdleOwnsNothing(h.buckets[b], t);
    } else {
      var turn, next := BusyStep(h, n, b, t);
      var rest;
      rest, h' := SoloInBucket(next, n, b, t);
      turns := [turn] + rest;
      assert turns[1..] == rest;
    }
  }

  lemma {:induction false} HashAppend(h: HashState, xs: seq<HashTurn>, ys: seq<HashTurn>)
    ensures HashExecute(h, xs + ys) == HashExecute(HashExecute(h, xs), ys)
    decreases |xs|
  {
    if xs == [] {
      assert xs + ys == ys;
    } else {
      assert (xs + ys)[1..] == xs[1..] + ys;
      HashAppend(HashStep(h, xs[0]), xs[1..], ys);
    }
  }

  /** One thread after the other finishes in bucket `b`, from thread `t` on. */
  lemma {:induction false} OthersInBucket(h: HashState, n: nat, b: nat, t: nat)
    returns (turns: seq<HashTurn>, h': HashState)
    requires HashInv(h, n) && b < |h.buckets| && |h.buckets[b].threads| == n && t <= n && h.buckets[b].owner == -1
    requires forall u :: 0 <= u < t ==> IdleIn(h, b, u)
    ensures h' == HashExecute(h, turns) && HashInv(h', n) && OnlyIn(h, h', b)
    ensures |h'.buckets[b].threads| == n && forall u :: 0 <= u < n ==> IdleIn(h', b, u)
    decreases n - t
  {
    if t == n {
      turns, h' := [], h;
    } else {
      var now, mid := SoloInBucket(h, n, b, t);
      forall u | 0 <= u <= t
        ensures IdleIn(mid, b, u)
      {
        assert u < t ==> IdleIn(h, b, u);
      }
      var later;
      later, h' := OthersInBucket(mid, n, b, t + 1);
      turns := now + later;
      HashAppend(h, now, later);
    }
  }

  /** Nobody is busy in bucket `b`, and its lock is free. */
  ghost predicate AtRest(h: HashState, b: nat, n: nat) {
    && b < |h.buckets| && |h.buckets[b].threads| == n && h.buckets[b].flag == 0
    && forall u :: 0 <= u < n ==> IdleIn(h, b, u)
  }

  lemma IdleIsAtRest(h: HashState, n: nat, b: nat)
    requires HashInv(h, n) && b < |h.buckets| && |h.buckets[b].threads| == n
    requires forall u :: 0 <= u < n ==> IdleIn(h, b, u)
    ensures AtRest(h, b, n)
  {
    assert BucketOk(h, b, n);
    forall u | 0 <= u < n
      ensures h.buckets[b].threads[u].pc.Idle?
    {
      assert IdleIn(h, b, u);
    }
    LockFree(h.buckets[b]);
  }

  /** First the owner of the bucket's lock runs, then the others in turn. */
  lemma BucketRests(h: HashState, n: nat, b: nat) returns (turns: seq<HashTurn>, h': HashState)
    requires HashInv(h, n) && b < |h.buckets|
    ensures h' == HashExecute(h, turns) && HashInv(h', n) && OnlyIn(h, h', b) && AtRest(h', b, n)
  {
    assert BucketOk(h, b, n);
    var first: seq<HashTurn>, mid := [], h;
    if h.buckets[b].owner != -1 {
      first, mid := SoloInBucket(h, n, b, h.buckets[b].owner);
    }
    var rest;
    rest, h' := OthersInBucket(mid, n, b, 0);
    turns := first + rest;
    HashAppend(h, first, rest);
    IdleIsAtRest(h', n, b);
  }

  lemma StillAtRest(h: HashState, h': HashState, n: nat, b: nat, c: nat)
    requires OnlyIn(h, h', b) && c != b && AtRest(h, c, n)
    ensures AtRest(h', c, n)
  {
    forall u | 0 <= u < n
      ensures IdleIn(h', c, u)
    {
      assert IdleIn(h, c, u);
    }
  }

  /** One bucket after the other, from bucket `b` on. */
  lemma {:induction false} AllRest(h: HashState, n: nat, b: nat) returns (turns: seq<HashTurn>, h': HashState)
    requires HashInv(h, n) && b <= |h.buckets| && forall c :: 0 <= c < b ==> AtRest(h, c, n)
    ensures h' == HashExecute(h, turns) && |h'.buckets| == |h.buckets|
    ensures forall c :: 0 <= c < |h'.buckets| ==> AtRest(h', c, n)
    decreases |h.buckets| - b
  {
    if b == |h.buckets| {
      turns, h' := [], h;
    } else {
      var now, mid := BucketRests(h, n, b);
      forall c | 0 <= c < b
        ensures AtRest(mid, c, n)
      {
        StillAtRest(h, mid, n, b, c);
      }
      var later;
      later, h' := AllRest(mid, n, b + 1);
      turns := now + later;
      HashAppend(h, now, later);
    }
  }

  /** After `turns` every operation has returned and every lock is free. */
  ghost predicate Rests(m: nat, n: nat, turns: seq<HashTurn>) {
    var h := HashExecute(HashStart(m, n), turns);
    |h.buckets| == m && forall b :: 0 <= b < m ==> AtRest(h, b, n)
  }

  /** However an execution has gone so far, in any number of buckets, it can go on so that every operation
      finishes. */
  lemma HashNoDeadlock(m: nat, n: nat, sofar: seq<HashTurn>)
    requires m > 0
    ensures exists more :: Rests(m, n, sofar + more)
  {
    StartHash(m, n);
    RunKeepsHash(HashStart(m, n), sofar, n);
    var more, end := AllRest(HashExecute(HashStart(m, n), sofar), n, 0);
    HashAppend(HashStart(m, n), sofar, more);
    assert Rests(m, n, sofar + more);
  }
}
