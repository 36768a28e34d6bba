/** The hash table of p4-final/handin/hash.c run by any number of threads: one spin-locked list per
    bucket, every one with a lock of its own.  Its operations are still linearized, together, to the
    operations of a single unbucketed list. */
module HashLinearization {
  import opened KeyedLists
  import opened SpinLists
  import opened Linearization

  /** The buckets' states, with every thread in each of them, and one history for all. */
  datatype HashState = HashState(buckets: seq<State>, hist: seq<Event>)

  datatype HashTurn = HashTurn(bucket: nat, tid: nat, choice: Choice)

  function HashStart(m: nat, n: nat): HashState {
    HashState(seq(m, _ => Start(n)), [])
  }

  predicate IdleIn(h: HashState, b: nat, t: nat)
    requires b < |h.buckets|
  {
    t < |h.buckets[b].threads| ==> h.buckets[b].threads[t].pc.Idle?
  }

  /** A thread that is idle everywhere calls an operation in the bucket of its key; one that is busy in
      a bucket takes a step there.  malloc returns no address that is in use in any bucket. */
  predicate Enabled(h: HashState, turn: HashTurn) {
    && turn.bucket < |h.buckets| && turn.tid < |h.buckets[turn.bucket].threads|
    && var s := h.buckets[turn.bucket]; var th := s.threads[turn.tid];
       if th.pc.Idle? then
         turn.choice.op.key % |h.buckets| == turn.bucket && forall b :: 0 <= b < |h.buckets| ==> IdleIn(h, b, turn.tid)
       else
         th.pc.InsertMalloc? ==> forall b :: 0 <= b < |h.buckets| ==> turn.choice.addr !in h.buckets[b].heap
  }

  function HashStep(h: HashState, turn: HashTurn): HashState {
    if !Enabled(h, turn) then h
    else
      var s := h.buckets[turn.bucket];
      var s' := Step(s, turn.tid, turn.choice);
      HashState(h.buckets[turn.bucket := s'], h.hist + (if |s.hist| <= |s'.hist| then s'.hist[|s.hist|..] else []))
  }

  function HashExecute(h: HashState, turns: seq<HashTurn>): HashState
    decreases |turns|
  {
    if turns == [] then h else HashExecute(HashStep(h, turns[0]), turns[1..])
  }

  // ---------- One history, seen from each bucket ----------

  function InBucket(hist: seq<Event>, b: nat, m: nat): seq<Event>
    requires m > 0
  {
    if hist == [] then []
    else
      var e, before := hist[|hist| - 1], InBucket(hist[..|hist| - 1], b, m);
      if e.op.key % m == b then before + [e] else before
  }

  lemma InBucketNext(hist: seq<Event>, e: Event, b: nat, m: nat)
    requires m > 0
    ensures InBucket(hist + [e], b, m) == if e.op.key % m == b then InBucket(hist, b, m) + [e] else InBucket(hist, b, m)
  {
    assert (hist + [e])[..|hist|] == hist;
  }

  lemma SpecNext(hist: seq<Event>, e: Event)
    ensures Spec(hist + [e]) == if e.Effect? then Apply(Spec(hist), e.op) else Spec(hist)
    ensures Legal(hist + [e]) <==> Legal(hist) && (e.Effect? ==> e.result == KeyedLists.Result(Spec(hist), e.op))
  {
    assert (hist + [e])[..|hist|] == hist;
  }

  /** If what every bucket did is legal, so is what the table did, and each bucket holds its part. */
  lemma {:induction false} BucketsLegal(hist: seq<Event>, m: nat)
    requires m > 0 && forall b :: 0 <= b < m ==> Legal(InBucket(hist, b, m))
    ensures Legal(hist) && forall b :: 0 <= b < m ==> Spec(InBucket(hist, b, m)) == Bucket(Spec(hist), b, m)
    decreases |hist|
  {
    if hist != [] {
      var e, before := hist[|hist| - 1], hist[..|hist| - 1];
      assert hist == before + [e];
      SpecNext(before, e);
      forall b | 0 <= b < m
        ensures Legal(InBucket(before, b, m))
      {
        InBucketNext(before, e, b, m);
        SpecNext(InBucket(before, b, m), e);
      }
      BucketsLegal(before, m);
      LastLegal(before, e, m);
      forall b | 0 <= b < m
        ensures Spec(InBucket(hist, b, m)) == Bucket(Spec(hist), b, m)
      {
        InBucketNext(before, e, b, m);
        SpecNext(InBucket(before, b, m), e);
        BucketApply(Spec(before), e.op, b, m);
      }
    }
  }

  lemma LastLegal(before: seq<Event>, e: Event, m: nat)
    requires m > 0 && Legal(before) && Legal(InBucket(before + [e], e.op.key % m, m))
    requires Spec(InBucket(before, e.op.key % m, m)) == Bucket(Spec(before), e.op.key % m, m)
    ensures Legal(before + [e])
  {
    var b := e.op.key % m;
    InBucketNext(before, e, b, m);
    SpecNext(InBucket(before, b, m), e);
    BucketApply(Spec(before), e.op, b, m);
    SpecNext(before, e);
  }

  // ---------- The invariant ----------

  /** Thread `t` of bucket `s` is at work on a key of that bucket. */
  predicate OwnKey(s: State, t: nat, b: nat, m: nat)
    requires t < |s.threads| && m > 0
  {
    !s.threads[t].pc.Idle? ==> s.threads[t].op.key % m == b
  }

  ghost predicate BucketOk(h: HashState, b: nat, n: nat)
    requires b < |h.buckets|
  {
    var s, m := h.buckets[b], |h.buckets|;
    && HistInv(s) && |s.threads| == n && s.hist == InBucket(h.hist, b, m)
    && (forall t :: 0 <= t < n ==> OwnKey(s, t, b, m))
  }

  /** What the history says of thread `t` is what the bucket it is busy in says. */
  ghost predicate PhaseOk(h: HashState, t: nat, n: nat) {
    && (forall b, c :: 0 <= b < |h.buckets| && 0 <= c < |h.buckets| && b != c ==> IdleIn(h, b, t) || IdleIn(h, c, t))
    && (forall b :: 0 <= b < |h.buckets| && |h.buckets[b].threads| == n && t < n && !IdleIn(h, b, t) ==>
          PhaseOf(h.hist, t) == Expected(h.buckets[b].threads[t]))
    && ((forall b :: 0 <= b < |h.buckets| ==> IdleIn(h, b, t)) ==> PhaseOf(h.hist, t) == Ready)
  }

  ghost predicate HeapsApart(h: HashState) {
    forall b, c :: 0 <= b < |h.buckets| && 0 <= c < |h.buckets| && b != c ==>
      h.buckets[b].heap.Keys !! h.buckets[c].heap.Keys
  }

  ghost predicate HashInv(h: HashState, n: nat) {
    && |h.buckets| > 0
    && (forall b :: 0 <= b < |h.buckets| ==> BucketOk(h, b, n))
    && (forall t: nat :: PhaseOk(h, t, n))
    && HeapsApart(h)
  }

  // ---------- One step ----------

  /** What a step of thread `t` in a bucket records: nothing, or one event of the thread's operation. */
  ghost predicate News(s: State, s': State, t: nat, news: seq<Event>)
    requires t < |s.threads| && t < |s'.threads|
  {
    && s'.hist == s.hist + news && |news| <= 1
    && (news != [] ==> news[0].tid == t)
    && (news != [] ==> news[0].op == (if s.threads[t].pc.Idle? then s'.threads[t].op else s.threads[t].op))
    && (!s.threads[t].pc.Idle? && !s'.threads[t].pc.Idle? ==> s'.threads[t].op == s.threads[t].op)
  }

  lemma Recorded(s: State, s': State, t: nat) returns (news: seq<Event>)
    requires Inv(s) && Inv(s') && t < |s.threads| && Matches(s, s', t)
    ensures t < |s'.threads| && News(s, s', t, news)
  {
    assert ThreadOk(s, t) && ThreadOk(s', t);
    news := if s'.hist == s.hist then [] else [s'.hist[|s.hist|]];
    assert s'.hist == s.hist + news;
  }

  lemma BucketStep(s: State, t: nat, c: Choice) returns (s': State, news: seq<Event>)
    requires HistInv(s) && t < |s.threads|
    ensures s' == Step(s, t, c) && HistInv(s')
    ensures |s'.threads| == |s.threads| && s'.threads == s.threads[t := s'.threads[t]] && News(s, s', t, news)
    ensures |s.hist| <= |s'.hist| && news == s'.hist[|s.hist|..]
  {
    StepMatches(s, t, c);
    s' := Step(s, t, c);
    MatchesKeeps(s, s', t);
    news := Recorded(s, s', t);
    assert s'.hist[|s.hist|..] == news;
  }

  /** A call is for the operation chosen. */
  lemma CallsChosen(s: State, t: nat, c: Choice)
    requires t < |s.threads| && s.threads[t].pc.Idle?
    ensures Step(s, t, c).threads[t].op == c.op
  {
  }

  lemma HeapInside(s: State, t: nat, c: Choice)
    requires t < |s.threads| && Critical(s.threads[t].pc)
    ensures Step(s, t, c).heap.Keys <= s.heap.Keys
  {
  }

  lemma HeapOutside(s: State, t: nat, c: Choice)
    requires t < |s.threads| && !Critical(s.threads[t].pc)
    ensures Step(s, t, c).heap.Keys <= s.heap.Keys + (if s.threads[t].pc.InsertMalloc? then {c.addr} else {})
  {
  }

  function After(p: Phase, e: Event, t: nat): Phase {
    if e.tid != t then p
    else match e
         case Call(_, op) => if p == Ready then Pending(op) else Broken
         case Effect(_, op, r) => if p == Pending(op) then Effected(op, r) else Broken
         case Ret(_, op, r) => if p == Effected(op, r) then Ready else Broken
  }

  lemma PhaseAfter(xs: seq<Event>, e: Event, t: nat)
    ensures PhaseOf(xs + [e], t) == After(PhaseOf(xs, t), e, t)
  {
    assert (xs + [e])[..|xs|] == xs;
  }

  lemma SamePhase(xs: seq<Event>, ys: seq<Event>, news: seq<Event>, t: nat)
    requires |news| <= 1 && PhaseOf(xs, t) == PhaseOf(ys, t)
    ensures PhaseOf(xs + news, t) == PhaseOf(ys + news, t)
  {
    if news == [] {
      assert xs + news == xs && ys + news == ys;
    } else {
      assert news == [news[0]];
      PhaseAfter(xs, news[0], t);
      PhaseAfter(ys, news[0], t);
    }
  }

  lemma OtherPhase(xs: seq<Event>, news: seq<Event>, t: nat)
    requires |news| <= 1 && (news != [] ==> news[0].tid != t)
    ensures PhaseOf(xs + news, t) == PhaseOf(xs, t)
  {
    if news == [] {
      assert xs + news == xs;
    } else {
      assert news == [news[0]];
      PhaseAfter(xs, news[0], t);
    }
  }

  lemma InBucketNews(hist: seq<Event>, news: seq<Event>, b: nat, m: nat)
    requires m > 0 && |news| <= 1
    ensures InBucket(hist + news, b, m) ==
            InBucket(hist, b, m) + (if news != [] && news[0].op.key % m == b then news else [])
  {
    if news == [] {
      assert hist + news == hist;
    } else {
      assert news == [news[0]];
      InBucketNext(hist, news[0], b, m);
    }
  }

  /** A step of the table, as a step of one bucket. */
  ghost predicate Steps(h: HashState, turn: HashTurn, n: nat, s': State, news: seq<Event>) {
    var b, t, m := turn.bucket, turn.tid, |h.buckets|;
    && b < m && t < n && |h.buckets[b].threads| == n == |s'.threads|
    && var s := h.buckets[b];
       && HistInv(s') && s'.threads == s.threads[t := s'.threads[t]] && News(s, s', t, news)
       && OwnKey(s', t, b, m) && (news != [] ==> news[0].op.key % m == b)
       && (forall c :: 0 <= c < m && c != b ==> IdleIn(h, c, t))
       && (forall c :: 0 <= c < m && c != b ==> s'.heap.Keys !! h.buckets[c].heap.Keys)
  }

  lemma TakesStep(h: HashState, turn: HashTurn, n: nat) returns (s': State, news: seq<Event>)
    requires HashInv(h, n) && Enabled(h, turn)
    ensures Steps(h, turn, n, s', news) && HashStep(h, turn) == HashState(h.buckets[turn.bucket := s'], h.hist + news)
  {
    var b, t, c, m := turn.bucket, turn.tid, turn.choice, |h.buckets|;
    var s := h.buckets[b];
    assert BucketOk(h, b, n) && PhaseOk(h, t, n) && OwnKey(s, t, b, m);
    s', news := BucketStep(s, t, c);
    if s.threads[t].pc.Idle? { CallsChosen(s, t, c); }
    assert s'.heap.Keys <= s.heap.Keys + (if s.threads[t].pc.InsertMalloc? then {c.addr} else {}) by {
      if Critical(s.threads[t].pc) { HeapInside(s, t, c); } else { HeapOutside(s, t, c); }
    }
    forall d | 0 <= d < m && d != b
      ensures IdleIn(h, d, t) && s'.heap.Keys !! h.buckets[d].heap.Keys
    {
      assert s.heap.Keys !! h.buckets[d].heap.Keys;
      assert IdleIn(h, b, t) || IdleIn(h, d, t);
    }
  }

  lemma StepBucket(h: HashState, turn: HashTurn, n: nat, s': State, news: seq<Event>, h': HashState, c: nat)
    requires Steps(h, turn, n, s', news) && h' == HashState(h.buckets[turn.bucket := s'], h.hist + news)
    requires c < |h.buckets| && BucketOk(h, c, n) && BucketOk(h, turn.bucket, n)
    ensures BucketOk(h', c, n)
  {
    InBucketNews(h.hist, news, c, |h.buckets|);
    if c == turn.bucket {
      forall u | 0 <= u < n
        ensures OwnKey(s', u, c, |h.buckets|)
      {
        assert OwnKey(h.buckets[c], u, c, |h.buckets|);
      }
    }
  }

  lemma StepPhase(h: HashState, turn: HashTurn, n: nat, s': State, news: seq<Event>, h': HashState, u: nat)
    requires Steps(h, turn, n, s', news) && h' == HashState(h.buckets[turn.bucket := s'], h.hist + news)
    requires HistInv(h.buckets[turn.bucket]) && PhaseOk(h, u, n)
    ensures PhaseOk(h', u, n)
  {
    var b, t := turn.bucket, turn.tid;
    var s := h.buckets[b];
    assert forall c :: 0 <= c < |h.buckets| && c != b ==> IdleIn(h', c, u) == IdleIn(h, c, u);
    if u == t {
      assert PhaseOf(s.hist, t) == Expected(s.threads[t]) && PhaseOf(s'.hist, t) == Expected(s'.threads[t]);
      SamePhase(h.hist, s.hist, news, t);
      assert PhaseOf(h'.hist, t) == Expected(s'.threads[t]);
      assert IdleIn(h', b, t) == s'.threads[t].pc.Idle?;
      assert IdleIn(h', b, t) ==> PhaseOf(h'.hist, t) == Ready;
    } else {
      OtherPhase(h.hist, news, u);
      assert IdleIn(h', b, u) == IdleIn(h, b, u);
    }
  }

  lemma StepKeepsHash(h: HashState, turn: HashTurn, n: nat)
    requires HashInv(h, n)
    ensures HashInv(HashStep(h, turn), n)
  {
    if Enabled(h, turn) {
      var s', news := TakesStep(h, turn, n);
      var h' := HashStep(h, turn);
      forall c | 0 <= c < |h.buckets|
        ensures BucketOk(h', c, n)
      {
        assert BucketOk(h, c, n) && BucketOk(h, turn.bucket, n);
        StepBucket(h, turn, n, s', news, h', c);
      }
      forall u: nat
        ensures PhaseOk(h', u, n)
      {
        assert PhaseOk(h, u, n) && BucketOk(h, turn.bucket, n);
        StepPhase(h, turn, n, s', news, h', u);
      }
    }
  }

  lemma {:induction false} RunKeepsHash(h: HashState, turns: seq<HashTurn>, n: nat)
    requires HashInv(h, n)
    ensures HashInv(HashExecute(h, turns), n) && |HashExecute(h, turns).buckets| == |h.buckets|
    decreases |turns|
  {
    if turns != [] {
      StepKeepsHash(h, turns[0], n);
      RunKeepsHash(HashStep(h, turns[0]), turns[1..], n);
    }
  }

  lemma StartHash(m: nat, n: nat)
    requires m > 0
    ensures HashInv(HashStart(m, n), n)
  {
    StartHistInv(n);
    var h := HashStart(m, n);
    assert forall b :: 0 <= b < m ==> h.buckets[b] == Start(n);
  }

  lemma BucketSound(h: HashState, b: nat, n: nat)
    requires b < |h.buckets| && BucketOk(h, b, n)
    ensures Inv(h.buckets[b]) && Legal(InBucket(h.hist, b, |h.buckets|))
    ensures Abs(h.buckets[b]) == Spec(InBucket(h.hist, b, |h.buckets|))
  {
  }

  lemma PhaseSound(h: HashState, t: nat, n: nat)
    requires HashInv(h, n)
    ensures PhaseOf(h.hist, t) != Broken
  {
    assert PhaseOk(h, t, n);
    if b :| 0 <= b < |h.buckets| && !IdleIn(h, b, t) {
      assert BucketOk(h, b, n);
    }
  }

  /** For any number of buckets and threads, any operations and any interleaving: no thread touches a
      node that is not allocated, no node is in two buckets, the history is linearized to a sequential
      run of one unbucketed list, and every bucket holds its part of that list. */
  lemma EveryHashExecution(m: nat, n: nat, turns: seq<HashTurn>)
    requires m > 0
    ensures var h := HashExecute(HashStart(m, n), turns);
            |h.buckets| == m && Linearized(h.hist) && HeapsApart(h) && forall b :: 0 <= b < m ==> Holds(h, b)
  {
    StartHash(m, n);
    RunKeepsHash(HashStart(m, n), turns, n);
    var h := HashExecute(HashStart(m, n), turns);
    forall b | 0 <= b < m
      ensures Legal(InBucket(h.hist, b, m))
    {
      BucketSound(h, b, n);
    }
    BucketsLegal(h.hist, m);
    forall b | 0 <= b < m
      ensures Holds(h, b)
    {
      BucketSound(h, b, n);
    }
    forall t: nat
      ensures PhaseOf(h.hist, t) != Broken
    {
      PhaseSound(h, t, n);
    }
  }

  /** Bucket `b` is free of faults and holds its part of the one list. */
  ghost predicate Holds(h: HashState, b: nat)
    requires b < |h.buckets|
  {
    Inv(h.buckets[b]) && Abs(h.buckets[b]) == Bucket(Spec(h.hist), b, |h.buckets|)
  }
}
