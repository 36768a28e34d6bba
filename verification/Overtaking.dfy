/** Which waiting requests of p5/server.c can be kept waiting without bound.

    At most `slots` requests wait or are worked on at a time (max_buffers), and an arrival has to wait
    for a free slot.  In this module a request's slot is free again as soon as it is dispatched: the
    worker is done before the next event.  Module ServerOvertaking shows that this loses nothing. */
module Overtaking {
  import opened Scheduling

  /** Requests the server can receive, on descriptors that accept returns.  The size of a static one
      comes from stat and is not negative; under SFF and SFF-BS nothing sets the size of a dynamic one
      (or of one that is refused), so if there are such requests, `dynamics`, theirs may be any number. */
  ghost predicate Receivable(es: seq<Event>, dynamics: bool) {
    forall i :: 0 <= i < |es| && es[i].Arrive? ==>
      es[i].fd >= 0 && (es[i].size >= 0 || (dynamics && !es[i].isStatic))
  }

  /** Arrivals find a free slot, dispatches a request. */
  ghost predicate Admissible(c: Config, s: State, es: seq<Event>, slots: nat)
    requires c.Valid()
    decreases |es|
  {
    es != [] ==>
      && (if es[0].Arrive? then |s.queue| < slots else s.queue != [])
      && Admissible(c, Step(c, s, es[0]), es[1..], slots)
  }

  /** A run in which the request at position `i` sees at least `k` others dispatched before it. */
  ghost predicate Delays(c: Config, s: State, i: nat, dynamics: bool, slots: nat, es: seq<Event>, k: int)
    requires c.Valid() && i < |s.queue|
  {
    && Receivable(es, dynamics) && Admissible(c, s, es, slots)
    && DeathOf(c, s, i, es).At? && DeathOf(c, s, i, es).served - s.served >= k
  }

  ghost predicate Delayable(c: Config, s: State, i: nat, dynamics: bool, slots: nat, k: int)
    requires c.Valid() && i < |s.queue|
  {
    exists es :: Delays(c, s, i, dynamics, slots, es, k)
  }

  // ---------- Events in front ----------

  lemma DeathAfter(c: Config, s: State, i: nat, e: Event, rest: seq<Event>)
    requires c.Valid() && i < |s.queue| && (e.Dispatch? ==> i > 0)
    ensures 0 <= Shift(c, s, i, e) < |Step(c, s, e).queue|
    ensures DeathOf(c, s, i, [e] + rest) == DeathOf(c, Step(c, s, e), Shift(c, s, i, e), rest)
  {
    ShiftFollows(c, s, i, e);
    assert ([e] + rest)[1..] == rest;
  }

  lemma Prepend(c: Config, s: State, i: nat, dynamics: bool, slots: nat, e: Event, j: nat, rest: seq<Event>, k: int)
    returns (es: seq<Event>)
    requires c.Valid() && i < |s.queue| && Receivable([e], dynamics)
    requires if e.Arrive? then |s.queue| < slots else i > 0
    requires j == Shift(c, s, i, e) && j < |Step(c, s, e).queue| &&
             Delays(c, Step(c, s, e), j, dynamics, slots, rest, k)
    ensures Delays(c, s, i, dynamics, slots, es, if e.Arrive? then k else k + 1)
  {
    es := [e] + rest;
    DeathAfter(c, s, i, e, rest);
    assert es[1..] == rest && [e][0] == e;
  }

  lemma {:induction false} Drained(c: Config, s: State, i: nat, dynamics: bool, slots: nat) returns (es: seq<Event>)
    requires c.Valid() && i < |s.queue|
    ensures Delays(c, s, i, dynamics, slots, es, i)
    decreases i
  {
    if i == 0 {
      es := [Dispatch];
    } else {
      var rest := Drained(c, Step(c, s, Dispatch), i - 1, dynamics, slots);
      es := Prepend(c, s, i, dynamics, slots, Dispatch, i - 1, rest, i - 1);
    }
  }

  // ---------- Requests that nothing can overtake ----------

  /** The request at position `i` can be overtaken if a slot is free: sizes count, and either an
      arrival can be smaller than all that wait, or something up to `i` is larger than an empty file,
      or the scan of SFF-BS stops no later than at `i`. */
  ghost predicate Exposed(c: Config, s: State, i: nat, dynamics: bool)
    requires c.Valid() && i < |s.queue|
  {
    !c.policy.FIFO? && (dynamics || LargeUpTo(s.queue, i) || (c.policy.SFFBS? && Limit(s.served, c.n) <= i))
  }

  ghost predicate LargeUpTo(q: seq<Request>, i: nat) {
    exists j :: 0 <= j <= i && j < |q| && q[j].size > 0
  }

  lemma {:induction false} LeadPast(q: seq<Request>, size: int, i: nat)
    requires i < |q| && forall j :: 0 <= j <= i ==> q[j].size <= size
    ensures Lead(q, size) > i
  {
  }

  lemma NextLimit(served: nat, n: int)
    requires n > 0
    ensures Limit(served + 1, n) == if Limit(served, n) == 0 then n - 1 else Limit(served, n) - 1
  {
    assert served == served / n * n + served % n;
    if served % n == n - 1 {
      Group(served / n, n);
      Modulo(served / n + 1, 0, n);
    } else {
      Modulo(served / n, served % n + 1, n);
    }
  }

  lemma Group(q: nat, n: nat)
    ensures (q + 1) * n == q * n + n
  {
  }

  lemma Modulo(q: nat, r: nat, n: nat)
    requires r < n
    ensures (q * n + r) % n == r
  {
    var d := (q * n + r) / n;
    assert q * n + r == d * n + (q * n + r) % n;
    if d < q { Times(d + 1, q, n); }
    if d > q { Times(q + 1, d, n); }
  }

  lemma SafeStep(c: Config, s: State, i: nat, dynamics: bool, e: Event)
    requires c.Valid() && i < |s.queue| && !Exposed(c, s, i, dynamics) && Receivable([e], dynamics)
    requires e.Dispatch? ==> i > 0
    ensures var j := Shift(c, s, i, e);
            0 <= j <= i && j < |Step(c, s, e).queue| && !Exposed(c, Step(c, s, e), j, dynamics)
  {
    assert [e][0] == e;
    match e
    case Arrive(_, size, _) =>
      if !c.policy.FIFO? { LeadPast(s.queue, size, i); }
    case Dispatch =>
      if c.policy.SFFBS? { NextLimit(s.served, c.n); }
  }

  lemma {:induction false} NeverOvertaken(c: Config, s: State, i: nat, dynamics: bool, es: seq<Event>)
    requires c.Valid() && i < |s.queue| && !Exposed(c, s, i, dynamics) && Receivable(es, dynamics)
    ensures Overtaken(c, s, i, es) == 0
    decreases |es|
  {
    if es != [] && !(es[0].Dispatch? && i == 0) {
      assert Receivable([es[0]], dynamics) && Receivable(es[1..], dynamics);
      SafeStep(c, s, i, dynamics, es[0]);
      NeverOvertaken(c, Step(c, s, es[0]), Shift(c, s, i, es[0]), dynamics, es[1..]);
    }
  }

  /** A request that is not exposed is dispatched after exactly those ahead of it, free slots or not. */
  lemma SafeAge(c: Config, s: State, i: nat, dynamics: bool, es: seq<Event>)
    requires c.Valid() && i < |s.queue| && !Exposed(c, s, i, dynamics) && Receivable(es, dynamics)
    ensures DeathOf(c, s, i, es).At? ==> DeathOf(c, s, i, es).served - s.served == i
  {
    NeverOvertaken(c, s, i, dynamics, es);
    AgeFromPosition(c, s, i, es);
  }

  /** SFF-BS does not expose every request: with a value of two or more, an empty file at the head of a
      fresh server's queue is dispatched next. */
  lemma HeadCanBeSafe(n: nat, r: Request)
    requires n >= 2 && r.size <= 0
    ensures !Exposed(Config(SFFBS, n), State([r], 0, 1), 0, false)
  {
    assert Limit(0, n) == n - 1 by { Modulo(0, 0, n); }
  }

  // ---------- The exact condition ----------

  /** With `free` > 0 slots free, the request at position `i` can be kept waiting without bound.  If
      the scan of SFF-BS is the only reason, it takes a second slot, or room for another request ahead,
      or a scan that still stops no later than at `i` in the next group of N dispatches. */
  ghost predicate Open(c: Config, s: State, i: nat, dynamics: bool, free: int)
    requires c.Valid() && i < |s.queue|
  {
    !c.policy.FIFO? &&
    (dynamics || LargeUpTo(s.queue, i) ||
     (c.policy.SFFBS? && Limit(s.served, c.n) <= i && (free >= 2 || Limit(s.served, c.n) >= 1 || c.n - 1 <= i)))
  }

  /** With all slots taken nothing can arrive before the next dispatch. */
  ghost predicate Starvable(c: Config, s: State, i: nat, dynamics: bool, slots: nat)
    requires c.Valid() && i < |s.queue|
  {
    if |s.queue| < slots then Open(c, s, i, dynamics, slots - |s.queue|)
    else i > 0 && Open(c, Step(c, s, Dispatch), i - 1, dynamics, 1)
  }

  // ---------- Sieges ----------

  /** An arrival smaller than the request at position `m` can come. */
  ghost predicate Ahead(c: Config, s: State, i: nat, dynamics: bool, m: nat)
    requires c.Valid() && i < |s.queue|
  {
    !c.policy.FIFO? && m <= i && (dynamics || s.queue[m].size > 0)
  }

  function Intruder(s: State, dynamics: bool): Event
    requires s.queue != []
  {
    if dynamics then Arrive(0, s.queue[0].size - 1, false) else Arrive(0, 0, true)
  }

  /** An intruder goes ahead, and whoever is then first is dispatched: the request is where it was. */
  lemma Round(c: Config, s: State, i: nat, dynamics: bool, m: nat) returns (mid: State, next: State)
    requires c.Valid() && i < |s.queue| && Ahead(c, s, i, dynamics, m)
    ensures mid == Step(c, s, Intruder(s, dynamics)) && next == Step(c, mid, Dispatch)
    ensures Shift(c, s, i, Intruder(s, dynamics)) == i + 1 && i + 1 < |mid.queue|
    ensures next.served == s.served + 1 && |next.queue| == |s.queue| && Ahead(c, next, i, dynamics, m)
  {
    var e := Intruder(s, dynamics);
    mid := Step(c, s, e);
    next := Step(c, mid, Dispatch);
    var j := InsertIndex(c.policy, s.queue, e.size, s.served, c.n);
    assert j <= Lead(s.queue, e.size) <= m;
    assert mid.queue[m + 1] == s.queue[m];
  }

  lemma {:induction false} Besieged(c: Config, s: State, i: nat, dynamics: bool, slots: nat, m: nat, k: nat)
    returns (es: seq<Event>)
    requires c.Valid() && i < |s.queue| < slots && Ahead(c, s, i, dynamics, m)
    ensures Delays(c, s, i, dynamics, slots, es, k)
    decreases k
  {
    if k == 0 {
      es := Drained(c, s, i, dynamics, slots);
    } else {
      var mid, next := Round(c, s, i, dynamics, m);
      var rest := Besieged(c, next, i, dynamics, slots, m, k - 1);
      rest := Prepend(c, mid, i + 1, dynamics, slots, Dispatch, i, rest, k - 1);
      es := Prepend(c, s, i, dynamics, slots, Intruder(s, dynamics), i + 1, rest, k);
    }
  }

  /** Where a file larger than all up to `i` goes under SFF-BS. */
  lemma LargeArrives(c: Config, s: State, i: nat) returns (e: Event, mid: State)
    requires c.Valid() && c.policy.SFFBS? && i < |s.queue| && !LargeUpTo(s.queue, i) && Limit(s.served, c.n) <= i
    ensures e == Arrive(0, 1, true) && Receivable([e], false) && mid == Step(c, s, e) && Shift(c, s, i, e) == i + 1
    ensures mid.served == s.served && |mid.queue| == |s.queue| + 1 && mid.queue[Limit(s.served, c.n)].size == 1
    ensures Limit(s.served, c.n) == 0 ==> mid.queue[1..] == s.queue
  {
    e := Arrive(0, 1, true);
    mid := Step(c, s, e);
    LeadPast(s.queue, 1, i);
    assert InsertIndex(c.policy, s.queue, 1, s.served, c.n) == Limit(s.served, c.n);
  }

  /** The scan stops at `i` or before, but not at once: a large file goes ahead, and then it is under
      siege itself. */
  lemma ScanAhead(c: Config, s: State, i: nat, slots: nat, k: nat) returns (es: seq<Event>)
    requires c.Valid() && c.policy.SFFBS? && i < |s.queue| < slots && !LargeUpTo(s.queue, i)
    requires 1 <= Limit(s.served, c.n) <= i
    ensures Delays(c, s, i, false, slots, es, k)
  {
    var e, mid := LargeArrives(c, s, i);
    var m := Limit(s.served, c.n) - 1;
    var next := Step(c, mid, Dispatch);
    assert next.queue[m] == mid.queue[m + 1];
    var rest := Besieged(c, next, i, false, slots, m, k);
    rest := Prepend(c, mid, i + 1, false, slots, Dispatch, i, rest, k);
    es := Prepend(c, s, i, false, slots, e, i + 1, rest, k + 1);
  }

  /** The scan stops at once, and there are two free slots. */
  lemma TwoSlots(c: Config, s: State, i: nat, slots: nat, k: nat) returns (es: seq<Event>)
    requires c.Valid() && c.policy.SFFBS? && i < |s.queue| && |s.queue| + 1 < slots && !LargeUpTo(s.queue, i)
    requires Limit(s.served, c.n) == 0
    ensures Delays(c, s, i, false, slots, es, k)
  {
    var e, mid := LargeArrives(c, s, i);
    var rest := Besieged(c, mid, i + 1, false, slots, 0, k);
    es := Prepend(c, s, i, false, slots, e, i + 1, rest, k);
  }

  /** The scan stops at once, there is one free slot, and in the next group of N dispatches the scan
      stops no later than at `i`. */
  lemma {:induction false} OneSlot(c: Config, s: State, i: nat, slots: nat, k: nat) returns (es: seq<Event>)
    requires c.Valid() && c.policy.SFFBS? && i < |s.queue| < slots && !LargeUpTo(s.queue, i)
    requires Limit(s.served, c.n) == 0 && c.n - 1 <= i
    ensures Delays(c, s, i, false, slots, es, k)
    decreases k
  {
    if k == 0 {
      es := Drained(c, s, i, false, slots);
    } else {
      var e, mid := LargeArrives(c, s, i);
      var next := Step(c, mid, Dispatch);
      assert next.queue == s.queue;
      if c.n > 0 { NextLimit(s.served, c.n); }
      var rest;
      if c.n >= 2 {
        rest := ScanAhead(c, next, i, slots, k - 1);
      } else {
        rest := OneSlot(c, next, i, slots, k - 1);
      }
      rest := Prepend(c, mid, i + 1, false, slots, Dispatch, i, rest, k - 1);
      es := Prepend(c, s, i, false, slots, e, i + 1, rest, k);
    }
  }

  lemma OpenDelays(c: Config, s: State, i: nat, dynamics: bool, slots: nat, k: nat) returns (es: seq<Event>)
    requires c.Valid() && i < |s.queue| < slots && Open(c, s, i, dynamics, slots - |s.queue|)
    ensures Delays(c, s, i, dynamics, slots, es, k)
  {
    if dynamics {
      es := Besieged(c, s, i, dynamics, slots, 0, k);
    } else if m :| 0 <= m <= i && s.queue[m].size > 0 {
      es := Besieged(c, s, i, dynamics, slots, m, k);
    } else if Limit(s.served, c.n) >= 1 {
      es := ScanAhead(c, s, i, slots, k);
    } else if slots - |s.queue| >= 2 {
      es := TwoSlots(c, s, i, slots, k);
    } else {
      es := OneSlot(c, s, i, slots, k);
    }
  }

  // ---------- And otherwise there is a bound ----------

  /** Only one request can go ahead, and only before the next dispatch. */
  ghost predicate Pinned(c: Config, s: State, i: nat)
    requires c.Valid() && i < |s.queue|
  {
    c.policy.SFFBS? && !LargeUpTo(s.queue, i) && Limit(s.served, c.n) == 0 && c.n - 1 > i
  }

  lemma PinnedDispatched(c: Config, s: State, i: nat)
    requires c.Valid() && i < |s.queue| && Pinned(c, s, i) && i > 0
    ensures !Exposed(c, Step(c, s, Dispatch), i - 1, false)
  {
    NextLimit(s.served, c.n);
  }

  lemma PinnedOvertaken(c: Config, s: State, i: nat, e: Event)
    requires c.Valid() && i < |s.queue| && Pinned(c, s, i) && e.Arrive?
    ensures var mid := Step(c, s, e); var next := Step(c, mid, Dispatch);
            Shift(c, s, i, e) == i + 1 && |mid.queue| == |s.queue| + 1 &&
            next.queue == s.queue && next.served == s.served + 1 && !Exposed(c, next, i, false)
  {
    NextLimit(s.served, c.n);
    assert Step(c, s, e).queue[1..] == s.queue;
  }

  lemma PinnedAge(c: Config, s: State, i: nat, slots: nat, es: seq<Event>)
    requires c.Valid() && i < |s.queue| && |s.queue| + 1 == slots && Pinned(c, s, i)
    requires Receivable(es, false) && Admissible(c, s, es, slots)
    ensures DeathOf(c, s, i, es).At? ==> DeathOf(c, s, i, es).served - s.served <= i + 1
  {
    if es != [] && !(es[0].Dispatch? && i == 0) {
      var e, rest := es[0], es[1..];
      assert es == [e] + rest;
      DeathAfter(c, s, i, e, rest);
      if e.Dispatch? {
        PinnedDispatched(c, s, i);
        SafeAge(c, Step(c, s, e), i - 1, false, rest);
      } else {
        PinnedOvertaken(c, s, i, e);
        var mid := Step(c, s, e);
        if rest != [] {
          assert rest == [Dispatch] + rest[1..];
          DeathAfter(c, mid, i + 1, Dispatch, rest[1..]);
          SafeAge(c, Step(c, mid, Dispatch), i, false, rest[1..]);
        }
      }
    }
  }

  lemma ClosedAge(c: Config, s: State, i: nat, dynamics: bool, slots: nat, es: seq<Event>)
    requires c.Valid() && i < |s.queue| < slots && !Open(c, s, i, dynamics, slots - |s.queue|)
    requires Receivable(es, dynamics) && Admissible(c, s, es, slots)
    ensures DeathOf(c, s, i, es).At? ==> DeathOf(c, s, i, es).served - s.served <= i + 1
  {
    if Exposed(c, s, i, dynamics) {
      PinnedAge(c, s, i, slots, es);
    } else {
      SafeAge(c, s, i, dynamics, es);
    }
  }

  /** A request that cannot be starved sees at most one more dispatched before it than stand ahead. */
  lemma BoundedAge(c: Config, s: State, i: nat, dynamics: bool, slots: nat, es: seq<Event>)
    requires c.Valid() && i < |s.queue| <= slots && !Starvable(c, s, i, dynamics, slots)
    requires Receivable(es, dynamics) && Admissible(c, s, es, slots)
    ensures DeathOf(c, s, i, es).At? ==> DeathOf(c, s, i, es).served - s.served <= i + 1
  {
    if |s.queue| < slots {
      ClosedAge(c, s, i, dynamics, slots, es);
    } else if es != [] && i > 0 {
      var rest := es[1..];
      assert es == [Dispatch] + rest;
      DeathAfter(c, s, i, Dispatch, rest);
      ClosedAge(c, Step(c, s, Dispatch), i - 1, dynamics, slots, rest);
    }
  }

  /** In every state within the limit, a waiting request can be kept waiting without bound if and only
      if it is starvable. */
  lemma Starvation(c: Config, s: State, i: nat, dynamics: bool, slots: nat)
    requires c.Valid() && i < |s.queue| <= slots
    ensures (forall k: nat :: Delayable(c, s, i, dynamics, slots, k)) <==> Starvable(c, s, i, dynamics, slots)
  {
    if Starvable(c, s, i, dynamics, slots) {
      forall k: nat
        ensures Delayable(c, s, i, dynamics, slots, k)
      {
        var es := StarvableDelays(c, s, i, dynamics, slots, k);
      }
    } else if Delayable(c, s, i, dynamics, slots, i + 2) {
      var es :| Delays(c, s, i, dynamics, slots, es, i + 2);
      BoundedAge(c, s, i, dynamics, slots, es);
      assert false;
    }
  }

  lemma StarvableDelays(c: Config, s: State, i: nat, dynamics: bool, slots: nat, k: nat) returns (es: seq<Event>)
    requires c.Valid() && i < |s.queue| <= slots && Starvable(c, s, i, dynamics, slots)
    ensures Delays(c, s, i, dynamics, slots, es, k)
  {
    if |s.queue| < slots {
      es := OpenDelays(c, s, i, dynamics, slots, k);
    } else {
      var rest := OpenDelays(c, Step(c, s, Dispatch), i - 1, dynamics, slots, k);
      es := Prepend(c, s, i, dynamics, slots, Dispatch, i - 1, rest, k);
    }
  }

  /** Under SFF, and with static requests only, these are the requests of positive size that are not
      first in a full queue. */
  lemma SffStarvable(c: Config, before: seq<Event>, i: nat, slots: nat)
    requires c.policy.SFF? && i < |Run(c, EMPTY, before).queue| <= slots
    ensures var s := Run(c, EMPTY, before);
            Starvable(c, s, i, false, slots) <==> s.queue[i].size > 0 && (i > 0 || |s.queue| < slots)
  {
    SffSorted(c, EMPTY, before);
    var q := Run(c, EMPTY, before).queue;
    assert forall j :: 0 <= j < i ==> Before(q[j], q[i]);
    if i > 0 {
      assert q[1..][i - 1] == q[i];
      assert forall j :: 0 <= j <= i - 1 ==> q[1..][j] == q[j + 1];
    }
  }
}
