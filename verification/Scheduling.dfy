/** The scheduling policies of p5/server.c on the sequence of waiting requests.

    A request's size and kind are what requestPreProcess leaves in its node on arrival (under
    SFF and SFF-BS the size of a dynamic request is whatever malloc returned: any integer). */
module Scheduling {

  datatype Policy = FIFO | SFF | SFFBS

  /** `birth` is the number of requests dispatched before this one arrived (stat_req_birth);
      `id` identifies the node: the number of requests that arrived before it. */
  datatype Request = Request(fd: int, size: int, isStatic: bool, birth: nat, id: nat)

  // ---------- Where a request is inserted ----------

  /** The length of the leading run of requests no larger than `size`. */
  function Lead(q: seq<Request>, size: int): (n: nat)
    ensures n <= |q|
    ensures forall i :: 0 <= i < n ==> q[i].size <= size
    ensures n < |q| ==> q[n].size > size
  {
    if q == [] || q[0].size > size then 0 else 1 + Lead(q[1..], size)
  }

  function Min(a: int, b: int): int {
    if a <= b then a else b
  }

  /** How many nodes the scan of SFF-BS may pass, when `served` requests have been dispatched and the
      SFF-BS value is `n`: none if that is negative.  (With 0 the program divides by zero.) */
  function Limit(served: nat, n: int): nat
    requires n != 0
  {
    if n > 0 then n - 1 - served % n else 0
  }

  /** The insertion index of each policy. */
  function InsertIndex(p: Policy, q: seq<Request>, size: int, served: nat, n: int): (i: nat)
    requires p.SFFBS? ==> n != 0
    ensures i <= |q|
  {
    match p
    case FIFO => |q|
    case SFF => Lead(q, size)
    case SFFBS => Min(Lead(q, size), Limit(served, n))
  }

  function InsertAt<T>(q: seq<T>, i: nat, r: T): seq<T>
    requires i <= |q|
  {
    q[..i] + [r] + q[i..]
  }

  // ---------- Runs ----------

  /** `served` is buffer_head_hist. */
  datatype State = State(queue: seq<Request>, served: nat, arrived: nat)

  datatype Event = Arrive(fd: int, size: int, isStatic: bool) | Dispatch

  /** The SFF-BS value matters to no other policy. */
  datatype Config = Config(policy: Policy, n: int) {
    predicate Valid() {
      policy.SFFBS? ==> n != 0
    }
  }

  function Arrival(s: State, e: Event): Request
    requires e.Arrive?
  {
    Request(e.fd, e.size, e.isStatic, s.served, s.arrived)
  }

  function Step(c: Config, s: State, e: Event): State
    requires c.Valid()
  {
    match e
    case Arrive(_, size, _) =>
      var i := InsertIndex(c.policy, s.queue, size, s.served, c.n);
      State(InsertAt(s.queue, i, Arrival(s, e)), s.served, s.arrived + 1)
    case Dispatch =>
      if s.queue == [] then s else State(s.queue[1..], s.served + 1, s.arrived)
  }

  function Run(c: Config, s: State, es: seq<Event>): State
    requires c.Valid()
    decreases |es|
  {
    if es == [] then s else Run(c, Step(c, s, es[0]), es[1..])
  }

  const EMPTY := State([], 0, 0)

  // ---------- SFF keeps the queue sorted and stable ----------

  predicate Before(a: Request, b: Request) {
    a.size < b.size || (a.size == b.size && a.id < b.id)
  }

  ghost predicate Sorted(s: State) {
    && (forall i, j :: 0 <= i < j < |s.queue| ==> Before(s.queue[i], s.queue[j]))
    && (forall i :: 0 <= i < |s.queue| ==> s.queue[i].id < s.arrived)
  }

  lemma InsertKeepsOrder(q: seq<Request>, i: nat, r: Request)
    requires forall j, k :: 0 <= j < k < |q| ==> Before(q[j], q[k])
    requires forall j :: 0 <= j < |q| ==> q[j].id < r.id
    requires i <= |q| && (forall j :: 0 <= j < i ==> q[j].size <= r.size) && (i < |q| ==> q[i].size > r.size)
    ensures var p := InsertAt(q, i, r);
            (forall j, k :: 0 <= j < k < |p| ==> Before(p[j], p[k])) && (forall j :: 0 <= j < |p| ==> p[j].id <= r.id)
  {
    var p := InsertAt(q, i, r);
    forall j, k | 0 <= j < k < |p|
      ensures Before(p[j], p[k])
    {
      var j', k' := if j < i then j else j - 1, if k < i then k else k - 1;
      assert j != i ==> p[j] == q[j'];
      assert k != i ==> p[k] == q[k'];
    }
  }

  lemma StepKeepsSorted(c: Config, s: State, e: Event)
    requires c.policy.SFF? && Sorted(s)
    ensures Sorted(Step(c, s, e))
  {
    if e.Arrive? {
      InsertKeepsOrder(s.queue, Lead(s.queue, e.size), Arrival(s, e));
    }
  }

  lemma {:induction false} SffSorted(c: Config, s: State, es: seq<Event>)
    requires c.policy.SFF? && Sorted(s)
    ensures Sorted(Run(c, s, es))
    decreases |es|
  {
    if es != [] {
      StepKeepsSorted(c, s, es[0]);
      SffSorted(c, Step(c, s, es[0]), es[1..]);
    }
  }

  /** After every sequence of arrivals and dispatches the request that SFF dispatches next is,
      of the smallest requests waiting, the one that arrived first. */
  lemma SffPicksShortest(c: Config, es: seq<Event>, r: Request)
    requires c.policy.SFF?
    ensures var q := Run(c, EMPTY, es).queue;
            r in q ==> q[0].size < r.size || (q[0].size == r.size && q[0].id <= r.id)
  {
    SffSorted(c, EMPTY, es);
  }

  // ---------- Nothing is lost or repeated ----------

  /** The requests dispatched by a run, in order. */
  function Dispatched(c: Config, s: State, es: seq<Event>): seq<Request>
    requires c.Valid()
    decreases |es|
  {
    if es == [] then []
    else (if es[0].Dispatch? && s.queue != [] then [s.queue[0]] else []) + Dispatched(c, Step(c, s, es[0]), es[1..])
  }

  /** The requests that arrive during a run. */
  function Arrivals(c: Config, s: State, es: seq<Event>): seq<Request>
    requires c.Valid()
    decreases |es|
  {
    if es == [] then []
    else (if es[0].Arrive? then [Arrival(s, es[0])] else []) + Arrivals(c, Step(c, s, es[0]), es[1..])
  }

  lemma StepConserves(c: Config, s: State, e: Event)
    requires c.Valid()
    ensures var s' := Step(c, s, e);
            multiset(s.queue) + multiset(if e.Arrive? then [Arrival(s, e)] else []) ==
            multiset(s'.queue) + multiset(if e.Dispatch? && s.queue != [] then [s.queue[0]] else [])
  {
    match e
    case Arrive(_, size, _) =>
      var i := InsertIndex(c.policy, s.queue, size, s.served, c.n);
      assert s.queue == s.queue[..i] + s.queue[i..];
    case Dispatch =>
      if s.queue != [] { assert s.queue == [s.queue[0]] + s.queue[1..]; }
  }

  lemma Rearrange<T>(q: multiset<T>, a: multiset<T>, a': multiset<T>, q': multiset<T>, d: multiset<T>, r: multiset<T>,
                     d': multiset<T>)
    requires q + a == q' + d && q' + a' == r + d'
    ensures q + (a + a') == r + (d + d')
  {
    assert q + (a + a') == (q + a) + a';
    assert (q' + d) + a' == (q' + a') + d;
    assert (r + d') + d == r + (d + d');
  }

  /** Whatever the policy, every request that arrives is dispatched once or is still waiting. */
  lemma {:induction false} Conserved(c: Config, s: State, es: seq<Event>)
    requires c.Valid()
    ensures multiset(s.queue) + multiset(Arrivals(c, s, es)) ==
            multiset(Run(c, s, es).queue) + multiset(Dispatched(c, s, es))
    decreases |es|
  {
    if es != [] {
      var s' := Step(c, s, es[0]);
      StepConserves(c, s, es[0]);
      Conserved(c, s', es[1..]);
      var a := if es[0].Arrive? then [Arrival(s, es[0])] else [];
      var d := if es[0].Dispatch? && s.queue != [] then [s.queue[0]] else [];
      assert multiset(Arrivals(c, s, es)) == multiset(a) + multiset(Arrivals(c, s', es[1..]));
      assert multiset(Dispatched(c, s, es)) == multiset(d) + multiset(Dispatched(c, s', es[1..]));
      Rearrange(multiset(s.queue), multiset(a), multiset(Arrivals(c, s', es[1..])), multiset(s'.queue), multiset(d),
                multiset(Run(c, s', es[1..]).queue), multiset(Dispatched(c, s', es[1..])));
    }
  }

  /** The arrivals among the events. */
  function Received(es: seq<Event>): (got: seq<Event>)
    ensures forall i :: 0 <= i < |got| ==> got[i].Arrive?
  {
    if es == [] then [] else (if es[0].Arrive? then [es[0]] else []) + Received(es[1..])
  }

  /** What requests are for: the descriptor, size and kind of each. */
  function Asks(q: seq<Request>): (es: seq<Event>)
    ensures |es| == |q| && forall i :: 0 <= i < |q| ==> es[i] == Arrive(q[i].fd, q[i].size, q[i].isStatic)
  {
    seq(|q|, i requires 0 <= i < |q| => Arrive(q[i].fd, q[i].size, q[i].isStatic))
  }

  function Asked(q: seq<Request>): multiset<Event> {
    multiset(Asks(q))
  }

  lemma AskedConcat(p: seq<Request>, q: seq<Request>)
    ensures Asked(p + q) == Asked(p) + Asked(q)
  {
    assert Asks(p + q) == Asks(p) + Asks(q);
  }

  lemma AskedInsert(q: seq<Request>, i: nat, r: Request)
    requires i <= |q|
    ensures Asked(InsertAt(q, i, r)) == Asked(q) + multiset{Arrive(r.fd, r.size, r.isStatic)}
  {
    assert Asks(InsertAt(q, i, r)) == Asks(q)[..i] + [Arrive(r.fd, r.size, r.isStatic)] + Asks(q)[i..];
    assert Asks(q) == Asks(q)[..i] + Asks(q)[i..];
  }

  lemma StepAsked(c: Config, s: State, e: Event)
    requires c.Valid()
    ensures var s' := Step(c, s, e);
            Asked(s.queue) + multiset(if e.Arrive? then [e] else []) ==
            Asked(s'.queue) + Asked(if e.Dispatch? && s.queue != [] then [s.queue[0]] else [])
  {
    match e
    case Arrive(_, size, _) =>
      AskedInsert(s.queue, InsertIndex(c.policy, s.queue, size, s.served, c.n), Arrival(s, e));
    case Dispatch =>
      if s.queue != [] {
        assert s.queue == [s.queue[0]] + s.queue[1..];
        AskedConcat([s.queue[0]], s.queue[1..]);
      }
  }

  /** Under every policy the requests dispatched and those waiting are for what was received: the same
      descriptors with the same sizes and kinds, each as often. */
  lemma {:induction false} AskedConserved(c: Config, s: State, es: seq<Event>)
    requires c.Valid()
    ensures Asked(s.queue) + multiset(Received(es)) == Asked(Run(c, s, es).queue) + Asked(Dispatched(c, s, es))
    decreases |es|
  {
    if es != [] {
      var s' := Step(c, s, es[0]);
      StepAsked(c, s, es[0]);
      AskedConserved(c, s', es[1..]);
      var a := if es[0].Arrive? then [es[0]] else [];
      var d := if es[0].Dispatch? && s.queue != [] then [s.queue[0]] else [];
      AskedConcat(d, Dispatched(c, s', es[1..]));
      Rearrange(Asked(s.queue), multiset(a), multiset(Received(es[1..])), Asked(s'.queue), Asked(d),
                Asked(Run(c, s', es[1..]).queue), Asked(Dispatched(c, s', es[1..])));
    }
  }

  /** A waiting request is for what was received as the `id`-th. */
  ghost predicate Identified(s: State, got: seq<Event>) {
    && s.arrived == |got|
    && forall i :: 0 <= i < |s.queue| ==> s.queue[i].id < |got| && got[s.queue[i].id] == Asks(s.queue)[i]
  }

  lemma StepIdentified(c: Config, s: State, e: Event, got: seq<Event>)
    requires c.Valid() && Identified(s, got)
    ensures Identified(Step(c, s, e), got + (if e.Arrive? then [e] else []))
  {
    var now, s' := got + (if e.Arrive? then [e] else []), Step(c, s, e);
    forall i | 0 <= i < |s'.queue|
      ensures s'.queue[i].id < |now| && now[s'.queue[i].id] == Asks(s'.queue)[i]
    {
      assert forall j :: 0 <= j < |s.queue| ==> now[s.queue[j].id] == got[s.queue[j].id];
      var k := if e.Dispatch? then 0 else InsertIndex(c.policy, s.queue, e.size, s.served, c.n);
      var j := if e.Dispatch? then (if s.queue == [] then i else i + 1) else if i <= k then i else i - 1;
      if !(e.Arrive? && i == k) { assert s'.queue[i] == s.queue[j]; }
    }
  }

  lemma {:induction false} RunIdentified(c: Config, s: State, es: seq<Event>, got: seq<Event>)
    requires c.Valid() && Identified(s, got)
    ensures Identified(Run(c, s, es), got + Received(es))
    decreases |es|
  {
    if es == [] {
      assert got + Received(es) == got;
    } else {
      var one := if es[0].Arrive? then [es[0]] else [];
      StepIdentified(c, s, es[0], got);
      RunIdentified(c, Step(c, s, es[0]), es[1..], got + one);
      assert (got + one) + Received(es[1..]) == got + Received(es);
    }
  }

  lemma {:induction false} ReceivedNext(es: seq<Event>, e: Event)
    ensures Received(es + [e]) == Received(es) + (if e.Arrive? then [e] else [])
  {
    if es == [] {
      assert ([] + [e])[1..] == [];
    } else {
      ReceivedNext(es[1..], e);
      assert (es + [e])[1..] == es[1..] + [e];
    }
  }

  // ---------- The age statistic ----------

  /** The value of `served` when the request at position `i` is dispatched (stat_req_death),
      if the run dispatches it. */
  datatype Death = Waiting | At(served: nat)

  /** Where one event moves the request at position `i`. */
  function Shift(c: Config, s: State, i: nat, e: Event): int
    requires c.Valid()
  {
    match e
    case Arrive(_, size, _) => if InsertIndex(c.policy, s.queue, size, s.served, c.n) <= i then i + 1 else i
    case Dispatch => i - 1
  }

  lemma ShiftFollows(c: Config, s: State, i: nat, e: Event)
    requires c.Valid() && i < |s.queue| && Shift(c, s, i, e) >= 0
    ensures Shift(c, s, i, e) < |Step(c, s, e).queue| && Step(c, s, e).queue[Shift(c, s, i, e)] == s.queue[i]
  {
  }

  function DeathOf(c: Config, s: State, i: nat, es: seq<Event>): Death
    requires c.Valid() && i < |s.queue|
    decreases |es|
  {
    if es == [] then Waiting
    else if es[0].Dispatch? && i == 0 then At(s.served)
    else
      ShiftFollows(c, s, i, es[0]);
      DeathOf(c, Step(c, s, es[0]), Shift(c, s, i, es[0]), es[1..])
  }

  /** How many arrivals are inserted ahead of the request at position `i` before its dispatch. */
  function Overtaken(c: Config, s: State, i: nat, es: seq<Event>): nat
    requires c.Valid() && i < |s.queue|
    decreases |es|
  {
    if es == [] || (es[0].Dispatch? && i == 0) then 0
    else
      ShiftFollows(c, s, i, es[0]);
      (if Shift(c, s, i, es[0]) == i + 1 then 1 else 0) +
      Overtaken(c, Step(c, s, es[0]), Shift(c, s, i, es[0]), es[1..])
  }

  /** The number of requests dispatched before a waiting one is its position plus the number
      that overtake it. */
  lemma {:induction false} AgeFromPosition(c: Config, s: State, i: nat, es: seq<Event>)
    requires c.Valid() && i < |s.queue|
    ensures DeathOf(c, s, i, es).At? ==> DeathOf(c, s, i, es).served - s.served == i + Overtaken(c, s, i, es)
    decreases |es|
  {
    if es != [] && !(es[0].Dispatch? && i == 0) {
      ShiftFollows(c, s, i, es[0]);
      AgeFromPosition(c, Step(c, s, es[0]), Shift(c, s, i, es[0]), es[1..]);
    }
  }

  /** That is its place among the requests dispatched. */
  lemma {:induction false} DeathIsDispatch(c: Config, s: State, i: nat, es: seq<Event>)
    requires c.Valid() && i < |s.queue|
    ensures DeathOf(c, s, i, es).At? ==>
              var k := DeathOf(c, s, i, es).served - s.served;
              0 <= k < |Dispatched(c, s, es)| && Dispatched(c, s, es)[k] == s.queue[i]
    ensures DeathOf(c, s, i, es).Waiting? ==> s.queue[i] in Run(c, s, es).queue
    decreases |es|
  {
    if es != [] && !(es[0].Dispatch? && i == 0) {
      ShiftFollows(c, s, i, es[0]);
      DeathIsDispatch(c, Step(c, s, es[0]), Shift(c, s, i, es[0]), es[1..]);
    }
  }

  /** How many of the arrivals before the dispatch are of strictly smaller size. */
  function SmallerArrivals(c: Config, s: State, i: nat, es: seq<Event>): nat
    requires c.Valid() && i < |s.queue|
    decreases |es|
  {
    if es == [] || (es[0].Dispatch? && i == 0) then 0
    else
      ShiftFollows(c, s, i, es[0]);
      (if es[0].Arrive? && es[0].size < s.queue[i].size then 1 else 0) +
      SmallerArrivals(c, Step(c, s, es[0]), Shift(c, s, i, es[0]), es[1..])
  }

  lemma {:induction false} FifoNeverOvertaken(c: Config, s: State, i: nat, es: seq<Event>)
    requires c.policy.FIFO? && i < |s.queue|
    ensures Overtaken(c, s, i, es) == 0
    decreases |es|
  {
    if es != [] && !(es[0].Dispatch? && i == 0) {
      ShiftFollows(c, s, i, es[0]);
      FifoNeverOvertaken(c, Step(c, s, es[0]), Shift(c, s, i, es[0]), es[1..]);
    }
  }

  lemma {:induction false} SffOvertakenBySmaller(c: Config, s: State, i: nat, es: seq<Event>)
    requires c.policy.SFF? && Sorted(s) && i < |s.queue|
    ensures Overtaken(c, s, i, es) == SmallerArrivals(c, s, i, es)
    decreases |es|
  {
    if es != [] && !(es[0].Dispatch? && i == 0) {
      ShiftFollows(c, s, i, es[0]);
      StepKeepsSorted(c, s, es[0]);
      SffOvertakenBySmaller(c, Step(c, s, es[0]), Shift(c, s, i, es[0]), es[1..]);
    }
  }

  /** Under FIFO the age of a request is the length of the queue it found. */
  lemma FifoAge(c: Config, before: seq<Event>, e: Event, after: seq<Event>)
    requires c.policy.FIFO? && e.Arrive?
    ensures var s := Run(c, EMPTY, before); var i := |s.queue|;
            var r, death := Step(c, s, e).queue[i], DeathOf(c, Step(c, s, e), i, after);
            Arrive(r.fd, r.size, r.isStatic) == e && r.birth == s.served &&
            (death.At? ==> death.served - r.birth == |s.queue|)
  {
    var s := Run(c, EMPTY, before);
    AgeFromPosition(c, Step(c, s, e), |s.queue|, after);
    FifoNeverOvertaken(c, Step(c, s, e), |s.queue|, after);
  }

  /** Under SFF the age is the number of requests no larger that were waiting, plus the later
      arrivals of strictly smaller size that come before the dispatch. */
  lemma SffAge(c: Config, before: seq<Event>, e: Event, after: seq<Event>)
    requires c.policy.SFF? && e.Arrive?
    ensures var s := Run(c, EMPTY, before); var i := Lead(s.queue, e.size);
            var r, death := Step(c, s, e).queue[i], DeathOf(c, Step(c, s, e), i, after);
            Arrive(r.fd, r.size, r.isStatic) == e && r.birth == s.served &&
            (forall j :: 0 <= j < |s.queue| ==> (s.queue[j].size <= e.size <==> j < i)) &&
            (death.At? ==> death.served - r.birth == i + SmallerArrivals(c, Step(c, s, e), i, after))
  {
    var s := Run(c, EMPTY, before);
    SffSorted(c, EMPTY, before);
    StepKeepsSorted(c, s, e);
    AgeFromPosition(c, Step(c, s, e), Lead(s.queue, e.size), after);
    SffOvertakenBySmaller(c, Step(c, s, e), Lead(s.queue, e.size), after);
  }

  // ---------- What the bounded scan keeps ----------

  /** How far SFF-BS may still sort: the rest of the current group of `n` dispatches. */
  function Window(s: State, n: nat): nat
    requires n > 0
  {
    n - s.served % n
  }

  ghost predicate WindowSorted(s: State, n: nat)
    requires n > 0
  {
    && (forall i, j :: 0 <= i < j < |s.queue| && j < Window(s, n) ==> Before(s.queue[i], s.queue[j]))
    && (forall i :: 0 <= i < |s.queue| ==> s.queue[i].id < s.arrived)
  }

  lemma NextServed(served: nat, n: nat)
    requires n > 0 && (served + 1) / n == served / n
    ensures (served + 1) % n == served % n + 1
  {
    assert served == served / n * n + served % n;
    assert served + 1 == (served + 1) / n * n + (served + 1) % n;
  }

  lemma InsertKeepsWindow(q: seq<Request>, i: nat, r: Request, w: int)
    requires forall j, k :: 0 <= j < k < |q| && k < w ==> Before(q[j], q[k])
    requires forall j :: 0 <= j < |q| ==> q[j].id < r.id
    requires i <= |q| && i < w && (forall j :: 0 <= j < i ==> q[j].size <= r.size)
    requires i == w - 1 || (i < |q| ==> q[i].size > r.size)
    ensures var p := InsertAt(q, i, r);
            (forall j, k :: 0 <= j < k < |p| && k < w ==> Before(p[j], p[k])) &&
            (forall j :: 0 <= j < |p| ==> p[j].id <= r.id)
  {
    var p := InsertAt(q, i, r);
    forall j, k | 0 <= j < k < |p| && k < w
      ensures Before(p[j], p[k])
    {
      var j', k' := if j < i then j else j - 1, if k < i then k else k - 1;
      assert j != i ==> p[j] == q[j'];
      assert k != i ==> p[k] == q[k'];
    }
  }

  lemma StepKeepsWindow(c: Config, s: State, e: Event)
    requires c.policy.SFFBS? && c.n > 0 && WindowSorted(s, c.n)
    requires Step(c, s, e).served / c.n == s.served / c.n
    ensures WindowSorted(Step(c, s, e), c.n)
  {
    if e.Arrive? {
      InsertKeepsWindow(s.queue, InsertIndex(c.policy, s.queue, e.size, s.served, c.n), Arrival(s, e), Window(s, c.n));
    }
    if e.Dispatch? && s.queue != [] { NextServed(s.served, c.n); }
  }

  lemma {:induction false} ServedGrows(c: Config, s: State, es: seq<Event>)
    requires c.Valid()
    ensures Run(c, s, es).served >= s.served
    decreases |es|
  {
    if es != [] { ServedGrows(c, Step(c, s, es[0]), es[1..]); }
  }

  lemma QuotientBetween(a: nat, b: nat, d: nat, n: nat)
    requires n > 0 && a <= b <= d && a / n == d / n
    ensures b / n == a / n
  {
    assert a == a / n * n + a % n;
    assert d == d / n * n + d % n;
    var q := b / n;
    assert b == q * n + b % n;
    if q < a / n { Times(q + 1, a / n, n); }
    if q > a / n { Times(a / n + 1, q, n); }
  }

  lemma Times(a: int, b: int, n: nat)
    requires a <= b
    ensures a * n <= b * n
  {
  }

  /** While the number served stays within one group of `n`, a sorted window stays sorted
      through any arrivals and dispatches. */
  lemma {:induction false} RunKeepsWindow(c: Config, s: State, es: seq<Event>)
    requires c.policy.SFFBS? && c.n > 0 && WindowSorted(s, c.n)
    requires Run(c, s, es).served / c.n == s.served / c.n
    ensures WindowSorted(Run(c, s, es), c.n)
    decreases |es|
  {
    if es != [] {
      var s' := Step(c, s, es[0]);
      ServedGrows(c, s', es[1..]);
      QuotientBetween(s.served, s'.served, Run(c, s, es).served, c.n);
      StepKeepsWindow(c, s, es[0]);
      RunKeepsWindow(c, s', es[1..]);
    }
  }

  // ---------- An SFF-BS value of one or less ----------

  ghost predicate NewestFirst(s: State) {
    && (forall i, j :: 0 <= i < j < |s.queue| ==> s.queue[i].id > s.queue[j].id)
    && (forall i :: 0 <= i < |s.queue| ==> s.queue[i].id < s.arrived)
  }

  lemma {:induction false} RunKeepsNewestFirst(c: Config, s: State, es: seq<Event>)
    requires c.Valid() && c.policy.SFFBS? && c.n <= 1 && NewestFirst(s)
    ensures NewestFirst(Run(c, s, es))
    decreases |es|
  {
    if es != [] {
      assert Limit(s.served, c.n) == 0;
      RunKeepsNewestFirst(c, Step(c, s, es[0]), es[1..]);
    }
  }

  /** With an SFF-BS value of one or less the policy is last in, first out: whatever the sizes, the request it
      dispatches next is the latest arrival still waiting. */
  lemma LimitOneIsLifo(c: Config, es: seq<Event>, r: Request)
    requires c.Valid() && c.policy.SFFBS? && c.n <= 1
    ensures var q := Run(c, EMPTY, es).queue; r in q ==> r.id <= q[0].id
  {
    RunKeepsNewestFirst(c, EMPTY, es);
  }
}
