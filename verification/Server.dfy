/** The bookkeeping of p5/server.c around the queue: accepting a request, picking one, finishing it.

    Each of the three is one atomic step here.  That is an assumption: the program guards accepts
    with one mutex and every worker's picks with a mutex of that worker's own. */
module Servers {
  import opened Scheduling
  import opened WaitQueues

  function Sum(s: seq<int>): int {
    if s == [] then 0 else s[0] + Sum(s[1..])
  }

  lemma {:induction false} SumUpdate(s: seq<int>, i: nat, v: int)
    requires i < |s|
    ensures Sum(s[i := v]) == Sum(s) - s[i] + v
  {
    if i == 0 {
      assert s[i := v][1..] == s[1..];
    } else {
      SumUpdate(s[1..], i - 1, v);
      assert s[i := v][1..] == s[1..][i - 1 := v];
    }
  }

  lemma {:induction false} SumZeros(n: nat)
    ensures Sum(seq(n, _ => 0)) == 0
  {
    if n > 0 {
      SumZeros(n - 1);
      assert seq(n, _ => 0)[1..] == seq(n - 1, _ => 0);
    }
  }

  lemma {:induction false} RunAppend(c: Config, s: State, es: seq<Event>, e: Event)
    requires c.Valid()
    ensures Run(c, s, es + [e]) == Step(c, Run(c, s, es), e)
    decreases |es|
  {
    if es == [] {
      assert ([] + [e])[1..] == [];
      assert Run(c, Step(c, s, e), []) == Step(c, s, e);
    } else {
      assert (es + [e])[1..] == es[1..] + [e];
      RunAppend(c, Step(c, s, es[0]), es[1..], e);
    }
  }

  // ---------- The bookkeeping as a value ----------

  /** The arrivals and dispatches so far, the workers between their pick and their finish, the number
      of requests finished, and the usage statistics of every worker. */
  datatype Ledger = Ledger(events: seq<Event>, busy: set<nat>, finished: nat,
                           counts: seq<int>, statics: seq<int>, dynamics: seq<int>)

  datatype Action = Accepts(fd: int, size: int, isStatic: bool) | Picks(th: nat) | Finishes(th: nat)

  function Queued(config: Config, l: Ledger): seq<Request>
    requires config.Valid()
  {
    Run(config, EMPTY, l.events).queue
  }

  function Bump(s: seq<int>, th: nat): seq<int> {
    if th < |s| then s[th := s[th] + 1] else s
  }

  /** The worker gets past its wait loop and finds a request it will serve. */
  predicate Dispatches(config: Config, l: Ledger, th: nat)
    requires config.Valid()
  {
    th < |l.counts| && th !in l.busy && Queued(config, l) != [] && Queued(config, l)[0].fd != -1
  }

  /** One action, if its wait loop lets it through.  A pick that finds a descriptor of -1 is none. */
  function Act(config: Config, maxBuffers: nat, l: Ledger, a: Action): Ledger
    requires config.Valid()
  {
    match a
    case Accepts(fd, size, isStatic) =>
      if |l.busy| + |Queued(config, l)| == maxBuffers then l
      else l.(events := l.events + [Arrive(fd, size, isStatic)])
    case Picks(th) =>
      if !Dispatches(config, l, th) then l
      else
        var r := Queued(config, l)[0];
        Ledger(l.events + [Dispatch], l.busy + {th}, l.finished, Bump(l.counts, th),
               if r.isStatic then Bump(l.statics, th) else l.statics,
               if r.isStatic then l.dynamics else Bump(l.dynamics, th))
    case Finishes(th) =>
      if th !in l.busy then l else l.(busy := l.busy - {th}, finished := l.finished + 1)
  }

  lemma OneDispatch(config: Config, maxBuffers: nat, l: Ledger, th: nat, r: Request) returns (m: Ledger)
    requires config.Valid() && Dispatches(config, l, th) && Queued(config, l)[0] == r
    requires |l.counts| == |l.statics| == |l.dynamics|
    ensures m == Act(config, maxBuffers, l, Picks(th))
    ensures m.events == l.events + [Dispatch] && m.busy == l.busy + {th} && m.finished == l.finished
    ensures m.counts == l.counts[th := l.counts[th] + 1]
    ensures m.statics == if r.isStatic then l.statics[th := l.statics[th] + 1] else l.statics
    ensures m.dynamics == if r.isStatic then l.dynamics else l.dynamics[th := l.dynamics[th] + 1]
  {
    m := Act(config, maxBuffers, l, Picks(th));
  }

  function Acts(config: Config, maxBuffers: nat, l: Ledger, actions: seq<Action>): Ledger
    requires config.Valid()
    decreases |actions|
  {
    if actions == [] then l else Acts(config, maxBuffers, Act(config, maxBuffers, l, actions[0]), actions[1..])
  }

  /** How many of the actions are dispatches by worker `th`. */
  function DispatchesBy(config: Config, maxBuffers: nat, l: Ledger, actions: seq<Action>, th: nat): nat
    requires config.Valid()
    decreases |actions|
  {
    if actions == [] then 0
    else
      (if actions[0] == Picks(th) && Dispatches(config, l, th) then 1 else 0) +
      DispatchesBy(config, maxBuffers, Act(config, maxBuffers, l, actions[0]), actions[1..], th)
  }

  /** A worker's count is the number of requests that worker dispatched. */
  lemma {:induction false} CountsAreDispatches(config: Config, maxBuffers: nat, l: Ledger, actions: seq<Action>,
                                               th: nat)
    requires config.Valid() && th < |l.counts|
    ensures var m := Acts(config, maxBuffers, l, actions);
            |m.counts| == |l.counts| && m.counts[th] == l.counts[th] + DispatchesBy(config, maxBuffers, l, actions, th)
    decreases |actions|
  {
    if actions != [] {
      CountsAreDispatches(config, maxBuffers, Act(config, maxBuffers, l, actions[0]), actions[1..], th);
    }
  }

  /** The head was received as a request of this kind. */
  predicate HeadIs(config: Config, l: Ledger, isStatic: bool)
    requires config.Valid() && Queued(config, l) != []
  {
    var got, id := Received(l.events), Queued(config, l)[0].id;
    id < |got| && got[id].isStatic == isStatic
  }

  /** How many of the actions are dispatches by worker `th` of a request received as of this kind. */
  function KindDispatchesBy(config: Config, maxBuffers: nat, l: Ledger, actions: seq<Action>, th: nat,
                            isStatic: bool): nat
    requires config.Valid()
    decreases |actions|
  {
    if actions == [] then 0
    else
      (if actions[0] == Picks(th) && Dispatches(config, l, th) && HeadIs(config, l, isStatic) then 1 else 0) +
      KindDispatchesBy(config, maxBuffers, Act(config, maxBuffers, l, actions[0]), actions[1..], th, isStatic)
  }

  lemma HeadIsIdentified(config: Config, l: Ledger)
    requires config.Valid() && Queued(config, l) != []
    ensures forall k :: HeadIs(config, l, k) <==> Queued(config, l)[0].isStatic == k
  {
    RunIdentified(config, EMPTY, l.events, []);
    assert [] + Received(l.events) == Received(l.events);
    assert Asks(Queued(config, l))[0].isStatic == Queued(config, l)[0].isStatic;
  }

  /** A worker's statistics are the numbers of requests received as static, and as dynamic, that it
      dispatched. */
  lemma {:induction false} StatisticsAreDispatches(config: Config, maxBuffers: nat, l: Ledger, actions: seq<Action>,
                                                   th: nat)
    requires config.Valid() && th < |l.counts| && |l.counts| == |l.statics| == |l.dynamics|
    ensures var m := Acts(config, maxBuffers, l, actions);
            && |m.statics| == |m.dynamics| == |l.counts|
            && m.statics[th] == l.statics[th] + KindDispatchesBy(config, maxBuffers, l, actions, th, true)
            && m.dynamics[th] == l.dynamics[th] + KindDispatchesBy(config, maxBuffers, l, actions, th, false)
    decreases |actions|
  {
    if actions != [] {
      if Queued(config, l) != [] { HeadIsIdentified(config, l); }
      StatisticsAreDispatches(config, maxBuffers, Act(config, maxBuffers, l, actions[0]), actions[1..], th);
    }
  }

  /** The requests of the accepts that the limit lets through. */
  function Taken(config: Config, maxBuffers: nat, l: Ledger, actions: seq<Action>): seq<Event>
    requires config.Valid()
    decreases |actions|
  {
    if actions == [] then []
    else
      var a := actions[0];
      (if a.Accepts? && |l.busy| + |Queued(config, l)| != maxBuffers then [Arrive(a.fd, a.size, a.isStatic)] else []) +
      Taken(config, maxBuffers, Act(config, maxBuffers, l, a), actions[1..])
  }

  lemma {:induction false} TakenReceived(config: Config, maxBuffers: nat, l: Ledger, actions: seq<Action>)
    requires config.Valid()
    ensures Received(Acts(config, maxBuffers, l, actions).events) ==
            Received(l.events) + Taken(config, maxBuffers, l, actions)
    decreases |actions|
  {
    if actions != [] {
      var m := Act(config, maxBuffers, l, actions[0]);
      TakenReceived(config, maxBuffers, m, actions[1..]);
      if m.events != l.events { ReceivedNext(l.events, m.events[|l.events|]); }
    }
  }

  function Fresh(threads: nat): Ledger {
    Ledger([], {}, 0, seq(threads, _ => 0), seq(threads, _ => 0), seq(threads, _ => 0))
  }

  /** In every run of a server the requests dispatched and those waiting are for what was accepted: the
      same descriptors with the same sizes and kinds, each as often. */
  lemma AcceptedConserved(config: Config, maxBuffers: nat, threads: nat, actions: seq<Action>)
    requires config.Valid()
    ensures var l := Acts(config, maxBuffers, Fresh(threads), actions);
            multiset(Taken(config, maxBuffers, Fresh(threads), actions)) ==
            Asked(Queued(config, l)) + Asked(Dispatched(config, EMPTY, l.events))
  {
    var l := Acts(config, maxBuffers, Fresh(threads), actions);
    TakenReceived(config, maxBuffers, Fresh(threads), actions);
    assert Received([]) + Taken(config, maxBuffers, Fresh(threads), actions) == Received(l.events);
    AskedConserved(config, EMPTY, l.events);
    assert Asked([]) == multiset{};
  }

  class Server {
    const config: Config
    const maxBuffers: nat
    const queue: WaitQueue
    var waitNum: int
    var workNum: int
    var headHist: int
    var arrived: nat                  // names the nodes, as their addresses do
    const count: array<int>
    const statics: array<int>
    const dynamics: array<int>

    var busy: set<nat>                // the workers between their pick and their finish
    ghost var finished: nat
    ghost var events: seq<Event>      // the arrivals and dispatches so far

    /** The scheduling state that the events lead to. */
    ghost function Scheduled(): State
      requires config.Valid()
      reads this
    {
      Run(config, EMPTY, events)
    }

    ghost function Books(): Ledger
      reads this, count, statics, dynamics
    {
      Ledger(events, busy, finished, count[..], statics[..], dynamics[..])
    }

    /** Each worker's requests are its static and its dynamic ones, and together they are `total`. */
    ghost predicate StatsOk(total: int)
      reads this, count, statics, dynamics
    {
      && count.Length == statics.Length == dynamics.Length
      && count != statics && count != dynamics && statics != dynamics
      && (forall t :: 0 <= t < count.Length ==> count[t] == statics[t] + dynamics[t])
      && Sum(count[..]) == total
    }

    /** The queue, the history and the numbers of waiting and working requests agree. */
    ghost predicate Consistent()
      reads this, queue, queue.spine
    {
      && config.Valid()
      && queue.Valid()
      && queue.contents == Scheduled().queue && headHist == Scheduled().served && arrived == Scheduled().arrived
      && waitNum == |queue.contents|
      && workNum == |busy|
      && waitNum + workNum <= maxBuffers
      && arrived == waitNum + workNum + finished
      && headHist == workNum + finished
      && (forall t :: t in busy ==> t < count.Length)
    }

    ghost predicate Valid()
      reads this, queue, queue.spine, count, statics, dynamics
    {
      Consistent() && StatsOk(headHist)
    }

    constructor (config: Config, threads: nat, maxBuffers: nat)
      requires config.Valid()
      ensures Valid() && this.config == config && this.maxBuffers == maxBuffers
      ensures Books() == Fresh(threads)
    {
      this.config, this.maxBuffers := config, maxBuffers;
      queue := new WaitQueue();
      waitNum, workNum, headHist, arrived := 0, 0, 0, 0;
      count := new int[threads](_ => 0);
      statics := new int[threads](_ => 0);
      dynamics := new int[threads](_ => 0);
      busy, finished, events := {}, 0, [];
      new;
      assert count[..] == statics[..] == dynamics[..] == seq(threads, _ => 0);
      SumZeros(threads);
    }

    /** Master_thread_accept_request, past its wait loop. */
    method Accept(fd: int, size: int, isStatic: bool)
      requires Valid() && workNum + waitNum != maxBuffers
      modifies this`waitNum, this`arrived, this`events, queue, queue.spine
      ensures Valid() && events == old(events) + [Arrive(fd, size, isStatic)]
      ensures Books() == Act(config, maxBuffers, old(Books()), Accepts(fd, size, isStatic))
      ensures waitNum == old(waitNum) + 1
      ensures var i := InsertIndex(config.policy, old(queue.contents), size, old(headHist), config.n);
              queue.contents ==
              InsertAt(old(queue.contents), i, Request(fd, size, isStatic, old(headHist), old(arrived)))
      ensures forall m :: m in queue.spine ==> m in old(queue.spine) || fresh(m)
    {
      ghost var e := Arrive(fd, size, isStatic);
      RunAppend(config, EMPTY, events, e);
      queue.Push(config.policy, Request(fd, size, isStatic, headHist, arrived), headHist, config.n);
      waitNum := waitNum + 1;
      arrived := arrived + 1;
      events := events + [e];
    }

    /** The usage statistics of worker `th`. */
    method CountRequest(th: nat, isStatic: bool, ghost total: int)
      requires StatsOk(total) && th < count.Length
      modifies count, statics, dynamics
      ensures StatsOk(total + 1)
      ensures count[..] == old(count[..])[th := old(count[th]) + 1]
      ensures statics[..] == if isStatic then old(statics[..])[th := old(statics[th]) + 1] else old(statics[..])
      ensures dynamics[..] == if isStatic then old(dynamics[..]) else old(dynamics[..])[th := old(dynamics[th]) + 1]
    {
      SumUpdate(count[..], th, count[th] + 1);
      ghost var before := count[..];
      count[th] := count[th] + 1;
      assert count[..] == before[th := before[th] + 1];
      if isStatic {
        statics[th] := statics[th] + 1;
      } else {
        dynamics[th] := dynamics[th] + 1;
      }
    }

    /** The queue side of a dispatch. */
    method TakeHead(th: nat)
      requires Consistent() && waitNum != 0 && th < count.Length && th !in busy
      modifies this`waitNum, this`workNum, this`headHist, this`busy, this`events, queue, queue.spine
      ensures Consistent() && headHist == old(headHist) + 1 && waitNum == old(waitNum) - 1
      ensures events == old(events) + [Dispatch] && busy == old(busy) + {th}
      ensures forall m :: m in queue.spine ==> m in old(queue.spine)
    {
      RunAppend(config, EMPTY, events, Dispatch);
      queue.Pop();
      headHist := headHist + 1;
      workNum := workNum + 1;
      waitNum := waitNum - 1;
      busy := busy + {th};
      events := events + [Dispatch];
    }

    /** The statistics and the queue side of a dispatch. */
    method Record(th: nat, isStatic: bool)
      requires Valid() && Dispatches(config, Books(), th) && isStatic == queue.contents[0].isStatic
      modifies this`waitNum, this`workNum, this`headHist, this`busy, this`events
      modifies queue, queue.spine, count, statics, dynamics
      ensures Valid() && waitNum == old(waitNum) - 1 && forall m :: m in queue.spine ==> m in old(queue.spine)
      ensures Books() == Act(config, maxBuffers, old(Books()), Picks(th))
    {
      ghost var after := OneDispatch(config, maxBuffers, Books(), th, queue.contents[0]);
      CountRequest(th, isStatic, headHist);
      TakeHead(th);
      assert count[..] == after.counts && statics[..] == after.statics && dynamics[..] == after.dynamics;
    }

    /** handle_request up to serving the request, past the worker's wait loop.  A request whose
        descriptor is -1 is reported and stays at the front.  `death` is stat_req_death. */
    method Pick(th: nat) returns (picked: bool, r: Request, death: int)
      requires Valid() && waitNum != 0 && th < count.Length && th !in busy
      modifies this`waitNum, this`workNum, this`headHist, this`busy, this`events
      modifies queue, queue.spine, count, statics, dynamics
      ensures Valid() && r == old(queue.contents[0]) && picked == (r.fd != -1) && death == old(headHist)
      ensures waitNum == old(waitNum) - (if picked then 1 else 0)
      ensures Books() == Act(config, maxBuffers, old(Books()), Picks(th))
      ensures forall m :: m in queue.spine ==> m in old(queue.spine)
    {
      r := queue.Peek();
      death := headHist;
      picked := r.fd != -1;
      if picked {
        assert Dispatches(config, Books(), th);
        Record(th, r.isStatic);
      } else {
        assert !Dispatches(config, Books(), th);
      }
    }

    /** The end of handle_request. */
    method Finish(th: nat)
      requires Valid() && th in busy
      modifies this`workNum, this`busy, this`finished
      ensures Valid() && busy == old(busy) - {th} && finished == old(finished) + 1 && workNum == old(workNum) - 1
      ensures Books() == Act(config, maxBuffers, old(Books()), Finishes(th))
    {
      workNum := workNum - 1;
      busy := busy - {th};
      finished := finished + 1;
    }
  }

  /** Any order of actions: the books are those of the pure run. */
  method Work(server: Server, actions: seq<Action>)
    requires server.Valid()
    modifies server, server.queue, server.queue.spine, server.count, server.statics, server.dynamics
    ensures server.Valid()
    ensures server.Books() == Acts(server.config, server.maxBuffers, old(server.Books()), actions)
    decreases |actions|
  {
    if actions == [] {
      return;
    }
    Perform(server, actions[0]);
    forall i | 0 <= i < |server.queue.spine|
      ensures server.queue.spine[i] in old(server.queue.spine) || fresh(server.queue.spine[i])
    {
      assert server.queue.spine[i] in server.queue.spine;
    }
    Work(server, actions[1..]);
  }

  /** One action, behind its wait loop. */
  method Perform(server: Server, action: Action)
    requires server.Valid()
    modifies server, server.queue, server.queue.spine, server.count, server.statics, server.dynamics
    ensures server.Valid() && server.Books() == Act(server.config, server.maxBuffers, old(server.Books()), action)
    ensures forall m :: m in server.queue.spine ==> m in old(server.queue.spine) || fresh(m)
  {
    ghost var config, max, books := server.config, server.maxBuffers, server.Books();
    assert |Queued(config, books)| == server.waitNum && |books.counts| == server.count.Length;
    match action {
      case Accepts(fd, size, isStatic) =>
        if server.workNum + server.waitNum != server.maxBuffers {
          server.Accept(fd, size, isStatic);
        }
      case Picks(th) =>
        if server.waitNum != 0 && th < server.count.Length && th !in server.busy {
          var picked, r, death := server.Pick(th);
          assert server.Books() == Act(config, max, books, Picks(th));
        } else {
          assert !Dispatches(config, books, th);
        }
      case Finishes(th) =>
        if th in server.busy {
          server.Finish(th);
        }
    }
  }
}
