/** Overtaking in the runs of the server: what Overtaking shows of arrivals and dispatches, shown of
    the actions of the master and the workers under the limit on waiting plus working requests. */
module ServerOvertaking {
  import opened Scheduling
  import opened Overtaking
  import opened Servers

  function Now(config: Config, l: Ledger): State
    requires config.Valid()
  {
    Run(config, EMPTY, l.events)
  }

  /** Within the limit, with a worker, and nothing waiting that handle_request refuses. */
  ghost predicate Sane(config: Config, maxBuffers: nat, l: Ledger)
    requires config.Valid()
  {
    && |l.busy| + |Queued(config, l)| <= maxBuffers && |l.counts| > 0
    && forall j :: 0 <= j < |Queued(config, l)| ==> Queued(config, l)[j].fd >= 0
  }

  /** The requests accepted, if any, are such that the server can receive. */
  ghost predicate ReceivableActions(actions: seq<Action>, dynamics: bool) {
    forall i :: 0 <= i < |actions| && actions[i].Accepts? ==>
      actions[i].fd >= 0 && (actions[i].size >= 0 || (dynamics && !actions[i].isStatic))
  }

  /** What one action adds to the arrivals and dispatches. */
  function EventOf(config: Config, maxBuffers: nat, l: Ledger, a: Action): seq<Event>
    requires config.Valid()
  {
    match a
    case Accepts(fd, size, isStatic) =>
      if |l.busy| + |Queued(config, l)| == maxBuffers then [] else [Arrive(fd, size, isStatic)]
    case Picks(th) => if Dispatches(config, l, th) then [Dispatch] else []
    case Finishes(_) => []
  }

  function EventsOf(config: Config, maxBuffers: nat, l: Ledger, actions: seq<Action>): seq<Event>
    requires config.Valid()
    decreases |actions|
  {
    if actions == [] then []
    else
      EventOf(config, maxBuffers, l, actions[0]) +
      EventsOf(config, maxBuffers, Act(config, maxBuffers, l, actions[0]), actions[1..])
  }

  lemma ActExtends(config: Config, maxBuffers: nat, l: Ledger, a: Action)
    requires config.Valid()
    ensures Act(config, maxBuffers, l, a).events == l.events + EventOf(config, maxBuffers, l, a)
  {
  }

  /** These are the events by which the run extends the books. */
  lemma {:induction false} EventsExtend(config: Config, maxBuffers: nat, l: Ledger, actions: seq<Action>)
    requires config.Valid()
    ensures Acts(config, maxBuffers, l, actions).events == l.events + EventsOf(config, maxBuffers, l, actions)
    decreases |actions|
  {
    if actions != [] {
      var m, e := Act(config, maxBuffers, l, actions[0]), EventOf(config, maxBuffers, l, actions[0]);
      var rest := EventsOf(config, maxBuffers, m, actions[1..]);
      ActExtends(config, maxBuffers, l, actions[0]);
      EventsExtend(config, maxBuffers, m, actions[1..]);
      assert (l.events + e) + rest == l.events + (e + rest);
    }
  }

  lemma ActKeepsSane(config: Config, maxBuffers: nat, l: Ledger, a: Action, dynamics: bool)
    requires config.Valid() && Sane(config, maxBuffers, l) && ReceivableActions([a], dynamics)
    ensures Sane(config, maxBuffers, Act(config, maxBuffers, l, a))
    ensures var es := EventOf(config, maxBuffers, l, a);
            Now(config, Act(config, maxBuffers, l, a)) ==
            if es == [] then Now(config, l) else Step(config, Now(config, l), es[0])
  {
    assert [a][0] == a;
    match a
    case Accepts(fd, size, isStatic) =>
      RunAppend(config, EMPTY, l.events, Arrive(fd, size, isStatic));
    case Picks(th) =>
      RunAppend(config, EMPTY, l.events, Dispatch);
    case Finishes(th) =>
  }

  /** Every run of a server stays within the limit. */
  lemma {:induction false} RunKeepsSane(config: Config, maxBuffers: nat, l: Ledger, actions: seq<Action>,
                                        dynamics: bool)
    requires config.Valid() && Sane(config, maxBuffers, l) && ReceivableActions(actions, dynamics)
    ensures Sane(config, maxBuffers, Acts(config, maxBuffers, l, actions))
    decreases |actions|
  {
    if actions != [] {
      ActKeepsSane(config, maxBuffers, l, actions[0], dynamics);
      RunKeepsSane(config, maxBuffers, Act(config, maxBuffers, l, actions[0]), actions[1..], dynamics);
    }
  }

  /** The events of a run are admissible: a request that is worked on takes a slot as well. */
  lemma {:induction false} RunIsAdmissible(config: Config, maxBuffers: nat, l: Ledger, actions: seq<Action>,
                                           dynamics: bool)
    requires config.Valid() && Sane(config, maxBuffers, l) && ReceivableActions(actions, dynamics)
    ensures var es := EventsOf(config, maxBuffers, l, actions);
            Receivable(es, dynamics) && Admissible(config, Now(config, l), es, maxBuffers)
    decreases |actions|
  {
    if actions != [] {
      var m := Act(config, maxBuffers, l, actions[0]);
      var rest := EventsOf(config, maxBuffers, m, actions[1..]);
      ActKeepsSane(config, maxBuffers, l, actions[0], dynamics);
      RunIsAdmissible(config, maxBuffers, m, actions[1..], dynamics);
      var e := EventOf(config, maxBuffers, l, actions[0]);
      if e == [] {
        assert EventsOf(config, maxBuffers, l, actions) == rest;
      } else {
        assert (e + rest)[1..] == rest;
      }
    }
  }

  // ---------- A run of the server for every admissible sequence of events ----------

  lemma {:induction false} AllFinish(config: Config, maxBuffers: nat, l: Ledger, dynamics: bool)
    returns (actions: seq<Action>, m: Ledger)
    requires config.Valid() && Sane(config, maxBuffers, l)
    ensures m == Acts(config, maxBuffers, l, actions) && EventsOf(config, maxBuffers, l, actions) == []
    ensures m.busy == {} && Now(config, m) == Now(config, l)
    ensures Sane(config, maxBuffers, m) && ReceivableActions(actions, dynamics)
    decreases |l.busy|
  {
    actions, m := [], l;
    if l.busy != {} {
      var th :| th in l.busy;
      var a := Finishes(th);
      ActKeepsSane(config, maxBuffers, l, a, dynamics);
      var rest;
      rest, m := AllFinish(config, maxBuffers, Act(config, maxBuffers, l, a), dynamics);
      actions := [a] + rest;
      assert actions[1..] == rest;
    }
  }

  /** Everything is left to worker `th`: the events are `es`, and the dispatches among them its own. */
  ghost predicate Realises(config: Config, maxBuffers: nat, l: Ledger, actions: seq<Action>, th: nat, es: seq<Event>)
    requires config.Valid()
  {
    && EventsOf(config, maxBuffers, l, actions) == es
    && DispatchesBy(config, maxBuffers, l, actions, th) == DispatchCount(es)
  }

  function DispatchCount(es: seq<Event>): nat {
    if es == [] then 0 else (if es[0].Dispatch? then 1 else 0) + DispatchCount(es[1..])
  }

  lemma OneArrives(config: Config, maxBuffers: nat, l: Ledger, e: Event, dynamics: bool, rest: seq<Action>, th: nat,
                   es: seq<Event>)
    returns (actions: seq<Action>)
    requires config.Valid() && Sane(config, maxBuffers, l) && l.busy == {}
    requires e.Arrive? && |Queued(config, l)| < maxBuffers
    requires Receivable([e], dynamics) && ReceivableActions(rest, dynamics)
    requires Realises(config, maxBuffers, l.(events := l.events + [e]), rest, th, es)
    ensures ReceivableActions(actions, dynamics) && Realises(config, maxBuffers, l, actions, th, [e] + es)
  {
    assert [e][0] == e && ([e] + es)[1..] == es;
    actions := [Accepts(e.fd, e.size, e.isStatic)] + rest;
    assert actions[1..] == rest;
  }

  /** The worker's pick, and its finish. */
  function Served(config: Config, maxBuffers: nat, l: Ledger, th: nat): Ledger
    requires config.Valid()
  {
    Act(config, maxBuffers, Act(config, maxBuffers, l, Picks(th)), Finishes(th))
  }

  lemma OneServed(config: Config, maxBuffers: nat, l: Ledger, dynamics: bool, rest: seq<Action>, th: nat,
                  es: seq<Event>)
    returns (actions: seq<Action>)
    requires config.Valid() && Sane(config, maxBuffers, l) && l.busy == {} && Queued(config, l) != []
    requires th < |l.counts| && ReceivableActions(rest, dynamics)
    requires Realises(config, maxBuffers, Served(config, maxBuffers, l, th), rest, th, es)
    ensures ReceivableActions(actions, dynamics) && Realises(config, maxBuffers, l, actions, th, [Dispatch] + es)
  {
    var m := Act(config, maxBuffers, l, Picks(th));
    assert Dispatches(config, l, th);
    var tail := [Finishes(th)] + rest;
    assert tail[1..] == rest;
    assert Realises(config, maxBuffers, m, tail, th, es);
    actions := [Picks(th)] + tail;
    assert actions[1..] == tail && ([Dispatch] + es)[1..] == es;
  }

  /** Any one worker can do all the work. */
  lemma {:induction false} Realised(config: Config, maxBuffers: nat, l: Ledger, es: seq<Event>, dynamics: bool, th: nat)
    returns (actions: seq<Action>)
    requires config.Valid() && Sane(config, maxBuffers, l) && l.busy == {} && th < |l.counts|
    requires Receivable(es, dynamics) && Admissible(config, Now(config, l), es, maxBuffers)
    ensures ReceivableActions(actions, dynamics) && Realises(config, maxBuffers, l, actions, th, es)
    decreases |es|
  {
    actions := [];
    if es != [] {
      var e, rest := es[0], es[1..];
      assert es == [e] + rest && [e][0] == e;
      if e.Arrive? {
        var a := Accepts(e.fd, e.size, e.isStatic);
        assert [a][0] == a;
        ActKeepsSane(config, maxBuffers, l, a, dynamics);
        var acts := Realised(config, maxBuffers, l.(events := l.events + [e]), rest, dynamics, th);
        actions := OneArrives(config, maxBuffers, l, e, dynamics, acts, th, rest);
      } else {
        assert Dispatches(config, l, th);
        var m := Act(config, maxBuffers, l, Picks(th));
        ActKeepsSane(config, maxBuffers, l, Picks(th), dynamics);
        ActKeepsSane(config, maxBuffers, m, Finishes(th), dynamics);
        var acts := Realised(config, maxBuffers, Served(config, maxBuffers, l, th), rest, dynamics, th);
        actions := OneServed(config, maxBuffers, l, dynamics, acts, th, rest);
      }
    }
  }

  lemma {:induction false} Prefixed(config: Config, maxBuffers: nat, l: Ledger, first: seq<Action>, then': seq<Action>)
    requires config.Valid()
    ensures EventsOf(config, maxBuffers, l, first + then') ==
            EventsOf(config, maxBuffers, l, first) +
            EventsOf(config, maxBuffers, Acts(config, maxBuffers, l, first), then')
    decreases |first|
  {
    if first == [] {
      assert first + then' == then';
    } else {
      assert (first + then')[1..] == first[1..] + then';
      Prefixed(config, maxBuffers, Act(config, maxBuffers, l, first[0]), first[1..], then');
    }
  }

  // ---------- Which waiting requests can be starved ----------

  /** The run dispatches at least `k` others before the request now at position `i`, and then that one. */
  ghost predicate Keeps(config: Config, maxBuffers: nat, l: Ledger, i: nat, dynamics: bool, actions: seq<Action>,
                        k: int)
    requires config.Valid() && i < |Queued(config, l)|
  {
    var death := DeathOf(config, Now(config, l), i, EventsOf(config, maxBuffers, l, actions));
    ReceivableActions(actions, dynamics) && death.At? && death.served - Now(config, l).served >= k
  }

  ghost predicate CanKeep(config: Config, maxBuffers: nat, l: Ledger, i: nat, dynamics: bool, k: int)
    requires config.Valid() && i < |Queued(config, l)|
  {
    exists actions :: Keeps(config, maxBuffers, l, i, dynamics, actions, k)
  }

  lemma StarvableKeeps(config: Config, maxBuffers: nat, l: Ledger, i: nat, dynamics: bool, k: nat)
    returns (actions: seq<Action>)
    requires config.Valid() && Sane(config, maxBuffers, l) && i < |Queued(config, l)|
    requires Starvable(config, Now(config, l), i, dynamics, maxBuffers)
    ensures Keeps(config, maxBuffers, l, i, dynamics, actions, k)
  {
    var es := StarvableDelays(config, Now(config, l), i, dynamics, maxBuffers, k);
    var first, m := AllFinish(config, maxBuffers, l, dynamics);
    var rest := Realised(config, maxBuffers, m, es, dynamics, 0);
    actions := first + rest;
    assert EventsOf(config, maxBuffers, l, actions) == es by {
      Prefixed(config, maxBuffers, l, first, rest);
      assert [] + es == es;
    }
  }

  /** Whatever the master and the workers do, a request that cannot be starved sees at most one more
      dispatched before it than stand ahead. */
  lemma BoundedWait(config: Config, maxBuffers: nat, l: Ledger, i: nat, dynamics: bool, actions: seq<Action>)
    requires config.Valid() && Sane(config, maxBuffers, l) && i < |Queued(config, l)|
    requires !Starvable(config, Now(config, l), i, dynamics, maxBuffers) && ReceivableActions(actions, dynamics)
    ensures var death := DeathOf(config, Now(config, l), i, EventsOf(config, maxBuffers, l, actions));
            death.At? ==> death.served - Now(config, l).served <= i + 1
  {
    RunIsAdmissible(config, maxBuffers, l, actions, dynamics);
    BoundedAge(config, Now(config, l), i, dynamics, maxBuffers, EventsOf(config, maxBuffers, l, actions));
  }

  /** In every state of every server a waiting request can be kept waiting without bound if and only if
      it is starvable. */
  lemma ServerStarvation(config: Config, maxBuffers: nat, l: Ledger, i: nat, dynamics: bool)
    requires config.Valid() && Sane(config, maxBuffers, l) && i < |Queued(config, l)|
    ensures (forall k: nat :: CanKeep(config, maxBuffers, l, i, dynamics, k)) <==>
            Starvable(config, Now(config, l), i, dynamics, maxBuffers)
  {
    if Starvable(config, Now(config, l), i, dynamics, maxBuffers) {
      forall k: nat
        ensures CanKeep(config, maxBuffers, l, i, dynamics, k)
      {
        var actions := StarvableKeeps(config, maxBuffers, l, i, dynamics, k);
      }
    } else if CanKeep(config, maxBuffers, l, i, dynamics, i + 2) {
      var actions :| Keeps(config, maxBuffers, l, i, dynamics, actions, i + 2);
      BoundedWait(config, maxBuffers, l, i, dynamics, actions);
      assert false;
    }
  }

  /** Under SFF, at any moment of any run of a server that gets static requests only, these are the
      requests of positive size, but for the first one of a full queue. */
  lemma SffServerStarvation(config: Config, maxBuffers: nat, threads: nat, before: seq<Action>, i: nat)
    requires config.policy.SFF? && threads > 0 && ReceivableActions(before, false)
    requires i < |Queued(config, Acts(config, maxBuffers, Fresh(threads), before))|
    ensures var l := Acts(config, maxBuffers, Fresh(threads), before);
            (forall k: nat :: CanKeep(config, maxBuffers, l, i, false, k)) <==>
            Queued(config, l)[i].size > 0 && (i > 0 || |Queued(config, l)| < maxBuffers)
  {
    var l := Acts(config, maxBuffers, Fresh(threads), before);
    RunKeepsSane(config, maxBuffers, Fresh(threads), before, false);
    ServerStarvation(config, maxBuffers, l, i, false);
    SffStarvable(config, l.events, i, maxBuffers);
  }
}
