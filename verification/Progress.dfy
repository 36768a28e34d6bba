/** The spin lock cannot deadlock the list: from every reachable state some schedule finishes every
    operation in progress.  (Which schedules do is a matter of fairness, outside the code.) */
module Progress {
  import opened KeyedLists
  import opened SpinLists

  /** A bound on the steps thread `th` still needs on a list of `n` nodes, if nobody holds it up. */
  function Rank(th: Thread, n: nat): nat {
    var left := if th.pos <= n then n - th.pos else 0;
    match th.pc
    case Idle => 0
    case Return => 1
    case FreeNode => 2
    case FreeStoreNext => 3
    case FreeTest => 4
    case Release => 5
    case LookupLoadElement | DeleteStoreHead | DeleteStorePrev | InsertStoreHead => 6
    case DeleteLoadNext(_) | InsertStoreNext => 7
    case DeleteLoadHead | InsertLoadHead => 8
    case WalkHop => 3 * left + 7
    case WalkLoadKey => 3 * left + 8
    case WalkTest => 3 * left + 9
    case WalkLoadHead => 3 * n + 10
    case Acquire => 3 * n + 11
    case InsertElement => 3 * n + 12
    case InsertKey => 3 * n + 13
    case InsertMalloc => 3 * n + 14
  }

  /** The lock is free or the thread's own. */
  predicate Unhindered(s: State, t: nat) {
    s.owner == -1 || s.owner == t
  }

  /** What a step of thread `t` does not change, and what it gets closer to. */
  ghost predicate Advances(s: State, s': State, t: nat)
    requires t < |s.threads|
  {
    && |s'.threads| == |s.threads| && s'.threads == s.threads[t := s'.threads[t]]
    && Unhindered(s', t)
    && Rank(s'.threads[t], |s'.chain|) < Rank(s.threads[t], |s.chain|)
  }

  /** No step faults, and a walk has not gone past the end. */
  ghost predicate Sure(s: State, th: Thread) {
    && (th.pc in {WalkTest, WalkLoadKey, WalkHop} ==> th.pos <= |s.chain|)
    && (th.pc.WalkTest? ==> (th.curr != NULL ==> th.pos < |s.chain|))
    && (th.pc in {WalkLoadKey, WalkHop} ==> th.pos < |s.chain| && th.curr in s.heap)
    && (th.pc in {DeleteStorePrev, LookupLoadElement, FreeStoreNext, FreeNode} || th.pc.DeleteLoadNext? ==>
        th.curr in s.heap)
    && (th.pc.DeleteStorePrev? ==> th.prev in s.heap)
    && (th.pc in {InsertKey, InsertElement, InsertStoreNext} ==> th.node in s.heap)
    && (th.pc.InsertElement? ==> th.op.Insert?)
  }

  lemma InsertSure(s: State, t: nat)
    requires Inv(s) && t < |s.threads| &&
             s.threads[t].pc in {InsertKey, InsertElement, InsertStoreNext, FreeStoreNext, FreeNode}
    ensures Sure(s, s.threads[t])
  {
    assert ThreadOk(s, t);
  }

  lemma WalkSure(s: State, t: nat)
    requires Inv(s) && t < |s.threads| && s.threads[t].pc in {WalkTest, WalkLoadKey, WalkHop}
    ensures Sure(s, s.threads[t])
  {
    assert ThreadOk(s, t);
  }

  lemma FoundSure(s: State, t: nat)
    requires Inv(s) && t < |s.threads|
    requires s.threads[t].pc in {DeleteStorePrev, LookupLoadElement} || s.threads[t].pc.DeleteLoadNext?
    ensures Sure(s, s.threads[t])
  {
    assert ThreadOk(s, t);
  }

  lemma ThreadSure(s: State, t: nat)
    requires Inv(s) && t < |s.threads|
    ensures Sure(s, s.threads[t]) && (Critical(s.threads[t].pc) ==> s.owner == t) && (s.flag == 1 ==> s.owner != -1)
  {
    if s.threads[t].pc in {InsertKey, InsertElement, InsertStoreNext, FreeStoreNext, FreeNode} {
      InsertSure(s, t);
    } else if s.threads[t].pc in {WalkTest, WalkLoadKey, WalkHop} {
      WalkSure(s, t);
    } else if s.threads[t].pc in {DeleteStorePrev, LookupLoadElement} || s.threads[t].pc.DeleteLoadNext? {
      FoundSure(s, t);
    }
  }

  lemma AdvanceBefore(s: State, t: nat, c: Choice)
    requires t < |s.threads| && Sure(s, s.threads[t]) && Unhindered(s, t) && c.addr != NULL && c.addr !in s.heap
    requires s.threads[t].pc in {InsertMalloc, InsertKey, InsertElement, Acquire} &&
             (s.threads[t].pc.Acquire? ==> s.flag != 1)
    ensures Advances(s, Step(s, t, c), t)
  {
  }

  lemma AdvanceAfter(s: State, t: nat, c: Choice)
    requires t < |s.threads| && Sure(s, s.threads[t]) && Unhindered(s, t)
    requires s.threads[t].pc in {FreeTest, FreeStoreNext, FreeNode, Return}
    ensures Advances(s, Step(s, t, c), t)
  {
  }

  lemma AdvanceWalking(s: State, t: nat, c: Choice)
    requires t < |s.threads| && Sure(s, s.threads[t]) && s.owner == t
    requires s.threads[t].pc in {WalkLoadHead, WalkTest, WalkLoadKey, WalkHop}
    ensures Advances(s, Step(s, t, c), t)
  {
  }

  lemma AdvanceInside(s: State, t: nat, c: Choice)
    requires t < |s.threads| && Sure(s, s.threads[t]) && s.owner == t && Critical(s.threads[t].pc)
    requires s.threads[t].pc !in {WalkLoadHead, WalkTest, WalkLoadKey, WalkHop}
    ensures Advances(s, Step(s, t, c), t)
  {
  }

  lemma OutsideAdvances(s: State, t: nat, c: Choice)
    requires t < |s.threads| && Sure(s, s.threads[t]) && Unhindered(s, t) && c.addr != NULL && c.addr !in s.heap
    requires !Critical(s.threads[t].pc) && !s.threads[t].pc.Idle?
    requires s.owner != t && (s.flag == 1 ==> s.owner != -1)
    ensures Advances(s, Step(s, t, c), t)
  {
    if s.threads[t].pc in {InsertMalloc, InsertKey, InsertElement, Acquire} {
      AdvanceBefore(s, t, c);
    } else {
      AdvanceAfter(s, t, c);
    }
  }

  lemma InsideAdvances(s: State, t: nat, c: Choice)
    requires t < |s.threads| && Sure(s, s.threads[t]) && s.owner == t && Critical(s.threads[t].pc)
    ensures Advances(s, Step(s, t, c), t)
  {
    if s.threads[t].pc in {WalkLoadHead, WalkTest, WalkLoadKey, WalkHop} {
      AdvanceWalking(s, t, c);
    } else {
      AdvanceInside(s, t, c);
    }
  }

  /** An unhindered thread gets closer to the end of its operation with every step. */
  lemma StepAdvances(s: State, t: nat, c: Choice)
    requires Inv(s) && t < |s.threads| && Unhindered(s, t) && c.addr != NULL && c.addr !in s.heap
    requires !s.threads[t].pc.Idle?
    ensures Advances(s, Step(s, t, c), t)
  {
    ThreadSure(s, t);
    if Critical(s.threads[t].pc) {
      InsideAdvances(s, t, c);
    } else {
      OutsideAdvances(s, t, c);
    }
  }

  lemma {:induction false} Above(ks: set<nat>) returns (m: nat)
    ensures forall k :: k in ks ==> k < m
  {
    if ks == {} {
      m := 0;
    } else {
      assert (forall k :: k !in ks) ==> ks == {};
      var k :| k in ks;
      var n := Above(ks - {k});
      m := if k < n then n else k + 1;
      assert forall j :: j in ks ==> j == k || j in ks - {k};
    }
  }

  /** malloc can always be given an address. */
  lemma FreshAddress(heap: map<nat, Node>) returns (a: nat)
    ensures a != NULL && a !in heap
  {
    var m := Above(heap.Keys);
    a := m + 1;
  }

  /** A thread that runs alone, when the lock is free or its own, finishes its operation. */
  lemma {:induction false} SoloFinishes(s: State, t: nat) returns (turns: seq<Turn>)
    requires Inv(s) && t < |s.threads| && Unhindered(s, t)
    ensures var s' := Execute(s, turns);
            Inv(s') && |s'.threads| == |s.threads| && s'.threads == s.threads[t := s'.threads[t]] &&
            s'.threads[t].pc.Idle? && s'.owner == -1
    ensures |turns| <= Rank(s.threads[t], |s.chain|)
    decreases Rank(s.threads[t], |s.chain|)
  {
    if s.threads[t].pc.Idle? {
      turns := [];
    } else {
      var a := FreshAddress(s.heap);
      var c := Choice(Lookup(0), a, Node(0, 0, 0, 0));
      StepAdvances(s, t, c);
      StepKeepsInv(s, t, c);
      var rest := SoloFinishes(Step(s, t, c), t);
      turns := [Turn(t, c)] + rest;
      assert turns[1..] == rest;
    }
  }

  lemma {:induction false} ExecuteAppend(s: State, xs: seq<Turn>, ys: seq<Turn>)
    ensures Execute(s, xs + ys) == Execute(Execute(s, xs), ys)
    decreases |xs|
  {
    if xs == [] {
      assert xs + ys == ys;
    } else {
      assert (xs + ys)[1..] == xs[1..] + ys;
      ExecuteAppend(if xs[0].tid < |s.threads| then Step(s, xs[0].tid, xs[0].choice) else s, xs[1..], ys);
    }
  }

  /** One thread after the other finishes, from thread `t` on. */
  lemma {:induction false} RestFinish(s: State, t: nat) returns (turns: seq<Turn>)
    requires Inv(s) && t <= |s.threads| && s.owner == -1
    requires forall u :: 0 <= u < t ==> s.threads[u].pc.Idle?
    ensures var s' := Execute(s, turns);
            |s'.threads| == |s.threads| && forall u :: 0 <= u < |s'.threads| ==> s'.threads[u].pc.Idle?
    decreases |s.threads| - t
  {
    if t == |s.threads| {
      turns := [];
    } else {
      var now := SoloFinishes(s, t);
      var later := RestFinish(Execute(s, now), t + 1);
      turns := now + later;
      ExecuteAppend(s, now, later);
    }
  }

  lemma SameThreadsInside(s: State, t: nat, c: Choice)
    requires t < |s.threads| && Critical(s.threads[t].pc)
    ensures |Step(s, t, c).threads| == |s.threads|
  {
  }

  lemma SameThreadsOutside(s: State, t: nat, c: Choice)
    requires t < |s.threads| && !Critical(s.threads[t].pc)
    ensures |Step(s, t, c).threads| == |s.threads|
  {
  }

  lemma {:induction false} Reachable(s: State, turns: seq<Turn>)
    requires Inv(s)
    ensures Inv(Execute(s, turns)) && |Execute(s, turns).threads| == |s.threads|
    decreases |turns|
  {
    if turns != [] {
      if turns[0].tid < |s.threads| {
        StepKeepsInv(s, turns[0].tid, turns[0].choice);
        if Critical(s.threads[turns[0].tid].pc) {
          SameThreadsInside(s, turns[0].tid, turns[0].choice);
        } else {
          SameThreadsOutside(s, turns[0].tid, turns[0].choice);
        }
        Reachable(Step(s, turns[0].tid, turns[0].choice), turns[1..]);
      } else {
        Reachable(s, turns[1..]);
      }
    }
  }

  /** After `sofar` and then `more` every operation has returned and the lock is free. */
  ghost predicate Finishes(n: nat, sofar: seq<Turn>, more: seq<Turn>) {
    var s := Execute(Start(n), sofar + more);
    |s.threads| == n && s.flag == 0 && forall t :: 0 <= t < n ==> s.threads[t].pc.Idle?
  }

  /** However an execution has gone so far, it can go on so that every operation finishes: first the
      owner of the lock runs, then the others in turn. */
  lemma NoDeadlock(n: nat, sofar: seq<Turn>)
    ensures exists more :: Finishes(n, sofar, more)
  {
    StartInv(n);
    Reachable(Start(n), sofar);
    var s := Execute(Start(n), sofar);
    var first: seq<Turn> := [];
    if s.owner != -1 {
      first := SoloFinishes(s, s.owner);
    }
    var rest := RestFinish(Execute(s, first), 0);
    var more := first + rest;
    ExecuteAppend(s, first, rest);
    ExecuteAppend(Start(n), sofar, more);
    Reachable(Start(n), sofar + more);
    LockFree(Execute(Start(n), sofar + more));
    assert Finishes(n, sofar, more);
  }

  lemma LockFree(s: State)
    requires Inv(s) && forall t :: 0 <= t < |s.threads| ==> s.threads[t].pc.Idle?
    ensures s.flag == 0 && s.owner == -1
  {
    assert s.owner != -1 ==> Critical(s.threads[s.owner].pc);
  }
}
