/** Each operation of the spin-locked list takes effect as one atomic operation on an abstract
    list, at a moment between its call and its return. */
module Linearization {
  import opened KeyedLists
  import opened SpinLists

  // ---------- Histories ----------

  /** The abstract list after the effects recorded so far, in the order they were recorded. */
  function Spec(hist: seq<Event>): seq<Entry> {
    if hist == [] then []
    else
      var e, before := hist[|hist| - 1], Spec(hist[..|hist| - 1]);
      if e.Effect? then Apply(before, e.op) else before
  }

  /** Every effect has the result the abstract list gives at that moment. */
  ghost predicate Legal(hist: seq<Event>) {
    hist != [] ==>
      var e, before := hist[|hist| - 1], hist[..|hist| - 1];
      Legal(before) && (e.Effect? ==> e.result == KeyedLists.Result(Spec(before), e.op))
  }

  /** Where thread `t` stands: between operations, called, or past the effect.  A history in which
      the thread's calls, effects and returns do not alternate properly is broken. */
  datatype Phase = Ready | Pending(op: Op) | Effected(op: Op, result: Element) | Broken

  function PhaseOf(hist: seq<Event>, t: nat): Phase {
    if hist == [] then Ready
    else
      var e, before := hist[|hist| - 1], PhaseOf(hist[..|hist| - 1], t);
      if e.tid != t then before
      else match e
           case Call(_, op) => if before == Ready then Pending(op) else Broken
           case Effect(_, op, r) => if before == Pending(op) then Effected(op, r) else Broken
           case Ret(_, op, r) => if before == Effected(op, r) then Ready else Broken
  }

  /** `hist` is linearized by its effects: each lies between the call and the return of its
      operation, which returns its result, and together they are a run of the sequential list. */
  ghost predicate Linearized(hist: seq<Event>) {
    Legal(hist) && forall t: nat :: PhaseOf(hist, t) != Broken
  }

  // ---------- What that means for a return ----------

  /** Thread `t` does nothing after position `i`. */
  ghost predicate SilentAfter(hist: seq<Event>, i: int, t: nat) {
    forall j :: 0 <= j < |hist| && i < j ==> hist[j].tid != t
  }

  lemma {:induction false} PendingSince(hist: seq<Event>, t: nat, op: Op) returns (c: nat)
    requires PhaseOf(hist, t) == Pending(op)
    ensures c < |hist| && hist[c] == Call(t, op) && SilentAfter(hist, c, t)
    decreases |hist|
  {
    c := |hist| - 1;
    if hist[c].tid != t { c := PendingSince(hist[..c], t, op); }
  }

  lemma {:induction false} EffectedSince(hist: seq<Event>, t: nat, op: Op, r: Element) returns (c: nat, e: nat)
    requires PhaseOf(hist, t) == Effected(op, r)
    ensures c < e < |hist| && hist[c] == Call(t, op) && hist[e] == Effect(t, op, r)
    ensures SilentAfter(hist[..e], c, t) && SilentAfter(hist, e, t)
    decreases |hist|
  {
    var last := |hist| - 1;
    if hist[last].tid == t {
      c := PendingSince(hist[..last], t, op);
      e := last;
    } else {
      c, e := EffectedSince(hist[..last], t, op, r);
      assert hist[..last][..e] == hist[..e];
    }
  }

  lemma {:induction false} SoFarLinearized(hist: seq<Event>, i: nat, t: nat)
    requires i <= |hist| && Legal(hist) && PhaseOf(hist, t) != Broken
    ensures Legal(hist[..i]) && PhaseOf(hist[..i], t) != Broken
    decreases |hist|
  {
    if i < |hist| {
      var last := |hist| - 1;
      SoFarLinearized(hist[..last], i, t);
      assert hist[..last][..i] == hist[..i];
    } else {
      assert hist[..i] == hist;
    }
  }

  /** Between the call of an operation and its return lies one effect of the thread's, and no other event:
      that of this operation, with the result returned, which is the one the abstract list gave. */
  lemma ReturnExplained(hist: seq<Event>, i: nat) returns (c: nat, e: nat)
    requires Linearized(hist) && i < |hist| && hist[i].Ret?
    ensures c < e < i && hist[c] == Call(hist[i].tid, hist[i].op)
    ensures hist[e] == Effect(hist[i].tid, hist[i].op, hist[i].result)
    ensures forall j :: c < j < i && j != e ==> hist[j].tid != hist[i].tid
    ensures hist[i].result == KeyedLists.Result(Spec(hist[..e]), hist[i].op)
  {
    var t := hist[i].tid;
    SoFarLinearized(hist, i + 1, t);
    assert hist[..i + 1][..i] == hist[..i];
    c, e := EffectedSince(hist[..i], t, hist[i].op, hist[i].result);
    forall j | c < j < i && j != e
      ensures hist[j].tid != t
    {
      if j < e { assert hist[..i][..e][j] == hist[j]; } else { assert hist[..i][j] == hist[j]; }
    }
    SoFarLinearized(hist, e + 1, t);
    assert hist[..e + 1][..e] == hist[..e];
  }

  // ---------- The invariant ----------

  /** What the nodes on the list hold. */
  function Contents(heap: map<nat, Node>, chain: seq<nat>): (s: seq<Entry>)
    requires forall i :: 0 <= i < |chain| ==> chain[i] in heap
    ensures |s| == |chain|
    ensures forall i :: 0 <= i < |chain| ==> s[i] == Entry(heap[chain[i]].key, heap[chain[i]].element)
  {
    seq(|chain|, i requires 0 <= i < |chain| => Entry(heap[chain[i]].key, heap[chain[i]].element))
  }

  ghost function Abs(s: State): seq<Entry>
    requires Inv(s)
  {
    Contents(s.heap, s.chain)
  }

  function Expected(th: Thread): Phase {
    if th.pc.Idle? then Ready else if th.done then Effected(th.op, th.result) else Pending(th.op)
  }

  ghost predicate HistInv(s: State) {
    && Inv(s)
    && Abs(s) == Spec(s.hist)
    && Legal(s.hist)
    && (forall t: nat :: PhaseOf(s.hist, t) == if t < |s.threads| then Expected(s.threads[t]) else Ready)
  }

  // ---------- One step, as seen by the abstract list ----------

  /** The step records `e`, or nothing. */
  ghost predicate Records(s: State, s': State, e: Event) {
    s'.hist == s.hist + [e]
  }

  ghost predicate Matches(s: State, s': State, t: nat)
    requires Inv(s) && Inv(s') && t < |s.threads|
  {
    && |s'.threads| == |s.threads| && s'.threads == s.threads[t := s'.threads[t]]
    && var before, after := Expected(s.threads[t]), Expected(s'.threads[t]);
       match (before, after)
       case (Pending(op), Effected(op', r)) =>
         op == op' && Records(s, s', Effect(t, op, r)) && r == KeyedLists.Result(Abs(s), op) &&
         Abs(s') == Apply(Abs(s), op)
       case (Ready, Pending(op)) => Records(s, s', Call(t, op)) && Abs(s') == Abs(s)
       case (Effected(op, r), Ready) => Records(s, s', Ret(t, op, r)) && Abs(s') == Abs(s)
       case (b, a) => a == b && s'.hist == s.hist && Abs(s') == Abs(s)
  }

  lemma {:induction false} MatchesKeeps(s: State, s': State, t: nat)
    requires HistInv(s) && Inv(s') && t < |s.threads| && Matches(s, s', t)
    ensures HistInv(s')
  {
    if s'.hist != s.hist {
      assert s'.hist[..|s'.hist| - 1] == s.hist;
      forall u: nat
        ensures PhaseOf(s'.hist, u) == if u < |s'.threads| then Expected(s'.threads[u]) else Ready
      {
        assert PhaseOf(s.hist, u) == if u < |s.threads| then Expected(s.threads[u]) else Ready;
      }
    }
  }

  /** The list nodes keep their keys and elements. */
  lemma SameContents(s: State, s': State)
    requires Inv(s) && Inv(s') && s'.chain == s.chain
    requires forall a :: a in s.chain ==>
               a in s.heap && a in s'.heap && s'.heap[a].key == s.heap[a].key && s'.heap[a].element == s.heap[a].element
    ensures Abs(s') == Abs(s)
  {
    assert forall i :: 0 <= i < |s.chain| ==> s.chain[i] in s.chain;
  }

  /** A step that moves nothing on the list and records nothing. */
  lemma Quiet(s: State, s': State, t: nat)
    requires Inv(s) && Inv(s') && t < |s.threads|
    requires s'.chain == s.chain && s'.hist == s.hist
    requires |s'.threads| == |s.threads| && s'.threads == s.threads[t := s'.threads[t]]
    requires Expected(s'.threads[t]) == Expected(s.threads[t])
    requires forall a :: a in s.heap && s.heap[a].home == -1 ==> a in s'.heap && s'.heap[a] == s.heap[a]
    ensures Matches(s, s', t)
  {
    SameContents(s, s');
  }

  lemma PublishContents(heap: map<nat, Node>, heap': map<nat, Node>, chain: seq<nat>, a: nat)
    requires forall j :: 0 <= j < |chain| ==> chain[j] in heap
    requires a in heap && heap'.Keys == heap.Keys
    requires forall b :: b in heap ==> heap'[b].key == heap[b].key && heap'[b].element == heap[b].element
    ensures forall j :: 0 <= j < |[a] + chain| ==> ([a] + chain)[j] in heap'
    ensures Contents(heap', [a] + chain) == [Entry(heap[a].key, heap[a].element)] + Contents(heap, chain)
  {
  }

  lemma PublishAbs(s: State, t: nat)
    requires Inv(s) && t < |s.threads| && s.threads[t].pc.InsertStoreHead? && Inv(PublishNode(s, t))
    ensures Abs(PublishNode(s, t)) == Apply(Abs(s), s.threads[t].op)
  {
    assert ThreadOk(s, t);
    PublishContents(s.heap, PublishNode(s, t).heap, s.chain, s.threads[t].node);
  }

  lemma PublishMatches(s: State, t: nat)
    requires Inv(s) && t < |s.threads| && s.threads[t].pc.InsertStoreHead? && Inv(PublishNode(s, t))
    ensures Matches(s, PublishNode(s, t), t)
  {
    PublishAbs(s, t);
    assert ThreadOk(s, t);
  }

  lemma DeleteContents(heap: map<nat, Node>, heap': map<nat, Node>, chain: seq<nat>, i: nat)
    requires i < |chain| && heap'.Keys == heap.Keys
    requires forall j :: 0 <= j < |chain| ==> chain[j] in heap
    requires forall a :: a in heap ==> heap'[a].key == heap[a].key && heap'[a].element == heap[a].element
    ensures var c := chain[..i] + chain[i + 1..];
            (forall j :: 0 <= j < |c| ==> c[j] in heap') &&
            Contents(heap', c) == Contents(heap, chain)[..i] + Contents(heap, chain)[i + 1..]
  {
    var c := chain[..i] + chain[i + 1..];
    assert forall j :: 0 <= j < |c| ==> c[j] == chain[if j < i then j else j + 1];
  }

  lemma DeleteAbs(s: State, s': State, t: nat, i: nat)
    requires Inv(s) && Inv(s') && t < |s.threads| && i < |s.chain| && Deletes(s, s', t, i)
    requires Found(s.heap, s.chain, s.threads[t]) && s.threads[t].pos == i
    ensures Abs(s') == Remove(Abs(s), s.threads[t].op.key)
  {
    DeleteContents(s.heap, s'.heap, s.chain, i);
    RemoveAt(Abs(s), s.threads[t].op.key, i);
  }

  lemma DeleteMatches(s: State, s': State, t: nat, i: nat)
    requires Inv(s) && Inv(s') && t < |s.threads| && i < |s.chain| && Deletes(s, s', t, i)
    requires Found(s.heap, s.chain, s.threads[t]) && s.threads[t].pos == i && !s.threads[t].done &&
             !s.threads[t].pc.Idle?
    requires s.threads[t].result == NULL && Records(s, s', Effect(t, s.threads[t].op, NULL))
    ensures Matches(s, s', t)
  {
    DeleteAbs(s, s', t, i);
  }

  lemma TestMatches(s: State, t: nat)
    requires Inv(s) && t < |s.threads| && s.threads[t].pc.WalkTest? && Inv(TestNode(s, t))
    ensures Matches(s, TestNode(s, t), t)
  {
    var s', th := TestNode(s, t), s.threads[t];
    assert ThreadOk(s, t);
    SameContents(s, s');
    if th.curr == NULL {
      assert th.pos == |s.chain|;
      RemoveNone(Abs(s), th.op.key);
    }
  }

  lemma LoadElementMatches(s: State, t: nat)
    requires Inv(s) && t < |s.threads| && s.threads[t].pc.LookupLoadElement? && Inv(LoadElement(s, t))
    ensures Matches(s, LoadElement(s, t), t)
  {
    var s', th := LoadElement(s, t), s.threads[t];
    assert ThreadOk(s, t);
    SameContents(s, s');
    var abs := Abs(s);
    RemoveAt(abs, th.op.key, th.pos);
    assert KeyedLists.Result(abs, th.op) == s.heap[th.curr].element && Apply(abs, th.op) == abs;
  }

  lemma BypassMatches(s: State, t: nat, c: Choice)
    requires Inv(s) && t < |s.threads| && (s.threads[t].pc.DeleteStoreHead? || s.threads[t].pc.DeleteStorePrev?)
    requires Inv(Step(s, t, c))
    ensures Matches(s, Step(s, t, c), t)
  {
    assert ThreadOk(s, t);
    if s.threads[t].pc.DeleteStoreHead? {
      BypassHeadStep(s, t);
      DeleteMatches(s, Step(s, t, c), t, 0);
    } else {
      BypassNextStep(s, t);
      DeleteMatches(s, Step(s, t, c), t, s.threads[t].pos);
    }
  }

  lemma QuietBefore(s: State, t: nat, c: Choice)
    requires Inv(s) && t < |s.threads| && Inv(Step(s, t, c))
    requires s.threads[t].pc in {InsertMalloc, InsertKey, InsertElement, Acquire}
    ensures Matches(s, Step(s, t, c), t)
  {
    assert ThreadOk(s, t);
    Quiet(s, Step(s, t, c), t);
  }

  lemma QuietAfter(s: State, t: nat, c: Choice)
    requires Inv(s) && t < |s.threads| && Inv(Step(s, t, c))
    requires s.threads[t].pc in {FreeTest, FreeStoreNext, FreeNode}
    ensures Matches(s, Step(s, t, c), t)
  {
    assert ThreadOk(s, t);
    Quiet(s, Step(s, t, c), t);
  }

  lemma QuietOutside(s: State, t: nat, c: Choice)
    requires Inv(s) && t < |s.threads| && Inv(Step(s, t, c))
    requires !Critical(s.threads[t].pc) && !s.threads[t].pc.Idle? && !s.threads[t].pc.Return?
    ensures Matches(s, Step(s, t, c), t)
  {
    if s.threads[t].pc in {InsertMalloc, InsertKey, InsertElement, Acquire} {
      QuietBefore(s, t, c);
    } else {
      QuietAfter(s, t, c);
    }
  }

  lemma QuietInside(s: State, t: nat, c: Choice)
    requires Inv(s) && t < |s.threads| && Inv(Step(s, t, c)) && Critical(s.threads[t].pc)
    requires !s.threads[t].pc.InsertStoreHead? && !s.threads[t].pc.WalkTest? && !s.threads[t].pc.LookupLoadElement?
    requires !s.threads[t].pc.DeleteStoreHead? && !s.threads[t].pc.DeleteStorePrev?
    ensures Matches(s, Step(s, t, c), t)
  {
    assert ThreadOk(s, t);
    Quiet(s, Step(s, t, c), t);
  }

  lemma CallMatches(s: State, t: nat, c: Choice)
    requires Inv(s) && t < |s.threads| && Inv(Step(s, t, c)) && (s.threads[t].pc.Idle? || s.threads[t].pc.Return?)
    ensures Matches(s, Step(s, t, c), t)
  {
    assert ThreadOk(s, t);
    SameContents(s, Step(s, t, c));
  }

  lemma StepMatches(s: State, t: nat, c: Choice)
    requires Inv(s) && t < |s.threads|
    ensures Inv(Step(s, t, c)) && Matches(s, Step(s, t, c), t)
  {
    StepKeepsInv(s, t, c);
    var pc := s.threads[t].pc;
    if pc.InsertStoreHead? { PublishMatches(s, t); }
    else if pc.WalkTest? { TestMatches(s, t); }
    else if pc.LookupLoadElement? { LoadElementMatches(s, t); }
    else if pc.DeleteStoreHead? || pc.DeleteStorePrev? { BypassMatches(s, t, c); }
    else if pc.Idle? || pc.Return? { CallMatches(s, t, c); }
    else if Critical(pc) { QuietInside(s, t, c); }
    else { QuietOutside(s, t, c); }
  }

  // ---------- Every execution ----------

  lemma StartHistInv(n: nat)
    ensures HistInv(Start(n))
  {
    StartInv(n);
  }

  lemma {:induction false} ExecuteKeeps(s: State, turns: seq<Turn>)
    requires HistInv(s)
    ensures HistInv(Execute(s, turns))
    decreases |turns|
  {
    if turns != [] {
      var t := turns[0].tid;
      if t < |s.threads| {
        var s' := Step(s, t, turns[0].choice);
        StepMatches(s, t, turns[0].choice);
        MatchesKeeps(s, s', t);
        ExecuteKeeps(s', turns[1..]);
      } else {
        ExecuteKeeps(s, turns[1..]);
      }
    }
  }

  /** For any number of threads, any operations and any interleaving: no thread ever touches a
      node that is not allocated, at most one thread is between acquire and release, and the
      history is linearized to a sequential run whose outcome is what the nodes hold. */
  lemma EveryExecution(n: nat, turns: seq<Turn>)
    ensures var s := Execute(Start(n), turns);
            Inv(s) && !s.fault && Linearized(s.hist) && Abs(s) == Spec(s.hist) &&
            (forall t, u :: 0 <= t < u < |s.threads| ==> !(Critical(s.threads[t].pc) && Critical(s.threads[u].pc)))
  {
    StartHistInv(n);
    ExecuteKeeps(Start(n), turns);
    var s := Execute(Start(n), turns);
    forall t: nat
      ensures PhaseOf(s.hist, t) != Broken
    {
      assert PhaseOf(s.hist, t) == if t < |s.threads| then Expected(s.threads[t]) else Ready;
    }
  }

  /** When no operation is in progress the allocated nodes are exactly the nodes on the list. */
  lemma NoLeak(s: State)
    requires Inv(s) && forall t :: 0 <= t < |s.threads| ==> s.threads[t].pc.Idle?
    ensures s.heap.Keys == set a | a in s.chain
  {
    assert forall t :: 0 <= t < |s.threads| ==> Own(s.threads[t]) == NULL;
    forall a | a in s.heap
      ensures a in s.chain
    {
    }
  }
}
