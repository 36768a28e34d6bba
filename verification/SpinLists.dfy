/** p4-final/handin/list.c under p4-final/handin/spin.c, run by any number of threads.

    A state holds the shared words (the lock flag, the list head, the allocated nodes) and each
    thread's program counter and local variables.  One step is one exchange, one load or store of
    a shared word, one malloc, one free, or one local test; steps of different threads interleave
    arbitrarily (sequential consistency).  The fields `owner`, `chain` and `hist`, the field `home`
    of a node and the fields `pos` and `done` of a thread are auxiliary: no step's effect on the
    other fields depends on them. */
module SpinLists {
  import opened KeyedLists

  datatype Node = Node(key: Key, element: Element, next: nat, home: int)

  datatype PC =
    | Idle
    | InsertMalloc | InsertKey | InsertElement
    | Acquire
    | InsertLoadHead | InsertStoreNext | InsertStoreHead
    | WalkLoadHead | WalkTest | WalkLoadKey | WalkHop
    | DeleteLoadHead | DeleteLoadNext(first: bool) | DeleteStoreHead | DeleteStorePrev
    | LookupLoadElement
    | Release
    | FreeTest | FreeStoreNext | FreeNode
    | Return

  /** `node`, `prev` and `curr` are the pointers of the C code (0 is NULL), `reg` a register.
      While the thread walks, `pos` is the position of `curr` on the list. */
  datatype Thread = Thread(pc: PC, op: Op, node: nat, prev: nat, curr: nat, reg: nat, result: Element,
                           pos: nat, done: bool)

  /** A call, the moment it takes effect, and its return. */
  datatype Event =
    | Call(tid: nat, op: Op)
    | Effect(tid: nat, op: Op, result: Element)
    | Ret(tid: nat, op: Op, result: Element)

  datatype State = State(flag: nat, head: nat, heap: map<nat, Node>, threads: seq<Thread>, fault: bool,
                         owner: int, chain: seq<nat>, hist: seq<Event>)

  /** What a step cannot decide for itself: the next operation of an idle thread, the address
      malloc returns, and the junk in the node it returns. */
  datatype Choice = Choice(op: Op, addr: nat, junk: Node)

  // ---------- Steps ----------

  function Move(s: State, t: nat, th: Thread): State
    requires t < |s.threads|
  {
    s.(threads := s.threads[t := th])
  }

  function Record(s: State, e: Event): State {
    s.(hist := s.hist + [e])
  }

  /** The operation takes effect: record it, and go on to release the lock. */
  function TakeEffect(s: State, t: nat, th: Thread): State
    requires t < |s.threads|
  {
    Record(Move(s, t, th.(pc := Release, done := true)), Effect(t, th.op, th.result))
  }

  function Begin(s: State, t: nat, op: Op): State
    requires t < |s.threads|
  {
    var pc := if op.Insert? then InsertMalloc else Acquire;
    Record(Move(s, t, Thread(pc, op, NULL, NULL, NULL, NULL, NULL, 0, false)), Call(t, op))
  }

  function Malloc(s: State, t: nat, addr: nat, junk: Node): State
    requires t < |s.threads|
  {
    if addr == NULL || addr in s.heap then s
    else Move(s, t, s.threads[t].(pc := InsertKey, node := addr)).(heap := s.heap[addr := junk.(home := t)])
  }

  /** An access to a node that is not allocated is a fault. */
  function Fault(s: State): State {
    s.(fault := true)
  }

  function StoreKey(s: State, t: nat): State
    requires t < |s.threads|
  {
    var th := s.threads[t];
    if th.node !in s.heap then Fault(s)
    else Move(s, t, th.(pc := InsertElement)).(heap := s.heap[th.node := s.heap[th.node].(key := th.op.key)])
  }

  function StoreElement(s: State, t: nat): State
    requires t < |s.threads| && s.threads[t].op.Insert?
  {
    var th := s.threads[t];
    if th.node !in s.heap then Fault(s)
    else Move(s, t, th.(pc := Acquire)).(heap := s.heap[th.node := s.heap[th.node].(element := th.op.element)])
  }

  /** One iteration of the spin loop: xchg(&flag, 1), and leave the loop if it returned 0. */
  function Xchg(s: State, t: nat): State
    requires t < |s.threads|
  {
    var th := s.threads[t];
    if s.flag == 1 then s.(flag := 1)
    else Move(s, t, th.(pc := if th.op.Insert? then InsertLoadHead else WalkLoadHead)).(flag := 1, owner := t)
  }

  function StoreNext(s: State, t: nat): State
    requires t < |s.threads|
  {
    var th := s.threads[t];
    if th.node !in s.heap then Fault(s)
    else Move(s, t, th.(pc := InsertStoreHead)).(heap := s.heap[th.node := s.heap[th.node].(next := th.reg)])
  }

  function PublishNode(s: State, t: nat): State
    requires t < |s.threads|
  {
    var th := s.threads[t];
    var heap := if th.node in s.heap then s.heap[th.node := s.heap[th.node].(home := -1)] else s.heap;
    TakeEffect(s.(head := th.node, heap := heap, chain := [th.node] + s.chain), t, th)
  }

  function TestNode(s: State, t: nat): State
    requires t < |s.threads|
  {
    var th := s.threads[t];
    if th.curr == NULL then TakeEffect(s, t, th) else Move(s, t, th.(pc := WalkLoadKey))
  }

  function CompareKey(s: State, t: nat): State
    requires t < |s.threads|
  {
    var th := s.threads[t];
    if th.curr !in s.heap then Fault(s)
    else if s.heap[th.curr].key == th.op.key then
      Move(s, t, th.(pc := if th.op.Delete? then DeleteLoadHead else LookupLoadElement))
    else Move(s, t, th.(pc := WalkHop, prev := th.curr))
  }

  function Hop(s: State, t: nat): State
    requires t < |s.threads|
  {
    var th := s.threads[t];
    if th.curr !in s.heap then Fault(s)
    else Move(s, t, th.(pc := WalkTest, curr := s.heap[th.curr].next, pos := th.pos + 1))
  }

  function LoadNext(s: State, t: nat, first: bool): State
    requires t < |s.threads|
  {
    var th := s.threads[t];
    if th.curr !in s.heap then Fault(s)
    else Move(s, t, th.(pc := if first then DeleteStoreHead else DeleteStorePrev, reg := s.heap[th.curr].next))
  }

  /** Auxiliary: the node at the thread's position leaves the list. */
  function Unlinked(s: State, t: nat): State
    requires t < |s.threads|
  {
    var th := s.threads[t];
    s.(chain := if th.pos < |s.chain| then s.chain[..th.pos] + s.chain[th.pos + 1..] else s.chain,
       heap := if th.curr in s.heap then s.heap[th.curr := s.heap[th.curr].(home := t)] else s.heap)
  }

  function BypassHead(s: State, t: nat): State
    requires t < |s.threads|
  {
    TakeEffect(Unlinked(s.(head := s.threads[t].reg), t), t, s.threads[t])
  }

  function BypassNext(s: State, t: nat): State
    requires t < |s.threads|
  {
    var th := s.threads[t];
    if th.prev !in s.heap then Fault(s)
    else TakeEffect(Unlinked(s.(heap := s.heap[th.prev := s.heap[th.prev].(next := th.reg)]), t), t, th)
  }

  function LoadElement(s: State, t: nat): State
    requires t < |s.threads|
  {
    var th := s.threads[t];
    if th.curr !in s.heap then Fault(s)
    else TakeEffect(s, t, th.(result := s.heap[th.curr].element))
  }

  function Unlock(s: State, t: nat): State
    requires t < |s.threads|
  {
    var th := s.threads[t];
    Move(s, t, th.(pc := if th.op.Delete? then FreeTest else Return)).(flag := 0, owner := -1)
  }

  function ClearNext(s: State, t: nat): State
    requires t < |s.threads|
  {
    var th := s.threads[t];
    if th.curr !in s.heap then Fault(s)
    else Move(s, t, th.(pc := FreeNode)).(heap := s.heap[th.curr := s.heap[th.curr].(next := NULL)])
  }

  function Free(s: State, t: nat): State
    requires t < |s.threads|
  {
    var th := s.threads[t];
    if th.curr !in s.heap then Fault(s)
    else Move(s, t, th.(pc := Return)).(heap := s.heap - {th.curr})
  }

  /** One step of thread `t`. */
  function Step(s: State, t: nat, c: Choice): State
    requires t < |s.threads|
  {
    var th := s.threads[t];
    match th.pc
    case Idle => Begin(s, t, c.op)
    case InsertMalloc => Malloc(s, t, c.addr, c.junk)
    case InsertKey => StoreKey(s, t)
    case InsertElement => if th.op.Insert? then StoreElement(s, t) else s
    case Acquire => Xchg(s, t)
    case InsertLoadHead => Move(s, t, th.(pc := InsertStoreNext, reg := s.head))
    case InsertStoreNext => StoreNext(s, t)
    case InsertStoreHead => PublishNode(s, t)
    case WalkLoadHead => Move(s, t, th.(pc := WalkTest, curr := s.head, prev := NULL, pos := 0))
    case WalkTest => TestNode(s, t)
    case WalkLoadKey => CompareKey(s, t)
    case WalkHop => Hop(s, t)
    case DeleteLoadHead => Move(s, t, th.(pc := DeleteLoadNext(s.head == th.curr)))
    case DeleteLoadNext(first) => LoadNext(s, t, first)
    case DeleteStoreHead => BypassHead(s, t)
    case DeleteStorePrev => BypassNext(s, t)
    case LookupLoadElement => LoadElement(s, t)
    case Release => Unlock(s, t)
    case FreeTest => Move(s, t, th.(pc := if th.curr != NULL then FreeStoreNext else Return))
    case FreeStoreNext => ClearNext(s, t)
    case FreeNode => Free(s, t)
    case Return => Record(Move(s, t, th.(pc := Idle, result := NULL, done := false)), Ret(t, th.op, th.result))
  }

  /** List_Init, and `n` threads that have not called anything. */
  function Start(n: nat): State {
    var idle := Thread(Idle, Lookup(0), NULL, NULL, NULL, NULL, NULL, 0, false);
    State(0, NULL, map[], seq(n, _ => idle), false, -1, [], [])
  }

  /** An interleaving: which thread moves, and what it is given, at each step. */
  datatype Turn = Turn(tid: nat, choice: Choice)

  function Execute(s: State, turns: seq<Turn>): State
    decreases |turns|
  {
    if turns == [] then s
    else
      var next := if turns[0].tid < |s.threads| then Step(s, turns[0].tid, turns[0].choice) else s;
      Execute(next, turns[1..])
  }

  // ---------- Invariants ----------

  predicate Critical(pc: PC) {
    match pc
    case InsertLoadHead | InsertStoreNext | InsertStoreHead | WalkLoadHead | WalkTest | WalkLoadKey | WalkHop => true
    case DeleteLoadHead | DeleteLoadNext(_) | DeleteStoreHead | DeleteStorePrev | LookupLoadElement | Release => true
    case _ => false
  }

  /** At most one thread is between acquire and release: the owner. */
  ghost predicate LockOk(s: State) {
    && -1 <= s.owner < |s.threads|
    && s.flag == (if s.owner == -1 then 0 else 1)
    && (forall t :: 0 <= t < |s.threads| ==> (Critical(s.threads[t].pc) <==> t == s.owner))
  }

  function Nth(chain: seq<nat>, i: nat): nat {
    if i < |chain| then chain[i] else NULL
  }

  /** The nodes reachable from `head` are exactly `chain`: allocated, distinct, on the list. */
  ghost predicate ChainOk(head: nat, heap: map<nat, Node>, chain: seq<nat>) {
    && head == Nth(chain, 0)
    && NULL !in heap
    && (forall i :: 0 <= i < |chain| ==>
          chain[i] in heap && heap[chain[i]].home == -1 && heap[chain[i]].next == Nth(chain, i + 1))
    && (forall i, j :: 0 <= i < j < |chain| ==> chain[i] != chain[j])
  }

  /** The node a thread holds privately: one not yet inserted, or one unlinked and not yet freed. */
  function Own(th: Thread): nat {
    match th.pc
    case InsertKey | InsertElement | InsertLoadHead | InsertStoreNext | InsertStoreHead => th.node
    case Acquire => if th.op.Insert? then th.node else NULL
    case Release | FreeTest | FreeStoreNext | FreeNode => if th.op.Delete? then th.curr else NULL
    case _ => NULL
  }

  /** Every allocated node is on the list or private to one unfinished operation: nothing leaks. */
  ghost predicate HomeOk(heap: map<nat, Node>, chain: seq<nat>, threads: seq<Thread>) {
    forall a :: a in heap ==>
      if heap[a].home == -1 then a in chain
      else 0 <= heap[a].home < |threads| && Own(threads[heap[a].home]) == a
  }

  predicate LocalOk(th: Thread) {
    && (th.done <==> th.pc in {Release, FreeTest, FreeStoreNext, FreeNode, Return})
    && (!th.done || !th.op.Lookup? ==> th.result == NULL)
    && (match th.pc
        case Idle | Acquire | Release | Return => true
        case InsertMalloc | InsertKey | InsertElement => th.op.Insert?
        case InsertLoadHead | InsertStoreNext | InsertStoreHead => th.op.Insert?
        case WalkLoadHead | WalkTest | WalkLoadKey | WalkHop => !th.op.Insert?
        case DeleteLoadHead | DeleteLoadNext(_) | DeleteStoreHead | DeleteStorePrev | FreeTest => th.op.Delete?
        case FreeStoreNext | FreeNode => th.op.Delete? && th.curr != NULL
        case LookupLoadElement => th.op.Lookup?)
  }

  ghost predicate PrivateOk(heap: map<nat, Node>, th: Thread, t: nat) {
    && (Own(th) != NULL ==> Own(th) in heap && heap[Own(th)].home == t)
    && (th.op.Insert? &&
        th.pc in {InsertKey, InsertElement, Acquire, InsertLoadHead, InsertStoreNext, InsertStoreHead} ==>
          th.node != NULL && th.node in heap
          && (th.pc != InsertKey ==> heap[th.node].key == th.op.key)
          && (th.pc != InsertKey && th.pc != InsertElement ==> heap[th.node].element == th.op.element)
          && (th.pc == InsertStoreHead ==> heap[th.node].next == th.reg))
  }

  /** The walk has passed `pos` nodes, none with the key, and stands at the next. */
  ghost predicate Walking(heap: map<nat, Node>, chain: seq<nat>, th: Thread) {
    && th.pos <= |chain|
    && th.curr == Nth(chain, th.pos)
    && (forall i :: 0 <= i < th.pos ==> chain[i] in heap && heap[chain[i]].key != th.op.key)
  }

  ghost predicate Found(heap: map<nat, Node>, chain: seq<nat>, th: Thread) {
    && Walking(heap, chain, th) && th.pos < |chain|
    && (th.pos > 0 ==> th.prev == chain[th.pos - 1])
    && th.curr in heap && heap[th.curr].key == th.op.key
  }

  ghost predicate SharedOk(head: nat, heap: map<nat, Node>, chain: seq<nat>, th: Thread) {
    match th.pc
    case InsertStoreNext | InsertStoreHead => th.reg == head
    case WalkTest => Walking(heap, chain, th) && (th.pos > 0 ==> th.prev == chain[th.pos - 1])
    case WalkLoadKey => Walking(heap, chain, th) && th.pos < |chain| && (th.pos > 0 ==> th.prev == chain[th.pos - 1])
    case WalkHop => Walking(heap, chain, th) && th.pos < |chain| && th.prev == th.curr &&
                    th.curr in heap && heap[th.curr].key != th.op.key
    case DeleteLoadHead | LookupLoadElement => Found(heap, chain, th)
    case DeleteLoadNext(first) => Found(heap, chain, th) && first == (th.pos == 0)
    case DeleteStoreHead => Found(heap, chain, th) && th.pos == 0 && th.reg == heap[th.curr].next
    case DeleteStorePrev => Found(heap, chain, th) && th.pos > 0 && th.reg == heap[th.curr].next
    case _ => true
  }

  ghost predicate ThreadOk(s: State, t: nat)
    requires t < |s.threads|
  {
    var th := s.threads[t];
    LocalOk(th) && PrivateOk(s.heap, th, t) && (Critical(th.pc) ==> SharedOk(s.head, s.heap, s.chain, th))
  }

  ghost predicate Inv(s: State) {
    && !s.fault
    && LockOk(s)
    && ChainOk(s.head, s.heap, s.chain)
    && HomeOk(s.heap, s.chain, s.threads)
    && (forall t :: 0 <= t < |s.threads| ==> ThreadOk(s, t))
  }

  lemma StartInv(n: nat)
    ensures Inv(Start(n))
  {
  }

  // ---------- Frames ----------

  ghost predicate SameChain(s: State, s': State) {
    && s'.head == s.head && s'.chain == s.chain
    && (forall i :: 0 <= i < |s.chain| ==>
          s.chain[i] in s'.heap && s.chain[i] in s.heap && s'.heap[s.chain[i]] == s.heap[s.chain[i]])
  }

  /** A thread that does not move keeps its assertions when its private node is not written and,
      if it is the owner, neither is the list. */
  lemma OtherOk(s: State, s': State, u: nat)
    requires u < |s.threads| == |s'.threads| && s'.threads[u] == s.threads[u] && ThreadOk(s, u)
    requires var a := Own(s.threads[u]); a != NULL ==> a in s.heap && a in s'.heap && s'.heap[a] == s.heap[a]
    requires Critical(s.threads[u].pc) ==> SameChain(s, s')
    ensures ThreadOk(s', u)
  {
  }

  /** A step that changes local variables only. */
  lemma LocalStep(s: State, s': State, t: nat, th: Thread)
    requires Inv(s) && t < |s.threads|
    requires s'.(hist := s.hist) == s.(threads := s.threads[t := th])
    requires Critical(th.pc) == Critical(s.threads[t].pc) && Own(th) == Own(s.threads[t])
    requires ThreadOk(s', t)
    ensures Inv(s')
  {
    forall u | 0 <= u < |s'.threads|
      ensures ThreadOk(s', u)
    {
      if u != t { OtherOk(s, s', u); }
    }
  }

  /** Writing a node that is not on the list, allocated or not. */
  lemma PrivateChain(head: nat, heap: map<nat, Node>, chain: seq<nat>, a: nat, n: Node)
    requires ChainOk(head, heap, chain) && a != NULL && (a in heap ==> heap[a].home != -1)
    ensures ChainOk(head, heap[a := n], chain)
  {
  }

  lemma PrivateHome(heap: map<nat, Node>, chain: seq<nat>, threads: seq<Thread>, t: nat, th: Thread, n: Node)
    requires HomeOk(heap, chain, threads) && t < |threads| && n.home == t
    requires Own(threads[t]) == Own(th) || (Own(threads[t]) == NULL && NULL !in heap)
    ensures HomeOk(heap[Own(th) := n], chain, threads[t := th])
  {
  }

  /** A step that writes the thread's private node. */
  lemma PrivateStep(s: State, s': State, t: nat, th: Thread, n: Node)
    requires Inv(s) && t < |s.threads| && Own(th) != NULL && n.home == t
    requires s' == s.(threads := s.threads[t := th], heap := s.heap[Own(th) := n])
    requires Own(s.threads[t]) == Own(th) || (Own(s.threads[t]) == NULL && Own(th) !in s.heap)
    requires Critical(th.pc) == Critical(s.threads[t].pc)
    requires ThreadOk(s', t)
    ensures Inv(s')
  {
    assert ThreadOk(s, t);
    PrivateChain(s.head, s.heap, s.chain, Own(th), n);
    PrivateHome(s.heap, s.chain, s.threads, t, th, n);
    forall u | 0 <= u < |s'.threads|
      ensures ThreadOk(s', u)
    {
      if u != t { OtherOk(s, s', u) by { assert ThreadOk(s, u); } }
    }
  }

  /** A node that is not on the list can be freed. */
  lemma FreeChain(head: nat, heap: map<nat, Node>, chain: seq<nat>, a: nat)
    requires ChainOk(head, heap, chain) && a in heap && heap[a].home != -1
    ensures ChainOk(head, heap - {a}, chain)
  {
  }

  lemma FreeHome(heap: map<nat, Node>, chain: seq<nat>, threads: seq<Thread>, t: nat, th: Thread)
    requires HomeOk(heap, chain, threads) && t < |threads|
    ensures HomeOk(heap - {Own(threads[t])}, chain, threads[t := th])
  {
  }

  lemma FreeStep(s: State, t: nat)
    requires Inv(s) && t < |s.threads| && s.threads[t].pc.FreeNode?
    ensures Inv(Free(s, t))
  {
    var s', a := Free(s, t), s.threads[t].curr;
    assert ThreadOk(s, t);
    FreeChain(s.head, s.heap, s.chain, a);
    FreeHome(s.heap, s.chain, s.threads, t, s'.threads[t]);
    assert s'.heap == s.heap - {a};
    forall u | 0 <= u < |s'.threads|
      ensures ThreadOk(s', u)
    {
      if u != t { OtherOk(s, s', u) by { assert ThreadOk(s, u); } }
    }
  }

  lemma XchgStep(s: State, t: nat)
    requires Inv(s) && t < |s.threads| && s.threads[t].pc.Acquire?
    ensures Inv(Xchg(s, t))
  {
    var s' := Xchg(s, t);
    assert ThreadOk(s, t);
    forall u | 0 <= u < |s'.threads|
      ensures ThreadOk(s', u)
    {
      if u != t { OtherOk(s, s', u) by { assert ThreadOk(s, u); } }
    }
  }

  lemma UnlockStep(s: State, t: nat)
    requires Inv(s) && t < |s.threads| && s.threads[t].pc.Release?
    ensures Inv(Unlock(s, t))
  {
    var s' := Unlock(s, t);
    assert ThreadOk(s, t);
    forall u | 0 <= u < |s'.threads|
      ensures ThreadOk(s', u)
    {
      if u != t { OtherOk(s, s', u) by { assert ThreadOk(s, u); } }
    }
  }

  /** The owner changes the list: everyone else only needs their private nodes left alone. */
  lemma OwnerStep(s: State, s': State, t: nat)
    requires Inv(s) && t < |s.threads| && t == s.owner == s'.owner && s'.flag == s.flag && !s'.fault
    requires |s'.threads| == |s.threads| && s'.threads == s.threads[t := s'.threads[t]] && Critical(s'.threads[t].pc)
    requires forall a :: a in s.heap && s.heap[a].home != t && s.heap[a].home != -1 ==>
               a in s'.heap && s'.heap[a] == s.heap[a]
    requires ChainOk(s'.head, s'.heap, s'.chain) && HomeOk(s'.heap, s'.chain, s'.threads)
    requires ThreadOk(s', t)
    ensures Inv(s')
  {
    forall u | 0 <= u < |s'.threads|
      ensures ThreadOk(s', u)
    {
      if u != t { OtherOk(s, s', u) by { assert ThreadOk(s, u); } }
    }
  }

  /** A node that leads to the head becomes the head. */
  lemma PublishChain(head: nat, heap: map<nat, Node>, chain: seq<nat>, a: nat)
    requires ChainOk(head, heap, chain) && a in heap && heap[a].home != -1 && heap[a].next == head
    ensures ChainOk(a, heap[a := heap[a].(home := -1)], [a] + chain)
  {
    var c := [a] + chain;
    assert forall i :: 0 < i < |c| ==> c[i] == chain[i - 1];
    assert forall i: nat :: Nth(c, i + 1) == Nth(chain, i);
  }

  lemma PublishHome(heap: map<nat, Node>, chain: seq<nat>, threads: seq<Thread>, t: nat, th: Thread)
    requires HomeOk(heap, chain, threads) && t < |threads| && Own(threads[t]) in heap
    ensures var a := Own(threads[t]); HomeOk(heap[a := heap[a].(home := -1)], [a] + chain, threads[t := th])
  {
    var a := Own(threads[t]);
    assert forall b :: b in chain ==> b in [a] + chain;
  }

  lemma PublishStep(s: State, t: nat)
    requires Inv(s) && t < |s.threads| && s.threads[t].pc.InsertStoreHead?
    ensures Inv(PublishNode(s, t))
  {
    var s', a := PublishNode(s, t), s.threads[t].node;
    assert ThreadOk(s, t);
    PublishChain(s.head, s.heap, s.chain, a);
    PublishHome(s.heap, s.chain, s.threads, t, s'.threads[t]);
    OwnerStep(s, s', t);
  }

  lemma UnlinkDistinct(chain: seq<nat>, i: nat)
    requires i < |chain| && forall j, k :: 0 <= j < k < |chain| ==> chain[j] != chain[k]
    ensures var c := chain[..i] + chain[i + 1..]; forall j, k :: 0 <= j < k < |c| ==> c[j] != c[k]
  {
  }

  lemma UnlinkLink(chain: seq<nat>, i: nat, j: nat)
    requires i < |chain| && j < |chain| - 1
    ensures var c := chain[..i] + chain[i + 1..];
            c[j] == chain[if j < i then j else j + 1] && Nth(c, j + 1) == Nth(chain, if j + 1 < i then j + 1 else j + 2)
  {
  }

  /** Removing position `i` of the chain, when the link before it already leads past it. */
  lemma UnlinkChain(head: nat, head': nat, heap: map<nat, Node>, heap': map<nat, Node>, chain: seq<nat>, i: nat, t: nat)
    requires ChainOk(head, heap, chain) && i < |chain|
    requires heap'.Keys == heap.Keys
    requires head' == if i == 0 then Nth(chain, 1) else head
    requires forall j :: 0 <= j < |chain| && j != i ==>
               heap'[chain[j]] == if j + 1 == i then heap[chain[j]].(next := Nth(chain, i + 1)) else heap[chain[j]]
    ensures ChainOk(head', heap', chain[..i] + chain[i + 1..])
  {
    var c := chain[..i] + chain[i + 1..];
    UnlinkDistinct(chain, i);
    forall j | 0 <= j < |c|
      ensures c[j] in heap' && heap'[c[j]].home == -1 && heap'[c[j]].next == Nth(c, j + 1)
    {
      UnlinkLink(chain, i, j);
      assert heap[c[j]].next == Nth(chain, if j < i then j + 1 else j + 2);
    }
  }

  lemma UnlinkHome(s: State, s': State, t: nat, i: nat)
    requires HomeOk(s.heap, s.chain, s.threads) && NULL !in s.heap
    requires t < |s.threads| && i < |s.chain| && s.chain[i] in s.heap && Own(s.threads[t]) == NULL
    requires s'.heap.Keys == s.heap.Keys && s'.chain == s.chain[..i] + s.chain[i + 1..]
    requires forall a :: a in s.heap && a != s.chain[i] ==> s'.heap[a].home == s.heap[a].home
    requires s'.heap[s.chain[i]].home == t
    requires |s'.threads| == |s.threads| && s'.threads == s.threads[t := s'.threads[t]]
    requires Own(s'.threads[t]) == s.chain[i]
    ensures HomeOk(s'.heap, s'.chain, s'.threads)
  {
    forall b | b in s'.heap
      ensures if s'.heap[b].home == -1 then b in s'.chain
              else 0 <= s'.heap[b].home < |s'.threads| && Own(s'.threads[s'.heap[b].home]) == b
    {
      if s.heap[b].home == -1 && b != s.chain[i] {
        var j :| 0 <= j < |s.chain| && s.chain[j] == b;
        assert s'.chain[if j < i then j else j - 1] == b;
      }
    }
  }

  /** What either deletion store does: position `i` leaves the list and becomes private. */
  ghost predicate Deletes(s: State, s': State, t: nat, i: nat)
    requires t < |s.threads| && i < |s.chain|
  {
    var th, a := s.threads[t], s.chain[i];
    && th.curr == a && a in s.heap && th.op.Delete?
    && s'.threads == s.threads[t := th.(pc := Release, done := true)]
    && s'.flag == s.flag && s'.owner == s.owner && s'.fault == s.fault
    && s'.chain == s.chain[..i] + s.chain[i + 1..]
    && s'.head == (if i == 0 then Nth(s.chain, 1) else s.head)
    && s'.heap.Keys == s.heap.Keys
    && s'.heap[a] == s.heap[a].(home := t)
    && (forall b :: b in s.heap && b != a && (i == 0 || b != s.chain[i - 1]) ==> s'.heap[b] == s.heap[b])
    && (i > 0 ==>
          s.chain[i - 1] in s.heap &&
          s'.heap[s.chain[i - 1]] == s.heap[s.chain[i - 1]].(next := Nth(s.chain, i + 1)))
  }

  lemma DeletesChain(s: State, s': State, t: nat, i: nat)
    requires t < |s.threads| && i < |s.chain| && Deletes(s, s', t, i) && ChainOk(s.head, s.heap, s.chain)
    ensures ChainOk(s'.head, s'.heap, s'.chain)
  {
    var a := s.chain[i];
    assert s.heap[a].home == -1 && (i > 0 ==> s.chain[i - 1] != a && s.heap[s.chain[i - 1]].home == -1);
    UnlinkChain(s.head, s'.head, s.heap, s'.heap, s.chain, i, t);
  }

  lemma DeleterOwns(th: Thread)
    requires th.op.Delete?
    ensures Own(th.(pc := Release, done := true)) == th.curr
  {
  }

  lemma DeletesHome(s: State, s': State, t: nat, i: nat)
    requires Inv(s) && t < |s.threads| && i < |s.chain| && Deletes(s, s', t, i) && Own(s.threads[t]) == NULL
    ensures HomeOk(s'.heap, s'.chain, s'.threads)
  {
    assert i > 0 ==> s.chain[i - 1] != s.chain[i];
    forall a | a in s.heap && a != s.chain[i]
      ensures s'.heap[a].home == s.heap[a].home
    {
      if i > 0 && a == s.chain[i - 1] {
        assert s'.heap[a].home == s.heap[a].home;
      } else {
        assert s'.heap[a] == s.heap[a];
      }
    }
    DeleterOwns(s.threads[t]);
    UnlinkHome(s, s', t, i);
  }

  lemma DeletesKeeps(s: State, s': State, t: nat, i: nat)
    requires Inv(s) && t < |s.threads| && t == s.owner && i < |s.chain| && Deletes(s, s', t, i)
    requires Own(s.threads[t]) == NULL && s.threads[t].result == NULL
    ensures Inv(s')
  {
    DeletesChain(s, s', t, i);
    DeletesHome(s, s', t, i);
    assert s.chain[i] != NULL && ThreadOk(s', t);
    assert i > 0 ==> s.heap[s.chain[i - 1]].home == -1;
    OwnerStep(s, s', t);
  }

  lemma BypassHeadStep(s: State, t: nat)
    requires Inv(s) && t < |s.threads| && s.threads[t].pc.DeleteStoreHead?
    ensures |s.chain| > 0 && Deletes(s, BypassHead(s, t), t, 0)
    ensures Inv(BypassHead(s, t))
  {
    assert ThreadOk(s, t);
    assert Deletes(s, BypassHead(s, t), t, 0);
    DeletesKeeps(s, BypassHead(s, t), t, 0);
  }

  lemma PreviousFound(head: nat, heap: map<nat, Node>, chain: seq<nat>, th: Thread)
    requires SharedOk(head, heap, chain, th) && th.pc.DeleteStorePrev? && ChainOk(head, heap, chain)
    ensures 0 < th.pos < |chain| && th.curr == chain[th.pos] && th.curr in heap
    ensures th.prev == chain[th.pos - 1] && th.prev in heap && th.prev != th.curr
    ensures th.reg == Nth(chain, th.pos + 1)
  {
  }

  lemma BypassNextDeletes(s: State, t: nat)
    requires t < |s.threads| && s.threads[t].pc.DeleteStorePrev?
    requires ThreadOk(s, t) && ChainOk(s.head, s.heap, s.chain)
    ensures s.threads[t].pos < |s.chain| && Deletes(s, BypassNext(s, t), t, s.threads[t].pos)
  {
    PreviousFound(s.head, s.heap, s.chain, s.threads[t]);
    var th, s' := s.threads[t], BypassNext(s, t);
    var n, m := s.heap[th.prev].(next := th.reg), s.heap[th.curr].(home := t);
    assert s'.heap == s.heap[th.prev := n][th.curr := m];
    assert s'.heap[th.prev] == n && s'.heap[th.curr] == m && s'.heap.Keys == s.heap.Keys;
  }

  lemma BypassNextStep(s: State, t: nat)
    requires Inv(s) && t < |s.threads| && s.threads[t].pc.DeleteStorePrev?
    ensures s.threads[t].pos < |s.chain| && Deletes(s, BypassNext(s, t), t, s.threads[t].pos)
    ensures Inv(BypassNext(s, t))
  {
    assert ThreadOk(s, t);
    BypassNextDeletes(s, t);
    DeletesKeeps(s, BypassNext(s, t), t, s.threads[t].pos);
  }

  // ---------- Every step ----------

  lemma InsertSteps(s: State, t: nat, c: Choice)
    requires Inv(s) && t < |s.threads|
    requires s.threads[t].pc in {InsertMalloc, InsertKey, InsertElement, InsertLoadHead, InsertStoreNext}
    ensures Inv(Step(s, t, c))
  {
    var th, s' := s.threads[t], Step(s, t, c);
    assert ThreadOk(s, t);
    if th.pc.InsertMalloc? {
      if c.addr != NULL && c.addr !in s.heap {
        PrivateStep(s, s', t, s'.threads[t], c.junk.(home := t));
      }
    } else if th.pc.InsertLoadHead? {
      LocalStep(s, s', t, s'.threads[t]);
    } else {
      PrivateStep(s, s', t, s'.threads[t], s'.heap[th.node]);
    }
  }

  lemma WalkLoadHeadStep(s: State, t: nat, c: Choice)
    requires Inv(s) && t < |s.threads| && s.threads[t].pc.WalkLoadHead?
    ensures Inv(Step(s, t, c))
  {
    assert ThreadOk(s, t);
    LocalStep(s, Step(s, t, c), t, Step(s, t, c).threads[t]);
  }

  lemma WalkTestOk(s: State, t: nat, c: Choice)
    requires t < |s.threads| && s.threads[t].pc.WalkTest? && ThreadOk(s, t)
    ensures var s' := Step(s, t, c); |s'.threads| == |s.threads| && ThreadOk(s', t)
  {
  }

  lemma WalkTestStep(s: State, t: nat, c: Choice)
    requires Inv(s) && t < |s.threads| && s.threads[t].pc.WalkTest?
    ensures Inv(Step(s, t, c))
  {
    assert ThreadOk(s, t);
    WalkTestOk(s, t, c);
    LocalStep(s, Step(s, t, c), t, Step(s, t, c).threads[t]);
  }

  lemma WalkLoadKeyOk(s: State, t: nat, c: Choice) returns (th: Thread)
    requires t < |s.threads| && s.threads[t].pc.WalkLoadKey? && ThreadOk(s, t) && ChainOk(s.head, s.heap, s.chain)
    ensures Step(s, t, c) == s.(threads := s.threads[t := th]) && ThreadOk(Step(s, t, c), t)
    ensures Critical(th.pc) && Own(th) == Own(s.threads[t]) == NULL
  {
    var before := s.threads[t];
    assert before.curr == s.chain[before.pos];
    if s.heap[before.curr].key == before.op.key {
      th := before.(pc := if before.op.Delete? then DeleteLoadHead else LookupLoadElement);
    } else {
      th := before.(pc := WalkHop, prev := before.curr);
    }
    assert Step(s, t, c) == s.(threads := s.threads[t := th]);
    assert Walking(s.heap, s.chain, th);
  }

  lemma WalkLoadKeyStep(s: State, t: nat, c: Choice)
    requires Inv(s) && t < |s.threads| && s.threads[t].pc.WalkLoadKey?
    ensures Inv(Step(s, t, c))
  {
    assert ThreadOk(s, t);
    var th := WalkLoadKeyOk(s, t, c);
    LocalStep(s, Step(s, t, c), t, th);
  }

  lemma WalkHopStep(s: State, t: nat, c: Choice)
    requires Inv(s) && t < |s.threads| && s.threads[t].pc.WalkHop?
    ensures Inv(Step(s, t, c))
  {
    assert ThreadOk(s, t);
    LocalStep(s, Step(s, t, c), t, Step(s, t, c).threads[t]);
  }

  lemma DeleteLoadHeadStep(s: State, t: nat, c: Choice)
    requires Inv(s) && t < |s.threads| && s.threads[t].pc.DeleteLoadHead?
    ensures Inv(Step(s, t, c))
  {
    assert ThreadOk(s, t);
    LocalStep(s, Step(s, t, c), t, Step(s, t, c).threads[t]);
  }

  lemma DeleteLoadNextStep(s: State, t: nat, c: Choice)
    requires Inv(s) && t < |s.threads| && s.threads[t].pc.DeleteLoadNext?
    ensures Inv(Step(s, t, c))
  {
    assert ThreadOk(s, t);
    LocalStep(s, Step(s, t, c), t, Step(s, t, c).threads[t]);
  }

  lemma LookupLoadElementStep(s: State, t: nat, c: Choice)
    requires Inv(s) && t < |s.threads| && s.threads[t].pc.LookupLoadElement?
    ensures Inv(Step(s, t, c))
  {
    assert ThreadOk(s, t);
    LocalStep(s, Step(s, t, c), t, Step(s, t, c).threads[t]);
  }

  lemma IdleStep(s: State, t: nat, c: Choice)
    requires Inv(s) && t < |s.threads| && s.threads[t].pc.Idle?
    ensures Inv(Step(s, t, c))
  {
    assert ThreadOk(s, t);
    LocalStep(s, Step(s, t, c), t, Step(s, t, c).threads[t]);
  }

  lemma FreeTestStep(s: State, t: nat, c: Choice)
    requires Inv(s) && t < |s.threads| && s.threads[t].pc.FreeTest?
    ensures Inv(Step(s, t, c))
  {
    assert ThreadOk(s, t);
    LocalStep(s, Step(s, t, c), t, Step(s, t, c).threads[t]);
  }

  lemma ReturnStep(s: State, t: nat, c: Choice)
    requires Inv(s) && t < |s.threads| && s.threads[t].pc.Return?
    ensures Inv(Step(s, t, c))
  {
    assert ThreadOk(s, t);
    LocalStep(s, Step(s, t, c), t, Step(s, t, c).threads[t]);
  }

  lemma FreeStoreNextOk(s: State, t: nat, c: Choice) returns (th: Thread, n: Node)
    requires t < |s.threads| && s.threads[t].pc.FreeStoreNext? && ThreadOk(s, t)
    ensures Own(th) == Own(s.threads[t]) != NULL && n.home == t && th.pc.FreeNode? && ThreadOk(Step(s, t, c), t)
    ensures Step(s, t, c) == s.(threads := s.threads[t := th], heap := s.heap[Own(th) := n])
  {
    th := Step(s, t, c).threads[t];
    n := Step(s, t, c).heap[th.curr];
  }

  lemma FreeStoreNextStep(s: State, t: nat, c: Choice)
    requires Inv(s) && t < |s.threads| && s.threads[t].pc.FreeStoreNext?
    ensures Inv(Step(s, t, c))
  {
    assert ThreadOk(s, t);
    var th, n := FreeStoreNextOk(s, t, c);
    PrivateStep(s, Step(s, t, c), t, th, n);
  }

  lemma StepOutside(s: State, t: nat, c: Choice)
    requires Inv(s) && t < |s.threads| && !Critical(s.threads[t].pc)
    ensures Inv(Step(s, t, c))
  {
    match s.threads[t].pc
    case Idle => IdleStep(s, t, c);
    case FreeTest => FreeTestStep(s, t, c);
    case FreeStoreNext => FreeStoreNextStep(s, t, c);
    case Return => ReturnStep(s, t, c);
    case Acquire => XchgStep(s, t);
    case FreeNode => FreeStep(s, t);
    case InsertMalloc => InsertSteps(s, t, c);
    case InsertKey => InsertSteps(s, t, c);
    case InsertElement => InsertSteps(s, t, c);
  }

  lemma StepInside(s: State, t: nat, c: Choice)
    requires Inv(s) && t < |s.threads| && Critical(s.threads[t].pc)
    ensures Inv(Step(s, t, c))
  {
    match s.threads[t].pc
    case InsertLoadHead => InsertSteps(s, t, c);
    case InsertStoreNext => InsertSteps(s, t, c);
    case InsertStoreHead => PublishStep(s, t);
    case WalkLoadHead => WalkLoadHeadStep(s, t, c);
    case WalkTest => WalkTestStep(s, t, c);
    case WalkLoadKey => WalkLoadKeyStep(s, t, c);
    case WalkHop => WalkHopStep(s, t, c);
    case DeleteLoadHead => DeleteLoadHeadStep(s, t, c);
    case DeleteLoadNext(_) => DeleteLoadNextStep(s, t, c);
    case DeleteStoreHead => BypassHeadStep(s, t);
    case DeleteStorePrev => BypassNextStep(s, t);
    case LookupLoadElement => LookupLoadElementStep(s, t, c);
    case Release => UnlockStep(s, t);
  }

  /** Every step of every thread keeps the invariant: mutual exclusion, an intact list,
      no access to a node that is not allocated, no leak. */
  lemma StepKeepsInv(s: State, t: nat, c: Choice)
    requires Inv(s) && t < |s.threads|
    ensures Inv(Step(s, t, c))
  {
    if Critical(s.threads[t].pc) { StepInside(s, t, c); } else { StepOutside(s, t, c); }
  }
}
