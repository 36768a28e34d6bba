/** The queue of waiting requests of p5/server.c: linked nodes behind a sentinel, with a tail
    pointer.  Each method is proved against the sequence operations of module Scheduling. */
module WaitQueues {
  import opened Scheduling

  class Node {
    var request: Request
    var next: Node?

    constructor (r: Request)
      ensures request == r && next == null
    {
      request, next := r, null;
    }
  }

  class WaitQueue {
    var head: Node
    var tail: Node
    /** The sentinel and the nodes behind it. */
    ghost var spine: seq<Node>
    ghost var contents: seq<Request>

    ghost predicate Valid()
      reads this, spine
    {
      && |spine| == |contents| + 1
      && head == spine[0] && tail == spine[|spine| - 1] && tail.next == null
      && (forall i, j :: 0 <= i && j == i + 1 && j < |spine| ==> spine[i].next == spine[j])
      && (forall i, j :: 0 <= i < j < |spine| ==> spine[i] != spine[j])
      && (forall i, j :: 0 <= i && j == i + 1 && j < |spine| ==> spine[j].request == contents[i])
    }

    constructor ()
      ensures Valid() && contents == [] && fresh(spine)
    {
      var sentinel := new Node(Request(0, 0, false, 0, 0));
      head, tail := sentinel, sentinel;
      spine, contents := [sentinel], [];
    }

    /** Link `node` in behind the tail. */
    method Append(node: Node)
      requires Valid() && node !in spine && node.next == null
      modifies this, tail
      ensures Valid() && contents == InsertAt(old(contents), |old(contents)|, old(node.request))
      ensures spine == InsertAt(old(spine), |old(spine)|, node)
    {
      ghost var s, q, r := spine, contents, node.request;
      AtEnd(s, node);
      AtEnd(q, r);
      tail.next := node;
      tail := tail.next;
      spine := s + [node];
      contents := q + [r];
    }

    /** Link `node` in behind `tmp`, the node at position `i`, and move the tail if need be. */
    method InsertAfter(tmp: Node, node: Node, ghost i: nat)
      requires Valid() && i < |spine| && tmp == spine[i] && node !in spine && node.next == null
      modifies this, tmp, node
      ensures Valid() && contents == InsertAt(old(contents), i, old(node.request))
      ensures spine == InsertAt(old(spine), i + 1, node)
    {
      ghost var s, q, r := spine, contents, node.request;
      assert i + 1 < |s| ==> s[i].next == s[i + 1];
      node.next := tmp.next;
      tmp.next := node;
      if tmp.next.next == null {
        tail := tmp.next;
      }
      contents := InsertAt(q, i, r);
      spine := InsertAt(s, i + 1, node);
      InsertedAt(q, i, r);
      InsertedAt(s, i + 1, node);
      forall j, k | 0 <= j && k == j + 1 && k < |spine|
        ensures spine[j].next == spine[k]
      {
        if j > i + 1 { assert s[j - 1].next == s[k - 1]; }
      }
    }

    /** The insertion scan: past nodes no larger than the new one, at most `limit` of them. */
    method Scan(size: int, limit: int, bounded: bool) returns (tmp: Node, ghost i: nat)
      requires Valid()
      ensures i == if !bounded then Lead(contents, size)
                   else if limit < 0 then 0 else Min(Lead(contents, size), limit)
      ensures tmp == spine[if !bounded then Lead(contents, size)
                           else if limit < 0 then 0 else Min(Lead(contents, size), limit)]
    {
      tmp, i := head, 0;
      var count := 0;
      LeadFrom(contents, size, 0);
      while (!bounded || count < limit) && tmp.next != null && tmp.next.request.size <= size
        invariant i <= |contents| && tmp == spine[i] && count == i && (bounded ==> i == 0 || i <= limit)
        invariant Lead(contents, size) == i + Lead(contents[i..], size)
        decreases |contents| - i
      {
        LeadFrom(contents, size, i);
        tmp := tmp.next;
        i := i + 1;
        count := count + 1;
      }
      if i < |contents| { assert spine[i].next == spine[i + 1] && contents[i..][0] == contents[i]; }
    }

    /** queue_push: `r` is the node requestPreProcess has filled in. */
    method Push(policy: Policy, r: Request, served: nat, n: int)
      requires Valid() && (policy.SFFBS? ==> n != 0)
      modifies this, spine
      ensures Valid() && contents == InsertAt(old(contents), InsertIndex(policy, old(contents), r.size, served, n), r)
      ensures forall m :: m in spine ==> m in old(spine) || fresh(m)
    {
      var node := new Node(r);
      ghost var s := spine;
      match policy {
        case FIFO =>
          Append(node);
          Inserted(s, |s|, node);
        case SFF =>
          var tmp, i := Scan(r.size, 0, false);
          InsertAfter(tmp, node, i);
          Inserted(s, i + 1, node);
        case SFFBS =>
          var maxSearch := n - served % n;
          var tmp, i := Scan(r.size, maxSearch - 1, true);
          InsertAfter(tmp, node, i);
          Inserted(s, i + 1, node);
      }
    }

    /** queue_peek */
    method Peek() returns (r: Request)
      requires Valid() && contents != []
      ensures r == contents[0]
    {
      assert spine[0].next == spine[1];
      r := head.next.request;
    }

    /** queue_pop, which leaves an empty queue alone. */
    method Pop()
      requires Valid()
      modifies this, head
      ensures Valid() && contents == if old(contents) == [] then [] else old(contents)[1..]
      ensures forall m :: m in spine ==> m in old(spine)
    {
      assert |spine| > 1 ==> spine[0].next == spine[1];
      if head.next != null {
        assert |spine| > 2 ==> spine[1].next == spine[2];
        head.next := head.next.next;
        if head.next == null {
          tail := head;
        }
        spine := [spine[0]] + spine[2..];
        contents := contents[1..];
        assert forall j :: 0 < j < |spine| ==> spine[j] == old(spine)[j + 1];
      }
    }
  }

  /** The leading run, counted from position `i`. */
  lemma LeadFrom(q: seq<Request>, size: int, i: nat)
    requires i <= |q|
    ensures q[0..] == q
    ensures i < |q| ==> q[i..][0] == q[i] && q[i..][1..] == q[i + 1..]
    ensures i < |q| && q[i].size <= size ==> Lead(q[i..], size) == 1 + Lead(q[i + 1..], size)
  {
  }

  lemma AtEnd<T>(s: seq<T>, x: T)
    ensures InsertAt(s, |s|, x) == s + [x]
  {
  }

  lemma InsertedAt<T>(s: seq<T>, i: nat, x: T)
    requires i <= |s|
    ensures var t := InsertAt(s, i, x);
            && |t| == |s| + 1 && t[i] == x
            && (forall j :: 0 <= j < i ==> t[j] == s[j]) && (forall j :: i < j < |t| ==> t[j] == s[j - 1])
  {
  }

  lemma Inserted<T>(s: seq<T>, i: nat, x: T)
    requires i <= |s|
    ensures forall y :: y in InsertAt(s, i, x) ==> y in s || y == x
  {
  }
}
