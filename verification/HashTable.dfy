/** The list of p4-final/handin/list.c and the hash table of p4-final/handin/hash.c as linked
    nodes, run by one thread.  (Module SpinLists adds the lock and any number of threads.) */
module HashTables {
  import opened KeyedLists

  class Node {
    var key: Key
    var element: Element
    var next: Node?

    constructor (key: Key, element: Element)
      ensures this.key == key && this.element == element && next == null
    {
      this.key, this.element, this.next := key, element, null;
    }
  }

  class List {
    var head: Node?
    ghost var spine: seq<Node>
    ghost var contents: seq<Entry>

    ghost predicate Linked()
      reads this, spine
    {
      && head == (if spine == [] then null else spine[0])
      && (forall i, j :: 0 <= i && j == i + 1 && j < |spine| ==> spine[i].next == spine[j])
      && (spine != [] ==> spine[|spine| - 1].next == null)
    }

    ghost predicate Valid()
      reads this, spine
    {
      && Linked()
      && (forall i, j :: 0 <= i < j < |spine| ==> spine[i] != spine[j])
      && |contents| == |spine|
      && (forall i :: 0 <= i < |spine| ==> contents[i] == Entry(spine[i].key, spine[i].element))
    }

    constructor ()
      ensures Valid() && contents == [] && spine == []
    {
      head, spine, contents := null, [], [];
    }

    method Insert(element: Element, key: Key)
      requires Valid()
      modifies this
      ensures Valid() && contents == Apply(old(contents), Op.Insert(key, element))
      ensures |spine| > 0 && fresh(spine[0]) && spine == [spine[0]] + old(spine)
    {
      var node := new Node(key, element);
      node.next := head;
      head := node;
      spine := [node] + spine;
      contents := [Entry(key, element)] + contents;
      assert forall i :: 0 < i < |spine| ==> spine[i] == old(spine)[i - 1];
    }

    /** Where the first node with the key is, and the node before it. */
    method FindNode(key: Key) returns (prev: Node?, curr: Node?, ghost i: nat)
      requires Valid()
      ensures curr == null <==> forall j :: 0 <= j < |spine| ==> spine[j].key != key
      ensures i <= |spine| && (forall j :: 0 <= j < i ==> spine[j].key != key)
      ensures if i == |spine| then curr == null else curr == spine[i] && curr.key == key
      ensures if i == 0 then prev == null else prev == spine[i - 1]
    {
      prev, curr, i := null, head, 0;
      while curr != null
        invariant i <= |spine| && (forall j :: 0 <= j < i ==> spine[j].key != key)
        invariant if i == |spine| then curr == null else curr == spine[i]
        invariant if i == 0 then prev == null else prev == spine[i - 1]
        decreases |spine| - i
      {
        if curr.key == key {
          return;
        }
        prev := curr;
        curr := curr.next;
        i := i + 1;
      }
    }

    /** Bypass the node at position `i`. */
    method Unlink(prev: Node?, curr: Node, ghost i: nat)
      requires Valid() && i < |spine| && curr == spine[i]
      requires if i == 0 then prev == null else prev == spine[i - 1]
      modifies this, spine
      ensures Valid()
      ensures spine == old(spine)[..i] + old(spine)[i + 1..]
      ensures contents == old(contents)[..i] + old(contents)[i + 1..]
    {
      if head == curr {
        head := curr.next;
      } else {
        prev.next := curr.next;
      }
      spine := spine[..i] + spine[i + 1..];
      contents := contents[..i] + contents[i + 1..];
      curr.next := null;
      assert forall j :: 0 <= j < |spine| ==> spine[j] == old(spine)[if j < i then j else j + 1];
    }

    method Delete(key: Key)
      requires Valid()
      modifies this, spine
      ensures Valid() && contents == Apply(old(contents), Op.Delete(key))
      ensures forall n :: n in spine ==> n in old(spine)
    {
      var prev, curr, i := FindNode(key);
      if curr == null {
        RemoveNone(contents, key);
      } else {
        RemoveAt(contents, key, i);
        ghost var was, rest := spine, contents[..i] + contents[i + 1..];
        assert rest == Apply(contents, Op.Delete(key));
        Unlink(prev, curr, i);
        StillThere(was, spine, i);
      }
    }

    method Lookup(key: Key) returns (element: Element)
      requires Valid()
      ensures element == Result(contents, Op.Lookup(key))
    {
      var prev, curr, i := FindNode(key);
      if curr == null {
        RemoveNone(contents, key);
        return NULL;
      }
      RemoveAt(contents, key, i);
      return curr.element;
    }
  }

  class HashTable {
    var size: nat
    var table: array<List>
    ghost var nodes: set<Node>
    /** The list an unbucketed implementation would hold. */
    ghost var flat: seq<Entry>

    /** The buckets are separate lists of separate nodes, all in `ns`. */
    ghost predicate SeparateIn(ns: set<Node>)
      reads `size, `table, table, table[..], ns
    {
      && size == table.Length
      && size > 0
      && Distinct(table[..]) && Apart(Spines(), ns)
      && (forall b :: 0 <= b < size ==> table[b].Valid())
    }

    ghost predicate Separate()
      reads `size, `table, `nodes, table, table[..], nodes
    {
      SeparateIn(nodes)
    }

    ghost function Spines(): (s: seq<seq<Node>>)
      reads `table, table, table[..]
      ensures |s| == table.Length && forall b :: 0 <= b < |s| ==> s[b] == table[b].spine
    {
      var t := table;
      seq(t.Length, b requires 0 <= b < t.Length reads t, t[..] => t[b].spine)
    }

    ghost predicate Valid()
      reads this, table, table[..], nodes
    {
      Separate() && Contents() == Buckets(flat, size)
    }

    /** What each bucket holds. */
    ghost function Contents(): (s: seq<seq<Entry>>)
      reads `table, table, table[..]
      ensures |s| == table.Length && forall b :: 0 <= b < |s| ==> s[b] == table[b].contents
    {
      var t := table;
      seq(t.Length, b requires 0 <= b < t.Length reads t, t[..] => t[b].contents)
    }

    constructor (buckets: nat)
      requires buckets > 0
      ensures Valid() && flat == [] && size == buckets && fresh(table) && forall b :: 0 <= b < size ==> fresh(table[b])
    {
      size := buckets;
      var empty := new List();
      table := new List[buckets](_ => empty);
      flat, nodes := [], {};
      new;
      ghost var lists: seq<List> := [];
      for i := 0 to buckets
        invariant size == buckets == table.Length && flat == [] && fresh(table)
        invariant |lists| == i && table[..i] == lists && Distinct(lists)
        invariant forall l :: l in lists ==> fresh(l) && l.Valid() && l.spine == []
      {
        var list := new List();
        assert list !in lists;
        table[i] := list;
        StillDistinct(lists, list);
        lists := lists + [list];
      }
      assert table[..] == lists;
      assert forall b :: 0 <= b < size ==> table[b] in lists;
      assert Spines() == seq(size, _ => []) && Contents() == Buckets([], size);
    }

    /** List_Insert on one bucket leaves the others alone ... */
    method Push(b: nat, element: Element, key: Key) returns (ghost node: Node)
      requires Separate() && b < size
      modifies table[b]
      ensures fresh(node) && (forall c :: 0 <= c < size ==> table[c].Valid())
      ensures Spines() == old(Spines())[b := [node] + old(table[b].spine)]
      ensures Contents() == old(Contents())[b := Apply(old(table[b].contents), Op.Insert(key, element))]
    {
      ghost var spines := Spines();
      Separately(table[..], b);
      table[b].Insert(element, key);
      node := table[b].spine[0];
      forall c | 0 <= c < size && c != b
        ensures unchanged(table[c]) && table[c].Valid()
      {
        assert forall i :: 0 <= i < |spines[c]| ==> unchanged(spines[c][i]);
      }
    }

    lemma Regrouped(now: seq<seq<Node>>, ns: set<Node>)
      requires size == table.Length && size > 0 && Distinct(table[..]) && Spines() == now && Apart(now, ns)
      requires forall b :: 0 <= b < size ==> table[b].Valid()
      ensures SeparateIn(ns)
    {
    }

    method InsertInto(b: nat, element: Element, key: Key)
      requires Separate() && b < size
      modifies table[b], `nodes
      ensures Separate()
      ensures Contents() == old(Contents())[b := Apply(old(table[b].contents), Op.Insert(key, element))]
    {
      ghost var spines, was := Spines(), nodes;
      ghost var contents := Contents()[b := Apply(table[b].contents, Op.Insert(key, element))];
      ghost var node := Push(b, element, key);
      assert Contents() == contents;
      ghost var now, all := StillApart(spines, was, b, node);
      Regrouped(now, all);
      nodes := all;
    }

    method Insert(element: Element, key: Key)
      requires Valid()
      modifies table[..], `flat, `nodes
      ensures Valid() && flat == Apply(old(flat), Op.Insert(key, element))
      ensures Contents() == old(Contents())[key % size := [Entry(key, element)] + old(table[key % size].contents)]
    {
      ghost var b, after := BucketsApply(flat, Op.Insert(key, element), size);
      assert table[b].contents == Buckets(flat, size)[b];
      InsertInto(key % size, element, key);
      assert Contents() == Buckets(after, size);
      flat := after;
    }

    /** ... and so does List_Delete. */
    method DeleteFrom(b: nat, key: Key)
      requires Separate() && b < size
      modifies table[b], nodes
      ensures Separate()
      ensures Contents() == old(Contents())[b := Apply(old(table[b].contents), Op.Delete(key))]
    {
      ghost var spines, lists := Spines(), table[..];
      Separately(lists, b);
      table[b].Delete(key);
      forall c | 0 <= c < size && c != b
        ensures unchanged(table[c]) && table[c].Valid()
      {
        forall i | 0 <= i < |table[c].spine|
          ensures unchanged(table[c].spine[i])
        {
          assert table[c].spine[i] in spines[c] && table[c].spine[i] !in spines[b];
        }
      }
      assert Spines() == spines[b := table[b].spine];
      ApartWithout(spines, nodes, b, table[b].spine);
    }

    method Delete(key: Key)
      requires Valid()
      modifies table[..], nodes, `flat
      ensures Valid() && flat == Apply(old(flat), Op.Delete(key))
      ensures Contents() == old(Contents())[key % size := Remove(old(table[key % size].contents), key)]
    {
      ghost var b, after := BucketsApply(flat, Op.Delete(key), size);
      assert table[b].contents == Buckets(flat, size)[b];
      DeleteFrom(key % size, key);
      assert Contents() == Buckets(after, size);
      flat := after;
    }

    method Lookup(key: Key) returns (element: Element)
      requires Valid()
      ensures element == Result(flat, Op.Lookup(key))
    {
      BucketApply(flat, Op.Lookup(key), key % size, size);
      element := table[key % size].Lookup(key);
    }
  }

  ghost predicate Distinct(lists: seq<List>) {
    forall b, c :: 0 <= b < |lists| && 0 <= c < |lists| && b != c ==> lists[b] != lists[c]
  }

  lemma StillDistinct(lists: seq<List>, list: List)
    requires Distinct(lists) && list !in lists
    ensures Distinct(lists + [list])
  {
  }

  lemma Separately(lists: seq<List>, b: nat)
    requires Distinct(lists) && b < |lists|
    ensures forall c :: 0 <= c < |lists| && c != b ==> lists[c] != lists[b]
  {
  }

  /** No node is on two spines, and all are among `nodes`. */
  ghost predicate Apart(spines: seq<seq<Node>>, nodes: set<Node>) {
    && (forall b, n :: 0 <= b < |spines| && n in spines[b] ==> n in nodes)
    && (forall b, c, n :: 0 <= b < |spines| && 0 <= c < |spines| && b != c && n in spines[b] ==> n !in spines[c])
  }

  lemma StillApart(spines: seq<seq<Node>>, nodes: set<Node>, b: nat, node: Node)
    returns (now: seq<seq<Node>>, all: set<Node>)
    requires Apart(spines, nodes) && b < |spines| && node !in nodes
    ensures now == spines[b := [node] + spines[b]] && all == nodes + {node} && Apart(now, all)
  {
    now, all := spines[b := [node] + spines[b]], nodes + {node};
    forall c, n | 0 <= c < |now| && n in now[c]
      ensures n in spines[c] || (c == b && n == node)
    {
    }
  }

  lemma ApartWithout(spines: seq<seq<Node>>, nodes: set<Node>, b: nat, less: seq<Node>)
    requires Apart(spines, nodes) && b < |spines| && forall n :: n in less ==> n in spines[b]
    ensures Apart(spines[b := less], nodes)
  {
  }

  lemma StillThere(was: seq<Node>, now: seq<Node>, i: nat)
    requires i < |was| && now == was[..i] + was[i + 1..]
    ensures forall n :: n in now ==> n in was
  {
  }

  /** A list, cut into buckets. */
  ghost function Buckets(s: seq<Entry>, m: nat): (bs: seq<seq<Entry>>)
    requires m > 0
    ensures |bs| == m && forall c :: 0 <= c < m ==> bs[c] == Bucket(s, c, m)
  {
    seq(m, c requires 0 <= c < m => Bucket(s, c, m))
  }

  lemma BucketsApply(s: seq<Entry>, op: Op, m: nat) returns (b: nat, after: seq<Entry>)
    requires m > 0
    ensures b == op.key % m < m && after == Apply(s, op)
    ensures Buckets(after, m) == Buckets(s, m)[b := Apply(Buckets(s, m)[b], op)]
  {
    b, after := op.key % m, Apply(s, op);
    forall c | 0 <= c < m
      ensures Bucket(Apply(s, op), c, m) == if op.key % m == c then Apply(Bucket(s, c, m), op) else Bucket(s, c, m)
    {
      BucketApply(s, op, c, m);
    }
  }
}
