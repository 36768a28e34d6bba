/** The keyed list of p4-final/handin/list.c as a value: the newest element of a key is found
    and deleted first.  Lists, hash tables and concurrent histories are all compared with it. */
module KeyedLists {

  type Key = nat
  type Element = nat

  /** The null pointer, which List_Lookup returns when no node has the key. */
  const NULL: nat := 0

  datatype Entry = Entry(key: Key, element: Element)

  datatype Op = Insert(key: Key, element: Element) | Delete(key: Key) | Lookup(key: Key)

  function Remove(s: seq<Entry>, k: Key): seq<Entry> {
    if s == [] then []
    else if s[0].key == k then s[1..]
    else [s[0]] + Remove(s[1..], k)
  }

  function Find(s: seq<Entry>, k: Key): Element {
    if s == [] then NULL
    else if s[0].key == k then s[0].element
    else Find(s[1..], k)
  }

  /** The list after one operation ... */
  function Apply(s: seq<Entry>, op: Op): seq<Entry> {
    match op
    case Insert(k, e) => [Entry(k, e)] + s
    case Delete(k) => Remove(s, k)
    case Lookup(_) => s
  }

  /** ... and what the operation returns (nothing, for an insertion or deletion). */
  function Result(s: seq<Entry>, op: Op): Element {
    if op.Lookup? then Find(s, op.key) else NULL
  }

  // ---------- Positions ----------

  lemma {:induction false} RemoveAt(s: seq<Entry>, k: Key, i: nat)
    requires i < |s| && s[i].key == k && forall j :: 0 <= j < i ==> s[j].key != k
    ensures Remove(s, k) == s[..i] + s[i + 1..]
    ensures Find(s, k) == s[i].element
  {
    if i > 0 {
      RemoveAt(s[1..], k, i - 1);
      assert [s[0]] + s[1..][..i - 1] == s[..i];
      assert s[1..][i..] == s[i + 1..];
    }
  }

  lemma {:induction false} RemoveNone(s: seq<Entry>, k: Key)
    requires forall j :: 0 <= j < |s| ==> s[j].key != k
    ensures Remove(s, k) == s && Find(s, k) == NULL
  {
    if s != [] {
      RemoveNone(s[1..], k);
      assert [s[0]] + s[1..] == s;
    }
  }

  // ---------- Selecting some of the keys ----------

  /** The entries whose key is in class `c` modulo `m`: the bucket of a hash table. */
  function Bucket(s: seq<Entry>, c: nat, m: nat): seq<Entry>
    requires m > 0
  {
    if s == [] then []
    else if s[0].key % m == c then [s[0]] + Bucket(s[1..], c, m)
    else Bucket(s[1..], c, m)
  }

  lemma {:induction false} BucketRemove(s: seq<Entry>, k: Key, c: nat, m: nat)
    requires m > 0
    ensures Bucket(Remove(s, k), c, m) == if k % m == c then Remove(Bucket(s, c, m), k) else Bucket(s, c, m)
  {
    if s != [] {
      BucketRemove(s[1..], k, c, m);
      var r := [s[0]] + Remove(s[1..], k);
      assert r[1..] == Remove(s[1..], k);
      var b := [s[0]] + Bucket(s[1..], c, m);
      assert b[1..] == Bucket(s[1..], c, m);
    }
  }

  lemma {:induction false} BucketFind(s: seq<Entry>, k: Key, m: nat)
    requires m > 0
    ensures Find(Bucket(s, k % m, m), k) == Find(s, k)
  {
    if s != [] {
      BucketFind(s[1..], k, m);
      var b := [s[0]] + Bucket(s[1..], k % m, m);
      assert b[1..] == Bucket(s[1..], k % m, m);
    }
  }

  /** One operation on the whole list, seen from bucket `c`: the operation itself in the
      bucket of its key, nothing elsewhere. */
  lemma BucketApply(s: seq<Entry>, op: Op, c: nat, m: nat)
    requires m > 0
    ensures Bucket(Apply(s, op), c, m) == if op.key % m == c then Apply(Bucket(s, c, m), op) else Bucket(s, c, m)
    ensures op.key % m == c ==> Result(Bucket(s, c, m), op) == Result(s, op)
  {
    match op
    case Insert(k, e) =>
      assert ([Entry(k, e)] + s)[1..] == s;
    case Delete(k) =>
      BucketRemove(s, k, c, m);
    case Lookup(k) =>
      BucketFind(s, k, m);
  }

  // ---------- One key at a time ----------

  function OfKey(s: seq<Entry>, k: Key): seq<Entry> {
    if s == [] then []
    else if s[0].key == k then [s[0]] + OfKey(s[1..], k)
    else OfKey(s[1..], k)
  }

  /** Each key is a stack of its own: insertion pushes, deletion pops, lookup reads the top. */
  lemma {:induction false} KeyIsStack(s: seq<Entry>, op: Op, k: Key)
    ensures var t := OfKey(s, k); var u := OfKey(Apply(s, op), k);
            if op.key != k then u == t
            else match op
                 case Insert(_, e) => u == [Entry(k, e)] + t
                 case Delete(_) => u == if t == [] then [] else t[1..]
                 case Lookup(_) => u == t && Result(s, op) == if t == [] then NULL else t[0].element
  {
    match op
    case Insert(j, e) =>
      assert ([Entry(j, e)] + s)[1..] == s;
    case _ =>
      if s != [] {
        KeyIsStack(s[1..], op, k);
        var r := [s[0]] + Remove(s[1..], op.key);
        assert r[1..] == Remove(s[1..], op.key);
      }
  }
}
