/** The workload of p4/testlist.c: every thread inserts its own keys, deletes every third of them
    and looks all of them up.  In every interleaving the test's final check passes. */
module StressTest {
  import opened KeyedLists
  import opened SpinLists
  import opened Linearization

  // ---------- A thread by itself ----------

  function RunOps(ops: seq<Op>): seq<Entry> {
    if ops == [] then [] else Apply(RunOps(ops[..|ops| - 1]), ops[|ops| - 1])
  }

  /** What the operations return when nobody else uses the list. */
  function AloneResults(ops: seq<Op>): (r: seq<Element>)
    ensures |r| == |ops|
  {
    if ops == [] then []
    else AloneResults(ops[..|ops| - 1]) + [KeyedLists.Result(RunOps(ops[..|ops| - 1]), ops[|ops| - 1])]
  }

  // ---------- A thread in a history ----------

  /** The operations of thread `t` that have taken effect, in order ... */
  function OpsOf(hist: seq<Event>, t: nat): seq<Op> {
    if hist == [] then []
    else
      var e, before := hist[|hist| - 1], OpsOf(hist[..|hist| - 1], t);
      if e.Effect? && e.tid == t then before + [e.op] else before
  }

  /** ... and their results. */
  function ResultsOf(hist: seq<Event>, t: nat): seq<Element> {
    if hist == [] then []
    else
      var e, before := hist[|hist| - 1], ResultsOf(hist[..|hist| - 1], t);
      if e.Effect? && e.tid == t then before + [e.result] else before
  }

  /** No two threads use the same key. */
  ghost predicate Partitioned(hist: seq<Event>, own: Key -> nat) {
    forall i :: 0 <= i < |hist| && hist[i].Effect? ==> own(hist[i].op.key) == hist[i].tid
  }

  lemma {:induction false} FindIsTop(s: seq<Entry>, k: Key)
    ensures Find(s, k) == var t := OfKey(s, k); if t == [] then NULL else t[0].element
  {
    KeyIsStack(s, Lookup(k), k);
  }

  /** The entries of a thread's own keys are what it would have made by itself. */
  lemma {:induction false} OwnKeys(hist: seq<Event>, own: Key -> nat, k: Key)
    requires Partitioned(hist, own)
    ensures OfKey(Spec(hist), k) == OfKey(RunOps(OpsOf(hist, own(k))), k)
    decreases |hist|
  {
    if hist != [] {
      var e, before, t := hist[|hist| - 1], hist[..|hist| - 1], own(k);
      OwnKeys(before, own, k);
      if e.Effect? {
        KeyIsStack(Spec(before), e.op, k);
        if e.tid == t {
          var ops := OpsOf(before, t);
          assert (ops + [e.op])[..|ops|] == ops;
          KeyIsStack(RunOps(ops), e.op, k);
        }
      }
    }
  }

  /** Threads that do not share keys do not interfere: in every legal history each gets exactly
      the results it would get alone. */
  lemma {:induction false} NoInterference(hist: seq<Event>, own: Key -> nat, t: nat)
    requires Legal(hist) && Partitioned(hist, own)
    ensures ResultsOf(hist, t) == AloneResults(OpsOf(hist, t))
    decreases |hist|
  {
    if hist != [] {
      var e, before := hist[|hist| - 1], hist[..|hist| - 1];
      NoInterference(before, own, t);
      if e.Effect? && e.tid == t {
        var ops := OpsOf(before, t);
        assert (ops + [e.op])[..|ops|] == ops;
        assert own(e.op.key) == t;
        OwnKeys(before, own, e.op.key);
        FindIsTop(Spec(before), e.op.key);
        FindIsTop(RunOps(ops), e.op.key);
      }
    }
  }

  // ---------- The workload ----------

  // A thread's keys are `base`, `base` + 1, ..., where `base` is its number times the
  // number of operations.

  /** The first `i` insertions of thread `t` out of `n`; the element is a pointer, never null. */
  function Inserts(base: nat, i: nat): (ops: seq<Op>)
    ensures |ops| == i
  {
    if i == 0 then [] else Inserts(base, i - 1) + [Insert(base + i - 1, base + i)]
  }

  predicate Doomed(i: nat) {
    i % 3 == 0
  }

  function Deletes(base: nat, i: nat): seq<Op> {
    if i == 0 then []
    else if Doomed(i - 1) then Deletes(base, i - 1) + [Delete(base + i - 1)]
    else Deletes(base, i - 1)
  }

  function Lookups(base: nat, i: nat): (ops: seq<Op>)
    ensures |ops| == i
  {
    if i == 0 then [] else Lookups(base, i - 1) + [Lookup(base + i - 1)]
  }

  /** thread_code with `n` operations, for the thread whose keys start at `base`. */
  function Program(base: nat, n: nat): seq<Op> {
    Inserts(base, n) + Deletes(base, n) + Lookups(base, n)
  }

  lemma {:induction false} InsertsAre(base: nat, i: nat)
    ensures forall k :: 0 <= k < i ==> Inserts(base, i)[k] == Insert(base + k, base + k + 1)
  {
    if i > 0 { InsertsAre(base, i - 1); }
  }

  lemma {:induction false} LookupsAre(base: nat, i: nat)
    ensures forall k :: 0 <= k < i ==> Lookups(base, i)[k] == Lookup(base + k)
  {
    if i > 0 { LookupsAre(base, i - 1); }
  }

  /** How many of the numbers below `i` are multiples of three. */
  function Thirds(i: nat): (d: nat)
    ensures d == (i + 2) / 3 && 3 * d <= i + 2 && i <= 3 * d
  {
    (i + 2) / 3
  }

  lemma NextThird(i: nat)
    ensures Thirds(i + 1) == Thirds(i) + (if i % 3 == 0 then 1 else 0)
    ensures i % 3 == 0 ==> i == 3 * Thirds(i)
  {
    assert i == 3 * (i / 3) + i % 3;
  }

  lemma {:induction false} DeletesAre(base: nat, i: nat)
    ensures |Deletes(base, i)| == Thirds(i)
    ensures forall j :: 0 <= j < Thirds(i) ==> Deletes(base, i)[j] == Delete(base + 3 * j)
  {
    if i > 0 {
      NextThird(i - 1);
      DeletesAre(base, i - 1);
    }
  }

  /** The `k`-th operation of the workload: all the keys are inserted, then the first, fourth, seventh,
      ... deleted, and then all looked up. */
  function Scheduled(base: nat, n: nat, k: nat): Op {
    var d := (n + 2) / 3;
    if k < n then Insert(base + k, base + k + 1)
    else if k < n + d then Delete(base + 3 * (k - n))
    else Lookup(base + (k - n - d))
  }

  lemma ProgramIs(base: nat, n: nat)
    ensures |Program(base, n)| == n + (n + 2) / 3 + n
    ensures forall k :: 0 <= k < |Program(base, n)| ==> Program(base, n)[k] == Scheduled(base, n, k)
  {
    InsertsAre(base, n);
    DeletesAre(base, n);
    LookupsAre(base, n);
    assert Thirds(n) == (n + 2) / 3;
  }

  /** Of the thread's keys it is every third one that is deleted. */
  lemma DeletesEveryThird(base: nat, n: nat, i: nat)
    requires i < n
    ensures Delete(base + i) in Program(base, n) <==> i % 3 == 0
  {
    var p, d := Program(base, n), (n + 2) / 3;
    ProgramIs(base, n);
    NextThird(i);
    if i % 3 == 0 {
      assert p[n + Thirds(i)] == Delete(base + i);
    }
    if Delete(base + i) in p {
      var k :| 0 <= k < |p| && p[k] == Delete(base + i);
      assert Scheduled(base, n, k) == Delete(base + 3 * (k - n)) && i == 3 * (k - n);
    }
  }

  /** The counters of the test: ic, dc, and lc, which counts lookups that returned an element. */
  function InsertCount(ops: seq<Op>): nat {
    if ops == [] then 0 else InsertCount(ops[..|ops| - 1]) + (if ops[|ops| - 1].Insert? then 1 else 0)
  }

  function DeleteCount(ops: seq<Op>): nat {
    if ops == [] then 0 else DeleteCount(ops[..|ops| - 1]) + (if ops[|ops| - 1].Delete? then 1 else 0)
  }

  function FoundCount(ops: seq<Op>, results: seq<Element>): nat
    requires |ops| == |results|
  {
    if ops == [] then 0
    else FoundCount(ops[..|ops| - 1], results[..|ops| - 1]) +
         (if ops[|ops| - 1].Lookup? && results[|ops| - 1] != NULL then 1 else 0)
  }

  /** Appending one operation to a thread's program. */
  lemma Append(ops: seq<Op>, op: Op)
    ensures RunOps(ops + [op]) == Apply(RunOps(ops), op)
    ensures AloneResults(ops + [op]) == AloneResults(ops) + [KeyedLists.Result(RunOps(ops), op)]
    ensures InsertCount(ops + [op]) == InsertCount(ops) + (if op.Insert? then 1 else 0)
    ensures DeleteCount(ops + [op]) == DeleteCount(ops) + (if op.Delete? then 1 else 0)
    ensures FoundCount(ops + [op], AloneResults(ops + [op])) ==
            FoundCount(ops, AloneResults(ops)) +
            (if op.Lookup? && KeyedLists.Result(RunOps(ops), op) != NULL then 1 else 0)
  {
    assert (ops + [op])[..|ops|] == ops;
    var r := AloneResults(ops) + [KeyedLists.Result(RunOps(ops), op)];
    assert r[..|ops|] == AloneResults(ops);
  }

  /** The counters after one more operation. */
  ghost predicate Counts(ops: seq<Op>, inserts: nat, deletes: nat, found: nat) {
    InsertCount(ops) == inserts && DeleteCount(ops) == deletes && FoundCount(ops, AloneResults(ops)) == found
  }

  lemma AppendInsert(ops: seq<Op>, d: Key, e: Element, k: Key)
    ensures var t := OfKey(RunOps(ops), k);
            OfKey(RunOps(ops + [Insert(d, e)]), k) == if d == k then [Entry(k, e)] + t else t
  {
    Append(ops, Insert(d, e));
    KeyIsStack(RunOps(ops), Insert(d, e), k);
  }

  lemma {:induction false} InsertCounts(base: nat, i: nat)
    ensures Counts(Inserts(base, i), i, 0, 0)
  {
    if i > 0 {
      InsertCounts(base, i - 1);
      Append(Inserts(base, i - 1), Insert(base + i - 1, base + i));
    }
  }

  /** What a thread holds under its `j`-th key after some of its insertions, then deletions. */
  lemma {:induction false} AfterInserts(base: nat, i: nat, j: nat)
    ensures OfKey(RunOps(Inserts(base, i)), base + j) == if j < i then [Entry(base + j, base + j + 1)] else []
  {
    if i > 0 {
      AfterInserts(base, i - 1, j);
      AppendInsert(Inserts(base, i - 1), base + i - 1, base + i, base + j);
    }
  }

  lemma AppendDelete(ops: seq<Op>, d: Key, k: Key)
    ensures var t := OfKey(RunOps(ops), k);
            OfKey(RunOps(ops + [Delete(d)]), k) == if d == k && t != [] then t[1..] else t
  {
    Append(ops, Delete(d));
    KeyIsStack(RunOps(ops), Delete(d), k);
  }

  /** All insertions and the first deletions. */
  function Half(base: nat, n: nat, i: nat): seq<Op> {
    Inserts(base, n) + Deletes(base, i)
  }

  lemma {:induction false} DeleteCounts(base: nat, n: nat, i: nat)
    ensures Counts(Half(base, n, i), n, |Deletes(base, i)|, 0)
  {
    DeleteNext(Inserts(base, n), base, i);
    if i == 0 {
      InsertCounts(base, n);
    } else {
      DeleteCounts(base, n, i - 1);
      if Doomed(i - 1) { Append(Half(base, n, i - 1), Delete(base + i - 1)); }
    }
  }

  function Kept(base: nat, i: nat, j: nat): seq<Entry> {
    if j < i && Doomed(j) then [] else [Entry(base + j, base + j + 1)]
  }

  lemma KeptStep(base: nat, i: nat, j: nat)
    requires i > 0
    ensures var t := Kept(base, i - 1, j);
            Kept(base, i, j) == if !Doomed(i - 1) then t else if base + i - 1 == base + j && t != [] then t[1..] else t
  {
  }

  lemma DeleteNext(before: seq<Op>, base: nat, i: nat)
    ensures before + Deletes(base, 0) == before
    ensures i > 0 && Doomed(i - 1) ==>
              before + Deletes(base, i) == (before + Deletes(base, i - 1)) + [Delete(base + i - 1)]
    ensures i > 0 && !Doomed(i - 1) ==> before + Deletes(base, i) == before + Deletes(base, i - 1)
  {
  }

  lemma {:induction false} DeletesFrom(before: seq<Op>, base: nat, i: nat, j: nat)
    requires OfKey(RunOps(before), base + j) == [Entry(base + j, base + j + 1)]
    ensures OfKey(RunOps(before + Deletes(base, i)), base + j) == Kept(base, i, j)
  {
    DeleteNext(before, base, i);
    if i > 0 {
      DeletesFrom(before, base, i - 1, j);
      KeptStep(base, i, j);
      if Doomed(i - 1) { AppendDelete(before + Deletes(base, i - 1), base + i - 1, base + j); }
    }
  }

  lemma AfterDeletes(base: nat, n: nat, i: nat, j: nat)
    requires j < n
    ensures OfKey(RunOps(Half(base, n, i)), base + j) == Kept(base, i, j)
  {
    AfterInserts(base, n, j);
    DeletesFrom(Inserts(base, n), base, i, j);
  }

  /** Looking up the key at `i` finds it exactly when it was not deleted. */
  lemma LookupFinds(base: nat, n: nat, i: nat)
    requires i < n
    ensures Find(RunOps(Half(base, n, n)), base + i) != NULL <==> !Doomed(i)
  {
    AfterDeletes(base, n, n, i);
    FindIsTop(RunOps(Half(base, n, n)), base + i);
  }

  lemma AppendLookup(ops: seq<Op>, k: Key, inserts: nat, deletes: nat, found: nat)
    requires Counts(ops, inserts, deletes, found)
    ensures RunOps(ops + [Lookup(k)]) == RunOps(ops)
    ensures Counts(ops + [Lookup(k)], inserts, deletes, found + if Find(RunOps(ops), k) != NULL then 1 else 0)
  {
    Append(ops, Lookup(k));
  }

  lemma {:induction false} AfterLookups(base: nat, n: nat, i: nat)
    requires i <= n
    ensures RunOps(Half(base, n, n) + Lookups(base, i)) == RunOps(Half(base, n, n))
    ensures |Deletes(base, i)| <= i
    ensures Counts(Half(base, n, n) + Lookups(base, i), n, |Deletes(base, n)|, i - |Deletes(base, i)|)
  {
    var before := Half(base, n, n);
    if i == 0 {
      assert before + Lookups(base, 0) == before;
      DeleteCounts(base, n, n);
    } else {
      var ops, op := before + Lookups(base, i - 1), Lookup(base + i - 1);
      AfterLookups(base, n, i - 1);
      assert before + Lookups(base, i) == ops + [op];
      AppendLookup(ops, op.key, n, |Deletes(base, n)|, i - 1 - |Deletes(base, i - 1)|);
      LookupFinds(base, n, i - 1);
    }
  }

  /** One run of the workload by itself: what it counts. */
  lemma AloneBalanced(base: nat, n: nat)
    ensures Counts(Program(base, n), n, (n + 2) / 3, n - (n + 2) / 3)
  {
    AfterLookups(base, n, n);
    DeletesAre(base, n);
    assert Thirds(n) == (n + 2) / 3;
    assert Program(base, n) == Half(base, n, n) + Lookups(base, n);
  }

  // ---------- Every interleaving ----------

  lemma {:induction false} ResultsPaired(hist: seq<Event>, t: nat)
    ensures |ResultsOf(hist, t)| == |OpsOf(hist, t)|
  {
    if hist != [] { ResultsPaired(hist[..|hist| - 1], t); }
  }

  function TotalInserts(hist: seq<Event>, threads: nat): nat {
    if threads == 0 then 0 else TotalInserts(hist, threads - 1) + InsertCount(OpsOf(hist, threads - 1))
  }

  function TotalDeletes(hist: seq<Event>, threads: nat): nat {
    if threads == 0 then 0 else TotalDeletes(hist, threads - 1) + DeleteCount(OpsOf(hist, threads - 1))
  }

  ghost function TotalFound(hist: seq<Event>, threads: nat): nat {
    if threads == 0 then 0
    else
      ResultsPaired(hist, threads - 1);
      TotalFound(hist, threads - 1) + FoundCount(OpsOf(hist, threads - 1), ResultsOf(hist, threads - 1))
  }

  lemma {:induction false} ProgramKeys(base: nat, n: nat, op: Op)
    requires op in Program(base, n)
    ensures base <= op.key < base + n
  {
    InsertKeys(base, n);
    DeleteKeys(base, n);
    LookupKeys(base, n);
  }

  lemma {:induction false} InsertKeys(base: nat, i: nat)
    ensures forall op :: op in Inserts(base, i) ==> base <= op.key < base + i
  {
    if i > 0 { InsertKeys(base, i - 1); }
  }

  lemma {:induction false} DeleteKeys(base: nat, i: nat)
    ensures forall op :: op in Deletes(base, i) ==> base <= op.key < base + i
  {
    if i > 0 { DeleteKeys(base, i - 1); }
  }

  lemma {:induction false} LookupKeys(base: nat, i: nat)
    ensures forall op :: op in Lookups(base, i) ==> base <= op.key < base + i
  {
    if i > 0 { LookupKeys(base, i - 1); }
  }

  lemma Monotone(a: int, b: int, n: nat)
    requires a <= b
    ensures a * n <= b * n
  {
  }

  lemma OwnerOfKey(k: Key, t: nat, n: nat)
    requires t * n <= k < t * n + n
    ensures k / n == t
  {
    var q := k / n;
    if q < t { Monotone(q + 1, t, n); }
    if q > t { Monotone(t + 1, q, n); }
  }

  lemma {:induction false} EffectInOps(hist: seq<Event>, i: nat)
    requires i < |hist| && hist[i].Effect?
    ensures hist[i].op in OpsOf(hist, hist[i].tid)
  {
    if i < |hist| - 1 {
      EffectInOps(hist[..|hist| - 1], i);
    }
  }

  /** All threads have run their programs to the end, and nobody else has used the list. */
  ghost predicate Finished(hist: seq<Event>, threads: nat, n: nat) {
    && (forall t: nat :: OpsOf(hist, t) == if t < threads then Program(t * n, n) else [])
  }

  lemma ProgramsPartition(hist: seq<Event>, threads: nat, n: nat)
    requires Finished(hist, threads, n) && n > 0
    ensures Partitioned(hist, k => k / n)
  {
    forall i | 0 <= i < |hist| && hist[i].Effect?
      ensures hist[i].op.key / n == hist[i].tid
    {
      EffectInOps(hist, i);
      var t := hist[i].tid;
      ProgramKeys(t * n, n, hist[i].op);
      OwnerOfKey(hist[i].op.key, t, n);
    }
  }

  ghost predicate Reports(hist: seq<Event>, t: nat, n: nat) {
    var ops, results, d := OpsOf(hist, t), ResultsOf(hist, t), (n + 2) / 3;
    |results| == |ops| && InsertCount(ops) == n && DeleteCount(ops) == d && FoundCount(ops, results) == n - d
  }

  lemma ThreadReports(hist: seq<Event>, threads: nat, n: nat, t: nat)
    requires Legal(hist) && Finished(hist, threads, n) && n > 0 && t < threads
    ensures Reports(hist, t, n)
  {
    ProgramsPartition(hist, threads, n);
    NoInterference(hist, k => k / n, t);
    AloneBalanced(t * n, n);
  }

  lemma {:induction false} Totals(hist: seq<Event>, threads: nat, n: nat)
    requires forall t :: 0 <= t < threads ==> Reports(hist, t, n)
    ensures TotalInserts(hist, threads) == threads * n
    ensures TotalDeletes(hist, threads) == threads * ((n + 2) / 3)
    ensures TotalFound(hist, threads) == threads * (n - (n + 2) / 3)
  {
    if threads > 0 {
      Totals(hist, threads - 1, n);
      assert Reports(hist, threads - 1, n);
      OneMore(threads - 1, n);
      OneMore(threads - 1, (n + 2) / 3);
      OneMore(threads - 1, n - (n + 2) / 3);
    }
  }

  lemma OneMore(k: int, m: int)
    ensures (k + 1) * m == k * m + m
  {
  }

  lemma Shared(k: int, a: int, b: int)
    ensures k * a == k * b + k * (a - b)
  {
  }

  /** After every execution in which each of the threads has run its workload, however their steps
      interleaved: what the test reports, and that its final check, ic == dc + lc, passes. */
  lemma StressPasses(threads: nat, n: nat, turns: seq<Turn>)
    requires n > 0 && Finished(Execute(Start(threads), turns).hist, threads, n)
    ensures var hist := Execute(Start(threads), turns).hist;
            && TotalInserts(hist, threads) == threads * n
            && TotalDeletes(hist, threads) == threads * ((n + 2) / 3)
            && TotalInserts(hist, threads) == TotalDeletes(hist, threads) + TotalFound(hist, threads)
  {
    var hist := Execute(Start(threads), turns).hist;
    EveryExecution(threads, turns);
    forall t | 0 <= t < threads
      ensures Reports(hist, t, n)
    {
      ThreadReports(hist, threads, n, t);
    }
    Totals(hist, threads, n);
    Shared(threads, n, (n + 2) / 3);
  }
}
