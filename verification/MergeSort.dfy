/** The merge sort of p1/search.c: files in descending order of count, in place, with a sentinel
    at the end of each temporary array. */
module MergeSort {

  datatype FileProperty = FileProperty(name: string, count: int)

  /** What calloc leaves at the end of a temporary array, once its count is set to -1. */
  const SENTINEL := FileProperty("", -1)

  ghost predicate Descending(s: seq<FileProperty>) {
    forall i, j :: 0 <= i < j < |s| ==> s[i].count >= s[j].count
  }

  ghost predicate Counted(s: seq<FileProperty>) {
    forall i :: 0 <= i < |s| ==> s[i].count >= 0
  }

  /** The files with count `c`, in order. */
  function WithCount(s: seq<FileProperty>, c: int): seq<FileProperty> {
    if s == [] then []
    else if s[0].count == c then [s[0]] + WithCount(s[1..], c)
    else WithCount(s[1..], c)
  }

  /** The same files, with equal counts in the same order. */
  ghost predicate StablePermutation(s: seq<FileProperty>, t: seq<FileProperty>) {
    forall c :: WithCount(s, c) == WithCount(t, c)
  }

  // ---------- Stable permutations ----------

  lemma {:induction false} WithCountConcat(s: seq<FileProperty>, t: seq<FileProperty>, c: int)
    ensures WithCount(s + t, c) == WithCount(s, c) + WithCount(t, c)
  {
    if s == [] {
      assert s + t == t;
    } else {
      assert (s + t)[1..] == s[1..] + t;
      WithCountConcat(s[1..], t, c);
    }
  }

  lemma {:induction false} WithCountNone(s: seq<FileProperty>, c: int)
    requires forall i :: 0 <= i < |s| ==> s[i].count != c
    ensures WithCount(s, c) == []
  {
    if s != [] { WithCountNone(s[1..], c); }
  }

  lemma {:induction false} WithCountMember(s: seq<FileProperty>, x: FileProperty)
    ensures multiset(s)[x] == multiset(WithCount(s, x.count))[x]
  {
    if s != [] {
      assert s == [s[0]] + s[1..];
      WithCountMember(s[1..], x);
      assert multiset(s)[x] == multiset([s[0]])[x] + multiset(s[1..])[x];
      if s[0].count == x.count {
        assert multiset(WithCount(s, x.count))[x] == multiset([s[0]])[x] + multiset(WithCount(s[1..], x.count))[x];
      }
    }
  }

  /** A stable permutation is a permutation. */
  lemma IsPermutation(s: seq<FileProperty>, t: seq<FileProperty>)
    requires StablePermutation(s, t)
    ensures multiset(s) == multiset(t)
  {
    forall x: FileProperty
      ensures multiset(s)[x] == multiset(t)[x]
    {
      WithCountMember(s, x);
      WithCountMember(t, x);
    }
  }

  lemma HeadIsLargest(s: seq<FileProperty>, t: seq<FileProperty>)
    requires StablePermutation(s, t) && Descending(s) && Descending(t) && s != [] && t != []
    ensures s[0].count >= t[0].count
  {
    assert WithCount(t, t[0].count) != [];
    if forall i :: 0 <= i < |s| ==> s[i].count != t[0].count {
      WithCountNone(s, t[0].count);
    }
  }

  /** There is only one result: the stable descending order of the input. */
  lemma {:induction false} Unique(s: seq<FileProperty>, t: seq<FileProperty>)
    requires StablePermutation(s, t) && Descending(s) && Descending(t)
    ensures s == t
  {
    IsPermutation(s, t);
    assert |multiset(s)| == |s| && |multiset(t)| == |t|;
    if s != [] {
      HeadIsLargest(s, t);
      HeadIsLargest(t, s);
      var c := s[0].count;
      assert WithCount(s, c)[0] == s[0] && WithCount(t, c)[0] == t[0];
      forall d
        ensures WithCount(s[1..], d) == WithCount(t[1..], d)
      {
        assert WithCount(s, d) == WithCount(t, d);
        assert WithCount(s[1..], d) == if d == c then WithCount(s, d)[1..] else WithCount(s, d);
        assert WithCount(t[1..], d) == if d == c then WithCount(t, d)[1..] else WithCount(t, d);
      }
      Unique(s[1..], t[1..]);
      assert s == [s[0]] + s[1..] && t == [t[0]] + t[1..];
    }
  }

  // ---------- Merging ----------

  function Merge(s: seq<FileProperty>, t: seq<FileProperty>): (r: seq<FileProperty>)
    ensures |r| == |s| + |t|
  {
    if s == [] then t
    else if t == [] then s
    else if s[0].count >= t[0].count then [s[0]] + Merge(s[1..], t)
    else [t[0]] + Merge(s, t[1..])
  }

  lemma {:induction false} MergeBounded(s: seq<FileProperty>, t: seq<FileProperty>, top: int)
    requires forall i :: 0 <= i < |s| ==> s[i].count <= top
    requires forall i :: 0 <= i < |t| ==> t[i].count <= top
    ensures forall i :: 0 <= i < |Merge(s, t)| ==> Merge(s, t)[i].count <= top
  {
    if s != [] && t != [] {
      if s[0].count >= t[0].count { MergeBounded(s[1..], t, top); } else { MergeBounded(s, t[1..], top); }
    }
  }

  lemma {:induction false} MergeDescending(s: seq<FileProperty>, t: seq<FileProperty>)
    requires Descending(s) && Descending(t)
    ensures Descending(Merge(s, t))
  {
    if s != [] && t != [] {
      if s[0].count >= t[0].count {
        MergeDescending(s[1..], t);
        MergeBounded(s[1..], t, s[0].count);
      } else {
        MergeDescending(s, t[1..]);
        MergeBounded(s, t[1..], t[0].count);
      }
    }
  }

  lemma {:induction false} MergeStable(s: seq<FileProperty>, t: seq<FileProperty>, c: int)
    requires Descending(s) && Descending(t)
    ensures WithCount(Merge(s, t), c) == WithCount(s + t, c)
  {
    WithCountConcat(s, t, c);
    if s != [] && t != [] {
      if s[0].count >= t[0].count {
        MergeStable(s[1..], t, c);
        WithCountConcat(s[1..], t, c);
        assert Merge(s, t)[1..] == Merge(s[1..], t);
      } else {
        MergeStable(s, t[1..], c);
        WithCountConcat(s, t[1..], c);
        assert Merge(s, t)[1..] == Merge(s, t[1..]);
        if c == t[0].count { WithCountNone(s, c); }
      }
    }
  }

  /** The next file to copy, when the two sides have reached `i` and `j`. */
  lemma MergeNext(s: seq<FileProperty>, t: seq<FileProperty>, i: nat, j: nat)
    requires i <= |s| && j <= |t| && i + j < |s| + |t| && Counted(s) && Counted(t)
    ensures i < |s| && (j == |t| || s[i].count >= t[j].count) ==>
            Merge(s[i..], t[j..]) == [s[i]] + Merge(s[i + 1..], t[j..])
    ensures j < |t| && (i == |s| || s[i].count < t[j].count) ==>
            Merge(s[i..], t[j..]) == [t[j]] + Merge(s[i..], t[j + 1..])
  {
    if i < |s| { assert s[i..][0] == s[i] && s[i..][1..] == s[i + 1..] && s[i..] == [s[i]] + s[i + 1..]; }
    if j < |t| { assert t[j..][0] == t[j] && t[j..][1..] == t[j + 1..] && t[j..] == [t[j]] + t[j + 1..]; }
  }

  /** The temporary array for a segment: a copy of it, with a sentinel behind. */
  method CopySegment(files: array<FileProperty>, from: int, n: nat) returns (copy: array<FileProperty>)
    requires 0 <= from && from + n <= files.Length
    ensures fresh(copy) && copy[..] == files[from..from + n] + [SENTINEL]
  {
    copy := new FileProperty[n + 1](_ => SENTINEL);
    var i := 0;
    while i < n
      invariant 0 <= i <= n
      invariant copy[n] == SENTINEL
      invariant forall k :: 0 <= k < i ==> copy[k] == files[from + k]
    {
      copy[i] := files[from + i];
      i := i + 1;
    }
  }

  /** What one round of the merging loop copies, read off the two temporary arrays. */
  lemma CopiedNext(s: seq<FileProperty>, t: seq<FileProperty>, i: nat, j: nat, front: seq<FileProperty>)
    requires i <= |s| && j <= |t| && i + j < |s| + |t| && Counted(s) && Counted(t)
    requires Merge(s, t) == front + Merge(s[i..], t[j..])
    ensures var x, y := (s + [SENTINEL])[i], (t + [SENTINEL])[j];
            if x.count >= y.count then i < |s| && Merge(s, t) == (front + [x]) + Merge(s[i + 1..], t[j..])
            else j < |t| && Merge(s, t) == (front + [y]) + Merge(s[i..], t[j + 1..])
  {
    var x, y := (s + [SENTINEL])[i], (t + [SENTINEL])[j];
    assert i < |s| ==> x == s[i] && x.count > SENTINEL.count;
    assert j < |t| ==> y == t[j] && y.count > SENTINEL.count;
    MergeNext(s, t, i, j);
    if x.count >= y.count {
      OneOver(front, x, Merge(s[i + 1..], t[j..]));
    } else {
      OneOver(front, y, Merge(s[i..], t[j + 1..]));
    }
  }

  lemma OneOver(front: seq<FileProperty>, x: FileProperty, rest: seq<FileProperty>)
    ensures front + ([x] + rest) == (front + [x]) + rest
  {
  }

  /** How far the merging loop is: the files in front of `k` are the start of the merge of `s` and
      `t`, what is left of it is the merge of what is left of both, and outside nothing changed. */
  ghost predicate Merging(was: seq<FileProperty>, now: seq<FileProperty>, left: int, k: int, right: int,
                          s: seq<FileProperty>, t: seq<FileProperty>, i: int, j: int) {
    && |was| == |now| && 0 <= left <= k <= right + 1 <= |now|
    && 0 <= i <= |s| && 0 <= j <= |t| && i + j == k - left && |s| + |t| == right + 1 - left
    && was[..left] == now[..left] && was[right + 1..] == now[right + 1..]
    && Merge(s, t) == now[left..k] + Merge(s[i..], t[j..])
  }

  lemma MergingStep(was: seq<FileProperty>, now: seq<FileProperty>, left: int, k: int, right: int,
                    s: seq<FileProperty>, t: seq<FileProperty>, i: int, j: int)
    requires Merging(was, now, left, k, right, s, t, i, j) && k <= right && Counted(s) && Counted(t)
    ensures var x, y := (s + [SENTINEL])[i], (t + [SENTINEL])[j];
            if x.count >= y.count then Merging(was, now[k := x], left, k + 1, right, s, t, i + 1, j)
            else Merging(was, now[k := y], left, k + 1, right, s, t, i, j + 1)
  {
    CopiedNext(s, t, i, j, now[left..k]);
    var x, y := (s + [SENTINEL])[i], (t + [SENTINEL])[j];
    var z := if x.count >= y.count then x else y;
    assert now[k := z][left..k + 1] == now[left..k] + [z];
  }

  lemma MergingEnds(was: seq<FileProperty>, now: seq<FileProperty>, left: int, right: int,
                    s: seq<FileProperty>, t: seq<FileProperty>, i: int, j: int)
    requires Merging(was, now, left, right + 1, right, s, t, i, j)
    ensures now[left..right + 1] == Merge(s, t)
  {
    assert s[i..] == [] && t[j..] == [];
  }

  /** The merging loop of mergeSegments, from temporary arrays `l` and `r` that hold `s` and `t`. */
  method MergeBack(files: array<FileProperty>, l: array<FileProperty>, r: array<FileProperty>, left: int, right: int,
                   ghost s: seq<FileProperty>, ghost t: seq<FileProperty>)
    requires l != files && r != files && l[..] == s + [SENTINEL] && r[..] == t + [SENTINEL]
    requires Counted(s) && Counted(t) && Merging(files[..], files[..], left, left, right, s, t, 0, 0)
    modifies files
    ensures files[left..right + 1] == Merge(s, t)
    ensures files[..left] == old(files[..left]) && files[right + 1..] == old(files[right + 1..])
  {
    ghost var was := files[..];
    var i, j, k := 0, 0, left;
    while k <= right
      invariant l[..] == s + [SENTINEL] && r[..] == t + [SENTINEL]
      invariant Merging(was, files[..], left, k, right, s, t, i, j)
    {
      ghost var now := files[..];
      MergingStep(was, now, left, k, right, s, t, i, j);
      assert l[i] == l[..][i] && r[j] == r[..][j];
      if l[i].count >= r[j].count {
        files[k] := l[i];
        i := i + 1;
      } else {
        files[k] := r[j];
        j := j + 1;
      }
      assert files[..] == now[k := files[k]];
      k := k + 1;
    }
    MergingEnds(was, files[..], left, right, s, t, i, j);
    assert files[..][left..right + 1] == files[left..right + 1];
  }

  /** mergeSegments.  The sentinels are never copied: a count is never below zero, so while one
      side has files left the other side's sentinel does not win. */
  method MergeSegments(files: array<FileProperty>, left: int, mid: int, right: int)
    requires 0 <= left <= mid < right < files.Length
    requires Counted(files[left..mid + 1]) && Counted(files[mid + 1..right + 1])
    modifies files
    ensures files[left..right + 1] == Merge(old(files[left..mid + 1]), old(files[mid + 1..right + 1]))
    ensures files[..left] == old(files[..left]) && files[right + 1..] == old(files[right + 1..])
  {
    var l := CopySegment(files, left, mid - left + 1);
    var r := CopySegment(files, mid + 1, right - mid);
    MergeBack(files, l, r, left, right, files[left..mid + 1], files[mid + 1..right + 1]);
  }

  lemma CountedPermutation(s: seq<FileProperty>, t: seq<FileProperty>)
    requires StablePermutation(s, t) && Counted(t)
    ensures |s| == |t| && Counted(s)
  {
    IsPermutation(s, t);
    assert |multiset(s)| == |s| && |multiset(t)| == |t|;
    forall i | 0 <= i < |s|
      ensures s[i].count >= 0
    {
      assert s[i] in multiset(s);
      assert s[i] in multiset(t);
    }
  }

  /** Merging the two sorted halves sorts the whole. */
  lemma MergedHalves(s: seq<FileProperty>, t: seq<FileProperty>, s0: seq<FileProperty>, t0: seq<FileProperty>)
    requires Descending(s) && Descending(t) && StablePermutation(s, s0) && StablePermutation(t, t0)
    ensures Descending(Merge(s, t)) && StablePermutation(Merge(s, t), s0 + t0)
  {
    MergeDescending(s, t);
    forall c
      ensures WithCount(Merge(s, t), c) == WithCount(s0 + t0, c)
    {
      MergeStable(s, t, c);
      WithCountConcat(s, t, c);
      WithCountConcat(s0, t0, c);
    }
  }

  lemma Halves(files: seq<FileProperty>, left: int, q: int, right: int)
    requires 0 <= left <= q < right < |files| && Counted(files[left..right + 1])
    ensures files[left..right + 1] == files[left..q + 1] + files[q + 1..right + 1]
    ensures Counted(files[left..q + 1]) && Counted(files[q + 1..right + 1])
  {
    var s, t, all := files[left..q + 1], files[q + 1..right + 1], files[left..right + 1];
    assert all == s + t;
    assert forall i :: 0 <= i < |s| ==> s[i] == all[i];
    assert forall i :: 0 <= i < |t| ==> t[i] == all[|s| + i];
  }

  lemma SegmentKept(was: seq<FileProperty>, now: seq<FileProperty>, from: int, right: int)
    requires 0 <= from <= right < |was| == |now| && was[from..] == now[from..]
    ensures was[from..right + 1] == now[from..right + 1]
  {
    assert was[from..right + 1] == was[from..][..right + 1 - from];
    assert now[from..right + 1] == now[from..][..right + 1 - from];
  }

  /** Sorting the left half and then the right one leaves what is outside both alone. */
  lemma OutsideKept(was: seq<FileProperty>, half: seq<FileProperty>, now: seq<FileProperty>,
                    left: int, q: int, right: int)
    requires 0 <= left <= q < right < |was| == |half| == |now|
    requires was[..left] == half[..left] && was[q + 1..] == half[q + 1..]
    requires half[..q + 1] == now[..q + 1] && half[right + 1..] == now[right + 1..]
    ensures was[..left] == now[..left] && was[right + 1..] == now[right + 1..]
  {
    assert half[..q + 1][..left] == half[..left] && now[..q + 1][..left] == now[..left];
    assert was[q + 1..][right - q..] == was[right + 1..] && half[q + 1..][right - q..] == half[right + 1..];
  }

  /** mergeSort: afterwards the segment is the stable descending order of what it held. */
  method Sort(files: array<FileProperty>, left: int, right: int)
    requires 0 <= left && right < files.Length && left <= right + 1
    requires Counted(files[left..right + 1])
    modifies files
    ensures Descending(files[left..right + 1])
    ensures StablePermutation(files[left..right + 1], old(files[left..right + 1]))
    ensures files[..left] == old(files[..left]) && files[right + 1..] == old(files[right + 1..])
    decreases right - left
  {
    if left >= right {
      return;
    }
    var q := (left + right) / 2;
    ghost var all := files[..];
    ghost var s0, t0 := files[left..q + 1], files[q + 1..right + 1];
    Halves(all, left, q, right);
    Sort(files, left, q);
    ghost var s := files[left..q + 1];
    SegmentKept(all, files[..], q + 1, right);
    assert files[q + 1..right + 1] == t0;
    ghost var half := files[..];
    Sort(files, q + 1, right);
    assert files[left..q + 1] == files[..q + 1][left..] == half[..q + 1][left..] == s;
    CountedPermutation(files[left..q + 1], s0);
    CountedPermutation(files[q + 1..right + 1], t0);
    MergedHalves(files[left..q + 1], files[q + 1..right + 1], s0, t0);
    OutsideKept(all, half, files[..], left, q, right);
    MergeSegments(files, left, q, right);
  }
}
