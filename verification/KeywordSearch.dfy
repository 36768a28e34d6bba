/** The keyword count of p1/search.c: scan from the left, and after each match go on behind it. */
module KeywordSearch {

  /** The C string at the start of a buffer: what comes before the first null character. */
  function CString(s: seq<char>): (r: seq<char>)
    ensures r <= s && '\0' !in r && (r == s || s[|r|] == '\0')
  {
    if s == [] || s[0] == '\0' then [] else [s[0]] + CString(s[1..])
  }

  /** The keyword stands in the text behind `p` characters. */
  ghost predicate Occurs(text: seq<char>, key: seq<char>, p: int) {
    exists pre, post :: |pre| == p && Joined(text, pre, key, post)
  }

  predicate Joined(text: seq<char>, pre: seq<char>, key: seq<char>, post: seq<char>) {
    text == pre + key + post
  }

  /** The characters from `p` on are those of the keyword. */
  predicate Matches(text: seq<char>, key: seq<char>, p: nat) {
    p + |key| <= |text| && text[p..p + |key|] == key
  }

  lemma MatchesIffOccurs(text: seq<char>, key: seq<char>, p: nat)
    ensures Matches(text, key, p) <==> Occurs(text, key, p)
  {
    if Matches(text, key, p) {
      assert Joined(text, text[..p], key, text[p + |key|..]);
    }
    if Occurs(text, key, p) {
      var pre, post :| |pre| == p && Joined(text, pre, key, post);
      assert text[p..p + |key|] == key;
    }
  }

  lemma OccursInside(text: seq<char>, key: seq<char>, p: int)
    requires Occurs(text, key, p)
    ensures 0 <= p && p + |key| <= |text|
  {
  }

  /** strstr: the first match at or after `from`, or -1. */
  function StrStr(text: seq<char>, key: seq<char>, from: nat): (r: int)
    requires from <= |text|
    ensures r == -1 || (from <= r && r + |key| <= |text|)
    decreases |text| - from
  {
    if Matches(text, key, from) then from
    else if from == |text| then -1
    else StrStr(text, key, from + 1)
  }

  /** ... so the first occurrence, or -1 if there is none. */
  lemma {:induction false} StrStrIsFirst(text: seq<char>, key: seq<char>, from: nat)
    requires from <= |text|
    ensures var r := StrStr(text, key, from);
            && (r != -1 ==> Occurs(text, key, r))
            && (forall p :: from <= p && (r == -1 || p < r) ==> !Occurs(text, key, p))
    decreases |text| - from
  {
    var r := StrStr(text, key, from);
    MatchesIffOccurs(text, key, from);
    if !Matches(text, key, from) && from < |text| { StrStrIsFirst(text, key, from + 1); }
    forall p | from <= p && (r == -1 || p < r)
      ensures !Occurs(text, key, p)
    {
      if Occurs(text, key, p) {
        OccursInside(text, key, p);
      }
    }
  }

  /** The number of matches the scan makes from `loc` on. */
  function Greedy(text: seq<char>, key: seq<char>, loc: nat): nat
    requires loc <= |text| && |key| > 0
    decreases |text| - loc
  {
    var p := StrStr(text, key, loc);
    if p == -1 then 0 else 1 + Greedy(text, key, p + |key|)
  }

  /** Pairwise non-overlapping occurrences, none before `loc`. */
  ghost predicate Packing(text: seq<char>, key: seq<char>, loc: int, ps: set<int>) {
    && (forall p :: p in ps ==> loc <= p && Occurs(text, key, p))
    && (forall p, q :: p in ps && q in ps && p < q ==> p + |key| <= q)
  }

  lemma {:induction false} Least(ps: set<int>) returns (m: int)
    requires ps != {}
    ensures m in ps && forall p :: p in ps ==> m <= p
  {
    assert (forall x :: x !in ps) ==> ps == {};
    var x :| x in ps;
    var rest := ps - {x};
    if rest == {} {
      assert ps == {x};
      m := x;
    } else {
      var y := Least(rest);
      m := if x < y then x else y;
      assert forall p :: p in ps ==> p == x || p in rest;
    }
  }

  lemma GreedyOn(text: seq<char>, key: seq<char>, loc: nat, find: nat) returns (left: nat)
    requires loc <= |text| && key != [] && find == StrStr(text, key, loc)
    ensures left == Greedy(text, key, find + |key|) && Greedy(text, key, loc) == 1 + left
  {
    left := Greedy(text, key, find + |key|);
  }

  lemma PackingWith(text: seq<char>, key: seq<char>, loc: int, p: int, rest: set<int>) returns (ps: set<int>)
    requires key != [] && loc <= p && Occurs(text, key, p) && Packing(text, key, p + |key|, rest)
    ensures Packing(text, key, loc, ps) && |ps| == 1 + |rest|
  {
    assert p !in rest;
    ps := rest + {p};
  }

  lemma PackingWithout(text: seq<char>, key: seq<char>, loc: int, ps: set<int>, m: int, first: int)
    returns (rest: set<int>)
    requires Packing(text, key, loc, ps) && m in ps && (forall p :: p in ps ==> m <= p) && first <= m
    ensures Packing(text, key, first + |key|, rest) && |ps| == 1 + |rest|
  {
    rest := ps - {m};
  }

  /** No packing is larger than the greedy count ... */
  lemma {:induction false} GreedyIsLargest(text: seq<char>, key: seq<char>, loc: nat, ps: set<int>)
    requires loc <= |text| && |key| > 0 && Packing(text, key, loc, ps)
    ensures |ps| <= Greedy(text, key, loc)
    decreases |text| - loc
  {
    if ps != {} {
      var m := Least(ps);
      var first := StrStr(text, key, loc);
      StrStrIsFirst(text, key, loc);
      assert Occurs(text, key, m) && first <= m;
      var rest := PackingWithout(text, key, loc, ps, m, first);
      var left := GreedyOn(text, key, loc, first);
      assert |rest| <= left by { GreedyIsLargest(text, key, first + |key|, rest); }
    }
  }

  /** ... and there is one of that size. */
  lemma {:induction false} GreedyPacking(text: seq<char>, key: seq<char>, loc: nat) returns (ps: set<int>)
    requires loc <= |text| && |key| > 0
    ensures Packing(text, key, loc, ps) && |ps| == Greedy(text, key, loc)
    decreases |text| - loc
  {
    var p := StrStr(text, key, loc);
    if p == -1 {
      ps := {};
    } else {
      StrStrIsFirst(text, key, loc);
      var rest := GreedyPacking(text, key, p + |key|);
      ps := PackingWith(text, key, loc, p, rest);
      var left := GreedyOn(text, key, loc, p);
    }
  }

  /** The largest number of pairwise non-overlapping occurrences of the keyword. */
  ghost predicate IsLargestPacking(text: seq<char>, key: seq<char>, count: nat) {
    && (exists ps :: Packing(text, key, 0, ps) && |ps| == count)
    && (forall ps :: Packing(text, key, 0, ps) ==> |ps| <= count)
  }

  /** After `count` matches the scan stands at `loc`, and `find` is the next match. */
  ghost predicate Scanning(text: seq<char>, key: seq<char>, loc: int, count: nat, find: int) {
    && 0 <= loc <= |text| && key != [] && find == StrStr(text, key, loc)
    && Greedy(text, key, 0) == count + Greedy(text, key, loc)
  }

  lemma ScanOn(text: seq<char>, key: seq<char>, loc: int, count: nat, find: int)
    requires Scanning(text, key, loc, count, find) && find != -1
    ensures loc < find + |key| <= |text|
    ensures Scanning(text, key, find + |key|, count + 1, StrStr(text, key, find + |key|))
  {
    var left := GreedyOn(text, key, loc, find);
  }

  lemma ScanEnds(text: seq<char>, key: seq<char>, loc: int, count: nat)
    requires Scanning(text, key, loc, count, -1)
    ensures IsLargestPacking(text, key, count)
  {
    GreedyIsBest(text, key);
  }

  /** The value of `loc` after `k` rounds of the counting loop, or -1 if it has ended by then. */
  function LocAfter(text: seq<char>, key: seq<char>, k: nat): (loc: int)
    ensures -1 <= loc <= |text|
  {
    if k == 0 then 0
    else
      var loc := LocAfter(text, key, k - 1);
      if loc == -1 then -1
      else
        var find := StrStr(text, key, loc);
        if find == -1 then -1 else find + |key|
  }

  lemma {:induction false} RoundsScan(text: seq<char>, key: seq<char>, k: nat)
    requires key != []
    ensures var loc := LocAfter(text, key, k);
            if loc == -1 then Greedy(text, key, 0) < k else Scanning(text, key, loc, k, StrStr(text, key, loc))
  {
    if k > 0 {
      RoundsScan(text, key, k - 1);
      var loc := LocAfter(text, key, k - 1);
      if loc != -1 && StrStr(text, key, loc) != -1 {
        ScanOn(text, key, loc, k - 1, StrStr(text, key, loc));
      }
    }
  }

  /** With a keyword that is not empty there are exactly as many rounds as matches. */
  lemma RoundsAreMatches(text: seq<char>, key: seq<char>, k: nat)
    requires key != []
    ensures LocAfter(text, key, k) == -1 <==> k > Greedy(text, key, 0)
  {
    RoundsScan(text, key, k);
  }

  lemma {:induction false} LocStays(text: seq<char>, k: nat)
    ensures LocAfter(text, [], k) == 0
  {
    if k > 0 {
      LocStays(text, k - 1);
      assert Matches(text, [], 0);
    }
  }

  /** The loop ends exactly when the keyword is not empty: an empty one is found at `loc` itself, over
      and over. */
  lemma LoopEnds(text: seq<char>, key: seq<char>)
    ensures (exists k: nat :: LocAfter(text, key, k) == -1) <==> key != []
  {
    if key != [] {
      RoundsAreMatches(text, key, Greedy(text, key, 0) + 1);
    } else {
      forall k: nat
        ensures LocAfter(text, key, k) == 0
      {
        LocStays(text, k);
      }
    }
  }

  lemma GreedyIsBest(text: seq<char>, key: seq<char>)
    requires key != []
    ensures IsLargestPacking(text, key, Greedy(text, key, 0))
  {
    var best := GreedyPacking(text, key, 0);
    forall ps | Packing(text, key, 0, ps)
      ensures |ps| <= Greedy(text, key, 0)
    {
      GreedyIsLargest(text, key, 0, ps);
    }
  }

  /** The counting loop of getKeyWordCount on a file's contents: the count is the largest number
      of pairwise non-overlapping occurrences.  (With an empty keyword the program's loop never
      ends; see LoopEnds.) */
  method CountKeyWord(contents: seq<char>, key: seq<char>) returns (count: nat)
    requires |key| > 0
    ensures IsLargestPacking(CString(contents), key, count)
  {
    var text := CString(contents);
    var loc := 0;
    count := 0;
    var find := StrStr(text, key, loc);
    while find != -1
      invariant 0 <= loc <= |text| && Scanning(text, key, loc, count, find)
      decreases |text| - loc
    {
      ScanOn(text, key, loc, count, find);
      loc := find + |key|;
      count := count + 1;
      find := StrStr(text, key, loc);
    }
    ScanEnds(text, key, loc, count);
  }
}
