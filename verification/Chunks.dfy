/** The heap of p3/mem.c seen as a sequence of chunks, in address order.

    Every address is a byte offset from the start of the region (`ptr_header`), every size
    is a number of bytes, and `pad` is PADDING_SIZE (0, or 64 in debug mode).  This module
    says which chunk sequences are heaps, what one allocation and one release do to them,
    and that a heap is determined by its live blocks alone.  Module Allocator proves that
    the words in memory always represent such a sequence. */
module Chunks {

  // HEADER_ALLOCATED_SIZE and HEADER_FREE_SIZE
  const HEADER_SIZE: int := 8

  /** A chunk with its header at `addr`.  A free chunk has `size` bytes after its header;
      a live one has `size` payload bytes with `pad` bytes of padding on either side. */
  datatype Chunk = Chunk(addr: int, size: int, live: bool) {
    function End(pad: int): int {
      addr + HEADER_SIZE + (if live then size + 2 * pad else size)
    }

    /** The address Mem_Alloc returns for this (live) chunk. */
    function Payload(pad: int): int {
      addr + HEADER_SIZE + pad
    }

    predicate Fits() {
      size >= 0 && size % 4 == 0 && (live ==> size > 0)
    }
  }

  /** Chunks fill [lo, hi) without a hole. */
  ghost predicate Fills(cs: seq<Chunk>, lo: int, hi: int, pad: nat) {
    && |cs| > 0
    && cs[0].addr == lo
    && cs[|cs| - 1].End(pad) == hi
    && (forall i :: 0 <= i < |cs| ==> cs[i].Fits())
    && (forall i, j :: 0 <= i && j == i + 1 && j < |cs| ==> cs[j].addr == cs[i].End(pad))
  }

  /** Chunks tile the whole region; the first one is the permanent list head. */
  ghost predicate Tiles(cs: seq<Chunk>, total: int, pad: nat) {
    Fills(cs, 0, total, pad) && !cs[0].live
  }

  /** No two free chunks touch. */
  ghost predicate Coalesced(cs: seq<Chunk>) {
    forall i, j :: 0 <= i && j == i + 1 && j < |cs| ==> cs[i].live || cs[j].live
  }

  ghost predicate IsHeap(cs: seq<Chunk>, total: int, pad: nat) {
    Tiles(cs, total, pad) && Coalesced(cs)
  }

  /** What Mem_Init writes: one free chunk. */
  function Initial(total: int): seq<Chunk> {
    [Chunk(0, total - HEADER_SIZE, false)]
  }

  ghost function LiveBlocks(cs: seq<Chunk>): set<Chunk> {
    set i | 0 <= i < |cs| && cs[i].live :: cs[i]
  }

  // ---------- Address order ----------

  lemma {:induction false} Ordered(cs: seq<Chunk>, total: int, pad: nat, i: nat, j: nat)
    requires Tiles(cs, total, pad)
    requires i < j < |cs|
    ensures cs[i].End(pad) <= cs[j].addr
    decreases j
  {
    if j > i + 1 {
      Ordered(cs, total, pad, i, j - 1);
      assert cs[j - 1].Fits();
    }
    assert cs[j].addr == cs[j - 1].End(pad);
  }

  lemma AllOrdered(cs: seq<Chunk>, total: int, pad: nat)
    requires Tiles(cs, total, pad)
    ensures forall i, j :: 0 <= i < j < |cs| ==> cs[i].End(pad) <= cs[j].addr
    ensures forall i :: 0 <= i < |cs| ==> 0 <= cs[i].addr && cs[i].End(pad) <= total
  {
    forall i, j | 0 <= i < j < |cs|
      ensures cs[i].End(pad) <= cs[j].addr
    {
      Ordered(cs, total, pad, i, j);
    }
    forall i | 0 <= i < |cs|
      ensures 0 <= cs[i].addr && cs[i].End(pad) <= total
    {
      var last := |cs| - 1;
      assert cs[i].Fits() && cs[0].Fits() && cs[last].Fits();
      if 0 < i { Ordered(cs, total, pad, 0, i); }
      if i < last { Ordered(cs, total, pad, i, last); }
    }
  }

  /** Live payloads lie inside the region and are pairwise disjoint. */
  lemma PayloadsDisjoint(cs: seq<Chunk>, total: int, pad: nat, b: Chunk, c: Chunk)
    requires Tiles(cs, total, pad)
    requires b in LiveBlocks(cs) && c in LiveBlocks(cs) && b != c
    ensures HEADER_SIZE <= b.Payload(pad) && b.Payload(pad) + b.size <= total
    ensures b.Payload(pad) + b.size <= c.Payload(pad) || c.Payload(pad) + c.size <= b.Payload(pad)
  {
    var i :| 0 <= i < |cs| && cs[i] == b && cs[i].live;
    var j :| 0 <= j < |cs| && cs[j] == c && cs[j].live;
    AllOrdered(cs, total, pad);
  }

  // ---------- First fit ----------

  /** Round a request up to whole words, as Mem_Alloc does for a positive size. */
  function RoundUp(size: int): (r: int)
    requires size > 0
    ensures size <= r < size + 4 && r % 4 == 0
  {
    ((size - 1) / 4 + 1) * 4
  }

  /** The two fit tests, for chunk `i` and `need` bytes of payload and padding. */
  predicate Passes(cs: seq<Chunk>, i: nat, need: int)
    requires i < |cs|
  {
    !cs[i].live && (cs[i].size + HEADER_SIZE > need + HEADER_SIZE || (i != 0 && cs[i].size == need))
  }

  /** The index of the lowest-address chunk that passes, or |cs|. */
  function FirstFit(cs: seq<Chunk>, from: nat, need: int): (r: nat)
    requires from <= |cs|
    ensures from <= r <= |cs|
    ensures r < |cs| ==> Passes(cs, r, need)
    ensures forall j :: from <= j < r ==> !Passes(cs, j, need)
    decreases |cs| - from
  {
    if from == |cs| || Passes(cs, from, need) then from else FirstFit(cs, from + 1, need)
  }

  /** Chunk `i` is free and large enough for `need` bytes; the first chunk must be larger than that. */
  ghost predicate Large(cs: seq<Chunk>, i: nat, need: int) {
    i < |cs| && !cs[i].live && cs[i].size >= need && (i == 0 ==> cs[i].size > need)
  }

  /** First fit: chunk `i` is large enough and none before it is; |cs| if none is at all. */
  ghost predicate FirstLarge(cs: seq<Chunk>, i: nat, need: int) {
    && (i == |cs| || Large(cs, i, need))
    && (forall j :: 0 <= j < |cs| && j < i && !cs[j].live ==> cs[j].size < need || (j == 0 && cs[j].size == need))
  }

  lemma FirstFitIsFirstLarge(cs: seq<Chunk>, need: int)
    ensures FirstLarge(cs, FirstFit(cs, 0, need), need)
  {
    forall j | 0 <= j < FirstFit(cs, 0, need) && !cs[j].live
      ensures cs[j].size < need || (j == 0 && cs[j].size == need)
    {
      assert !Passes(cs, j, need);
    }
  }

  /** Bytes left in chunk `c` after `need` bytes and a header are carved off its tail. */
  function Remainder(c: Chunk, need: int): int {
    c.size - need - HEADER_SIZE
  }

  /** The choices that keep a heap: a split that leaves room for the free header,
      or (without padding) an exact fit. */
  predicate GoodFit(c: Chunk, need: int, pad: nat) {
    Remainder(c, need) >= 0 || (c.size == need && pad == 0)
  }

  /** The choices after which the chunks still tile the region, wherever the paddings go. */
  predicate Room(c: Chunk, need: int) {
    Remainder(c, need) >= 0 || c.size == need
  }

  // ---------- Allocation ----------

  function Split(cs: seq<Chunk>, i: nat, size: int, pad: nat): seq<Chunk>
    requires i < |cs|
  {
    var rest := Remainder(cs[i], size + 2 * pad);
    cs[..i] + [Chunk(cs[i].addr, rest, false), Chunk(cs[i].addr + HEADER_SIZE + rest, size, true)] + cs[i + 1..]
  }

  function Take(cs: seq<Chunk>, i: nat, size: int): seq<Chunk>
    requires i < |cs|
  {
    cs[i := Chunk(cs[i].addr, size, true)]
  }

  /** Carve a block for `size` payload bytes out of chunk `i`. */
  function Carve(cs: seq<Chunk>, i: nat, size: int, pad: nat): seq<Chunk>
    requires i < |cs|
  {
    if cs[i].size > size + 2 * pad then Split(cs, i, size, pad) else Take(cs, i, size)
  }

  /** The live chunk that `Carve` adds. */
  function Block(cs: seq<Chunk>, i: nat, size: int, pad: nat): Chunk
    requires i < |cs|
  {
    if cs[i].size > size + 2 * pad
    then Chunk(cs[i].addr + HEADER_SIZE + Remainder(cs[i], size + 2 * pad), size, true)
    else Chunk(cs[i].addr, size, true)
  }

  // ---------- Replacing part of a tiling ----------

  function Splice(cs: seq<Chunk>, lo: nat, hi: nat, mid: seq<Chunk>): (ds: seq<Chunk>)
    requires lo <= hi <= |cs|
  {
    cs[..lo] + mid + cs[hi..]
  }

  lemma SpliceFills(cs: seq<Chunk>, a: int, b: int, pad: nat, lo: nat, hi: nat, mid: seq<Chunk>)
    requires Fills(cs, a, b, pad) && lo < hi <= |cs|
    requires Fills(mid, cs[lo].addr, cs[hi - 1].End(pad), pad)
    ensures Fills(Splice(cs, lo, hi, mid), a, b, pad)
  {
    var ds := Splice(cs, lo, hi, mid);
    var d := lo + |mid| - hi;
    forall i, j | 0 <= i && j == i + 1 && j < |ds|
      ensures ds[j].addr == ds[i].End(pad)
    {
      if j < lo {
        assert cs[j].addr == cs[i].End(pad);
      } else if j == lo {
        assert ds[j] == mid[0];
        if lo > 0 { assert cs[j].addr == cs[i].End(pad); }
      } else if j < lo + |mid| {
        assert mid[j - lo].addr == mid[i - lo].End(pad);
      } else {
        assert cs[j - d].addr == cs[j - d - 1].End(pad);
      }
    }
  }

  lemma LiveConcat(xs: seq<Chunk>, ys: seq<Chunk>)
    ensures LiveBlocks(xs + ys) == LiveBlocks(xs) + LiveBlocks(ys)
  {
    forall c | c in LiveBlocks(xs) + LiveBlocks(ys)
      ensures c in LiveBlocks(xs + ys)
    {
      if c in LiveBlocks(xs) {
        var i :| 0 <= i < |xs| && xs[i].live && xs[i] == c;
        assert (xs + ys)[i] == c;
      } else {
        var i :| 0 <= i < |ys| && ys[i].live && ys[i] == c;
        assert (xs + ys)[|xs| + i] == c;
      }
    }
  }

  lemma SpliceLive(cs: seq<Chunk>, lo: nat, hi: nat, mid: seq<Chunk>)
    requires lo <= hi <= |cs|
    ensures LiveBlocks(cs) == LiveBlocks(cs[..lo]) + LiveBlocks(cs[lo..hi]) + LiveBlocks(cs[hi..])
    ensures LiveBlocks(Splice(cs, lo, hi, mid)) == LiveBlocks(cs[..lo]) + LiveBlocks(mid) + LiveBlocks(cs[hi..])
  {
    assert cs == cs[..lo] + (cs[lo..hi] + cs[hi..]);
    LiveConcat(cs[..lo], cs[lo..hi] + cs[hi..]);
    LiveConcat(cs[lo..hi], cs[hi..]);
    LiveConcat(cs[..lo] + mid, cs[hi..]);
    LiveConcat(cs[..lo], mid);
  }

  /** A chunk inside the gap of a free chunk is not one of the live blocks. */
  lemma NotLive(cs: seq<Chunk>, total: int, pad: nat, i: nat, c: Chunk)
    requires Tiles(cs, total, pad) && i < |cs| && !cs[i].live
    requires cs[i].addr <= c.addr < cs[i].End(pad)
    ensures c !in LiveBlocks(cs)
  {
    AllOrdered(cs, total, pad);
    forall j | 0 <= j < |cs| && cs[j].live
      ensures cs[j] != c
    {
      assert cs[j].Fits();
    }
  }

  function CarvedTail(c: Chunk, size: int, pad: nat): seq<Chunk> {
    if c.size > size + 2 * pad then
      var rest := Remainder(c, size + 2 * pad);
      [Chunk(c.addr, rest, false), Chunk(c.addr + HEADER_SIZE + rest, size, true)]
    else
      [Chunk(c.addr, size, true)]
  }

  lemma CarveIsSplice(cs: seq<Chunk>, i: nat, size: int, pad: nat)
    requires i < |cs|
    ensures Carve(cs, i, size, pad) == Splice(cs, i, i + 1, CarvedTail(cs[i], size, pad))
    ensures LiveBlocks(CarvedTail(cs[i], size, pad)) == {Block(cs, i, size, pad)}
  {
    var mid := CarvedTail(cs[i], size, pad);
    var b := Block(cs, i, size, pad);
    assert mid[|mid| - 1] == b;
    assert b in LiveBlocks(mid);
  }

  lemma CarvedTailFills(c: Chunk, size: int, pad: nat)
    requires c.Fits() && !c.live && size > 0 && size % 4 == 0 && pad % 4 == 0
    requires Room(c, size + 2 * pad)
    ensures Fills(CarvedTail(c, size, pad), c.addr, c.End(pad), pad)
  {
    var ds := CarvedTail(c, size, pad);
    if c.size > size + 2 * pad {
      assert ds[0].Fits() by { WholeWords(c.size, size, pad); }
      assert ds[1].Fits() && ds[1].addr == ds[0].End(pad) && ds[1].End(pad) == c.End(pad);
    } else {
      assert ds[0].Fits() && ds[0].End(pad) == c.End(pad);
    }
  }

  lemma WholeWords(whole: int, size: int, pad: int)
    requires whole % 4 == 0 && size % 4 == 0 && pad % 4 == 0
    ensures (whole - (size + 2 * pad) - HEADER_SIZE) % 4 == 0
    ensures (whole + HEADER_SIZE + size) % 4 == 0
  {
    assert whole - (size + 2 * pad) - HEADER_SIZE == 4 * (whole / 4 - size / 4 - 2 * (pad / 4) - 2);
    assert whole + HEADER_SIZE + size == 4 * (whole / 4 + size / 4 + 2);
  }

  lemma CarveCoalesced(cs: seq<Chunk>, i: nat, size: int, pad: nat)
    requires Coalesced(cs) && i < |cs| && !cs[i].live
    ensures Coalesced(Carve(cs, i, size, pad))
  {
    var ds := Carve(cs, i, size, pad);
    var d := |ds| - |cs|;
    forall m, n | 0 <= m && n == m + 1 && n < |ds|
      ensures ds[m].live || ds[n].live
    {
      if n <= i {
        assert cs[m].live || cs[n].live;
      } else if m > i + d {
        assert cs[m - d].live || cs[n - d].live;
      }
    }
  }

  lemma CarveKeepsHeap(cs: seq<Chunk>, total: int, pad: nat, i: nat, size: int)
    requires IsHeap(cs, total, pad) && i < |cs|
    requires size > 0 && size % 4 == 0 && pad % 4 == 0
    requires Passes(cs, i, size + 2 * pad) && Room(cs[i], size + 2 * pad)
    ensures IsHeap(Carve(cs, i, size, pad), total, pad)
    ensures Block(cs, i, size, pad) !in LiveBlocks(cs)
    ensures LiveBlocks(Carve(cs, i, size, pad)) == LiveBlocks(cs) + {Block(cs, i, size, pad)}
  {
    var mid := CarvedTail(cs[i], size, pad);
    assert cs[i].Fits();
    CarveIsSplice(cs, i, size, pad);
    CarvedTailFills(cs[i], size, pad);
    SpliceFills(cs, 0, total, pad, i, i + 1, mid);
    CarveCoalesced(cs, i, size, pad);
    CarveLive(cs, i, size, pad);
    NotLive(cs, total, pad, i, Block(cs, i, size, pad));
  }

  lemma CarveLive(cs: seq<Chunk>, i: nat, size: int, pad: nat)
    requires i < |cs| && !cs[i].live
    ensures LiveBlocks(Carve(cs, i, size, pad)) == LiveBlocks(cs) + {Block(cs, i, size, pad)}
  {
    var mid := CarvedTail(cs[i], size, pad);
    CarveIsSplice(cs, i, size, pad);
    SpliceLive(cs, i, i + 1, mid);
    assert cs[i..i + 1] == [cs[i]];
  }

  // ---------- Release ----------

  /** Mem_Free first turns the block into a free chunk where it stands ... */
  function Mark(cs: seq<Chunk>, k: nat, pad: nat): seq<Chunk>
    requires k < |cs|
  {
    cs[k := Chunk(cs[k].addr, cs[k].size + 2 * pad, false)]
  }

  /** ... then absorbs the chunk after position `k` when both are free. */
  function Absorb(cs: seq<Chunk>, k: nat): seq<Chunk>
    requires k < |cs|
  {
    if k + 1 < |cs| && !cs[k].live && !cs[k + 1].live then
      Splice(cs, k, k + 2, [Chunk(cs[k].addr, cs[k].size + HEADER_SIZE + cs[k + 1].size, false)])
    else cs
  }

  function Release(cs: seq<Chunk>, k: nat, pad: nat): seq<Chunk>
    requires 0 < k < |cs|
  {
    Absorb(Absorb(Mark(cs, k, pad), k), k - 1)
  }

  lemma MarkLive(cs: seq<Chunk>, total: int, pad: nat, k: nat)
    requires Tiles(cs, total, pad) && 0 < k < |cs| && cs[k].live
    ensures LiveBlocks(Mark(cs, k, pad)) == LiveBlocks(cs) - {cs[k]}
  {
    var ds := Mark(cs, k, pad);
    forall c | c in LiveBlocks(cs) && c != cs[k]
      ensures c in LiveBlocks(ds)
    {
      var i :| 0 <= i < |cs| && cs[i].live && cs[i] == c;
      assert ds[i] == c;
    }
    forall c | c in LiveBlocks(ds)
      ensures c in LiveBlocks(cs) && c != cs[k]
    {
      var i :| 0 <= i < |ds| && ds[i].live && ds[i] == c;
      assert cs[i] == c && cs[i].Fits() && cs[k].Fits();
      if i < k { Ordered(cs, total, pad, i, k); } else { Ordered(cs, total, pad, k, i); }
    }
  }

  lemma MarkKeeps(cs: seq<Chunk>, total: int, pad: nat, k: nat)
    requires Tiles(cs, total, pad) && 0 < k < |cs| && cs[k].live && pad % 4 == 0
    ensures Tiles(Mark(cs, k, pad), total, pad)
    ensures LiveBlocks(Mark(cs, k, pad)) == LiveBlocks(cs) - {cs[k]}
  {
    var c := Chunk(cs[k].addr, cs[k].size + 2 * pad, false);
    assert cs[k].Fits();
    assert Mark(cs, k, pad) == Splice(cs, k, k + 1, [c]);
    SpliceFills(cs, 0, total, pad, k, k + 1, [c]);
    MarkLive(cs, total, pad, k);
  }

  lemma NoneLive(cs: seq<Chunk>)
    requires forall i :: 0 <= i < |cs| ==> !cs[i].live
    ensures LiveBlocks(cs) == {}
  {
  }

  lemma AbsorbKeeps(cs: seq<Chunk>, total: int, pad: nat, k: nat)
    requires Tiles(cs, total, pad) && k < |cs|
    ensures Tiles(Absorb(cs, k), total, pad)
    ensures LiveBlocks(Absorb(cs, k)) == LiveBlocks(cs)
  {
    if k + 1 < |cs| && !cs[k].live && !cs[k + 1].live {
      var c := Chunk(cs[k].addr, cs[k].size + HEADER_SIZE + cs[k + 1].size, false);
      assert cs[k].Fits() && cs[k + 1].Fits();
      assert c.Fits() by { WholeWords(cs[k].size, cs[k + 1].size, 0); }
      SpliceFills(cs, 0, total, pad, k, k + 2, [c]);
      SpliceLive(cs, k, k + 2, [c]);
      NoneLive([c]);
      NoneLive(cs[k..k + 2]);
    }
  }

  lemma ReleaseCoalesced(cs: seq<Chunk>, pad: nat, k: nat)
    requires Coalesced(cs) && 0 < k < |cs| && cs[k].live
    ensures Coalesced(Release(cs, k, pad))
  {
    var m := Mark(cs, k, pad);
    var a := Absorb(m, k);
    assert k + 1 < |cs| ==> m[k + 1] == cs[k + 1];
    forall i, j | k <= i && j == i + 1 && j < |a|
      ensures a[i].live || a[j].live
    {
      if |a| < |m| { assert a[j] == cs[j + 1]; }
    }
    assert forall i :: 0 <= i < k ==> a[i] == cs[i];
    assert !a[k].live;
    var r := Absorb(a, k - 1);
    if |r| < |a| {
      assert forall i :: 0 <= i < k - 1 ==> r[i] == a[i];
      assert forall i :: k <= i < |r| ==> r[i] == a[i + 1];
    }
  }

  lemma ReleaseKeepsHeap(cs: seq<Chunk>, total: int, pad: nat, k: nat)
    requires IsHeap(cs, total, pad) && 0 < k < |cs| && cs[k].live && pad % 4 == 0
    ensures IsHeap(Release(cs, k, pad), total, pad)
    ensures LiveBlocks(Release(cs, k, pad)) == LiveBlocks(cs) - {cs[k]}
  {
    MarkKeeps(cs, total, pad, k);
    AbsorbKeeps(Mark(cs, k, pad), total, pad, k);
    AbsorbKeeps(Absorb(Mark(cs, k, pad), k), total, pad, k - 1);
    ReleaseCoalesced(cs, pad, k);
  }

  // ---------- A heap is determined by its live blocks ----------

  /** In two heaps with the same live blocks that agree before position `k`,
      the chunk of the first that starts there does not end before the other's. */
  lemma NoShorter(cs: seq<Chunk>, ds: seq<Chunk>, total: int, pad: nat, k: nat)
    requires IsHeap(cs, total, pad) && IsHeap(ds, total, pad)
    requires LiveBlocks(cs) == LiveBlocks(ds)
    requires k < |cs| && k < |ds| && cs[k].addr == ds[k].addr && !ds[k].live
    ensures !cs[k].live && cs[k].size >= ds[k].size
  {
    AllOrdered(cs, total, pad);
    AllOrdered(ds, total, pad);
    assert cs[k].Fits() && ds[k].Fits();
    if cs[k].live {
      assert cs[k] in LiveBlocks(cs);
      NotLive(ds, total, pad, k, cs[k]);
      assert false;
    }
    if cs[k].size < ds[k].size {
      assert k + 1 < |cs| && cs[k + 1].live;
      assert cs[k + 1] in LiveBlocks(cs);
      NotLive(ds, total, pad, k, cs[k + 1]);
      assert false;
    }
  }

  lemma SameChunk(cs: seq<Chunk>, ds: seq<Chunk>, total: int, pad: nat, k: nat)
    requires IsHeap(cs, total, pad) && IsHeap(ds, total, pad)
    requires LiveBlocks(cs) == LiveBlocks(ds)
    requires k < |cs| && k < |ds| && cs[k].addr == ds[k].addr
    ensures cs[k] == ds[k]
  {
    if !ds[k].live {
      NoShorter(cs, ds, total, pad, k);
      NoShorter(ds, cs, total, pad, k);
    } else if !cs[k].live {
      NoShorter(ds, cs, total, pad, k);
    } else {
      assert cs[k] in LiveBlocks(ds);
      var j :| 0 <= j < |ds| && ds[j].live && ds[j] == cs[k];
      AllOrdered(ds, total, pad);
      assert ds[j].Fits() && ds[k].Fits();
    }
  }

  lemma {:induction false} SamePrefix(cs: seq<Chunk>, ds: seq<Chunk>, total: int, pad: nat, k: nat)
    requires IsHeap(cs, total, pad) && IsHeap(ds, total, pad)
    requires LiveBlocks(cs) == LiveBlocks(ds)
    requires k <= |cs|
    ensures k <= |ds| && cs[..k] == ds[..k]
  {
    if k > 0 {
      var i := k - 1;
      SamePrefix(cs, ds, total, pad, i);
      if i > 0 {
        AllOrdered(cs, total, pad);
        assert cs[i].Fits() && cs[..i][i - 1] == ds[..i][i - 1];
        assert cs[i].addr == cs[i - 1].End(pad);
      }
      SameChunk(cs, ds, total, pad, i);
      assert cs[..k] == cs[..i] + [cs[i]] && ds[..k] == ds[..i] + [ds[i]];
    }
  }

  /** The free list is a function of the set of live blocks alone. */
  lemma Canonical(cs: seq<Chunk>, ds: seq<Chunk>, total: int, pad: nat)
    requires IsHeap(cs, total, pad) && IsHeap(ds, total, pad)
    requires LiveBlocks(cs) == LiveBlocks(ds)
    ensures cs == ds
  {
    SamePrefix(cs, ds, total, pad, |cs|);
    SamePrefix(ds, cs, total, pad, |ds|);
  }

  // ---------- Releasing by block ----------

  /** The position of a live block. */
  function IndexOf(cs: seq<Chunk>, b: Chunk): (k: nat)
    requires b in cs
    ensures k < |cs| && cs[k] == b
  {
    if cs[0] == b then 0 else 1 + IndexOf(cs[1..], b)
  }

  function ReleaseBlock(cs: seq<Chunk>, b: Chunk, pad: nat): seq<Chunk>
    requires b in cs && cs[0] != b
  {
    Release(cs, IndexOf(cs, b), pad)
  }

  lemma ReleaseBlockKeepsHeap(cs: seq<Chunk>, total: int, pad: nat, b: Chunk)
    requires IsHeap(cs, total, pad) && b in LiveBlocks(cs) && pad % 4 == 0
    ensures b in cs && cs[0] != b
    ensures IsHeap(ReleaseBlock(cs, b, pad), total, pad)
    ensures LiveBlocks(ReleaseBlock(cs, b, pad)) == LiveBlocks(cs) - {b}
  {
    ReleaseKeepsHeap(cs, total, pad, IndexOf(cs, b));
  }

  /** Freeing two blocks in either order gives the same heap. */
  lemma ReleaseCommutes(cs: seq<Chunk>, total: int, pad: nat, b: Chunk, c: Chunk)
    requires IsHeap(cs, total, pad) && pad % 4 == 0
    requires b in LiveBlocks(cs) && c in LiveBlocks(cs) && b != c
    ensures b in cs && c in cs && cs[0] != b && cs[0] != c
    ensures var x := ReleaseBlock(cs, b, pad); var y := ReleaseBlock(cs, c, pad);
            c in x && x[0] != c && b in y && y[0] != b && ReleaseBlock(x, c, pad) == ReleaseBlock(y, b, pad)
  {
    ReleaseBlockKeepsHeap(cs, total, pad, b);
    ReleaseBlockKeepsHeap(cs, total, pad, c);
    var x, y := ReleaseBlock(cs, b, pad), ReleaseBlock(cs, c, pad);
    ReleaseBlockKeepsHeap(x, total, pad, c);
    ReleaseBlockKeepsHeap(y, total, pad, b);
    Canonical(ReleaseBlock(x, c, pad), ReleaseBlock(y, b, pad), total, pad);
  }

  /** Freeing the block just allocated restores the heap, for a split and for an exact fit. */
  lemma ReleaseUndoesCarve(cs: seq<Chunk>, total: int, pad: nat, i: nat, size: int)
    requires IsHeap(cs, total, pad) && i < |cs|
    requires size > 0 && size % 4 == 0 && pad % 4 == 0
    requires Passes(cs, i, size + 2 * pad) && GoodFit(cs[i], size + 2 * pad, pad)
    ensures var ds := Carve(cs, i, size, pad); var b := Block(cs, i, size, pad);
            b in ds && ds[0] != b && ReleaseBlock(ds, b, pad) == cs
  {
    var ds, b := Carve(cs, i, size, pad), Block(cs, i, size, pad);
    CarveKeepsHeap(cs, total, pad, i, size);
    ReleaseBlockKeepsHeap(ds, total, pad, b);
    Canonical(ReleaseBlock(ds, b, pad), cs, total, pad);
  }

  lemma IndexUnique(cs: seq<Chunk>, total: int, pad: nat, b: Chunk, k: nat)
    requires Tiles(cs, total, pad) && k < |cs| && cs[k] == b
    ensures IndexOf(cs, b) == k
  {
    AllOrdered(cs, total, pad);
    assert b.Fits();
  }

  // ---------- Runs ----------

  /** What a client does: request `size` bytes, return a live block, or store a word in the
      payload of one.  (On any other block a call is not lawful, and here leaves the heap alone.) */
  datatype Call = Request(size: int) | Return(block: Chunk) | Store(block: Chunk, offset: int, value: int)

  ghost function Step(cs: seq<Chunk>, c: Call, pad: nat): seq<Chunk> {
    match c
    case Request(size) =>
      if size <= 0 then cs
      else
        var need := RoundUp(size);
        var i := FirstFit(cs, 0, need + 2 * pad);
        if i == |cs| then cs else Carve(cs, i, need, pad)
    case Return(b) =>
      if b in cs && b.live && cs[0] != b then ReleaseBlock(cs, b, pad) else cs
    case Store(_, _, _) => cs
  }

  ghost function Run(cs: seq<Chunk>, calls: seq<Call>, pad: nat): seq<Chunk>
    decreases |calls|
  {
    if calls == [] then cs else Run(Step(cs, calls[0], pad), calls[1..], pad)
  }

  /** The request finds no chunk, or one it can be carved from. */
  ghost predicate Served(cs: seq<Chunk>, c: Call, pad: nat) {
    c.Request? && c.size > 0 ==>
      var need := RoundUp(c.size) + 2 * pad;
      var i := FirstFit(cs, 0, need);
      i < |cs| ==> GoodFit(cs[i], need, pad)
  }

  ghost predicate AllServed(cs: seq<Chunk>, calls: seq<Call>, pad: nat)
    decreases |calls|
  {
    calls != [] ==> Served(cs, calls[0], pad) && AllServed(Step(cs, calls[0], pad), calls[1..], pad)
  }

  ghost predicate Lawful(cs: seq<Chunk>, c: Call) {
    match c
    case Request(_) => true
    case Return(b) => b in LiveBlocks(cs)
    case Store(b, offset, _) => b in LiveBlocks(cs) && 0 <= offset && offset % 4 == 0 && offset + 4 <= b.size
  }

  ghost predicate AllLawful(cs: seq<Chunk>, calls: seq<Call>, pad: nat)
    decreases |calls|
  {
    calls != [] ==> Lawful(cs, calls[0]) && AllLawful(Step(cs, calls[0], pad), calls[1..], pad)
  }

  /** What clients have stored where, and not since returned. */
  ghost function Noted(m: map<int, int>, c: Call, pad: nat): map<int, int> {
    match c
    case Request(_) => m
    case Return(b) => map a | a in m && !(b.Payload(pad) <= a < b.Payload(pad) + b.size) :: m[a]
    case Store(b, offset, value) => m[b.Payload(pad) + offset := value]
  }

  ghost function Notes(m: map<int, int>, calls: seq<Call>, pad: nat): map<int, int>
    decreases |calls|
  {
    if calls == [] then m else Notes(Noted(m, calls[0], pad), calls[1..], pad)
  }

  lemma RequestKeepsHeap(cs: seq<Chunk>, total: int, pad: nat, size: int)
    requires IsHeap(cs, total, pad) && pad % 4 == 0 && Served(cs, Request(size), pad)
    ensures IsHeap(Step(cs, Request(size), pad), total, pad)
  {
    if size > 0 {
      var need := RoundUp(size);
      var i := FirstFit(cs, 0, need + 2 * pad);
      if i < |cs| { CarveKeepsHeap(cs, total, pad, i, need); }
    }
  }

  lemma StepKeepsHeap(cs: seq<Chunk>, total: int, pad: nat, c: Call)
    requires IsHeap(cs, total, pad) && pad % 4 == 0 && Served(cs, c, pad)
    ensures IsHeap(Step(cs, c, pad), total, pad)
  {
    match c
    case Request(size) =>
      RequestKeepsHeap(cs, total, pad, size);
    case Return(b) =>
      if b in cs && b.live && cs[0] != b {
        ReleaseBlockKeepsHeap(cs, total, pad, b);
      }
    case Store(_, _, _) =>
  }

  lemma {:induction false} RunKeepsHeap(cs: seq<Chunk>, total: int, pad: nat, calls: seq<Call>)
    requires IsHeap(cs, total, pad) && pad % 4 == 0 && AllServed(cs, calls, pad)
    ensures IsHeap(Run(cs, calls, pad), total, pad)
    decreases |calls|
  {
    if calls != [] {
      StepKeepsHeap(cs, total, pad, calls[0]);
      RunKeepsHeap(Step(cs, calls[0], pad), total, pad, calls[1..]);
    }
  }

  lemma StaysLive(cs: seq<Chunk>, total: int, pad: nat, c: Call, b: Chunk)
    requires IsHeap(cs, total, pad) && pad % 4 == 0 && Served(cs, c, pad) && Lawful(cs, c)
    requires b in LiveBlocks(cs) && c != Return(b)
    ensures b in LiveBlocks(Step(cs, c, pad))
  {
    match c
    case Request(size) =>
      if size > 0 {
        var need := RoundUp(size);
        var i := FirstFit(cs, 0, need + 2 * pad);
        if i < |cs| { CarveKeepsHeap(cs, total, pad, i, need); }
      }
    case Return(d) =>
      ReleaseBlockKeepsHeap(cs, total, pad, d);
    case Store(_, _, _) =>
  }

  /** The calls neither return block `b` nor store at address `a`. */
  ghost predicate LeavesAlone(calls: seq<Call>, b: Chunk, a: int, pad: nat) {
    forall i :: 0 <= i < |calls| ==>
      calls[i] != Return(b) && (calls[i].Store? ==> calls[i].block.Payload(pad) + calls[i].offset != a)
  }

  lemma OtherReturned(cs: seq<Chunk>, total: int, pad: nat, m: map<int, int>, c: Call, b: Chunk, a: int)
    requires IsHeap(cs, total, pad) && Lawful(cs, c) && b in LiveBlocks(cs) && LeavesAlone([c], b, a, pad)
    requires b.Payload(pad) <= a < b.Payload(pad) + b.size && a in m
    ensures a in Noted(m, c, pad) && Noted(m, c, pad)[a] == m[a]
  {
    assert [c][0] == c;
    if c.Return? { PayloadsDisjoint(cs, total, pad, b, c.block); }
  }

  lemma {:induction false} NoteStays(cs: seq<Chunk>, total: int, pad: nat, calls: seq<Call>, m: map<int, int>,
                                     b: Chunk, a: int)
    requires IsHeap(cs, total, pad) && pad % 4 == 0 && AllServed(cs, calls, pad) && AllLawful(cs, calls, pad)
    requires b in LiveBlocks(cs) && b.Payload(pad) <= a < b.Payload(pad) + b.size && a in m
    requires LeavesAlone(calls, b, a, pad)
    ensures a in Notes(m, calls, pad) && Notes(m, calls, pad)[a] == m[a]
    decreases |calls|
  {
    if calls != [] {
      assert LeavesAlone([calls[0]], b, a, pad) && LeavesAlone(calls[1..], b, a, pad);
      OtherReturned(cs, total, pad, m, calls[0], b, a);
      StaysLive(cs, total, pad, calls[0], b);
      StepKeepsHeap(cs, total, pad, calls[0]);
      NoteStays(Step(cs, calls[0], pad), total, pad, calls[1..], Noted(m, calls[0], pad), b, a);
    }
  }

  /** What a client stores stays noted, whatever else is called, until the client stores there again or
      returns the block. */
  lemma StoreStaysNoted(cs: seq<Chunk>, total: int, pad: nat, calls: seq<Call>, m: map<int, int>)
    requires IsHeap(cs, total, pad) && pad % 4 == 0 && AllServed(cs, calls, pad) && AllLawful(cs, calls, pad)
    requires calls != [] && calls[0].Store?
    requires LeavesAlone(calls[1..], calls[0].block, calls[0].block.Payload(pad) + calls[0].offset, pad)
    ensures var a := calls[0].block.Payload(pad) + calls[0].offset;
            a in Notes(m, calls, pad) && Notes(m, calls, pad)[a] == calls[0].value
  {
    var a := calls[0].block.Payload(pad) + calls[0].offset;
    assert Lawful(cs, calls[0]);
    NoteStays(cs, total, pad, calls[1..], Noted(m, calls[0], pad), calls[0].block, a);
  }

  /** Two runs from the same region that leave the same blocks live leave the same heap,
      whatever was requested and returned, and in whatever order, on the way. */
  lemma RunsAgree(total: int, pad: nat, calls: seq<Call>, calls': seq<Call>)
    requires total > HEADER_SIZE && total % 4 == 0 && pad % 4 == 0
    requires AllServed(Initial(total), calls, pad) && AllServed(Initial(total), calls', pad)
    requires LiveBlocks(Run(Initial(total), calls, pad)) == LiveBlocks(Run(Initial(total), calls', pad))
    ensures Run(Initial(total), calls, pad) == Run(Initial(total), calls', pad)
  {
    RunKeepsHeap(Initial(total), total, pad, calls);
    RunKeepsHeap(Initial(total), total, pad, calls');
    Canonical(Run(Initial(total), calls, pad), Run(Initial(total), calls', pad), total, pad);
  }

  /** Once every block has been returned, in any order, the single initial chunk is back. */
  lemma AllReturned(total: int, pad: nat, calls: seq<Call>)
    requires total > HEADER_SIZE && total % 4 == 0 && pad % 4 == 0
    requires AllServed(Initial(total), calls, pad)
    requires LiveBlocks(Run(Initial(total), calls, pad)) == {}
    ensures Run(Initial(total), calls, pad) == Initial(total)
  {
    RunsAgree(total, pad, calls, []);
  }

  // ---------- Multiples of eight ----------

  predicate Octet(c: Chunk) {
    c.size % 8 == 0
  }

  ghost predicate Octets(cs: seq<Chunk>) {
    forall c :: c in cs ==> Octet(c)
  }

  predicate OctetCall(c: Call) {
    c.Request? && c.size > 0 ==> RoundUp(c.size) % 8 == 0
  }

  ghost predicate OctetCalls(calls: seq<Call>) {
    forall c :: c in calls ==> OctetCall(c)
  }

  lemma AbsorbOctets(cs: seq<Chunk>, k: nat)
    requires Octets(cs) && k < |cs|
    ensures Octets(Absorb(cs, k))
  {
    if k + 1 < |cs| && !cs[k].live && !cs[k + 1].live {
      assert Octet(cs[k]) && Octet(cs[k + 1]);
      var c := Chunk(cs[k].addr, cs[k].size + HEADER_SIZE + cs[k + 1].size, false);
      assert c.size == 8 * (cs[k].size / 8 + 1 + cs[k + 1].size / 8);
      forall d | d in Absorb(cs, k)
        ensures Octet(d)
      {
        assert d in cs[..k] || d == c || d in cs[k + 2..];
      }
    }
  }

  lemma CarveOctets(cs: seq<Chunk>, i: nat, size: int, pad: nat)
    requires Octets(cs) && i < |cs| && size % 8 == 0 && pad % 8 == 0
    ensures Octets(Carve(cs, i, size, pad))
  {
    assert Octet(cs[i]);
    CarveIsSplice(cs, i, size, pad);
    var mid := CarvedTail(cs[i], size, pad);
    assert forall d :: d in mid ==> Octet(d);
    forall d | d in Splice(cs, i, i + 1, mid)
      ensures Octet(d)
    {
      assert d in cs[..i] || d in mid || d in cs[i + 1..];
    }
  }

  lemma ReleaseOctets(cs: seq<Chunk>, k: nat, pad: nat)
    requires Octets(cs) && 0 < k < |cs| && pad % 8 == 0
    ensures Octets(Release(cs, k, pad))
  {
    assert Octet(cs[k]);
    var c := Chunk(cs[k].addr, cs[k].size + 2 * pad, false);
    assert c.size == 8 * (cs[k].size / 8 + 2 * (pad / 8));
    assert Octets(cs[k := c]);
    AbsorbOctets(Mark(cs, k, pad), k);
    AbsorbOctets(Absorb(Mark(cs, k, pad), k), k - 1);
  }

  /** Between multiples of eight there is room for a header, or no difference. */
  lemma EightApart(whole: int, need: int)
    requires whole % 8 == 0 && need % 8 == 0 && whole >= need
    ensures whole - need - HEADER_SIZE >= 0 || whole == need
  {
    assert whole - need == 8 * (whole / 8 - need / 8);
  }

  lemma EightSum(size: int, pad: int)
    requires size % 8 == 0 && pad % 8 == 0
    ensures (size + 2 * pad) % 8 == 0
  {
    assert size + 2 * pad == 8 * (size / 8 + 2 * (pad / 8));
  }

  /** Whatever the padding, no fit leaves a remainder of -4. */
  lemma OctetsRoomy(cs: seq<Chunk>, size: int, pad: nat)
    requires Octets(cs) && size > 0 && RoundUp(size) % 8 == 0 && pad % 8 == 0
    ensures var need := RoundUp(size) + 2 * pad; var i := FirstFit(cs, 0, need);
            i < |cs| ==> Room(cs[i], need)
  {
    var need := RoundUp(size) + 2 * pad;
    EightSum(RoundUp(size), pad);
    var i := FirstFit(cs, 0, need);
    if i < |cs| {
      assert Octet(cs[i]);
      EightApart(cs[i].size, need);
    }
  }

  lemma OctetServed(cs: seq<Chunk>, c: Call)
    requires Octets(cs) && OctetCall(c)
    ensures Served(cs, c, 0)
  {
    if c.Request? && c.size > 0 { OctetsRoomy(cs, c.size, 0); }
  }

  lemma StepOctets(cs: seq<Chunk>, pad: nat, c: Call)
    requires Octets(cs) && OctetCall(c) && pad % 8 == 0
    ensures Octets(Step(cs, c, pad))
    ensures pad == 0 ==> Served(cs, c, pad)
  {
    OctetServed(cs, c);
    match c
    case Request(size) =>
      if size > 0 {
        var need := RoundUp(size);
        var i := FirstFit(cs, 0, need + 2 * pad);
        if i < |cs| { CarveOctets(cs, i, need, pad); }
      }
    case Return(b) =>
      if b in cs && b.live && cs[0] != b {
        ReleaseOctets(cs, IndexOf(cs, b), pad);
      }
    case Store(_, _, _) =>
  }

  /** When the region and every rounded request are multiples of eight and debug is off,
      no call of any run meets the remainder that corrupts the heap. */
  lemma {:induction false} OctetRunsServed(cs: seq<Chunk>, calls: seq<Call>)
    requires Octets(cs) && OctetCalls(calls)
    ensures AllServed(cs, calls, 0)
    decreases |calls|
  {
    if calls != [] {
      StepOctets(cs, 0, calls[0]);
      OctetRunsServed(Step(cs, calls[0], 0), calls[1..]);
    }
  }

  /** In debug mode too, no request after such a run meets that remainder: an exact fit is the only bad
      one left. */
  lemma {:induction false} OctetRunsRoomy(cs: seq<Chunk>, calls: seq<Call>, pad: nat, size: int)
    requires Octets(cs) && OctetCalls(calls) && OctetCall(Request(size)) && size > 0 && pad % 8 == 0
    ensures var need := RoundUp(size) + 2 * pad; var end := Run(cs, calls, pad); var i := FirstFit(end, 0, need);
            i < |end| ==> Room(end[i], need)
    decreases |calls|
  {
    if calls == [] {
      OctetsRoomy(cs, size, pad);
    } else {
      StepOctets(cs, pad, calls[0]);
      OctetRunsRoomy(Step(cs, calls[0], pad), calls[1..], pad, size);
    }
  }

  lemma EightFour(n: int)
    requires n % 8 == 0
    ensures n % 4 == 0
  {
    assert n == 4 * (2 * (n / 8));
  }

  lemma InitialOctets(total: int)
    requires total % 8 == 0
    ensures Octets(Initial(total))
  {
    assert total - HEADER_SIZE == 8 * (total / 8 - 1);
    assert Octet(Initial(total)[0]);
  }

  lemma OctetRunsAreHeaps(total: int, calls: seq<Call>)
    requires total > HEADER_SIZE && total % 8 == 0 && OctetCalls(calls)
    ensures IsHeap(Run(Initial(total), calls, 0), total, 0)
  {
    EightFour(total);
    InitialOctets(total);
    OctetRunsServed(Initial(total), calls);
    RunKeepsHeap(Initial(total), total, 0, calls);
  }

  // ---------- When a fit is good ----------

  /** The address Mem_Alloc returns from chunk `c`.  A split first lowers the chunk's size
      word and then stores the block's size at the new tail; with a remainder of -4 the tail
      starts at the size word itself, so the address is computed from the request instead.
      The exact fit leaves the padding out. */
  function ReturnedFrom(c: Chunk, size: int, pad: nat): int {
    if c.size > size + 2 * pad then
      var rest := Remainder(c, size + 2 * pad);
      c.addr + HEADER_SIZE + (if rest == -4 then size else rest) + HEADER_SIZE + pad
    else
      c.addr + HEADER_SIZE
  }

  lemma WholeRemainder(whole: int, size: int, pad: int)
    requires whole % 4 == 0 && size % 4 == 0 && pad % 4 == 0
    ensures var rest := whole - (size + 2 * pad) - HEADER_SIZE;
            rest <= -8 || rest == -4 || rest >= 0
  {
    WholeWords(whole, size, pad);
  }

  /** The returned payload, with its header and paddings, lies inside the chunk it came
      from exactly when the fit is a good one. */
  lemma InsideChunkIffGood(c: Chunk, size: int, pad: nat)
    requires c.Fits() && size > 0 && size % 4 == 0 && pad % 4 == 0
    requires c.size >= size + 2 * pad
    ensures var p := ReturnedFrom(c, size, pad);
            (c.addr <= p - pad - HEADER_SIZE && p + size + pad <= c.addr + HEADER_SIZE + c.size)
            <==> GoodFit(c, size + 2 * pad, pad)
  {
    WholeRemainder(c.size, size, pad);
  }

  /** A remainder of -4: in a region of 12 bytes a request for 8 passes the split test, and the
      returned payload starts beyond the end of the mapping. */
  lemma SplitOverruns()
    ensures IsHeap(Initial(20), 20, 0)
    ensures FirstFit(Initial(20), 0, RoundUp(8)) == 0
    ensures Remainder(Initial(20)[0], 8) == -4 && ReturnedFrom(Initial(20)[0], 8, 0) > 20
  {
    assert Initial(20)[0].Fits();
    assert Passes(Initial(20), 0, 8);
  }

  /** An exact fit in debug mode, reached by three calls: the next request finds the chunk that the
      first block left, and takes all of it.  Method DebugExactFit of module Allocators says what
      comes of it. */
  lemma ExactFitReachable()
    ensures var calls := [Request(4), Request(4), Return(Chunk(148, 4, true))];
            var cs := [Chunk(0, 0, false), Chunk(8, 4, true), Chunk(148, 132, false)];
            AllServed(Initial(288), calls, 64) && AllLawful(Initial(288), calls, 64) &&
            Run(Initial(288), calls, 64) == cs &&
            FirstFit(cs, 0, RoundUp(4) + 2 * 64) == 2 && cs[2].size == RoundUp(4) + 2 * 64
  {
    var b, c := Chunk(8, 4, true), Chunk(148, 4, true);
    var calls := [Request(4), Request(4), Return(c)];
    var s0, s1 := Initial(288), [Chunk(0, 140, false), c];
    var s2, s3 := [Chunk(0, 0, false), b, c], [Chunk(0, 0, false), b, Chunk(148, 132, false)];
    assert Passes(s0, 0, 132) && Carve(s0, 0, 4, 64) == s1;
    assert Passes(s1, 0, 132) && Carve(s1, 0, 4, 64) == s2;
    assert s2[2] == c && s2[2] in LiveBlocks(s2);
    assert IndexOf(s2, c) == 2 by { assert s2[1..][0] == b && s2[1..][1..][0] == c; }
    assert Mark(s2, 2, 64) == s3;
    assert calls[1..] == [Request(4), Return(c)] && calls[1..][1..] == [Return(c)] && calls[1..][1..][1..] == [];
    assert !Passes(s3, 0, 132) && !Passes(s3, 1, 132) && Passes(s3, 2, 132);
    FirstFitIs(s3, 132, 2);
  }

  lemma FirstFitIs(cs: seq<Chunk>, need: int, i: nat)
    requires i < |cs| && Passes(cs, i, need) && forall j :: 0 <= j < i ==> !Passes(cs, j, need)
    ensures FirstFit(cs, 0, need) == i
  {
  }
}
