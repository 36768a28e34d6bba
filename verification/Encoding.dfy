/** How p3/mem.c keeps a heap in memory: `w[a]` is the 4-byte word at byte offset `a` of the
    region (only multiples of 4 are ever used), and the free list is threaded through the
    headers of the free chunks. */
module Encoding {
  import opened Chunks

  const FREE_PATTERN: int := 0xDEADBEEF - 0x1_0000_0000
  const PADDING_PATTERN: int := 0xABCDDCBA - 0x1_0000_0000

  // ---------- The free list ----------

  ghost function FreeAddrs(cs: seq<Chunk>): set<int> {
    if cs == [] then {}
    else FreeAddrs(cs[1..]) + (if cs[0].live then {} else {cs[0].addr})
  }

  lemma {:induction false} FreeAddrsIs(cs: seq<Chunk>)
    ensures FreeAddrs(cs) == set c | c in cs && !c.live :: c.addr
  {
    if cs != [] {
      FreeAddrsIs(cs[1..]);
      assert cs == [cs[0]] + cs[1..];
      assert forall c :: c in cs <==> c == cs[0] || c in cs[1..];
    }
  }

  ghost predicate NoneAfter(ks: set<int>, a: int) {
    forall k :: k in ks ==> k <= a
  }

  ghost predicate NoneBetween(ks: set<int>, a: int, b: int) {
    forall k :: k in ks ==> k <= a || b <= k
  }

  /** `link` leads from the free chunk at `a` to the next free chunk: -1 for none. */
  ghost predicate LinksTo(ks: set<int>, a: int, link: int) {
    if link == -1 then NoneAfter(ks, a)
    else link > 0 && a + link in ks && NoneBetween(ks, a, a + link)
  }

  ghost predicate EncodesChunk(w: seq<int>, ks: set<int>, c: Chunk) {
    && 0 <= c.addr && c.addr + HEADER_SIZE <= |w|
    && (c.live ==> w[c.addr] == c.size)
    && (!c.live ==> LinksTo(ks, c.addr, w[c.addr]) && w[c.addr + 4] == c.size)
  }

  ghost predicate EncodesAll(w: seq<int>, ks: set<int>, cs: seq<Chunk>) {
    forall c :: c in cs ==> EncodesChunk(w, ks, c)
  }

  /** The words hold the size of every live block, and the size of every free chunk with
      its distance to the next one in address order. */
  ghost predicate Encodes(w: seq<int>, cs: seq<Chunk>) {
    EncodesAll(w, FreeAddrs(cs), cs)
  }

  ghost predicate Covers(ks: set<int>, cs: seq<Chunk>) {
    forall c :: c in cs && !c.live ==> c.addr in ks
  }

  ghost predicate Apart(c: Chunk, d: Chunk, pad: nat) {
    c.End(pad) <= d.addr || d.End(pad) <= c.addr
  }

  /** The tiling, seen as a set of chunks: all inside the region, no two overlapping. */
  ghost predicate Separated(cs: seq<Chunk>, total: int, pad: nat) {
    && (forall c :: c in cs ==> c.Fits() && 0 <= c.addr && c.End(pad) <= total)
    && (forall c, d {:trigger Apart(c, d, pad)} :: c in cs && d in cs ==> c == d || Apart(c, d, pad))
  }

  lemma TilesSeparated(cs: seq<Chunk>, total: int, pad: nat)
    requires Tiles(cs, total, pad)
    ensures Separated(cs, total, pad)
  {
    AllOrdered(cs, total, pad);
  }

  // ---------- What each section of the code does to the words ----------

  /** Lower the size of chunk `c` and store the header of the block carved off its tail. */
  function SplitWords(w: seq<int>, c: Chunk, size: int, pad: nat): (v: seq<int>)
    requires 0 <= c.addr && c.addr + 8 + c.size <= |w|
    requires -4 <= Remainder(c, size + 2 * pad) && size > 0
    ensures |v| == |w|
  {
    var rest := Remainder(c, size + 2 * pad);
    w[c.addr + 4 := rest][c.addr + 8 + rest := size]
  }

  /** Unlink the chunk at `a` from its predecessor at `p`, and store the block's header. */
  function TakeWords(w: seq<int>, p: int, a: int, size: int): (v: seq<int>)
    requires 0 <= p < a < |w|
    ensures |v| == |w|
  {
    w[p := if w[a] != -1 then w[p] + w[a] else -1][a := size]
  }

  /** Insert a free chunk of `size` bytes at `a`, after the free chunk at `p`. */
  function InsertWords(w: seq<int>, p: int, a: int, size: int): (v: seq<int>)
    requires 0 <= p < a && a + 8 <= |w|
    ensures |v| == |w|
  {
    w[a := if w[p] != -1 then p + w[p] - a else -1][a + 4 := size][p := a - p]
  }

  /** Merge the free chunk at `b` into the one at `a`. */
  function MergeWords(w: seq<int>, a: int, b: int): (v: seq<int>)
    requires 0 <= a && a + 8 <= b && b + 8 <= |w|
    ensures |v| == |w|
  {
    w[a := if w[b] != -1 then w[a] + w[b] else -1][a + 4 := w[a + 4] + (w[b + 4] + HEADER_SIZE)]
  }

  // ---------- Linking and unlinking, on the set of free addresses ----------

  lemma UnlinkPrevious(ks: set<int>, p: int, a: int, lp: int, la: int)
    requires p in ks && a in ks && p < a && NoneBetween(ks, p, a)
    requires LinksTo(ks, p, lp) && LinksTo(ks, a, la)
    ensures lp == a - p
    ensures LinksTo(ks - {a}, p, if la != -1 then lp + la else -1)
  {
    if la != -1 {
      assert forall k :: k in ks - {a} ==> k <= p || p + (lp + la) <= k;
    }
  }

  lemma UnlinkOther(ks: set<int>, p: int, a: int, c: int, link: int)
    requires p in ks && a in ks && p < a && NoneBetween(ks, p, a)
    requires c in ks && c != p && LinksTo(ks, c, link)
    ensures LinksTo(ks - {a}, c, link)
  {
  }

  lemma LinkPrevious(ks: set<int>, p: int, a: int, lp: int)
    requires p in ks && a !in ks && p < a && NoneBetween(ks, p, a) && LinksTo(ks, p, lp)
    ensures LinksTo(ks + {a}, p, a - p)
    ensures LinksTo(ks + {a}, a, if lp != -1 then p + lp - a else -1)
  {
    if lp != -1 {
      assert a < p + lp;
      assert forall k :: k in ks + {a} ==> k <= a || p + lp <= k;
    }
  }

  lemma LinkOther(ks: set<int>, p: int, a: int, c: int, link: int)
    requires p in ks && a !in ks && p < a && NoneBetween(ks, p, a)
    requires c in ks && c != p && LinksTo(ks, c, link)
    ensures LinksTo(ks + {a}, c, link)
  {
  }

  // ---------- They keep the encoding ----------

  lemma SliceMember<T>(s: seq<T>, lo: nat, hi: nat, mid: seq<T>, x: T)
    requires lo <= hi <= |s| && forall i, j :: 0 <= i < j < |s| ==> s[i] != s[j]
    ensures x in s[..lo] + mid + s[hi..] <==> x in mid || (x in s && x !in s[lo..hi])
  {
    if x in s {
      var i :| 0 <= i < |s| && s[i] == x;
      assert lo <= i < hi ==> s[lo..hi][i - lo] == x;
      assert i < lo ==> s[..lo][i] == x;
      assert hi <= i ==> s[hi..][i - hi] == x;
    }
  }

  lemma AllDistinct(cs: seq<Chunk>, total: int, pad: nat)
    requires Tiles(cs, total, pad)
    ensures forall i, j :: 0 <= i < j < |cs| ==> cs[i] != cs[j]
  {
    AllOrdered(cs, total, pad);
    forall i, j | 0 <= i < j < |cs|
      ensures cs[i] != cs[j]
    {
      assert cs[i].End(pad) <= cs[j].addr && cs[i].Fits();
    }
  }

  lemma SpliceMembers(cs: seq<Chunk>, total: int, pad: nat, lo: nat, hi: nat, mid: seq<Chunk>)
    requires Tiles(cs, total, pad) && lo <= hi <= |cs|
    ensures forall c :: c in Splice(cs, lo, hi, mid) <==> c in mid || (c in cs && c !in cs[lo..hi])
  {
    AllDistinct(cs, total, pad);
    forall c
      ensures c in Splice(cs, lo, hi, mid) <==> c in mid || (c in cs && c !in cs[lo..hi])
    {
      SliceMember(cs, lo, hi, mid, c);
    }
  }

  lemma CarveMembers(cs: seq<Chunk>, total: int, pad: nat, i: nat, size: int)
    requires Tiles(cs, total, pad) && i < |cs|
    ensures forall c :: c in Carve(cs, i, size, pad) <==>
              c in CarvedTail(cs[i], size, pad) || (c in cs && c != cs[i])
  {
    CarveIsSplice(cs, i, size, pad);
    SpliceMembers(cs, total, pad, i, i + 1, CarvedTail(cs[i], size, pad));
    assert cs[i..i + 1] == [cs[i]];
  }

  lemma SplitWordsEncode(w: seq<int>, cs: seq<Chunk>, total: int, pad: nat, ks: set<int>, e: Chunk, size: int,
                         ds: seq<Chunk>)
    requires Separated(cs, total, pad) && EncodesAll(w, ks, cs) && |w| == total && e in cs && !e.live
    requires Remainder(e, size + 2 * pad) >= 0 && size > 0
    requires forall c :: c in ds <==> c in CarvedTail(e, size, pad) || (c in cs && c != e)
    ensures 0 <= e.addr && e.addr + 8 + e.size <= |w|
    ensures EncodesAll(SplitWords(w, e, size, pad), ks, ds)
  {
    var v := SplitWords(w, e, size, pad);
    var f, b := CarvedTail(e, size, pad)[0], CarvedTail(e, size, pad)[1];
    assert EncodesChunk(w, ks, e);
    forall c | c in ds
      ensures EncodesChunk(v, ks, c)
    {
      if c != f && c != b {
        assert EncodesChunk(w, ks, c) && c.Fits() && Apart(c, e, pad);
      }
    }
  }

  lemma SplitEncodes(w: seq<int>, cs: seq<Chunk>, total: int, pad: nat, i: nat, size: int)
    requires Tiles(cs, total, pad) && Encodes(w, cs) && |w| == total && i < |cs| && !cs[i].live
    requires Remainder(cs[i], size + 2 * pad) >= 0 && size > 0
    ensures 0 <= cs[i].addr && cs[i].addr + 8 + cs[i].size <= |w|
    ensures Encodes(SplitWords(w, cs[i], size, pad), Carve(cs, i, size, pad))
  {
    TilesSeparated(cs, total, pad);
    CarveMembers(cs, total, pad, i, size);
    var ds, mid := Carve(cs, i, size, pad), CarvedTail(cs[i], size, pad);
    SplitWordsEncode(w, cs, total, pad, FreeAddrs(cs), cs[i], size, ds);
    FreeAddrsSplit(cs, cs[i], mid[0], mid[1], ds);
  }

  /** `p` is the free chunk before address `a` on the list. */
  ghost predicate Precedes(ks: set<int>, cs: seq<Chunk>, p: Chunk, a: int) {
    p in cs && !p.live && p.addr < a && NoneBetween(ks, p.addr, a)
  }

  /** Chunks whose words do not change stay encoded when `a` is unlinked ... */
  lemma UnlinkKeeps(w: seq<int>, v: seq<int>, ks: set<int>, p: int, a: int, c: Chunk)
    requires p in ks && a in ks && p < a && NoneBetween(ks, p, a)
    requires c.live || (c.addr in ks && c.addr != p)
    requires EncodesChunk(w, ks, c) && |v| == |w| && v[c.addr] == w[c.addr] && v[c.addr + 4] == w[c.addr + 4]
    ensures EncodesChunk(v, ks - {a}, c)
  {
    if !c.live { UnlinkOther(ks, p, a, c.addr, w[c.addr]); }
  }

  /** ... and when it is linked in. */
  lemma LinkKeeps(w: seq<int>, v: seq<int>, ks: set<int>, p: int, a: int, c: Chunk)
    requires p in ks && a !in ks && p < a && NoneBetween(ks, p, a)
    requires c.live || (c.addr in ks && c.addr != p)
    requires EncodesChunk(w, ks, c) && |v| == |w| && v[c.addr] == w[c.addr] && v[c.addr + 4] == w[c.addr + 4]
    ensures EncodesChunk(v, ks + {a}, c)
  {
    if !c.live { LinkOther(ks, p, a, c.addr, w[c.addr]); }
  }

  lemma TakeWordsEncode(w: seq<int>, cs: seq<Chunk>, total: int, pad: nat, ks: set<int>, p: Chunk, e: Chunk, size: int,
                        ds: seq<Chunk>)
    requires Separated(cs, total, pad) && EncodesAll(w, ks, cs) && |w| == total && e in cs && !e.live
    requires Covers(ks, cs) && Precedes(ks, cs, p, e.addr)
    requires forall c :: c in ds <==> c == Chunk(e.addr, size, true) || (c in cs && c != e)
    ensures 0 <= p.addr < e.addr < |w|
    ensures EncodesAll(TakeWords(w, p.addr, e.addr, size), ks - {e.addr}, ds)
  {
    assert EncodesChunk(w, ks, e) && EncodesChunk(w, ks, p);
    var v := TakeWords(w, p.addr, e.addr, size);
    UnlinkPrevious(ks, p.addr, e.addr, w[p.addr], w[e.addr]);
    assert e.Fits() && p.Fits() && Apart(e, p, pad);
    forall c | c in ds
      ensures EncodesChunk(v, ks - {e.addr}, c)
    {
      if c != p && c != Chunk(e.addr, size, true) {
        assert EncodesChunk(w, ks, c) && c.Fits() && Apart(c, p, pad) && Apart(c, e, pad);
        UnlinkKeeps(w, v, ks, p.addr, e.addr, c);
      }
    }
  }

  lemma FreeAddrsCover(cs: seq<Chunk>)
    ensures Covers(FreeAddrs(cs), cs)
  {
    FreeAddrsIs(cs);
  }

  lemma FreeAddrsWithout(cs: seq<Chunk>, total: int, pad: nat, e: Chunk, m: Chunk, ds: seq<Chunk>)
    requires Separated(cs, total, pad) && e in cs && m.live
    requires forall c :: c in ds <==> c == m || (c in cs && c != e)
    ensures FreeAddrs(ds) == FreeAddrs(cs) - {e.addr}
  {
    FreeAddrsIs(cs);
    FreeAddrsIs(ds);
    forall c | c in cs && !c.live && c != e
      ensures c in ds && c.addr != e.addr
    {
      assert c.Fits() && e.Fits() && Apart(c, e, pad);
    }
  }

  lemma FreeAddrsWith(cs: seq<Chunk>, total: int, pad: nat, b: Chunk, f: Chunk, ds: seq<Chunk>)
    requires Separated(cs, total, pad) && b in cs && b.live && f.addr == b.addr && !f.live
    requires forall c :: c in ds <==> c == f || (c in cs && c != b)
    ensures FreeAddrs(ds) == FreeAddrs(cs) + {b.addr}
    ensures b.addr !in FreeAddrs(cs)
  {
    FreeAddrsIs(cs);
    FreeAddrsIs(ds);
    forall c | c in cs && !c.live
      ensures c in ds && c.addr != b.addr
    {
      assert c.Fits() && b.Fits() && Apart(c, b, pad);
    }
    assert f in ds;
  }

  lemma FreeAddrsMerged(cs: seq<Chunk>, total: int, pad: nat, e: Chunk, f: Chunk, m: Chunk, ds: seq<Chunk>)
    requires Separated(cs, total, pad) && e in cs && f in cs && !e.live && e != f
    requires forall c :: c in ds <==> c == m || (c in cs && c != e && c != f)
    requires !m.live && m.addr == e.addr
    ensures FreeAddrs(ds) == FreeAddrs(cs) - {f.addr}
  {
    FreeAddrsIs(cs);
    FreeAddrsIs(ds);
    forall c | c in cs && c != f
      ensures c.addr != f.addr && (c in ds || c == e)
    {
      assert c.Fits() && f.Fits() && Apart(c, f, pad);
    }
    assert m in ds;
  }

  lemma FreeAddrsSplit(cs: seq<Chunk>, e: Chunk, f: Chunk, b: Chunk, ds: seq<Chunk>)
    requires e in cs && !e.live && b.live && !f.live && f.addr == e.addr
    requires forall c :: c in ds <==> c == f || c == b || (c in cs && c != e)
    ensures FreeAddrs(ds) == FreeAddrs(cs)
  {
    FreeAddrsIs(cs);
    FreeAddrsIs(ds);
    assert f in ds;
  }

  lemma TakeEncodes(w: seq<int>, cs: seq<Chunk>, total: int, pad: nat, p: Chunk, i: nat, size: int)
    requires Tiles(cs, total, pad) && Encodes(w, cs) && |w| == total && i < |cs| && !cs[i].live
    requires Precedes(FreeAddrs(cs), cs, p, cs[i].addr) && cs[i].size == size + 2 * pad
    ensures 0 <= p.addr < cs[i].addr < |w|
    ensures Encodes(TakeWords(w, p.addr, cs[i].addr, size), Carve(cs, i, size, pad))
  {
    var e := cs[i];
    TilesSeparated(cs, total, pad);
    CarveMembers(cs, total, pad, i, size);
    var ds := Carve(cs, i, size, pad);
    FreeAddrsCover(cs);
    TakeWordsEncode(w, cs, total, pad, FreeAddrs(cs), p, e, size, ds);
    FreeAddrsWithout(cs, total, pad, e, Chunk(e.addr, size, true), ds);
  }

  lemma InsertWordsEncode(w: seq<int>, cs: seq<Chunk>, total: int, pad: nat, ks: set<int>, p: Chunk, b: Chunk,
                          ds: seq<Chunk>)
    requires Separated(cs, total, pad) && EncodesAll(w, ks, cs) && |w| == total && b in cs && b.live
    requires Covers(ks, cs) && Precedes(ks, cs, p, b.addr) && b.addr !in ks
    requires forall c :: c in ds <==> c == Chunk(b.addr, b.size + 2 * pad, false) || (c in cs && c != b)
    ensures 0 <= p.addr < b.addr && b.addr + 8 <= |w|
    ensures EncodesAll(InsertWords(w, p.addr, b.addr, b.size + 2 * pad), ks + {b.addr}, ds)
  {
    assert EncodesChunk(w, ks, b) && EncodesChunk(w, ks, p);
    var v := InsertWords(w, p.addr, b.addr, b.size + 2 * pad);
    LinkPrevious(ks, p.addr, b.addr, w[p.addr]);
    assert b.Fits() && p.Fits() && Apart(b, p, pad);
    forall c | c in ds
      ensures EncodesChunk(v, ks + {b.addr}, c)
    {
      if c != p && c != Chunk(b.addr, b.size + 2 * pad, false) {
        assert EncodesChunk(w, ks, c) && c.Fits() && Apart(c, p, pad) && Apart(c, b, pad);
        LinkKeeps(w, v, ks, p.addr, b.addr, c);
      }
    }
  }

  lemma MarkMembers(cs: seq<Chunk>, total: int, pad: nat, k: nat)
    requires Tiles(cs, total, pad) && k < |cs|
    ensures forall c :: c in Mark(cs, k, pad) <==>
              c == Chunk(cs[k].addr, cs[k].size + 2 * pad, false) || (c in cs && c != cs[k])
  {
    var f := Chunk(cs[k].addr, cs[k].size + 2 * pad, false);
    assert Mark(cs, k, pad) == Splice(cs, k, k + 1, [f]);
    SpliceMembers(cs, total, pad, k, k + 1, [f]);
    assert cs[k..k + 1] == [cs[k]];
  }

  ghost function Members(cs: seq<Chunk>): set<Chunk> {
    set c | c in cs
  }

  lemma MarkSet(cs: seq<Chunk>, total: int, pad: nat, k: nat)
    requires Tiles(cs, total, pad) && k < |cs| && cs[k].live
    ensures Members(Mark(cs, k, pad)) == Members(cs) - {cs[k]} + {Chunk(cs[k].addr, cs[k].size + 2 * pad, false)}
  {
    MarkMembers(cs, total, pad, k);
  }

  lemma InsertInto(w: seq<int>, cs: seq<Chunk>, total: int, pad: nat, p: Chunk, b: Chunk, ds: seq<Chunk>)
    requires Separated(cs, total, pad) && Encodes(w, cs) && |w| == total && b in cs && b.live
    requires Precedes(FreeAddrs(cs), cs, p, b.addr)
    requires Members(ds) == Members(cs) - {b} + {Chunk(b.addr, b.size + 2 * pad, false)}
    ensures 0 <= p.addr < b.addr && b.addr + 8 <= |w|
    ensures Encodes(InsertWords(w, p.addr, b.addr, b.size + 2 * pad), ds)
  {
    var f := Chunk(b.addr, b.size + 2 * pad, false);
    forall c
      ensures c in ds <==> c == f || (c in cs && c != b)
    {
      assert c in ds <==> c in Members(ds);
    }
    FreeAddrsCover(cs);
    FreeAddrsWith(cs, total, pad, b, f, ds);
    InsertWordsEncode(w, cs, total, pad, FreeAddrs(cs), p, b, ds);
  }

  lemma InsertEncodes(w: seq<int>, cs: seq<Chunk>, total: int, pad: nat, p: Chunk, k: nat)
    requires Tiles(cs, total, pad) && Encodes(w, cs) && |w| == total && k < |cs| && cs[k].live
    requires Precedes(FreeAddrs(cs), cs, p, cs[k].addr)
    ensures 0 <= p.addr < cs[k].addr && cs[k].addr + 8 <= |w|
    ensures Encodes(InsertWords(w, p.addr, cs[k].addr, cs[k].size + 2 * pad), Mark(cs, k, pad))
  {
    TilesSeparated(cs, total, pad);
    MarkSet(cs, total, pad, k);
    InsertInto(w, cs, total, pad, p, cs[k], Mark(cs, k, pad));
  }

  lemma NextIsAdjacent(cs: seq<Chunk>, total: int, pad: nat, e: Chunk, f: Chunk)
    requires Separated(cs, total, pad) && e in cs && f in cs && f.addr == e.End(pad)
    ensures NoneBetween(FreeAddrs(cs), e.addr, f.addr)
  {
    FreeAddrsIs(cs);
    forall c | c in cs && !c.live
      ensures c.addr <= e.addr || f.addr <= c.addr
    {
      assert c.Fits() && e.Fits() && (c == e || Apart(c, e, pad));
    }
  }

  lemma MergeWordsEncode(w: seq<int>, cs: seq<Chunk>, total: int, pad: nat, ks: set<int>, e: Chunk, f: Chunk,
                         ds: seq<Chunk>)
    requires Separated(cs, total, pad) && EncodesAll(w, ks, cs) && |w| == total && Covers(ks, cs)
    requires f in cs && !f.live && f.addr == e.End(pad) && Precedes(ks, cs, e, f.addr)
    requires forall c :: c in ds <==>
               c == Chunk(e.addr, e.size + HEADER_SIZE + f.size, false) || (c in cs && c != e && c != f)
    ensures 0 <= e.addr && e.addr + 8 <= f.addr && f.addr + 8 <= |w|
    ensures w[e.addr] == f.addr - e.addr
    ensures EncodesAll(MergeWords(w, e.addr, f.addr), ks - {f.addr}, ds)
  {
    assert EncodesChunk(w, ks, e) && EncodesChunk(w, ks, f) && e.Fits() && f.Fits();
    var v := MergeWords(w, e.addr, f.addr);
    UnlinkPrevious(ks, e.addr, f.addr, w[e.addr], w[f.addr]);
    forall c | c in ds
      ensures EncodesChunk(v, ks - {f.addr}, c)
    {
      if c != Chunk(e.addr, e.size + HEADER_SIZE + f.size, false) {
        assert EncodesChunk(w, ks, c) && c.Fits() && Apart(c, e, pad) && Apart(c, f, pad);
        UnlinkKeeps(w, v, ks, e.addr, f.addr, c);
      }
    }
  }

  lemma AbsorbMembers(cs: seq<Chunk>, total: int, pad: nat, k: nat)
    requires Tiles(cs, total, pad) && k + 1 < |cs| && !cs[k].live && !cs[k + 1].live
    ensures forall c :: c in Absorb(cs, k) <==>
              c == Chunk(cs[k].addr, cs[k].size + HEADER_SIZE + cs[k + 1].size, false) ||
              (c in cs && c != cs[k] && c != cs[k + 1])
  {
    var m := Chunk(cs[k].addr, cs[k].size + HEADER_SIZE + cs[k + 1].size, false);
    SpliceMembers(cs, total, pad, k, k + 2, [m]);
    assert cs[k..k + 2] == [cs[k], cs[k + 1]];
  }

  lemma AbsorbEncodes(w: seq<int>, cs: seq<Chunk>, total: int, pad: nat, k: nat)
    requires Tiles(cs, total, pad) && Encodes(w, cs) && |w| == total
    requires k + 1 < |cs| && !cs[k].live && !cs[k + 1].live
    ensures 0 <= cs[k].addr && cs[k].addr + 8 <= cs[k + 1].addr && cs[k + 1].addr + 8 <= |w|
    ensures w[cs[k].addr] == cs[k + 1].addr - cs[k].addr
    ensures Encodes(MergeWords(w, cs[k].addr, cs[k + 1].addr), Absorb(cs, k))
  {
    var e, f, ds := cs[k], cs[k + 1], Absorb(cs, k);
    TilesSeparated(cs, total, pad);
    AbsorbMembers(cs, total, pad, k);
    assert e.Fits();
    NextIsAdjacent(cs, total, pad, e, f);
    FreeAddrsCover(cs);
    MergeWordsEncode(w, cs, total, pad, FreeAddrs(cs), e, f, ds);
    FreeAddrsMerged(cs, total, pad, e, f, Chunk(e.addr, e.size + HEADER_SIZE + f.size, false), ds);
  }

  // ---------- Walking the free list ----------

  /** The position of the first free chunk from `i` on, or |cs|. */
  function NextFree(cs: seq<Chunk>, i: nat): (j: nat)
    requires i <= |cs|
    ensures i <= j <= |cs|
    ensures j < |cs| ==> !cs[j].live
    ensures forall k :: i <= k < j ==> cs[k].live
    decreases |cs| - i
  {
    if i == |cs| || !cs[i].live then i else NextFree(cs, i + 1)
  }

  lemma AddrsAscend(cs: seq<Chunk>, total: int, pad: nat, i: nat, j: nat)
    requires Tiles(cs, total, pad) && i < j < |cs|
    ensures cs[i].addr < cs[j].addr
  {
    Ordered(cs, total, pad, i, j);
    assert cs[i].Fits();
  }

  /** A free chunk with only live chunks between it and position `k`. */
  lemma PrecedesAt(cs: seq<Chunk>, total: int, pad: nat, q: nat, k: nat)
    requires Tiles(cs, total, pad) && q < k < |cs| && !cs[q].live
    requires forall j :: q < j < k ==> cs[j].live
    ensures Precedes(FreeAddrs(cs), cs, cs[q], cs[k].addr)
  {
    FreeAddrsIs(cs);
    AddrsAscend(cs, total, pad, q, k);
    forall c | c in cs && !c.live
      ensures c.addr <= cs[q].addr || cs[k].addr <= c.addr
    {
      var j :| 0 <= j < |cs| && cs[j] == c;
      if j < q { AddrsAscend(cs, total, pad, j, q); }
      if k < j { AddrsAscend(cs, total, pad, k, j); }
    }
  }

  /** The link that `LinksTo` asks of free chunk `i`. */
  function Link(cs: seq<Chunk>, i: nat): int
    requires i < |cs|
  {
    var j := NextFree(cs, i + 1);
    if j == |cs| then -1 else cs[j].addr - cs[i].addr
  }

  lemma NoneFollows(cs: seq<Chunk>, total: int, pad: nat, i: nat)
    requires Tiles(cs, total, pad) && i < |cs| && forall k :: i < k < |cs| ==> cs[k].live
    ensures NoneAfter(FreeAddrs(cs), cs[i].addr)
  {
    FreeAddrsIs(cs);
    forall c | c in cs && !c.live
      ensures c.addr <= cs[i].addr
    {
      var k :| 0 <= k < |cs| && cs[k] == c;
      if k < i { AddrsAscend(cs, total, pad, k, i); }
    }
  }

  lemma LinkIsRight(cs: seq<Chunk>, total: int, pad: nat, i: nat)
    requires Tiles(cs, total, pad) && i < |cs| && !cs[i].live
    ensures LinksTo(FreeAddrs(cs), cs[i].addr, Link(cs, i))
    ensures Link(cs, i) == -1 <==> NextFree(cs, i + 1) == |cs|
  {
    var j := NextFree(cs, i + 1);
    if j < |cs| {
      PrecedesAt(cs, total, pad, i, j);
      FreeAddrsCover(cs);
      assert cs[j] in cs;
    } else {
      NoneFollows(cs, total, pad, i);
    }
  }

  lemma LinkUnique(ks: set<int>, a: int, l: int, m: int)
    requires LinksTo(ks, a, l) && LinksTo(ks, a, m)
    ensures l == m
  {
  }

  /** Following the link of free chunk `i`, if its header is right, leads to the next free chunk. */
  lemma WalkFrom(w: seq<int>, cs: seq<Chunk>, total: int, pad: nat, i: nat)
    requires Tiles(cs, total, pad) && i < |cs| && !cs[i].live && EncodesChunk(w, FreeAddrs(cs), cs[i])
    ensures 0 <= cs[i].addr && cs[i].addr + 8 <= |w| && w[cs[i].addr + 4] == cs[i].size
    ensures w[cs[i].addr] == Link(cs, i)
    ensures Link(cs, i) == -1 <==> NextFree(cs, i + 1) == |cs|
  {
    LinkIsRight(cs, total, pad, i);
    LinkUnique(FreeAddrs(cs), cs[i].addr, w[cs[i].addr], Link(cs, i));
  }

  lemma Walk(w: seq<int>, cs: seq<Chunk>, total: int, pad: nat, i: nat)
    requires Tiles(cs, total, pad) && Encodes(w, cs) && i < |cs| && !cs[i].live
    ensures 0 <= cs[i].addr && cs[i].addr + 8 <= |w| && w[cs[i].addr + 4] == cs[i].size
    ensures w[cs[i].addr] == Link(cs, i)
    ensures var j := NextFree(cs, i + 1); w[cs[i].addr] == if j == |cs| then -1 else cs[j].addr - cs[i].addr
    ensures Link(cs, i) == -1 <==> NextFree(cs, i + 1) == |cs|
  {
    assert EncodesChunk(w, FreeAddrs(cs), cs[i]);
    WalkFrom(w, cs, total, pad, i);
  }

  /** The free list is in order, whatever the headers of the live blocks hold. */
  ghost predicate EncodesFree(w: seq<int>, cs: seq<Chunk>) {
    forall i :: 0 <= i < |cs| && !cs[i].live ==> EncodesChunk(w, FreeAddrs(cs), cs[i])
  }

  /** The header words are determined by the heap: memories that represent the same heap hold
      the same free list, offsets and sizes, and the same block sizes. */
  lemma HeadersDetermined(w: seq<int>, v: seq<int>, cs: seq<Chunk>, total: int, pad: nat, i: nat)
    requires Tiles(cs, total, pad) && Encodes(w, cs) && Encodes(v, cs) && i < |cs|
    ensures 0 <= cs[i].addr && cs[i].addr + 8 <= |w| && cs[i].addr + 8 <= |v|
    ensures w[cs[i].addr] == v[cs[i].addr]
    ensures !cs[i].live ==> w[cs[i].addr + 4] == v[cs[i].addr + 4]
  {
    assert EncodesChunk(w, FreeAddrs(cs), cs[i]) && EncodesChunk(v, FreeAddrs(cs), cs[i]);
    if !cs[i].live {
      Walk(w, cs, total, pad, i);
      Walk(v, cs, total, pad, i);
    }
  }

  // ---------- What stays unchanged ----------

  ghost predicate Same(w: seq<int>, v: seq<int>, lo: int, hi: int) {
    |v| == |w| && forall a :: lo <= a < hi && 0 <= a < |w| ==> v[a] == w[a]
  }

  /** No word of a live block in `cs`, header, paddings or payload, differs. */
  ghost predicate Untouched(w: seq<int>, v: seq<int>, cs: seq<Chunk>, pad: nat) {
    forall c :: c in cs && c.live ==> Same(w, v, c.addr, c.End(pad))
  }

  lemma SameTrans(u: seq<int>, v: seq<int>, w: seq<int>, lo: int, hi: int)
    requires Same(u, v, lo, hi) && Same(v, w, lo, hi)
    ensures Same(u, w, lo, hi)
  {
  }

  // ---------- Debug patterns ----------

  ghost predicate Filled(w: seq<int>, lo: int, hi: int, value: int) {
    forall a :: lo <= a < hi && a % 4 == 0 && 0 <= a < |w| ==> w[a] == value
  }

  ghost predicate FreeFilled(w: seq<int>, c: Chunk) {
    Filled(w, c.addr + HEADER_SIZE, c.addr + HEADER_SIZE + c.size, FREE_PATTERN)
  }

  /** Every word of every free payload is FREE_PATTERN. */
  ghost predicate FreeClean(w: seq<int>, cs: seq<Chunk>) {
    forall c :: c in cs && !c.live ==> FreeFilled(w, c)
  }

  ghost predicate PadsIntact(w: seq<int>, c: Chunk, pad: nat) {
    && Filled(w, c.Payload(pad) - pad, c.Payload(pad), PADDING_PATTERN)
    && Filled(w, c.Payload(pad) + c.size, c.Payload(pad) + c.size + pad, PADDING_PATTERN)
  }

  /** Both paddings of every live block are intact. */
  ghost predicate PadsClean(w: seq<int>, cs: seq<Chunk>, pad: nat) {
    forall c :: c in cs && c.live ==> PadsIntact(w, c, pad)
  }

  lemma EndAligned(c: Chunk, pad: nat)
    requires c.addr % 4 == 0 && c.size % 4 == 0 && pad % 4 == 0
    ensures c.End(pad) % 4 == 0
  {
    assert c.End(pad) == 4 * (c.addr / 4 + 2 + c.size / 4 + (if c.live then 2 * (pad / 4) else 0));
  }

  lemma {:induction false} AlignedUpTo(cs: seq<Chunk>, total: int, pad: nat, i: nat)
    requires Tiles(cs, total, pad) && pad % 4 == 0 && i < |cs|
    ensures cs[i].addr % 4 == 0
  {
    if i > 0 {
      AlignedUpTo(cs, total, pad, i - 1);
      EndAligned(cs[i - 1], pad) by { assert cs[i - 1].Fits(); }
    }
  }
}
