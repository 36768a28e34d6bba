/** What each section of p3/mem.c leaves alone, and how it keeps the debug patterns. */
module Patterns {
  import opened Chunks
  import opened Encoding

  /** The effect of a pattern-filling loop from `lo` to `hi`. */
  function FillWords(w: seq<int>, lo: int, hi: int, value: int): (v: seq<int>)
    ensures |v| == |w|
    ensures forall a :: 0 <= a < |w| ==> v[a] == if lo <= a < hi && a % 4 == 0 then value else w[a]
  {
    seq(|w|, a requires 0 <= a < |w| => if lo <= a < hi && a % 4 == 0 then value else w[a])
  }

  /** One more word. */
  lemma FillOne(w: seq<int>, lo: int, at: int, value: int)
    requires 0 <= at < |w| && lo <= at && at % 4 == 0
    ensures FillWords(w, lo, at, value)[at := value] == FillWords(w, lo, at + 4, value)
  {
    var u, v := FillWords(w, lo, at, value)[at := value], FillWords(w, lo, at + 4, value);
    forall a | 0 <= a < |u|
      ensures u[a] == v[a]
    {
      if at < a < at + 4 { assert a % 4 == a - at; }
    }
  }

  /** The last word ends at or after `hi`. */
  lemma FillDone(w: seq<int>, lo: int, hi: int, end: int, value: int)
    requires hi <= end < hi + 4 && end % 4 == 0
    ensures FillWords(w, lo, end, value) == FillWords(w, lo, hi, value)
  {
  }

  /** A range disjoint from the words being filled keeps its contents. */
  lemma FillSame(w: seq<int>, lo: int, hi: int, value: int, x: int, y: int)
    requires hi <= x || y <= lo
    ensures Same(w, FillWords(w, lo, hi, value), x, y)
  {
  }

  // Filling inside a chunk, after its header

  lemma FillEncodes(w: seq<int>, cs: seq<Chunk>, total: int, pad: nat, c: Chunk, lo: int, hi: int, value: int)
    requires Separated(cs, total, pad) && Encodes(w, cs) && c in cs
    requires c.addr + HEADER_SIZE <= lo && hi <= c.End(pad)
    ensures Encodes(FillWords(w, lo, hi, value), cs)
  {
    var v, ks := FillWords(w, lo, hi, value), FreeAddrs(cs);
    forall d | d in cs
      ensures EncodesChunk(v, ks, d)
    {
      assert EncodesChunk(w, ks, d) && c.Fits() && d.Fits() && (d == c || Apart(d, c, pad));
    }
  }

  lemma FillUntouched(w: seq<int>, cs: seq<Chunk>, total: int, pad: nat, c: Chunk, lo: int, hi: int, value: int,
                      d: Chunk)
    requires Separated(cs, total, pad) && c in cs && d in cs && d != c
    requires c.addr + HEADER_SIZE <= lo && hi <= c.End(pad)
    ensures Same(w, FillWords(w, lo, hi, value), d.addr, d.End(pad))
  {
    assert c.Fits() && d.Fits() && Apart(d, c, pad);
    if lo < hi { FillSame(w, lo, hi, value, d.addr, d.End(pad)); }
  }

  // ---------- Carving ----------

  lemma SplitSame(w: seq<int>, cs: seq<Chunk>, total: int, pad: nat, e: Chunk, size: int, c: Chunk)
    requires Separated(cs, total, pad) && |w| == total && e in cs && !e.live && c in cs
    requires Remainder(e, size + 2 * pad) >= 0 && size > 0
    ensures 0 <= e.addr && e.addr + 8 + e.size <= |w|
    ensures c != e ==> Same(w, SplitWords(w, e, size, pad), c.addr, c.End(pad))
    ensures c == e ==> Same(w, SplitWords(w, e, size, pad), e.addr + 8, e.addr + 8 + Remainder(e, size + 2 * pad))
  {
    assert e.Fits() && c.Fits() && (c == e || Apart(c, e, pad));
  }

  lemma SplitKeeps(w: seq<int>, cs: seq<Chunk>, total: int, pad: nat, i: nat, size: int)
    requires Tiles(cs, total, pad) && |w| == total && i < |cs| && !cs[i].live
    requires Remainder(cs[i], size + 2 * pad) >= 0 && size > 0
    ensures 0 <= cs[i].addr && cs[i].addr + 8 + cs[i].size <= |w|
    ensures Untouched(w, SplitWords(w, cs[i], size, pad), cs, pad)
    ensures FreeClean(w, cs) ==> FreeClean(SplitWords(w, cs[i], size, pad), Carve(cs, i, size, pad))
  {
    TilesSeparated(cs, total, pad);
    CarveMembers(cs, total, pad, i, size);
    var e := cs[i];
    assert e.Fits();
    var v := SplitWords(w, e, size, pad);
    forall c | c in cs && c.live
      ensures Same(w, v, c.addr, c.End(pad))
    {
      SplitSame(w, cs, total, pad, e, size, c);
    }
    if FreeClean(w, cs) {
      forall c | c in Carve(cs, i, size, pad) && !c.live
        ensures FreeFilled(v, c)
      {
        var old_c := if c in cs && c != e then c else e;
        SplitSame(w, cs, total, pad, e, size, old_c);
        assert FreeFilled(w, old_c);
      }
    }
  }

  lemma TakeKeeps(w: seq<int>, cs: seq<Chunk>, total: int, pad: nat, p: Chunk, e: Chunk, size: int)
    requires Separated(cs, total, pad) && |w| == total
    requires p in cs && e in cs && !p.live && !e.live && p.addr < e.addr
    ensures 0 <= p.addr < e.addr < |w|
    ensures Untouched(w, TakeWords(w, p.addr, e.addr, size), cs, pad)
    ensures forall c :: c in cs && c != e && !c.live ==>
              Same(w, TakeWords(w, p.addr, e.addr, size), c.addr + HEADER_SIZE, c.End(pad))
  {
    assert e.Fits() && p.Fits();
    forall c | c in cs && c != e
      ensures Same(w, TakeWords(w, p.addr, e.addr, size), if c.live then c.addr else c.addr + 8, c.End(pad))
    {
      assert c.Fits() && Apart(c, e, pad) && (c == p || Apart(c, p, pad));
    }
  }

  lemma TakeClean(w: seq<int>, cs: seq<Chunk>, total: int, pad: nat, p: Chunk, e: Chunk, size: int, ds: seq<Chunk>)
    requires Separated(cs, total, pad) && |w| == total && FreeClean(w, cs)
    requires p in cs && e in cs && !p.live && !e.live && p.addr < e.addr
    requires forall c :: c in ds ==> c == Chunk(e.addr, size, true) || (c in cs && c != e)
    ensures 0 <= p.addr < e.addr < |w|
    ensures FreeClean(TakeWords(w, p.addr, e.addr, size), ds)
  {
    TakeKeeps(w, cs, total, pad, p, e, size);
    forall c | c in ds && !c.live
      ensures FreeFilled(TakeWords(w, p.addr, e.addr, size), c)
    {
      assert FreeFilled(w, c) && c.Fits();
    }
  }

  /** Writing a padding on either side of `size` bytes at `p`. */
  function PaddedAt(w: seq<int>, p: int, size: int, pad: nat): (v: seq<int>)
    ensures |v| == |w|
  {
    FillWords(FillWords(w, p - pad, p, PADDING_PATTERN), p + size, p + size + pad, PADDING_PATTERN)
  }

  /** Writing both paddings of block `b`. */
  function PadWords(w: seq<int>, b: Chunk, pad: nat): (v: seq<int>)
    ensures |v| == |w|
  {
    PaddedAt(w, b.Payload(pad), b.size, pad)
  }

  lemma PadSame(w: seq<int>, cs: seq<Chunk>, total: int, pad: nat, b: Chunk, c: Chunk)
    requires Separated(cs, total, pad) && b in cs && b.live && c in cs && c != b
    ensures Same(w, PadWords(w, b, pad), c.addr, c.End(pad))
  {
    var u := FillWords(w, b.Payload(pad) - pad, b.Payload(pad), PADDING_PATTERN);
    assert b.Fits();
    FillUntouched(w, cs, total, pad, b, b.Payload(pad) - pad, b.Payload(pad), PADDING_PATTERN, c);
    FillUntouched(u, cs, total, pad, b, b.Payload(pad) + b.size, b.Payload(pad) + b.size + pad, PADDING_PATTERN, c);
    SameTrans(w, u, PadWords(w, b, pad), c.addr, c.End(pad));
  }

  lemma PadEncodes(w: seq<int>, cs: seq<Chunk>, total: int, pad: nat, b: Chunk)
    requires Separated(cs, total, pad) && Encodes(w, cs) && b in cs && b.live
    ensures Encodes(PadWords(w, b, pad), cs)
  {
    assert b.Fits();
    var u := FillWords(w, b.Payload(pad) - pad, b.Payload(pad), PADDING_PATTERN);
    FillEncodes(w, cs, total, pad, b, b.Payload(pad) - pad, b.Payload(pad), PADDING_PATTERN);
    FillEncodes(u, cs, total, pad, b, b.Payload(pad) + b.size, b.Payload(pad) + b.size + pad, PADDING_PATTERN);
  }

  lemma PadIntact(w: seq<int>, b: Chunk, pad: nat)
    requires b.size > 0
    ensures PadsIntact(PadWords(w, b, pad), b, pad)
  {
    var u := FillWords(w, b.Payload(pad) - pad, b.Payload(pad), PADDING_PATTERN);
    FillSame(u, b.Payload(pad) + b.size, b.Payload(pad) + b.size + pad, PADDING_PATTERN,
             b.Payload(pad) - pad, b.Payload(pad));
  }

  lemma PadKeeps(w: seq<int>, cs: seq<Chunk>, total: int, pad: nat, b: Chunk)
    requires Separated(cs, total, pad) && Encodes(w, cs) && b in cs && b.live
    ensures Encodes(PadWords(w, b, pad), cs)
    ensures forall c :: c in cs && c != b ==> Same(w, PadWords(w, b, pad), c.addr, c.End(pad))
    ensures PadsIntact(PadWords(w, b, pad), b, pad)
    ensures FreeClean(w, cs) ==> FreeClean(PadWords(w, b, pad), cs)
  {
    var v := PadWords(w, b, pad);
    assert b.Fits();
    PadEncodes(w, cs, total, pad, b);
    PadIntact(w, b, pad);
    forall c | c in cs && c != b
      ensures Same(w, v, c.addr, c.End(pad))
      ensures !c.live && FreeFilled(w, c) ==> FreeFilled(v, c)
    {
      PadSame(w, cs, total, pad, b, c);
      assert c.Fits();
    }
  }

  // The paddings of an exact fit in debug mode, `pad` bytes too low: `d` is the block before `b`

  lemma LowPadsElsewhere(w: seq<int>, cs: seq<Chunk>, total: int, pad: nat, d: Chunk, b: Chunk, c: Chunk)
    requires Separated(cs, total, pad) && pad >= 8 && d in cs && b in cs && c in cs
    requires d.live && b.live && d.End(pad) == b.addr && c != b && c != d
    ensures Same(w, PaddedAt(w, b.addr + 8, b.size, pad), c.addr, c.End(pad))
  {
    assert b.Fits() && d.Fits() && c.Fits() && Apart(c, b, pad) && Apart(c, d, pad);
    var u := FillWords(w, b.addr + 8 - pad, b.addr + 8, PADDING_PATTERN);
    FillSame(w, b.addr + 8 - pad, b.addr + 8, PADDING_PATTERN, c.addr, c.End(pad));
    FillSame(u, b.addr + 8 + b.size, b.addr + 8 + b.size + pad, PADDING_PATTERN, c.addr, c.End(pad));
    SameTrans(w, u, PaddedAt(w, b.addr + 8, b.size, pad), c.addr, c.End(pad));
  }

  /** The low padding falls into the trailing padding of the block before, which holds it already. */
  lemma LowPadsBefore(w: seq<int>, pad: nat, d: Chunk, b: Chunk)
    requires pad >= 8 && d.live && d.Fits() && b.size > 0 && d.End(pad) == b.addr && PadsIntact(w, d, pad)
    ensures Same(w, PaddedAt(w, b.addr + 8, b.size, pad), d.addr, d.End(pad))
  {
    assert d.Payload(pad) + d.size + pad == b.addr;
    assert forall a :: b.addr - pad <= a < b.addr && a % 4 == 0 && 0 <= a < |w| ==> w[a] == PADDING_PATTERN;
  }

  /** Blocks that keep their words keep their paddings. */
  lemma UntouchedPads(w: seq<int>, v: seq<int>, cs: seq<Chunk>, total: int, pad: nat)
    requires Untouched(w, v, cs, pad) && PadsClean(w, cs, pad) && Separated(cs, total, pad)
    ensures PadsClean(v, cs, pad)
  {
    forall c | c in cs && c.live
      ensures PadsIntact(v, c, pad)
    {
      assert PadsIntact(w, c, pad) && c.Fits() && Same(w, v, c.addr, c.End(pad));
    }
  }

  // ---------- Releasing ----------

  lemma InsertKeeps(w: seq<int>, cs: seq<Chunk>, total: int, pad: nat, p: Chunk, b: Chunk)
    requires Separated(cs, total, pad) && |w| == total
    requires p in cs && b in cs && !p.live && b.live && p.addr < b.addr
    ensures 0 <= p.addr < b.addr && b.addr + 8 <= |w|
    ensures forall c :: c in cs && c.live && c != b ==>
              Same(w, InsertWords(w, p.addr, b.addr, b.size + 2 * pad), c.addr, c.End(pad))
    ensures forall c :: c in cs && !c.live ==>
              Same(w, InsertWords(w, p.addr, b.addr, b.size + 2 * pad), c.addr + HEADER_SIZE, c.End(pad))
  {
    assert b.Fits() && p.Fits();
    forall c | c in cs && c != b
      ensures Same(w, InsertWords(w, p.addr, b.addr, b.size + 2 * pad), if c.live then c.addr else c.addr + 8,
                   c.End(pad))
    {
      assert c.Fits() && Apart(c, b, pad) && (c == p || Apart(c, p, pad));
    }
  }

  lemma MergeKeeps(w: seq<int>, cs: seq<Chunk>, total: int, pad: nat, e: Chunk, f: Chunk)
    requires Separated(cs, total, pad) && |w| == total
    requires e in cs && f in cs && !e.live && !f.live && f.addr == e.End(pad)
    ensures 0 <= e.addr && e.addr + 8 <= f.addr && f.addr + 8 <= |w|
    ensures forall c :: c in cs && c != e ==> Same(w, MergeWords(w, e.addr, f.addr), c.addr, c.End(pad))
    ensures Same(w, MergeWords(w, e.addr, f.addr), e.addr + 8, e.End(pad))
  {
    assert e.Fits() && f.Fits();
    forall c | c in cs && c != e
      ensures Same(w, MergeWords(w, e.addr, f.addr), c.addr, c.End(pad))
    {
      assert c.Fits() && Apart(c, e, pad);
    }
  }

  /** Merging, with the absorbed header overwritten in debug mode. */
  lemma MergeClean(w: seq<int>, cs: seq<Chunk>, total: int, pad: nat, e: Chunk, f: Chunk, ds: seq<Chunk>)
    requires Separated(cs, total, pad) && |w| == total && FreeClean(w, cs)
    requires e in cs && f in cs && !e.live && !f.live && f.addr == e.End(pad)
    requires forall c :: c in ds ==>
             c == Chunk(e.addr, e.size + HEADER_SIZE + f.size, false) || (c in cs && c != e && c != f)
    ensures 0 <= e.addr && e.addr + 8 <= f.addr && f.addr + 8 <= |w|
    ensures FreeClean(FillWords(MergeWords(w, e.addr, f.addr), f.addr, f.addr + 8, FREE_PATTERN), ds)
  {
    MergeKeeps(w, cs, total, pad, e, f);
    var u := MergeWords(w, e.addr, f.addr);
    var v := FillWords(u, f.addr, f.addr + 8, FREE_PATTERN);
    assert FreeFilled(w, e) && FreeFilled(w, f) && f.Fits();
    forall c | c in ds && !c.live
      ensures FreeFilled(v, c)
    {
      if c in cs && c != e && c != f {
        assert FreeFilled(w, c) && c.Fits() && Apart(c, f, pad) && Same(w, u, c.addr, c.End(pad));
      }
    }
  }
}
