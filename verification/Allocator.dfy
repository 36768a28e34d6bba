/** The allocator of p3/mem.c over one region of memory.

    `region[a]` is the 4-byte word at byte offset `a` from ptr_header.  Only multiples of 4
    are ever accessed, so no two cells overlap.  The ghost field `chunks` is the heap the
    words represent. */
module Allocators {
  import opened Chunks
  import opened Encoding
  import opened Patterns

  const E_NO_SPACE := 1
  const E_CORRUPT_FREESPACE := 2
  const E_PADDING_OVERWRITTEN := 3
  const E_BAD_ARGS := 4
  const E_BAD_POINTER := 5

  const HEADER_ALLOCATED_SIZE := 8
  const HEADER_FREE_SIZE := 8

  /** A pointer, as an offset from ptr_header. */
  datatype Pointer = Null | At(offset: int)

  /** A block carved in debug mode, when its paddings are where they belong: it is padded, no word
      of another block differs, and what was clean is clean. */
  ghost predicate Padded(w: seq<int>, v: seq<int>, cs: seq<Chunk>, ds: seq<Chunk>, b: Chunk, pad: nat) {
    && PadsIntact(v, b, pad) && Untouched(w, v, cs, pad)
    && (FreeClean(w, cs) ==> FreeClean(v, ds))
    && (PadsClean(w, cs, pad) ==> PadsClean(v, ds, pad))
  }

  /** And when they are not: the block's own header is overwritten with the pattern.  The free list is
      right, and no word of another block differs if the block just before had its padding intact. */
  ghost predicate Misplaced(w: seq<int>, v: seq<int>, cs: seq<Chunk>, ds: seq<Chunk>, b: Chunk, pad: nat) {
    && |v| == |w| && 0 <= b.addr < |v| && v[b.addr] == PADDING_PATTERN
    && EncodesFree(v, ds)
    && (forall c :: c in cs && c.live && (c.End(pad) == b.addr ==> PadsIntact(w, c, pad)) ==>
        Same(w, v, c.addr, c.End(pad)))
    && (FreeClean(w, cs) ==> FreeClean(v, ds))
  }

  class Allocator {
    var initialised: bool
    var region: array?<int>
    var totalSize: int
    var debugEnable: bool
    var padding: nat
    var mError: int
    ghost var chunks: seq<Chunk>

    /** The words represent a tiling (which may hold touching free chunks while Mem_Free merges). */
    ghost predicate Represents()
      reads this, region
    {
      && region != null
      && initialised
      && region.Length == totalSize
      && padding == (if debugEnable then 64 else 0)
      && Tiles(chunks, totalSize, padding)
      && Encodes(region[..], chunks)
    }

    ghost predicate Ready()
      reads this, region
    {
      Represents() && Coalesced(chunks)
    }

    ghost predicate Valid()
      reads this, region
    {
      if region == null then !initialised && !debugEnable else Ready()
    }

    /** In debug mode, nothing has been written outside live payloads. */
    ghost predicate Clean()
      requires region != null
      reads this, region
    {
      FreeClean(region[..], chunks) && PadsClean(region[..], chunks, padding)
    }

    /** The chunk a request of `size` bytes is carved from, or |chunks|. */
    ghost function Choice(size: int): nat
      requires size > 0
      reads this
    {
      FirstFit(chunks, 0, RoundUp(size) + 2 * padding)
    }

    constructor ()
      ensures Valid() && region == null && !initialised
    {
      initialised, region, debugEnable := false, null, false;
      totalSize, padding, mError, chunks := 0, 0, 0, [];
    }

    // ---------- Loops over words ----------

    method Fill(lo: int, hi: int, value: int)
      requires region != null && 0 <= lo && hi <= region.Length && lo % 4 == 0
      modifies region
      ensures region[..] == FillWords(old(region[..]), lo, hi, value)
    {
      ghost var was := region[..];
      var tmp := lo;
      assert FillWords(was, lo, lo, value) == was;
      while tmp < hi
        invariant lo <= tmp && (tmp < hi + 4 || tmp == lo) && tmp % 4 == 0
        invariant region[..] == FillWords(was, lo, tmp, value)
      {
        FillOne(was, lo, tmp, value);
        ghost var next := region[..][tmp := value];
        region[tmp] := value;
        assert region[..] == next;
        tmp := tmp + 4;
      }
      if hi <= lo {
        assert FillWords(was, lo, hi, value) == was;
      } else {
        FillDone(was, lo, hi, tmp, value);
      }
    }

    method AllEqual(lo: int, hi: int, value: int) returns (ok: bool)
      requires region != null && 0 <= lo && hi <= region.Length && lo % 4 == 0
      ensures ok <==> Filled(region[..], lo, hi, value)
    {
      var tmp := lo;
      while tmp < hi
        invariant lo <= tmp && tmp % 4 == 0
        invariant forall a :: lo <= a < tmp && a < hi && a % 4 == 0 ==> region[a] == value
      {
        if region[tmp] != value { return false; }
        tmp := tmp + 4;
      }
      return true;
    }

    // ---------- Mem_Init ----------

    method MemInit(sizeOfRegion: int, debug: int) returns (r: int)
      requires Valid() && (initialised || sizeOfRegion <= 0 || sizeOfRegion % 4 == 0)
      modifies this
      ensures Valid()
      ensures old(initialised) || sizeOfRegion <= 0 ==>
                r == -1 && mError == E_BAD_ARGS &&
                unchanged(`initialised, `region, `totalSize, `debugEnable, `padding, `chunks)
      ensures !old(initialised) && sizeOfRegion > 0 ==>
                r == 0 && mError == old(mError) && region != null && fresh(region) && initialised &&
                totalSize == sizeOfRegion + HEADER_FREE_SIZE && chunks == Initial(totalSize) &&
                debugEnable == (debug == 1) && (debugEnable ==> Clean())
    {
      if initialised || sizeOfRegion <= 0 {
        mError := E_BAD_ARGS;
        return -1;
      }
      initialised := true;
      totalSize := sizeOfRegion + HEADER_FREE_SIZE;
      region := new int[totalSize];
      region[0] := -1;
      region[4] := sizeOfRegion;
      padding := if debug == 1 then 64 else 0;
      if debug == 1 {
        debugEnable := true;
        Fill(HEADER_FREE_SIZE, totalSize, FREE_PATTERN);
      }
      chunks := Initial(totalSize);
      FreeAddrsIs(chunks);
      assert chunks[0].Fits();
      return 0;
    }

    // ---------- Mem_Alloc ----------

    /** The stores of the first branch.  With a remainder of -4 the second falls on the size word. */
    method WriteSplit(walking: int, size: int, ghost c: Chunk) returns (ret: int)
      requires region != null && walking == c.addr && 0 <= c.addr && c.addr + 8 + c.size <= region.Length
      requires -4 <= Remainder(c, size + 2 * padding) && size > 0 && region[c.addr + 4] == c.size > size + 2 * padding
      modifies region
      ensures region[..] == SplitWords(old(region[..]), c, size, padding)
      ensures ret == ReturnedFrom(c, size, padding)
    {
      ghost var v := SplitWords(region[..], c, size, padding);
      region[walking + 4] := region[walking + 4] - (size + padding * 2 + HEADER_ALLOCATED_SIZE);
      region[walking + HEADER_FREE_SIZE + region[walking + 4]] := size;
      ret := walking + HEADER_FREE_SIZE + region[walking + 4] + HEADER_ALLOCATED_SIZE + padding;
      assert region[..] == v;
    }

    /** The first branch: carve the block off the tail of chunk `i`. */
    method SplitTail(walking: int, size: int, ghost i: nat) returns (ret: int)
      requires Ready() && i < |chunks| && !chunks[i].live && walking == chunks[i].addr
      requires size > 0 && size % 4 == 0 && chunks[i].size > size + 2 * padding
      modifies region, `chunks
      ensures ret == ReturnedFrom(old(chunks[i]), size, padding)
      ensures old(0 <= chunks[i].addr && chunks[i].addr + 8 + chunks[i].size <= region.Length)
      ensures Remainder(old(chunks[i]), size + 2 * padding) >= -4
      ensures Remainder(old(chunks[i]), size + 2 * padding) >= 0 ==>
                Ready() && chunks == Carve(old(chunks), i, size, padding) &&
                Untouched(old(region[..]), region[..], old(chunks), padding) &&
                (old(FreeClean(region[..], chunks)) ==> FreeClean(region[..], chunks))
      ensures region[..] == SplitWords(old(region[..]), old(chunks[i]), size, padding)
      ensures Remainder(old(chunks[i]), size + 2 * padding) < 0 ==> chunks == old(chunks)
    {
      ghost var c := chunks[i];
      ghost var w := region[..];
      ghost var rest := Remainder(c, size + 2 * padding);
      assert EncodesChunk(w, FreeAddrs(chunks), c);
      ChunkPlaced(chunks, totalSize, padding, i);
      RestIsWhole(c, size, padding);
      ghost var cs, v, ds := chunks, SplitWords(w, c, size, padding), Carve(chunks, i, size, padding);
      if rest >= 0 {
        SplitStep(w, cs, totalSize, padding, i, size);
      }
      ret := WriteSplit(walking, size, c);
      if rest >= 0 {
        chunks := ds;
      }
    }

    /** The second branch: hand out the whole of chunk `i`, after the free chunk at `prev`.  The
        returned address leaves the padding out. */
    method TakeExact(prev: int, walking: int, size: int, ghost q: nat, ghost i: nat) returns (ret: int)
      requires Ready()
      requires q < i < |chunks| && !chunks[q].live && !chunks[i].live && forall j :: q < j < i ==> chunks[j].live
      requires prev == chunks[q].addr && walking == chunks[i].addr
      requires size > 0 && size % 4 == 0 && chunks[i].size == size + 2 * padding
      modifies region, `chunks
      ensures ret == walking + HEADER_ALLOCATED_SIZE
      ensures Ready() && chunks == Carve(old(chunks), i, size, padding)
      ensures Untouched(old(region[..]), region[..], old(chunks), padding)
      ensures old(FreeClean(region[..], chunks)) ==> FreeClean(region[..], chunks)
    {
      ghost var w, cs, ds := region[..], chunks, Carve(chunks, i, size, padding);
      TakeStep(w, cs, totalSize, padding, q, i, size);
      ghost var v := TakeWords(w, prev, walking, size);
      if region[walking] != -1 {
        region[prev] := region[prev] + region[walking];
      } else {
        region[prev] := -1;
      }
      region[walking] := size;
      ret := walking + HEADER_ALLOCATED_SIZE;
      assert region[..] == v;
      chunks := ds;
    }

    /** The two loops that write the paddings around the block at `ret`. */
    method PadBlock(ret: int, size: int)
      requires region != null && ret % 4 == 0 && size % 4 == 0 && padding % 4 == 0
      requires 0 <= ret - padding && 0 <= size && ret + size + padding <= region.Length
      modifies region
      ensures region[..] == PaddedAt(old(region[..]), ret, size, padding)
      ensures forall a :: 0 <= a < region.Length ==>
                region[a] == if a % 4 == 0 && (ret - padding <= a < ret || ret + size <= a < ret + size + padding)
                             then PADDING_PATTERN else old(region[a])
    {
      Fill(ret - padding, ret, PADDING_PATTERN);
      Fill(ret + size, ret + size + padding, PADDING_PATTERN);
    }

    /** The loop over the payload of the free chunk at `here`. */
    method CheckChunk(here: int, ghost i: nat) returns (ok: bool)
      requires region != null && region.Length == totalSize && padding % 4 == 0
      requires Tiles(chunks, totalSize, padding) && EncodesFree(region[..], chunks)
      requires i < |chunks| && !chunks[i].live && here == chunks[i].addr
      ensures ok <==> FreeFilled(region[..], chunks[i])
      ensures ok <==>
              forall a :: 0 <= a < region.Length && a % 4 == 0 && here + 8 <= a < here + 8 + chunks[i].size ==>
                region[a] == FREE_PATTERN
    {
      WalkFrom(region[..], chunks, totalSize, padding, i);
      ChunkPlaced(chunks, totalSize, padding, i);
      ok := AllEqual(here + HEADER_FREE_SIZE, here + HEADER_FREE_SIZE + region[here + 4], FREE_PATTERN);
    }

    /** The walk over the free list that looks for an overwritten free word. */
    method CheckFree() returns (ok: bool)
      requires region != null && region.Length == totalSize && padding % 4 == 0
      requires Tiles(chunks, totalSize, padding) && EncodesFree(region[..], chunks)
      ensures ok <==> FreeClean(region[..], chunks)
    {
      var walking := At(0);
      ghost var w, cs, i := region[..], chunks, 0;
      while walking != Null
        invariant i <= |cs| && (walking == Null <==> i == |cs|)
        invariant i < |cs| ==> !cs[i].live && walking == At(cs[i].addr)
        invariant CleanBefore(w, cs, i)
        decreases |cs| - i
      {
        WalkFrom(w, cs, totalSize, padding, i);
        var here := walking.offset;
        var same := CheckChunk(here, i);
        if !same {
          return false;
        }
        CleanNext(w, cs, i);
        walking := if region[here] != -1 then At(here + region[here]) else Null;
        i := NextFree(cs, i + 1);
      }
      return true;
    }

    /** The walk over the free list: stop at the first chunk that passes a fit test. */
    method FindFit(size: int) returns (walking: Pointer, prev: Pointer, ghost q: nat, ghost i: nat)
      requires Ready() && size > 0
      ensures i == FirstFit(chunks, 0, size + 2 * padding) && FirstLarge(chunks, i, size + 2 * padding)
      ensures var f := FirstFit(chunks, 0, size + 2 * padding);
              walking == if f == |chunks| then Null else At(chunks[f].addr)
      ensures i < |chunks| ==>
              0 <= chunks[i].addr && chunks[i].addr + 4 < region.Length && region[chunks[i].addr + 4] == chunks[i].size
      ensures 0 < i < |chunks| ==>
                q < i && !chunks[q].live && prev == At(chunks[q].addr) && (forall j :: q < j < i ==> chunks[j].live)
    {
      walking, prev := At(0), Null;
      i, q := 0, 0;
      ghost var need := size + 2 * padding;
      FirstFitIsFirstLarge(chunks, need);
      while walking != Null
        invariant i <= |chunks| && (walking == Null <==> i == |chunks|)
        invariant i < |chunks| ==> !chunks[i].live && walking == At(chunks[i].addr)
        invariant 0 < i < |chunks| ==>
                    q < i && !chunks[q].live && prev == At(chunks[q].addr) && (forall j :: q < j < i ==> chunks[j].live)
        invariant forall j :: 0 <= j < i ==> !Passes(chunks, j, need)
        decreases |chunks| - i
      {
        Walk(region[..], chunks, totalSize, padding, i);
        AddressZero(chunks, totalSize, padding, i);
        var here := walking.offset;
        if region[here + 4] + HEADER_FREE_SIZE > size + padding * 2 + HEADER_ALLOCATED_SIZE {
          assert Passes(chunks, i, need);
          return;
        } else if walking != At(0) &&
                  region[here + 4] + HEADER_FREE_SIZE == size + padding * 2 + HEADER_ALLOCATED_SIZE {
          assert Passes(chunks, i, need);
          return;
        } else {
          prev := walking;
          q := i;
          walking := if region[here] != -1 then At(here + region[here]) else Null;
          i := NextFree(chunks, i + 1);
        }
      }
    }

    /** The first chunk that fits, if any, is one the block fits in: see InsideChunkIffGood. */
    ghost predicate WellServed(request: int)
      reads this
    {
      request > 0 && Choice(request) < |chunks| ==>
        GoodFit(chunks[Choice(request)], RoundUp(request) + 2 * padding, padding)
    }

    /** The first chunk that fits, if any, leaves no remainder of -4. */
    ghost predicate Roomy(request: int)
      reads this
    {
      request > 0 && Choice(request) < |chunks| ==>
        Room(chunks[Choice(request)], RoundUp(request) + 2 * padding)
    }

    ghost predicate Unavailable(request: int)
      reads this
    {
      region == null || request <= 0 || Choice(request) == |chunks|
    }

    /** Whichever branch applies to the chunk found. */
    method CarveAt(walking: int, prev: Pointer, size: int, ghost q: nat, ghost i: nat) returns (ret: int)
      requires Ready() && size > 0 && size % 4 == 0 && i < |chunks| && Passes(chunks, i, size + 2 * padding)
      requires walking == chunks[i].addr && 0 <= walking && walking + 4 < region.Length &&
               region[walking + 4] == chunks[i].size
      requires 0 < i ==>
                 q < i && !chunks[q].live && prev == At(chunks[q].addr) && (forall j :: q < j < i ==> chunks[j].live)
      modifies region, `chunks
      ensures ret == ReturnedFrom(old(chunks[i]), size, padding)
      ensures Room(old(chunks[i]), size + 2 * padding) ==>
                Ready() && chunks == Carve(old(chunks), i, size, padding) &&
                Untouched(old(region[..]), region[..], old(chunks), padding) &&
                (old(FreeClean(region[..], chunks)) ==> FreeClean(region[..], chunks))
      ensures !Room(old(chunks[i]), size + 2 * padding) ==>
                chunks == old(chunks) && region[..] == old(region[..])[walking + 4 := size]
    {
      if region[walking + 4] + HEADER_FREE_SIZE > size + padding * 2 + HEADER_ALLOCATED_SIZE {
        ret := SplitTail(walking, size, i);
      } else {
        AddressZero(chunks, totalSize, padding, i);
        ret := TakeExact(prev.offset, walking, size, q, i);
      }
    }

    /** Debug mode, from words `w` in which chunk `i` of `cs` was found and the block has been carved
        from it: write the paddings and check the free words. */
    method FinishDebug(ret: int, size: int, ghost w: seq<int>, ghost cs: seq<Chunk>, ghost i: nat) returns (p: Pointer)
      requires Ready() && debugEnable && IsHeap(cs, totalSize, padding) && i < |cs| && size > 0 && size % 4 == 0
      requires Passes(cs, i, size + 2 * padding) && Room(cs[i], size + 2 * padding) && |w| == region.Length
      requires chunks == Carve(cs, i, size, padding) && Untouched(w, region[..], cs, padding)
      requires FreeClean(w, cs) ==> FreeClean(region[..], chunks)
      requires ret == ReturnedFrom(cs[i], size, padding)
      modifies region, `mError
      ensures Remainder(cs[i], size + 2 * padding) >= 0 ==>
                Ready() && Padded(w, region[..], cs, chunks, Block(cs, i, size, padding), padding)
      ensures Remainder(cs[i], size + 2 * padding) < 0 ==>
                Misplaced(w, region[..], cs, chunks, Block(cs, i, size, padding), padding)
      ensures if FreeClean(region[..], chunks) then p == At(ret) && mError == old(mError)
              else p == Null && mError == E_CORRUPT_FREESPACE
    {
      ghost var u, ds, b := region[..], chunks, Block(cs, i, size, padding);
      ReturnPlaced(cs, totalSize, padding, i, size);
      PadBlock(ret, size);
      if Remainder(cs[i], size + 2 * padding) >= 0 {
        PadStep(w, u, cs, ds, totalSize, padding, i, size);
      } else {
        LowPadStep(w, u, cs, ds, totalSize, padding, i, size);
      }
      var ok := CheckFree();
      if !ok {
        mError := E_CORRUPT_FREESPACE;
        return Null;
      }
      return At(ret);
    }

    lemma ChoiceIsFirstLarge(request: int)
      requires request > 0
      ensures FirstLarge(chunks, Choice(request), RoundUp(request) + 2 * padding)
    {
      FirstFitIsFirstLarge(chunks, RoundUp(request) + 2 * padding);
    }

    method MemAlloc(request: int) returns (p: Pointer)
      requires Valid()
      // with a remainder of -4 the paddings would be written past the end of the chunk
      requires debugEnable ==> Roomy(request)
      modifies region, `mError, `chunks
      // first fit
      ensures old(region) != null && request > 0 ==>
                FirstLarge(old(chunks), old(Choice(request)), RoundUp(request) + 2 * padding)
      // nothing to do, or nothing fits
      ensures old(Unavailable(request)) ==>
                Valid() && p == Null && chunks == old(chunks) && (region != null ==> region[..] == old(region[..])) &&
                mError == if region != null && request <= 0 then old(mError) else E_NO_SPACE
      // the block is carved from the first chunk that fits
      ensures !old(Unavailable(request)) && old(Roomy(request)) ==>
                var size, i := RoundUp(request), old(Choice(request));
                chunks == Carve(old(chunks), i, size, padding) &&
                (if debugEnable && !FreeClean(region[..], chunks)
                 then p == Null && mError == E_CORRUPT_FREESPACE
                 else p == At(ReturnedFrom(old(chunks[i]), size, padding)) && mError == old(mError))
      ensures !old(Unavailable(request)) && old(WellServed(request)) ==>
                var size, i := RoundUp(request), old(Choice(request)); var b := Block(old(chunks), i, size, padding);
                Ready() && Untouched(old(region[..]), region[..], old(chunks), padding) &&
                ReturnedFrom(old(chunks[i]), size, padding) == b.Payload(padding) &&
                (debugEnable ==> Padded(old(region[..]), region[..], old(chunks), chunks, b, padding))
      // an exact fit in debug mode: the paddings are in the wrong place
      ensures !old(Unavailable(request)) && old(Roomy(request)) && !old(WellServed(request)) ==>
                Misplaced(old(region[..]), region[..], old(chunks), chunks,
                          Block(old(chunks), old(Choice(request)), RoundUp(request), padding), padding)
      // a remainder of -4 stores the block's size over the chunk's own and leaves the chunk
      ensures !old(Unavailable(request)) && !old(Roomy(request)) ==>
                var size, c := RoundUp(request), old(chunks[Choice(request)]);
                p == At(ReturnedFrom(c, size, padding)) && mError == old(mError) && chunks == old(chunks) &&
                0 <= c.addr && c.addr + 4 < region.Length && region[..] == old(region[..])[c.addr + 4 := size]
    {
      if region == null {
        mError := E_NO_SPACE;
        return Null;
      }
      if request <= 0 {
        return Null;
      }
      ChoiceIsFirstLarge(request);
      var size := ((request - 1) / 4 + 1) * 4;
      assert size == RoundUp(request);
      var walking, prev, q, i := FindFit(size);
      assert i == Choice(request);
      if walking == Null {
        mError := E_NO_SPACE;
        return Null;
      }
      ghost var w, cs, pad := region[..], chunks, padding;
      ghost var c, ds := cs[i], Carve(cs, i, size, pad);
      FitReturned(cs, i, size, pad);
      assert Roomy(request) <==> Room(c, size + 2 * pad);
      assert WellServed(request) <==> GoodFit(c, size + 2 * pad, pad);
      var ret := CarveAt(walking.offset, prev, size, q, i);
      if !debugEnable {
        assert GoodFit(c, size + 2 * pad, pad) <==> Room(c, size + 2 * pad);
        return At(ret);
      }
      assert chunks == ds;
      p := FinishDebug(ret, size, w, cs, i);
    }

    // ---------- Mem_Free ----------

    /** The walk to the last free chunk before the block at `ptrNew`, which is chunk `k`. */
    method FindPrevious(ptrNew: int, ghost k: nat) returns (prev: int, next: Pointer, ghost q: nat)
      requires Ready() && 0 < k < |chunks| && chunks[k].live && ptrNew == chunks[k].addr
      ensures q < k && !chunks[q].live && prev == chunks[q].addr && (forall j :: q < j < k ==> chunks[j].live)
      ensures next == if NextFree(chunks, k + 1) == |chunks| then Null else At(chunks[NextFree(chunks, k + 1)].addr)
      ensures 0 <= prev < region.Length && next == if region[prev] == -1 then Null else At(prev + region[prev])
    {
      prev := 0;
      q := 0;
      while true
        invariant q < k && !chunks[q].live && prev == chunks[q].addr
        decreases k - q
      {
        Walk(region[..], chunks, totalSize, padding, q);
        next := if region[prev] == -1 then Null else At(prev + region[prev]);
        ghost var n := NextFree(chunks, q + 1);
        if next == Null || next.offset > ptrNew {
          NotBefore(chunks, totalSize, padding, n, k);
          SkipLive(chunks, q, k);
          return;
        }
        NotAfter(chunks, totalSize, padding, n, k);
        prev := next.offset;
        q := n;
      }
    }

    /** The stores that merge the free chunk at `b` into the one at `a`. */
    method WriteMerged(a: int, b: int)
      requires region != null && 0 <= a && a + 8 <= b && b + 8 <= region.Length && b % 4 == 0
      modifies region
      ensures region[..] == MergedWords(old(region[..]), a, b, debugEnable)
    {
      ghost var w := region[..];
      if region[b] != -1 {
        region[a] := region[a] + region[b];
      } else {
        region[a] := -1;
      }
      region[a + 4] := region[a + 4] + (region[b + 4] + HEADER_FREE_SIZE);
      assert region[..] == MergeWords(w, a, b);
      if debugEnable {
        Fill(b, b + HEADER_FREE_SIZE, FREE_PATTERN);
      }
    }

    /** Merge the free chunk at `b` into the free chunk at `a` before it. */
    method MergeInto(a: int, b: int, ghost k: nat)
      requires Represents() && k + 1 < |chunks| && !chunks[k].live && !chunks[k + 1].live
      requires a == chunks[k].addr && b == chunks[k + 1].addr
      modifies region, `chunks
      ensures Represents() && chunks == Absorb(old(chunks), k)
      ensures Untouched(old(region[..]), region[..], old(chunks), padding)
      ensures debugEnable && old(FreeClean(region[..], chunks)) ==> FreeClean(region[..], chunks)
    {
      ghost var w, cs := region[..], chunks;
      ghost var ds, v := MergeStep(w, cs, totalSize, padding, k, debugEnable);
      WriteMerged(a, b);
      assert region[..] == v;
      chunks := ds;
    }

    /** The stores that turn the block at `ptrNew` into a free chunk after the one at `prev`. */
    method WriteFree(ptrNew: int, additional: int, prev: int, next: Pointer)
      requires region != null && 0 <= prev < ptrNew && ptrNew % 4 == 0
      requires ptrNew + 8 <= region.Length && ptrNew + 8 + additional <= region.Length
      requires next == if region[prev] == -1 then Null else At(prev + region[prev])
      modifies region
      ensures region[..] == InsertedWords(old(region[..]), prev, ptrNew, additional, debugEnable)
    {
      ghost var w := region[..];
      region[ptrNew] := if next == Null then -1 else next.offset - ptrNew;
      region[ptrNew + 4] := additional;
      if debugEnable {
        Fill(ptrNew + HEADER_FREE_SIZE, ptrNew + HEADER_FREE_SIZE + additional, FREE_PATTERN);
      }
      region[prev] := ptrNew - prev;
      assert region[..] == InsertedWords(w, prev, ptrNew, additional, debugEnable);
    }

    /** Link the block, chunk `k`, into the free list after the free chunk at `prev`. */
    method InsertFree(ptrNew: int, additional: int, prev: int, next: Pointer, ghost q: nat, ghost k: nat)
      requires Ready() && q < k < |chunks| && !chunks[q].live && chunks[k].live &&
               (forall j :: q < j < k ==> chunks[j].live)
      requires ptrNew == chunks[k].addr && additional == chunks[k].size + 2 * padding
      requires prev == chunks[q].addr && 0 <= prev < region.Length &&
               next == if region[prev] == -1 then Null else At(prev + region[prev])
      modifies region, `chunks
      ensures Represents() && chunks == Mark(old(chunks), k, padding)
      ensures Untouched(old(region[..]), region[..], chunks, padding)
      ensures debugEnable && old(FreeClean(region[..], chunks)) ==> FreeClean(region[..], chunks)
    {
      ghost var w, cs := region[..], chunks;
      ChunkPlaced(cs, totalSize, padding, k);
      ghost var v, ds := InsertStep(w, cs, totalSize, padding, q, k, debugEnable);
      WriteFree(ptrNew, additional, prev, next);
      assert region[..] == v;
      chunks := ds;
    }

    /** Merge the freed chunk with the next one on the list if it ends where that one starts. */
    method MergeNext(ptrNew: int, additional: int, next: Pointer, ghost k: nat)
      requires Represents() && k < |chunks| && !chunks[k].live && ptrNew == chunks[k].addr &&
               additional == chunks[k].size
      requires next == if NextFree(chunks, k + 1) == |chunks| then Null else At(chunks[NextFree(chunks, k + 1)].addr)
      modifies region, `chunks
      ensures Represents() && chunks == Absorb(old(chunks), k)
      ensures Untouched(old(region[..]), region[..], old(chunks), padding)
      ensures debugEnable && old(FreeClean(region[..], chunks)) ==> FreeClean(region[..], chunks)
    {
      Walk(region[..], chunks, totalSize, padding, k);
      if region[ptrNew] != -1 {
        NextTouches(chunks, totalSize, padding, k, NextFree(chunks, k + 1));
        if ptrNew + HEADER_FREE_SIZE + additional == next.offset {
          MergeInto(ptrNew, next.offset, k);
        }
      }
    }

    /** Merge the freed chunk into the previous one on the list if that one ends where it starts. */
    method MergePrevious(prev: int, ptrNew: int, ghost q: nat, ghost k: nat)
      requires Represents() && q < k < |chunks| && !chunks[q].live && !chunks[k].live
      requires forall j :: q < j < k ==> chunks[j].live
      requires prev == chunks[q].addr && ptrNew == chunks[k].addr
      modifies region, `chunks
      ensures Represents() && chunks == Absorb(old(chunks), k - 1)
      ensures Untouched(old(region[..]), region[..], old(chunks), padding)
      ensures debugEnable && old(FreeClean(region[..], chunks)) ==> FreeClean(region[..], chunks)
    {
      Walk(region[..], chunks, totalSize, padding, q);
      NextTouches(chunks, totalSize, padding, q, k);
      if prev + HEADER_FREE_SIZE + region[prev + 4] == ptrNew {
        MergeInto(prev, ptrNew, q);
      }
    }

    /** Both merges, the next chunk first. */
    method MergeBoth(ptrNew: int, additional: int, prev: int, next: Pointer, ghost q: nat, ghost k: nat,
                     ghost cs: seq<Chunk>)
      requires q < k < |cs| && cs[k].live && !cs[q].live && (forall j :: q < j < k ==> cs[j].live)
      requires Represents() && chunks == Mark(cs, k, padding)
      requires ptrNew == cs[k].addr && prev == cs[q].addr && additional == cs[k].size + 2 * padding
      requires next == if NextFree(cs, k + 1) == |cs| then Null else At(cs[NextFree(cs, k + 1)].addr)
      modifies region, `chunks
      ensures Represents() && chunks == Release(cs, k, padding)
      ensures Untouched(old(region[..]), region[..], chunks, padding)
      ensures debugEnable && old(FreeClean(region[..], chunks)) ==> FreeClean(region[..], chunks)
    {
      ReleaseShape(cs, k, padding, q);
      MergeNext(ptrNew, additional, next, k);
      label merged:
      MergePrevious(prev, ptrNew, q, k);
      AbsorbUntouched(old(region[..]), old@merged(region[..]), region[..], old(chunks), totalSize, padding, k);
    }

    /** The release proper: chunk `k` starts at `ptrNew`. */
    method FreeChunk(ptrNew: int, additional: int, ghost k: nat)
      requires Ready() && 0 < k < |chunks| && chunks[k].live
      requires ptrNew == chunks[k].addr && additional == chunks[k].size + 2 * padding
      modifies region, `chunks
      ensures Ready() && chunks == Release(old(chunks), k, padding)
      ensures Untouched(old(region[..]), region[..], chunks, padding)
      ensures debugEnable && old(FreeClean(region[..], chunks)) ==> FreeClean(region[..], chunks)
    {
      ghost var cs := chunks;
      var prev, next, q := FindPrevious(ptrNew, k);
      InsertFree(ptrNew, additional, prev, next, q, k);
      label inserted:
      MergeBoth(ptrNew, additional, prev, next, q, k, cs);
      ReleaseCoalesced(cs, padding, k);
      ReleaseUntouched(old(region[..]), old@inserted(region[..]), region[..], cs, totalSize, padding, k);
    }

    ghost predicate OutOfRange(ptr: Pointer)
      reads this
    {
      ptr.At? && (region == null || ptr.offset < 0 || ptr.offset >= totalSize)
    }

    /** The word where the header would be is negative: no block starts there. */
    ghost predicate NegativeHeader(ptr: Pointer)
      reads this, region
    {
      ptr.At? && region != null &&
      var a := ptr.offset - padding - HEADER_ALLOCATED_SIZE;
      0 <= a < region.Length && a % 4 == 0 && region[a] < 0
    }

    ghost predicate IsLive(b: Chunk, ptr: Pointer)
      reads this
    {
      region != null && b in LiveBlocks(chunks) && ptr == At(b.Payload(padding))
    }

    ghost predicate Overwritten(b: Chunk)
      reads this, region
    {
      region != null && debugEnable && !PadsIntact(region[..], b, padding)
    }

    /** The two loops over the paddings of the block at `ptr`. */
    method CheckPads(ptr: int, allocatedSize: int, ghost b: Chunk, ghost k: nat) returns (ok: bool)
      requires Ready() && k < |chunks| && chunks[k] == b && b.live && ptr == b.Payload(padding) &&
               allocatedSize == b.size
      ensures ok <==> PadsIntact(region[..], b, padding)
      ensures ok <==>
              forall a :: 0 <= a < region.Length && a % 4 == 0 &&
                          (ptr - padding <= a < ptr || ptr + b.size <= a < ptr + b.size + padding) ==>
                region[a] == PADDING_PATTERN
    {
      PaddingsPlaced(chunks, totalSize, padding, k);
      ok := AllEqual(ptr - padding, ptr, PADDING_PATTERN);
      if ok {
        ok := AllEqual(ptr + allocatedSize, ptr + allocatedSize + padding, PADDING_PATTERN);
      }
    }

    method MemFree(ptr: Pointer, ghost b: Chunk) returns (r: int)
      requires Valid() || (NegativeHeader(ptr) && !IsLive(b, ptr))
      // a pointer into the region is one that Mem_Alloc returned and that is still live, or has no header before it
      requires ptr == Null || OutOfRange(ptr) || NegativeHeader(ptr) || IsLive(b, ptr)
      modifies region, `mError, `chunks
      ensures ptr == Null ==> r == 0 && mError == old(mError)
      ensures old(OutOfRange(ptr)) || old(NegativeHeader(ptr)) ==> r == -1 && mError == E_BAD_POINTER
      ensures old(IsLive(b, ptr)) && old(Overwritten(b)) ==> r == -1 && mError == E_PADDING_OVERWRITTEN
      ensures !old(IsLive(b, ptr)) || old(Overwritten(b)) ==>
                (old(Valid()) ==> Valid()) && chunks == old(chunks) &&
                (region != null ==> region[..] == old(region[..]))
      ensures old(IsLive(b, ptr)) && !old(Overwritten(b)) ==>
                r == 0 && mError == old(mError) && Ready() &&
                b in old(chunks) && old(chunks)[0] != b && chunks == ReleaseBlock(old(chunks), b, padding) &&
                Untouched(old(region[..]), region[..], chunks, padding) &&
                (debugEnable && old(FreeClean(region[..], chunks)) ==> FreeClean(region[..], chunks))
    {
      if ptr == Null {
        return 0;
      }
      ghost var k := 0;
      if IsLive(b, ptr) {
        k := IndexOf(chunks, b);
        IndexUnique(chunks, totalSize, padding, b, k);
        PaddingsPlaced(chunks, totalSize, padding, k);
        assert EncodesChunk(region[..], FreeAddrs(chunks), b);
      }
      ghost var out, negative := OutOfRange(ptr), NegativeHeader(ptr);
      if region == null || ptr.offset < 0 || ptr.offset >= totalSize {
        mError := E_BAD_POINTER;
        return -1;
      }
      var ptrNew := ptr.offset - padding - HEADER_ALLOCATED_SIZE;
      var allocatedSize := region[ptrNew];
      var additional := allocatedSize + 2 * padding + HEADER_ALLOCATED_SIZE - HEADER_FREE_SIZE;
      if allocatedSize < 0 {
        mError := E_BAD_POINTER;
        return -1;
      }
      assert !out && !negative;
      if debugEnable {
        var intact := CheckPads(ptr.offset, allocatedSize, b, k);
        if !intact {
          mError := E_PADDING_OVERWRITTEN;
          return -1;
        }
      }
      FreeChunk(ptrNew, additional, k);
      return 0;
    }

    /** A client's store of one word into the payload of a live block. */
    method StoreWord(b: Chunk, offset: int, value: int)
      requires Ready() && b in LiveBlocks(chunks) && 0 <= offset && offset % 4 == 0 && offset + 4 <= b.size
      modifies region
      ensures Ready()
      ensures 0 <= b.Payload(padding) + offset < region.Length
      ensures region[..] == old(region[..])[b.Payload(padding) + offset := value]
      ensures old(Clean()) ==> Clean()
    {
      StoreKeeps(region[..], chunks, totalSize, padding, b, b.Payload(padding) + offset, value);
      ghost var w := region[..];
      region[b.Payload(padding) + offset] := value;
      assert region[..] == w[b.Payload(padding) + offset := value];
    }
  }

  // ---------- Sessions ----------

  /** The heap is `cs`, in debug mode nothing outside live payloads has been overwritten, and no
      error other than a full heap has been reported since the error was `err`. */
  ghost predicate Sound(a: Allocator, cs: seq<Chunk>, err: int)
    reads a, a.region
  {
    a.Ready() && a.chunks == cs && (a.debugEnable ==> a.Clean()) && (a.mError == err || a.mError == E_NO_SPACE)
  }

  /** Every word noted lies in a live payload and still holds what was stored there. */
  ghost predicate Kept(m: map<int, int>, w: seq<int>, cs: seq<Chunk>, pad: nat) {
    forall a :: a in m ==> 0 <= a < |w| && w[a] == m[a] && InPayload(cs, a, pad)
  }

  ghost predicate InPayload(cs: seq<Chunk>, a: int, pad: nat) {
    exists c :: c in LiveBlocks(cs) && c.Payload(pad) <= a && a + 4 <= c.Payload(pad) + c.size
  }

  lemma RequestKept(m: map<int, int>, w: seq<int>, v: seq<int>, cs: seq<Chunk>, ds: seq<Chunk>, pad: nat)
    requires Kept(m, w, cs, pad) && |v| == |w| && LiveBlocks(cs) <= LiveBlocks(ds) && Untouched(w, v, cs, pad)
    ensures Kept(m, v, ds, pad)
  {
    forall a | a in m
      ensures v[a] == m[a] && InPayload(ds, a, pad)
    {
      var c :| c in LiveBlocks(cs) && c.Payload(pad) <= a && a + 4 <= c.Payload(pad) + c.size;
      assert c in cs && c.live && c in LiveBlocks(ds) && Same(w, v, c.addr, c.End(pad));
    }
  }

  /** A block that stays live keeps its words. */
  lemma ReturnKept(m: map<int, int>, w: seq<int>, v: seq<int>, cs: seq<Chunk>, ds: seq<Chunk>, pad: nat, b: Chunk)
    requires Kept(m, w, cs, pad) && |v| == |w| && LiveBlocks(ds) == LiveBlocks(cs) - {b} && Untouched(w, v, ds, pad)
    ensures Kept(Noted(m, Return(b), pad), v, ds, pad)
  {
    var left := Noted(m, Return(b), pad);
    forall a | a in left
      ensures v[a] == left[a] && InPayload(ds, a, pad)
    {
      var c :| c in LiveBlocks(cs) && c.Payload(pad) <= a && a + 4 <= c.Payload(pad) + c.size;
      assert c in LiveBlocks(ds) && c in ds && c.live && Same(w, v, c.addr, c.End(pad));
    }
  }

  /** What a client gets back: the pointer of Mem_Alloc, the value of Mem_Free, or nothing for a
      store of its own. */
  datatype Reply = Given(ptr: Pointer) | Returned(value: int) | Stored

  /** The right reply to a call on the heap `cs`. */
  ghost function ReplyTo(cs: seq<Chunk>, c: Call, pad: nat): Reply {
    match c
    case Request(size) =>
      if NoneFits(cs, size, pad) then Given(Null)
      else Given(At(NewBlock(cs, size, pad).Payload(pad)))
    case Return(_) => Returned(0)
    case Store(_, _, _) => Stored
  }

  ghost predicate NoneFits(cs: seq<Chunk>, size: int, pad: nat) {
    size <= 0 || FirstFit(cs, 0, RoundUp(size) + 2 * pad) == |cs|
  }

  /** The block carved for a request, from the first chunk that passes. */
  ghost function NewBlock(cs: seq<Chunk>, size: int, pad: nat): Chunk
    requires !NoneFits(cs, size, pad)
  {
    Block(cs, FirstFit(cs, 0, RoundUp(size) + 2 * pad), RoundUp(size), pad)
  }

  ghost function Replies(cs: seq<Chunk>, calls: seq<Call>, pad: nat): (rs: seq<Reply>)
    ensures |rs| == |calls|
    decreases |calls|
  {
    if calls == [] then [] else [ReplyTo(cs, calls[0], pad)] + Replies(Step(cs, calls[0], pad), calls[1..], pad)
  }

  /** A request gets null exactly when it asks for nothing or every free chunk is too small, and then
      nothing has changed ... */
  lemma NullIffNoneLarge(cs: seq<Chunk>, pad: nat, size: int)
    ensures ReplyTo(cs, Request(size), pad) == Given(Null) <==>
            size <= 0 ||
            forall i :: 0 <= i < |cs| && !cs[i].live ==>
              cs[i].size < RoundUp(size) + 2 * pad || (i == 0 && cs[i].size == RoundUp(size) + 2 * pad)
    ensures ReplyTo(cs, Request(size), pad) == Given(Null) ==> Step(cs, Request(size), pad) == cs
  {
    if size > 0 {
      var need := RoundUp(size) + 2 * pad;
      var f := FirstFit(cs, 0, need);
      FirstFitIsFirstLarge(cs, need);
      if f < |cs| {
        assert !cs[f].live && !(cs[f].size < need || (f == 0 && cs[f].size == need));
      }
    }
  }

  /** ... and otherwise the pointer of a block of its rounded size, which was not live before and is the
      only one more after it: the end of the first chunk that is large enough. */
  lemma GivenIsNew(cs: seq<Chunk>, total: int, pad: nat, size: int) returns (i: nat, b: Chunk)
    requires IsHeap(cs, total, pad) && pad % 4 == 0 && Served(cs, Request(size), pad)
    requires ReplyTo(cs, Request(size), pad) != Given(Null)
    ensures ReplyTo(cs, Request(size), pad) == Given(At(b.Payload(pad)))
    ensures size > 0 && FirstLarge(cs, i, RoundUp(size) + 2 * pad)
    ensures i < |cs| && b.End(pad) == cs[i].End(pad) && b.size == RoundUp(size)
    ensures b !in LiveBlocks(cs) && LiveBlocks(Step(cs, Request(size), pad)) == LiveBlocks(cs) + {b}
    // the client may store into it and return it
    ensures Lawful(Step(cs, Request(size), pad), Return(b))
    ensures forall offset, value :: 0 <= offset <= b.size - 4 && offset % 4 == 0 ==>
              Lawful(Step(cs, Request(size), pad), Store(b, offset, value))
  {
    b := NewBlock(cs, size, pad);
    i := FirstFit(cs, 0, RoundUp(size) + 2 * pad);
    FirstFitIsFirstLarge(cs, RoundUp(size) + 2 * pad);
    CarveKeepsHeap(cs, total, pad, i, RoundUp(size));
    NewBlockLast(cs, i, RoundUp(size), pad);
  }

  lemma NewBlockLast(cs: seq<Chunk>, i: nat, size: int, pad: nat)
    requires i < |cs| && !cs[i].live && cs[i].size >= size + 2 * pad
    ensures Block(cs, i, size, pad).End(pad) == cs[i].End(pad)
  {
  }

  /** A request as a step: `b` is the new block if there is one. */
  lemma RequestStep(cs: seq<Chunk>, total: int, pad: nat, size: int, i: nat)
    returns (none: bool, b: Chunk, next: seq<Chunk>)
    requires IsHeap(cs, total, pad) && pad % 4 == 0 && Served(cs, Request(size), pad) && i <= |cs|
    requires size > 0 ==> i == FirstFit(cs, 0, RoundUp(size) + 2 * pad)
    ensures none == (size <= 0 || i == |cs|)
    ensures !none ==> GoodFit(cs[i], RoundUp(size) + 2 * pad, pad) && b == Block(cs, i, RoundUp(size), pad)
    ensures next == if none then cs else Carve(cs, i, RoundUp(size), pad)
    ensures next == Step(cs, Request(size), pad) && LiveBlocks(cs) <= LiveBlocks(next)
    ensures ReplyTo(cs, Request(size), pad) == Given(if none then Null else At(b.Payload(pad)))
  {
    none, next := NoneFits(cs, size, pad), Step(cs, Request(size), pad);
    b := Chunk(0, 0, false);
    if !none {
      b := NewBlock(cs, size, pad);
      CarveKeepsHeap(cs, total, pad, i, RoundUp(size));
    }
  }

  /** Mem_Alloc in a sound heap. */
  method Ask(a: Allocator, size: int, ghost none: bool, ghost i: nat, ghost b: Chunk, ghost next: seq<Chunk>)
    returns (p: Pointer)
    requires Sound(a, a.chunks, a.mError) && (none <==> a.Unavailable(size)) && a.WellServed(size)
    requires !none ==> i < |a.chunks| && i == a.Choice(size) && b == Block(a.chunks, i, RoundUp(size), a.padding)
    requires next == if none then a.chunks else Carve(a.chunks, i, RoundUp(size), a.padding)
    modifies a.region, a`mError, a`chunks
    ensures Sound(a, next, old(a.mError)) && p == if none then Null else At(b.Payload(a.padding))
    ensures !none ==> a.mError == old(a.mError)
    ensures Untouched(old(a.region[..]), a.region[..], old(a.chunks), a.padding)
  {
    p := a.MemAlloc(size);
  }

  method ServeRequest(a: Allocator, size: int, ghost m: map<int, int>) returns (reply: Reply)
    requires Sound(a, a.chunks, a.mError) && Served(a.chunks, Request(size), a.padding)
    requires Kept(m, a.region[..], a.chunks, a.padding)
    modifies a.region, a`mError, a`chunks
    ensures Sound(a, Step(old(a.chunks), Request(size), a.padding), old(a.mError))
    ensures Kept(m, a.region[..], a.chunks, a.padding)
    ensures reply == ReplyTo(old(a.chunks), Request(size), a.padding)
  {
    ghost var cs, pad, w := a.chunks, a.padding, a.region[..];
    ghost var i := if size > 0 then a.Choice(size) else 0;
    assert size > 0 ==> i == FirstFit(cs, 0, RoundUp(size) + 2 * pad);
    ghost var none, b, next := RequestStep(cs, a.totalSize, pad, size, i);
    var p := Ask(a, size, none, i, b, next);
    RequestKept(m, w, a.region[..], cs, next, pad);
    reply := Given(p);
  }

  /** Mem_Free in a sound heap. */
  method GiveBack(a: Allocator, p: Pointer, ghost b: Chunk, ghost next: seq<Chunk>) returns (r: int)
    requires Sound(a, a.chunks, a.mError) && b in LiveBlocks(a.chunks) && p == At(b.Payload(a.padding))
    requires b in a.chunks && a.chunks[0] != b && next == ReleaseBlock(a.chunks, b, a.padding)
    requires IsHeap(next, a.totalSize, a.padding) && LiveBlocks(next) == LiveBlocks(a.chunks) - {b}
    modifies a.region, a`mError, a`chunks
    ensures Sound(a, next, old(a.mError)) && r == 0 && a.mError == old(a.mError)
    ensures Untouched(old(a.region[..]), a.region[..], next, a.padding)
  {
    ghost var cs, w := a.chunks, a.region[..];
    r := a.MemFree(p, b);
    assert a.chunks == next;
    if a.debugEnable {
      ReleaseClean(w, a.region[..], cs, next, a.totalSize, a.padding);
    }
  }

  method ServeReturn(a: Allocator, b: Chunk, ghost m: map<int, int>) returns (reply: Reply)
    requires Sound(a, a.chunks, a.mError) && b in LiveBlocks(a.chunks)
    requires Kept(m, a.region[..], a.chunks, a.padding)
    modifies a.region, a`mError, a`chunks
    ensures Sound(a, Step(old(a.chunks), Return(b), a.padding), old(a.mError))
    ensures Kept(Noted(m, Return(b), a.padding), a.region[..], a.chunks, a.padding)
    ensures reply == Returned(0)
  {
    ghost var cs, w, pad := a.chunks, a.region[..], a.padding;
    ghost var next := ReturnStep(cs, a.totalSize, pad, b);
    var r := GiveBack(a, At(b.Payload(a.padding)), b, next);
    ReturnKept(m, w, a.region[..], cs, next, pad, b);
    reply := Returned(r);
  }

  method Serve(a: Allocator, c: Call, ghost m: map<int, int>) returns (reply: Reply)
    requires Sound(a, a.chunks, a.mError) && Served(a.chunks, c, a.padding) && Lawful(a.chunks, c)
    requires Kept(m, a.region[..], a.chunks, a.padding)
    modifies a.region, a`mError, a`chunks
    ensures Sound(a, Step(old(a.chunks), c, a.padding), old(a.mError))
    ensures Kept(Noted(m, c, a.padding), a.region[..], a.chunks, a.padding)
    ensures reply == ReplyTo(old(a.chunks), c, a.padding)
  {
    match c {
      case Request(size) =>
        reply := ServeRequest(a, size, m);
      case Return(b) =>
        reply := ServeReturn(a, b, m);
      case Store(b, offset, value) =>
        a.StoreWord(b, offset, value);
        reply := Stored;
        assert b in LiveBlocks(a.chunks) && InPayload(a.chunks, b.Payload(a.padding) + offset, a.padding);
    }
  }

  /** In every session of lawful calls that is served by good fits, the memory represents exactly
      the heap of the pure run, every client gets the right reply, every payload word holds what its
      client last stored there, and in debug mode neither corruption error is reported.  `m` is what
      has been stored before. */
  method Session(a: Allocator, calls: seq<Call>, ghost m: map<int, int>) returns (replies: seq<Reply>)
    requires Sound(a, a.chunks, a.mError)
    requires AllServed(a.chunks, calls, a.padding) && AllLawful(a.chunks, calls, a.padding)
    requires Kept(m, a.region[..], a.chunks, a.padding)
    modifies a.region, a`mError, a`chunks
    ensures Sound(a, Run(old(a.chunks), calls, a.padding), old(a.mError))
    ensures Kept(Notes(m, calls, a.padding), a.region[..], a.chunks, a.padding)
    ensures replies == Replies(old(a.chunks), calls, a.padding)
    decreases |calls|
  {
    replies := [];
    if calls != [] {
      var reply := Serve(a, calls[0], m);
      var others := Session(a, calls[1..], Noted(m, calls[0], a.padding));
      replies := [reply] + others;
    }
  }

  /** With debug off, a region of a multiple of eight bytes and requests that round to multiples
      of eight, every session is one of those: no call meets a remainder of -4. */
  method OctetSession(a: Allocator, calls: seq<Call>) returns (replies: seq<Reply>)
    requires Sound(a, Initial(a.totalSize), a.mError) && !a.debugEnable
    requires a.totalSize % 8 == 0 && OctetCalls(calls) && AllLawful(a.chunks, calls, 0)
    modifies a.region, a`mError, a`chunks
    ensures Sound(a, Run(Initial(a.totalSize), calls, 0), old(a.mError))
    ensures Kept(Notes(map[], calls, 0), a.region[..], a.chunks, 0)
    ensures replies == Replies(Initial(a.totalSize), calls, 0)
  {
    InitialOctets(a.totalSize);
    OctetRunsServed(a.chunks, calls);
    replies := Session(a, calls, map[]);
  }

  /** In debug mode sizes that are multiples of eight keep Mem_Alloc within its chunk. */
  lemma OctetsAreRoomy(a: Allocator, request: int)
    requires Octets(a.chunks) && OctetCall(Request(request)) && (a.padding == 0 || a.padding == 64)
    ensures a.Roomy(request)
  {
    if request > 0 { OctetsRoomy(a.chunks, request, a.padding); }
  }

  /** The header words of every chunk: the free list, offsets and sizes, and the block sizes. */
  ghost predicate SameHeaders(w: seq<int>, v: seq<int>, cs: seq<Chunk>) {
    |w| == |v| &&
    forall c :: c in cs ==>
      0 <= c.addr && c.addr + 8 <= |w| && w[c.addr] == v[c.addr] && (!c.live ==> w[c.addr + 4] == v[c.addr + 4])
  }

  lemma AllHeadersDetermined(w: seq<int>, v: seq<int>, cs: seq<Chunk>, total: int, pad: nat)
    requires Tiles(cs, total, pad) && Encodes(w, cs) && Encodes(v, cs) && |w| == |v|
    ensures SameHeaders(w, v, cs)
  {
    forall c | c in cs
      ensures 0 <= c.addr && c.addr + 8 <= |w| && w[c.addr] == v[c.addr] && (!c.live ==> w[c.addr + 4] == v[c.addr + 4])
    {
      var i :| 0 <= i < |cs| && cs[i] == c;
      HeadersDetermined(w, v, cs, total, pad, i);
    }
  }

  lemma CarveAndBack(cs: seq<Chunk>, total: int, pad: nat, i: nat, size: int) returns (b: Chunk, next: seq<Chunk>)
    requires IsHeap(cs, total, pad) && i < |cs| && size > 0 && size % 4 == 0 && pad % 4 == 0
    requires Passes(cs, i, size + 2 * pad) && GoodFit(cs[i], size + 2 * pad, pad)
    ensures b == Block(cs, i, size, pad) && next == Carve(cs, i, size, pad)
    ensures b in LiveBlocks(next) && LiveBlocks(cs) == LiveBlocks(next) - {b}
    ensures b in next && next[0] != b && ReleaseBlock(next, b, pad) == cs
  {
    b, next := Block(cs, i, size, pad), Carve(cs, i, size, pad);
    CarveKeepsHeap(cs, total, pad, i, size);
    ReleaseUndoesCarve(cs, total, pad, i, size);
  }

  /** Mem_Free of what Mem_Alloc just returned restores every header word, after a split and
      after an exact fit alike. */
  method AllocFree(a: Allocator, request: int) returns (r: int)
    requires a.Ready() && (a.debugEnable ==> a.Clean()) && a.WellServed(request) && !a.Unavailable(request)
    modifies a.region, a`mError, a`chunks
    ensures a.Ready() && a.chunks == old(a.chunks) && r == 0 && a.mError == old(a.mError)
    ensures SameHeaders(old(a.region[..]), a.region[..], a.chunks)
  {
    ghost var cs, i, size, w := a.chunks, a.Choice(request), RoundUp(request), a.region[..];
    ghost var b, next := CarveAndBack(cs, a.totalSize, a.padding, i, size);
    var p := Ask(a, request, false, i, b, next);
    r := GiveBack(a, p, b, cs);
    AllHeadersDetermined(w, a.region[..], cs, a.totalSize, a.padding);
  }

  /** While the chunk before `b` is clean, the word where Mem_Free would look for the header of a
      pointer `pad` bytes too low is a pattern word, and so negative. */
  lemma PatternBelow(w: seq<int>, d: Chunk, b: Chunk)
    requires d.Fits() && 0 <= d.addr && d.End(64) == b.addr <= |w| && b.addr % 4 == 0
    requires if d.live then PadsIntact(w, d, 64) else FreeFilled(w, d) && d.size >= 64
    ensures 0 <= b.addr - 64 < |w| && w[b.addr - 64] < 0
  {
    var a := b.addr - 64;
    PadAligned(b.addr, -64);
    assert d.live ==> d.Payload(64) + d.size == a;
  }

  /** What an exact fit comes to in debug mode.  Every other block is untouched, but the new one has
      lost its header: Mem_Free refuses the pointer Mem_Alloc has just returned. */
  method DebugExactFit(a: Allocator, request: int) returns (p: Pointer, r: int)
    requires a.Ready() && a.debugEnable && a.Clean()
    requires !a.Unavailable(request) && a.Roomy(request) && !a.WellServed(request)
    modifies a.region, a`mError, a`chunks
    ensures p == At(old(a.chunks[a.Choice(request)]).addr + HEADER_SIZE)
    ensures r == -1 && a.mError == E_BAD_POINTER
    ensures Untouched(old(a.region[..]), a.region[..], old(a.chunks), a.padding)
    ensures var c := old(a.chunks[a.Choice(request)]);
            0 <= c.addr < a.region.Length && a.region[c.addr] == PADDING_PATTERN
  {
    ghost var cs, i, size, w := a.chunks, a.Choice(request), RoundUp(request), a.region[..];
    ghost var b, d := Block(cs, i, size, 64), cs[i - 1];
    ExactPlaced(cs, a.totalSize, i);
    ChunkPlaced(cs, a.totalSize, 64, i - 1);
    assert d in cs && d.live && d.End(64) == cs[i].addr == b.addr && PadsIntact(w, d, 64);
    p := a.MemAlloc(request);
    ghost var v := a.region[..];
    MisplacedUntouched(w, v, cs, a.chunks, b, 64);
    assert PadsIntact(v, d, 64) by { assert Same(w, v, d.addr, d.End(64)); }
    PatternBelow(v, d, b);
    assert a.NegativeHeader(p);
    r := a.MemFree(p, Chunk(b.addr, 0, false));
  }

  lemma MisplacedUntouched(w: seq<int>, v: seq<int>, cs: seq<Chunk>, ds: seq<Chunk>, b: Chunk, pad: nat)
    requires Misplaced(w, v, cs, ds, b, pad) && PadsClean(w, cs, pad)
    ensures Untouched(w, v, cs, pad)
  {
  }

  // ---------- Lemmas for the methods ----------

  ghost predicate CleanBefore(w: seq<int>, cs: seq<Chunk>, i: nat) {
    forall j :: 0 <= j < i && j < |cs| && !cs[j].live ==> FreeFilled(w, cs[j])
  }

  lemma CleanNext(w: seq<int>, cs: seq<Chunk>, i: nat)
    requires i < |cs| && CleanBefore(w, cs, i) && FreeFilled(w, cs[i])
    ensures CleanBefore(w, cs, NextFree(cs, i + 1))
  {
  }

  lemma AddressZero(cs: seq<Chunk>, total: int, pad: nat, i: nat)
    requires Tiles(cs, total, pad) && i < |cs|
    ensures cs[i].addr == 0 <==> i == 0
  {
    AllOrdered(cs, total, pad);
    assert cs[0].Fits();
  }

  lemma UntouchedAfterPads(u: seq<int>, v: seq<int>, w: seq<int>, cs: seq<Chunk>, total: int, pad: nat, i: nat,
                           size: int)
    requires IsHeap(cs, total, pad) && i < |cs| && size > 0 && size % 4 == 0 && pad % 4 == 0
    requires Passes(cs, i, size + 2 * pad) && GoodFit(cs[i], size + 2 * pad, pad)
    requires Untouched(u, v, cs, pad)
    requires forall c :: c in Carve(cs, i, size, pad) && c != Block(cs, i, size, pad) ==> Same(v, w, c.addr, c.End(pad))
    ensures Untouched(u, w, cs, pad)
  {
    CarveKeepsHeap(cs, total, pad, i, size);
    CarveMembers(cs, total, pad, i, size);
    forall c | c in cs && c.live
      ensures Same(u, w, c.addr, c.End(pad))
    {
      assert c in LiveBlocks(cs);
      SameTrans(u, v, w, c.addr, c.End(pad));
    }
  }

  lemma NotBefore(cs: seq<Chunk>, total: int, pad: nat, n: nat, k: nat)
    requires Tiles(cs, total, pad) && k < |cs| && n <= |cs|
    requires n < |cs| ==> cs[n].addr > cs[k].addr
    ensures n > k
  {
    if n < k { AddrsAscend(cs, total, pad, n, k); }
  }

  lemma NotAfter(cs: seq<Chunk>, total: int, pad: nat, n: nat, k: nat)
    requires Tiles(cs, total, pad) && k < |cs| && n < |cs| && cs[n].addr <= cs[k].addr && cs[k].live && !cs[n].live
    ensures n < k
  {
    AllOrdered(cs, total, pad);
    assert cs[k].Fits();
  }

  lemma SkipLive(cs: seq<Chunk>, q: nat, k: nat)
    requires q < k < |cs| && NextFree(cs, q + 1) > k
    ensures NextFree(cs, k + 1) == NextFree(cs, q + 1)
    ensures forall j :: q < j <= k ==> cs[j].live
  {
  }

  /** Merging, with the absorbed header overwritten in debug mode. */
  function MergedWords(w: seq<int>, a: int, b: int, debug: bool): (v: seq<int>)
    requires 0 <= a && a + 8 <= b && b + 8 <= |w|
    ensures |v| == |w|
  {
    var v := MergeWords(w, a, b);
    if debug then FillWords(v, b, b + 8, FREE_PATTERN) else v
  }

  lemma MergeUntouched(w: seq<int>, cs: seq<Chunk>, total: int, pad: nat, e: Chunk, f: Chunk, debug: bool)
    requires Separated(cs, total, pad) && |w| == total
    requires e in cs && f in cs && !e.live && !f.live && f.addr == e.End(pad)
    ensures 0 <= e.addr && e.addr + 8 <= f.addr && f.addr + 8 <= |w|
    ensures Untouched(w, MergedWords(w, e.addr, f.addr, debug), cs, pad)
  {
    MergeKeeps(w, cs, total, pad, e, f);
    HeaderFillUntouched(w, MergeWords(w, e.addr, f.addr), cs, total, pad, f);
  }

  /** Overwriting words inside the payload of free chunk `k` keeps the encoding. */
  lemma FillInside(w: seq<int>, cs: seq<Chunk>, total: int, pad: nat, k: nat, lo: int, hi: int)
    requires Tiles(cs, total, pad) && Encodes(w, cs) && |w| == total && k < |cs| && !cs[k].live
    requires cs[k].addr + HEADER_SIZE <= lo && hi <= cs[k].End(pad)
    ensures Encodes(FillWords(w, lo, hi, FREE_PATTERN), cs)
  {
    TilesSeparated(cs, total, pad);
    FillEncodes(w, cs, total, pad, cs[k], lo, hi, FREE_PATTERN);
  }

  lemma AbsorbedChunk(cs: seq<Chunk>, total: int, pad: nat, k: nat)
    requires Tiles(cs, total, pad) && k + 1 < |cs| && !cs[k].live && !cs[k + 1].live
    ensures var ds := Absorb(cs, k);
            k < |ds| && !ds[k].live && ds[k].addr + HEADER_SIZE <= cs[k + 1].addr &&
            cs[k + 1].addr + 8 <= ds[k].End(pad)
  {
    assert cs[k].Fits() && cs[k + 1].Fits() && cs[k + 1].addr == cs[k].End(pad);
  }

  lemma MergeEncodes(w: seq<int>, cs: seq<Chunk>, total: int, pad: nat, k: nat, debug: bool)
    requires Tiles(cs, total, pad) && Encodes(w, cs) && |w| == total && pad % 4 == 0
    requires k + 1 < |cs| && !cs[k].live && !cs[k + 1].live
    ensures 0 <= cs[k].addr && cs[k].addr + 8 <= cs[k + 1].addr && cs[k + 1].addr + 8 <= |w|
    ensures Tiles(Absorb(cs, k), total, pad)
    ensures Encodes(MergedWords(w, cs[k].addr, cs[k + 1].addr, debug), Absorb(cs, k))
  {
    var e, f, ds := cs[k], cs[k + 1], Absorb(cs, k);
    AbsorbKeeps(cs, total, pad, k);
    AbsorbEncodes(w, cs, total, pad, k);
    if debug {
      AbsorbedChunk(cs, total, pad, k);
      FillInside(MergeWords(w, e.addr, f.addr), ds, total, pad, k, f.addr, f.addr + 8);
    }
  }

  lemma MergeFrame(w: seq<int>, cs: seq<Chunk>, total: int, pad: nat, k: nat, debug: bool)
    requires Tiles(cs, total, pad) && |w| == total
    requires k + 1 < |cs| && !cs[k].live && !cs[k + 1].live
    ensures 0 <= cs[k].addr && cs[k].addr + 8 <= cs[k + 1].addr && cs[k + 1].addr + 8 <= |w|
    ensures Untouched(w, MergedWords(w, cs[k].addr, cs[k + 1].addr, debug), cs, pad)
    ensures debug && FreeClean(w, cs) ==> FreeClean(MergedWords(w, cs[k].addr, cs[k + 1].addr, debug), Absorb(cs, k))
  {
    var e, f := cs[k], cs[k + 1];
    TilesSeparated(cs, total, pad);
    MergeUntouched(w, cs, total, pad, e, f, debug);
    if debug && FreeClean(w, cs) {
      AbsorbMembers(cs, total, pad, k);
      MergeClean(w, cs, total, pad, e, f, Absorb(cs, k));
    }
  }

  lemma MergeStep(w: seq<int>, cs: seq<Chunk>, total: int, pad: nat, k: nat, debug: bool)
    returns (ds: seq<Chunk>, v: seq<int>)
    requires Tiles(cs, total, pad) && Encodes(w, cs) && |w| == total && pad % 4 == 0
    requires k + 1 < |cs| && !cs[k].live && !cs[k + 1].live
    ensures 0 <= cs[k].addr && cs[k].addr + 8 <= cs[k + 1].addr && cs[k + 1].addr + 8 <= |w| && cs[k + 1].addr % 4 == 0
    ensures ds == Absorb(cs, k) && v == MergedWords(w, cs[k].addr, cs[k + 1].addr, debug)
    ensures Tiles(ds, total, pad) && Encodes(v, ds) && Untouched(w, v, cs, pad)
    ensures debug && FreeClean(w, cs) ==> FreeClean(v, ds)
  {
    MergeEncodes(w, cs, total, pad, k, debug);
    MergeFrame(w, cs, total, pad, k, debug);
    ChunkPlaced(cs, total, pad, k + 1);
    ds, v := Absorb(cs, k), MergedWords(w, cs[k].addr, cs[k + 1].addr, debug);
  }

  /** Overwriting the header of a free chunk touches no live block. */
  lemma HeaderFillUntouched(w: seq<int>, v: seq<int>, cs: seq<Chunk>, total: int, pad: nat, f: Chunk)
    requires Separated(cs, total, pad) && f in cs && !f.live && Untouched(w, v, cs, pad)
    ensures Untouched(w, FillWords(v, f.addr, f.addr + 8, FREE_PATTERN), cs, pad)
  {
    assert f.Fits();
    forall c | c in cs && c.live
      ensures Same(w, FillWords(v, f.addr, f.addr + 8, FREE_PATTERN), c.addr, c.End(pad))
    {
      assert Apart(c, f, pad) && Same(w, v, c.addr, c.End(pad));
    }
  }

  /** Inserting, with the whole chunk overwritten in debug mode. */
  function InsertedWords(w: seq<int>, p: int, a: int, size: int, debug: bool): (v: seq<int>)
    requires 0 <= p < a && a + 8 <= |w|
    ensures |v| == |w|
  {
    var v := InsertWords(w, p, a, size);
    if debug then FillWords(v, a + 8, a + 8 + size, FREE_PATTERN) else v
  }

  lemma InsertUntouched(w: seq<int>, cs: seq<Chunk>, ds: seq<Chunk>, total: int, pad: nat, p: Chunk, b: Chunk,
                        f: Chunk, debug: bool)
    requires Separated(cs, total, pad) && |w| == total && Separated(ds, total, pad)
    requires p in cs && b in cs && !p.live && b.live && p.addr < b.addr && f == Chunk(b.addr, b.size + 2 * pad, false)
    requires Members(ds) == Members(cs) - {b} + {f}
    ensures 0 <= p.addr < b.addr && b.addr + 8 <= |w|
    ensures Untouched(w, InsertedWords(w, p.addr, b.addr, b.size + 2 * pad, debug), ds, pad)
    ensures debug && FreeClean(w, cs) ==> FreeClean(InsertedWords(w, p.addr, b.addr, b.size + 2 * pad, debug), ds)
  {
    forall c
      ensures c in ds <==> c == f || (c in cs && c != b)
    {
      assert c in ds <==> c in Members(ds);
    }
    InsertKeeps(w, cs, total, pad, p, b);
    FreedFill(w, InsertWords(w, p.addr, b.addr, f.size), cs, ds, total, pad, b, f);
  }

  lemma InsertedEncodes(w: seq<int>, cs: seq<Chunk>, total: int, pad: nat, q: nat, k: nat, debug: bool)
    requires Tiles(cs, total, pad) && Encodes(w, cs) && |w| == total && pad % 4 == 0
    requires q < k < |cs| && !cs[q].live && cs[k].live && forall j :: q < j < k ==> cs[j].live
    ensures 0 <= cs[q].addr < cs[k].addr && cs[k].addr + 8 <= |w|
    ensures Tiles(Mark(cs, k, pad), total, pad)
    ensures Encodes(InsertedWords(w, cs[q].addr, cs[k].addr, cs[k].size + 2 * pad, debug), Mark(cs, k, pad))
  {
    var p, b, ds := cs[q], cs[k], Mark(cs, k, pad);
    MarkKeeps(cs, total, pad, k);
    PrecedesAt(cs, total, pad, q, k);
    InsertEncodes(w, cs, total, pad, p, k);
    if debug {
      FillInside(InsertWords(w, p.addr, b.addr, ds[k].size), ds, total, pad, k, b.addr + 8, ds[k].End(pad));
    }
  }

  lemma MarkSeparated(cs: seq<Chunk>, total: int, pad: nat, k: nat)
    requires Tiles(cs, total, pad) && 0 < k < |cs| && cs[k].live && pad % 4 == 0
    ensures Separated(cs, total, pad) && Separated(Mark(cs, k, pad), total, pad)
  {
    MarkKeeps(cs, total, pad, k);
    TilesSeparated(cs, total, pad);
    TilesSeparated(Mark(cs, k, pad), total, pad);
  }

  lemma InsertedFrame(w: seq<int>, cs: seq<Chunk>, total: int, pad: nat, q: nat, k: nat, debug: bool)
    requires Tiles(cs, total, pad) && |w| == total && pad % 4 == 0
    requires q < k < |cs| && !cs[q].live && cs[k].live
    ensures 0 <= cs[q].addr < cs[k].addr && cs[k].addr + 8 <= |w|
    ensures Untouched(w, InsertedWords(w, cs[q].addr, cs[k].addr, cs[k].size + 2 * pad, debug), Mark(cs, k, pad), pad)
    ensures debug && FreeClean(w, cs) ==>
              FreeClean(InsertedWords(w, cs[q].addr, cs[k].addr, cs[k].size + 2 * pad, debug), Mark(cs, k, pad))
  {
    var p, b, ds := cs[q], cs[k], Mark(cs, k, pad);
    var f := Chunk(b.addr, b.size + 2 * pad, false);
    assert p.addr < b.addr by { AddrsAscend(cs, total, pad, q, k); }
    assert p in cs && b in cs;
    MarkSet(cs, total, pad, k);
    MarkSeparated(cs, total, pad, k);
    InsertUntouched(w, cs, ds, total, pad, p, b, f, debug);
  }

  lemma InsertStep(w: seq<int>, cs: seq<Chunk>, total: int, pad: nat, q: nat, k: nat, debug: bool)
    returns (v: seq<int>, ds: seq<Chunk>)
    requires Tiles(cs, total, pad) && Encodes(w, cs) && |w| == total && pad % 4 == 0
    requires q < k < |cs| && !cs[q].live && cs[k].live && forall j :: q < j < k ==> cs[j].live
    ensures 0 <= cs[q].addr < cs[k].addr && cs[k].addr + 8 <= |w|
    ensures v == InsertedWords(w, cs[q].addr, cs[k].addr, cs[k].size + 2 * pad, debug) && ds == Mark(cs, k, pad)
    ensures Tiles(ds, total, pad) && Encodes(v, ds) && Untouched(w, v, ds, pad)
    ensures debug && FreeClean(w, cs) ==> FreeClean(v, ds)
  {
    InsertedEncodes(w, cs, total, pad, q, k, debug);
    InsertedFrame(w, cs, total, pad, q, k, debug);
    v, ds := InsertedWords(w, cs[q].addr, cs[k].addr, cs[k].size + 2 * pad, debug), Mark(cs, k, pad);
  }

  lemma FreedFill(w: seq<int>, v: seq<int>, cs: seq<Chunk>, ds: seq<Chunk>, total: int, pad: nat, b: Chunk, f: Chunk)
    requires Separated(ds, total, pad) && f in ds && !f.live
    requires forall c :: c in ds ==> c == f || (c in cs && c != b)
    requires forall c :: c in cs && c.live && c != b ==> Same(w, v, c.addr, c.End(pad))
    requires forall c :: c in cs && !c.live ==> Same(w, v, c.addr + HEADER_SIZE, c.End(pad))
    ensures var u := FillWords(v, f.addr + 8, f.End(pad), FREE_PATTERN);
            Untouched(w, u, ds, pad) && (FreeClean(w, cs) ==> FreeClean(u, ds))
  {
    var u := FillWords(v, f.addr + 8, f.End(pad), FREE_PATTERN);
    forall c | c in ds && c != f
      ensures if c.live then Same(w, u, c.addr, c.End(pad)) else Same(w, u, c.addr + HEADER_SIZE, c.End(pad))
    {
      assert c.Fits();
      FillUntouched(v, ds, total, pad, f, f.addr + 8, f.End(pad), FREE_PATTERN, c);
    }
    if FreeClean(w, cs) {
      forall c | c in ds && !c.live
        ensures FreeFilled(u, c)
      {
        if c != f { assert FreeFilled(w, c); }
      }
    }
  }

  /** The chunk after the free chunk `q` is the free chunk `n`, the next one on the list,
      exactly when `q` ends where `n` begins. */
  lemma NextTouches(cs: seq<Chunk>, total: int, pad: nat, q: nat, n: nat)
    requires Tiles(cs, total, pad) && q < n < |cs| && !cs[q].live && !cs[n].live
    requires forall j :: q < j < n ==> cs[j].live
    ensures cs[q].End(pad) == cs[n].addr <==> n == q + 1
    ensures n > q + 1 ==> Absorb(cs, q) == cs && Absorb(cs, n - 1) == cs
  {
    assert cs[q + 1].addr == cs[q].End(pad);
    if n > q + 1 { AddrsAscend(cs, total, pad, q + 1, n); }
  }

  lemma MarkShape(cs: seq<Chunk>, k: nat, pad: nat, q: nat)
    requires q < k < |cs| && cs[k].live
    ensures var m := Mark(cs, k, pad);
            |m| == |cs| && !m[k].live && m[k].addr == cs[k].addr && m[k].size == cs[k].size + 2 * pad &&
            NextFree(m, k + 1) == NextFree(cs, k + 1) &&
            (forall j :: 0 <= j < |cs| && j != k ==> m[j] == cs[j])
  {
    var m := Mark(cs, k, pad);
    var i, j := NextFree(cs, k + 1), NextFree(m, k + 1);
    assert i < |cs| ==> m[i] == cs[i];
    assert j < |cs| ==> m[j] == cs[j];
  }

  lemma ReleaseShape(cs: seq<Chunk>, k: nat, pad: nat, q: nat)
    requires q < k < |cs| && cs[k].live && !cs[q].live && forall j :: q < j < k ==> cs[j].live
    ensures var m := Mark(cs, k, pad);
            k < |m| && !m[k].live && m[k].addr == cs[k].addr && m[k].size == cs[k].size + 2 * pad &&
            (if NextFree(m, k + 1) == |m| then NextFree(cs, k + 1) == |cs|
             else NextFree(cs, k + 1) < |cs| && m[NextFree(m, k + 1)].addr == cs[NextFree(cs, k + 1)].addr)
    ensures var a := Absorb(Mark(cs, k, pad), k);
            k < |a| && !a[k].live && a[k].addr == cs[k].addr && a[q] == cs[q] && (forall j :: q < j < k ==> a[j].live)
  {
    MarkShape(cs, k, pad, q);
    assert forall j :: 0 <= j < k ==> Absorb(Mark(cs, k, pad), k)[j] == cs[j];
  }

  lemma UntouchedTrans(u: seq<int>, v: seq<int>, w: seq<int>, cs: seq<Chunk>, ds: seq<Chunk>, pad: nat)
    requires Untouched(u, v, cs, pad) && Untouched(v, w, ds, pad) && LiveBlocks(ds) <= LiveBlocks(cs)
    ensures Untouched(u, w, ds, pad)
  {
    forall c | c in ds && c.live
      ensures Same(u, w, c.addr, c.End(pad))
    {
      assert c in LiveBlocks(ds) && c in cs;
      SameTrans(u, v, w, c.addr, c.End(pad));
    }
  }

  lemma AbsorbUntouched(u: seq<int>, v: seq<int>, w: seq<int>, cs: seq<Chunk>, total: int, pad: nat, k: nat)
    requires Tiles(cs, total, pad) && 0 < k < |cs| && k < |Absorb(cs, k)|
    requires Untouched(u, v, cs, pad) && Untouched(v, w, Absorb(cs, k), pad)
    ensures Untouched(u, w, Absorb(Absorb(cs, k), k - 1), pad)
  {
    AbsorbKeeps(cs, total, pad, k);
    AbsorbKeeps(Absorb(cs, k), total, pad, k - 1);
    UntouchedTrans(u, v, w, cs, Absorb(cs, k), pad);
    UntouchedTrans(u, w, w, Absorb(cs, k), Absorb(Absorb(cs, k), k - 1), pad);
  }

  lemma ReleaseUntouched(u: seq<int>, v: seq<int>, w: seq<int>, cs: seq<Chunk>, total: int, pad: nat, k: nat)
    requires IsHeap(cs, total, pad) && 0 < k < |cs| && cs[k].live && pad % 4 == 0
    requires Untouched(u, v, Mark(cs, k, pad), pad) && Untouched(v, w, Release(cs, k, pad), pad)
    ensures Untouched(u, w, Release(cs, k, pad), pad)
  {
    MarkKeeps(cs, total, pad, k);
    ReleaseKeepsHeap(cs, total, pad, k);
    UntouchedTrans(u, v, w, Mark(cs, k, pad), Release(cs, k, pad), pad);
  }

  lemma StoreKeeps(w: seq<int>, cs: seq<Chunk>, total: int, pad: nat, b: Chunk, a: int, value: int)
    requires Tiles(cs, total, pad) && Encodes(w, cs) && |w| == total && b in LiveBlocks(cs)
    requires b.Payload(pad) <= a && a + 4 <= b.Payload(pad) + b.size
    ensures 0 <= a < |w| && Encodes(w[a := value], cs)
    ensures FreeClean(w, cs) ==> FreeClean(w[a := value], cs)
    ensures PadsClean(w, cs, pad) ==> PadsClean(w[a := value], cs, pad)
  {
    TilesSeparated(cs, total, pad);
    var v, ks := w[a := value], FreeAddrs(cs);
    assert b.Fits();
    forall c | c in cs
      ensures EncodesChunk(v, ks, c)
      ensures !c.live && FreeFilled(w, c) ==> FreeFilled(v, c)
      ensures c.live && PadsIntact(w, c, pad) ==> PadsIntact(v, c, pad)
    {
      assert EncodesChunk(w, ks, c) && c.Fits() && (c == b || Apart(c, b, pad));
    }
  }

  lemma CarveClean(w: seq<int>, v: seq<int>, cs: seq<Chunk>, total: int, pad: nat, i: nat, size: int)
    requires Tiles(cs, total, pad) && i < |cs| && PadsClean(w, cs, pad) && Untouched(w, v, cs, pad)
    requires PadsIntact(v, Block(cs, i, size, pad), pad)
    ensures PadsClean(v, Carve(cs, i, size, pad), pad)
  {
    TilesSeparated(cs, total, pad);
    UntouchedPads(w, v, cs, total, pad);
    CarveMembers(cs, total, pad, i, size);
    var mid := CarvedTail(cs[i], size, pad);
    assert forall c :: c in mid && c.live ==> c == Block(cs, i, size, pad);
  }

  lemma ReleaseClean(w: seq<int>, v: seq<int>, cs: seq<Chunk>, ds: seq<Chunk>, total: int, pad: nat)
    requires PadsClean(w, cs, pad) && Untouched(w, v, ds, pad) && Tiles(ds, total, pad)
    requires LiveBlocks(ds) <= LiveBlocks(cs)
    ensures PadsClean(v, ds, pad)
  {
    TilesSeparated(ds, total, pad);
    forall c | c in ds && c.live
      ensures PadsIntact(v, c, pad)
    {
      assert c in LiveBlocks(ds) && c in cs && PadsIntact(w, c, pad) && c.Fits();
    }
  }

  lemma ReturnStep(cs: seq<Chunk>, total: int, pad: nat, b: Chunk) returns (next: seq<Chunk>)
    requires IsHeap(cs, total, pad) && b in LiveBlocks(cs) && pad % 4 == 0
    ensures b in cs && cs[0] != b && next == Step(cs, Return(b), pad) && next == ReleaseBlock(cs, b, pad)
    ensures IsHeap(next, total, pad) && LiveBlocks(next) == LiveBlocks(cs) - {b}
  {
    ReleaseBlockKeepsHeap(cs, total, pad, b);
    next := ReleaseBlock(cs, b, pad);
  }

  lemma ChunkPlaced(cs: seq<Chunk>, total: int, pad: nat, i: nat)
    requires Tiles(cs, total, pad) && i < |cs| && pad % 4 == 0
    ensures cs[i].Fits() && 0 <= cs[i].addr && cs[i].End(pad) <= total && cs[i].addr % 4 == 0
  {
    AllOrdered(cs, total, pad);
    AlignedUpTo(cs, total, pad, i);
  }

  lemma PaddingsPlaced(cs: seq<Chunk>, total: int, pad: nat, i: nat)
    requires Tiles(cs, total, pad) && i < |cs| && cs[i].live && pad % 4 == 0
    ensures var p := cs[i].Payload(pad); var q := p + cs[i].size;
            0 <= p - pad && q + pad <= total && (p - pad) % 4 == 0 && q % 4 == 0
    ensures cs[i].size > 0
  {
    ChunkPlaced(cs, total, pad, i);
    PadAligned(cs[i].addr, 8);
    PadAligned(cs[i].addr + 8, pad);
    PadAligned(cs[i].addr + 8 + pad, cs[i].size);
  }

  /** A good fit returns the payload of the block. */
  lemma FitReturned(cs: seq<Chunk>, i: nat, size: int, pad: nat)
    requires i < |cs|
    ensures GoodFit(cs[i], size + 2 * pad, pad) ==>
            ReturnedFrom(cs[i], size, pad) == Block(cs, i, size, pad).Payload(pad)
    ensures GoodFit(cs[i], size + 2 * pad, pad) ==> Room(cs[i], size + 2 * pad)
    ensures pad > 0 && GoodFit(cs[i], size + 2 * pad, pad) ==> Remainder(cs[i], size + 2 * pad) >= 0
    ensures pad > 0 && !GoodFit(cs[i], size + 2 * pad, pad) ==> Remainder(cs[i], size + 2 * pad) < 0
  {
  }

  lemma ExactPlaced(cs: seq<Chunk>, total: int, i: nat)
    requires IsHeap(cs, total, 64) && 0 < i < |cs| && !cs[i].live
    ensures cs[i].addr >= 148 && cs[i].addr % 4 == 0 && cs[i].End(64) <= total
  {
    ChunkPlaced(cs, total, 64, i);
    ChunkPlaced(cs, total, 64, i - 1);
    AddressZero(cs, total, 64, i - 1);
    assert cs[i - 1].live && cs[i].addr == cs[i - 1].End(64);
    assert cs[0].End(64) <= cs[i - 1].addr by { Ordered(cs, total, 64, 0, i - 1); }
    assert cs[0].Fits();
  }

  lemma SplitPlaced(cs: seq<Chunk>, total: int, pad: nat, i: nat, size: int)
    requires IsHeap(cs, total, pad) && i < |cs| && size > 0 && size % 4 == 0 && pad % 4 == 0
    requires Passes(cs, i, size + 2 * pad) && Remainder(cs[i], size + 2 * pad) >= 0
    ensures var r := Block(cs, i, size, pad).Payload(pad); r % 4 == 0 && 0 <= r - pad && r + size + pad <= total
    ensures ReturnedFrom(cs[i], size, pad) == Block(cs, i, size, pad).Payload(pad)
  {
    var ds, b := Carve(cs, i, size, pad), Block(cs, i, size, pad);
    CarveKeepsHeap(cs, total, pad, i, size);
    assert ds[i + 1] == b;
    PaddingsPlaced(ds, total, pad, i + 1);
    FitReturned(cs, i, size, pad);
    PadAligned(b.Payload(pad) - pad, pad);
  }

  lemma PadAligned(at: int, pad: int)
    requires at % 4 == 0 && pad % 4 == 0
    ensures (at + pad) % 4 == 0
  {
    assert at + pad == 4 * (at / 4 + pad / 4);
  }

  /** Where the paddings go lies inside the region. */
  lemma ReturnPlaced(cs: seq<Chunk>, total: int, pad: nat, i: nat, size: int)
    requires IsHeap(cs, total, pad) && i < |cs| && size > 0 && size % 4 == 0 && (pad == 0 || pad == 64)
    requires Passes(cs, i, size + 2 * pad) && Room(cs[i], size + 2 * pad)
    ensures var r := ReturnedFrom(cs[i], size, pad); r % 4 == 0 && 0 <= r - pad && r + size + pad <= total
  {
    if Remainder(cs[i], size + 2 * pad) >= 0 {
      SplitPlaced(cs, total, pad, i, size);
    } else if pad == 64 {
      ExactPlaced(cs, total, i);
    } else {
      ChunkPlaced(cs, total, pad, i);
    }
  }

  /** The paddings of a block carved off a tail. */
  lemma PadStep(w: seq<int>, u: seq<int>, cs: seq<Chunk>, ds: seq<Chunk>, total: int, pad: nat, i: nat, size: int)
    requires IsHeap(cs, total, pad) && i < |cs| && size > 0 && size % 4 == 0 && pad % 4 == 0
    requires Passes(cs, i, size + 2 * pad) && Remainder(cs[i], size + 2 * pad) >= 0
    requires ds == Carve(cs, i, size, pad) && Tiles(ds, total, pad) && Encodes(u, ds) && |u| == total
    requires Untouched(w, u, cs, pad) && (FreeClean(w, cs) ==> FreeClean(u, ds))
    ensures var v, b := PaddedAt(u, ReturnedFrom(cs[i], size, pad), size, pad), Block(cs, i, size, pad);
            Encodes(v, ds) && Padded(w, v, cs, ds, b, pad) && EncodesFree(v, ds)
  {
    var b := Block(cs, i, size, pad);
    assert ds[i + 1] == b && ReturnedFrom(cs[i], size, pad) == b.Payload(pad);
    TilesSeparated(ds, total, pad);
    PadKeeps(u, ds, total, pad, b);
    var v := PadWords(u, b, pad);
    UntouchedAfterPads(w, u, v, cs, total, pad, i, size);
    if PadsClean(w, cs, pad) { CarveClean(w, v, cs, total, pad, i, size); }
  }

  lemma LowPadsApart(u: seq<int>, ds: seq<Chunk>, total: int, pad: nat, d: Chunk, b: Chunk)
    requires Tiles(ds, total, pad) && pad >= 8 && d in ds && b in ds && d.live && b.live && d.End(pad) == b.addr
    ensures forall c :: c in ds && c != b && c != d ==>
            Same(u, PaddedAt(u, b.addr + 8, b.size, pad), c.addr, c.End(pad))
    ensures forall c :: c in ds ==> c.Fits()
  {
    TilesSeparated(ds, total, pad);
    forall c | c in ds && c != b && c != d
      ensures Same(u, PaddedAt(u, b.addr + 8, b.size, pad), c.addr, c.End(pad))
    {
      LowPadsElsewhere(u, ds, total, pad, d, b, c);
    }
  }

  lemma LowPadsLive(w: seq<int>, u: seq<int>, v: seq<int>, cs: seq<Chunk>, ds: seq<Chunk>, pad: nat, d: Chunk, b: Chunk)
    requires Untouched(w, u, cs, pad) && v == PaddedAt(u, b.addr + 8, b.size, pad)
    requires forall c :: c in cs && c.live ==> c in ds && c != b
    requires forall c :: c in ds && c != b && c != d ==> Same(u, v, c.addr, c.End(pad))
    requires pad >= 8 && d in cs && d.live && d.Fits() && b.size > 0 && d.End(pad) == b.addr
    ensures forall c :: c in cs && c.live && (c.End(pad) == b.addr ==> PadsIntact(w, c, pad)) ==>
            Same(w, v, c.addr, c.End(pad))
  {
    forall c | c in cs && c.live && (c.End(pad) == b.addr ==> PadsIntact(w, c, pad))
      ensures Same(w, v, c.addr, c.End(pad))
    {
      assert Same(w, u, c.addr, c.End(pad));
      if c == d { LowPadsBefore(u, pad, d, b); }
      SameTrans(w, u, v, c.addr, c.End(pad));
    }
  }

  lemma LowPads(w: seq<int>, u: seq<int>, v: seq<int>, cs: seq<Chunk>, ds: seq<Chunk>, pad: nat, d: Chunk, b: Chunk)
    requires Untouched(w, u, cs, pad) && v == PaddedAt(u, b.addr + 8, b.size, pad) && |w| == |u|
    requires Encodes(u, ds) && (FreeClean(w, cs) ==> FreeClean(u, ds)) && forall c :: c in ds ==> c.Fits()
    requires LiveBlocks(cs) <= Members(ds) - {b}
    requires forall c :: c in ds && c != b && c != d ==> Same(u, v, c.addr, c.End(pad))
    requires pad >= 8 && d in cs && d.live && d.Fits() && b.live && b.size > 0 && d.End(pad) == b.addr
    requires 0 <= b.addr < |u| && b.addr % 4 == 0
    ensures Misplaced(w, v, cs, ds, b, pad)
  {
    forall c | c in cs && c.live
      ensures c in ds && c != b
    {
      assert c in LiveBlocks(cs);
    }
    LowPadsFree(u, v, ds, pad, b, d);
    LowPadsLive(w, u, v, cs, ds, pad, d, b);
    assert v[b.addr] == PADDING_PATTERN;
  }

  lemma TakenMembers(cs: seq<Chunk>, total: int, pad: nat, i: nat, size: int)
    requires IsHeap(cs, total, pad) && 0 < i < |cs| && !cs[i].live && size > 0 && cs[i].size == size + 2 * pad
    ensures var ds, b, d := Carve(cs, i, size, pad), Block(cs, i, size, pad), cs[i - 1];
            b in ds && d in ds && d in cs && d.live && d.Fits() && d.End(pad) == b.addr &&
            b == Chunk(cs[i].addr, size, true) &&
            LiveBlocks(cs) <= Members(ds) - {b}
  {
    var ds, b := Carve(cs, i, size, pad), Block(cs, i, size, pad);
    assert ds[i] == b && ds[i - 1] == cs[i - 1];
    CarveMembers(cs, total, pad, i, size);
    NotLive(cs, total, pad, i, b);
    forall c | c in LiveBlocks(cs)
      ensures c in ds && c != b
    {
      assert c in cs && c.live;
    }
  }

  lemma LowPadsInHeap(u: seq<int>, cs: seq<Chunk>, ds: seq<Chunk>, total: int, pad: nat, i: nat, size: int)
    requires IsHeap(cs, total, pad) && 0 < i < |cs| && !cs[i].live && size > 0 && pad == 64
    requires cs[i].size == size + 2 * pad && ds == Carve(cs, i, size, pad) && Tiles(ds, total, pad)
    ensures var b, d := Block(cs, i, size, pad), cs[i - 1];
            d in cs && d.live && d.Fits() && d.End(pad) == b.addr && b == Chunk(cs[i].addr, size, true) &&
            0 <= b.addr < total && b.addr % 4 == 0 && LiveBlocks(cs) <= Members(ds) - {b} &&
            (forall c :: c in ds ==> c.Fits()) &&
            (forall c :: c in ds && c != b && c != d ==>
                Same(u, PaddedAt(u, b.addr + 8, b.size, pad), c.addr, c.End(pad)))
  {
    TakenMembers(cs, total, pad, i, size);
    LowPadsApart(u, ds, total, pad, cs[i - 1], Block(cs, i, size, pad));
    ChunkPlaced(cs, total, pad, i);
  }

  /** Of the words outside the block only its own header changes: the rest of what is written there
      is there already. */
  lemma LowPadStep(w: seq<int>, u: seq<int>, cs: seq<Chunk>, ds: seq<Chunk>, total: int, pad: nat, i: nat, size: int)
    requires IsHeap(cs, total, pad) && 0 < i < |cs| && !cs[i].live && size > 0 && pad == 64
    requires cs[i].size == size + 2 * pad && |w| == |u| == total
    requires ds == Carve(cs, i, size, pad) && Tiles(ds, total, pad) && Encodes(u, ds)
    requires Untouched(w, u, cs, pad) && (FreeClean(w, cs) ==> FreeClean(u, ds))
    ensures var v, b := PaddedAt(u, ReturnedFrom(cs[i], size, pad), size, pad), Block(cs, i, size, pad);
            Misplaced(w, v, cs, ds, b, pad)
  {
    var b, d := Block(cs, i, size, pad), cs[i - 1];
    var v := PaddedAt(u, ReturnedFrom(cs[i], size, pad), size, pad);
    assert ReturnedFrom(cs[i], size, pad) == b.addr + 8 && b.size == size;
    LowPadsInHeap(u, cs, ds, total, pad, i, size);
    LowPads(w, u, v, cs, ds, pad, d, b);
  }

  lemma LowPadsFree(u: seq<int>, v: seq<int>, ds: seq<Chunk>, pad: nat, b: Chunk, d: Chunk)
    requires Encodes(u, ds) && |u| == |v| && b.live && d.live
    requires forall c :: c in ds ==> c.Fits()
    requires forall c :: c in ds && c != b && c != d ==> Same(u, v, c.addr, c.End(pad))
    ensures EncodesFree(v, ds) && (FreeClean(u, ds) ==> FreeClean(v, ds))
  {
    forall i | 0 <= i < |ds| && !ds[i].live
      ensures EncodesChunk(v, FreeAddrs(ds), ds[i])
    {
      assert EncodesChunk(u, FreeAddrs(ds), ds[i]) && ds[i].Fits();
    }
    if FreeClean(u, ds) {
      forall c | c in ds && !c.live
        ensures FreeFilled(v, c)
      {
        assert FreeFilled(u, c) && c.Fits();
      }
    }
  }

  lemma TakeStep(w: seq<int>, cs: seq<Chunk>, total: int, pad: nat, q: nat, i: nat, size: int)
    requires IsHeap(cs, total, pad) && Encodes(w, cs) && |w| == total && pad % 4 == 0
    requires q < i < |cs| && !cs[q].live && !cs[i].live && forall j :: q < j < i ==> cs[j].live
    requires size > 0 && size % 4 == 0 && cs[i].size == size + 2 * pad
    ensures 0 <= cs[q].addr < cs[i].addr < |w|
    ensures var v, ds := TakeWords(w, cs[q].addr, cs[i].addr, size), Carve(cs, i, size, pad);
            IsHeap(ds, total, pad) && Encodes(v, ds) && Untouched(w, v, cs, pad) &&
            (FreeClean(w, cs) ==> FreeClean(v, ds))
  {
    PrecedesAt(cs, total, pad, q, i);
    TakeEncodes(w, cs, total, pad, cs[q], i, size);
    TakeFrame(w, cs, total, pad, q, i, size);
    CarveKeepsHeap(cs, total, pad, i, size);
  }

  lemma TakeFrame(w: seq<int>, cs: seq<Chunk>, total: int, pad: nat, q: nat, i: nat, size: int)
    requires Tiles(cs, total, pad) && |w| == total
    requires q < i < |cs| && !cs[q].live && !cs[i].live && cs[i].size == size + 2 * pad
    ensures 0 <= cs[q].addr < cs[i].addr < |w|
    ensures Untouched(w, TakeWords(w, cs[q].addr, cs[i].addr, size), cs, pad)
    ensures FreeClean(w, cs) ==> FreeClean(TakeWords(w, cs[q].addr, cs[i].addr, size), Carve(cs, i, size, pad))
  {
    AddrsAscend(cs, total, pad, q, i);
    TilesSeparated(cs, total, pad);
    TakeKeeps(w, cs, total, pad, cs[q], cs[i], size);
    if FreeClean(w, cs) {
      CarveMembers(cs, total, pad, i, size);
      TakeClean(w, cs, total, pad, cs[q], cs[i], size, Carve(cs, i, size, pad));
    }
  }

  lemma SplitStep(w: seq<int>, cs: seq<Chunk>, total: int, pad: nat, i: nat, size: int)
    requires IsHeap(cs, total, pad) && Encodes(w, cs) && |w| == total && i < |cs| && !cs[i].live
    requires Remainder(cs[i], size + 2 * pad) >= 0 && size > 0 && size % 4 == 0 && pad % 4 == 0
    ensures 0 <= cs[i].addr && cs[i].addr + 8 + cs[i].size <= |w|
    ensures var v, ds := SplitWords(w, cs[i], size, pad), Carve(cs, i, size, pad);
            IsHeap(ds, total, pad) && Encodes(v, ds) && Untouched(w, v, cs, pad) &&
            (FreeClean(w, cs) ==> FreeClean(v, ds))
  {
    SplitEncodes(w, cs, total, pad, i, size);
    SplitKeeps(w, cs, total, pad, i, size);
    CarveKeepsHeap(cs, total, pad, i, size);
  }

  lemma RestIsWhole(c: Chunk, size: int, pad: nat)
    requires c.Fits() && size % 4 == 0 && (pad == 0 || pad == 64) && c.size > size + 2 * pad
    ensures Remainder(c, size + 2 * pad) == -4 || Remainder(c, size + 2 * pad) >= 0
  {
    WholeRemainder(c.size, size, pad);
  }
}
