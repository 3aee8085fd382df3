/** What a user of the expanded heap can rely on, over every run of it. */
module ExpHeapProperties {
  import opened Machine
  import opened Alignment
  import opened GuestMemory
  import opened ExpBlocks
  import opened ExpHeapModel

  lemma LivePayload(h: Heap, p: nat) returns (i: nat)
    requires Inv(h) && h.live && p in h.requests
    ensures i < |Used(h.blocks)| && Used(h.blocks)[i].payload == p && Used(h.blocks)[i].payloadSize == h.requests[p].size
    ensures BlockOk(Used(h.blocks)[i]) && Used(h.blocks)[i].used
    ensures h.dataStart <= Used(h.blocks)[i].start && Used(h.blocks)[i].End() <= h.dataEnd
    ensures Aligned(p, h.requests[p].alignment)
  {
    var u :| u in Used(h.blocks) && u.payload == p;
    i :| 0 <= i < |Used(h.blocks)| && Used(h.blocks)[i] == u;
    UsedInside(h.blocks, h.dataStart, h.dataEnd, i);
  }

  lemma LivePayloadsApart(h: Heap, p: nat, q: nat)
    requires Inv(h) && h.live && p in h.requests && q in h.requests && p < q
    ensures p + h.requests[p].size + BLOCK_HEADER <= q
  {
    var i := LivePayload(h, p);
    var j := LivePayload(h, q);
    UsedAreApart(h.blocks, h.dataStart, h.dataEnd, if i < j then i else j, if i < j then j else i);
  }

  /** In every state of every run the blocks are sorted, disjoint and non-empty, tile the whole
      span and never leave two free neighbours; every live payload has the alignment it was
      requested with, its header before it, and no byte in common with any other. */
  lemma RunIsSound(hs: seq<Heap>, ops: seq<Op>, k: nat)
    requires IsRun(hs, ops) && Initial(hs[0]) && k < |hs| && hs[k].live
    ensures var h := hs[k];
            && Tiles(h.blocks, h.dataStart, h.dataEnd) && h.base + HEAP_HEADER <= h.dataStart && h.dataEnd <= h.base + |h.mem|
            && (forall i, j :: 0 <= i < j < |h.blocks| ==> h.blocks[i].End() <= h.blocks[j].start)
            && (forall i :: 0 <= i < |h.blocks| ==> BlockOk(h.blocks[i]))
            && NoFreeNeighbours(h.blocks)
    ensures Matches(Used(hs[k].blocks), hs[k].requests)
    ensures var h := hs[k];
            && (forall p :: p in h.requests ==>
                  && Aligned(p, h.requests[p].alignment)
                  && h.dataStart + BLOCK_HEADER <= p && p + h.requests[p].size <= h.dataEnd)
            && (forall p, q :: p in h.requests && q in h.requests && p < q ==>
                  p + h.requests[p].size + BLOCK_HEADER <= q)
  {
    RunKeepsInv(hs, ops, k);
    var h := hs[k];
    forall i, j | 0 <= i < j < |h.blocks| ensures h.blocks[i].End() <= h.blocks[j].start {
      TilesOrdered(h.blocks, i, j, h.dataStart, h.dataEnd);
    }
    forall p | p in h.requests
      ensures Aligned(p, h.requests[p].alignment)
      ensures h.dataStart + BLOCK_HEADER <= p && p + h.requests[p].size <= h.dataEnd
    {
      var i := LivePayload(h, p);
    }
    forall p, q | p in h.requests && q in h.requests && p < q
      ensures p + h.requests[p].size + BLOCK_HEADER <= q
    {
      LivePayloadsApart(h, p, q);
    }
  }

  lemma ChoiceExists(rooms: seq<nat>, n: nat, firstFree: bool)
    requires n >= 1
    ensures (forall i :: 0 <= i < |rooms| ==> rooms[i] < n) <==> MaxRoom(rooms) < n
    ensures (exists i :: IsChoice(rooms, n, firstFree, i)) ==> MaxRoom(rooms) >= n
  {
  }

  // ---- creating, setting the mode, destroying ----

  /** A heap is created over everything from the first multiple of 4 behind its 0x54-byte header to
      the end of its region, as one free block, with the flags it was given and in first-free mode. */
  lemma CreatedHeap(h: Heap, size: nat, flags: nat)
    requires RegionOk(h) && OpOk(h, OpCreate(size, flags))
    ensures var (g, r) := Create(h, size, flags);
            if h.base == 0 || size <= 0x54 + 0x14 then (g, r) == (h, 0)
            else
              && r == h.base && g.live && g.flags == flags && g.mode == 0
              && h.base + 0x54 <= g.dataStart < h.base + 0x54 + 4 && g.dataStart % 4 == 0 && g.dataEnd == h.base + size
              && |g.blocks| == 1 && !g.blocks[0].used && g.blocks[0].start == g.dataStart && g.blocks[0].End() == g.dataEnd
              && g.requests == map[] && g.mem == h.mem && g.base == h.base
  {
    if h.base != 0 && size > HEAP_HEADER + BLOCK_HEADER { var ds := FirstAddress(h.base + HEAP_HEADER); }
  }

  /** A heap that is not live refuses everything and answers 0; destroying a live one makes it so,
      and leaves the guest's memory alone. */
  lemma DeadHeapRefuses(h: Heap, size: nat, alignment: int, ptr: nat, mode: int)
    requires size < TWO_32 && AlignmentOk(alignment)
    ensures var d := Destroy(h).0;
            && d.base == h.base && d.mem == h.mem && Destroy(h).1 == (if h.Usable() then h.base else 0)
            && (!h.Usable() ==> d == h)
            && Alloc(d, size, alignment) == (d, 0) && Free(d, ptr) == d && SetMode(d, mode) == (d, 0) && Destroy(d) == (d, 0)
            && TotalFreeSize(d) == 0 && AllocatableSize(d, alignment) == 0
  {
  }

  /** Freeing null changes nothing. */
  lemma NullIsIgnored(h: Heap)
    ensures Free(h, 0) == h
  {
  }

  /** The allocatable-size query is exact: for one alignment, in both directions and both modes,
      a request succeeds if and only if it is not larger than the answer. */
  lemma AllocSucceedsExactly(h: Heap, size: nat, alignment: int, queried: int)
    requires Inv(h) && size < TWO_32 && AlignmentOk(alignment) && AlignmentOk(queried)
    requires NormaliseAlignment(alignment) == NormaliseAlignment(queried)
    ensures Alloc(h, size, alignment).1 != 0 <==> (if size == 0 then 1 else size) <= AllocatableSize(h, queried)
  {
    if h.Usable() {
      AllocIsSound(h, size, alignment);
      ChoiceExists(Rooms(h.blocks, NormaliseAlignment(alignment)), RealSize(size), h.mode == FIRST_FREE);
    }
  }

  /** The payload at `r` lies in the block that the mode promises, at one end of what it can hold. */
  ghost predicate TakesAsMode(bs: seq<Block>, firstFree: bool, n: nat, a: nat, high: bool, r: nat) {
    exists i: nat :: i < |bs| && IsChoice(Rooms(bs, a), n, firstFree, i) && TakesOneEnd(bs[i], a, n, high, r)
  }

  /** Where an allocation goes: into the block its mode promises, and within it to the lowest
      aligned address for a positive alignment, to the highest for a negative one. */
  lemma AllocTakesOneEnd(h: Heap, size: nat, alignment: int)
    requires Inv(h) && size < TWO_32 && AlignmentOk(alignment) && Alloc(h, size, alignment).1 != 0
    ensures TakesAsMode(h.blocks, h.mode == 0, RealSize(size), NormaliseAlignment(alignment), alignment < 0, Alloc(h, size, alignment).1)
  {
    var n, a := RealSize(size), NormaliseAlignment(alignment);
    NormaliseAlignmentMeaning(alignment);
    var i := Choose(Rooms(h.blocks, a), n, h.mode == FIRST_FREE).value;
    TilesSplit(h.blocks, i, h.dataStart, h.dataEnd);
    PlaceTakesOneEnd(h.blocks[i], a, n, alignment < 0, h.dataStart, h.dataEnd);
  }

  /** Setting the mode answers with the previous one, stores the low byte of the new one, and keeps all else. */
  lemma ModeIsStored(h: Heap, mode: int)
    requires h.Usable()
    ensures var (g, previous) := SetMode(h, mode);
            previous == h.mode && g == h.(mode := mode % 0x100) && g.mode == SetMode(g, 0).1
  {
  }

  lemma ModeKeepsInv(h: Heap, mode: nat)
    requires Inv(h)
    ensures Inv(h.(mode := mode))
  {
  }

  lemma StoredMode(h: Heap, mode: nat)
    requires Inv(h) && h.Usable() && mode < 0x100
    ensures var g := SetMode(h, mode).0; Inv(g) && g.blocks == h.blocks && g.mode == mode
  {
    assert mode % 0x100 == mode;
    ModeKeepsInv(h, mode);
  }

  lemma AllocAsMode(h: Heap, g: Heap, firstFree: bool, size: nat, alignment: int)
    requires Inv(g) && g.blocks == h.blocks && firstFree == (g.mode == 0)
    requires size < TWO_32 && AlignmentOk(alignment) && Alloc(g, size, alignment).1 != 0
    ensures TakesAsMode(h.blocks, firstFree, RealSize(size), NormaliseAlignment(alignment), alignment < 0, Alloc(g, size, alignment).1)
  {
    AllocTakesOneEnd(g, size, alignment);
  }

  /** The mode set decides what the next allocation takes: in mode 0 the lowest block that fits, in
      mode 1 a tightest one. */
  lemma ModeTakesEffect(h: Heap, mode: nat, g: Heap, size: nat, alignment: int)
    requires Inv(h) && h.Usable() && mode < 0x100 && g == SetMode(h, mode).0
    requires size < TWO_32 && AlignmentOk(alignment) && Alloc(g, size, alignment).1 != 0
    ensures TakesAsMode(h.blocks, mode == 0, RealSize(size), NormaliseAlignment(alignment), alignment < 0, Alloc(g, size, alignment).1)
  {
    StoredMode(h, mode);
    AllocAsMode(h, g, mode == 0, size, alignment);
  }

  /** `bs` is `was` after an allocation at `r` in block `i`: all of that block is gone from the free
      total but for a remainder of at least 0x18 bytes beyond the payload, which stays free. */
  predicate CostsExactly(was: seq<Block>, bs: seq<Block>, i: nat, r: nat, n: nat, fromBottom: bool)
    requires i < |was|
  {
    var rest := Remainder(was[i], r, n, fromBottom);
    && TotalFree(was) - TotalFree(bs) == was[i].size - (if rest >= 0x18 then rest else 0)
    && |bs| == |was| + (if rest >= 0x18 then 1 else 0)
  }

  predicate IsPayload(u: Block, r: nat, n: nat, fromBottom: bool) {
    u.used && u.payload == r && u.payloadSize == n && u.direction == if fromBottom then FromBottom else FromTop
  }

  lemma CarvedCost(bs: seq<Block>, i: nat, n: nat, a: nat, fromBottom: bool, lo: nat, hi: nat)
    requires WellFormed(bs, lo, hi) && i < |bs| && !bs[i].used && IsAlignment(a) && n >= 1 && FitInFree(bs[i], a) >= n
    ensures var p := Place(bs[i], n, a, fromBottom);
            && p.Some?
            && var g := Splice(bs, i, Carve(bs[i], p.value, n, fromBottom));
               CostsExactly(bs, g, i, p.value.payload, n, fromBottom)
               && exists u :: u in g && IsPayload(u, p.value.payload, n, fromBottom)
  {
    TilesSplit(bs, i, lo, hi);
    PlaceSucceeds(bs[i], a, n, fromBottom, lo, hi);
    PlaceNeedsNoGap(bs[i], a, n, lo, hi);
    var p := Place(bs[i], n, a, fromBottom).value;
    CarveIsExact(bs[i], a, n, fromBottom, p);
    var carved := Carve(bs[i], p, n, fromBottom);
    SplicedUsed(bs, i, carved);
    var u :| u in carved && IsPayload(u, p.payload, n, fromBottom);
    assert u in Splice(bs, i, carved);
  }

  /** The exact cost of an allocation: its payload, its header, its padding, and a remainder if
      that is too small to stand alone.  The used block says which end it was allocated from. */
  lemma AllocCostIsExact(h: Heap, size: nat, alignment: int)
    requires Inv(h) && size < TWO_32 && AlignmentOk(alignment) && Alloc(h, size, alignment).1 != 0
    ensures var n, a, r := RealSize(size), NormaliseAlignment(alignment), Alloc(h, size, alignment).1;
            exists i: nat ::
              && i < |h.blocks| && !h.blocks[i].used && IsChoice(Rooms(h.blocks, a), n, h.mode == 0, i)
              && CostsExactly(h.blocks, Alloc(h, size, alignment).0.blocks, i, r, n, alignment < 0)
    ensures exists u ::
              u in Alloc(h, size, alignment).0.blocks && IsPayload(u, Alloc(h, size, alignment).1, RealSize(size), alignment < 0)
  {
    var n, a := RealSize(size), NormaliseAlignment(alignment);
    NormaliseAlignmentMeaning(alignment);
    var i := Choose(Rooms(h.blocks, a), n, h.mode == FIRST_FREE).value;
    CarvedCost(h.blocks, i, n, a, alignment < 0, h.dataStart, h.dataEnd);
  }

  /** An allocation takes its bytes from the free total: at least the payload and its 0x14-byte
      header, at most the padding and an unusable remainder more; and free and used bytes
      always make up the span. */
  lemma AllocAccounting(h: Heap, size: nat, alignment: int)
    requires Inv(h) && h.Usable() && size < TWO_32 && AlignmentOk(alignment) && Alloc(h, size, alignment).1 != 0
    ensures var g := Alloc(h, size, alignment).0;
            var n, cost := if size == 0 then 1 else size, TotalFreeSize(h) - TotalFreeSize(g);
            && n + 0x14 <= cost <= n + 0x14 + (NormaliseAlignment(alignment) - 1) + 0x17
            && TotalFree(g.blocks) + TotalUsed(g.blocks) == h.dataEnd - h.dataStart
  {
    AllocIsSound(h, size, alignment);
    var (g, r) := Alloc(h, size, alignment);
    var n, a := RealSize(size), NormaliseAlignment(alignment);
    var i :| IsChoice(Rooms(h.blocks, a), n, h.mode == FIRST_FREE, i) && AllocatedIn(h, g, r, n, a, i);
    BytesConserved(g.blocks, h.dataStart, h.dataEnd);
  }

  lemma PutThenRemoved(requests: map<nat, Request>, r: nat, q: Request)
    requires r !in requests
    ensures requests[r := q] - {r} == requests
  {
  }

  lemma SameUsedOneShape(xs: seq<Block>, ys: seq<Block>, lo: nat, hi: nat)
    requires WellFormed(xs, lo, hi) && WellFormed(ys, lo, hi) && Used(xs) == Used(ys)
    ensures SameShape(xs, ys)
  {
    ShapeIsUnique(xs, ys, lo, hi);
  }

  lemma SameBlocks(h: Heap, g: Heap, r: nat)
    requires Inv(h) && Inv(g) && h.live && g.Usable() && g.dataStart == h.dataStart && g.dataEnd == h.dataEnd
    requires Used(Free(g, r).blocks) == Used(h.blocks)
    ensures SameShape(Free(g, r).blocks, h.blocks)
  {
    FreeKeepsInv(g, r);
    SameUsedOneShape(Free(g, r).blocks, h.blocks, h.dataStart, h.dataEnd);
  }

  /** The used blocks other than the one owning `ptr`. */
  function Without(us: seq<Block>, ptr: nat): seq<Block> {
    if us == [] then [] else (if us[0].payload == ptr then [] else [us[0]]) + Without(us[1..], ptr)
  }

  lemma {:induction false} WithoutNone(us: seq<Block>, ptr: nat)
    requires forall i :: 0 <= i < |us| ==> us[i].payload != ptr
    ensures Without(us, ptr) == us
  {
    if us != [] { WithoutNone(us[1..], ptr); }
  }

  lemma {:induction false} UsedComeFrom(bs: seq<Block>, i: nat)
    requires i < |Used(bs)|
    ensures exists j :: 0 <= j < |bs| && bs[j] == Used(bs)[i] && bs[j].used
  {
    if bs[0].used && i == 0 {
      assert bs[0] == Used(bs)[0];
    } else {
      var m := if bs[0].used then i - 1 else i;
      UsedComeFrom(bs[1..], m);
      var j :| 0 <= j < |bs[1..]| && bs[1..][j] == Used(bs[1..])[m] && bs[1..][j].used;
      assert bs[j + 1] == Used(bs)[i];
    }
  }

  lemma UnknownPointer(h: Heap, ptr: nat)
    requires Inv(h) && h.live && forall j :: 0 <= j < |h.blocks| ==> !Owns(h.blocks[j], ptr)
    ensures Without(Used(h.blocks), ptr) == Used(h.blocks) && h.requests - {ptr} == h.requests
  {
    forall i | 0 <= i < |Used(h.blocks)| ensures Used(h.blocks)[i].payload != ptr {
      UsedComeFrom(h.blocks, i);
    }
    WithoutNone(Used(h.blocks), ptr);
    assert ptr !in h.requests;
  }

  lemma {:induction false} WithoutOne(xs: seq<Block>, u: Block, ys: seq<Block>)
    requires forall j :: 0 <= j < |xs + ys| ==> (xs + ys)[j].payload != u.payload
    ensures Without(xs + [u] + ys, u.payload) == xs + ys
  {
    if xs == [] {
      assert [] + [u] + ys == [u] + ys && ([u] + ys)[1..] == ys;
      forall j | 0 <= j < |ys| ensures ys[j].payload != u.payload { assert (xs + ys)[j] == ys[j]; }
      WithoutNone(ys, u.payload);
    } else {
      var rest := xs[1..];
      forall j | 0 <= j < |rest + ys| ensures (rest + ys)[j].payload != u.payload { assert (xs + ys)[j + 1] == (rest + ys)[j]; }
      WithoutOne(rest, u, ys);
      assert (xs + [u] + ys)[1..] == rest + [u] + ys;
      assert xs[0] == (xs + ys)[0];
    }
  }

  lemma KnownPointer(h: Heap, i: nat)
    requires Inv(h) && h.live && i < |h.blocks| && h.blocks[i].used
    ensures Used(FreeAt(h.blocks, i)) == Without(Used(h.blocks), h.blocks[i].payload)
  {
    FreeIsSound(h, i);
    PayloadsAreUnique(h.blocks, h.dataStart, h.dataEnd);
    var xs, u, ys := Used(h.blocks[..i]), h.blocks[i], Used(h.blocks[i + 1..]);
    var us := xs + [u] + ys;
    assert us[|xs|] == u;
    forall j | 0 <= j < |xs + ys| ensures (xs + ys)[j].payload != u.payload {
      assert (xs + ys)[j] == us[if j < |xs| then j else j + 1];
    }
    WithoutOne(xs, u, ys);
  }

  /** Freeing any pointer, known or not, removes exactly the used block that owns it. */
  lemma FreeRemovesUsed(h: Heap, ptr: nat)
    requires Inv(h) && h.Usable() && ptr != 0
    ensures Used(Free(h, ptr).blocks) == Without(Used(h.blocks), ptr)
    ensures Free(h, ptr) == h.(blocks := Free(h, ptr).blocks, requests := h.requests - {ptr})
  {
    match FindUsed(h.blocks, ptr)
    case None => UnknownPointer(h, ptr);
    case Some(i) => KnownPointer(h, i);
  }

  lemma FreeUndoesRequest(h: Heap, g: Heap, r: nat, q: Request)
    requires Inv(h) && Inv(g) && h.Usable() && r != 0 && r !in h.requests
    requires g == h.(blocks := g.blocks, mem := g.mem, requests := h.requests[r := q])
    requires Without(Used(g.blocks), r) == Used(h.blocks)
    ensures SameShape(Free(g, r).blocks, h.blocks)
    ensures Free(g, r) == h.(blocks := Free(g, r).blocks, mem := g.mem)
  {
    FreeRemovesUsed(g, r);
    SameBlocks(h, g, r);
    PutThenRemoved(h.requests, r, q);
  }

  lemma UsedAllocated(h: Heap, g: Heap, r: nat, n: nat, a: nat, i: nat)
    requires Inv(h) && h.live && AllocatedIn(h, g, r, n, a, i)
    ensures Without(Used(g.blocks), r) == Used(h.blocks)
  {
    AllocatedKeepsInv(h, g, r, n, a, i);
    var xs, ys := Used(h.blocks[..i]), Used(h.blocks[i + 1..]);
    var u: Block :| u.used && u.payload == r && u.payloadSize == n && Used(g.blocks) == xs + [u] + ys;
    forall j | 0 <= j < |xs + ys| ensures (xs + ys)[j].payload != r { assert Used(h.blocks)[j] in Used(h.blocks); }
    WithoutOne(xs, u, ys);
  }

  lemma FreeUndoes(h: Heap, g: Heap, r: nat, n: nat, a: nat, i: nat)
    requires Inv(h) && h.Usable() && r != 0 && AllocatedIn(h, g, r, n, a, i)
    ensures SameShape(Free(g, r).blocks, h.blocks)
    ensures Free(g, r) == h.(blocks := Free(g, r).blocks, mem := g.mem)
  {
    AllocatedKeepsInv(h, g, r, n, a, i);
    UsedAllocated(h, g, r, n, a, i);
    FreeUndoesRequest(h, g, r, Request(n, a));
  }

  /** Freeing an allocation straight away restores the block list, but for the direction byte
      of a free block, which nothing reads. */
  lemma FreeUndoesAlloc(h: Heap, size: nat, alignment: int)
    requires Inv(h) && h.Usable() && size < TWO_32 && AlignmentOk(alignment) && Alloc(h, size, alignment).1 != 0
    ensures var (g, r) := Alloc(h, size, alignment);
            var f := Free(g, r);
            && SameShape(f.blocks, h.blocks)
            && f == h.(blocks := f.blocks, mem := g.mem)
  {
    AllocIsSound(h, size, alignment);
    var (g, r) := Alloc(h, size, alignment);
    var n, a := RealSize(size), NormaliseAlignment(alignment);
    var i :| IsChoice(Rooms(h.blocks, a), n, h.mode == FIRST_FREE, i) && AllocatedIn(h, g, r, n, a, i);
    FreeUndoes(h, g, r, n, a, i);
  }

  lemma WithoutHead(us: seq<Block>, p: nat, q: nat)
    requires us != []
    ensures Without(Without(us, p), q) ==
            (if us[0].payload == p || us[0].payload == q then [] else [us[0]]) + Without(Without(us[1..], p), q)
  {
    var rest := Without(us[1..], p);
    if us[0].payload == p {
      assert Without(us, p) == rest;
    } else {
      assert Without(us, p) == [us[0]] + rest && ([us[0]] + rest)[1..] == rest;
    }
  }

  lemma {:induction false} WithoutCommutes(us: seq<Block>, p: nat, q: nat)
    ensures Without(Without(us, p), q) == Without(Without(us, q), p)
  {
    if us != [] {
      WithoutCommutes(us[1..], p, q);
      WithoutHead(us, p, q);
      WithoutHead(us, q, p);
    }
  }

  lemma FreedTwice(h: Heap, p: nat, q: nat) returns (g: Heap)
    requires Inv(h) && h.Usable() && p != 0 && q != 0
    ensures g == Free(Free(h, p), q) && WellFormed(g.blocks, h.dataStart, h.dataEnd)
    ensures Used(g.blocks) == Without(Without(Used(h.blocks), p), q)
    ensures g.requests == h.requests - {p, q}
  {
    FreeKeepsInv(h, p);
    FreeRemovesUsed(h, p);
    FreeKeepsInv(Free(h, p), q);
    FreeRemovesUsed(Free(h, p), q);
    g := Free(Free(h, p), q);
    assert h.requests - {p} - {q} == h.requests - {p, q};
  }

  /** The order of frees does not matter. */
  lemma FreesCommute(h: Heap, p: nat, q: nat)
    requires Inv(h) && h.Usable() && p != 0 && q != 0
    ensures SameShape(Free(Free(h, p), q).blocks, Free(Free(h, q), p).blocks)
    ensures Free(Free(h, p), q).requests == Free(Free(h, q), p).requests
  {
    var f := FreedTwice(h, p, q);
    var g := FreedTwice(h, q, p);
    WithoutCommutes(Used(h.blocks), p, q);
    assert {p, q} == {q, p};
    SameUsedOneShape(f.blocks, g.blocks, h.dataStart, h.dataEnd);
  }

  predicate KeepsHeap(op: Op) { !op.OpCreate? && !op.OpDestroy? }

  lemma StepKeepsSpan(h: Heap, op: Op)
    requires OpOk(h, op) && KeepsHeap(op)
    ensures var g := Step(h, op);
            g == h.(blocks := g.blocks, mem := g.mem, requests := g.requests, mode := g.mode) && |g.mem| == |h.mem|
  {
  }

  lemma {:induction false} RunKeepsSpan(hs: seq<Heap>, ops: seq<Op>, k: nat)
    requires IsRun(hs, ops) && Inv(hs[0]) && hs[0].Usable() && k < |hs|
    requires forall j :: 0 <= j < |ops| ==> KeepsHeap(ops[j])
    ensures hs[k].Usable() && hs[k].dataStart == hs[0].dataStart && hs[k].dataEnd == hs[0].dataEnd
    ensures hs[k].base == hs[0].base && |hs[k].mem| == |hs[0].mem| && hs[k].flags == hs[0].flags
  {
    if k > 0 {
      RunKeepsSpan(hs, ops, k - 1);
      StepKeepsSpan(hs[k - 1], ops[k - 1]);
    }
  }

  lemma UsedIsRequested(us: seq<Block>, requests: map<nat, Request>)
    requires Matches(us, requests)
    ensures us == [] || requests.Keys != {}
  {
    if us != [] { assert us[0] in us; }
  }

  lemma {:induction false} NoneUsed(bs: seq<Block>)
    requires Used(bs) == []
    ensures TotalUsed(bs) == 0
  {
    if bs != [] { NoneUsed(bs[1..]); }
  }

  lemma NothingUsed(h: Heap)
    requires Inv(h) && h.live && h.requests == map[]
    ensures Used(h.blocks) == [] && TotalFree(h.blocks) == h.dataEnd - h.dataStart
  {
    UsedIsRequested(Used(h.blocks), h.requests);
    BytesConserved(h.blocks, h.dataStart, h.dataEnd);
    NoneUsed(h.blocks);
  }

  /** However the allocations and frees of a run were ordered, once nothing is live the list is
      the single free block it was created with and the free total is the original one. */
  lemma AllFreedIsFresh(hs: seq<Heap>, ops: seq<Op>, h: Heap, size: nat, flags: nat)
    requires Inv(h) && OpOk(h, OpCreate(size, flags)) && Create(h, size, flags).1 != 0
    requires IsRun(hs, ops) && hs[0] == Create(h, size, flags).0
    requires forall j :: 0 <= j < |ops| ==> KeepsHeap(ops[j])
    requires hs[|ops|].requests == map[]
    ensures SameShape(hs[|ops|].blocks, hs[0].blocks) && |hs[|ops|].blocks| == 1
    ensures TotalFreeSize(hs[|ops|]) == TotalFreeSize(hs[0]) == hs[0].dataEnd - hs[0].dataStart
  {
    CreateKeepsInv(h, size, flags);
    var first, last := hs[0], hs[|ops|];
    RunKeepsInv(hs, ops, |ops|);
    RunKeepsSpan(hs, ops, |ops|);
    NothingUsed(first);
    NothingUsed(last);
    ShapeIsUnique(last.blocks, first.blocks, first.dataStart, first.dataEnd);
  }

  // ---- memory ----

  predicate ApartFrom(h: Heap, p: nat, r: nat, n: nat)
    requires p in h.requests
  {
    p + h.requests[p].size <= r || r + n <= p
  }

  lemma AllocatedApart(h: Heap, g: Heap, r: nat, n: nat, a: nat, i: nat)
    requires Inv(h) && h.live && AllocatedIn(h, g, r, n, a, i)
    ensures WritesOnly(h.mem, g.mem, h.base, r, n, h.flags) && forall p :: p in h.requests ==> ApartFrom(h, p, r, n)
  {
    TilesSplit(h.blocks, i, h.dataStart, h.dataEnd);
    AllocatedKeepsInv(h, g, r, n, a, i);
    forall p | p in h.requests ensures ApartFrom(h, p, r, n) {
      if p < r { LivePayloadsApart(g, p, r); } else { LivePayloadsApart(g, r, p); }
    }
  }

  /** With the zero-allocated flag an allocation clears all of its own payload; with or without
      it, no byte outside that payload changes, and no live payload shares a byte with it. */
  lemma AllocWritesOnlyItsPayload(h: Heap, size: nat, alignment: int)
    requires Inv(h) && size < TWO_32 && AlignmentOk(alignment) && Alloc(h, size, alignment).1 != 0
    ensures var (g, r) := Alloc(h, size, alignment);
            WritesOnly(h.mem, g.mem, h.base, r, RealSize(size), h.flags) && (forall p :: p in h.requests ==> ApartFrom(h, p, r, RealSize(size)))
  {
    AllocIsSound(h, size, alignment);
    var (g, r) := Alloc(h, size, alignment);
    var n, a := RealSize(size), NormaliseAlignment(alignment);
    var i :| IsChoice(Rooms(h.blocks, a), n, h.mode == FIRST_FREE, i) && AllocatedIn(h, g, r, n, a, i);
    AllocatedApart(h, g, r, n, a, i);
  }

  /** Whatever was done to it in between, a heap created with the zero-allocated flag hands out
      cleared payloads only. */
  lemma FlaggedHeapZeroes(h: Heap, size: nat, flags: nat, hs: seq<Heap>, ops: seq<Op>, k: nat)
    requires Inv(h) && OpOk(h, OpCreate(size, flags)) && Create(h, size, flags).1 != 0 && flags % 2 == 1
    requires IsRun(hs, ops) && hs[0] == Create(h, size, flags).0 && forall j :: 0 <= j < |ops| ==> KeepsHeap(ops[j])
    requires k < |ops| && ops[k].OpAlloc?
    ensures var (g, r) := Alloc(hs[k], ops[k].size, ops[k].alignment);
            r != 0 ==> hs[k + 1] == g && forall x :: 0 <= x < |g.mem| && r <= g.base + x < r + RealSize(ops[k].size) ==> g.mem[x] == 0
  {
    CreateKeepsInv(h, size, flags);
    CreatedHeap(h, size, flags);
    RunKeepsInv(hs, ops, k);
    RunKeepsSpan(hs, ops, k);
    if Alloc(hs[k], ops[k].size, ops[k].alignment).1 != 0 { AllocWritesOnlyItsPayload(hs[k], ops[k].size, ops[k].alignment); }
  }

  /** The step neither frees the payload at `p` nor lets the game store into its `n` bytes. */
  predicate LeavesAlone(op: Op, p: nat, n: nat) {
    KeepsHeap(op) && op != OpFree(p) && (op.OpWrite? ==> !(p <= op.address < p + n))
  }

  predicate SamePayload(h: Heap, g: Heap, p: nat)
    requires p in h.requests
  {
    && p in g.requests && g.requests[p] == h.requests[p]
    && g.base == h.base && |g.mem| == |h.mem|
    && forall k :: 0 <= k < |h.mem| && p <= h.base + k < p + h.requests[p].size ==> g.mem[k] == h.mem[k]
  }

  lemma StepPreservesPayload(h: Heap, op: Op, p: nat)
    requires Inv(h) && h.Usable() && OpOk(h, op) && p in h.requests && LeavesAlone(op, p, h.requests[p].size)
    ensures SamePayload(h, Step(h, op), p)
  {
    match op
    case OpAlloc(size, alignment) =>
      AllocIsSound(h, size, alignment);
      var (g, r) := Alloc(h, size, alignment);
      if r != 0 {
        var n, a := RealSize(size), NormaliseAlignment(alignment);
        var i :| IsChoice(Rooms(h.blocks, a), n, h.mode == FIRST_FREE, i) && AllocatedIn(h, g, r, n, a, i);
        AllocatedApart(h, g, r, n, a, i);
        AllocatedKeepsInv(h, g, r, n, a, i);
      }
    case _ =>
  }

  /** Whatever a run does, a live payload that it neither frees nor writes keeps every byte. */
  lemma {:induction false} RunPreservesPayload(hs: seq<Heap>, ops: seq<Op>, p: nat, k: nat)
    requires IsRun(hs, ops) && Inv(hs[0]) && hs[0].Usable() && p in hs[0].requests && k < |hs|
    requires forall j :: 0 <= j < |ops| ==> LeavesAlone(ops[j], p, hs[0].requests[p].size)
    ensures SamePayload(hs[0], hs[k], p)
  {
    if k > 0 {
      RunPreservesPayload(hs, ops, p, k - 1);
      RunKeepsInv(hs, ops, k - 1);
      RunKeepsSpan(hs, ops, k - 1);
      StepPreservesPayload(hs[k - 1], ops[k - 1], p);
    }
  }
}
