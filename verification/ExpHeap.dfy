/** The host record of an expanded heap, edited in place as the C++ code does it. */
module ExpHeap {
  import opened Machine
  import opened Alignment
  import opened Wrappers
  import opened GuestMemory
  import opened ExpBlocks
  import M = ExpHeapModel

  lemma PrefixTotal(bs: seq<Block>, i: nat, lo: nat, hi: nat)
    requires Tiles(bs, lo, hi) && i < |bs|
    ensures TotalFree(bs[..i + 1]) == TotalFree(bs[..i]) + (if bs[i].used then 0 else bs[i].size)
    ensures TotalFree(bs[..i + 1]) <= hi - lo
  {
    FreeJoin(bs[..i], [bs[i]]);
    assert bs[..i] + [bs[i]] == bs[..i + 1];
    Single(bs[i]);
    FreeJoin(bs[..i + 1], bs[i + 1..]);
    assert bs[..i + 1] + bs[i + 1..] == bs;
    BytesConserved(bs, lo, hi);
  }

  /** In first-free mode nothing after the first fitting block matters. */
  lemma {:induction false} FirstIsFinal(rooms: seq<nat>, size: nat, i: nat)
    requires i < |rooms| && rooms[i] >= size && forall j :: 0 <= j < i ==> rooms[j] < size
    ensures Choose(rooms, size, true) == Some(i)
  {
  }

  lemma MergeStep(bs: seq<Block>, i: nat)
    requires i + 1 < |bs| && !bs[i].used && !bs[i + 1].used
    ensures var merged := bs[..i] + [bs[i].(size := U32(bs[i].size + bs[i + 1].size))] + bs[i + 2..];
            merged[..i] + Coalesced(merged[i..]) == bs[..i] + Coalesced(bs[i..])
  {
    var merged := bs[..i] + [bs[i].(size := U32(bs[i].size + bs[i + 1].size))] + bs[i + 2..];
    assert merged[i..] == MergedHead(bs[i..]) && merged[..i] == bs[..i];
  }

  lemma KeepStep(bs: seq<Block>, i: nat)
    requires i + 1 < |bs| && (bs[i].used || bs[i + 1].used)
    ensures bs[..i + 1] + Coalesced(bs[i + 1..]) == bs[..i] + Coalesced(bs[i..])
  {
    assert bs[i + 1..] == bs[i..][1..];
    assert bs[..i + 1] == bs[..i] + [bs[i]];
  }

  lemma PayloadInRegion(h: M.Heap, i: nat, n: nat, alignment: int)
    requires M.Inv(h) && h.live && n >= 1 && AlignmentOk(alignment) && i < |h.blocks|
    requires Rooms(h.blocks, NormaliseAlignment(alignment))[i] >= n
    ensures var p := Place(h.blocks[i], n, NormaliseAlignment(alignment), alignment < 0);
            p.Some? && h.base <= p.value.payload && p.value.payload + n <= h.base + |h.mem|
  {
    NormaliseAlignmentMeaning(alignment);
    M.PlacedIn(h, i, n, NormaliseAlignment(alignment), alignment < 0);
    TilesSplit(h.blocks, i, h.dataStart, h.dataEnd);
  }

  class HostExpHeap {
    const base: nat
    const region: array<byte>  // the guest memory from address `base` on
    var dataStart: nat
    var dataEnd: nat
    var flags: nat
    var mode: nat
    var live: bool
    var blocks: seq<Block>     // from low addresses to high, with no gap between them
    ghost var requests: map<nat, M.Request>

    ghost function Model(): M.Heap
      reads this, region
    {
      M.Heap(base, dataStart, dataEnd, flags, mode, live, blocks, region[..], requests)
    }

    ghost predicate Valid()
      reads this, region
    {
      M.Inv(Model())
    }

    constructor (base: nat, region: array<byte>)
      requires base + region.Length + BLOCK_HEADER + MAX_ALIGNMENT <= TWO_64
      ensures Valid() && M.Initial(Model())
      ensures this.base == base && this.region == region
    {
      this.base, this.region := base, region;
      dataStart, dataEnd, flags, mode, live, blocks := 0, 0, 0, M.FIRST_FREE, false, [];
      requests := map[];
    }

    method Create(size: nat, newFlags: nat) returns (handle: nat)
      requires Valid() && M.OpOk(Model(), M.OpCreate(size, newFlags))
      modifies this
      ensures Valid() && (Model(), handle) == M.Create(old(Model()), size, newFlags)
    {
      M.CreateKeepsInv(Model(), size, newFlags);
      handle := 0;
      if base == 0 || size <= M.HEAP_HEADER + BLOCK_HEADER { return; }
      dataStart := AlignUp(U64(base + M.HEAP_HEADER), 4);
      dataEnd := U64(base + size);
      if dataStart >= dataEnd { return; }
      flags := newFlags;
      mode := M.FIRST_FREE;
      live := true;
      blocks := [FreeBlock(dataStart, U32(dataEnd - dataStart))];
      requests := map[];
      return base;
    }

    method Destroy() returns (handle: nat)
      requires Valid()
      modifies this
      ensures Valid() && (Model(), handle) == M.Destroy(old(Model()))
    {
      if base == 0 || !live { return 0; }
      live := false;
      blocks := [];
      requests := map[];
      return base;
    }

    /** The selection loop of the allocator. */
    method FindBlock(size: nat, a: nat) returns (chosen: Option<nat>)
      requires size >= 1
      ensures chosen == Choose(Rooms(blocks, a), size, mode == M.FIRST_FREE)
    {
      ghost var rooms := Rooms(blocks, a);
      ghost var answer := Choose(rooms, size, mode == M.FIRST_FREE);
      chosen := None;
      var chosenSlack := 0;
      for i := 0 to |blocks|
        invariant chosen == Choose(rooms[..i], size, mode == M.FIRST_FREE)
        invariant chosen.Some? ==> chosenSlack == rooms[chosen.value] - size && mode != M.FIRST_FREE
      {
        assert rooms[..i + 1][..i] == rooms[..i];
        if !blocks[i].used {
          var avail := FitInFree(blocks[i], a);
          if avail >= size {
            if mode == M.FIRST_FREE {
              chosen := Some(i);
              FirstIsFinal(rooms, size, i);
              return;
            }
            var slack := avail - size;
            if chosen.None? || slack < chosenSlack {
              chosen, chosenSlack := Some(i), slack;
            }
          }
        }
      }
      assert rooms[..|blocks|] == rooms;
    }

    method Alloc(size: nat, alignment: int) returns (payload: nat)
      requires Valid() && size < TWO_32 && AlignmentOk(alignment)
      modifies this, region
      ensures Valid() && (Model(), payload) == M.Alloc(old(Model()), size, alignment)
    {
      ghost var before := Model();
      M.AllocKeepsInv(before, size, alignment);
      payload := 0;
      if base == 0 || !live { return; }
      var n := if size == 0 then 1 else size;
      var fromBottom := alignment < 0;
      var a := NormaliseAlignment(alignment);
      var chosen := FindBlock(n, a);
      if chosen.None? { return; }
      var place := Place(blocks[chosen.value], n, a, fromBottom);
      if place.None? { return; }
      PayloadInRegion(before, chosen.value, n, alignment);
      Take(chosen.value, place.value, n, a, fromBottom);
      payload := place.value.payload;
    }

    /** Replace block `i` by what carving leaves of it, and clear the payload if the heap asks for it. */
    method Take(i: nat, p: Placement, n: nat, a: nat, fromBottom: bool)
      requires i < |blocks|
      requires base <= p.payload && p.payload + n <= base + region.Length
      modifies this, region
      ensures Model() == M.AllocAt(old(Model()), i, p, n, a, fromBottom)
    {
      blocks := Splice(blocks, i, Carve(blocks[i], p, n, fromBottom));
      requests := requests[p.payload := M.Request(n, a)];
      if flags % 2 == ZERO_ALLOCATED { Clear(region, base, p.payload, n); }
    }

    /** Merge neighbouring free blocks, scanning once from the left. */
    method Coalesce()
      modifies this`blocks
      ensures blocks == Coalesced(old(blocks))
    {
      var i := 0;
      while i + 1 < |blocks|
        invariant i <= |blocks|
        invariant blocks[..i] + Coalesced(blocks[i..]) == Coalesced(old(blocks))
        decreases |blocks| - i
      {
        if !blocks[i].used && !blocks[i + 1].used {
          MergeStep(blocks, i);
          blocks := blocks[..i] + [blocks[i].(size := U32(blocks[i].size + blocks[i + 1].size))] + blocks[i + 2..];
        } else {
          KeepStep(blocks, i);
          i := i + 1;
        }
      }
      assert Coalesced(blocks[i..]) == blocks[i..];
      assert blocks[..i] + blocks[i..] == blocks;
    }

    method Free(ptr: nat)
      requires Valid()
      modifies this
      ensures Valid() && Model() == M.Free(old(Model()), ptr)
    {
      M.FreeKeepsInv(Model(), ptr);
      if base == 0 || !live || ptr == 0 { return; }
      for i := 0 to |blocks|
        invariant Model() == old(Model())
        invariant forall j :: 0 <= j < i ==> !Owns(blocks[j], ptr)
      {
        if blocks[i].used && blocks[i].payload == ptr {
          blocks := blocks[i := Released(blocks[i])];
          requests := requests - {ptr};
          Coalesce();
          return;
        }
      }
    }

    method GetTotalFreeSize() returns (total: nat)
      requires Valid()
      ensures total == M.TotalFreeSize(Model())
      ensures live && base != 0 ==> total + TotalUsed(blocks) == dataEnd - dataStart
    {
      if base == 0 || !live { return 0; }
      BytesConserved(blocks, dataStart, dataEnd);
      total := 0;
      for i := 0 to |blocks|
        invariant total == TotalFree(blocks[..i])
      {
        PrefixTotal(blocks, i, dataStart, dataEnd);
        if !blocks[i].used { total := U32(total + blocks[i].size); }
      }
      assert blocks[..|blocks|] == blocks;
    }

    method GetAllocatableSize(alignment: int) returns (best: nat)
      requires Valid() && AlignmentOk(alignment)
      ensures best == M.AllocatableSize(Model(), alignment)
    {
      if base == 0 || !live { return 0; }
      var a := NormaliseAlignment(alignment);
      ghost var rooms := Rooms(blocks, a);
      best := 0;
      for i := 0 to |blocks|
        invariant best == MaxRoom(rooms[..i])
      {
        assert rooms[..i + 1][..i] == rooms[..i];
        if !blocks[i].used {
          var avail := FitInFree(blocks[i], a);
          if avail > best { best := avail; }
        }
      }
      assert rooms[..|blocks|] == rooms;
    }

    method SetMode(newMode: int) returns (previous: nat)
      requires Valid()
      modifies this`mode
      ensures Valid() && (Model(), previous) == M.SetMode(old(Model()), newMode)
    {
      if base == 0 || !live { return M.FIRST_FREE; }
      previous := mode;
      mode := newMode % 0x100;
    }
  }
}
