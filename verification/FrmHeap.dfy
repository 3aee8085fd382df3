/** The host record of a frame heap, edited in place as the C++ code does it. */
module FrmHeap {
  import opened Machine
  import opened Alignment
  import opened GuestMemory
  import M = FrmHeapModel
  import P = FrmHeapProperties

  lemma PayloadInRegion(h: M.Heap, n: nat, alignment: int)
    requires M.Inv(h) && h.live && n < TWO_32 && AlignmentOk(alignment)
    ensures var c := M.Candidate(h, n, NormaliseAlignment(alignment), alignment < 0);
            M.Accepts(h, n, c, alignment < 0) ==> h.base <= c && c + n <= h.base + |h.mem|
  {
    NormaliseAlignmentMeaning(alignment);
    M.GuardsAreExact(h, n, NormaliseAlignment(alignment), alignment < 0);
  }

  class HostFrmHeap {
    const base: nat
    const region: array<byte>  // the guest memory from address `base` on
    var dataStart: nat
    var dataEnd: nat
    var head: nat
    var tail: nat
    var flags: nat
    var live: bool
    var states: seq<M.State>
    ghost var allocs: map<nat, M.Allocation>

    ghost function Model(): M.Heap
      reads this, region
    {
      M.Heap(base, dataStart, dataEnd, head, tail, flags, live, states, region[..], allocs)
    }

    ghost predicate Valid()
      reads this, region
    {
      M.Inv(Model())
    }

    constructor (base: nat, region: array<byte>)
      requires base + region.Length + MAX_ALIGNMENT + TWO_32 <= TWO_64
      ensures Valid() && M.Initial(Model())
      ensures this.base == base && this.region == region
    {
      this.base, this.region := base, region;
      dataStart, dataEnd, head, tail, flags, live, states := 0, 0, 0, 0, 0, false, [];
      allocs := map[];
    }

    method Create(size: nat, newFlags: nat) returns (handle: nat)
      requires Valid() && size <= region.Length && size < TWO_32
      modifies this
      ensures (Model(), handle) == M.Create(old(Model()), size, newFlags)
      ensures Valid() <==> M.Safe(old(Model()), M.OpCreate(size, newFlags))
    {
      P.StepKeepsInvExactly(Model(), M.OpCreate(size, newFlags));
      handle := 0;
      if base == 0 || size <= M.HEAP_HEADER { return; }
      dataStart := AlignUp(U64(base + M.HEAP_HEADER), 4);
      dataEnd := U64(base + size);
      if dataStart >= dataEnd { return; }
      head := dataStart;
      tail := dataEnd;
      flags := newFlags;
      live := true;
      states := [];
      allocs := map[];
      handle := base;
    }

    method Destroy() returns (handle: nat)
      requires Valid()
      modifies this
      ensures Valid() && (Model(), handle) == M.Destroy(old(Model()))
    {
      if base == 0 || !live { return 0; }
      live := false;
      states := [];
      allocs := map[];
      return base;
    }

    method Alloc(size: nat, alignment: int) returns (result: nat)
      requires Valid() && size < TWO_32 && AlignmentOk(alignment)
      modifies this, region
      ensures Valid() && (Model(), result) == M.Alloc(old(Model()), size, alignment)
    {
      ghost var before := Model();
      P.AllocKeepsInv(before, size, alignment);
      if base == 0 || !live { return 0; }
      var n := if size == 0 then 1 else size;
      var fromTail := alignment < 0;
      var a := NormaliseAlignment(alignment);
      var candidate;
      if fromTail {
        candidate := AlignDown(U64(tail - n), a);
        if candidate < head || candidate > tail { return 0; }
        tail := candidate;
      } else {
        candidate := AlignUp(head, a);
        if U64(candidate + n) > tail || candidate < head { return 0; }
        head := U64(candidate + n);
      }
      allocs := allocs[candidate := M.Allocation(n, a, if fromTail then M.Tail else M.Head, |states|)];
      PayloadInRegion(before, n, alignment);
      if flags % 2 == ZERO_ALLOCATED { Clear(region, base, candidate, n); }
      return candidate;
    }

    method FreeMode(mode: nat)
      requires Valid()
      modifies this
      ensures Valid() && Model() == M.FreeMode(old(Model()), mode)
    {
      P.FreeModeKeepsInv(Model(), mode);
      if base == 0 || !live { return; }
      if mode % 2 == 1 { head := dataStart; }
      if mode / 2 % 2 == 1 { tail := dataEnd; }
      if mode % 2 == 1 && mode / 2 % 2 == 1 { states := []; }
      allocs := map p | p in allocs && !M.FreesSide(mode, allocs[p].side) :: allocs[p];
    }

    method Record(tag: nat) returns (ok: nat)
      requires Valid()
      modifies this
      ensures Valid() && Model() == M.Record(old(Model()), tag) && ok == if old(Model()).Usable() then 1 else 0
    {
      P.RecordKeepsInv(Model(), tag);
      if base == 0 || !live { return 0; }
      states := states + [M.State(tag, head, tail)];
      return 1;
    }

    method FreeByState(tag: nat) returns (ok: nat)
      requires Valid()
      modifies this
      ensures Valid() && (Model(), ok) == M.FreeByState(old(Model()), tag)
    {
      P.StepKeepsInvExactly(Model(), M.OpFreeByState(tag));
      if base == 0 || !live || |states| == 0 { return 0; }
      var idx := |states| - 1;
      if tag != 0 {
        var found := false;
        for i := |states| downto 0
          invariant !found && forall j :: i <= j < |states| ==> states[j].tag != tag
        {
          if states[i].tag == tag {
            idx, found := i, true;
            break;
          }
        }
        if !found { return 0; }
      }
      head := states[idx].head;
      tail := states[idx].tail;
      states := states[..idx];
      allocs := map p | p in allocs && allocs[p].depth <= idx :: allocs[p];
      return 1;
    }

    /** Shrinks the heap to its head.  A recorded state that reaches further is left dangling. */
    method Adjust() returns (size: nat)
      requires Valid()
      modifies this
      ensures (Model(), size) == M.Adjust(old(Model()))
      ensures Valid() <==> M.Safe(old(Model()), M.OpAdjust)
    {
      P.StepKeepsInvExactly(Model(), M.OpAdjust);
      if base == 0 || !live { return 0; }
      if tail != dataEnd { return 0; }
      dataEnd := head;
      tail := head;
      return U32(dataEnd - base);
    }

    method GetAllocatableSize(alignment: int) returns (size: nat)
      requires Valid() && AlignmentOk(alignment)
      ensures size == M.AllocatableSize(Model(), alignment)
    {
      if base == 0 || !live { return 0; }
      var a := NormaliseAlignment(alignment);
      var start := AlignUp(head, a);
      if start >= tail { return 0; }
      return U32(tail - start);
    }
  }
}
