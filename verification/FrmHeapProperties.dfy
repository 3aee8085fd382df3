/** What a user of the frame heap can rely on, over every run of it. */
module FrmHeapProperties {
  import opened Machine
  import opened Alignment
  import opened Wrappers
  import opened GuestMemory
  import opened FrmHeapModel

  // ---- every step keeps the invariant ----

  lemma InRange(v: nat)
    requires v < TWO_64
    ensures U64(v) == v
  {
  }

  lemma HeaderKeepsRemainder(base: nat)
    ensures (base + HEAP_HEADER) % 4 == base % 4
  {
  }

  lemma FirstAddress(h: Heap, size: nat) returns (first: nat)
    requires RegionOk(h) && size <= |h.mem|
    ensures first == AlignUp(U64(h.base + HEAP_HEADER), 4) && h.base + HEAP_HEADER <= first < h.base + HEAP_HEADER + 4
    ensures U64(h.base + size) == h.base + size
    ensures first % 4 == 0 && (h.base % 4 == 0 ==> first == h.base + HEAP_HEADER)
  {
    InRange(h.base + HEAP_HEADER);
    InRange(h.base + size);
    first := NextMultipleOfFour(h.base + HEAP_HEADER);
    HeaderKeepsRemainder(h.base);
  }

  lemma OneMultipleOfFour(v: nat, w: nat, low: nat)
    requires low <= v < low + 4 && v % 4 == 0 && low <= w < low + 4 && w % 4 == 0
    ensures v == w
  {
    assert v == 4 * (v / 4) && w == 4 * (w / 4);
  }

  /** Creation without its wrapped sums. */
  lemma CreateFrom(h: Heap, size: nat, flags: nat) returns (first: nat)
    requires RegionOk(h) && h.base != 0 && HEAP_HEADER < size <= |h.mem|
    ensures h.base + HEAP_HEADER <= first < h.base + HEAP_HEADER + 4 && first % 4 == 0
    ensures RefusedLate(h, size) <==> first >= h.base + size
    ensures var g := h.(dataStart := first, dataEnd := h.base + size);
            Create(h, size, flags) ==
              if first >= h.base + size then (g, 0)
              else (g.(head := first, tail := h.base + size, flags := flags, live := true, states := [], allocs := map[]), h.base)
  {
    first := FirstAddress(h, size);
  }

  lemma CreateKeepsInv(h: Heap, size: nat, flags: nat)
    requires Inv(h) && OpOk(h, OpCreate(size, flags)) && !(h.Usable() && RefusedLate(h, size))
    ensures Inv(Create(h, size, flags).0)
  {
    if h.base != 0 && size > HEAP_HEADER { var first := CreateFrom(h, size, flags); }
  }

  lemma GapIsFree(h: Heap, c: nat, n: nat, a: nat)
    requires Inv(h) && h.live && n >= 1 && Holds(h, n, a, c)
    ensures c !in h.allocs && forall p :: p in h.allocs ==> p + h.allocs[p].size <= c || c + n <= p
  {
  }

  lemma TakenKeepsInv(h: Heap, c: nat, n: nat, a: nat, fromTail: bool)
    requires Inv(h) && h.live && n >= 1 && Holds(h, n, a, c) && (!fromTail ==> U64(c + n) == c + n)
    ensures Inv(AllocAt(h, c, n, a, fromTail))
  {
    var g := AllocAt(h, c, n, a, fromTail);
    GapIsFree(h, c, n, a);
    forall p | p in g.allocs ensures Inside(g, p, g.head, g.tail) {
      if p != c { assert Inside(h, p, h.head, h.tail); }
    }
    forall i | 0 <= i < |g.states| ensures StateOk(g, i) {
      assert StateOk(h, i);
      forall p | p in g.allocs && g.allocs[p].depth <= i ensures Inside(g, p, g.states[i].head, g.states[i].tail) {
        assert p in h.allocs && Inside(h, p, h.states[i].head, h.states[i].tail);
      }
    }
  }

  lemma AllocKeepsInv(h: Heap, size: nat, alignment: int)
    requires Inv(h) && size < TWO_32 && AlignmentOk(alignment)
    ensures Inv(Alloc(h, size, alignment).0)
  {
    if h.Usable() {
      var n, a := RealSize(size), NormaliseAlignment(alignment);
      NormaliseAlignmentMeaning(alignment);
      GuardsAreExact(h, n, a, alignment < 0);
      var c := Candidate(h, n, a, alignment < 0);
      if Accepts(h, n, c, alignment < 0) { TakenKeepsInv(h, c, n, a, alignment < 0); }
    }
  }

  lemma FreeModeKeepsInv(h: Heap, mode: nat)
    requires Inv(h)
    ensures Inv(FreeMode(h, mode))
  {
    var g := FreeMode(h, mode);
    forall i | 0 <= i < |g.states| ensures StateOk(g, i) { assert StateOk(h, i); }
  }

  lemma RecordKeepsInv(h: Heap, tag: nat)
    requires Inv(h)
    ensures Inv(Record(h, tag))
  {
    var g := Record(h, tag);
    forall i | 0 <= i < |g.states| ensures StateOk(g, i) {
      if i < |h.states| { assert StateOk(h, i); }
    }
  }

  lemma RestoredKeepsInv(h: Heap, i: nat)
    requires Inv(h) && h.live && i < |h.states|
    ensures Inv(Restored(h, i))
  {
    var g := Restored(h, i);
    assert StateOk(h, i);
    forall j | 0 <= j < |g.states| ensures StateOk(g, j) { assert StateOk(h, j); }
  }

  /** Adjusting keeps the heap sound exactly when no recorded state reaches beyond the new end. */
  lemma AdjustKeepsInvExactly(h: Heap)
    requires Inv(h) && h.Usable() && h.tail == h.dataEnd
    ensures Inv(Adjust(h).0) <==> StatesBelow(h, h.head)
  {
    var g := Adjust(h).0;
    if StatesBelow(h, h.head) {
      forall i | 0 <= i < |g.states| ensures StateOk(g, i) { assert StateOk(h, i); }
    }
    if Inv(g) {
      forall i | 0 <= i < |h.states| ensures h.states[i].tail <= h.head { assert StateOk(g, i); }
    }
  }

  /** The failing family: recording, adjusting and restoring any heap with room left and nothing
      at its tail puts the tail beyond the end of the heap. */
  lemma AdjustedRestoreOverruns(h: Heap, tag: nat)
    requires Inv(h) && h.Usable() && h.tail == h.dataEnd && h.head < h.tail
    ensures var g := FreeByState(Adjust(Record(h, tag)).0, 0).0; g.tail > g.dataEnd
  {
  }

  lemma AllocsNeedRoom(h: Heap)
    requires Inv(h) && h.live
    ensures h.allocs != map[] ==> h.dataStart < h.head || h.tail < h.dataEnd
  {
  }

  /** What moving the end down to the start of the data or below does to a live heap. */
  lemma CutKeepsInvExactly(h: Heap, end: nat)
    requires Inv(h) && h.Usable() && end <= h.dataStart && end <= h.base + |h.mem| && end < h.base + TWO_32
    ensures Inv(h.(dataEnd := end)) <==> h.tail <= end && StatesBelow(h, end) && h.allocs == map[]
  {
    var g := h.(dataEnd := end);
    if h.tail <= end && StatesBelow(h, end) && h.allocs == map[] {
      forall i | 0 <= i < |g.states| ensures StateOk(g, i) { assert StateOk(h, i); }
    }
    if Inv(g) {
      forall i | 0 <= i < |h.states| ensures h.states[i].tail <= end { assert StateOk(g, i); }
      AllocsNeedRoom(g);
    }
  }

  lemma RefusedCreate(h: Heap, size: nat, flags: nat)
    requires RegionOk(h) && h.base != 0 && size <= |h.mem| && RefusedLate(h, size)
    requires h.base + HEAP_HEADER <= h.dataStart < h.base + HEAP_HEADER + 4 && h.dataStart % 4 == 0
    ensures Create(h, size, flags) == (h.(dataEnd := h.base + size), 0) && h.base + size <= h.dataStart
  {
    var first := CreateFrom(h, size, flags);
    OneMultipleOfFour(first, h.dataStart, h.base + HEAP_HEADER);
  }

  /** A refused creation stores its bounds all the same.  On a heap that is already live this
      keeps the heap sound exactly when nothing lies beyond the new end. */
  lemma RefusedCreateKeepsInvExactly(h: Heap, size: nat, flags: nat)
    requires Inv(h) && h.Usable() && size <= |h.mem| && size < TWO_32 && RefusedLate(h, size)
    ensures Create(h, size, flags).1 == 0
    ensures Inv(Create(h, size, flags).0) <==> RefusalIsSafe(h, size)
  {
    RefusedCreate(h, size, flags);
    CutKeepsInvExactly(h, h.base + size);
  }

  /** It cannot happen to a region whose address is a multiple of 4. */
  lemma AlignedRegionIsNeverRefusedLate(h: Heap, size: nat)
    requires RegionOk(h) && size <= |h.mem| && h.base % 4 == 0
    ensures !RefusedLate(h, size)
  {
    var first := FirstAddress(h, size);
  }

  /** A heap of 0x100 bytes at address 1, whose header ends at the unaligned address 0x4D. */
  function HeapAtOne(mem: seq<byte>): Heap { Heap(1, 0x50, 0x101, 0x50, 0x101, 0, true, [], mem, map[]) }

  lemma CreatedAtOne(h: Heap, size: nat)
    requires RegionOk(h) && h.base == 1 && size == 0x100 <= |h.mem|
    ensures Create(h, size, 0) ==
            (h.(dataStart := 0x50, dataEnd := 0x101, head := 0x50, tail := 0x101, flags := 0, live := true,
                states := [], allocs := map[]), 1)
  {
    var first := CreateFrom(h, size, 0);
    OneMultipleOfFour(first, 0x50, 0x4D);
  }

  lemma RefusedAtOne(h: Heap, size: nat)
    requires RegionOk(h) && h.base == 1 && h.dataStart == 0x50 && size == 0x4D <= |h.mem|
    ensures Create(h, size, 0) == (h.(dataEnd := 0x4E), 0)
  {
    var first := CreateFrom(h, size, 0);
    OneMultipleOfFour(first, 0x50, 0x4D);
  }

  /** It does happen: a live heap at an odd address, refused a second creation, ends with its
      tail beyond its end. */
  lemma RefusedCreateCorrupts(mem: seq<byte>) returns (hs: seq<Heap>)
    requires 0x100 <= |mem| < TWO_32
    ensures |hs| == 3 && Initial(hs[0]) && hs[0].mem == mem
    ensures hs[1] == Create(hs[0], 0x100, 0).0 && Inv(hs[1]) && hs[1].Usable()
    ensures (hs[2], 0) == Create(hs[1], 0x4D, 0) && !Inv(hs[2]) && hs[2].live && hs[2].tail > hs[2].dataEnd
  {
    var h := Heap(1, 0, 0, 0, 0, 0, false, [], mem, map[]);
    CreatedAtOne(h, 0x100);
    RefusedAtOne(HeapAtOne(mem), 0x4D);
    hs := [h, HeapAtOne(mem), HeapAtOne(mem).(dataEnd := 0x4E)];
  }

  lemma WriteKeepsInv(h: Heap, mem: seq<byte>)
    requires Inv(h) && |mem| == |h.mem|
    ensures Inv(h.(mem := mem))
  {
    forall i | 0 <= i < |h.states| ensures StateOk(h.(mem := mem), i) { assert h.live ==> StateOk(h, i); }
  }

  lemma SafeStepKeepsInv(h: Heap, op: Op)
    requires Inv(h) && OpOk(h, op) && !op.OpCreate? && !op.OpAdjust?
    ensures Inv(Step(h, op))
  {
    match op
    case OpAlloc(size, alignment) => AllocKeepsInv(h, size, alignment);
    case OpFreeMode(mode) => FreeModeKeepsInv(h, mode);
    case OpRecord(tag) => RecordKeepsInv(h, tag);
    case OpFreeByState(tag) =>
      if h.Usable() {
        var r := FindState(h.states, tag);
        if r.Some? { RestoredKeepsInv(h, r.value); }
      }
    case OpDestroy =>
    case OpWrite(address, value) => WriteKeepsInv(h, h.mem[address - h.base := value]);
  }

  /** Every operation keeps the heap sound, but for a refused creation and an adjustment, which
      do so exactly when nothing lies beyond the new end. */
  lemma StepKeepsInvExactly(h: Heap, op: Op)
    requires Inv(h) && OpOk(h, op)
    ensures Inv(Step(h, op)) <==> Safe(h, op)
  {
    match op
    case OpCreate(size, flags) =>
      if h.Usable() && RefusedLate(h, size) {
        RefusedCreateKeepsInvExactly(h, size, flags);
      } else {
        CreateKeepsInv(h, size, flags);
      }
    case OpAdjust =>
      if h.Usable() && h.tail == h.dataEnd { AdjustKeepsInvExactly(h); }
    case _ => SafeStepKeepsInv(h, op);
  }

  lemma {:induction false} RunKeepsInv(hs: seq<Heap>, ops: seq<Op>, k: nat)
    requires IsRun(hs, ops) && Inv(hs[0]) && k < |hs|
    ensures Inv(hs[k])
  {
    if k > 0 {
      RunKeepsInv(hs, ops, k - 1);
      StepKeepsInvExactly(hs[k - 1], ops[k - 1]);
    }
  }

  // ---- whole runs ----

  /** In every state of every run head and tail stay in order inside the heap, live allocations
      lie outside the gap between them, aligned as requested and disjoint. */
  lemma RunIsSound(hs: seq<Heap>, ops: seq<Op>, k: nat)
    requires IsRun(hs, ops) && Initial(hs[0]) && k < |hs| && hs[k].live
    ensures var h := hs[k];
            && h.base + HEAP_HEADER <= h.dataStart <= h.head <= h.tail <= h.dataEnd <= h.base + |h.mem|
            && (forall p :: p in h.allocs ==>
                  && Aligned(p, h.allocs[p].alignment) && h.dataStart <= p && p + h.allocs[p].size <= h.dataEnd
                  && (p + h.allocs[p].size <= h.head || h.tail <= p))
            && (forall p, q :: p in h.allocs && q in h.allocs && p < q ==> p + h.allocs[p].size <= q)
  {
    RunKeepsInv(hs, ops, k);
    var h := hs[k];
    assert forall p :: p in h.allocs ==> Inside(h, p, h.head, h.tail);
  }

  lemma RoomIsExact(h: Heap, n: nat, a: nat)
    requires Inv(h) && h.live && IsAlignment(a) && n >= 1
    ensures RoomFrom(h, AlignUp(h.head, a)) >= n <==> exists p :: Holds(h, n, a, p)
  {
    var lowest := LowestAddress(h, a);
    if RoomFrom(h, lowest) >= n { assert Holds(h, n, a, lowest); }
  }

  /** The allocatable-size query is exact for allocations from either end. */
  lemma AllocSucceedsExactly(h: Heap, size: nat, alignment: int, queried: int)
    requires Inv(h) && size < TWO_32 && AlignmentOk(alignment) && AlignmentOk(queried)
    requires NormaliseAlignment(alignment) == NormaliseAlignment(queried)
    ensures Alloc(h, size, alignment).1 != 0 <==> (if size == 0 then 1 else size) <= AllocatableSize(h, queried)
  {
    if h.Usable() {
      var n, a := RealSize(size), NormaliseAlignment(alignment);
      NormaliseAlignmentMeaning(alignment);
      GuardsAreExact(h, n, a, alignment < 0);
      RoomIsExact(h, n, a);
    }
  }

  /** A head allocation takes the lowest aligned address of the gap and leaves the head just
      behind it; a tail allocation takes the highest and becomes the tail. */
  lemma AllocTakesOneEnd(h: Heap, size: nat, alignment: int)
    requires Inv(h) && size < TWO_32 && AlignmentOk(alignment) && Alloc(h, size, alignment).1 != 0
    ensures var (g, r) := Alloc(h, size, alignment);
            var n, a := RealSize(size), NormaliseAlignment(alignment);
            && Holds(h, n, a, r)
            && (forall p: nat :: Holds(h, n, a, p) ==> if alignment < 0 then p <= r else r <= p)
            && g.head == (if alignment < 0 then h.head else r + n)
            && g.tail == (if alignment < 0 then r else h.tail)
  {
    var n, a := RealSize(size), NormaliseAlignment(alignment);
    NormaliseAlignmentMeaning(alignment);
    GuardsAreExact(h, n, a, alignment < 0);
    if alignment < 0 {
      var highest := TailCandidate(h, n, a);
    } else {
      var lowest := LowestAddress(h, a);
    }
  }

  // ---- creating and destroying ----

  /** A heap is created empty over everything from the first multiple of 4 behind its 0x4C-byte
      header to the end of its region, with the flags it was given. */
  lemma CreatedHeap(h: Heap, size: nat, flags: nat)
    requires RegionOk(h) && OpOk(h, OpCreate(size, flags)) && !RefusedLate(h, size)
    ensures var (g, r) := Create(h, size, flags);
            if h.base == 0 || size <= 0x4C then (g, r) == (h, 0)
            else
              && r == h.base && g.live && g.flags == flags && g.states == [] && g.allocs == map[]
              && h.base + 0x4C <= g.dataStart < h.base + 0x4C + 4 && g.dataStart % 4 == 0
              && g.head == g.dataStart && g.tail == g.dataEnd == h.base + size
              && g.mem == h.mem && g.base == h.base
  {
    if h.base != 0 && size > HEAP_HEADER { var first := CreateFrom(h, size, flags); }
  }

  /** A heap that is not live refuses everything and answers 0; destroying a live one makes it so,
      and leaves the guest's memory alone. */
  lemma DeadHeapRefuses(h: Heap, size: nat, alignment: int, mode: nat, tag: nat)
    requires size < TWO_32 && AlignmentOk(alignment)
    ensures var d := Destroy(h).0;
            && d.base == h.base && d.mem == h.mem && Destroy(h).1 == (if h.Usable() then h.base else 0)
            && (!h.Usable() ==> d == h)
            && Alloc(d, size, alignment) == (d, 0) && FreeMode(d, mode) == d && Record(d, tag) == d
            && FreeByState(d, tag) == (d, 0) && Adjust(d) == (d, 0) && Destroy(d) == (d, 0) && AllocatableSize(d, alignment) == 0
  {
  }

  /** A refused allocation changes nothing. */
  lemma RefusedAllocIsIgnored(h: Heap, size: nat, alignment: int)
    requires Inv(h) && size < TWO_32 && AlignmentOk(alignment) && Alloc(h, size, alignment).1 == 0
    ensures Alloc(h, size, alignment).0 == h
  {
    if h.Usable() {
      NormaliseAlignmentMeaning(alignment);
      GuardsAreExact(h, RealSize(size), NormaliseAlignment(alignment), alignment < 0);
    }
  }

  /** Adjusting gives up everything between head and tail, answers with the bytes that remain of the
      region, and refuses while anything is allocated at the tail. */
  lemma AdjustShrinks(h: Heap)
    requires Inv(h) && h.Usable()
    ensures var (g, r) := Adjust(h);
            if h.tail == h.dataEnd then
              && g.dataEnd == g.tail == g.head == h.head && r == h.head - h.base
              && g == h.(dataEnd := g.dataEnd, tail := g.tail)
              && AllocatableSize(g, 1) == 0
            else (g, r) == (h, 0)
  {
    LargePowers();
    NormaliseAlignmentMeaning(1);
    if h.tail == h.dataEnd { AlignUpLeast(h.head, 1); }
  }

  /** Recording pushes one state and keeps all else; freeing by a tag that no record carries, or by
      tag 0 without records, answers 0 and changes nothing. */
  lemma RecordAndMiss(h: Heap, tag: nat)
    requires Inv(h) && h.Usable()
    ensures Record(h, tag) == h.(states := h.states + [State(tag, h.head, h.tail)])
    ensures FreeByState(h, tag).1 == 0 <==> (if tag == 0 then h.states == [] else forall i :: 0 <= i < |h.states| ==> h.states[i].tag != tag)
    ensures FreeByState(h, tag).1 == 0 ==> FreeByState(h, tag).0 == h
  {
    var r := FindState(h.states, tag);
    if r.None? && h.states != [] { assert h.states[0].tag != tag; }
  }

  // ---- freeing one side ----

  /** Only the allocations of the other side are left. */
  ghost predicate LeavesSide(h: Heap, g: Heap, side: Side) {
    && (forall p :: p in g.allocs <==> p in h.allocs && h.allocs[p].side == side)
    && (forall p :: p in g.allocs ==> p in h.allocs && g.allocs[p] == h.allocs[p])
  }

  /** Mode 1 frees the head side, mode 2 the tail side, mode 3 both and with them the recorded
      states, and mode 0 nothing. */
  lemma FreeModesAreSides(h: Heap)
    requires Inv(h) && h.Usable()
    ensures FreeMode(h, 0) == h
    ensures var g := FreeMode(h, 1);
            g == h.(head := h.dataStart, allocs := g.allocs) && LeavesSide(h, g, Tail)
    ensures var g := FreeMode(h, 2);
            g == h.(tail := h.dataEnd, allocs := g.allocs) && LeavesSide(h, g, Head)
    ensures FreeMode(h, 3) == h.(head := h.dataStart, tail := h.dataEnd, states := [], allocs := map[])
  {
    assert FreeMode(h, 0).allocs == h.allocs;
    assert FreeMode(h, 3).allocs == map[];
  }

  /** After the head side was freed, a word-aligned request from the head succeeds, at the start of
      the data, if and only if it ends before the tail; what the tail side holds stays untouched. */
  lemma FreedHeadIsReused(h: Heap, size: nat, alignment: int)
    requires Inv(h) && h.Usable() && size < TWO_32 && 0 <= alignment < 0x8000_0000 && NormaliseAlignment(alignment) == 4
    ensures var (g, r) := Alloc(FreeMode(h, 1), size, alignment);
            && (r != 0 <==> h.dataStart + RealSize(size) <= h.tail)
            && (r != 0 ==> r == h.dataStart && g.tail == h.tail
                           && forall p :: p in h.allocs && h.allocs[p].side.Tail? ==> p in g.allocs && g.allocs[p] == h.allocs[p])
  {
    FreeModesAreSides(h);
    FreeModeKeepsInv(h, 1);
    var f := FreeMode(h, 1);
    var n := RealSize(size);
    LargePowers();
    NormaliseAlignmentMeaning(alignment);
    MultipleOfFour(h.dataStart);
    GuardsAreExact(f, n, 4, false);
    if h.dataStart + n <= h.tail { assert Holds(f, n, 4, h.dataStart); }
    if Alloc(f, size, alignment).1 != 0 {
      AllocTakesOneEnd(f, size, alignment);
      GapIsFree(f, Alloc(f, size, alignment).1, n, 4);
    }
  }

  // ---- freeing everything ----

  predicate KeepsBounds(op: Op) { !op.OpCreate? && !op.OpDestroy? && !op.OpAdjust? }

  lemma StepKeepsBounds(h: Heap, op: Op)
    requires OpOk(h, op) && KeepsBounds(op)
    ensures var g := Step(h, op);
            g == h.(head := g.head, tail := g.tail, states := g.states, mem := g.mem, allocs := g.allocs)
  {
  }

  lemma {:induction false} RunKeepsBounds(hs: seq<Heap>, ops: seq<Op>, k: nat)
    requires IsRun(hs, ops) && hs[0].Usable() && k < |hs| && forall j :: 0 <= j < |ops| ==> KeepsBounds(ops[j])
    ensures var h := hs[k];
            h == hs[0].(head := h.head, tail := h.tail, states := h.states, mem := h.mem, allocs := h.allocs)
  {
    if k > 0 {
      RunKeepsBounds(hs, ops, k - 1);
      StepKeepsBounds(hs[k - 1], ops[k - 1]);
    }
  }

  /** However a heap was used since its creation, freeing both sides leaves it as it was created;
      freeing one side and then the other does so too, except that the recorded states stay. */
  lemma FreeingAllIsFresh(h: Heap, size: nat, flags: nat, hs: seq<Heap>, ops: seq<Op>)
    requires Inv(h) && OpOk(h, OpCreate(size, flags)) && Create(h, size, flags).1 != 0
    requires IsRun(hs, ops) && hs[0] == Create(h, size, flags).0
    requires forall j :: 0 <= j < |ops| ==> KeepsBounds(ops[j])
    ensures var last := hs[|ops|];
            && FreeMode(last, 3) == hs[0].(mem := last.mem)
            && FreeMode(FreeMode(last, 1), 2) == hs[0].(mem := last.mem, states := last.states)
            && FreeMode(FreeMode(last, 2), 1) == hs[0].(mem := last.mem, states := last.states)
  {
    CreateKeepsInv(h, size, flags);
    RunKeepsBounds(hs, ops, |ops|);
  }

  // ---- recording and restoring ----

  predicate FreesByMode(op: Op) { op.OpFreeMode? }

  /** The allocations that record `n` protects. */
  function Protected(h: Heap, n: nat): map<nat, Allocation> {
    map p | p in h.allocs && h.allocs[p].depth <= n :: h.allocs[p]
  }

  /** `g` still has record `n` where `h` had it, and no allocation it protects was added or altered. */
  predicate StillProtects(h: Heap, g: Heap, n: nat)
    requires |h.states| > n && |g.states| > n
  {
    && g.Usable() && g.base == h.base && |g.mem| == |h.mem|
    && g.states[..n + 1] == h.states[..n + 1]
    && (forall p :: p in Protected(g, n) ==> p in h.allocs && g.allocs[p] == h.allocs[p])
  }

  lemma TakenProtects(h: Heap, c: nat, m: nat, a: nat, fromTail: bool, n: nat)
    requires h.Usable() && |h.states| > n && c !in h.allocs
    ensures var g := AllocAt(h, c, m, a, fromTail);
            g.states == h.states && StillProtects(h, g, n) && Protected(g, n) == Protected(h, n)
  {
  }

  lemma AllocProtects(h: Heap, size: nat, alignment: int, n: nat)
    requires Inv(h) && h.Usable() && |h.states| > n && size < TWO_32 && AlignmentOk(alignment)
    ensures var g := Alloc(h, size, alignment).0;
            g.states == h.states && StillProtects(h, g, n) && Protected(g, n) == Protected(h, n)
  {
    var m, a := RealSize(size), NormaliseAlignment(alignment);
    NormaliseAlignmentMeaning(alignment);
    GuardsAreExact(h, m, a, alignment < 0);
    var c := Candidate(h, m, a, alignment < 0);
    if Accepts(h, m, c, alignment < 0) {
      GapIsFree(h, c, m, a);
      TakenProtects(h, c, m, a, alignment < 0, n);
    }
  }

  lemma RestoreProtects(h: Heap, i: nat, n: nat)
    requires h.Usable() && n < i < |h.states|
    ensures StillProtects(h, Restored(h, i), n) && Protected(Restored(h, i), n) == Protected(h, n)
  {
  }

  lemma StepProtects(h: Heap, op: Op, n: nat)
    requires Inv(h) && h.Usable() && OpOk(h, op) && |h.states| > n && |Step(h, op).states| > n
    ensures StillProtects(h, Step(h, op), n)
    ensures !FreesByMode(op) ==> Protected(Step(h, op), n) == Protected(h, n)
  {
    match op
    case OpAlloc(size, alignment) => AllocProtects(h, size, alignment, n);
    case OpFreeByState(tag) =>
      var r := FindState(h.states, tag);
      if r.Some? { RestoreProtects(h, r.value, n); }
    case _ =>
  }

  /** `hs` never drops below record `n`: it is on the stack in every state. */
  predicate KeepsRecord(hs: seq<Heap>, n: nat) { forall k :: 0 <= k < |hs| ==> |hs[k].states| > n }

  lemma ProtectsOn(h: Heap, g: Heap, f: Heap, n: nat)
    requires |h.states| > n && |g.states| > n && |f.states| > n
    requires StillProtects(h, g, n) && StillProtects(g, f, n)
    ensures StillProtects(h, f, n)
  {
  }

  lemma RunStepProtects(hs: seq<Heap>, ops: seq<Op>, n: nat, k: nat)
    requires IsRun(hs, ops) && KeepsRecord(hs, n) && k < |ops| && Inv(hs[k]) && hs[k].Usable()
    ensures |hs[k].states| > n && |hs[k + 1].states| > n && StillProtects(hs[k], hs[k + 1], n)
    ensures !FreesByMode(ops[k]) ==> Protected(hs[k + 1], n) == Protected(hs[k], n)
  {
    assert |hs[k].states| > n && |hs[k + 1].states| > n;
    StepProtects(hs[k], ops[k], n);
  }

  lemma {:induction false} RunProtects(hs: seq<Heap>, ops: seq<Op>, n: nat, k: nat)
    requires IsRun(hs, ops) && Inv(hs[0]) && hs[0].Usable() && KeepsRecord(hs, n) && k < |hs|
    ensures Inv(hs[k]) && StillProtects(hs[0], hs[k], n)
  {
    RunKeepsInv(hs, ops, k);
    if k > 0 {
      RunProtects(hs, ops, n, k - 1);
      RunStepProtects(hs, ops, n, k - 1);
      ProtectsOn(hs[0], hs[k - 1], hs[k], n);
    }
  }

  lemma {:induction false} RunLosesNothing(hs: seq<Heap>, ops: seq<Op>, n: nat, k: nat)
    requires IsRun(hs, ops) && Inv(hs[0]) && hs[0].Usable() && KeepsRecord(hs, n) && k < |hs|
    requires forall j :: 0 <= j < k ==> !FreesByMode(ops[j])
    ensures Protected(hs[k], n) == Protected(hs[0], n)
  {
    if k > 0 {
      RunProtects(hs, ops, n, k - 1);
      RunLosesNothing(hs, ops, n, k - 1);
      RunStepProtects(hs, ops, n, k - 1);
    }
  }

  /** Record, then do anything that leaves that record on the stack, then free by the state it is:
      head, tail and the state stack come back exactly, and nothing but what the free modes
      explicitly released in between is missing from the live allocations. */
  lemma RestoreUndoesRun(h: Heap, tag: nat, hs: seq<Heap>, ops: seq<Op>, chosen: nat)
    requires Inv(h) && h.Usable() && IsRun(hs, ops) && hs[0] == Record(h, tag) && KeepsRecord(hs, |h.states|)
    requires FindState(hs[|ops|].states, chosen) == Some(|h.states|)
    ensures var (g, r) := FreeByState(hs[|ops|], chosen);
            && r == 1 && g.head == h.head && g.tail == h.tail && g.states == h.states
            && (forall p :: p in g.allocs ==> p in h.allocs && g.allocs[p] == h.allocs[p])
            && ((forall j :: 0 <= j < |ops| ==> !FreesByMode(ops[j])) ==> g.allocs == h.allocs)
  {
    RecordKeepsInv(h, tag);
    var n := |h.states|;
    RunProtects(hs, ops, n, |ops|);
    if forall j :: 0 <= j < |ops| ==> !FreesByMode(ops[j]) { RunLosesNothing(hs, ops, n, |ops|); }
    var last := hs[|ops|];
    assert last.states[n] == last.states[..n + 1][n] == State(tag, h.head, h.tail);
    assert last.states[..n] == last.states[..n + 1][..n] == h.states;
    assert Protected(hs[0], n) == h.allocs;
    assert Restored(last, n).allocs == Protected(last, n);
  }

  /** When the nesting is complete, tag 0 chooses the record itself; so does its own tag, as long
      as no record above it carries the same one. */
  lemma NestedRecordIsChosen(hs: seq<Heap>, ops: seq<Op>, h: Heap, tag: nat, chosen: nat)
    requires Inv(h) && h.Usable() && IsRun(hs, ops) && hs[0] == Record(h, tag) && KeepsRecord(hs, |h.states|)
    ensures var n := |h.states|;
            var last := hs[|ops|].states;
            FindState(last, chosen) == Some(n) <==>
              if chosen == 0 then |last| == n + 1
              else tag == chosen && forall j :: n < j < |last| ==> last[j].tag != chosen
  {
    RecordKeepsInv(h, tag);
    var n := |h.states|;
    RunProtects(hs, ops, n, |ops|);
    var last := hs[|ops|].states;
    assert last[n] == last[..n + 1][n] == State(tag, h.head, h.tail);
    var r := FindState(last, chosen);
    assert r.Some? ==> r.value < |last|;
  }

  // ---- memory ----

  /** With the zero-allocated flag an allocation clears all of its own bytes; with or without it
      no other byte changes, and no live allocation shares one with it. */
  lemma AllocWritesOnlyItsPayload(h: Heap, size: nat, alignment: int)
    requires Inv(h) && size < TWO_32 && AlignmentOk(alignment) && Alloc(h, size, alignment).1 != 0
    ensures var (g, r) := Alloc(h, size, alignment);
            var n := RealSize(size);
            WritesOnly(h.mem, g.mem, h.base, r, n, h.flags) && forall p :: p in h.allocs ==> p + h.allocs[p].size <= r || r + n <= p
  {
    var n, a := RealSize(size), NormaliseAlignment(alignment);
    NormaliseAlignmentMeaning(alignment);
    GuardsAreExact(h, n, a, alignment < 0);
    GapIsFree(h, Candidate(h, n, a, alignment < 0), n, a);
  }

  /** The step stores nothing of the game's into the `n` bytes at `p`. */
  predicate LeavesAlone(op: Op, p: nat, n: nat) { op.OpWrite? ==> !(p <= op.address < p + n) }

  predicate SameBytes(h: Heap, g: Heap, p: nat, n: nat) {
    && g.base == h.base && |g.mem| == |h.mem|
    && forall k :: 0 <= k < |h.mem| && p <= h.base + k < p + n ==> g.mem[k] == h.mem[k]
  }

  lemma StepPreservesBytes(h: Heap, op: Op, p: nat)
    requires Inv(h) && OpOk(h, op) && p in h.allocs && LeavesAlone(op, p, h.allocs[p].size)
    ensures SameBytes(h, Step(h, op), p, h.allocs[p].size)
  {
    if op.OpAlloc? && Alloc(h, op.size, op.alignment).1 != 0 {
      AllocWritesOnlyItsPayload(h, op.size, op.alignment);
    }
  }

  lemma SameBytesOn(h: Heap, g: Heap, f: Heap, p: nat, n: nat)
    requires SameBytes(h, g, p, n) && SameBytes(g, f, p, n)
    ensures SameBytes(h, f, p, n)
  {
  }

  /** An allocation that stays live keeps every byte the game does not write itself. */
  lemma {:induction false} RunPreservesBytes(hs: seq<Heap>, ops: seq<Op>, p: nat, x: Allocation, k: nat)
    requires IsRun(hs, ops) && Inv(hs[0]) && k < |hs|
    requires forall j :: 0 <= j < |hs| ==> p in hs[j].allocs && hs[j].allocs[p] == x
    requires forall j :: 0 <= j < |ops| ==> LeavesAlone(ops[j], p, x.size)
    ensures SameBytes(hs[0], hs[k], p, x.size)
  {
    if k > 0 {
      RunPreservesBytes(hs, ops, p, x, k - 1);
      RunKeepsInv(hs, ops, k - 1);
      StepPreservesBytes(hs[k - 1], ops[k - 1], p);
      SameBytesOn(hs[0], hs[k - 1], hs[k], p, x.size);
    }
  }

  /** Between a record and the restore to it, an allocation live at the record keeps every byte as
      long as no free by mode intervenes and the game does not write to it. */
  lemma RestoreKeepsBytes(h: Heap, tag: nat, hs: seq<Heap>, ops: seq<Op>, chosen: nat, p: nat)
    requires Inv(h) && h.Usable() && IsRun(hs, ops) && hs[0] == Record(h, tag) && KeepsRecord(hs, |h.states|)
    requires p in h.allocs
    requires forall j :: 0 <= j < |ops| ==> !FreesByMode(ops[j]) && LeavesAlone(ops[j], p, h.allocs[p].size)
    ensures SameBytes(h, FreeByState(hs[|ops|], chosen).0, p, h.allocs[p].size)
  {
    RecordKeepsInv(h, tag);
    var n := |h.states|;
    forall j | 0 <= j < |hs| ensures p in hs[j].allocs && hs[j].allocs[p] == h.allocs[p] {
      RunLosesNothing(hs, ops, n, j);
      assert p in Protected(hs[0], n);
    }
    RunPreservesBytes(hs, ops, p, h.allocs[p], |ops|);
  }
}
