/** The frame heap as a state machine: a two-ended stack with a stack of recorded states. */
module FrmHeapModel {
  import opened Machine
  import opened Alignment
  import opened Wrappers
  import opened GuestMemory

  const HEAP_HEADER: nat := 0x4C

  datatype Side = Head | Tail

  datatype State = State(tag: nat, head: nat, tail: nat)

  /** A live allocation; `depth` is the number of recorded states there were when it was made. */
  datatype Allocation = Allocation(size: nat, alignment: nat, side: Side, depth: nat)

  /** `mem` holds the bytes of the region from address `base` on, and `allocs` the live
      allocations by address. */
  datatype Heap = Heap(base: nat, dataStart: nat, dataEnd: nat, head: nat, tail: nat, flags: nat, live: bool,
                       states: seq<State>, mem: seq<byte>, allocs: map<nat, Allocation>) {
    predicate Usable() { base != 0 && live }
  }

  // ---- the operations ----

  function Create(h: Heap, size: nat, flags: nat): (Heap, nat) {
    if h.base == 0 || size <= HEAP_HEADER then (h, 0)
    else
      var g := h.(dataStart := AlignUp(U64(h.base + HEAP_HEADER), 4), dataEnd := U64(h.base + size));
      if g.dataStart >= g.dataEnd then (g, 0)
      else (g.(head := g.dataStart, tail := g.dataEnd, flags := flags, live := true,
               states := [], allocs := map[]), h.base)
  }

  function Destroy(h: Heap): (Heap, nat) {
    if !h.Usable() then (h, 0) else (h.(live := false, states := [], allocs := map[]), h.base)
  }

  /** The address an allocation of `n` bytes would get. */
  function Candidate(h: Heap, n: nat, a: nat, fromTail: bool): nat {
    if fromTail then AlignDown(U64(h.tail - n), a) else AlignUp(h.head, a)
  }

  /** The guards of the allocator; both sums may have wrapped. */
  predicate Accepts(h: Heap, n: nat, c: nat, fromTail: bool) {
    if fromTail then h.head <= c <= h.tail else U64(c + n) <= h.tail && h.head <= c
  }

  function AllocAt(h: Heap, c: nat, n: nat, a: nat, fromTail: bool): Heap {
    h.(head := if fromTail then h.head else U64(c + n),
       tail := if fromTail then c else h.tail,
       mem := if h.flags % 2 == ZERO_ALLOCATED then ZeroFilled(h.mem, h.base, c, n) else h.mem,
       allocs := h.allocs[c := Allocation(n, a, if fromTail then Tail else Head, |h.states|)])
  }

  function Alloc(h: Heap, size: nat, alignment: int): (Heap, nat) {
    if !h.Usable() then (h, 0)
    else
      var n := RealSize(size);
      var a := NormaliseAlignment(alignment);
      var c := Candidate(h, n, a, alignment < 0);
      if Accepts(h, n, c, alignment < 0) then (AllocAt(h, c, n, a, alignment < 0), c) else (h, 0)
  }

  function RoomFrom(h: Heap, start: nat): nat { if start >= h.tail then 0 else U32(h.tail - start) }

  function AllocatableSize(h: Heap, alignment: int): nat {
    if h.Usable() then RoomFrom(h, AlignUp(h.head, NormaliseAlignment(alignment))) else 0
  }

  /** Bit 0 of the mode frees the head side, bit 1 the tail side; freeing both forgets the states. */
  predicate FreesHead(mode: nat) { mode % 2 == 1 }

  predicate FreesTail(mode: nat) { mode / 2 % 2 == 1 }

  predicate FreesSide(mode: nat, side: Side) { if side.Head? then FreesHead(mode) else FreesTail(mode) }

  function FreeMode(h: Heap, mode: nat): Heap {
    if !h.Usable() then h
    else
      var all := FreesHead(mode) && FreesTail(mode);
      h.(head := if FreesHead(mode) then h.dataStart else h.head,
         tail := if FreesTail(mode) then h.dataEnd else h.tail,
         states := if all then [] else h.states,
         allocs := map p | p in h.allocs && !FreesSide(mode, h.allocs[p].side) :: h.allocs[p])
  }

  function Record(h: Heap, tag: nat): Heap {
    if !h.Usable() then h
    else h.(states := h.states + [State(tag, h.head, h.tail)])
  }

  /** A tag selects the latest record that carries it, and tag 0 the latest of all. */
  function FindState(states: seq<State>, tag: nat): (r: Option<nat>)
    ensures r.Some? ==> r.value < |states| && (tag == 0 || states[r.value].tag == tag)
    ensures forall j :: 0 <= j < |states| && (r.Some? ==> r.value < j) ==> tag != 0 && states[j].tag != tag
  {
    if states == [] then None
    else
      var last := |states| - 1;
      if tag == 0 || states[last].tag == tag then Some(last) else FindState(states[..last], tag)
  }

  /** Back to record `i`: it and everything above it goes, and so does every allocation made since. */
  function Restored(h: Heap, i: nat): Heap
    requires i < |h.states|
  {
    h.(head := h.states[i].head, tail := h.states[i].tail, states := h.states[..i],
       allocs := map p | p in h.allocs && h.allocs[p].depth <= i :: h.allocs[p])
  }

  function FreeByState(h: Heap, tag: nat): (Heap, nat) {
    if !h.Usable() then (h, 0)
    else match FindState(h.states, tag)
         case None => (h, 0)
         case Some(i) => (Restored(h, i), 1)
  }

  function Adjust(h: Heap): (Heap, nat) {
    if !h.Usable() || h.tail != h.dataEnd then (h, 0)
    else (h.(dataEnd := h.head, tail := h.head), U32(h.head - h.base))
  }

  // ---- runs ----

  datatype Op =
    | OpCreate(size: nat, flags: nat)
    | OpDestroy
    | OpAlloc(size: nat, alignment: int)
    | OpFreeMode(mode: nat)
    | OpRecord(tag: nat)
    | OpFreeByState(tag: nat)
    | OpAdjust
    | OpWrite(address: nat, value: byte)

  /** The region is longer than its header, but not by enough to align the start of the data. */
  predicate RefusedLate(h: Heap, size: nat) {
    size > HEAP_HEADER && AlignUp(U64(h.base + HEAP_HEADER), 4) >= U64(h.base + size)
  }

  /** No recorded state reaches beyond what an adjusted heap would keep. */
  predicate StatesBelow(h: Heap, limit: nat) { forall i :: 0 <= i < |h.states| ==> h.states[i].tail <= limit }

  /** Arguments of their C++ types; a region of `size` bytes really exists, and the alignment can be negated. */
  predicate OpOk(h: Heap, op: Op) {
    match op
    case OpCreate(size, _) => size <= |h.mem| && size < TWO_32
    case OpAlloc(size, alignment) => size < TWO_32 && AlignmentOk(alignment)
    case OpWrite(address, _) => h.base <= address < h.base + |h.mem|
    case _ => true
  }

  /** Nothing of the heap lies beyond the end that a refused creation has stored. */
  predicate RefusalIsSafe(h: Heap, size: nat) {
    h.tail <= h.base + size && StatesBelow(h, h.base + size) && h.allocs == map[]
  }

  /** What the two operations that can break a live heap must find (see `StepKeepsInvExactly`). */
  predicate Safe(h: Heap, op: Op) {
    match op
    case OpCreate(size, _) => h.Usable() && RefusedLate(h, size) ==> RefusalIsSafe(h, size)
    case OpAdjust => h.Usable() && h.tail == h.dataEnd ==> StatesBelow(h, h.head)
    case _ => true
  }

  function Step(h: Heap, op: Op): Heap
    requires OpOk(h, op)
  {
    match op
    case OpCreate(size, flags) => Create(h, size, flags).0
    case OpDestroy => Destroy(h).0
    case OpAlloc(size, alignment) => Alloc(h, size, alignment).0
    case OpFreeMode(mode) => FreeMode(h, mode)
    case OpRecord(tag) => Record(h, tag)
    case OpFreeByState(tag) => FreeByState(h, tag).0
    case OpAdjust => Adjust(h).0
    case OpWrite(address, value) => h.(mem := h.mem[address - h.base := value])
  }

  predicate IsRun(hs: seq<Heap>, ops: seq<Op>) {
    && |hs| == |ops| + 1
    && forall k :: 0 <= k < |ops| ==> OpOk(hs[k], ops[k]) && Safe(hs[k], ops[k]) && hs[k + 1] == Step(hs[k], ops[k])
  }

  // ---- the invariant ----

  /** Room above the region for the largest size and alignment, so that `head` can be rounded and extended. */
  predicate RegionOk(h: Heap) { h.base + |h.mem| + MAX_ALIGNMENT + TWO_32 <= TWO_64 }

  predicate Initial(h: Heap) { !h.live && h.allocs == map[] && h.states == [] && RegionOk(h) }

  /** Head-side allocations end by `head`, tail-side ones start from `tail`. */
  predicate Inside(h: Heap, p: nat, head: nat, tail: nat)
    requires p in h.allocs
  {
    if h.allocs[p].side.Head? then h.dataStart <= p && p + h.allocs[p].size <= head
    else tail <= p && p + h.allocs[p].size <= h.dataEnd
  }

  ghost predicate AllocsOk(h: Heap) {
    && (forall p :: p in h.allocs ==>
          && h.allocs[p].size >= 1 && Aligned(p, h.allocs[p].alignment)
          && h.allocs[p].depth <= |h.states| && Inside(h, p, h.head, h.tail))
    && (forall p, q :: p in h.allocs && q in h.allocs && p < q ==> p + h.allocs[p].size <= q)
  }

  ghost predicate StateOk(h: Heap, i: nat)
    requires i < |h.states|
  {
    && h.dataStart <= h.states[i].head <= h.states[i].tail <= h.dataEnd
    && forall p :: p in h.allocs && h.allocs[p].depth <= i ==> Inside(h, p, h.states[i].head, h.states[i].tail)
  }

  ghost predicate StatesOk(h: Heap) { forall i :: 0 <= i < |h.states| ==> StateOk(h, i) }

  ghost predicate Inv(h: Heap) {
    && RegionOk(h)
    && (!h.live ==> h.allocs == map[] && h.states == [])
    && (h.live ==>
          && 0 < h.base && h.base + HEAP_HEADER <= h.dataStart <= h.head <= h.tail <= h.dataEnd <= h.base + |h.mem|
          && h.dataStart < h.base + HEAP_HEADER + 4 && h.dataStart % 4 == 0
          && h.dataEnd - h.base < TWO_32
          && AllocsOk(h) && StatesOk(h))
  }

  // ---- the allocator's arithmetic ----

  /** The allocatable-size query against an aligned start. */
  lemma LowestAddress(h: Heap, a: nat) returns (lowest: nat)
    requires RegionOk(h) && h.tail <= h.base + |h.mem| && h.head <= h.tail && IsAlignment(a)
    ensures lowest == AlignUp(h.head, a) && Aligned(lowest, a) && h.head <= lowest < h.head + a
    ensures forall p: nat :: Aligned(p, a) && h.head <= p ==> lowest <= p
  {
    lowest := AlignUp(h.head, a);
    AlignUpLeast(h.head, a);
  }

  /** An aligned range of `n` bytes at `p` is free. */
  predicate Holds(h: Heap, n: nat, a: nat, p: nat) { Aligned(p, a) && h.head <= p && p + n <= h.tail }

  lemma HeadGuard(h: Heap, n: nat, a: nat)
    requires RegionOk(h) && h.tail <= h.base + |h.mem| && h.head <= h.tail && IsAlignment(a) && n < TWO_32
    ensures var c := Candidate(h, n, a, false);
            && (Accepts(h, n, c, false) ==> Holds(h, n, a, c) && U64(c + n) == c + n)
            && ((exists p :: Holds(h, n, a, p)) ==> Accepts(h, n, c, false))
  {
    var lowest := LowestAddress(h, a);
    assert U64(lowest + n) == lowest + n;
  }

  lemma TailCandidate(h: Heap, n: nat, a: nat) returns (c: nat)
    requires n <= h.tail < TWO_64 && IsAlignment(a)
    ensures c == Candidate(h, n, a, true) && Aligned(c, a) && c + n <= h.tail
    ensures forall p: nat :: Aligned(p, a) && p + n <= h.tail ==> p <= c
  {
    var v := h.tail - n;
    assert U64(v) == v;
    c := AlignDown(v, a);
    AlignDownGreatest(v, a);
  }

  /** The tail guard rejects a `tail - size` that wrapped below zero. */
  lemma WrappedCandidate(h: Heap, n: nat, a: nat) returns (c: nat)
    requires h.tail < n < TWO_32 && h.tail + MAX_ALIGNMENT + TWO_32 <= TWO_64 && IsAlignment(a)
    ensures c == Candidate(h, n, a, true) && c > h.tail
  {
    var v := h.tail - n + TWO_64;
    assert U64(h.tail - n) == v;
    c := AlignDown(v, a);
    AlignDownGreatest(v, a);
  }

  lemma TailGuard(h: Heap, n: nat, a: nat)
    requires RegionOk(h) && h.tail <= h.base + |h.mem| && h.head <= h.tail && IsAlignment(a) && n < TWO_32
    ensures var c := Candidate(h, n, a, true);
            && (Accepts(h, n, c, true) ==> Holds(h, n, a, c))
            && ((exists p :: Holds(h, n, a, p)) ==> Accepts(h, n, c, true))
  {
    if h.tail >= n {
      var c := TailCandidate(h, n, a);
    } else {
      var c := WrappedCandidate(h, n, a);
    }
  }

  lemma GuardsAreExact(h: Heap, n: nat, a: nat, fromTail: bool)
    requires RegionOk(h) && h.tail <= h.base + |h.mem| && h.head <= h.tail && IsAlignment(a) && n < TWO_32
    ensures var c := Candidate(h, n, a, fromTail);
            && (Accepts(h, n, c, fromTail) <==> exists p :: Holds(h, n, a, p))
            && (Accepts(h, n, c, fromTail) ==> Holds(h, n, a, c) && (!fromTail ==> U64(c + n) == c + n))
  {
    if fromTail { TailGuard(h, n, a); } else { HeadGuard(h, n, a); }
  }
}
