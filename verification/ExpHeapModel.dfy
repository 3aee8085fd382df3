/** The expanded heap as a state machine: one host record, the guest region it manages, and the
    requests that are still live.  Every property of whole runs is proved here. */
module ExpHeapModel {
  import opened Machine
  import opened Alignment
  import opened GuestMemory
  import opened ExpBlocks

  const HEAP_HEADER: nat := 0x54
  const FIRST_FREE: nat := 0

  datatype Request = Request(size: nat, alignment: nat)

  /** `mem` holds the bytes of the guest region that starts at address `base`; `requests` maps
      each live payload to what was asked for. */
  datatype Heap = Heap(base: nat, dataStart: nat, dataEnd: nat, flags: nat, mode: nat, live: bool,
                       blocks: seq<Block>, mem: seq<byte>, requests: map<nat, Request>) {
    predicate Usable() { base != 0 && live }
  }

  // ---- the operations ----

  function Create(h: Heap, size: nat, flags: nat): (Heap, nat) {
    if h.base == 0 || size <= HEAP_HEADER + BLOCK_HEADER then (h, 0)
    else
      var dataStart := AlignUp(U64(h.base + HEAP_HEADER), 4);
      var dataEnd := U64(h.base + size);
      var g := h.(dataStart := dataStart, dataEnd := dataEnd);
      if dataStart >= dataEnd then (g, 0)
      else (g.(flags := flags, mode := FIRST_FREE, live := true,
               blocks := [FreeBlock(dataStart, U32(dataEnd - dataStart))], requests := map[]), h.base)
  }

  function Destroy(h: Heap): (Heap, nat) {
    if !h.Usable() then (h, 0) else (h.(live := false, blocks := [], requests := map[]), h.base)
  }

  function AllocAt(h: Heap, i: nat, p: Placement, n: nat, a: nat, fromBottom: bool): Heap
    requires i < |h.blocks|
  {
    h.(blocks := Splice(h.blocks, i, Carve(h.blocks[i], p, n, fromBottom)),
       mem := if h.flags % 2 == ZERO_ALLOCATED then ZeroFilled(h.mem, h.base, p.payload, n) else h.mem,
       requests := h.requests[p.payload := Request(n, a)])
  }

  function Alloc(h: Heap, size: nat, alignment: int): (Heap, nat) {
    if !h.Usable() then (h, 0)
    else
      var n := RealSize(size);
      var a := NormaliseAlignment(alignment);
      match Choose(Rooms(h.blocks, a), n, h.mode == FIRST_FREE)
      case None => (h, 0)
      case Some(i) =>
        match Place(h.blocks[i], n, a, alignment < 0)
        case None => (h, 0)
        case Some(p) => (AllocAt(h, i, p, n, a, alignment < 0), p.payload)
  }

  function Free(h: Heap, ptr: nat): Heap {
    if !h.Usable() || ptr == 0 then h
    else match FindUsed(h.blocks, ptr)
         case None => h
         case Some(i) => h.(blocks := FreeAt(h.blocks, i), requests := h.requests - {ptr})
  }

  function SetMode(h: Heap, mode: int): (Heap, nat) {
    if !h.Usable() then (h, FIRST_FREE) else (h.(mode := mode % 0x100), h.mode)
  }

  function TotalFreeSize(h: Heap): nat { if h.Usable() then TotalFree(h.blocks) else 0 }

  function AllocatableSize(h: Heap, alignment: int): nat {
    if h.Usable() then MaxRoom(Rooms(h.blocks, NormaliseAlignment(alignment))) else 0
  }

  // ---- runs ----

  /** `OpWrite` is the game storing a byte of its own. */
  datatype Op =
    | OpCreate(size: nat, flags: nat)
    | OpDestroy
    | OpAlloc(size: nat, alignment: int)
    | OpFree(ptr: nat)
    | OpSetMode(mode: int)
    | OpWrite(address: nat, value: byte)

  /** Arguments of their C++ types; a region of `size` bytes really exists, and the alignment can be negated. */
  predicate OpOk(h: Heap, op: Op) {
    match op
    case OpCreate(size, _) => size <= |h.mem| && size < TWO_32
    case OpAlloc(size, alignment) => size < TWO_32 && AlignmentOk(alignment)
    case OpWrite(address, _) => h.base <= address < h.base + |h.mem|
    case _ => true
  }

  function Step(h: Heap, op: Op): Heap
    requires OpOk(h, op)
  {
    match op
    case OpCreate(size, flags) => Create(h, size, flags).0
    case OpDestroy => Destroy(h).0
    case OpAlloc(size, alignment) => Alloc(h, size, alignment).0
    case OpFree(ptr) => Free(h, ptr)
    case OpSetMode(mode) => SetMode(h, mode).0
    case OpWrite(address, value) => h.(mem := h.mem[address - h.base := value])
  }

  /** `hs` is the sequence of states a run passes through while performing `ops`. */
  predicate IsRun(hs: seq<Heap>, ops: seq<Op>) {
    && |hs| == |ops| + 1
    && forall k :: 0 <= k < |ops| ==> OpOk(hs[k], ops[k]) && hs[k + 1] == Step(hs[k], ops[k])
  }

  predicate RegionOk(h: Heap) { h.base + |h.mem| + BLOCK_HEADER + MAX_ALIGNMENT <= TWO_64 }

  /** A record before its first creation, over a region the address space has room for. */
  predicate Initial(h: Heap) {
    !h.live && h.requests == map[] && RegionOk(h)
  }

  predicate Honours(u: Block, requests: map<nat, Request>) {
    && u.payload in requests
    && requests[u.payload].size == u.payloadSize
    && Aligned(u.payload, requests[u.payload].alignment)
  }

  /** The used blocks are exactly the live requests, each at an address of the alignment asked for. */
  ghost predicate Matches(us: seq<Block>, requests: map<nat, Request>) {
    && (forall u :: u in us ==> Honours(u, requests))
    && (forall p :: p in requests ==> exists u :: u in us && u.payload == p)
  }

  ghost predicate Inv(h: Heap) {
    && RegionOk(h)
    && (!h.live ==> h.requests == map[])
    && (h.live ==>
          && 0 < h.base && h.base + HEAP_HEADER <= h.dataStart && h.dataEnd <= h.base + |h.mem|
          && WellFormed(h.blocks, h.dataStart, h.dataEnd)
          && Matches(Used(h.blocks), h.requests))
  }

  // ---- used blocks are apart ----

  lemma {:induction false} UsedInside(bs: seq<Block>, lo: nat, hi: nat, i: nat)
    requires Tiles(bs, lo, hi) && BlocksOk(bs) && i < |Used(bs)|
    ensures lo <= Used(bs)[i].start && Used(bs)[i].End() <= hi
    ensures Used(bs)[i].used && BlockOk(Used(bs)[i])
  {
    TilesBounds(bs[1..], lo + bs[0].size, hi);
    if !bs[0].used {
      UsedInside(bs[1..], lo + bs[0].size, hi, i);
    } else if i > 0 {
      UsedInside(bs[1..], lo + bs[0].size, hi, i - 1);
    }
  }

  lemma {:induction false} UsedAreApart(bs: seq<Block>, lo: nat, hi: nat, i: nat, j: nat)
    requires Tiles(bs, lo, hi) && BlocksOk(bs) && i < j < |Used(bs)|
    ensures lo <= Used(bs)[i].start && Used(bs)[i].End() <= Used(bs)[j].start && Used(bs)[j].End() <= hi
  {
    TilesBounds(bs, lo, hi);
    var rest := Used(bs[1..]);
    TilesSplit(bs, 0, lo, hi);
    if !bs[0].used {
      UsedAreApart(bs[1..], lo + bs[0].size, hi, i, j);
    } else if i == 0 {
      UsedInside(bs[1..], lo + bs[0].size, hi, j - 1);
    } else {
      UsedAreApart(bs[1..], lo + bs[0].size, hi, i - 1, j - 1);
    }
  }

  predicate PayloadsDiffer(us: seq<Block>) {
    forall i, j :: 0 <= i < j < |us| ==> us[i].payload != us[j].payload
  }

  lemma {:induction false} PayloadsAreUnique(bs: seq<Block>, lo: nat, hi: nat)
    requires Tiles(bs, lo, hi) && BlocksOk(bs)
    ensures PayloadsDiffer(Used(bs))
  {
    forall i, j | 0 <= i < j < |Used(bs)| ensures Used(bs)[i].payload != Used(bs)[j].payload {
      UsedAreApart(bs, lo, hi, i, j);
      UsedInside(bs, lo, hi, i);
      UsedInside(bs, lo, hi, j);
    }
  }

  // ---- every step keeps the invariant ----

  lemma FirstAddress(v: nat) returns (ds: nat)
    requires v + MAX_ALIGNMENT < TWO_64
    ensures ds == AlignUp(U64(v), 4) && v <= ds < v + 4 && ds % 4 == 0
  {
    assert U64(v) == v;
    ds := NextMultipleOfFour(v);
  }

  lemma CreateKeepsInv(h: Heap, size: nat, flags: nat)
    requires Inv(h) && OpOk(h, OpCreate(size, flags))
    ensures Inv(Create(h, size, flags).0)
    ensures Create(h, size, flags).1 != 0 <==> h.base != 0 && size > HEAP_HEADER + BLOCK_HEADER
  {
    if h.base != 0 && size > HEAP_HEADER + BLOCK_HEADER {
      var ds := FirstAddress(h.base + HEAP_HEADER);
      var b := FreeBlock(ds, h.base + size - ds);
      assert Create(h, size, flags) == (h.(dataStart := ds, dataEnd := h.base + size, flags := flags, mode := FIRST_FREE,
                                           live := true, blocks := [b], requests := map[]), h.base);
      Single(b);
    }
  }

  /** `g` is `h` after carving a payload of `n` bytes at `r` out of free block `i`. */
  ghost predicate AllocatedIn(h: Heap, g: Heap, r: nat, n: nat, a: nat, i: nat) {
    && i < |h.blocks| && !h.blocks[i].used
    && h.blocks[i].start + BLOCK_HEADER <= r && r + n <= h.blocks[i].End()
    && Aligned(r, a)
    && Tiles(g.blocks, h.dataStart, h.dataEnd) && BlocksOk(g.blocks) && NoFreeNeighbours(g.blocks)
    && (exists u: Block :: u.used && u.payload == r && u.payloadSize == n
                    && Used(g.blocks) == Used(h.blocks[..i]) + [u] + Used(h.blocks[i + 1..]))
    && Used(h.blocks) == Used(h.blocks[..i]) + Used(h.blocks[i + 1..])
    && n + BLOCK_HEADER <= TotalFree(h.blocks) - TotalFree(g.blocks) <= n + BLOCK_HEADER + (a - 1) + (MIN_SPLIT - 1)
    && g == h.(blocks := g.blocks, mem := g.mem, requests := h.requests[r := Request(n, a)])
    && g.mem == (if h.flags % 2 == ZERO_ALLOCATED then ZeroFilled(h.mem, h.base, r, n) else h.mem)
  }

  lemma SplicedUsed(bs: seq<Block>, i: nat, r: seq<Block>)
    requires i < |bs| && !bs[i].used
    ensures Used(Splice(bs, i, r)) == Used(bs[..i]) + Used(r) + Used(bs[i + 1..])
    ensures TotalFree(bs) - TotalFree(Splice(bs, i, r)) == bs[i].size - TotalFree(r)
    ensures Used(bs) == Used(bs[..i]) + Used(bs[i + 1..])
  {
    SpliceUsed(bs, i, r);
    SpliceFree(bs, i, r);
    Single(bs[i]);
    assert Used(bs[..i]) + [] == Used(bs[..i]);
  }

  lemma SpliceNeighbours(bs: seq<Block>, i: nat, r: seq<Block>)
    requires i < |bs| && NoFreeNeighbours(bs) && BlocksOk(bs) && !bs[i].used
    requires r != [] && NoFreeNeighbours(r) && BlocksOk(r)
    ensures NoFreeNeighbours(Splice(bs, i, r)) && BlocksOk(Splice(bs, i, r))
  {
  }

  lemma SplicedIsSound(bs: seq<Block>, i: nat, r: seq<Block>, lo: nat, hi: nat)
    requires Tiles(bs, lo, hi) && BlocksOk(bs) && NoFreeNeighbours(bs) && i < |bs| && !bs[i].used
    requires r != [] && Tiles(r, bs[i].start, bs[i].End()) && BlocksOk(r) && NoFreeNeighbours(r)
    ensures var s := Splice(bs, i, r);
            && Tiles(s, lo, hi) && BlocksOk(s) && NoFreeNeighbours(s)
            && Used(s) == Used(bs[..i]) + Used(r) + Used(bs[i + 1..])
            && TotalFree(bs) - TotalFree(s) == bs[i].size - TotalFree(r)
    ensures Used(bs) == Used(bs[..i]) + Used(bs[i + 1..])
  {
    SpliceTiles(bs, i, r, lo, hi);
    SpliceNeighbours(bs, i, r);
    SplicedUsed(bs, i, r);
  }

  lemma CarvedIn(h: Heap, i: nat, p: Placement, n: nat, a: nat, fromBottom: bool)
    requires WellFormed(h.blocks, h.dataStart, h.dataEnd) && i < |h.blocks| && !h.blocks[i].used && n >= 1
    requires PlacedOk(h.blocks[i], n, a, fromBottom, p)
    ensures AllocatedIn(h, AllocAt(h, i, p, n, a, fromBottom), p.payload, n, a, i)
  {
    var b := h.blocks[i];
    TilesSplit(h.blocks, i, h.dataStart, h.dataEnd);
    CarveIsSound(b, a, n, fromBottom, p);
    SplicedIsSound(h.blocks, i, Carve(b, p, n, fromBottom), h.dataStart, h.dataEnd);
  }

  lemma PlacedIn(h: Heap, i: nat, n: nat, a: nat, fromBottom: bool)
    requires WellFormed(h.blocks, h.dataStart, h.dataEnd) && n >= 1 && IsAlignment(a)
    requires i < |h.blocks| && Rooms(h.blocks, a)[i] >= n
    ensures var p := Place(h.blocks[i], n, a, fromBottom);
            p.Some? && AllocatedIn(h, AllocAt(h, i, p.value, n, a, fromBottom), p.value.payload, n, a, i)
  {
    TilesSplit(h.blocks, i, h.dataStart, h.dataEnd);
    PlaceSucceeds(h.blocks[i], a, n, fromBottom, h.dataStart, h.dataEnd);
    CarvedIn(h, i, Place(h.blocks[i], n, a, fromBottom).value, n, a, fromBottom);
  }

  /** Choosing, placing and carving one request: everything an allocation establishes. */
  lemma AllocIsSound(h: Heap, size: nat, alignment: int)
    requires Inv(h) && h.Usable() && size < TWO_32 && AlignmentOk(alignment)
    ensures var (g, r) := Alloc(h, size, alignment);
            var n, a := RealSize(size), NormaliseAlignment(alignment);
            if r == 0 then g == h && forall i :: 0 <= i < |h.blocks| ==> Rooms(h.blocks, a)[i] < n
            else exists i ::
              && IsChoice(Rooms(h.blocks, a), n, h.mode == FIRST_FREE, i)
              && AllocatedIn(h, g, r, n, a, i)
  {
    var n, a := RealSize(size), NormaliseAlignment(alignment);
    NormaliseAlignmentMeaning(alignment);
    match Choose(Rooms(h.blocks, a), n, h.mode == FIRST_FREE)
    case None =>
    case Some(i) => PlacedIn(h, i, n, a, alignment < 0);
  }

  lemma OthersDiffer(xs: seq<Block>, u: Block, ys: seq<Block>)
    requires PayloadsDiffer(xs + [u] + ys)
    ensures forall v :: v in xs + ys ==> v.payload != u.payload
  {
    var us := xs + [u] + ys;
    assert us[|xs|] == u;
    forall v | v in xs + ys ensures v.payload != u.payload {
      if v in xs {
        var j :| 0 <= j < |xs| && xs[j] == v;
        assert us[j] == v;
      } else {
        var j :| 0 <= j < |ys| && ys[j] == v;
        assert us[|xs| + 1 + j] == v;
      }
    }
  }

  lemma MatchesInsert(xs: seq<Block>, u: Block, ys: seq<Block>, requests: map<nat, Request>, q: Request)
    requires Matches(xs + ys, requests) && PayloadsDiffer(xs + [u] + ys)
    requires q.size == u.payloadSize && Aligned(u.payload, q.alignment)
    ensures Matches(xs + [u] + ys, requests[u.payload := q])
    ensures u.payload !in requests
  {
    OthersDiffer(xs, u, ys);
    forall p | p in requests ensures exists v :: v in xs + [u] + ys && v.payload == p {
      var v :| v in xs + ys && v.payload == p;
      assert v in xs + [u] + ys;
    }
    assert u in xs + [u] + ys;
    forall v | v in xs + [u] + ys ensures Honours(v, requests[u.payload := q]) {
      if v != u { assert v in xs + ys; }
    }
  }

  lemma AllocatedKeepsInv(h: Heap, g: Heap, r: nat, n: nat, a: nat, i: nat)
    requires Inv(h) && h.live && AllocatedIn(h, g, r, n, a, i)
    ensures Inv(g) && r !in h.requests
  {
    PayloadsAreUnique(g.blocks, h.dataStart, h.dataEnd);
    var u: Block :| u.used && u.payload == r && u.payloadSize == n
             && Used(g.blocks) == Used(h.blocks[..i]) + [u] + Used(h.blocks[i + 1..]);
    MatchesInsert(Used(h.blocks[..i]), u, Used(h.blocks[i + 1..]), h.requests, Request(n, a));
  }

  lemma AllocKeepsInv(h: Heap, size: nat, alignment: int)
    requires Inv(h) && size < TWO_32 && AlignmentOk(alignment)
    ensures Inv(Alloc(h, size, alignment).0)
  {
    if h.Usable() {
      AllocIsSound(h, size, alignment);
      var (g, r) := Alloc(h, size, alignment);
      var n, a := RealSize(size), NormaliseAlignment(alignment);
      if r != 0 {
        var i :| IsChoice(Rooms(h.blocks, a), n, h.mode == FIRST_FREE, i) && AllocatedIn(h, g, r, n, a, i);
        AllocatedKeepsInv(h, g, r, n, a, i);
      }
    }
  }

  lemma MatchesRemove(xs: seq<Block>, u: Block, ys: seq<Block>, requests: map<nat, Request>)
    requires Matches(xs + [u] + ys, requests) && PayloadsDiffer(xs + [u] + ys)
    ensures Matches(xs + ys, requests - {u.payload})
  {
    OthersDiffer(xs, u, ys);
    forall p | p in requests && p != u.payload ensures exists v :: v in xs + ys && v.payload == p {
      var v :| v in xs + [u] + ys && v.payload == p;
      assert v in xs + ys;
    }
    forall v | v in xs + ys ensures Honours(v, requests - {u.payload}) {
      assert v in xs + [u] + ys;
    }
  }

  lemma ReleasedIsSound(bs: seq<Block>, i: nat, lo: nat, hi: nat)
    requires Tiles(bs, lo, hi) && BlocksOk(bs) && i < |bs| && bs[i].used
    ensures var s := bs[i := Released(bs[i])];
            && Tiles(s, lo, hi) && BlocksOk(s)
            && Used(s) == Used(bs[..i]) + Used(bs[i + 1..])
            && TotalFree(s) == TotalFree(bs) + bs[i].size
    ensures Used(bs) == Used(bs[..i]) + [bs[i]] + Used(bs[i + 1..])
  {
    var r := [Released(bs[i])];
    assert bs[i := Released(bs[i])] == Splice(bs, i, r);
    Single(Released(bs[i]));
    Single(bs[i]);
    SpliceTiles(bs, i, r, lo, hi);
    SpliceUsed(bs, i, r);
    SpliceFree(bs, i, r);
  }

  /** What freeing a known pointer leaves: that block's bytes free again and merged, all other
      used blocks as they were. */
  lemma FreeIsSound(h: Heap, i: nat)
    requires WellFormed(h.blocks, h.dataStart, h.dataEnd) && i < |h.blocks| && h.blocks[i].used
    ensures var g := FreeAt(h.blocks, i);
            && WellFormed(g, h.dataStart, h.dataEnd)
            && Used(g) == Used(h.blocks[..i]) + Used(h.blocks[i + 1..])
            && TotalFree(g) == TotalFree(h.blocks) + h.blocks[i].size
    ensures Used(h.blocks) == Used(h.blocks[..i]) + [h.blocks[i]] + Used(h.blocks[i + 1..])
  {
    ReleasedIsSound(h.blocks, i, h.dataStart, h.dataEnd);
    CoalescedIsSound(h.blocks[i := Released(h.blocks[i])], h.dataStart, h.dataEnd);
  }

  lemma FreeKeepsInv(h: Heap, ptr: nat)
    requires Inv(h)
    ensures Inv(Free(h, ptr))
  {
    if h.Usable() && ptr != 0 {
      match FindUsed(h.blocks, ptr)
      case None =>
      case Some(i) =>
        FreeIsSound(h, i);
        PayloadsAreUnique(h.blocks, h.dataStart, h.dataEnd);
        MatchesRemove(Used(h.blocks[..i]), h.blocks[i], Used(h.blocks[i + 1..]), h.requests);
    }
  }

  lemma StepKeepsInv(h: Heap, op: Op)
    requires Inv(h) && OpOk(h, op)
    ensures Inv(Step(h, op))
  {
    match op
    case OpCreate(size, flags) => CreateKeepsInv(h, size, flags);
    case OpAlloc(size, alignment) => AllocKeepsInv(h, size, alignment);
    case OpFree(ptr) => FreeKeepsInv(h, ptr);
    case _ =>
  }

  lemma {:induction false} RunKeepsInv(hs: seq<Heap>, ops: seq<Op>, k: nat)
    requires IsRun(hs, ops) && Inv(hs[0]) && k < |hs|
    ensures Inv(hs[k])
  {
    if k > 0 {
      RunKeepsInv(hs, ops, k - 1);
      StepKeepsInv(hs[k - 1], ops[k - 1]);
    }
  }
}
