/** The block list of the expanded heap as a value: how a free block is measured, placed into
    and carved, and how neighbouring free blocks are merged.  The class in ExpHeap.dfy edits its
    list in place and is proved to produce exactly these values. */
module ExpBlocks {
  import opened Machine
  import opened Alignment
  import opened Wrappers

  const BLOCK_HEADER: nat := 0x14
  const MIN_SPLIT: nat := BLOCK_HEADER + 4

  datatype Direction = FromTop | FromBottom

  datatype Block = Block(start: nat, size: nat, payload: nat, payloadSize: nat,
                         used: bool, direction: Direction) {
    function End(): nat { start + size }
  }

  function FreeBlock(start: nat, size: nat): Block { Block(start, size, 0, 0, false, FromTop) }

  // ---- well-formed lists ----

  /** The span of one heap: shorter than 2^32 bytes, and low enough in the 64-bit address space
      that rounding an address inside it up to the largest alignment does not wrap. */
  predicate SpanOk(lo: nat, hi: nat) {
    lo < hi && hi - lo < TWO_32 && hi + BLOCK_HEADER + MAX_ALIGNMENT <= TWO_64
  }

  predicate BlockOk(b: Block) {
    && b.size > 0
    && if b.used then b.start + BLOCK_HEADER <= b.payload && 1 <= b.payloadSize && b.payload + b.payloadSize <= b.End()
       else b.payload == 0 && b.payloadSize == 0
  }

  /** The blocks follow one another without gap or overlap from `lo` to `hi`. */
  predicate Tiles(bs: seq<Block>, lo: nat, hi: nat) {
    if bs == [] then lo == hi
    else bs[0].start == lo && lo + bs[0].size <= hi && Tiles(bs[1..], lo + bs[0].size, hi)
  }

  predicate NoFreeNeighbours(bs: seq<Block>) {
    forall i :: 0 <= i < |bs| - 1 ==> bs[i].used || bs[i + 1].used
  }

  predicate BlocksOk(bs: seq<Block>) { forall i :: 0 <= i < |bs| ==> BlockOk(bs[i]) }

  predicate WellFormed(bs: seq<Block>, lo: nat, hi: nat) {
    SpanOk(lo, hi) && Tiles(bs, lo, hi) && BlocksOk(bs) && NoFreeNeighbours(bs)
  }

  function Used(bs: seq<Block>): seq<Block> {
    if bs == [] then [] else (if bs[0].used then [bs[0]] else []) + Used(bs[1..])
  }

  function TotalFree(bs: seq<Block>): nat {
    if bs == [] then 0 else (if bs[0].used then 0 else bs[0].size) + TotalFree(bs[1..])
  }

  function TotalUsed(bs: seq<Block>): nat {
    if bs == [] then 0 else (if bs[0].used then bs[0].size else 0) + TotalUsed(bs[1..])
  }

  // ---- the operations ----

  function RoomFrom(b: Block, lowest: nat): nat {
    var end := U64(b.start + b.size);
    if lowest >= end then 0 else U32(end - lowest)
  }

  /** How many payload bytes a free block can offer at alignment `a`. */
  function FitInFree(b: Block, a: nat): nat { RoomFrom(b, AlignUp(U64(b.start + BLOCK_HEADER), a)) }

  /** What each block offers; a used block offers nothing. */
  function Rooms(bs: seq<Block>, a: nat): (r: seq<nat>)
    ensures |r| == |bs|
    ensures forall i :: 0 <= i < |bs| ==> r[i] == if bs[i].used then 0 else FitInFree(bs[i], a)
  {
    seq(|bs|, i requires 0 <= i < |bs| => if bs[i].used then 0 else FitInFree(bs[i], a))
  }

  /** What each allocation mode promises about the block it takes: the lowest that fits, or
      one of least slack and the lowest of those. */
  predicate IsChoice(rooms: seq<nat>, size: nat, firstFree: bool, i: nat) {
    && i < |rooms| && rooms[i] >= size
    && if firstFree then forall j :: 0 <= j < i ==> rooms[j] < size
       else forall j :: 0 <= j < |rooms| && rooms[j] >= size ==>
              rooms[i] <= rooms[j] && (j < i ==> rooms[i] < rooms[j])
  }

  /** The search. */
  function Choose(rooms: seq<nat>, size: nat, firstFree: bool): (r: Option<nat>)
    ensures r.None? ==> forall j :: 0 <= j < |rooms| ==> rooms[j] < size
    ensures r.Some? ==> IsChoice(rooms, size, firstFree, r.value)
  {
    if rooms == [] then None
    else
      var last := |rooms| - 1;
      var best := Choose(rooms[..last], size, firstFree);
      if rooms[last] < size || (firstFree && best.Some?) then best
      else if best.None? || rooms[last] < rooms[best.value] then Some(last)
      else best
  }

  datatype Placement = Placement(payload: nat, blockStart: nat, blockEnd: nat)

  function PlaceHigh(free: Block, payload: nat): Option<Placement> {
    var blockStart := U64(payload - BLOCK_HEADER);
    if blockStart < free.start then None
    else Some(Placement(payload, blockStart, U64(free.start + free.size)))
  }

  function PlaceLow(free: Block, size: nat, payload: nat): Option<Placement> {
    var blockEnd := U64(payload + size);
    if blockEnd > U64(free.start + free.size) then None
    else Some(Placement(payload, free.start, blockEnd))
  }

  function Place(free: Block, size: nat, a: nat, fromBottom: bool): Option<Placement> {
    if fromBottom then PlaceHigh(free, AlignDown(U64(U64(free.start + free.size) - size), a))
    else PlaceLow(free, size, AlignUp(U64(free.start + BLOCK_HEADER), a))
  }

  /** The one or two blocks that replace the free block; a remainder too small to hold a block
      of its own is absorbed. */
  function Carve(free: Block, p: Placement, size: nat, fromBottom: bool): seq<Block> {
    var used := Block(p.blockStart, U32(p.blockEnd - p.blockStart), p.payload, size, true,
                      if fromBottom then FromBottom else FromTop);
    if fromBottom then
      var before := U32(p.blockStart - free.start);
      if before >= MIN_SPLIT then [FreeBlock(free.start, before), used]
      else if before > 0 then [used.(start := free.start, size := U32(used.size + before))]
      else [used]
    else
      var after := U32(U64(free.start + free.size) - p.blockEnd);
      if after >= MIN_SPLIT then [used, FreeBlock(p.blockEnd, after)]
      else [used.(size := U32(used.size + after))]
  }

  function Splice(bs: seq<Block>, i: nat, replacement: seq<Block>): seq<Block>
    requires i < |bs|
  {
    bs[..i] + replacement + bs[i + 1..]
  }

  function MergedHead(bs: seq<Block>): seq<Block>
    requires |bs| >= 2
  {
    [bs[0].(size := U32(bs[0].size + bs[1].size))] + bs[2..]
  }

  /** Merging from the left, as the in-place loop does. */
  function Coalesced(bs: seq<Block>): seq<Block>
    decreases |bs|
  {
    if |bs| < 2 then bs
    else if !bs[0].used && !bs[1].used then
      Coalesced(MergedHead(bs))
    else [bs[0]] + Coalesced(bs[1..])
  }

  predicate Owns(b: Block, ptr: nat) { b.used && b.payload == ptr }

  function FindUsed(bs: seq<Block>, ptr: nat): (r: Option<nat>)
    ensures r.None? ==> forall j :: 0 <= j < |bs| ==> !Owns(bs[j], ptr)
    ensures r.Some? ==> r.value < |bs| && Owns(bs[r.value], ptr) && forall j :: 0 <= j < r.value ==> !Owns(bs[j], ptr)
  {
    if bs == [] then None
    else if Owns(bs[0], ptr) then Some(0)
    else match FindUsed(bs[1..], ptr)
         case None => None
         case Some(i) => Some(i + 1)
  }

  function Released(b: Block): Block { b.(used := false, payload := 0, payloadSize := 0) }

  function FreeAt(bs: seq<Block>, i: nat): seq<Block>
    requires i < |bs|
  {
    Coalesced(bs[i := Released(bs[i])])
  }

  /** The best offer of any block. */
  function MaxRoom(rooms: seq<nat>): (r: nat)
    ensures forall i :: 0 <= i < |rooms| ==> rooms[i] <= r
    ensures r == 0 || exists i :: 0 <= i < |rooms| && rooms[i] == r
  {
    if rooms == [] then 0
    else
      var last := |rooms| - 1;
      var best := MaxRoom(rooms[..last]);
      if rooms[last] > best then rooms[last] else best
  }

  // ---- lists: splitting, joining, order ----

  lemma {:induction false} TilesBounds(bs: seq<Block>, lo: nat, hi: nat)
    requires Tiles(bs, lo, hi)
    ensures lo <= hi
  {
  }

  lemma {:induction false} TilesJoin(xs: seq<Block>, ys: seq<Block>, lo: nat, mid: nat, hi: nat)
    requires Tiles(xs, lo, mid) && Tiles(ys, mid, hi)
    ensures Tiles(xs + ys, lo, hi)
  {
    if xs == [] {
      assert xs + ys == ys;
    } else {
      TilesBounds(ys, mid, hi);
      TilesJoin(xs[1..], ys, lo + xs[0].size, mid, hi);
      assert (xs + ys)[1..] == xs[1..] + ys;
    }
  }

  lemma {:induction false} TilesSplit(bs: seq<Block>, i: nat, lo: nat, hi: nat)
    requires Tiles(bs, lo, hi) && i < |bs|
    ensures Tiles(bs[..i], lo, bs[i].start) && Tiles(bs[i + 1..], bs[i].End(), hi)
    ensures lo <= bs[i].start && bs[i].End() <= hi
  {
    if i == 0 {
    } else {
      TilesSplit(bs[1..], i - 1, lo + bs[0].size, hi);
      assert bs[1..][..i - 1] == bs[..i][1..];
      assert bs[1..][i..] == bs[i + 1..];
    }
  }

  /** Blocks of a tiling are sorted and do not overlap. */
  lemma {:induction false} TilesOrdered(bs: seq<Block>, i: nat, j: nat, lo: nat, hi: nat)
    requires Tiles(bs, lo, hi) && i < j < |bs|
    ensures bs[i].End() <= bs[j].start
  {
    TilesSplit(bs, i, lo, hi);
    assert bs[j] == bs[i + 1..][j - i - 1];
    TilesSplit(bs[i + 1..], j - i - 1, bs[i].End(), hi);
  }

  lemma {:induction false} FreeJoin(xs: seq<Block>, ys: seq<Block>)
    ensures TotalFree(xs + ys) == TotalFree(xs) + TotalFree(ys)
  {
    if xs == [] {
      assert xs + ys == ys;
    } else {
      FreeJoin(xs[1..], ys);
      assert (xs + ys)[1..] == xs[1..] + ys;
    }
  }

  lemma {:induction false} UsedJoin(xs: seq<Block>, ys: seq<Block>)
    ensures Used(xs + ys) == Used(xs) + Used(ys)
  {
    if xs == [] {
      assert xs + ys == ys;
    } else {
      UsedJoin(xs[1..], ys);
      assert (xs + ys)[1..] == xs[1..] + ys;
      var head := if xs[0].used then [xs[0]] else [];
      assert head + (Used(xs[1..]) + Used(ys)) == head + Used(xs[1..]) + Used(ys);
    }
  }

  lemma {:induction false} SpliceTiles(bs: seq<Block>, i: nat, r: seq<Block>, lo: nat, hi: nat)
    requires i < |bs| && Tiles(bs, lo, hi) && Tiles(r, bs[i].start, bs[i].End())
    ensures Tiles(Splice(bs, i, r), lo, hi)
  {
    TilesSplit(bs, i, lo, hi);
    TilesJoin(bs[..i], r, lo, bs[i].start, bs[i].End());
    TilesJoin(bs[..i] + r, bs[i + 1..], lo, bs[i].End(), hi);
  }

  lemma SpliceUsed(bs: seq<Block>, i: nat, r: seq<Block>)
    requires i < |bs|
    ensures Used(Splice(bs, i, r)) == Used(bs[..i]) + Used(r) + Used(bs[i + 1..])
    ensures Used(bs) == Used(bs[..i]) + Used([bs[i]]) + Used(bs[i + 1..])
  {
    UsedJoin(bs[..i], r);
    UsedJoin(bs[..i] + r, bs[i + 1..]);
    UsedJoin(bs[..i], [bs[i]]);
    UsedJoin(bs[..i] + [bs[i]], bs[i + 1..]);
    assert bs == bs[..i] + [bs[i]] + bs[i + 1..];
  }

  lemma SpliceFree(bs: seq<Block>, i: nat, r: seq<Block>)
    requires i < |bs|
    ensures TotalFree(Splice(bs, i, r)) - TotalFree(bs) == TotalFree(r) - TotalFree([bs[i]])
  {
    FreeJoin(bs[..i], r);
    FreeJoin(bs[..i] + r, bs[i + 1..]);
    FreeJoin(bs[..i], [bs[i]]);
    FreeJoin(bs[..i] + [bs[i]], bs[i + 1..]);
    assert bs == bs[..i] + [bs[i]] + bs[i + 1..];
  }

  /** Free and used bytes always add up to the whole span. */
  lemma {:induction false} BytesConserved(bs: seq<Block>, lo: nat, hi: nat)
    requires Tiles(bs, lo, hi)
    ensures TotalFree(bs) + TotalUsed(bs) == hi - lo
  {
    if bs != [] { BytesConserved(bs[1..], lo + bs[0].size, hi); }
  }

  // ---- measuring and placing ----

  lemma LowestPayload(b: Block, a: nat, lo: nat, hi: nat) returns (lowest: nat)
    requires SpanOk(lo, hi) && lo <= b.start && b.End() <= hi && IsAlignment(a)
    ensures lowest == AlignUp(U64(b.start + BLOCK_HEADER), a) && Aligned(lowest, a)
    ensures b.start + BLOCK_HEADER <= lowest < b.start + BLOCK_HEADER + a
    ensures forall p: nat :: Aligned(p, a) && b.start + BLOCK_HEADER <= p ==> lowest <= p
  {
    var first := b.start + BLOCK_HEADER;
    assert U64(first) == first;
    AlignUpLeast(first, a);
    lowest := AlignUp(first, a);
  }

  lemma RoomIsExtent(b: Block, lowest: nat, lo: nat, hi: nat)
    requires SpanOk(lo, hi) && lo <= b.start <= lowest && b.End() <= hi
    ensures RoomFrom(b, lowest) == if lowest >= b.End() then 0 else b.End() - lowest
  {
  }

  /** An aligned payload at `p`, with its header before it, lies inside the block. */
  predicate Holds(b: Block, a: nat, size: nat, p: nat) {
    Aligned(p, a) && b.start + BLOCK_HEADER <= p && p + size <= b.End()
  }

  /** `FitInFree` is exact and knows no direction: it reaches `size` precisely when the block
      can hold some payload of that size and alignment. */
  lemma FitIsExact(b: Block, a: nat, size: nat, lo: nat, hi: nat)
    requires SpanOk(lo, hi) && lo <= b.start && b.End() <= hi && IsAlignment(a) && size >= 1
    ensures FitInFree(b, a) >= size <==> exists p :: Holds(b, a, size, p)
  {
    var lowest := LowestPayload(b, a, lo, hi);
    RoomIsExtent(b, lowest, lo, hi);
    if FitInFree(b, a) >= size { assert Holds(b, a, size, lowest); }
  }

  lemma RoomBelow(lowest: nat, v: nat, a: nat) returns (highest: nat)
    requires IsAlignment(a) && Aligned(lowest, a) && lowest <= v < TWO_64
    ensures highest == AlignDown(v, a) && Aligned(highest, a)
    ensures lowest <= highest <= v < highest + a
  {
    highest := AlignDown(v, a);
    AlignDownGreatest(v, a);
  }

  predicate PlacedOk(b: Block, size: nat, a: nat, fromBottom: bool, p: Placement) {
    && Aligned(p.payload, a)
    && b.start <= p.blockStart && p.blockStart + BLOCK_HEADER <= p.payload
    && p.payload + size <= p.blockEnd <= b.End()
    && (if fromBottom then p.blockEnd == b.End() else p.blockStart == b.start && p.blockEnd == p.payload + size)
    && p.blockEnd - p.blockStart <= size + BLOCK_HEADER + (a - 1)
  }

  lemma PlaceHighSucceeds(b: Block, payload: nat)
    requires b.End() < TWO_64 && b.start + BLOCK_HEADER <= payload <= b.End()
    ensures PlaceHigh(b, payload) == Some(Placement(payload, payload - BLOCK_HEADER, b.End()))
  {
  }

  lemma PlaceHighFits(b: Block, a: nat, size: nat, lowest: nat)
    requires IsAlignment(a) && Holds(b, a, size, lowest) && b.End() < TWO_64
    ensures Place(b, size, a, true).Some?
    ensures PlacedOk(b, size, a, true, Place(b, size, a, true).value)
  {
    var v := b.End() - size;
    assert U64(U64(b.start + b.size) - size) == v;
    var highest := RoomBelow(lowest, v, a);
    PlaceHighSucceeds(b, highest);
  }

  lemma PlaceLowSucceeds(b: Block, size: nat, payload: nat)
    requires b.End() < TWO_64 && payload + size <= b.End()
    ensures PlaceLow(b, size, payload) == Some(Placement(payload, b.start, payload + size))
  {
  }

  /** When the block was measured large enough, placing succeeds from either end, so neither of
      the two late failure returns can be taken. */
  lemma PlaceSucceeds(b: Block, a: nat, size: nat, fromBottom: bool, lo: nat, hi: nat)
    requires SpanOk(lo, hi) && lo <= b.start && b.End() <= hi && IsAlignment(a) && size >= 1
    requires FitInFree(b, a) >= size
    ensures Place(b, size, a, fromBottom).Some?
    ensures PlacedOk(b, size, a, fromBottom, Place(b, size, a, fromBottom).value)
  {
    var lowest := LowestPayload(b, a, lo, hi);
    RoomIsExtent(b, lowest, lo, hi);
    if fromBottom { PlaceHighFits(b, a, size, lowest); } else { PlaceLowSucceeds(b, size, lowest); }
  }

  predicate Within(p: nat, r: nat, high: bool) { if high then p <= r else r <= p }

  /** Of all the payloads the block can hold, the one at `r` is the highest or the lowest. */
  ghost predicate TakesOneEnd(b: Block, a: nat, size: nat, high: bool, r: nat) {
    Holds(b, a, size, r) && forall p: nat :: Holds(b, a, size, p) ==> Within(p, r, high)
  }

  /** From the bottom of the heap the payload is the highest one the block can hold, from the
      top the lowest. */
  lemma PlaceTakesOneEnd(b: Block, a: nat, size: nat, fromBottom: bool, lo: nat, hi: nat)
    requires SpanOk(lo, hi) && lo <= b.start && b.End() <= hi && IsAlignment(a) && size >= 1
    requires FitInFree(b, a) >= size
    ensures Place(b, size, a, fromBottom).Some?
    ensures TakesOneEnd(b, a, size, fromBottom, Place(b, size, a, fromBottom).value.payload)
  {
    PlaceSucceeds(b, a, size, fromBottom, lo, hi);
    if fromBottom {
      var v := b.End() - size;
      assert U64(U64(b.start + b.size) - size) == v;
      AlignDownGreatest(v, a);
    } else {
      var lowest := LowestPayload(b, a, lo, hi);
    }
  }

  /** From the bottom the header stands right before the payload. */
  lemma PlaceNeedsNoGap(b: Block, a: nat, size: nat, lo: nat, hi: nat)
    requires SpanOk(lo, hi) && lo <= b.start && b.End() <= hi && IsAlignment(a) && size >= 1 && FitInFree(b, a) >= size
    ensures var p := Place(b, size, a, true); p.Some? && p.value.blockStart + BLOCK_HEADER == p.value.payload
  {
    PlaceTakesOneEnd(b, a, size, true, lo, hi);
    var payload := Place(b, size, a, true).value.payload;
    assert U64(payload - BLOCK_HEADER) == payload - BLOCK_HEADER;
  }

  lemma CarveWithoutTruncation(b: Block, a: nat, size: nat, fromBottom: bool, p: Placement)
    requires PlacedOk(b, size, a, fromBottom, p) && b.End() < TWO_64 && b.size < TWO_32
    ensures var r := Carve(b, p, size, fromBottom);
            var used := Block(p.blockStart, p.blockEnd - p.blockStart, p.payload, size, true, if fromBottom then FromBottom else FromTop);
            var before, after := p.blockStart - b.start, b.End() - p.blockEnd;
            r == if fromBottom && before >= MIN_SPLIT then [FreeBlock(b.start, before), used]
                 else if after >= MIN_SPLIT then [used, FreeBlock(p.blockEnd, after)]
                 else [used.(start := b.start, size := b.size)]
  {
  }

  lemma Single(b: Block)
    ensures Tiles([b], b.start, b.End())
    ensures Used([b]) == (if b.used then [b] else []) && TotalFree([b]) == if b.used then 0 else b.size
  {
  }

  lemma PairTotals(x: Block, y: Block, lo: nat, hi: nat)
    requires x.start == lo && x.End() == y.start && y.End() == hi
    ensures Tiles([x, y], lo, hi)
    ensures Used([x, y]) == (if x.used then [x] else []) + (if y.used then [y] else [])
    ensures TotalFree([x, y]) == (if x.used then 0 else x.size) + (if y.used then 0 else y.size)
  {
    assert [x, y][1..] == [y];
    Single(y);
  }

  /** What carving leaves: the same bytes tiled, one used block around the payload, and a free
      total lower by the payload, its header, its padding and a remainder of at most 0x17. */
  lemma CarveIsSound(b: Block, a: nat, size: nat, fromBottom: bool, p: Placement)
    requires PlacedOk(b, size, a, fromBottom, p) && b.End() < TWO_64 && b.size < TWO_32 && size >= 1
    ensures var r := Carve(b, p, size, fromBottom);
            && Tiles(r, b.start, b.End()) && BlocksOk(r) && NoFreeNeighbours(r)
            && (exists u :: Used(r) == [u] && u.used && u.payload == p.payload && u.payloadSize == size)
            && size + BLOCK_HEADER <= b.size - TotalFree(r) <= size + BLOCK_HEADER + (a - 1) + (MIN_SPLIT - 1)
  {
    CarveWithoutTruncation(b, a, size, fromBottom, p);
    var r := Carve(b, p, size, fromBottom);
    if |r| == 1 {
      Single(r[0]);
    } else {
      PairTotals(r[0], r[1], b.start, b.End());
    }
  }

  /** How many bytes of a free block lie beyond a payload of `n` bytes at `r` on the far side. */
  function Remainder(b: Block, r: nat, n: nat, fromBottom: bool): int {
    if fromBottom then r - BLOCK_HEADER - b.start else b.End() - (r + n)
  }

  /** Exactly what carving costs and leaves: a remainder of at least 0x18 bytes stays free as a block
      of its own, a smaller one goes with the payload; the used block names its direction. */
  lemma CarveIsExact(b: Block, a: nat, size: nat, fromBottom: bool, p: Placement)
    requires fromBottom ==> p.blockStart + BLOCK_HEADER == p.payload
    requires PlacedOk(b, size, a, fromBottom, p) && b.End() < TWO_64 && b.size < TWO_32 && size >= 1
    ensures var r := Carve(b, p, size, fromBottom);
            var rest := Remainder(b, p.payload, size, fromBottom);
            && TotalFree(r) == (if rest >= 0x18 then rest else 0)
            && |r| == (if rest >= 0x18 then 2 else 1)
            && (exists u :: u in r && u.used && u.payload == p.payload && u.payloadSize == size
                            && u.direction == if fromBottom then FromBottom else FromTop)
  {
    CarveWithoutTruncation(b, a, size, fromBottom, p);
    var r := Carve(b, p, size, fromBottom);
    if |r| == 1 {
      Single(r[0]);
      assert r[0] in r;
    } else {
      PairTotals(r[0], r[1], b.start, b.End());
      assert r[0] in r && r[1] in r;
    }
  }

  // ---- merging ----

  lemma MergedHeadIsSound(bs: seq<Block>, lo: nat, hi: nat)
    requires |bs| >= 2 && !bs[0].used && !bs[1].used
    requires Tiles(bs, lo, hi) && BlocksOk(bs) && hi - lo < TWO_32
    ensures var ms := MergedHead(bs);
            Tiles(ms, lo, hi) && BlocksOk(ms) && Used(ms) == Used(bs) && TotalFree(ms) == TotalFree(bs)
  {
  }

  lemma {:induction false} CoalescedIsSound(bs: seq<Block>, lo: nat, hi: nat)
    requires Tiles(bs, lo, hi) && BlocksOk(bs) && hi - lo < TWO_32
    ensures var cs := Coalesced(bs);
            && Tiles(cs, lo, hi) && BlocksOk(cs) && NoFreeNeighbours(cs)
            && Used(cs) == Used(bs) && TotalFree(cs) == TotalFree(bs)
            && (bs == [] <==> cs == []) && (bs != [] ==> cs[0].used == bs[0].used)
    decreases |bs|
  {
    if |bs| < 2 {
    } else if !bs[0].used && !bs[1].used {
      MergedHeadIsSound(bs, lo, hi);
      CoalescedIsSound(MergedHead(bs), lo, hi);
    } else {
      CoalescedIsSound(bs[1..], lo + bs[0].size, hi);
      var cs := Coalesced(bs[1..]);
      assert ([bs[0]] + cs)[1..] == cs;
    }
  }

  // ---- a well-formed list is determined by its used blocks ----

  /** Equality of blocks up to the direction byte of free ones, which nothing ever reads. */
  predicate SameShape(xs: seq<Block>, ys: seq<Block>) {
    |xs| == |ys| && forall i :: 0 <= i < |xs| ==>
      xs[i] == ys[i] || (!xs[i].used && !ys[i].used && xs[i].(direction := ys[i].direction) == ys[i])
  }

  lemma {:induction false} FirstUsed(bs: seq<Block>, lo: nat, hi: nat)
    requires Tiles(bs, lo, hi) && BlocksOk(bs) && NoFreeNeighbours(bs)
    ensures bs == [] ==> lo == hi
    ensures bs != [] && bs[0].used ==> Used(bs) != [] && Used(bs)[0] == bs[0] && Used(bs)[1..] == Used(bs[1..])
    ensures bs != [] && !bs[0].used ==>
              Used(bs) == Used(bs[1..]) && bs[0].End() == (if Used(bs) == [] then hi else Used(bs)[0].start)
    ensures Used(bs) != [] ==> lo <= Used(bs)[0].start && Used(bs)[0].End() <= hi && Used(bs)[0].size > 0
  {
  }

  /** Two well-formed lists over one span with the same used blocks are the same list. */
  lemma {:induction false} ShapeIsUnique(xs: seq<Block>, ys: seq<Block>, lo: nat, hi: nat)
    requires Tiles(xs, lo, hi) && BlocksOk(xs) && NoFreeNeighbours(xs)
    requires Tiles(ys, lo, hi) && BlocksOk(ys) && NoFreeNeighbours(ys)
    requires Used(xs) == Used(ys)
    ensures SameShape(xs, ys)
  {
    FirstUsed(xs, lo, hi);
    FirstUsed(ys, lo, hi);
    if xs != [] && ys != [] {
      assert xs[0].used == ys[0].used;
      ShapeIsUnique(xs[1..], ys[1..], lo + xs[0].size, hi);
      assert forall i :: 1 <= i < |xs| ==> xs[i] == xs[1..][i - 1] && ys[i] == ys[1..][i - 1];
    }
  }
}
