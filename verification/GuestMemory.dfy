/** What the two heaps share about the guest: its memory and the arguments of an allocation. */
module GuestMemory {
  /** MEM_HEAP_FLAG_ZERO_ALLOCATED, the lowest bit of the heap flags. */
  const ZERO_ALLOCATED: nat := 1

  type byte = x: int | 0 <= x < 256

  /** An alignment of type int32_t that can be negated. */
  predicate AlignmentOk(alignment: int) { -0x8000_0000 < alignment < 0x8000_0000 }

  function RealSize(size: nat): nat { if size == 0 then 1 else size }

  /** The bytes `mem` of a region at address `base` after clearing `n` bytes at address `p`. */
  function ZeroFilled(mem: seq<byte>, base: nat, p: nat, n: nat): (r: seq<byte>)
    ensures |r| == |mem|
    ensures forall k :: 0 <= k < |mem| ==> r[k] == if p <= base + k < p + n then 0 else mem[k]
  {
    seq(|mem|, k requires 0 <= k < |mem| => if p <= base + k < p + n then 0 else mem[k])
  }

  /** The `n` bytes at `p` are 0 if the flags ask for that, and no other byte differs. */
  predicate WritesOnly(before: seq<byte>, after: seq<byte>, base: nat, p: nat, n: nat, flags: nat) {
    && |after| == |before| && base <= p && p + n <= base + |before|
    && forall k :: 0 <= k < |before| ==>
         after[k] == if p <= base + k < p + n && flags % 2 == 1 then 0 else before[k]
  }

  /** memset of `n` bytes at address `p` to zero. */
  method Clear(region: array<byte>, base: nat, p: nat, n: nat)
    requires base <= p && p + n <= base + region.Length
    modifies region
    ensures region[..] == ZeroFilled(old(region[..]), base, p, n)
  {
    var from := p - base;
    for k := 0 to n
      invariant forall j :: 0 <= j < region.Length ==>
        region[j] == if from <= j < from + k then 0 else old(region[j])
    {
      region[from + k] := 0;
    }
  }
}
