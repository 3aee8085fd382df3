/** The ring buffer of a message queue and the double-ended queue it stands for. */
module MessageRing {
  import opened Machine

  datatype Message = Message(message: nat, arg0: nat, arg1: nat, arg2: nat)

  function Wrap(i: nat, n: nat): (k: nat)
    requires n > 0
    ensures k < n
  {
    i % n
  }

  datatype Ring = Ring(slots: seq<Message>, head: nat, count: nat, capacity: nat) {
    predicate Ok() {
      && |slots| == capacity < 0x8000_0000
      && count <= capacity
      && if capacity == 0 then head == 0 else head < capacity
    }

    function SlotOf(i: nat): nat { if head + i < capacity then head + i else head + i - capacity }

    /** The messages in the order they will be received. */
    function Contents(): (c: seq<Message>)
      requires Ok()
      ensures |c| == count && forall i :: 0 <= i < count ==> c[i] == slots[SlotOf(i)]
    {
      seq(count, i requires 0 <= i < count => slots[SlotOf(i)])
    }

    predicate Full() { count >= capacity }

    predicate Empty() { count == 0 }

    function Put(m: Message, high: bool): Ring
      requires Ok() && !Full()
    {
      if high then
        var h := Wrap(U32(U32(head + capacity) - 1), capacity);
        Ring(slots[h := m], h, U32(count + 1), capacity)
      else
        Ring(slots[Wrap(U32(head + count), capacity) := m], head, U32(count + 1), capacity)
    }

    function Front(): Message
      requires Ok() && !Empty()
    {
      slots[head]
    }

    function Take(): Ring
      requires Ok() && !Empty()
    {
      this.(head := Wrap(U32(head + 1), capacity), count := U32(count - 1))
    }
  }

  function FreshRing(size: nat): Ring { Ring(seq(size, _ => Message(0, 0, 0, 0)), 0, 0, size) }

  lemma WrapsOnce(x: nat, n: nat)
    requires n > 0 && x < n + n
    ensures Wrap(x, n) == if x < n then x else x - n
  {
  }

  lemma PutAtFront(r: Ring, m: Message)
    requires r.Ok() && !r.Full()
    ensures r.Put(m, true).Ok() && r.Put(m, true).capacity == r.capacity
    ensures r.Put(m, true).Contents() == [m] + r.Contents()
  {
    WrapsOnce(r.head + r.capacity - 1, r.capacity);
    var h := if r.head == 0 then r.capacity - 1 else r.head - 1;
    assert r.Put(m, true) == Ring(r.slots[h := m], h, r.count + 1, r.capacity);
  }

  lemma PutAtBack(r: Ring, m: Message)
    requires r.Ok() && !r.Full()
    ensures r.Put(m, false).Ok() && r.Put(m, false).capacity == r.capacity
    ensures r.Put(m, false).Contents() == r.Contents() + [m]
  {
    WrapsOnce(r.head + r.count, r.capacity);
    assert r.Put(m, false) == Ring(r.slots[r.SlotOf(r.count) := m], r.head, r.count + 1, r.capacity);
  }

  /** A normal send appends, a high-priority send prepends; neither overflows 32 bits. */
  lemma PutRefinesDeque(r: Ring, m: Message, high: bool)
    requires r.Ok() && !r.Full()
    ensures r.Put(m, high).Ok() && r.Put(m, high).capacity == r.capacity
    ensures r.Put(m, high).Contents() == if high then [m] + r.Contents() else r.Contents() + [m]
  {
    if high { PutAtFront(r, m); } else { PutAtBack(r, m); }
  }

  /** A receive takes the front. */
  lemma TakeRefinesDeque(r: Ring)
    requires r.Ok() && !r.Empty()
    ensures r.Take().Ok() && r.Take().capacity == r.capacity
    ensures r.Contents() == [r.Front()] + r.Take().Contents()
  {
    WrapsOnce(r.head + 1, r.capacity);
  }
}
