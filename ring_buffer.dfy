/** The single-producer/single-consumer ring buffer `LocklessRingBuffer`.
    One slot is kept free as a sentinel, so a buffer built for `n` items
    allocates `n + 1` slots. The atomics are modelled as plain fields and
    every call is one sequential step. */
module RingBuffer {
  import opened Wrappers

  /** Width of `size_t`. */
  const SizeTModulus: nat := 0x1_0000_0000_0000_0000

  datatype Error = InvalidArgument(message: string)

  /** The slot count `size + 1` computed in `size_t` arithmetic from the
      requested size as the caller passed it (so -1 becomes SIZE_MAX). */
  function SlotCount(requested: int): (slots: nat)
    ensures slots < SizeTModulus
    ensures 0 <= requested < SizeTModulus - 1 ==> slots == requested + 1
  {
    (requested % SizeTModulus + 1) % SizeTModulus
  }

  /** The constructor rejects exactly the requests whose slot count is below
      two: a requested size of 0, and -1 through wrap-around. */
  lemma RejectedSizes(requested: int)
    requires -1 <= requested < SizeTModulus - 1
    ensures SlotCount(requested) < 2 <==> requested == 0 || requested == -1
  {
  }

  /** `(i + 1) % n` for an index below `n`. */
  function Next(i: nat, n: nat): (j: nat)
    requires i < n
    ensures j < n && j == (i + 1) % n
  {
    if i + 1 == n then 0 else i + 1
  }

  /** `(head - tail) mod n`, the number of stored items. */
  function Count(tail: nat, head: nat, n: nat): nat
    requires tail < n && head < n
  {
    if tail <= head then head - tail else n - tail + head
  }

  /** Items stored between `tail` and `head`, going forward modulo `slots`. */
  function Span<T>(buf: seq<T>, tail: nat, head: nat): (s: seq<T>)
    requires tail < |buf| && head < |buf|
    ensures |s| == Count(tail, head, |buf|)
  {
    if tail <= head then buf[tail..head] else buf[tail..] + buf[..head]
  }

  class LocklessRingBuffer<T(0)> {
    const buffer: array<T>
    const size: nat
    var head: nat
    var tail: nat

    ghost predicate Valid()
      reads this
    {
      size >= 2 && buffer.Length == size && head < size && tail < size
    }

    /** The abstract queue: the oldest item first. */
    ghost function Contents(): (s: seq<T>)
      reads this, buffer
      requires Valid()
      ensures |s| <= size - 1
    {
      Span(buffer[..], tail, head)
    }

    /** Number of items the caller asked the buffer to hold. */
    function Capacity(): nat
      reads this
      requires Valid()
    {
      size - 1
    }

    constructor Init(slots: nat)
      requires slots >= 2
      ensures Valid() && fresh(buffer)
      ensures size == slots && Contents() == []
    {
      size := slots;
      buffer := new T[slots];
      head, tail := 0, 0;
    }

    /** The constructor: throws `invalid_argument` when fewer than two
        slots would result, otherwise yields an empty buffer holding up to
        `requested` items. */
    static method Create(requested: int) returns (r: Result<LocklessRingBuffer<T>, Error>)
      ensures SlotCount(requested) < 2 <==> r.Failure?
      ensures r.Success? ==> fresh(r.value) && fresh(r.value.buffer) && r.value.Valid()
      ensures r.Success? ==> r.value.size == SlotCount(requested) && r.value.Contents() == []
    {
      var slots := SlotCount(requested);
      if slots < 2 {
        return Failure(InvalidArgument("Size must be greater than 0"));
      }
      var b := new LocklessRingBuffer<T>.Init(slots);
      return Success(b);
    }

    method Push(item: T) returns (ok: bool)
      requires Valid()
      modifies this, buffer
      ensures Valid()
      ensures ok <==> |old(Contents())| < Capacity()
      ensures Contents() == if ok then old(Contents()) + [item] else old(Contents())
      ensures !ok ==> head == old(head) && tail == old(tail) && buffer[..] == old(buffer[..])
    {
      var currentHead := head;
      var nextHead := Next(currentHead, size);
      if nextHead == tail {
        return false;
      }
      buffer[currentHead] := item;
      head := nextHead;
      ok := true;
      SpanPush(old(buffer[..]), buffer[..], tail, currentHead, item);
    }

    method Pop() returns (r: Option<T>)
      requires Valid()
      modifies this
      ensures Valid() && head == old(head)
      ensures old(Contents()) == [] <==> r == None
      ensures r.Some? ==> r.value == old(Contents())[0] && Contents() == old(Contents())[1..]
      ensures r == None ==> tail == old(tail)
    {
      var currentTail := tail;
      if currentTail == head {
        return None;
      }
      var item := buffer[currentTail];
      tail := Next(currentTail, size);
      r := Some(item);
      SpanPop(buffer[..], currentTail, head);
    }

    function IsEmpty(): (b: bool)
      reads this
      requires Valid()
      ensures b <==> head == tail
      ensures b <==> Contents() == []
    {
      head == tail
    }

    function IsFull(): (b: bool)
      reads this
      requires Valid()
      ensures b <==> |Contents()| == Capacity()
    {
      Next(head, size) == tail
    }
  }

  lemma SpanPush<T>(before: seq<T>, after: seq<T>, tail: nat, head: nat, item: T)
    requires tail < |before| && head < |before| && |after| == |before|
    requires Next(head, |before|) != tail
    requires after == before[head := item]
    ensures Span(after, tail, Next(head, |before|)) == Span(before, tail, head) + [item]
  {
    var n := |before|;
    if tail <= head {
      if head + 1 < n {
        assert after[tail..head + 1] == before[tail..head] + [item];
      } else {
        assert after[tail..] == before[tail..head] + [item];
        assert after[..0] == [];
      }
    } else {
      assert after[tail..] == before[tail..];
      assert after[..head + 1] == before[..head] + [item];
    }
  }

  lemma SpanPop<T>(buf: seq<T>, tail: nat, head: nat)
    requires tail < |buf| && head < |buf| && tail != head
    ensures Span(buf, tail, head) != []
    ensures Span(buf, tail, head)[0] == buf[tail]
    ensures Span(buf, Next(tail, |buf|), head) == Span(buf, tail, head)[1..]
  {
    var n := |buf|;
    if tail > head {
      if tail + 1 == n {
        assert buf[tail..] == [buf[tail]];
        assert Span(buf, 0, head) == buf[..head];
      } else {
        assert buf[tail + 1..] == buf[tail..][1..];
      }
    }
  }

  /** Two items pushed into a one-item buffer: the second push is refused,
      and after one pop the buffer takes an item again. */
  method FullBufferReopensAfterPop() returns (first: bool, second: bool, popped: Option<int>, third: bool)
    ensures first && !second && popped == Some(1) && third
  {
    var r := LocklessRingBuffer<int>.Create(1);
    var b := r.value;
    first := b.Push(1);
    second := b.Push(2);
    popped := b.Pop();
    third := b.Push(3);
  }
}
