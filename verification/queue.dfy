/**
 * The circular FIFO queue of DEFINE_QUEUE / GENERATE_QUEUE. The element at
 * logical position i sits in slot (head + i) & (size - 1); elements are added
 * at the back and removed at head.
 */
module Queues {
  import opened Bits
  import Ring
  import opened Growth
  import opened Memory

  class Queue<T(0)> {
    /** init_size, growth_factor and the maximum of len_type for this element type. */
    const params: Params
    /** The buffer embedded in the struct; never freed. */
    const inlineBuf: array<T>
    /** The buffer in use: inlineBuf itself, or a heap buffer. */
    var values: array<T>
    var head: nat
    var len: nat
    var size: nat

    /** The invariant every operation keeps. */
    ghost predicate Valid()
      reads this
    {
      && params.Valid()
      && inlineBuf.Length == params.initSize
      && values.Length == size
      && IsPow2(size) && params.initSize <= size <= params.maxLen
      && (values == inlineBuf <==> size == params.initSize)
      && head < size && len <= size
    }

    /** The live elements, oldest first. */
    function Contents(): seq<T>
      reads this, values
      requires Valid()
    {
      Ring.Logical(values[..], head, len)
    }

    /** queue_init: empty, head at slot 0, on the inline buffer with the initial capacity. */
    constructor Init(p: Params)
      requires p.Valid()
      ensures Valid() && fresh(inlineBuf)
      ensures params == p && values == inlineBuf && head == 0 && len == 0 && size == p.initSize
      ensures Contents() == []
    {
      params := p;
      var buf := new T[p.initSize];
      inlineBuf := buf;
      values := buf;
      head := 0;
      len := 0;
      size := p.initSize;
    }

    /** queue_empty */
    function IsEmpty(): (r: bool)
      reads this, values
      requires Valid()
      ensures r <==> Contents() == []
    {
      len == 0
    }

    /** queue_full: the live elements fill every slot of the buffer. */
    function IsFull(): (r: bool)
      reads this, values
      requires Valid()
      ensures r <==> |Contents()| == size
    {
      len == size
    }

    /**
     * queue_resize: refused, with nothing changed, when size > MAX / growth_factor
     * or the allocator fails. Otherwise the capacity is multiplied by the growth
     * factor and the buffer relocated: a heap queue that does not wrap keeps
     * every slot; otherwise the live run is moved to the front of a new buffer
     * and head becomes 0, a wrapped run as its tail part followed by its head
     * part. The elements and their order are kept. The not-wrapped inline case
     * is the corrected one; see Growth.RelocatedAsWritten.
     */
    method Resize(allocOk: bool) returns (ok: bool)
      requires Valid()
      modifies this
      ensures Valid()
      ensures ok <==> GrowthFits(old(size), params) && allocOk
      ensures ok ==> size == old(size) * params.growthFactor && old(size) < size && fresh(values)
      ensures !ok ==> unchanged(this)
      ensures len == old(len)
      ensures ok && old(head + len > size) ==>
        head == 0 && values[..old(size)] == old(values[head..] + values[..head])
      ensures ok && old(head + len <= size && values != inlineBuf) ==>
        head == old(head) && values[..old(size)] == old(values[..])
      ensures ok && old(head + len <= size && values == inlineBuf) ==>
        head == 0 && values[..old(len)] == old(values[head..head + len])
      ensures Contents() == old(Contents())
    {
      if size > params.maxLen / params.growthFactor {
        return false;
      }
      GrownSizeValid(size, params);
      var newSize := size * params.growthFactor;
      var grown, newHead;
      ok, grown, newHead := Relocate(values, values != inlineBuf, head, len, newSize, allocOk);
      if !ok {
        return;
      }
      size := newSize;
      values := grown;
      head := newHead;
    }

    /** queue_clear: forgets the elements and moves head back to slot 0; buffer and capacity stay. */
    method Clear()
      requires Valid()
      modifies this`len, this`head
      ensures Valid()
      ensures len == 0 && head == 0 && Contents() == []
    {
      len := 0;
      head := 0;
    }

    /** queue_delete: cleared, and back on the inline buffer with the initial capacity. */
    method Delete()
      requires Valid()
      modifies this
      ensures Valid()
      ensures len == 0 && head == 0 && values == inlineBuf && size == params.initSize
      ensures Contents() == []
    {
      Clear();
      if values != inlineBuf {
        values := inlineBuf;
        size := params.initSize;
      }
    }

    /**
     * queue_enque: grows first when full; fails, with nothing changed, only when
     * that growth fails. Otherwise v is written at slot (head + len) & (size - 1)
     * and becomes the newest element.
     */
    method Enqueue(v: T, allocOk: bool) returns (ok: bool)
      requires Valid()
      modifies this, values
      ensures Valid()
      ensures ok <==> old(len < size) || (GrowthFits(old(size), params) && allocOk)
      ensures ok ==> Contents() == old(Contents()) + [v]
      ensures ok ==> size == if old(len < size) then old(size) else old(size) * params.growthFactor
      ensures old(len < size) ==> values == old(values) && head == old(head)
      ensures ok && old(len == size) ==> head == 0
      ensures values == old(values) || fresh(values)
      ensures !ok ==> unchanged(this) && unchanged(values)
    {
      if len == size {
        ok := Resize(allocOk);
        if !ok {
          return;
        }
      }
      PutBack(v);
      ok := true;
    }

    /** The write of queue_enque once there is room: slot (head + len) & (size - 1) receives v. */
    method PutBack(v: T)
      requires Valid() && len < size
      modifies this`len, values
      ensures Valid() && len == old(len) + 1
      ensures Contents() == old(Contents()) + [v]
    {
      RingIndexFits(params, size, head, len);
      var slot := MaskIndex(head + len, size);
      ghost var buf := values[..];
      values[slot] := v;
      assert values[..] == buf[slot := v];
      Ring.LogicalPushBack(buf, head, len, slot, v);
      len := len + 1;
    }

    /** queue_deque: fails on an empty queue; otherwise head steps forward one slot, dropping the oldest element. */
    method Dequeue() returns (ok: bool)
      requires Valid()
      modifies this`head, this`len
      ensures Valid()
      ensures ok <==> old(len) > 0
      ensures ok ==> head == (old(head) + 1) % size && len == old(len) - 1
      ensures ok ==> Contents() == old(Contents())[1..]
      ensures !ok ==> head == old(head) && len == old(len)
    {
      if len == 0 {
        return false;
      }
      RingIndexFits(params, size, head, len);
      Ring.LogicalPopFront(values[..], head, len);
      head := MaskIndex(head + 1, size);
      len := len - 1;
      ok := true;
    }

    /** queue_peek: the oldest element; calling it on an empty queue is a contract violation. */
    function Peek(): (v: T)
      reads this, values
      requires Valid() && len > 0
      ensures v == Contents()[0]
    {
      Ring.LogicalEnds(values[..], head, len);
      values[head]
    }

    /**
     * queue_reverse: the live elements in reverse order, by swapping the slots
     * of logical positions i and len - 1 - i, both masked; head, len and size
     * stay.
     */
    method Reverse()
      requires Valid()
      modifies values
      ensures Valid()
      ensures Contents() == Ring.Reverse(old(Contents()))
    {
      if len < 2 {
        return;
      }
      RingIndexFits(params, size, head, len);
      ReverseRing(values, head, len);
    }
  }

  /**
   * The loop of queue_reverse: for i below len / 2, swaps the slots
   * (head + i) & mask and (tail - i) & mask, where tail = head + len - 1 and
   * mask = size - 1.
   */
  method ReverseRing<T>(a: array<T>, head: nat, len: nat)
    requires IsPow2(a.Length) && head < a.Length && 0 < len <= a.Length
    modifies a
    ensures Ring.Logical(a[..], head, len) == Ring.Reverse(old(Ring.Logical(a[..], head, len)))
  {
    var size := a.Length;
    var tail := head + len - 1;
    ghost var start := Ring.Logical(a[..], head, len);
    var i := 0;
    while i < len / 2
      invariant i <= len / 2
      invariant Ring.Logical(a[..], head, len) == Ring.SwappedEnds(start, i)
    {
      var x := MaskIndex(head + i, size);
      var y := MaskIndex(tail - i, size);
      ghost var prev := a[..];
      Swap(a, x, y);
      Ring.LogicalReverseStep(prev, head, len, start, i, x, y);
      i := i + 1;
    }
    Ring.SwappedEndsBounds(start);
  }
}
