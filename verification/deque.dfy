/**
 * The circular double-ended queue of DEFINE_DEQUE / GENERATE_DEQUE. The
 * element at logical position i sits in slot (front + i) & (size - 1);
 * elements are added and removed at both ends.
 */
module Deques {
  import opened Bits
  import Ring
  import opened Growth

  class Deque<T(0)> {
    /** init_size, growth_factor and the maximum of len_type for this element type. */
    const params: Params
    /** The buffer embedded in the struct; never freed. */
    const inlineBuf: array<T>
    /** The buffer in use: inlineBuf itself, or a heap buffer. */
    var values: array<T>
    var front: nat
    var len: nat
    var size: nat

    /** The invariant every operation keeps. */
    ghost predicate Valid()
      reads this
    {
      && params.Valid()
      && inlineBuf.Length == params.initSize
      && values.Length == size
      && IsPow2(size) && params.initSize <= size <= params.maxLen
      && (values == inlineBuf <==> size == params.initSize)
      && front < size && len <= size
    }

    /** The live elements, front first. */
    function Contents(): seq<T>
      reads this, values
      requires Valid()
    {
      Ring.Logical(values[..], front, len)
    }

    /** deque_init: empty, front at slot 0, on the inline buffer with the initial capacity. */
    constructor Init(p: Params)
      requires p.Valid()
      ensures Valid() && fresh(inlineBuf)
      ensures params == p && values == inlineBuf && front == 0 && len == 0 && size == p.initSize
      ensures Contents() == []
    {
      params := p;
      var buf := new T[p.initSize];
      inlineBuf := buf;
      values := buf;
      front := 0;
      len := 0;
      size := p.initSize;
    }

    /** deque_peek_front: the front element; calling it on an empty deque is a contract violation. */
    function PeekFront(): (v: T)
      reads this, values
      requires Valid() && len > 0
      ensures v == Contents()[0]
    {
      Ring.LogicalEnds(values[..], front, len);
      values[front]
    }

    /** deque_peek_back: the back element, at slot (front + len - 1) & (size - 1). */
    function PeekBack(): (v: T)
      reads this, values
      requires Valid() && len > 0
      ensures v == Contents()[|Contents()| - 1]
    {
      Ring.LogicalEnds(values[..], front, len);
      values[MaskIndex(front + len - 1, size)]
    }

    /** deque_empty */
    function IsEmpty(): (r: bool)
      reads this, values
      requires Valid()
      ensures r <==> Contents() == []
    {
      len == 0
    }

    /** deque_full: the live elements fill every slot of the buffer. */
    function IsFull(): (r: bool)
      reads this, values
      requires Valid()
      ensures r <==> |Contents()| == size
    {
      len == size
    }

    /**
     * deque_resize: refused, with nothing changed, when size > MAX / growth_factor
     * or the allocator fails. Otherwise the capacity is multiplied by the growth
     * factor and the buffer relocated: a heap deque that does not wrap keeps
     * every slot; otherwise the live run is moved to the front of a new buffer
     * and front becomes 0, a wrapped run as its tail part followed by its head
     * part. The elements and their order are kept. The not-wrapped inline case
     * is the corrected one; see Growth.RelocatedAsWritten.
     */
    method Resize(allocOk: bool) returns (ok: bool)
      requires Valid()
      modifies this
      ensures Valid()
      ensures ok <==> GrowthFits(old(size), params) && allocOk
      ensures ok ==> size == old(size) * params.growthFactor && old(size) < size && fresh(values)
      ensures !ok ==> unchanged(this)
      ensures len == old(len)
      ensures ok && old(front + len > size) ==>
        front == 0 && values[..old(size)] == old(values[front..] + values[..front])
      ensures ok && old(front + len <= size && values != inlineBuf) ==>
        front == old(front) && values[..old(size)] == old(values[..])
      ensures ok && old(front + len <= size && values == inlineBuf) ==>
        front == 0 && values[..old(len)] == old(values[front..front + len])
      ensures Contents() == old(Contents())
    {
      if size > params.maxLen / params.growthFactor {
        return false;
      }
      GrownSizeValid(size, params);
      var newSize := size * params.growthFactor;
      var grown, newFront;
      ok, grown, newFront := Relocate(values, values != inlineBuf, front, len, newSize, allocOk);
      if !ok {
        return;
      }
      size := newSize;
      values := grown;
      front := newFront;
    }

    /** deque_clear: forgets the elements; front, the buffer and the capacity stay. */
    method Clear()
      requires Valid()
      modifies this`len
      ensures Valid()
      ensures len == 0 && Contents() == []
    {
      len := 0;
    }

    /** deque_delete: cleared, front back at slot 0, and back on the inline buffer with the initial capacity. */
    method Delete()
      requires Valid()
      modifies this
      ensures Valid()
      ensures len == 0 && front == 0 && values == inlineBuf && size == params.initSize
      ensures Contents() == []
    {
      Clear();
      front := 0;
      if values != inlineBuf {
        values := inlineBuf;
        size := params.initSize;
      }
    }

    /**
     * deque_insert_front: grows first when full; fails, with nothing changed,
     * only when that growth fails. Otherwise front steps back one slot, masked,
     * and v written there becomes the first element.
     */
    method InsertFront(v: T, allocOk: bool) returns (ok: bool)
      requires Valid()
      modifies this, values
      ensures Valid()
      ensures ok <==> old(len < size) || (GrowthFits(old(size), params) && allocOk)
      ensures ok ==> Contents() == [v] + old(Contents())
      ensures ok ==> size == if old(len < size) then old(size) else old(size) * params.growthFactor
      ensures old(len < size) ==> values == old(values) && front == (old(front) + size - 1) % size
      ensures ok && old(len == size) ==> front == size - 1
      ensures values == old(values) || fresh(values)
      ensures !ok ==> unchanged(this) && unchanged(values)
    {
      if len == size {
        ok := Resize(allocOk);
        if !ok {
          return;
        }
        assert front == 0;
        Ring.ModOnce(size - 1, size);
      }
      PutFront(v);
      ok := true;
    }

    /** The update of deque_insert_front once there is room: len grows, front steps back, v is written at front. */
    method PutFront(v: T)
      requires Valid() && len < size
      modifies this`len, this`front, values
      ensures Valid() && len == old(len) + 1
      ensures front == (old(front) + size - 1) % size
      ensures Contents() == [v] + old(Contents())
    {
      RingIndexFits(params, size, front, len);
      ghost var buf, oldFront := values[..], front;
      len := len + 1;
      front := MaskIndex(front + size - 1, size);
      values[front] := v;
      assert values[..] == buf[front := v];
      Ring.LogicalPushFront(buf, oldFront, len - 1, front, v);
    }

    /**
     * deque_insert_back: grows first when full; fails, with nothing changed,
     * only when that growth fails. Otherwise v is written at slot
     * (front + len) & (size - 1) and becomes the last element.
     */
    method InsertBack(v: T, allocOk: bool) returns (ok: bool)
      requires Valid()
      modifies this, values
      ensures Valid()
      ensures ok <==> old(len < size) || (GrowthFits(old(size), params) && allocOk)
      ensures ok ==> Contents() == old(Contents()) + [v]
      ensures ok ==> size == if old(len < size) then old(size) else old(size) * params.growthFactor
      ensures old(len < size) ==> values == old(values) && front == old(front)
      ensures ok && old(len == size) ==> front == 0
      ensures values == old(values) || fresh(values)
      ensures !ok ==> unchanged(this) && unchanged(values)
    {
      if len == size {
        ok := Resize(allocOk);
        if !ok {
          return;
        }
      }
      PutBack(v);
      ok := true;
    }

    /** The write of deque_insert_back once there is room: slot (front + len) & (size - 1) receives v. */
    method PutBack(v: T)
      requires Valid() && len < size
      modifies this`len, values
      ensures Valid() && len == old(len) + 1
      ensures Contents() == old(Contents()) + [v]
    {
      RingIndexFits(params, size, front, len);
      var slot := MaskIndex(front + len, size);
      ghost var buf := values[..];
      values[slot] := v;
      assert values[..] == buf[slot := v];
      Ring.LogicalPushBack(buf, front, len, slot, v);
      len := len + 1;
    }

    /** deque_remove_front: fails on an empty deque; otherwise front steps forward one slot, dropping the first element. */
    method RemoveFront() returns (ok: bool)
      requires Valid()
      modifies this`front, this`len
      ensures Valid()
      ensures ok <==> old(len) > 0
      ensures ok ==> front == (old(front) + 1) % size && len == old(len) - 1
      ensures ok ==> Contents() == old(Contents())[1..]
      ensures !ok ==> front == old(front) && len == old(len)
    {
      if len == 0 {
        return false;
      }
      RingIndexFits(params, size, front, len);
      Ring.LogicalPopFront(values[..], front, len);
      front := MaskIndex(front + 1, size);
      len := len - 1;
      ok := true;
    }

    /** deque_remove_back: fails on an empty deque; otherwise drops the last element, front stays. */
    method RemoveBack() returns (ok: bool)
      requires Valid()
      modifies this`len
      ensures Valid()
      ensures ok <==> old(len) > 0
      ensures ok ==> Contents() == old(Contents())[..old(len) - 1]
      ensures !ok ==> len == old(len)
    {
      if len == 0 {
        return false;
      }
      Ring.LogicalPopBack(values[..], front, len);
      len := len - 1;
      ok := true;
    }
  }
}
