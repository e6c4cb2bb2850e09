/**
 * Client programs over the deque that exercise the promises its tests check,
 * for every configuration and every input: last in first out at either end,
 * first in first out from back to front, the full / grow / refill cycle, and
 * repeated growth followed by delete. Each allocates its own deque and leaves
 * nothing else changed; the allocator always succeeds.
 */
module DequeLaws {
  import opened Bits
  import Ring
  import opened Growth
  import opened Deques

  /** A fresh deque holding vs, front first, built by inserting each element at the back. */
  method FromSeq<T(0)>(p: Params, vs: seq<T>) returns (d: Deque<T>)
    requires p.Valid() && |vs| <= p.maxLen / p.growthFactor
    ensures d.Valid() && fresh(d) && fresh(d.values) && d.params == p
    ensures d.Contents() == vs
  {
    d := new Deque<T>.Init(p);
    var i := 0;
    while i < |vs|
      invariant i <= |vs|
      invariant d.Valid() && fresh(d) && fresh(d.values) && d.params == p
      invariant d.Contents() == vs[..i]
    {
      var ok := d.InsertBack(vs[i], true);
      assert vs[..i + 1] == vs[..i] + [vs[i]];
      i := i + 1;
    }
    assert vs[..i] == vs;
  }

  /** A fresh deque built by inserting each element of vs at the front: it holds vs backwards. */
  method FromSeqFront<T(0)>(p: Params, vs: seq<T>) returns (d: Deque<T>)
    requires p.Valid() && |vs| <= p.maxLen / p.growthFactor
    ensures d.Valid() && fresh(d) && fresh(d.values) && d.params == p
    ensures d.Contents() == Ring.Reverse(vs)
  {
    d := new Deque<T>.Init(p);
    var i := 0;
    while i < |vs|
      invariant i <= |vs|
      invariant d.Valid() && fresh(d) && fresh(d.values) && d.params == p
      invariant d.Contents() == Ring.Reverse(vs[..i])
    {
      var ok := d.InsertFront(vs[i], true);
      assert vs[..i + 1] == vs[..i] + [vs[i]];
      Ring.ReverseSnoc(vs[..i], vs[i]);
      i := i + 1;
    }
    assert vs[..i] == vs;
  }

  /** deque_peek_front then deque_remove_front: the front element, which the deque no longer holds. */
  method TakeFront<T(0)>(d: Deque<T>) returns (first: T)
    requires d.Valid() && d.len > 0
    modifies d
    ensures d.Valid() && d.values == old(d.values) && d.len == old(d.len) - 1
    ensures old(d.Contents()) == [first] + d.Contents()
  {
    first := d.PeekFront();
    var ok := d.RemoveFront();
  }

  /** deque_peek_back then deque_remove_back: the back element, which the deque no longer holds. */
  method TakeBack<T(0)>(d: Deque<T>) returns (last: T)
    requires d.Valid() && d.len > 0
    modifies d
    ensures d.Valid() && d.values == old(d.values) && d.len == old(d.len) - 1
    ensures old(d.Contents()) == d.Contents() + [last]
  {
    last := d.PeekBack();
    var ok := d.RemoveBack();
  }

  /** Peeks and removes at the front until the deque is empty: the elements come out front first. */
  method DrainFront<T(0)>(d: Deque<T>) returns (out: seq<T>)
    requires d.Valid()
    modifies d
    ensures out == old(d.Contents())
  {
    out := [];
    while !d.IsEmpty()
      invariant d.Valid() && d.values == old(d.values)
      invariant old(d.Contents()) == out + d.Contents()
      decreases d.len
    {
      ghost var rest := d.Contents();
      var first := TakeFront(d);
      Ring.TakeFirst(old(d.Contents()), out, rest, first, d.Contents());
      out := out + [first];
    }
  }

  /** Peeks and removes at the back until the deque is empty: the elements come out back first. */
  method DrainBack<T(0)>(d: Deque<T>) returns (out: seq<T>)
    requires d.Valid()
    modifies d
    ensures out == Ring.Reverse(old(d.Contents()))
  {
    out := [];
    while !d.IsEmpty()
      invariant d.Valid() && d.values == old(d.values)
      invariant Ring.Reverse(old(d.Contents())) == out + Ring.Reverse(d.Contents())
      decreases d.len
    {
      ghost var rest := d.Contents();
      var last := TakeBack(d);
      Ring.ReverseSnoc(d.Contents(), last);
      Ring.TakeFirst(Ring.Reverse(old(d.Contents())), out, Ring.Reverse(rest), last, Ring.Reverse(d.Contents()));
      out := out + [last];
    }
    assert Ring.Reverse(d.Contents()) == [];
  }

  /**
   * Inserting vs at the front, each becoming the new front, and then peeking
   * and removing at the front until the deque is empty yields vs backwards.
   */
  method FrontInFrontOut<T(0)>(p: Params, vs: seq<T>) returns (out: seq<T>)
    requires p.Valid() && |vs| <= p.maxLen / p.growthFactor
    ensures out == Ring.Reverse(vs)
  {
    var d := FromSeqFront(p, vs);
    out := DrainFront(d);
  }

  /**
   * Inserting vs at the back and then peeking and removing at the back until
   * the deque is empty yields vs backwards.
   */
  method BackInBackOut<T(0)>(p: Params, vs: seq<T>) returns (out: seq<T>)
    requires p.Valid() && |vs| <= p.maxLen / p.growthFactor
    ensures out == Ring.Reverse(vs)
  {
    var d := FromSeq(p, vs);
    out := DrainBack(d);
  }

  /**
   * Inserting vs at the back and then peeking and removing at the front until
   * the deque is empty yields vs in the same order.
   */
  method BackInFrontOut<T(0)>(p: Params, vs: seq<T>) returns (out: seq<T>)
    requires p.Valid() && |vs| <= p.maxLen / p.growthFactor
    ensures out == vs
  {
    var d := FromSeq(p, vs);
    out := DrainFront(d);
  }

  /**
   * An empty deque is not full; init_size insertions at the front fill it;
   * one growth makes room again; size - len insertions at the back fill it
   * again.
   */
  method FullCycle<T(0)>(p: Params, v: T) returns (atStart: bool, filled: bool, grown: bool, refilled: bool)
    requires p.Valid() && GrowthFits(p.initSize, p)
    ensures !atStart && filled && !grown && refilled
  {
    var d := new Deque<T>.Init(p);
    atStart := d.IsFull();
    var n := d.size;
    var i := 0;
    while i < n
      invariant i <= n == d.size && d.len == i
      invariant d.Valid() && fresh(d) && fresh(d.values) && d.params == p
    {
      var ok := d.InsertFront(v, true);
      i := i + 1;
    }
    filled := d.IsFull();
    var ok := d.Resize(true);
    grown := d.IsFull();
    var extra := d.size - d.len;
    i := 0;
    while i < extra
      invariant i <= extra && d.len == n + i && d.size == n + extra
      invariant d.Valid() && fresh(d) && fresh(d.values)
    {
      ok := d.InsertBack(v, true);
      i := i + 1;
    }
    refilled := d.IsFull();
  }

  /**
   * k growths of a fresh deque all succeed while init_size * growth_factor^k
   * fits in len_type, the i-th leaving capacity init_size * growth_factor^i;
   * delete then restores the initial capacity.
   */
  method RepeatedGrowth<T(0)>(p: Params, k: nat) returns (allOk: bool, sizes: seq<nat>, restored: nat)
    requires p.Valid() && p.initSize * Pow(p.growthFactor, k) <= p.maxLen
    ensures allOk && |sizes| == k && restored == p.initSize
    ensures forall i :: 0 <= i < k ==> sizes[i] == p.initSize * Pow(p.growthFactor, i + 1)
  {
    var d := new Deque<T>.Init(p);
    allOk, sizes := true, [];
    var i := 0;
    while i < k
      invariant i <= k && |sizes| == i && allOk
      invariant d.Valid() && fresh(d) && d.params == p
      invariant d.size == p.initSize * Pow(p.growthFactor, i)
      invariant forall j :: 0 <= j < i ==> sizes[j] == p.initSize * Pow(p.growthFactor, j + 1)
    {
      GrowthStep(p, i, k);
      var ok := d.Resize(true);
      allOk := allOk && ok;
      sizes := sizes + [d.size];
      i := i + 1;
    }
    d.Delete();
    restored := d.size;
  }
}
