/**
 * The LIFO stack of DEFINE_STACK / GENERATE_STACK. Its live elements are
 * always values[0..len): it never wraps. It starts on its inline buffer and
 * moves to a heap buffer, grown by the growth factor, once that is full.
 */
module Stacks {
  import opened Bits
  import Ring
  import opened Growth
  import opened Memory

  class Stack<T(0)> {
    /** init_size, growth_factor and the maximum of len_type for this element type. */
    const params: Params
    /** The buffer embedded in the struct; never freed. */
    const inlineBuf: array<T>
    /** The buffer in use: inlineBuf itself, or a heap buffer. */
    var values: array<T>
    var len: nat
    var size: nat

    /** The invariant every operation keeps. */
    ghost predicate Valid()
      reads this
    {
      && params.Valid()
      && inlineBuf.Length == params.initSize
      && values.Length == size
      && IsPow2(size) && params.initSize <= size <= params.maxLen
      && (values == inlineBuf <==> size == params.initSize)
      && len <= size
    }

    /** The live elements, bottom first. */
    function Contents(): seq<T>
      reads this, values
      requires Valid()
    {
      values[..len]
    }

    /** stack_init: empty, on the inline buffer, with the initial capacity. */
    constructor Init(p: Params)
      requires p.Valid()
      ensures Valid() && fresh(inlineBuf)
      ensures params == p && values == inlineBuf && len == 0 && size == p.initSize
      ensures Contents() == []
    {
      params := p;
      var buf := new T[p.initSize];
      inlineBuf := buf;
      values := buf;
      len := 0;
      size := p.initSize;
    }

    /** stack_empty */
    function IsEmpty(): (r: bool)
      reads this, values
      requires Valid()
      ensures r <==> Contents() == []
    {
      len == 0
    }

    /** stack_full: the live elements fill every slot of the buffer. */
    function IsFull(): (r: bool)
      reads this, values
      requires Valid()
      ensures r <==> |Contents()| == size
    {
      len == size
    }

    /**
     * stack_resize: refused, with nothing changed, when size > MAX / growth_factor
     * or the allocator fails; otherwise the capacity is multiplied by the growth
     * factor and the live elements stay where they were.
     */
    method Resize(allocOk: bool) returns (ok: bool)
      requires Valid()
      modifies this
      ensures Valid()
      ensures ok <==> GrowthFits(old(size), params) && allocOk
      ensures ok ==> size == old(size) * params.growthFactor && old(size) < size && fresh(values)
      ensures ok && old(values != inlineBuf) ==> values[..old(size)] == old(values[..])
      ensures !ok ==> unchanged(this)
      ensures len == old(len) && Contents() == old(Contents())
    {
      if size > params.maxLen / params.growthFactor {
        return false;
      }
      GrownSizeValid(size, params);
      var newSize := size * params.growthFactor;
      ghost var was := values[..];
      var grown, head;
      ok, grown, head := Relocate(values, values != inlineBuf, 0, len, newSize, allocOk);
      if !ok {
        return;
      }
      assert old(values != inlineBuf) ==> grown[..size] == was;
      Ring.LogicalFromZero(was, len);
      Ring.LogicalFromZero(grown[..], len);
      assert grown[..len] == was[..len];
      size := newSize;
      values := grown;
    }

    /** stack_clear: forgets the elements; the buffer and the capacity stay. */
    method Clear()
      requires Valid()
      modifies this`len
      ensures Valid()
      ensures len == 0 && Contents() == []
    {
      len := 0;
    }

    /** stack_delete: cleared, and back on the inline buffer with the initial capacity. */
    method Delete()
      requires Valid()
      modifies this
      ensures Valid()
      ensures len == 0 && values == inlineBuf && size == params.initSize
      ensures Contents() == []
    {
      Clear();
      if values != inlineBuf {
        values := inlineBuf;
        size := params.initSize;
      }
    }

    /**
     * stack_push: grows first when full; fails, with nothing changed, only
     * when that growth fails. Otherwise v is the new top.
     */
    method Push(v: T, allocOk: bool) returns (ok: bool)
      requires Valid()
      modifies this, values
      ensures Valid()
      ensures ok <==> old(len < size) || (GrowthFits(old(size), params) && allocOk)
      ensures ok ==> Contents() == old(Contents()) + [v]
      ensures ok ==> size == if old(len < size) then old(size) else old(size) * params.growthFactor
      ensures old(len < size) ==> values == old(values)
      ensures values == old(values) || fresh(values)
      ensures !ok ==> unchanged(this) && unchanged(values)
    {
      ghost var before := Contents();
      if len == size {
        ok := Resize(allocOk);
        if !ok {
          return;
        }
      }
      assert values[..len] == before;
      values[len] := v;
      assert values[..len + 1] == before + [v];
      len := len + 1;
      ok := true;
    }

    /** stack_pop: fails on an empty stack; otherwise drops the top and nothing else. */
    method Pop() returns (ok: bool)
      requires Valid()
      modifies this`len
      ensures Valid()
      ensures ok <==> old(len) > 0
      ensures ok ==> Contents() == old(Contents())[..old(len) - 1]
      ensures !ok ==> len == old(len)
    {
      if len == 0 {
        return false;
      }
      len := len - 1;
      ok := true;
    }

    /** stack_peek: the top element; calling it on an empty stack is a contract violation. */
    function Peek(): (v: T)
      reads this, values
      requires Valid() && len > 0
      ensures v == Contents()[|Contents()| - 1]
    {
      values[len - 1]
    }

    /** stack_reverse: the live elements in reverse order, by symmetric swaps; slots above the top untouched. */
    method Reverse()
      requires Valid()
      modifies values
      ensures Valid()
      ensures Contents() == Ring.Reverse(old(Contents()))
      ensures values[len..] == old(values[len..])
    {
      if len < 2 {
        return;
      }
      ReversePrefix(values, len);
    }
  }

  /** The loop of stack_reverse: symmetric swaps of slots i and len - 1 - i for i below len / 2. */
  method ReversePrefix<T>(a: array<T>, len: nat)
    requires len <= a.Length
    modifies a
    ensures a[..len] == Ring.Reverse(old(a[..len])) && a[len..] == old(a[len..])
  {
    ghost var start, above := a[..len], a[len..];
    var i := 0;
    while i < len / 2
      invariant i <= len / 2
      invariant a[..len] == Ring.SwappedEnds(start, i) && a[len..] == above
    {
      ghost var prev := a[..];
      Swap(a, i, len - 1 - i);
      Ring.PrefixReverseStep(prev, len, start, i);
      assert a[..len] == a[..][..len] && a[len..] == a[..][len..];
      i := i + 1;
    }
    Ring.SwappedEndsBounds(start);
  }
}
