/**
 * Client programs over the stack that exercise the promises its tests check,
 * for every configuration and every input: last in first out, reversal, the
 * full / grow / refill cycle, and repeated growth followed by delete. Each
 * allocates its own stack and leaves nothing else changed; the allocator
 * always succeeds.
 */
module StackLaws {
  import opened Bits
  import Ring
  import opened Growth
  import opened Stacks

  /** A fresh stack holding vs, bottom first, built by pushing each element. */
  method FromSeq<T(0)>(p: Params, vs: seq<T>) returns (s: Stack<T>)
    requires p.Valid() && |vs| <= p.maxLen / p.growthFactor
    ensures s.Valid() && fresh(s) && fresh(s.values) && s.params == p
    ensures s.Contents() == vs
  {
    s := new Stack<T>.Init(p);
    var i := 0;
    while i < |vs|
      invariant i <= |vs|
      invariant s.Valid() && fresh(s) && fresh(s.values) && s.params == p
      invariant s.Contents() == vs[..i]
    {
      var ok := s.Push(vs[i], true);
      assert vs[..i + 1] == vs[..i] + [vs[i]];
      i := i + 1;
    }
    assert vs[..i] == vs;
  }

  /** stack_peek then stack_pop: the top element, which the stack no longer holds. */
  method TakeTop<T(0)>(s: Stack<T>) returns (top: T)
    requires s.Valid() && s.len > 0
    modifies s
    ensures s.Valid() && s.values == old(s.values) && s.len == old(s.len) - 1
    ensures old(s.Contents()) == s.Contents() + [top]
  {
    top := s.Peek();
    var ok := s.Pop();
  }

  /** Peeks and pops until the stack is empty: the elements come out top first. */
  method DrainTop<T(0)>(s: Stack<T>) returns (popped: seq<T>)
    requires s.Valid()
    modifies s
    ensures popped == Ring.Reverse(old(s.Contents()))
  {
    popped := [];
    while !s.IsEmpty()
      invariant s.Valid() && s.values == old(s.values)
      invariant Ring.Reverse(old(s.Contents())) == popped + Ring.Reverse(s.Contents())
      decreases s.len
    {
      ghost var rest := s.Contents();
      var top := TakeTop(s);
      Ring.ReverseSnoc(s.Contents(), top);
      Ring.TakeFirst(Ring.Reverse(old(s.Contents())), popped, Ring.Reverse(rest), top, Ring.Reverse(s.Contents()));
      popped := popped + [top];
    }
    assert Ring.Reverse(s.Contents()) == [];
  }

  /**
   * Pushing vs and then peeking and popping until the stack is empty yields vs
   * backwards. Every push succeeds while fewer than MAX / growth_factor
   * elements are stored.
   */
  method PushAllPopAll<T(0)>(p: Params, vs: seq<T>) returns (popped: seq<T>)
    requires p.Valid() && |vs| <= p.maxLen / p.growthFactor
    ensures popped == Ring.Reverse(vs)
  {
    var s := FromSeq(p, vs);
    popped := DrainTop(s);
  }

  /** Reversing a stack built from vs gives vs backwards; reversing again gives vs back. */
  method PushAllReverse<T(0)>(p: Params, vs: seq<T>) returns (once: seq<T>, twice: seq<T>)
    requires p.Valid() && |vs| <= p.maxLen / p.growthFactor
    ensures once == Ring.Reverse(vs) && twice == vs
  {
    var s := FromSeq(p, vs);
    s.Reverse();
    once := s.Contents();
    s.Reverse();
    twice := s.Contents();
    Ring.ReverseInvolution(vs);
  }

  /**
   * An empty stack is not full; init_size pushes fill it; one growth makes room
   * again; size - len further pushes fill it again.
   */
  method FullCycle<T(0)>(p: Params, v: T) returns (atStart: bool, filled: bool, grown: bool, refilled: bool)
    requires p.Valid() && GrowthFits(p.initSize, p)
    ensures !atStart && filled && !grown && refilled
  {
    var s := new Stack<T>.Init(p);
    atStart := s.IsFull();
    var n := s.size;
    var i := 0;
    while i < n
      invariant i <= n == s.size && s.len == i
      invariant s.Valid() && fresh(s) && fresh(s.values) && s.params == p
    {
      var ok := s.Push(v, true);
      i := i + 1;
    }
    filled := s.IsFull();
    var ok := s.Resize(true);
    grown := s.IsFull();
    var extra := s.size - s.len;
    i := 0;
    while i < extra
      invariant i <= extra && s.len == n + i && s.size == n + extra
      invariant s.Valid() && fresh(s) && fresh(s.values)
    {
      ok := s.Push(v, true);
      i := i + 1;
    }
    refilled := s.IsFull();
  }

  /**
   * k growths of a fresh stack all succeed while init_size * growth_factor^k
   * fits in len_type, the i-th leaving capacity init_size * growth_factor^i;
   * delete then restores the initial capacity.
   */
  method RepeatedGrowth<T(0)>(p: Params, k: nat) returns (allOk: bool, sizes: seq<nat>, restored: nat)
    requires p.Valid() && p.initSize * Pow(p.growthFactor, k) <= p.maxLen
    ensures allOk && |sizes| == k && restored == p.initSize
    ensures forall i :: 0 <= i < k ==> sizes[i] == p.initSize * Pow(p.growthFactor, i + 1)
  {
    var s := new Stack<T>.Init(p);
    allOk, sizes := true, [];
    var i := 0;
    while i < k
      invariant i <= k && |sizes| == i && allOk
      invariant s.Valid() && fresh(s) && s.params == p
      invariant s.size == p.initSize * Pow(p.growthFactor, i)
      invariant forall j :: 0 <= j < i ==> sizes[j] == p.initSize * Pow(p.growthFactor, j + 1)
    {
      GrowthStep(p, i, k);
      var ok := s.Resize(true);
      allOk := allOk && ok;
      sizes := sizes + [s.size];
      i := i + 1;
    }
    s.Delete();
    restored := s.size;
  }
}
