/**
 * Client programs over the queue that exercise the promises its tests check,
 * for every configuration and every input: first in first out, growth of a
 * wrapped queue, the full / grow / refill cycle, repeated growth followed by
 * delete, and reversal. Each allocates its own queue and leaves nothing else
 * changed; the allocator always succeeds.
 */
module QueueLaws {
  import opened Bits
  import Ring
  import opened Growth
  import opened Queues

  /**
   * A fresh queue holding vs, oldest first, built by enqueueing each element.
   * While vs fits in the inline buffer no growth happens and head stays at 0.
   */
  method FromSeq<T(0)>(p: Params, vs: seq<T>) returns (q: Queue<T>)
    requires p.Valid() && |vs| <= p.maxLen / p.growthFactor
    ensures q.Valid() && fresh(q) && fresh(q.values) && q.params == p
    ensures q.Contents() == vs
    ensures |vs| <= p.initSize ==> q.size == p.initSize && q.head == 0
  {
    q := new Queue<T>.Init(p);
    var i := 0;
    while i < |vs|
      invariant i <= |vs|
      invariant q.Valid() && fresh(q) && fresh(q.values) && q.params == p
      invariant q.Contents() == vs[..i]
      invariant |vs| <= p.initSize ==> q.size == p.initSize && q.head == 0
    {
      var ok := q.Enqueue(vs[i], true);
      assert vs[..i + 1] == vs[..i] + [vs[i]];
      i := i + 1;
    }
    assert vs[..i] == vs;
  }

  /** queue_peek then queue_deque: the oldest element, which the queue no longer holds. */
  method TakeOldest<T(0)>(q: Queue<T>) returns (first: T)
    requires q.Valid() && q.len > 0
    modifies q
    ensures q.Valid() && q.values == old(q.values) && q.len == old(q.len) - 1
    ensures old(q.Contents()) == [first] + q.Contents()
  {
    first := q.Peek();
    var ok := q.Dequeue();
  }

  /** Enqueues each element of ws into a queue with room for all of them: no growth happens. */
  method AppendAll<T(0)>(q: Queue<T>, ws: seq<T>)
    requires q.Valid() && q.len + |ws| <= q.size
    modifies q, q.values
    ensures q.Valid() && q.values == old(q.values) && q.size == old(q.size) && q.head == old(q.head)
    ensures q.Contents() == old(q.Contents()) + ws
  {
    ghost var start := q.Contents();
    var i := 0;
    while i < |ws|
      invariant i <= |ws|
      invariant q.Valid() && q.values == old(q.values) && q.size == old(q.size) && q.head == old(q.head)
      invariant q.len == old(q.len) + i
      invariant q.Contents() == start + ws[..i]
    {
      EnqueueWithRoom(q, ws[i]);
      assert ws[..i + 1] == ws[..i] + [ws[i]];
      assert start + ws[..i + 1] == (start + ws[..i]) + [ws[i]];
      i := i + 1;
    }
    assert ws[..i] == ws;
  }

  /** queue_enque on a queue with a free slot: it succeeds without growth and appends v. */
  method EnqueueWithRoom<T(0)>(q: Queue<T>, v: T)
    requires q.Valid() && q.len < q.size
    modifies q, q.values
    ensures q.Valid() && q.values == old(q.values) && q.size == old(q.size) && q.head == old(q.head)
    ensures q.len == old(q.len) + 1 && q.Contents() == old(q.Contents()) + [v]
  {
    var ok := q.Enqueue(v, true);
  }

  /**
   * Enqueueing vs and then peeking and dequeueing until the queue is empty
   * yields vs in the same order. Every enqueue succeeds while fewer than
   * MAX / growth_factor elements are stored.
   */
  method EnqueueAllDequeueAll<T(0)>(p: Params, vs: seq<T>) returns (out: seq<T>)
    requires p.Valid() && |vs| <= p.maxLen / p.growthFactor
    ensures out == vs
  {
    var q := FromSeq(p, vs);
    out := DrainOldest(q);
  }

  /** Peeks and dequeues until the queue is empty: the elements come out oldest first. */
  method DrainOldest<T(0)>(q: Queue<T>) returns (out: seq<T>)
    requires q.Valid()
    modifies q
    ensures out == old(q.Contents())
  {
    out := [];
    while !q.IsEmpty()
      invariant q.Valid() && q.values == old(q.values)
      invariant old(q.Contents()) == out + q.Contents()
      decreases q.len
    {
      ghost var rest := q.Contents();
      var first := TakeOldest(q);
      Ring.TakeFirst(old(q.Contents()), out, rest, first, q.Contents());
      out := out + [first];
    }
  }

  /** Dequeues the k oldest elements of a queue whose live run does not reach the end of the buffer. */
  method DropOldest<T(0)>(q: Queue<T>, k: nat)
    requires q.Valid() && k <= q.len && q.head + k < q.size
    modifies q
    ensures q.Valid() && q.size == old(q.size) && q.values == old(q.values)
    ensures q.head == old(q.head) + k && q.Contents() == old(q.Contents())[k..]
  {
    ghost var start := q.Contents();
    var j := 0;
    while j < k
      invariant j <= k
      invariant q.Valid() && q.size == old(q.size) && q.values == old(q.values)
      invariant q.head == old(q.head) + j && q.Contents() == start[j..]
    {
      Ring.ModOnce(q.head + 1, q.size);
      var ok := q.Dequeue();
      assert start[j..][1..] == start[j + 1..];
      j := j + 1;
    }
  }

  /**
   * A queue filled with init_size elements, then dequeued k times and
   * enqueued k times, is full and wraps with head at k. Growing it unwraps
   * it: head moves to slot 0 and the elements keep their order.
   */
  method WrappedGrowth<T(0)>(p: Params, vs: seq<T>, k: nat)
    returns (ok: bool, contents: seq<T>, head: nat, size: nat)
    requires p.Valid() && GrowthFits(p.initSize, p)
    requires 0 < k < p.initSize && |vs| == p.initSize + k
    ensures ok && contents == vs[k..] && head == 0 && size == p.initSize * p.growthFactor
  {
    var n := p.initSize;
    var q := FromSeq(p, vs[..n]);
    DropOldest(q, k);
    assert vs[..n][k..] == vs[k..n];
    AppendAll(q, vs[n..]);
    assert vs[k..n] + vs[n..] == vs[k..];
    ok := q.Resize(true);
    contents, head, size := q.Contents(), q.head, q.size;
  }

  /**
   * An empty queue is not full; init_size enqueues fill it; one growth makes
   * room again; size - len further enqueues fill it again.
   */
  method FullCycle<T(0)>(p: Params, v: T) returns (atStart: bool, filled: bool, grown: bool, refilled: bool)
    requires p.Valid() && GrowthFits(p.initSize, p)
    ensures !atStart && filled && !grown && refilled
  {
    var q := new Queue<T>.Init(p);
    atStart := q.IsFull();
    var n := q.size;
    var i := 0;
    while i < n
      invariant i <= n == q.size && q.len == i
      invariant q.Valid() && fresh(q) && fresh(q.values) && q.params == p
    {
      var ok := q.Enqueue(v, true);
      i := i + 1;
    }
    filled := q.IsFull();
    var ok := q.Resize(true);
    grown := q.IsFull();
    var extra := q.size - q.len;
    i := 0;
    while i < extra
      invariant i <= extra && q.len == n + i && q.size == n + extra
      invariant q.Valid() && fresh(q) && fresh(q.values)
    {
      ok := q.Enqueue(v, true);
      i := i + 1;
    }
    refilled := q.IsFull();
  }

  /**
   * k growths of a fresh queue all succeed while init_size * growth_factor^k
   * fits in len_type, the i-th leaving capacity init_size * growth_factor^i;
   * delete then restores the initial capacity.
   */
  method RepeatedGrowth<T(0)>(p: Params, k: nat) returns (allOk: bool, sizes: seq<nat>, restored: nat)
    requires p.Valid() && p.initSize * Pow(p.growthFactor, k) <= p.maxLen
    ensures allOk && |sizes| == k && restored == p.initSize
    ensures forall i :: 0 <= i < k ==> sizes[i] == p.initSize * Pow(p.growthFactor, i + 1)
  {
    var q := new Queue<T>.Init(p);
    allOk, sizes := true, [];
    var i := 0;
    while i < k
      invariant i <= k && |sizes| == i && allOk
      invariant q.Valid() && fresh(q) && q.params == p
      invariant q.size == p.initSize * Pow(p.growthFactor, i)
      invariant forall j :: 0 <= j < i ==> sizes[j] == p.initSize * Pow(p.growthFactor, j + 1)
    {
      GrowthStep(p, i, k);
      var ok := q.Resize(true);
      allOk := allOk && ok;
      sizes := sizes + [q.size];
      i := i + 1;
    }
    q.Delete();
    restored := q.size;
  }

  /** Reversing a queue built from vs gives vs backwards; reversing again gives vs back. */
  method EnqueueAllReverse<T(0)>(p: Params, vs: seq<T>) returns (once: seq<T>, twice: seq<T>)
    requires p.Valid() && |vs| <= p.maxLen / p.growthFactor
    ensures once == Ring.Reverse(vs) && twice == vs
  {
    var q := FromSeq(p, vs);
    q.Reverse();
    once := q.Contents();
    q.Reverse();
    twice := q.Contents();
    Ring.ReverseInvolution(vs);
  }
}
