/**
 * The growth algorithm shared by the stack, the queue and the deque: the
 * per-type configuration and its compile-time checks, the overflow guard,
 * and the relocation of the live elements into a larger buffer.
 *
 * The allocator is an input: `allocOk` is false exactly when the allocation
 * (or reallocation) the source asks for returns NULL. A reallocation is a
 * fresh array holding a copy of the whole old buffer; freeing a heap buffer
 * is dropping the reference to it.
 */
module Growth {
  import opened Bits
  import opened Ring
  import opened Memory

  /**
   * The macro arguments fixed per element type: init_size, growth_factor and
   * the largest value of len_type, (len_type)(-1).
   */
  datatype Params = Params(initSize: nat, growthFactor: nat, maxLen: nat)
  {
    /** The static assertions of DEFINE_* and GENERATE_*, for an unsigned len_type that can count init_size. */
    predicate Valid()
    {
      && 1 < initSize < 256 && IsPow2(initSize)
      && 1 < growthFactor < 32 && IsPow2(growthFactor)
      && IsPow2(maxLen + 1) && initSize <= maxLen
    }
  }

  /** The guard at the top of every resize: growth is refused when size > MAX / growth_factor. */
  predicate GrowthFits(size: nat, p: Params)
    requires p.Valid()
  {
    !(size > p.maxLen / p.growthFactor)
  }

  /** The guard, which divides, admits exactly the sizes whose product with the factor fits in len_type. */
  lemma GuardMeansNoOverflow(size: nat, p: Params)
    requires p.Valid()
    ensures GrowthFits(size, p) <==> size * p.growthFactor <= p.maxLen
  {
    var gf := p.growthFactor;
    var q, r := p.maxLen / gf, p.maxLen % gf;
    assert p.maxLen == gf * q + r;
    if size <= q {
      MulMonotone(gf, size, q);
    } else {
      MulMonotone(gf, q + 1, size);
      assert gf * (q + 1) == gf * q + gf;
    }
    assert size * gf == gf * size;
  }

  /** One successful growth keeps the capacity a power of two within len_type, and strictly larger. */
  lemma GrownSizeValid(size: nat, p: Params)
    requires p.Valid() && IsPow2(size) && size >= 1 && GrowthFits(size, p)
    ensures IsPow2(size * p.growthFactor)
    ensures size < size * p.growthFactor <= p.maxLen
  {
    var gf := p.growthFactor;
    GuardMeansNoOverflow(size, p);
    Pow2Product(size, gf);
    MulMonotone(size, 2, gf);
    assert size * 2 == size + size;
  }

  /**
   * Growing from init_size * growth_factor^i succeeds, and lands on
   * init_size * growth_factor^(i + 1), as long as some later power still fits.
   */
  lemma GrowthStep(p: Params, i: nat, k: nat)
    requires p.Valid() && i < k && p.initSize * Pow(p.growthFactor, k) <= p.maxLen
    ensures GrowthFits(p.initSize * Pow(p.growthFactor, i), p)
    ensures p.initSize * Pow(p.growthFactor, i) * p.growthFactor == p.initSize * Pow(p.growthFactor, i + 1)
  {
    var init, gf := p.initSize, p.growthFactor;
    PowMonotone(gf, i + 1, k);
    MulMonotone(init, Pow(gf, i + 1), Pow(gf, k));
    assert Pow(gf, i + 1) == gf * Pow(gf, i);
    Rearrange(init, gf, Pow(gf, i));
    GuardMeansNoOverflow(init * Pow(gf, i), p);
  }

  /**
   * The unsigned index expressions of the circular containers, head + len and
   * head + size - 1, never exceed len_type's maximum, so computing them with
   * unbounded integers loses no wrap-around.
   */
  lemma RingIndexFits(p: Params, size: nat, head: nat, len: nat)
    requires p.Valid() && IsPow2(size) && size <= p.maxLen
    requires head < size && len <= size
    ensures head + len <= p.maxLen && head + size - 1 <= p.maxLen
  {
    Pow2Gap(size, p.maxLen + 1);
  }

  /**
   * The relocation step of every resize, after the overflow guard, with the
   * not-wrapped inline case corrected (see RelocatedAsWritten for the code as
   * written). A heap buffer whose live run does not wrap is reallocated: every
   * slot keeps its place. Otherwise a new buffer is allocated and the live
   * run moved to its front, head becoming 0: an unwrapped run is copied in
   * one piece from slot head; a wrapped run as the tail run values[head..]
   * followed by the head run values[..head]. Either way the live sequence is
   * the same afterwards. The stack calls it with head 0; its live run never
   * wraps.
   */
  method Relocate<T(0)>(values: array<T>, inHeap: bool, head: nat, len: nat, newSize: nat, allocOk: bool)
    returns (ok: bool, grown: array<T>, newHead: nat)
    requires head < values.Length && len <= values.Length < newSize
    ensures ok == allocOk
    ensures !ok ==> grown == values && newHead == head
    ensures ok ==> fresh(grown) && grown.Length == newSize
    ensures ok && head + len > values.Length ==>
      newHead == 0 && grown[..values.Length] == values[head..] + values[..head]
    ensures ok && head + len <= values.Length && inHeap ==>
      newHead == head && grown[..values.Length] == values[..]
    ensures ok && head + len <= values.Length && !inHeap ==>
      newHead == 0 && grown[..len] == values[head..head + len]
    ensures ok ==> Logical(grown[..], newHead, len) == Logical(values[..], head, len)
  {
    var size := values.Length;
    var notWrapped := head + len <= size;
    if !allocOk {
      return false, values, head;
    }
    grown := new T[newSize];
    if notWrapped && inHeap {
      MemoryCopy(grown, 0, values, 0, size);
      newHead := head;
    } else if notWrapped {
      MemoryCopy(grown, 0, values, head, len);
      newHead := 0;
    } else {
      var firstChunk := size - head;
      MemoryCopy(grown, 0, values, head, firstChunk);
      MemoryCopy(grown, firstChunk, values, 0, head);
      assert grown[..size] == grown[0..firstChunk] + grown[firstChunk..firstChunk + head];
      newHead := 0;
    }
    ok := true;
    RelocationKeepsOrder(values[..], inHeap, head, len, grown[..], newHead);
  }

  /** Each of the three relocations of Relocate leaves the live sequence as it was. */
  lemma RelocationKeepsOrder<T>(buf: seq<T>, inHeap: bool, head: nat, len: nat, grown: seq<T>, newHead: nat)
    requires head < |buf| && len <= |buf| < |grown|
    requires head + len > |buf| ==> newHead == 0 && grown[..|buf|] == buf[head..] + buf[..head]
    requires head + len <= |buf| && inHeap ==> newHead == head && grown[..|buf|] == buf
    requires head + len <= |buf| && !inHeap ==> newHead == 0 && grown[..len] == buf[head..head + len]
    ensures newHead < |grown|
    ensures Logical(grown, newHead, len) == Logical(buf, head, len)
  {
    if head + len > |buf| {
      UnwrapKeepsOrder(buf, head, len, grown);
    } else if inHeap {
      forall i | head <= i < head + len
        ensures grown[i] == buf[i]
      {
        assert grown[..|buf|][i] == grown[i];
      }
      assert grown[head..head + len] == buf[head..head + len];
      InPlaceKeepsOrder(buf, head, len, grown);
    } else {
      CopyToFrontKeepsOrder(buf, head, len, grown);
    }
  }

  /**
   * The relocation of queue_resize and deque_resize as written, on values.
   * `block` is whatever the newly obtained memory holds before it is written
   * (C leaves it indeterminate). In the not-wrapped inline case the code
   * copies len slots starting at slot 0, not at head, and keeps head: the
   * live run is only carried over when head is 0. Returns the new buffer and
   * the new head.
   */
  function RelocatedAsWritten<T>(buf: seq<T>, inHeap: bool, head: nat, len: nat, block: seq<T>): (r: (seq<T>, nat))
    requires head < |buf| && len <= |buf| < |block|
    ensures |r.0| == |block| && r.1 < |r.0|
    ensures inHeap || head + len > |buf| || head == 0 ==> Logical(r.0, r.1, len) == Logical(buf, head, len)
  {
    var size := |buf|;
    if head + len <= size && inHeap then
      InPlaceKeepsOrder(buf, head, len, buf + block[size..]);
      (buf + block[size..], head)
    else if head + len <= size then
      if head == 0 then
        assert (buf[..len] + block[len..])[..len] == buf[0..len];
        CopyToFrontKeepsOrder(buf, 0, len, buf[..len] + block[len..]);
        (buf[..len] + block[len..], head)
      else
        (buf[..len] + block[len..], head)
    else
      var grown := buf[head..] + buf[..head] + block[size..];
      assert grown[..size] == buf[head..] + buf[..head];
      UnwrapKeepsOrder(buf, head, len, grown);
      (grown, 0)
  }

  /**
   * The defect, on the smallest queue: init_size 4, enqueue 1 and 2, dequeue
   * once (head 1, live [2]), then resize. With a zeroed new block the element
   * at head afterwards is 0, not 2: slot 1 was never written.
   */
  lemma AsWrittenLosesElement()
    ensures var r := RelocatedAsWritten([1, 2, 0, 0], false, 1, 1, seq(8, _ => 0));
      Logical([1, 2, 0, 0], 1, 1) == [2] && Logical(r.0, r.1, 1) == [0]
  {
    var r := RelocatedAsWritten([1, 2, 0, 0], false, 1, 1, seq(8, _ => 0));
    assert r.0[1] == 0;
  }
}
