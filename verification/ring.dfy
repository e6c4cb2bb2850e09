/**
 * The logical contents of a circular buffer, as a pure function of the raw
 * buffer, the start slot and the length, and the facts the containers need
 * about it: what writing one slot, moving the start, swapping two slots and
 * relocating the buffer do to the logical sequence.
 *
 * The stack is the special case head == 0 that never wraps.
 */
module Ring {

  /** Position i of the live sequence sits in slot (head + i) mod |buf|. */
  function Logical<T>(buf: seq<T>, head: nat, len: nat): (r: seq<T>)
    requires head < |buf| && len <= |buf|
    ensures |r| == len
  {
    seq(len, i requires 0 <= i < len => buf[(head + i) % |buf|])
  }

  /** Below twice the modulus, taking the remainder subtracts the modulus at most once. */
  lemma ModOnce(x: nat, n: nat)
    requires 0 < n && x < 2 * n
    ensures x % n == if x < n then x else x - n
  {
    if x >= n {
      assert x == n * 1 + (x - n);
    }
  }

  /** With the start at slot 0 the live sequence is the prefix of the buffer (the stack's view). */
  lemma LogicalFromZero<T>(buf: seq<T>, len: nat)
    requires 0 < |buf| && len <= |buf|
    ensures Logical(buf, 0, len) == buf[..len]
  {
    forall i | 0 <= i < len
      ensures Logical(buf, 0, len)[i] == buf[i]
    {
      ModOnce(i, |buf|);
    }
  }

  /** Writing the first free slot (head + len) mod n appends to the live sequence. */
  lemma LogicalPushBack<T>(buf: seq<T>, head: nat, len: nat, slot: nat, v: T)
    requires head < |buf| && len < |buf| && slot == (head + len) % |buf|
    ensures Logical(buf[slot := v], head, len + 1) == Logical(buf, head, len) + [v]
  {
    var n := |buf|;
    ModOnce(head + len, n);
    forall i | 0 <= i < len + 1
      ensures Logical(buf[slot := v], head, len + 1)[i] == (Logical(buf, head, len) + [v])[i]
    {
      ModOnce(head + i, n);
    }
  }

  /** Stepping the start one slot forward drops the first element. */
  lemma LogicalPopFront<T>(buf: seq<T>, head: nat, len: nat)
    requires head < |buf| && 0 < len <= |buf|
    ensures Logical(buf, (head + 1) % |buf|, len - 1) == Logical(buf, head, len)[1..]
  {
    var n := |buf|;
    ModOnce(head + 1, n);
    var h := (head + 1) % n;
    var rest := Logical(buf, head, len)[1..];
    forall i | 0 <= i < len - 1
      ensures Logical(buf, h, len - 1)[i] == rest[i]
    {
      ModOnce(head + i + 1, n);
      ModOnce(h + i, n);
    }
  }

  /** The first live element sits at the start slot; the last at (head + len - 1) mod n. */
  lemma LogicalEnds<T>(buf: seq<T>, head: nat, len: nat)
    requires head < |buf| && 0 < len <= |buf|
    ensures Logical(buf, head, len)[0] == buf[head]
    ensures Logical(buf, head, len)[len - 1] == buf[(head + len - 1) % |buf|]
  {
    ModOnce(head, |buf|);
  }

  /** Shortening the live sequence drops its last element and nothing else. */
  lemma LogicalPopBack<T>(buf: seq<T>, head: nat, len: nat)
    requires head < |buf| && 0 < len <= |buf|
    ensures Logical(buf, head, len - 1) == Logical(buf, head, len)[..len - 1]
  {
  }

  /** Stepping the start one slot back, to f = (head + n - 1) mod n, and writing slot f prepends to the live sequence. */
  lemma LogicalPushFront<T>(buf: seq<T>, head: nat, len: nat, f: nat, v: T)
    requires head < |buf| && len < |buf| && f == (head + |buf| - 1) % |buf|
    ensures f < |buf|
    ensures Logical(buf[f := v], f, len + 1) == [v] + Logical(buf, head, len)
  {
    var n := |buf|;
    ModOnce(head + n - 1, n);
    forall i | 0 <= i < len + 1
      ensures Logical(buf[f := v], f, len + 1)[i] == ([v] + Logical(buf, head, len))[i]
    {
      ModOnce(f + i, n);
      if i > 0 {
        ModOnce(head + i - 1, n);
      }
    }
  }

  /** Exchanging the slots of live positions a and b exchanges those two elements of the live sequence. */
  lemma LogicalSwap<T>(buf: seq<T>, head: nat, len: nat, a: nat, b: nat)
    requires head < |buf| && len <= |buf| && a < len && b < len
    ensures var sa, sb := (head + a) % |buf|, (head + b) % |buf|;
      var l := Logical(buf, head, len);
      Logical(buf[sa := buf[sb]][sb := buf[sa]], head, len) == l[a := l[b]][b := l[a]]
  {
    var n := |buf|;
    var sa, sb := (head + a) % n, (head + b) % n;
    var l := Logical(buf, head, len);
    ModOnce(head + a, n);
    ModOnce(head + b, n);
    var swapped := buf[sa := buf[sb]][sb := buf[sa]];
    var expected := l[a := l[b]][b := l[a]];
    forall i | 0 <= i < len
      ensures Logical(swapped, head, len)[i] == expected[i]
    {
      ModOnce(head + i, n);
    }
  }

  /**
   * Relocation that unwraps: when the new buffer starts with the tail run
   * buf[head..] followed by the head run buf[..head], the live sequence is
   * found again from slot 0, whatever its length.
   */
  lemma UnwrapKeepsOrder<T>(buf: seq<T>, head: nat, len: nat, grown: seq<T>)
    requires head < |buf| <= |grown| && len <= |buf|
    requires grown[..|buf|] == buf[head..] + buf[..head]
    ensures Logical(grown, 0, len) == Logical(buf, head, len)
  {
    var n := |buf|;
    forall i | 0 <= i < len
      ensures Logical(grown, 0, len)[i] == Logical(buf, head, len)[i]
    {
      ModOnce(i, |grown|);
      ModOnce(head + i, n);
      assert grown[i] == (buf[head..] + buf[..head])[i];
    }
  }

  /**
   * Relocation that keeps every slot: when the live run does not wrap and the
   * new buffer holds it at the same slots, the live sequence is unchanged.
   */
  lemma InPlaceKeepsOrder<T>(buf: seq<T>, head: nat, len: nat, grown: seq<T>)
    requires head + len <= |buf| <= |grown| && head < |buf|
    requires grown[head..head + len] == buf[head..head + len]
    ensures Logical(grown, head, len) == Logical(buf, head, len)
  {
    forall i | 0 <= i < len
      ensures Logical(grown, head, len)[i] == Logical(buf, head, len)[i]
    {
      ModOnce(head + i, |buf|);
      ModOnce(head + i, |grown|);
      assert grown[head + i] == grown[head..head + len][i];
    }
  }

  /**
   * Relocation that moves an unwrapped live run to the front: when the new
   * buffer starts with buf[head..head + len], the live sequence is found again
   * from slot 0.
   */
  lemma CopyToFrontKeepsOrder<T>(buf: seq<T>, head: nat, len: nat, grown: seq<T>)
    requires head + len <= |buf| <= |grown| && head < |buf|
    requires grown[..len] == buf[head..head + len]
    ensures Logical(grown, 0, len) == Logical(buf, head, len)
  {
    forall i | 0 <= i < len
      ensures Logical(grown, 0, len)[i] == Logical(buf, head, len)[i]
    {
      ModOnce(i, |grown|);
      ModOnce(head + i, |buf|);
      assert grown[i] == grown[..len][i];
    }
  }

  /** Taking the first element of what remains moves it to the end of what was taken. */
  lemma TakeFirst<T>(whole: seq<T>, taken: seq<T>, rest: seq<T>, x: T, after: seq<T>)
    requires whole == taken + rest && rest == [x] + after
    ensures whole == (taken + [x]) + after
  {
  }

  /** The sequence read backwards. */
  function Reverse<T>(s: seq<T>): seq<T>
  {
    seq(|s|, i requires 0 <= i < |s| => s[|s| - 1 - i])
  }

  /** Reversing twice gives back the original sequence. */
  lemma ReverseInvolution<T>(s: seq<T>)
    ensures Reverse(Reverse(s)) == s
  {
  }

  /** Reversing a longer sequence puts the new last element first. */
  lemma ReverseSnoc<T>(s: seq<T>, v: T)
    ensures Reverse(s + [v]) == [v] + Reverse(s)
  {
  }

  /** The state of an in-place reversal after k symmetric swaps: the first and last k elements are exchanged. */
  function SwappedEnds<T>(s: seq<T>, k: nat): (r: seq<T>)
    ensures |r| == |s|
  {
    seq(|s|, i requires 0 <= i < |s| => if i < k || i >= |s| - k then s[|s| - 1 - i] else s[i])
  }

  /** No swap leaves the sequence as it was; |s| / 2 swaps reverse it. */
  lemma SwappedEndsBounds<T>(s: seq<T>)
    ensures SwappedEnds(s, 0) == s
    ensures SwappedEnds(s, |s| / 2) == Reverse(s)
  {
  }

  /**
   * One step of the in-place reversal of a circular buffer: exchanging the
   * slots of live positions k and len - 1 - k takes the live sequence from k
   * to k + 1 symmetric swaps.
   */
  lemma LogicalReverseStep<T>(buf: seq<T>, head: nat, len: nat, start: seq<T>, k: nat, sa: nat, sb: nat)
    requires head < |buf| && len <= |buf| && k < len / 2
    requires sa == (head + k) % |buf| && sb == (head + len - 1 - k) % |buf|
    requires Logical(buf, head, len) == SwappedEnds(start, k)
    ensures Logical(buf[sa := buf[sb]][sb := buf[sa]], head, len) == SwappedEnds(start, k + 1)
  {
    LogicalSwap(buf, head, len, k, len - 1 - k);
    SwappedEndsStep(start, k);
  }

  /**
   * One step of the in-place reversal of the prefix buf[..len]: exchanging
   * slots k and len - 1 - k takes it from k to k + 1 symmetric swaps and
   * leaves the slots from len on alone.
   */
  lemma PrefixReverseStep<T>(buf: seq<T>, len: nat, start: seq<T>, k: nat)
    requires len <= |buf| && k < len / 2 && buf[..len] == SwappedEnds(start, k)
    ensures var swapped := buf[k := buf[len - 1 - k]][len - 1 - k := buf[k]];
      swapped[..len] == SwappedEnds(start, k + 1) && swapped[len..] == buf[len..]
  {
    SwappedEndsStep(start, k);
    var swapped := buf[k := buf[len - 1 - k]][len - 1 - k := buf[k]];
    assert swapped[..len] == buf[..len][k := buf[len - 1 - k]][len - 1 - k := buf[k]];
  }

  /** One more symmetric swap, of positions k and |s| - 1 - k. */
  lemma SwappedEndsStep<T>(s: seq<T>, k: nat)
    requires k < |s| / 2
    ensures var t := SwappedEnds(s, k);
      SwappedEnds(s, k + 1) == t[k := t[|s| - 1 - k]][|s| - 1 - k := t[k]]
  {
  }
}
