/**
 * The two memory primitives the containers use: MEMORY_COPY (memory-copy.h),
 * a compiler-builtin memcpy, and SWAP (swap.h), an exchange through a
 * temporary. Both act on arrays of elements rather than on raw bytes.
 */
module Memory {

  /** MEMORY_COPY: count elements from src[from..] to dst[at..]; nothing else in dst changes. */
  method MemoryCopy<T>(dst: array<T>, at: nat, src: array<T>, from: nat, count: nat)
    requires dst != src
    requires at + count <= dst.Length && from + count <= src.Length
    modifies dst
    ensures dst[at..at + count] == src[from..from + count]
    ensures dst[..at] == old(dst[..at]) && dst[at + count..] == old(dst[at + count..])
  {
    forall i | 0 <= i < count {
      dst[at + i] := src[from + i];
    }
  }

  /** SWAP: exchanges slots i and j through a temporary; nothing else in a changes. */
  method Swap<T>(a: array<T>, i: nat, j: nat)
    requires i < a.Length && j < a.Length
    modifies a
    ensures a[..] == old(a[..])[i := old(a[j])][j := old(a[i])]
  {
    var tmp := a[i];
    a[i] := a[j];
    a[j] := tmp;
  }
}
