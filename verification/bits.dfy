/**
 * Powers of two and the masked index arithmetic shared by the three containers.
 *
 * Every capacity is a power of two, so the containers never divide: the slot
 * of logical position x in a buffer of `size` slots is `x & (size - 1)`.
 * BitAnd is that `&` on naturals, and AndLowMaskIsMod proves that it agrees
 * with `x % size`, which is what the rest of the model reasons with.
 */
module Bits {

  /** n is one of 1, 2, 4, 8, ... */
  predicate IsPow2(n: nat)
    decreases n
  {
    n == 1 || (n >= 2 && n % 2 == 0 && IsPow2(n / 2))
  }

  /** b to the power k. */
  function Pow(b: nat, k: nat): nat
  {
    if k == 0 then 1 else b * Pow(b, k - 1)
  }

  /** The C operator `a & b` on unsigned values, one bit at a time from the least significant. */
  function BitAnd(a: nat, b: nat): (r: nat)
    ensures r <= a && r <= b
    decreases a
  {
    if a == 0 || b == 0 then 0
    else 2 * BitAnd(a / 2, b / 2) + (if a % 2 == 1 && b % 2 == 1 then 1 else 0)
  }

  /** A positive multiple of d is at least d. */
  lemma {:induction false} MulAtLeast(d: nat, k: nat)
    requires k >= 1
    ensures d * k >= d
  {
    if k > 1 {
      MulAtLeast(d, k - 1);
      assert d * k == d * (k - 1) + d;
    }
  }

  /** Multiplying by the same factor keeps the order. */
  lemma MulMonotone(a: nat, b: nat, c: nat)
    requires b <= c
    ensures a * b <= a * c
  {
    assert a * c == a * b + a * (c - b);
  }

  /** Division with remainder has only one answer. */
  lemma DivModUnique(x: nat, d: nat, q: nat, r: nat)
    requires 0 < d && r < d && x == d * q + r
    ensures x / d == q && x % d == r
  {
    var q', r' := x / d, x % d;
    assert x == d * q' + r';
    if q < q' {
      assert d * q' == d * q + d * (q' - q);
      MulAtLeast(d, q' - q);
      assert false;
    } else if q' < q {
      assert d * q == d * q' + d * (q - q');
      MulAtLeast(d, q - q');
      assert false;
    }
  }

  /** The remainder by 2h is made of the remainder of x/2 by h and the lowest bit of x. */
  lemma ModByDouble(x: nat, h: nat)
    requires h > 0
    ensures x % (2 * h) == 2 * ((x / 2) % h) + x % 2
  {
    var q, bit := x / 2, x % 2;
    var a, b := q / h, q % h;
    assert q == h * a + b;
    assert x == (2 * h) * a + (2 * b + bit) by {
      assert x == 2 * q + bit;
      assert 2 * (h * a) == (2 * h) * a;
    }
    DivModUnique(x, 2 * h, a, 2 * b + bit);
  }

  /** For a power of two m, masking with m - 1 keeps exactly the remainder by m. */
  lemma {:induction false} AndLowMaskIsMod(x: nat, m: nat)
    requires IsPow2(m)
    ensures BitAnd(x, m - 1) == x % m
    decreases m
  {
    if m == 1 {
      assert BitAnd(x, 0) == 0;
    } else if x == 0 {
      assert BitAnd(0, m - 1) == 0;
    } else {
      var h := m / 2;
      assert m == 2 * h;
      assert (m - 1) / 2 == h - 1 && (m - 1) % 2 == 1;
      AndLowMaskIsMod(x / 2, h);
      calc {
        BitAnd(x, m - 1);
        2 * BitAnd(x / 2, h - 1) + (if x % 2 == 1 then 1 else 0);
        2 * ((x / 2) % h) + x % 2;
        { ModByDouble(x, h); }
        x % m;
      }
    }
  }

  /** The source's slot computation `x & (size - 1)`; it always lands inside the buffer. */
  function MaskIndex(x: nat, size: nat): (r: nat)
    requires IsPow2(size)
    ensures r == x % size && r < size
  {
    AndLowMaskIsMod(x, size);
    BitAnd(x, size - 1)
  }

  /** Doubling a power of two gives a power of two. */
  lemma Pow2Double(n: nat)
    requires IsPow2(n)
    ensures IsPow2(2 * n)
  {
    assert (2 * n) / 2 == n;
  }

  /** The product of two powers of two (a capacity times the growth factor) is a power of two. */
  lemma {:induction false} Pow2Product(a: nat, b: nat)
    requires IsPow2(a) && IsPow2(b)
    ensures IsPow2(a * b)
    decreases b
  {
    if b != 1 {
      var h := b / 2;
      assert b == 2 * h && IsPow2(h);
      Pow2Product(a, h);
      MulDouble(a, h);
      Pow2Double(a * h);
    }
  }

  /** Doubling one factor doubles the product. */
  lemma MulDouble(a: nat, h: nat)
    ensures a * (2 * h) == 2 * (a * h)
  {
  }

  /** Two different powers of two are at least a factor two apart. */
  lemma {:induction false} Pow2Gap(a: nat, b: nat)
    requires IsPow2(a) && IsPow2(b) && a < b
    ensures 2 * a <= b
    decreases b
  {
    if a != 1 {
      assert b != 1;
      Pow2Gap(a / 2, b / 2);
    }
  }

  lemma Rearrange(a: nat, b: nat, c: nat)
    ensures a * (b * c) == (a * c) * b
  {
  }

  /** Powers of a base of at least one do not shrink as the exponent grows. */
  lemma {:induction false} PowMonotone(b: nat, i: nat, k: nat)
    requires b >= 1 && i <= k
    ensures Pow(b, i) <= Pow(b, k)
    decreases k - i
  {
    if i < k {
      PowMonotone(b, i + 1, k);
      MulMonotone(Pow(b, i), 1, b);
      assert Pow(b, i + 1) == b * Pow(b, i);
    }
  }
}
