/**
  Powers of two and four, and the division facts that Python's shifts on
  non-negative integers reduce to: `x >> k` is `x / 2^k` and `x << k` is `x * 2^k`.
*/
module Bits {

  function Pow2(k: nat): (r: nat)
    ensures r >= 1
  {
    if k == 0 then 1 else 2 * Pow2(k - 1)
  }

  function Pow4(k: nat): (r: nat)
    ensures r >= 1
  {
    if k == 0 then 1 else 4 * Pow4(k - 1)
  }

  lemma {:induction false} Pow2Add(a: nat, b: nat)
    ensures Pow2(a + b) == Pow2(a) * Pow2(b)
    decreases a
  {
    if a > 0 {
      Pow2Add(a - 1, b);
      assert Pow2(a + b) == 2 * Pow2(a - 1 + b);
    }
  }

  /** Four to the k is two to the 2k: 2^(resolution - prefixlen) pixels form a
      square of side 2^order when the difference is 2 * order. */
  lemma {:induction false} Pow4IsPow2(k: nat)
    ensures Pow4(k) == Pow2(2 * k)
    decreases k
  {
    if k > 0 {
      Pow4IsPow2(k - 1);
      assert Pow2(2 * k) == 2 * Pow2(2 * k - 1) == 4 * Pow2(2 * (k - 1));
    }
  }

  lemma {:induction false} Pow2Monotone(a: nat, b: nat)
    requires a <= b
    ensures Pow2(a) <= Pow2(b)
    decreases b
  {
    if a < b {
      Pow2Monotone(a, b - 1);
    }
  }

  lemma MulAtLeast(k: int, d: int)
    requires k >= 1 && d >= 0
    ensures k * d >= d
  {
    assert k * d == (k - 1) * d + d;
  }

  lemma MulAtMost(k: int, d: int)
    requires k <= -1 && d >= 0
    ensures k * d <= -d
  {
    assert k * d == (k + 1) * d - d;
    assert (k + 1) * d <= 0 by { assert (-(k + 1)) * d >= 0; }
  }

  /** Division by d of q * d + r, for 0 <= r < d. */
  lemma DivUnique(x: int, d: int, q: int, r: int)
    requires d > 0 && 0 <= r < d && x == q * d + r
    ensures x / d == q && x % d == r
  {
    var q0 := x / d;
    var r0 := x % d;
    var k := q0 - q;
    assert k * d == r - r0 by { assert q0 * d + r0 == x; assert q0 * d - q * d == k * d; }
    if k >= 1 {
      MulAtLeast(k, d);
    } else if k <= -1 {
      MulAtMost(k, d);
    }
  }

  /** Dividing twice is dividing by the product. */
  lemma DivDiv(x: nat, a: nat, b: nat)
    requires a > 0 && b > 0
    ensures x / a / b == x / (a * b)
  {
    var q := x / a / b;
    var r1 := x % a;
    var r2 := (x / a) % b;
    assert x / a == q * b + r2;
    assert x == (q * b + r2) * a + r1;
    assert x == q * (a * b) + (r2 * a + r1);
    assert r2 * a + r1 < a * b by {
      assert r2 <= b - 1;
      assert r2 * a <= (b - 1) * a;
    }
    DivUnique(x, a * b, q, r2 * a + r1);
  }

  /** The quotient by d of (q * d + m) for 0 <= m. */
  lemma DivAddMultiple(q: int, d: int, m: int)
    requires d > 0 && m >= 0
    ensures (q * d + m) / d == q + m / d
    ensures (q * d + m) % d == m % d
  {
    DivUnique(q * d + m, d, q + m / d, m % d);
  }

  /** A number below a * b, divided by a, is below b. */
  lemma DivBound(x: nat, a: nat, b: nat)
    requires a > 0 && x < a * b
    ensures x / a < b
  {
    var q := x / a;
    assert (q - b) * a < 0 by { assert q * a <= x; assert (q - b) * a == q * a - b * a; }
    if q - b >= 1 {
      MulAtLeast(q - b, a);
    }
  }

  /** Python's `x >> k` on a non-negative integer, one bit at a time. */
  function Shr(x: nat, k: nat): nat
  {
    if k == 0 then x else Shr(x / 2, k - 1)
  }

  /** Shifting right by k divides by 2^k. */
  lemma {:induction false} ShrIsDiv(x: nat, k: nat)
    ensures Shr(x, k) == x / Pow2(k)
    decreases k
  {
    if k > 0 {
      ShrIsDiv(x / 2, k - 1);
      DivDiv(x, 2, Pow2(k - 1));
    }
  }

  /** One more bit shifted out halves the result. */
  lemma {:induction false} ShrNext(x: nat, k: nat)
    ensures Shr(x, k + 1) == Shr(x, k) / 2
    decreases k
  {
    if k > 0 {
      ShrNext(x / 2, k - 1);
    }
  }

  /** The powers of two up to 2^30, the largest shift the Hilbert tables use. */
  lemma Pow2Small()
    ensures Pow2(0) == 1 && Pow2(1) == 2 && Pow2(2) == 4 && Pow2(3) == 8
    ensures Pow2(4) == 16 && Pow2(5) == 32 && Pow2(6) == 64 && Pow2(7) == 128
    ensures Pow2(8) == 256 && Pow2(9) == 512 && Pow2(10) == 1024 && Pow2(11) == 2048
    ensures Pow2(12) == 4096 && Pow2(13) == 8192 && Pow2(14) == 16384 && Pow2(15) == 32768
    ensures Pow2(16) == 65536
    ensures Pow2(30) == 1073741824
  {
    assert Pow2(1) == 2;
    assert Pow2(2) == 4;
    assert Pow2(3) == 8;
    assert Pow2(4) == 16;
    assert Pow2(5) == 32;
    assert Pow2(6) == 64;
    assert Pow2(7) == 128;
    assert Pow2(8) == 256;
    assert Pow2(9) == 512;
    assert Pow2(10) == 1024;
    assert Pow2(11) == 2048;
    assert Pow2(12) == 4096;
    assert Pow2(13) == 8192;
    assert Pow2(14) == 16384;
    assert Pow2(15) == 32768;
    assert Pow2(16) == 65536;
    assert Pow2(17) == 131072;
    assert Pow2(18) == 262144;
    assert Pow2(19) == 524288;
    assert Pow2(20) == 1048576;
    assert Pow2(21) == 2097152;
    assert Pow2(22) == 4194304;
    assert Pow2(23) == 8388608;
    assert Pow2(24) == 16777216;
    assert Pow2(25) == 33554432;
    assert Pow2(26) == 67108864;
    assert Pow2(27) == 134217728;
    assert Pow2(28) == 268435456;
    assert Pow2(29) == 536870912;
    assert Pow2(30) == 1073741824;
  }

  lemma MulMonotone(x: nat, y: nat, a: nat)
    requires x <= y
    ensures x * a <= y * a
  {
    assert y * a == x * a + (y - x) * a;
  }

  /** 2^(32 - p) splits at any r between p and 32. */
  lemma Pow2Split(p: nat, r: nat)
    requires p <= r <= 32
    ensures Pow2(32 - p) == Pow2(32 - r) * Pow2(r - p)
  {
    Pow2Add(32 - r, r - p);
  }

  /** Rounding down to a multiple of a * b stays below rounding down to a multiple
      of a, which stays below x. */
  lemma FloorNested(x: nat, a: nat, b: nat)
    requires a > 0 && b > 0
    ensures x / (a * b) * (a * b) <= x / a * a <= x
  {
    DivDiv(x, a, b);
    QuotientBlock(x, a);
    QuotientBlock(x / a, b);
    ChainAtMost(x / a / b, b, x / a, a, x);
  }

  lemma ChainAtMost(q: nat, b: nat, u: nat, a: nat, x: nat)
    requires q * b <= u && u * a <= x
    ensures q * (a * b) <= u * a <= x
  {
    MulMonotone(q * b, u, a);
    assert q * (a * b) == (q * b) * a;
  }

  /** The difference of the two roundings is the digit of x / a in base b,
      times a. */
  lemma FloorDifference(x: nat, a: nat, b: nat)
    requires a > 0 && b > 0
    ensures x / a * a - x / (a * b) * (a * b) == (x / a % b) * a
    ensures (x / a * a - x / (a * b) * (a * b)) / a == x / a % b
    ensures x / a % b < b
  {
    DivDiv(x, a, b);
    var u := x / a;
    var q := u / b;
    var r := u % b;
    assert u == q * b + r;
    assert u * a == q * b * a + r * a;
    assert q * (a * b) == q * b * a;
    DivUnique(r * a, a, r, 0);
  }

  /** An x between lo = (q * b + j) * a and lo + a has quotient q * b + j by a. */
  lemma BlockInside(x: nat, q: nat, a: nat, b: nat, j: nat)
    requires a > 0 && b > 0 && j < b
    requires q * (a * b) + j * a <= x < q * (a * b) + j * a + a
    ensures x / (a * b) == q && x / a % b == j
  {
    assert q * (a * b) + j * a == (q * b + j) * a;
    DivUnique(x, a, q * b + j, x - (q * b + j) * a);
    DivUnique(q * b + j, b, q, j);
    DivDiv(x, a, b);
  }

  /** Conversely, an x whose quotients are q and j lies in that block. */
  lemma BlockOf(x: nat, q: nat, a: nat, b: nat, j: nat)
    requires a > 0 && b > 0
    requires x / (a * b) == q && x / a % b == j
    ensures q * (a * b) + j * a <= x < q * (a * b) + j * a + a
  {
    DivDiv(x, a, b);
    var u := x / a;
    assert u == q * b + j;
    assert x == u * a + x % a;
    assert u * a == q * (a * b) + j * a;
  }

  /** Multiples of a * b have quotient q by a * b exactly when they are q * (a * b). */
  lemma MultipleQuotient(n: nat, q: nat, w: nat)
    requires w > 0 && n % w == 0
    ensures n == q * w <==> n / w == q
  {
    DivUnique(n, w, n / w, 0);
    if n / w == q {
    } else if n == q * w {
      DivUnique(n, w, q, 0);
    }
  }

  /** Rounding down to a multiple of w, then dividing by the coarser w * c, is
      dividing by w * c. */
  lemma FloorThenCoarser(x: nat, w: nat, c: nat)
    requires w > 0 && c > 0
    ensures x / w * w / (w * c) == x / (w * c)
  {
    DivUnique(x / w * w, w, x / w, 0);
    DivDiv(x / w * w, w, c);
    DivDiv(x, w, c);
  }

  /** x lies in the block of m that its quotient by m names. */
  lemma QuotientBlock(x: nat, m: nat)
    requires m > 0
    ensures x / m * m <= x < x / m * m + m
  {
  }
}
