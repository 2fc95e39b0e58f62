/** Machine integers as the buffer uses them: `u32` counters that wrap at 2^32, a 64-bit
    `usize`, the truncating cast `usize as u32`, and bitwise AND on naturals (the `&` that
    turns a counter into a slot index). */
module Wrapping {

  const U32_MODULUS: nat := 0x1_0000_0000

  /** Rust's `u32`. */
  type uint32 = x: int | 0 <= x < 0x1_0000_0000

  /** Rust's `usize`, on a 64-bit target. */
  type usize = x: int | 0 <= x < 0x1_0000_0000_0000_0000

  /** `a.wrapping_add(b)` on `u32`. */
  function WrappingAdd(a: uint32, b: uint32): (r: uint32)
    ensures a + b < 0x1_0000_0000 ==> r == a + b
    ensures a + b >= 0x1_0000_0000 ==> r == a + b - 0x1_0000_0000
  {
    (a + b) % 0x1_0000_0000
  }

  /** `a.wrapping_sub(b)` on `u32`: the inverse of `WrappingAdd`. */
  function WrappingSub(a: uint32, b: uint32): (r: uint32)
    ensures WrappingAdd(b, r) == a
  {
    (a - b) % 0x1_0000_0000
  }

  /** `n as u32` for a `usize`: keeps the low 32 bits. */
  function TruncateToU32(n: usize): (r: uint32)
    ensures n < 0x1_0000_0000 ==> r == n
    ensures r == 0 <==> n % 0x1_0000_0000 == 0
  {
    n % 0x1_0000_0000
  }

  /** Bitwise AND of two naturals, one binary digit at a time. */
  function BitAnd(a: nat, b: nat): (r: nat)
    ensures r <= a && r <= b
  {
    if a == 0 || b == 0 then 0
    else 2 * BitAnd(a / 2, b / 2) + (if a % 2 == 1 && b % 2 == 1 then 1 else 0)
  }

  predicate IsPowerOfTwo(n: nat)
  {
    n == 1 || (n >= 2 && n % 2 == 0 && IsPowerOfTwo(n / 2))
  }

  lemma {:induction false} MulAtLeast(d: nat, t: nat)
    requires t >= 1
    ensures d * t >= d
  {
    if t > 1 {
      MulAtLeast(d, t - 1);
      assert d * t == d * (t - 1) + d;
    }
  }

  /** Division by `d` has a unique quotient and remainder. */
  lemma DivModUnique(a: nat, d: nat, q: nat, r: nat)
    requires 0 <= r < d && a == d * q + r
    ensures a % d == r && a / d == q
  {
    var q', r' := a / d, a % d;
    assert a == d * q' + r';
    if q' > q {
      assert d * (q' - q) == r - r';
      MulAtLeast(d, q' - q);
      assert false;
    } else if q' < q {
      assert d * (q - q') == r' - r;
      MulAtLeast(d, q - q');
      assert false;
    }
  }

  /** One binary digit of `a`, then the rest of `a` modulo `h`, make `a` modulo `2 * h`. */
  lemma DivModDouble(a: nat, h: nat)
    requires h > 0
    ensures a % (2 * h) == 2 * ((a / 2) % h) + a % 2
  {
    var k := (a / 2) / h;
    var r1 := (a / 2) % h;
    assert a / 2 == h * k + r1;
    assert a == (2 * h) * k + (2 * r1 + a % 2);
    DivModUnique(a, 2 * h, k, 2 * r1 + a % 2);
  }

  /** AND with an odd mask keeps the lowest binary digit of `a`. */
  lemma BitAndOddMask(a: nat, m: nat)
    requires m % 2 == 1
    ensures BitAnd(a, m) == 2 * BitAnd(a / 2, m / 2) + a % 2
  {
  }

  /** Masking with `n - 1` keeps the remainder modulo `n` when `n` is a power of two. */
  lemma {:induction false} BitAndMaskIsMod(a: nat, n: nat)
    requires IsPowerOfTwo(n)
    ensures BitAnd(a, n - 1) == a % n
    decreases n
  {
    if n > 1 {
      var h := n / 2;
      assert (n - 1) % 2 == 1 && (n - 1) / 2 == h - 1 by {
        assert n - 1 == 2 * (h - 1) + 1;
        DivModUnique(n - 1, 2, h - 1, 1);
      }
      BitAndOddMask(a, n - 1);
      BitAndMaskIsMod(a / 2, h);
      assert BitAnd(a, n - 1) == 2 * ((a / 2) % h) + a % 2;
      DivModDouble(a, h);
    }
  }

  /** Adding a multiple of `n` keeps the remainder modulo `n`. */
  lemma ModAddMultiple(y: nat, n: nat, k: nat)
    requires n > 0
    ensures (y + n * k) % n == y % n
  {
    var q := y / n;
    assert y == n * q + y % n;
    assert y + n * k == n * (q + k) + y % n;
    DivModUnique(y + n * k, n, q + k, y % n);
  }

  /** Reducing modulo a multiple `m` of `n` first keeps the remainder modulo `n`. */
  lemma ModOfMultipleMod(x: nat, m: nat, n: nat)
    requires n > 0 && m > 0 && m % n == 0
    ensures (x % m) % n == x % n
  {
    var j, q := m / n, x / m;
    assert m == n * j;
    assert x == x % m + m * q;
    assert m * q == n * (j * q) by {
      assert m == n * j;
    }
    ModAddMultiple(x % m, n, j * q);
  }

  /** Fewer than `n` consecutive naturals have distinct remainders modulo `n`. */
  lemma ModDistinct(c: nat, i: nat, j: nat, n: nat)
    requires i < j < n
    ensures (c + i) % n != (c + j) % n
  {
    var q1, q2 := (c + i) / n, (c + j) / n;
    assert c + i == n * q1 + (c + i) % n;
    assert c + j == n * q2 + (c + j) % n;
    if (c + i) % n == (c + j) % n {
      assert n * (q2 - q1) == j - i;
      if q2 - q1 >= 1 {
        MulAtLeast(n, q2 - q1);
      } else if q1 - q2 >= 1 {
        MulAtLeast(n, q1 - q2);
      }
      assert false;
    }
  }

  /** A power of two divides every larger power of two. */
  lemma {:induction false} PowerOfTwoDivides(n: nat, m: nat)
    requires IsPowerOfTwo(n) && IsPowerOfTwo(m) && n <= m
    ensures m % n == 0
    decreases n
  {
    if n > 1 {
      PowerOfTwoDivides(n / 2, m / 2);
      var k := (m / 2) / (n / 2);
      assert m / 2 == (n / 2) * k;
      assert m == n * k;
      DivModUnique(m, n, k, 0);
    }
  }

  lemma DoubleIsPowerOfTwo(n: nat)
    requires IsPowerOfTwo(n)
    ensures IsPowerOfTwo(2 * n)
  {
    assert (2 * n) / 2 == n && (2 * n) % 2 == 0;
  }

  lemma HalfIsPowerOfTwo(n: nat)
    requires IsPowerOfTwo(n) && n > 1
    ensures n == 2 * (n / 2) && IsPowerOfTwo(n / 2)
  {
  }

  lemma {:induction false} ProductOfPowersOfTwo(a: nat, b: nat)
    requires IsPowerOfTwo(a) && IsPowerOfTwo(b)
    ensures IsPowerOfTwo(a * b)
    decreases a
  {
    if a > 1 {
      var h := a / 2;
      HalfIsPowerOfTwo(a);
      ProductOfPowersOfTwo(h, b);
      DoubleIsPowerOfTwo(h * b);
      assert (2 * h) * b == 2 * (h * b);
    }
  }

  lemma U32ModulusIsPowerOfTwo()
    ensures IsPowerOfTwo(U32_MODULUS)
  {
    assert IsPowerOfTwo(2);
    ProductOfPowersOfTwo(2, 2);
    ProductOfPowersOfTwo(4, 4);
    ProductOfPowersOfTwo(16, 16);
    ProductOfPowersOfTwo(256, 256);
    ProductOfPowersOfTwo(65536, 65536);
  }
}
