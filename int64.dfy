/** The 64-bit two's-complement `long` of C#, over unbounded integers.

    Unchecked C# arithmetic wraps modulo 2^64, and the bitwise operators work
    on the 64-bit two's-complement pattern of their operands. Here a `long` is
    an `int` in [-2^63, 2^63), its bit pattern is `Unsigned(x)`, and `|` and
    `&` are defined bit by bit on those patterns; the lemmas prove that they
    agree with ordinary arithmetic in the cases the identifier layout uses. */
module Int64 {

  const TWO_63: int := 0x8000_0000_0000_0000
  const TWO_64: int := 0x1_0000_0000_0000_0000
  const MIN_VALUE: int := -TWO_63
  const MAX_VALUE: int := TWO_63 - 1

  type Long = x: int | MIN_VALUE <= x <= MAX_VALUE

  function Pow2(k: nat): (r: nat)
    ensures r >= 1
  {
    if k == 0 then 1 else 2 * Pow2(k - 1)
  }

  /** The `long` that unchecked C# arithmetic yields for the mathematical value x. */
  function Wrap(x: int): (r: Long)
    ensures MIN_VALUE <= x <= MAX_VALUE ==> r == x
  {
    var u := x % TWO_64;
    if u <= MAX_VALUE then u else u - TWO_64
  }

  /** Wrapping keeps the value modulo 2^64; with the `Long` range of the result
      this determines it. */
  lemma WrapCongruent(x: int)
    ensures Wrap(x) % TWO_64 == x % TWO_64
  {
    var u := x % TWO_64;
    if u > MAX_VALUE {
      ModAddMultiple(u - TWO_64, 1, TWO_64);
    }
    DivModUnique(u, TWO_64, 0, u);
  }

  /** Wrap(x) is the only `long` congruent to x modulo 2^64. */
  lemma WrapUnique(x: int, r: Long)
    requires r % TWO_64 == x % TWO_64
    ensures r == Wrap(x)
  {
    var a := Wrap(x);
    WrapCongruent(x);
    var m := x % TWO_64;
    DivModUnique(r, TWO_64, if r < 0 then -1 else 0, m);
    DivModUnique(a, TWO_64, if a < 0 then -1 else 0, m);
  }

  /** The 64-bit pattern of x, read as an unsigned number. */
  function Unsigned(x: Long): (u: nat)
    ensures u < TWO_64
    ensures 0 <= x ==> u == x
  {
    if x < 0 then x + TWO_64 else x
  }

  /** `a | b` on the low n bits of a and b. */
  function OrBits(a: nat, b: nat, n: nat): nat
    decreases n
  {
    if n == 0 then 0
    else 2 * OrBits(a / 2, b / 2, n - 1) + (if a % 2 == 1 || b % 2 == 1 then 1 else 0)
  }

  /** `a & b` on the low n bits of a and b. */
  function AndBits(a: nat, b: nat, n: nat): nat
    decreases n
  {
    if n == 0 then 0
    else 2 * AndBits(a / 2, b / 2, n - 1) + (if a % 2 == 1 && b % 2 == 1 then 1 else 0)
  }

  /** C# `x | y` on `long`. */
  function Or(x: Long, y: Long): Long
  {
    Wrap(OrBits(Unsigned(x), Unsigned(y), 64))
  }

  /** C# `x & y` on `long`. */
  function And(x: Long, y: Long): Long
  {
    Wrap(AndBits(Unsigned(x), Unsigned(y), 64))
  }

  /** C# `~x` on `long`: every one of the 64 bits flipped. */
  function Not(x: Long): Long
  {
    Wrap(TWO_64 - 1 - Unsigned(x))
  }

  /** C# `x << k` on `long` for a constant shift 0 <= k < 64: the low 64 bits of x * 2^k. */
  function ShiftLeft(x: Long, k: nat): Long
    requires k < 64
  {
    Wrap(x * Pow2(k))
  }

  /** C# `x >> k` on `long`: the arithmetic shift, which rounds toward minus infinity. */
  function ShiftRight(x: Long, k: nat): Long
    requires k < 64
  {
    FloorDivBounds(x, Pow2(k));
    x / Pow2(k)
  }

  /** C# `x - y` on `long` in an unchecked context. */
  function Sub(x: Long, y: Long): Long
  {
    Wrap(x - y)
  }

  /** C# `x / d` on `long` for a positive divisor: the quotient truncated toward zero. */
  function Div(x: Long, d: Long): (q: Long)
    requires d > 0
    ensures 0 <= x ==> q * d <= x < q * d + d
    ensures x < 0 ==> q * d - d < x <= q * d
  {
    var y: int := x;
    if y >= 0 then y / d else -((-y) / d)
  }

  lemma MulAtLeast(d: int, t: int)
    requires d > 0 && t >= 1
    ensures d * t >= d
  {
  }

  lemma DivModUnique(a: int, d: int, q: int, r: int)
    requires d > 0 && 0 <= r < d && a == d * q + r
    ensures a / d == q && a % d == r
  {
    var q0, r0 := a / d, a % d;
    assert d * (q - q0) == r0 - r;
    if q - q0 >= 1 {
      MulAtLeast(d, q - q0);
    } else if q0 - q >= 1 {
      MulAtLeast(d, q0 - q);
    }
  }

  /** Dividing by a positive number moves a value toward zero, never past it. */
  lemma FloorDivBounds(x: int, d: int)
    requires d >= 1
    ensures 0 <= x ==> 0 <= x / d <= x
    ensures x < 0 ==> x <= x / d < 0
  {
    var q, r := x / d, x % d;
    assert x == d * q + r && 0 <= r < d;
    if q >= 1 {
      MulAtLeast(q, d);
      assert d * q >= q;
    } else if q <= -1 {
      MulAtLeast(d, -q);
      assert d * q <= -d;
      if q <= -2 {
        MulAtLeast(-(q + 1), d);
        assert d * (q + 1) <= q + 1;
        assert d * (q + 1) == d * q + d;
      }
    } else {
      assert d * q == 0;
    }
  }

  lemma ModDouble(a: nat, p: nat)
    requires p > 0
    ensures a % (2 * p) == 2 * ((a / 2) % p) + a % 2
  {
    var t, s := (a / 2) / p, (a / 2) % p;
    assert a == (2 * p) * t + (2 * s + a % 2);
    DivModUnique(a, 2 * p, t, 2 * s + a % 2);
  }

  lemma ModAddMultiple(x: int, m: int, d: int)
    requires d > 0
    ensures (x + m * d) % d == x % d
  {
    DivModUnique(x + m * d, d, x / d + m, x % d);
  }

  lemma {:induction false} OrBitsZero(a: nat, n: nat)
    requires a < Pow2(n)
    ensures OrBits(a, 0, n) == a
    decreases n
  {
    if n > 0 {
      OrBitsZero(a / 2, n - 1);
    }
  }

  /** Or-ing b into the zero bits below position k of a * 2^k adds it. */
  lemma {:induction false} OrBitsDisjoint(a: nat, b: nat, k: nat, n: nat)
    requires b < Pow2(k)
    requires a * Pow2(k) + b < Pow2(n)
    ensures OrBits(a * Pow2(k), b, n) == a * Pow2(k) + b
    decreases k
  {
    if k == 0 {
      OrBitsZero(a, n);
    } else if n > 0 {
      var p := Pow2(k - 1);
      assert a * Pow2(k) == 2 * (a * p);
      OrBitsDisjoint(a, b / 2, k - 1, n - 1);
    }
  }

  /** And-ing with 2^k - 1 keeps the low k bits. */
  lemma {:induction false} AndBitsLowMask(a: nat, k: nat, n: nat)
    requires a < Pow2(n)
    ensures AndBits(Pow2(k) - 1, a, n) == a % Pow2(k)
    decreases n
  {
    if n == 0 {
      DivModUnique(a, Pow2(k), 0, 0);
    } else if k == 0 {
      AndBitsLowMask(a / 2, 0, n - 1);
      AndBitsZeroStep(a, n);
    } else {
      AndBitsLowMask(a / 2, k - 1, n - 1);
      AndBitsLowMaskStep(a, k, n);
    }
  }

  lemma AndBitsZeroStep(a: nat, n: nat)
    requires n > 0 && AndBits(0, a / 2, n - 1) == (a / 2) % 1
    ensures AndBits(0, a, n) == a % 1
  {
    assert AndBits(0, a, n) == 2 * AndBits(0, a / 2, n - 1);
    DivModUnique(a / 2, 1, a / 2, 0);
    DivModUnique(a, 1, a, 0);
  }

  /** One bit of the mask: the low bit of a is kept, the rest is the mask one bit shorter. */
  lemma AndBitsLowMaskStep(a: nat, k: nat, n: nat)
    requires n > 0 && k > 0
    requires AndBits(Pow2(k - 1) - 1, a / 2, n - 1) == (a / 2) % Pow2(k - 1)
    ensures AndBits(Pow2(k) - 1, a, n) == a % Pow2(k)
  {
    var p := Pow2(k - 1);
    assert Pow2(k) == 2 * p;
    var m := 2 * p - 1;
    assert m / 2 == p - 1 && m % 2 == 1;
    assert AndBits(m, a, n) == 2 * AndBits(p - 1, a / 2, n - 1) + a % 2;
    ModDouble(a, p);
  }

  /** `x | y` is `x + y` when y fits below bit k and x = a * 2^k has no bit
      below k; p is 2^k. */
  lemma OrOfDisjoint(x: nat, y: nat, a: nat, k: nat, p: nat)
    requires p == Pow2(k) && x == a * p
    requires y < p
    requires x + y <= MAX_VALUE
    ensures Or(x, y) == x + y
  {
    assert Pow2(64) == TWO_64 by { Pow2Values(); }
    assert Unsigned(x) == x;
    assert Unsigned(y) == y;
    OrBitsDisjoint(a, y, k, 64);
  }

  lemma AndBits64LowMask(u: nat, k: nat)
    requires u < TWO_64
    ensures AndBits(Pow2(k) - 1, u, 64) == u % Pow2(k)
  {
    assert Pow2(64) == TWO_64 by { Pow2Values(); }
    AndBitsLowMask(u, k, 64);
  }

  lemma AndUnfoldMask(x: Long, p: nat)
    requires 1 <= p <= TWO_63
    ensures And(p - 1, x) == Wrap(AndBits(p - 1, Unsigned(x), 64))
  {
    assert Unsigned(p - 1) == p - 1;
  }

  lemma UnsignedMod(x: Long, k: nat)
    requires k <= 64
    ensures Unsigned(x) % Pow2(k) == x % Pow2(k)
  {
    if x < 0 {
      var p, m := Pow2(k), Pow2(64 - k);
      assert m * p == TWO_64 by {
        Pow2Add(64 - k, k);
        Pow2Values();
      }
      ModAddMultiple(x, m, p);
    }
  }

  /** `x & (p - 1)` is x modulo p (Euclidean, so never negative) for every
      long x, when p = 2^k is at most 2^63. */
  lemma AndLowMask(x: Long, k: nat, p: nat)
    requires p == Pow2(k) && p <= TWO_63
    ensures And(p - 1, x) == x % p
  {
    assert k <= 64 by {
      if k > 64 {
        Pow2Monotone(64, k);
        Pow2Values();
      }
    }
    var u := Unsigned(x);
    var m := x % p;
    assert AndBits(p - 1, u, 64) == m by {
      AndBits64LowMask(u, k);
      UnsignedMod(x, k);
    }
    AndUnfoldMask(x, p);
  }

  lemma {:induction false} Pow2Add(i: nat, j: nat)
    ensures Pow2(i + j) == Pow2(i) * Pow2(j)
    decreases i
  {
    if i > 0 {
      Pow2Add(i - 1, j);
    }
  }

  lemma {:induction false} Pow2Monotone(j: nat, k: nat)
    requires j <= k
    ensures Pow2(j) <= Pow2(k)
    decreases k
  {
    if j < k {
      Pow2Monotone(j, k - 1);
    }
  }

  lemma Pow2Values()
    ensures Pow2(5) == 32 && Pow2(12) == 4096 && Pow2(17) == 0x2_0000 && Pow2(22) == 0x40_0000
    ensures Pow2(41) == 0x200_0000_0000 && Pow2(62) == 0x4000_0000_0000_0000
    ensures Pow2(63) == TWO_63 && Pow2(64) == TWO_64
  {
    assert Pow2(8) == 0x100;
    assert Pow2(16) == 0x1_0000;
    assert Pow2(24) == 0x100_0000;
    assert Pow2(32) == 0x1_0000_0000;
    assert Pow2(40) == 0x100_0000_0000;
    assert Pow2(48) == 0x1_0000_0000_0000;
    assert Pow2(56) == 0x100_0000_0000_0000;
  }
}
