/** Division and power-of-two facts that the solver does not find on its own. */
module Arithmetic {

  const TWO_32: nat := 0x1_0000_0000

  function Max(a: int, b: int): int { if a < b then b else a }

  function Min(a: int, b: int): int { if a < b then a else b }

  function Pow2(n: nat): (r: nat)
    ensures r > 0
  {
    if n == 0 then 1 else 2 * Pow2(n - 1)
  }

  lemma {:induction false} Pow2Sum(a: nat, b: nat)
    ensures Pow2(a + b) == Pow2(a) * Pow2(b)
  {
    if a == 0 {
    } else {
      Pow2Sum(a - 1, b);
      assert Pow2(a + b) == 2 * Pow2(a - 1 + b);
    }
  }

  lemma {:induction false} Pow2Of32()
    ensures Pow2(32) == TWO_32
  {
    assert Pow2(8) == 256;
    Pow2Sum(8, 8);
    Pow2Sum(16, 16);
  }

  /** Quotient and remainder are determined by n == q * d + r with 0 <= r < d. */
  lemma {:induction false} DivModUnique(n: int, q: int, r: int, d: int)
    requires 0 <= r < d && n == q * d + r
    ensures n / d == q && n % d == r
  {
    var q', r' := n / d, n % d;
    assert n == q' * d + r';
    assert (q - q') * d == r' - r;
    if q' < q {
      MulGrows(q - q', d);
    } else if q' > q {
      assert (q' - q) * d == r - r';
      MulGrows(q' - q, d);
    }
  }

  lemma {:induction false} MulGrows(k: int, d: int)
    requires k >= 1 && d >= 0
    ensures k * d >= d
  {}

  lemma {:induction false} MulMonotone(a: int, b: int, d: int)
    requires a <= b && d >= 0
    ensures a * d <= b * d
  {}

  lemma {:induction false} SmallMod(r: int, d: int)
    requires 0 <= r < d
    ensures r % d == r && r / d == 0
  {}

  /** Adding a multiple of d does not change the remainder. */
  lemma {:induction false} ModAddMultiple(k: int, x: int, d: int)
    requires d > 0 && k % d == 0
    ensures (k + x) % d == x % d
  {
    var q := k / d;
    assert k == q * d;
    var q', r := x / d, x % d;
    assert x == q' * d + r;
    assert (q + q') * d == q * d + q' * d;
    DivModUnique(k + x, q + q', r, d);
  }

  /** Reducing a summand first does not change the remainder of the sum. */
  lemma {:induction false} ModAddLeft(x: int, y: int, d: int)
    requires d > 0
    ensures (x % d + y) % d == (x + y) % d
  {
    var q, r := x / d, x % d;
    assert x == q * d + r;
    DivModUnique(x - r, q, 0, d);
    ModAddMultiple(x - r, r + y, d);
  }

  lemma {:induction false} MulNonNegative(a: int, b: int)
    requires a >= 0 && b >= 0
    ensures a * b >= 0
  {}

  /** Reduction modulo m * k acts on the quotient by k modulo m, and leaves the remainder by k. */
  lemma {:induction false} ModProduct(x: nat, m: nat, k: nat)
    requires m > 0 && k > 0
    ensures m * k > 0
    ensures x % (m * k) / k == x / k % m
    ensures x % (m * k) % k == x % k
  {
    var q, r := x / k, x % k;
    var q', r' := q / m, q % m;
    MulGrows(m, k);
    TwoDigits(r', r, m, k);
    assert x == q' * (m * k) + (r' * k + r) by {
      assert (q' * m + r') * k == q' * m * k + r' * k;
      assert q' * m * k == q' * (m * k);
    }
    DivModUnique(x, q', r' * k + r, m * k);
  }

  lemma {:induction false} TwoDigits(hi: nat, lo: nat, m: nat, k: nat)
    requires hi < m && lo < k
    ensures hi * k + lo < m * k
    ensures (hi * k + lo) / k == hi && (hi * k + lo) % k == lo
  {
    MulNonNegative(m - 1 - hi, k);
    assert (m - 1 - hi) * k == m * k - k - hi * k;
    DivModUnique(hi * k + lo, hi, lo, k);
  }

  /** Reducing modulo a multiple of k first does not change the remainder by k. */
  lemma {:induction false} ModOfMultiple(x: nat, m: nat, k: nat)
    requires m > 0 && k > 0 && m % k == 0
    ensures x % m % k == x % k
  {
    var q := m / k;
    assert m == q * k;
    assert (0 - q) * k == 0 - m;
    if q <= 0 {
      MulNonNegative(0 - q, k);
    }
    ModProduct(x, q, k);
  }

  // ----- Remainders by a variable block size, kept linear for the solver -----

  /** n % d by repeated subtraction. */
  function Rem(n: nat, d: nat): (r: nat)
    requires d > 0
    ensures r < d && r <= n
    decreases n
  {
    if n < d then n else Rem(n - d, d)
  }

  lemma {:induction false} RemIsMod(n: nat, d: nat)
    requires d > 0
    ensures Rem(n, d) == n % d
    decreases n
  {
    if n < d {
      SmallMod(n, d);
    } else {
      RemIsMod(n - d, d);
      DivModUnique(d, 1, 0, d);
      ModAddMultiple(d, n - d, d);
    }
  }

  lemma {:induction false} RemAdd(a: nat, b: nat, d: nat)
    requires d > 0
    ensures Rem(a + b, d) == Rem(Rem(a, d) + b, d)
    decreases a
  {
    if a < d {
    } else {
      RemAdd(a - d, b, d);
    }
  }

  lemma {:induction false} RemRest(n: nat, d: nat)
    requires d > 0
    ensures Rem(n - Rem(n, d), d) == 0
    decreases n
  {
    if n < d {
    } else {
      RemRest(n - d, d);
    }
  }

  /** The C idiom n / d * d. */
  lemma {:induction false} DivTimes(x: nat, d: nat)
    requires d > 0
    ensures x / d >= 0 && x / d * d == x - Rem(x, d)
    ensures x / d > 0 <==> x >= d
  {
    RemIsMod(x, d);
    var q := x / d;
    assert x == q * d + x % d;
    assert (0 - q) * d == x % d - x;
    if x < d {
      SmallMod(x, d);
    } else if q <= 0 {
      MulNonNegative(0 - q, d);
    }
  }

  /** How far x is from the next multiple of d. */
  function Gap(x: nat, d: nat): (g: nat)
    requires d > 0
  {
    if Rem(x, d) == 0 then 0 else d - Rem(x, d)
  }

  lemma {:induction false} GapLeast(x: nat, d: nat, z: nat)
    requires d > 0
    ensures Rem(x + Gap(x, d), d) == 0
    ensures Rem(x + z, d) == 0 ==> Gap(x, d) <= z
  {
    RemAdd(x, Gap(x, d), d);
    RemAdd(x, z, d);
  }
}
