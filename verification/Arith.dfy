/** Powers of two and integer logarithms. */
module Arith {

  function Pow2(n: nat): (p: nat)
    ensures p > 0
  {
    if n == 0 then 1 else 2 * Pow2(n - 1)
  }

  /** The position of the highest set bit of `n`; 0 for `n` = 0. */
  function Log2(n: nat): nat
  {
    if n < 2 then 0 else 1 + Log2(n / 2)
  }

  lemma {:induction false} Log2Bounds(n: nat)
    requires n > 0
    ensures Pow2(Log2(n)) <= n < Pow2(Log2(n) + 1)
  {
    if n >= 2 {
      Log2Bounds(n / 2);
    }
  }

  lemma {:induction false} Log2Monotone(m: nat, n: nat)
    requires m <= n
    ensures Log2(m) <= Log2(n)
  {
    if m >= 2 {
      Log2Monotone(m / 2, n / 2);
    }
  }

  lemma {:induction false} Log2Below(n: nat, k: nat)
    requires 0 < n < Pow2(k)
    ensures Log2(n) < k
  {
    if n >= 2 {
      Log2Below(n / 2, k - 1);
    }
  }

  lemma {:induction false} Pow2Monotone(m: nat, n: nat)
    requires m <= n
    ensures Pow2(m) <= Pow2(n)
  {
    if m < n {
      Pow2Monotone(m, n - 1);
    }
  }

  lemma {:induction false} Pow2Add(m: nat, n: nat)
    ensures Pow2(m + n) == Pow2(m) * Pow2(n)
  {
    if m > 0 {
      Pow2Add(m - 1, n);
    }
  }

  lemma MultipleMod(q: int, a: int)
    requires a > 0
    ensures q * a % a == 0 && q * a / a == q
  {
    var d := q - q * a / a;
    assert d * a == q * a % a;
    assert d >= 1 ==> d * a >= a;
    assert d <= -1 ==> d * a <= -a;
  }

  /** Quotient and remainder are unique. */
  lemma DivModUnique(x: int, m: int, d: int, r: int)
    requires m > 0 && x == d * m + r && 0 <= r < m
    ensures x / m == d && x % m == r
  {
    var e := x / m - d;
    assert e * m == r - x % m;
    assert e >= 1 ==> e * m >= m;
    assert e <= -1 ==> e * m <= -m;
  }

  /** Whole multiples of `m` add to the quotient and not to the remainder. */
  lemma DivModShift(q: int, a: int, m: int)
    requires m > 0
    ensures (q * m + a) / m == q + a / m && (q * m + a) % m == a % m
  {
    var d, r := a / m, a % m;
    assert q * m + a == (q + d) * m + r;
    DivModUnique(q * m + a, m, q + d, r);
  }

  /** Row `y` of `h` rows of `w` cells lies inside them. */
  lemma RowBounds(y: int, h: int, w: int)
    requires 0 <= y < h && 0 <= w
    ensures 0 <= y * w && y * w + w <= h * w
  {
    var above := h - y - 1;
    assert h * w == (y + 1 + above) * w == y * w + w + above * w;
  }

  lemma RowsApart(y: int, z: int, i: int, j: int, w: int)
    requires 0 <= y && 0 <= z && 0 <= i < w && 0 <= j < w && y * w + i == z * w + j
    ensures y == z
  {
    if y < z {
      RowBounds(y, z, w);
    } else if z < y {
      RowBounds(z, y, w);
    }
  }

  lemma SquareMonotone(a: nat, b: nat)
    requires a <= b
    ensures a * a <= b * b
  {
    assert a * a <= a * b <= b * b;
  }

  lemma Log2Word(n: nat)
    requires 0 < n < 0x1_0000_0000_0000_0000
    ensures Log2(n) < 64
  {
    assert Pow2(8) == 256;
    Pow2Add(8, 8);
    Pow2Add(16, 16);
    Pow2Add(32, 32);
    Log2Below(n, 64);
  }
}
