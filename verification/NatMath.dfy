/** Powers, Euclidean division and bitwise "or" on natural numbers: the arithmetic the other modules share. */
module NatMath {

  function Pow(b: nat, e: nat): nat
  {
    if e == 0 then 1 else b * Pow(b, e - 1)
  }

  lemma {:induction false} PowPositive(b: nat, e: nat)
    requires 0 < b
    ensures 0 < Pow(b, e)
  {
    if e != 0 {
      PowPositive(b, e - 1);
    }
  }

  lemma {:induction false} PowAdd(b: nat, m: nat, n: nat)
    ensures Pow(b, m + n) == Pow(b, m) * Pow(b, n)
  {
    if m == 0 {
    } else {
      PowAdd(b, m - 1, n);
      assert Pow(b, m + n) == b * Pow(b, m - 1 + n);
      Associate(b, Pow(b, m - 1), Pow(b, n));
    }
  }

  lemma {:induction false} PowMonotonic(b: nat, m: nat, n: nat)
    requires 0 < b && m <= n
    ensures Pow(b, m) <= Pow(b, n)
  {
    if m < n {
      PowMonotonic(b, m, n - 1);
      MulMonotonic(Pow(b, n - 1), 1, b);
    }
  }

  /** Squaring the base halves the exponent. */
  lemma {:induction false} PowSquare(b: nat, e: nat)
    ensures Pow(b * b, e) == Pow(b, 2 * e)
  {
    if e != 0 {
      PowSquare(b, e - 1);
      assert Pow(b, 2 * e) == b * Pow(b, 2 * e - 1) == b * (b * Pow(b, 2 * e - 2));
      Associate(b, b, Pow(b, 2 * e - 2));
    }
  }

  /** Shifting right, at any width. */
  function Shr(a: nat, s: nat): (x: nat)
  {
    PowPositive(2, s);
    a / Pow(2, s)
  }

  lemma Associate(a: int, b: int, c: int)
    ensures a * (b * c) == (a * b) * c
  {
  }

  lemma MulMonotonic(k: nat, a: nat, b: nat)
    requires a <= b
    ensures k * a <= k * b && a * k <= b * k
  {
  }

  lemma MulGap(a: int, b: int, d: nat)
    requires a < b
    ensures a * d + d <= b * d
  {
    assert b * d == (a + 1) * d + (b - a - 1) * d;
  }

  /** Quotient and remainder are determined by n == q * d + r and 0 <= r < d. */
  lemma DivModUnique(n: int, d: int, q: int, r: int)
    requires 0 <= r < d
    requires n == q * d + r
    ensures n / d == q && n % d == r
  {
    var q' := n / d;
    if q > q' {
      MulGap(q', q, d);
    } else if q < q' {
      MulGap(q, q', d);
    }
  }

  lemma ModMultiple(a: int, k: int, m: int)
    requires 0 < m
    ensures (a + k * m) % m == a % m
    ensures (a + k * m) / m == a / m + k
  {
    assert a + k * m == (a / m + k) * m + a % m;
    DivModUnique(a + k * m, m, a / m + k, a % m);
  }

  /** Residues agree exactly when the difference is a multiple of the modulus. */
  lemma CongruentByMultiple(a: int, b: int, k: int, m: int)
    requires 0 < m
    requires a == b + k * m
    ensures a % m == b % m
  {
    ModMultiple(b, k, m);
  }

  lemma AddAfterMod(a: int, c: int, m: int)
    requires 0 < m
    ensures (a % m + c) % m == (a + c) % m
  {
    ModMultiple(a % m + c, a / m, m);
    assert a == a / m * m + a % m;
  }

  lemma DivDiv(n: nat, a: nat, b: nat)
    requires 0 < a && 0 < b
    ensures 0 < a * b
    ensures n / a / b == n / (a * b)
  {
    var q, r := n / a, n % a;
    var q2, r2 := q / b, q % b;
    assert q == q2 * b + r2;
    assert n == (q2 * b + r2) * a + r;
    assert (q2 * b + r2) * a == q2 * (a * b) + r2 * a by { Distribute(q2, a, b, r2); }
    MulMonotonic(a, r2 + 1, b);
    assert r2 * a + a <= a * b;
    DivModUnique(n, a * b, q2, r2 * a + r);
  }

  lemma Distribute(q: int, a: int, b: int, r: int)
    ensures (q * b + r) * a == q * (a * b) + r * a
  {
    Associate(q, b, a);
    assert (q * b + r) * a == (q * b) * a + r * a;
  }

  lemma ModOfMod(n: int, a: nat, b: nat)
    requires 0 < a && 0 < b
    ensures 0 < a * b
    ensures n % (a * b) % a == n % a
  {
    var m := a * b;
    assert n == n / m * m + n % m;
    Associate(n / m, b, a);
    assert b * a == m;
    CongruentByMultiple(n, n % m, n / m * b, a);
  }

  /** If n < q * d then n / d < q. */
  lemma DivBound(n: nat, d: nat, q: nat)
    requires 0 < d && n < q * d
    ensures n / d < q
  {
    if n / d > q {
      MulGap(q, n / d, d);
    }
  }

  // ---- bitwise "or" ----

  function BitOr(a: nat, b: nat): nat
    decreases a + b
  {
    if a == 0 then b
    else if b == 0 then a
    else (if a % 2 == 1 || b % 2 == 1 then 1 else 0) + 2 * BitOr(a / 2, b / 2)
  }

  /** "Or"-ing a value below 2^s into a multiple of 2^s adds it. */
  lemma {:induction false} BitOrDisjoint(x: nat, s: nat, y: nat)
    requires y < Pow(2, s)
    ensures BitOr(x * Pow(2, s), y) == x * Pow(2, s) + y
    ensures BitOr(y, x * Pow(2, s)) == x * Pow(2, s) + y
  {
    if s != 0 && x * Pow(2, s) != 0 && y != 0 {
      var p := Pow(2, s - 1);
      assert x * Pow(2, s) == 2 * (x * p);
      BitOrDisjoint(x, s - 1, y / 2);
    }
  }
}
