/**
 Square-and-multiply on two-limb integers.

 Every multiplication of the run can lose the carry out of column c1, so the power is followed together with the error
 digit that the lost carries add up to. The error is a multiple of b^3 (b the half-limb base), so only the error digit
 modulo b matters.
 */
module WidePow {
  import opened NatMath
  import opened WideInt
  import opened WideMul
  import opened WideNumber

  /** b^3: what one lost carry takes away. */
  function Cube(h: nat): (e: nat)
    ensures 0 < e < e + 1
  {
    CubeTimesBase(HalfBase(h));
    HalfBase(h) * LimbBase(h)
  }

  /** The run of the loop from the accumulator `ans`, the base `lhs` and the exponent `rhs`. */
  function PowRun(h: nat, ans: nat, lhs: nat, rhs: nat): (p: nat)
    ensures ans < Modulus(h) ==> p < Modulus(h)
    decreases rhs
  {
    if rhs == 0 then ans
    else PowRun(h, if rhs % 2 == 1 then Product(h, ans, lhs) else ans, Product(h, lhs, lhs), rhs / 2)
  }

  /** The error digit of a product, from the error digits of its factors. */
  function LossOfProduct(h: nat, x: nat, ex: nat, y: nat, ey: nat): (e: nat)
    ensures e < HalfBase(h)
  {
    ((if CarryLost(h, x, y) then 1 else 0) + ex * y + ey * x) % HalfBase(h)
  }

  /** The error digit of the result, carried along the same run. */
  function PowLoss(h: nat, ans: nat, ea: nat, lhs: nat, el: nat, rhs: nat): (e: nat)
    ensures ea < HalfBase(h) ==> e < HalfBase(h)
    decreases rhs
  {
    if rhs == 0 then ea
    else
      PowLoss(h, if rhs % 2 == 1 then Product(h, ans, lhs) else ans,
              if rhs % 2 == 1 then LossOfProduct(h, ans, ea, lhs, el) else ea,
              Product(h, lhs, lhs), LossOfProduct(h, lhs, el, lhs, el), rhs / 2)
  }

  /** t is what the code value v would have been without lost carries. */
  predicate Tracks(h: nat, t: nat, v: nat, e: nat)
  {
    t % Modulus(h) == (v + e * Cube(h)) % Modulus(h)
  }

  lemma MulMod(a: int, a': int, b: int, b': int, m: int)
    requires 0 < m && a % m == a' % m && b % m == b' % m
    ensures a * b % m == a' * b' % m
  {
    var k, l := a / m - a' / m, b / m - b' / m;
    assert a == a' + k * m && b == b' + l * m;
    ProductOfShifted(a', k, b', l, m);
    CongruentByMultiple(a * b, a' * b', k * b' + a' * l + k * (l * m), m);
  }

  lemma ProductOfShifted(a: int, k: int, b: int, l: int, m: int)
    ensures (a + k * m) * (b + l * m) == a * b + (k * b + a * l + k * (l * m)) * m
  {
    assert (a + k * m) * (b + l * m) == a * b + a * (l * m) + (k * m) * b + (k * m) * (l * m);
    Associate(a, l, m);
    Rotate(k, m, b);
    Rotate(k, m, l * m);
    assert (k * b + a * l + k * (l * m)) * m == k * b * m + a * l * m + k * (l * m) * m;
  }

  /** Error digits count modulo b, and the square of b^3 vanishes modulo b^4. */
  lemma CubeFacts(h: nat)
    ensures HalfBase(h) * Cube(h) == Modulus(h)
    ensures Cube(h) * Cube(h) == LimbBase(h) * Modulus(h)
  {
    var b, r := HalfBase(h), LimbBase(h);
    Associate(b, b, r);
    Associate(b * r, b, r);
    Rotate(b, r, b);
    Associate(r, r, r);
  }

  lemma ProductTracks(h: nat, t: nat, x: nat, ex: nat, u: nat, y: nat, ey: nat)
    requires Tracks(h, t, x, ex) && Tracks(h, u, y, ey)
    ensures Tracks(h, t * u, Product(h, x, y), LossOfProduct(h, x, ex, y, ey))
  {
    var m, c := Modulus(h), Cube(h);
    var k := if CarryLost(h, x, y) then 1 else 0;
    MulMod(t, x + ex * c, u, y + ey * c, m);
    CubeFacts(h);
    ShiftedProduct(x, ex, y, ey, c, LimbBase(h), m);
    var d := k + ex * y + ey * x;
    DigitModBase(d, HalfBase(h), c, m);
    var n := (x + ex * c) * (y + ey * c);
    assert k * c == if CarryLost(h, x, y) then c else 0;
    Collect(n, x * y, ex * y + ey * x, ex * ey * LimbBase(h), k, d % HalfBase(h), d / HalfBase(h), c, m);
    assert Product(h, x, y) == (x * y - k * c) % m;
  }

  lemma Collect(n: int, xy: int, s: int, w: int, k: int, dm: int, dd: int, c: int, m: int)
    requires 0 < m && n == xy + s * c + w * m && (k + s) * c == dm * c + dd * m
    ensures n % m == ((xy - k * c) % m + dm * c) % m
  {
    var q := (xy - k * c) / m;
    var p := (xy - k * c) % m;
    assert xy - k * c == q * m + p;
    assert (k + s) * c == k * c + s * c;
    assert q * m + dd * m + w * m == (q + dd + w) * m;
    CongruentByMultiple(n, p + dm * c, q + dd + w, m);
  }

  lemma ShiftedProduct(x: nat, ex: nat, y: nat, ey: nat, c: nat, r: nat, m: nat)
    requires c * c == r * m
    ensures (x + ex * c) * (y + ey * c) == x * y + (ex * y + ey * x) * c + ex * ey * r * m
  {
    TwoByTwo(c, x, ex, y, ey);
    assert x * ey + ex * y == ex * y + ey * x;
    Associate(ex * ey, r, m);
  }

  lemma DigitModBase(d: nat, b: nat, c: nat, m: nat)
    requires 0 < b && b * c == m
    ensures d * c == d % b * c + d / b * m
  {
    assert d == d / b * b + d % b;
    Associate(d / b, b, c);
    assert (d / b * b + d % b) * c == d / b * b * c + d % b * c;
  }

  /** One step of square-and-multiply on the true values. */
  lemma PowHalves(base: nat, e: nat)
    requires 0 < e
    ensures Pow(base, e) == (if e % 2 == 1 then base else 1) * Pow(base * base, e / 2)
  {
    PowSquare(base, e / 2);
    if e % 2 == 1 {
      assert e == 1 + 2 * (e / 2);
    } else {
      assert e == 2 * (e / 2);
    }
  }

  /** The run follows the true power: result plus error digit times b^3 is the power modulo 2^(4h). */
  lemma {:induction false} PowRunTracks(h: nat, ta: nat, ans: nat, ea: nat, tl: nat, lhs: nat, el: nat, rhs: nat)
    requires Tracks(h, ta, ans, ea) && Tracks(h, tl, lhs, el)
    ensures Tracks(h, ta * Pow(tl, rhs), PowRun(h, ans, lhs, rhs), PowLoss(h, ans, ea, lhs, el, rhs))
    decreases rhs
  {
    hide Tracks, Product, LossOfProduct;
    if rhs != 0 {
      PowHalves(tl, rhs);
      ProductTracks(h, ta, ans, ea, tl, lhs, el);
      ProductTracks(h, tl, lhs, el, tl, lhs, el);
      if rhs % 2 == 1 {
        Associate(ta, tl, Pow(tl * tl, rhs / 2));
        PowRunTracks(h, ta * tl, Product(h, ans, lhs), LossOfProduct(h, ans, ea, lhs, el),
                     tl * tl, Product(h, lhs, lhs), LossOfProduct(h, lhs, el, lhs, el), rhs / 2);
      } else {
        PowRunTracks(h, ta, ans, ea, tl * tl, Product(h, lhs, lhs), LossOfProduct(h, lhs, el, lhs, el), rhs / 2);
      }
    }
  }

  /**
   `pow` for every base and exponent: the result is the power modulo 2^(4h) if and only if the carries lost along the
   run cancel out, and it is the power modulo b^3 without any condition.
   */
  lemma PowExactIff(h: nat, lhs: nat, rhs: nat)
    requires 1 < Modulus(h)
    ensures PowRun(h, 1, lhs, rhs) == Pow(lhs, rhs) % Modulus(h) <==> PowLoss(h, 1, 0, lhs, 0, rhs) == 0
    ensures PowRun(h, 1, lhs, rhs) % Cube(h) == Pow(lhs, rhs) % Cube(h)
  {
    var m, c, b := Modulus(h), Cube(h), HalfBase(h);
    PowRunTracks(h, 1, 1, 0, lhs, lhs, 0, rhs);
    var p, e, t := PowRun(h, 1, lhs, rhs), PowLoss(h, 1, 0, lhs, 0, rhs), Pow(lhs, rhs);
    assert 1 * t == t;
    CubeFacts(h);
    ModOfMod(t, c, b);
    ModOfMod(p + e * c, c, b);
    ModMultiple(p, e, c);
    assert c * b == m by { assert b * c == c * b; }
    ErrorShows(p, e, b, c, m);
  }

  /** No multiplication of the run whose result is used loses a carry. */
  predicate KeepsCarries(h: nat, ans: nat, lhs: nat, rhs: nat)
    decreases rhs
  {
    rhs != 0 ==>
      && (rhs % 2 == 1 ==> !CarryLost(h, ans, lhs))
      && (rhs / 2 != 0 ==> !CarryLost(h, lhs, lhs))
      && KeepsCarries(h, if rhs % 2 == 1 then Product(h, ans, lhs) else ans, Product(h, lhs, lhs), rhs / 2)
  }

  lemma {:induction false} KeptCarriesLoseNothing(h: nat, ans: nat, lhs: nat, el: nat, rhs: nat)
    requires KeepsCarries(h, ans, lhs, rhs) && (rhs != 0 ==> el == 0)
    ensures PowLoss(h, ans, 0, lhs, el, rhs) == 0
    decreases rhs
  {
    hide CarryLost, Product;
    if rhs != 0 {
      if rhs % 2 == 1 {
        NothingLost(h, ans, lhs);
      }
      if rhs / 2 != 0 {
        NothingLost(h, lhs, lhs);
      }
      KeptCarriesLoseNothing(h, if rhs % 2 == 1 then Product(h, ans, lhs) else ans, Product(h, lhs, lhs),
                             LossOfProduct(h, lhs, el, lhs, el), rhs / 2);
    }
  }

  lemma NothingLost(h: nat, x: nat, y: nat)
    requires !CarryLost(h, x, y)
    ensures LossOfProduct(h, x, 0, y, 0) == 0
  {
    DivModUnique(0, HalfBase(h), 0, 0);
  }

  /** A run that loses no carry it uses returns the power modulo 2^(4h). */
  lemma PowExactWhileCarriesKept(h: nat, lhs: nat, rhs: nat)
    requires 1 < Modulus(h) && KeepsCarries(h, 1, lhs, rhs)
    ensures PowRun(h, 1, lhs, rhs) == Pow(lhs, rhs) % Modulus(h)
  {
    KeptCarriesLoseNothing(h, 1, lhs, 0, rhs);
    PowExactIff(h, lhs, rhs);
  }

  lemma ErrorShows(p: nat, e: nat, b: nat, c: nat, m: nat)
    requires p < m && e < b && 0 < c && b * c == m
    ensures (p + e * c) % m == p <==> e == 0
  {
    if e == 0 {
      DivModUnique(p, m, 0, p);
    } else {
      MulMonotonic(c, 1, e);
      MulGap(e, b, c);
      DifferentResidues(p + e * c, e * c, m);
      DivModUnique(p, m, 0, p);
    }
  }

  lemma {:induction false} PowRunOfZero(h: nat, lhs: nat, rhs: nat)
    ensures PowRun(h, 0, lhs, rhs) == 0
    decreases rhs
  {
    if rhs != 0 {
      ProductOfZero(h, lhs);
      PowRunOfZero(h, Product(h, lhs, lhs), rhs / 2);
    }
  }

  lemma ProductOfZero(h: nat, y: nat)
    ensures Product(h, 0, y) == 0
  {
    DivModUnique(0, LimbBase(h), 0, 0);
    SmallProductKeepsCarry(h, 0, y) by { CubeTimesBase(HalfBase(h)); }
    DivModUnique(0, Modulus(h), 0, 0);
  }

  /** A product below b^3 loses nothing. */
  lemma SmallProductExact(h: nat, x: nat, y: nat)
    requires x * y < Cube(h)
    ensures Product(h, x, y) == x * y
  {
    var r := LimbBase(h);
    ResidueAtMost(x, r);
    ResidueAtMost(y, r);
    MulMonotonic(x % r, y % r, y);
    MulMonotonic(y, x % r, x);
    SmallProductKeepsCarry(h, x, y);
    CubeFacts(h);
    MulMonotonic(Cube(h), 1, HalfBase(h));
    DivModUnique(x * y, Modulus(h), 0, x * y);
  }

  lemma ResidueAtMost(x: nat, r: nat)
    requires 0 < r
    ensures 0 <= x % r <= x
  {
    MulMonotonic(r, 0, x / r);
    assert x == x / r * r + x % r;
  }

  /** A power below b^3 is computed exactly: then no multiplication that matters loses a carry. */
  lemma {:induction false} SmallPowExact(h: nat, ans: nat, lhs: nat, rhs: nat)
    requires ans * Pow(lhs, rhs) < Cube(h)
    ensures PowRun(h, ans, lhs, rhs) == ans * Pow(lhs, rhs)
    decreases rhs, 0
  {
    if rhs == 0 {
    } else if ans == 0 {
      PowRunOfZero(h, lhs, rhs);
    } else {
      PowHalves(lhs, rhs);
      var half := Pow(lhs * lhs, rhs / 2);
      var ans' := if rhs % 2 == 1 then ans * lhs else ans;
      Associate(ans, lhs, half);
      assert ans' * half < Cube(h);
      if rhs % 2 == 1 {
        FirstFactorBelow(ans * lhs, lhs, rhs, Cube(h));
        SmallProductExact(h, ans, lhs);
      }
      SmallPowSquare(h, ans', lhs, rhs / 2);
    }
  }

  /** The step after the accumulator was updated: the square is exact unless it is no longer used. */
  lemma {:induction false} SmallPowSquare(h: nat, ans: nat, lhs: nat, rhs: nat)
    requires ans * Pow(lhs * lhs, rhs) < Cube(h)
    ensures PowRun(h, ans, Product(h, lhs, lhs), rhs) == ans * Pow(lhs * lhs, rhs)
    decreases rhs, 1
  {
    if rhs == 0 {
    } else if ans == 0 {
      PowRunOfZero(h, Product(h, lhs, lhs), rhs);
    } else {
      SquareBelow(ans, lhs * lhs, rhs, Cube(h));
      SmallProductExact(h, lhs, lhs);
      SmallPowExact(h, ans, lhs * lhs, rhs);
    }
  }

  lemma FirstFactorBelow(product: nat, lhs: nat, rhs: nat, c: nat)
    requires 0 < rhs && 0 < c
    requires product * Pow(lhs * lhs, rhs / 2) < c && (lhs == 0 ==> product == 0)
    ensures product < c
  {
    if lhs != 0 {
      MulMonotonic(lhs, 1, lhs);
      PowPositive(lhs * lhs, rhs / 2);
      MulMonotonic(product, 1, Pow(lhs * lhs, rhs / 2));
    }
  }

  lemma SquareBelow(ans: nat, square: nat, rhs: nat, c: nat)
    requires 0 < ans && 0 < rhs && 0 < c && ans * Pow(square, rhs) < c
    ensures square < c
  {
    if square != 0 {
      PowPositive(square, rhs - 1);
      MulMonotonic(square, 1, Pow(square, rhs - 1));
      MulMonotonic(Pow(square, rhs), 1, ans);
    }
  }

  /** The square of the largest limb fits the result type and is still computed wrongly. */
  lemma PowLosesCarry(h: nat)
    requires 2 <= h
    ensures Pow(LimbBase(h) - 1, 2) < Modulus(h)
    ensures PowRun(h, 1, LimbBase(h) - 1, 2) != Pow(LimbBase(h) - 1, 2)
  {
    var x := LimbBase(h) - 1;
    LargestSquareLosesCarry(h);
    PowTwo(x);
    HalfProduct(LimbBase(h), x, x);
    DivModUnique(x * x, Modulus(h), 0, x * x);
    SquareRun(h, x);
  }

  lemma PowTwo(x: nat)
    ensures Pow(x, 2) == x * x
  {
    assert Pow(x, 1) == x * Pow(x, 0) == x;
  }

  lemma SquareRun(h: nat, x: nat)
    requires 1 <= h
    ensures PowRun(h, 1, x, 2) == Product(h, x, x)
  {
    OneTimes(h, Product(h, x, x));
    assert PowRun(h, 1, x, 2) == PowRun(h, 1, Product(h, x, x), 1);
    assert PowRun(h, 1, Product(h, x, x), 1) == Product(h, 1, Product(h, x, x));
  }

  lemma OneTimes(h: nat, y: nat)
    requires 1 <= h && y < Modulus(h)
    ensures Product(h, 1, y) == y
  {
    var b, r := HalfBase(h), LimbBase(h);
    PowMonotonic(2, 1, h);
    MulMonotonic(b, 2, b);
    DivModUnique(1, r, 0, 1);
    assert y % r < r <= b * r by { MulMonotonic(r, 1, b); }
    SmallProductKeepsCarry(h, 1, y);
    DivModUnique(y, Modulus(h), 0, y);
  }

  // ---- the two overloads ----

  /** pow with a two-limb exponent. Both operands are taken by value. */
  method PowWide(base: UnsignedExtension, exponent: UnsignedExtension) returns (ans: UnsignedExtension)
    requires base.Valid() && exponent.Valid() && base.h == exponent.h
    ensures fresh(ans) && ans.Valid() && ans.h == base.h
    ensures ans.Value() == PowRun(base.h, 1, base.Value(), exponent.Value())
  {
    var h := base.h;
    base.InRange();
    ans := new UnsignedExtension(h, 1, 0);
    var lhs := new UnsignedExtension(h, base.low, base.high);
    var rhs := new UnsignedExtension(h, exponent.low, exponent.high);
    while rhs.NonZero()
      invariant fresh(ans) && fresh(lhs) && fresh(rhs) && ans != lhs && ans != rhs && lhs != rhs
      invariant ans.Valid() && lhs.Valid() && rhs.Valid() && ans.h == lhs.h == rhs.h == h
      invariant PowRun(h, ans.Value(), lhs.Value(), rhs.Value()) == PowRun(h, 1, base.Value(), exponent.Value())
      decreases rhs.Value()
    {
      rhs.ComparesByValue(rhs);
      FrontIsParity(rhs.Value());
      assert Pow(2, 1) == 2;
      if rhs.Front() {
        ans.MulAssign(lhs);
      }
      rhs.ShrAssign(1);
      lhs.MulAssign(lhs);
    }
    rhs.ComparesByValue(rhs);
  }

  lemma FrontIsParity(n: nat)
    ensures ByteAt(n, 0) % 2 == n % 2
  {
    assert Pow(2, 8 * 0) == 1;
    assert n / 1 == n;
    assert n == n % 256 + 2 * (128 * (n / 256));
  }

  /** pow with a built-in unsigned exponent. */
  method PowNative(base: UnsignedExtension, exponent: nat) returns (ans: UnsignedExtension)
    requires base.Valid()
    ensures fresh(ans) && ans.Valid() && ans.h == base.h
    ensures ans.Value() == PowRun(base.h, 1, base.Value(), exponent)
  {
    var h := base.h;
    base.InRange();
    ans := new UnsignedExtension(h, 1, 0);
    var lhs := new UnsignedExtension(h, base.low, base.high);
    var rhs := exponent;
    while rhs != 0
      invariant fresh(ans) && fresh(lhs) && ans != lhs
      invariant ans.Valid() && lhs.Valid() && ans.h == lhs.h == h
      invariant PowRun(h, ans.Value(), lhs.Value(), rhs) == PowRun(h, 1, base.Value(), exponent)
    {
      if rhs % 2 == 1 {
        ans.MulAssign(lhs);
      }
      rhs := rhs / 2;
      lhs.MulAssign(lhs);
    }
  }
}
