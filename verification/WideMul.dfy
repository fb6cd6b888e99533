/**
 Column multiplication of two-limb integers from half-limb products.

 Column c1 is summed in a single limb, so it can lose one carry. Every result below is stated with that carry: the
 product is short by exactly b^3 (b the half-limb base) when the carry is lost and exact otherwise.
 */
module WideMul {
  import opened NatMath
  import opened WideInt

  /** Limb-wise "low | high << h". */
  function Merge(h: nat, low: nat, high: nat): nat
  {
    BitOr(low, LimbShl(LimbBase(h), high, h))
  }

  lemma MergeExact(h: nat, low: nat, high: nat)
    requires low < HalfBase(h)
    ensures Merge(h, low, high) == low + (high % HalfBase(h)) * HalfBase(h)
    ensures Merge(h, low, high) < LimbBase(h)
  {
    LimbShlKeeps(h, h, high);
    BitOrDisjoint(high % HalfBase(h), h, low);
    JoinBound(HalfBase(h), low, high % HalfBase(h));
  }

  /** The low half of a limb. */
  function Low(b: nat, x: nat): (l: nat)
    requires 0 < b
    ensures l < b
  {
    x % b
  }

  /** The high half of a limb, for x below b * b. */
  function High(b: nat, x: nat): (u: nat)
    requires 0 < b
  {
    x / b
  }

  /** The sum that column c1 has to hold: the two cross products and the high half of the low product. */
  function CrossSum(b: nat, x0: nat, x1: nat, y0: nat, y1: nat): nat
    requires 0 < b
  {
    x0 * y1 + x1 * y0 + x0 * y0 / b
  }

  /** What a product falls short by: b^3 when the carry out of c1 is lost. */
  function Shortfall(b: nat, x0: nat, x1: nat, y0: nat, y1: nat): nat
    requires 0 < b
  {
    if CrossSum(b, x0, x1, y0, y1) >= b * b then b * (b * b) else 0
  }

  function LimbShortfall(b: nat, x: nat, y: nat): nat
    requires 0 < b
  {
    Shortfall(b, Low(b, x), High(b, x), Low(b, y), High(b, y))
  }

  /** Column c1 overflows its limb: the exact condition under which a product is short. It reads the low limbs only. */
  predicate CarryLost(h: nat, x: nat, y: nat)
  {
    var b, r := HalfBase(h), LimbBase(h);
    CrossSum(b, Low(b, x % r), High(b, x % r), Low(b, y % r), High(b, y % r)) >= r
  }

  /** What multiplication returns: the product modulo 2^(4h), short by b^3 when the carry out of c1 is lost. */
  function Product(h: nat, x: nat, y: nat): (p: nat)
    ensures p < Modulus(h)
  {
    (x * y - if CarryLost(h, x, y) then HalfBase(h) * LimbBase(h) else 0) % Modulus(h)
  }

  // ---- the columns as plain numbers ----

  lemma TwoByTwo(b: int, x0: int, x1: int, y0: int, y1: int)
    ensures (x0 + x1 * b) * (y0 + y1 * b) == x0 * y0 + (x0 * y1 + x1 * y0) * b + (x1 * y1) * (b * b)
  {
    assert (x0 + x1 * b) * (y0 + y1 * b) == x0 * y0 + x0 * (y1 * b) + (x1 * b) * y0 + (x1 * b) * (y1 * b);
    Associate(x0, y1, b);
    Rotate(x1, b, y0);
    Associate(x1 * b, y1, b);
    Rotate(x1, b, y1);
    Associate(x1 * y1, b, b);
  }

  /** Each column keeps l, passes k on, and drops what exceeds its limb; r == b * b. */
  lemma Telescope(b: int, r: int, s0: int, s1: int, s2: int, s3: int,
                  l0: int, l1: int, l2: int, l3: int, k0: int, k1: int, k2: int, d1: int, d2: int, d3: int)
    requires r == b * b
    requires s0 == l0 + k0 * b
    requires s1 + k0 == l1 + k1 * b + d1 * r
    requires s2 + k1 == l2 + k2 * b + d2 * r
    requires s3 + k2 == l3 + d3 * b
    ensures s0 + s1 * b + s2 * r + s3 * (b * r)
         == (l0 + l1 * b) + (l2 + l3 * b) * r + d1 * (b * r) + (d2 + d3) * (r * r)
  {
    Scale4(s1, k0, l1, k1 * b, d1 * r, b);
    Associate(k1, b, b);
    Associate(d1, r, b);
    assert r * b == b * r;
    Scale4(s2, k1, l2, k2 * b, d2 * r, r);
    Associate(k2, b, r);
    Associate(d2, r, r);
    Scale4(s3, k2, l3, d3 * b, 0, b * r);
    Associate(d3, b, b * r);
    Associate(b, b, r);
    Associate(l3, b, r);
    assert (l2 + l3 * b) * r == l2 * r + (l3 * b) * r;
    assert (d2 + d3) * (r * r) == d2 * (r * r) + d3 * (r * r);
  }

  lemma Scale4(s: int, k: int, l: int, u: int, v: int, f: int)
    requires s + k == l + u + v
    ensures s * f == l * f + u * f + v * f - k * f
  {
    assert (s + k) * f == s * f + k * f;
    assert (l + u + v) * f == l * f + u * f + v * f;
  }

  /** The full product, column by column, plus a multiple of the modulus. */
  lemma FourByFour(b: int, r: int, x0: int, x1: int, x2: int, x3: int, y0: int, y1: int, y2: int, y3: int)
    requires r == b * b
    ensures var x := (x0 + x1 * b) + (x2 + x3 * b) * r;
            var y := (y0 + y1 * b) + (y2 + y3 * b) * r;
            var s2 := x0 * y2 + x1 * y1 + x2 * y0;
            var s3 := x0 * y3 + x1 * y2 + x2 * y1 + x3 * y0;
            var rest := x1 * y3 + x3 * y1 + (x2 + x3 * b) * (y2 + y3 * b);
            x * y == x0 * y0 + (x0 * y1 + x1 * y0) * b + s2 * r + s3 * (b * r) + rest * (r * r)
  {
    var xl, xh, yl, yh := x0 + x1 * b, x2 + x3 * b, y0 + y1 * b, y2 + y3 * b;
    TwoByTwo(r, xl, xh, yl, yh);
    TwoByTwo(b, x0, x1, y0, y1);
    TwoByTwo(b, x0, x1, y2, y3);
    TwoByTwo(b, x2, x3, y0, y1);
    Gather(b, r, x0 * y0, x0 * y1 + x1 * y0, x1 * y1, x0 * y2, x0 * y3 + x1 * y2, x1 * y3,
           x2 * y0, x2 * y1 + x3 * y0, x3 * y1, xh * yh);
  }

  lemma Gather(b: int, r: int, p0: int, p1: int, p2: int, q0: int, q1: int, q2: int, u0: int, u1: int, u2: int, v: int)
    ensures (p0 + p1 * b + p2 * r) + ((q0 + q1 * b + q2 * r) + (u0 + u1 * b + u2 * r)) * r + v * (r * r)
         == p0 + p1 * b + (q0 + p2 + u0) * r + (q1 + u1) * (b * r) + (q2 + u2 + v) * (r * r)
  {
    var q, u, w := q0 + u0, q1 + u1, q2 + u2;
    assert (q0 + q1 * b + q2 * r) + (u0 + u1 * b + u2 * r) == q + u * b + w * r;
    assert (q + u * b + w * r) * r == q * r + (u * b) * r + (w * r) * r;
    Associate(u, b, r);
    Associate(w, r, r);
  }

  lemma CarryAtMostOne(b: nat, x0: nat, x1: nat, y0: nat, y1: nat)
    requires x0 < b && x1 < b && y0 < b && y1 < b
    ensures x0 * y0 / b < b
    ensures CrossSum(b, x0, x1, y0, y1) < 2 * (b * b)
  {
    HighOfLowProduct(b, x0, y0);
    HalfProduct(b, x0, y1);
    HalfProduct(b, x1, y0);
    ThreeParts(b * b, x0 * y1, x1 * y0, x0 * y0 / b, x0);
  }

  lemma ThreeParts(r: int, p: int, q: int, c: int, x: int)
    requires p + x < r && q < r && c <= x
    ensures p + q + c < 2 * r
  {
  }

  lemma HighOfLowProduct(b: nat, x: nat, y: nat)
    requires y < b
    ensures x * y / b <= x
  {
    MulMonotonic(x, y, b);
    DivBound(x * y, b, x + 1) by { assert (x + 1) * b == x * b + b; }
  }

  lemma HalfProduct(b: nat, x: nat, y: nat)
    requires x < b && y < b
    ensures x * y + x + y < b * b
  {
    assert b * b == (b - 1) * (b - 1) + 2 * (b - 1) + 1;
    MulMonotonic(x, y, b - 1);
    MulMonotonic(b - 1, x, b - 1);
  }

  // ---- the code's columns ----

  /** What is left of a column after it wrapped in its limb and `reset_high` took the high half away. */
  function Kept(b: nat, s: nat): (l: nat)
    requires 0 < b
    ensures l < b
  {
    MulMonotonic(b, 1, b);
    s % (b * b) % b
  }

  /** The high half that `reset_high` moves on to the next column. */
  function Carried(b: nat, s: nat): (k: nat)
    requires 0 < b
    ensures k < b
  {
    MulMonotonic(b, 1, b);
    DivBound(s % (b * b), b, b);
    s % (b * b) / b
  }

  lemma SplitColumn(b: nat, s: nat) returns (d: nat)
    requires 0 < b
    ensures 0 < b * b && d == s / (b * b)
    ensures s == Kept(b, s) + Carried(b, s) * b + d * (b * b)
  {
    var r := b * b;
    MulMonotonic(b, 1, b);
    d := s / r;
    assert s == d * r + s % r;
  }

  /** The limbs computed by `*=` from the product sums of its columns: each column passes its high half on. */
  function Columns(b: nat, p0: nat, p1: nat, p2: nat, p3: nat): (limbs: (nat, nat))
    requires 0 < b
  {
    var s1 := p1 + Carried(b, p0);
    var s2 := p2 + Carried(b, s1);
    var s3 := p3 + Carried(b, s2);
    (Join(b, Kept(b, p0), Kept(b, s1)), Join(b, Kept(b, s2), Kept(b, s3)))
  }

  /** Overflow in columns c2 and c3 never matters; only the carry out of c1 does. */
  lemma ColumnsExact(b: nat, p0: nat, p1: nat, p2: nat, p3: nat)
    requires 0 < b && p0 < b * b && p1 + p0 / b < 2 * (b * b)
    ensures var r := b * b;
            var (low, high) := Columns(b, p0, p1, p2, p3);
            var lost := if p1 + p0 / b >= r then b * r else 0;
            && 0 < r * r && low < r && high < r
            && Join(r, low, high) == (p0 + p1 * b + p2 * r + p3 * (b * r) - lost) % (r * r)
  {
    LowProduct(b, p0);
    var s1 := p1 + Carried(b, p0);
    var s2 := p2 + Carried(b, s1);
    var s3 := p3 + Carried(b, s2);
    var d1 := SplitColumn(b, s1);
    var d2 := SplitColumn(b, s2);
    var d3 := SplitColumn(b, s3);
    CarryIsFlag(b * b, s1, d1);
    FinishColumns(b, b * b, p0, p1, p2, p3, Kept(b, p0), Carried(b, p0), Kept(b, s1), Carried(b, s1), d1,
                  Kept(b, s2), Carried(b, s2), d2, Kept(b, s3), Carried(b, s3), d3);
  }

  /** The product of two half limbs fits a limb, so column c0 never wraps. */
  lemma LowProduct(b: nat, p: nat)
    requires 0 < b && p < b * b
    ensures p == Kept(b, p) + Carried(b, p) * b
    ensures Carried(b, p) == p / b && Kept(b, p) == p % b
  {
    DivModUnique(p, b * b, 0, p);
  }

  lemma CarryIsFlag(r: nat, s: nat, d: nat)
    requires 0 < r && s < 2 * r && d == s / r
    ensures d == if s >= r then 1 else 0
  {
    if s >= r {
      DivModUnique(s, r, 1, s - r);
    } else {
      DivModUnique(s, r, 0, s);
    }
  }

  lemma FinishColumns(b: nat, r: nat, p0: nat, p1: nat, p2: nat, p3: nat,
                      l0: nat, k0: nat, l1: nat, k1: nat, d1: nat, l2: nat, k2: nat, d2: nat, l3: nat, k3: nat, d3: nat)
    requires r == b * b && l0 < b && l1 < b && l2 < b && l3 < b && 0 < b && d1 <= 1
    requires p0 == l0 + k0 * b
    requires p1 + k0 == l1 + k1 * b + d1 * r
    requires p2 + k1 == l2 + k2 * b + d2 * r
    requires p3 + k2 == l3 + k3 * b + d3 * r
    ensures 0 < r * r && Join(b, l0, l1) < r && Join(b, l2, l3) < r
    ensures Join(r, Join(b, l0, l1), Join(b, l2, l3))
         == (p0 + p1 * b + p2 * r + p3 * (b * r) - if d1 == 1 then b * r else 0) % (r * r)
  {
    var e3 := TopColumn(b, p3 + k2, l3, k3, d3);
    Telescope(b, r, p0, p1, p2, p3, l0, l1, l2, l3, k0, k1, k2, d1, d2, e3);
    var sum := p0 + p1 * b + p2 * r + p3 * (b * r);
    ColumnResidue(b, r, l0, l1, l2, l3, sum, d1, d2 + e3);
  }

  /** Everything the top column does not keep is a multiple of b. */
  lemma TopColumn(b: nat, s: nat, l: nat, k: nat, d: nat) returns (e: nat)
    requires s == l + k * b + d * (b * b)
    ensures s == l + e * b
  {
    e := k + d * b;
    Associate(d, b, b);
  }

  lemma ColumnResidue(b: nat, r: nat, l0: nat, l1: nat, l2: nat, l3: nat, sum: int, d: nat, e: nat)
    requires r == b * b && l0 < b && l1 < b && l2 < b && l3 < b && d <= 1
    requires sum == (l0 + l1 * b) + (l2 + l3 * b) * r + d * (b * r) + e * (r * r)
    ensures 0 < r * r && Join(b, l0, l1) < r && Join(b, l2, l3) < r
    ensures Join(r, Join(b, l0, l1), Join(b, l2, l3)) == (sum - if d == 1 then b * r else 0) % (r * r)
  {
    JoinBound(b, l0, l1);
    JoinBound(b, l2, l3);
    JoinBound(r, Join(b, l0, l1), Join(b, l2, l3));
    ResidueOf(r, Join(r, Join(b, l0, l1), Join(b, l2, l3)), sum - d * (b * r), e);
  }

  // ---- limb operands ----

  lemma Halves(b: nat, x: nat)
    requires 0 < b && x < b * b
    ensures High(b, x) < b && x == Join(b, Low(b, x), High(b, x))
  {
    DivBound(x, b, b);
  }

  /** The sum of column n, from the half limbs of both operands. */
  function ColumnSum(n: nat, x0: nat, x1: nat, x2: nat, x3: nat, y0: nat, y1: nat, y2: nat, y3: nat): nat
    requires n < 4
  {
    match n
    case 0 => x0 * y0
    case 1 => x0 * y1 + x1 * y0
    case 2 => x0 * y2 + x1 * y1 + x2 * y0
    case 3 => x0 * y3 + x1 * y2 + x2 * y1 + x3 * y0
  }

  function MulHalfLimbs(b: nat, x0: nat, x1: nat, x2: nat, x3: nat, y0: nat, y1: nat, y2: nat, y3: nat): (nat, nat)
    requires 0 < b
  {
    Columns(b, ColumnSum(0, x0, x1, x2, x3, y0, y1, y2, y3), ColumnSum(1, x0, x1, x2, x3, y0, y1, y2, y3),
            ColumnSum(2, x0, x1, x2, x3, y0, y1, y2, y3), ColumnSum(3, x0, x1, x2, x3, y0, y1, y2, y3))
  }

  /** The limbs of the product of two two-limb operands. */
  function MulLimbs(b: nat, xl: nat, xh: nat, yl: nat, yh: nat): (nat, nat)
    requires 0 < b
  {
    MulHalfLimbs(b, Low(b, xl), High(b, xl), Low(b, xh), High(b, xh),
                 Low(b, yl), High(b, yl), Low(b, yh), High(b, yh))
  }

  lemma MulLimbsExact(b: nat, r: nat, xl: nat, xh: nat, yl: nat, yh: nat)
    requires 0 < b && r == b * b && xl < r && xh < r && yl < r && yh < r
    ensures var (low, high) := MulLimbs(b, xl, xh, yl, yh);
            && 0 < r * r && low < r && high < r
            && Join(r, low, high)
               == (Join(r, xl, xh) * Join(r, yl, yh) - LimbShortfall(b, xl, yl)) % (r * r)
  {
    hide Join, Low, High, Shortfall, MulHalfLimbs;
    Halves(b, xl);
    Halves(b, xh);
    Halves(b, yl);
    Halves(b, yh);
    MulHalves(b, r, Low(b, xl), High(b, xl), Low(b, xh), High(b, xh),
              Low(b, yl), High(b, yl), Low(b, yh), High(b, yh));
  }

  lemma MulHalves(b: nat, r: nat, x0: nat, x1: nat, x2: nat, x3: nat, y0: nat, y1: nat, y2: nat, y3: nat)
    requires r == b * b && x0 < b && x1 < b && x2 < b && x3 < b && y0 < b && y1 < b && y2 < b && y3 < b
    ensures var (low, high) := MulHalfLimbs(b, x0, x1, x2, x3, y0, y1, y2, y3);
            && 0 < r * r && low < r && high < r
            && Join(r, low, high) == (Join(r, Join(b, x0, x1), Join(b, x2, x3))
                                      * Join(r, Join(b, y0, y1), Join(b, y2, y3)) - Shortfall(b, x0, x1, y0, y1)) % (r * r)
  {
    CarryAtMostOne(b, x0, x1, y0, y1);
    HalfProduct(b, x0, y0);
    ColumnSumsToProduct(b, x0, x1, x2, x3, y0, y1, y2, y3, Shortfall(b, x0, x1, y0, y1));
    ColumnsExact(b, ColumnSum(0, x0, x1, x2, x3, y0, y1, y2, y3), ColumnSum(1, x0, x1, x2, x3, y0, y1, y2, y3),
                 ColumnSum(2, x0, x1, x2, x3, y0, y1, y2, y3), ColumnSum(3, x0, x1, x2, x3, y0, y1, y2, y3));
  }

  lemma ColumnSumsToProduct(b: nat, x0: nat, x1: nat, x2: nat, x3: nat, y0: nat, y1: nat, y2: nat, y3: nat, lost: int)
    requires 0 < b
    ensures var r := b * b;
            var p0 := ColumnSum(0, x0, x1, x2, x3, y0, y1, y2, y3);
            var p1 := ColumnSum(1, x0, x1, x2, x3, y0, y1, y2, y3);
            var p2 := ColumnSum(2, x0, x1, x2, x3, y0, y1, y2, y3);
            var p3 := ColumnSum(3, x0, x1, x2, x3, y0, y1, y2, y3);
            && 0 < r * r
            && (Join(r, Join(b, x0, x1), Join(b, x2, x3)) * Join(r, Join(b, y0, y1), Join(b, y2, y3)) - lost) % (r * r)
               == (p0 + p1 * b + p2 * r + p3 * (b * r) - lost) % (r * r)
  {
    var r := b * b;
    MulMonotonic(b, 1, b);
    MulMonotonic(r, 1, r);
    var x, y := Join(r, Join(b, x0, x1), Join(b, x2, x3)), Join(r, Join(b, y0, y1), Join(b, y2, y3));
    var rest := x1 * y3 + x3 * y1 + (x2 + x3 * b) * (y2 + y3 * b);
    FourByFour(b, r, x0, x1, x2, x3, y0, y1, y2, y3);
    var flat := ColumnSum(0, x0, x1, x2, x3, y0, y1, y2, y3) + ColumnSum(1, x0, x1, x2, x3, y0, y1, y2, y3) * b
              + ColumnSum(2, x0, x1, x2, x3, y0, y1, y2, y3) * r + ColumnSum(3, x0, x1, x2, x3, y0, y1, y2, y3) * (b * r);
    assert x * y == flat + rest * (r * r);
    CongruentByMultiple(x * y - lost, flat - lost, rest, r * r);
  }

  /** `a *= b` on two-limb integers. */
  lemma MulIsProduct(h: nat, xl: nat, xh: nat, yl: nat, yh: nat)
    requires xl < LimbBase(h) && xh < LimbBase(h) && yl < LimbBase(h) && yh < LimbBase(h)
    ensures var r := LimbBase(h);
            var (low, high) := MulLimbs(HalfBase(h), xl, xh, yl, yh);
            && low < r && high < r
            && Join(r, low, high) == Product(h, Join(r, xl, xh), Join(r, yl, yh))
  {
    MulLimbsExact(HalfBase(h), LimbBase(h), xl, xh, yl, yh);
    JoinSplit(LimbBase(h), xl, xh);
    JoinSplit(LimbBase(h), yl, yh);
  }

  // ---- what the carry means ----

  /** A product is exact modulo 2^(4h) if and only if column c1 keeps its carry. */
  lemma ProductExactIff(h: nat, x: nat, y: nat)
    ensures Product(h, x, y) == x * y % Modulus(h) <==> !CarryLost(h, x, y)
  {
    if CarryLost(h, x, y) {
      ShortByLess(HalfBase(h), x * y);
    }
  }

  lemma ShortByLess(b: nat, n: nat)
    requires 0 < b
    ensures 0 < (b * b) * (b * b)
    ensures b == 1 || (n - b * (b * b)) % ((b * b) * (b * b)) != n % ((b * b) * (b * b))
  {
    var m, e := (b * b) * (b * b), b * (b * b);
    MulMonotonic(b, 1, b);
    MulMonotonic(b * b, 1, b * b);
    Associate(b, b, b * b);
    if b > 1 {
      MulGap(1, b, e);
      MulMonotonic(b, 1, b * b);
      DifferentResidues(n, e, m);
    }
  }

  lemma DifferentResidues(n: int, e: nat, m: nat)
    requires 0 < e < m
    ensures (n - e) % m != n % m
  {
    var q, s := n / m, n % m;
    if s >= e {
      DivModUnique(n - e, m, q, s - e);
    } else {
      DivModUnique(n - e, m, q - 1, s - e + m);
    }
  }

  /** Modulo b^3 every product is exact: what a lost carry takes away is a multiple of b^3. */
  lemma ProductModCube(h: nat, x: nat, y: nat)
    ensures var e := HalfBase(h) * LimbBase(h);
            0 < e && Product(h, x, y) % e == x * y % e
  {
    var e := HalfBase(h) * LimbBase(h);
    var k := if CarryLost(h, x, y) then 1 else 0;
    CubeTimesBase(HalfBase(h));
    ModOfMod(x * y - k * e, e, HalfBase(h));
    ModMultiple(x * y, 0 - k, e);
  }

  lemma CubeTimesBase(b: nat)
    requires 0 < b
    ensures 0 < b * (b * b) && (b * (b * b)) * b == (b * b) * (b * b)
  {
    MulMonotonic(b, 1, b);
    MulMonotonic(b, 1, b * b);
    Rotate(b, b * b, b);
  }

  /** No carry is lost while the low limbs multiply to less than b^3. */
  lemma SmallProductKeepsCarry(h: nat, x: nat, y: nat)
    requires x % LimbBase(h) * (y % LimbBase(h)) < HalfBase(h) * LimbBase(h)
    ensures !CarryLost(h, x, y)
  {
    if CarryLost(h, x, y) {
      LostCarryIsLarge(HalfBase(h), x % LimbBase(h), y % LimbBase(h));
    }
  }

  lemma LostCarryIsLarge(b: nat, xl: nat, yl: nat)
    requires 0 < b && xl < b * b && yl < b * b
    requires CrossSum(b, Low(b, xl), High(b, xl), Low(b, yl), High(b, yl)) >= b * b
    ensures xl * yl >= b * (b * b)
  {
    hide Join, CrossSum;
    Halves(b, xl);
    Halves(b, yl);
    CrossSumBelowProduct(b, Low(b, xl), High(b, xl), Low(b, yl), High(b, yl));
    MulMonotonic(b, b * b, CrossSum(b, Low(b, xl), High(b, xl), Low(b, yl), High(b, yl)));
  }

  lemma CrossSumBelowProduct(b: nat, x0: nat, x1: nat, y0: nat, y1: nat)
    requires 0 < b
    ensures b * CrossSum(b, x0, x1, y0, y1) <= Join(b, x0, x1) * Join(b, y0, y1)
  {
    TwoByTwo(b, x0, x1, y0, y1);
    MulMonotonic(b * b, 0, x1 * y1);
    assert x0 * y0 / b * b <= x0 * y0;
    assert b * CrossSum(b, x0, x1, y0, y1) == (x0 * y1 + x1 * y0) * b + x0 * y0 / b * b;
  }

  /** Squaring the largest limb loses the carry, whatever the width. */
  lemma LargestSquareLosesCarry(h: nat)
    requires 2 <= h
    ensures CarryLost(h, LimbBase(h) - 1, LimbBase(h) - 1)
    ensures Product(h, LimbBase(h) - 1, LimbBase(h) - 1) != (LimbBase(h) - 1) * (LimbBase(h) - 1) % Modulus(h)
  {
    var b, r := HalfBase(h), LimbBase(h);
    PowMonotonic(2, 2, h);
    assert Pow(2, 2) == 4;
    DivModUnique(r - 1, r, 0, r - 1);
    DivModUnique(r - 1, b, b - 1, b - 1);
    LargestCross(b);
    ProductExactIff(h, r - 1, r - 1);
  }

  lemma LargestCross(b: nat)
    requires 4 <= b
    ensures CrossSum(b, b - 1, b - 1, b - 1, b - 1) >= b * b
  {
    assert (b - 1) * (b - 1) == b * b - 2 * b + 1;
    MulMonotonic(b, 4, b);
  }

  // ---- multiplying by a 32-bit number ----

  /** The limbs computed by `*=` with a small multiplier: one product per column. */
  function MulSmallLimbs(b: nat, xl: nat, xh: nat, y: nat): (nat, nat)
    requires 0 < b
  {
    Columns(b, ColumnSum(0, Low(b, xl), 0, 0, 0, y, 0, 0, 0), ColumnSum(0, High(b, xl), 0, 0, 0, y, 0, 0, 0),
            ColumnSum(0, Low(b, xh), 0, 0, 0, y, 0, 0, 0), ColumnSum(0, High(b, xh), 0, 0, 0, y, 0, 0, 0))
  }

  /** With a multiplier below b no column overflows, so the product is exact modulo 2^(4h) for every operand. */
  lemma MulSmallExact(h: nat, xl: nat, xh: nat, y: nat)
    requires xl < LimbBase(h) && xh < LimbBase(h) && y < HalfBase(h)
    ensures var r := LimbBase(h);
            var (low, high) := MulSmallLimbs(HalfBase(h), xl, xh, y);
            low < r && high < r && Join(r, low, high) == Join(r, xl, xh) * y % Modulus(h)
  {
    var b := HalfBase(h);
    Halves(b, xl);
    Halves(b, xh);
    MulSmallHalves(b, Low(b, xl), High(b, xl), Low(b, xh), High(b, xh), y);
  }

  lemma MulSmallHalves(b: nat, x0: nat, x1: nat, x2: nat, x3: nat, y: nat)
    requires x0 < b && x1 < b && x2 < b && x3 < b && y < b
    ensures var r := b * b;
            var (low, high) := Columns(b, ColumnSum(0, x0, 0, 0, 0, y, 0, 0, 0), ColumnSum(0, x1, 0, 0, 0, y, 0, 0, 0),
                                       ColumnSum(0, x2, 0, 0, 0, y, 0, 0, 0), ColumnSum(0, x3, 0, 0, 0, y, 0, 0, 0));
            && 0 < r * r && low < r && high < r
            && Join(r, low, high) == Join(r, Join(b, x0, x1), Join(b, x2, x3)) * y % (r * r)
  {
    var r := b * b;
    SmallColumnFits(b, x0, y);
    SmallColumnFits(b, x1, y);
    DivBound(x0 * y, b, b);
    ColumnsExact(b, ColumnSum(0, x0, 0, 0, 0, y, 0, 0, 0), ColumnSum(0, x1, 0, 0, 0, y, 0, 0, 0),
                 ColumnSum(0, x2, 0, 0, 0, y, 0, 0, 0), ColumnSum(0, x3, 0, 0, 0, y, 0, 0, 0));
    SmallScale(b, r, x0, x1, x2, x3, y);
  }

  lemma SmallScale(b: nat, r: nat, x0: nat, x1: nat, x2: nat, x3: nat, y: nat)
    ensures Join(r, Join(b, x0, x1), Join(b, x2, x3)) * y == x0 * y + x1 * y * b + x2 * y * r + x3 * y * (b * r)
  {
    JoinScale(r, Join(b, x0, x1), Join(b, x2, x3), y);
    JoinScale(b, x0, x1, y);
    JoinScale(b, x2, x3, y);
    assert (x2 * y + x3 * y * b) * r == x2 * y * r + (x3 * y * b) * r;
    Associate(x3 * y, b, r);
  }

  /** A column x * y plus the largest possible carry fits its limb. */
  lemma SmallColumnFits(b: nat, x: nat, y: nat)
    requires x < b && y < b
    ensures x * y + (b - 1) < b * b
  {
    MulMonotonic(x, y, b - 1);
    MulMonotonic(b - 1, x, b - 1);
    assert b * b == (b - 1) * (b - 1) + 2 * (b - 1) + 1;
  }

  // ---- limb products of double width ----

  /** `mul_extend` on limbs: the low and the high limb of the double-width product. */
  function MulExtend(h: nat, x: nat, y: nat): (nat, nat)
  {
    (MulExtendLow(HalfBase(h), x, y), MulExtendHigh(HalfBase(h), x, y))
  }

  function MulExtendLow(b: nat, x: nat, y: nat): nat
    requires 0 < b
  {
    Join(b, Kept(b, LowTerm(b, x, y)), Kept(b, MiddleColumn(b, x, y)))
  }

  function MulExtendHigh(b: nat, x: nat, y: nat): nat
    requires 0 < b
  {
    HighTerm(b, x, y) + Carried(b, MiddleColumn(b, x, y))
  }

  /** Column c1 before it wraps. */
  function MiddleColumn(b: nat, x: nat, y: nat): nat
    requires 0 < b
  {
    CrossTerms(b, x, y) + Carried(b, LowTerm(b, x, y))
  }

  function LowTerm(b: nat, x: nat, y: nat): nat
    requires 0 < b
  {
    ColumnSum(0, Low(b, x), 0, 0, 0, Low(b, y), 0, 0, 0)
  }

  function CrossTerms(b: nat, x: nat, y: nat): nat
    requires 0 < b
  {
    ColumnSum(1, Low(b, x), High(b, x), 0, 0, Low(b, y), High(b, y), 0, 0)
  }

  function HighTerm(b: nat, x: nat, y: nat): nat
    requires 0 < b
  {
    ColumnSum(0, High(b, x), 0, 0, 0, High(b, y), 0, 0, 0)
  }

  /**
   `mul_high` on limbs: it adds the three parts of column c1 one at a time, each addition wrapping, and takes the high
   half of the low product by a shift instead of `reset_high`.
   */
  function MulHigh(h: nat, x: nat, y: nat): nat
  {
    var b, r := HalfBase(h), LimbBase(h);
    (HighTerm(b, x, y) + WrappedColumn(b, r, x, y) / b) % r
  }

  function WrappedColumn(b: nat, r: nat, x: nat, y: nat): nat
    requires 0 < b && 0 < r
  {
    var c := ColumnSum(0, Low(b, x), 0, 0, 0, High(b, y), 0, 0, 0) % r;
    var c' := (c + ColumnSum(0, High(b, x), 0, 0, 0, Low(b, y), 0, 0, 0)) % r;
    (c' + LowTerm(b, x, y) / b) % r
  }

  /** `mul_extend` is the full product, short by b^3 exactly when column c1 loses its carry. */
  lemma MulExtendExact(h: nat, x: nat, y: nat)
    requires x < LimbBase(h) && y < LimbBase(h)
    ensures var (low, high) := MulExtend(h, x, y);
            var r := LimbBase(h);
            && low < r && high < r
            && Join(r, low, high) == x * y - if CarryLost(h, x, y) then HalfBase(h) * r else 0
  {
    DivModUnique(x, LimbBase(h), 0, x);
    DivModUnique(y, LimbBase(h), 0, y);
    MulExtendLimbs(HalfBase(h), LimbBase(h), x, y);
  }

  lemma MulExtendLimbs(b: nat, r: nat, x: nat, y: nat)
    requires 0 < b && r == b * b && x < r && y < r
    ensures MulExtendLow(b, x, y) < r && MulExtendHigh(b, x, y) < r
    ensures Join(r, MulExtendLow(b, x, y), MulExtendHigh(b, x, y)) == x * y - LimbShortfall(b, x, y)
  {
    hide Join, Low, High, Shortfall, ColumnSum, Kept, Carried;
    Halves(b, x);
    Halves(b, y);
    MulExtendHalves(b, r, Low(b, x), High(b, x), Low(b, y), High(b, y));
  }

  lemma MulExtendHalves(b: nat, r: nat, x0: nat, x1: nat, y0: nat, y1: nat)
    requires r == b * b && x0 < b && x1 < b && y0 < b && y1 < b
    ensures var p0, p1, p2 := ColumnSum(0, x0, 0, 0, 0, y0, 0, 0, 0), ColumnSum(1, x0, x1, 0, 0, y0, y1, 0, 0),
                              ColumnSum(0, x1, 0, 0, 0, y1, 0, 0, 0);
            var s1 := p1 + Carried(b, p0);
            && Join(b, Kept(b, p0), Kept(b, s1)) < r && p2 + Carried(b, s1) < r
            && Join(r, Join(b, Kept(b, p0), Kept(b, s1)), p2 + Carried(b, s1))
               == Join(b, x0, x1) * Join(b, y0, y1) - Shortfall(b, x0, x1, y0, y1)
  {
    var p0, p1, p2 := ColumnSum(0, x0, 0, 0, 0, y0, 0, 0, 0), ColumnSum(1, x0, x1, 0, 0, y0, y1, 0, 0),
                      ColumnSum(0, x1, 0, 0, 0, y1, 0, 0, 0);
    HalfProduct(b, x0, y0);
    CarryAtMostOne(b, x0, x1, y0, y1);
    SmallColumnFits(b, x1, y1);
    TwoByTwo(b, x0, x1, y0, y1);
    TwoColumns(b, p0, p1, p2);
  }

  lemma TwoColumns(b: nat, p0: nat, p1: nat, p2: nat)
    requires 0 < b && p0 < b * b && p1 + p0 / b < 2 * (b * b)
    ensures var r := b * b;
            var s1 := p1 + Carried(b, p0);
            var lost := if p1 + p0 / b >= r then b * r else 0;
            && Join(b, Kept(b, p0), Kept(b, s1)) < r
            && Join(r, Join(b, Kept(b, p0), Kept(b, s1)), p2 + Carried(b, s1)) == p0 + p1 * b + p2 * r - lost
  {
    var s1 := p1 + Carried(b, p0);
    LowProduct(b, p0);
    var d := SplitColumn(b, s1);
    CarryIsFlag(b * b, s1, d);
    JoinBound(b, Kept(b, p0), Kept(b, s1));
    TwoColumnsPlain(b, b * b, p0, p1, p2, Kept(b, p0), Carried(b, p0), Kept(b, s1), Carried(b, s1), d);
  }

  lemma TwoColumnsPlain(b: nat, r: nat, p0: nat, p1: nat, p2: nat, l0: nat, k0: nat, l1: nat, k1: nat, d: nat)
    requires r == b * b && d <= 1 && p0 == l0 + k0 * b && p1 + k0 == l1 + k1 * b + d * r
    ensures Join(r, Join(b, l0, l1), p2 + k1) == p0 + p1 * b + p2 * r - if d == 1 then b * r else 0
  {
    Scale4(p1, k0, l1, k1 * b, d * r, b);
    Associate(k1, b, b);
    assert r * b == b * r;
    assert (p2 + k1) * r == p2 * r + k1 * r;
  }

  /** The two orders of summing column c1 agree: `mul_high` is the high limb of `mul_extend`, lost carry included. */
  lemma MulHighIsHighLimb(h: nat, x: nat, y: nat)
    requires x < LimbBase(h) && y < LimbBase(h)
    ensures MulHigh(h, x, y) == MulExtend(h, x, y).1
  {
    hide MulExtendLow, MulExtendHigh;
    var b, r := HalfBase(h), LimbBase(h);
    MulExtendLimbs(b, r, x, y);
    MiddleColumnWrapped(b, r, x, y);
    var k := MulExtendHigh(b, x, y);
    DivModUnique(k, r, 0, k);
    MulHighSum(b, x, y);
  }

  lemma MulHighSum(b: nat, x: nat, y: nat)
    requires 0 < b
    ensures MulExtendHigh(b, x, y) == HighTerm(b, x, y) + Carried(b, MiddleColumn(b, x, y))
  {
  }

  /** Summing c1 one part at a time, wrapping each time, leaves the same limb. */
  lemma MiddleColumnWrapped(b: nat, r: nat, x: nat, y: nat)
    requires 0 < b && r == b * b && x < r && y < r
    ensures 0 < r && WrappedColumn(b, r, x, y) / b == Carried(b, MiddleColumn(b, x, y))
  {
    hide LowTerm;
    Halves(b, x);
    Halves(b, y);
    LowTermFits(b, x, y);
    LowProduct(b, LowTerm(b, x, y));
    var u := ColumnSum(0, Low(b, x), 0, 0, 0, High(b, y), 0, 0, 0);
    var v := ColumnSum(0, High(b, x), 0, 0, 0, Low(b, y), 0, 0, 0);
    WrappedSum(r, u, v, Carried(b, LowTerm(b, x, y)));
    assert CrossTerms(b, x, y) == u + v;
  }

  lemma LowTermFits(b: nat, x: nat, y: nat)
    requires 0 < b
    ensures LowTerm(b, x, y) < b * b
  {
    HalfProduct(b, Low(b, x), Low(b, y));
  }

  lemma WrappedSum(r: nat, u: nat, v: nat, w: nat)
    requires 0 < r
    ensures ((u % r + v) % r + w) % r == (u + v + w) % r
  {
    AddAfterMod(u, v, r);
    SameResidue(r, (u % r + v) % r, u + v, w);
  }

  lemma SameResidue(r: nat, x: int, y: int, w: int)
    requires 0 < r && x == y % r
    ensures (x + w) % r == (y + w) % r
  {
    AddAfterMod(y, w, r);
  }

  /** `mul_high` is the true high limb if and only if the carry is kept; otherwise it is b too small. */
  lemma MulHighExactIff(h: nat, x: nat, y: nat)
    requires x < LimbBase(h) && y < LimbBase(h)
    ensures MulHigh(h, x, y) == x * y / LimbBase(h) <==> !CarryLost(h, x, y)
    ensures MulHigh(h, x, y) == x * y / LimbBase(h) - if CarryLost(h, x, y) then HalfBase(h) else 0
  {
    MulHighIsHighLimb(h, x, y);
    MulExtendExact(h, x, y);
    var (low, high) := MulExtend(h, x, y);
    HighLimbOf(HalfBase(h), LimbBase(h), x * y, low, high, if CarryLost(h, x, y) then 1 else 0);
  }

  /** The square of the largest limb, at every width: its high limb comes out b too small. */
  lemma LargestSquareLosesHigh(h: nat)
    requires 2 <= h
    ensures var x := LimbBase(h) - 1;
            MulHigh(h, x, x) == x * x / LimbBase(h) - HalfBase(h) && MulHigh(h, x, x) != x * x / LimbBase(h)
  {
    LargestSquareLosesCarry(h);
    MulHighExactIff(h, LimbBase(h) - 1, LimbBase(h) - 1);
  }

  lemma HighLimbOf(b: nat, r: nat, p: nat, low: nat, high: nat, k: nat)
    requires low < r && low + high * r == p - k * (b * r)
    ensures p / r == high + k * b
  {
    Associate(k, b, r);
    DivModUnique(p, r, high + k * b, low) by { assert (high + k * b) * r == high * r + k * b * r; }
  }
}
