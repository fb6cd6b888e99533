/**
 The two-limb unsigned integer: carry and borrow arithmetic, comparison, bit access and shifts.

 A limb type T of 2 * h bits has half-limb base 2^h and limb base 2^(2 * h); the library instantiates h = 32
 (64-bit limbs) and h = 64 (128-bit limbs). Limb arithmetic wraps modulo the limb base.
 */
module WideInt {
  import opened NatMath

  /** 2^h: one more than the largest half limb. */
  function HalfBase(h: nat): (b: nat)
    ensures 0 < b
  {
    PowPositive(2, h);
    Pow(2, h)
  }

  /** 2^(2h): limbs wrap modulo this. */
  function LimbBase(h: nat): (r: nat)
    ensures 0 < r
  {
    HalfBase(h) * HalfBase(h)
  }

  /** 2^(4h): two-limb integers wrap modulo this. */
  function Modulus(h: nat): (m: nat)
    ensures 0 < m
  {
    LimbBase(h) * LimbBase(h)
  }

  lemma WidthsArePowers(h: nat)
    ensures LimbBase(h) == Pow(2, 2 * h)
    ensures Modulus(h) == Pow(2, 4 * h)
  {
    PowAdd(2, h, h);
    PowAdd(2, 2 * h, 2 * h);
  }

  // ---- one limb ----

  /** The wrapped sum and the carry flag that `add_carry_assignment` derives from "sum < first operand". */
  function AddCarry(r: nat, carry: bool, a: nat, b: nat): (res: (nat, bool))
    requires 0 < r
  {
    var temp := ((if carry then 1 else 0) + a + b) % r;
    (temp, temp < a)
  }

  /** The flag is the true carry-out, except exactly when the carry-in is set and the addend is the largest limb. */
  lemma CarryFlagExact(r: nat, carry: bool, a: nat, b: nat)
    requires a < r && b < r
    ensures AddCarry(r, carry, a, b).1 == ((if carry then 1 else 0) + a + b >= r) <==> !(carry && b == r - 1)
    ensures var total := (if carry then 1 else 0) + a + b;
            AddCarry(r, carry, a, b).0 == if total >= r then total - r else total
  {
    var total := (if carry then 1 else 0) + a + b;
    if total >= r {
      DivModUnique(total, r, 1, total - r);
    } else {
      DivModUnique(total, r, 0, total);
    }
  }

  /** The one misreport: the sum wraps all the way round to `a` and the carry-out is lost. */
  lemma CarryFlagLost(r: nat, a: nat)
    requires a < r
    ensures AddCarry(r, true, a, r - 1) == (a, false)
    ensures 1 + a + (r - 1) >= r
  {
    CarryFlagExact(r, true, a, r - 1);
  }

  function LimbSub(r: nat, a: nat, b: nat): (d: nat)
    requires 0 < r
  {
    (a - b) % r
  }

  lemma LimbSubWraps(r: nat, a: nat, b: nat)
    requires a < r && b < r
    ensures LimbSub(r, a, b) == if a < b then a - b + r else a - b
  {
    if a < b {
      DivModUnique(a - b, r, -1, a - b + r);
    } else {
      DivModUnique(a - b, r, 0, a - b);
    }
  }

  // ---- two limbs ----

  function Join(r: nat, low: nat, high: nat): nat
  {
    low + high * r
  }

  lemma JoinBound(r: nat, low: nat, high: nat)
    requires low < r && high < r
    ensures Join(r, low, high) < r * r
  {
    MulMonotonic(r, high + 1, r);
  }

  lemma JoinSplit(r: nat, low: nat, high: nat)
    requires low < r
    ensures Join(r, low, high) / r == high && Join(r, low, high) % r == low
  {
    DivModUnique(Join(r, low, high), r, high, low);
  }

  /** `v` is the residue of `x` when they differ by a multiple of r * r and `v` is in range. */
  lemma ResidueOf(r: nat, v: nat, x: int, k: int)
    requires 0 < r && v < r * r
    requires x == v + k * (r * r)
    ensures x % (r * r) == v
  {
    DivModUnique(x, r * r, k, v);
  }

  /** Carrying c out of the low column and d out of the high column, as plain numbers. */
  lemma ColumnSums(r: int, low: int, high: int, l: int, h: int, c: int, d: int)
    requires low == l - c * r && high == h + c - d * r
    ensures low + high * r == l + h * r - d * (r * r)
  {
    assert (h + c - d * r) * r == h * r + c * r - (d * r) * r;
    Associate(d, r, r);
  }

  /**
   When the carry-out of limb-by-limb addition is misreported. If the carry between the limbs was lost, the flag misses
   exactly the carry that it would have caused; otherwise it misses exactly a carry into a high addend that is the
   largest limb.
   */
  predicate CarryOutMissed(r: nat, carry: bool, al: nat, ah: nat, bl: nat, bh: nat)
  {
    if carry && bl == r - 1 then ah + bh == r - 1
    else (if carry then 1 else 0) + al + bl >= r && bh == r - 1
  }

  /**
   Limb-by-limb addition is exact modulo r * r for every operand pair unless the carry-in is set and the low addend
   is the largest limb: then the carry between the limbs is lost and the sum is exactly r too small. The returned flag
   is the true carry-out if and only if none is missed.
   */
  lemma AddTwoLimbs(r: nat, carry: bool, al: nat, ah: nat, bl: nat, bh: nat)
    requires 1 < r && al < r && ah < r && bl < r && bh < r
    ensures var (low, c) := AddCarry(r, carry, al, bl);
            var (high, flag) := AddCarry(r, c, ah, bh);
            var total := (if carry then 1 else 0) + Join(r, al, ah) + Join(r, bl, bh);
            && low < r && high < r
            && Join(r, low, high) == (total - if carry && bl == r - 1 then r else 0) % (r * r)
            && (flag == (total >= r * r) <==> !CarryOutMissed(r, carry, al, ah, bl, bh))
  {
    CarryFlagExact(r, carry, al, bl);
    var (low, c) := AddCarry(r, carry, al, bl);
    CarryFlagExact(r, c, ah, bh);
    var (high, flag) := AddCarry(r, c, ah, bh);
    AddedWithCarry(r, carry, al, ah, bl, bh, low, c, high, flag);
  }

  lemma AddedWithCarry(r: nat, carry: bool, al: nat, ah: nat, bl: nat, bh: nat,
                       low: nat, c: bool, high: nat, flag: bool)
    requires 1 < r && al < r && ah < r && bl < r && bh < r && low < r && high < r
    requires var total := (if carry then 1 else 0) + al + bl;
             && low == (if total >= r then total - r else total)
             && (c == (total >= r) <==> !(carry && bl == r - 1))
    requires var total := (if c then 1 else 0) + ah + bh;
             && high == (if total >= r then total - r else total)
             && (flag == (total >= r) <==> !(c && bh == r - 1))
    ensures var total := (if carry then 1 else 0) + Join(r, al, ah) + Join(r, bl, bh);
            && Join(r, low, high) == (total - if carry && bl == r - 1 then r else 0) % (r * r)
            && (flag == (total >= r * r) <==> !CarryOutMissed(r, carry, al, ah, bl, bh))
  {
    var lost := if carry && bl == r - 1 then r else 0;
    var l := (if carry then 1 else 0) + al + bl;
    AddedLimbs(r, l - lost, ah + bh, low, high, if c then 1 else 0);
    JoinSum(r, al, ah, bl, bh);
    CarryOutOfBoth(r, l, ah + bh);
  }

  /** The smallest misreport with carry-in: one more than all ones is zero with a carry-out; the code reports none. */
  lemma CarryOutMissedOnce(r: nat)
    requires 1 < r
    ensures var (low, c) := AddCarry(r, true, 0, r - 1);
            var (high, flag) := AddCarry(r, c, r - 1, 0);
            && 1 + Join(r, 0, r - 1) + Join(r, r - 1, 0) == r * r
            && !flag && low == 0 && high == r - 1
  {
    CarryFlagLost(r, 0);
    CarryFlagExact(r, false, r - 1, 0);
    assert (r - 1) * r == r * r - r;
  }

  lemma JoinSum(r: nat, al: nat, ah: nat, bl: nat, bh: nat)
    ensures Join(r, al, ah) + Join(r, bl, bh) == Join(r, al + bl, ah + bh)
  {
  }

  lemma AddedLimbs(r: nat, l: nat, h: nat, low: nat, high: nat, c: nat)
    requires low < r && high < r
    requires low == l - c * r
    requires high == if c + h >= r then c + h - r else c + h
    ensures Join(r, low, high) == (l + h * r) % (r * r)
  {
    var d := if c + h >= r then 1 else 0;
    JoinBound(r, low, high);
    ColumnSums(r, low, high, l, h, c, d);
    ResidueOf(r, Join(r, low, high), l + h * r, d);
  }

  lemma CarryOutOfBoth(r: nat, l: nat, h: nat)
    requires l < 2 * r
    ensures (h + (if l >= r then 1 else 0) >= r) <==> l + h * r >= r * r
  {
    var c := if l >= r then 1 else 0;
    if h + c >= r {
      MulMonotonic(r, r, h + c);
      assert (h + c) * r == h * r + c * r;
    } else {
      MulGap(h + c, r, r);
      assert (h + c) * r == h * r + c * r;
    }
  }

  lemma SubTwoLimbs(r: nat, al: nat, ah: nat, bl: nat, bh: nat)
    requires 1 < r && al < r && ah < r && bl < r && bh < r
    ensures var low := LimbSub(r, al, bl);
            var high0 := LimbSub(r, ah, bh);
            var high := if al < low then LimbSub(r, high0, 1) else high0;
            low < r && high < r && Join(r, low, high) == (Join(r, al, ah) - Join(r, bl, bh)) % (r * r)
  {
    LimbSubWraps(r, al, bl);
    LimbSubWraps(r, ah, bh);
    var low := LimbSub(r, al, bl);
    var high0 := LimbSub(r, ah, bh);
    LimbSubWraps(r, high0, 1);
    SubtractedLimbs(r, al, ah, bl, bh, low, if al < low then LimbSub(r, high0, 1) else high0, if al < bl then 1 else 0);
  }

  lemma SubtractedLimbs(r: nat, al: nat, ah: nat, bl: nat, bh: nat, low: nat, high: nat, c: nat)
    requires al < r && ah < r && bl < r && bh < r && low < r && high < r
    requires c == (if al < bl then 1 else 0) && low == al - bl + c * r
    requires high == if ah - bh - c < 0 then ah - bh - c + r else ah - bh - c
    ensures Join(r, low, high) == (Join(r, al, ah) - Join(r, bl, bh)) % (r * r)
  {
    var d := if ah - bh - c < 0 then 1 else 0;
    JoinBound(r, low, high);
    JoinDifference(r, al, ah, bl, bh);
    ColumnSums(r, low, high, al - bl, ah - bh, 0 - c, 0 - d);
    ResidueOf(r, Join(r, low, high), Join(r, al, ah) - Join(r, bl, bh), 0 - d);
  }

  lemma JoinDifference(r: nat, al: nat, ah: nat, bl: nat, bh: nat)
    ensures Join(r, al, ah) - Join(r, bl, bh) == (al - bl) + (ah - bh) * r
  {
  }

  /** Lexicographic comparison, high limb first, is numeric comparison. */
  lemma CompareTwoLimbs(r: nat, al: nat, ah: nat, bl: nat, bh: nat)
    requires al < r && bl < r
    ensures (if ah == bh then al < bl else ah < bh) <==> Join(r, al, ah) < Join(r, bl, bh)
    ensures al == bl && ah == bh <==> Join(r, al, ah) == Join(r, bl, bh)
  {
    if ah < bh {
      MulGap(ah, bh, r);
    } else if bh < ah {
      MulGap(bh, ah, r);
    }
  }

  // ---- shifts ----

  function LimbShl(r: nat, a: nat, s: nat): (x: nat)
    requires 0 < r
  {
    (a * Pow(2, s)) % r
  }

  /** Shifting left inside a limb of base p * q keeps the low part of the operand. */
  lemma ShiftedLimb(p: nat, q: nat, a: nat)
    requires 0 < p && 0 < q
    ensures 0 < p * q && (a * p) % (p * q) == (a % q) * p && (a % q) * p < p * q
  {
    var hi, lo := a / q, a % q;
    assert a * p == (hi * q + lo) * p;
    Distribute(hi, p, q, lo);
    MulMonotonic(p, lo + 1, q);
    DivModUnique(a * p, p * q, hi, lo * p);
  }

  lemma JoinScale(r: nat, x: nat, y: nat, p: nat)
    ensures Join(r, x, y) * p == Join(r, x * p, y * p)
  {
    assert Join(r, x, y) * p == x * p + (y * r) * p;
    Rotate(y, r, p);
  }

  lemma Rotate(a: int, b: int, c: int)
    ensures (a * b) * c == (a * c) * b
  {
    Associate(a, b, c);
    Associate(a, c, b);
  }

  /** Moving the part of each column that exceeds r into the next column. */
  lemma Regroup(r: nat, a: nat, b: nat, c: nat, d: nat)
    ensures Join(r, c * r + a, d * r + b) == Join(r, a, b + c) + d * (r * r)
  {
    assert (d * r + b) * r == (d * r) * r + b * r;
    Associate(d, r, r);
    assert (b + c) * r == b * r + c * r;
  }

  /** A limb of base p * q shifted left by p: the part that stays inside. */
  function Shifted(p: nat, q: nat, a: nat): nat
    requires 0 < q
  {
    Join(p, 0, a % q)
  }

  /** The shifted high limb with the bits that leave the low limb below it. */
  function Funnel(p: nat, q: nat, low: nat, high: nat): nat
    requires 0 < q
  {
    Join(p, low / q, high % q)
  }

  lemma SplitBy(n: nat, p: nat, q: nat)
    requires 0 < q && n < p * q
    ensures n == Join(q, n % q, n / q) && n / q < p && n % q < q
  {
    DivBound(n, q, p);
  }

  lemma JoinInRange(p: nat, q: nat, low: nat, high: nat)
    requires low < p && high < q
    ensures Join(p, low, high) < p * q
  {
    MulGap(high, q, p);
  }

  /** Scaling by p a value split at q. */
  lemma JoinTimes(p: nat, q: nat, low: nat, high: nat)
    ensures Join(q, low, high) * p == Join(p * q, Join(p, 0, low), high)
  {
    Distribute(high, p, q, low);
  }

  /** Left shift by s < w, with p == 2^s and q == 2^(w - s). */
  lemma ShlTwoLimbs(r: nat, p: nat, q: nat, al: nat, ah: nat)
    requires 0 < p && 0 < q && r == p * q
    requires al < r && ah < r
    ensures 0 < r * r && al / q < p
    ensures Shifted(p, q, al) < r && Funnel(p, q, al, ah) < r
    ensures Join(r, Shifted(p, q, al), Funnel(p, q, al, ah)) == (Join(r, al, ah) * p) % (r * r)
  {
    hide Join;
    SplitBy(al, p, q);
    SplitBy(ah, p, q);
    ShlResidue(r, p, q, al % q, al / q, ah % q, ah / q);
  }

  lemma ShlResidue(r: nat, p: nat, q: nat, l0: nat, l1: nat, h0: nat, h1: nat)
    requires l0 < q && h0 < q && l1 < p && r == p * q
    ensures 0 < r * r && Join(p, 0, l0) < r && Join(p, l1, h0) < r
    ensures Join(r, Join(p, 0, l0), Join(p, l1, h0)) == (Join(r, Join(q, l0, l1), Join(q, h0, h1)) * p) % (r * r)
  {
    hide Join;
    JoinInRange(p, q, 0, l0);
    JoinInRange(p, q, l1, h0);
    ShlColumns(r, p, q, l0, l1, h0, h1);
    var low, high := Join(p, 0, l0), Join(p, l1, h0);
    JoinBound(r, low, high);
    ResidueOf(r, Join(r, low, high), Join(r, Join(q, l0, l1), Join(q, h0, h1)) * p, h1);
  }

  lemma ShlColumns(r: nat, p: nat, q: nat, l0: nat, l1: nat, h0: nat, h1: nat)
    requires r == p * q
    ensures Join(r, Join(q, l0, l1), Join(q, h0, h1)) * p == Join(r, Join(p, 0, l0), Join(p, l1, h0)) + h1 * (r * r)
  {
    hide Join;
    JoinScale(r, Join(q, l0, l1), Join(q, h0, h1), p);
    JoinTimes(p, q, l0, l1);
    JoinTimes(p, q, h0, h1);
    ShlRegroup(r, p, Join(p, 0, l0), l1, h0, h1);
  }

  lemma ShlRegroup(r: nat, p: nat, low: nat, l1: nat, h0: nat, h1: nat)
    ensures Join(r, Join(r, low, l1), Join(r, Join(p, 0, h0), h1)) == Join(r, low, Join(p, l1, h0)) + h1 * (r * r)
  {
    Regroup(r, low, h0 * p, l1, h1);
  }

  /** Right shift by s < w, with p == 2^s and q == 2^(w - s). */
  lemma ShrTwoLimbs(r: nat, p: nat, q: nat, al: nat, ah: nat)
    requires 0 < p && 0 < q && r == q * p
    requires al < r && ah < r
    ensures al / p < q && Funnel(q, p, al, ah) < r && ah / p < r
    ensures Join(r, Funnel(q, p, al, ah), ah / p) == Join(r, al, ah) / p
  {
    hide Join;
    SplitBy(al, q, p);
    SplitBy(ah, q, p);
    QuotientAtMost(ah, p);
    JoinInRange(q, p, al / p, ah % p);
    ShrQuotient(r, p, q, al % p, al / p, ah % p, ah / p);
  }

  lemma QuotientAtMost(n: nat, d: nat)
    requires 0 < d
    ensures n / d <= n
  {
    MulMonotonic(n / d, 1, d);
    assert n == n / d * d + n % d;
  }

  lemma ShrQuotient(r: nat, p: nat, q: nat, l0: nat, l1: nat, h0: nat, h1: nat)
    requires l0 < p && r == q * p
    ensures Join(r, Join(q, l1, h0), h1) == Join(r, Join(p, l0, l1), Join(p, h0, h1)) / p
  {
    hide Join;
    ShrColumns(r, p, q, l0, l1, h0, h1);
    DivModUnique(Join(r, Join(p, l0, l1), Join(p, h0, h1)), p, Join(r, Join(q, l1, h0), h1), l0);
  }

  lemma ShrColumns(r: nat, p: nat, q: nat, l0: nat, l1: nat, h0: nat, h1: nat)
    requires r == q * p
    ensures Join(r, Join(p, l0, l1), Join(p, h0, h1)) == Join(r, Join(q, l1, h0), h1) * p + l0
  {
    assert Join(q, l1, h0) * p == h0 * r + l1 * p by { Distribute(h0, p, q, l1); assert p * q == r; }
    ShrRegroup(r, p, Join(q, l1, h0), h0, l0, l1, h1);
  }

  lemma ShrRegroup(r: nat, p: nat, mid: nat, h0: nat, l0: nat, l1: nat, h1: nat)
    requires mid * p == h0 * r + l1 * p
    ensures Join(r, Join(p, l0, l1), Join(p, h0, h1)) == Join(r, mid, h1) * p + l0
  {
    JoinScale(r, mid, h1, p);
    assert (h1 * p + h0) * r == (h1 * p) * r + h0 * r;
  }

  /** Left shift by w + t, with r == p * q and p == 2^t: the low limb moves up and the high limb is dropped. */
  lemma ShlWholeLimb(r: nat, p: nat, al: nat, ah: nat)
    requires 0 < r
    ensures (al * p) % r < r
    ensures Join(r, 0, (al * p) % r) == (Join(r, al, ah) * (r * p)) % (r * r)
  {
    var x := (al * p) % r;
    var k := al * p / r;
    calc {
      Join(r, al, ah) * (r * p);
      al * (r * p) + (ah * r) * (r * p);
      { Associate(al, p, r); assert p * r == r * p; Associate(ah * r, r, p); Associate(ah, r, r); Rotate(ah, r * r, p); }
      (al * p) * r + (ah * p) * (r * r);
      { assert al * p == k * r + x; assert (k * r + x) * r == (k * r) * r + x * r; Associate(k, r, r); }
      x * r + k * (r * r) + (ah * p) * (r * r);
      x * r + (k + ah * p) * (r * r);
    }
    JoinBound(r, 0, x);
    ResidueOf(r, Join(r, 0, x), Join(r, al, ah) * (r * p), k + ah * p);
  }

  /** 2^s and 2^(2h - s) split the limb base. */
  lemma WidthSplit(h: nat, s: nat)
    requires s <= 2 * h
    ensures 0 < Pow(2, s) && 0 < Pow(2, 2 * h - s)
    ensures LimbBase(h) == Pow(2, s) * Pow(2, 2 * h - s)
  {
    PowPositive(2, s);
    PowPositive(2, 2 * h - s);
    WidthsArePowers(h);
    PowAdd(2, s, 2 * h - s);
  }

  lemma LimbShlKeeps(h: nat, s: nat, a: nat)
    requires s <= 2 * h
    ensures 0 < Pow(2, 2 * h - s)
    ensures LimbShl(LimbBase(h), a, s) == Shifted(Pow(2, s), Pow(2, 2 * h - s), a)
  {
    WidthSplit(h, s);
    ShiftedLimb(Pow(2, s), Pow(2, 2 * h - s), a);
  }

  lemma ShlTwoLimbsByPow(h: nat, s: nat, al: nat, ah: nat)
    requires 0 < s < 2 * h && al < LimbBase(h) && ah < LimbBase(h)
    ensures var r, p, q := LimbBase(h), Pow(2, s), Pow(2, 2 * h - s);
            && 0 < p && 0 < q && al / q < p
            && Shifted(p, q, al) < r && Funnel(p, q, al, ah) < r
            && Join(r, Shifted(p, q, al), Funnel(p, q, al, ah)) == (Join(r, al, ah) * p) % Modulus(h)
  {
    hide Join, LimbBase, Pow, Shifted, Funnel;
    WidthSplit(h, s);
    ShlTwoLimbs(LimbBase(h), Pow(2, s), Pow(2, 2 * h - s), al, ah);
  }

  /** "Or"-ing the bits that leave the low limb into the shifted high limb adds them. */
  lemma ShlHighLimb(h: nat, al: nat, ah: nat, s: nat)
    requires 0 < s < 2 * h && al < LimbBase(h)
    ensures 0 < Pow(2, 2 * h - s)
    ensures BitOr(LimbShl(LimbBase(h), ah, s), Shr(al, 2 * h - s))
         == Funnel(Pow(2, s), Pow(2, 2 * h - s), al, ah)
  {
    hide LimbBase, Pow, LimbShl;
    WidthSplit(h, s);
    LimbShlKeeps(h, s, ah);
    DivBound(al, Pow(2, 2 * h - s), Pow(2, s));
    BitOrDisjoint(ah % Pow(2, 2 * h - s), s, al / Pow(2, 2 * h - s));
  }

  /** The limb operations of a left shift by 0 < s < 2h compute the shifted value modulo 2^(4h). */
  lemma ShlLimbs(h: nat, al: nat, ah: nat, s: nat)
    requires 0 < s < 2 * h && al < LimbBase(h) && ah < LimbBase(h)
    ensures var r := LimbBase(h);
            var low := LimbShl(r, al, s);
            var high := BitOr(LimbShl(r, ah, s), Shr(al, 2 * h - s));
            && low < r && high < r
            && Join(r, low, high) == (Join(r, al, ah) * Pow(2, s)) % Modulus(h)
  {
    hide Join, LimbBase, Pow, LimbShl, Shr, BitOr, Modulus, Shifted, Funnel;
    ShlTwoLimbsByPow(h, s, al, ah);
    LimbShlKeeps(h, s, al);
    ShlHighLimb(h, al, ah, s);
  }

  lemma ShrTwoLimbsByPow(h: nat, s: nat, al: nat, ah: nat)
    requires 0 < s < 2 * h && al < LimbBase(h) && ah < LimbBase(h)
    ensures var r, p, q := LimbBase(h), Pow(2, s), Pow(2, 2 * h - s);
            && 0 < p && 0 < q && al / p < q
            && Funnel(q, p, al, ah) < r && ah / p < r
            && Join(r, Funnel(q, p, al, ah), ah / p) == Join(r, al, ah) / p
  {
    hide Join, LimbBase, Pow, Shifted, Funnel;
    WidthSplit(h, s);
    ShrTwoLimbs(LimbBase(h), Pow(2, s), Pow(2, 2 * h - s), al, ah);
  }

  /** "Or"-ing the bits that leave the high limb into the shifted low limb adds them. */
  lemma ShrLowLimb(h: nat, al: nat, ah: nat, s: nat)
    requires 0 < s < 2 * h && al < LimbBase(h)
    ensures 0 < Pow(2, s)
    ensures BitOr(Shr(al, s), LimbShl(LimbBase(h), ah, 2 * h - s))
         == Funnel(Pow(2, 2 * h - s), Pow(2, s), al, ah)
  {
    hide LimbBase, Pow, LimbShl;
    WidthSplit(h, s);
    LimbShlKeeps(h, 2 * h - s, ah);
    assert 2 * h - (2 * h - s) == s;
    DivBound(al, Pow(2, s), Pow(2, 2 * h - s));
    BitOrDisjoint(ah % Pow(2, s), 2 * h - s, al / Pow(2, s));
  }

  /** The limb operations of a right shift by 0 < s < 2h divide the value by 2^s. */
  lemma ShrLimbs(h: nat, al: nat, ah: nat, s: nat)
    requires 0 < s < 2 * h && al < LimbBase(h) && ah < LimbBase(h)
    ensures var r := LimbBase(h);
            var low := BitOr(Shr(al, s), LimbShl(r, ah, 2 * h - s));
            var high := Shr(ah, s);
            && low < r && high < r
            && 0 < Pow(2, s) && Join(r, low, high) == Join(r, al, ah) / Pow(2, s)
  {
    hide Join, LimbBase, Pow, LimbShl, BitOr, Funnel;
    ShrTwoLimbsByPow(h, s, al, ah);
    ShrLowLimb(h, al, ah, s);
  }

  lemma ShlByLimb(h: nat, al: nat, ah: nat, s: nat)
    requires 2 * h <= s && al < LimbBase(h) && ah < LimbBase(h)
    ensures var r := LimbBase(h);
            var high := LimbShl(r, al, s - 2 * h);
            && high < r && Join(r, 0, high) == (Join(r, al, ah) * Pow(2, s)) % Modulus(h)
  {
    hide Join, LimbBase, Pow;
    WidthsArePowers(h);
    PowAdd(2, 2 * h, s - 2 * h);
    ShlWholeLimb(LimbBase(h), Pow(2, s - 2 * h), al, ah);
  }

  lemma ShrByLimb(h: nat, al: nat, ah: nat, s: nat)
    requires 2 * h <= s && al < LimbBase(h) && ah < LimbBase(h)
    ensures var low := Shr(ah, s - 2 * h);
            && low < LimbBase(h)
            && 0 < Pow(2, s) && low == Join(LimbBase(h), al, ah) / Pow(2, s)
  {
    var r, p := LimbBase(h), Pow(2, s - 2 * h);
    PowPositive(2, s - 2 * h);
    WidthsArePowers(h);
    PowAdd(2, 2 * h, s - 2 * h);
    JoinSplit(r, al, ah);
    DivDiv(Join(r, al, ah), r, p);
    DivBound(ah, p, r) by { MulMonotonic(r, 1, p); }
  }

  /** Shifting by the full width or more clears the value. */
  lemma ShiftedOut(h: nat, v: nat, s: nat)
    requires 4 * h <= s && v < Modulus(h)
    ensures (v * Pow(2, s)) % Modulus(h) == 0
    ensures 0 < Pow(2, s) && v / Pow(2, s) == 0
  {
    hide Modulus, Pow;
    var m, p := Modulus(h), Pow(2, s - 4 * h);
    WidthsArePowers(h);
    PowPositive(2, s - 4 * h);
    PowAdd(2, 4 * h, s - 4 * h);
    ShiftedByMultiple(v, m, p);
  }

  lemma ShiftedByMultiple(v: nat, m: nat, p: nat)
    requires v < m && 0 < p
    ensures 0 < m * p && (v * (m * p)) % m == 0 && v / (m * p) == 0
  {
    Associate(v, p, m);
    ResidueOfMultiple(v * p, m);
    MulMonotonic(m, 1, p);
    DivModUnique(v, m * p, 0, v);
  }

  lemma ResidueOfMultiple(k: nat, m: nat)
    requires 0 < m
    ensures (k * m) % m == 0
  {
    DivModUnique(k * m, m, k, 0);
  }

  // ---- bits ----

  /** Bit i of n. */
  function Bit(n: nat, i: nat): (b: nat)
    ensures b < 2
  {
    PowPositive(2, i);
    n / Pow(2, i) % 2
  }

  /** Byte k of the little-endian object representation of n. */
  function ByteAt(n: nat, k: nat): (b: nat)
    ensures b < 256
  {
    PowPositive(2, 8 * k);
    n / Pow(2, 8 * k) % 256
  }

  /** Reading bit i through byte i / 8 of the object representation reads the numeric bit i. */
  lemma BitThroughByte(n: nat, i: nat)
    ensures Bit(ByteAt(n, i / 8), i % 8) == Bit(n, i)
  {
    hide Pow;
    var k, j := i / 8, i % 8;
    PowPositive(2, 8 * k);
    PowPositive(2, j);
    PowAdd(2, 8 * k, j);
    DivDiv(n, Pow(2, 8 * k), Pow(2, j));
    BitOfLowByte(n / Pow(2, 8 * k), j);
  }

  lemma BitOfLowByte(m: nat, j: nat)
    requires j < 8
    ensures Bit(m % 256, j) == Bit(m, j)
  {
    var b, c := Pow(2, j), Pow(2, 7 - j);
    PowPositive(2, j);
    PowAdd(2, j, 7 - j);
    assert Pow(2, 7) == 128;
    var hi, lo := m / 256, m % 256;
    assert m == lo + hi * 2 * (b * c);
    Associate(hi * 2, c, b);
    assert b * c == c * b;
    ModMultiple(lo, hi * 2 * c, b);
    Rotate(hi, 2, c);
    ModMultiple(lo / b, hi * c, 2);
  }
}
