/** The mutable two-limb integer and its compound assignments, each proved against plain numbers. */
module WideNumber {
  import opened NatMath
  import opened WideInt
  import opened WideMul
  import opened WideDiv

  class UnsignedExtension {
    const h: nat  // bits in half a limb: 32 for 64-bit limbs, 64 for 128-bit limbs
    var low: nat
    var high: nat

    ghost predicate Valid()
      reads this
    {
      && 32 <= h && h % 16 == 0
      && low < LimbBase(h) && high < LimbBase(h)
    }

    /** The number represented. */
    function Value(): nat
      reads this
    {
      Join(LimbBase(h), low, high)
    }

    constructor (h: nat, low: nat, high: nat)
      requires 32 <= h && h % 16 == 0 && low < LimbBase(h) && high < LimbBase(h)
      ensures Valid() && this.h == h && this.low == low && this.high == high
    {
      this.h, this.low, this.high := h, low, high;
    }

    lemma InRange()
      requires Valid()
      ensures Value() < Modulus(h) && 1 < LimbBase(h)
    {
      JoinBound(LimbBase(h), low, high);
      WidthsArePowers(h);
      PowMonotonic(2, 1, 2 * h);
    }

    // ---- tests ----

    predicate NonZero()
      reads this
    {
      low != 0 || high != 0
    }

    predicate Less(b: UnsignedExtension)
      reads this, b
    {
      if high == b.high then low < b.low else high < b.high
    }

    predicate Equal(b: UnsignedExtension)
      reads this, b
    {
      low == b.low && high == b.high
    }

    lemma ComparesByValue(b: UnsignedExtension)
      requires Valid() && b.Valid() && h == b.h
      ensures Less(b) <==> Value() < b.Value()
      ensures Equal(b) <==> Value() == b.Value()
      ensures NonZero() <==> Value() != 0
    {
      CompareTwoLimbs(LimbBase(h), low, high, b.low, b.high);
      CompareTwoLimbs(LimbBase(h), 0, 0, low, high);
    }

    /** operator[]: bit n of the object representation, read through its byte. */
    function TestBit(n: nat): bool
      reads this
    {
      Bit(ByteAt(Value(), n / 8), n % 8) == 1
    }

    /** front(): the lowest bit of the first byte of the object representation. */
    function Front(): bool
      reads this
    {
      ByteAt(Value(), 0) % 2 == 1
    }

    // ---- increment, addition, subtraction ----

    method Increment()
      requires Valid()
      modifies this
      ensures Valid() && Value() == (old(Value()) + 1) % Modulus(h)
    {
      InRange();
      AddTwoLimbs(LimbBase(h), false, low, high, 1, 0);
      CarryFlagExact(LimbBase(h), false, low, 1);
      ghost var c := AddCarry(LimbBase(h), false, low, 1).1;
      CarryFlagExact(LimbBase(h), c, high, 0);
      low := (low + 1) % LimbBase(h);
      if low == 0 {
        high := (high + 1) % LimbBase(h);
      }
    }

    method Decrement()
      requires Valid()
      modifies this
      ensures Valid() && Value() == (old(Value()) - 1) % Modulus(h)
    {
      InRange();
      SubTwoLimbs(LimbBase(h), low, high, 1, 0);
      LimbSubWraps(LimbBase(h), low, 1);
      LimbSubWraps(LimbBase(h), high, 0);
      if low == 0 {
        high := LimbSub(LimbBase(h), high, 1);
      }
      low := LimbSub(LimbBase(h), low, 1);
    }

    /** add_carry_assignment on two limbs. */
    method AddCarryAssign(carry: bool, b: UnsignedExtension) returns (flag: bool)
      requires Valid() && b.Valid() && h == b.h
      modifies this
      ensures Valid()
      ensures var total := (if carry then 1 else 0) + old(Value()) + old(b.Value());
              && Value() == (total - if carry && old(b.low) == LimbBase(h) - 1 then LimbBase(h) else 0) % Modulus(h)
              && (flag == (total >= Modulus(h))
                  <==> !CarryOutMissed(LimbBase(h), carry, old(low), old(high), old(b.low), old(b.high)))
    {
      InRange();
      AddTwoLimbs(LimbBase(h), carry, low, high, b.low, b.high);
      var addLow, addHigh := b.low, b.high;
      var (l, c) := AddCarry(LimbBase(h), carry, low, addLow);
      low := l;
      var (u, c') := AddCarry(LimbBase(h), c, high, addHigh);
      high := u;
      flag := c';
    }

    method AddAssign(b: UnsignedExtension)
      requires Valid() && b.Valid() && h == b.h
      modifies this
      ensures Valid() && Value() == (old(Value()) + old(b.Value())) % Modulus(h)
    {
      var _ := AddCarryAssign(false, b);
    }

    method SubAssign(b: UnsignedExtension)
      requires Valid() && b.Valid() && h == b.h
      modifies this
      ensures Valid() && Value() == (old(Value()) - old(b.Value())) % Modulus(h)
    {
      InRange();
      SubTwoLimbs(LimbBase(h), low, high, b.low, b.high);
      var addedLow := LimbSub(LimbBase(h), low, b.low);
      high := LimbSub(LimbBase(h), high, b.high);
      if low < addedLow {
        high := LimbSub(LimbBase(h), high, 1);
      }
      low := addedLow;
    }

    // ---- shifts ----

    method ShlAssign(shift: nat)
      requires Valid()
      modifies this
      ensures Valid() && Value() == old(Value()) * Pow(2, shift) % Modulus(h)
    {
      InRange();
      var w := 2 * h;
      if shift == 0 {
        DivModUnique(Value(), Modulus(h), 0, Value());
      } else if shift < w {
        ShlLimbs(h, low, high, shift);
        high := LimbShl(LimbBase(h), high, shift);
        high := BitOr(high, Shr(low, w - shift));
        low := LimbShl(LimbBase(h), low, shift);
      } else if shift < 2 * w {
        ShlByLimb(h, low, high, shift);
        high := LimbShl(LimbBase(h), low, shift - w);
        low := 0;
      } else {
        ShiftedOut(h, Value(), shift);
        low, high := 0, 0;
      }
    }

    method ShrAssign(shift: nat)
      requires Valid()
      modifies this
      ensures Valid() && 0 < Pow(2, shift) && Value() == old(Value()) / Pow(2, shift)
    {
      InRange();
      var w := 2 * h;
      if shift == 0 {
      } else if shift < w {
        ShrLimbs(h, low, high, shift);
        low := Shr(low, shift);
        low := BitOr(low, LimbShl(LimbBase(h), high, w - shift));
        high := Shr(high, shift);
      } else if shift < 2 * w {
        ShrByLimb(h, low, high, shift);
        low := Shr(high, shift - w);
        high := 0;
      } else {
        ShiftedOut(h, Value(), shift);
        low, high := 0, 0;
      }
    }

    // ---- multiplication ----

    /** a *= b for two-limb b: four columns of half-limb products, each summed in one limb. */
    method MulAssign(b: UnsignedExtension)
      requires Valid() && b.Valid() && h == b.h
      modifies this
      ensures Valid() && Value() == Product(h, old(Value()), old(b.Value()))
    {
      MulIsProduct(h, low, high, b.low, b.high);
      low, high := MulTwoLimbs(h, low, high, b.low, b.high);
    }

    /** a *= b for a single-limb b. */
    method MulLimbAssign(b: nat)
      requires Valid() && b < LimbBase(h)
      modifies this
      ensures Valid() && Value() == Product(h, old(Value()), b)
    {
      MulIsProduct(h, low, high, b, 0);
      low, high := MulByOneLimb(h, low, high, b);
    }

    /** a *= b for an unsigned b of at most 32 bits. */
    method MulSmallAssign(b: nat)
      requires Valid() && b < WORD
      modifies this
      ensures Valid() && Value() == old(Value()) * b % Modulus(h)
    {
      var base := HalfBase(h);
      PowMonotonic(2, 32, h);
      Pow2To32();
      MulSmallExact(h, low, high, b);
      var p0, p1 := ColumnSum(0, Low(base, low), 0, 0, 0, b, 0, 0, 0), ColumnSum(0, High(base, low), 0, 0, 0, b, 0, 0, 0);
      var p2, p3 := ColumnSum(0, Low(base, high), 0, 0, 0, b, 0, 0, 0), ColumnSum(0, High(base, high), 0, 0, 0, b, 0, 0, 0);
      low, high := SumColumns(h, p0, p1, p2, p3);
    }

    // ---- division ----

    /** Divides in place by a non-zero 32-bit number and returns the remainder. */
    method InPlaceDivMod(value: nat) returns (rem: nat)
      requires Valid() && 0 < value < WORD
      modifies this
      ensures Valid() && rem < value
      ensures Value() == old(Value()) / value && rem == old(Value()) % value
      ensures old(Value()) == Value() * value + rem
    {
      var v := CopyToWords(h, low, high);
      rem := ShortDivide(v, value);
      LimbsOfWords(h, v[..]);
      DivModUnique(Value(), value, WordsValue(v[..]), rem);
      low, high := WordsValue(v[..h / 16]), WordsValue(v[h / 16..]);
    }

    /** operator%: the same loop on a copy; the number itself is left alone. */
    method Mod(value: nat) returns (rem: nat)
      requires Valid() && 0 < value < WORD
      ensures rem == Value() % value
    {
      var v := CopyToWords(h, low, high);
      rem := ShortDivide(v, value);
      DivModUnique(Value(), value, WordsValue(v[..]), rem);
    }
  }

  /** `+=` and `-=` undo each other, whichever comes first. */
  lemma AddSubUndo(m: nat, v: nat, w: nat)
    requires v < m && w < m
    ensures ((v + w) % m - w) % m == v
    ensures ((v - w) % m + w) % m == v
  {
    DivModUnique(v, m, 0, v);
    SameResidue(m, (v + w) % m, v + w, 0 - w);
    SameResidue(m, (v - w) % m, v - w, w);
  }

  /**
   `*=` and `in_place_div_mod` by the same small number undo each other: multiplying first while the product does not
   wrap, and dividing first exactly where the remainder is zero.
   */
  lemma MulDivUndo(m: nat, v: nat, value: nat)
    requires 0 < value
    ensures v * value < m ==> v * value % m / value == v && v * value % m % value == 0
    ensures v < m ==> (v / value * value % m == v <==> v % value == 0)
  {
    if v * value < m {
      DivModUnique(v * value, m, 0, v * value);
      DivModUnique(v * value, value, v, 0);
    }
    if v < m {
      QuotientNeverWraps(m, v, value);
    }
  }

  lemma QuotientNeverWraps(m: nat, v: nat, value: nat)
    requires 0 < value && v < m
    ensures v / value * value % m == v - v % value
  {
    assert v == v / value * value + v % value;
    DivModUnique(v - v % value, m, 0, v - v % value);
  }

  /** Splits both operands into half limbs and sums the product columns. */
  method MulTwoLimbs(h: nat, al: nat, ah: nat, bl: nat, bh: nat) returns (low: nat, high: nat)
    ensures (low, high) == MulLimbs(HalfBase(h), al, ah, bl, bh)
  {
    hide ColumnSum, Low, High;
    var base := HalfBase(h);
    var a0, a1, a2, a3 := Low(base, al), High(base, al), Low(base, ah), High(base, ah);
    var b0, b1, b2, b3 := Low(base, bl), High(base, bl), Low(base, bh), High(base, bh);
    low, high := SumColumns(h, ColumnSum(0, a0, a1, a2, a3, b0, b1, b2, b3), ColumnSum(1, a0, a1, a2, a3, b0, b1, b2, b3),
                            ColumnSum(2, a0, a1, a2, a3, b0, b1, b2, b3), ColumnSum(3, a0, a1, a2, a3, b0, b1, b2, b3));
  }

  /** The same with a single-limb multiplier: the products with its missing half limbs are not formed. */
  method MulByOneLimb(h: nat, al: nat, ah: nat, b: nat) returns (low: nat, high: nat)
    ensures (low, high) == MulLimbs(HalfBase(h), al, ah, b, 0)
  {
    var base := HalfBase(h);
    DivModUnique(0, base, 0, 0);
    var a0, a1, a2, a3 := Low(base, al), High(base, al), Low(base, ah), High(base, ah);
    var b0, b1 := Low(base, b), High(base, b);
    low, high := SumColumns(h, ColumnSum(0, a0, 0, 0, 0, b0, 0, 0, 0), ColumnSum(1, a0, a1, 0, 0, b0, b1, 0, 0),
                            ColumnSum(1, a1, a2, 0, 0, b0, b1, 0, 0), ColumnSum(1, a2, a3, 0, 0, b0, b1, 0, 0));
  }

  /** Sums the four columns, passing each high half on, and merges the half limbs. */
  method SumColumns(h: nat, p0: nat, p1: nat, p2: nat, p3: nat) returns (low: nat, high: nat)
    ensures (low, high) == Columns(HalfBase(h), p0, p1, p2, p3)
  {
    var base := HalfBase(h);
    var c0 := p0;
    var c1 := p1 + Carried(base, c0);
    c0 := Kept(base, c0);
    var c2 := p2 + Carried(base, c1);
    c1 := Kept(base, c1);
    var c3 := p3 + Carried(base, c2);
    c2 := Kept(base, c2);
    MergeExact(h, c0, c1);
    MergeColumn(h, c2, c3);
    DivModUnique(c1, base, 0, c1);
    low := Merge(h, c0, c1);
    high := Merge(h, c2, c3 % LimbBase(h));
  }

  /** Merging the last column drops what `<<` shifts out of the limb. */
  lemma MergeColumn(h: nat, c2: nat, c3: nat)
    requires c2 < HalfBase(h)
    ensures Merge(h, c2, c3 % LimbBase(h)) == Join(HalfBase(h), c2, Kept(HalfBase(h), c3))
    ensures Merge(h, c2, c3 % LimbBase(h)) < LimbBase(h)
  {
    MergeExact(h, c2, c3 % LimbBase(h));
  }

  /** The object representation of a two-limb number: the words of the low limb, then those of the high limb. */
  lemma WordsOfLimbs(h: nat, low: nat, high: nat)
    requires 32 <= h && h % 16 == 0 && low < LimbBase(h) && high < LimbBase(h)
    ensures WordsValue(ToWords(low, h / 16) + ToWords(high, h / 16)) == Join(LimbBase(h), low, high)
    ensures h / 8 == 2 * (h / 16)
  {
    hide LimbBase, Pow, ToWords, WordsValue;
    var n := h / 16;
    WidthsArePowers(h);
    WordPower(n);
    assert 32 * n == 2 * h;
    WordsRoundTrip(low, n);
    WordsRoundTrip(high, n);
    WordsConcat(ToWords(low, n), ToWords(high, n));
  }

  lemma LimbsOfWords(h: nat, words: seq<nat>)
    requires 32 <= h && h % 16 == 0 && |words| == h / 8
    requires forall i :: 0 <= i < |words| ==> words[i] < WORD
    ensures h / 8 == 2 * (h / 16)
    ensures var low, high := WordsValue(words[..h / 16]), WordsValue(words[h / 16..]);
            && low < LimbBase(h) && high < LimbBase(h)
            && Join(LimbBase(h), low, high) == WordsValue(words)
  {
    hide LimbBase, Pow, WordsValue;
    var n := h / 16;
    WidthsArePowers(h);
    WordPower(n);
    assert 32 * n == 2 * h;
    WordsBound(words[..n]);
    WordsBound(words[n..]);
    WordsConcat(words[..n], words[n..]);
    assert words == words[..n] + words[n..];
  }

  method CopyToWords(h: nat, low: nat, high: nat) returns (v: array<nat>)
    requires 32 <= h && h % 16 == 0 && low < LimbBase(h) && high < LimbBase(h)
    ensures fresh(v) && v.Length == h / 8
    ensures forall i :: 0 <= i < v.Length ==> v[i] < WORD
    ensures WordsValue(v[..]) == Join(LimbBase(h), low, high)
  {
    WordsOfLimbs(h, low, high);
    var words := ToWords(low, h / 16) + ToWords(high, h / 16);
    v := new nat[h / 8];
    forall k | 0 <= k < v.Length {
      v[k] := words[k];
    }
    assert v[..] == words;
  }

  /** The loop of the short division, from the most significant word down. */
  method ShortDivide(v: array<nat>, value: nat) returns (rem: nat)
    requires 0 < value < WORD
    requires forall i :: 0 <= i < v.Length ==> v[i] < WORD
    modifies v
    ensures rem < value
    ensures forall i :: 0 <= i < v.Length ==> v[i] < WORD
    ensures WordsValue(old(v[..])) == WordsValue(v[..]) * value + rem
  {
    ghost var source := v[..];
    var i := v.Length;
    rem := 0;
    assert v[i..] == [];
    while i != 0
      invariant 0 <= i <= v.Length && rem < value
      invariant v[..i] == source[..i]
      invariant forall k :: 0 <= k < v.Length ==> v[k] < WORD
      invariant WordsValue(source[i..]) == WordsValue(v[i..]) * value + rem
    {
      ShortDivLoop(source, v[..], i, rem, value);
      ghost var before := v[..];
      i := i - 1;
      var tot := v[i] + rem * WORD;
      var q: nat := tot / value;
      v[i] := q;
      rem := tot % value;
      assert v[..] == before[i := q];
    }
    assert v[0..] == v[..] && source[0..] == source;
  }

  lemma ShortDivLoop(source: seq<nat>, v: seq<nat>, i: nat, rem: nat, value: nat)
    requires 0 < i <= |v| == |source| && v[..i] == source[..i] && v[i - 1] < WORD && rem < value
    requires WordsValue(source[i..]) == WordsValue(v[i..]) * value + rem
    ensures var tot := v[i - 1] + rem * WORD;
            && 0 <= tot && 0 <= tot / value < WORD
            && WordsValue(source[i - 1..]) == WordsValue(v[i - 1 := tot / value][i - 1..]) * value + tot % value
  {
    var tot := v[i - 1] + rem * WORD;
    ShortDivFits(v[i - 1], rem, value);
    var q, r := tot / value, tot % value;
    assert tot == q * value + r;
    assert v[i - 1] == v[..i][i - 1] == source[..i][i - 1] == source[i - 1];
    ShortDivStep(v[i - 1], WordsValue(source[i..]), WordsValue(v[i..]), rem, value, q, r);
    assert source[i - 1..][1..] == source[i..];
    assert v[i - 1 := q][i - 1..][1..] == v[i..];
  }

  /** Every intermediate value of a division step is in range, so no shift and no increment wraps. */
  lemma DivStepFits(h: nat, n: nat, d: nat, bits: nat, bit: nat)
    requires bit < 2 && bits < 4 * h && 2 * n + bit < Modulus(h)
    ensures var (q, r) := DivModResult(n, d, bits);
            var r' := 2 * r + bit;
            var m := Modulus(h);
            && 2 * q % m == 2 * q && 2 * r % m == 2 * r && (2 * r + bit) % m == 2 * r + bit
            && (r' >= d ==> (r' - d) % m == r' - d && (2 * q + 1) % m == 2 * q + 1)
  {
    var (q, r) := DivModResult(n, d, bits);
    var m := Modulus(h);
    if d == 0 {
      WidthsArePowers(h);
      PowMonotonic(2, bits + 1, 4 * h);
    } else {
      assert n == q * d + r;
      DoubledQuotientFits(n, d, q, r);
    }
    DivModUnique(2 * q, m, 0, 2 * q);
    DivModUnique(2 * r, m, 0, 2 * r);
    DivModUnique(2 * r + bit, m, 0, 2 * r + bit);
    if 2 * r + bit >= d {
      DivModUnique(2 * r + bit - d, m, 0, 2 * r + bit - d);
      DivModUnique(2 * q + 1, m, 0, 2 * q + 1);
    }
  }

  lemma DoubledQuotientFits(n: nat, d: nat, q: nat, r: nat)
    requires 0 < d && n == q * d + r
    ensures 2 * q <= 2 * n && 2 * r <= 2 * n && 2 * q + d + 2 * r <= 2 * n + d
  {
    MulMonotonic(q, 1, d);
  }

  /** The loop body of div_mod for bit i. */
  method DivModStep(lhs: UnsignedExtension, rhs: UnsignedExtension,
                    quotient: UnsignedExtension, remainder: UnsignedExtension, i: nat)
    requires lhs.Valid() && rhs.Valid() && quotient.Valid() && remainder.Valid()
    requires lhs.h == rhs.h == quotient.h == remainder.h && i < 4 * lhs.h
    requires quotient != remainder && lhs !in {quotient, remainder} && rhs !in {quotient, remainder}
    requires Shr(lhs.Value(), i + 1) < Pow(2, 4 * lhs.h - (i + 1))
    requires (quotient.Value(), remainder.Value())
          == DivModResult(Shr(lhs.Value(), i + 1), rhs.Value(), 4 * lhs.h - (i + 1))
    modifies quotient, remainder
    ensures quotient.Valid() && remainder.Valid()
    ensures Shr(lhs.Value(), i) < Pow(2, 4 * lhs.h - i)
    ensures (quotient.Value(), remainder.Value()) == DivModResult(Shr(lhs.Value(), i), rhs.Value(), 4 * lhs.h - i)
  {
    ghost var h, n, d := lhs.h, lhs.Value(), rhs.Value();
    ghost var q, r := quotient.Value(), remainder.Value();
    hide UnsignedExtension.Value, Shr, DivModResult, Modulus, LimbBase, Pow, Bit;
    lhs.InRange();
    DivBits(h, n, d, i, q, r);
    BringDown(lhs, quotient, remainder, i);
    SubtractIfFits(rhs, quotient, remainder);
  }

  /** Doubles both and brings bit i of the dividend down into the remainder. */
  method BringDown(lhs: UnsignedExtension, quotient: UnsignedExtension, remainder: UnsignedExtension, i: nat)
    requires lhs.Valid() && quotient.Valid() && remainder.Valid() && lhs.h == quotient.h == remainder.h
    requires quotient != remainder && lhs !in {quotient, remainder}
    modifies quotient, remainder
    ensures quotient.Valid() && remainder.Valid()
    ensures var m := Modulus(lhs.h);
            && quotient.Value() == 2 * old(quotient.Value()) % m
            && remainder.Value() == (2 * old(remainder.Value()) + Bit(lhs.Value(), i)) % m
  {
    ghost var q, r, m := quotient.Value(), remainder.Value(), Modulus(lhs.h);
    hide UnsignedExtension.Value, Modulus, LimbBase, Pow, Bit;
    BitThroughByte(lhs.Value(), i);
    DoubledByShift(q, m);
    DoubledByShift(r, m);
    AddAfterMod(2 * r, 1, m);
    AddAfterMod(2 * r, 0, m);
    quotient.ShlAssign(1);
    remainder.ShlAssign(1);
    if lhs.TestBit(i) {
      remainder.Increment();
    }
  }

  method SubtractIfFits(rhs: UnsignedExtension, quotient: UnsignedExtension, remainder: UnsignedExtension)
    requires rhs.Valid() && quotient.Valid() && remainder.Valid() && rhs.h == quotient.h == remainder.h
    requires quotient != remainder && rhs !in {quotient, remainder}
    modifies quotient, remainder
    ensures quotient.Valid() && remainder.Valid()
    ensures var m, fits := Modulus(rhs.h), old(remainder.Value()) >= rhs.Value();
            && quotient.Value() == (if fits then (old(quotient.Value()) + 1) % m else old(quotient.Value()))
            && remainder.Value()
               == (if fits then (old(remainder.Value()) - rhs.Value()) % m else old(remainder.Value()))
  {
    hide UnsignedExtension.Value, Modulus, LimbBase;
    remainder.ComparesByValue(rhs);
    if !remainder.Less(rhs) {
      remainder.SubAssign(rhs);
      quotient.Increment();
    }
  }

  lemma DoubledByShift(v: nat, m: nat)
    requires 0 < m
    ensures v * Pow(2, 1) % m == 2 * v % m
  {
    assert Pow(2, 1) == 2;
  }

  /** Bringing down bit i, with every intermediate value in range. */
  lemma DivBits(h: nat, n: nat, d: nat, i: nat, q: nat, r: nat)
    requires i < 4 * h && n < Modulus(h) && Shr(n, i + 1) < Pow(2, 4 * h - (i + 1))
    requires (q, r) == DivModResult(Shr(n, i + 1), d, 4 * h - (i + 1))
    ensures Shr(n, i) < Pow(2, 4 * h - i)
    ensures var r', m := 2 * r + Bit(n, i), Modulus(h);
            && DivModResult(Shr(n, i), d, 4 * h - i) == (if r' >= d then (2 * q + 1, r' - d) else (2 * q, r'))
            && 2 * q % m == 2 * q && 2 * r % m == 2 * r && r' % m == r'
            && (r' >= d ==> (r' - d) % m == r' - d && (2 * q + 1) % m == 2 * q + 1)
  {
    hide Shr, DivModResult, Modulus, Pow, Bit;
    PrefixStep(n, i);
    DivStep(Shr(n, i + 1), d, 4 * h - (i + 1), Bit(n, i));
    DivStepFits(h, Shr(n, i + 1), d, 4 * h - (i + 1), Bit(n, i));
  }

  /**
   div_mod: restoring division, one bit at a time from the top. Doubling the remainder never drops a bit, however large
   the divisor, because the remainder never exceeds the prefix of the dividend brought down so far.
   */
  method DivMod(lhs: UnsignedExtension, rhs: UnsignedExtension)
    returns (quotient: UnsignedExtension, remainder: UnsignedExtension)
    requires lhs.Valid() && rhs.Valid() && lhs.h == rhs.h
    ensures fresh(quotient) && fresh(remainder) && quotient.Valid() && remainder.Valid()
    ensures quotient.h == lhs.h && remainder.h == lhs.h
    ensures var n, d := lhs.Value(), rhs.Value();
            if d != 0 then quotient.Value() == n / d && remainder.Value() == n % d
            else quotient.Value() == Modulus(lhs.h) - 1 && remainder.Value() == n
  {
    var h := lhs.h;
    quotient := new UnsignedExtension(h, 0, 0);
    remainder := new UnsignedExtension(h, 0, 0);
    ghost var n, d := lhs.Value(), rhs.Value();
    lhs.InRange();
    rhs.InRange();
    PrefixAll(h, n);
    var i := 4 * h;
    while i != 0
      invariant i <= 4 * h && fresh(quotient) && fresh(remainder) && quotient != remainder
      invariant quotient.Valid() && remainder.Valid() && quotient.h == h && remainder.h == h
      invariant Shr(n, i) < Pow(2, 4 * h - i)
      invariant (quotient.Value(), remainder.Value()) == DivModResult(Shr(n, i), d, 4 * h - i)
    {
      i := i - 1;
      DivModStep(lhs, rhs, quotient, remainder, i);
    }
    WidthsArePowers(h);
  }
}
