/** What a printed number is: digits, Horner value, no leading zero, and the proof that this determines the text. */
module Numerals {
  import opened NatMath

  function DigitChar(d: nat, uppercase: bool): char
    requires d < 36
  {
    if d < 10 then (d + 48) as char else if uppercase then (d + 55) as char else (d + 87) as char
  }

  /** The value of a digit character in either case; 36 for anything else. */
  function DigitOf(c: char): (d: nat)
    ensures d <= 36
  {
    if '0' <= c <= '9' then c as nat - 48
    else if 'A' <= c <= 'Z' then c as nat - 55
    else if 'a' <= c <= 'z' then c as nat - 87
    else 36
  }

  lemma DigitReadsBack(d: nat, uppercase: bool)
    requires d < 36
    ensures DigitOf(DigitChar(d, uppercase)) == d
    ensures DigitChar(d, uppercase) == '0' <==> d == 0
  {
    var c := DigitChar(d, uppercase);
    assert c as nat == if d < 10 then d + 48 else if uppercase then d + 55 else d + 87;
  }

  predicate IsDigit(c: char, base: nat, uppercase: bool)
  {
    DigitOf(c) < base && DigitOf(c) < 36 && c == DigitChar(DigitOf(c), uppercase)
  }

  predicate AreDigits(s: string, base: nat, uppercase: bool)
  {
    forall i :: 0 <= i < |s| ==> IsDigit(s[i], base, uppercase)
  }

  /** Reading digits from left to right. */
  function Horner(s: string, base: nat): nat
  {
    if |s| == 0 then 0 else Horner(s[..|s| - 1], base) * base + DigitOf(s[|s| - 1])
  }

  /** s is the numeral of n: its digits have value n and a leading zero occurs only in "0" itself. */
  predicate IsNumeral(s: string, n: nat, base: nat, uppercase: bool)
  {
    && |s| != 0
    && AreDigits(s, base, uppercase)
    && Horner(s, base) == n
    && (|s| > 1 ==> s[0] != '0')
  }

  /** s is n written with exactly k decimal digits. */
  predicate IsPadded(s: string, k: nat, n: nat)
  {
    |s| == k && AreDigits(s, 10, false) && Horner(s, 10) == n
  }

  lemma {:induction false} HornerConcat(a: string, b: string, base: nat)
    ensures Horner(a + b, base) == Horner(a, base) * Pow(base, |b|) + Horner(b, base)
  {
    if b == [] {
      assert a + b == a;
    } else {
      var b' := b[..|b| - 1];
      assert (a + b)[..|a + b| - 1] == a + b';
      HornerConcat(a, b', base);
      assert Pow(base, |b|) == base * Pow(base, |b'|);
      Scale(Horner(a, base), Pow(base, |b'|), Horner(b', base), base);
    }
  }

  lemma Scale(x: nat, p: nat, y: nat, base: nat)
    ensures (x * p + y) * base == x * (base * p) + y * base
  {
    Associate(x, p, base);
    assert p * base == base * p;
  }

  lemma {:induction false} HornerBound(s: string, base: nat, uppercase: bool)
    requires AreDigits(s, base, uppercase)
    ensures Horner(s, base) < Pow(base, |s|)
  {
    if s != [] {
      HornerBound(s[..|s| - 1], base, uppercase);
      MulGap(Horner(s[..|s| - 1], base), Pow(base, |s| - 1), base);
      assert IsDigit(s[|s| - 1], base, uppercase);
    }
  }

  /** A non-zero leading digit makes the value at least base^(length - 1). */
  lemma LeadingDigitBound(s: string, base: nat, uppercase: bool)
    requires |s| != 0 && AreDigits(s, base, uppercase) && s[0] != '0'
    ensures Horner(s, base) >= Pow(base, |s| - 1)
  {
    assert s == [s[0]] + s[1..];
    HornerConcat([s[0]], s[1..], base);
    assert Horner([s[0]], base) == Horner([], base) * base + DigitOf(s[0]);
    assert IsDigit(s[0], base, uppercase);
    assert DigitOf(s[0]) != 0;
    MulMonotonic(Pow(base, |s| - 1), 1, DigitOf(s[0]));
  }

  /** Digit strings of equal length and equal value are equal. */
  lemma {:induction false} SameLengthUnique(s: string, t: string, base: nat, uppercase: bool)
    requires |s| == |t| && AreDigits(s, base, uppercase) && AreDigits(t, base, uppercase)
    requires Horner(s, base) == Horner(t, base)
    ensures s == t
  {
    if s != [] {
      var k := |s| - 1;
      assert IsDigit(s[k], base, uppercase) && IsDigit(t[k], base, uppercase);
      DivModUnique(Horner(s, base), base, Horner(s[..k], base), DigitOf(s[k]));
      DivModUnique(Horner(t, base), base, Horner(t[..k], base), DigitOf(t[k]));
      SameLengthUnique(s[..k], t[..k], base, uppercase);
      assert s == s[..k] + [s[k]] && t == t[..k] + [t[k]];
    }
  }

  /** A number has one numeral: the text of a printed number is determined by its value. */
  lemma NumeralUnique(s: string, t: string, n: nat, base: nat, uppercase: bool)
    requires 2 <= base && IsNumeral(s, n, base, uppercase) && IsNumeral(t, n, base, uppercase)
    ensures s == t
  {
    if |s| == |t| {
      SameLengthUnique(s, t, base, uppercase);
    } else if |s| < |t| {
      LongerIsLarger(s, t, base, uppercase);
    } else {
      LongerIsLarger(t, s, base, uppercase);
    }
  }

  lemma LongerIsLarger(s: string, t: string, base: nat, uppercase: bool)
    requires 2 <= base && AreDigits(s, base, uppercase) && AreDigits(t, base, uppercase)
    requires |s| < |t| && t[0] != '0'
    ensures Horner(s, base) < Horner(t, base)
  {
    HornerBound(s, base, uppercase);
    LeadingDigitBound(t, base, uppercase);
    PowMonotonic(base, |s|, |t| - 1);
  }

  lemma PaddedConcat(a: string, i: nat, x: nat, b: string, j: nat, y: nat)
    requires IsPadded(a, i, x) && IsPadded(b, j, y)
    ensures IsPadded(a + b, i + j, x * Pow(10, j) + y)
  {
    HornerConcat(a, b, 10);
  }

  /** Appending k padded digits to a numeral of a positive number gives the numeral of the combined number. */
  lemma NumeralConcat(a: string, x: nat, b: string, j: nat, y: nat)
    requires 0 < x && IsNumeral(a, x, 10, false) && IsPadded(b, j, y)
    ensures IsNumeral(a + b, x * Pow(10, j) + y, 10, false)
  {
    HornerConcat(a, b, 10);
    if |a| == 1 {
      assert Horner(a, 10) == Horner([], 10) * 10 + DigitOf(a[0]);
      assert IsDigit(a[0], 10, false);
    }
  }

  // ---- the characters themselves ----

  /** The characters of digits in a base up to 36, by letter case. */
  lemma DigitCharacters(c: char, base: nat, uppercase: bool)
    requires base <= 36 && IsDigit(c, base, uppercase)
    ensures var d := DigitOf(c);
            c as nat
            == if d < 10 then '0' as nat + d else if uppercase then 'A' as nat + (d - 10) else 'a' as nat + (d - 10)
    ensures '0' <= c <= '9' || if uppercase then 'A' <= c <= 'Z' else 'a' <= c <= 'z'
  {
  }

  /** Position i from the right holds the digit n / base^i modulo base. */
  lemma {:induction false} DigitAt(s: string, base: nat, uppercase: bool, i: nat)
    requires 2 <= base && AreDigits(s, base, uppercase) && i < |s|
    ensures 0 < Pow(base, i) && DigitOf(s[|s| - 1 - i]) == Horner(s, base) / Pow(base, i) % base
    decreases i
  {
    var k := |s| - 1;
    PowPositive(base, i);
    assert IsDigit(s[k], base, uppercase);
    DivModUnique(Horner(s, base), base, Horner(s[..k], base), DigitOf(s[k]));
    if i == 0 {
      assert Pow(base, 0) == 1;
    } else {
      DigitAt(s[..k], base, uppercase, i - 1);
      DivDiv(Horner(s, base), base, Pow(base, i - 1));
    }
  }

  /**
   What a numeral is, character by character: it has no leading zero, is long enough for its number, and position i from
   the right is the character of n / base^i modulo base, with letters from ten on in the given case.
   */
  lemma NumeralCharacters(s: string, n: nat, base: nat, uppercase: bool)
    requires 2 <= base <= 36 && IsNumeral(s, n, base, uppercase)
    ensures |s| != 0 && n < Pow(base, |s|) && (|s| > 1 ==> s[0] != '0')
    ensures forall i :: 0 <= i < |s| ==> 0 < Pow(base, i)
    ensures forall i :: 0 <= i < |s| ==>
              var d := n / Pow(base, i) % base;
              s[|s| - 1 - i] as nat
              == if d < 10 then '0' as nat + d else if uppercase then 'A' as nat + (d - 10) else 'a' as nat + (d - 10)
    ensures forall c :: c in s ==> '0' <= c <= '9' || if uppercase then 'A' <= c <= 'Z' else 'a' <= c <= 'z'
  {
    hide DigitOf, DigitChar, IsDigit, Horner, Pow;
    HornerBound(s, base, uppercase);
    forall i | 0 <= i < |s|
      ensures 0 < Pow(base, i)
      ensures var d := n / Pow(base, i) % base;
              s[|s| - 1 - i] as nat
              == if d < 10 then '0' as nat + d else if uppercase then 'A' as nat + (d - 10) else 'a' as nat + (d - 10)
    {
      DigitAt(s, base, uppercase, i);
      DigitCharacters(s[|s| - 1 - i], base, uppercase);
    }
    forall c | c in s ensures '0' <= c <= '9' || if uppercase then 'A' <= c <= 'Z' else 'a' <= c <= 'z' {
      DigitCharacters(c, base, uppercase);
    }
  }

  /** The same for zero-padded decimal digits. */
  lemma PaddedCharacters(s: string, k: nat, n: nat)
    requires IsPadded(s, k, n)
    ensures |s| == k && n < Pow(10, k)
    ensures forall i :: 0 <= i < k ==> 0 < Pow(10, i) && s[k - 1 - i] as nat == '0' as nat + n / Pow(10, i) % 10
  {
    hide DigitOf, DigitChar, IsDigit, Horner, Pow;
    HornerBound(s, 10, false);
    forall i | 0 <= i < k ensures 0 < Pow(10, i) && s[k - 1 - i] as nat == '0' as nat + n / Pow(10, i) % 10 {
      DigitAt(s, 10, false, i);
      DigitCharacters(s[k - 1 - i], 10, false);
    }
  }
}
