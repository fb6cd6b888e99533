/** Printing a two-limb integer in a base from 2 to 36 by repeated short division. */
module BasePrinter {
  import opened NatMath
  import opened Numerals
  import opened WideInt
  import opened WideNumber

  /** The size of the digit array for a number of 4h bits, that is h / 2 bytes. */
  function BufferSize(h: nat, base: nat): nat
    requires 0 < base
  {
    h / 2 * 512 * 8 / base + 3
  }

  /** The array has room for every digit, whatever the base. */
  lemma BufferHoldsAllDigits(h: nat, base: nat)
    requires 2 <= base <= 36 && h % 2 == 0
    ensures 4 * h + 3 <= BufferSize(h, base)
  {
    var n := h / 2 * 512 * 8;
    MulMonotonic(8 * (h / 2), base, 36);
    if n / base < 8 * (h / 2) {
      MulGap(n / base, 8 * (h / 2), base);
    }
  }

  /** Prepending the next digit. */
  lemma PrependDigit(text: string, d: nat, base: nat, uppercase: bool, n: nat, rest: nat)
    requires d < base <= 36 && AreDigits(text, base, uppercase)
    requires n == (rest * base + d) * Pow(base, |text|) + Horner(text, base)
    ensures AreDigits([DigitChar(d, uppercase)] + text, base, uppercase)
    ensures n == rest * Pow(base, |text| + 1) + Horner([DigitChar(d, uppercase)] + text, base)
  {
    var c := DigitChar(d, uppercase);
    HornerConcat([c], text, base);
    DigitReadsBack(d, uppercase);
    assert Horner([c], base) == Horner([], base) * base + DigitOf(c) == d;
    Distribute(rest, Pow(base, |text|), base, d);
    assert base * Pow(base, |text|) == Pow(base, |text| + 1);
    assert Pow(base, |text|) * base == base * Pow(base, |text|);
  }

  /** The text handed to the output stream: the numeral of the number, which is taken by value. */
  method OutputBaseExtensionNumber(number: UnsignedExtension, base: nat, uppercase: bool) returns (text: string)
    requires number.Valid() && 2 <= base <= 36
    ensures IsNumeral(text, number.Value(), base, uppercase)
  {
    number.ComparesByValue(number);
    if !number.NonZero() {
      text := [0x30 as char];
      assert Horner(text, base) == Horner([], base) * base + 0;
      return;
    }
    var a := new UnsignedExtension(number.h, number.low, number.high);
    BufferHoldsAllDigits(number.h, base);
    var v := new char[BufferSize(number.h, base)];
    var iter := FillDigits(a, v, base, uppercase);
    text := v[iter..];
  }

  /** The digit loop: it fills v from the back and never passes its front. */
  method FillDigits(a: UnsignedExtension, v: array<char>, base: nat, uppercase: bool) returns (iter: nat)
    requires a.Valid() && a.Value() != 0 && 2 <= base <= 36 && 4 * a.h <= v.Length
    modifies a, v
    ensures iter <= v.Length && IsNumeral(v[iter..], old(a.Value()), base, uppercase)
  {
    ghost var n, bits := a.Value(), 4 * a.h;
    a.InRange();
    WidthsArePowers(a.h);
    iter := v.Length;
    assert v[iter..] == [];
    while a.NonZero()
      invariant a.Valid() && iter <= v.Length && v.Length - iter <= bits
      invariant a.Value() < Pow(2, bits - (v.Length - iter))
      invariant Emitted(v[iter..], n, a.Value(), base, uppercase)
      decreases iter
    {
      a.ComparesByValue(a);
      HalfOrLess(a.Value(), base, bits - (v.Length - iter));
      iter := EmitDigit(a, v, iter, base, uppercase, n);
    }
    a.ComparesByValue(a);
  }

  /** The digits written so far are the low digits of n; a is what is still to be written. */
  ghost predicate Emitted(text: string, n: nat, a: nat, base: nat, uppercase: bool)
  {
    && AreDigits(text, base, uppercase)
    && n == a * Pow(base, |text|) + Horner(text, base)
    && (a == 0 ==> |text| != 0 && text[0] != '0')
  }

  /** The loop body: divide, and store the remainder's digit in front of the others. */
  method EmitDigit(a: UnsignedExtension, v: array<char>, iter: nat, base: nat, uppercase: bool, ghost n: nat)
    returns (next: nat)
    requires a.Valid() && a.Value() != 0 && 2 <= base <= 36 && 0 < iter <= v.Length
    requires Emitted(v[iter..], n, a.Value(), base, uppercase)
    modifies a, v
    ensures next == iter - 1 && a.Valid() && a.Value() == old(a.Value()) / base
    ensures Emitted(v[next..], n, a.Value(), base, uppercase)
  {
    ghost var above := v[iter..];
    ghost var before := a.Value();
    var rem := a.InPlaceDivMod(base);
    PrependDigit(above, rem, base, uppercase, n, a.Value());
    DigitReadsBack(rem, uppercase);
    next := iter - 1;
    v[next] := DigitChar(rem, uppercase);
    assert v[next..] == [DigitChar(rem, uppercase)] + above;
  }

  /** Dividing by the base at least halves the number, so the digits never outrun the bits. */
  lemma HalfOrLess(n: nat, base: nat, bits: nat)
    requires 0 < n < Pow(2, bits) && 2 <= base
    ensures 0 < bits && n / base < Pow(2, bits - 1) && n / base < n
  {
    assert bits != 0;
    MulMonotonic(Pow(2, bits - 1), 2, base);
    DivBound(n, base, Pow(2, bits - 1));
    MulMonotonic(n, 2, base);
    DivBound(n, base, n);
  }
}
