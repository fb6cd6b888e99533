/** Arithmetic behind the two divisions: 32-bit words for the short division, bit prefixes for the restoring one. */
module WideDiv {
  import opened NatMath
  import opened WideInt

  const WORD: nat := 0x1_0000_0000

  /** The number that a little-endian sequence of 32-bit words stands for. */
  function WordsValue(words: seq<nat>): nat
  {
    if |words| == 0 then 0 else words[0] + WORD * WordsValue(words[1..])
  }

  /** The low n words of x, as `memcpy` lays them out. */
  function ToWords(x: nat, n: nat): (words: seq<nat>)
    ensures |words| == n
    ensures forall i :: 0 <= i < n ==> words[i] < WORD
  {
    if n == 0 then [] else [x % WORD] + ToWords(x / WORD, n - 1)
  }

  /** Copying a number out to words and reading it back is the identity while it fits. */
  lemma {:induction false} WordsRoundTrip(x: nat, n: nat)
    requires x < Pow(WORD, n)
    ensures WordsValue(ToWords(x, n)) == x
  {
    if n != 0 {
      DivBound(x, WORD, Pow(WORD, n - 1));
      WordsRoundTrip(x / WORD, n - 1);
      assert ToWords(x, n)[1..] == ToWords(x / WORD, n - 1);
    }
  }

  lemma {:induction false} WordsConcat(a: seq<nat>, b: seq<nat>)
    ensures WordsValue(a + b) == WordsValue(a) + Pow(WORD, |a|) * WordsValue(b)
  {
    if a == [] {
      assert a + b == b;
    } else {
      WordsConcat(a[1..], b);
      assert (a + b)[1..] == a[1..] + b;
      Associate(WORD, Pow(WORD, |a| - 1), WordsValue(b));
    }
  }

  lemma {:induction false} WordsBound(words: seq<nat>)
    requires forall i :: 0 <= i < |words| ==> words[i] < WORD
    ensures WordsValue(words) < Pow(WORD, |words|)
  {
    if words != [] {
      WordsBound(words[1..]);
      MulMonotonic(WORD, WordsValue(words[1..]) + 1, Pow(WORD, |words| - 1));
    }
  }

  /** n 32-bit words are 32 * n bits. */
  lemma {:induction false} WordPower(n: nat)
    ensures Pow(WORD, n) == Pow(2, 32 * n)
  {
    if n != 0 {
      WordPower(n - 1);
      PowAdd(2, 32, 32 * (n - 1));
      assert Pow(2, 32) == WORD by { Pow2To32(); }
    }
  }

  lemma Pow2To32()
    ensures Pow(2, 32) == WORD
  {
    assert Pow(2, 8) == 256;
    PowAdd(2, 8, 8);
    PowAdd(2, 16, 16);
  }

  /** One step of the short division: dividing the next lower word together with the running remainder. */
  lemma ShortDivStep(word: nat, rest: nat, quotient: nat, remainder: nat, value: nat, q: nat, rem: nat)
    requires rest == quotient * value + remainder
    requires word + remainder * WORD == q * value + rem
    ensures word + WORD * rest == (q + WORD * quotient) * value + rem
  {
    Associate(WORD, quotient, value);
    assert (q + WORD * quotient) * value == q * value + WORD * quotient * value;
  }

  /** The next quotient word fits in 32 bits because the running remainder is below the divisor. */
  lemma ShortDivFits(word: nat, remainder: nat, value: nat)
    requires word < WORD && remainder < value
    ensures word + remainder * WORD < WORD * value
    ensures (word + remainder * WORD) / value < WORD
  {
    DivBound(word + remainder * WORD, value, WORD);
  }

  // ---- restoring division, one bit at a time ----

  lemma PrefixStep(n: nat, i: nat)
    ensures Shr(n, i) == 2 * Shr(n, i + 1) + Bit(n, i)
    ensures Shr(n, i) <= n
  {
    PowPositive(2, i);
    DivDiv(n, Pow(2, i), 2);
    assert Pow(2, i + 1) == Pow(2, i) * 2;
    DivBound(n, Pow(2, i), n + 1) by { MulMonotonic(n + 1, 1, Pow(2, i)); }
  }

  lemma PrefixAll(h: nat, n: nat)
    requires n < Modulus(h)
    ensures Shr(n, 4 * h) == 0 && Shr(n, 0) == n
  {
    WidthsArePowers(h);
    DivModUnique(n, Modulus(h), 0, n);
  }

  /** Quotient and remainder that the loop leaves; a zero divisor is always subtracted, setting every quotient bit. */
  function DivModResult(n: nat, d: nat, bits: nat): (nat, nat)
  {
    PowPositive(2, bits);
    if d == 0 then (Pow(2, bits) - 1, n) else (n / d, n % d)
  }

  /** Bringing down one bit: double, add the bit, subtract the divisor if it fits. Nothing exceeds the new prefix. */
  lemma DivStep(n: nat, d: nat, bits: nat, bit: nat)
    requires bit < 2 && n < Pow(2, bits)
    ensures var (q, r) := DivModResult(n, d, bits);
            var r' := 2 * r + bit;
            && DivModResult(2 * n + bit, d, bits + 1) == (if r' >= d then (2 * q + 1, r' - d) else (2 * q, r'))
            && r' <= 2 * n + bit && (d != 0 ==> 2 * q + 1 <= 2 * n + 1)
            && (d == 0 ==> 2 * q + 1 < Pow(2, bits + 1))
            && 2 * n + bit < Pow(2, bits + 1)
  {
    if d != 0 {
      QuotientFits(n, d);
      DivideDoubled(n, d, n / d, n % d, bit);
    }
  }

  lemma QuotientFits(n: nat, d: nat)
    requires 0 < d
    ensures 0 <= n / d <= n && n % d <= n && n == n / d * d + n % d
  {
    MulMonotonic(n / d, 1, d);
  }

  lemma DivideDoubled(n: nat, d: nat, q: nat, r: nat, bit: nat)
    requires bit < 2 && r < d && n == q * d + r
    ensures var n', r' := 2 * n + bit, 2 * r + bit;
            if r' >= d then n' / d == 2 * q + 1 && n' % d == r' - d else n' / d == 2 * q && n' % d == r'
  {
    Distribute(2, d, q, 0);
    assert (2 * q + 1) * d == 2 * q * d + d;
    if 2 * r + bit >= d {
      DivModUnique(2 * n + bit, d, 2 * q + 1, 2 * r + bit - d);
    } else {
      DivModUnique(2 * n + bit, d, 2 * q, 2 * r + bit);
    }
  }
}
