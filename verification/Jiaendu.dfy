/**
 The table-driven decimal printer for 64-bit and 128-bit numbers: blocks of four digits are copied from a table, and
 only the first block drops its leading zeros.
 */
module Jiaendu {
  import opened NatMath
  import opened Numerals

  const TEN_POW_19: nat := 10000000000000000000
  const TEN_POW_38: nat := 100000000000000000000000000000000000000

  // ---- tables ----

  function Digit(d: nat): char
    requires d < 10
  {
    DigitChar(d, false)
  }

  /** table4: four digits with leading zeros. */
  function Table4(k: nat): (t: string)
    requires k < 10000
    ensures |t| == 4
  {
    [Digit(k / 1000), Digit(k / 100 % 10), Digit(k / 10 % 10), Digit(k % 10)]
  }

  function Table3(k: nat): (t: string)
    requires k < 1000
    ensures |t| == 3
  {
    [Digit(k / 100), Digit(k / 10 % 10), Digit(k % 10)]
  }

  function Table2(k: nat): (t: string)
    requires k < 100
    ensures |t| == 2
  {
    [Digit(k / 10), Digit(k % 10)]
  }

  /** table5: the digits without leading zeros, left-justified in four characters. */
  function Table5(k: nat): (t: string)
    requires k < 1000
    ensures |t| == 4
  {
    if k < 10 then [Digit(k), '\0', '\0', '\0']
    else if k < 100 then [Digit(k / 10), Digit(k % 10), '\0', '\0']
    else [Digit(k / 100), Digit(k / 10 % 10), Digit(k % 10), '\0']
  }

  /** How many characters of a table5 entry are digits. */
  function Offset(k: nat): (n: nat)
    requires k < 1000
    ensures 1 <= n <= 3
  {
    if k < 10 then 1 else if k < 100 then 2 else 3
  }

  lemma OneDigit(d: nat)
    requires d < 10
    ensures IsPadded([Digit(d)], 1, d) && IsNumeral([Digit(d)], d, 10, false)
  {
    DigitReadsBack(d, false);
    assert Horner([Digit(d)], 10) == Horner([], 10) * 10 + d;
  }

  lemma AppendDigit(s: string, k: nat, n: nat, d: nat)
    requires IsPadded(s, k, n) && d < 10
    ensures IsPadded(s + [Digit(d)], k + 1, n * 10 + d)
  {
    OneDigit(d);
    PaddedConcat(s, k, n, [Digit(d)], 1, d);
    assert Pow(10, 1) == 10 * Pow(10, 0) == 10;
  }

  lemma Table2Digits(k: nat)
    requires k < 100
    ensures IsPadded(Table2(k), 2, k)
  {
    OneDigit(k / 10);
    AppendDigit([Digit(k / 10)], 1, k / 10, k % 10);
    assert Table2(k) == [Digit(k / 10)] + [Digit(k % 10)];
  }

  lemma Table3Digits(k: nat)
    requires k < 1000
    ensures IsPadded(Table3(k), 3, k)
  {
    Table2Digits(k / 10);
    AppendDigit(Table2(k / 10), 2, k / 10, k % 10);
    assert k / 10 / 10 == k / 100;
    assert Table3(k) == Table2(k / 10) + [Digit(k % 10)];
  }

  lemma Table4Digits(k: nat)
    requires k < 10000
    ensures IsPadded(Table4(k), 4, k)
  {
    Table3Digits(k / 10);
    AppendDigit(Table3(k / 10), 3, k / 10, k % 10);
    assert k / 10 / 100 == k / 1000 && k / 10 / 10 == k / 100;
    assert Table4(k) == Table3(k / 10) + [Digit(k % 10)];
  }

  /** Skipping the first character of a table4 entry below 1000 leaves its three digits. */
  lemma Table4Tail(k: nat)
    requires k < 1000
    ensures IsPadded(Table4(k)[1..], 3, k)
  {
    Table3Digits(k);
    assert k / 100 % 10 == k / 100;
    assert Table4(k)[1..] == Table3(k);
  }

  lemma LeadDigits(k: nat)
    requires k < 10000
    ensures k < 1000 ==> IsNumeral(Table5(k)[..Offset(k)], k, 10, false)
    ensures k >= 1000 ==> IsNumeral(Table4(k), k, 10, false)
  {
    if k < 10 {
      OneDigit(k);
      assert Table5(k)[..1] == [Digit(k)];
    } else if k < 100 {
      Table2Digits(k);
      DigitReadsBack(k / 10, false);
      assert Table5(k)[..2] == Table2(k);
    } else if k < 1000 {
      Table3Digits(k);
      DigitReadsBack(k / 100, false);
      assert Table5(k)[..3] == Table3(k);
    } else {
      Table4Digits(k);
      DigitReadsBack(k / 1000, false);
    }
  }

  // ---- writing into the buffer ----

  /** s with t written over it from position `at`. */
  function Splice(s: string, at: nat, t: string): (r: string)
    requires at + |t| <= |s|
    ensures |r| == |s| && r[..at] == s[..at] && r[at..at + |t|] == t && r[at + |t|..] == s[at + |t|..]
  {
    s[..at] + t + s[at + |t|..]
  }

  /** A later write that starts inside an earlier one and reaches at least as far replaces its tail. */
  lemma SpliceOver(s: string, at: nat, t: string, n: nat, u: string)
    requires n <= |t| <= n + |u| && at + n + |u| <= |s|
    ensures Splice(Splice(s, at, t), at + n, u) == Splice(s, at, t[..n] + u)
  {
    var r := Splice(s, at, t);
    assert r[..at + n] == s[..at] + t[..n];
    assert r[at + n + |u|..] == s[at + n + |u|..];
  }

  /** memcpy of a table entry. */
  method CopyTo(buf: array<char>, at: nat, t: string)
    requires at + |t| <= buf.Length
    modifies buf
    ensures buf[..] == Splice(old(buf[..]), at, t)
  {
    forall k | 0 <= k < |t| {
      buf[at + k] := t[k];
    }
    assert buf[..] == Splice(old(buf[..]), at, t);
  }

  /** The first block: its digits without leading zeros. A short block leaves scratch characters behind it. */
  method WriteLead(buf: array<char>, at: nat, v: nat) returns (n: nat, ghost written: string)
    requires v < 10000 && at + 4 <= buf.Length
    modifies buf
    ensures 1 <= n <= 4 && |written| == 4
    ensures buf[..] == Splice(old(buf[..]), at, written) && IsNumeral(written[..n], v, 10, false)
  {
    LeadDigits(v);
    if v >= 1000 {
      CopyTo(buf, at, Table4(v));
      n := 4;
      written := Table4(v);
      assert written[..n] == written;
    } else {
      CopyTo(buf, at, Table5(v));
      n := Offset(v);
      written := Table5(v);
    }
  }

  /** The next four-digit block, written where the digits so far end. */
  method WriteBlock(buf: array<char>, at: nat, n: nat, k: nat, ghost source: string, ghost written: string, ghost x: nat)
    returns (ghost all: string)
    requires k < 10000 && n <= |written| <= n + 4 && at + n + 4 <= buf.Length == |source| && at + |written| <= |source|
    requires buf[..] == Splice(source, at, written)
    requires 0 < x && IsNumeral(written[..n], x, 10, false)
    modifies buf
    ensures |all| == n + 4 && all[..n + 4] == all
    ensures buf[..] == Splice(source, at, all) && IsNumeral(all, x * 10000 + k, 10, false)
  {
    CopyTo(buf, at + n, Table4(k));
    SpliceOver(source, at, written, n, Table4(k));
    all := written[..n] + Table4(k);
    Table4Digits(k);
    NumeralConcat(written[..n], x, Table4(k), 4, k);
    PowTen4();
  }

  lemma PowTen4()
    ensures Pow(10, 3) == 1000 && Pow(10, 4) == 10000
  {
    assert Pow(10, 1) == 10 && Pow(10, 2) == 100;
    assert Pow(10, 3) == 10 * Pow(10, 2);
  }

  /** Multiplying by 3518437209 and shifting right by 45 divides any 32-bit number by 10000. */
  lemma MagicDivision(value: nat)
    requires value < 0x1_0000_0000
    ensures value * 3518437209 < 0x1_0000_0000_0000_0000
    ensures value * 3518437209 / 0x2000_0000_0000 == value / 10000
  {
    var q, r := value / 10000, value % 10000;
    assert value * 3518437209 == q * 0x2000_0000_0000 + (q * 1168 + r * 3518437209);
    DivModUnique(value * 3518437209, 0x2000_0000_0000, q, q * 1168 + r * 3518437209);
  }

  // ---- 64-bit numbers ----

  /**
   output_unsigned for 64-bit numbers: writes the decimal numeral and returns its length; characters outside it are
   left alone.
   */
  method OutputUnsigned(buf: array<char>, at: nat, value: nat) returns (len: nat)
    requires value < 0x1_0000_0000_0000_0000 && at + 20 <= buf.Length
    modifies buf
    ensures 1 <= len <= 20 && IsNumeral(buf[at..at + len], value, 10, false)
    ensures buf[..] == Splice(old(buf[..]), at, buf[at..at + len])
  {
    if value >= 10000000000000000 {
      len := OutputFromTenPow16(buf, at, value);
    } else if value >= 1000000000000 {
      len := OutputFromTenPow12(buf, at, value);
    } else if value >= 100000000 {
      var remains0 := value / 10000;
      var remains1 := value / 100000000;
      var v2 := remains1;
      remains1 := remains0 - remains1 * 10000;
      remains0 := value - remains0 * 10000;
      ghost var source := buf[..];
      var n, written := WriteLead(buf, at, v2);
      var text := WriteBlock(buf, at, n, remains1, source, written, v2);
      text := WriteBlock(buf, at, n + 4, remains0, source, text, v2 * 10000 + remains1);
      len := n + 8;
    } else if value >= 10000 {
      MagicDivision(value);
      var v2 := value * 3518437209 / 0x2000_0000_0000;
      var remains0 := value - v2 * 10000;
      ghost var source := buf[..];
      var n, written := WriteLead(buf, at, v2);
      var text := WriteBlock(buf, at, n, remains0, source, written, v2);
      len := n + 4;
    } else {
      len := OutputBelowTenPow4(buf, at, value);
    }
  }

  method OutputBelowTenPow4(buf: array<char>, at: nat, value: nat) returns (len: nat)
    requires value < 10000 && at + 4 <= buf.Length
    modifies buf
    ensures 1 <= len <= 4 && IsNumeral(buf[at..at + len], value, 10, false)
    ensures buf[..] == Splice(old(buf[..]), at, buf[at..at + len])
  {
    if value >= 1000 {
      LeadDigits(value);
      CopyTo(buf, at, Table4(value));
      return 4;
    } else if value >= 100 {
      Table3Digits(value);
      DigitReadsBack(value / 100, false);
      CopyTo(buf, at, Table3(value));
      return 3;
    } else if value >= 10 {
      Table2Digits(value);
      DigitReadsBack(value / 10, false);
      CopyTo(buf, at, Table2(value));
      return 2;
    } else {
      OneDigit(value);
      buf[at] := Digit(value);
      assert buf[..] == Splice(old(buf[..]), at, [Digit(value)]);
      return 1;
    }
  }

  method OutputFromTenPow12(buf: array<char>, at: nat, value: nat) returns (len: nat)
    requires 1000000000000 <= value < 10000000000000000 && at + 20 <= buf.Length
    modifies buf
    ensures 1 <= len <= 20 && IsNumeral(buf[at..at + len], value, 10, false)
    ensures buf[..] == Splice(old(buf[..]), at, buf[at..at + len])
  {
    var v3 := value / 1000000000000;
    var remains2 := value - v3 * 1000000000000;
    var temp2 := remains2;
    var remains0 := remains2 / 10000;
    var remains1 := remains2 / 100000000;
    remains2 := remains1;
    remains1 := remains0 - remains1 * 10000;
    remains0 := temp2 - remains0 * 10000;
    ghost var source := buf[..];
    var n, written := WriteLead(buf, at, v3);
    ghost var x := v3;
    var text := WriteBlock(buf, at, n, remains2, source, written, x);
    x := x * 10000 + remains2;
    text := WriteBlock(buf, at, n + 4, remains1, source, text, x);
    x := x * 10000 + remains1;
    text := WriteBlock(buf, at, n + 8, remains0, source, text, x);
    len := n + 12;
  }

  method OutputFromTenPow16(buf: array<char>, at: nat, value: nat) returns (len: nat)
    requires 10000000000000000 <= value < 0x1_0000_0000_0000_0000 && at + 20 <= buf.Length
    modifies buf
    ensures 1 <= len <= 20 && IsNumeral(buf[at..at + len], value, 10, false)
    ensures buf[..] == Splice(old(buf[..]), at, buf[at..at + len])
  {
    var v4 := value / 10000000000000000;
    var remains3 := value - v4 * 10000000000000000;
    var temp3 := remains3 / 1000000000000;
    var remains2 := remains3 - temp3 * 1000000000000;
    remains3 := temp3;
    var temp2 := remains2;
    var remains0 := remains2 / 10000;
    var remains1 := remains2 / 100000000;
    remains2 := remains1;
    remains1 := remains0 - remains1 * 10000;
    remains0 := temp2 - remains0 * 10000;
    ghost var source := buf[..];
    var n, written := WriteLead(buf, at, v4);
    ghost var x := v4;
    var text := WriteBlock(buf, at, n, remains3, source, written, x);
    x := x * 10000 + remains3;
    text := WriteBlock(buf, at, n + 4, remains2, source, text, x);
    x := x * 10000 + remains2;
    text := WriteBlock(buf, at, n + 8, remains1, source, text, x);
    x := x * 10000 + remains1;
    text := WriteBlock(buf, at, n + 12, remains0, source, text, x);
    len := n + 16;
  }

  // ---- 19-digit blocks and 128-bit numbers ----

  /** output_unsigned_partial: exactly 19 digits, zero-padded. */
  method OutputUnsignedPartial(buf: array<char>, at: nat, value: nat)
    requires value < TEN_POW_19 && at + 19 <= buf.Length
    modifies buf
    ensures IsPadded(buf[at..at + 19], 19, value)
    ensures buf[..] == Splice(old(buf[..]), at, buf[at..at + 19])
  {
    var v4 := value / 10000000000000000;
    var remains3 := value - v4 * 10000000000000000;
    var temp3 := remains3 / 1000000000000;
    var remains2 := remains3 - temp3 * 1000000000000;
    remains3 := temp3;
    var temp2 := remains2;
    var remains0 := remains2 / 10000;
    var remains1 := remains2 / 100000000;
    remains2 := remains1;
    remains1 := remains0 - remains1 * 10000;
    remains0 := temp2 - remains0 * 10000;
    ghost var source := buf[..];
    Table4Tail(v4);
    CopyTo(buf, at, Table4(v4)[1..]);
    ghost var text, x := Table4(v4)[1..], v4;
    text := WritePadded(buf, at, 3, remains3, source, text, x);
    x := x * 10000 + remains3;
    text := WritePadded(buf, at, 7, remains2, source, text, x);
    x := x * 10000 + remains2;
    text := WritePadded(buf, at, 11, remains1, source, text, x);
    x := x * 10000 + remains1;
    text := WritePadded(buf, at, 15, remains0, source, text, x);
  }

  method WritePadded(buf: array<char>, at: nat, n: nat, k: nat, ghost source: string, ghost written: string, ghost x: nat)
    returns (ghost all: string)
    requires k < 10000 && at + n + 4 <= buf.Length == |source|
    requires IsPadded(written, n, x) && buf[..] == Splice(source, at, written)
    modifies buf
    ensures IsPadded(all, n + 4, x * 10000 + k) && buf[..] == Splice(source, at, all)
  {
    CopyTo(buf, at + n, Table4(k));
    SpliceOver(source, at, written, n, Table4(k));
    all := written + Table4(k);
    assert written[..n] == written;
    Table4Digits(k);
    PaddedConcat(written, n, x, Table4(k), 4, k);
    PowTen4();
  }

  lemma TenPowers()
    ensures Pow(10, 19) == TEN_POW_19 && TEN_POW_19 * TEN_POW_19 == TEN_POW_38
  {
    PowTen4();
    PowAdd(10, 4, 4);
    PowAdd(10, 8, 8);
    PowAdd(10, 16, 3);
  }

  /** uint128_t_output: writes the decimal numeral of any 128-bit number and returns its length. */
  method OutputUnsigned128(buf: array<char>, at: nat, value: nat) returns (len: nat)
    requires value < 0x1_0000_0000_0000_0000_0000_0000_0000_0000 && at + 39 <= buf.Length
    modifies buf
    ensures 1 <= len <= 39 && IsNumeral(buf[at..at + len], value, 10, false)
    ensures buf[..] == Splice(old(buf[..]), at, buf[at..at + len])
  {
    ghost var source := buf[..];
    TenPowers();
    if value >= TEN_POW_38 {
      var v3 := value / TEN_POW_38;
      var remain3 := value - v3 * TEN_POW_38;
      var v2 := remain3 / TEN_POW_19;
      var remain := remain3 - v2 * TEN_POW_19;
      OneDigit(v3);
      buf[at] := Digit(v3);
      assert buf[..] == Splice(source, at, [Digit(v3)]);
      OutputUnsignedPartial(buf, at + 1, v2);
      ghost var text := ExtendNumeral(source, at, [Digit(v3)], v3, buf[..], v2);
      OutputUnsignedPartial(buf, at + 20, remain);
      text := ExtendNumeral(source, at, text, v3 * TEN_POW_19 + v2, buf[..], remain);
      len := 39;
    } else if value >= TEN_POW_19 {
      var v2 := value / TEN_POW_19;
      var remain := value - v2 * TEN_POW_19;
      var offset := OutputUnsigned(buf, at, v2);
      ghost var text := buf[at..at + offset];
      OutputUnsignedPartial(buf, at + offset, remain);
      text := ExtendNumeral(source, at, text, v2, buf[..], remain);
      len := offset + 19;
    } else {
      len := OutputUnsigned(buf, at, value);
    }
  }

  /** Nineteen padded digits written behind a numeral extend it. */
  lemma ExtendNumeral(source: string, at: nat, text: string, x: nat, now: string, y: nat) returns (all: string)
    requires at + |text| + 19 <= |source| == |now|
    requires var block := now[at + |text|..at + |text| + 19];
             IsPadded(block, 19, y) && now == Splice(Splice(source, at, text), at + |text|, block)
    requires 0 < x && IsNumeral(text, x, 10, false)
    ensures |all| == |text| + 19 && IsNumeral(all, x * TEN_POW_19 + y, 10, false)
    ensures now == Splice(source, at, all) && all == now[at..at + |all|]
  {
    var block := now[at + |text|..at + |text| + 19];
    SpliceOver(source, at, text, |text|, block);
    assert text[..|text|] == text;
    all := text + block;
    TenPowers();
    NumeralConcat(text, x, block, 19, y);
  }
}
