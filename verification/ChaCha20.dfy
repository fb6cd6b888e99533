/** The ChaCha20 block function of section 2.3 of RFC 8439 and its inverse on states of sixteen 32-bit words. */
module ChaCha20 {
  import opened Basics
  import opened NatMath
  import opened Words

  predicate IsWord(x: nat)
  {
    x < Size(32)
  }

  predicate IsState(s: seq<nat>)
  {
    |s| == 16 && forall i :: 0 <= i < 16 ==> IsWord(s[i])
  }

  // ---- the quarter round ----

  /** x += y; z ^= x; z = rotl(z, r) */
  function Mix(x: nat, y: nat, z: nat, r: nat): (nat, nat)
  {
    var x' := Add(32, x, y);
    (x', Rotl(32, BitXor(z, x'), r))
  }

  function Unmix(x: nat, y: nat, z: nat, r: nat): (nat, nat)
  {
    (Sub(32, x, y), BitXor(Rotr(32, z, r), x))
  }

  lemma MixCancels(x: nat, y: nat, z: nat, r: nat)
    requires IsWord(x) && IsWord(y) && IsWord(z)
    ensures var (x', z') := Mix(x, y, z, r); IsWord(x') && IsWord(z') && Unmix(x', y, z', r) == (x, z)
    ensures var (x', z') := Unmix(x, y, z, r); IsWord(x') && IsWord(z') && Mix(x', y, z', r) == (x, z)
  {
    var x' := Add(32, x, y);
    XorBound(32, z, x');
    RotlParts(32, BitXor(z, x'), r);
    RotationsCancel(32, BitXor(z, x'), r);
    XorCancels(z, x');
    AddSubCancel(32, x, y);
    RotrParts(32, z, r);
    XorBound(32, Rotr(32, z, r), x);
    XorCancels(Rotr(32, z, r), x);
    RotationsCancel(32, z, r);
  }

  /** qr: section 2.1 of RFC 8439. */
  function Qr(a: nat, b: nat, c: nat, d: nat): (nat, nat, nat, nat)
  {
    var (a1, d1) := Mix(a, b, d, 16);
    var (c1, b1) := Mix(c, d1, b, 12);
    var (a2, d2) := Mix(a1, b1, d1, 8);
    var (c2, b2) := Mix(c1, d2, b1, 7);
    (a2, b2, c2, d2)
  }

  /** One line of the quarter round in plain arithmetic, for a rotation by r bits with p == 2^r and q == 2^(32 - r). */
  lemma MixEquations(x: nat, y: nat, z: nat, r: nat, p: nat, q: nat, x1: nat, z1: nat)
    requires IsWord(x) && IsWord(y) && IsWord(z) && r < 32 && 0 < q && p == Pow(2, r) && q == Pow(2, 32 - r)
    requires x1 == (x + y) % 0x1_0000_0000 && z1 == BitXor(z, x1) % q * p + BitXor(z, x1) / q
    ensures Mix(x, y, z, r) == (x1, z1) && IsWord(x1) && IsWord(z1)
  {
    SumWraps(x, y);
    XorBound(32, z, x1);
    RotlIs(32, BitXor(z, x1), r, p, q);
    hide Rotl, BitXor, Size, Pow, Add, IsWord;
    MixCancels(x, y, z, r);
  }

  lemma SumWraps(x: nat, y: nat)
    ensures Add(32, x, y) == (x + y) % 0x1_0000_0000 < Size(32)
  {
    WordSizes();
    hide Size;
  }

  /**
   The quarter round in plain arithmetic: rotations by 16, 12, 8 and 7 bits. The words with a digit are the intermediate
   values, in the order in which they arise.
   */
  lemma QrEquations(a: nat, b: nat, c: nat, d: nat, a1: nat, d1: nat, c1: nat, b1: nat, a2: nat, d2: nat, c2: nat, b2: nat)
    requires a < 0x1_0000_0000 && b < 0x1_0000_0000 && c < 0x1_0000_0000 && d < 0x1_0000_0000
    requires a1 == (a + b) % 0x1_0000_0000 && d1 == BitXor(d, a1) % 0x1_0000 * 0x1_0000 + BitXor(d, a1) / 0x1_0000
    requires c1 == (c + d1) % 0x1_0000_0000 && b1 == BitXor(b, c1) % 0x10_0000 * 0x1000 + BitXor(b, c1) / 0x10_0000
    requires a2 == (a1 + b1) % 0x1_0000_0000 && d2 == BitXor(d1, a2) % 0x100_0000 * 0x100 + BitXor(d1, a2) / 0x100_0000
    requires c2 == (c1 + d2) % 0x1_0000_0000 && b2 == BitXor(b1, c2) % 0x200_0000 * 0x80 + BitXor(b1, c2) / 0x200_0000
    ensures Qr(a, b, c, d) == (a2, b2, c2, d2)
  {
    PowersOfTwo();
    WordSizes();
    hide Mix, BitXor, Pow, Size;
    MixEquations(a, b, d, 16, 0x1_0000, 0x1_0000, a1, d1);
    MixEquations(c, d1, b, 12, 0x1000, 0x10_0000, c1, b1);
    MixEquations(a1, b1, d1, 8, 0x100, 0x100_0000, a2, d2);
    MixEquations(c1, d2, b1, 7, 0x80, 0x200_0000, c2, b2);
  }

  function QrInverse(a: nat, b: nat, c: nat, d: nat): (nat, nat, nat, nat)
  {
    var (c1, b1) := Unmix(c, d, b, 7);
    var (a1, d1) := Unmix(a, b1, d, 8);
    var (c0, b0) := Unmix(c1, d1, b1, 12);
    var (a0, d0) := Unmix(a1, b0, d1, 16);
    (a0, b0, c0, d0)
  }

  lemma QrCancels(a: nat, b: nat, c: nat, d: nat)
    requires IsWord(a) && IsWord(b) && IsWord(c) && IsWord(d)
    ensures var (a', b', c', d') := Qr(a, b, c, d);
            IsWord(a') && IsWord(b') && IsWord(c') && IsWord(d') && QrInverse(a', b', c', d') == (a, b, c, d)
    ensures var (a', b', c', d') := QrInverse(a, b, c, d);
            IsWord(a') && IsWord(b') && IsWord(c') && IsWord(d') && Qr(a', b', c', d') == (a, b, c, d)
  {
    hide Mix, Unmix;
    QrThere(a, b, c, d);
    QrBack(a, b, c, d);
  }

  lemma QrThere(a: nat, b: nat, c: nat, d: nat)
    requires IsWord(a) && IsWord(b) && IsWord(c) && IsWord(d)
    ensures var (a', b', c', d') := Qr(a, b, c, d);
            IsWord(a') && IsWord(b') && IsWord(c') && IsWord(d') && QrInverse(a', b', c', d') == (a, b, c, d)
  {
    hide Mix, Unmix;
    MixCancels(a, b, d, 16);
    var (a1, d1) := Mix(a, b, d, 16);
    MixCancels(c, d1, b, 12);
    var (c1, b1) := Mix(c, d1, b, 12);
    MixCancels(a1, b1, d1, 8);
    var (a2, d2) := Mix(a1, b1, d1, 8);
    MixCancels(c1, d2, b1, 7);
  }

  lemma QrBack(a: nat, b: nat, c: nat, d: nat)
    requires IsWord(a) && IsWord(b) && IsWord(c) && IsWord(d)
    ensures var (a', b', c', d') := QrInverse(a, b, c, d);
            IsWord(a') && IsWord(b') && IsWord(c') && IsWord(d') && Qr(a', b', c', d') == (a, b, c, d)
  {
    hide Mix, Unmix;
    MixCancels(c, d, b, 7);
    var (c1, b1) := Unmix(c, d, b, 7);
    MixCancels(a, b1, d, 8);
    var (a1, d1) := Unmix(a, b1, d, 8);
    MixCancels(c1, d1, b1, 12);
    var (c0, b0) := Unmix(c1, d1, b1, 12);
    MixCancels(a1, b0, d1, 16);
  }

  // ---- quarter rounds on a state ----

  predicate Distinct(i: nat, j: nat, k: nat, l: nat)
  {
    i < 16 && j < 16 && k < 16 && l < 16 && i != j && i != k && i != l && j != k && j != l && k != l
  }

  function Stored(s: seq<nat>, i: nat, a: nat, j: nat, b: nat, k: nat, c: nat, l: nat, d: nat): (s': seq<nat>)
    requires |s| == 16 && i < 16 && j < 16 && k < 16 && l < 16
    ensures |s'| == 16
  {
    s[i := a][j := b][k := c][l := d]
  }

  /** QUARTERROUND(i, j, k, l): section 2.2 of RFC 8439. */
  function QuarterRound(s: seq<nat>, i: nat, j: nat, k: nat, l: nat): (s': seq<nat>)
    requires |s| == 16 && Distinct(i, j, k, l)
    ensures |s'| == 16
  {
    var (a, b, c, d) := Qr(s[i], s[j], s[k], s[l]);
    Stored(s, i, a, j, b, k, c, l, d)
  }

  function QuarterRoundInverse(s: seq<nat>, i: nat, j: nat, k: nat, l: nat): (s': seq<nat>)
    requires |s| == 16 && Distinct(i, j, k, l)
    ensures |s'| == 16
  {
    var (a, b, c, d) := QrInverse(s[i], s[j], s[k], s[l]);
    Stored(s, i, a, j, b, k, c, l, d)
  }

  lemma QuarterRoundCancels(s: seq<nat>, i: nat, j: nat, k: nat, l: nat)
    requires IsState(s) && Distinct(i, j, k, l)
    ensures var s' := QuarterRound(s, i, j, k, l); IsState(s') && QuarterRoundInverse(s', i, j, k, l) == s
    ensures var s' := QuarterRoundInverse(s, i, j, k, l); IsState(s') && QuarterRound(s', i, j, k, l) == s
  {
    hide Qr, QrInverse;
    QrCancels(s[i], s[j], s[k], s[l]);
    assert QuarterRoundInverse(QuarterRound(s, i, j, k, l), i, j, k, l) == s;
    assert QuarterRound(QuarterRoundInverse(s, i, j, k, l), i, j, k, l) == s;
  }

  // ---- the double round ----

  function ColumnRound(s: seq<nat>): (s': seq<nat>)
    requires |s| == 16
    ensures |s'| == 16
  {
    QuarterRound(QuarterRound(QuarterRound(QuarterRound(s, 0, 4, 8, 12), 1, 5, 9, 13), 2, 6, 10, 14), 3, 7, 11, 15)
  }

  function DiagonalRound(s: seq<nat>): (s': seq<nat>)
    requires |s| == 16
    ensures |s'| == 16
  {
    QuarterRound(QuarterRound(QuarterRound(QuarterRound(s, 0, 5, 10, 15), 1, 6, 11, 12), 2, 7, 8, 13), 3, 4, 9, 14)
  }

  /** The column round applies the quarter round to each column of the four-by-four matrix of words. */
  lemma ColumnRoundWords(s: seq<nat>, j: nat)
    requires |s| == 16 && j < 4
    ensures var s' := ColumnRound(s);
            (s'[j], s'[4 + j], s'[8 + j], s'[12 + j]) == Qr(s[j], s[4 + j], s[8 + j], s[12 + j])
  {
    hide Qr;
  }

  /** The diagonal round applies it to each diagonal, wrapping around. */
  lemma DiagonalRoundWords(s: seq<nat>, j: nat)
    requires |s| == 16 && j < 4
    ensures var s', k, l, m := DiagonalRound(s), 4 + (j + 1) % 4, 8 + (j + 2) % 4, 12 + (j + 3) % 4;
            (s'[j], s'[k], s'[l], s'[m]) == Qr(s[j], s[k], s[l], s[m])
  {
    hide Qr;
  }

  function ColumnRoundInverse(s: seq<nat>): (s': seq<nat>)
    requires |s| == 16
    ensures |s'| == 16
  {
    var s3 := QuarterRoundInverse(s, 3, 7, 11, 15);
    var s2 := QuarterRoundInverse(s3, 2, 6, 10, 14);
    QuarterRoundInverse(QuarterRoundInverse(s2, 1, 5, 9, 13), 0, 4, 8, 12)
  }

  function DiagonalRoundInverse(s: seq<nat>): (s': seq<nat>)
    requires |s| == 16
    ensures |s'| == 16
  {
    var s3 := QuarterRoundInverse(s, 3, 4, 9, 14);
    var s2 := QuarterRoundInverse(s3, 2, 7, 8, 13);
    QuarterRoundInverse(QuarterRoundInverse(s2, 1, 6, 11, 12), 0, 5, 10, 15)
  }

  lemma ColumnRoundCancels(s: seq<nat>)
    requires IsState(s)
    ensures IsState(ColumnRound(s)) && ColumnRoundInverse(ColumnRound(s)) == s
    ensures IsState(ColumnRoundInverse(s)) && ColumnRound(ColumnRoundInverse(s)) == s
  {
    hide QuarterRound, QuarterRoundInverse, IsState;
    QuarterRoundCancels(s, 0, 4, 8, 12);
    var s1 := QuarterRound(s, 0, 4, 8, 12);
    QuarterRoundCancels(s1, 1, 5, 9, 13);
    var s2 := QuarterRound(s1, 1, 5, 9, 13);
    QuarterRoundCancels(s2, 2, 6, 10, 14);
    QuarterRoundCancels(QuarterRound(s2, 2, 6, 10, 14), 3, 7, 11, 15);
    QuarterRoundCancels(s, 3, 7, 11, 15);
    var t1 := QuarterRoundInverse(s, 3, 7, 11, 15);
    QuarterRoundCancels(t1, 2, 6, 10, 14);
    var t2 := QuarterRoundInverse(t1, 2, 6, 10, 14);
    QuarterRoundCancels(t2, 1, 5, 9, 13);
    QuarterRoundCancels(QuarterRoundInverse(t2, 1, 5, 9, 13), 0, 4, 8, 12);
  }

  lemma DiagonalRoundCancels(s: seq<nat>)
    requires IsState(s)
    ensures IsState(DiagonalRound(s)) && DiagonalRoundInverse(DiagonalRound(s)) == s
    ensures IsState(DiagonalRoundInverse(s)) && DiagonalRound(DiagonalRoundInverse(s)) == s
  {
    hide QuarterRound, QuarterRoundInverse, IsState;
    QuarterRoundCancels(s, 0, 5, 10, 15);
    var s1 := QuarterRound(s, 0, 5, 10, 15);
    QuarterRoundCancels(s1, 1, 6, 11, 12);
    var s2 := QuarterRound(s1, 1, 6, 11, 12);
    QuarterRoundCancels(s2, 2, 7, 8, 13);
    QuarterRoundCancels(QuarterRound(s2, 2, 7, 8, 13), 3, 4, 9, 14);
    QuarterRoundCancels(s, 3, 4, 9, 14);
    var t1 := QuarterRoundInverse(s, 3, 4, 9, 14);
    QuarterRoundCancels(t1, 2, 7, 8, 13);
    var t2 := QuarterRoundInverse(t1, 2, 7, 8, 13);
    QuarterRoundCancels(t2, 1, 6, 11, 12);
    QuarterRoundCancels(QuarterRoundInverse(t2, 1, 6, 11, 12), 0, 5, 10, 15);
  }

  function InnerBlock(s: seq<nat>): (s': seq<nat>)
    requires |s| == 16
    ensures |s'| == 16
  {
    DiagonalRound(ColumnRound(s))
  }

  function InnerBlockInverse(s: seq<nat>): (s': seq<nat>)
    requires |s| == 16
    ensures |s'| == 16
  {
    ColumnRoundInverse(DiagonalRoundInverse(s))
  }

  lemma InnerBlockCancels(s: seq<nat>)
    requires IsState(s)
    ensures IsState(InnerBlock(s)) && InnerBlockInverse(InnerBlock(s)) == s
    ensures IsState(InnerBlockInverse(s)) && InnerBlock(InnerBlockInverse(s)) == s
  {
    hide ColumnRound, DiagonalRound, ColumnRoundInverse, DiagonalRoundInverse, IsState;
    ColumnRoundCancels(s);
    DiagonalRoundCancels(ColumnRound(s));
    DiagonalRoundCancels(s);
    ColumnRoundCancels(DiagonalRoundInverse(s));
  }

  /** n repetitions of the inner block of section 2.3.1 of RFC 8439. */
  function Rounds(s: seq<nat>, n: nat): (s': seq<nat>)
    requires |s| == 16
    ensures |s'| == 16
  {
    if n == 0 then s else InnerBlock(Rounds(s, n - 1))
  }

  function RoundsInverse(s: seq<nat>, n: nat): (s': seq<nat>)
    requires |s| == 16
    ensures |s'| == 16
    decreases n
  {
    if n == 0 then s else RoundsInverse(InnerBlockInverse(s), n - 1)
  }

  /** The rounds are a bijection on states. */
  lemma {:induction false} RoundsCancel(s: seq<nat>, n: nat)
    requires IsState(s)
    ensures IsState(Rounds(s, n)) && RoundsInverse(Rounds(s, n), n) == s
    ensures IsState(RoundsInverse(s, n)) && Rounds(RoundsInverse(s, n), n) == s
    decreases n
  {
    hide InnerBlock, InnerBlockInverse, IsState;
    if n != 0 {
      RoundsCancel(s, n - 1);
      InnerBlockCancels(Rounds(s, n - 1));
      InnerBlockCancels(s);
      RoundsCancel(InnerBlockInverse(s), n - 1);
    }
  }

  // ---- the block function ----

  function AddState(s: seq<nat>, t: seq<nat>): (u: seq<nat>)
    requires |s| == 16 && |t| == 16
    ensures |u| == 16
  {
    seq(16, i requires 0 <= i < 16 => Add(32, s[i], t[i]))
  }

  function SubState(s: seq<nat>, t: seq<nat>): (u: seq<nat>)
    requires |s| == 16 && |t| == 16
    ensures |u| == 16
  {
    seq(16, i requires 0 <= i < 16 => Sub(32, s[i], t[i]))
  }

  function Block(s: seq<nat>): (u: seq<nat>)
    requires |s| == 16
    ensures |u| == 16
  {
    AddState(Rounds(s, 10), s)
  }

  lemma ColumnsFirst(s: seq<nat>)
    requires |s| == 16
    ensures InnerBlock(s) == DiagonalRound(ColumnRound(s))
  {
  }

  lemma AddedWord(s: seq<nat>, t: seq<nat>, i: nat)
    requires |s| == 16 && |t| == 16 && i < 16
    ensures AddState(s, t)[i] == (s[i] + t[i]) % 0x1_0000_0000
  {
    WordSizes();
  }

  /** Ten double rounds, and the input added word by word. */
  lemma BlockEquations(s: seq<nat>) returns (t: seq<seq<nat>>)
    requires |s| == 16
    ensures |t| == 11 && t[0] == s && forall i :: 0 <= i < 11 ==> |t[i]| == 16
    ensures forall i :: 0 <= i < 10 ==> t[i + 1] == InnerBlock(t[i])
    ensures Block(s) == AddState(t[10], s)
  {
    hide AddState, InnerBlock;
    t := seq(11, i requires 0 <= i < 11 => Rounds(s, i));
  }

  /** Subtracting the input and running the quarter rounds backwards recovers it, for every state. */
  lemma BlockInverts(s: seq<nat>)
    requires IsState(s)
    ensures RoundsInverse(SubState(Block(s), s), 10) == s
  {
    hide Rounds, RoundsInverse;
    RoundsCancel(s, 10);
    var r := Rounds(s, 10);
    forall i | 0 <= i < 16 ensures SubState(Block(s), s)[i] == r[i] {
      AddSubCancel(32, r[i], s[i]);
    }
    assert SubState(Block(s), s) == r;
  }

  // ---- in place ----

  /** qr on four words of the array, passed by reference. */
  method QrInPlace(x: array<nat>, i: nat, j: nat, k: nat, l: nat)
    requires x.Length == 16 && Distinct(i, j, k, l)
    modifies x
    ensures x[..] == QuarterRound(old(x[..]), i, j, k, l)
  {
    hide Mix;
    x[i], x[l] := MixWords(x[i], x[j], x[l], 16);
    x[k], x[j] := MixWords(x[k], x[l], x[j], 12);
    x[i], x[l] := MixWords(x[i], x[j], x[l], 8);
    x[k], x[j] := MixWords(x[k], x[l], x[j], 7);
  }

  method MixWords(x0: nat, y: nat, z0: nat, r: nat) returns (x: nat, z: nat)
    ensures (x, z) == Mix(x0, y, z0, r)
  {
    x := Add(32, x0, y);
    z := BitXor(z0, x);
    z := Rotl(32, z, r);
  }

  method ChachaBlock(input: seq<nat>) returns (x: array<nat>)
    requires |input| == 16
    ensures fresh(x) && x[..] == Block(input)
  {
    hide QuarterRound;
    x := new nat[16](i requires 0 <= i < 16 => input[i]);
    assert x[..] == input;
    var i := 0;
    while i != 10
      invariant 0 <= i <= 10 && x[..] == Rounds(input, i)
    {
      // Odd round
      QrInPlace(x, 0, 4, 8, 12);
      QrInPlace(x, 1, 5, 9, 13);
      QrInPlace(x, 2, 6, 10, 14);
      QrInPlace(x, 3, 7, 11, 15);
      // Even round
      QrInPlace(x, 0, 5, 10, 15);
      QrInPlace(x, 1, 6, 11, 12);
      QrInPlace(x, 2, 7, 8, 13);
      QrInPlace(x, 3, 4, 9, 14);
      i := i + 1;
    }
    ghost var r := x[..];
    i := 0;
    while i != 16
      invariant 0 <= i <= 16
      invariant forall k :: 0 <= k < i ==> x[k] == Add(32, r[k], input[k])
      invariant forall k :: i <= k < 16 ==> x[k] == r[k]
    {
      x[i] := Add(32, x[i], input[i]);
      i := i + 1;
    }
    assert x[..] == Block(input);
  }
}
