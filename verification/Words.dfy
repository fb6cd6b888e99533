/** Fixed-width words as natural numbers: wrapping arithmetic, exclusive or, rotation, and little-endian bytes. */
module Words {
  import opened Basics
  import opened NatMath

  function Size(w: nat): (m: nat)
    ensures 0 < m
  {
    PowPositive(2, w);
    Pow(2, w)
  }

  function Add(w: nat, x: nat, y: nat): (z: nat)
    ensures z < Size(w)
  {
    (x + y) % Size(w)
  }

  function Sub(w: nat, x: nat, y: nat): (z: nat)
    ensures z < Size(w)
  {
    (x - y) % Size(w)
  }

  /** Wrapping subtraction and wrapping addition of the same word cancel. */
  lemma AddSubCancel(w: nat, x: nat, y: nat)
    requires x < Size(w)
    ensures Sub(w, Add(w, x, y), y) == x
    ensures Add(w, Sub(w, x, y), y) == x
  {
    hide Size;
    ResidueBack(x, y, x + y, Size(w));
    ResidueBack(x, 0 - y, x - y, Size(w));
  }

  lemma ResidueBack(x: nat, y: int, z: int, m: nat)
    requires x < m && z == x + y
    ensures (z % m - y) % m == x
  {
    ModMultiple(x, 0 - z / m, m);
    assert z % m - y == x + (0 - z / m) * m;
    DivModUnique(x, m, 0, x);
  }

  /** The powers of two that word sizes and rotations use, as numbers. */
  lemma PowersOfTwo()
    ensures Pow(2, 3) == 8 && Pow(2, 5) == 0x20 && Pow(2, 7) == 0x80 && Pow(2, 8) == 0x100 && Pow(2, 12) == 0x1000
    ensures Pow(2, 16) == 0x1_0000 && Pow(2, 20) == 0x10_0000 && Pow(2, 24) == 0x100_0000 && Pow(2, 25) == 0x200_0000
    ensures Pow(2, 27) == 0x800_0000 && Pow(2, 29) == 0x2000_0000 && Pow(2, 32) == 0x1_0000_0000
    ensures Pow(2, 56) == 0x100_0000_0000_0000 && Pow(2, 61) == 0x2000_0000_0000_0000
    ensures Pow(2, 64) == 0x1_0000_0000_0000_0000
  {
    assert Pow(2, 3) == 8 && Pow(2, 5) == 0x20;
    hide Pow;
    PowAdd(2, 5, 3);
    PowAdd(2, 8, 8);
    PowAdd(2, 16, 16);
    PowAdd(2, 32, 32);
    PowAdd(2, 16, 8);
    PowAdd(2, 24, 32);
    PowAdd(2, 24, 3);
    PowAdd(2, 24, 5);
    PowAdd(2, 56, 5);
    SmallerPowers();
  }

  lemma SmallerPowers()
    ensures Pow(2, 7) == 0x80 && Pow(2, 12) == 0x1000 && Pow(2, 20) == 0x10_0000 && Pow(2, 25) == 0x200_0000
  {
    assert Pow(2, 2) == 4 && Pow(2, 5) == 0x20 && Pow(2, 7) == 0x80;
    hide Pow;
    PowAdd(2, 5, 7);
    PowAdd(2, 5, 5);
    PowAdd(2, 10, 10);
    PowAdd(2, 20, 5);
  }

  lemma WordSizes()
    ensures Size(32) == 0x1_0000_0000 && Size(64) == 0x1_0000_0000_0000_0000
  {
    hide Pow;
    PowersOfTwo();
  }

  // ---- exclusive or ----

  function BitXor(a: nat, b: nat): nat
    decreases a + b
  {
    if a == 0 && b == 0 then 0 else (a + b) % 2 + 2 * BitXor(a / 2, b / 2)
  }

  lemma XorStep(a: nat, b: nat)
    ensures BitXor(a, b) / 2 == BitXor(a / 2, b / 2)
    ensures BitXor(a, b) % 2 == (a + b) % 2
  {
  }

  lemma {:induction false} XorCancels(a: nat, b: nat)
    ensures BitXor(BitXor(a, b), b) == a
    decreases a + b
  {
    if a != 0 || b != 0 {
      XorCancels(a / 2, b / 2);
      var x := BitXor(a, b);
      XorStep(a, b);
      XorStep(x, b);
      Parity(a, b, x);
    }
  }

  /** Bit by bit, the exclusive or is the sum without carries. */
  lemma XorBits(a: nat, b: nat, k: nat)
    ensures 0 < Pow(2, k)
    ensures BitXor(a, b) / Pow(2, k) % 2 == (a / Pow(2, k) + b / Pow(2, k)) % 2
  {
    PowPositive(2, k);
    XorShifted(a, b, k);
  }

  lemma {:induction false} XorShifted(a: nat, b: nat, k: nat)
    ensures Shr(BitXor(a, b), k) % 2 == (Shr(a, k) + Shr(b, k)) % 2
    decreases k
  {
    XorStep(a, b);
    if k == 0 {
      assert Pow(2, 0) == 1;
    } else {
      hide BitXor, Shr, Pow;
      XorShifted(a / 2, b / 2, k - 1);
      ShrStep(BitXor(a, b), k);
      ShrStep(a, k);
      ShrStep(b, k);
    }
  }

  lemma ShrStep(n: nat, k: nat)
    requires 0 < k
    ensures Shr(n, k) == Shr(n / 2, k - 1)
  {
    PowPositive(2, k - 1);
    DivDiv(n, 2, Pow(2, k - 1));
  }

  lemma Parity(a: nat, b: nat, x: nat)
    requires x % 2 == (a + b) % 2
    ensures (x + b) % 2 == a % 2
  {
  }

  lemma {:induction false} XorBound(w: nat, a: nat, b: nat)
    requires a < Size(w) && b < Size(w)
    ensures BitXor(a, b) < Size(w)
  {
    if w != 0 && (a != 0 || b != 0) {
      XorBound(w - 1, a / 2, b / 2);
    }
  }

  // ---- rotation ----

  /** std::rotl: the shift amount counts modulo the width. */
  function Rotl(w: nat, x: nat, s: nat): nat
    requires 0 < w
  {
    var r := s % w;
    BitOr((x * Size(r)) % Size(w), x / Size(w - r))
  }

  /** std::rotr. */
  function Rotr(w: nat, x: nat, s: nat): nat
    requires 0 < w
  {
    var r := s % w;
    BitOr(x / Size(r), (x * Size(w - r)) % Size(w))
  }

  lemma SizeSplits(w: nat, r: nat)
    requires r <= w
    ensures Size(w) == Size(r) * Size(w - r)
  {
    PowAdd(2, r, w - r);
  }

  /** x == hi * q + lo rotates left to lo * p + hi. */
  lemma Swapped(p: nat, q: nat, x: nat)
    requires 0 < p && 0 < q && x < p * q
    ensures x / q < p && (x * p) % (p * q) == (x % q) * p
  {
    DivBound(x, q, p);
    Distribute(x / q, p, q, x % q);
    assert x == x / q * q + x % q;
    MulGap(x % q, q, p);
    DivModUnique(x * p, p * q, x / q, x % q * p);
  }

  /** "Or"-ing the two shifted parts adds them. */
  lemma SwappedOr(w: nat, r: nat, x: nat)
    requires r <= w && x < Size(w)
    ensures var p, q := Size(r), Size(w - r);
            && x / q < p && (x % q) * p + x / q < Size(w)
            && BitOr((x * p) % Size(w), x / q) == (x % q) * p + x / q
            && BitOr(x / q, (x * p) % Size(w)) == (x % q) * p + x / q
  {
    var p, q := Size(r), Size(w - r);
    SizeSplits(w, r);
    Swapped(p, q, x);
    BitOrDisjoint(x % q, r, x / q);
    MulGap(x % q, q, p);
  }

  lemma RotlParts(w: nat, x: nat, s: nat)
    requires 0 < w && x < Size(w)
    ensures var r := s % w;
            && x / Size(w - r) < Size(r) && Rotl(w, x, s) == (x % Size(w - r)) * Size(r) + x / Size(w - r)
            && Rotl(w, x, s) < Size(w)
  {
    SwappedOr(w, s % w, x);
  }

  lemma RotrParts(w: nat, x: nat, s: nat)
    requires 0 < w && x < Size(w)
    ensures var r := s % w;
            && x / Size(r) < Size(w - r) && Rotr(w, x, s) == (x % Size(r)) * Size(w - r) + x / Size(r)
            && Rotr(w, x, s) < Size(w)
  {
    SwappedOr(w, w - s % w, x);
    assert w - (w - s % w) == s % w;
  }

  /** Rotating left by r moves the upper r bits behind the others, with p == 2^r and q == 2^(w - r). */
  lemma RotlIs(w: nat, x: nat, r: nat, p: nat, q: nat)
    requires r < w && x < Size(w) && p == Pow(2, r) && q == Pow(2, w - r)
    ensures 0 < q && Rotl(w, x, r) == x % q * p + x / q
  {
    hide Rotl, Pow;
    PowPositive(2, w - r);
    DivModUnique(r, w, 0, r);
    RotlParts(w, x, r);
  }

  lemma RotrIs(w: nat, x: nat, r: nat, p: nat, q: nat)
    requires r < w && x < Size(w) && p == Pow(2, r) && q == Pow(2, w - r)
    ensures 0 < p && Rotr(w, x, r) == x % p * q + x / p
  {
    hide Rotr, Pow;
    PowPositive(2, r);
    DivModUnique(r, w, 0, r);
    RotrParts(w, x, r);
  }

  lemma SwapTwice(p: nat, q: nat, x: nat)
    requires 0 < p && 0 < q && x / q < p
    ensures var y := (x % q) * p + x / q; (y % p) * q + y / p == x
  {
    DivModUnique((x % q) * p + x / q, p, x % q, x / q);
  }

  /** Rotations by the same amount in opposite directions undo each other, whatever the amount. */
  lemma RotationsCancel(w: nat, x: nat, s: nat)
    requires 0 < w && x < Size(w)
    ensures Rotr(w, Rotl(w, x, s), s) == x
    ensures Rotl(w, Rotr(w, x, s), s) == x
  {
    var p, q := Size(s % w), Size(w - s % w);
    RotlParts(w, x, s);
    RotrParts(w, Rotl(w, x, s), s);
    SwapTwice(p, q, x);
    RotrParts(w, x, s);
    RotlParts(w, Rotr(w, x, s), s);
    SwapTwice(q, p, x);
  }

  // ---- little-endian bytes ----

  /** The n low bytes of x, lowest first, as memcpy stores them. */
  function ToBytes(x: nat, n: nat): (s: seq<byte>)
    ensures |s| == n
  {
    if n == 0 then [] else [x % 256] + ToBytes(x / 256, n - 1)
  }

  function FromBytes(s: seq<byte>): nat
  {
    if s == [] then 0 else s[0] + 256 * FromBytes(s[1..])
  }

  lemma {:induction false} BytesRoundTrip(x: nat, n: nat)
    requires x < Size(8 * n)
    ensures FromBytes(ToBytes(x, n)) == x
  {
    if n != 0 {
      PowAdd(2, 8, 8 * (n - 1));
      assert Pow(2, 8) == 256;
      DivBound(x, 256, Size(8 * (n - 1)));
      BytesRoundTrip(x / 256, n - 1);
    }
  }

  lemma {:induction false} FromBytesRoundTrip(s: seq<byte>)
    ensures FromBytes(s) < Size(8 * |s|)
    ensures ToBytes(FromBytes(s), |s|) == s
  {
    if s != [] {
      var n := |s|;
      FromBytesRoundTrip(s[1..]);
      PowAdd(2, 8, 8 * (n - 1));
      assert Pow(2, 8) == 256;
      var x := FromBytes(s);
      assert x % 256 == s[0] && x / 256 == FromBytes(s[1..]);
      assert s == [s[0]] + s[1..];
    }
  }

  /** Byte i is the number divided by 256^i, modulo 256. */
  lemma {:induction false} ByteIs(x: nat, n: nat, i: nat)
    requires i < n
    ensures 0 < Pow(256, i) && ToBytes(x, n)[i] == x / Pow(256, i) % 256
    decreases n
  {
    PowPositive(256, i);
    if i != 0 {
      ByteIs(x / 256, n - 1, i - 1);
      DivDiv(x, 256, Pow(256, i - 1));
    }
  }

  /** Four and eight bytes as a number. */
  lemma FourBytes(s: seq<byte>)
    requires |s| == 4
    ensures FromBytes(s) == s[0] as nat + s[1] as nat * 0x100 + s[2] as nat * 0x1_0000 + s[3] as nat * 0x100_0000
  {
    assert FromBytes(s[3..]) == s[3] + 256 * FromBytes(s[3..][1..]) && s[3..][1..] == [];
    assert s[1..][1..] == s[2..] && s[2..][1..] == s[3..];
    assert FromBytes(s[2..]) == s[2] + 256 * FromBytes(s[3..]);
    assert FromBytes(s[1..]) == s[1] + 256 * FromBytes(s[2..]);
  }

  lemma EightBytes(s: seq<byte>)
    requires |s| == 8
    ensures FromBytes(s) == s[0] as nat + s[1] as nat * 0x100 + s[2] as nat * 0x1_0000 + s[3] as nat * 0x100_0000
                            + s[4] as nat * 0x1_0000_0000 + s[5] as nat * 0x100_0000_0000
                            + s[6] as nat * 0x1_0000_0000_0000 + s[7] as nat * 0x100_0000_0000_0000
  {
    FourBytes(s[4..]);
    assert s[1..][1..] == s[2..] && s[2..][1..] == s[3..] && s[3..][1..] == s[4..];
    assert FromBytes(s[3..]) == s[3] + 256 * FromBytes(s[4..]);
    assert FromBytes(s[2..]) == s[2] + 256 * FromBytes(s[3..]);
    assert FromBytes(s[1..]) == s[1] + 256 * FromBytes(s[2..]);
  }
}
