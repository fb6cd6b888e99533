/** RC6 with 32-bit words: key schedule, encryption and decryption for every key array and round count. */
module Rc6 {
  import opened Basics
  import opened NatMath
  import opened Words
  import opened Blocks

  const LGW: nat := 5
  const SHIFT_MASK: nat := 63

  datatype State = State(a: nat, b: nat, c: nat, d: nat)

  predicate IsWord(x: nat)
  {
    x < Size(32)
  }

  predicate AreWords(ks: seq<nat>)
  {
    forall i :: 0 <= i < |ks| ==> IsWord(ks[i])
  }

  predicate IsState(s: State)
  {
    IsWord(s.a) && IsWord(s.b) && IsWord(s.c) && IsWord(s.d)
  }

  /** rotl(x * ((x << 1) | 1), lgw): the quadratic word that drives a round. */
  function Mix(x: nat): nat
  {
    Rotl(32, x * BitOr(x * 2 % Size(32), 1) % Size(32), LGW)
  }

  lemma MixIsWord(x: nat)
    ensures IsWord(Mix(x))
  {
    RotlParts(32, x * BitOr(x * 2 % Size(32), 1) % Size(32), LGW);
  }

  /** In plain arithmetic: y = x * (2x + 1) modulo 2^32, rotated left by 5 bits. */
  lemma MixEquation(x: nat)
    requires x < 0x1_0000_0000
    ensures var y := x * (2 * x + 1) % 0x1_0000_0000; Mix(x) == y % 0x800_0000 * 0x20 + y / 0x800_0000
  {
    var v := x * (2 * x + 1) % 0x1_0000_0000;
    MixInput(x);
    PowersOfTwo();
    WordSizes();
    hide Pow, Size, Rotl, BitOr;
    RotlIs(32, v, 5, 0x20, 0x800_0000);
  }

  lemma MixInput(x: nat)
    ensures x * BitOr(x * 2 % Size(32), 1) % Size(32) == x * (2 * x + 1) % 0x1_0000_0000
  {
    hide BitOr, Size;
    WordSizes();
    WrappedFactor(x, 2 * x + 1, 0x1_0000_0000);
    OrOne(2 * x % 0x1_0000_0000);
  }

  /** Setting the lowest bit of an even number adds one. */
  lemma OrOne(n: nat)
    requires n % 2 == 0
    ensures BitOr(n, 1) == n + 1
  {
    assert Pow(2, 1) == 2;
    BitOrDisjoint(n / 2, 1, 1);
  }

  /** Wrapping all but the lowest bit of an odd factor does not change the wrapped product. */
  lemma WrappedFactor(x: nat, f: nat, m: nat)
    requires 0 < m && m % 2 == 0 && f % 2 == 1
    ensures (f - 1) % m % 2 == 0
    ensures x * ((f - 1) % m + 1) % m == x * f % m
  {
    var q, r := (f - 1) / m, (f - 1) % m;
    assert f == q * m + (r + 1);
    assert x * f == x * (q * m) + x * (r + 1);
    Associate(x, q, m);
    ModMultiple(x * (r + 1), x * q, m);
    EvenResidue(f - 1, m);
  }

  lemma EvenResidue(n: nat, m: nat)
    requires 0 < m && m % 2 == 0 && n % 2 == 0
    ensures n % m % 2 == 0
  {
    assert n == n / m * m + n % m;
    assert m == 2 * (m / 2);
    Associate(n / m, 2, m / 2);
    assert n / m * 2 * (m / 2) == 2 * (n / m * (m / 2));
  }

  // ---- one half of a round ----

  /** (rotl(x ^ t, u & mask)) + k */
  function Scramble(x: nat, t: nat, u: nat, k: nat): nat
  {
    Add(32, Rotl(32, BitXor(x, t), u % (SHIFT_MASK + 1)), k)
  }

  /** rotr(y - k, u & mask) ^ t */
  function Unscramble(y: nat, t: nat, u: nat, k: nat): nat
  {
    BitXor(Rotr(32, Sub(32, y, k), u % (SHIFT_MASK + 1)), t)
  }

  /** In plain arithmetic: the exclusive or is rotated left by u modulo 32 bits and the key added. */
  lemma ScrambleEquation(x: nat, t: nat, u: nat, k: nat)
    requires IsWord(x) && IsWord(t)
    ensures var z, r := BitXor(x, t), u % 32;
            && 0 < Pow(2, 32 - r)
            && Scramble(x, t, u, k) == (z % Pow(2, 32 - r) * Pow(2, r) + z / Pow(2, 32 - r) + k) % 0x1_0000_0000
  {
    var z, r := BitXor(x, t), u % 32;
    XorBound(32, x, t);
    WordSizes();
    MaskTwice(u);
    RotlByResidue(z, u % 64, r);
    PowPositive(2, 32 - r);
    hide BitXor, Rotl, Pow, Size;
    RotlIs(32, z, r, Pow(2, r), Pow(2, 32 - r));
  }

  /** Of the six bits that the mask keeps, a rotation uses five. */
  lemma MaskTwice(u: nat)
    ensures u % 64 % 32 == u % 32
  {
    ModOfMod(u, 32, 2);
  }

  lemma RotlByResidue(z: nat, s: nat, r: nat)
    requires r == s % 32
    ensures Rotl(32, z, s) == Rotl(32, z, r)
  {
    hide BitOr, Size;
  }

  lemma ScrambleCancels(x: nat, t: nat, u: nat, k: nat)
    requires IsWord(x) && IsWord(t)
    ensures IsWord(Scramble(x, t, u, k)) && IsWord(Unscramble(x, t, u, k))
    ensures Unscramble(Scramble(x, t, u, k), t, u, k) == x
    ensures Scramble(Unscramble(x, t, u, k), t, u, k) == x
  {
    var s := u % (SHIFT_MASK + 1);
    XorBound(32, x, t);
    XorCancels(x, t);
    RotlParts(32, BitXor(x, t), s);
    RotationsCancel(32, BitXor(x, t), s);
    AddSubCancel(32, Rotl(32, BitXor(x, t), s), k);
    RotrParts(32, Sub(32, x, k), s);
    XorBound(32, Rotr(32, Sub(32, x, k), s), t);
    XorCancels(Rotr(32, Sub(32, x, k), s), t);
    RotationsCancel(32, Sub(32, x, k), s);
    AddSubCancel(32, x, k);
  }

  // ---- rounds ----

  function EncryptRound(s: State, k0: nat, k1: nat): State
  {
    var t, u := Mix(s.b), Mix(s.d);
    State(s.b, Scramble(s.c, u, t, k1), s.d, Scramble(s.a, t, u, k0))
  }

  /** A round rotates the four words, after scrambling the first and the third by the mixes of the second and the fourth. */
  lemma RoundEquations(s: State, k0: nat, k1: nat)
    ensures var e := EncryptRound(s, k0, k1);
            && e.a == s.b && e.b == Scramble(s.c, Mix(s.d), Mix(s.b), k1)
            && e.c == s.d && e.d == Scramble(s.a, Mix(s.b), Mix(s.d), k0)
  {
  }

  function DecryptRound(s: State, k0: nat, k1: nat): State
  {
    var u, t := Mix(s.c), Mix(s.a);
    State(Unscramble(s.d, t, u, k0), s.a, Unscramble(s.b, u, t, k1), s.c)
  }

  /** The data-dependent rotation amounts are recomputed from the two words the round left unchanged. */
  lemma RoundsCancel(s: State, k0: nat, k1: nat)
    requires IsState(s)
    ensures IsState(EncryptRound(s, k0, k1)) && DecryptRound(EncryptRound(s, k0, k1), k0, k1) == s
    ensures IsState(DecryptRound(s, k0, k1)) && EncryptRound(DecryptRound(s, k0, k1), k0, k1) == s
  {
    hide Mix, Scramble, Unscramble;
    MixIsWord(s.a);
    MixIsWord(s.b);
    MixIsWord(s.c);
    MixIsWord(s.d);
    ScrambleCancels(s.a, Mix(s.b), Mix(s.d), k0);
    ScrambleCancels(s.c, Mix(s.d), Mix(s.b), k1);
    ScrambleCancels(s.d, Mix(s.a), Mix(s.c), k0);
    ScrambleCancels(s.b, Mix(s.c), Mix(s.a), k1);
  }

  /** Rounds 1 to n. */
  function EncryptRounds(ks: seq<nat>, n: nat, s: State): State
    requires 2 * n + 2 <= |ks|
  {
    if n == 0 then s else EncryptRound(EncryptRounds(ks, n - 1, s), ks[2 * n], ks[2 * n + 1])
  }

  /** Rounds n to 1, undone. */
  function DecryptRounds(ks: seq<nat>, n: nat, s: State): State
    requires 2 * n + 2 <= |ks|
  {
    if n == 0 then s else DecryptRounds(ks, n - 1, DecryptRound(s, ks[2 * n], ks[2 * n + 1]))
  }

  lemma {:induction false} EncryptIsState(ks: seq<nat>, n: nat, s: State)
    requires 2 * n + 2 <= |ks| && IsState(s)
    ensures IsState(EncryptRounds(ks, n, s))
  {
    hide EncryptRound, DecryptRound;
    if n != 0 {
      EncryptIsState(ks, n - 1, s);
      RoundsCancel(EncryptRounds(ks, n - 1, s), ks[2 * n], ks[2 * n + 1]);
    }
  }

  lemma {:induction false} DecryptUndoesEncrypt(ks: seq<nat>, n: nat, s: State)
    requires 2 * n + 2 <= |ks| && IsState(s)
    ensures DecryptRounds(ks, n, EncryptRounds(ks, n, s)) == s
  {
    hide EncryptRound, DecryptRound;
    if n != 0 {
      EncryptIsState(ks, n - 1, s);
      RoundsCancel(EncryptRounds(ks, n - 1, s), ks[2 * n], ks[2 * n + 1]);
      DecryptUndoesEncrypt(ks, n - 1, s);
    }
  }

  lemma {:induction false} EncryptUndoesDecrypt(ks: seq<nat>, n: nat, s: State)
    requires 2 * n + 2 <= |ks| && IsState(s)
    ensures IsState(DecryptRounds(ks, n, s)) && EncryptRounds(ks, n, DecryptRounds(ks, n, s)) == s
  {
    hide EncryptRound, DecryptRound;
    if n != 0 {
      RoundsCancel(s, ks[2 * n], ks[2 * n + 1]);
      EncryptUndoesDecrypt(ks, n - 1, DecryptRound(s, ks[2 * n], ks[2 * n + 1]));
    }
  }

  // ---- whitening ----

  function EncryptState(ks: seq<nat>, rounds: nat, s: State): State
    requires |ks| == 2 * rounds + 4
  {
    var e := EncryptRounds(ks, rounds, s.(b := Add(32, s.b, ks[0]), d := Add(32, s.d, ks[1])));
    e.(a := Add(32, e.a, ks[2 * rounds + 2]), c := Add(32, e.c, ks[2 * rounds + 3]))
  }

  function DecryptState(ks: seq<nat>, rounds: nat, s: State): State
    requires |ks| == 2 * rounds + 4
  {
    var d := DecryptRounds(ks, rounds, s.(a := Sub(32, s.a, ks[2 * rounds + 2]), c := Sub(32, s.c, ks[2 * rounds + 3])));
    d.(b := Sub(32, d.b, ks[0]), d := Sub(32, d.d, ks[1]))
  }

  lemma StatesRoundTrip(ks: seq<nat>, rounds: nat, s: State)
    requires |ks| == 2 * rounds + 4 && IsState(s)
    ensures IsState(EncryptState(ks, rounds, s)) && DecryptState(ks, rounds, EncryptState(ks, rounds, s)) == s
    ensures IsState(DecryptState(ks, rounds, s)) && EncryptState(ks, rounds, DecryptState(ks, rounds, s)) == s
  {
    var w := s.(b := Add(32, s.b, ks[0]), d := Add(32, s.d, ks[1]));
    EncryptIsState(ks, rounds, w);
    var e := EncryptRounds(ks, rounds, w);
    AddSubCancel(32, e.a, ks[2 * rounds + 2]);
    AddSubCancel(32, e.c, ks[2 * rounds + 3]);
    DecryptUndoesEncrypt(ks, rounds, w);
    AddSubCancel(32, s.b, ks[0]);
    AddSubCancel(32, s.d, ks[1]);
    var v := s.(a := Sub(32, s.a, ks[2 * rounds + 2]), c := Sub(32, s.c, ks[2 * rounds + 3]));
    EncryptUndoesDecrypt(ks, rounds, v);
    var d := DecryptRounds(ks, rounds, v);
    AddSubCancel(32, d.b, ks[0]);
    AddSubCancel(32, d.d, ks[1]);
    AddSubCancel(32, s.a, ks[2 * rounds + 2]);
    AddSubCancel(32, s.c, ks[2 * rounds + 3]);
  }

  // ---- blocks ----

  function StateOf(b: Block): State
  {
    State(FromBytes(b[..4]), FromBytes(b[4..8]), FromBytes(b[8..12]), FromBytes(b[12..]))
  }

  function BlockOf(s: State): Block
  {
    ToBytes(s.a, 4) + ToBytes(s.b, 4) + ToBytes(s.c, 4) + ToBytes(s.d, 4)
  }

  lemma StateBlock(s: State)
    requires IsState(s)
    ensures StateOf(BlockOf(s)) == s
  {
    hide ToBytes, FromBytes;
    BytesRoundTrip(s.a, 4);
    BytesRoundTrip(s.b, 4);
    BytesRoundTrip(s.c, 4);
    BytesRoundTrip(s.d, 4);
    var b := BlockOf(s);
    assert b[..4] == ToBytes(s.a, 4) && b[4..8] == ToBytes(s.b, 4);
    assert b[8..12] == ToBytes(s.c, 4) && b[12..] == ToBytes(s.d, 4);
  }

  lemma BlockState(b: Block)
    ensures IsState(StateOf(b)) && BlockOf(StateOf(b)) == b
  {
    hide ToBytes, FromBytes;
    FromBytesRoundTrip(b[..4]);
    FromBytesRoundTrip(b[4..8]);
    FromBytesRoundTrip(b[8..12]);
    FromBytesRoundTrip(b[12..]);
    assert b == b[..4] + b[4..8] + b[8..12] + b[12..];
  }

  function EncryptBlock(ks: seq<nat>, rounds: nat, b: Block): Block
    requires |ks| == 2 * rounds + 4
  {
    BlockOf(EncryptState(ks, rounds, StateOf(b)))
  }

  function DecryptBlock(ks: seq<nat>, rounds: nat, b: Block): Block
    requires |ks| == 2 * rounds + 4
  {
    BlockOf(DecryptState(ks, rounds, StateOf(b)))
  }

  /**
   Encryption, state by state: the block is four little-endian words; the second and the fourth get round keys 0 and 1
   added; round i uses keys 2i + 2 and 2i + 3; at the end the first and the third get the last two added.
   */
  lemma EncryptionEquations(ks: seq<nat>, rounds: nat, b: Block) returns (t: seq<State>)
    requires |ks| == 2 * rounds + 4
    ensures |t| == rounds + 1
    ensures t[0] == State(FromBytes(b[..4]), (FromBytes(b[4..8]) + ks[0]) % 0x1_0000_0000,
                          FromBytes(b[8..12]), (FromBytes(b[12..]) + ks[1]) % 0x1_0000_0000)
    ensures forall i :: 0 <= i < rounds ==> t[i + 1] == EncryptRound(t[i], ks[2 * i + 2], ks[2 * i + 3])
    ensures EncryptBlock(ks, rounds, b)
         == ToBytes((t[rounds].a + ks[2 * rounds + 2]) % 0x1_0000_0000, 4) + ToBytes(t[rounds].b, 4)
            + ToBytes((t[rounds].c + ks[2 * rounds + 3]) % 0x1_0000_0000, 4) + ToBytes(t[rounds].d, 4)
  {
    hide EncryptRound, ToBytes, FromBytes;
    WordSizes();
    hide Size;
    var s := StateOf(b);
    var w := s.(b := Add(32, s.b, ks[0]), d := Add(32, s.d, ks[1]));
    t := seq(rounds + 1, i requires 0 <= i <= rounds => EncryptRounds(ks, i, w));
  }

  /** For every round-key array, round count and block, each direction undoes the other. */
  lemma BlocksRoundTrip(ks: seq<nat>, rounds: nat, b: Block)
    requires |ks| == 2 * rounds + 4
    ensures DecryptBlock(ks, rounds, EncryptBlock(ks, rounds, b)) == b
    ensures EncryptBlock(ks, rounds, DecryptBlock(ks, rounds, b)) == b
  {
    BlockState(b);
    StatesRoundTrip(ks, rounds, StateOf(b));
    StateBlock(EncryptState(ks, rounds, StateOf(b)));
    StateBlock(DecryptState(ks, rounds, StateOf(b)));
  }

  // ---- key schedule ----

  const P32: nat := 0xB7E15163
  const Q32: nat := 0x9E3779B9

  /** The round keys before mixing. */
  function InitialKey(i: nat): nat
  {
    if i == 0 then P32 else Add(32, InitialKey(i - 1), Q32)
  }

  /** Round key i before mixing, in closed form. */
  lemma {:induction false} InitialKeyIs(i: nat)
    ensures InitialKey(i) == (0xB7E15163 + i * 0x9E3779B9) % 0x1_0000_0000
  {
    WordSizes();
    hide Size;
    if i != 0 {
      InitialKeyIs(i - 1);
      AddAfterMod(0xB7E15163 + (i - 1) * 0x9E3779B9, 0x9E3779B9, 0x1_0000_0000);
      NextInitialKey(i);
    } else {
      assert InitialKey(0) == 0xB7E15163;
    }
  }

  lemma NextInitialKey(i: nat)
    requires 0 < i
    ensures InitialKey(i) == (InitialKey(i - 1) + 0x9E3779B9) % 0x1_0000_0000
  {
    WordSizes();
    hide Size;
  }

  datatype Mixing = Mixing(keys: seq<nat>, words: seq<nat>, a: nat, b: nat)

  /** One mixing step; step n works on round key n mod t and key word n mod c. */
  function MixStep(m: Mixing, n: nat): (m': Mixing)
    requires m.keys != [] && m.words != []
    ensures |m'.keys| == |m.keys| && |m'.words| == |m.words|
  {
    var i, j := n % |m.keys|, n % |m.words|;
    var a := Rotl(32, Add(32, Add(32, m.keys[i], m.a), m.b), 3);
    var b := Rotl(32, Add(32, Add(32, m.words[j], a), m.b), Add(32, a, m.b) % (SHIFT_MASK + 1));
    Mixing(m.keys[i := a], m.words[j := b], a, b)
  }

  /**
   A mixing step in plain arithmetic: round key and both running words are added and rotated left by 3 bits, which gives a;
   key word, a and the other running word are added and rotated left by r bits, r the sum of the last two modulo 32, which
   gives b.
   */
  lemma MixStepEquations(m: Mixing, n: nat, i: nat, j: nat, x: nat, a: nat, y: nat, r: nat, p: nat, q: nat, b: nat)
    requires i < |m.keys| && i == n % |m.keys| && j < |m.words| && j == n % |m.words|
    requires x == (m.keys[i] + m.a + m.b) % 0x1_0000_0000 && a == x % 0x2000_0000 * 8 + x / 0x2000_0000
    requires y == (m.words[j] + a + m.b) % 0x1_0000_0000 && r == (a + m.b) % 32
    requires p == Pow(2, r) && q == Pow(2, 32 - r) && 0 < q && b == y % q * p + y / q
    ensures MixStep(m, n) == Mixing(m.keys[i := a], m.words[j := b], a, b)
  {
    PowersOfTwo();
    MixedWord(m.keys[i], m.a, m.b, 3, 3, x, 8, 0x2000_0000);
    MaskedSum(a, m.b);
    MixedWord(m.words[j], a, m.b, Add(32, a, m.b) % (SHIFT_MASK + 1), r, y, p, q);
    hide Add, Rotl, Pow;
  }

  lemma MaskedSum(a: nat, b: nat)
    ensures Add(32, a, b) % 64 % 32 == (a + b) % 32
  {
    WordSizes();
    MaskTwice(Add(32, a, b));
    ModOfMod(a + b, 32, 0x800_0000);
  }

  lemma MixedWord(k: nat, a: nat, b: nat, s: nat, r: nat, x: nat, p: nat, q: nat)
    requires r == s % 32 && x == (k + a + b) % 0x1_0000_0000 && p == Pow(2, r) && q == Pow(2, 32 - r) && 0 < q
    ensures Rotl(32, Add(32, Add(32, k, a), b), s) == x % q * p + x / q
  {
    SumOfThree(k, a, b);
    RotlByResidue(x, s, r);
    hide Add, Rotl, Pow, Size;
    RotlIs(32, x, r, p, q);
  }

  lemma SumOfThree(k: nat, a: nat, b: nat)
    ensures Add(32, Add(32, k, a), b) == (k + a + b) % 0x1_0000_0000 < Size(32)
  {
    WordSizes();
    hide Size;
    AddAfterMod(k + a, b, 0x1_0000_0000);
  }

  function MixSteps(m: Mixing, n: nat): (m': Mixing)
    requires m.keys != [] && m.words != []
    ensures |m'.keys| == |m.keys| && |m'.words| == |m.words|
  {
    if n == 0 then m else MixStep(MixSteps(m, n - 1), n - 1)
  }

  /** The round keys of a key given as words: three passes over the longer of the two arrays. */
  function KeySchedule(words: seq<nat>, rounds: nat): (ks: seq<nat>)
    requires words != []
    ensures |ks| == 2 * rounds + 4
  {
    var t := 2 * rounds + 4;
    MixSteps(Mixing(seq(t, i requires 0 <= i < t => InitialKey(i)), words, 0, 0), 3 * Max(|words|, t)).keys
  }

  function KeyWords(key: seq<byte>): (words: seq<nat>)
    ensures |words| == |key| / 4
  {
    seq(|key| / 4, i requires 0 <= i < |key| / 4 => FromBytes(key[4 * i..4 * i + 4]))
  }

  /** Key word i, byte by byte. */
  lemma KeyWordIs(key: seq<byte>, i: nat)
    requires i < |key| / 4
    ensures KeyWords(key)[i] == key[4 * i] as nat + key[4 * i + 1] as nat * 0x100
                                + key[4 * i + 2] as nat * 0x1_0000 + key[4 * i + 3] as nat * 0x100_0000
  {
    hide FromBytes;
    FourBytes(key[4 * i..4 * i + 4]);
  }

  /** The key schedule, step by step: three passes over the longer of the two arrays, from the closed-form keys. */
  lemma ScheduleEquations(words: seq<nat>, rounds: nat) returns (m: seq<Mixing>)
    requires words != []
    ensures var t := 2 * rounds + 4;
            && |m| == 3 * (if |words| < t then t else |words|) + 1
            && |m[0].keys| == t && m[0].words == words && m[0].a == 0 && m[0].b == 0
            && (forall i :: 0 <= i < t ==> m[0].keys[i] == (0xB7E15163 + i * 0x9E3779B9) % 0x1_0000_0000)
            && (forall n :: 0 <= n < |m| ==> |m[n].keys| == t && |m[n].words| == |words|)
            && (forall n :: 0 <= n < |m| - 1 ==> m[n + 1] == MixStep(m[n], n))
            && KeySchedule(words, rounds) == m[|m| - 1].keys
  {
    hide MixStep, InitialKey;
    var t := 2 * rounds + 4;
    var start := Mixing(seq(t, i requires 0 <= i < t => InitialKey(i)), words, 0, 0);
    forall i | 0 <= i < t ensures start.keys[i] == (0xB7E15163 + i * 0x9E3779B9) % 0x1_0000_0000 {
      InitialKeyIs(i);
    }
    var v := 3 * Max(|words|, t);
    forall n | 0 <= n <= v ensures |MixSteps(start, n).keys| == t && |MixSteps(start, n).words| == |words| {
      StepsKeepLengths(start, n);
    }
    m := seq(v + 1, n requires 0 <= n <= v => MixSteps(start, n));
  }

  lemma StepsKeepLengths(m: Mixing, n: nat)
    requires m.keys != [] && m.words != []
    ensures |MixSteps(m, n).keys| == |m.keys| && |MixSteps(m, n).words| == |m.words|
  {
  }

  class Rc6 {
    const rounds: nat
    const roundKeys: array<nat>

    ghost predicate Valid()
      reads this
    {
      roundKeys.Length == 2 * rounds + 4
    }

    constructor (rounds: nat, key: seq<byte>)
      requires 4 <= |key| && |key| % 4 == 0
      ensures Valid() && fresh(roundKeys) && this.rounds == rounds
      ensures roundKeys[..] == KeySchedule(KeyWords(key), rounds)
    {
      this.rounds := rounds;
      roundKeys := new nat[2 * rounds + 4];
      new;
      FillSchedule(roundKeys, rounds, key);
    }

    method Encrypt(text: Block) returns (cipher: Block)
      requires Valid()
      ensures cipher == EncryptBlock(roundKeys[..], rounds, text)
    {
      hide Mix, Scramble;
      ghost var ks, s := roundKeys[..], StateOf(text);
      var a, b, c, d := FromBytes(text[..4]), FromBytes(text[4..8]), FromBytes(text[8..12]), FromBytes(text[12..]);
      b := Add(32, b, roundKeys[0]);
      d := Add(32, d, roundKeys[1]);
      var i := 1;
      while i <= rounds
        invariant 1 <= i <= rounds + 1
        invariant State(a, b, c, d) == EncryptRounds(ks, i - 1, s.(b := Add(32, s.b, ks[0]), d := Add(32, s.d, ks[1])))
      {
        var t := Mix(b);
        var u := Mix(d);
        a := Scramble(a, t, u, roundKeys[2 * i]);
        c := Scramble(c, u, t, roundKeys[2 * i + 1]);
        var tmp := a;
        a := b;
        b := c;
        c := d;
        d := tmp;
        i := i + 1;
      }
      a := Add(32, a, roundKeys[2 * rounds + 2]);
      c := Add(32, c, roundKeys[2 * rounds + 3]);
      cipher := ToBytes(a, 4) + ToBytes(b, 4) + ToBytes(c, 4) + ToBytes(d, 4);
    }

    method Decrypt(text: Block) returns (plain: Block)
      requires Valid()
      ensures plain == DecryptBlock(roundKeys[..], rounds, text)
    {
      hide Mix, Unscramble;
      ghost var ks, s := roundKeys[..], StateOf(text);
      var a, b, c, d := FromBytes(text[..4]), FromBytes(text[4..8]), FromBytes(text[8..12]), FromBytes(text[12..]);
      c := Sub(32, c, roundKeys[2 * rounds + 3]);
      a := Sub(32, a, roundKeys[2 * rounds + 2]);
      ghost var start := State(a, b, c, d);
      var i := rounds;
      while i >= 1
        invariant 0 <= i <= rounds
        invariant DecryptRounds(ks, i, State(a, b, c, d)) == DecryptRounds(ks, rounds, start)
      {
        var tmp := a;
        a := d;
        d := c;
        c := b;
        b := tmp;
        var u := Mix(d);
        var t := Mix(b);
        c := Unscramble(c, u, t, roundKeys[2 * i + 1]);
        a := Unscramble(a, t, u, roundKeys[2 * i]);
        i := i - 1;
      }
      d := Sub(32, d, roundKeys[1]);
      b := Sub(32, b, roundKeys[0]);
      plain := ToBytes(a, 4) + ToBytes(b, 4) + ToBytes(c, 4) + ToBytes(d, 4);
    }
  }

  method FillSchedule(keys: array<nat>, rounds: nat, key: seq<byte>)
    requires 4 <= |key| && |key| % 4 == 0 && keys.Length == 2 * rounds + 4
    modifies keys
    ensures keys[..] == KeySchedule(KeyWords(key), rounds)
  {
    hide MixSteps, InitialKey;
    var tmpKey := new nat[|key| / 4](i requires 0 <= i < |key| / 4 => FromBytes(key[4 * i..4 * i + 4]));
    assert tmpKey[..] == KeyWords(key);
    FillInitial(keys);
    var t := 2 * rounds + 4;
    assert keys[..] == seq(t, i requires 0 <= i < t => InitialKey(i));
    MixKeys(keys, tmpKey);
  }

  method FillInitial(keys: array<nat>)
    requires 0 < keys.Length
    modifies keys
    ensures forall k :: 0 <= k < keys.Length ==> keys[k] == InitialKey(k)
  {
    keys[0] := P32;
    var i := 1;
    while i != keys.Length
      invariant 1 <= i <= keys.Length
      invariant forall k :: 0 <= k < i ==> keys[k] == InitialKey(k)
    {
      keys[i] := Add(32, keys[i - 1], Q32);
      i := i + 1;
    }
  }

  /** The mixing loop, with its two running indices. */
  method MixKeys(keys: array<nat>, words: array<nat>)
    requires 0 < keys.Length && 0 < words.Length && keys != words
    modifies keys, words
    ensures keys[..] == MixSteps(Mixing(old(keys[..]), old(words[..]), 0, 0), 3 * Max(words.Length, keys.Length)).keys
  {
    hide MixStep;
    ghost var start := Mixing(keys[..], words[..], 0, 0);
    var a, b, i, j := 0, 0, 0, 0;
    var v := 3 * Max(words.Length, keys.Length);
    var s := 1;
    while s <= v
      invariant 1 <= s <= v + 1
      invariant i == (s - 1) % keys.Length && j == (s - 1) % words.Length
      invariant Mixing(keys[..], words[..], a, b) == MixSteps(start, s - 1)
    {
      NextIndex(s - 1, keys.Length);
      NextIndex(s - 1, words.Length);
      a, b := MixOnce(keys, words, i, j, a, b, s - 1);
      i := (i + 1) % keys.Length;
      j := (j + 1) % words.Length;
      s := s + 1;
    }
  }

  method MixOnce(keys: array<nat>, words: array<nat>, i: nat, j: nat, a0: nat, b0: nat, ghost n: nat)
    returns (a: nat, b: nat)
    requires 0 < keys.Length && 0 < words.Length && keys != words
    requires i == n % keys.Length && j == n % words.Length
    modifies keys, words
    ensures Mixing(keys[..], words[..], a, b) == MixStep(Mixing(old(keys[..]), old(words[..]), a0, b0), n)
  {
    a := Rotl(32, Add(32, Add(32, keys[i], a0), b0), 3);
    keys[i] := a;
    b := Rotl(32, Add(32, Add(32, words[j], a), b0), Add(32, a, b0) % (SHIFT_MASK + 1));
    words[j] := b;
    assert keys[..] == old(keys[..])[i := a];
    assert words[..] == old(words[..])[j := b];
  }

  lemma NextIndex(n: nat, m: nat)
    requires 0 < m
    ensures (n % m + 1) % m == (n + 1) % m
  {
    ModMultiple(n % m + 1, n / m, m);
    assert n + 1 == n % m + 1 + n / m * m;
  }

  /** Two instances built from one key undo each other on every block, in both directions. */
  method KeyRoundTrip(rounds: nat, key: seq<byte>, text: Block) returns (decrypted: Block, encrypted: Block)
    requires 4 <= |key| && |key| % 4 == 0
    ensures decrypted == text && encrypted == text
  {
    var enc := new Rc6(rounds, key);
    var dec := new Rc6(rounds, key);
    BlocksRoundTrip(enc.roundKeys[..], rounds, text);
    var cipher := enc.Encrypt(text);
    decrypted := dec.Decrypt(cipher);
    var plain := dec.Decrypt(text);
    encrypted := enc.Encrypt(plain);
  }
}
