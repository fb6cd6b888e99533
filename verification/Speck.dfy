/** Speck with 128-bit blocks: the round pair, the key-schedule register, and encryption undone by decryption. */
module Speck {
  import opened Basics
  import opened NatMath
  import opened Words
  import opened Blocks

  predicate IsWord(x: nat)
  {
    x < Size(64)
  }

  function Round(x: nat, y: nat, k: nat): (nat, nat)
  {
    var a := BitXor(Add(64, Rotr(64, x, 8), y), k);
    (a, BitXor(Rotl(64, y, 3), a))
  }

  /** The round in plain arithmetic: x is rotated right by 8 bits, y left by 3. */
  lemma RoundEquations(x: nat, y: nat, k: nat)
    requires IsWord(x) && IsWord(y)
    ensures var (a, b) := Round(x, y, k);
            && a == BitXor((x % 0x100 * 0x100_0000_0000_0000 + x / 0x100 + y) % 0x1_0000_0000_0000_0000, k)
            && b == BitXor(y % 0x2000_0000_0000_0000 * 8 + y / 0x2000_0000_0000_0000, a)
  {
    PowersOfTwo();
    hide Pow, Rotl, Rotr, BitXor;
    RotrIs(64, x, 8, 0x100, 0x100_0000_0000_0000);
    RotlIs(64, y, 3, 8, 0x2000_0000_0000_0000);
    WordSizes();
    hide Size;
  }

  function Back(x: nat, y: nat, k: nat): (nat, nat)
  {
    var b := Rotr(64, BitXor(y, x), 3);
    (Rotl(64, Sub(64, BitXor(x, k), b), 8), b)
  }

  lemma RoundIsWords(x: nat, y: nat, k: nat)
    requires IsWord(x) && IsWord(y) && IsWord(k)
    ensures IsWord(Round(x, y, k).0) && IsWord(Round(x, y, k).1)
    ensures IsWord(Back(x, y, k).0) && IsWord(Back(x, y, k).1)
  {
    XorBound(64, Add(64, Rotr(64, x, 8), y), k);
    RotlParts(64, y, 3);
    XorBound(64, Rotl(64, y, 3), Round(x, y, k).0);
    XorBound(64, y, x);
    RotrParts(64, BitXor(y, x), 3);
    XorBound(64, x, k);
    RotlParts(64, Sub(64, BitXor(x, k), Back(x, y, k).1), 8);
  }

  lemma BackUndoesRound(x: nat, y: nat, k: nat)
    requires IsWord(x) && IsWord(y) && IsWord(k)
    ensures var (a, b) := Round(x, y, k); Back(a, b, k) == (x, y)
  {
    var (a, b) := Round(x, y, k);
    XorCancels(Rotl(64, y, 3), a);
    RotationsCancel(64, y, 3);
    XorCancels(Add(64, Rotr(64, x, 8), y), k);
    RotrParts(64, x, 8);
    AddSubCancel(64, Rotr(64, x, 8), y);
    RotationsCancel(64, x, 8);
  }

  lemma RoundUndoesBack(x: nat, y: nat, k: nat)
    requires IsWord(x) && IsWord(y) && IsWord(k)
    ensures var (a, b) := Back(x, y, k); Round(a, b, k) == (x, y)
  {
    var (a, b) := Back(x, y, k);
    XorBound(64, y, x);
    XorBound(64, x, k);
    RotationsCancel(64, Sub(64, BitXor(x, k), b), 8);
    AddSubCancel(64, BitXor(x, k), b);
    XorCancels(x, k);
    RotationsCancel(64, BitXor(y, x), 3);
    XorCancels(y, x);
  }

  // ---- any number of rounds ----

  predicate AreWords(ks: seq<nat>)
  {
    forall i :: 0 <= i < |ks| ==> IsWord(ks[i])
  }

  /** The first n rounds. */
  function EncryptWords(ks: seq<nat>, n: nat, x: nat, y: nat): (nat, nat)
    requires n <= |ks|
  {
    if n == 0 then (x, y)
    else
      var (a, b) := EncryptWords(ks, n - 1, x, y);
      Round(a, b, ks[n - 1])
  }

  /** The last rounds backwards, down from round n. */
  function DecryptWords(ks: seq<nat>, n: nat, x: nat, y: nat): (nat, nat)
    requires n <= |ks|
  {
    if n == 0 then (x, y)
    else
      var (a, b) := Back(x, y, ks[n - 1]);
      DecryptWords(ks, n - 1, a, b)
  }

  lemma {:induction false} EncryptIsWords(ks: seq<nat>, n: nat, x: nat, y: nat)
    requires n <= |ks| && AreWords(ks) && IsWord(x) && IsWord(y)
    ensures IsWord(EncryptWords(ks, n, x, y).0) && IsWord(EncryptWords(ks, n, x, y).1)
  {
    if n != 0 {
      EncryptIsWords(ks, n - 1, x, y);
      var (a, b) := EncryptWords(ks, n - 1, x, y);
      RoundIsWords(a, b, ks[n - 1]);
    }
  }

  lemma {:induction false} DecryptUndoesEncrypt(ks: seq<nat>, n: nat, x: nat, y: nat)
    requires n <= |ks| && AreWords(ks) && IsWord(x) && IsWord(y)
    ensures var (a, b) := EncryptWords(ks, n, x, y); DecryptWords(ks, n, a, b) == (x, y)
  {
    if n != 0 {
      EncryptIsWords(ks, n - 1, x, y);
      var (a, b) := EncryptWords(ks, n - 1, x, y);
      BackUndoesRound(a, b, ks[n - 1]);
      DecryptUndoesEncrypt(ks, n - 1, x, y);
    }
  }

  lemma {:induction false} EncryptUndoesDecrypt(ks: seq<nat>, n: nat, x: nat, y: nat)
    requires n <= |ks| && AreWords(ks) && IsWord(x) && IsWord(y)
    ensures var (a, b) := DecryptWords(ks, n, x, y);
            IsWord(a) && IsWord(b) && EncryptWords(ks, n, a, b) == (x, y)
  {
    if n != 0 {
      var (a, b) := Back(x, y, ks[n - 1]);
      RoundIsWords(x, y, ks[n - 1]);
      EncryptUndoesDecrypt(ks, n - 1, a, b);
      RoundUndoesBack(x, y, ks[n - 1]);
    }
  }

  // ---- blocks ----

  function BlockOf(x: nat, y: nat): Block
  {
    ToBytes(y, 8) + ToBytes(x, 8)
  }

  function EncryptBlock(ks: seq<nat>, rounds: nat, b: Block): Block
    requires rounds <= |ks|
  {
    var (x, y) := EncryptWords(ks, rounds, FromBytes(b[8..]), FromBytes(b[..8]));
    BlockOf(x, y)
  }

  function DecryptBlock(ks: seq<nat>, rounds: nat, b: Block): Block
    requires rounds <= |ks|
  {
    var (x, y) := DecryptWords(ks, rounds, FromBytes(b[8..]), FromBytes(b[..8]));
    BlockOf(x, y)
  }

  /**
   Encryption, state by state: the second half of the block is x_0 and the first y_0, as little-endian words; round i
   turns one pair into the next with round key i; the last pair is stored the same way round.
   */
  lemma EncryptionEquations(ks: seq<nat>, rounds: nat, b: Block) returns (xy: seq<(nat, nat)>)
    requires rounds <= |ks|
    ensures |xy| == rounds + 1 && xy[0] == (FromBytes(b[8..]), FromBytes(b[..8]))
    ensures forall i :: 0 <= i < rounds ==> xy[i + 1] == Round(xy[i].0, xy[i].1, ks[i])
    ensures EncryptBlock(ks, rounds, b) == ToBytes(xy[rounds].1, 8) + ToBytes(xy[rounds].0, 8)
  {
    hide Round, ToBytes, FromBytes;
    var x, y := FromBytes(b[8..]), FromBytes(b[..8]);
    xy := seq(rounds + 1, i requires 0 <= i <= rounds => EncryptWords(ks, i, x, y));
  }

  lemma BlockWords(x: nat, y: nat)
    requires IsWord(x) && IsWord(y)
    ensures FromBytes(BlockOf(x, y)[8..]) == x && FromBytes(BlockOf(x, y)[..8]) == y
  {
    BytesRoundTrip(x, 8);
    BytesRoundTrip(y, 8);
    assert BlockOf(x, y)[8..] == ToBytes(x, 8) && BlockOf(x, y)[..8] == ToBytes(y, 8);
  }

  lemma WordsBlock(b: Block)
    ensures IsWord(FromBytes(b[8..])) && IsWord(FromBytes(b[..8]))
    ensures BlockOf(FromBytes(b[8..]), FromBytes(b[..8])) == b
  {
    FromBytesRoundTrip(b[8..]);
    FromBytesRoundTrip(b[..8]);
    assert b == b[..8] + b[8..];
  }

  /** For every key schedule, round count and block, each direction undoes the other. */
  lemma BlocksRoundTrip(ks: seq<nat>, rounds: nat, b: Block)
    requires rounds <= |ks| && AreWords(ks)
    ensures DecryptBlock(ks, rounds, EncryptBlock(ks, rounds, b)) == b
    ensures EncryptBlock(ks, rounds, DecryptBlock(ks, rounds, b)) == b
  {
    var x, y := FromBytes(b[8..]), FromBytes(b[..8]);
    WordsBlock(b);
    EncryptIsWords(ks, rounds, x, y);
    DecryptUndoesEncrypt(ks, rounds, x, y);
    var (a, c) := EncryptWords(ks, rounds, x, y);
    BlockWords(a, c);
    EncryptUndoesDecrypt(ks, rounds, x, y);
    var (d, e) := DecryptWords(ks, rounds, x, y);
    BlockWords(d, e);
  }

  // ---- the key schedule of section 4.2 of the SIMON and SPECK paper ----

  /** l_j for a key of m words, given as k_0 followed by l_0 to l_(m-2). */
  function KeyL(key: seq<nat>, j: nat): nat
    requires |key| >= 2
    decreases if j < |key| - 1 then 0 else 2 * (j - (|key| - 1)) + 1
  {
    if j < |key| - 1 then key[j + 1]
    else
      var i := j - (|key| - 1);
      BitXor(Add(64, KeyK(key, i), Rotr(64, KeyL(key, i), 8)), i)
  }

  /** k_i: the round key of round i. */
  function KeyK(key: seq<nat>, i: nat): nat
    requires |key| >= 2
    decreases 2 * i
  {
    if i == 0 then key[0] else BitXor(Rotl(64, KeyK(key, i - 1), 3), KeyL(key, i - 1 + (|key| - 1)))
  }

  /** One turn of the register: a round of the cipher keyed by the round number produces l_(i+m-1) and k_(i+1). */
  lemma RegisterTurn(key: seq<nat>, i: nat)
    requires |key| >= 2
    ensures Round(KeyL(key, i), KeyK(key, i), i) == (KeyL(key, i + (|key| - 1)), KeyK(key, i + 1))
  {
    assert KeyL(key, i + (|key| - 1)) == BitXor(Add(64, KeyK(key, i), Rotr(64, KeyL(key, i), 8)), i);
  }

  /** The recurrence in plain arithmetic, from the words of the key on. */
  lemma KeyEquations(key: seq<nat>, i: nat)
    requires |key| >= 2 && AreWords(key) && i < Size(64)
    ensures KeyK(key, 0) == key[0] && forall j :: 0 <= j < |key| - 1 ==> KeyL(key, j) == key[j + 1]
    ensures var m, k, l := |key|, KeyK(key, i), KeyL(key, i);
            && KeyL(key, i + m - 1)
               == BitXor((l % 0x100 * 0x100_0000_0000_0000 + l / 0x100 + k) % 0x1_0000_0000_0000_0000, i)
            && KeyK(key, i + 1) == BitXor(k % 0x2000_0000_0000_0000 * 8 + k / 0x2000_0000_0000_0000, KeyL(key, i + m - 1))
  {
    hide KeyK, KeyL;
    FirstKeys(key);
    KeysAreWords(key, i);
    RegisterTurn(key, i);
    RoundEquations(KeyL(key, i), KeyK(key, i), i);
    hide BitXor, Round;
  }

  lemma FirstKeys(key: seq<nat>)
    requires |key| >= 2
    ensures KeyK(key, 0) == key[0] && forall j :: 0 <= j < |key| - 1 ==> KeyL(key, j) == key[j + 1]
  {
  }

  lemma {:induction false} KeysAreWords(key: seq<nat>, i: nat)
    requires |key| >= 2 && AreWords(key) && i < Size(64)
    ensures IsWord(KeyK(key, i))
    ensures forall j :: i <= j < i + (|key| - 1) ==> IsWord(KeyL(key, j))
  {
    hide Round, KeyK, KeyL, IsWord;
    if i == 0 {
      FirstKeysAreWords(key);
    } else {
      KeysAreWords(key, i - 1);
      RegisterTurn(key, i - 1);
      RoundIsWords(KeyL(key, i - 1), KeyK(key, i - 1), i - 1) by { RoundNumberIsWord(i - 1); }
    }
  }

  lemma RoundNumberIsWord(i: nat)
    requires i < Size(64)
    ensures IsWord(i)
  {
  }

  lemma FirstKeysAreWords(key: seq<nat>)
    requires |key| >= 2 && AreWords(key)
    ensures IsWord(KeyK(key, 0))
    ensures forall j :: 0 <= j < |key| - 1 ==> IsWord(KeyL(key, j))
  {
    FirstKeys(key);
  }

  class Speck {
    const rounds: nat
    const keySchedule: array<nat>

    ghost predicate Valid()
      reads this, keySchedule
    {
      1 <= rounds && keySchedule.Length == rounds + 1 && AreWords(keySchedule[..])
    }

    constructor (rounds: nat, key: seq<byte>)
      requires 1 <= rounds < Size(64) && |key| in {16, 24, 32}
      ensures Valid() && fresh(keySchedule) && this.rounds == rounds
      ensures forall i :: 0 <= i < rounds ==> keySchedule[i] == KeyK(KeyWords(key), i)
      ensures keySchedule[rounds] == 0
    {
      this.rounds := rounds;
      keySchedule := new nat[rounds + 1](_ => 0);
      new;
      FillSchedule(keySchedule, rounds, key);
      KeyWordsAreWords(key);
      forall j | 0 <= j < rounds ensures IsWord(keySchedule[j]) {
        KeysAreWords(KeyWords(key), j);
      }
    }

    method Encrypt(text: Block) returns (cipher: Block)
      requires Valid()
      ensures cipher == EncryptBlock(keySchedule[..], rounds, text)
    {
      hide Round, ToBytes, FromBytes;
      var c0, c1 := FromBytes(text[..8]), FromBytes(text[8..]);
      var i := 0;
      while i != rounds
        invariant 0 <= i <= rounds
        invariant (c1, c0) == EncryptWords(keySchedule[..], i, FromBytes(text[8..]), FromBytes(text[..8]))
      {
        var (a, b) := Round(c1, c0, keySchedule[i]);
        c1, c0 := a, b;
        i := i + 1;
      }
      cipher := ToBytes(c0, 8) + ToBytes(c1, 8);
    }

    method Decrypt(text: Block) returns (plain: Block)
      requires Valid()
      ensures plain == DecryptBlock(keySchedule[..], rounds, text)
    {
      hide Back, ToBytes, FromBytes;
      var p0, p1 := FromBytes(text[..8]), FromBytes(text[8..]);
      var i := rounds;
      while i != 0
        invariant 0 <= i <= rounds
        invariant DecryptWords(keySchedule[..], i, p1, p0)
               == DecryptWords(keySchedule[..], rounds, FromBytes(text[8..]), FromBytes(text[..8]))
      {
        i := i - 1;
        var (a, b) := Back(p1, p0, keySchedule[i]);
        p1, p0 := a, b;
      }
      plain := ToBytes(p0, 8) + ToBytes(p1, 8);
    }
  }

  /** The schedule is filled from a register of two, three or four words that is rotated once per round. */
  method FillSchedule(schedule: array<nat>, rounds: nat, key: seq<byte>)
    requires 1 <= rounds < Size(64) && |key| in {16, 24, 32}
    requires schedule.Length == rounds + 1 && schedule[rounds] == 0
    modifies schedule
    ensures schedule[rounds] == 0
    ensures forall i :: 0 <= i < rounds ==> schedule[i] == KeyK(KeyWords(key), i)
  {
    var subkeys := LoadRegister(key);
    InitialRegister(KeyWords(key));
    RunRegister(schedule, subkeys, KeyWords(key), rounds);
  }

  method RunRegister(schedule: array<nat>, subkeys: array<nat>, ghost key: seq<nat>, rounds: nat)
    requires 1 <= rounds < schedule.Length && schedule != subkeys
    requires 2 <= subkeys.Length <= 4 && RegisterHolds(subkeys[..], key, 0)
    modifies schedule, subkeys
    ensures forall j :: 0 <= j < rounds ==> schedule[j] == KeyK(key, j)
    ensures forall j :: rounds <= j < schedule.Length ==> schedule[j] == old(schedule[j])
  {
    hide KeyL, KeyK;
    schedule[0] := subkeys[0];
    var i := 0;
    while i != rounds - 1
      invariant 0 <= i <= rounds - 1
      invariant RegisterHolds(subkeys[..], key, i)
      invariant forall j :: 0 <= j <= i ==> schedule[j] == KeyK(key, j)
      invariant forall j :: rounds <= j < schedule.Length ==> schedule[j] == old(schedule[j])
    {
      TurnRegister(subkeys, key, i);
      schedule[i + 1] := subkeys[0];
      i := i + 1;
    }
  }

  method LoadRegister(key: seq<byte>) returns (subkeys: array<nat>)
    requires |key| in {16, 24, 32}
    ensures fresh(subkeys) && subkeys[..] == KeyWords(key)
  {
    subkeys := new nat[|key| / 8](i requires 0 <= i < |key| / 8 => FromBytes(key[8 * i..8 * i + 8]));
  }

  lemma InitialRegister(key: seq<nat>)
    requires |key| >= 2
    ensures RegisterHolds(key, key, 0)
  {
  }

  /** The register holds k_i and the m - 1 words of l from l_i on. */
  ghost predicate RegisterHolds(subkeys: seq<nat>, key: seq<nat>, i: nat)
  {
    && |subkeys| == |key| >= 2
    && subkeys[0] == KeyK(key, i)
    && forall t :: 1 <= t < |key| ==> subkeys[t] == KeyL(key, i + t - 1)
  }

  method TurnRegister(subkeys: array<nat>, ghost key: seq<nat>, i: nat)
    requires 2 <= subkeys.Length <= 4 && RegisterHolds(subkeys[..], key, i)
    modifies subkeys
    ensures RegisterHolds(subkeys[..], key, i + 1)
  {
    RegisterTurn(key, i);
    hide Round, KeyK, KeyL, RegisterHolds;
    var (a, b) := Round(subkeys[1], subkeys[0], i);
    ShiftRegister(subkeys[..], key, i);
    if subkeys.Length == 4 {
      subkeys[0] := b;
      subkeys[1] := subkeys[2];
      subkeys[2] := subkeys[3];
      subkeys[3] := a;
    } else if subkeys.Length == 3 {
      subkeys[0] := b;
      subkeys[1] := subkeys[2];
      subkeys[2] := a;
    } else {
      subkeys[0] := b;
      subkeys[1] := a;
    }
    assert subkeys[..] == [b] + old(subkeys[..])[2..] + [a];
  }

  lemma ShiftRegister(s: seq<nat>, key: seq<nat>, i: nat)
    requires RegisterHolds(s, key, i)
    ensures var (a, b) := Round(s[1], s[0], i); RegisterHolds([b] + s[2..] + [a], key, i + 1)
  {
    RegisterTurn(key, i);
    hide Round, KeyK, KeyL;
    assert s[1] == KeyL(key, i + 1 - 1);
    var (a, b) := Round(s[1], s[0], i);
    var r := [b] + s[2..] + [a];
    forall t | 1 <= t < |key| ensures r[t] == KeyL(key, i + 1 + t - 1) {
      if t < |key| - 1 {
        assert r[t] == s[t + 1] == KeyL(key, i + (t + 1) - 1);
      }
    }
  }

  /** The key bytes read as 64-bit words. */
  function KeyWords(key: seq<byte>): (words: seq<nat>)
    requires |key| in {16, 24, 32}
    ensures |words| == |key| / 8
  {
    seq(|key| / 8, i requires 0 <= i < |key| / 8 => FromBytes(key[8 * i..8 * i + 8]))
  }

  /** Word i of the key, byte by byte. */
  lemma KeyWordIs(key: seq<byte>, i: nat)
    requires |key| in {16, 24, 32} && i < |key| / 8
    ensures KeyWords(key)[i]
         == key[8 * i] as nat + key[8 * i + 1] as nat * 0x100
            + key[8 * i + 2] as nat * 0x1_0000 + key[8 * i + 3] as nat * 0x100_0000
            + key[8 * i + 4] as nat * 0x1_0000_0000 + key[8 * i + 5] as nat * 0x100_0000_0000
            + key[8 * i + 6] as nat * 0x1_0000_0000_0000 + key[8 * i + 7] as nat * 0x100_0000_0000_0000
  {
    hide FromBytes;
    EightBytes(key[8 * i..8 * i + 8]);
  }

  lemma KeyWordsAreWords(key: seq<byte>)
    requires |key| in {16, 24, 32}
    ensures AreWords(KeyWords(key))
  {
    forall i | 0 <= i < |key| / 8 ensures IsWord(KeyWords(key)[i]) {
      FromBytesRoundTrip(key[8 * i..8 * i + 8]);
    }
  }

  /** Two instances built from one key undo each other on every block, in both directions. */
  method KeyRoundTrip(rounds: nat, key: seq<byte>, text: Block) returns (decrypted: Block, encrypted: Block)
    requires 1 <= rounds < Size(64) && |key| in {16, 24, 32}
    ensures decrypted == text && encrypted == text
  {
    var enc := new Speck(rounds, key);
    var dec := new Speck(rounds, key);
    assert enc.keySchedule[..] == dec.keySchedule[..];
    BlocksRoundTrip(enc.keySchedule[..], rounds, text);
    var cipher := enc.Encrypt(text);
    decrypted := dec.Decrypt(cipher);
    var plain := dec.Decrypt(text);
    encrypted := enc.Encrypt(plain);
  }
}
