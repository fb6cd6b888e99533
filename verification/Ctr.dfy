/** Counter mode over any 16-byte block cipher: an 8-byte nonce followed by a 64-bit counter kept in the block. */
module Ctr {
  import opened Basics
  import opened NatMath
  import opened Words
  import opened Blocks

  const COUNTERS: nat := 0x1_0000_0000_0000_0000

  type Nonce = s: seq<byte> | |s| == 8 witness [0, 0, 0, 0, 0, 0, 0, 0]

  function Reverse(s: seq<byte>): (r: seq<byte>)
    ensures |r| == |s| && forall i :: 0 <= i < |s| ==> r[i] == s[|s| - 1 - i]
  {
    seq(|s|, i requires 0 <= i < |s| => s[|s| - 1 - i])
  }

  /** byte_swap on a 64-bit number. */
  function ByteSwap(v: nat): (r: nat)
    ensures r < COUNTERS
  {
    FromBytesRoundTrip(Reverse(ToBytes(v, 8)));
    SixtyFour();
    FromBytes(Reverse(ToBytes(v, 8)))
  }

  lemma SixtyFour()
    ensures Size(64) == COUNTERS
  {
    WordSizes();
  }

  /** The big-endian bytes of v are the little-endian bytes of its swap. */
  lemma SwappedBytes(v: nat)
    ensures ToBytes(ByteSwap(v), 8) == Reverse(ToBytes(v, 8))
  {
    FromBytesRoundTrip(Reverse(ToBytes(v, 8)));
  }

  lemma SwapTwice(v: nat)
    requires v < COUNTERS
    ensures ByteSwap(ByteSwap(v)) == v
  {
    SixtyFour();
    SwappedBytes(v);
    assert Reverse(Reverse(ToBytes(v, 8))) == ToBytes(v, 8);
    BytesRoundTrip(v, 8);
  }

  /** The counter field of the block, read by memcpy. */
  function Stored(block: Block): (c: nat)
    ensures c < COUNTERS
  {
    FromBytesRoundTrip(block[8..]);
    SixtyFour();
    FromBytes(block[8..])
  }

  /** The block with v copied into the counter field. */
  function WithCounter(block: Block, v: nat): Block
  {
    block[..8] + ToBytes(v, 8)
  }

  /** What the cipher is applied to. In big-endian mode the stored counter is swapped first. */
  function CipherInput(bigEndian: bool, block: Block): Block
  {
    if bigEndian then WithCounter(block, ByteSwap(Stored(block))) else block
  }

  /** One call: the text that replaces the block, and the next nonce block. */
  function Step(bigEndian: bool, cipher: Block -> Block, block: Block, text: Block): (Block, Block)
  {
    (XorBlock(text, cipher(CipherInput(bigEndian, block))), Next(block))
  }

  function Next(block: Block): Block
  {
    WithCounter(block, (Stored(block) + 1) % COUNTERS)
  }

  /** The nonce block that the constructor with a start counter sets up. */
  function StartBlock(bigEndian: bool, nonce: Nonce, start: nat): Block
  {
    nonce + ToBytes(if bigEndian then ByteSwap(start) else start, 8)
  }

  class Ctr {
    const bigEndian: bool
    const cipher: Block -> Block
    const nonceBlock: array<byte>

    /** The counter starts at zero. */
    constructor (bigEndian: bool, cipher: Block -> Block, nonce: Nonce)
      ensures this.bigEndian == bigEndian && this.cipher == cipher
      ensures fresh(nonceBlock) && nonceBlock[..] == nonce + [0, 0, 0, 0, 0, 0, 0, 0]
    {
      this.bigEndian := bigEndian;
      this.cipher := cipher;
      nonceBlock := new byte[16](i requires 0 <= i < 16 => if i < 8 then nonce[i] else 0);
    }

    constructor WithStart(bigEndian: bool, cipher: Block -> Block, nonce: Nonce, start: nat)
      requires start < COUNTERS
      ensures this.bigEndian == bigEndian && this.cipher == cipher
      ensures fresh(nonceBlock) && nonceBlock[..] == StartBlock(bigEndian, nonce, start)
    {
      this.bigEndian := bigEndian;
      this.cipher := cipher;
      var v := if bigEndian then ByteSwap(start) else start;
      var bytes := ToBytes(v, 8);
      nonceBlock := new byte[16](i requires 0 <= i < 16 => if i < 8 then nonce[i] else bytes[i - 8]);
    }

    method Process(text: array<byte>)
      requires text.Length == 16 && nonceBlock.Length == 16 && text != nonceBlock
      modifies text, nonceBlock
      ensures (text[..], nonceBlock[..]) == Step(bigEndian, cipher, old(nonceBlock[..]), old(text[..]))
    {
      ghost var block := nonceBlock[..];
      var counter := FromBytes(nonceBlock[8..]);
      if bigEndian {
        var v := ByteSwap(counter);
        CopyBlock(nonceBlock[..8] + ToBytes(v, 8), nonceBlock);
      }
      assert nonceBlock[..8] == block[..8];
      var res := new byte[16];
      CopyBlock(cipher(nonceBlock[..]), res);
      XorAssign(text, res);
      counter := (counter + 1) % COUNTERS;
      CopyBlock(nonceBlock[..8] + ToBytes(counter, 8), nonceBlock);
    }
  }

  // ---- runs ----

  function Run(bigEndian: bool, cipher: Block -> Block, block: Block, texts: seq<Block>): (seq<Block>, Block)
    decreases |texts|
  {
    if texts == [] then ([], block)
    else
      var (out, next) := Step(bigEndian, cipher, block, texts[0]);
      var (rest, last) := Run(bigEndian, cipher, next, texts[1..]);
      ([out] + rest, last)
  }

  /** Two instances with equal initial state, applied in turn, give back any block sequence. */
  lemma {:induction false} RunTwice(bigEndian: bool, cipher: Block -> Block, block: Block, texts: seq<Block>)
    ensures var (out, last) := Run(bigEndian, cipher, block, texts);
            Run(bigEndian, cipher, block, out) == (texts, last)
    decreases |texts|
  {
    if texts != [] {
      var (out, next) := Step(bigEndian, cipher, block, texts[0]);
      XorBlockCancels(texts[0], cipher(CipherInput(bigEndian, block)));
      RunTwice(bigEndian, cipher, next, texts[1..]);
      var (rest, last) := Run(bigEndian, cipher, next, texts[1..]);
      assert ([out] + rest)[1..] == rest;
      assert [texts[0]] + texts[1..] == texts;
    }
  }

  /** Two instances in step: the second returns what the first was given, and both keep the same nonce block. */
  method Exchange(first: Ctr, second: Ctr, texts: seq<Block>) returns (ciphers: seq<Block>, plains: seq<Block>)
    requires first.bigEndian == second.bigEndian && first.cipher == second.cipher
    requires first.nonceBlock.Length == 16 && second.nonceBlock.Length == 16 && first.nonceBlock != second.nonceBlock
    requires first.nonceBlock[..] == second.nonceBlock[..]
    modifies first.nonceBlock, second.nonceBlock
    ensures plains == texts && first.nonceBlock[..] == second.nonceBlock[..]
    ensures (ciphers, first.nonceBlock[..]) == Run(first.bigEndian, first.cipher, old(first.nonceBlock[..]), texts)
    decreases |texts|
  {
    hide CipherInput, Next;
    if texts == [] {
      return [], [];
    }
    var block := new byte[16];
    CopyBlock(texts[0], block);
    XorBlockCancels(texts[0], first.cipher(CipherInput(first.bigEndian, first.nonceBlock[..])));
    first.Process(block);
    var cipherText: Block := block[..];
    second.Process(block);
    var plain: Block := block[..];
    var moreCiphers, morePlains := Exchange(first, second, texts[1..]);
    ciphers, plains := [cipherText] + moreCiphers, [plain] + morePlains;
  }

  /** The nonce block after n calls. */
  function BlockAfter(block: Block, n: nat): Block
  {
    if n == 0 then block else Next(BlockAfter(block, n - 1))
  }

  lemma StoredWith(block: Block, v: nat)
    requires v < COUNTERS
    ensures Stored(WithCounter(block, v)) == v
  {
    SixtyFour();
    BytesRoundTrip(v, 8);
    assert WithCounter(block, v)[8..] == ToBytes(v, 8);
  }

  lemma StoredIsWith(block: Block)
    ensures WithCounter(block, Stored(block)) == block
  {
    FromBytesRoundTrip(block[8..]);
    assert block == block[..8] + block[8..];
  }

  lemma WithCounterTwice(block: Block, v: nat, w: nat)
    ensures WithCounter(WithCounter(block, v), w) == WithCounter(block, w)
  {
    assert WithCounter(block, v)[..8] == block[..8];
  }

  lemma CounterArithmetic(s: nat, i: nat, j: nat)
    ensures 0 < i ==> ((s + i - 1) % COUNTERS + 1) % COUNTERS == (s + i) % COUNTERS
    ensures i < j < i + COUNTERS ==> (s + i) % COUNTERS != (s + j) % COUNTERS
    ensures (s + (i + COUNTERS)) % COUNTERS == (s + i) % COUNTERS
    ensures s < COUNTERS ==> (s + 0) % COUNTERS == s
  {
  }

  /** After n calls the nonce is unchanged and the stored counter has grown by n modulo 2^64. */
  lemma {:induction false} CounterAfter(block: Block, n: nat)
    ensures BlockAfter(block, n) == WithCounter(block, (Stored(block) + n) % COUNTERS)
    ensures Stored(BlockAfter(block, n)) == (Stored(block) + n) % COUNTERS
  {
    hide Stored, WithCounter;
    CounterArithmetic(Stored(block), n, n);
    if n == 0 {
      StoredIsWith(block);
    } else {
      CounterAfter(block, n - 1);
      WithCounterTwice(block, (Stored(block) + n - 1) % COUNTERS, (Stored(block) + n) % COUNTERS);
    }
    StoredWith(block, (Stored(block) + n) % COUNTERS);
  }

  /** The cipher input of call n. */
  lemma InputAfter(bigEndian: bool, block: Block, n: nat)
    ensures var c := (Stored(block) + n) % COUNTERS;
            CipherInput(bigEndian, BlockAfter(block, n)) == WithCounter(block, if bigEndian then ByteSwap(c) else c)
  {
    hide Stored, WithCounter, ByteSwap, BlockAfter;
    CounterAfter(block, n);
    var c := (Stored(block) + n) % COUNTERS;
    WithCounterTwice(block, c, ByteSwap(c));
  }

  /** No keystream block is reused within 2^64 consecutive calls, in either byte order. */
  lemma InputsDistinct(bigEndian: bool, block: Block, i: nat, j: nat)
    requires i < j < i + COUNTERS
    ensures CipherInput(bigEndian, BlockAfter(block, i)) != CipherInput(bigEndian, BlockAfter(block, j))
  {
    hide Stored, WithCounter, ByteSwap, BlockAfter, CipherInput;
    var c, d := (Stored(block) + i) % COUNTERS, (Stored(block) + j) % COUNTERS;
    InputAfter(bigEndian, block, i);
    InputAfter(bigEndian, block, j);
    CounterArithmetic(Stored(block), i, j);
    var c', d' := if bigEndian then ByteSwap(c) else c, if bigEndian then ByteSwap(d) else d;
    SwapTwice(c);
    SwapTwice(d);
    StoredWith(block, c');
    StoredWith(block, d');
  }

  /** And after exactly 2^64 calls the inputs repeat. */
  lemma InputsRepeat(bigEndian: bool, block: Block, i: nat)
    ensures CipherInput(bigEndian, BlockAfter(block, i)) == CipherInput(bigEndian, BlockAfter(block, i + COUNTERS))
  {
    hide Stored, WithCounter, ByteSwap, BlockAfter, CipherInput;
    InputAfter(bigEndian, block, i);
    InputAfter(bigEndian, block, i + COUNTERS);
    CounterArithmetic(Stored(block), i, i);
  }

  lemma {:induction false} NextFirst(block: Block, n: nat)
    ensures BlockAfter(Next(block), n) == BlockAfter(block, n + 1)
    decreases n
  {
    hide Next;
    if n != 0 {
      NextFirst(block, n - 1);
    }
  }

  lemma {:induction false} RunCall(bigEndian: bool, cipher: Block -> Block, block: Block, texts: seq<Block>, i: nat)
    requires i < |texts|
    ensures |Run(bigEndian, cipher, block, texts).0| == |texts|
    ensures Run(bigEndian, cipher, block, texts).0[i]
         == XorBlock(texts[i], cipher(CipherInput(bigEndian, BlockAfter(block, i))))
    decreases |texts|
  {
    hide CipherInput, Next, XorBlock;
    RunLength(bigEndian, cipher, block, texts);
    if i != 0 {
      NextFirst(block, i - 1);
      RunCall(bigEndian, cipher, Next(block), texts[1..], i - 1);
    }
  }

  lemma {:induction false} RunLength(bigEndian: bool, cipher: Block -> Block, block: Block, texts: seq<Block>)
    ensures |Run(bigEndian, cipher, block, texts).0| == |texts|
    decreases |texts|
  {
    if texts != [] {
      RunLength(bigEndian, cipher, Next(block), texts[1..]);
    }
  }

  /**
   The equation of counter mode: output i is text i xored with the cipher of the nonce followed by the stored counter plus
   i modulo 2^64, as eight bytes in the byte order of the mode.
   */
  lemma OutputEquations(bigEndian: bool, cipher: Block -> Block, block: Block, texts: seq<Block>, i: nat)
    requires i < |texts|
    ensures |Run(bigEndian, cipher, block, texts).0| == |texts|
    ensures var c := (FromBytes(block[8..]) + i) % 0x1_0000_0000_0000_0000;
            Run(bigEndian, cipher, block, texts).0[i]
            == XorBlock(texts[i], cipher(block[..8] + if bigEndian then Reverse(ToBytes(c, 8)) else ToBytes(c, 8)))
  {
    hide ByteSwap, CipherInput, BlockAfter, XorBlock, Reverse, ToBytes, FromBytes, Run;
    RunCall(bigEndian, cipher, block, texts, i);
    InputAfter(bigEndian, block, i);
    SwappedBytes((FromBytes(block[8..]) + i) % 0x1_0000_0000_0000_0000);
  }

  /** Byte k of a number in big-endian order. */
  lemma BigEndianByte(v: nat, k: nat)
    requires k < 8
    ensures 0 < Pow(256, 7 - k) && Reverse(ToBytes(v, 8))[k] == v / Pow(256, 7 - k) % 256
  {
    ByteIs(v, 8, 7 - k);
  }

  // ---- where counting starts ----

  /** The counter field that call n should present: start + n in the byte order of the mode. */
  function Intended(bigEndian: bool, nonce: Nonce, start: nat, n: nat): Block
  {
    var c := (start + n) % COUNTERS;
    nonce + if bigEndian then Reverse(ToBytes(c, 8)) else ToBytes(c, 8)
  }

  lemma StoredAtStart(bigEndian: bool, nonce: Nonce, start: nat)
    requires start < COUNTERS
    ensures var b := StartBlock(bigEndian, nonce, start);
            b[..8] == nonce && Stored(b) == if bigEndian then ByteSwap(start) else start
  {
    var b := StartBlock(bigEndian, nonce, start);
    SixtyFour();
    BytesRoundTrip(if bigEndian then ByteSwap(start) else start, 8);
    assert b[8..] == ToBytes(if bigEndian then ByteSwap(start) else start, 8);
  }

  /** In little-endian mode call n presents start + n. */
  lemma LittleEndianCounts(nonce: Nonce, start: nat, n: nat)
    requires start < COUNTERS
    ensures CipherInput(false, BlockAfter(StartBlock(false, nonce, start), n)) == Intended(false, nonce, start, n)
  {
    StoredAtStart(false, nonce, start);
    InputAfter(false, StartBlock(false, nonce, start), n);
  }

  /** From a start counter on, in little-endian mode: output i comes from the nonce followed by start + i. */
  lemma LittleEndianOutput(cipher: Block -> Block, nonce: Nonce, start: nat, texts: seq<Block>, i: nat)
    requires start < 0x1_0000_0000_0000_0000 && i < |texts|
    ensures |Run(false, cipher, StartBlock(false, nonce, start), texts).0| == |texts|
    ensures Run(false, cipher, StartBlock(false, nonce, start), texts).0[i]
         == XorBlock(texts[i], cipher(nonce + ToBytes((start + i) % 0x1_0000_0000_0000_0000, 8)))
  {
    hide XorBlock, ToBytes, FromBytes, Run, StartBlock;
    StoredAtStart(false, nonce, start);
    OutputEquations(false, cipher, StartBlock(false, nonce, start), texts, i);
  }

  /**
   In big-endian mode the constructor stores the start counter already swapped, and every call swaps the stored counter
   again before the cipher sees it. So a call presents start + n in big-endian order if and only if the start counter
   reads the same in both byte orders (as zero does), whatever n is.
   */
  lemma BigEndianCountsIff(nonce: Nonce, start: nat, n: nat)
    requires start < COUNTERS
    ensures CipherInput(true, BlockAfter(StartBlock(true, nonce, start), n)) == Intended(true, nonce, start, n)
            <==> ByteSwap(start) == start
  {
    hide Stored, ByteSwap, BlockAfter, CipherInput, StartBlock, Intended;
    BigEndianCall(nonce, start, n);
    var c, d := (ByteSwap(start) + n) % COUNTERS, (start + n) % COUNTERS;
    SwapTwice(c);
    SwapTwice(d);
    if ByteSwap(start) != start {
      ShiftedCountersDiffer(ByteSwap(start), start, n);
      DifferentFields(nonce, ByteSwap(c), ByteSwap(d));
    }
  }

  lemma ShiftedCountersDiffer(a: nat, b: nat, n: nat)
    requires a < COUNTERS && b < COUNTERS && a != b
    ensures (a + n) % COUNTERS != (b + n) % COUNTERS
  {
    if a < b {
      CounterArithmetic(n, a, b);
    } else {
      CounterArithmetic(n, b, a);
    }
  }

  /** What call n presents and what it should present, both as a nonce and a counter field. */
  lemma BigEndianCall(nonce: Nonce, start: nat, n: nat)
    requires start < COUNTERS
    ensures CipherInput(true, BlockAfter(StartBlock(true, nonce, start), n))
         == nonce + ToBytes(ByteSwap((ByteSwap(start) + n) % COUNTERS), 8)
    ensures Intended(true, nonce, start, n) == nonce + ToBytes(ByteSwap((start + n) % COUNTERS), 8)
  {
    hide Stored, ByteSwap, BlockAfter, CipherInput;
    var b := StartBlock(true, nonce, start);
    StoredAtStart(true, nonce, start);
    InputAfter(true, b, n);
    SwappedBytes((start + n) % COUNTERS);
  }

  lemma DifferentFields(nonce: Nonce, v: nat, w: nat)
    requires v < COUNTERS && w < COUNTERS && v != w
    ensures nonce + ToBytes(v, 8) != nonce + ToBytes(w, 8)
  {
    SixtyFour();
    BytesRoundTrip(v, 8);
    BytesRoundTrip(w, 8);
    assert (nonce + ToBytes(v, 8))[8..] == ToBytes(v, 8);
    assert (nonce + ToBytes(w, 8))[8..] == ToBytes(w, 8);
  }

  /** A start counter of one is not presented as big-endian one. */
  lemma BigEndianStartOne(nonce: Nonce)
    ensures CipherInput(true, BlockAfter(StartBlock(true, nonce, 1), 0)) == nonce + [1, 0, 0, 0, 0, 0, 0, 0]
    ensures Intended(true, nonce, 1, 0) == nonce + [0, 0, 0, 0, 0, 0, 0, 1]
  {
    hide Stored, ByteSwap, BlockAfter, CipherInput, StartBlock, ToBytes, Reverse;
    BigEndianCall(nonce, 1, 0);
    SwapTwice(1);
    OneInBytes();
  }

  lemma OneInBytes()
    ensures ToBytes(1, 8) == [1, 0, 0, 0, 0, 0, 0, 0]
    ensures Reverse(ToBytes(1, 8)) == [0, 0, 0, 0, 0, 0, 0, 1]
  {
    assert ToBytes(0, 7) == [0, 0, 0, 0, 0, 0, 0];
    ReverseOne();
  }

  lemma ReverseOne()
    ensures Reverse([1, 0, 0, 0, 0, 0, 0, 0]) == [0, 0, 0, 0, 0, 0, 0, 1]
  {
  }
}
