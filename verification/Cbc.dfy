/** Cipher block chaining over any 16-byte block cipher, as an object that carries the chained block. */
module Cbc {
  import opened Basics
  import opened Blocks

  /** One call: the text that replaces the block, and the chained block for the next call. */
  function Step(encrypt: bool, cipher: Block -> Block, iv: Block, text: Block): (Block, Block)
  {
    if encrypt then
      var c := cipher(XorBlock(text, iv));
      (c, c)
    else (XorBlock(cipher(text), iv), text)
  }

  class Cbc {
    const encrypt: bool
    const cipher: Block -> Block
    const iv: array<byte>

    constructor (encrypt: bool, cipher: Block -> Block, iv2: Block)
      ensures this.encrypt == encrypt && this.cipher == cipher
      ensures fresh(iv) && iv[..] == iv2
    {
      this.encrypt := encrypt;
      this.cipher := cipher;
      iv := new byte[16](i requires 0 <= i < 16 => iv2[i]);
    }

    method Process(text: array<byte>)
      requires text.Length == 16 && iv.Length == 16 && text != iv
      modifies text, iv
      ensures (text[..], iv[..]) == Step(encrypt, cipher, old(iv[..]), old(text[..]))
    {
      if encrypt {
        XorAssign(text, iv);
        var cipherText: Block := cipher(text[..]);
        CopyBlock(cipherText, iv);
        CopyBlock(cipherText, text);
      } else {
        var plain := new byte[16];
        CopyBlock(cipher(text[..]), plain);
        XorAssign(plain, iv);
        CopyBlock(text[..], iv);
        CopyBlock(plain[..], text);
      }
    }
  }

  /** The texts and the final chained block after processing any number of blocks. */
  function Run(encrypt: bool, cipher: Block -> Block, iv: Block, texts: seq<Block>): (seq<Block>, Block)
    decreases |texts|
  {
    if texts == [] then ([], iv)
    else
      var (out, iv') := Step(encrypt, cipher, iv, texts[0]);
      var (rest, last) := Run(encrypt, cipher, iv', texts[1..]);
      ([out] + rest, last)
  }

  ghost predicate Inverse(d: Block -> Block, e: Block -> Block)
  {
    forall b: Block :: d(e(b)) == b
  }

  /**
   A decrypting instance fed the output of an encrypting instance with the same chained block returns the plaintext,
   and both end with the same chained block; this holds after every prefix, since it holds for every length.
   */
  lemma {:induction false} DecryptUndoesEncrypt(e: Block -> Block, d: Block -> Block, iv: Block, texts: seq<Block>)
    requires Inverse(d, e)
    ensures var (ciphers, last) := Run(true, e, iv, texts);
            Run(false, d, iv, ciphers) == (texts, last)
    decreases |texts|
  {
    if texts != [] {
      var (c, iv') := Step(true, e, iv, texts[0]);
      assert d(c) == XorBlock(texts[0], iv);
      XorBlockCancels(texts[0], iv);
      DecryptUndoesEncrypt(e, d, c, texts[1..]);
      var (rest, last) := Run(true, e, c, texts[1..]);
      assert ([c] + rest)[1..] == rest;
      assert [texts[0]] + texts[1..] == texts;
    }
  }

  /** The other way round: encrypting what was decrypted returns the ciphertext. */
  lemma {:induction false} EncryptUndoesDecrypt(e: Block -> Block, d: Block -> Block, iv: Block, texts: seq<Block>)
    requires Inverse(e, d)
    ensures var (plains, last) := Run(false, d, iv, texts);
            Run(true, e, iv, plains) == (texts, last)
    decreases |texts|
  {
    if texts != [] {
      XorBlockCancels(d(texts[0]), iv);
      assert e(d(texts[0])) == texts[0];
      EncryptUndoesDecrypt(e, d, texts[0], texts[1..]);
      var (out, _) := Step(false, d, iv, texts[0]);
      var (rest, last) := Run(false, d, texts[0], texts[1..]);
      assert ([out] + rest)[1..] == rest;
      assert [texts[0]] + texts[1..] == texts;
    }
  }

  /** The equations of section 6.2 of NIST SP 800-38A: C_i = E(P_i xor C_(i-1)), starting from the IV. */
  lemma {:induction false} EncryptionEquations(e: Block -> Block, iv: Block, texts: seq<Block>)
    ensures var (ciphers, last) := Run(true, e, iv, texts);
            && |ciphers| == |texts|
            && last == (if texts == [] then iv else ciphers[|texts| - 1])
            && forall i :: 0 <= i < |texts| ==> ciphers[i] == e(XorBlock(texts[i], if i == 0 then iv else ciphers[i - 1]))
    decreases |texts|
  {
    if texts != [] {
      var (c, _) := Step(true, e, iv, texts[0]);
      EncryptionEquations(e, c, texts[1..]);
    }
  }

  /** And C_(i-1) xor D(C_i) = P_i for decryption. */
  lemma {:induction false} DecryptionEquations(d: Block -> Block, iv: Block, texts: seq<Block>)
    ensures var (plains, last) := Run(false, d, iv, texts);
            && |plains| == |texts|
            && last == (if texts == [] then iv else texts[|texts| - 1])
            && forall i :: 0 <= i < |texts| ==> plains[i] == XorBlock(d(texts[i]), if i == 0 then iv else texts[i - 1])
    decreases |texts|
  {
    if texts != [] {
      DecryptionEquations(d, texts[0], texts[1..]);
    }
  }

  /**
   Two instances in step: an encrypting and a decrypting one that start with the same chained block. Whatever the blocks,
   the second returns what the first was given, and the chained blocks stay equal.
   */
  method Exchange(enc: Cbc, dec: Cbc, texts: seq<Block>) returns (ciphers: seq<Block>, plains: seq<Block>)
    requires enc.encrypt && !dec.encrypt && Inverse(dec.cipher, enc.cipher)
    requires enc.iv.Length == 16 && dec.iv.Length == 16 && enc.iv != dec.iv && enc.iv[..] == dec.iv[..]
    modifies enc.iv, dec.iv
    ensures plains == texts && enc.iv[..] == dec.iv[..]
    ensures (ciphers, enc.iv[..]) == Run(true, enc.cipher, old(enc.iv[..]), texts)
    decreases |texts|
  {
    if texts == [] {
      return [], [];
    }
    var block := new byte[16];
    CopyBlock(texts[0], block);
    XorBlockCancels(texts[0], enc.iv[..]);
    assert dec.cipher(enc.cipher(XorBlock(texts[0], enc.iv[..]))) == XorBlock(texts[0], enc.iv[..]);
    enc.Process(block);
    var cipherText: Block := block[..];
    dec.Process(block);
    var plain: Block := block[..];
    var moreCiphers, morePlains := Exchange(enc, dec, texts[1..]);
    ciphers, plains := [cipherText] + moreCiphers, [plain] + morePlains;
  }
}
