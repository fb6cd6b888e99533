/** Cipher block chaining instantiated with the two block ciphers. */
module CipherModes {
  import opened Blocks
  import Speck
  import Rc6
  import Cbc

  function SpeckEncryption(ks: seq<nat>, rounds: nat): Block -> Block
    requires rounds <= |ks|
  {
    (b: Block) => Speck.EncryptBlock(ks, rounds, b)
  }

  function SpeckDecryption(ks: seq<nat>, rounds: nat): Block -> Block
    requires rounds <= |ks|
  {
    (b: Block) => Speck.DecryptBlock(ks, rounds, b)
  }

  function Rc6Encryption(ks: seq<nat>, rounds: nat): Block -> Block
    requires |ks| == 2 * rounds + 4
  {
    (b: Block) => Rc6.EncryptBlock(ks, rounds, b)
  }

  function Rc6Decryption(ks: seq<nat>, rounds: nat): Block -> Block
    requires |ks| == 2 * rounds + 4
  {
    (b: Block) => Rc6.DecryptBlock(ks, rounds, b)
  }

  /** Chained Speck: any number of blocks, any key schedule and round count, any IV, in both directions. */
  lemma SpeckCbcRoundTrip(ks: seq<nat>, rounds: nat, iv: Block, texts: seq<Block>)
    requires rounds <= |ks| && Speck.AreWords(ks)
    ensures var (ciphers, last) := Cbc.Run(true, SpeckEncryption(ks, rounds), iv, texts);
            Cbc.Run(false, SpeckDecryption(ks, rounds), iv, ciphers) == (texts, last)
    ensures var (plains, last) := Cbc.Run(false, SpeckDecryption(ks, rounds), iv, texts);
            Cbc.Run(true, SpeckEncryption(ks, rounds), iv, plains) == (texts, last)
  {
    var e, d := SpeckEncryption(ks, rounds), SpeckDecryption(ks, rounds);
    forall b: Block ensures d(e(b)) == b && e(d(b)) == b {
      Speck.BlocksRoundTrip(ks, rounds, b);
    }
    Cbc.DecryptUndoesEncrypt(e, d, iv, texts);
    Cbc.EncryptUndoesDecrypt(e, d, iv, texts);
  }

  /** Chained RC6, likewise. */
  lemma Rc6CbcRoundTrip(ks: seq<nat>, rounds: nat, iv: Block, texts: seq<Block>)
    requires |ks| == 2 * rounds + 4
    ensures var (ciphers, last) := Cbc.Run(true, Rc6Encryption(ks, rounds), iv, texts);
            Cbc.Run(false, Rc6Decryption(ks, rounds), iv, ciphers) == (texts, last)
    ensures var (plains, last) := Cbc.Run(false, Rc6Decryption(ks, rounds), iv, texts);
            Cbc.Run(true, Rc6Encryption(ks, rounds), iv, plains) == (texts, last)
  {
    var e, d := Rc6Encryption(ks, rounds), Rc6Decryption(ks, rounds);
    forall b: Block ensures d(e(b)) == b && e(d(b)) == b {
      Rc6.BlocksRoundTrip(ks, rounds, b);
    }
    Cbc.DecryptUndoesEncrypt(e, d, iv, texts);
    Cbc.EncryptUndoesDecrypt(e, d, iv, texts);
  }
}
