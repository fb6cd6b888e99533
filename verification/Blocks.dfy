/** Sixteen-byte blocks and the in-place exclusive or of one block into another. */
module Blocks {
  import opened Basics
  import opened NatMath
  import opened Words

  type Block = s: seq<byte> | |s| == 16 witness [0, 0, 0, 0, 0, 0, 0, 0, 0, 0, 0, 0, 0, 0, 0, 0]

  function XorByte(a: byte, b: byte): byte
  {
    assert Pow(2, 8) == 256;
    XorBound(8, a, b);
    BitXor(a, b)
  }

  function XorBlock(a: Block, b: Block): Block
  {
    seq(16, i requires 0 <= i < 16 => XorByte(a[i], b[i]))
  }

  lemma XorBlockCancels(a: Block, b: Block)
    ensures XorBlock(XorBlock(a, b), b) == a
  {
    forall i | 0 <= i < 16 ensures XorBlock(XorBlock(a, b), b)[i] == a[i] {
      XorCancels(a[i], b[i]);
    }
  }

  /** Bit k of byte i is the sum without carry of bit k of byte i of the operands. */
  lemma XorBlockBits(a: Block, b: Block, i: nat, k: nat)
    requires i < 16
    ensures 0 < Pow(2, k)
    ensures XorBlock(a, b)[i] / Pow(2, k) % 2 == (a[i] / Pow(2, k) + b[i] / Pow(2, k)) % 2
  {
    hide BitXor;
    XorBits(a[i], b[i], k);
  }

  /** fast_xor_assignment for 16-byte spans. */
  method XorAssign(a: array<byte>, b: array<byte>)
    requires a.Length == 16 && b.Length == 16
    modifies a
    ensures a[..] == XorBlock(old(a[..]), old(b[..]))
  {
    for i := 0 to 16
      invariant forall k :: 0 <= k < i ==> a[k] == XorByte(old(a[k]), old(b[k]))
      invariant forall k :: i <= k < 16 ==> a[k] == old(a[k])
    {
      a[i] := XorByte(a[i], b[i]);
    }
  }

  method CopyBlock(from: Block, to: array<byte>)
    requires to.Length == 16
    modifies to
    ensures to[..] == from
  {
    forall i | 0 <= i < 16 {
      to[i] := from[i];
    }
  }
}
