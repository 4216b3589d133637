/**
 A block cipher with 16-byte blocks, as the two permutations crypto/cipher.Block gives, and
 the buffer copies its users make.
 */
module Blocks {
  import opened Bytes

  type Block = b: seq<Byte> | |b| == 16 witness seq(16, _ => 0)

  datatype Result<+T, +E> = Success(value: T) | Failure(error: E) {
    predicate IsFailure() { Failure? }
    function PropagateFailure<U>(): Result<U, E>
      requires Failure?
    { Failure(error) }
    function Extract(): T
      requires Success?
    { value }
  }

  /** Encrypt and Decrypt of one key. */
  datatype Cipher = Cipher(enc: Block -> Block, dec: Block -> Block) {
    /** Decryption undoes encryption and the other way round. */
    ghost predicate IsPermutation() {
      && (forall b: Block :: dec(enc(b)) == b)
      && (forall b: Block :: enc(dec(b)) == b)
    }
  }

  /** copy(dst[at:], src) where the source fits. */
  method Copy(dst: array<Byte>, at: nat, src: seq<Byte>)
    requires at + |src| <= dst.Length
    modifies dst
    ensures dst[..] == old(dst[..at]) + src + old(dst[at + |src|..])
  {
    var k := 0;
    while k < |src|
      invariant k <= |src|
      invariant forall i | 0 <= i < dst.Length :: dst[i] == if at <= i < at + k then src[i - at] else old(dst[i])
    {
      dst[at + k] := src[k];
      k := k + 1;
    }
  }

  /** dst[k] ^= src[k] for every k of dst. */
  method XorInto(dst: array<Byte>, src: seq<Byte>)
    requires dst.Length <= |src|
    modifies dst
    ensures dst[..] == Xor(old(dst[..]), src)
  {
    var k := 0;
    while k < dst.Length
      invariant k <= dst.Length
      invariant forall i | 0 <= i < dst.Length :: dst[i] == if i < k then XorByte(old(dst[i]), src[i]) else old(dst[i])
    {
      dst[k] := XorByte(dst[k], src[k]);
      k := k + 1;
    }
  }
}
