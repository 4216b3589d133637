/**
 Bytes, fixed-width unsigned integers and big-endian byte strings, shared by the
 codec and by the cryptographic constructions.
 */
module Bytes {

  type Byte = x: int | 0 <= x < 0x100
  type U16 = x: int | 0 <= x < 0x1_0000
  type U32 = x: int | 0 <= x < 0x1_0000_0000
  type U64 = x: int | 0 <= x < 0x1_0000_0000_0000_0000

  datatype Option<+T> = None | Some(value: T)

  /** 256 to the power k: the number of k-byte strings. */
  function Pow256(k: nat): (p: nat)
    ensures p >= 1
  {
    if k == 0 then 1 else 256 * Pow256(k - 1)
  }

  /** The k low-order bytes of n, most significant first. */
  function BE(n: nat, k: nat): (s: seq<Byte>)
    ensures |s| == k
  {
    if k == 0 then [] else BE(n / 256, k - 1) + [n % 256]
  }

  /** The number a big-endian byte string denotes. */
  function FromBE(s: seq<Byte>): nat {
    if s == [] then 0 else FromBE(s[..|s| - 1]) * 256 + s[|s| - 1]
  }

  lemma {:induction false} FromBEOfBE(n: nat, k: nat)
    requires n < Pow256(k)
    ensures FromBE(BE(n, k)) == n
  {
    if k == 0 {
    } else {
      FromBEOfBE(n / 256, k - 1);
      assert BE(n, k)[..k - 1] == BE(n / 256, k - 1);
    }
  }

  lemma {:induction false} BEOfFromBE(s: seq<Byte>)
    ensures FromBE(s) < Pow256(|s|)
    ensures BE(FromBE(s), |s|) == s
  {
    if s == [] {
    } else {
      var front, last := s[..|s| - 1], s[|s| - 1];
      BEOfFromBE(front);
      assert FromBE(s) / 256 == FromBE(front) && FromBE(s) % 256 == last;
      assert s == front + [last];
    }
  }

  lemma {:induction false} BEInjective(m: nat, n: nat, k: nat)
    requires m < Pow256(k) && n < Pow256(k)
    requires BE(m, k) == BE(n, k)
    ensures m == n
  {
    FromBEOfBE(m, k);
    FromBEOfBE(n, k);
  }

  /** The string e stands in src at offset off. */
  predicate At(src: seq<Byte>, off: nat, e: seq<Byte>): (b: bool)
    ensures b ==> off + |e| <= |src|
  {
    off + |e| <= |src| && src[off..off + |e|] == e
  }

  lemma AtSplit(src: seq<Byte>, off: nat, a: seq<Byte>, b: seq<Byte>)
    ensures At(src, off, a + b) <==> At(src, off, a) && At(src, off + |a|, b)
  {
    if off + |a| + |b| <= |src| {
      var s := src[off..off + |a| + |b|];
      assert s[..|a|] == src[off..off + |a|];
      assert s[|a|..] == src[off + |a|..off + |a| + |b|];
      assert s == s[..|a|] + s[|a|..];
      assert (a + b)[..|a|] == a && (a + b)[|a|..] == b;
    }
  }

  lemma AtSlice(src: seq<Byte>, off: nat, e: seq<Byte>)
    requires At(src, off, e)
    ensures src[off..off + |e|] == e
  {
  }

  lemma AtSelf(src: seq<Byte>, e: seq<Byte>, rest: seq<Byte>)
    requires src == e + rest
    ensures At(src, 0, e)
  {
  }

  // ---------------------------------------------------------------- exclusive or

  /** Exclusive or of the k low-order bits, one bit at a time. */
  function XorBits(x: nat, y: nat, k: nat): (r: nat)
  {
    if k == 0 then 0 else (if x % 2 == y % 2 then 0 else 1) + 2 * XorBits(x / 2, y / 2, k - 1)
  }

  lemma {:induction false} XorBitsBound(x: nat, y: nat, k: nat)
    ensures XorBits(x, y, k) < Pow2(k)
  {
    if k > 0 {
      XorBitsBound(x / 2, y / 2, k - 1);
    }
  }

  lemma {:induction false} XorBitsInvolution(x: nat, y: nat, k: nat)
    requires x < Pow2(k)
    ensures XorBits(XorBits(x, y, k), y, k) == x
  {
    if k > 0 {
      var q := XorBits(x / 2, y / 2, k - 1);
      var b := if x % 2 == y % 2 then 0 else 1;
      var r := b + 2 * q;
      assert r / 2 == q && r % 2 == b;
      XorBitsInvolution(x / 2, y / 2, k - 1);
    }
  }

  function Pow2(k: nat): (p: nat)
    ensures p >= 1
  {
    if k == 0 then 1 else 2 * Pow2(k - 1)
  }

  function XorByte(x: Byte, y: Byte): (r: Byte) {
    XorBitsBound(x, y, 8);
    assert Pow2(8) == 256;
    XorBits(x, y, 8)
  }

  lemma XorByteInvolution(x: Byte, y: Byte)
    ensures XorByte(XorByte(x, y), y) == x
  {
    assert Pow2(8) == 256;
    XorBitsInvolution(x, y, 8);
  }

  /** Bytewise exclusive or of two strings of the same length. */
  function Xor(a: seq<Byte>, b: seq<Byte>): (r: seq<Byte>)
    requires |a| <= |b|
    ensures |r| == |a|
  {
    seq(|a|, i requires 0 <= i < |a| => XorByte(a[i], b[i]))
  }

  /** Xor with the same string is its own inverse. */
  lemma XorInvolution(a: seq<Byte>, b: seq<Byte>)
    requires |a| <= |b|
    ensures Xor(Xor(a, b), b) == a
  {
    forall i | 0 <= i < |a|
      ensures Xor(Xor(a, b), b)[i] == a[i]
    {
      XorByteInvolution(a[i], b[i]);
    }
  }
}
