/**
 What the byte primitives mean, byte by byte and bit by bit: big-endian strings, and exclusive or.
 */
module Octets {
  import opened Bytes

  // ---------------------------------------------------------------- bytes of a number

  /** Byte k of n, where byte 0 is the lowest. */
  function ByteAt(n: nat, k: nat): Byte { if k == 0 then n % 0x100 else ByteAt(n / 0x100, k - 1) }

  /** A big-endian string has the most significant of its bytes in front. */
  lemma {:induction false} BigEndian(n: nat, k: nat, i: nat)
    requires i < k
    ensures BE(n, k)[i] == ByteAt(n, k - 1 - i)
  {
    if i < k - 1 {
      BigEndian(n / 0x100, k - 1, i);
    }
  }

  /** The widths in use. */
  lemma BigEndianForms(n: nat)
    ensures BE(n, 1) == [ByteAt(n, 0)]
    ensures BE(n, 2) == [ByteAt(n, 1), ByteAt(n, 0)]
    ensures BE(n, 4) == [ByteAt(n, 3), ByteAt(n, 2), ByteAt(n, 1), ByteAt(n, 0)]
    ensures BE(n, 8) == [ByteAt(n, 7), ByteAt(n, 6), ByteAt(n, 5), ByteAt(n, 4), ByteAt(n, 3), ByteAt(n, 2),
                         ByteAt(n, 1), ByteAt(n, 0)]
  {
    hide BE, ByteAt;
    BigEndian(n, 1, 0);
    forall i: nat | i < 2 ensures BE(n, 2)[i] == ByteAt(n, 1 - i) { BigEndian(n, 2, i); }
    forall i: nat | i < 4 ensures BE(n, 4)[i] == ByteAt(n, 3 - i) { BigEndian(n, 4, i); }
    forall i: nat | i < 8 ensures BE(n, 8)[i] == ByteAt(n, 7 - i) { BigEndian(n, 8, i); }
  }

  // ---------------------------------------------------------------- bits

  /** Bit k of x, where bit 0 is the lowest. */
  function Bit(x: nat, k: nat): nat { if k == 0 then x % 2 else Bit(x / 2, k - 1) }

  /** Set exactly if the two bits differ. */
  function Differs(a: nat, b: nat): nat { if a == b then 0 else 1 }

  lemma {:induction false} XorIsBitwise(x: nat, y: nat, n: nat, k: nat)
    requires k < n
    ensures Bit(XorBits(x, y, n), k) == Differs(Bit(x, k), Bit(y, k))
  {
    var q, b := XorBits(x / 2, y / 2, n - 1), if x % 2 == y % 2 then 0 else 1;
    assert (b + 2 * q) / 2 == q && (b + 2 * q) % 2 == b;
    if k > 0 {
      XorIsBitwise(x / 2, y / 2, n - 1, k - 1);
    }
  }

  lemma {:induction false} BitsDetermine(x: nat, y: nat, n: nat)
    requires x < Pow2(n) && y < Pow2(n) && forall k: nat | k < n :: Bit(x, k) == Bit(y, k)
    ensures x == y
  {
    if n > 0 {
      assert Bit(x, 0) == Bit(y, 0);
      forall k: nat | k < n - 1
        ensures Bit(x / 2, k) == Bit(y / 2, k)
      {
        assert Bit(x, k + 1) == Bit(y, k + 1);
      }
      BitsDetermine(x / 2, y / 2, n - 1);
    }
  }

  /** Nothing changes what it is combined with. */
  lemma {:induction false} KeepsBits(x: nat, k: nat)
    requires x < Pow2(k)
    ensures XorBits(x, 0, k) == x
  {
    if k > 0 {
      KeepsBits(x / 2, k - 1);
    }
  }

  /** The bits of z are set where those of x and y differ. */
  predicate IsXor(x: Byte, y: Byte, z: Byte) { forall k: nat | k < 8 :: Bit(z, k) == Differs(Bit(x, k), Bit(y, k)) }

  /** The exclusive or of two bytes is the one byte whose bits are set where theirs differ. */
  lemma XorByteIsBitwise(x: Byte, y: Byte, z: Byte)
    ensures z == XorByte(x, y) <==> IsXor(x, y, z)
  {
    hide Bit, XorBits, Differs;
    var r := XorByte(x, y);
    assert Pow2(8) == 256;
    assert r == XorBits(x, y, 8);
    forall k: nat | k < 8
      ensures Bit(r, k) == Differs(Bit(x, k), Bit(y, k))
    {
      XorIsBitwise(x, y, 8, k);
    }
    if IsXor(x, y, z) {
      forall k: nat | k < 8
        ensures Bit(z, k) == Bit(r, k)
      {
      }
      BitsDetermine(z, r, 8);
    }
  }
}
