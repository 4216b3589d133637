/**
 The layout of the blocks that CCM authenticates and encrypts (sections 2.2 and 2.3 of RFC 3610), byte by
 byte, and the blocks of the first packet vector of that document.
 */
module CcmFormat {
  import opened Bytes
  import opened Blocks
  import opened Octets
  import opened Ccm

  /**
   The first block: flags, nonce and length. Bit 6 of the flags tells that there are additional data, bits 5
   to 3 hold (M - 2) / 2 for a tag of M bytes, bits 2 to 0 hold L - 1 for a length field of L bytes.
   */
  lemma FirstBlockLayout(c: Ccm, nonce: seq<Byte>, plaintext: seq<Byte>, aad: seq<Byte>)
    requires c.Valid() && |nonce| == c.nonceLen
    ensures var f := Formatted(c, nonce, plaintext, aad);
            && |f| >= 16
            && f[0] / 128 == 0 && (f[0] / 64 % 2 == 1 <==> aad != [])
            && f[0] / 8 % 8 == (c.tagSize - 2) / 2 && f[0] % 8 == 14 - c.nonceLen
            && f[1..1 + c.nonceLen] == nonce
            && f[1 + c.nonceLen..16] == BE(|plaintext|, 15 - c.nonceLen)
  {
    hide BE, AadBlocks, Padded, Flags;
    FlagBits(c, aad);
    var b := FirstBlock(c, nonce, plaintext, aad);
    var f := Formatted(c, nonce, plaintext, aad);
    assert f[..16] == b;
    assert f[1..1 + c.nonceLen] == b[1..1 + c.nonceLen] && f[1 + c.nonceLen..16] == b[1 + c.nonceLen..];
  }

  lemma FlagBits(c: Ccm, aad: seq<Byte>)
    requires c.Valid()
    ensures var b := Flags(c, aad);
            && b / 128 == 0 && (b / 64 % 2 == 1 <==> aad != [])
            && b / 8 % 8 == (c.tagSize - 2) / 2 && b % 8 == 14 - c.nonceLen
  {
    var m, l := (c.tagSize - 2) / 2, 14 - c.nonceLen;
    assert Flags(c, aad) == l + 8 * (m + (if aad != [] then 8 else 0));
  }

  /** What follows: the additional data behind their length and the plaintext, each padded with zeros. */
  lemma BodyLayout(c: Ccm, nonce: seq<Byte>, plaintext: seq<Byte>, aad: seq<Byte>)
    requires c.Valid() && |nonce| == c.nonceLen
    ensures exists y: seq<Byte>, z: seq<Byte> ::
              && Formatted(c, nonce, plaintext, aad)[16..] ==
                 (if aad == [] then [] else Announced(aad) + y) + (plaintext + z)
              && |y| < 16 && |z| < 16 && (forall i | 0 <= i < |y| :: y[i] == 0)
                 && (forall i | 0 <= i < |z| :: z[i] == 0)
              && (aad != [] ==> |Announced(aad) + y| % 16 == 0) && |plaintext + z| % 16 == 0
  {
    hide BE, LengthPrefix, Announced;
    AnnouncedIs(aad);
    var s := Announced(aad);
    var y, z := Zeros((16 - |s| % 16) % 16), Zeros((16 - |plaintext| % 16) % 16);
    var f := Formatted(c, nonce, plaintext, aad);
    assert f[16..] == AadBlocks(aad) + Padded(plaintext);
    assert aad != [] ==> AadBlocks(aad) == s + y;
    assert Padded(plaintext) == plaintext + z;
  }

  /** Additional data behind their length, in the form section 2.2 of RFC 3610 gives it. */
  function Announced(aad: seq<Byte>): seq<Byte> {
    var n := |aad|;
    (if n < 0xff00 then [ByteAt(n, 1), ByteAt(n, 0)]
     else if n <= 0xffff_ffff then [0xff, 0xfe, ByteAt(n, 3), ByteAt(n, 2), ByteAt(n, 1), ByteAt(n, 0)]
     else [0xff, 0xff, ByteAt(n, 7), ByteAt(n, 6), ByteAt(n, 5), ByteAt(n, 4), ByteAt(n, 3), ByteAt(n, 2),
           ByteAt(n, 1), ByteAt(n, 0)]) + aad
  }

  lemma AnnouncedIs(aad: seq<Byte>)
    ensures Announced(aad) == LengthPrefix(|aad|) + aad
  {
    hide BE, ByteAt;
    BigEndianForms(|aad|);
  }

  /**
   The block that byte j of the message is encrypted with, and the one that masks the tag: L - 1, the
   nonce, and the number of the block, from 1 for the message and 0 for the tag, modulo 2^32.
   */
  lemma CounterLayout(c: Ccm, nonce: seq<Byte>, j: nat)
    requires c.Valid() && |nonce| == c.nonceLen
    ensures var a: Block := [14 - c.nonceLen] + nonce + BE((j / 16 + 1) % 0x1_0000_0000, 15 - c.nonceLen);
            Keystream(c, nonce, j) == c.block(a)[j % 16]
    ensures var a: Block := [14 - c.nonceLen] + nonce + BE(0, 15 - c.nonceLen);
            TagKeystream(c, nonce) == c.block(a)
  {
    hide BE;
    CounterIs(j / 16);
  }

  lemma CounterIs(k: nat)
    ensures Counter(k) == (k + 1) % 0x1_0000_0000
  {
  }

  // ---------------------------------------------------------------- packet vector 1

  const NONCE: seq<Byte> := [0x00, 0x00, 0x00, 0x03, 0x02, 0x01, 0x00, 0xa0, 0xa1, 0xa2, 0xa3, 0xa4, 0xa5]
  const HEADER: seq<Byte> := [0x00, 0x01, 0x02, 0x03, 0x04, 0x05, 0x06, 0x07]
  const PAYLOAD: seq<Byte> := [0x08, 0x09, 0x0a, 0x0b, 0x0c, 0x0d, 0x0e, 0x0f, 0x10, 0x11, 0x12, 0x13, 0x14, 0x15, 0x16,
                               0x17, 0x18, 0x19, 0x1a, 0x1b, 0x1c, 0x1d, 0x1e]

  const B0: Block := [0x59, 0x00, 0x00, 0x00, 0x03, 0x02, 0x01, 0x00, 0xa0, 0xa1, 0xa2, 0xa3, 0xa4, 0xa5, 0x00, 0x17]
  const B1: Block := [0x00, 0x08, 0x00, 0x01, 0x02, 0x03, 0x04, 0x05, 0x06, 0x07, 0x00, 0x00, 0x00, 0x00, 0x00, 0x00]
  const B2: Block := [0x08, 0x09, 0x0a, 0x0b, 0x0c, 0x0d, 0x0e, 0x0f, 0x10, 0x11, 0x12, 0x13, 0x14, 0x15, 0x16, 0x17]
  const B3: Block := [0x18, 0x19, 0x1a, 0x1b, 0x1c, 0x1d, 0x1e, 0x00, 0x00, 0x00, 0x00, 0x00, 0x00, 0x00, 0x00, 0x00]

  const A0: Block := [0x01, 0x00, 0x00, 0x00, 0x03, 0x02, 0x01, 0x00, 0xa0, 0xa1, 0xa2, 0xa3, 0xa4, 0xa5, 0x00, 0x00]
  const A1: Block := [0x01, 0x00, 0x00, 0x00, 0x03, 0x02, 0x01, 0x00, 0xa0, 0xa1, 0xa2, 0xa3, 0xa4, 0xa5, 0x00, 0x01]
  const A2: Block := [0x01, 0x00, 0x00, 0x00, 0x03, 0x02, 0x01, 0x00, 0xa0, 0xa1, 0xa2, 0xa3, 0xa4, 0xa5, 0x00, 0x02]

  lemma {:induction false} XorWithZero(x: nat, k: nat)
    requires x < Pow2(k)
    ensures XorBits(0, x, k) == x
  {
    if k > 0 {
      XorWithZero(x / 2, k - 1);
    }
  }

  lemma XorZeros(b: Block)
    ensures Xor(ZERO_BLOCK, b) == b
  {
    assert Pow2(8) == 256;
    forall i | 0 <= i < 16
      ensures XorByte(ZERO_BLOCK[i], b[i]) == b[i]
    {
      XorWithZero(b[i], 8);
    }
  }

  lemma FourBlocks(block: Block -> Block, a: Block, b: Block, c: Block, d: Block)
    ensures Cbc(block, ZERO_BLOCK, a + (b + (c + d))) == block(Xor(block(Xor(block(Xor(block(a), b)), c)), d))
  {
    hide Xor, Cbc;
    XorZeros(a);
    var m1 := block(a);
    var m2 := block(Xor(m1, b));
    var m3 := block(Xor(m2, c));
    var m4 := block(Xor(m3, d));
    OneBlock(block, ZERO_BLOCK, a, b + (c + d));
    OneBlock(block, m1, b, c + d);
    OneBlock(block, m2, c, d);
    OneBlock(block, m3, d, []);
    assert d + [] == d;
    assert Cbc(block, ZERO_BLOCK, a + (b + (c + d))) == m4;
  }

  lemma OneBlock(block: Block -> Block, mac: Block, b: Block, rest: seq<Byte>)
    requires |rest| % 16 == 0
    ensures Cbc(block, mac, b + rest) == Cbc(block, block(Xor(mac, b)), rest)
    ensures rest == [] ==> Cbc(block, mac, b + rest) == block(Xor(mac, b))
  {
    hide Xor;
    assert (b + rest)[..16] == b && (b + rest)[16..] == rest;
  }

  lemma VectorFormat(block: Block -> Block)
    ensures Formatted(Ccm(block, 8, 13), NONCE, PAYLOAD, HEADER) == B0 + (B1 + (B2 + B3))
  {
    hide BE, LengthPrefix, Padded, FirstBlock;
    VectorFirst(block);
    VectorPadding();
    VectorLength();
    assert AadBlocks(HEADER) == B1;
  }

  lemma VectorFirst(block: Block -> Block)
    ensures FirstBlock(Ccm(block, 8, 13), NONCE, PAYLOAD, HEADER) == B0
  {
    hide BE;
    SmallBE(23);
  }

  lemma VectorLength()
    ensures LengthPrefix(8) == [0, 8]
  {
    hide BE;
    SmallBE(8);
  }

  lemma VectorPadding()
    ensures Padded([0, 8] + HEADER) == B1 && Padded(PAYLOAD) == B2 + B3
  {
    assert Zeros(6) == [0, 0, 0, 0, 0, 0] && Zeros(9) == [0, 0, 0, 0, 0, 0, 0, 0, 0];
  }

  lemma VectorCounters(block: Block -> Block)
    ensures var c := Ccm(block, 8, 13);
            CounterBlock(c, NONCE, 0) == A0 && CounterBlock(c, NONCE, 1) == A1 && CounterBlock(c, NONCE, 2) == A2
  {
    hide BE;
    SmallBE(0);
    SmallBE(1);
    SmallBE(2);
  }

  lemma SmallBE(n: Byte)
    ensures BE(n, 2) == [0, n]
  {
    assert BE(n, 2) == BE(0, 1) + [n];
    assert BE(0, 1) == BE(0, 0) + [0];
  }

  /**
   Packet vector 1 of section 8 of RFC 3610, for any block cipher: its 23 bytes of payload behind 8 bytes of
   header are sealed to these 31 bytes, over these blocks.
   */
  lemma PacketVector1(block: Block -> Block)
    ensures var tag := block(Xor(block(Xor(block(Xor(block(B0), B1)), B2)), B3));
            Sealed(Ccm(block, 8, 13), NONCE, PAYLOAD, HEADER) ==
            Xor(B2, block(A1)) + Xor(B3[..7], block(A2)) + Xor(tag[..8], block(A0))
  {
    hide Formatted, CounterBlock, Cbc, XorByte;
    var c := Ccm(block, 8, 13);
    VectorFormat(block);
    VectorCounters(block);
    FourBlocks(block, B0, B1, B2, B3);
    var s := Ctr(c, NONCE, PAYLOAD);
    CounterIs(0);
    CounterIs(1);
    forall j | 0 <= j < 23
      ensures s[j] == (Xor(B2, block(A1)) + Xor(B3[..7], block(A2)))[j]
    {
      assert Keystream(c, NONCE, j) == block(CounterBlock(c, NONCE, Counter(j / 16)))[j % 16];
      assert j < 16 ==> PAYLOAD[j] == B2[j];
      assert j >= 16 ==> PAYLOAD[j] == B3[j - 16];
    }
    assert s == Xor(B2, block(A1)) + Xor(B3[..7], block(A2));
  }
}
