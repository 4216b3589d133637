/**
 AES-CCM (edhoc/internal/aesccm/ccm.go): counter mode with a CBC message authentication
 code over one formatted string. The string determines nonce, plaintext and additional
 data, and opening succeeds on exactly what sealing produces.
 */
module Ccm {
  import opened Bytes
  import opened Blocks

  datatype NewError = BadKey | InvalidTagSize | InvalidNonceSize

  datatype OpenError = AuthenticationFailed

  const MAX_UINT64: nat := 0xffff_ffff_ffff_ffff

  /** The ccm struct: the encryption of one key, the tag size and the nonce length. */
  datatype Ccm = Ccm(block: Block -> Block, tagSize: int, nonceLen: int) {
    predicate Valid() {
      4 <= tagSize <= 16 && tagSize % 2 == 0 && 7 <= nonceLen <= 13
    }

    /** The size of the length field. */
    function Q(): (q: nat)
      requires Valid()
      ensures 2 <= q <= 8
    {
      15 - nonceLen
    }

    function MaxMessageLen(): (n: nat)
      requires Valid()
      ensures n == Pow256(Q()) - 1
    {
      Pow256Of8();
      if Q() >= 8 then MAX_UINT64 else Pow256(Q()) - 1
    }
  }

  lemma Pow256Of8()
    ensures Pow256(8) == MAX_UINT64 + 1
  {
    assert Pow256(4) == 0x1_0000_0000;
    assert Pow256(6) == 256 * (256 * Pow256(4));
    assert Pow256(8) == 256 * (256 * Pow256(6));
  }

  /** New; `block` is None when aes.NewCipher refuses the key. */
  function New(block: Option<Block -> Block>, tagSize: int, nonceLen: int): (r: Result<Ccm, NewError>)
    ensures r.Success? ==> r.value.Valid()
  {
    if block.None? then Failure(BadKey)
    else if tagSize < 4 || tagSize > 16 || tagSize % 2 != 0 then Failure(InvalidTagSize)
    else if nonceLen < 7 || nonceLen > 13 then Failure(InvalidNonceSize)
    else Success(Ccm(block.value, tagSize, nonceLen))
  }

  // ---------------------------------------------------------------- formatting

  function Zeros(n: nat): (r: seq<Byte>)
    ensures |r| == n
    ensures forall i | 0 <= i < n :: r[i] == 0
  {
    if n == 0 then [] else Zeros(n - 1) + [0]
  }

  /** Zeros up to the next multiple of sixteen. */
  function Padded(s: seq<Byte>): (r: seq<Byte>)
    ensures |r| % 16 == 0 && |s| <= |r| < |s| + 16 && r[..|s|] == s
  {
    s + Zeros((16 - |s| % 16) % 16)
  }

  /** Which of the three forms announces alen bytes of additional data. */
  function LengthPrefix(alen: nat): (r: seq<Byte>)
    ensures |r| == 2 || |r| == 6 || |r| == 10
  {
    if alen < 0xff00 then BE(alen, 2)
    else if alen < 0x1_0000_0000 then [0xff, 0xfe] + BE(alen, 4)
    else [0xff, 0xff] + BE(alen, 8)
  }

  function AadBlocks(aad: seq<Byte>): (r: seq<Byte>)
    ensures |r| % 16 == 0
  {
    if aad == [] then [] else Padded(LengthPrefix(|aad|) + aad)
  }

  function Flags(c: Ccm, aad: seq<Byte>): (b: Byte)
    requires c.Valid()
  {
    (c.Q() - 1) + 8 * ((c.tagSize - 2) / 2) + (if aad != [] then 64 else 0)
  }

  function FirstBlock(c: Ccm, nonce: seq<Byte>, plaintext: seq<Byte>, aad: seq<Byte>): (b: Block)
    requires c.Valid() && |nonce| == c.nonceLen
  {
    [Flags(c, aad)] + nonce + BE(|plaintext|, c.Q())
  }

  /** The string B_0, B_1, ... of section 2.2 of RFC 3610. */
  function Formatted(c: Ccm, nonce: seq<Byte>, plaintext: seq<Byte>, aad: seq<Byte>): (r: seq<Byte>)
    requires c.Valid() && |nonce| == c.nonceLen
    ensures |r| % 16 == 0
  {
    WholeBlocks(|AadBlocks(aad)|, |Padded(plaintext)|);
    FirstBlock(c, nonce, plaintext, aad) + (AadBlocks(aad) + Padded(plaintext))
  }

  lemma WholeBlocks(m: nat, n: nat)
    requires m % 16 == 0 && n % 16 == 0
    ensures (m + n) % 16 == 0 && (16 + (m + n)) % 16 == 0
  {
  }

  // ---------------------------------------------------------------- authentication

  const ZERO_BLOCK: Block := Zeros(16)

  /** CBC over a string of whole blocks. */
  function Cbc(block: Block -> Block, mac: Block, data: seq<Byte>): (r: Block)
    requires |data| % 16 == 0
    decreases |data|
  {
    if data == [] then mac else Cbc(block, block(Xor(mac, data[..16])), data[16..])
  }

  function Tag(c: Ccm, nonce: seq<Byte>, plaintext: seq<Byte>, aad: seq<Byte>): (r: Block)
    requires c.Valid() && |nonce| == c.nonceLen
  {
    Cbc(c.block, ZERO_BLOCK, Formatted(c, nonce, plaintext, aad))
  }

  // ---------------------------------------------------------------- encryption

  /** uint32(k) + 1: the counter of the k-th keystream block. */
  function Counter(k: nat): U32 { (k % 0x1_0000_0000 + 1) % 0x1_0000_0000 }

  /** What ctrBlock encrypts. */
  function CounterBlock(c: Ccm, nonce: seq<Byte>, counter: U32): (b: Block)
    requires c.Valid() && |nonce| == c.nonceLen
  {
    [c.Q() - 1] + nonce + BE(counter, c.Q())
  }

  function Keystream(c: Ccm, nonce: seq<Byte>, j: nat): Byte
    requires c.Valid() && |nonce| == c.nonceLen
  {
    c.block(CounterBlock(c, nonce, Counter(j / 16)))[j % 16]
  }

  function Ctr(c: Ccm, nonce: seq<Byte>, src: seq<Byte>): (r: seq<Byte>)
    requires c.Valid() && |nonce| == c.nonceLen
    ensures |r| == |src|
  {
    seq(|src|, j requires 0 <= j < |src| => XorByte(src[j], Keystream(c, nonce, j)))
  }

  lemma CtrInvolution(c: Ccm, nonce: seq<Byte>, s: seq<Byte>)
    requires c.Valid() && |nonce| == c.nonceLen
    ensures Ctr(c, nonce, Ctr(c, nonce, s)) == s
  {
    hide Keystream, XorByte;
    forall j | 0 <= j < |s|
      ensures Ctr(c, nonce, Ctr(c, nonce, s))[j] == s[j]
    {
      XorByteInvolution(s[j], Keystream(c, nonce, j));
    }
  }

  // ---------------------------------------------------------------- seal and open

  function TagKeystream(c: Ccm, nonce: seq<Byte>): Block
    requires c.Valid() && |nonce| == c.nonceLen
  {
    c.block(CounterBlock(c, nonce, 0))
  }

  function Sealed(c: Ccm, nonce: seq<Byte>, plaintext: seq<Byte>, aad: seq<Byte>): (r: seq<Byte>)
    requires c.Valid() && |nonce| == c.nonceLen
    ensures |r| == |plaintext| + c.tagSize
  {
    Ctr(c, nonce, plaintext) + Xor(Tag(c, nonce, plaintext, aad)[..c.tagSize], TagKeystream(c, nonce))
  }

  function Opened(c: Ccm, nonce: seq<Byte>, ciphertext: seq<Byte>, aad: seq<Byte>): (r: Result<seq<Byte>, OpenError>)
    requires c.Valid()
  {
    if |nonce| != c.nonceLen then Failure(AuthenticationFailed)
    else if |ciphertext| < c.tagSize then Failure(AuthenticationFailed)
    else
      var msgLen := |ciphertext| - c.tagSize;
      if msgLen > c.MaxMessageLen() then Failure(AuthenticationFailed)
      else
        var plaintext := Ctr(c, nonce, ciphertext[..msgLen]);
        if Xor(ciphertext[msgLen..], TagKeystream(c, nonce)) != Tag(c, nonce, plaintext, aad)[..c.tagSize]
        then Failure(AuthenticationFailed)
        else Success(plaintext)
  }

  /** Opening yields p exactly on the sealing of p under the same nonce and additional data. */
  lemma OpenIsExact(c: Ccm, nonce: seq<Byte>, ciphertext: seq<Byte>, aad: seq<Byte>, p: seq<Byte>)
    requires c.Valid()
    ensures Opened(c, nonce, ciphertext, aad) == Success(p) <==>
            |nonce| == c.nonceLen && |p| <= c.MaxMessageLen() && ciphertext == Sealed(c, nonce, p, aad)
  {
    hide Ctr, Tag, TagKeystream, Xor;
    if |nonce| == c.nonceLen && |ciphertext| >= c.tagSize {
      var msgLen := |ciphertext| - c.tagSize;
      var body, tail := ciphertext[..msgLen], ciphertext[msgLen..];
      assert ciphertext == body + tail;
      CtrInvolution(c, nonce, body);
      CtrInvolution(c, nonce, p);
      XorInvolution(tail, TagKeystream(c, nonce));
      XorInvolution(Tag(c, nonce, p, aad)[..c.tagSize], TagKeystream(c, nonce));
      if |p| == msgLen {
        var sealed := Sealed(c, nonce, p, aad);
        assert sealed[..msgLen] == Ctr(c, nonce, p);
        assert sealed[msgLen..] == Xor(Tag(c, nonce, p, aad)[..c.tagSize], TagKeystream(c, nonce));
      }
    }
  }

  // ---------------------------------------------------------------- the format is injective

  lemma BEPrefix(x: seq<Byte>, y: seq<Byte>, s: seq<Byte>, t: seq<Byte>)
    requires x + s <= y + t && |x| == |y|
    ensures x == y && s <= t
  {
    assert (x + s)[..|x|] == x && (y + t)[..|x|] == y;
    assert (x + s)[|x|..] == s && (y + t)[|x|..] == t;
  }

  lemma PrefixBytes(alen: nat)
    requires 0 < alen < MAX_UINT64
    ensures var r := LengthPrefix(alen);
            && (r[0] == 0xff <==> alen >= 0xff00)
            && (alen >= 0xff00 ==> (r[1] == 0xfe <==> alen < 0x1_0000_0000))
            && FromBE(if alen < 0xff00 then r else r[2..]) == alen
  {
    Pow256Of8();
    assert Pow256(4) == 0x1_0000_0000;
    if alen < 0xff00 {
      assert BE(alen, 2) == BE(alen / 256, 1) + [alen % 256];
      assert BE(alen / 256, 1) == [alen / 256 % 256];
      FromBEOfBE(alen, 2);
    } else if alen < 0x1_0000_0000 {
      FromBEOfBE(alen, 4);
      assert LengthPrefix(alen)[2..] == BE(alen, 4);
    } else {
      FromBEOfBE(alen, 8);
      assert LengthPrefix(alen)[2..] == BE(alen, 8);
    }
  }

  /** The length forms form a prefix code. */
  lemma LengthPrefixIsPrefixFree(m: nat, n: nat, s: seq<Byte>, t: seq<Byte>)
    requires 0 < m < MAX_UINT64 && 0 < n < MAX_UINT64
    requires LengthPrefix(m) + s <= LengthPrefix(n) + t
    ensures m == n && s <= t
  {
    hide BE, FromBE;
    var x, y := LengthPrefix(m), LengthPrefix(n);
    PrefixBytes(m);
    PrefixBytes(n);
    assert x[0] == (x + s)[0] == (y + t)[0] == y[0];
    assert x[1] == (x + s)[1] == (y + t)[1] == y[1];
    assert |x| == |y|;
    BEPrefix(x, y, s, t);
  }

  /** A padded string that starts a longer one gives back the string, once the lengths agree. */
  lemma PaddedPrefix(x: seq<Byte>, y: seq<Byte>, s: seq<Byte>, t: seq<Byte>)
    requires Padded(x) + s <= Padded(y) + t && |x| == |y|
    ensures x == y && s <= t
  {
    BEPrefix(Padded(x), Padded(y), s, t);
    assert Padded(x)[..|x|] == x && Padded(y)[..|x|] == y;
  }

  lemma AadBlocksPrefix(a: seq<Byte>, a': seq<Byte>, s: seq<Byte>, t: seq<Byte>)
    requires |a| < MAX_UINT64 && |a'| < MAX_UINT64 && (a == [] <==> a' == [])
    requires AadBlocks(a) + s <= AadBlocks(a') + t
    ensures a == a' && s <= t
  {
    if a != [] {
      AnnouncedPrefix(a, a', s, t);
    } else {
      assert [] + s == s && [] + t == t;
    }
  }

  lemma PaddedAppend(x: seq<Byte>, y: seq<Byte>, s: seq<Byte>)
    ensures Padded(x + y) + s == x + (y + Padded(x + y)[|x + y|..] + s)
  {
    var p := Padded(x + y);
    assert p == p[..|x + y|] + p[|x + y|..];
  }

  lemma AnnouncedPrefix(a: seq<Byte>, a': seq<Byte>, s: seq<Byte>, t: seq<Byte>)
    requires 0 < |a| < MAX_UINT64 && 0 < |a'| < MAX_UINT64
    requires Padded(LengthPrefix(|a|) + a) + s <= Padded(LengthPrefix(|a'|) + a') + t
    ensures a == a' && s <= t
  {
    hide LengthPrefix, Padded;
    var m, n := LengthPrefix(|a|), LengthPrefix(|a'|);
    PaddedAppend(m, a, s);
    PaddedAppend(n, a', t);
    LengthPrefixIsPrefixFree(|a|, |a'|, a + Padded(m + a)[|m + a|..] + s, a' + Padded(n + a')[|n + a'|..] + t);
    PaddedPrefix(m + a, n + a', s, t);
    assert m + a <= n + a';
    BEPrefix(m, n, a, a');
  }

  lemma FirstBlockInjective(c: Ccm, nonce: seq<Byte>, p: seq<Byte>, a: seq<Byte>, nonce': seq<Byte>, p': seq<Byte>,
                            a': seq<Byte>)
    requires c.Valid() && |nonce| == c.nonceLen && |nonce'| == c.nonceLen
    requires |p| <= c.MaxMessageLen() && |p'| <= c.MaxMessageLen()
    requires FirstBlock(c, nonce, p, a) == FirstBlock(c, nonce', p', a')
    ensures nonce == nonce' && |p| == |p'| && (a == [] <==> a' == [])
  {
    hide BE, Pow256;
    var b, b' := FirstBlock(c, nonce, p, a), FirstBlock(c, nonce', p', a');
    assert b[0] == Flags(c, a) && b'[0] == Flags(c, a');
    assert b[1..1 + c.nonceLen] == nonce && b'[1..1 + c.nonceLen] == nonce';
    assert b[1 + c.nonceLen..] == BE(|p|, c.Q()) && b'[1 + c.nonceLen..] == BE(|p'|, c.Q());
    BEInjective(|p|, |p'|, c.Q());
  }

  /**
   No formatted string is a prefix of another: for one key and one set of parameters the
   authenticated string determines nonce, plaintext and additional data.
   */
  lemma FormatIsPrefixFree(c: Ccm, nonce: seq<Byte>, p: seq<Byte>, a: seq<Byte>, nonce': seq<Byte>, p': seq<Byte>,
                           a': seq<Byte>)
    requires c.Valid() && |nonce| == c.nonceLen && |nonce'| == c.nonceLen
    requires |p| <= c.MaxMessageLen() && |p'| <= c.MaxMessageLen()
    requires |a| < MAX_UINT64 && |a'| < MAX_UINT64
    requires Formatted(c, nonce, p, a) <= Formatted(c, nonce', p', a')
    ensures nonce == nonce' && p == p' && a == a'
  {
    hide FirstBlock, AadBlocks, Padded;
    BEPrefix(FirstBlock(c, nonce, p, a), FirstBlock(c, nonce', p', a'), AadBlocks(a) + Padded(p),
             AadBlocks(a') + Padded(p'));
    FirstBlockInjective(c, nonce, p, a, nonce', p', a');
    AadBlocksPrefix(a, a', Padded(p), Padded(p'));
    assert Padded(p) + [] == Padded(p) && Padded(p') + [] == Padded(p');
    PaddedPrefix(p, p', [], []);
  }

  // ---------------------------------------------------------------- counters

  /** The number of keystream blocks a message of n bytes uses. */
  function BlockCount(n: nat): nat { (n + 15) / 16 }

  /** The counter of block k, where block 0 masks the tag and block k > 0 is keystream k - 1. */
  function BlockCounter(k: nat): U32 { if k == 0 then 0 else Counter(k - 1) }

  /** The first counter that is used twice is that of block 2^32, which is 0 again. */
  lemma CounterWraps(c: Ccm, nonce: seq<Byte>)
    requires c.Valid() && |nonce| == c.nonceLen
    ensures CounterBlock(c, nonce, BlockCounter(0x1_0000_0000)) == CounterBlock(c, nonce, BlockCounter(0))
  {
  }

  lemma BlockCountBound(c: Ccm, n: nat)
    requires c.Valid() && n <= c.MaxMessageLen()
    ensures BlockCount(n) < Pow256(c.Q())
  {
    var m := Pow256(c.Q());
    assert m == 256 * Pow256(c.Q() - 1);
    assert 16 * BlockCount(n) <= n + 15;
  }

  ghost predicate CountersDistinct(c: Ccm, nonce: seq<Byte>, blocks: nat)
    requires c.Valid() && |nonce| == c.nonceLen
  {
    forall j, k | 0 <= j < k <= blocks ::
      CounterBlock(c, nonce, BlockCounter(j)) != CounterBlock(c, nonce, BlockCounter(k))
  }

  /**
   All blocks of one message, with the one that masks the tag, have different counters
   exactly when there are fewer than 2^32 of them.
   */
  lemma CountersAreDistinct(c: Ccm, nonce: seq<Byte>, p: seq<Byte>)
    requires c.Valid() && |nonce| == c.nonceLen && |p| <= c.MaxMessageLen()
    ensures CountersDistinct(c, nonce, BlockCount(|p|)) <==> BlockCount(|p|) < 0x1_0000_0000
  {
    hide CounterBlock, BlockCounter, Pow256, BlockCount;
    var n := BlockCount(|p|);
    BlockCountBound(c, |p|);
    if n < 0x1_0000_0000 {
      forall j, k | 0 <= j < k <= n
        ensures CounterBlock(c, nonce, BlockCounter(j)) != CounterBlock(c, nonce, BlockCounter(k))
      {
        SmallCounter(j);
        SmallCounter(k);
        CounterBlockInjective(c, nonce, j, k);
      }
    } else {
      CounterWraps(c, nonce);
      assert CounterBlock(c, nonce, BlockCounter(0)) == CounterBlock(c, nonce, BlockCounter(0x1_0000_0000));
    }
  }

  lemma SmallCounter(k: nat)
    requires k < 0x1_0000_0000
    ensures BlockCounter(k) == k
  {
  }

  lemma CounterBlockInjective(c: Ccm, nonce: seq<Byte>, j: U32, k: U32)
    requires c.Valid() && |nonce| == c.nonceLen && j < Pow256(c.Q()) && k < Pow256(c.Q())
    ensures CounterBlock(c, nonce, j) == CounterBlock(c, nonce, k) ==> j == k
  {
    hide BE, Pow256;
    var q := c.Q();
    assert CounterBlock(c, nonce, j)[1 + c.nonceLen..] == BE(j, q);
    assert CounterBlock(c, nonce, k)[1 + c.nonceLen..] == BE(k, q);
    if BE(j, q) == BE(k, q) {
      BEInjective(j, k, q);
    }
  }

  /** With a length field of at most four bytes no message that fits reaches that many blocks. */
  lemma SmallLengthFieldsNeverWrap(c: Ccm, nonce: seq<Byte>, p: seq<Byte>)
    requires c.Valid() && |nonce| == c.nonceLen && |p| <= c.MaxMessageLen() && c.Q() <= 4
    ensures CountersDistinct(c, nonce, BlockCount(|p|))
  {
    hide CountersDistinct;
    assert Pow256(4) == 0x1_0000_0000;
    assert Pow256(3) <= Pow256(4) && Pow256(2) <= Pow256(4);
    BlockCountBound(c, |p|);
    CountersAreDistinct(c, nonce, p);
  }

  // ---------------------------------------------------------------- the loops

  lemma XorZero(b: Block)
    ensures Xor(ZERO_BLOCK, b) == b
  {
    forall i | 0 <= i < 16
      ensures XorByte(0, b[i]) == b[i]
    {
      XorBitsZero(b[i], 8);
    }
  }

  lemma {:induction false} XorBitsZero(y: nat, k: nat)
    requires y < Pow2(k)
    ensures XorBits(0, y, k) == y
  {
    if k > 0 {
      XorBitsZero(y / 2, k - 1);
    }
  }

  lemma CbcFirst(block: Block -> Block, first: Block, data: seq<Byte>)
    requires |data| % 16 == 0
    ensures Cbc(block, ZERO_BLOCK, first + data) == Cbc(block, block(first), data)
  {
    XorZero(first);
    assert (first + data)[..16] == first && (first + data)[16..] == data;
  }

  lemma {:induction false} CbcAppend(block: Block -> Block, mac: Block, x: seq<Byte>, y: seq<Byte>)
    requires |x| % 16 == 0 && |y| % 16 == 0
    ensures Cbc(block, mac, x + y) == Cbc(block, Cbc(block, mac, x), y)
    decreases |x|
  {
    if x == [] {
      assert [] + y == y;
    } else {
      assert (x + y)[..16] == x[..16] && (x + y)[16..] == x[16..] + y;
      CbcAppend(block, block(Xor(mac, x[..16])), x[16..], y);
    }
  }

  lemma CbcOne(block: Block -> Block, mac: Block, b: Block)
    ensures Cbc(block, mac, b) == block(Xor(mac, b))
  {
    assert b[..16] == b && b[16..] == [];
  }

  /** The block of a padded string that starts at i: what is left of the string, then zeros. */
  lemma PaddedBlock(s: seq<Byte>, i: nat)
    requires i < |s| && i % 16 == 0
    ensures i + 16 <= |Padded(s)|
    ensures Padded(s)[i..i + 16] == if |s| - i < 16 then s[i..] + Zeros(16 - (|s| - i)) else s[i..i + 16]
  {
    hide Zeros;
    var p := Padded(s);
    PaddedLength(s, i);
    if |s| - i < 16 {
      var z := Zeros(16 - (|s| - i));
      assert p == s + z;
      assert (s + z)[i..i + 16] == s[i..] + z;
    } else {
      assert p[i..i + 16] == p[..|s|][i..i + 16];
    }
  }

  lemma PaddedLength(s: seq<Byte>, i: nat)
    requires i < |s| && i % 16 == 0
    ensures |s| - i < 16 ==> (16 - |s| % 16) % 16 == 16 - (|s| - i)
    ensures i + 16 <= |Padded(s)|
  {
  }

  /** xorBlock, then one encryption in place. */
  method Absorb(c: Ccm, mac: array<Byte>, block: array<Byte>)
    requires mac.Length == 16 && block.Length == 16 && mac != block
    modifies mac
    ensures mac[..] == Cbc(c.block, old(mac[..]), block[..])
  {
    CbcOne(c.block, mac[..], block[..]);
    XorInto(mac, block[..]);
    var b := c.block(mac[..]);
    Copy(mac, 0, b);
    assert mac[..] == b;
  }

  /** Zeros a block, then copies s[i:] into it as far as it goes. */
  method LoadBlock(block: array<Byte>, s: seq<Byte>, i: nat) returns (n: nat)
    requires block.Length == 16 && i < |s|
    modifies block
    ensures n == if |s| - i < 16 then |s| - i else 16
    ensures block[..] == s[i..i + n] + Zeros(16 - n)
  {
    Copy(block, 0, ZERO_BLOCK);
    assert block[..] == ZERO_BLOCK;
    n := if |s| - i < 16 then |s| - i else 16;
    Copy(block, 0, s[i..i + n]);
    ZerosPart(n);
  }

  lemma ZerosPart(n: nat)
    requires n <= 16
    ensures ZERO_BLOCK[n..] == Zeros(16 - n)
  {
  }

  /** One more block of a padded string. */
  method AbsorbNext(c: Ccm, mac: array<Byte>, block: array<Byte>, ghost data: seq<Byte>, ghost i: nat,
                    ghost start: Block)
    requires mac.Length == 16 && block.Length == 16 && mac != block
    requires |data| % 16 == 0 && i % 16 == 0 && i + 16 <= |data| && block[..] == data[i..i + 16]
    requires mac[..] == Cbc(c.block, start, data[..i])
    modifies mac
    ensures mac[..] == Cbc(c.block, start, data[..i + 16])
  {
    CbcAppend(c.block, start, data[..i], block[..]);
    assert data[..i] + block[..] == data[..i + 16];
    Absorb(c, mac, block);
  }

  method CbcPlaintext(c: Ccm, mac: array<Byte>, plaintext: seq<Byte>)
    requires mac.Length == 16
    modifies mac
    ensures mac[..] == Cbc(c.block, old(mac[..]), Padded(plaintext))
  {
    hide Padded, Cbc;
    ghost var start, data := mac[..], Padded(plaintext);
    var block := new Byte[16];
    var i := 0;
    CbcNone(c.block, start, data);
    while i < |plaintext|
      invariant i % 16 == 0 && i <= |data| && i < |plaintext| + 16
      invariant mac[..] == Cbc(c.block, start, data[..i])
    {
      var _ := LoadBlock(block, plaintext, i);
      PaddedBlock(plaintext, i);
      AbsorbNext(c, mac, block, data, i, start);
      i := i + 16;
    }
    assert data[..i] == data;
  }

  lemma CbcNone(block: Block -> Block, mac: Block, data: seq<Byte>)
    ensures Cbc(block, mac, data[..0]) == mac
  {
  }

  /** The first block of the additional data: its length, then as much of it as fits. */
  method LoadFirst(block: array<Byte>, lenBuf: seq<Byte>, aad: seq<Byte>) returns (n: nat)
    requires block.Length == 16 && |lenBuf| <= 16
    modifies block
    ensures n == if |aad| < 16 - |lenBuf| then |aad| else 16 - |lenBuf|
    ensures block[..] == lenBuf + aad[..n] + Zeros(16 - |lenBuf| - n)
  {
    hide Zeros;
    var size := |lenBuf|;
    Copy(block, 0, ZERO_BLOCK);
    assert block[..] == ZERO_BLOCK;
    Copy(block, 0, lenBuf);
    assert block[..] == lenBuf + ZERO_BLOCK[size..];
    n := if |aad| < 16 - size then |aad| else 16 - size;
    Copy(block, size, aad[..n]);
    ZerosPart(size + n);
  }

  method CbcAad(c: Ccm, mac: array<Byte>, aad: seq<Byte>)
    requires mac.Length == 16 && aad != []
    modifies mac
    ensures mac[..] == Cbc(c.block, old(mac[..]), AadBlocks(aad))
  {
    hide Padded, Cbc, LengthPrefix, Zeros;
    ghost var start, data := mac[..], AadBlocks(aad);
    var lenBuf := LengthPrefix(|aad|);
    var lenSize := |lenBuf|;
    ghost var x := lenBuf + aad;
    var block := new Byte[16];
    CbcNone(c.block, start, data);
    var remaining := 16 - lenSize;
    var n := LoadFirst(block, lenBuf, aad);
    var pos := n;
    FirstAadBlock(lenBuf, aad, n, block[..]);
    AbsorbNext(c, mac, block, data, 0, start);
    ghost var done := 16;
    if remaining < |aad| {
      while pos < |aad|
        invariant done % 16 == 0 && 16 <= done <= |data| && done < |x| + 16
        invariant pos == if done - lenSize <= |aad| then done - lenSize else |aad|
        invariant mac[..] == Cbc(c.block, start, data[..done])
      {
        n := LoadBlock(block, aad, pos);
        NextAadBlock(lenBuf, aad, done);
        AbsorbNext(c, mac, block, data, done, start);
        pos := pos + n;
        done := done + 16;
      }
    }
    assert data[..|data|] == data;
  }

  lemma NextAadBlock(prefix: seq<Byte>, aad: seq<Byte>, at: nat)
    requires at % 16 == 0 && |prefix| <= at < |prefix| + |aad|
    ensures var x, pos := prefix + aad, at - |prefix|;
            var n := if |aad| - pos < 16 then |aad| - pos else 16;
            at + 16 <= |Padded(x)| && Padded(x)[at..at + 16] == aad[pos..pos + n] + Zeros(16 - n)
  {
    hide Padded;
    var x, pos := prefix + aad, at - |prefix|;
    PaddedBlock(x, at);
    if |aad| - pos < 16 {
      assert x[at..] == aad[pos..];
    } else {
      assert x[at..at + 16] == aad[pos..pos + 16] + Zeros(0);
    }
  }

  lemma FirstAadBlock(prefix: seq<Byte>, aad: seq<Byte>, n: nat, b: seq<Byte>)
    requires |prefix| <= 16 && aad != [] && n == (if |aad| < 16 - |prefix| then |aad| else 16 - |prefix|)
    requires b == prefix + aad[..n] + Zeros(16 - |prefix| - n)
    ensures |Padded(prefix + aad)| >= 16 && Padded(prefix + aad)[..16] == b
  {
    PaddedBlock(prefix + aad, 0);
  }

  /** The last q bytes of b, written from the end: byte i is n >> 8 * i. */
  method PutBE(b: array<Byte>, n: nat, q: nat)
    requires q <= b.Length
    modifies b
    ensures b[..] == old(b[..b.Length - q]) + BE(n, q)
  {
    hide BE;
    ghost var start := b[..];
    ghost var low: seq<Byte> := [];
    var size := b.Length;
    var i, rest := 0, n;
    NoBytes(n);
    assert BE(n, q) + [] == BE(n, q);
    while i < q
      invariant i <= q && |low| == i
      invariant b[..] == start[..size - i] + low
      invariant BE(n, q) == BE(rest, q - i) + low
    {
      BEStep(rest, q - i);
      assert BE(rest / 256, q - i - 1) + [rest % 256] + low == BE(rest / 256, q - i - 1) + ([rest % 256] + low);
      b[size - 1 - i] := rest % 256;
      low := [rest % 256] + low;
      rest := rest / 256;
      i := i + 1;
    }
    NoBytes(rest);
    assert [] + low == low;
  }

  lemma BEStep(n: nat, k: nat)
    requires k > 0
    ensures BE(n, k) == BE(n / 256, k - 1) + [n % 256]
  {
  }

  lemma NoBytes(n: nat)
    ensures BE(n, 0) == []
  {
  }

  /** The layout of B_0 and of the counter blocks: one byte, the nonce, a number in q bytes. */
  method PutBlock(b: array<Byte>, first: Byte, nonce: seq<Byte>, n: nat, q: nat)
    requires b.Length == 16 && 1 + |nonce| + q == 16
    modifies b
    ensures b[..] == [first] + nonce + BE(n, q)
  {
    hide BE;
    b[0] := first;
    Copy(b, 1, nonce);
    assert b[..16 - q] == [first] + nonce;
    PutBE(b, n, q);
  }

  /** The MAC after the first block. */
  method EncryptFirst(c: Ccm, nonce: seq<Byte>, plaintext: seq<Byte>, aad: seq<Byte>) returns (mac: array<Byte>)
    requires c.Valid() && |nonce| == c.nonceLen
    ensures fresh(mac) && mac.Length == 16 && mac[..] == c.block(FirstBlock(c, nonce, plaintext, aad))
  {
    hide BE, Flags;
    var b := new Byte[16];
    PutBlock(b, Flags(c, aad), nonce, |plaintext|, c.Q());
    mac := new Byte[16];
    Copy(mac, 0, c.block(b[..]));
  }

  method ComputeTag(c: Ccm, nonce: seq<Byte>, plaintext: seq<Byte>, aad: seq<Byte>) returns (mac: array<Byte>)
    requires c.Valid() && |nonce| == c.nonceLen
    ensures fresh(mac) && mac.Length == 16 && mac[..] == Tag(c, nonce, plaintext, aad)
  {
    hide Cbc, AadBlocks, Padded, FirstBlock;
    mac := EncryptFirst(c, nonce, plaintext, aad);
    ghost var first := FirstBlock(c, nonce, plaintext, aad);
    CbcFirst(c.block, first, AadBlocks(aad) + Padded(plaintext));
    CbcAppend(c.block, mac[..], AadBlocks(aad), Padded(plaintext));
    if aad != [] {
      CbcAad(c, mac, aad);
    } else {
      NoAad(c.block, mac[..]);
    }
    CbcPlaintext(c, mac, plaintext);
  }

  lemma NoAad(block: Block -> Block, mac: Block)
    ensures Cbc(block, mac, AadBlocks([])) == mac
  {
  }

  /** ctrBlock: one block of keystream. */
  method CtrBlock(c: Ccm, nonce: seq<Byte>, counter: U32, out: array<Byte>)
    requires c.Valid() && |nonce| == c.nonceLen && out.Length == 16
    modifies out
    ensures out[..] == c.block(CounterBlock(c, nonce, counter))
  {
    var a := new Byte[16];
    PutBlock(a, c.Q() - 1, nonce, counter, c.Q());
    Copy(out, 0, c.block(a[..]));
    assert out[..] == c.block(CounterBlock(c, nonce, counter));
  }

  /** ctr: encrypts or decrypts src into the front of dst. */
  method CtrInto(c: Ccm, nonce: seq<Byte>, dst: array<Byte>, src: seq<Byte>)
    requires c.Valid() && |nonce| == c.nonceLen && |src| <= dst.Length
    modifies dst
    ensures dst[..] == Ctr(c, nonce, src) + old(dst[|src|..])
  {
    hide XorByte, CounterBlock;
    var keystream := new Byte[16];
    var i := 0;
    while i < |src|
      invariant i % 16 == 0
      invariant forall j | 0 <= j < i && j < |src| :: dst[j] == Ctr(c, nonce, src)[j]
      invariant forall j | |src| <= j < dst.Length :: dst[j] == old(dst[j])
    {
      CtrBlock(c, nonce, Counter(i / 16), keystream);
      var end := if i + 16 > |src| then |src| else i + 16;
      var j := i;
      while j < end
        invariant i <= j <= end
        invariant forall k | 0 <= k < j :: dst[k] == Ctr(c, nonce, src)[k]
        invariant forall k | |src| <= k < dst.Length :: dst[k] == old(dst[k])
        modifies dst
      {
        assert j / 16 == i / 16 && j % 16 == j - i;
        dst[j] := XorByte(src[j], keystream[j - i]);
        j := j + 1;
      }
      i := i + 16;
    }
  }

  method Seal(c: Ccm, dst: seq<Byte>, nonce: seq<Byte>, plaintext: seq<Byte>, aad: seq<Byte>) returns (ret: seq<Byte>)
    requires c.Valid() && |nonce| == c.nonceLen && |plaintext| <= c.MaxMessageLen()
    ensures ret == dst + Sealed(c, nonce, plaintext, aad)
  {
    hide Ctr, Tag, XorByte, CounterBlock;
    var tag := ComputeTag(c, nonce, plaintext, aad);
    var n := |plaintext|;
    var out := new Byte[n + c.tagSize];
    CtrInto(c, nonce, out, plaintext);
    var tagBlock := new Byte[16];
    CtrBlock(c, nonce, 0, tagBlock);
    ghost var mask := Xor(tag[..][..c.tagSize], tagBlock[..]);
    var i := 0;
    while i < c.tagSize
      invariant i <= c.tagSize
      invariant out[..n] == Ctr(c, nonce, plaintext)
      invariant out[n..n + i] == mask[..i]
      modifies out
    {
      out[n + i] := XorByte(tag[i], tagBlock[i]);
      assert out[n..n + i + 1] == out[n..n + i] + [mask[i]] && mask[..i + 1] == mask[..i] + [mask[i]];
      i := i + 1;
    }
    assert out[..] == out[..n] + out[n..n + i];
    ret := dst + out[..];
  }

  method Open(c: Ccm, dst: seq<Byte>, nonce: seq<Byte>, ciphertext: seq<Byte>, aad: seq<Byte>)
    returns (ret: Result<seq<Byte>, OpenError>)
    requires c.Valid()
    ensures ret == match Opened(c, nonce, ciphertext, aad)
                   case Success(p) => Success(dst + p)
                   case Failure(e) => Failure(e)
  {
    hide Ctr, Tag, XorByte, CounterBlock;
    if |nonce| != c.nonceLen || |ciphertext| < c.tagSize {
      return Failure(AuthenticationFailed);
    }
    var msgLen := |ciphertext| - c.tagSize;
    if msgLen > c.MaxMessageLen() {
      return Failure(AuthenticationFailed);
    }
    var tagBlock, decTag := new Byte[16], new Byte[16];
    CtrBlock(c, nonce, 0, tagBlock);
    ghost var mask := Xor(ciphertext[msgLen..], tagBlock[..]);
    var i := 0;
    while i < c.tagSize
      invariant i <= c.tagSize
      invariant decTag[..i] == mask[..i]
      modifies decTag
    {
      decTag[i] := XorByte(ciphertext[msgLen + i], tagBlock[i]);
      i := i + 1;
    }
    var plaintext := new Byte[msgLen];
    CtrInto(c, nonce, plaintext, ciphertext[..msgLen]);
    assert plaintext[..] == Ctr(c, nonce, ciphertext[..msgLen]);
    var expectedTag := ComputeTag(c, nonce, plaintext[..], aad);
    if decTag[..c.tagSize] != expectedTag[..c.tagSize] {
      return Failure(AuthenticationFailed);
    }
    return Success(dst + plaintext[..]);
  }
}
