/**
 The CBOR head: initial byte and argument (section 3 of RFC 8949).
 A major type is written 0..7, so that an initial byte is 32 * major + ai.
 */
module Wire {
  import opened Bytes

  type Major = x: int | 0 <= x < 8

  const MAJOR_UINT: Major := 0
  const MAJOR_NEGINT: Major := 1
  const MAJOR_BYTES: Major := 2
  const MAJOR_TEXT: Major := 3
  const MAJOR_ARRAY: Major := 4
  const MAJOR_MAP: Major := 5
  const MAJOR_TAG: Major := 6
  const MAJOR_OTHER: Major := 7

  const AI_1BYTE := 24
  const AI_2BYTES := 25
  const AI_4BYTES := 26
  const AI_8BYTES := 27
  const AI_INDEFINITE := 31

  const SIMPLE_FALSE: Byte := 0xf4
  const SIMPLE_TRUE: Byte := 0xf5
  const SIMPLE_NULL: Byte := 0xf6
  const SIMPLE_UNDEFINED: Byte := 0xf7
  const SIMPLE_ONE_BYTE: Byte := 0xf8
  const FLOAT16_MARKER: Byte := 0xf9
  const FLOAT32_MARKER: Byte := 0xfa
  const FLOAT64_MARKER: Byte := 0xfb
  const BREAK_CODE: Byte := 0xff

  /** The shortest head that carries the argument. */
  function HeadBytes(major: Major, arg: U64): (s: seq<Byte>)
    ensures 1 <= |s| <= 9
  {
    if arg < 24 then [32 * major + arg]
    else if arg <= 0xff then [32 * major + AI_1BYTE] + BE(arg, 1)
    else if arg <= 0xffff then [32 * major + AI_2BYTES] + BE(arg, 2)
    else if arg <= 0xffff_ffff then [32 * major + AI_4BYTES] + BE(arg, 4)
    else [32 * major + AI_8BYTES] + BE(arg, 8)
  }

  /** The additional information HeadBytes writes. */
  function ShortestAI(arg: U64): (ai: Byte) {
    if arg < 24 then arg
    else if arg <= 0xff then AI_1BYTE
    else if arg <= 0xffff then AI_2BYTES
    else if arg <= 0xffff_ffff then AI_4BYTES
    else AI_8BYTES
  }

  /** A parsed head; n is the number of bytes it took, 0 if the input is too short. */
  datatype Head = Head(major: Major, ai: Byte, arg: U64, n: nat) {
    predicate IsShortest() {
      if ai == AI_1BYTE then arg >= 24
      else if ai == AI_2BYTES then arg > 0xff
      else if ai == AI_4BYTES then arg > 0xffff
      else if ai == AI_8BYTES then arg > 0xffff_ffff
      else true
    }
  }

  const NO_HEAD := Head(0, 0, 0, 0)

  /** The number of argument bytes that follow the initial byte. */
  function ArgSize(ai: Byte): (k: nat)
    ensures k <= 8
  {
    if ai == AI_1BYTE then 1
    else if ai == AI_2BYTES then 2
    else if ai == AI_4BYTES then 4
    else if ai == AI_8BYTES then 8
    else 0
  }

  lemma Pow256Values()
    ensures Pow256(1) == 0x100 && Pow256(2) == 0x1_0000 && Pow256(4) == 0x1_0000_0000
    ensures Pow256(8) == 0x1_0000_0000_0000_0000
  {
    assert Pow256(3) == 256 * Pow256(2);
    assert Pow256(4) == 256 * Pow256(3);
    assert Pow256(5) == 256 * Pow256(4);
    assert Pow256(6) == 256 * Pow256(5);
    assert Pow256(7) == 256 * Pow256(6);
    assert Pow256(8) == 256 * Pow256(7);
  }

  lemma FromBEBound(s: seq<Byte>)
    ensures |s| == 1 ==> FromBE(s) <= 0xff
    ensures |s| == 2 ==> FromBE(s) <= 0xffff
    ensures |s| == 4 ==> FromBE(s) <= 0xffff_ffff
    ensures |s| == 8 ==> FromBE(s) <= 0xffff_ffff_ffff_ffff
  {
    BEOfFromBE(s);
    Pow256Values();
  }

  function ParseHead(src: seq<Byte>): (h: Head)
    ensures h.n <= |src|
    ensures h.n > 0 ==> h.n == 1 + ArgSize(h.ai) && src[0] == 32 * h.major + h.ai && h.ai < 32
    ensures h.ai < 24 ==> h.arg == h.ai
    ensures h.ai == AI_1BYTE ==> h.arg <= 0xff
    ensures h.ai == AI_2BYTES ==> h.arg <= 0xffff
    ensures h.ai == AI_4BYTES ==> h.arg <= 0xffff_ffff
    ensures h.ai > AI_8BYTES ==> h.arg == 0
  {
    if src == [] then NO_HEAD
    else
      var major: Major := src[0] / 32;
      var ai := src[0] % 32;
      if ai < 24 then Head(major, ai, ai, 1)
      else if ai <= 27 then
        var k := ArgSize(ai);
        if |src| < 1 + k then NO_HEAD
        else
          FromBEBound(src[1..1 + k]);
          Head(major, ai, FromBE(src[1..1 + k]), 1 + k)
      else Head(major, ai, 0, 1)
  }

  lemma BEParts(arg: U64)
    ensures arg <= 0xff ==> FromBE(BE(arg, 1)) == arg
    ensures arg <= 0xffff ==> FromBE(BE(arg, 2)) == arg
    ensures arg <= 0xffff_ffff ==> FromBE(BE(arg, 4)) == arg
    ensures FromBE(BE(arg, 8)) == arg
  {
    Pow256Values();
    if arg <= 0xff { FromBEOfBE(arg, 1); }
    if arg <= 0xffff { FromBEOfBE(arg, 2); }
    if arg <= 0xffff_ffff { FromBEOfBE(arg, 4); }
    FromBEOfBE(arg, 8);
  }

  /** A written head parses back to its major type and argument, whatever follows it. */
  lemma ParseWrittenHead(src: seq<Byte>, off: nat, major: Major, arg: U64)
    requires At(src, off, HeadBytes(major, arg))
    ensures ParseHead(src[off..]) == Head(major, ShortestAI(arg), arg, |HeadBytes(major, arg)|)
    ensures ParseHead(src[off..]).IsShortest()
  {
    var e := HeadBytes(major, arg);
    var s := src[off..];
    assert s[..|e|] == e;
    assert s[0] == e[0];
    if arg >= 24 {
      assert s[1..|e|] == e[1..];
      BEParts(arg);
    }
  }

  lemma WrittenMajor(src: seq<Byte>, off: nat, major: Major, arg: U64)
    requires At(src, off, HeadBytes(major, arg))
    ensures off < |src| && src[off] / 32 == major && src[off] % 32 == ShortestAI(arg)
  {
    assert src[off..off + |HeadBytes(major, arg)|][0] == src[off];
  }

  lemma ShortestArgument(s: seq<Byte>)
    requires var h := ParseHead(s); h.n > 1 && h.IsShortest()
    ensures var h := ParseHead(s); HeadBytes(h.major, h.arg) == [s[0]] + s[1..h.n]
  {
    hide ParseHead, BE, FromBE;
    var h := ParseHead(s);
    ArgumentIs(s);
    BEOfFromBE(s[1..h.n]);
    FromBEBound(s[1..h.n]);
  }

  lemma ArgumentIs(s: seq<Byte>)
    requires ParseHead(s).n > 1
    ensures var h := ParseHead(s);
            24 <= h.ai <= 27 && s != [] && s[0] == 32 * h.major + h.ai && h.arg == FromBE(s[1..h.n])
  {
    hide FromBE;
  }

  /** A shortest head is the head its major type and argument are written with. */
  lemma ShortestHeadIsWritten(src: seq<Byte>, off: nat)
    requires off <= |src|
    requires var h := ParseHead(src[off..]); h.n > 0 && h.ai < 28 && h.IsShortest()
    ensures var h := ParseHead(src[off..]);
            At(src, off, HeadBytes(h.major, h.arg)) && |HeadBytes(h.major, h.arg)| == h.n
  {
    var s := src[off..];
    var h := ParseHead(s);
    if h.n > 1 {
      ShortestArgument(s);
    }
    assert s[..h.n] == [s[0]] + s[1..h.n];
    assert src[off..off + h.n] == s[..h.n];
  }
}
