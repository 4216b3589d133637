/**
 Text that counts as valid is exactly text that encodes Unicode scalar values (section 3 of RFC 3629).
 */
module Utf8 {
  import opened Bytes
  import opened Values

  /** A Unicode scalar value: a code point that is not a surrogate. */
  type Rune = c: int | 0 <= c < 0x11_0000 && !(0xd800 <= c < 0xe000)

  function EncodeRune(c: Rune): (s: seq<Byte>)
    ensures 1 <= |s| <= 4
  {
    if c < 0x80 then [c]
    else if c < 0x800 then [0xc0 + c / 64, 0x80 + c % 64]
    else if c < 0x1_0000 then [0xe0 + c / 4096, 0x80 + c / 64 % 64, 0x80 + c % 64]
    else [0xf0 + c / 262144, 0x80 + c / 4096 % 64, 0x80 + c / 64 % 64, 0x80 + c % 64]
  }

  function EncodeRunes(cs: seq<Rune>): seq<Byte> {
    if cs == [] then [] else EncodeRune(cs[0]) + EncodeRunes(cs[1..])
  }

  /** Six bits of a continuation byte. */
  function Low(b: Byte): int { b as int - 0x80 }

  function Code2(a: Byte, b: Byte): int { 64 * (a as int - 0xc0) + Low(b) }
  function Code3(a: Byte, b: Byte, c: Byte): int { 4096 * (a as int - 0xe0) + 64 * Low(b) + Low(c) }
  function Code4(a: Byte, b: Byte, c: Byte, d: Byte): int {
    262144 * (a as int - 0xf0) + 4096 * Low(b) + 64 * Low(c) + Low(d)
  }

  /** The scalar value a string starts with. */
  lemma FirstRune(s: seq<Byte>) returns (c: Rune)
    requires s != [] && RuneLength(s) > 0
    ensures EncodeRune(c) == s[..RuneLength(s)]
  {
    if s[0] < 0x80 {
      c := s[0];
    } else if s[0] <= 0xdf {
      TwoBytes(s);
      c := Code2(s[0], s[1]);
    } else if s[0] <= 0xef {
      ThreeBytes(s);
      c := Code3(s[0], s[1], s[2]);
    } else {
      FourBytes(s);
      c := Code4(s[0], s[1], s[2], s[3]);
    }
  }

  lemma TwoBytes(s: seq<Byte>)
    requires s != [] && RuneLength(s) > 0 && 0x80 <= s[0] <= 0xdf
    ensures RuneLength(s) == 2 && var c := Code2(s[0], s[1]); 0x80 <= c < 0x800 && EncodeRune(c) == s[..2]
  {
    var c := Code2(s[0], s[1]);
    assert c / 64 == s[0] - 0xc0 && c % 64 == Low(s[1]);
  }

  lemma ThreeBytes(s: seq<Byte>)
    requires s != [] && RuneLength(s) > 0 && 0xe0 <= s[0] <= 0xef
    ensures RuneLength(s) == 3
    ensures var c := Code3(s[0], s[1], s[2]);
            0x800 <= c < 0x1_0000 && !(0xd800 <= c < 0xe000) && EncodeRune(c) == s[..3]
  {
    var c := Code3(s[0], s[1], s[2]);
    assert c / 64 == 64 * (s[0] as int - 0xe0) + Low(s[1]) && c % 64 == Low(s[2]);
    assert c / 4096 == s[0] - 0xe0 && c / 64 % 64 == Low(s[1]);
  }

  lemma FourBytes(s: seq<Byte>)
    requires s != [] && RuneLength(s) > 0 && 0xf0 <= s[0]
    ensures RuneLength(s) == 4
    ensures var c := Code4(s[0], s[1], s[2], s[3]); 0x1_0000 <= c < 0x11_0000 && EncodeRune(c) == s[..4]
  {
    var c := Code4(s[0], s[1], s[2], s[3]);
    assert c / 64 == 4096 * (s[0] as int - 0xf0) + 64 * Low(s[1]) + Low(s[2]) && c % 64 == Low(s[3]);
    assert c / 4096 == 64 * (s[0] as int - 0xf0) + Low(s[1]) && c / 64 % 64 == Low(s[2]);
    assert c / 262144 == s[0] - 0xf0 && c / 4096 % 64 == Low(s[1]);
  }

  /** An encoded scalar value is recognised in front of anything. */
  lemma RuneIsRecognised(c: Rune, rest: seq<Byte>)
    ensures RuneLength(EncodeRune(c) + rest) == |EncodeRune(c)|
  {
    if c < 0x80 {
    } else if c < 0x800 {
      assert 2 <= c / 64 < 32;
    } else if c < 0x1_0000 {
      assert c / 4096 < 16 && (c / 4096 == 0 ==> c / 64 % 64 >= 32) && (c / 4096 == 13 ==> c / 64 % 64 <= 31);
    } else {
      assert c / 262144 <= 4 && (c / 262144 == 0 ==> c / 4096 % 64 >= 16) && (c / 262144 == 4 ==> c / 4096 % 64 <= 15);
    }
  }

  lemma {:induction false} EncodedIsValid(cs: seq<Rune>)
    ensures ValidUTF8(EncodeRunes(cs))
  {
    hide EncodeRune, RuneLength;
    if cs != [] {
      var s := EncodeRunes(cs);
      RuneIsRecognised(cs[0], EncodeRunes(cs[1..]));
      assert s[|EncodeRune(cs[0])|..] == EncodeRunes(cs[1..]);
      EncodedIsValid(cs[1..]);
    }
  }

  lemma {:induction false} ValidIsEncoded(s: seq<Byte>) returns (cs: seq<Rune>)
    requires ValidUTF8(s)
    ensures EncodeRunes(cs) == s
  {
    hide EncodeRune, RuneLength;
    cs := [];
    if s != [] {
      var c := FirstRune(s);
      var rest := ValidIsEncoded(s[RuneLength(s)..]);
      cs := [c] + rest;
      assert cs[1..] == rest && s == s[..RuneLength(s)] + s[RuneLength(s)..];
    }
  }

  /** A string is valid UTF-8 if and only if it encodes some Unicode scalar values. */
  lemma ValidTextIsUnicode(s: seq<Byte>)
    ensures ValidUTF8(s) <==> exists cs: seq<Rune> :: EncodeRunes(cs) == s
  {
    hide EncodeRunes, ValidUTF8;
    if ValidUTF8(s) {
      var cs := ValidIsEncoded(s);
    }
    forall cs: seq<Rune> | EncodeRunes(cs) == s
      ensures ValidUTF8(s)
    {
      EncodedIsValid(cs);
    }
  }
}
