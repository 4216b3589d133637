/**
 AES Key Wrap as section 2.2.1 of RFC 3394 first describes it: the registers shift, and A starts from
 eight bytes a6.
 */
module AesKwFormat {
  import opened Bytes
  import opened Blocks
  import opened AesKw

  /**
   Key data wrap to x if and only if they are two or more halves and x is what the shifting registers
   hold after 6n steps, A in front, from A = a6a6a6a6a6a6a6a6.
   */
  lemma WrapIsShifting(c: Cipher, p: seq<Byte>, x: seq<Byte>)
    ensures Wrapped(Some(c), p) == Success(x) <==>
            && |p| % 8 == 0 && |p| >= 16
            && var a: Half := [0xa6, 0xa6, 0xa6, 0xa6, 0xa6, 0xa6, 0xa6, 0xa6];
            && var s := ShiftSteps(c, Registers(a, Halves(p)), 6 * (|p| / 8));
               x == s.a + Join(s.r)
  {
    hide WrapSteps, ShiftSteps, Halves, Join;
    if |p| % 8 == 0 && |p| >= 16 {
      BothDescriptionsAgree(c, Registers(DEFAULT_IV, Halves(p)));
    }
  }

  /** Unwrapping gives p back from exactly these x. */
  lemma UnwrapIsShifting(c: Cipher, p: seq<Byte>, x: seq<Byte>)
    requires c.IsPermutation()
    ensures Unwrapped(Some(c), x) == Success(p) <==>
            && |p| % 8 == 0 && |p| >= 16
            && var a: Half := [0xa6, 0xa6, 0xa6, 0xa6, 0xa6, 0xa6, 0xa6, 0xa6];
            && var s := ShiftSteps(c, Registers(a, Halves(p)), 6 * (|p| / 8));
               x == s.a + Join(s.r)
  {
    hide Wrapped, Unwrapped, ShiftSteps, Halves, Join;
    UnwrapIsExact(Some(c), p, x);
    WrapIsShifting(c, p, x);
  }

  /** What step t does to registers where encryption changes nothing: the last byte of A takes t. */
  lemma PlainStep(s: Registers, t: nat, x: Byte)
    requires 0 < t < 0x100 && s.r != []
    requires s.a == [0xa6, 0xa6, 0xa6, 0xa6, 0xa6, 0xa6, 0xa6, x]
    ensures WrapStep(IDENTITY, s, t) ==
            Registers([0xa6, 0xa6, 0xa6, 0xa6, 0xa6, 0xa6, 0xa6, XorByte(x, t)], s.r)
  {
    hide XorByte, BE;
    var i := (t - 1) % |s.r|;
    var b := s.a + s.r[i];
    assert IDENTITY.enc(b) == b && b[..8] == s.a && b[8..] == s.r[i];
    StepNumber(t);
    SameUnderZero();
    assert Xor(s.a, BE(t, 8)) == [0xa6, 0xa6, 0xa6, 0xa6, 0xa6, 0xa6, 0xa6, XorByte(x, t)];
    assert s.r[i := s.r[i]] == s.r;
  }

  const IDENTITY := Cipher((b: Block) => b, (b: Block) => b)

  lemma SameUnderZero()
    ensures XorByte(0xa6, 0) == 0xa6
  {
  }

  lemma StepNumber(t: Byte)
    ensures BE(t, 8) == [0, 0, 0, 0, 0, 0, 0, t]
  {
    assert BE(0, 7) == [0, 0, 0, 0, 0, 0, 0];
  }

  /** The last byte of A over the twelve steps. */
  lemma TwelveXors()
    ensures XorByte(0xa6, 1) == 0xa7 && XorByte(0xa7, 2) == 0xa5 && XorByte(0xa5, 3) == 0xa6
    ensures XorByte(0xa6, 4) == 0xa2 && XorByte(0xa2, 5) == 0xa7 && XorByte(0xa7, 6) == 0xa1
    ensures XorByte(0xa1, 7) == 0xa6 && XorByte(0xa6, 8) == 0xae && XorByte(0xae, 9) == 0xa7
    ensures XorByte(0xa7, 10) == 0xad && XorByte(0xad, 11) == 0xa6 && XorByte(0xa6, 12) == 0xaa
  {
  }

  /** The state after k plain steps, with the last byte x of A. */
  predicate AfterPlain(s: Registers, k: nat, r: seq<Half>, x: Byte)
    requires s.r != []
  {
    WrapSteps(IDENTITY, s, k) == Registers([0xa6, 0xa6, 0xa6, 0xa6, 0xa6, 0xa6, 0xa6, x], r)
  }

  lemma NextPlain(s: Registers, k: nat, x: Byte, y: Byte)
    requires s.r != [] && k + 1 < 0x100 && AfterPlain(s, k, s.r, x) && XorByte(x, k + 1) == y
    ensures AfterPlain(s, k + 1, s.r, y)
  {
    hide WrapSteps, WrapStep, XorByte;
    StepsUnfold(IDENTITY, s, k + 1);
    PlainStep(WrapSteps(IDENTITY, s, k), k + 1, x);
  }

  lemma NoSteps(s: Registers)
    requires s.r != [] && s.a == DEFAULT_IV
    ensures AfterPlain(s, 0, s.r, 0xa6)
  {
  }

  /** Where encryption changes nothing, sixteen bytes wrap to a6a6a6a6a6a6a6aa and themselves: 12 xors of A. */
  lemma PlainWrap(p: seq<Byte>)
    requires |p| == 16
    ensures Wrapped(Some(IDENTITY), p) == Success([0xa6, 0xa6, 0xa6, 0xa6, 0xa6, 0xa6, 0xa6, 0xaa] + p)
  {
    hide WrapSteps, XorByte, AfterPlain, Halves, Join;
    var s := Registers(DEFAULT_IV, Halves(p));
    TwelveXors();
    NoSteps(s);
    NextPlain(s, 0, 0xa6, 0xa7);
    NextPlain(s, 1, 0xa7, 0xa5);
    NextPlain(s, 2, 0xa5, 0xa6);
    NextPlain(s, 3, 0xa6, 0xa2);
    NextPlain(s, 4, 0xa2, 0xa7);
    NextPlain(s, 5, 0xa7, 0xa1);
    NextPlain(s, 6, 0xa1, 0xa6);
    NextPlain(s, 7, 0xa6, 0xae);
    NextPlain(s, 8, 0xae, 0xa7);
    NextPlain(s, 9, 0xa7, 0xad);
    NextPlain(s, 10, 0xad, 0xa6);
    NextPlain(s, 11, 0xa6, 0xaa);
    PlainEnd(s, 0xaa);
    JoinOfHalves(p);
  }

  lemma PlainEnd(s: Registers, x: Byte)
    requires s.r != [] && AfterPlain(s, 12, s.r, x)
    ensures WrapSteps(IDENTITY, s, 12) == Registers([0xa6, 0xa6, 0xa6, 0xa6, 0xa6, 0xa6, 0xa6, x], s.r)
  {
  }
}
