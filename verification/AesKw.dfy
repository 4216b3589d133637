/**
 AES Key Wrap (cose/internal/aeskw/aeskw.go): the six rounds over the key data are undone
 step by step, so unwrapping succeeds on exactly the strings that wrapping produces.
 */
module AesKw {
  import opened Bytes
  import opened Blocks

  /** The default initial value (section 2.2.3.1 of RFC 3394). */
  const DEFAULT_IV: seq<Byte> := [0xa6, 0xa6, 0xa6, 0xa6, 0xa6, 0xa6, 0xa6, 0xa6]

  datatype KwError = BadLength | BadKey | IntegrityCheckFailed

  // ---------------------------------------------------------------- registers

  type Half = h: seq<Byte> | |h| == 8 witness seq(8, _ => 0)

  /** The integrity register A and the registers R[1], ..., R[n] (here from 0). */
  datatype Registers = Registers(a: Half, r: seq<Half>)

  /** Step t of section 2.2.1 of RFC 3394, 1 <= t <= 6n: it uses register (t - 1) mod n. */
  function WrapStep(c: Cipher, s: Registers, t: nat): (s': Registers)
    requires t > 0 && s.r != []
    ensures |s'.r| == |s.r|
  {
    var i := (t - 1) % |s.r|;
    var b := c.enc(s.a + s.r[i]);
    Registers(Xor(b[..8], BE(t, 8)), s.r[i := b[8..]])
  }

  function UnwrapStep(c: Cipher, s: Registers, t: nat): (s': Registers)
    requires t > 0 && s.r != []
    ensures |s'.r| == |s.r|
  {
    var i := (t - 1) % |s.r|;
    var b := c.dec(Xor(s.a, BE(t, 8)) + s.r[i]);
    Registers(b[..8], s.r[i := b[8..]])
  }

  /** Steps 1, ..., t. */
  function WrapSteps(c: Cipher, s: Registers, t: nat): (s': Registers)
    requires s.r != []
    ensures |s'.r| == |s.r|
  {
    if t == 0 then s else WrapStep(c, WrapSteps(c, s, t - 1), t)
  }

  /** The inverse steps t, ..., 1. */
  function UnwrapSteps(c: Cipher, s: Registers, t: nat): (s': Registers)
    requires s.r != []
    ensures |s'.r| == |s.r|
    decreases t
  {
    if t == 0 then s else UnwrapSteps(c, UnwrapStep(c, s, t), t - 1)
  }

  lemma StepInverse(c: Cipher, s: Registers, t: nat)
    requires c.IsPermutation() && t > 0 && s.r != []
    ensures UnwrapStep(c, WrapStep(c, s, t), t) == s
    ensures WrapStep(c, UnwrapStep(c, s, t), t) == s
  {
    var n, i, tt := |s.r|, (t - 1) % |s.r|, BE(t, 8);
    var b := c.enc(s.a + s.r[i]);
    XorInvolution(b[..8], tt);
    assert b[..8] + b[8..] == b;
    assert (s.a + s.r[i])[..8] == s.a && (s.a + s.r[i])[8..] == s.r[i];
    assert s.r[i := b[8..]][i := s.r[i]] == s.r;
    var d := c.dec(Xor(s.a, tt) + s.r[i]);
    XorInvolution(s.a, tt);
    assert d[..8] + d[8..] == d;
    assert (Xor(s.a, tt) + s.r[i])[..8] == Xor(s.a, tt) && (Xor(s.a, tt) + s.r[i])[8..] == s.r[i];
    assert s.r[i := d[8..]][i := s.r[i]] == s.r;
  }

  lemma StepsUnfold(c: Cipher, s: Registers, t: nat)
    requires s.r != []
    ensures WrapSteps(c, s, t) == if t == 0 then s else WrapStep(c, WrapSteps(c, s, t - 1), t)
    ensures UnwrapSteps(c, s, t) == if t == 0 then s else UnwrapSteps(c, UnwrapStep(c, s, t), t - 1)
  {
  }

  /** The steps are undone in reverse order, both ways round. */
  lemma {:induction false} StepsInverse(c: Cipher, s: Registers, t: nat)
    requires c.IsPermutation() && s.r != []
    ensures UnwrapSteps(c, WrapSteps(c, s, t), t) == s
    ensures WrapSteps(c, UnwrapSteps(c, s, t), t) == s
    decreases t
  {
    hide *;
    StepsUnfold(c, s, t);
    if t > 0 {
      var w := WrapSteps(c, s, t - 1);
      StepsUnfold(c, WrapStep(c, w, t), t);
      StepsUnfold(c, UnwrapSteps(c, UnwrapStep(c, s, t), t - 1), t);
      StepInverse(c, w, t);
      StepsInverse(c, s, t - 1);
      StepInverse(c, s, t);
      StepsInverse(c, UnwrapStep(c, s, t), t - 1);
    }
  }

  // ---------------------------------------------------------------- the shifting description

  /** Step t as section 2.2.1 of RFC 3394 first describes it: the registers move up by one. */
  function ShiftStep(c: Cipher, s: Registers, t: nat): (s': Registers)
    requires s.r != []
    ensures |s'.r| == |s.r|
  {
    var b := c.enc(s.a + s.r[0]);
    Registers(Xor(b[..8], BE(t, 8)), s.r[1..] + [b[8..]])
  }

  function ShiftSteps(c: Cipher, s: Registers, t: nat): (s': Registers)
    requires s.r != []
    ensures |s'.r| == |s.r|
  {
    if t == 0 then s else ShiftStep(c, ShiftSteps(c, s, t - 1), t)
  }

  function Rotate(r: seq<Half>, k: nat): (r': seq<Half>)
    requires k < |r|
    ensures |r'| == |r|
  {
    r[k..] + r[..k]
  }

  /** The indexed steps are the shifting steps, up to where the registers have moved. */
  lemma {:induction false} IndexedIsShifted(c: Cipher, s: Registers, t: nat)
    requires s.r != []
    ensures ShiftSteps(c, s, t) == Registers(WrapSteps(c, s, t).a, Rotate(WrapSteps(c, s, t).r, t % |s.r|))
  {
    hide WrapStep, ShiftStep;
    if t > 0 {
      IndexedIsShifted(c, s, t - 1);
      var n := |s.r|;
      NextIndex(n, t - 1);
      ShiftedStep(c, WrapSteps(c, s, t - 1), t);
    } else {
      SmallIndex(|s.r|);
    }
  }

  lemma SmallIndex(n: nat)
    requires n > 0
    ensures 0 % n == 0
  {
  }

  lemma ShiftedStep(c: Cipher, w: Registers, t: nat)
    requires t > 0 && w.r != []
    ensures var i, s := (t - 1) % |w.r|, WrapStep(c, w, t);
            var shifted := ShiftStep(c, Registers(w.a, Rotate(w.r, i)), t);
            shifted == Registers(s.a, Rotate(s.r, if i + 1 == |w.r| then 0 else i + 1))
  {
  }

  lemma NextIndex(n: nat, t: nat)
    requires n > 0
    ensures (t + 1) % n == if t % n + 1 == n then 0 else t % n + 1
  {
    var q, i := t / n, t % n;
    Division(n, t);
    if i + 1 == n {
      Distribute(n, q);
      Remainder(n, t + 1, q + 1, 0);
    } else {
      Remainder(n, t + 1, q, i + 1);
    }
  }

  lemma Division(n: nat, t: nat)
    requires n > 0
    ensures t == n * (t / n) + t % n
  {
  }

  lemma Distribute(n: nat, q: nat)
    ensures n * (q + 1) == n * q + n
  {
  }

  lemma Remainder(n: nat, t: nat, q: nat, r: nat)
    requires r < n && t == n * q + r
    ensures t % n == r
  {
    StepIndex(n, q, r);
  }

  /** After the six rounds the registers are back in place: both descriptions wrap alike. */
  lemma BothDescriptionsAgree(c: Cipher, s: Registers)
    requires s.r != []
    ensures WrapSteps(c, s, 6 * |s.r|) == ShiftSteps(c, s, 6 * |s.r|)
  {
    hide WrapSteps, ShiftSteps;
    IndexedIsShifted(c, s, 6 * |s.r|);
    StepIndex(|s.r|, 6, 0);
  }

  // ---------------------------------------------------------------- octet strings

  /** Eight-byte pieces of a string whose length is a multiple of eight. */
  function Halves(p: seq<Byte>): (r: seq<Half>)
    requires |p| % 8 == 0
    ensures |r| == |p| / 8
    ensures forall i | 0 <= i < |r| :: r[i] == p[8 * i..8 * i + 8]
  {
    seq(|p| / 8, i requires 0 <= i < |p| / 8 => p[8 * i..8 * i + 8])
  }

  function Join(r: seq<Half>): (p: seq<Byte>)
    ensures |p| == 8 * |r|
  {
    if r == [] then [] else Join(r[..|r| - 1]) + r[|r| - 1]
  }

  lemma HalvesFront(p: seq<Byte>)
    requires |p| % 8 == 0 && p != []
    ensures Halves(p)[..|p| / 8 - 1] == Halves(p[..|p| - 8])
  {
    var q := p[..|p| - 8];
    assert |q| / 8 == |p| / 8 - 1;
    forall i | 0 <= i < |q| / 8
      ensures Halves(p)[i] == Halves(q)[i]
    {
      assert q[8 * i..8 * i + 8] == p[8 * i..8 * i + 8];
    }
  }

  lemma {:induction false} JoinOfHalves(p: seq<Byte>)
    requires |p| % 8 == 0
    ensures Join(Halves(p)) == p
  {
    hide Halves;
    if p != [] {
      var k := |p| - 8;
      JoinOfHalves(p[..k]);
      HalvesFront(p);
      LastHalf(p);
      assert p == p[..k] + p[k..];
    }
  }

  lemma LastHalf(p: seq<Byte>)
    requires |p| % 8 == 0 && p != []
    ensures |p| / 8 > 0 && Halves(p)[|p| / 8 - 1] == p[|p| - 8..]
  {
    assert 8 * (|p| / 8 - 1) == |p| - 8;
  }

  lemma {:induction false} HalvesOfJoin(r: seq<Half>)
    ensures Halves(Join(r)) == r
  {
    if r != [] {
      var front, last := r[..|r| - 1], r[|r| - 1];
      HalvesOfJoin(front);
      var p := Join(r);
      assert p[..8 * |front|] == Join(front);
      forall i | 0 <= i < |r|
        ensures Halves(p)[i] == r[i]
      {
        if i < |front| {
          assert Halves(Join(front))[i] == front[i];
          assert p[8 * i..8 * i + 8] == Join(front)[8 * i..8 * i + 8];
        }
      }
    }
  }

  // ---------------------------------------------------------------- wrap and unwrap

  /** Wrap; `cipher` is what aes.NewCipher made of the key-encryption key, None if it refused it. */
  function Wrapped(cipher: Option<Cipher>, p: seq<Byte>): Result<seq<Byte>, KwError> {
    if |p| % 8 != 0 || |p| / 8 < 2 then Failure(BadLength)
    else if cipher.None? then Failure(BadKey)
    else
      var s := WrapSteps(cipher.value, Registers(DEFAULT_IV, Halves(p)), 6 * (|p| / 8));
      Success(s.a + Join(s.r))
  }

  function Unwrapped(cipher: Option<Cipher>, x: seq<Byte>): Result<seq<Byte>, KwError> {
    if |x| % 8 != 0 || |x| / 8 < 3 then Failure(BadLength)
    else if cipher.None? then Failure(BadKey)
    else
      var s := UnwrapSteps(cipher.value, Registers(x[..8], Halves(x[8..])), 6 * (|x| / 8 - 1));
      if s.a != DEFAULT_IV then Failure(IntegrityCheckFailed) else Success(Join(s.r))
  }

  /** Unwrapping yields p exactly on what wrapping makes of p. */
  lemma UnwrapIsExact(cipher: Option<Cipher>, p: seq<Byte>, x: seq<Byte>)
    requires cipher.Some? ==> cipher.value.IsPermutation()
    ensures Unwrapped(cipher, x) == Success(p) <==> Wrapped(cipher, p) == Success(x)
  {
    if Wrapped(cipher, p) == Success(x) {
      WrapThenUnwrap(cipher.value, p, x);
    }
    if Unwrapped(cipher, x) == Success(p) {
      UnwrapThenWrap(cipher.value, p, x);
    }
  }

  lemma WrapThenUnwrap(c: Cipher, p: seq<Byte>, x: seq<Byte>)
    requires c.IsPermutation() && Wrapped(Some(c), p) == Success(x)
    ensures Unwrapped(Some(c), x) == Success(p)
  {
    hide WrapSteps, UnwrapSteps, Halves, Join;
    var start := Registers(DEFAULT_IV, Halves(p));
    var t := 6 * (|p| / 8);
    var s := WrapSteps(c, start, t);
    assert x[..8] == s.a && x[8..] == Join(s.r);
    HalvesOfJoin(s.r);
    StepsInverse(c, start, t);
    JoinOfHalves(p);
  }

  lemma UnwrapThenWrap(c: Cipher, p: seq<Byte>, x: seq<Byte>)
    requires c.IsPermutation() && Unwrapped(Some(c), x) == Success(p)
    ensures Wrapped(Some(c), p) == Success(x)
  {
    hide WrapSteps, UnwrapSteps, Halves, Join;
    var end := Registers(x[..8], Halves(x[8..]));
    var t := 6 * (|x| / 8 - 1);
    var s := UnwrapSteps(c, end, t);
    StepsInverse(c, end, t);
    HalvesOfJoin(s.r);
    JoinOfHalves(x[8..]);
    assert x == x[..8] + x[8..];
  }

  /** Wrapping always succeeds on key data of two or more halves, and two wraps are never equal. */
  lemma WrapIsInjective(c: Cipher, p: seq<Byte>, p': seq<Byte>)
    requires c.IsPermutation() && |p| % 8 == 0 && |p| >= 16
    requires Wrapped(Some(c), p) == Wrapped(Some(c), p')
    ensures p == p'
  {
    UnwrapIsExact(Some(c), p, Wrapped(Some(c), p).value);
    UnwrapIsExact(Some(c), p', Wrapped(Some(c), p).value);
  }

  // ---------------------------------------------------------------- the loops

  lemma MultipleBound(n: int, k: int)
    requires n > 0
    ensures k > 0 ==> n * k >= n
    ensures k < 0 ==> n * k <= -n
  {
  }

  /** Division with remainder is unique. */
  lemma StepIndex(n: nat, j: nat, i: nat)
    requires i < n
    ensures (n * j + i) % n == i
  {
    var x := n * j + i;
    var q, r := x / n, x % n;
    assert x == n * q + r;
    MultipleBound(n, j - q);
    assert n * (j - q) == n * j - n * q;
  }

  method Split(p: seq<Byte>) returns (r: array<Half>)
    requires |p| % 8 == 0
    ensures fresh(r) && r[..] == Halves(p)
  {
    var n := |p| / 8;
    r := new Half[n];
    var i := 0;
    while i < n
      invariant i <= n && r[..i] == Halves(p)[..i]
    {
      r[i] := p[8 * i..8 * i + 8];
      i := i + 1;
    }
  }

  method Concatenate(head: seq<Byte>, r: array<Half>) returns (out: seq<Byte>)
    ensures out == head + Join(r[..])
  {
    out := head;
    var i := 0;
    while i < r.Length
      invariant i <= r.Length && out == head + Join(r[..i])
    {
      assert r[..i + 1][..i] == r[..i];
      out := out + r[i];
      i := i + 1;
    }
    assert r[..i] == r[..];
  }

  /** One turn of the wrapping loop, for register i. */
  method EncryptRegister(c: Cipher, a: array<Byte>, r: array<Half>, buf: array<Byte>, i: nat, t: nat)
    requires a.Length == 8 && buf.Length == 16 && a != buf && i < r.Length && t > 0 && (t - 1) % r.Length == i
    modifies a, r, buf
    ensures Registers(a[..], r[..]) == WrapStep(c, Registers(old(a[..]), old(r[..])), t)
  {
    Copy(buf, 0, a[..]);
    Copy(buf, 8, r[i]);
    assert buf[..] == old(a[..]) + old(r[i]);
    var b := c.enc(buf[..]);
    Copy(buf, 0, b);
    assert buf[..] == b;
    Copy(a, 0, buf[..8]);
    assert a[..] == b[..8];
    XorInto(a, BE(t, 8));
    r[i] := buf[8..];
    assert r[..] == old(r[..])[i := b[8..]];
  }

  /** One turn of the unwrapping loop, for register i. */
  method DecryptRegister(c: Cipher, a: array<Byte>, r: array<Half>, buf: array<Byte>, i: nat, t: nat)
    requires a.Length == 8 && buf.Length == 16 && a != buf && i < r.Length && t > 0 && (t - 1) % r.Length == i
    modifies a, r, buf
    ensures Registers(a[..], r[..]) == UnwrapStep(c, Registers(old(a[..]), old(r[..])), t)
  {
    XorInto(a, BE(t, 8));
    Copy(buf, 0, a[..]);
    Copy(buf, 8, r[i]);
    assert buf[..] == Xor(old(a[..]), BE(t, 8)) + old(r[i]);
    var b := c.dec(buf[..]);
    Copy(buf, 0, b);
    assert buf[..] == b;
    Copy(a, 0, buf[..8]);
    assert a[..] == b[..8];
    r[i] := buf[8..];
    assert r[..] == old(r[..])[i := b[8..]];
  }

  method Wrap(cipher: Option<Cipher>, plaintext: seq<Byte>) returns (res: Result<seq<Byte>, KwError>)
    ensures res == Wrapped(cipher, plaintext)
    ensures cipher.Some? && |plaintext| % 8 == 0 && |plaintext| >= 16 ==>
              var a: Half := [0xa6, 0xa6, 0xa6, 0xa6, 0xa6, 0xa6, 0xa6, 0xa6];
              var s := ShiftSteps(cipher.value, Registers(a, Halves(plaintext)), 6 * (|plaintext| / 8));
              res == Success(s.a + Join(s.r))
  {
    hide WrapStep, Halves, Join, ShiftSteps;
    var n := |plaintext| / 8;
    if |plaintext| % 8 != 0 || n < 2 {
      return Failure(BadLength);
    }
    if cipher.None? {
      return Failure(BadKey);
    }
    var c := cipher.value;
    ghost var start := Registers(DEFAULT_IV, Halves(plaintext));
    var a := new Byte[8];
    Copy(a, 0, DEFAULT_IV);
    assert a[..] == DEFAULT_IV;
    var r := Split(plaintext);
    var buf := new Byte[16];
    var j := 0;
    while j < 6
      invariant j <= 6
      invariant Registers(a[..], r[..]) == WrapSteps(c, start, n * j)
    {
      var i := 0;
      while i < n
        invariant i <= n
        invariant Registers(a[..], r[..]) == WrapSteps(c, start, n * j + i)
      {
        StepIndex(n, j, i);
        EncryptRegister(c, a, r, buf, i, n * j + i + 1);
        i := i + 1;
      }
      assert n * j + n == n * (j + 1);
      j := j + 1;
    }
    BothDescriptionsAgree(c, start);
    var out := Concatenate(a[..], r);
    return Success(out);
  }

  method Unwrap(cipher: Option<Cipher>, ciphertext: seq<Byte>) returns (res: Result<seq<Byte>, KwError>)
    ensures res == Unwrapped(cipher, ciphertext)
  {
    hide UnwrapStep, Halves, Join;
    var n := |ciphertext| / 8 - 1;
    if |ciphertext| % 8 != 0 || n < 2 {
      return Failure(BadLength);
    }
    if cipher.None? {
      return Failure(BadKey);
    }
    var c := cipher.value;
    ghost var end := Registers(ciphertext[..8], Halves(ciphertext[8..]));
    var a := new Byte[8];
    Copy(a, 0, ciphertext[..8]);
    assert a[..] == ciphertext[..8];
    var r := Split(ciphertext[8..]);
    var buf := new Byte[16];
    var j := 5;
    while j >= 0
      invariant -1 <= j <= 5
      invariant UnwrapSteps(c, Registers(a[..], r[..]), n * (j + 1)) == UnwrapSteps(c, end, 6 * n)
    {
      var i := n - 1;
      assert n * j + i + 1 == n * (j + 1);
      while i >= 0
        invariant -1 <= i < n
        invariant n * j + i + 1 >= 0
        invariant UnwrapSteps(c, Registers(a[..], r[..]), n * j + i + 1) == UnwrapSteps(c, end, 6 * n)
      {
        StepIndex(n, j, i);
        DecryptRegister(c, a, r, buf, i, n * j + i + 1);
        i := i - 1;
      }
      j := j - 1;
    }
    if a[..] != DEFAULT_IV {
      return Failure(IntegrityCheckFailed);
    }
    var out := Concatenate([], r);
    assert [] + Join(r[..]) == Join(r[..]);
    return Success(out);
  }
}
