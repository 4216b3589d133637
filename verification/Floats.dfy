/**
 IEEE 754 binary16, binary32 and binary64 as bit patterns, and the narrowing that the
 encoder uses (wire/float16.go).

 The reference is `Number`: what a float denotes, independent of its width. A finite
 nonzero number is sig * 2^exp in its normalised form, 2^52 <= sig < 2^53, which every
 value of the three widths has exactly once. Equality of two Numbers is therefore exact
 numeric equality across widths, sign of zero included.
 */
module Floats {
  import opened Bytes

  const P10: nat := 0x400
  const P13: nat := 0x2000
  const P23: nat := 0x80_0000
  const P29: nat := 0x2000_0000
  const P31: nat := 0x8000_0000
  const P52: nat := 0x10_0000_0000_0000
  const P63: nat := 0x8000_0000_0000_0000

  // ---------------------------------------------------------------- shifts

  function Shl(m: nat, k: nat): nat {
    if k == 0 then m else 2 * Shl(m, k - 1)
  }

  function Shr(m: nat, k: nat): nat {
    if k == 0 then m else Shr(m / 2, k - 1)
  }

  lemma {:induction false} ShrUndoesShl(m: nat, k: nat)
    ensures Shr(Shl(m, k), k) == m
  {
    if k > 0 {
      ShrUndoesShl(m, k - 1);
    }
  }

  lemma {:induction false} ShlAdd(m: nat, a: nat, b: nat)
    ensures Shl(m, a + b) == Shl(Shl(m, a), b)
  {
    if b > 0 {
      ShlAdd(m, a, b - 1);
    }
  }

  lemma {:induction false} ShlMonotone(m: nat, n: nat, k: nat)
    requires m <= n
    ensures Shl(m, k) <= Shl(n, k)
  {
    if k > 0 {
      ShlMonotone(m, n, k - 1);
    }
  }

  lemma {:induction false} ShrBelow(m: nat, n: nat, k: nat)
    requires m < Shl(n, k)
    ensures Shr(m, k) < n
  {
    if k > 0 {
      ShrBelow(m / 2, n, k - 1);
    }
  }

  lemma {:induction false} ShlStrict(m: nat, n: nat, k: nat)
    requires m < n
    ensures Shl(m, k) < Shl(n, k)
  {
    if k > 0 {
      ShlStrict(m, n, k - 1);
    }
  }

  lemma {:induction false} ShlAtLeast(m: nat, k: nat)
    ensures Shl(m, k) >= m
    ensures m == 0 ==> Shl(m, k) == 0
  {
    if k > 0 {
      ShlAtLeast(m, k - 1);
    }
  }

  lemma Shl4(m: nat)
    ensures Shl(m, 1) == 2 * m && Shl(m, 3) == 8 * m && Shl(m, 4) == 16 * m
  {
    assert Shl(m, 1) == 2 * m;
    assert Shl(m, 2) == 4 * m;
    assert Shl(m, 3) == 8 * m;
  }

  lemma Shl13(m: nat)
    ensures Shl(m, 13) == m * P13
  {
    ShlAdd(m, 4, 9);
    ShlAdd(16 * m, 4, 5);
    ShlAdd(256 * m, 4, 1);
    Shl4(m);
    Shl4(16 * m);
    Shl4(256 * m);
    Shl4(4096 * m);
  }

  lemma ShlConstants(m: nat)
    ensures Shl(m, 13) == m * P13 && Shl(m, 29) == m * P29 && Shl(m, 42) == m * P13 * P29
  {
    Shl13(m);
    ShlAdd(m, 13, 16);
    Shl13(m * P13);
    ShlAdd(m * P13, 13, 3);
    Shl4(m * P13 * P13);
    ShlAdd(m, 29, 13);
    Shl13(m * P29);
  }

  // ---------------------------------------------------------------- normalisation

  /** How many doublings bring m up to 2^52. */
  function NormShift(m: nat): nat
    decreases if m < P52 then P52 - m else 0
  {
    if m == 0 || m >= P52 then 0 else 1 + NormShift(2 * m)
  }

  lemma {:induction false} NormShiftStep(m: nat, j: nat)
    requires 0 < m && j < NormShift(m)
    ensures Shl(m, j) < P52 && NormShift(Shl(m, j)) == NormShift(m) - j
  {
    if j > 0 {
      NormShiftStep(m, j - 1);
    }
  }

  lemma {:induction false} NormShiftOfShl(m: nat, k: nat)
    requires m > 0 && P52 <= Shl(m, k) < 2 * P52
    ensures NormShift(m) == k
    decreases k
  {
    if k == 0 {
    } else {
      ShlAdd(m, 1, k - 1);
      assert Shl(m, 1) == 2 * m;
      if m >= P52 {
        ShlMonotone(P52, m, k - 1);
        ShlAtLeast(P52, k - 1);
      } else {
        NormShiftOfShl(2 * m, k - 1);
      }
    }
  }

  lemma {:induction false} NormRange(m: nat)
    requires 0 < m < 2 * P52
    ensures P52 <= Shl(m, NormShift(m)) < 2 * P52
    ensures NormShift(m) <= 52
    decreases if m < P52 then P52 - m else 0
  {
    if m < P52 {
      NormRange(2 * m);
      ShlAdd(m, 1, NormShift(2 * m));
      assert Shl(m, 1) == 2 * m;
      if NormShift(m) > 52 {
        NormShiftStep(m, 52);
        ShlMonotone(1, m, 52);
        ShlAdd(1, 10, 42);
        ShlAdd(1, 9, 1);
        ShlAdd(1, 4, 5);
        ShlAdd(16, 4, 1);
        Shl4(1);
        Shl4(16);
        Shl4(256);
        Shl4(512);
        ShlConstants(P10);
      }
    }
  }

  /** Fewer significant bits need more doublings. */
  lemma NormShiftAbove(m: nat, n: nat, j: nat)
    requires 0 < m < n && n < P52 && Shl(n, j) <= P52
    ensures NormShift(m) > j
  {
    var k := NormShift(m);
    NormRange(m);
    if k <= j {
      ShlStrict(m, n, k);
      ShlAdd(n, k, j - k);
      ShlAtLeast(Shl(n, k), j - k);
    }
  }

  // ---------------------------------------------------------------- numbers

  /** What a float denotes: sig * 2^exp, normalised; zero is Finite(neg, 0, 0). */
  datatype Number = NaN | Infinite(neg: bool) | Finite(neg: bool, sig: nat, exp: int)

  /** The number (-1)^neg * m * 2^e. */
  function Scaled(neg: bool, m: nat, e: int): Number {
    if m == 0 then Finite(neg, 0, 0) else Finite(neg, Shl(m, NormShift(m)), e - NormShift(m))
  }

  // ---------------------------------------------------------------- bit patterns

  function Exp16(h: U16): nat { h / P10 % 32 }
  function Man16(h: U16): nat { h % P10 }
  function Neg16(h: U16): bool { h >= 0x8000 }
  function Bits16(neg: bool, e: nat, m: nat): (h: U16)
    requires e < 32 && m < P10
    ensures Neg16(h) == neg && Exp16(h) == e && Man16(h) == m
  {
    (if neg then 0x8000 else 0) + e * P10 + m
  }

  function Exp32(b: U32): nat { b / P23 % 256 }
  function Man32(b: U32): nat { b % P23 }
  function Neg32(b: U32): bool { b >= P31 }
  function Bits32(neg: bool, e: nat, m: nat): (b: U32)
    requires e < 256 && m < P23
    ensures Neg32(b) == neg && Exp32(b) == e && Man32(b) == m
  {
    (if neg then P31 else 0) + e * P23 + m
  }

  function Exp64(b: U64): nat { b / P52 % 2048 }
  function Man64(b: U64): nat { b % P52 }
  function Neg64(b: U64): bool { b >= P63 }
  function Bits64(neg: bool, e: nat, m: nat): (b: U64)
    requires e < 2048 && m < P52
    ensures Neg64(b) == neg && Exp64(b) == e && Man64(b) == m
  {
    (if neg then P63 else 0) + e * P52 + m
  }

  lemma BitsOf16(h: U16)
    ensures h == Bits16(Neg16(h), Exp16(h), Man16(h))
  {
  }
  lemma BitsOf32(b: U32)
    ensures b == Bits32(Neg32(b), Exp32(b), Man32(b))
  {
  }
  lemma BitsOf64(b: U64)
    ensures b == Bits64(Neg64(b), Exp64(b), Man64(b))
  {
  }

  predicate IsNaN16(h: U16) { Exp16(h) == 31 && Man16(h) != 0 }
  predicate IsNaN32(b: U32) { Exp32(b) == 255 && Man32(b) != 0 }
  predicate IsFinite32(b: U32) { Exp32(b) != 255 }
  predicate IsNaN64(b: U64) { Exp64(b) == 2047 && Man64(b) != 0 }
  predicate IsFinite64(b: U64) { Exp64(b) != 2047 }
  predicate IsInf64(b: U64) { Exp64(b) == 2047 && Man64(b) == 0 }
  predicate IsZero32(b: U32) { Exp32(b) == 0 && Man32(b) == 0 }
  predicate IsZero64(b: U64) { Exp64(b) == 0 && Man64(b) == 0 }

  function Num16(h: U16): Number {
    if IsNaN16(h) then NaN
    else if Exp16(h) == 31 then Infinite(Neg16(h))
    else if Exp16(h) == 0 then Scaled(Neg16(h), Man16(h), -24)
    else Scaled(Neg16(h), Man16(h) + P10, Exp16(h) - 25)
  }

  function Num32(b: U32): Number {
    if IsNaN32(b) then NaN
    else if Exp32(b) == 255 then Infinite(Neg32(b))
    else if Exp32(b) == 0 then Scaled(Neg32(b), Man32(b), -149)
    else Scaled(Neg32(b), Man32(b) + P23, Exp32(b) - 150)
  }

  function Num64(b: U64): Number {
    if IsNaN64(b) then NaN
    else if Exp64(b) == 2047 then Infinite(Neg64(b))
    else if Exp64(b) == 0 then Scaled(Neg64(b), Man64(b), -1074)
    else Scaled(Neg64(b), Man64(b) + P52, Exp64(b) - 1075)
  }

  /** A number whose normalised exponent is above the subnormal range has these fields. */
  lemma NormalDoubleFields(b: U64)
    requires Num64(b).Finite? && Num64(b).sig > 0 && Num64(b).exp >= -1074
    ensures Exp64(b) == Num64(b).exp + 1075 && Man64(b) == Num64(b).sig - P52
  {
    if Exp64(b) == 0 {
      NormRange(Man64(b));
    }
  }

  lemma {:induction false} ShlInjective(m: nat, n: nat, k: nat)
    requires Shl(m, k) == Shl(n, k)
    ensures m == n
  {
    ShrUndoesShl(m, k);
    ShrUndoesShl(n, k);
  }

  /** Two doubles that denote the same number are the same double, NaN apart. */
  lemma Num64Injective(x: U64, y: U64)
    requires Num64(x) == Num64(y) && !IsNaN64(x)
    ensures x == y
  {
    BitsOf64(x);
    BitsOf64(y);
    if IsFinite64(x) && !IsZero64(x) && !IsZero64(y) {
      if Num64(x).exp >= -1074 {
        NormalDoubleFields(x);
        NormalDoubleFields(y);
      } else {
        ShlInjective(Man64(x), Man64(y), NormShift(Man64(x)));
      }
    }
  }

  // ---------------------------------------------------------------- widening

  const GO_NAN: U64 := 0x7ff8_0000_0000_0001

  /** The double that denotes (-1)^neg * m * 2^e, for magnitudes well inside its range. */
  function Ldexp(neg: bool, m: nat, e: int): (b: U64)
    requires 0 < m < P52 && -200 <= e <= 200
    ensures Num64(b) == Scaled(neg, m, e)
    ensures Exp64(b) > 0
  {
    NormRange(m);
    Bits64(neg, e - NormShift(m) + 1075, Shl(m, NormShift(m)) - P52)
  }

  /** DecodeFloat16: the binary64 value of a half (Appendix D of RFC 8949). */
  function HalfToDouble(h: U16): (b: U64)
    ensures Num64(b) == Num16(h)
  {
    var e, m, neg := Exp16(h), Man16(h), Neg16(h);
    if e == 31 then
      if m == 0 then Bits64(neg, 2047, 0) else if neg then GO_NAN + P63 else GO_NAN
    else if e == 0 then
      if m == 0 then Bits64(neg, 0, 0) else Ldexp(neg, m, -24)
    else Ldexp(neg, m + P10, e - 25)
  }

  /** The conversion float64(x) of a single; a signalling NaN becomes quiet. */
  function SingleToDouble(c: U32): (b: U64)
    ensures Num64(b) == Num32(c)
  {
    var e, m, neg := Exp32(c), Man32(c), Neg32(c);
    if e == 255 then
      Bits64(neg, 2047, if m == 0 then 0 else (if m < P23 / 2 then m + P23 / 2 else m) * P29)
    else if e == 0 then
      if m == 0 then Bits64(neg, 0, 0) else Ldexp(neg, m, -149)
    else Ldexp(neg, m + P23, e - 150)
  }

  // ---------------------------------------------------------------- narrowing

  lemma SubnormalQuotient(m: nat, k: nat)
    requires m < 2 * P52 && 30 <= k
    ensures Shr(m, k) < P23
  {
    ShlAdd(P23, 29, 1);
    ShlConstants(P23);
    assert Shl(P23, 30) == 2 * P52;
    ShlAdd(P23, 30, k - 30);
    ShlAtLeast(Shl(P23, 30), k - 30);
    ShrBelow(m, P23, k);
  }

  /**
   The single that float32(f) produces when that conversion is exact, that is when
   float64(float32(f)) == f; None when it rounds. The argument is not a NaN.
   */
  function NarrowExact(b: U64): (c: Option<U32>)
    requires !IsNaN64(b)
  {
    var e, m, neg := Exp64(b), Man64(b), Neg64(b);
    if e == 2047 then Some(Bits32(neg, 255, 0))
    else if e == 0 && m == 0 then Some(Bits32(neg, 0, 0))
    else if e > 1150 then None
    else if e > 896 then
      if m % P29 == 0 then Some(Bits32(neg, e - 896, m / P29)) else None
    else if e >= 874 then
      SubnormalQuotient(m + P52, 926 - e);
      var f := Shr(m + P52, 926 - e);
      if Shl(f, 926 - e) == m + P52 then Some(Bits32(neg, 0, f)) else None
    else None
  }

  /** A narrowed float denotes the number it was narrowed from. */
  lemma NarrowSound(b: U64)
    requires !IsNaN64(b) && NarrowExact(b).Some?
    ensures Num32(NarrowExact(b).value) == Num64(b)
  {
    var e, m := Exp64(b), Man64(b);
    if e == 2047 || (e == 0 && m == 0) {
    } else if e > 896 {
      ShlConstants(m / P29 + P23);
      NormShiftOfShl(m / P29 + P23, 29);
    } else {
      SubnormalQuotient(m + P52, 926 - e);
      ShlAtLeast(Shr(m + P52, 926 - e), 926 - e);
      NormShiftOfShl(Shr(m + P52, 926 - e), 926 - e);
    }
  }

  /** Every number some single denotes is narrowed to that single. */
  lemma NarrowComplete(b: U64, c: U32)
    requires Num32(c) == Num64(b) && !IsNaN64(b)
    ensures NarrowExact(b) == Some(c)
  {
    BitsOf32(c);
    var e, m := Exp32(c), Man32(c);
    if 0 < e < 255 {
      ShlConstants(m + P23);
      NormShiftOfShl(m + P23, 29);
      NormalDoubleFields(b);
    } else if e == 0 && m > 0 {
      NormRange(m);
      ShlConstants(P23);
      NormShiftAbove(m, P23, 29);
      NormalDoubleFields(b);
      ShrUndoesShl(m, NormShift(m));
    }
  }

  // ---------------------------------------------------------------- half precision

  /** The final check of EncodeFloat16: the half must decode to the magnitude it came from. */
  function CheckHalf(h: U16, b: U64): Option<U16> {
    if Num64(HalfToDouble(h)) == Num64(b) then Some(h) else None
  }

  lemma HalfQuotient(m: nat, k: nat)
    requires m < 2 * P23 && 14 <= k
    ensures Shr(m, k) < P10
  {
    ShlAdd(P10, 13, 1);
    ShlConstants(P10);
    ShlAdd(P10, 14, k - 14);
    ShlAtLeast(Shl(P10, 14), k - 14);
    ShrBelow(m, P10, k);
  }

  /** EncodeFloat16: through the single that equals f, by the cases of the half format. */
  function EncodeFloat16(b: U64): (h: Option<U16>) {
    if IsNaN64(b) then Some(0x7e00)
    else if IsInf64(b) then Some(Bits16(Neg64(b), 31, 0))
    else if IsZero64(b) then Some(Bits16(Neg64(b), 0, 0))
    else if NarrowExact(b).None? then None
    else
      var c := NarrowExact(b).value;
      var exp, m := Exp32(c) - 127, Man32(c);
      if exp < -24 then None
      else if exp < -14 then
        var shift := -14 - exp;
        HalfQuotient(m + P23, 13 + shift);
        var mant := Shr(m + P23, 13 + shift);
        if Shl(mant, 13 + shift) != m + P23 then None else CheckHalf(Bits16(Neg64(b), 0, mant), b)
      else if exp <= 15 then
        if m % P13 != 0 then None else CheckHalf(Bits16(Neg64(b), exp + 15, m / P13), b)
      else None
  }

  /** The single that a number denoted by a normal half is narrowed to. */
  lemma NormalHalfAsSingle(b: U64, e: nat, m: nat)
    requires 0 < e < 31 && m < P10 && Num64(b) == Scaled(Neg64(b), m + P10, e - 25)
    ensures IsFinite64(b) && !IsZero64(b) && NarrowExact(b).Some?
    ensures Exp32(NarrowExact(b).value) == e + 112 && Man32(NarrowExact(b).value) == m * P13
  {
    ShlConstants(m + P10);
    NormShiftOfShl(m + P10, 42);
    NormalDoubleFields(b);
    assert Exp64(b) == e + 1008 && Man64(b) == m * P13 * P29;
    hide NormShift, Shl, Shr;
    assert NarrowExact(b) == Some(Bits32(Neg64(b), e + 112, m * P13));
  }

  lemma EncodeFloat16Normal(b: U64, h: U16)
    requires Num16(h) == Num64(b) && 0 < Exp16(h) < 31
    ensures EncodeFloat16(b) == Some(h)
  {
    hide NarrowExact, NormShift, Shl, Shr;
    BitsOf16(h);
    NormalHalfAsSingle(b, Exp16(h), Man16(h));
  }

  /** The single that a number denoted by a subnormal half is narrowed to. */
  lemma SubnormalHalfAsSingle(b: U64, m: nat)
    requires 0 < m < P10 && Num64(b) == Scaled(Neg64(b), m, -24)
    ensures 43 <= NormShift(m) <= 52
    ensures IsFinite64(b) && NarrowExact(b).Some?
    ensures Exp32(NarrowExact(b).value) == 155 - NormShift(m)
    ensures Man32(NarrowExact(b).value) + P23 == Shl(m, NormShift(m) - 29)
  {
    var k := NormShift(m);
    NormRange(m);
    ShlConstants(P10);
    NormShiftAbove(m, P10, 42);
    NormalDoubleFields(b);
    ShlAdd(m, k - 29, 29);
    ShlConstants(Shl(m, k - 29));
  }

  lemma EncodeFloat16Subnormal(b: U64, h: U16)
    requires Num16(h) == Num64(b) && Exp16(h) == 0 && Man16(h) > 0
    ensures EncodeFloat16(b) == Some(h)
  {
    BitsOf16(h);
    SubnormalHalfAsSingle(b, Man16(h));
    ShrUndoesShl(Man16(h), NormShift(Man16(h)) - 29);
  }

  /**
   EncodeFloat16 is exact: it yields the half h precisely when h denotes the number of f,
   sign of zero included; on a NaN it always yields 7e00.
   */
  lemma EncodeFloat16Exact(b: U64, h: U16)
    ensures !IsNaN64(b) ==> (EncodeFloat16(b) == Some(h) <==> Num16(h) == Num64(b))
    ensures IsNaN64(b) ==> (EncodeFloat16(b) == Some(h) <==> h == 0x7e00)
  {
    if !IsNaN64(b) && Num16(h) == Num64(b) {
      BitsOf16(h);
      if 0 < Exp16(h) < 31 {
        EncodeFloat16Normal(b, h);
      } else if Exp16(h) == 0 && Man16(h) > 0 {
        EncodeFloat16Subnormal(b, h);
      }
    }
  }

  // ---------------------------------------------------------------- shortest form

  /** A float as it stands on the wire, at one of three widths. */
  datatype FloatWire = W16(half: U16) | W32(single: U32) | W64(double: U64)

  /** The number a wire float denotes. */
  function WireNum(w: FloatWire): Number {
    match w
    case W16(h) => Num16(h)
    case W32(c) => Num32(c)
    case W64(b) => Num64(b)
  }

  /** The binary64 value a wire float has once it is widened again. */
  function WireDouble(w: FloatWire): (b: U64)
    ensures Num64(b) == WireNum(w)
  {
    match w
    case W16(h) => HalfToDouble(h)
    case W32(c) => SingleToDouble(c)
    case W64(b) => b
  }

  /** appendShortestFloat: half if exact, else single if exact, else double. */
  function ShortestWire(b: U64): (w: FloatWire) {
    if EncodeFloat16(b).Some? then W16(EncodeFloat16(b).value)
    else if NarrowExact(b).Some? then W32(NarrowExact(b).value)
    else W64(b)
  }

  /** The shortest form keeps the number, and no narrower float denotes it. */
  lemma ShortestWireIsExactAndMinimal(b: U64)
    ensures WireNum(ShortestWire(b)) == Num64(b)
    ensures ShortestWire(b).W16? <==> exists h: U16 :: Num16(h) == Num64(b)
    ensures ShortestWire(b).W64? <==>
            (forall h: U16 :: Num16(h) != Num64(b)) && (forall c: U32 :: Num32(c) != Num64(b))
  {
    assert IsNaN16(0x7e00) && Num16(0x7e00) == NaN;
    forall h: U16
      ensures !IsNaN64(b) ==> (EncodeFloat16(b) == Some(h) <==> Num16(h) == Num64(b))
    {
      EncodeFloat16Exact(b, h);
    }
    if !IsNaN64(b) {
      if NarrowExact(b).Some? {
        NarrowSound(b);
      }
      forall c: U32 | Num32(c) == Num64(b)
        ensures NarrowExact(b) == Some(c)
      {
        NarrowComplete(b, c);
      }
    }
  }

  /** Writing a float shortest, reading it and writing it again gives the same wire float. */
  lemma ShortestWireStable(b: U64)
    ensures ShortestWire(WireDouble(ShortestWire(b))) == ShortestWire(b)
    ensures IsNaN64(b) ==> ShortestWire(b) == W16(0x7e00)
  {
    ShortestWireIsExactAndMinimal(b);
    if !IsNaN64(b) {
      Num64Injective(WireDouble(ShortestWire(b)), b);
    }
  }
}
