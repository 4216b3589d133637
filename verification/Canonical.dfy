/**
 The main results about encodings: decoding them, their uniqueness, and the independence of
 the deterministic modes from the order of map entries.
 */
module Canonical {
  import opened Bytes
  import opened Wire
  import opened Floats
  import opened Values
  import opened KeyOrder
  import opened Encoding
  import opened Decoding
  import opened RoundTrip

  // ---------------------------------------------------------------- decoding an encoding

  /**
   Whatever follows the encoding, the decoder takes exactly the encoding, and it returns the
   normal form of the value if and only if the value fits the decode options.
   */
  lemma DecodeOfEncode(v: Value, e: EncodeOpts, d: DecodeOpts, rest: seq<Byte>)
    requires Enc(v, e).Ok() && Sized(v)
    ensures var b := Enc(v, e).out;
            && (Decode(b + rest, d).Ok? ==> Decode(b + rest, d).next == |b|)
            && (Decode(b + rest, d) == Decoded.Ok(Norm(v, e), |b|) <==> Fits(v, e, d, 0, Root))
  {
    var b := Enc(v, e).out;
    AtSelf(b + rest, b, rest);
    EncOkOut(v, e);
    hide Enc, Norm, Fits, At, Out;
    FaithfulItem(v, e, d, b + rest, 0, 0, Root);
    assert DecodeAt(b + rest, 0, 0, d, Root) == Decode(b + rest, d);
  }

  /** An encoding that fits is never a proper prefix of another, and determines the normal form. */
  lemma EncodingsArePrefixFree(v: Value, w: Value, e: EncodeOpts, d: DecodeOpts)
    requires Enc(v, e).Ok() && Sized(v) && Fits(v, e, d, 0, Root)
    requires Enc(w, e).Ok() && Sized(w) && Fits(w, e, d, 0, Root)
    requires Enc(v, e).out <= Enc(w, e).out
    ensures Enc(v, e).out == Enc(w, e).out && Norm(v, e) == Norm(w, e)
  {
    var a, b := Enc(v, e).out, Enc(w, e).out;
    assert b == a + b[|a|..] && b == b + [];
    hide Enc, Norm, Fits, Decode;
    DecodeOfEncode(v, e, d, b[|a|..]);
    DecodeOfEncode(w, e, d, []);
  }

  // ---------------------------------------------------------------- permissive mode keeps the value

  /** Without sorting and float conversion the normal form is the value itself. */
  lemma {:induction false} NormIsIdentity(v: Value, e: EncodeOpts)
    requires !e.deterministic && !e.floatMode.Force64?
    ensures Norm(v, e) == v
    decreases v, 1
  {
    match v
    case Array(items) =>
      NormItemsIsIdentity(items, e);
    case Map(pairs) =>
      NormPairsIsIdentity(pairs, 0, e);
      IotaFromZero(|pairs|);
      assert pairs[0..] == pairs;
    case Tag(id, inner) =>
      NormIsIdentity(inner, e);
    case _ =>
  }

  lemma {:induction false} NormItemsIsIdentity(items: seq<Value>, e: EncodeOpts)
    requires !e.deterministic && !e.floatMode.Force64?
    ensures NormItems(items, e) == items
    decreases items, 0
  {
    if items != [] {
      NormIsIdentity(items[0], e);
      NormItemsIsIdentity(items[1..], e);
    }
  }

  lemma NormEntryIsIdentity(m: MapEntry, e: EncodeOpts)
    requires !e.deterministic && !e.floatMode.Force64?
    ensures NormEntry(m, e) == m
    decreases m, 2
  {
    NormIsIdentity(m.key, e);
    NormIsIdentity(m.value, e);
  }

  lemma {:induction false} NormPairsIsIdentity(pairs: seq<MapEntry>, i: nat, e: EncodeOpts)
    requires !e.deterministic && !e.floatMode.Force64? && i <= |pairs|
    ensures NormOrdered(pairs, IotaFrom(i, |pairs|), e) == pairs[i..]
    decreases pairs, 0, |pairs| - i
  {
    if i < |pairs| {
      NormEntryIsIdentity(pairs[i], e);
      NormPairsIsIdentity(pairs, i + 1, e);
      assert IotaFrom(i, |pairs|)[1..] == IotaFrom(i + 1, |pairs|);
    }
  }

  /** In permissive mode, with any option of it, decode undoes encode exactly on the values that fit. */
  lemma PermissiveRoundTrip(v: Value, e: EncodeOpts, d: DecodeOpts, rest: seq<Byte>)
    requires !e.deterministic && !e.floatMode.Force64?
    requires Enc(v, e).Ok() && Sized(v)
    ensures var b := Enc(v, e).out;
            Decode(b + rest, d) == Decoded.Ok(v, |b|) <==> Fits(v, e, d, 0, Root)
  {
    hide Enc, Fits, Decode, Norm;
    NormIsIdentity(v, e);
    DecodeOfEncode(v, e, d, rest);
  }

  // ---------------------------------------------------------------- when an array encodes

  /** The elements one after another, whether or not their text is valid. */
  function ItemsOut(items: seq<Value>, e: EncodeOpts): seq<Byte> {
    if items == [] then [] else Out(items[0], e) + ItemsOut(items[1..], e)
  }

  lemma {:induction false} ItemsEncode(items: seq<Value>, e: EncodeOpts)
    ensures EncItems(items, e).Ok() <==> forall i | 0 <= i < |items| :: Encodes(items[i], e)
    ensures EncItems(items, e).Ok() ==> EncItems(items, e).out == ItemsOut(items, e)
  {
    hide Enc;
    if items != [] {
      ItemsEncode(items[1..], e);
      assert items == [items[0]] + items[1..];
      ElementEncodes(items[0], e);
    }
  }

  lemma ElementEncodes(v: Value, e: EncodeOpts)
    ensures EncInline(v, e).Ok() <==> Encodes(v, e)
    ensures EncInline(v, e).Ok() ==> EncInline(v, e).out == Out(v, e)
  {
    hide Enc, HeadBytes;
  }

  /** An array encodes exactly when its elements do, text unchecked, and then as its head and its elements. */
  lemma ArrayEncodes(items: seq<Value>, e: EncodeOpts)
    ensures Enc(Array(items), e).Ok() <==> forall i | 0 <= i < |items| :: Encodes(items[i], e)
    ensures Enc(Array(items), e).Ok() ==>
              Enc(Array(items), e).out == HeadBytes(MAJOR_ARRAY, Len64(|items|)) + ItemsOut(items, e)
  {
    assert Enc(Array(items), e) == Then(Done(HeadBytes(MAJOR_ARRAY, Len64(|items|))), EncItems(items, e));
    hide Enc, HeadBytes;
    ItemsEncode(items, e);
  }

  // ---------------------------------------------------------------- when a map encodes

  predicate EntryEncodesChecked(m: MapEntry, e: EncodeOpts) {
    Enc(m.key, e).Ok() && Enc(m.value, e).Ok()
  }

  /** Sorted maps check their text keys and values, unsorted ones do not. */
  predicate EntriesEncode(pairs: seq<MapEntry>, e: EncodeOpts) {
    forall i | 0 <= i < |pairs| ::
      if Sorts(e, |pairs|) then EntryEncodesChecked(pairs[i], e) else EntryEncodes(pairs[i], e)
  }

  lemma {:induction false} KeysEncode(pairs: seq<MapEntry>, e: EncodeOpts)
    requires forall i | 0 <= i < |pairs| :: EntryEncodesChecked(pairs[i], e)
    ensures EncKeys(pairs, e).err.None?
  {
    if pairs != [] {
      assert EncKey(pairs[0], e) == Enc(pairs[0].key, e);
      KeysEncode(pairs[1..], e);
    }
  }

  lemma {:induction false} OrderedEncodes(pairs: seq<MapEntry>, keys: seq<seq<Byte>>, order: seq<nat>, e: EncodeOpts)
    requires |keys| == |pairs| && Below(order, |pairs|)
    ensures EncOrdered(pairs, keys, order, e).Ok() <==>
            forall i | 0 <= i < |order| :: Enc(pairs[order[i]].value, e).Ok()
    decreases |order|
  {
    if order != [] {
      OrderedEncodes(pairs, keys, order[1..], e);
      assert EncValue(pairs[order[0]], e) == Enc(pairs[order[0]].value, e);
      assert order == [order[0]] + order[1..];
    }
  }

  lemma {:induction false} PairsEncode(pairs: seq<MapEntry>, e: EncodeOpts)
    requires forall i | 0 <= i < |pairs| :: EntryEncodes(pairs[i], e)
    ensures EncPairs(pairs, e).Ok()
  {
    if pairs != [] {
      PairsEncode(pairs[1..], e);
      assert EntryEncodes(pairs[0], e);
      assert EncEntry(pairs[0], e) == Then(EncInline(pairs[0].key, e), EncInline(pairs[0].value, e));
    }
  }

  /** A map encodes exactly when its entries do, and then as its head and its written entries. */
  lemma MapEncodes(pairs: seq<MapEntry>, e: EncodeOpts)
    ensures Enc(Map(pairs), e).Ok() <==> EntriesEncode(pairs, e)
    ensures Enc(Map(pairs), e).Ok() ==>
              Enc(Map(pairs), e).out ==
                HeadBytes(MAJOR_MAP, Len64(|pairs|)) + PairsOut(pairs, WrittenOrder(pairs, e), e)
  {
    assert Enc(Map(pairs), e) == Then(Done(HeadBytes(MAJOR_MAP, Len64(|pairs|))), MapBody(pairs, e));
    hide HeadBytes, Enc, EntryEncodes, PairsOut;
    if MapBody(pairs, e).Ok() {
      MapBodyOut(pairs, e);
      if Sorts(e, |pairs|) {
        MapBodyChecked(pairs, e);
      }
    }
    if EntriesEncode(pairs, e) {
      if Sorts(e, |pairs|) {
        assert forall i | 0 <= i < |pairs| :: EntryEncodesChecked(pairs[i], e);
        KeysEncode(pairs, e);
        OrderedEncodes(pairs, EncKeys(pairs, e).keys, SortedOrder(e.sortMode, EncKeys(pairs, e).keys), e);
      } else {
        PairsEncode(pairs, e);
      }
    }
  }

  lemma MapBodyChecked(pairs: seq<MapEntry>, e: EncodeOpts)
    requires Sorts(e, |pairs|) && MapBody(pairs, e).Ok()
    ensures forall i | 0 <= i < |pairs| :: EntryEncodesChecked(pairs[i], e)
  {
    hide Enc, EncKeys, EncOrdered, SortedOrder;
    var keys := EncKeys(pairs, e).keys;
    var order := SortedOrder(e.sortMode, keys);
    KeysOut(pairs, e);
    OrderedEncodes(pairs, keys, order, e);
    SortedOrderPermutes(e.sortMode, keys);
    forall i | 0 <= i < |pairs|
      ensures EntryEncodesChecked(pairs[i], e)
    {
      var a := PositionOf(order, |pairs|, i);
    }
  }

  // ---------------------------------------------------------------- the normal form is stable

  /** The entries of the map in the given order. */
  function Arrange(pairs: seq<MapEntry>, order: seq<nat>): (r: seq<MapEntry>)
    requires Below(order, |pairs|)
    ensures |r| == |order|
  {
    seq(|order|, i requires 0 <= i < |order| => pairs[order[i]])
  }

  /** The bytes of the entries, one after another. */
  function Laid(pairs: seq<MapEntry>, e: EncodeOpts): seq<Byte> {
    if pairs == [] then [] else Out(pairs[0].key, e) + (Out(pairs[0].value, e) + Laid(pairs[1..], e))
  }

  lemma {:induction false} PairsOutIsLaid(pairs: seq<MapEntry>, order: seq<nat>, e: EncodeOpts)
    requires Below(order, |pairs|)
    ensures PairsOut(pairs, order, e) == Laid(Arrange(pairs, order), e)
    decreases |order|
  {
    if order != [] {
      PairsOutIsLaid(pairs, order[1..], e);
      assert Arrange(pairs, order)[1..] == Arrange(pairs, order[1..]);
    }
  }

  /**
   What a map that is sorted is written as: its head, and its entries in an order in which every written key
   is before the next, or equal to it.
   */
  lemma WrittenInOrder(pairs: seq<MapEntry>, e: EncodeOpts)
    requires Sorts(e, |pairs|) && Enc(Map(pairs), e).Ok()
    ensures exists order: seq<nat> ::
              && Permutes(order, |pairs|)
              && Enc(Map(pairs), e).out == HeadBytes(MAJOR_MAP, Len64(|pairs|)) + Laid(Arrange(pairs, order), e)
              && forall i, j | 0 <= i < j < |pairs| ::
                   var a, b := Enc(pairs[order[i]].key, e).out, Enc(pairs[order[j]].key, e).out;
                   a == b || Before(e.sortMode, a, b)
  {
    MapEncodes(pairs, e);
    hide Enc, HeadBytes, Laid, Arrange, PairsOut, EncKeys, SortedOrder, Before, Permutes;
    assert forall i | 0 <= i < |pairs| :: EntryEncodesChecked(pairs[i], e);
    KeysEncode(pairs, e);
    var keys := EncKeys(pairs, e).keys;
    var order := SortedOrder(e.sortMode, keys);
    SortedOrderCorrect(e.sortMode, keys);
    SortedOrderPermutes(e.sortMode, keys);
    PairsOutIsLaid(pairs, order, e);
    KeysAreWritten(pairs, e);
  }

  lemma {:induction false} KeysAreWritten(pairs: seq<MapEntry>, e: EncodeOpts)
    requires EncKeys(pairs, e).err.None?
    ensures forall i | 0 <= i < |pairs| :: EncKeys(pairs, e).keys[i] == Enc(pairs[i].key, e).out
  {
    hide Enc;
    if pairs != [] {
      assert EncKey(pairs[0], e) == Enc(pairs[0].key, e);
      KeysAreWritten(pairs[1..], e);
    }
  }

  lemma {:induction false} LaidCongruent(p: seq<MapEntry>, q: seq<MapEntry>, e: EncodeOpts)
    requires |p| == |q|
    requires forall i | 0 <= i < |p| :: Out(p[i].key, e) == Out(q[i].key, e) && Out(p[i].value, e) == Out(q[i].value, e)
    ensures Laid(p, e) == Laid(q, e)
  {
    hide Out;
    if p != [] {
      assert forall i | 0 <= i < |p| - 1 :: p[1..][i] == p[i + 1] && q[1..][i] == q[i + 1];
      LaidCongruent(p[1..], q[1..], e);
    }
  }

  lemma {:induction false} NormOrderedAt(pairs: seq<MapEntry>, order: seq<nat>, e: EncodeOpts, i: nat)
    requires Below(order, |pairs|) && i < |order|
    ensures NormOrdered(pairs, order, e)[i] == NormEntry(pairs[order[i]], e)
    decreases |order|
  {
    if i > 0 {
      NormOrderedAt(pairs, order[1..], e, i - 1);
    }
  }

  lemma {:induction false} NormItemsAt(items: seq<Value>, e: EncodeOpts, i: nat)
    requires i < |items|
    ensures NormItems(items, e)[i] == Norm(items[i], e)
  {
    if i > 0 {
      NormItemsAt(items[1..], e, i - 1);
    }
  }

  /** Sorting leaves an already sorted list of keys alone. */
  lemma {:induction false} SortedStays(mode: SortMode, keys: seq<seq<Byte>>, n: nat)
    requires n <= |keys|
    requires forall i, j | 0 <= i < j < n :: Leq(mode, keys[i], keys[j])
    ensures OrderUpTo(mode, keys, n) == Iota(n)
  {
    if n > 0 {
      SortedStays(mode, keys, n - 1);
    }
  }

  /** A value and its normal form are written alike and have the same normal form. */
  predicate Stable(v: Value, e: EncodeOpts) {
    && Out(Norm(v, e), e) == Out(v, e)
    && (Encodes(v, e) ==> Encodes(Norm(v, e), e))
    && (Enc(v, e).Ok() ==> Enc(Norm(v, e), e).Ok())
    && Norm(Norm(v, e), e) == Norm(v, e)
  }

  /** A float read back from the wire is written as the same wire float. */
  lemma FloatWireStable(v: Value, e: EncodeOpts)
    requires IsFloat(v)
    ensures FloatWireOf(WireValue(FloatWireOf(v, e)), e) == FloatWireOf(v, e)
  {
    var wide := if v.Float32? then SingleToDouble(v.single) else v.double;
    hide ShortestWire, SingleToDouble, HalfToDouble;
    ShortestWireStable(wide);
  }

  lemma StableFloat(v: Value, e: EncodeOpts)
    requires IsFloat(v) && Encodes(v, e)
    ensures Stable(v, e)
  {
    hide FloatWireOf, FloatBytes, HalfToDouble, SingleToDouble, IsFinite32, IsFinite64;
    var n := WireValue(FloatWireOf(v, e));
    assert Norm(v, e) == n && Norm(n, e) == WireValue(FloatWireOf(n, e));
    FloatWireStable(v, e);
    WireFinite(v, e);
    assert IsFiniteFloat(n) == WireIsFinite(FloatWireOf(v, e));
  }

  lemma {:induction false} StableItems(items: seq<Value>, e: EncodeOpts)
    requires EncItems(items, e).Ok()
    ensures EncItems(NormItems(items, e), e).Ok()
    ensures EncItems(NormItems(items, e), e).out == EncItems(items, e).out
    ensures NormItems(NormItems(items, e), e) == NormItems(items, e)
    decreases items, 0
  {
    if items != [] {
      var n := NormItems(items, e);
      assert n[0] == Norm(items[0], e) && n[1..] == NormItems(items[1..], e);
      hide Enc, Norm, Out, NormItems;
      ItemsStep(items, e);
      StableValue(items[0], e);
      StableItems(items[1..], e);
      ItemsJoin(n, e);
      NormItemsStep(n, e);
    }
  }

  lemma NormItemsStep(items: seq<Value>, e: EncodeOpts)
    requires items != []
    ensures NormItems(items, e) == [Norm(items[0], e)] + NormItems(items[1..], e)
  {
  }

  /** The converse of ItemsStep. */
  lemma ItemsJoin(items: seq<Value>, e: EncodeOpts)
    requires items != [] && Encodes(items[0], e) && EncItems(items[1..], e).Ok()
    ensures EncItems(items, e).Ok()
    ensures EncItems(items, e).out == Out(items[0], e) + EncItems(items[1..], e).out
  {
    assert EncItems(items, e) == Then(EncInline(items[0], e), EncItems(items[1..], e));
    assert EncInline(items[0], e) == if items[0].TextString? then Done(Out(items[0], e)) else Enc(items[0], e);
  }

  lemma StableEntry(m: MapEntry, e: EncodeOpts)
    requires EntryEncodes(m, e)
    ensures Stable(m.key, e) && Stable(m.value, e)
    decreases m, 2
  {
    StableValue(m.key, e);
    StableValue(m.value, e);
  }

  lemma StableArray(items: seq<Value>, e: EncodeOpts)
    requires EncItems(items, e).Ok()
    requires EncItems(NormItems(items, e), e).Ok()
    requires EncItems(NormItems(items, e), e).out == EncItems(items, e).out
    requires NormItems(NormItems(items, e), e) == NormItems(items, e)
    ensures Stable(Array(items), e)
  {
    var n := NormItems(items, e);
    assert Norm(Array(items), e) == Array(n) && Norm(Array(n), e) == Array(n);
    assert Enc(Array(items), e) == Then(Done(HeadBytes(MAJOR_ARRAY, Len64(|items|))), EncItems(items, e));
    assert Enc(Array(n), e) == Then(Done(HeadBytes(MAJOR_ARRAY, Len64(|items|))), EncItems(n, e));
  }

  lemma StableTag(id: U64, inner: Value, e: EncodeOpts)
    requires Encodes(Tag(id, inner), e) && Stable(inner, e)
    ensures Stable(Tag(id, inner), e)
  {
    var n := Norm(inner, e);
    assert Enc(inner, e).Ok();
    EncOkOut(inner, e);
    EncOkOut(n, e);
    assert Enc(n, e).out == Enc(inner, e).out;
    assert n.Invalid? ==> inner.Invalid?;
    assert Norm(Tag(id, inner), e) == Tag(id, n) && Norm(Tag(id, n), e) == Tag(id, Norm(n, e));
    hide Norm, HeadBytes;
    assert Enc(Tag(id, inner), e) == Then(Done(HeadBytes(MAJOR_TAG, id)), Enc(inner, e));
    assert Enc(Tag(id, n), e) == Then(Done(HeadBytes(MAJOR_TAG, id)), Enc(n, e));
  }

  /** The written order of a normal form is the order it is in. */
  lemma WrittenOrderOfNormalForm(pairs: seq<MapEntry>, e: EncodeOpts)
    requires EntriesEncode(pairs, e)
    requires forall i | 0 <= i < |pairs| :: Stable(pairs[i].key, e)
    requires EntriesEncode(NormOrdered(pairs, WrittenOrder(pairs, e), e), e)
    ensures WrittenOrder(NormOrdered(pairs, WrittenOrder(pairs, e), e), e) == Iota(|pairs|)
  {
    hide Enc, Norm, PairsOut, EncKeys, OrderUpTo, EntryEncodes;
    var order := WrittenOrder(pairs, e);
    var p := NormOrdered(pairs, order, e);
    if Sorts(e, |pairs|) {
      assert forall i | 0 <= i < |pairs| :: EntryEncodesChecked(pairs[i], e);
      KeysEncode(pairs, e);
      assert forall i | 0 <= i < |p| :: EntryEncodesChecked(p[i], e);
      KeysEncode(p, e);
      var keys, keys' := EncKeys(pairs, e).keys, EncKeys(p, e).keys;
      KeysOut(pairs, e);
      KeysOut(p, e);
      SortedOrderCorrect(e.sortMode, keys);
      forall i | 0 <= i < |pairs|
        ensures keys'[i] == keys[order[i]]
      {
        var m := pairs[order[i]];
        NormOrderedAt(pairs, order, e, i);
        EncOkOut(m.key, e);
        EncOkOut(p[i].key, e);
      }
      SortedStays(e.sortMode, keys', |pairs|);
    }
  }

  /** Entry by entry, a normal form encodes like the map it came from. */
  lemma NormalEntries(pairs: seq<MapEntry>, e: EncodeOpts)
    requires EntriesEncode(pairs, e)
    requires forall i | 0 <= i < |pairs| :: Stable(pairs[i].key, e) && Stable(pairs[i].value, e)
    ensures EntriesEncode(NormOrdered(pairs, WrittenOrder(pairs, e), e), e)
  {
    hide Enc, Norm, Out, WrittenOrder;
    var order := WrittenOrder(pairs, e);
    forall i | 0 <= i < |pairs|
      ensures var p := NormOrdered(pairs, order, e);
              if Sorts(e, |pairs|) then EntryEncodesChecked(p[i], e) else EntryEncodes(p[i], e)
    {
      NormOrderedAt(pairs, order, e, i);
    }
  }

  lemma NormOfNormalForm(pairs: seq<MapEntry>, order: seq<nat>, e: EncodeOpts)
    requires Below(order, |pairs|)
    requires forall i | 0 <= i < |pairs| :: Stable(pairs[i].key, e) && Stable(pairs[i].value, e)
    ensures var p := NormOrdered(pairs, order, e);
            NormOrdered(p, Iota(|p|), e) == p
  {
    hide Enc, Norm, Out;
    var p := NormOrdered(pairs, order, e);
    forall i | 0 <= i < |p|
      ensures NormOrdered(p, Iota(|p|), e)[i] == p[i]
    {
      NormOrderedAt(pairs, order, e, i);
      NormOrderedAt(p, Iota(|p|), e, i);
    }
  }

  lemma LaidOfNormalForm(pairs: seq<MapEntry>, order: seq<nat>, e: EncodeOpts)
    requires Below(order, |pairs|)
    requires forall i | 0 <= i < |pairs| :: Stable(pairs[i].key, e) && Stable(pairs[i].value, e)
    ensures var p := NormOrdered(pairs, order, e);
            PairsOut(p, Iota(|p|), e) == PairsOut(pairs, order, e)
  {
    hide Enc, Norm, Out, PairsOut;
    var p := NormOrdered(pairs, order, e);
    PairsOutIsLaid(pairs, order, e);
    PairsOutIsLaid(p, Iota(|p|), e);
    assert Arrange(p, Iota(|p|)) == p;
    forall i | 0 <= i < |p|
      ensures p[i] == NormEntry(pairs[order[i]], e)
    {
      NormOrderedAt(pairs, order, e, i);
    }
    LaidCongruent(p, Arrange(pairs, order), e);
  }

  lemma StableMap(pairs: seq<MapEntry>, e: EncodeOpts)
    requires Encodes(Map(pairs), e)
    requires forall i | 0 <= i < |pairs| :: Stable(pairs[i].key, e) && Stable(pairs[i].value, e)
    ensures Stable(Map(pairs), e)
  {
    assert Enc(Map(pairs), e).Ok();
    hide Enc, Norm, Stable, EntryEncodes, EntriesEncode, WrittenOrder, PairsOut, HeadBytes, Iota, NormOrdered;
    var order := WrittenOrder(pairs, e);
    var p := NormOrdered(pairs, order, e);
    MapEncodes(pairs, e);
    NormalEntries(pairs, e);
    WrittenOrderOfNormalForm(pairs, e);
    MapEncodes(p, e);
    NormOfNormalForm(pairs, order, e);
    LaidOfNormalForm(pairs, order, e);
    NormMap(pairs, e);
    NormMap(p, e);
    StableFromParts(Map(pairs), Map(p), e);
  }

  lemma NormMap(pairs: seq<MapEntry>, e: EncodeOpts)
    ensures Norm(Map(pairs), e) == Map(NormOrdered(pairs, WrittenOrder(pairs, e), e))
  {
    hide NormOrdered, SortedOrder, Iota, EncKeys;
  }

  lemma StableFromParts(v: Value, n: Value, e: EncodeOpts)
    requires Norm(v, e) == n && Norm(n, e) == n && !v.TextString? && !n.TextString?
    requires Enc(v, e).Ok() && Enc(n, e).Ok() && Enc(v, e).out == Enc(n, e).out
    ensures Stable(v, e)
  {
    hide Enc, Norm;
  }

  /** Every value that encodes is stable. */
  lemma StableValue(v: Value, e: EncodeOpts)
    requires Encodes(v, e)
    ensures Stable(v, e)
    decreases v, 1
  {
    match v
    case Array(items) =>
      assert EncItems(items, e).Ok();
      StableItems(items, e);
      StableArray(items, e);
    case Map(pairs) =>
      assert Enc(v, e).Ok();
      MapEncodes(pairs, e);
      forall i | 0 <= i < |pairs|
        ensures Stable(pairs[i].key, e) && Stable(pairs[i].value, e)
      {
        EntryEncodesEither(pairs, e, i);
        StableEntry(pairs[i], e);
      }
      StableMap(pairs, e);
    case Tag(id, inner) =>
      assert Enc(inner, e).Ok();
      StableValue(inner, e);
      StableTag(id, inner, e);
    case Float32(_) => StableFloat(v, e);
    case Float64(_) => StableFloat(v, e);
    case _ =>
  }

  lemma EntryEncodesEither(pairs: seq<MapEntry>, e: EncodeOpts, i: nat)
    requires EntriesEncode(pairs, e) && i < |pairs|
    ensures EntryEncodes(pairs[i], e)
  {
    hide Enc;
  }

  /** Encoding the normal form gives the same bytes, and normalising twice changes nothing. */
  lemma EncodeOfNormalForm(v: Value, e: EncodeOpts)
    requires Enc(v, e).Ok()
    ensures Enc(Norm(v, e), e) == Enc(v, e)
    ensures Norm(Norm(v, e), e) == Norm(v, e)
  {
    EncOkOut(v, e);
    hide Enc, Norm;
    StableValue(v, e);
    EncOkOut(Norm(v, e), e);
  }

  /**
   Encodings are canonical: two values that fit are written alike exactly when they have the
   same normal form.
   */
  lemma EncodingsAreCanonical(v: Value, w: Value, e: EncodeOpts, d: DecodeOpts)
    requires Enc(v, e).Ok() && Sized(v) && Fits(v, e, d, 0, Root)
    requires Enc(w, e).Ok() && Sized(w) && Fits(w, e, d, 0, Root)
    ensures Enc(v, e) == Enc(w, e) <==> Norm(v, e) == Norm(w, e)
  {
    hide Enc, Norm, Fits;
    EncodeOfNormalForm(v, e);
    EncodeOfNormalForm(w, e);
    if Enc(v, e) == Enc(w, e) {
      EncodingsArePrefixFree(v, w, e, d);
    }
  }

  // ---------------------------------------------------------------- NaN

  lemma DoubleBytesInjective(x: U64, y: U64)
    requires FloatBytes(W64(x)) == FloatBytes(W64(y))
    ensures x == y
  {
    hide BE;
    assert FloatBytes(W64(x))[1..] == BE(x, 8) && FloatBytes(W64(y))[1..] == BE(y, 8);
    BEParts(x);
    BEParts(y);
  }

  ghost predicate NaNsEncodeAlike(e: EncodeOpts) {
    forall x: U64, y: U64 :: IsNaN64(x) && IsNaN64(y) ==> Enc(Float64(x), e) == Enc(Float64(y), e)
  }

  lemma NaNWire(x: U64, e: EncodeOpts)
    requires e.deterministic && e.allowNonFinite && IsNaN64(x)
    ensures Enc(Float64(x), e) == Done(FloatBytes(if e.floatMode.Shortest? then W16(0x7e00) else W64(x)))
  {
    hide FloatBytes, ShortestWire;
    ShortestWireStable(x);
  }

  /**
   A deterministic mode that admits NaN writes all of them alike exactly if it uses the
   shortest float; with forced doubles the payload stays.
   */
  lemma NaNsAreNormalised(e: EncodeOpts)
    requires e.deterministic && e.allowNonFinite
    ensures NaNsEncodeAlike(e) <==> e.floatMode.Shortest?
  {
    hide Enc, FloatBytes, IsNaN64;
    if e.floatMode.Shortest? {
      forall x: U64, y: U64 | IsNaN64(x) && IsNaN64(y)
        ensures Enc(Float64(x), e) == Enc(Float64(y), e)
      {
        NaNWire(x, e);
        NaNWire(y, e);
      }
    } else {
      var x, y: U64 := 0x7ff8_0000_0000_0000, 0x7ff8_0000_0000_0001;
      TwoNaNs(x, y);
      NaNWire(x, e);
      NaNWire(y, e);
      if Enc(Float64(x), e) == Enc(Float64(y), e) {
        DoubleBytesInjective(x, y);
      }
    }
  }

  lemma TwoNaNs(x: U64, y: U64)
    requires x == 0x7ff8_0000_0000_0000 && y == x + 1
    ensures IsNaN64(x) && IsNaN64(y)
  {
  }

  // ---------------------------------------------------------------- the order of entries does not matter

  /** No two keys are written alike. */
  predicate KeysDistinct(pairs: seq<MapEntry>, e: EncodeOpts) {
    forall i, j | 0 <= i < j < |pairs| :: Out(pairs[i].key, e) != Out(pairs[j].key, e)
  }

  /** The entries stand in the order of their written keys. */
  predicate InKeyOrder(pairs: seq<MapEntry>, e: EncodeOpts) {
    forall i, j | 0 <= i < j < |pairs| :: Leq(e.sortMode, Out(pairs[i].key, e), Out(pairs[j].key, e))
  }

  lemma {:induction false} ArrangeElements(pairs: seq<MapEntry>, n: nat)
    requires n <= |pairs|
    ensures Arrange(pairs, Iota(n)) == pairs[..n]
  {
  }

  lemma CancelFirst<T>(a: T, x: seq<T>, y: seq<T>)
    requires multiset([a] + x) == multiset([a] + y)
    ensures multiset(x) == multiset(y)
  {
    assert multiset(x) == multiset([a] + x) - multiset([a]);
    assert multiset(y) == multiset([a] + y) - multiset([a]);
  }

  /** The sequence without its element k. */
  function Without<T>(s: seq<T>, k: nat): (r: seq<T>)
    requires k < |s|
    ensures |r| == |s| - 1
  {
    s[..k] + s[k + 1..]
  }

  lemma WithoutElements<T>(s: seq<T>, k: nat)
    requires k < |s|
    ensures multiset([s[k]] + Without(s, k)) == multiset(s)
  {
    assert s == s[..k] + [s[k]] + s[k + 1..];
  }

  lemma ArrangeWithout(pairs: seq<MapEntry>, q: seq<nat>, k: nat)
    requires Below(q, |pairs|) && k < |q|
    ensures Below(Without(q, k), |pairs|)
    ensures multiset(Arrange(pairs, q)) == multiset([pairs[q[k]]] + Arrange(pairs, Without(q, k)))
  {
    WithoutElements(Arrange(pairs, q), k);
    assert Without(Arrange(pairs, q), k) == Arrange(pairs, Without(q, k));
  }

  /** Arranging along two orders with the same indices gives the same entries. */
  lemma {:induction false} ArrangeMultiset(pairs: seq<MapEntry>, p: seq<nat>, q: seq<nat>)
    requires Below(p, |pairs|) && Below(q, |pairs|) && multiset(p) == multiset(q)
    ensures multiset(Arrange(pairs, p)) == multiset(Arrange(pairs, q))
    decreases |p|
  {
    assert |p| == |multiset(p)| && |q| == |multiset(q)|;
    if p != [] {
      assert p[0] in multiset(q);
      var k :| 0 <= k < |q| && q[k] == p[0];
      hide Arrange, Without;
      WithoutElements(p, 0);
      WithoutElements(q, k);
      CancelFirst(p[0], Without(p, 0), Without(q, k));
      ArrangeWithout(pairs, p, 0);
      ArrangeWithout(pairs, q, k);
      ArrangeMultiset(pairs, Without(p, 0), Without(q, k));
    }
  }

  /** The first of a list in key order has the least key. */
  lemma LeastKey(p: seq<MapEntry>, m: MapEntry, e: EncodeOpts)
    requires InKeyOrder(p, e) && m in p
    ensures Leq(e.sortMode, Out(p[0].key, e), Out(m.key, e))
  {
    hide Out, KeyCompare;
    LeqTotalOrder(e.sortMode, Out(m.key, e), Out(m.key, e), Out(m.key, e));
  }

  /** There is only one way to put entries with distinct keys in key order. */
  lemma {:induction false} KeyOrderIsUnique(p: seq<MapEntry>, q: seq<MapEntry>, e: EncodeOpts)
    requires multiset(p) == multiset(q)
    requires InKeyOrder(p, e) && InKeyOrder(q, e) && KeysDistinct(p, e)
    ensures p == q
    decreases |p|
  {
    hide Out, Leq;
    assert |p| == |multiset(p)| && |q| == |multiset(q)|;
    if p != [] {
      assert p[0] in multiset(q) && q[0] in multiset(p);
      LeastKey(p, q[0], e);
      LeastKey(q, p[0], e);
      LeqTotalOrder(e.sortMode, Out(p[0].key, e), Out(q[0].key, e), []);
      assert q[0] in p;
      assert p[0] == q[0];
      assert p == [p[0]] + p[1..] && q == [q[0]] + q[1..];
      CancelFirst(p[0], p[1..], q[1..]);
      KeyOrderIsUnique(p[1..], q[1..], e);
    }
  }

  /** The written entries of a sorted map: in key order, and the same entries. */
  lemma WrittenEntries(pairs: seq<MapEntry>, e: EncodeOpts)
    requires EntriesEncode(pairs, e) && Sorts(e, |pairs|)
    ensures InKeyOrder(Arrange(pairs, WrittenOrder(pairs, e)), e)
    ensures multiset(Arrange(pairs, WrittenOrder(pairs, e))) == multiset(pairs)
  {
    hide Enc, EncKeys, OrderUpTo, Leq;
    assert forall i | 0 <= i < |pairs| :: EntryEncodesChecked(pairs[i], e);
    KeysEncode(pairs, e);
    KeysOut(pairs, e);
    var keys := EncKeys(pairs, e).keys;
    var order := WrittenOrder(pairs, e);
    SortedOrderCorrect(e.sortMode, keys);
    forall i | 0 <= i < |pairs|
      ensures keys[i] == Out(pairs[i].key, e)
    {
      EncOkOut(pairs[i].key, e);
    }
    ArrangeMultiset(pairs, order, Iota(|pairs|));
    ArrangeElements(pairs, |pairs|);
    assert pairs[..|pairs|] == pairs;
  }

  lemma EntriesEncodePermuted(p: seq<MapEntry>, q: seq<MapEntry>, e: EncodeOpts)
    requires multiset(p) == multiset(q) && EntriesEncode(p, e)
    ensures |p| == |q| && EntriesEncode(q, e)
  {
    hide Enc, EntryEncodes;
    assert |p| == |multiset(p)| && |q| == |multiset(q)|;
    forall i | 0 <= i < |q|
      ensures if Sorts(e, |q|) then EntryEncodesChecked(q[i], e) else EntryEncodes(q[i], e)
    {
      assert q[i] in multiset(q);
      assert q[i] in p;
    }
  }

  lemma DistinctArranged(p: seq<MapEntry>, e: EncodeOpts, order: seq<nat>)
    requires KeysDistinct(p, e) && Permutes(order, |p|)
    ensures KeysDistinct(Arrange(p, order), e)
  {
    hide Out;
    forall i, j | 0 <= i < j < |order|
      ensures Out(Arrange(p, order)[i].key, e) != Out(Arrange(p, order)[j].key, e)
    {
      assert order[i] != order[j];
    }
  }

  lemma WrittenEntriesPermuted(p: seq<MapEntry>, q: seq<MapEntry>, e: EncodeOpts)
    requires EntriesEncode(p, e) && EntriesEncode(q, e) && Sorts(e, |p|) && Sorts(e, |q|)
    requires multiset(p) == multiset(q) && KeysDistinct(p, e)
    ensures Arrange(p, WrittenOrder(p, e)) == Arrange(q, WrittenOrder(q, e))
  {
    hide EntriesEncode, InKeyOrder, KeysDistinct, WrittenOrder, Arrange;
    WrittenEntries(p, e);
    WrittenEntries(q, e);
    WrittenOrderPermutes(p, e);
    DistinctArranged(p, e, WrittenOrder(p, e));
    KeyOrderIsUnique(Arrange(p, WrittenOrder(p, e)), Arrange(q, WrittenOrder(q, e)), e);
  }

  lemma SingleEntry(p: seq<MapEntry>, q: seq<MapEntry>)
    requires multiset(p) == multiset(q) && |p| <= 1
    ensures p == q
  {
    assert |p| == |multiset(p)| && |q| == |multiset(q)|;
    if |p| == 1 {
      assert p[0] in multiset(q);
    }
  }

  lemma {:induction false} NormOrderedIsArranged(pairs: seq<MapEntry>, order: seq<nat>, e: EncodeOpts)
    requires Below(order, |pairs|)
    ensures NormOrdered(pairs, order, e) == NormOrdered(Arrange(pairs, order), Iota(|order|), e)
  {
    hide NormEntry;
    forall i | 0 <= i < |order|
      ensures NormOrdered(pairs, order, e)[i] == NormOrdered(Arrange(pairs, order), Iota(|order|), e)[i]
    {
      NormOrderedAt(pairs, order, e, i);
      NormOrderedAt(Arrange(pairs, order), Iota(|order|), e, i);
    }
  }

  /**
   In a deterministic mode a map whose keys are written differently from each other has one
   encoding and one normal form, whatever the order of its entries.
   */
  lemma EntryOrderIsIrrelevant(p: seq<MapEntry>, q: seq<MapEntry>, e: EncodeOpts)
    requires e.deterministic && multiset(p) == multiset(q) && KeysDistinct(p, e)
    requires Enc(Map(p), e).Ok()
    ensures Enc(Map(q), e) == Enc(Map(p), e)
    ensures Norm(Map(q), e) == Norm(Map(p), e)
  {
    hide Enc, Norm, EntriesEncode, KeysDistinct, WrittenOrder, PairsOut, HeadBytes, Arrange, Iota, NormOrdered;
    MapEncodes(p, e);
    EntriesEncodePermuted(p, q, e);
    MapEncodes(q, e);
    if |p| <= 1 {
      SingleEntry(p, q);
    } else {
      WrittenEntriesPermuted(p, q, e);
      PairsOutIsLaid(p, WrittenOrder(p, e), e);
      PairsOutIsLaid(q, WrittenOrder(q, e), e);
      NormOrderedIsArranged(p, WrittenOrder(p, e), e);
      NormOrderedIsArranged(q, WrittenOrder(q, e), e);
      NormMap(p, e);
      NormMap(q, e);
    }
  }

  /**
   The sorting algorithm does not matter either: any order that lists every entry once and
   ascends in the written keys yields the same bytes.
   */
  lemma AnySortWritesTheSame(pairs: seq<MapEntry>, order: seq<nat>, e: EncodeOpts)
    requires EntriesEncode(pairs, e) && Sorts(e, |pairs|) && KeysDistinct(pairs, e)
    requires Below(order, |pairs|) && multiset(order) == multiset(Iota(|pairs|))
    requires InKeyOrder(Arrange(pairs, order), e)
    ensures PairsOut(pairs, order, e) == PairsOut(pairs, WrittenOrder(pairs, e), e)
  {
    hide EntriesEncode, InKeyOrder, KeysDistinct, WrittenOrder, PairsOut, Arrange;
    var written := WrittenOrder(pairs, e);
    WrittenEntries(pairs, e);
    WrittenOrderPermutes(pairs, e);
    DistinctArranged(pairs, e, written);
    ArrangeMultiset(pairs, order, Iota(|pairs|));
    ArrangeElements(pairs, |pairs|);
    assert pairs[..|pairs|] == pairs;
    KeyOrderIsUnique(Arrange(pairs, written), Arrange(pairs, order), e);
    PairsOutIsLaid(pairs, order, e);
    PairsOutIsLaid(pairs, written, e);
  }
}
