/**
 Precomputed key orders (rfc8949/preorder.go): encoding a map along an order computed once
 for its keys gives what the deterministic encoder gives.
 */
module Preorder {
  import opened Bytes
  import opened Blocks
  import opened Wire
  import opened Values
  import opened KeyOrder
  import opened Sorting
  import opened Encoding
  import opened Encoder
  import opened Canonical

  datatype MapKeyOrder = MapKeyOrder(encodedKeys: seq<seq<Byte>>, indices: seq<nat>) {
    /** The order can be used for a map of n entries; the encoder panics otherwise. */
    predicate Suits(n: nat) { |encodedKeys| == |indices| && Below(indices, n) }
  }

  /** Entries with the given keys. */
  function KeyEntries(keys: seq<Value>): (r: seq<MapEntry>)
    ensures |r| == |keys|
  {
    seq(|keys|, i requires 0 <= i < |keys| => MapEntry(keys[i], Invalid))
  }

  function KeysOf(m: seq<MapEntry>): (r: seq<Value>)
    ensures |r| == |m|
  {
    seq(|m|, i requires 0 <= i < |m| => m[i].key)
  }

  function Pick(keys: seq<seq<Byte>>, order: seq<nat>): (r: seq<seq<Byte>>)
    requires Below(order, |keys|)
    ensures |r| == |order| && forall k | 0 <= k < |r| :: r[k] == keys[order[k]]
  {
    if order == [] then [] else [keys[order[0]]] + Pick(keys, order[1..])
  }

  function Precomputed(keys: seq<Value>, mode: SortMode, o: EncodeOpts): (r: Result<MapKeyOrder, EncodeError>)
    ensures r.Success? ==> r.value.Suits(|keys|)
  {
    if EncKeys(KeyEntries(keys), o).err.Some? then Failure(EncKeys(KeyEntries(keys), o).err.value)
    else Success(Along(EncKeys(KeyEntries(keys), o).keys, SortedOrder(mode, EncKeys(KeyEntries(keys), o).keys)))
  }

  /** The keys in the given order. */
  function Along(keys: seq<seq<Byte>>, order: seq<nat>): (r: MapKeyOrder)
    requires Below(order, |keys|)
    ensures r.Suits(|keys|)
  {
    MapKeyOrder(Pick(keys, order), order)
  }

  /** What EncodeMapPreordered appends after the head, from position k of the order on. */
  function PreorderedFrom(m: seq<MapEntry>, order: MapKeyOrder, k: nat, o: EncodeOpts): Encoded
    requires order.Suits(|m|) && k <= |order.indices|
    decreases |order.indices| - k
  {
    if k == |order.indices| then Done([])
    else Then(EncWritten(order.encodedKeys[k], m[order.indices[k]], o), PreorderedFrom(m, order, k + 1, o))
  }

  function Preordered(m: seq<MapEntry>, order: MapKeyOrder, o: EncodeOpts): Encoded
    requires order.Suits(|m|)
  {
    Then(Done(HeadBytes(MAJOR_MAP, Len64(|m|))), PreorderedFrom(m, order, 0, o))
  }

  // ---------------------------------------------------------------- agreement

  lemma {:induction false} SameKeys(p: seq<MapEntry>, q: seq<MapEntry>, o: EncodeOpts)
    requires |p| == |q| && forall i | 0 <= i < |p| :: p[i].key == q[i].key
    ensures EncKeys(p, o) == EncKeys(q, o)
  {
    hide Enc;
    if p != [] {
      SameKeys(p[1..], q[1..], o);
    }
  }

  lemma {:induction false} PreorderedIsOrdered(m: seq<MapEntry>, keys: seq<seq<Byte>>, order: seq<nat>, k: nat,
                                               o: EncodeOpts)
    requires |keys| == |m| && Below(order, |m|) && k <= |order|
    ensures Below(order[k..], |m|)
    ensures PreorderedFrom(m, MapKeyOrder(Pick(keys, order), order), k, o) == EncOrdered(m, keys, order[k..], o)
    decreases |order| - k
  {
    hide EncWritten, EncOrdered;
    if k < |order| {
      PreorderedIsOrdered(m, keys, order, k + 1, o);
      OrderedFrom(m, keys, order, k, o);
    } else {
      NoneOrdered(m, keys, order, o);
    }
  }

  lemma NoneOrdered(m: seq<MapEntry>, keys: seq<seq<Byte>>, order: seq<nat>, o: EncodeOpts)
    requires |keys| == |m|
    ensures EncOrdered(m, keys, order[|order|..], o) == Done([])
  {
  }

  /** Text that the checked encoder refuses; in place of an element, key or value it is written unchecked. */
  predicate BadText(v: Value, o: EncodeOpts) {
    v.TextString? && ChecksUTF8(o) && !ValidUTF8(v.s)
  }

  /** What a failed key leaves behind: a map of one entry is written as it goes, a longer one sorts its keys first. */
  function KeyRemains(m: seq<MapEntry>, o: EncodeOpts): seq<Byte> {
    if |m| == 1 then Enc(m[0].key, o).out else []
  }

  /**
   Precomputing the order of the keys of m and encoding m along it does what the encoder does on m:
   the same bytes, the same error with the same bytes written before it.
   */
  predicate Agrees(m: seq<MapEntry>, o: EncodeOpts) {
    if Precomputed(KeysOf(m), o.sortMode, o).Success?
    then Preordered(m, Precomputed(KeysOf(m), o.sortMode, o).value, o) == Enc(Map(m), o)
    else Enc(Map(m), o) == Encoded(HeadBytes(MAJOR_MAP, Len64(|m|)) + KeyRemains(m, o),
                                   Some(Precomputed(KeysOf(m), o.sortMode, o).error))
  }

  /** The same as far as a caller looks: the bytes of a success, the error of a failure. */
  predicate SameOutcome(m: seq<MapEntry>, o: EncodeOpts) {
    if Precomputed(KeysOf(m), o.sortMode, o).Success?
    then
      && Preordered(m, Precomputed(KeysOf(m), o.sortMode, o).value, o).err == Enc(Map(m), o).err
      && (Enc(Map(m), o).Ok() ==>
            Preordered(m, Precomputed(KeysOf(m), o.sortMode, o).value, o).out == Enc(Map(m), o).out)
    else Enc(Map(m), o).err == Some(Precomputed(KeysOf(m), o.sortMode, o).error)
  }

  /** The only maps on which the two differ: one entry, whose first failing part is its key or value as text. */
  predicate UncheckedSingleton(m: seq<MapEntry>, o: EncodeOpts) {
    |m| == 1 && (BadText(m[0].key, o) || (Enc(m[0].key, o).Ok() && BadText(m[0].value, o)))
  }

  /** For a map that the encoder sorts, and for one of at most one entry, it is the encoder itself. */
  lemma SortedOrShort(m: seq<MapEntry>, o: EncodeOpts)
    requires o.deterministic || |m| <= 1
    ensures Agrees(m, o) <==> !UncheckedSingleton(m, o)
    ensures SameOutcome(m, o) <==>
            (!UncheckedSingleton(m, o) || (BadText(m[0].key, o) && EncInline(m[0].value, o).err == Some(InvalidUTF8)))
  {
    hide Precomputed, Preordered, HeadBytes, Enc, EncInline, BadText;
    if |m| > 1 {
      PreorderedIsDeterministic(m, o);
      assert HeadBytes(MAJOR_MAP, Len64(|m|)) + [] == HeadBytes(MAJOR_MAP, Len64(|m|));
    } else if m == [] {
      PreorderedEmpty(o);
    } else {
      assert m == [m[0]] && KeysOf(m) == [m[0].key];
      PreorderedSingleton(m[0], o);
    }
  }

  /** The first value in the order that fails to encode is text that only the precomputed path checks. */
  predicate UncheckedValue(m: seq<MapEntry>, order: seq<nat>, o: EncodeOpts)
    requires Below(order, |m|)
    decreases |order|
  {
    order != [] && (BadText(m[order[0]].value, o)
                    || (Enc(m[order[0]].value, o).Ok() && UncheckedValue(m, order[1..], o)))
  }

  /**
   An encoder that does not sort, used along a precomputed order, writes the map rearranged in that order:
   the same bytes and the same error, unless the first value that fails is text it checks only here.
   */
  lemma PreorderedRearranges(m: seq<MapEntry>, o: EncodeOpts)
    requires !o.deterministic && Precomputed(KeysOf(m), o.sortMode, o).Success?
    ensures var order := Precomputed(KeysOf(m), o.sortMode, o).value;
            Preordered(m, order, o) == Enc(Map(Arrange(m, order.indices)), o) <==>
            !UncheckedValue(m, order.indices, o)
  {
    hide EncKeys, EncOrdered, EncPairs, SortedOrder, HeadBytes, EncWritten, Arrange, UncheckedValue;
    SameKeys(KeyEntries(KeysOf(m)), m, o);
    var keys := EncKeys(m, o).keys;
    var order := SortedOrder(o.sortMode, keys);
    PreorderedIsOrdered(m, keys, order, 0, o);
    assert order[0..] == order;
    KeysAreEncoded(m, o);
    OrderedIsArranged(m, keys, order, o);
    ArrangedSize(m, order);
    SameBehind(HeadBytes(MAJOR_MAP, Len64(|m|)), EncOrdered(m, keys, order, o), EncPairs(Arrange(m, order), o));
  }

  lemma ArrangedSize(m: seq<MapEntry>, order: seq<nat>)
    requires Below(order, |m|)
    ensures |Arrange(m, order)| == |order|
  {
  }

  lemma SameBehind(head: seq<Byte>, a: Encoded, b: Encoded)
    ensures Then(Done(head), a) == Then(Done(head), b) <==> a == b
  {
    assert (head + a.out)[|head|..] == a.out && (head + b.out)[|head|..] == b.out;
  }

  lemma {:induction false} KeysAreEncoded(m: seq<MapEntry>, o: EncodeOpts)
    requires EncKeys(m, o).err.None?
    ensures forall i | 0 <= i < |m| :: Enc(m[i].key, o) == Done(EncKeys(m, o).keys[i])
  {
    hide Enc;
    if m != [] {
      assert EncKey(m[0], o) == Enc(m[0].key, o);
      KeysAreEncoded(m[1..], o);
      assert m == [m[0]] + m[1..];
    }
  }

  lemma {:induction false} OrderedIsArranged(m: seq<MapEntry>, keys: seq<seq<Byte>>, order: seq<nat>, o: EncodeOpts)
    requires |keys| == |m| && Below(order, |m|) && forall i | 0 <= i < |m| :: Enc(m[i].key, o) == Done(keys[i])
    ensures EncOrdered(m, keys, order, o) == EncPairs(Arrange(m, order), o) <==> !UncheckedValue(m, order, o)
    decreases |order|
  {
    hide Enc, EncInline, BadText;
    if order != [] {
      var e, rest := m[order[0]], order[1..];
      OrderedIsArranged(m, keys, rest, o);
      assert Arrange(m, order)[1..] == Arrange(m, rest);
      TextOutcome(e.key, o);
      TextOutcome(e.value, o);
      ValueIs(e, o);
      EntryAlong(keys[order[0]], Enc(e.value, o), EncInline(e.value, o), EncOrdered(m, keys, rest, o),
                 EncPairs(Arrange(m, rest), o));
      assert !BadText(e.key, o);
    }
  }

  lemma ValueIs(e: MapEntry, o: EncodeOpts)
    ensures EncValue(e, o) == Enc(e.value, o)
    ensures EncEntry(e, o) == Then(EncInline(e.key, o), EncInline(e.value, o))
  {
  }

  /** One entry, with its value checked or not, and what follows it. */
  lemma EntryAlong(key: seq<Byte>, checked: Encoded, unchecked: Encoded, a: Encoded, b: Encoded)
    ensures checked == unchecked ==>
              (Then(Done(key), Then(checked, a)) == Then(Then(Done(key), unchecked), b) <==> checked.Ok() ==> a == b)
    ensures checked.out == [] && !checked.Ok() && unchecked.Ok() && unchecked.out != [] ==>
              Then(Done(key), Then(checked, a)) != Then(Then(Done(key), unchecked), b)
  {
    if checked == unchecked && checked.Ok() {
      assert key + (checked.out + a.out) == key + checked.out + a.out;
      SameBehind(key + checked.out, a, b);
    } else if !checked.Ok() && unchecked.Ok() && checked.out == [] && unchecked.out != [] {
      assert |key + unchecked.out + b.out| > |key|;
    }
  }

  /** The order can be computed exactly if every key encodes, its text checked. */
  lemma OrderExists(m: seq<MapEntry>, o: EncodeOpts)
    ensures Precomputed(KeysOf(m), o.sortMode, o).Success? <==> forall i | 0 <= i < |m| :: Enc(m[i].key, o).Ok()
  {
    hide Enc, EncKeys, SortedOrder, Along;
    SameKeys(KeyEntries(KeysOf(m)), m, o);
    KeysAllEncode(m, o);
  }

  lemma {:induction false} KeysAllEncode(m: seq<MapEntry>, o: EncodeOpts)
    ensures EncKeys(m, o).err.None? <==> forall i | 0 <= i < |m| :: Enc(m[i].key, o).Ok()
  {
    hide Enc;
    if m != [] {
      assert EncKey(m[0], o) == Enc(m[0].key, o);
      KeysAllEncode(m[1..], o);
      assert m == [m[0]] + m[1..];
    }
  }

  /**
   What encoding along a precomputed order is, for every encoder and every map. There is an order exactly if
   every key encodes. A map that the encoder sorts, and one of at most one entry, comes out as the encoder writes
   it, if and only if it is not a single entry with text that only the precomputed path checks; the outcome also
   agrees where both report invalid text, the one in the key and the other deeper in the value. An encoder
   that does not sort writes the map rearranged in the order, if and only if the first value that fails is
   not such text.
   */
  lemma PreorderedIsEncoding(m: seq<MapEntry>, o: EncodeOpts)
    ensures Precomputed(KeysOf(m), o.sortMode, o).Success? <==> forall i | 0 <= i < |m| :: Enc(m[i].key, o).Ok()
    ensures o.deterministic || |m| <= 1 ==> (Agrees(m, o) <==> !UncheckedSingleton(m, o))
    ensures o.deterministic || |m| <= 1 ==>
              (SameOutcome(m, o) <==>
               (!UncheckedSingleton(m, o)
                || (BadText(m[0].key, o) && EncInline(m[0].value, o).err == Some(InvalidUTF8))))
    ensures !o.deterministic && Precomputed(KeysOf(m), o.sortMode, o).Success? ==>
              var order := Precomputed(KeysOf(m), o.sortMode, o).value;
              (Preordered(m, order, o) == Enc(Map(Arrange(m, order.indices)), o) <==>
               !UncheckedValue(m, order.indices, o))
  {
    hide Precomputed, Preordered, Enc, EncInline, BadText, Agrees, SameOutcome, UncheckedSingleton, UncheckedValue,
         Arrange;
    OrderExists(m, o);
    if o.deterministic || |m| <= 1 {
      SortedOrShort(m, o);
    }
    if !o.deterministic && Precomputed(KeysOf(m), o.sortMode, o).Success? {
      PreorderedRearranges(m, o);
    }
  }

  /** For a map that the deterministic encoder sorts there is no exception. */
  lemma PreorderedIsDeterministic(m: seq<MapEntry>, o: EncodeOpts)
    requires o.deterministic && |m| > 1
    ensures if Precomputed(KeysOf(m), o.sortMode, o).Success?
            then Preordered(m, Precomputed(KeysOf(m), o.sortMode, o).value, o) == Enc(Map(m), o)
            else Enc(Map(m), o)
                 == Encoded(HeadBytes(MAJOR_MAP, Len64(|m|)), Some(Precomputed(KeysOf(m), o.sortMode, o).error))
  {
    hide EncKeys, EncOrdered, SortedOrder, HeadBytes, EncWritten;
    SameKeys(KeyEntries(KeysOf(m)), m, o);
    var k := EncKeys(m, o);
    if k.err.None? {
      var order := SortedOrder(o.sortMode, k.keys);
      PreorderedIsOrdered(m, k.keys, order, 0, o);
      assert order[0..] == order;
    } else {
      assert HeadBytes(MAJOR_MAP, Len64(|m|)) + [] == HeadBytes(MAJOR_MAP, Len64(|m|));
    }
  }

  lemma PreorderedEmpty(o: EncodeOpts)
    ensures Precomputed(KeysOf([]), o.sortMode, o).Success?
    ensures Preordered([], Precomputed(KeysOf([]), o.sortMode, o).value, o) == Enc(Map([]), o)
    ensures Enc(Map([]), o) == Done(HeadBytes(MAJOR_MAP, 0))
  {
    hide HeadBytes;
    assert KeysOf([]) == [] && KeyEntries([]) == [];
    assert SortedOrder(o.sortMode, []) == [];
    assert PreorderedFrom([], MapKeyOrder([], []), 0, o) == Done([]);
    assert HeadBytes(MAJOR_MAP, 0) + [] == HeadBytes(MAJOR_MAP, 0);
  }

  /** A map of one entry is not sorted, and then the encoder does not check text. */
  lemma PreorderedSingleton(e: MapEntry, o: EncodeOpts)
    ensures Agrees([e], o) <==> !UncheckedSingleton([e], o)
    ensures SameOutcome([e], o) <==>
            (!UncheckedSingleton([e], o) || (BadText(e.key, o) && EncInline(e.value, o).err == Some(InvalidUTF8)))
  {
    hide HeadBytes, ValidUTF8, SortedOrder, Enc, EncInline;
    OneEntry(e, o);
    TextOutcome(e.key, o);
    TextOutcome(e.value, o);
    var head := HeadBytes(MAJOR_MAP, 1);
    assert KeysOf([e]) == [e.key] && KeyEntries([e.key]) == [MapEntry(e.key, Invalid)];
    OneKey(MapEntry(e.key, Invalid), o);
    var key := Enc(e.key, o);
    if key.Ok() {
      OneIndex(o.sortMode, key.out);
      assert Precomputed([e.key], o.sortMode, o) == Success(MapKeyOrder([key.out], [0]));
      OnePreordered(e, key.out, o);
      var value := Enc(e.value, o);
      assert Preordered([e], MapKeyOrder([key.out], [0]), o) ==
             Then(Done(head), Then(Then(Done(key.out), value), Done([])));
      assert key.out + value.out + [] == key.out + value.out;
    } else {
      assert Precomputed([e.key], o.sortMode, o) == Failure(key.err.value);
      if BadText(e.key, o) {
        Longer(head, EncInline(e.key, o).out, EncInline(e.value, o).out);
      }
    }
  }

  lemma Longer(head: seq<Byte>, key: seq<Byte>, value: seq<Byte>)
    requires key != []
    ensures head + (key + value) != head + [] && head + (key + value + []) != head + []
  {
    assert |head + (key + value)| > |head|;
  }

  lemma OneKey(e: MapEntry, o: EncodeOpts)
    ensures EncKeys([e], o) ==
            if Enc(e.key, o).Ok() then EncodedKeys([Enc(e.key, o).out], None) else EncodedKeys([], Enc(e.key, o).err)
  {
    assert [e][1..] == [];
    assert EncKey(e, o) == Enc(e.key, o);
  }

  lemma OneIndex(mode: SortMode, key: seq<Byte>)
    ensures SortedOrder(mode, [key]) == [0]
  {
    assert OrderUpTo(mode, [key], 0) == [];
  }

  lemma OnePreordered(e: MapEntry, key: seq<Byte>, o: EncodeOpts)
    ensures PreorderedFrom([e], MapKeyOrder([key], [0]), 0, o) == Then(Then(Done(key), Enc(e.value, o)), Done([]))
  {
    assert PreorderedFrom([e], MapKeyOrder([key], [0]), 1, o) == Done([]);
    assert EncValue(e, o) == Enc(e.value, o);
  }

  lemma OneEntry(e: MapEntry, o: EncodeOpts)
    ensures Enc(Map([e]), o) ==
            Then(Done(HeadBytes(MAJOR_MAP, 1)), Then(Then(EncInline(e.key, o), EncInline(e.value, o)), Done([])))
  {
    assert [e][1..] == [];
    assert EncEntry(e, o) == Then(EncInline(e.key, o), EncInline(e.value, o));
    assert EncPairs([e], o) == Then(EncEntry(e, o), EncPairs([], o));
  }

  lemma TextOutcome(v: Value, o: EncodeOpts)
    ensures !BadText(v, o) ==> EncInline(v, o) == Enc(v, o)
    ensures BadText(v, o) ==> EncInline(v, o).Ok() && Enc(v, o) == Fail(InvalidUTF8) && EncInline(v, o).out != []
  {
    if BadText(v, o) {
      assert |HeadBytes(MAJOR_TEXT, Len64(|v.s|))| > 0;
    }
  }

  // ---------------------------------------------------------------- the loops

  datatype PreEntry = PreEntry(encoded: seq<Byte>, index: nat)

  /** The loop that encodes every key into an entry. */
  method EncodeEntries(keys: seq<Value>, o: EncodeOpts, cache: SortStateCache?)
    returns (entries: array<PreEntry>, err: Option<EncodeError>)
    modifies Frame(cache)
    ensures err == EncKeys(KeyEntries(keys), o).err && fresh(entries) && entries.Length == |keys|
    ensures err.None? ==> forall k | 0 <= k < |keys| :: entries[k] == PreEntry(EncKeys(KeyEntries(keys), o).keys[k], k)
    ensures cache != null ==> cache.used == old(cache.used)
  {
    hide EncKeys, Enc, KeysContinue;
    ghost var m := KeyEntries(keys);
    entries := new PreEntry[|keys|];
    ghost var done: seq<seq<Byte>> := [];
    KeysStart(m, o);
    var i := 0;
    while i < |keys|
      invariant i <= |keys| && |done| == i
      invariant KeysContinue(m, done, i, o)
      invariant forall k | 0 <= k < i :: entries[k] == PreEntry(done[k], k)
      invariant cache != null ==> entries !in cache.Repr()
      invariant cache != null ==> cache.used == old(cache.used) && fresh(cache.Repr() - old(cache.Repr()))
    {
      KeysStep(m, done, i, o);
      KeyIs(m[i], o);
      var encoded;
      encoded, err := Encode([], keys[i], o, cache);
      if err.Some? {
        return;
      }
      entries[i] := PreEntry(encoded, i);
      done := done + [encoded];
      i := i + 1;
    }
    KeysEnd(m, done, o);
    return entries, None;
  }

  lemma KeyIs(e: MapEntry, o: EncodeOpts)
    ensures EncKey(e, o) == Enc(e.key, o) && [] + Enc(e.key, o).out == Enc(e.key, o).out
  {
  }

  method PrecomputeMapOrder(keys: seq<Value>, mode: SortMode, o: EncodeOpts, cache: SortStateCache?)
    returns (r: Result<MapKeyOrder, EncodeError>)
    modifies Frame(cache)
    ensures r == Precomputed(keys, mode, o)
    ensures cache != null ==> cache.used == old(cache.used)
  {
    hide EncKeys, SortedOrder, KeyCompare, PreorderCompare, Sorted, Pick;
    var entries, err := EncodeEntries(keys, o, cache);
    if err.Some? {
      return Failure(err.value);
    }
    ghost var encodedList := EncKeys(KeyEntries(keys), o).keys;
    var cmp := (a: PreEntry, b: PreEntry) => PreorderCompare(mode, a.encoded, b.encoded);
    ghost var marks := entries[..|keys|];
    SortFunc(entries, |keys|, cmp);
    SortedEntries(marks, encodedList, mode, cmp);
    var sorted := entries[..|keys|];
    r := Success(MapKeyOrder(EncodedOf(sorted), IndicesOf(sorted)));
    SortedParts(sorted, encodedList, SortedOrder(mode, encodedList));
  }

  function EncodedOf(entries: seq<PreEntry>): (r: seq<seq<Byte>>)
    ensures |r| == |entries| && forall k | 0 <= k < |r| :: r[k] == entries[k].encoded
  {
    if entries == [] then [] else EncodedOf(entries[..|entries| - 1]) + [entries[|entries| - 1].encoded]
  }

  function IndicesOf(entries: seq<PreEntry>): (r: seq<nat>)
    ensures |r| == |entries| && forall k | 0 <= k < |r| :: r[k] == entries[k].index
  {
    if entries == [] then [] else IndicesOf(entries[..|entries| - 1]) + [entries[|entries| - 1].index]
  }

  lemma SortedParts(sorted: seq<PreEntry>, keys: seq<seq<Byte>>, order: seq<nat>)
    requires |sorted| == |keys| && Below(order, |keys|) && Indices(sorted, IndexOfEntry) == order
    requires forall k | 0 <= k < |keys| :: var a := sorted[k]; a.index < |keys| && a.encoded == keys[a.index]
    ensures EncodedOf(sorted) == Pick(keys, order) && IndicesOf(sorted) == order
  {
    hide EncodedOf, IndicesOf, Pick, Below;
    forall k | 0 <= k < |sorted|
      ensures order[k] == sorted[k].index
    {
      assert Indices(sorted, IndexOfEntry)[k] == sorted[k].index;
    }
    assert EncodedOf(sorted) == Pick(keys, order);
    assert IndicesOf(sorted) == order;
  }

  function KeyOfEntry(e: PreEntry): seq<Byte> { e.encoded }

  function IndexOfEntry(e: PreEntry): nat { e.index }

  lemma ComparesKeys(mode: SortMode, cmp: (PreEntry, PreEntry) -> int)
    requires forall a: PreEntry, b: PreEntry :: cmp(a, b) == PreorderCompare(mode, a.encoded, b.encoded)
    ensures forall a: PreEntry, b: PreEntry :: cmp(a, b) == KeyCompare(mode, KeyOfEntry(a), KeyOfEntry(b))
  {
    hide KeyCompare, PreorderCompare;
    forall a: PreEntry, b: PreEntry
      ensures cmp(a, b) == KeyCompare(mode, KeyOfEntry(a), KeyOfEntry(b))
    {
      ComparesAgree(mode, a.encoded, b.encoded);
    }
  }

  lemma SortedEntries(entries: seq<PreEntry>, keys: seq<seq<Byte>>, mode: SortMode, cmp: (PreEntry, PreEntry) -> int)
    requires |entries| == |keys| && forall i | 0 <= i < |keys| :: entries[i] == PreEntry(keys[i], i)
    requires forall a: PreEntry, b: PreEntry :: cmp(a, b) == PreorderCompare(mode, a.encoded, b.encoded)
    ensures Indices(Sorted(entries, cmp), IndexOfEntry) == SortedOrder(mode, keys)
    ensures forall k | 0 <= k < |keys| ::
              var a := Sorted(entries, cmp)[k]; a.index < |keys| && a.encoded == keys[a.index]
  {
    hide KeyCompare, PreorderCompare, Sorted, OrderUpTo;
    ComparesKeys(mode, cmp);
    assert entries[..|entries|] == entries;
    SortedIndices(entries, KeyOfEntry, IndexOfEntry, mode, cmp, keys, |entries|);
  }

  method WritePreordered(dst: seq<Byte>, key: seq<Byte>, e: MapEntry, o: EncodeOpts, cache: SortStateCache?)
    returns (out: seq<Byte>, err: Option<EncodeError>)
    modifies Frame(cache)
    ensures out == dst + EncWritten(key, e, o).out && err == EncWritten(key, e, o).err
    ensures cache != null ==> cache.used == old(cache.used) && fresh(cache.Repr() - old(cache.Repr()))
  {
    hide Enc;
    assert EncValue(e, o) == Enc(e.value, o);
    out, err := Encode(dst + key, e.value, o, cache);
    assert dst + key + Enc(e.value, o).out == dst + (key + Enc(e.value, o).out);
  }

  /** The loop over the order. */
  method WriteAlong(dst: seq<Byte>, m: seq<MapEntry>, order: MapKeyOrder, o: EncodeOpts, cache: SortStateCache?)
    returns (out: seq<Byte>, err: Option<EncodeError>)
    requires order.Suits(|m|)
    modifies Frame(cache)
    ensures out == dst + PreorderedFrom(m, order, 0, o).out && err == PreorderedFrom(m, order, 0, o).err
    ensures cache != null ==> cache.used == old(cache.used)
  {
    hide EncWritten, Continues, PreorderedFrom, Below;
    ghost var whole := PreorderedFrom(m, order, 0, o);
    ghost var acc: seq<Byte> := [];
    out := dst;
    ContinuesStart(whole);
    var k := 0;
    while k < |order.encodedKeys|
      invariant k <= |order.encodedKeys| && out == dst + acc
      invariant Continues(whole, acc, PreorderedFrom(m, order, k, o))
      invariant cache != null ==> cache.used == old(cache.used) && fresh(cache.Repr() - old(cache.Repr()))
    {
      PreorderedStep(m, order, k, o);
      ghost var step := EncWritten(order.encodedKeys[k], m[order.indices[k]], o);
      ContinuesStep(whole, acc, step, PreorderedFrom(m, order, k + 1, o));
      out, err := WritePreordered(out, order.encodedKeys[k], m[order.indices[k]], o, cache);
      acc := acc + step.out;
      assert out == dst + acc;
      if err.Some? {
        return;
      }
      k := k + 1;
    }
    PreorderedEnd(m, order, o);
    ContinuesEnd(whole, acc);
    return out, None;
  }

  method EncodeMapPreordered(dst: seq<Byte>, m: seq<MapEntry>, order: MapKeyOrder, o: EncodeOpts,
                             cache: SortStateCache?)
    returns (out: seq<Byte>, err: Option<EncodeError>)
    requires order.Suits(|m|)
    modifies Frame(cache)
    ensures out == dst + Preordered(m, order, o).out && err == Preordered(m, order, o).err
    ensures cache != null ==> cache.used == old(cache.used)
  {
    hide HeadBytes, PreorderedFrom, Below;
    var head := HeadBytes(MAJOR_MAP, Len64(|m|));
    out, err := WriteAlong(dst + head, m, order, o, cache);
    assert dst + head + PreorderedFrom(m, order, 0, o).out == dst + (head + PreorderedFrom(m, order, 0, o).out);
  }

  lemma PreorderedStep(m: seq<MapEntry>, order: MapKeyOrder, k: nat, o: EncodeOpts)
    requires order.Suits(|m|) && k < |order.indices|
    ensures order.indices[k] < |m|
    ensures PreorderedFrom(m, order, k, o) ==
            Then(EncWritten(order.encodedKeys[k], m[order.indices[k]], o), PreorderedFrom(m, order, k + 1, o))
  {
  }

  lemma PreorderedEnd(m: seq<MapEntry>, order: MapKeyOrder, o: EncodeOpts)
    requires order.Suits(|m|)
    ensures PreorderedFrom(m, order, |order.indices|, o) == Done([])
  {
  }
}
