/**
 The encoder as it runs (rfc8949/encode.go): loops with inlined cases,
 and the sort state that deterministic maps reuse. Every method is proved to append exactly
 what the function of the same name in `Encoding` says and to return its error, whatever
 the reused buffers held before, and to leave the cache's `used` flag as it found it.
 */
module Encoder {
  import opened Bytes
  import opened Wire
  import opened Floats
  import opened Values
  import opened KeyOrder
  import opened Sorting
  import opened Encoding

  // ---------------------------------------------------------------- sort state

  datatype SortEntry = SortEntry(keyStart: nat, keyEnd: nat, index: nat)

  class SortState {
    var entries: array<SortEntry>
    var keyBuf: seq<Byte>

    constructor (capacity: nat)
      ensures fresh(entries) && entries.Length == capacity
    {
      entries := new SortEntry[capacity];
      keyBuf := [];
    }
  }

  /** A state from the pool: its own, and with any contents. */
  method PooledState() returns (ss: SortState)
    ensures fresh(ss) && fresh(ss.entries)
  {
    ss := new SortState(0);
  }

  class SortStateCache {
    const ss: SortState
    var used: bool

    constructor ()
      ensures fresh(ss) && fresh(ss.entries) && !used
    {
      ss := new SortState(0);
      used := false;
    }

    function Repr(): set<object>
      reads this, ss
    {
      {this, ss, ss.entries}
    }

    /** get: null while the state is in use further up. */
    method Get() returns (state: SortState?)
      modifies if used then {} else {this, ss}
      ensures ss.entries == old(ss.entries)
      ensures old(used) ==> state == null && used
      ensures !old(used) ==> state == ss && used && ss.keyBuf == []
    {
      if used {
        return null;
      }
      used := true;
      ss.keyBuf := [];
      return ss;
    }

    method Put()
      modifies this`used
      ensures !used
    {
      used := false;
    }
  }

  /** What a call may write: nothing while the cache is in use. */
  function Frame(cache: SortStateCache?): set<object>
    reads cache, if cache == null then {} else {cache.ss}
  {
    if cache == null || cache.used then {} else cache.Repr()
  }

  // ---------------------------------------------------------------- steps of the loops

  lemma ItemsFrom(items: seq<Value>, i: nat, o: EncodeOpts)
    requires i < |items|
    ensures EncItems(items[i..], o) == Then(EncInline(items[i], o), EncItems(items[i + 1..], o))
  {
    assert items[i..][1..] == items[i + 1..];
  }

  lemma NoItems(o: EncodeOpts)
    ensures EncItems([], o) == Done([]) && EncPairs([], o) == Done([])
  {
  }

  lemma PairsFrom(pairs: seq<MapEntry>, i: nat, o: EncodeOpts)
    requires i < |pairs|
    ensures EncPairs(pairs[i..], o) == Then(EncEntry(pairs[i], o), EncPairs(pairs[i + 1..], o))
  {
    assert pairs[i..][1..] == pairs[i + 1..];
  }

  /** What is appended after `acc` makes up the whole. */
  predicate Continues(whole: Encoded, acc: seq<Byte>, rest: Encoded) {
    whole == Encoded(acc + rest.out, rest.err)
  }

  lemma ContinuesStep(whole: Encoded, acc: seq<Byte>, step: Encoded, rest: Encoded)
    requires Continues(whole, acc, Then(step, rest))
    ensures step.Ok() ==> Continues(whole, acc + step.out, rest)
    ensures !step.Ok() ==> whole == Encoded(acc + step.out, step.err)
  {
    assert acc + (step.out + rest.out) == (acc + step.out) + rest.out;
  }

  // ---------------------------------------------------------------- items

  method Encode(dst: seq<Byte>, v: Value, o: EncodeOpts, cache: SortStateCache?)
    returns (out: seq<Byte>, err: Option<EncodeError>)
    modifies Frame(cache)
    ensures out == dst + Enc(v, o).out && err == Enc(v, o).err
    ensures cache != null ==> cache.used == old(cache.used) && fresh(cache.Repr() - old(cache.Repr()))
    decreases v, 1
  {
    hide HeadBytes, FloatBytes, FloatWireOf, EncItems, EncPairs, EncOrdered, EncKeys, SortedOrder, ValidUTF8;
    match v
    case Invalid => return dst, Some(NilValue);
    case Uint(n) => return dst + HeadBytes(MAJOR_UINT, n), None;
    case NegInt(n) => return dst + HeadBytes(MAJOR_NEGINT, n), None;
    case ByteString(b) =>
      assert dst + StringBytes(MAJOR_BYTES, b) == dst + HeadBytes(MAJOR_BYTES, Len64(|b|)) + b;
      return dst + HeadBytes(MAJOR_BYTES, Len64(|b|)) + b, None;
    case TextString(s) =>
      if !o.allowInvalidUTF8 && !o.skipUTF8Validation && !ValidUTF8(s) {
        return dst, Some(InvalidUTF8);
      }
      assert dst + StringBytes(MAJOR_TEXT, s) == dst + HeadBytes(MAJOR_TEXT, Len64(|s|)) + s;
      return dst + HeadBytes(MAJOR_TEXT, Len64(|s|)) + s, None;
    case Array(items) => out, err := EncodeArray(dst, items, o, cache);
    case Map(pairs) => out, err := EncodeMap(dst, pairs, o, cache);
    case Tag(id, inner) =>
      if inner.Invalid? {
        return dst, Some(NilValue);
      }
      out, err := Encode(dst + HeadBytes(MAJOR_TAG, id), inner, o, cache);
      assert out == dst + (HeadBytes(MAJOR_TAG, id) + Enc(inner, o).out);
    case Bool(on) => return dst + [if on then SIMPLE_TRUE else SIMPLE_FALSE], None;
    case Null => return dst + [SIMPLE_NULL], None;
    case Undefined => return dst + [SIMPLE_UNDEFINED], None;
    case Simple(code) => return dst + (if code < 24 then [0xe0 + code] else [SIMPLE_ONE_BYTE, code]), None;
    case Float32(_) =>
      if !o.allowNonFinite && !IsFiniteFloat(v) {
        return dst, Some(NonFiniteFloat);
      }
      return dst + FloatBytes(FloatWireOf(v, o)), None;
    case Float64(_) =>
      if !o.allowNonFinite && !IsFiniteFloat(v) {
        return dst, Some(NonFiniteFloat);
      }
      return dst + FloatBytes(FloatWireOf(v, o)), None;
  }

  /** The inlined cases of array elements and of keys and values of unsorted maps. */
  method EncodeInline(dst: seq<Byte>, v: Value, o: EncodeOpts, cache: SortStateCache?)
    returns (out: seq<Byte>, err: Option<EncodeError>)
    modifies Frame(cache)
    ensures out == dst + EncInline(v, o).out && err == EncInline(v, o).err
    ensures cache != null ==> cache.used == old(cache.used) && fresh(cache.Repr() - old(cache.Repr()))
    decreases v, 2
  {
    hide HeadBytes;
    match v
    case Uint(n) => return dst + HeadBytes(MAJOR_UINT, n), None;
    case NegInt(n) => return dst + HeadBytes(MAJOR_NEGINT, n), None;
    case Bool(on) => return dst + [if on then SIMPLE_TRUE else SIMPLE_FALSE], None;
    case Null => return dst + [SIMPLE_NULL], None;
    case ByteString(b) =>
      assert dst + StringBytes(MAJOR_BYTES, b) == dst + HeadBytes(MAJOR_BYTES, Len64(|b|)) + b;
      return dst + HeadBytes(MAJOR_BYTES, Len64(|b|)) + b, None;
    case TextString(s) =>
      assert dst + StringBytes(MAJOR_TEXT, s) == dst + HeadBytes(MAJOR_TEXT, Len64(|s|)) + s;
      return dst + HeadBytes(MAJOR_TEXT, Len64(|s|)) + s, None;
    case _ => out, err := Encode(dst, v, o, cache);
  }

  method EncodeArray(dst: seq<Byte>, items: seq<Value>, o: EncodeOpts, cache: SortStateCache?)
    returns (out: seq<Byte>, err: Option<EncodeError>)
    modifies Frame(cache)
    ensures var r := Then(Done(HeadBytes(MAJOR_ARRAY, Len64(|items|))), EncItems(items, o));
            out == dst + r.out && err == r.err
    ensures cache != null ==> cache.used == old(cache.used) && fresh(cache.Repr() - old(cache.Repr()))
    decreases items, 0
  {
    hide HeadBytes, EncItems, EncInline, Continues;
    ghost var head := HeadBytes(MAJOR_ARRAY, Len64(|items|));
    ghost var whole := EncItems(items, o);
    ghost var acc: seq<Byte> := [];
    out := dst + HeadBytes(MAJOR_ARRAY, Len64(|items|));
    var i := 0;
    ContinuesStart(whole);
    assert items[0..] == items;
    while i < |items|
      invariant i <= |items| && out == dst + (head + acc)
      invariant Continues(whole, acc, EncItems(items[i..], o))
      invariant cache != null ==> cache.used == old(cache.used) && fresh(cache.Repr() - old(cache.Repr()))
    {
      ItemsFrom(items, i, o);
      ContinuesStep(whole, acc, EncInline(items[i], o), EncItems(items[i + 1..], o));
      out, err := EncodeInline(out, items[i], o, cache);
      acc := acc + EncInline(items[i], o).out;
      assert out == dst + (head + acc);
      if err.Some? {
        return;
      }
      i := i + 1;
    }
    NoItems(o);
    assert items[i..] == [];
    ContinuesEnd(whole, acc);
    return out, None;
  }

  lemma ContinuesStart(whole: Encoded)
    ensures Continues(whole, [], whole)
  {
  }

  lemma ContinuesEnd(whole: Encoded, acc: seq<Byte>)
    requires Continues(whole, acc, Done([]))
    ensures whole == Done(acc)
  {
  }

  // ---------------------------------------------------------------- maps

  method EncodeEntry(dst: seq<Byte>, e: MapEntry, o: EncodeOpts, cache: SortStateCache?)
    returns (out: seq<Byte>, err: Option<EncodeError>)
    modifies Frame(cache)
    ensures out == dst + EncEntry(e, o).out && err == EncEntry(e, o).err
    ensures cache != null ==> cache.used == old(cache.used) && fresh(cache.Repr() - old(cache.Repr()))
    decreases e, 3
  {
    hide EncInline;
    out, err := EncodeInline(dst, e.key, o, cache);
    if err.Some? {
      return;
    }
    out, err := EncodeInline(out, e.value, o, cache);
    assert dst + EncInline(e.key, o).out + EncInline(e.value, o).out ==
           dst + (EncInline(e.key, o).out + EncInline(e.value, o).out);
  }

  method EncodeEntryKey(dst: seq<Byte>, e: MapEntry, o: EncodeOpts, cache: SortStateCache?)
    returns (out: seq<Byte>, err: Option<EncodeError>)
    requires cache != null ==> cache.used
    ensures out == dst + EncKey(e, o).out && err == EncKey(e, o).err
    decreases e, 3
  {
    hide Enc;
    out, err := Encode(dst, e.key, o, cache);
  }

  method EncodeEntryValue(dst: seq<Byte>, e: MapEntry, o: EncodeOpts, cache: SortStateCache?)
    returns (out: seq<Byte>, err: Option<EncodeError>)
    requires cache != null ==> cache.used
    ensures out == dst + EncValue(e, o).out && err == EncValue(e, o).err
    decreases e, 3
  {
    hide Enc;
    out, err := Encode(dst, e.value, o, cache);
  }

  /** The entries of a map that is not sorted, in their own order. */
  method EncodeUnsorted(dst: seq<Byte>, m: seq<MapEntry>, o: EncodeOpts, cache: SortStateCache?)
    returns (out: seq<Byte>, err: Option<EncodeError>)
    modifies Frame(cache)
    ensures out == dst + EncPairs(m, o).out && err == EncPairs(m, o).err
    ensures cache != null ==> cache.used == old(cache.used) && fresh(cache.Repr() - old(cache.Repr()))
    decreases m, 0
  {
    hide EncPairs, EncEntry, Continues;
    ghost var whole := EncPairs(m, o);
    ghost var acc: seq<Byte> := [];
    out := dst;
    var i := 0;
    ContinuesStart(whole);
    assert m[0..] == m;
    while i < |m|
      invariant i <= |m| && out == dst + acc
      invariant Continues(whole, acc, EncPairs(m[i..], o))
      invariant cache != null ==> cache.used == old(cache.used) && fresh(cache.Repr() - old(cache.Repr()))
    {
      PairsFrom(m, i, o);
      ContinuesStep(whole, acc, EncEntry(m[i], o), EncPairs(m[i + 1..], o));
      out, err := EncodeEntry(out, m[i], o, cache);
      acc := acc + EncEntry(m[i], o).out;
      assert out == dst + acc;
      if err.Some? {
        return;
      }
      i := i + 1;
    }
    NoItems(o);
    assert m[i..] == [];
    ContinuesEnd(whole, acc);
    return out, None;
  }

  method EncodeMap(dst: seq<Byte>, m: seq<MapEntry>, o: EncodeOpts, cache: SortStateCache?)
    returns (out: seq<Byte>, err: Option<EncodeError>)
    modifies Frame(cache)
    ensures var r := Then(Done(HeadBytes(MAJOR_MAP, Len64(|m|))), MapBody(m, o));
            out == dst + r.out && err == r.err
    ensures cache != null ==> cache.used == old(cache.used) && fresh(cache.Repr() - old(cache.Repr()))
    decreases m, 2
  {
    hide HeadBytes, EncPairs, EncKeys, EncOrdered, SortedOrder;
    var head := HeadBytes(MAJOR_MAP, Len64(|m|));
    var tail: seq<Byte>;
    if !o.deterministic || |m| <= 1 {
      out, err := EncodeUnsorted(dst + head, m, o, cache);
      assert dst + head + EncPairs(m, o).out == dst + (head + EncPairs(m, o).out);
      return;
    }
    var ss: SortState? := null;
    if cache != null {
      ss := cache.Get();
    }
    var pooled := ss == null;
    if ss == null {
      ss := PooledState();
      ss.keyBuf := [];
    }
    out, err := EncodeSorted(dst + head, m, o, cache, ss);
    if !pooled {
      cache.Put();
    }
    assert dst + head + MapBody(m, o).out == dst + (head + MapBody(m, o).out);
  }

  // ---------------------------------------------------------------- sorted maps

  /** keyBuf[a.keyStart:a.keyEnd]. */
  function Stretch(keyBuf: seq<Byte>, a: SortEntry): seq<Byte> {
    if a.keyStart <= a.keyEnd <= |keyBuf| then keyBuf[a.keyStart..a.keyEnd] else []
  }

  function IndexOf(a: SortEntry): nat { a.index }

  /** The entries mark the given keys in the buffer, one after the other. */
  predicate Marks(entries: seq<SortEntry>, keyBuf: seq<Byte>, keys: seq<seq<Byte>>) {
    && |entries| == |keys|
    && forall i | 0 <= i < |keys| ::
         entries[i].index == i && entries[i].keyStart <= entries[i].keyEnd <= |keyBuf|
           && Stretch(keyBuf, entries[i]) == keys[i]
  }

  lemma MarksNext(entries: seq<SortEntry>, keyBuf: seq<Byte>, keys: seq<seq<Byte>>, key: seq<Byte>)
    requires Marks(entries, keyBuf, keys)
    ensures Marks(entries + [SortEntry(|keyBuf|, |keyBuf| + |key|, |keys|)], keyBuf + key, keys + [key])
  {
  }

  /** EncKeys from entry i on. */
  predicate KeysContinue(m: seq<MapEntry>, done: seq<seq<Byte>>, i: nat, o: EncodeOpts)
    requires i <= |m|
  {
    EncKeys(m, o) == EncodedKeys(done + EncKeys(m[i..], o).keys, EncKeys(m[i..], o).err)
  }

  lemma KeysStart(m: seq<MapEntry>, o: EncodeOpts)
    ensures KeysContinue(m, [], 0, o)
  {
    assert m[0..] == m;
  }

  lemma KeysStep(m: seq<MapEntry>, done: seq<seq<Byte>>, i: nat, o: EncodeOpts)
    requires i < |m| && KeysContinue(m, done, i, o)
    ensures EncKey(m[i], o).Ok() ==> KeysContinue(m, done + [EncKey(m[i], o).out], i + 1, o)
    ensures !EncKey(m[i], o).Ok() ==> EncKeys(m, o).err == EncKey(m[i], o).err
  {
    hide EncKey;
    assert m[i..][1..] == m[i + 1..];
    assert EncKeys(m[i..], o).err == if EncKey(m[i], o).Ok() then EncKeys(m[i + 1..], o).err else EncKey(m[i], o).err;
  }

  lemma KeysEnd(m: seq<MapEntry>, done: seq<seq<Byte>>, o: EncodeOpts)
    requires KeysContinue(m, done, |m|, o)
    ensures EncKeys(m, o) == EncodedKeys(done, None)
  {
    assert m[|m|..] == [];
  }

  /** The loop that encodes every key into the buffer and notes where it stands. */
  method FillKeys(m: seq<MapEntry>, o: EncodeOpts, cache: SortStateCache?, ss: SortState)
    returns (err: Option<EncodeError>)
    requires ss.keyBuf == [] && ss.entries.Length >= |m| && (cache != null ==> cache.used)
    modifies ss`keyBuf, ss.entries
    ensures err == EncKeys(m, o).err
    ensures err.None? ==> Marks(ss.entries[..|m|], ss.keyBuf, EncKeys(m, o).keys)
    decreases m, 0
  {
    hide EncKeys, EncKey, Marks, KeysContinue;
    ghost var done: seq<seq<Byte>> := [];
    KeysStart(m, o);
    NothingMarked();
    var i := 0;
    assert ss.entries[..0] == [];
    while i < |m|
      invariant i <= |m| == |done| + (|m| - i)
      invariant KeysContinue(m, done, i, o) && Marks(ss.entries[..i], ss.keyBuf, done)
      modifies ss`keyBuf, ss.entries
    {
      KeysStep(m, done, i, o);
      var start := |ss.keyBuf|;
      var keyBuf, e := EncodeEntryKey(ss.keyBuf, m[i], o, cache);
      if e.Some? {
        ss.keyBuf := keyBuf;
        return e;
      }
      MarksNext(ss.entries[..i], ss.keyBuf, done, EncKey(m[i], o).out);
      ss.keyBuf := keyBuf;
      ghost var before := ss.entries[..i];
      ss.entries[i] := SortEntry(start, |ss.keyBuf|, i);
      assert ss.entries[..i + 1] == before + [SortEntry(start, |ss.keyBuf|, i)];
      done := done + [EncKey(m[i], o).out];
      i := i + 1;
    }
    KeysEnd(m, done, o);
    return None;
  }

  lemma NothingMarked()
    ensures Marks([], [], [])
  {
  }

  /** Sorting the marks sorts the indices as `SortedOrder` says, and each keeps its key. */
  lemma SortedMarks(entries: seq<SortEntry>, keyBuf: seq<Byte>, keys: seq<seq<Byte>>, mode: SortMode,
                    cmp: (SortEntry, SortEntry) -> int)
    requires Marks(entries, keyBuf, keys)
    requires forall a: SortEntry, b: SortEntry :: cmp(a, b) == KeyCompare(mode, Stretch(keyBuf, a), Stretch(keyBuf, b))
    ensures Indices(Sorted(entries, cmp), IndexOf) == SortedOrder(mode, keys)
    ensures forall k | 0 <= k < |keys| ::
              var a := Sorted(entries, cmp)[k]; a.index < |keys| && Stretch(keyBuf, a) == keys[a.index]
  {
    hide KeyCompare, Stretch, Sorted, OrderUpTo;
    assert entries[..|entries|] == entries;
    SortedIndices(entries, (a: SortEntry) => Stretch(keyBuf, a), IndexOf, mode, cmp, keys, |entries|);
  }

  /** A written entry: its key as encoded before, then its value. */
  function EncWritten(key: seq<Byte>, e: MapEntry, o: EncodeOpts): Encoded { Then(Done(key), EncValue(e, o)) }

  lemma OrderedFrom(m: seq<MapEntry>, keys: seq<seq<Byte>>, order: seq<nat>, k: nat, o: EncodeOpts)
    requires |keys| == |m| && Below(order, |m|) && k < |order|
    ensures order[k] < |m| && Below(order[k..], |m|) && Below(order[k + 1..], |m|)
    ensures EncOrdered(m, keys, order[k..], o) ==
            Then(EncWritten(keys[order[k]], m[order[k]], o), EncOrdered(m, keys, order[k + 1..], o))
  {
    assert order[k..][1..] == order[k + 1..];
    var key, v, rest := keys[order[k]], EncValue(m[order[k]], o), EncOrdered(m, keys, order[k + 1..], o);
    assert key + (v.out + rest.out) == (key + v.out) + rest.out;
  }

  /** The first k entries of the order have been written. */
  predicate Written(acc: seq<Byte>, m: seq<MapEntry>, keys: seq<seq<Byte>>, order: seq<nat>, k: nat, o: EncodeOpts)
    requires |keys| == |m| && Below(order, |m|) && k <= |order|
  {
    Continues(EncOrdered(m, keys, order, o), acc, EncOrdered(m, keys, order[k..], o))
  }

  lemma WrittenStep(acc: seq<Byte>, m: seq<MapEntry>, keys: seq<seq<Byte>>, order: seq<nat>, k: nat, o: EncodeOpts)
    requires |keys| == |m| && Below(order, |m|) && k < |order| && Written(acc, m, keys, order, k, o)
    ensures order[k] < |m|
    ensures var step := EncWritten(keys[order[k]], m[order[k]], o);
            if step.Ok() then Written(acc + step.out, m, keys, order, k + 1, o)
            else EncOrdered(m, keys, order, o) == Encoded(acc + step.out, step.err)
  {
    hide EncOrdered, EncWritten, Continues;
    OrderedFrom(m, keys, order, k, o);
    ContinuesStep(EncOrdered(m, keys, order, o), acc, EncWritten(keys[order[k]], m[order[k]], o),
                  EncOrdered(m, keys, order[k + 1..], o));
  }

  lemma WrittenStart(m: seq<MapEntry>, keys: seq<seq<Byte>>, order: seq<nat>, o: EncodeOpts)
    requires |keys| == |m| && Below(order, |m|)
    ensures Written([], m, keys, order, 0, o)
  {
    assert order[0..] == order;
  }

  lemma WrittenEnd(acc: seq<Byte>, m: seq<MapEntry>, keys: seq<seq<Byte>>, order: seq<nat>, o: EncodeOpts)
    requires |keys| == |m| && Below(order, |m|) && Written(acc, m, keys, order, |order|, o)
    ensures EncOrdered(m, keys, order, o) == Done(acc)
  {
    assert order[|order|..] == [];
  }

  method WriteEntry(dst: seq<Byte>, key: seq<Byte>, e: MapEntry, o: EncodeOpts, cache: SortStateCache?)
    returns (out: seq<Byte>, err: Option<EncodeError>)
    requires cache != null ==> cache.used
    ensures out == dst + EncWritten(key, e, o).out && err == EncWritten(key, e, o).err
    decreases e, 4
  {
    hide EncValue;
    out, err := EncodeEntryValue(dst + key, e, o, cache);
    assert dst + key + EncValue(e, o).out == dst + (key + EncValue(e, o).out);
  }

  /** The loop that writes the sorted entries: the key from the buffer, then the value. */
  method WriteEntries(dst: seq<Byte>, m: seq<MapEntry>, o: EncodeOpts, cache: SortStateCache?,
                      keyBuf: seq<Byte>, entries: seq<SortEntry>, ghost keys: seq<seq<Byte>>, ghost order: seq<nat>)
    returns (out: seq<Byte>, err: Option<EncodeError>)
    requires cache != null ==> cache.used
    requires |keys| == |order| == |m| == |entries| && Below(order, |m|)
    requires forall k | 0 <= k < |m| :: entries[k].index == order[k] && Stretch(keyBuf, entries[k]) == keys[order[k]]
    ensures out == dst + EncOrdered(m, keys, order, o).out && err == EncOrdered(m, keys, order, o).err
    decreases m, 0
  {
    hide EncOrdered, EncWritten, Stretch, Written;
    ghost var acc: seq<Byte> := [];
    out := dst;
    var k := 0;
    WrittenStart(m, keys, order, o);
    while k < |m|
      invariant k <= |m| && out == dst + acc && Written(acc, m, keys, order, k, o)
    {
      WrittenStep(acc, m, keys, order, k, o);
      var index := entries[k].index;
      out, err := WriteEntry(out, Stretch(keyBuf, entries[k]), m[index], o, cache);
      acc := acc + EncWritten(keys[index], m[index], o).out;
      assert out == dst + acc;
      if err.Some? {
        return;
      }
      k := k + 1;
    }
    WrittenEnd(acc, m, keys, order, o);
    return out, None;
  }

  method EncodeSorted(dst: seq<Byte>, m: seq<MapEntry>, o: EncodeOpts, cache: SortStateCache?, ss: SortState)
    returns (out: seq<Byte>, err: Option<EncodeError>)
    requires Sorts(o, |m|) && ss.keyBuf == [] && (cache != null ==> cache.used)
    modifies ss, ss.entries
    ensures out == dst + MapBody(m, o).out && err == MapBody(m, o).err
    ensures ss.entries == old(ss.entries) || fresh(ss.entries)
    decreases m, 1
  {
    hide EncKeys, EncOrdered, SortedOrder, KeyCompare, Stretch, Sorted;
    if ss.entries.Length < |m| {
      ss.entries := new SortEntry[|m|];
    }
    err := FillKeys(m, o, cache, ss);
    if err.Some? {
      return dst, err;
    }
    ghost var keys := EncKeys(m, o).keys;
    ghost var marks := ss.entries[..|m|];
    var keyBuf := ss.keyBuf;
    var cmp := (a: SortEntry, b: SortEntry) => KeyCompare(o.sortMode, Stretch(keyBuf, a), Stretch(keyBuf, b));
    SortFunc(ss.entries, |m|, cmp);
    SortedMarks(marks, keyBuf, keys, o.sortMode, cmp);
    ghost var order := SortedOrder(o.sortMode, keys);
    forall k | 0 <= k < |m|
      ensures ss.entries[k].index == order[k] && Stretch(keyBuf, ss.entries[k]) == keys[order[k]]
    {
      assert ss.entries[k] == ss.entries[..|m|][k];
      assert Indices(Sorted(marks, cmp), IndexOf)[k] == Sorted(marks, cmp)[k].index;
    }
    out, err := WriteEntries(dst, m, o, cache, keyBuf, ss.entries[..|m|], keys, order);
  }
}
