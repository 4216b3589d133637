/**
 The deterministic modes (section 4.2 of RFC 8949) do not see the order of map entries, at any depth:
 values that differ only in the order of the entries of their maps, and of the maps inside them, in
 keys and values alike, have one encoding and one normal form.
 */
module Reordering {
  import opened Bytes
  import opened Wire
  import opened Values
  import opened KeyOrder
  import opened Encoding
  import opened RoundTrip
  import opened Canonical

  /** The order lists every one of n indices once. */
  ghost predicate Lists(order: seq<nat>, n: nat) {
    |order| == n && Below(order, n) && multiset(order) == multiset(Iota(n))
  }

  /** The two values are equal up to the order of entries in their maps, at every depth. */
  ghost predicate Reordered(v: Value, w: Value)
    decreases v, 1
  {
    match v
    case Array(a) => w.Array? && |w.items| == |a| && forall i | 0 <= i < |a| :: Reordered(a[i], w.items[i])
    case Map(p) =>
      w.Map? && |w.pairs| == |p|
      && exists order :: Lists(order, |p|) && forall i | 0 <= i < |p| :: ReorderedEntry(p[i], w.pairs[order[i]])
    case Tag(id, a) => w.Tag? && w.id == id && Reordered(a, w.inner)
    case _ => v == w
  }

  ghost predicate ReorderedEntry(m: MapEntry, n: MapEntry)
    decreases m, 2
  {
    Reordered(m.key, n.key) && Reordered(m.value, n.value)
  }

  /** No map in the value, at any depth, has two keys that are written alike. */
  predicate DistinctWithin(v: Value, e: EncodeOpts)
    decreases v, 1
  {
    match v
    case Array(a) => forall i | 0 <= i < |a| :: DistinctWithin(a[i], e)
    case Map(p) => KeysDistinct(p, e) && forall i | 0 <= i < |p| :: DistinctWithinEntry(p[i], e)
    case Tag(_, a) => DistinctWithin(a, e)
    case _ => true
  }

  predicate DistinctWithinEntry(m: MapEntry, e: EncodeOpts)
    decreases m, 2
  {
    DistinctWithin(m.key, e) && DistinctWithin(m.value, e)
  }

  /** One encoding, wherever the values stand, and one normal form. */
  predicate Alike(v: Value, w: Value, e: EncodeOpts) {
    && Enc(v, e) == Enc(w, e) && Norm(v, e) == Norm(w, e)
    && v.TextString? == w.TextString? && (v.TextString? ==> v == w)
  }

  predicate AlikeEntry(m: MapEntry, n: MapEntry, e: EncodeOpts) {
    Alike(m.key, n.key, e) && Alike(m.value, n.value, e)
  }

  // ---------------------------------------------------------------- alike parts make alike wholes

  lemma {:induction false} AlikeItems(a: seq<Value>, b: seq<Value>, e: EncodeOpts)
    requires |a| == |b| && forall i | 0 <= i < |a| :: Alike(a[i], b[i], e)
    ensures EncItems(a, e) == EncItems(b, e) && NormItems(a, e) == NormItems(b, e)
  {
    hide Enc, Norm;
    if a != [] {
      assert Alike(a[0], b[0], e);
      assert forall i | 0 <= i < |a| - 1 :: a[1..][i] == a[i + 1] && b[1..][i] == b[i + 1];
      AlikeItems(a[1..], b[1..], e);
      SameInline(a[0], b[0], e);
    }
  }

  lemma SameInline(v: Value, w: Value, e: EncodeOpts)
    requires Alike(v, w, e)
    ensures EncInline(v, e) == EncInline(w, e) && Out(v, e) == Out(w, e) && Encodes(v, e) == Encodes(w, e)
  {
    hide Enc, Norm;
  }

  lemma {:induction false} AlikeKeys(p: seq<MapEntry>, q: seq<MapEntry>, e: EncodeOpts)
    requires |p| == |q| && forall i | 0 <= i < |p| :: AlikeEntry(p[i], q[i], e)
    ensures EncKeys(p, e) == EncKeys(q, e)
  {
    if p != [] {
      assert forall i | 0 <= i < |p| - 1 :: p[1..][i] == p[i + 1] && q[1..][i] == q[i + 1];
      assert EncKey(p[0], e) == Enc(p[0].key, e) && EncKey(q[0], e) == Enc(q[0].key, e);
      hide Enc, Norm;
      assert AlikeEntry(p[0], q[0], e);
      AlikeKeys(p[1..], q[1..], e);
    }
  }

  lemma AlikeEntriesEncode(p: seq<MapEntry>, q: seq<MapEntry>, e: EncodeOpts)
    requires |p| == |q| && forall i | 0 <= i < |p| :: AlikeEntry(p[i], q[i], e)
    requires EntriesEncode(p, e)
    ensures EntriesEncode(q, e)
  {
    hide Enc, Norm;
    forall i | 0 <= i < |q|
      ensures if Sorts(e, |q|) then EntryEncodesChecked(q[i], e) else EntryEncodes(q[i], e)
    {
      assert AlikeEntry(p[i], q[i], e);
      SameInline(p[i].key, q[i].key, e);
      SameInline(p[i].value, q[i].value, e);
    }
  }

  /** Along one order, alike entries are laid out and normalised alike. */
  lemma AlikeArranged(p: seq<MapEntry>, q: seq<MapEntry>, order: seq<nat>, e: EncodeOpts)
    requires |p| == |q| && Below(order, |p|) && forall i | 0 <= i < |p| :: AlikeEntry(p[i], q[i], e)
    ensures PairsOut(p, order, e) == PairsOut(q, order, e)
    ensures NormOrdered(p, order, e) == NormOrdered(q, order, e)
  {
    hide Enc, Norm, Out, PairsOut, NormOrdered;
    PairsOutIsLaid(p, order, e);
    PairsOutIsLaid(q, order, e);
    forall i | 0 <= i < |order|
      ensures Out(p[order[i]].key, e) == Out(q[order[i]].key, e)
      ensures Out(p[order[i]].value, e) == Out(q[order[i]].value, e)
      ensures NormOrdered(p, order, e)[i] == NormOrdered(q, order, e)[i]
    {
      assert AlikeEntry(p[order[i]], q[order[i]], e);
      SameInline(p[order[i]].key, q[order[i]].key, e);
      SameInline(p[order[i]].value, q[order[i]].value, e);
      NormOrderedAt(p, order, e, i);
      NormOrderedAt(q, order, e, i);
    }
    LaidCongruent(Arrange(p, order), Arrange(q, order), e);
  }

  lemma AlikeMaps(p: seq<MapEntry>, q: seq<MapEntry>, e: EncodeOpts)
    requires |p| == |q| && forall i | 0 <= i < |p| :: AlikeEntry(p[i], q[i], e)
    requires Enc(Map(p), e).Ok()
    ensures Enc(Map(q), e) == Enc(Map(p), e) && Norm(Map(q), e) == Norm(Map(p), e)
  {
    hide Enc, Norm, EntriesEncode, PairsOut, NormOrdered, HeadBytes, AlikeEntry;
    MapEncodes(p, e);
    AlikeEntriesEncode(p, q, e);
    MapEncodes(q, e);
    AlikeKeys(p, q, e);
    assert WrittenOrder(p, e) == WrittenOrder(q, e);
    AlikeArranged(p, q, WrittenOrder(p, e), e);
    NormMap(p, e);
    NormMap(q, e);
  }

  // ---------------------------------------------------------------- reordering changes nothing

  /** Arranging the entries along an order and keeping their places otherwise is only a reordering. */
  lemma ArrangedElements(q: seq<MapEntry>, order: seq<nat>)
    requires Lists(order, |q|)
    ensures multiset(Arrange(q, order)) == multiset(q)
  {
    ArrangeMultiset(q, order, Iota(|q|));
    ArrangeElements(q, |q|);
    assert q[..|q|] == q;
  }

  lemma AlikeDistinct(p: seq<MapEntry>, q: seq<MapEntry>, e: EncodeOpts)
    requires |p| == |q| && KeysDistinct(p, e) && forall i | 0 <= i < |p| :: AlikeEntry(p[i], q[i], e)
    ensures KeysDistinct(q, e)
  {
    hide Enc, Norm, Out;
    forall i | 0 <= i < |p|
      ensures Out(q[i].key, e) == Out(p[i].key, e)
    {
      assert AlikeEntry(p[i], q[i], e);
      SameInline(p[i].key, q[i].key, e);
    }
  }

  lemma MapReordered(p: seq<MapEntry>, q: seq<MapEntry>, order: seq<nat>, e: EncodeOpts)
    requires e.deterministic && Enc(Map(p), e).Ok() && KeysDistinct(p, e)
    requires |p| == |q| && Lists(order, |q|) && forall i | 0 <= i < |p| :: AlikeEntry(p[i], q[order[i]], e)
    ensures Enc(Map(q), e) == Enc(Map(p), e) && Norm(Map(q), e) == Norm(Map(p), e)
  {
    hide Enc, Norm, AlikeEntry, KeysDistinct;
    var r := Arrange(q, order);
    AlikeMaps(p, r, e);
    AlikeDistinct(p, r, e);
    ArrangedElements(q, order);
    EntryOrderIsIrrelevant(r, q, e);
  }

  lemma ItemsReordered(a: seq<Value>, b: seq<Value>, e: EncodeOpts)
    requires e.deterministic && EncItems(a, e).Ok() && |a| == |b|
    requires forall i | 0 <= i < |a| :: Reordered(a[i], b[i]) && DistinctWithin(a[i], e)
    ensures forall i | 0 <= i < |a| :: Alike(a[i], b[i], e)
    decreases a, 3
  {
    forall i | 0 <= i < |a|
      ensures Alike(a[i], b[i], e)
    {
      ItemEncodes(a, i, e);
      ReorderedIsAlike(a[i], b[i], e);
    }
  }

  lemma {:induction false} ItemEncodes(a: seq<Value>, i: nat, e: EncodeOpts)
    requires i < |a| && EncItems(a, e).Ok()
    ensures Encodes(a[i], e)
  {
    hide Enc;
    if i > 0 {
      ItemEncodes(a[1..], i - 1, e);
    }
  }

  lemma EntryReordered(m: MapEntry, n: MapEntry, e: EncodeOpts)
    requires e.deterministic && EntryEncodes(m, e) && ReorderedEntry(m, n) && DistinctWithinEntry(m, e)
    ensures AlikeEntry(m, n, e)
    decreases m, 2
  {
    ReorderedIsAlike(m.key, n.key, e);
    ReorderedIsAlike(m.value, n.value, e);
  }

  /** By induction on the value, in any position. */
  lemma {:induction false} ReorderedIsAlike(v: Value, w: Value, e: EncodeOpts)
    requires e.deterministic && Encodes(v, e) && Reordered(v, w) && DistinctWithin(v, e)
    ensures Alike(v, w, e)
    decreases v, 1
  {
    match v
    case Array(a) =>
      ArrayAlike(a, w.items, e);
    case Map(p) =>
      var order :| Lists(order, |p|) && forall i | 0 <= i < |p| :: ReorderedEntry(p[i], w.pairs[order[i]]);
      assert Enc(Map(p), e).Ok();
      MapEncodes(p, e);
      forall i | 0 <= i < |p|
        ensures AlikeEntry(p[i], w.pairs[order[i]], e)
      {
        EntryEncodesEither(p, e, i);
        EntryReordered(p[i], w.pairs[order[i]], e);
      }
      hide Enc, Norm, Lists, AlikeEntry, KeysDistinct, EntriesEncode, PairsOut;
      MapReordered(p, w.pairs, order, e);
    case Tag(id, a) =>
      ReorderedIsAlike(a, w.inner, e);
      assert a.Invalid? <==> w.inner.Invalid?;
    case _ =>
  }

  lemma ArrayAlike(a: seq<Value>, b: seq<Value>, e: EncodeOpts)
    requires e.deterministic && Enc(Array(a), e).Ok() && |a| == |b|
    requires forall i | 0 <= i < |a| :: Reordered(a[i], b[i]) && DistinctWithin(a[i], e)
    ensures Alike(Array(a), Array(b), e)
    decreases a, 4
  {
    ItemsReordered(a, b, e);
    AlikeItems(a, b, e);
  }

  /**
   In a deterministic mode, a value in whose maps no two keys are written alike has one encoding and
   one normal form, however the entries of its maps are ordered at any depth.
   */
  lemma EntryOrderIsIrrelevantWithin(v: Value, w: Value, e: EncodeOpts)
    requires e.deterministic && Enc(v, e).Ok() && Reordered(v, w) && DistinctWithin(v, e)
    ensures Enc(w, e) == Enc(v, e)
    ensures Norm(w, e) == Norm(v, e)
  {
    hide Enc, Norm, Reordered, DistinctWithin;
    ReorderedIsAlike(v, w, e);
  }
}
