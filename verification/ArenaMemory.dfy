/**
 What the references in an arena mean: the value a cell denotes in a list of buffers, why it stays
 the same while other buffers are allocated and filled, and how arrays and maps are built up in place.
 */
module ArenaMemory {
  import opened Bytes
  import opened Values
  import D = Decoding
  import opened Decoding
  import opened Arenas = Arena

  // ---------------------------------------------------------------- what a cell denotes

  /** The cell refers only to buffers from mv and mp on, and each of those to later ones. */
  ghost predicate Sound(m: Memory, c: Cell, mv: nat, mp: nat)
    requires mv <= |m.values| && mp <= |m.pairs|
    decreases m.Room(mv, mp), c
  {
    match c
    case Plain(_) => true
    case Items(k, s) =>
      mv <= k < |m.values| == |m.valueSlices| && m.valueSlices[k] == s
      && forall i | 0 <= i < |m.values[k]| :: Sound(m, m.values[k][i], k + 1, mp)
    case ItemList(items) => forall i | 0 <= i < |items| :: Sound(m, items[i], mv, mp)
    case Entries(k, t, n) =>
      mp <= k < |m.pairs| == |m.pairSlices| && m.pairSlices[k] == t && n <= |m.pairs[k]|
      && forall i | 0 <= i < n :: SoundPair(m, m.pairs[k][i], mv, k + 1)
    case EntryList(entries) => forall i | 0 <= i < |entries| :: SoundPair(m, entries[i], mv, mp)
    case Tagged(_, inner) => Sound(m, inner, mv, mp)
  }

  ghost predicate SoundPair(m: Memory, e: PairCell, mv: nat, mp: nat)
    requires mv <= |m.values| && mp <= |m.pairs|
    decreases m.Room(mv, mp), e
  {
    Sound(m, e.key, mv, mp) && Sound(m, e.value, mv, mp)
  }

  ghost function Denote(m: Memory, c: Cell, mv: nat, mp: nat): Value
    requires mv <= |m.values| && mp <= |m.pairs| && Sound(m, c, mv, mp)
    decreases m.Room(mv, mp), c
  {
    match c
    case Plain(v) => v
    case Items(k, _) => Array(DenoteItems(m, m.values[k], k + 1, mp))
    case ItemList(items) => Array(DenoteItems(m, items, mv, mp))
    case Entries(k, _, n) => Map(DenotePairs(m, m.pairs[k][..n], mv, k + 1))
    case EntryList(entries) => Map(DenotePairs(m, entries, mv, mp))
    case Tagged(id, inner) => Tag(id, Denote(m, inner, mv, mp))
  }

  ghost function DenoteItems(m: Memory, items: seq<Cell>, mv: nat, mp: nat): (vs: seq<Value>)
    requires mv <= |m.values| && mp <= |m.pairs| && forall i | 0 <= i < |items| :: Sound(m, items[i], mv, mp)
    ensures |vs| == |items| && forall i | 0 <= i < |vs| :: vs[i] == Denote(m, items[i], mv, mp)
    decreases m.Room(mv, mp), items, 0
  {
    if items == [] then []
    else [Denote(m, items[0], mv, mp)] + DenoteItems(m, items[1..], mv, mp)
  }

  ghost function DenotePair(m: Memory, e: PairCell, mv: nat, mp: nat): MapEntry
    requires mv <= |m.values| && mp <= |m.pairs| && SoundPair(m, e, mv, mp)
    decreases m.Room(mv, mp), e
  {
    MapEntry(Denote(m, e.key, mv, mp), Denote(m, e.value, mv, mp))
  }

  ghost function DenotePairs(m: Memory, entries: seq<PairCell>, mv: nat, mp: nat): (es: seq<MapEntry>)
    requires mv <= |m.values| && mp <= |m.pairs| && forall i | 0 <= i < |entries| :: SoundPair(m, entries[i], mv, mp)
    ensures |es| == |entries| && forall i | 0 <= i < |es| :: es[i] == DenotePair(m, entries[i], mv, mp)
    decreases m.Room(mv, mp), entries, 0
  {
    if entries == [] then []
    else [DenotePair(m, entries[0], mv, mp)] + DenotePairs(m, entries[1..], mv, mp)
  }

  /** What a reference to a slice stands for. */
  lemma ArrayParts(m: Memory, c: Cell, mv: nat, mp: nat)
    requires mv <= |m.values| && mp <= |m.pairs| && c.Items? && Sound(m, c, mv, mp)
    ensures mv <= c.k < |m.values| == |m.valueSlices| && m.valueSlices[c.k] == c.s
    ensures forall i | 0 <= i < |m.values[c.k]| :: Sound(m, m.values[c.k][i], c.k + 1, mp)
    ensures Denote(m, c, mv, mp) == Array(DenoteItems(m, m.values[c.k], c.k + 1, mp))
  {
    hide SoundPair, DenoteItems, DenotePairs;
  }

  lemma MapParts(m: Memory, c: Cell, mv: nat, mp: nat)
    requires mv <= |m.values| && mp <= |m.pairs| && c.Entries? && Sound(m, c, mv, mp)
    ensures mp <= c.k < |m.pairs| == |m.pairSlices| && m.pairSlices[c.k] == c.t && c.n <= |m.pairs[c.k]|
    ensures forall i | 0 <= i < c.n :: SoundPair(m, m.pairs[c.k][..c.n][i], mv, c.k + 1)
    ensures Denote(m, c, mv, mp) == Map(DenotePairs(m, m.pairs[c.k][..c.n], mv, c.k + 1))
  {
    hide SoundPair, DenotePair;
    forall i | 0 <= i < c.n
      ensures SoundPair(m, m.pairs[c.k][..c.n][i], mv, c.k + 1)
    {
      assert m.pairs[c.k][..c.n][i] == m.pairs[c.k][i];
    }
  }

  // ---------------------------------------------------------------- frames

  /** From mv and mp on, m' has every buffer of m, unchanged; it may have more. */
  ghost predicate Keeps(m: Memory, m': Memory, mv: nat, mp: nat) {
    && m.Valid() && m'.Valid()
    && mv <= |m.values| <= |m'.values| && mp <= |m.pairs| <= |m'.pairs|
    && (forall k | mv <= k < |m.values| :: m'.values[k] == m.values[k] && m'.valueSlices[k] == m.valueSlices[k])
    && (forall k | mp <= k < |m.pairs| :: m'.pairs[k] == m.pairs[k] && m'.pairSlices[k] == m.pairSlices[k])
  }

  /** A cell is not affected by what happens outside the buffers it may refer to. */
  lemma {:induction false} CellKeeps(m: Memory, m': Memory, c: Cell, mv: nat, mp: nat, nv: nat, np: nat)
    requires Keeps(m, m', mv, mp) && Sound(m, c, mv, mp) && nv <= mv && np <= mp
    ensures Sound(m', c, nv, np) && Denote(m', c, nv, np) == Denote(m, c, mv, mp)
    decreases m.Room(mv, mp), c, 1
  {
    match c
    case Plain(_) =>
    case Items(_, _) => ArrayKeeps(m, m', c, mv, mp, nv, np);
    case ItemList(items) => ItemsKeep(m, m', items, mv, mp, nv, np);
    case Entries(_, _, _) => MapKeeps(m, m', c, mv, mp, nv, np);
    case EntryList(entries) => PairsKeep(m, m', entries, mv, mp, nv, np);
    case Tagged(_, inner) => CellKeeps(m, m', inner, mv, mp, nv, np);
  }

  lemma ArrayKeeps(m: Memory, m': Memory, c: Cell, mv: nat, mp: nat, nv: nat, np: nat)
    requires Keeps(m, m', mv, mp) && c.Items? && Sound(m, c, mv, mp) && nv <= mv && np <= mp
    ensures Sound(m', c, nv, np) && Denote(m', c, nv, np) == Denote(m, c, mv, mp)
    decreases m.Room(mv, mp), c, 0
  {
    var k := c.k;
    assert m'.values[k] == m.values[k] && m'.valueSlices[k] == m.valueSlices[k];
    ItemsKeep(m, m', m.values[k], k + 1, mp, k + 1, np);
    ArrayDenotes(m, k, c.s, mv, mp);
    ArrayDenotes(m', k, c.s, nv, np);
  }

  lemma ArrayDenotes(m: Memory, k: nat, s: Slice<Cell>, mv: nat, mp: nat)
    requires mv <= k < |m.values| == |m.valueSlices| && m.valueSlices[k] == s && mp <= |m.pairs|
    requires forall i | 0 <= i < |m.values[k]| :: Sound(m, m.values[k][i], k + 1, mp)
    ensures Sound(m, Items(k, s), mv, mp)
    ensures Denote(m, Items(k, s), mv, mp) == Array(DenoteItems(m, m.values[k], k + 1, mp))
  {
  }

  lemma MapKeeps(m: Memory, m': Memory, c: Cell, mv: nat, mp: nat, nv: nat, np: nat)
    requires Keeps(m, m', mv, mp) && c.Entries? && Sound(m, c, mv, mp) && nv <= mv && np <= mp
    ensures Sound(m', c, nv, np) && Denote(m', c, nv, np) == Denote(m, c, mv, mp)
    decreases m.Room(mv, mp), c, 0
  {
    var k, n := c.k, c.n;
    assert m'.pairs[k] == m.pairs[k] && m'.pairSlices[k] == m.pairSlices[k];
    var front := m.pairs[k][..n];
    forall i | 0 <= i < n
      ensures SoundPair(m, front[i], mv, k + 1)
    {
      assert front[i] == m.pairs[k][i];
    }
    PairsKeep(m, m', front, mv, k + 1, nv, k + 1);
    MapDenotes(m, k, c.t, n, mv, mp);
    MapDenotes(m', k, c.t, n, nv, np);
  }

  lemma MapDenotes(m: Memory, k: nat, t: Slice<PairCell>, n: nat, mv: nat, mp: nat)
    requires mp <= k < |m.pairs| == |m.pairSlices| && m.pairSlices[k] == t && n <= |m.pairs[k]| && mv <= |m.values|
    requires forall i | 0 <= i < n :: SoundPair(m, m.pairs[k][..n][i], mv, k + 1)
    ensures Sound(m, Entries(k, t, n), mv, mp)
    ensures Denote(m, Entries(k, t, n), mv, mp) == Map(DenotePairs(m, m.pairs[k][..n], mv, k + 1))
  {
    hide SoundPair;
    forall i | 0 <= i < n
      ensures SoundPair(m, m.pairs[k][i], mv, k + 1)
    {
      assert m.pairs[k][..n][i] == m.pairs[k][i];
    }
  }

  lemma ItemsKeep(m: Memory, m': Memory, items: seq<Cell>, mv: nat, mp: nat, nv: nat, np: nat)
    requires Keeps(m, m', mv, mp) && nv <= mv && np <= mp
    requires forall i | 0 <= i < |items| :: Sound(m, items[i], mv, mp)
    ensures forall i | 0 <= i < |items| :: Sound(m', items[i], nv, np)
    ensures DenoteItems(m', items, nv, np) == DenoteItems(m, items, mv, mp)
    decreases m.Room(mv, mp), items, 0
  {
    hide Sound, Denote, Keeps;
    KeepsBounds(m, m', mv, mp);
    forall i | 0 <= i < |items|
      ensures Sound(m', items[i], nv, np) && Denote(m', items[i], nv, np) == Denote(m, items[i], mv, mp)
    {
      CellKeeps(m, m', items[i], mv, mp, nv, np);
    }
  }

  lemma KeepsBounds(m: Memory, m': Memory, mv: nat, mp: nat)
    requires Keeps(m, m', mv, mp)
    ensures mv <= |m.values| <= |m'.values| && mp <= |m.pairs| <= |m'.pairs|
  {
  }

  lemma PairKeeps(m: Memory, m': Memory, e: PairCell, mv: nat, mp: nat, nv: nat, np: nat)
    requires Keeps(m, m', mv, mp) && nv <= mv && np <= mp && SoundPair(m, e, mv, mp)
    ensures SoundPair(m', e, nv, np) && DenotePair(m', e, nv, np) == DenotePair(m, e, mv, mp)
    decreases m.Room(mv, mp), e
  {
    CellKeeps(m, m', e.key, mv, mp, nv, np);
    CellKeeps(m, m', e.value, mv, mp, nv, np);
  }

  lemma PairsKeep(m: Memory, m': Memory, entries: seq<PairCell>, mv: nat, mp: nat, nv: nat, np: nat)
    requires Keeps(m, m', mv, mp) && nv <= mv && np <= mp
    requires forall i | 0 <= i < |entries| :: SoundPair(m, entries[i], mv, mp)
    ensures forall i | 0 <= i < |entries| :: SoundPair(m', entries[i], nv, np)
    ensures DenotePairs(m', entries, nv, np) == DenotePairs(m, entries, mv, mp)
    decreases m.Room(mv, mp), entries, 0
  {
    hide SoundPair, DenotePair, Keeps;
    KeepsBounds(m, m', mv, mp);
    forall i | 0 <= i < |entries|
      ensures SoundPair(m', entries[i], nv, np)
              && DenotePair(m', entries[i], nv, np) == DenotePair(m, entries[i], mv, mp)
    {
      PairKeeps(m, m', entries[i], mv, mp, nv, np);
    }
  }

  // ---------------------------------------------------------------- allocation and storing

  /** m' is m with further buffers behind it. */
  ghost predicate Extends(m: Memory, m': Memory) {
    && m.Valid() && m'.Valid()
    && m.values <= m'.values && m.pairs <= m'.pairs
    && m.valueSlices <= m'.valueSlices && m.pairSlices <= m'.pairSlices
  }

  lemma ExtendsKeeps(m: Memory, m': Memory, mv: nat, mp: nat)
    requires Extends(m, m') && mv <= |m.values| && mp <= |m.pairs|
    ensures Keeps(m, m', mv, mp)
  {
  }

  lemma ExtendsTransitive(a: Memory, b: Memory, c: Memory)
    requires Extends(a, b) && Extends(b, c)
    ensures Extends(a, c)
  {
  }

  /** Allocation adds a buffer behind the others. */
  lemma Allocated(m: Memory, m': Memory)
    requires m.Valid() && m'.Valid()
    requires (exists s, b :: m' == WithValues(m, s, b)) || (exists s, b :: m' == WithPairs(m, s, b))
    ensures Extends(m, m')
  {
  }

  /** The front of buffer k replaced. */
  ghost function StoredFront(m: Memory, k: nat, front: seq<PairCell>): Memory
    requires k < |m.pairs| && |front| <= |m.pairs[k]|
  {
    m.(pairs := m.pairs[k := front + m.pairs[k][|front|..]])
  }

  // ---------------------------------------------------------------- arrays being filled

  /** The first |vs| slots of buffer k denote vs, by buffers behind it. */
  ghost predicate Filled(m: Memory, k: nat, mp: nat, vs: seq<Value>) {
    && k < |m.values| && mp <= |m.pairs| && |vs| <= |m.values[k]|
    && forall i | 0 <= i < |vs| :: Sound(m, m.values[k][i], k + 1, mp) && Denote(m, m.values[k][i], k + 1, mp) == vs[i]
  }

  lemma FillNext(m: Memory, m': Memory, k: nat, mp: nat, vs: seq<Value>, c: Cell)
    requires Filled(m, k, mp, vs) && Extends(m, m') && |vs| < |m.values[k]|
    requires Sound(m', c, |m.values|, |m.pairs|)
    ensures m'.values[k] == m.values[k]
    ensures var v := Denote(m', c, |m.values|, |m.pairs|);
            Filled(StoredValue(m', k, |vs|, c), k, mp, vs + [v])
  {
    hide Sound, Denote;
    var v := Denote(m', c, |m.values|, |m.pairs|);
    var m2 := StoredValue(m', k, |vs|, c);
    assert Keeps(m, m2, k + 1, mp);
    assert Keeps(m', m2, |m.values|, |m.pairs|);
    CellKeeps(m', m2, c, |m.values|, |m.pairs|, k + 1, mp);
    forall i | 0 <= i < |vs| + 1
      ensures Sound(m2, m2.values[k][i], k + 1, mp) && Denote(m2, m2.values[k][i], k + 1, mp) == (vs + [v])[i]
    {
      if i < |vs| {
        CellKeeps(m, m2, m.values[k][i], k + 1, mp, k + 1, mp);
      }
    }
  }

  lemma FilledArray(m: Memory, k: nat, s: Slice<Cell>, mp: nat, vs: seq<Value>)
    requires Filled(m, k, mp, vs) && |vs| == |m.values[k]| && m.Valid() && m.valueSlices[k] == s
    ensures mp <= |m.pairs| && Sound(m, Items(k, s), k, mp) && Denote(m, Items(k, s), k, mp) == Array(vs)
  {
    hide Denote, Sound;
    assert DenoteItems(m, m.values[k], k + 1, mp) == vs;
    ArrayDenotes(m, k, s, k, mp);
  }

  // ---------------------------------------------------------------- results

  /** The cell decoded from m, leaving m', denotes what `spec` says; older buffers are intact. */
  ghost predicate Decodes(spec: Decoded<Value>, m: Memory, r: Decoded<Cell>, m': Memory) {
    && Extends(m, m')
    && match spec
       case Err(e, at) => r == Err(e, at)
       case Ok(v, next) =>
         r.Ok? && r.next == next && Sound(m', r.value, |m.values|, |m.pairs|)
           && Denote(m', r.value, |m.values|, |m.pairs|) == v
  }

  /** A result that needs no buffers. */
  function PlainResult(d: Decoded<Value>): Decoded<Cell> {
    match d
    case Err(e, at) => Err(e, at)
    case Ok(v, next) => D.Decoded.Ok(Plain(v), next)
  }

  lemma PlainDecodes(spec: Decoded<Value>, m: Memory)
    requires m.Valid()
    ensures Decodes(spec, m, PlainResult(spec), m)
  {
  }

  lemma SameMemory(m: Memory)
    requires m.Valid()
    ensures Extends(m, m)
  {
  }

  lemma DecodesParts(spec: Decoded<Value>, m: Memory, r: Decoded<Cell>, m': Memory)
    requires Decodes(spec, m, r, m')
    ensures Extends(m, m') && |m.values| <= |m'.values| && |m.pairs| <= |m'.pairs|
    ensures match spec
            case Err(e, at) => r == Err(e, at)
            case Ok(v, next) =>
              r.Ok? && r.next == next && Sound(m', r.value, |m.values|, |m.pairs|)
                && Denote(m', r.value, |m.values|, |m.pairs|) == v
  {
    hide Sound, Denote;
  }

  /** What was decoded before, and not given up, is still there. */
  lemma OlderValuesStay(spec: Decoded<Value>, m: Memory, r: Decoded<Cell>, m': Memory, c: Cell, mv: nat, mp: nat)
    requires Decodes(spec, m, r, m') && mv <= |m.values| && mp <= |m.pairs| && Sound(m, c, mv, mp)
    ensures mv <= |m'.values| && mp <= |m'.pairs|
    ensures Sound(m', c, mv, mp) && Denote(m', c, mv, mp) == Denote(m, c, mv, mp)
  {
    hide Sound, Denote;
    ExtendsKeeps(m, m', mv, mp);
    CellKeeps(m, m', c, mv, mp, mv, mp);
  }

  lemma FailureDecodes(m: Memory, e: DecodeError, at: nat)
    requires m.Valid()
    ensures Decodes(Err(e, at), m, Err(e, at), m)
  {
  }

  lemma LaterFailureDecodes(m: Memory, m': Memory, e: DecodeError, at: nat)
    requires Extends(m, m')
    ensures Decodes(Err(e, at), m, Err(e, at), m')
  {
  }

  lemma TagDecodes(spec: Decoded<Value>, m: Memory, r: Decoded<Cell>, m': Memory, id: U64)
    requires Decodes(spec, m, r, m')
    ensures match spec
            case Err(e, at) => r == Err(e, at) && Decodes(Err(e, at), m, Err(e, at), m')
            case Ok(v, next) =>
              r.Ok?
              && Decodes(D.Decoded.Ok(Tag(id, v), next), m, D.Decoded.Ok(Tagged(id, r.value), r.next), m')
  {
  }

  /** An array of the decoded items, or the error. */
  function AsArray(d: Decoded<seq<Value>>): Decoded<Value> {
    match d
    case Err(e, at) => Err(e, at)
    case Ok(items, next) => D.Decoded.Ok(Array(items), next)
  }

  /** A map of the decoded entries, or the error. */
  function AsMap(d: Decoded<D.Pairs>): Decoded<Value> {
    match d
    case Err(e, at) => Err(e, at)
    case Ok(st, next) => D.Decoded.Ok(Map(st.entries), next)
  }

  // ---------------------------------------------------------------- filled arrays

  lemma NothingFilled(m: Memory, m': Memory, k: nat, mp: nat)
    requires Extends(m, m') && k < |m'.values| && mp <= |m.pairs|
    ensures Filled(m', k, mp, [])
  {
  }

  lemma StoreExtends(m: Memory, cur: Memory, next: Memory, k: nat, i: nat, c: Cell)
    requires Extends(m, cur) && Extends(cur, next) && |m.values| <= k < |cur.values| && i < |next.values[k]|
    ensures Extends(m, StoredValue(next, k, i, c)) && k < |StoredValue(next, k, i, c).values|
    ensures next.values[k] == cur.values[k] && |StoredValue(next, k, i, c).values[k]| == |cur.values[k]|
    ensures k < |next.valueSlices| && next.valueSlices[k] == cur.valueSlices[k]
  {
  }

  lemma ItemsDecode(m: Memory, m': Memory, k: nat, s: Slice<Cell>, vs: seq<Value>, next: nat)
    requires Extends(m, m') && k == |m.values| < |m'.values| && |m.pairs| <= |m'.pairs|
    requires Sound(m', Items(k, s), k, |m.pairs|) && Denote(m', Items(k, s), k, |m.pairs|) == Array(vs)
    ensures Decodes(D.Decoded.Ok(Array(vs), next), m, D.Decoded.Ok(Items(k, s), next), m')
  {
    hide Sound, Denote;
  }

  // ---------------------------------------------------------------- open-ended arrays

  /** The items denote vs, by buffers behind those of m. */
  ghost predicate Listed(m: Memory, m': Memory, items: seq<Cell>, vs: seq<Value>) {
    && Extends(m, m') && |items| == |vs|
    && forall i | 0 <= i < |vs| ::
         && Sound(m', items[i], |m.values|, |m.pairs|)
         && Denote(m', items[i], |m.values|, |m.pairs|) == vs[i]
  }

  lemma ListNext(m: Memory, cur: Memory, next: Memory, items: seq<Cell>, vs: seq<Value>, c: Cell)
    requires Listed(m, cur, items, vs) && Extends(cur, next) && Sound(next, c, |cur.values|, |cur.pairs|)
    ensures Listed(m, next, items + [c], vs + [Denote(next, c, |cur.values|, |cur.pairs|)])
  {
    hide Sound, Denote;
    var mv, mp := |m.values|, |m.pairs|;
    ExtendsKeeps(cur, next, mv, mp);
    ExtendsKeeps(next, next, |cur.values|, |cur.pairs|);
    CellKeeps(next, next, c, |cur.values|, |cur.pairs|, mv, mp);
    forall i | 0 <= i < |vs|
      ensures Sound(next, items[i], mv, mp) && Denote(next, items[i], mv, mp) == vs[i]
    {
      CellKeeps(cur, next, items[i], mv, mp, mv, mp);
    }
  }

  lemma ListDecodes(m: Memory, m': Memory, items: seq<Cell>, vs: seq<Value>, next: nat)
    requires Listed(m, m', items, vs)
    ensures Decodes(D.Decoded.Ok(Array(vs), next), m, D.Decoded.Ok(ItemList(items), next), m')
  {
    var mv, mp := |m.values|, |m.pairs|;
    assert Sound(m', ItemList(items), mv, mp);
    assert DenoteItems(m', items, mv, mp) == vs;
  }

  lemma NothingListed(m: Memory)
    requires m.Valid()
    ensures Listed(m, m, [], [])
  {
  }

  lemma ListedExtends(m: Memory, m': Memory, items: seq<Cell>, vs: seq<Value>)
    requires Listed(m, m', items, vs)
    ensures Extends(m, m')
  {
  }

  // ---------------------------------------------------------------- maps under construction

  /** The part of a key that key equality looks at: containers and tags are never equal. */
  function KeyOf(c: Cell): Value { if c.Plain? then c.v else Invalid }

  function KeysOnly(entries: seq<PairCell>): (es: seq<MapEntry>)
    ensures |es| == |entries| && forall i | 0 <= i < |es| :: es[i] == MapEntry(KeyOf(entries[i].key), Null)
  {
    if entries == [] then [] else [MapEntry(KeyOf(entries[0].key), Null)] + KeysOnly(entries[1..])
  }

  /** A map under construction: its entries, and the hash each key was added under. */
  datatype CellPairs = CellPairs(entries: seq<PairCell>, hashes: seq<U64>) {
    predicate Valid() { |entries| == |hashes| }
  }

  function InsertPair(st: CellPairs, key: Cell, val: Cell, h: U64, dedup: bool, reject: bool): (r: Option<CellPairs>)
    requires st.Valid()
    ensures r.Some? ==> r.value.Valid() && |st.entries| <= |r.value.entries| <= |st.entries| + 1
  {
    match D.FindKey(D.Pairs(KeysOnly(st.entries), st.hashes), 0, KeyOf(key), h, dedup)
    case Some(i) =>
      if reject then None else Some(st.(entries := st.entries[i := PairCell(st.entries[i].key, val)]))
    case None => Some(CellPairs(st.entries + [PairCell(key, val)], st.hashes + [h]))
  }

  /** The cells denote the entries of st, by buffers from mv and mp on. */
  ghost predicate PairsListed(m: Memory, mv: nat, mp: nat, cs: CellPairs, st: D.Pairs) {
    && mv <= |m.values| && mp <= |m.pairs| && cs.Valid() && st.Valid() && cs.hashes == st.hashes
    && forall i | 0 <= i < |cs.entries| ::
         SoundPair(m, cs.entries[i], mv, mp) && DenotePair(m, cs.entries[i], mv, mp) == st.entries[i]
  }

  lemma SameEquality(m: Memory, c: Cell, d: Cell, mv: nat, mp: nat)
    requires mv <= |m.values| && mp <= |m.pairs| && Sound(m, c, mv, mp) && Sound(m, d, mv, mp)
    ensures ValuesEqual(Denote(m, c, mv, mp), Denote(m, d, mv, mp)) == ValuesEqual(KeyOf(c), KeyOf(d))
  {
  }

  lemma {:induction false} SameFind(st: D.Pairs, st': D.Pairs, i: nat, key: Value, key': Value, h: U64, dedup: bool)
    requires st.Valid() && st'.Valid() && st.hashes == st'.hashes && i <= |st.entries|
    requires forall j | 0 <= j < |st.entries| ::
             ValuesEqual(st.entries[j].key, key) == ValuesEqual(st'.entries[j].key, key')
    ensures D.FindKey(st, i, key, h, dedup) == D.FindKey(st', i, key', h, dedup)
    decreases |st.entries| - i
  {
    hide ValuesEqual;
    if i < |st.entries| {
      SameFind(st, st', i + 1, key, key', h, dedup);
    }
  }

  /** Inserting cells is inserting what they denote. */
  lemma InsertDenotes(m: Memory, mv: nat, mp: nat, cs: CellPairs, st: D.Pairs, key: Cell, val: Cell, h: U64,
                      dedup: bool, reject: bool)
    requires PairsListed(m, mv, mp, cs, st) && Sound(m, key, mv, mp) && Sound(m, val, mv, mp)
    ensures var spec := D.MapInsert(st, Denote(m, key, mv, mp), Denote(m, val, mv, mp), h, dedup, reject);
            var r := InsertPair(cs, key, val, h, dedup, reject);
            if spec.None? then r.None? else r.Some? && PairsListed(m, mv, mp, r.value, spec.value)
  {
    hide Sound, Denote, ValuesEqual, D.FindKey;
    var keys := D.Pairs(KeysOnly(cs.entries), cs.hashes);
    forall j | 0 <= j < |st.entries|
      ensures ValuesEqual(st.entries[j].key, Denote(m, key, mv, mp)) == ValuesEqual(keys.entries[j].key, KeyOf(key))
    {
      assert DenotePair(m, cs.entries[j], mv, mp) == st.entries[j];
      SameEquality(m, cs.entries[j].key, key, mv, mp);
    }
    SameFind(st, keys, 0, Denote(m, key, mv, mp), KeyOf(key), h, dedup);
  }

  lemma PairsListedKeeps(m: Memory, m': Memory, mv: nat, mp: nat, cs: CellPairs, st: D.Pairs)
    requires PairsListed(m, mv, mp, cs, st) && Keeps(m, m', mv, mp)
    ensures PairsListed(m', mv, mp, cs, st)
  {
    hide SoundPair, DenotePair, Keeps;
    KeepsBounds(m, m', mv, mp);
    forall i | 0 <= i < |cs.entries|
      ensures SoundPair(m', cs.entries[i], mv, mp) && DenotePair(m', cs.entries[i], mv, mp) == st.entries[i]
    {
      PairKeeps(m, m', cs.entries[i], mv, mp, mv, mp);
    }
  }

  lemma ListedBounds(m: Memory, mv: nat, mp: nat, cs: CellPairs, st: D.Pairs)
    requires PairsListed(m, mv, mp, cs, st)
    ensures mv <= |m.values| && mp <= |m.pairs| && cs.Valid() && st.Valid() && |cs.entries| == |st.entries|
  {
  }

  lemma NullKey(m: Memory, c: Cell, mv: nat, mp: nat)
    requires mv <= |m.values| && mp <= |m.pairs| && Sound(m, c, mv, mp)
    ensures Denote(m, c, mv, mp).Null? <==> (c.Plain? && c.v.Null?)
  {
  }

  /** Inserting a pair whose cells were decoded after the map was last looked at. */
  lemma InsertLater(m: Memory, m': Memory, mv: nat, mp: nat, cs: CellPairs, st: D.Pairs, key: Cell, val: Cell, h: U64,
                    dedup: bool, reject: bool)
    requires PairsListed(m, mv, mp, cs, st) && cs.Valid() && st.Valid() && mv <= |m.values| && mp <= |m.pairs|
    requires Extends(m, m') && |m.values| <= |m'.values| && |m.pairs| <= |m'.pairs|
    requires Sound(m', key, |m.values|, |m.pairs|) && Sound(m', val, |m.values|, |m.pairs|)
    ensures var spec := D.MapInsert(st, Denote(m', key, |m.values|, |m.pairs|), Denote(m', val, |m.values|, |m.pairs|),
                                    h, dedup, reject);
            var r := InsertPair(cs, key, val, h, dedup, reject);
            if spec.None? then r.None? else r.Some? && PairsListed(m', mv, mp, r.value, spec.value)
  {
    hide Sound, Denote, PairsListed, D.MapInsert, InsertPair, Keeps;
    ExtendsKeeps(m, m', mv, mp);
    PairsListedKeeps(m, m', mv, mp, cs, st);
    ExtendsKeeps(m', m', |m.values|, |m.pairs|);
    CellKeeps(m', m', key, |m.values|, |m.pairs|, mv, mp);
    CellKeeps(m', m', val, |m.values|, |m.pairs|, mv, mp);
    InsertDenotes(m', mv, mp, cs, st, key, val, h, dedup, reject);
  }

  // ---------------------------------------------------------------- maps in a slice, and in a list

  /** The entries of the map so far are the front of buffer k. */
  ghost predicate Fronts(m: Memory, cur: Memory, k: nat, count: nat, cs: CellPairs, st: D.Pairs) {
    && Extends(m, cur) && k == |m.pairs| < |cur.pairs| && |cs.entries| <= |cur.pairs[k]| == count
    && cur.pairs[k][..|cs.entries|] == cs.entries && |m.values| <= |cur.values|
       && PairsListed(cur, |m.values|, k + 1, cs, st)
  }

  lemma FrontBounds(m: Memory, cur: Memory, k: nat, count: nat, cs: CellPairs, st: D.Pairs)
    requires Fronts(m, cur, k, count, cs, st)
    ensures Extends(m, cur) && k == |m.pairs| < |cur.pairs| == |cur.pairSlices|
            && |cs.entries| <= |cur.pairs[k]| == count
    ensures cur.pairs[k][..|cs.entries|] == cs.entries && cs.Valid() && st.Valid()
            && PairsListed(cur, |m.values|, k + 1, cs, st)
  {
  }

  /** One more pair, written to the front of buffer k. */
  lemma FrontNext(m: Memory, cur: Memory, next: Memory, k: nat, count: nat, cs: CellPairs, st: D.Pairs,
                  cs': CellPairs, st': D.Pairs)
    requires Fronts(m, cur, k, count, cs, st) && Extends(cur, next) && |cs'.entries| <= count
    requires PairsListed(next, |m.values|, k + 1, cs', st')
    ensures k < |next.pairs| && |cs'.entries| <= |next.pairs[k]|
    ensures Fronts(m, StoredFront(next, k, cs'.entries), k, count, cs', st')
  {
    hide SoundPair, DenotePair;
    var m2 := StoredFront(next, k, cs'.entries);
    assert next.pairs[k] == cur.pairs[k];
    assert m2.pairs[k][..|cs'.entries|] == cs'.entries;
    assert Keeps(next, m2, |m.values|, k + 1);
    PairsListedKeeps(next, m2, |m.values|, k + 1, cs', st');
    assert m.pairs <= m2.pairs;
  }

  lemma FrontDecodes(m: Memory, cur: Memory, k: nat, t: Slice<PairCell>, count: nat, cs: CellPairs, st: D.Pairs,
                     next: nat)
    requires Fronts(m, cur, k, count, cs, st) && cur.pairSlices[k] == t
    ensures Decodes(D.Decoded.Ok(Map(st.entries), next), m, D.Decoded.Ok(Entries(k, t, |cs.entries|), next), cur)
  {
    hide SoundPair, DenotePair, Sound, Denote;
    assert DenotePairs(cur, cs.entries, |m.values|, k + 1) == st.entries;
    MapDenotes(cur, k, t, |cs.entries|, |m.values|, k);
  }

  lemma StartsEmpty(m: Memory, m1: Memory, k: nat, count: nat)
    requires Extends(m, m1) && k == |m.pairs| && |m1.pairs| == k + 1 && m1.values == m.values && |m1.pairs[k]| == count
    ensures Fronts(m, m1, k, count, CellPairs([], []), NO_PAIRS)
  {
  }

  lemma PairsDecode(m: Memory, m': Memory, cs: CellPairs, st: D.Pairs, next: nat)
    requires Extends(m, m') && PairsListed(m', |m.values|, |m.pairs|, cs, st)
    ensures Decodes(D.Decoded.Ok(Map(st.entries), next), m, D.Decoded.Ok(EntryList(cs.entries), next), m')
  {
    hide SoundPair, DenotePair;
    var mv, mp := |m.values|, |m.pairs|;
    ListSound(m', cs.entries, mv, mp);
    assert DenotePairs(m', cs.entries, mv, mp) == st.entries;
  }

  lemma ListSound(m: Memory, entries: seq<PairCell>, mv: nat, mp: nat)
    requires mv <= |m.values| && mp <= |m.pairs| && forall i | 0 <= i < |entries| :: SoundPair(m, entries[i], mv, mp)
    ensures Sound(m, EntryList(entries), mv, mp)
    ensures Denote(m, EntryList(entries), mv, mp) == Map(DenotePairs(m, entries, mv, mp))
  {
  }

  lemma NoPairsListed(m: Memory)
    requires m.Valid()
    ensures Extends(m, m) && PairsListed(m, |m.values|, |m.pairs|, CellPairs([], []), NO_PAIRS)
  {
  }
}
