/**
 What the decoder makes of the pairs of a map. Without the duplicate check the last value
 wins and stays where its key first stood; with it, a map is refused exactly if two keys are
 equal. The hash index of large maps does the same, for any hash function, exactly as long
 as equal keys hash alike.
 */
module MapAssembly {
  import opened Bytes
  import opened Wire
  import opened Values
  import opened Floats
  import opened Decoding

  /** A decoded pair with the bytes of its key. */
  datatype Insertion = Insertion(key: Value, value: Value, wire: seq<Byte>)

  type Hash = seq<Byte> -> U64

  /** The map after inserting the pairs one by one; None after a refused duplicate. */
  function Assemble(ins: seq<Insertion>, hash: Hash, dedup: bool, reject: bool): (r: Option<Pairs>)
    ensures r.Some? ==> r.value.Valid()
  {
    if ins == [] then Some(NO_PAIRS)
    else
      var last := ins[|ins| - 1];
      match Assemble(ins[..|ins| - 1], hash, dedup, reject)
      case None => None
      case Some(st) => MapInsert(st, last.key, last.value, hash(last.wire), dedup, reject)
  }

  // ---------------------------------------------------------------- equal keys

  lemma ValuesEqualTransitive(a: Value, b: Value, c: Value)
    requires ValuesEqual(a, b) && ValuesEqual(b, c)
    ensures ValuesEqual(a, c)
  {
  }

  /** Pairs j and k are taken for the same key. */
  predicate Same(ins: seq<Insertion>, hash: Hash, dedup: bool, j: nat, k: nat)
    requires j < |ins| && k < |ins|
  {
    ValuesEqual(ins[j].key, ins[k].key) && (dedup ==> hash(ins[j].wire) == hash(ins[k].wire))
  }

  /** The same key, and for the index also the same hash. */
  lemma SameIsSameKey(ins: seq<Insertion>, hash: Hash, dedup: bool)
    ensures forall j, k | 0 <= j < |ins| && 0 <= k < |ins| ::
              Same(ins, hash, dedup, j, k) <==>
              SameKey(ins[j].key, ins[k].key) && (dedup ==> hash(ins[j].wire) == hash(ins[k].wire))
  {
    hide ValuesEqual, SameKey;
    forall j, k | 0 <= j < |ins| && 0 <= k < |ins|
      ensures Same(ins, hash, dedup, j, k) <==>
              SameKey(ins[j].key, ins[k].key) && (dedup ==> hash(ins[j].wire) == hash(ins[k].wire))
    {
      ValuesEqualIsSameKey(ins[j].key, ins[k].key);
    }
  }

  lemma SameIsPartialEquivalence(ins: seq<Insertion>, hash: Hash, dedup: bool, i: nat, j: nat, k: nat)
    requires i < |ins| && j < |ins| && k < |ins|
    ensures Same(ins, hash, dedup, i, j) == Same(ins, hash, dedup, j, i)
    ensures Same(ins, hash, dedup, i, j) && Same(ins, hash, dedup, j, k) ==> Same(ins, hash, dedup, i, k)
  {
    ValuesEqualSymmetric(ins[i].key, ins[j].key);
    if ValuesEqual(ins[i].key, ins[j].key) && ValuesEqual(ins[j].key, ins[k].key) {
      ValuesEqualTransitive(ins[i].key, ins[j].key, ins[k].key);
    }
  }

  predicate IsFirst(ins: seq<Insertion>, hash: Hash, dedup: bool, k: nat)
    requires k < |ins|
  {
    forall j | 0 <= j < k :: !Same(ins, hash, dedup, j, k)
  }

  /** The positions of the pairs whose key was not there before. */
  function Firsts(ins: seq<Insertion>, hash: Hash, dedup: bool, n: nat): (f: seq<nat>)
    requires n <= |ins|
    ensures forall i | 0 <= i < |f| :: f[i] < n && IsFirst(ins, hash, dedup, f[i])
    ensures forall i, j | 0 <= i < j < |f| :: f[i] < f[j]
    ensures forall k | 0 <= k < n && IsFirst(ins, hash, dedup, k) :: k in f
  {
    if n == 0 then []
    else
      var f := Firsts(ins, hash, dedup, n - 1);
      if IsFirst(ins, hash, dedup, n - 1) then f + [n - 1] else f
  }

  /** The last of the first n pairs with the key of pair k. */
  function LastOf(ins: seq<Insertion>, hash: Hash, dedup: bool, k: nat, n: nat): (m: nat)
    requires k < n <= |ins|
    ensures k <= m < n && (m == k || Same(ins, hash, dedup, k, m))
    ensures forall j | m < j < n :: !Same(ins, hash, dedup, k, j)
    decreases n - k
  {
    if n - 1 == k || Same(ins, hash, dedup, k, n - 1) then n - 1 else LastOf(ins, hash, dedup, k, n - 1)
  }

  /** Every pair has its key among the first ones. */
  lemma {:induction false} Representative(ins: seq<Insertion>, hash: Hash, dedup: bool, k: nat) returns (f: nat)
    requires k < |ins|
    ensures f <= k && IsFirst(ins, hash, dedup, f) && (f == k || Same(ins, hash, dedup, f, k))
  {
    if IsFirst(ins, hash, dedup, k) {
      f := k;
    } else {
      var j :| 0 <= j < k && Same(ins, hash, dedup, j, k);
      f := Representative(ins, hash, dedup, j);
      SameIsPartialEquivalence(ins, hash, dedup, f, j, k);
    }
  }

  lemma OneFirst(ins: seq<Insertion>, hash: Hash, dedup: bool, a: nat, b: nat, n: nat)
    requires a < |ins| && b < |ins| && n < |ins|
    requires IsFirst(ins, hash, dedup, a) && IsFirst(ins, hash, dedup, b)
    requires Same(ins, hash, dedup, a, n) && Same(ins, hash, dedup, b, n)
    ensures a == b
  {
    hide Same;
    SameIsPartialEquivalence(ins, hash, dedup, b, n, a);
    SameIsPartialEquivalence(ins, hash, dedup, a, n, b);
    SameIsPartialEquivalence(ins, hash, dedup, n, a, b);
    SameIsPartialEquivalence(ins, hash, dedup, n, b, a);
  }

  // ---------------------------------------------------------------- last write wins

  /** The entries are the first occurrences, each with the last value of its key. */
  predicate LastWriteWins(st: Pairs, ins: seq<Insertion>, hash: Hash, dedup: bool, n: nat)
    requires n <= |ins|
  {
    var f := Firsts(ins, hash, dedup, n);
    && |st.entries| == |st.hashes| == |f|
    && forall i | 0 <= i < |f| ::
         && st.hashes[i] == hash(ins[f[i]].wire)
         && st.entries[i] == MapEntry(ins[f[i]].key, ins[LastOf(ins, hash, dedup, f[i], n)].value)
  }

  /** Pair n hits the entry of the first occurrence of its key, or none. */
  lemma HitIsFirst(st: Pairs, ins: seq<Insertion>, hash: Hash, dedup: bool, n: nat)
    requires n < |ins| && LastWriteWins(st, ins, hash, dedup, n)
    ensures st.Valid()
    ensures var r := FindKey(st, 0, ins[n].key, hash(ins[n].wire), dedup);
            var f := Firsts(ins, hash, dedup, n);
            && (r.None? <==> IsFirst(ins, hash, dedup, n))
            && (r.Some? ==> forall i | 0 <= i < |f| :: Same(ins, hash, dedup, f[i], n) <==> i == r.value)
  {
    hide ValuesEqual;
    var f := Firsts(ins, hash, dedup, n);
    var r := FindKey(st, 0, ins[n].key, hash(ins[n].wire), dedup);
    forall i | 0 <= i < |f|
      ensures KeyHit(st, i, ins[n].key, hash(ins[n].wire), dedup) <==> Same(ins, hash, dedup, f[i], n)
    {
    }
    if r.None? {
      forall j | 0 <= j < n
        ensures !Same(ins, hash, dedup, j, n)
      {
        var g := Representative(ins, hash, dedup, j);
        assert g in f;
        SameIsPartialEquivalence(ins, hash, dedup, g, j, n);
      }
    } else {
      forall i | 0 <= i < |f| && Same(ins, hash, dedup, f[i], n)
        ensures i == r.value
      {
        OneFirst(ins, hash, dedup, f[i], f[r.value], n);
      }
    }
  }

  lemma {:induction false} AssembledIsLastWrite(ins: seq<Insertion>, hash: Hash, dedup: bool, n: nat)
    requires n <= |ins|
    ensures var r := Assemble(ins[..n], hash, dedup, false);
            r.Some? && LastWriteWins(r.value, ins, hash, dedup, n)
  {
    hide MapInsert, LastWriteWins, Same;
    if n > 0 {
      AssembledIsLastWrite(ins, hash, dedup, n - 1);
      assert ins[..n][..n - 1] == ins[..n - 1];
      InsertLast(Assemble(ins[..n - 1], hash, dedup, false).value, ins, hash, dedup, n - 1);
    } else {
      NothingInserted(ins, hash, dedup);
    }
  }

  lemma NothingInserted(ins: seq<Insertion>, hash: Hash, dedup: bool)
    ensures LastWriteWins(NO_PAIRS, ins, hash, dedup, 0)
  {
  }

  lemma HitAt(st: Pairs, ins: seq<Insertion>, hash: Hash, dedup: bool, n: nat, i: nat)
    requires n < |ins| && LastWriteWins(st, ins, hash, dedup, n) && i < |Firsts(ins, hash, dedup, n)|
    ensures var r := FindKey(st, 0, ins[n].key, hash(ins[n].wire), dedup);
            r.Some? ==> (Same(ins, hash, dedup, Firsts(ins, hash, dedup, n)[i], n) <==> i == r.value)
  {
    hide FindKey, Same, LastWriteWins, Firsts;
    HitIsFirst(st, ins, hash, dedup, n);
  }

  lemma InsertLast(st: Pairs, ins: seq<Insertion>, hash: Hash, dedup: bool, n: nat)
    requires n < |ins| && LastWriteWins(st, ins, hash, dedup, n)
    ensures var r := MapInsert(st, ins[n].key, ins[n].value, hash(ins[n].wire), dedup, false);
            r.Some? && LastWriteWins(r.value, ins, hash, dedup, n + 1)
  {
    hide FindKey, Same, KeyHit, IsFirst, LastWriteWins, Firsts;
    HitIsFirst(st, ins, hash, dedup, n);
    var r := FindKey(st, 0, ins[n].key, hash(ins[n].wire), dedup);
    if r.None? {
      InsertNew(st, ins, hash, dedup, n);
    } else {
      InsertHit(st, ins, hash, dedup, n, r.value);
    }
  }

  lemma InsertNew(st: Pairs, ins: seq<Insertion>, hash: Hash, dedup: bool, n: nat)
    requires n < |ins| && LastWriteWins(st, ins, hash, dedup, n) && IsFirst(ins, hash, dedup, n)
    ensures LastWriteWins(Pairs(st.entries + [MapEntry(ins[n].key, ins[n].value)], st.hashes + [hash(ins[n].wire)]),
                          ins, hash, dedup, n + 1)
  {
    hide Same, IsFirst, LastOf;
    NotFirstSame(ins, hash, dedup, n);
    var f := Firsts(ins, hash, dedup, n);
    assert Firsts(ins, hash, dedup, n + 1) == f + [n];
    forall i | 0 <= i < |f|
      ensures LastOf(ins, hash, dedup, f[i], n + 1) == LastOf(ins, hash, dedup, f[i], n)
    {
      LastStep(ins, hash, dedup, f[i], n);
    }
    LastStep(ins, hash, dedup, n, n);
  }

  lemma LastStep(ins: seq<Insertion>, hash: Hash, dedup: bool, k: nat, n: nat)
    requires k <= n < |ins|
    ensures LastOf(ins, hash, dedup, k, n + 1) ==
            if k == n || Same(ins, hash, dedup, k, n) then n else LastOf(ins, hash, dedup, k, n)
  {
  }

  lemma InsertHit(st: Pairs, ins: seq<Insertion>, hash: Hash, dedup: bool, n: nat, hit: nat)
    requires n < |ins| && LastWriteWins(st, ins, hash, dedup, n) && !IsFirst(ins, hash, dedup, n)
    requires FindKey(st, 0, ins[n].key, hash(ins[n].wire), dedup) == Some(hit)
    ensures hit < |st.entries|
    ensures LastWriteWins(Pairs(st.entries[hit := MapEntry(st.entries[hit].key, ins[n].value)], st.hashes), ins, hash,
                          dedup, n + 1)
  {
    hide Same, IsFirst, FindKey;
    var f := Firsts(ins, hash, dedup, n);
    assert Firsts(ins, hash, dedup, n + 1) == f;
    forall i | 0 <= i < |f|
      ensures LastOf(ins, hash, dedup, f[i], n + 1) == if i == hit then n else LastOf(ins, hash, dedup, f[i], n)
    {
      HitAt(st, ins, hash, dedup, n, i);
    }
  }

  lemma NotFirstSame(ins: seq<Insertion>, hash: Hash, dedup: bool, n: nat)
    requires n < |ins| && IsFirst(ins, hash, dedup, n)
    ensures forall j | 0 <= j < n :: !Same(ins, hash, dedup, j, n)
  {
  }

  /** Last write wins, at the place of the first. */
  lemma AcceptingMapIsLastWrite(ins: seq<Insertion>, hash: Hash, dedup: bool)
    ensures var r := Assemble(ins, hash, dedup, false);
            r.Some? && LastWriteWins(r.value, ins, hash, dedup, |ins|)
    ensures forall j, k | 0 <= j < |ins| && 0 <= k < |ins| ::
              Same(ins, hash, dedup, j, k) <==>
              SameKey(ins[j].key, ins[k].key) && (dedup ==> hash(ins[j].wire) == hash(ins[k].wire))
  {
    hide LastWriteWins;
    SameIsSameKey(ins, hash, dedup);
    AssembledIsLastWrite(ins, hash, dedup, |ins|);
    assert ins[..|ins|] == ins;
  }

  predicate Distinct(ins: seq<Insertion>, hash: Hash, dedup: bool, n: nat)
    requires n <= |ins|
  {
    forall k | 0 <= k < n :: IsFirst(ins, hash, dedup, k)
  }

  lemma {:induction false} RejectingAssembly(ins: seq<Insertion>, hash: Hash, dedup: bool, n: nat)
    requires n <= |ins|
    ensures var r := Assemble(ins[..n], hash, dedup, true);
            && (r.Some? <==> Distinct(ins, hash, dedup, n))
            && (r.Some? ==> r == Assemble(ins[..n], hash, dedup, false))
  {
    hide FindKey, IsFirst, LastWriteWins;
    if n > 0 {
      RejectingAssembly(ins, hash, dedup, n - 1);
      assert ins[..n][..n - 1] == ins[..n - 1];
      AssembledIsLastWrite(ins, hash, dedup, n - 1);
      HitIsFirst(Assemble(ins[..n - 1], hash, dedup, false).value, ins, hash, dedup, n - 1);
    }
  }

  /** With the duplicate check a map is refused exactly if two of its keys are the same. */
  lemma RejectingMapIsDistinct(ins: seq<Insertion>, hash: Hash, dedup: bool)
    ensures Assemble(ins, hash, dedup, true).None? <==>
            exists j, k | 0 <= j < k < |ins| :: Same(ins, hash, dedup, j, k)
    ensures Assemble(ins, hash, dedup, true).Some?
            ==> Assemble(ins, hash, dedup, true) == Assemble(ins, hash, dedup, false)
  {
    hide Assemble, Same;
    assert ins[..|ins|] == ins;
    RejectingAssembly(ins, hash, dedup, |ins|);
    if !Distinct(ins, hash, dedup, |ins|) {
      var k :| 0 <= k < |ins| && !IsFirst(ins, hash, dedup, k);
      var j :| 0 <= j < k && Same(ins, hash, dedup, j, k);
    } else {
      forall j, k | 0 <= j < k < |ins|
        ensures !Same(ins, hash, dedup, j, k)
      {
        assert IsFirst(ins, hash, dedup, k);
      }
    }
  }

  // ---------------------------------------------------------------- the index

  /** Equal keys hash alike. */
  predicate HashesAgree(ins: seq<Insertion>, hash: Hash) {
    forall j, k | 0 <= j < |ins| && 0 <= k < |ins| ::
      ValuesEqual(ins[j].key, ins[k].key) ==> hash(ins[j].wire) == hash(ins[k].wire)
  }

  /** Equal keys have the same bytes. */
  predicate SameBytes(ins: seq<Insertion>) {
    forall j, k | 0 <= j < |ins| && 0 <= k < |ins| ::
      ValuesEqual(ins[j].key, ins[k].key) ==> ins[j].wire == ins[k].wire
  }

  lemma {:induction false} AgreeingIndex(ins: seq<Insertion>, hash: Hash, reject: bool, n: nat)
    requires n <= |ins| && HashesAgree(ins, hash)
    ensures Assemble(ins[..n], hash, true, reject) == Assemble(ins[..n], hash, false, reject)
  {
    hide LastWriteWins, ValuesEqual;
    if n > 0 {
      AgreeingIndex(ins, hash, reject, n - 1);
      assert ins[..n][..n - 1] == ins[..n - 1];
      var st := Assemble(ins[..n - 1], hash, false, reject);
      RejectingAssembly(ins, hash, false, n - 1);
      AssembledIsLastWrite(ins, hash, false, n - 1);
      if st.Some? {
        SameHits(st.value, ins, hash, n - 1, 0);
      }
    }
  }

  /** On a map assembled so far, looking a key up by hash and looking it up by scan find the same entry. */
  lemma {:induction false} SameHits(st: Pairs, ins: seq<Insertion>, hash: Hash, n: nat, i: nat)
    requires n < |ins| && HashesAgree(ins, hash) && LastWriteWins(st, ins, hash, false, n) && i <= |st.entries|
    ensures FindKey(st, i, ins[n].key, hash(ins[n].wire), true) == FindKey(st, i, ins[n].key, hash(ins[n].wire), false)
    decreases |st.entries| - i
  {
    hide ValuesEqual, Same, IsFirst;
    if i < |st.entries| {
      var f := Firsts(ins, hash, false, n);
      assert st.entries[i].key == ins[f[i]].key && st.hashes[i] == hash(ins[f[i]].wire);
      SameHits(st, ins, hash, n, i + 1);
    }
  }

  /** A first occurrence for the scan is one for the index. */
  lemma FirstIsFirst(ins: seq<Insertion>, hash: Hash, k: nat)
    requires k < |ins| && IsFirst(ins, hash, false, k)
    ensures IsFirst(ins, hash, true, k)
  {
    forall j | 0 <= j < k
      ensures !Same(ins, hash, true, j, k)
    {
      assert !Same(ins, hash, false, j, k);
    }
  }

  /** The positions of the first occurrences as a set. */
  function FirstSet(ins: seq<Insertion>, hash: Hash, dedup: bool): set<nat> {
    set k: nat | k < |ins| && IsFirst(ins, hash, dedup, k)
  }

  function Elements(f: seq<nat>): set<nat> { set k | k in f }

  lemma {:induction false} IncreasingSet(f: seq<nat>)
    requires forall i, j | 0 <= i < j < |f| :: f[i] < f[j]
    ensures |Elements(f)| == |f|
  {
    if f != [] {
      var front, last := f[..|f| - 1], f[|f| - 1];
      IncreasingSet(front);
      assert f == front + [last];
      assert Elements(f) == Elements(front) + {last};
      assert last !in Elements(front);
    }
  }

  lemma FirstCount(ins: seq<Insertion>, hash: Hash, dedup: bool)
    ensures |FirstSet(ins, hash, dedup)| == |Firsts(ins, hash, dedup, |ins|)|
  {
    var f := Firsts(ins, hash, dedup, |ins|);
    IncreasingSet(f);
    assert FirstSet(ins, hash, dedup) == Elements(f);
  }

  /** If two equal keys hash differently the index keeps an entry that the scan merges. */
  lemma DisagreeingIndex(ins: seq<Insertion>, hash: Hash)
    requires !HashesAgree(ins, hash)
    ensures |Firsts(ins, hash, false, |ins|)| < |Firsts(ins, hash, true, |ins|)|
  {
    var j, k :| 0 <= j < |ins| && 0 <= k < |ins| && ValuesEqual(ins[j].key, ins[k].key)
      && hash(ins[j].wire) != hash(ins[k].wire);
    hide ValuesEqual, Firsts;
    var a := Representative(ins, hash, true, j);
    var b := Representative(ins, hash, true, k);
    var scan, index := FirstSet(ins, hash, false), FirstSet(ins, hash, true);
    forall m | m in scan
      ensures m in index
    {
      FirstIsFirst(ins, hash, m);
    }
    SelfEqual(ins, j, k);
    SelfEqual(ins, k, j);
    EqualRepresentatives(ins, hash, a, j, k, b);
    assert a in index && b in index && a != b;
    assert !(a in scan && b in scan);
    FirstCount(ins, hash, false);
    FirstCount(ins, hash, true);
    if a in scan {
      ProperSubset(scan, index, b);
    } else {
      ProperSubset(scan, index, a);
    }
  }

  lemma SelfEqual(ins: seq<Insertion>, j: nat, k: nat)
    requires j < |ins| && k < |ins| && ValuesEqual(ins[j].key, ins[k].key)
    ensures ValuesEqual(ins[j].key, ins[j].key) && ValuesEqual(ins[k].key, ins[j].key)
  {
  }

  lemma EqualRepresentatives(ins: seq<Insertion>, hash: Hash, a: nat, j: nat, k: nat, b: nat)
    requires a < |ins| && j < |ins| && k < |ins| && b < |ins| && ValuesEqual(ins[j].key, ins[k].key)
    requires (a == j || Same(ins, hash, true, a, j)) && (b == k || Same(ins, hash, true, b, k))
    requires hash(ins[j].wire) != hash(ins[k].wire)
    ensures a != b && Same(ins, hash, false, a, b) && Same(ins, hash, false, b, a)
  {
    hide ValuesEqual;
    SelfEqual(ins, j, k);
    if a != j {
      ValuesEqualTransitive(ins[a].key, ins[j].key, ins[k].key);
    }
    ValuesEqualSymmetric(ins[a].key, ins[k].key);
    if b != k {
      ValuesEqualTransitive(ins[b].key, ins[k].key, ins[a].key);
    }
    ValuesEqualSymmetric(ins[b].key, ins[a].key);
  }

  lemma ProperSubset(x: set<nat>, y: set<nat>, k: nat)
    requires x <= y && k in y && k !in x
    ensures |x| < |y|
  {
    assert y == (x + {k}) + (y - (x + {k}));
  }

  /**
   The index makes the same map as the scan exactly if equal keys hash alike, whatever the hash function
   and its collisions. With the duplicate check, the two also agree where both refuse the map: where two
   keys are equal and hash alike, whatever the other keys do.
   */
  lemma IndexIsScan(ins: seq<Insertion>, hash: Hash)
    ensures Assemble(ins, hash, true, false) == Assemble(ins, hash, false, false) <==> HashesAgree(ins, hash)
    ensures Assemble(ins, hash, true, true) == Assemble(ins, hash, false, true) <==>
            HashesAgree(ins, hash) || exists j, k | 0 <= j < k < |ins| :: Same(ins, hash, true, j, k)
  {
    hide HashesAgree, Firsts, Assemble;
    AcceptedIndexIsScan(ins, hash);
    RejectingMapIsDistinct(ins, hash, true);
    RejectingMapIsDistinct(ins, hash, false);
    if HashesAgree(ins, hash) {
      assert ins[..|ins|] == ins;
      AgreeingIndex(ins, hash, true, |ins|);
    } else {
      DisagreeingPair(ins, hash);
    }
  }

  lemma AcceptedIndexIsScan(ins: seq<Insertion>, hash: Hash)
    ensures Assemble(ins, hash, true, false) == Assemble(ins, hash, false, false) <==> HashesAgree(ins, hash)
  {
    hide HashesAgree, Firsts;
    assert ins[..|ins|] == ins;
    AcceptingMapIsLastWrite(ins, hash, true);
    AcceptingMapIsLastWrite(ins, hash, false);
    if HashesAgree(ins, hash) {
      AgreeingIndex(ins, hash, false, |ins|);
    } else {
      DisagreeingIndex(ins, hash);
    }
  }

  /** Two equal keys that hash differently are a duplicate for the scan. */
  lemma DisagreeingPair(ins: seq<Insertion>, hash: Hash)
    requires !HashesAgree(ins, hash)
    ensures exists j, k | 0 <= j < k < |ins| :: Same(ins, hash, false, j, k)
  {
    hide ValuesEqual;
    var j, k :| 0 <= j < |ins| && 0 <= k < |ins| && ValuesEqual(ins[j].key, ins[k].key)
      && hash(ins[j].wire) != hash(ins[k].wire);
    SelfEqual(ins, j, k);
    assert if j < k then Same(ins, hash, false, j, k) else Same(ins, hash, false, k, j);
  }

  /** The index makes the same map as the scan under every hash function exactly if equal keys have the same bytes. */
  lemma EveryIndexIsScan(ins: seq<Insertion>)
    ensures SameBytes(ins) <==>
            forall hash: Hash :: Assemble(ins, hash, true, false) == Assemble(ins, hash, false, false)
  {
    hide Assemble, ValuesEqual;
    if SameBytes(ins) {
      forall hash: Hash
        ensures Assemble(ins, hash, true, false) == Assemble(ins, hash, false, false)
      {
        IndexIsScan(ins, hash);
      }
    } else {
      var j, k :| 0 <= j < |ins| && 0 <= k < |ins| && ValuesEqual(ins[j].key, ins[k].key) && ins[j].wire != ins[k].wire;
      var wire := ins[j].wire;
      var hash: Hash := x => if x == wire then 1 else 0;
      assert hash(ins[j].wire) != hash(ins[k].wire);
      IndexIsScan(ins, hash);
    }
  }

  // ---------------------------------------------------------------- reading the pairs

  /** One pair, whose key stands at keyOff, before it is inserted; the null key check is included. */
  function ReadPair(src: seq<Byte>, keyOff: nat, key: Decoded<Value>, depth: nat, o: DecodeOpts)
    : (r: Decoded<Insertion>)
    requires keyOff <= |src| && (key.Ok? ==> keyOff < key.next <= |src|)
    ensures r.Ok? ==> keyOff < r.next <= |src|
  {
    match key
    case Err(e, at) => Err(e, at)
    case Ok(k, pos) =>
      if o.rejectNullKeys && k.Null? then Err(NullMapKey, keyOff)
      else
        match DecodeValue(src, pos, depth, o, false)
        case Err(e, at) => Err(e, at)
        case Ok(v, next) => Ok(Insertion(k, v, src[keyOff..pos]), next)
  }

  /** count pairs of a definite map, each as it was read. */
  function ReadPairs(src: seq<Byte>, pos: nat, count: nat, depth: nat, o: DecodeOpts): (r: Decoded<seq<Insertion>>)
    requires pos <= |src|
    ensures r.Ok? ==> pos <= r.next <= |src| && |r.value| == count
    decreases count
  {
    if count == 0 then Ok([], pos)
    else
      match ReadPair(src, pos, DecodeKey(src, pos, depth, o), depth, o)
      case Err(e, at) => Err(e, at)
      case Ok(x, next) => Prepended(x, ReadPairs(src, next, count - 1, depth, o))
  }

  /** The pairs of an indefinite map up to its break, however many there are. */
  function ReadPairsUntilBreak(src: seq<Byte>, pos: nat, depth: nat, o: DecodeOpts): (r: Decoded<seq<Insertion>>)
    requires pos <= |src|
    ensures r.Ok? ==> pos < r.next <= |src|
    decreases |src| - pos
  {
    if pos >= |src| then Err(Truncated, pos)
    else if src[pos] == BREAK_CODE then Ok([], pos + 1)
    else
      match ReadPair(src, pos, DecodeValue(src, pos, depth, o, false), depth, o)
      case Err(e, at) => Err(e, at)
      case Ok(x, next) => Prepended(x, ReadPairsUntilBreak(src, next, depth, o))
  }

  function Prepended(x: Insertion, rest: Decoded<seq<Insertion>>): Decoded<seq<Insertion>> {
    if rest.Ok? then Ok([x] + rest.value, rest.next) else rest
  }

  /** The pairs of the map whose head h stands at off, and the offset behind it. */
  function MapPairs(src: seq<Byte>, off: nat, h: Head, depth: nat, o: DecodeOpts): (r: Decoded<seq<Insertion>>)
    requires off + h.n <= |src| && h.n > 0
    ensures r.Ok? ==> off < r.next <= |src|
  {
    if h.ai == AI_INDEFINITE then
      if o.rejectIndefinite then Err(IndefiniteLength, off)
      else if depth + 1 > o.MaxNesting() then Err(MaxNestingDepth, off + h.n)
      else ReadPairsUntilBreak(src, off + h.n, depth + 1, o)
    else if h.arg > o.MaxArray() then Err(MaxArrayLength, off)
    else if depth + 1 > o.MaxNesting() then Err(MaxNestingDepth, off)
    else ReadPairs(src, off + h.n, h.arg, depth + 1, o)
  }

  predicate UsesIndex(h: Head) { h.ai != AI_INDEFINITE && h.arg > DEDUP_THRESHOLD }

  /**
   The length limit of an indefinite map counts the keys so far, not the pairs: from pair `from` on,
   each pair finds fewer different keys before it than the limit.
   */
  predicate Room(ins: seq<Insertion>, from: nat, o: DecodeOpts) {
    forall n | from <= n < |ins| :: |Firsts(ins, Fnv1a, false, n)| < o.MaxArray()
  }

  // ---------------------------------------------------------------- decoding is reading and assembling

  /** Decoding a pair is reading it and inserting what was read. */
  lemma PairIsInsertion(src: seq<Byte>, keyOff: nat, key: Decoded<Value>, m: Pairs, dedup: bool, depth: nat,
                        o: DecodeOpts)
    requires keyOff <= |src| && m.Valid() && (key.Ok? ==> keyOff < key.next <= |src|)
    ensures var r := ReadPair(src, keyOff, key, depth, o);
            DecodePair(src, keyOff, key, m, dedup, depth, o) ==
            if r.Err? then Err(r.error, r.at)
            else
              var m' := MapInsert(m, r.value.key, r.value.value, Fnv1a(r.value.wire), dedup, o.rejectDuplicateKeys);
              if m'.None? then Err(DuplicateMapKey, keyOff) else Ok(m'.value, r.next)
  {
    hide DecodeValue, Fnv1a, MapInsert;
  }

  lemma AssembleStep(done: seq<Insertion>, x: Insertion, hash: Hash, dedup: bool, reject: bool)
    ensures Assemble(done + [x], hash, dedup, reject) ==
            match Assemble(done, hash, dedup, reject)
            case None => None
            case Some(st) => MapInsert(st, x.key, x.value, hash(x.wire), dedup, reject)
  {
    hide MapInsert;
    assert (done + [x])[..|done|] == done;
  }

  lemma {:induction false} StaysRefused(a: seq<Insertion>, b: seq<Insertion>, hash: Hash, dedup: bool, reject: bool)
    requires Assemble(a, hash, dedup, reject).None?
    ensures Assemble(a + b, hash, dedup, reject).None?
  {
    if b == [] {
      assert a + b == a;
    } else {
      var b' := b[..|b| - 1];
      StaysRefused(a, b', hash, dedup, reject);
      assert (a + b)[..|a + b| - 1] == a + b';
    }
  }

  lemma {:induction false} DefiniteAssembles(src: seq<Byte>, pos: nat, count: nat, done: seq<Insertion>, dedup: bool,
                                             depth: nat, o: DecodeOpts)
    requires pos <= |src| && Assemble(done, Fnv1a, dedup, o.rejectDuplicateKeys).Some?
    ensures var m := Assemble(done, Fnv1a, dedup, o.rejectDuplicateKeys).value;
            var d := DecodePairs(src, pos, count, m, dedup, depth, o);
            var r := ReadPairs(src, pos, count, depth, o);
            && (d.Ok? <==> r.Ok? && Assemble(done + r.value, Fnv1a, dedup, o.rejectDuplicateKeys).Some?)
            && (d.Ok? ==>
                  d == Decoded.Ok(Assemble(done + r.value, Fnv1a, dedup, o.rejectDuplicateKeys).value, r.next))
            && (d.Err? && r.Ok? ==> d.error == DuplicateMapKey)
    decreases count
  {
    hide DecodeKey, DecodeValue, DecodePair, ReadPair, Fnv1a, MapInsert, Assemble;
    var m := Assemble(done, Fnv1a, dedup, o.rejectDuplicateKeys).value;
    if count == 0 {
      assert done + [] == done;
    } else {
      var key := DecodeKey(src, pos, depth, o);
      PairIsInsertion(src, pos, key, m, dedup, depth, o);
      var x := ReadPair(src, pos, key, depth, o);
      if x.Ok? {
        var done' := done + [x.value];
        AssembleStep(done, x.value, Fnv1a, dedup, o.rejectDuplicateKeys);
        var rest := ReadPairs(src, x.next, count - 1, depth, o);
        if rest.Ok? {
          assert done + ([x.value] + rest.value) == done' + rest.value;
        }
        if Assemble(done', Fnv1a, dedup, o.rejectDuplicateKeys).Some? {
          DefiniteAssembles(src, x.next, count - 1, done', dedup, depth, o);
        } else if rest.Ok? {
          StaysRefused(done', rest.value, Fnv1a, dedup, o.rejectDuplicateKeys);
        }
      }
    }
  }

  /** What is assembled from the first pairs has an entry for each of their keys. */
  lemma AssembledSize(done: seq<Insertion>, more: seq<Insertion>, reject: bool)
    requires Assemble(done, Fnv1a, false, reject).Some?
    ensures |Assemble(done, Fnv1a, false, reject).value.entries| == |Firsts(done + more, Fnv1a, false, |done|)|
  {
    hide Assemble, Fnv1a;
    var ins := done + more;
    assert ins[..|done|] == done;
    AssembledIsLastWrite(ins, Fnv1a, false, |done|);
    RejectingAssembly(ins, Fnv1a, false, |done|);
  }

  lemma RoomStep(done: seq<Insertion>, x: Insertion, rest: seq<Insertion>, o: DecodeOpts)
    requires Assemble(done, Fnv1a, false, o.rejectDuplicateKeys).Some?
    ensures Room(done + ([x] + rest), |done|, o) <==>
            (|Assemble(done, Fnv1a, false, o.rejectDuplicateKeys).value.entries| < o.MaxArray()
             && Room(done + [x] + rest, |done| + 1, o))
  {
    hide Assemble, Firsts, Fnv1a;
    assert done + ([x] + rest) == done + [x] + rest;
    AssembledSize(done, [x] + rest, o.rejectDuplicateKeys);
  }

  lemma {:induction false} IndefiniteAssembles(src: seq<Byte>, pos: nat, done: seq<Insertion>, depth: nat,
                                               o: DecodeOpts)
    requires pos <= |src| && Assemble(done, Fnv1a, false, o.rejectDuplicateKeys).Some?
    ensures var m := Assemble(done, Fnv1a, false, o.rejectDuplicateKeys).value;
            var d := DecodePairsUntilBreak(src, pos, m, depth, o);
            var r := ReadPairsUntilBreak(src, pos, depth, o);
            && (d.Ok? <==> r.Ok? && Assemble(done + r.value, Fnv1a, false, o.rejectDuplicateKeys).Some?
                           && Room(done + r.value, |done|, o))
            && (d.Ok? ==>
                  d == Decoded.Ok(Assemble(done + r.value, Fnv1a, false, o.rejectDuplicateKeys).value, r.next))
            && (d.Err? && r.Ok? ==> d.error == DuplicateMapKey || d.error == MaxArrayLength)
    decreases |src| - pos
  {
    hide DecodeValue, DecodePair, ReadPair, Fnv1a, MapInsert, Assemble, Firsts, Room;
    var m := Assemble(done, Fnv1a, false, o.rejectDuplicateKeys).value;
    if pos < |src| {
      if src[pos] == BREAK_CODE {
        assert done + [] == done;
        NoMore(done, o);
      } else {
        var key := DecodeValue(src, pos, depth, o, false);
        PairIsInsertion(src, pos, key, m, false, depth, o);
        var x := ReadPair(src, pos, key, depth, o);
        if x.Ok? {
          var done' := done + [x.value];
          AssembleStep(done, x.value, Fnv1a, false, o.rejectDuplicateKeys);
          var rest := ReadPairsUntilBreak(src, x.next, depth, o);
          if rest.Ok? {
            assert done + ([x.value] + rest.value) == done' + rest.value;
            RoomStep(done, x.value, rest.value, o);
          }
          if Assemble(done', Fnv1a, false, o.rejectDuplicateKeys).Some? {
            IndefiniteAssembles(src, x.next, done', depth, o);
          } else if rest.Ok? {
            StaysRefused(done', rest.value, Fnv1a, false, o.rejectDuplicateKeys);
          }
        }
      }
    }
  }

  lemma NoMore(done: seq<Insertion>, o: DecodeOpts)
    ensures Room(done, |done|, o)
  {
  }

  /** The two cases, from no pairs on. */
  lemma CountedPairsAssemble(src: seq<Byte>, pos: nat, count: nat, dedup: bool, depth: nat, o: DecodeOpts)
    requires pos <= |src|
    ensures var d := DecodePairs(src, pos, count, NO_PAIRS, dedup, depth, o);
            var r := ReadPairs(src, pos, count, depth, o);
            && (d.Ok? <==> r.Ok? && Assemble(r.value, Fnv1a, dedup, o.rejectDuplicateKeys).Some?)
            && (d.Ok? ==> d == Decoded.Ok(Assemble(r.value, Fnv1a, dedup, o.rejectDuplicateKeys).value, r.next))
            && (d.Err? && r.Ok? ==> d.error == DuplicateMapKey)
  {
    hide DecodePairs, ReadPairs, Fnv1a, Assemble;
    NoPairs(dedup, o.rejectDuplicateKeys);
    DefiniteAssembles(src, pos, count, [], dedup, depth, o);
    if ReadPairs(src, pos, count, depth, o).Ok? {
      assert [] + ReadPairs(src, pos, count, depth, o).value == ReadPairs(src, pos, count, depth, o).value;
    }
  }

  lemma OpenPairsAssemble(src: seq<Byte>, pos: nat, depth: nat, o: DecodeOpts)
    requires pos <= |src|
    ensures var d := DecodePairsUntilBreak(src, pos, NO_PAIRS, depth, o);
            var r := ReadPairsUntilBreak(src, pos, depth, o);
            && (d.Ok? <==> r.Ok? && Assemble(r.value, Fnv1a, false, o.rejectDuplicateKeys).Some? && Room(r.value, 0, o))
            && (d.Ok? ==> d == Decoded.Ok(Assemble(r.value, Fnv1a, false, o.rejectDuplicateKeys).value, r.next))
            && (d.Err? && r.Ok? ==> d.error == DuplicateMapKey || d.error == MaxArrayLength)
  {
    hide DecodePairsUntilBreak, ReadPairsUntilBreak, Fnv1a, Assemble, Room;
    NoPairs(false, o.rejectDuplicateKeys);
    IndefiniteAssembles(src, pos, [], depth, o);
    if ReadPairsUntilBreak(src, pos, depth, o).Ok? {
      assert [] + ReadPairsUntilBreak(src, pos, depth, o).value == ReadPairsUntilBreak(src, pos, depth, o).value;
    }
  }

  lemma NoPairs(dedup: bool, reject: bool)
    ensures Assemble([], Fnv1a, dedup, reject) == Some(NO_PAIRS)
  {
    hide Fnv1a;
  }

  /**
   A map, definite or indefinite, decodes exactly if its pairs can be read, their assembly is not
   refused, and, without a count in front, the limit is kept; it is then that assembly. By the index
   above the threshold, by the scan below it and for indefinite maps.
   */
  lemma DecodedMapIsAssembly(src: seq<Byte>, off: nat, h: Head, depth: nat, o: DecodeOpts)
    requires off + h.n <= |src| && h.n > 0
    ensures var d := DecodeMap(src, off, h, depth, o);
            var r := MapPairs(src, off, h, depth, o);
            && (d.Ok? <==> r.Ok? && Assemble(r.value, Fnv1a, UsesIndex(h), o.rejectDuplicateKeys).Some?
                           && (h.ai == AI_INDEFINITE ==> Room(r.value, 0, o)))
            && (d.Ok? ==>
                  d == Ok(Map(Assemble(r.value, Fnv1a, UsesIndex(h), o.rejectDuplicateKeys).value.entries), r.next))
            && (d.Err? && r.Ok? ==>
                  d.error == DuplicateMapKey || (h.ai == AI_INDEFINITE && d.error == MaxArrayLength))
  {
    hide DecodePairs, DecodePairsUntilBreak, ReadPairs, ReadPairsUntilBreak, Room, Fnv1a, Assemble;
    if h.ai == AI_INDEFINITE {
      OpenPairsAssemble(src, off + h.n, depth + 1, o);
    } else {
      CountedPairsAssemble(src, off + h.n, h.arg, UsesIndex(h), depth + 1, o);
    }
  }

  // ---------------------------------------------------------------- what a decoded map holds

  /** No two keys are equal. */
  predicate KeysApart(entries: seq<MapEntry>) {
    forall i, j | 0 <= i < j < |entries| :: !ValuesEqual(entries[i].key, entries[j].key)
  }

  /** The entries are the first occurrences of the keys of ins, each with the last value of its key. */
  predicate KeepsLast(entries: seq<MapEntry>, ins: seq<Insertion>, dedup: bool) {
    var f := Firsts(ins, Fnv1a, dedup, |ins|);
    && |entries| == |f|
    && forall i | 0 <= i < |f| ::
         entries[i] == MapEntry(ins[f[i]].key, ins[LastOf(ins, Fnv1a, dedup, f[i], |ins|)].value)
  }

  /** The entries are the pairs. */
  predicate KeepsAll(entries: seq<MapEntry>, ins: seq<Insertion>) {
    && |entries| == |ins|
    && forall i | 0 <= i < |ins| :: entries[i] == MapEntry(ins[i].key, ins[i].value)
  }

  /**
   In every decoded map the last value of a key stands where the key first stood; no two keys are
   equal unless the index held them apart by their bytes; and with the duplicate check nothing was
   merged: the pairs are the entries.
   */
  lemma DecodedMapKeepsLast(src: seq<Byte>, off: nat, h: Head, depth: nat, o: DecodeOpts)
    requires off + h.n <= |src| && h.n > 0 && DecodeMap(src, off, h, depth, o).Ok?
    ensures MapPairs(src, off, h, depth, o).Ok? && DecodeMap(src, off, h, depth, o).value.Map?
    ensures var entries := DecodeMap(src, off, h, depth, o).value.pairs;
            var ins := MapPairs(src, off, h, depth, o).value;
            && KeepsLast(entries, ins, UsesIndex(h))
            && (!UsesIndex(h) ==> KeysApart(entries))
            && (o.rejectDuplicateKeys ==> KeepsAll(entries, ins) && Distinct(ins, Fnv1a, UsesIndex(h), |ins|))
  {
    hide DecodeMap, MapPairs, Assemble, Fnv1a, LastWriteWins, KeepsLast, KeepsAll, KeysApart, Distinct, Room;
    DecodedMapIsAssembly(src, off, h, depth, o);
    var ins := MapPairs(src, off, h, depth, o).value;
    assert ins[..|ins|] == ins;
    AssembledIsLastWrite(ins, Fnv1a, UsesIndex(h), |ins|);
    var st := Assemble(ins, Fnv1a, UsesIndex(h), false).value;
    RejectingAssembly(ins, Fnv1a, UsesIndex(h), |ins|);
    LastWriteEntries(st, ins, UsesIndex(h));
    if o.rejectDuplicateKeys {
      DistinctKeepsAll(st.entries, ins, UsesIndex(h));
    }
  }

  lemma LastWriteEntries(st: Pairs, ins: seq<Insertion>, dedup: bool)
    requires LastWriteWins(st, ins, Fnv1a, dedup, |ins|)
    ensures KeepsLast(st.entries, ins, dedup) && (!dedup ==> KeysApart(st.entries))
  {
    hide ValuesEqual, Fnv1a;
    var f := Firsts(ins, Fnv1a, dedup, |ins|);
    forall i, j | 0 <= i < j < |st.entries| && !dedup
      ensures !ValuesEqual(st.entries[i].key, st.entries[j].key)
    {
      assert f[i] < f[j];
      NotFirstSame(ins, Fnv1a, dedup, f[j]);
      assert !Same(ins, Fnv1a, dedup, f[i], f[j]);
    }
  }

  lemma {:induction false} DistinctFirsts(ins: seq<Insertion>, hash: Hash, dedup: bool, n: nat)
    requires n <= |ins| && Distinct(ins, hash, dedup, |ins|)
    ensures |Firsts(ins, hash, dedup, n)| == n && forall i | 0 <= i < n :: Firsts(ins, hash, dedup, n)[i] == i
  {
    hide IsFirst;
    if n > 0 {
      DistinctFirsts(ins, hash, dedup, n - 1);
    }
  }

  lemma DistinctKeepsAll(entries: seq<MapEntry>, ins: seq<Insertion>, dedup: bool)
    requires KeepsLast(entries, ins, dedup) && Distinct(ins, Fnv1a, dedup, |ins|)
    ensures KeepsAll(entries, ins)
  {
    hide Same, Fnv1a;
    DistinctFirsts(ins, Fnv1a, dedup, |ins|);
    forall i | 0 <= i < |ins|
      ensures LastOf(ins, Fnv1a, dedup, i, |ins|) == i
    {
      var m := LastOf(ins, Fnv1a, dedup, i, |ins|);
      assert IsFirst(ins, Fnv1a, dedup, m);
    }
  }

  // ---------------------------------------------------------------- the inlined paths

  /** A short string of this major type stands at pos and is longer than the limit. */
  predicate OverLimitShortString(src: seq<Byte>, pos: nat, major: Major, o: DecodeOpts) {
    ShortStringAt(src, pos, major) && src[pos] % 32 > o.MaxBytes()
  }

  lemma ShortString(src: seq<Byte>, pos: nat, major: Major, depth: nat, o: DecodeOpts)
    requires ShortStringAt(src, pos, major) && (major == MAJOR_TEXT || major == MAJOR_BYTES)
    ensures var n := src[pos] % 32;
            var s := src[pos + 1..pos + 1 + n];
            DecodeValue(src, pos, depth, o, false) ==
            if n > o.MaxBytes() then Err(MaxByteStringLength, pos)
            else if major == MAJOR_BYTES then Ok(ByteString(s), pos + 1 + n)
            else if o.rejectInvalidUTF8 && !ValidUTF8(s) then Err(InvalidUTF8, pos)
            else Ok(TextString(s), pos + 1 + n)
  {
    hide ValidUTF8;
    assert ParseHead(src[pos..]) == Head(major, src[pos] % 32, src[pos] % 32, 1);
  }

  /** The inlined element path is the general one, except on a short string over the limit. */
  lemma ElementIsValue(src: seq<Byte>, pos: nat, depth: nat, o: DecodeOpts)
    requires pos <= |src|
    ensures DecodeElement(src, pos, depth, o) == DecodeValue(src, pos, depth, o, false) <==>
            !OverLimitShortString(src, pos, MAJOR_TEXT, o) && !OverLimitShortString(src, pos, MAJOR_BYTES, o)
  {
    hide DecodeValue, ValidUTF8;
    if ShortStringAt(src, pos, MAJOR_TEXT) {
      ShortString(src, pos, MAJOR_TEXT, depth, o);
    } else if ShortStringAt(src, pos, MAJOR_BYTES) {
      ShortString(src, pos, MAJOR_BYTES, depth, o);
    }
  }

  lemma KeyIsValue(src: seq<Byte>, pos: nat, depth: nat, o: DecodeOpts)
    requires pos <= |src|
    ensures DecodeKey(src, pos, depth, o) == DecodeValue(src, pos, depth, o, false) <==>
            !OverLimitShortString(src, pos, MAJOR_TEXT, o)
  {
    hide DecodeValue, ValidUTF8;
    if ShortStringAt(src, pos, MAJOR_TEXT) {
      ShortString(src, pos, MAJOR_TEXT, depth, o);
    }
  }
}
