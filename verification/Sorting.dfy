/**
 Sorting a prefix of an array by a comparison function, as slices.SortFunc does for the key
 entries of a map. The sort here is stable; `Canonical.AnySortWritesTheSame` shows that with
 distinct keys every other sort gives the same encoding.
 */
module Sorting {
  import opened Bytes
  import opened KeyOrder

  /** x goes after the elements that compare less or equal, looking from the end. */
  function InsertSorted<T>(s: seq<T>, x: T, cmp: (T, T) -> int): (r: seq<T>)
    ensures |r| == |s| + 1
  {
    if s == [] then [x]
    else
      var last := s[|s| - 1];
      if cmp(last, x) <= 0 then s + [x] else InsertSorted(s[..|s| - 1], x, cmp) + [last]
  }

  function Sorted<T>(s: seq<T>, cmp: (T, T) -> int): (r: seq<T>)
    ensures |r| == |s|
  {
    if s == [] then [] else InsertSorted(Sorted(s[..|s| - 1], cmp), s[|s| - 1], cmp)
  }

  method SortFunc<T>(a: array<T>, n: nat, cmp: (T, T) -> int)
    requires n <= a.Length
    modifies a
    ensures a[..n] == Sorted(old(a[..n]), cmp)
    ensures a[n..] == old(a[n..])
  {
    ghost var start := a[..];
    var i := 0;
    while i < n
      invariant i <= n && a[..i] == Sorted(start[..i], cmp) && a[i..] == start[i..]
    {
      SinkLast(a, i, cmp);
      assert start[..i + 1][..i] == start[..i];
      assert start[i..][1..] == start[i + 1..];
      i := i + 1;
    }
    assert start[..n] == old(a[..n]);
  }

  /** Moves element i down into the sorted prefix before it. */
  method SinkLast<T>(a: array<T>, i: nat, cmp: (T, T) -> int)
    requires i < a.Length
    modifies a
    ensures a[..i + 1] == InsertSorted(old(a[..i]), old(a[i]), cmp)
    ensures a[i + 1..] == old(a[i + 1..])
  {
    hide InsertSorted;
    ghost var sorted, above := a[..i], a[i + 1..];
    var x := a[i];
    var j := i;
    while j > 0 && cmp(a[j - 1], x) > 0
      invariant j <= i
      invariant a[..j] == sorted[..j] && a[j + 1..i + 1] == sorted[j..] && a[i + 1..] == above
      invariant InsertSorted(sorted, x, cmp) == InsertSorted(sorted[..j], x, cmp) + sorted[j..]
    {
      a[j] := a[j - 1];
      j := j - 1;
      InsertStep(sorted, x, cmp, j);
    }
    a[j] := x;
    assert a[..i + 1] == a[..j] + [x] + a[j + 1..i + 1];
    assert a[..j] == sorted[..j];
    InsertHere(sorted[..j], x, cmp);
  }

  lemma InsertStep<T>(s: seq<T>, x: T, cmp: (T, T) -> int, j: nat)
    requires j < |s| && cmp(s[j], x) > 0
    ensures InsertSorted(s[..j + 1], x, cmp) + s[j + 1..] == InsertSorted(s[..j], x, cmp) + s[j..]
  {
    assert s[..j + 1][..j] == s[..j];
    assert s[j..] == [s[j]] + s[j + 1..];
  }

  lemma InsertHere<T>(s: seq<T>, x: T, cmp: (T, T) -> int)
    requires s != [] ==> cmp(s[|s| - 1], x) <= 0
    ensures InsertSorted(s, x, cmp) == s + [x]
  {
  }

  // ---------------------------------------------------------------- sorting key entries

  /** An entry of the sort: an encoded key and the index of its map entry. */
  ghost predicate Represents<T(!new)>(s: seq<T>, keyOf: T -> seq<Byte>, indexOf: T -> nat, mode: SortMode,
                                      cmp: (T, T) -> int, keys: seq<seq<Byte>>)
  {
    && |s| == |keys|
    && (forall i | 0 <= i < |s| :: keyOf(s[i]) == keys[i] && indexOf(s[i]) == i)
    && (forall x: T, y: T :: cmp(x, y) == KeyCompare(mode, keyOf(x), keyOf(y)))
  }

  function Indices<T>(s: seq<T>, indexOf: T -> nat): (r: seq<nat>)
    ensures |r| == |s| && forall i | 0 <= i < |r| :: r[i] == indexOf(s[i])
  {
    seq(|s|, i requires 0 <= i < |s| => indexOf(s[i]))
  }

  lemma {:induction false} InsertIndices<T(!new)>(s: seq<T>, x: T, keyOf: T -> seq<Byte>, indexOf: T -> nat,
                                                  mode: SortMode, cmp: (T, T) -> int, keys: seq<seq<Byte>>)
    requires forall i | 0 <= i < |s| :: indexOf(s[i]) < |keys| && keyOf(s[i]) == keys[indexOf(s[i])]
    requires indexOf(x) < |keys| && keyOf(x) == keys[indexOf(x)]
    requires forall y: T, z: T :: cmp(y, z) == KeyCompare(mode, keyOf(y), keyOf(z))
    ensures Indices(InsertSorted(s, x, cmp), indexOf) == InsertIndex(mode, keys, Indices(s, indexOf), indexOf(x))
    ensures forall i | 0 <= i <= |s| ::
              var y := InsertSorted(s, x, cmp)[i]; indexOf(y) < |keys| && keyOf(y) == keys[indexOf(y)]
  {
    hide KeyCompare;
    if s != [] {
      var front := s[..|s| - 1];
      InsertIndices(front, x, keyOf, indexOf, mode, cmp, keys);
      assert Indices(s, indexOf)[..|s| - 1] == Indices(front, indexOf);
    }
  }

  /** Sorting the entries of a map sorts their indices by key. */
  lemma {:induction false} SortedIndices<T(!new)>(s: seq<T>, keyOf: T -> seq<Byte>, indexOf: T -> nat, mode: SortMode,
                                                  cmp: (T, T) -> int, keys: seq<seq<Byte>>, n: nat)
    requires Represents(s, keyOf, indexOf, mode, cmp, keys) && n <= |s|
    ensures Indices(Sorted(s[..n], cmp), indexOf) == OrderUpTo(mode, keys, n)
    ensures forall i | 0 <= i < n ::
              var y := Sorted(s[..n], cmp)[i]; indexOf(y) < |keys| && keyOf(y) == keys[indexOf(y)]
  {
    hide KeyCompare;
    if n > 0 {
      SortedIndices(s, keyOf, indexOf, mode, cmp, keys, n - 1);
      assert s[..n][..n - 1] == s[..n - 1];
      InsertIndices(Sorted(s[..n - 1], cmp), s[n - 1], keyOf, indexOf, mode, cmp, keys);
    }
  }
}
