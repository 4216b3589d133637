/**
 The two orders of encoded map keys (sections 4.2.1 and 4.2.3 of RFC 8949) and sorting
 by them.
 */
module KeyOrder {
  import opened Bytes

  datatype SortMode = BytewiseLex | LengthFirst

  /** bytes.Compare: negative, zero or positive. */
  function LexCompare(a: seq<Byte>, b: seq<Byte>): (c: int)
    decreases |a|
  {
    if a == [] then (if b == [] then 0 else -1)
    else if b == [] then 1
    else if a[0] != b[0] then a[0] - b[0]
    else LexCompare(a[1..], b[1..])
  }

  /** The comparison encodeMap sorts with, including its test of the first byte. */
  function KeyCompare(mode: SortMode, a: seq<Byte>, b: seq<Byte>): (c: int) {
    if mode.LengthFirst? && |a| != |b| then |a| - |b|
    else if |a| > 0 && |b| > 0 && a[0] != b[0] then a[0] - b[0]
    else LexCompare(a, b)
  }

  /** The comparison PrecomputeMapOrder sorts with. */
  function PreorderCompare(mode: SortMode, a: seq<Byte>, b: seq<Byte>): (c: int) {
    if mode.LengthFirst? && |a| != |b| then |a| - |b|
    else LexCompare(a, b)
  }

  // ---------------------------------------------------------------- the orders of RFC 8949

  /** The strings first differ at k, and there a has the smaller byte. */
  predicate SmallerAt(a: seq<Byte>, b: seq<Byte>, k: nat) {
    k < |a| && k < |b| && a[..k] == b[..k] && a[k] < b[k]
  }

  /** The bytewise lexical order: a proper prefix, or a smaller byte at the first difference. */
  predicate BytewiseBefore(a: seq<Byte>, b: seq<Byte>) {
    a < b || exists k | 0 <= k < |a| :: SmallerAt(a, b, k)
  }

  /** Sections 4.2.1 and 4.2.3 of RFC 8949. */
  predicate Before(mode: SortMode, a: seq<Byte>, b: seq<Byte>) {
    if mode.LengthFirst? then |a| < |b| || (|a| == |b| && BytewiseBefore(a, b)) else BytewiseBefore(a, b)
  }

  lemma {:induction false} LexIsBytewise(a: seq<Byte>, b: seq<Byte>)
    ensures LexCompare(a, b) < 0 <==> BytewiseBefore(a, b)
    ensures LexCompare(a, b) == 0 <==> a == b
    decreases |a|
  {
    if a != [] && b != [] {
      var x, y := a[1..], b[1..];
      assert a == [a[0]] + x && b == [b[0]] + y;
      if a[0] != b[0] {
        DecidedAtFirst(a, b);
      } else {
        LexIsBytewise(x, y);
        BehindEqualByte(a[0], x, y);
      }
    }
  }

  lemma DecidedAtFirst(a: seq<Byte>, b: seq<Byte>)
    requires a != [] && b != [] && a[0] != b[0]
    ensures BytewiseBefore(a, b) <==> a[0] < b[0]
  {
    if a[0] < b[0] {
      assert SmallerAt(a, b, 0);
    }
    if BytewiseBefore(a, b) && !(a < b) {
      var k :| 0 <= k < |a| && SmallerAt(a, b, k);
      assert k == 0;
    }
  }

  lemma BehindEqualByte(c: Byte, x: seq<Byte>, y: seq<Byte>)
    ensures BytewiseBefore([c] + x, [c] + y) <==> BytewiseBefore(x, y)
  {
    var a, b := [c] + x, [c] + y;
    PrefixBehind(c, x, y);
    if BytewiseBefore(x, y) && !(x < y) {
      var k :| 0 <= k < |x| && SmallerAt(x, y, k);
      SmallerBehind(c, x, y, k);
    }
    if BytewiseBefore(a, b) && !(a < b) {
      var k :| 0 <= k < |a| && SmallerAt(a, b, k);
      assert k > 0;
      SmallerBehind(c, x, y, k - 1);
    }
  }

  lemma PrefixBehind(c: Byte, x: seq<Byte>, y: seq<Byte>)
    ensures [c] + x < [c] + y <==> x < y
  {
    var a, b := [c] + x, [c] + y;
    assert a[1..] == x && b[1..] == y;
  }

  lemma SmallerBehind(c: Byte, x: seq<Byte>, y: seq<Byte>, k: nat)
    ensures SmallerAt([c] + x, [c] + y, k + 1) <==> SmallerAt(x, y, k)
  {
    var a, b := [c] + x, [c] + y;
    if k < |x| && k < |y| {
      assert a[..k + 1] == [c] + x[..k] && b[..k + 1] == [c] + y[..k];
      assert ([c] + x[..k])[1..] == x[..k] && ([c] + y[..k])[1..] == y[..k];
      assert a[k + 1] == x[k] && b[k + 1] == y[k];
    }
  }

  /** Both comparisons are the order of their mode: negative exactly before, zero exactly on equal keys. */
  lemma ComparesAsOrdered(mode: SortMode, a: seq<Byte>, b: seq<Byte>)
    ensures KeyCompare(mode, a, b) < 0 <==> Before(mode, a, b)
    ensures KeyCompare(mode, a, b) == 0 <==> a == b
    ensures PreorderCompare(mode, a, b) < 0 <==> Before(mode, a, b)
    ensures PreorderCompare(mode, a, b) == 0 <==> a == b
  {
    hide LexCompare;
    ComparesAgree(mode, a, b);
    LexIsBytewise(a, b);
  }

  /** Testing the first byte early changes nothing. */
  lemma ComparesAgree(mode: SortMode, a: seq<Byte>, b: seq<Byte>)
    ensures KeyCompare(mode, a, b) == PreorderCompare(mode, a, b)
  {
  }

  predicate Leq(mode: SortMode, a: seq<Byte>, b: seq<Byte>) {
    KeyCompare(mode, a, b) <= 0
  }

  lemma {:induction false} LexAntisymmetric(a: seq<Byte>, b: seq<Byte>)
    ensures LexCompare(a, b) == 0 <==> a == b
    ensures LexCompare(a, b) < 0 <==> LexCompare(b, a) > 0
    decreases |a|
  {
    if a != [] && b != [] && a[0] == b[0] {
      LexAntisymmetric(a[1..], b[1..]);
      assert a == [a[0]] + a[1..] && b == [b[0]] + b[1..];
    }
  }

  lemma {:induction false} LexTransitive(a: seq<Byte>, b: seq<Byte>, c: seq<Byte>)
    requires LexCompare(a, b) <= 0 && LexCompare(b, c) <= 0
    ensures LexCompare(a, c) <= 0
    decreases |a|
  {
    if a != [] && b != [] && c != [] && a[0] == b[0] == c[0] {
      LexTransitive(a[1..], b[1..], c[1..]);
    }
  }

  /** Both orders are the orders of RFC 8949, and total orders on byte strings. */
  lemma LeqTotalOrder(mode: SortMode, a: seq<Byte>, b: seq<Byte>, c: seq<Byte>)
    ensures Leq(mode, a, b) <==> a == b || Before(mode, a, b)
    ensures Leq(mode, a, b) || Leq(mode, b, a)
    ensures Leq(mode, a, b) && Leq(mode, b, a) ==> a == b
    ensures Leq(mode, a, a)
    ensures Leq(mode, a, b) && Leq(mode, b, c) ==> Leq(mode, a, c)
  {
    hide Before;
    ComparesAsOrdered(mode, a, b);
    ComparesAgree(mode, a, b);
    ComparesAgree(mode, b, a);
    ComparesAgree(mode, a, c);
    ComparesAgree(mode, b, c);
    ComparesAgree(mode, a, a);
    LexAntisymmetric(a, b);
    LexAntisymmetric(a, a);
    if LexCompare(a, b) <= 0 && LexCompare(b, c) <= 0 {
      LexTransitive(a, b, c);
    }
  }

  // ---------------------------------------------------------------- sorting

  predicate Below(order: seq<nat>, n: nat) {
    forall k | 0 <= k < |order| :: order[k] < n
  }

  /** Insert index i into an order of indices sorted by key, after the keys equal to its own. */
  function InsertIndex(mode: SortMode, keys: seq<seq<Byte>>, order: seq<nat>, i: nat): (r: seq<nat>)
    requires i < |keys| && Below(order, |keys|)
    ensures |r| == |order| + 1 && Below(r, |keys|)
  {
    if order == [] then [i]
    else
      var last := order[|order| - 1];
      if Leq(mode, keys[last], keys[i]) then order + [i]
      else InsertIndex(mode, keys, order[..|order| - 1], i) + [last]
  }

  /** The indices 0 .. n-1 in the order of their keys. */
  function OrderUpTo(mode: SortMode, keys: seq<seq<Byte>>, n: nat): (r: seq<nat>)
    requires n <= |keys|
    ensures |r| == n && Below(r, |keys|)
  {
    if n == 0 then [] else InsertIndex(mode, keys, OrderUpTo(mode, keys, n - 1), n - 1)
  }

  /** The order slices.SortFunc leaves the entries in, as indices into the keys. */
  function SortedOrder(mode: SortMode, keys: seq<seq<Byte>>): (r: seq<nat>)
    ensures |r| == |keys| && Below(r, |keys|)
  {
    OrderUpTo(mode, keys, |keys|)
  }

  predicate SortedBy(mode: SortMode, keys: seq<seq<Byte>>, order: seq<nat>)
    requires Below(order, |keys|)
  {
    forall i, j | 0 <= i < j < |order| :: Leq(mode, keys[order[i]], keys[order[j]])
  }

  lemma {:induction false} InsertIndexElements(mode: SortMode, keys: seq<seq<Byte>>, order: seq<nat>, i: nat)
    requires i < |keys| && Below(order, |keys|)
    ensures multiset(InsertIndex(mode, keys, order, i)) == multiset(order) + multiset{i}
  {
    if order == [] {
    } else {
      var front, last := order[..|order| - 1], order[|order| - 1];
      assert order == front + [last];
      if !Leq(mode, keys[last], keys[i]) {
        InsertIndexElements(mode, keys, front, i);
      }
    }
  }

  lemma {:induction false} InsertIndexSorted(mode: SortMode, keys: seq<seq<Byte>>, order: seq<nat>, i: nat)
    requires i < |keys| && Below(order, |keys|) && SortedBy(mode, keys, order)
    ensures SortedBy(mode, keys, InsertIndex(mode, keys, order, i))
  {
    if order == [] {
    } else {
      var front, last := order[..|order| - 1], order[|order| - 1];
      var r := InsertIndex(mode, keys, order, i);
      if Leq(mode, keys[last], keys[i]) {
        forall k | 0 <= k < |order|
          ensures Leq(mode, keys[order[k]], keys[i])
        {
          LeqTotalOrder(mode, keys[order[k]], keys[last], keys[i]);
        }
      } else {
        var r' := InsertIndex(mode, keys, front, i);
        InsertIndexSorted(mode, keys, front, i);
        LeqTotalOrder(mode, keys[last], keys[i], keys[i]);
        forall k | 0 <= k < |r'|
          ensures Leq(mode, keys[r'[k]], keys[last])
        {
          InsertIndexElements(mode, keys, front, i);
          assert r'[k] in multiset(r');
          if r'[k] != i {
            assert r'[k] in front;
          }
        }
      }
    }
  }

  /** The indices 0 .. n-1 in increasing order. */
  function Iota(n: nat): (r: seq<nat>)
    ensures |r| == n && forall i | 0 <= i < n :: r[i] == i
  {
    if n == 0 then [] else Iota(n - 1) + [n - 1]
  }

  /** The indices i .. n-1 in increasing order. */
  function IotaFrom(i: nat, n: nat): (r: seq<nat>)
    requires i <= n
    ensures |r| == n - i && forall k | 0 <= k < n - i :: r[k] == i + k
    decreases n - i
  {
    if i == n then [] else [i] + IotaFrom(i + 1, n)
  }

  lemma IotaFromZero(n: nat)
    ensures IotaFrom(0, n) == Iota(n)
  {
  }

  lemma {:induction false} OrderUpToSorted(mode: SortMode, keys: seq<seq<Byte>>, n: nat)
    requires n <= |keys|
    ensures SortedBy(mode, keys, OrderUpTo(mode, keys, n))
  {
    if n > 0 {
      OrderUpToSorted(mode, keys, n - 1);
      InsertIndexSorted(mode, keys, OrderUpTo(mode, keys, n - 1), n - 1);
    }
  }

  lemma {:induction false} OrderUpToElements(mode: SortMode, keys: seq<seq<Byte>>, n: nat)
    requires n <= |keys|
    ensures multiset(OrderUpTo(mode, keys, n)) == multiset(Iota(n))
  {
    hide InsertIndex, Leq, Below, OrderUpTo, Iota;
    OrderStep(mode, keys, n);
    IotaStep(n);
    if n > 0 {
      var front := OrderUpTo(mode, keys, n - 1);
      OrderUpToElements(mode, keys, n - 1);
      InsertIndexElements(mode, keys, front, n - 1);
    }
  }

  lemma OrderStep(mode: SortMode, keys: seq<seq<Byte>>, n: nat)
    requires n <= |keys|
    ensures OrderUpTo(mode, keys, n) ==
            if n == 0 then [] else InsertIndex(mode, keys, OrderUpTo(mode, keys, n - 1), n - 1)
  {
    hide InsertIndex;
  }

  lemma IotaStep(n: nat)
    ensures Iota(n) == if n == 0 then [] else Iota(n - 1) + [n - 1]
  {
  }

  /** The order is a permutation of all indices along which every key is before the next, or equal to it. */
  lemma SortedOrderCorrect(mode: SortMode, keys: seq<seq<Byte>>)
    ensures var order := SortedOrder(mode, keys);
            forall i, j | 0 <= i < j < |order| ::
              keys[order[i]] == keys[order[j]] || Before(mode, keys[order[i]], keys[order[j]])
    ensures SortedBy(mode, keys, SortedOrder(mode, keys))
    ensures multiset(SortedOrder(mode, keys)) == multiset(Iota(|keys|))
  {
    hide Before;
    OrderUpToSorted(mode, keys, |keys|);
    OrderUpToElements(mode, keys, |keys|);
    var order := SortedOrder(mode, keys);
    forall i, j | 0 <= i < j < |order|
      ensures keys[order[i]] == keys[order[j]] || Before(mode, keys[order[i]], keys[order[j]])
    {
      ComparesAsOrdered(mode, keys[order[i]], keys[order[j]]);
    }
  }

  lemma {:induction false} IotaCounts(n: nat, x: nat)
    ensures multiset(Iota(n))[x] == if x < n then 1 else 0
  {
    if n > 0 {
      IotaCounts(n - 1, x);
    }
  }

  lemma {:induction false} RepeatedTwice(s: seq<nat>, a: nat, b: nat)
    requires a < b < |s| && s[a] == s[b]
    ensures multiset(s)[s[a]] >= 2
  {
    assert s == s[..b] + s[b..];
    assert s[..b][a] == s[a] && s[b..][0] == s[a];
    assert s[a] in multiset(s[..b]) && s[a] in multiset(s[b..]);
  }

  predicate Distinct(order: seq<nat>) {
    forall a, b | 0 <= a < b < |order| :: order[a] != order[b]
  }

  /** The order meets every index below n exactly once. */
  predicate Permutes(order: seq<nat>, n: nat) {
    && |order| == n && Below(order, n)
    && (forall i: nat | i < n :: i in order)
    && Distinct(order)
  }

  /** Being a permutation of 0 .. n-1 as a multiset means just that. */
  lemma PermutationFacts(order: seq<nat>, n: nat)
    requires multiset(order) == multiset(Iota(n))
    ensures Permutes(order, n)
  {
    assert |order| == |multiset(order)| && n == |Iota(n)| == |multiset(Iota(n))|;
    forall k | 0 <= k < |order|
      ensures order[k] < n
    {
      assert order[k] in multiset(order);
      IotaCounts(n, order[k]);
    }
    forall i: nat | i < n
      ensures i in order
    {
      IotaCounts(n, i);
      assert i in multiset(order);
    }
    forall a, b | 0 <= a < b < |order|
      ensures order[a] != order[b]
    {
      if order[a] == order[b] {
        RepeatedTwice(order, a, b);
        IotaCounts(n, order[a]);
      }
    }
  }

  lemma PositionOf(order: seq<nat>, n: nat, i: nat) returns (a: nat)
    requires Permutes(order, n) && i < n
    ensures a < |order| && order[a] == i
  {
    assert i in order;
    a :| a < |order| && order[a] == i;
  }

  lemma SortedOrderPermutes(mode: SortMode, keys: seq<seq<Byte>>)
    ensures Permutes(SortedOrder(mode, keys), |keys|)
  {
    SortedOrderCorrect(mode, keys);
    PermutationFacts(SortedOrder(mode, keys), |keys|);
  }

  lemma IotaPermutes(n: nat)
    ensures Permutes(Iota(n), n)
  {
    PermutationFacts(Iota(n), n);
  }
}
