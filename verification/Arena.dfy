/**
 The decode arena (rfc8949/arena.go): one backing slab for values and one for map entries, and what
 is stored in them. The slices handed out since the last reset behave like separate buffers, across
 growth, so that an arena can be reasoned about as a list of buffers.
 */
module Arena {
  import opened Bytes
  import opened Values

  /** A slice of a slab. */
  datatype Slice<T> = Slice(slab: array<T>, lo: nat, hi: nat)

  ghost predicate Disjoint<T>(a: Slice<T>, b: Slice<T>) {
    a.slab != b.slab || a.hi <= b.lo || b.hi <= a.lo
  }

  ghost function Contents<T>(s: Slice<T>): (c: seq<T>)
    requires s.lo <= s.hi <= s.slab.Length
    reads s.slab
    ensures |c| == s.hi - s.lo
  {
    s.slab[s.lo..s.hi]
  }

  ghost function AllContents<T>(slices: seq<Slice<T>>): (b: seq<seq<T>>)
    requires forall s | s in slices :: s.lo <= s.hi <= s.slab.Length
    reads set s | s in slices :: s.slab
    ensures |b| == |slices| && forall i | 0 <= i < |b| :: b[i] == Contents(slices[i])
  {
    if slices == [] then [] else [Contents(slices[0])] + AllContents(slices[1..])
  }

  /** Half of an arena: AllocValues and AllocPairs are this, for values and for map entries. */
  class Slab<T(0)> {
    var slab: array<T>
    var off: nat
    /** What was handed out since the last reset. */
    ghost var handed: seq<Slice<T>>

    ghost function Repr(): set<object>
      reads this
    {
      {this, slab} + set s | s in handed :: s.slab
    }

    ghost predicate Valid()
      reads this
    {
      && off <= slab.Length
      && (forall s | s in handed :: s.lo <= s.hi <= s.slab.Length && (s.slab == slab ==> s.hi <= off))
      && (forall i, j | 0 <= i < j < |handed| :: Disjoint(handed[i], handed[j]))
    }

    /** The contents of everything handed out, slice by slice. */
    ghost function Buffers(): (b: seq<seq<T>>)
      requires Valid()
      reads this, set s | s in handed :: s.slab
      ensures |b| == |handed| && forall i | 0 <= i < |b| :: b[i] == Contents(handed[i])
    {
      AllContents(handed)
    }

    constructor (n: nat)
      ensures Valid() && handed == [] && off == 0 && fresh(slab) && slab.Length == n
    {
      slab := new T[n];
      off := 0;
      handed := [];
    }

    method Reset()
      requires Valid()
      modifies this
      ensures Valid() && handed == [] && off == 0 && slab == old(slab)
    {
      off := 0;
      handed := [];
    }

    /** A larger slab; what was handed out stays where it is. */
    method Grow(needed: nat)
      requires Valid() && needed >= off
      modifies this`slab
      ensures Valid() && fresh(slab) && slab.Length == needed && slab[..off] == old(slab[..off])
      ensures Buffers() == old(Buffers())
    {
      var grown := new T[needed];
      forall i | 0 <= i < off {
        grown[i] := slab[i];
      }
      slab := grown;
    }

    /** The next n slots of a slab that has them. */
    method Take(n: nat) returns (s: Slice<T>)
      requires Valid() && off + n <= slab.Length
      modifies this`off, this`handed
      ensures Valid() && handed == old(handed) + [s] && s == Slice(slab, old(off), old(off) + n)
      ensures Buffers() == old(Buffers()) + [Contents(s)]
    {
      s := Slice(slab, off, off + n);
      off := off + n;
      handed := handed + [s];
    }

    /**
     One more buffer of n slots, with whatever the slab holds there; the buffers handed out before keep
     their contents.
     */
    method Alloc(n: nat) returns (s: Slice<T>)
      requires Valid()
      modifies this
      ensures Valid() && handed == old(handed) + [s] && s.hi - s.lo == n
      ensures s.slab == old(slab) || fresh(s.slab)
      ensures forall x <- Repr() :: x in old(Repr()) || fresh(x)
      ensures s.slab == slab && Buffers() == old(Buffers()) + [Contents(s)]
    {
      if off + n > slab.Length {
        var needed := off + n;
        if needed < slab.Length * 2 {
          needed := slab.Length * 2;
        }
        Grow(needed);
      }
      s := Take(n);
    }

    /** Storing into one buffer is storing into that buffer and no other. */
    method Store(ghost k: nat, s: Slice<T>, i: nat, x: T)
      requires Valid() && k < |handed| && handed[k] == s && i < s.hi - s.lo
      modifies s.slab
      ensures Valid() && unchanged(this) && Buffers() == old(Buffers())[k := old(Buffers())[k][i := x]]
    {
      s.slab[s.lo + i] := x;
      forall j | 0 <= j < |handed|
        ensures Contents(handed[j]) == if j == k then old(Contents(handed[k]))[i := x] else old(Contents(handed[j]))
      {
        if j != k {
          assert Disjoint(handed[j], s) by {
            if j < k {
              assert Disjoint(handed[j], handed[k]);
            } else {
              assert Disjoint(handed[k], handed[j]);
            }
          }
        }
      }
    }
  }

  // ---------------------------------------------------------------- what the slabs hold

  /**
   A value whose definite containers live in an arena: an array is a slice of the values, a map the
   first n entries of a slice of the pairs. The number k of the allocation, counted since the last
   reset, names the slice in proofs.
   */
  datatype Cell =
    | Plain(v: Value)
    | Items(ghost k: nat, s: Slice<Cell>)
    | ItemList(items: seq<Cell>)
    | Entries(ghost k: nat, t: Slice<PairCell>, n: nat)
    | EntryList(entries: seq<PairCell>)
    | Tagged(id: U64, inner: Cell)

  datatype PairCell = PairCell(key: Cell, value: Cell)

  /** The buffers of an arena: the contents of the slices handed out, and the slices. */
  datatype Memory = Memory(values: seq<seq<Cell>>, pairs: seq<seq<PairCell>>,
                           valueSlices: seq<Slice<Cell>>, pairSlices: seq<Slice<PairCell>>)
  {
    predicate Valid() { |values| == |valueSlices| && |pairs| == |pairSlices| }

    function Room(mv: nat, mp: nat): nat
      requires mv <= |values| && mp <= |pairs|
    {
      |values| - mv + |pairs| - mp
    }
  }

  /** One more buffer of values, or of pairs. */
  ghost function WithValues(m: Memory, s: Slice<Cell>, contents: seq<Cell>): Memory {
    m.(values := m.values + [contents], valueSlices := m.valueSlices + [s])
  }

  ghost function WithPairs(m: Memory, s: Slice<PairCell>, contents: seq<PairCell>): Memory {
    m.(pairs := m.pairs + [contents], pairSlices := m.pairSlices + [s])
  }

  /** arr[i] = c in buffer k. */
  ghost function StoredValue(m: Memory, k: nat, i: nat, c: Cell): Memory
    requires k < |m.values| && i < |m.values[k]|
  {
    m.(values := m.values[k := m.values[k][i := c]])
  }

  ghost function StoredPair(m: Memory, k: nat, i: nat, e: PairCell): Memory
    requires k < |m.pairs| && i < |m.pairs[k]|
  {
    m.(pairs := m.pairs[k := m.pairs[k][i := e]])
  }

  /** Arena. */
  class Arena {
    const values: Slab<Cell>
    const pairs: Slab<PairCell>

    ghost function Repr(): set<object>
      reads values, pairs
    {
      {values, pairs} + values.Repr() + pairs.Repr()
    }

    ghost predicate Valid()
      reads values, pairs
    {
      values.Valid() && pairs.Valid()
    }

    /** The arena as a list of buffers. */
    ghost function Mem(): (m: Memory)
      requires Valid()
      reads values, pairs, Repr()
      ensures m.Valid()
    {
      Memory(values.Buffers(), pairs.Buffers(), values.handed, pairs.handed)
    }

    constructor (nValues: nat, nPairs: nat)
      ensures Valid() && fresh(Repr()) && Mem() == Memory([], [], [], [])
    {
      values := new Slab<Cell>(nValues);
      pairs := new Slab<PairCell>(nPairs);
    }

    /** What was decoded before is given up; the slabs stay as they are. */
    method Reset()
      requires Valid()
      modifies Repr()
      ensures Valid() && Repr() <= old(Repr()) && Mem() == Memory([], [], [], [])
      ensures values.slab == old(values.slab) && pairs.slab == old(pairs.slab)
      ensures values.slab[..] == old(values.slab[..]) && pairs.slab[..] == old(pairs.slab[..])
    {
      values.Reset();
      pairs.Reset();
    }

    method AllocValues(n: nat) returns (s: Slice<Cell>)
      requires Valid()
      modifies Repr()
      ensures Valid() && (forall x <- Repr() :: x in old(Repr()) || fresh(x)) && Spans(s, n)
      ensures Mem() == WithValues(old(Mem()), s, s.slab[s.lo..s.hi])
    {
      s := values.Alloc(n);
      assert pairs.Buffers() == old(pairs.Buffers()) && pairs.Repr() == old(pairs.Repr());
    }

    method AllocPairs(n: nat) returns (s: Slice<PairCell>)
      requires Valid()
      modifies Repr()
      ensures Valid() && (forall x <- Repr() :: x in old(Repr()) || fresh(x)) && Spans(s, n)
      ensures Mem() == WithPairs(old(Mem()), s, s.slab[s.lo..s.hi])
    {
      s := pairs.Alloc(n);
      assert values.Buffers() == old(values.Buffers()) && values.Repr() == old(values.Repr());
    }

    method StoreValue(ghost k: nat, s: Slice<Cell>, i: nat, c: Cell)
      requires Valid() && k < |Mem().values| && Mem().valueSlices[k] == s && i < |Mem().values[k]|
      modifies Repr()
      ensures Valid() && Repr() == old(Repr()) && Mem() == StoredValue(old(Mem()), k, i, c)
    {
      values.Store(k, s, i, c);
    }

    method StorePair(ghost k: nat, s: Slice<PairCell>, i: nat, e: PairCell)
      requires Valid() && k < |Mem().pairs| && Mem().pairSlices[k] == s && i < |Mem().pairs[k]|
      modifies Repr()
      ensures Valid() && Repr() == old(Repr()) && Mem() == StoredPair(old(Mem()), k, i, e)
    {
      pairs.Store(k, s, i, e);
    }

    /** s, and t[:n], read through slices that were handed out. */
    function LoadValues(ghost k: nat, s: Slice<Cell>): (items: seq<Cell>)
      requires Valid() && k < |Mem().values| && Mem().valueSlices[k] == s
      reads values, pairs, Repr()
      ensures items == Mem().values[k]
    {
      assert values.Buffers()[k] == Contents(s);
      s.slab[s.lo..s.hi]
    }

    function LoadPairs(ghost k: nat, t: Slice<PairCell>, n: nat): (front: seq<PairCell>)
      requires Valid() && k < |Mem().pairs| && Mem().pairSlices[k] == t && n <= |Mem().pairs[k]|
      reads values, pairs, Repr()
      ensures front == Mem().pairs[k][..n]
    {
      assert pairs.Buffers()[k] == Contents(t);
      t.slab[t.lo..t.lo + n]
    }
  }

  /** A slice of n slots. */
  ghost predicate Spans<T>(s: Slice<T>, n: nat) {
    s.lo + n == s.hi <= s.slab.Length
  }
}
