/**
 The cursor (rfc8949/cursor.go): skipping items by their heads, entering and leaving one
 container, and finding a map key, as functions over a source and a position.
 */
module Cursor {
  import opened Bytes
  import opened Wire
  import opened Decoding
  import opened WellFormed
  import opened Locality
  import opened Blocks
  import opened Values
  import Decoder

  /** The largest int. */
  const MAX_INT: nat := 0x7fff_ffff_ffff_ffff

  /** `TooShort` is ErrTruncated; `Oversized` stands for every conversion of an argument that does not fit an int. */
  datatype CursorError = TooShort | DecodeFailed(cause: DecodeError) | TypeMismatch | NotInContainer | KeyNotFound
    | Oversized

  /** Where the cursor is after a step, and the error that stopped it there. */
  datatype Step = At(pos: nat) | Stuck(pos: nat, error: CursorError)

  // ---------------------------------------------------------------- skipping

  function SkipItem(src: seq<Byte>, pos: nat): (r: Step)
    requires pos <= |src|
    ensures pos <= r.pos <= |src| && (r.At? ==> pos < r.pos)
    decreases |src| - pos, 0
  {
    if pos >= |src| then Stuck(pos, TooShort)
    else
      var h := ParseHead(src[pos..]);
      var next := pos + h.n;
      if h.n == 0 then Stuck(pos, TooShort)
      else if h.major == MAJOR_UINT || h.major == MAJOR_NEGINT || h.major == MAJOR_OTHER then At(next)
      else if h.major == MAJOR_BYTES || h.major == MAJOR_TEXT then
        if h.ai == AI_INDEFINITE then SkipString(src, next)
        else if next + h.arg > MAX_INT then Stuck(pos, Oversized)
        else if next + h.arg > |src| then Stuck(pos, TooShort)
        else At(next + h.arg)
      else if h.major == MAJOR_ARRAY then
        if h.ai == AI_INDEFINITE then SkipUntilBreak(src, next, false)
        else if h.arg > MAX_INT then Stuck(next, Oversized)
        else SkipItems(src, next, h.arg)
      else if h.major == MAJOR_MAP then
        if h.ai == AI_INDEFINITE then SkipUntilBreak(src, next, true)
        else if 2 * h.arg > MAX_INT then Stuck(next, Oversized)
        else SkipItems(src, next, 2 * h.arg)
      else SkipItem(src, next)
  }

  function SkipItems(src: seq<Byte>, pos: nat, count: nat): (r: Step)
    requires pos <= |src|
    ensures pos <= r.pos <= |src| && (r.At? && count > 0 ==> pos < r.pos)
    decreases |src| - pos, 1
  {
    if count == 0 then At(pos)
    else
      var r := SkipItem(src, pos);
      if r.Stuck? then r else SkipItems(src, r.pos, count - 1)
  }

  function SkipUntilBreak(src: seq<Byte>, pos: nat, isMap: bool): (r: Step)
    requires pos <= |src|
    ensures pos <= r.pos <= |src| && (r.At? ==> pos < r.pos)
    decreases |src| - pos, 2
  {
    if pos >= |src| then Stuck(pos, TooShort)
    else if src[pos] == BREAK_CODE then At(pos + 1)
    else
      var r := SkipItems(src, pos, if isMap then 2 else 1);
      if r.Stuck? then r else SkipUntilBreak(src, r.pos, isMap)
  }

  function SkipString(src: seq<Byte>, pos: nat): (r: Step)
    requires pos <= |src|
    ensures pos <= r.pos <= |src| && (r.At? ==> pos < r.pos)
    decreases |src| - pos
  {
    if pos >= |src| then Stuck(pos, TooShort)
    else if src[pos] == BREAK_CODE then At(pos + 1)
    else
      var h := ParseHead(src[pos..]);
      if h.n == 0 then Stuck(pos, TooShort)
      else if pos + h.n + h.arg > MAX_INT then Stuck(pos, Oversized)
      else if pos + h.n + h.arg > |src| then Stuck(pos, TooShort)
      else SkipString(src, pos + h.n + h.arg)
  }

  // ---------------------------------------------------------------- skipping follows well-formedness

  lemma {:induction false} StringExtentIsSkipped(src: seq<Byte>, pos: nat, major: Major, total: nat, g: Rules)
    requires pos <= |src| <= MAX_INT && ExtentChunks(src, pos, major, total, g).Some?
    ensures SkipString(src, pos) == At(ExtentChunks(src, pos, major, total, g).value)
    decreases |src| - pos
  {
    hide ParseHead;
    if src[pos] != BREAK_CODE {
      var h := ParseHead(src[pos..]);
      StringExtentIsSkipped(src, pos + h.n + h.arg, major, total + h.arg, g);
    }
  }

  lemma {:induction false} ExtentIsSkipped(src: seq<Byte>, pos: nat, depth: nat, g: Rules)
    requires pos <= |src| <= MAX_INT && Extent(src, pos, depth, g).Some?
    ensures SkipItem(src, pos) == At(Extent(src, pos, depth, g).value)
    decreases |src| - pos, 0
  {
    hide ParseHead;
    var h := ParseHead(src[pos..]);
    var next := pos + h.n;
    if h.major == MAJOR_BYTES || h.major == MAJOR_TEXT {
      if h.ai == AI_INDEFINITE {
        StringExtentIsSkipped(src, next, h.major, 0, g);
      }
    } else if h.major == MAJOR_ARRAY || h.major == MAJOR_MAP {
      var paired := h.major == MAJOR_MAP;
      if h.ai == AI_INDEFINITE {
        UntilBreakIsSkipped(src, next, 0, paired, depth + 1, g);
      } else {
        ItemsAreSkipped(src, next, if paired then 2 * h.arg else h.arg, depth + 1, g);
      }
    } else if h.major == MAJOR_TAG {
      ExtentIsSkipped(src, next, depth + 1, g);
    }
  }

  lemma {:induction false} ItemsAreSkipped(src: seq<Byte>, pos: nat, count: nat, depth: nat, g: Rules)
    requires pos <= |src| <= MAX_INT && ExtentItems(src, pos, count, depth, g).Some?
    ensures SkipItems(src, pos, count) == At(ExtentItems(src, pos, count, depth, g).value)
    ensures count <= |src| - pos
    decreases |src| - pos, 1
  {
    hide Extent, SkipItem;
    if count > 0 {
      ExtentIsSkipped(src, pos, depth, g);
      ItemsAreSkipped(src, Extent(src, pos, depth, g).value, count - 1, depth, g);
    }
  }

  lemma {:induction false} UntilBreakIsSkipped(src: seq<Byte>, pos: nat, n: nat, paired: bool, depth: nat, g: Rules)
    requires pos <= |src| <= MAX_INT && ExtentUntilBreak(src, pos, n, paired, depth, g).Some?
    ensures SkipUntilBreak(src, pos, paired) == At(ExtentUntilBreak(src, pos, n, paired, depth, g).value)
    decreases |src| - pos, 2
  {
    hide ExtentItems, SkipItems;
    if src[pos] != BREAK_CODE {
      var count := if paired then 2 else 1;
      ItemsAreSkipped(src, pos, count, depth, g);
      UntilBreakIsSkipped(src, ExtentItems(src, pos, count, depth, g).value, n + 1, paired, depth, g);
    }
  }

  /** Wherever an item decodes, at any place and under any options, skipping consumes the same bytes. */
  lemma SkipFollowsDecode(src: seq<Byte>, pos: nat, depth: nat, o: DecodeOpts, strip: bool)
    requires pos <= |src| <= MAX_INT && DecodeValue(src, pos, depth, o, strip).Ok?
    ensures SkipItem(src, pos) == At(DecodeValue(src, pos, depth, o, strip).next)
  {
    hide DecodeValue, Extent, SkipItem;
    AcceptedValue(src, pos, depth, o, strip, 0, LENIENT);
    ExtentIsSkipped(src, pos, 0, LENIENT);
  }

  /** The cursor decodes the rest of the source from its position; skipping goes equally far. */
  lemma SkipFollowsCursorDecode(src: seq<Byte>, pos: nat, o: DecodeOpts)
    requires pos <= |src| <= MAX_INT && Decode(src[pos..], o).Ok?
    ensures SkipItem(src, pos) == At(pos + Decode(src[pos..], o).next)
  {
    hide DecodeValue, SkipItem;
    var n := Decode(src[pos..], o).next;
    assert src[pos..][0..n] == src[pos..pos + n];
    LocalValue(src[pos..], 0, src, pos, 0, o, true);
    SkipFollowsDecode(src, pos, 0, o, true);
  }

  // ---------------------------------------------------------------- inside a container

  /** cursorFrame: items left, negative in an indefinite-length container. */
  datatype Frame = Frame(remaining: int, isMap: bool)

  predicate BreakAt(src: seq<Byte>, pos: nat) { pos < |src| && src[pos] == BREAK_CODE }

  /** consumeFromFrame. */
  function Consumed(f: Frame): Frame { if f.remaining > 0 then f.(remaining := f.remaining - 1) else f }

  function FrameOf(h: Head): Frame {
    var isMap := h.major == MAJOR_MAP;
    Frame(if h.ai == AI_INDEFINITE then -1 else if isMap then 2 * h.arg else h.arg, isMap)
  }

  function SkipRemaining(src: seq<Byte>, pos: nat, f: Frame): (r: Step)
    requires pos <= |src|
    ensures pos <= r.pos <= |src|
  {
    if f.remaining < 0 then SkipUntilBreak(src, pos, f.isMap) else SkipItems(src, pos, f.remaining)
  }

  /** From here the rest of the container can be skipped, and it ends at `end`. */
  predicate Within(src: seq<Byte>, pos: nat, f: Frame, end: nat) {
    pos <= |src| && SkipRemaining(src, pos, f) == At(end)
  }

  /** The container that starts at off has not been left before its end. */
  lemma EnterKeepsEnd(src: seq<Byte>, off: nat, end: nat)
    requires off < |src| && SkipItem(src, off) == At(end)
    requires var h := ParseHead(src[off..]); h.n > 0 && (h.major == MAJOR_ARRAY || h.major == MAJOR_MAP)
    ensures var h := ParseHead(src[off..]); Within(src, off + h.n, FrameOf(h), end)
  {
    hide ParseHead;
  }

  /** Entering a container that decodes, the rest of it ends where the decoder is afterwards. */
  lemma EnterKeepsDecodedEnd(src: seq<Byte>, off: nat, depth: nat, o: DecodeOpts, strip: bool)
    requires off <= |src| <= MAX_INT && DecodeValue(src, off, depth, o, strip).Ok?
    requires var h := ParseHead(src[off..]); h.major == MAJOR_ARRAY || h.major == MAJOR_MAP
    ensures var h := ParseHead(src[off..]);
            Within(src, off + h.n, FrameOf(h), DecodeValue(src, off, depth, o, strip).next)
  {
    SkipFollowsDecode(src, off, depth, o, strip);
    SkippedHead(src, off);
    hide DecodeValue, SkipItem, ParseHead, Within;
    EnterKeepsEnd(src, off, DecodeValue(src, off, depth, o, strip).next);
  }

  lemma SkippedHead(src: seq<Byte>, off: nat)
    requires off <= |src| && SkipItem(src, off).At?
    ensures off < |src| && ParseHead(src[off..]).n > 0
  {
  }

  /** More of the container is left: an item, or one that ends at no break. */
  predicate HasMore(src: seq<Byte>, pos: nat, f: Frame) {
    f.remaining > 0 || (f.remaining < 0 && !BreakAt(src, pos))
  }

  /** Consuming one item of an array, or of a map of known length, keeps the end of the container. */
  lemma ItemKeepsEnd(src: seq<Byte>, pos: nat, f: Frame, end: nat)
    requires Within(src, pos, f, end) && HasMore(src, pos, f) && (f.remaining > 0 || !f.isMap)
    ensures SkipItem(src, pos).At? && Within(src, SkipItem(src, pos).pos, Consumed(f), end)
  {
    hide SkipItem;
    if f.remaining < 0 {
      OneSkipped(src, pos);
    }
  }

  lemma OneSkipped(src: seq<Byte>, pos: nat)
    requires pos <= |src|
    ensures SkipItems(src, pos, 1) == SkipItem(src, pos)
  {
    hide SkipItem;
    var r := SkipItem(src, pos);
    if r.At? {
      assert SkipItems(src, r.pos, 0) == At(r.pos);
    }
  }

  lemma TwoSkipped(src: seq<Byte>, pos: nat)
    requires pos <= |src|
    ensures SkipItems(src, pos, 2) ==
            if SkipItem(src, pos).Stuck? then SkipItem(src, pos) else SkipItem(src, SkipItem(src, pos).pos)
  {
    hide SkipItem;
    if SkipItem(src, pos).At? {
      OneSkipped(src, SkipItem(src, pos).pos);
    }
  }

  /** What is left of a map after one pair. */
  function AfterPair(f: Frame): Frame { if f.remaining > 0 then f.(remaining := f.remaining - 2) else f }

  /** The cursor stands before a key. */
  predicate KeyBoundary(f: Frame) { f.isMap && (f.remaining >= 0 ==> f.remaining % 2 == 0) }

  /** Consuming a whole pair of a map keeps its end. */
  lemma PairKeepsEnd(src: seq<Byte>, pos: nat, f: Frame, end: nat)
    requires Within(src, pos, f, end) && HasMore(src, pos, f) && KeyBoundary(f)
    ensures SkipItems(src, pos, 2).At? && Within(src, SkipItems(src, pos, 2).pos, AfterPair(f), end)
            && KeyBoundary(AfterPair(f))
  {
    hide SkipItem;
    if f.remaining > 0 {
      TwoSkipped(src, pos);
      var r := SkipItem(src, pos);
      assert SkipItems(src, r.pos, f.remaining - 1).At?;
    }
  }

  // ---------------------------------------------------------------- finding a key

  /** A definite-length text string with exactly these bytes stands at pos. */
  predicate KeyMatches(src: seq<Byte>, pos: nat, key: seq<Byte>)
    requires pos <= |src|
  {
    var h := ParseHead(src[pos..]);
    && h.n > 0 && h.major == MAJOR_TEXT && h.ai != AI_INDEFINITE
    && Bytes.At(src, pos + h.n, key) && h.arg == |key|
  }

  datatype Search = Search(pos: nat, remaining: int, error: Option<CursorError>)

  function FindAt(src: seq<Byte>, pos: nat, f: Frame, key: seq<Byte>): (r: Search)
    requires pos <= |src|
    ensures pos <= r.pos <= |src|
    decreases |src| - pos
  {
    if !HasMore(src, pos, f) then Search(pos, f.remaining, Some(KeyNotFound))
    else if pos >= |src| then Search(pos, f.remaining, Some(TooShort))
    else
      var h := ParseHead(src[pos..]);
      if h.n == 0 then Search(pos, f.remaining, Some(TooShort))
      else if h.major == MAJOR_TEXT && h.ai != AI_INDEFINITE && pos + h.n + h.arg > MAX_INT
      then Search(pos, f.remaining, Some(Oversized))
      else if KeyMatches(src, pos, key) then Search(pos + h.n + |key|, Consumed(f).remaining, None)
      else
        var r := SkipItems(src, pos, 2);
        if r.Stuck? then Search(r.pos, f.remaining, Some(r.error)) else FindAt(src, r.pos, AfterPair(f), key)
  }

  /** Where the remaining keys of the map start. */
  function KeyStarts(src: seq<Byte>, pos: nat, f: Frame): (starts: seq<nat>)
    requires pos <= |src|
    ensures forall k | 0 <= k < |starts| :: pos <= starts[k] < |src|
    decreases |src| - pos
  {
    if !HasMore(src, pos, f) || pos >= |src| then []
    else
      var r := SkipItems(src, pos, 2);
      [pos] + if r.Stuck? then [] else KeyStarts(src, r.pos, AfterPair(f))
  }

  /** The first of these keys that matches. */
  function FirstMatch(src: seq<Byte>, starts: seq<nat>, key: seq<Byte>): (r: Option<nat>)
    requires forall k | 0 <= k < |starts| :: starts[k] <= |src|
    ensures r.Some? ==> r.value < |starts| && KeyMatches(src, starts[r.value], key)
    ensures forall k | 0 <= k < (if r.Some? then r.value else |starts|) :: !KeyMatches(src, starts[k], key)
  {
    if starts == [] then None
    else if KeyMatches(src, starts[0], key) then Some(0)
    else
      match FirstMatch(src, starts[1..], key)
      case None => None
      case Some(k) => Some(k + 1)
  }

  lemma KeyMatchSkips(src: seq<Byte>, pos: nat, key: seq<Byte>)
    requires pos < |src| && KeyMatches(src, pos, key) && SkipItem(src, pos).At?
    ensures SkipItem(src, pos).pos == pos + ParseHead(src[pos..]).n + |key|
  {
    hide ParseHead;
  }

  lemma TextSkips(src: seq<Byte>, pos: nat)
    requires pos < |src| && SkipItem(src, pos).At?
    ensures var h := ParseHead(src[pos..]);
            h.n > 0 && (h.major == MAJOR_TEXT && h.ai != AI_INDEFINITE ==> pos + h.n + h.arg <= MAX_INT)
  {
    hide ParseHead;
  }

  /**
   In a map that can be skipped, from a key boundary: the search stops after the first
   remaining definite text key equal to the target, at its value, and once that is consumed the
   cursor is at a key boundary of the same map; if there is no such key it reports so at the end.
   */
  lemma {:induction false} FindsFirstKey(src: seq<Byte>, pos: nat, f: Frame, end: nat, key: seq<Byte>)
    requires pos <= |src| && Within(src, pos, f, end) && KeyBoundary(f)
    ensures var starts := KeyStarts(src, pos, f);
            var r := FindAt(src, pos, f, key);
            match FirstMatch(src, starts, key)
            case Some(k) =>
              && r.error == None && SkipItem(src, starts[k]) == Step.At(r.pos)
              && r.remaining == (if f.remaining > 0 then f.remaining - 2 * k - 1 else f.remaining)
              && AfterValue(src, r, end) && (f.remaining > 0 ==> Within(src, r.pos, Frame(r.remaining, true), end))
            case None =>
              r.error == Some(KeyNotFound) && Within(src, r.pos, Frame(r.remaining, true), end)
              && !HasMore(src, r.pos, Frame(r.remaining, true))
    decreases |src| - pos
  {
    hide ParseHead, SkipItem, SkipItems, SkipUntilBreak, KeyMatches, Within, HasMore, FindAt, KeyStarts;
    var starts := KeyStarts(src, pos, f);
    if HasMore(src, pos, f) {
      MoreIsInside(src, pos, f, end);
      PairKeepsEnd(src, pos, f, end);
      FirstOfPair(src, pos);
      TextSkips(src, pos);
      SearchStep(src, pos, f, key);
      if KeyMatches(src, pos, key) {
        KeyMatchSkips(src, pos, key);
        FoundHere(src, pos, f, end);
      } else {
        var next := SkipItems(src, pos, 2).pos;
        FindsFirstKey(src, next, AfterPair(f), end, key);
        NoMoreKeys(src, next, AfterPair(f));
        assert starts[1..] == KeyStarts(src, next, AfterPair(f));
      }
    } else {
      SearchEnds(src, pos, f, key);
    }
  }

  /** Behind the value of the key that was found, the rest of the map still ends at `end`. */
  predicate AfterValue(src: seq<Byte>, r: Search, end: nat) {
    && r.pos <= |src| && SkipItem(src, r.pos).At?
    && Within(src, SkipItem(src, r.pos).pos, Consumed(Frame(r.remaining, true)), end)
    && KeyBoundary(Consumed(Frame(r.remaining, true)))
  }

  lemma FoundHere(src: seq<Byte>, pos: nat, f: Frame, end: nat)
    requires Within(src, pos, f, end) && HasMore(src, pos, f) && KeyBoundary(f)
    ensures SkipItem(src, pos).At?
    ensures AfterValue(src, Search(SkipItem(src, pos).pos, Consumed(f).remaining, None), end)
    ensures f.remaining > 0 ==> Within(src, SkipItem(src, pos).pos, Frame(Consumed(f).remaining, true), end)
  {
    hide SkipItem, SkipItems, SkipUntilBreak, Within;
    PairKeepsEnd(src, pos, f, end);
    TwoSkipped(src, pos);
    if f.remaining > 0 {
      ItemKeepsEnd(src, pos, f, end);
    }
    assert Consumed(Frame(Consumed(f).remaining, true)) == AfterPair(f);
  }

  lemma SearchStep(src: seq<Byte>, pos: nat, f: Frame, key: seq<Byte>)
    requires pos < |src| && HasMore(src, pos, f) && SkipItems(src, pos, 2).At? && SkipItems(src, pos, 2).pos > pos
    requires var h := ParseHead(src[pos..]);
             h.n > 0 && (h.major == MAJOR_TEXT && h.ai != AI_INDEFINITE ==> pos + h.n + h.arg <= MAX_INT)
    ensures FindAt(src, pos, f, key) ==
            if KeyMatches(src, pos, key) then Search(pos + ParseHead(src[pos..]).n + |key|, Consumed(f).remaining, None)
            else FindAt(src, SkipItems(src, pos, 2).pos, AfterPair(f), key)
    ensures KeyStarts(src, pos, f) == [pos] + KeyStarts(src, SkipItems(src, pos, 2).pos, AfterPair(f))
  {
    hide ParseHead, SkipItems, HasMore;
  }

  lemma SearchEnds(src: seq<Byte>, pos: nat, f: Frame, key: seq<Byte>)
    requires pos <= |src| && !HasMore(src, pos, f)
    ensures FindAt(src, pos, f, key) == Search(pos, f.remaining, Some(KeyNotFound)) && KeyStarts(src, pos, f) == []
  {
  }

  lemma MoreIsInside(src: seq<Byte>, pos: nat, f: Frame, end: nat)
    requires Within(src, pos, f, end) && HasMore(src, pos, f)
    ensures pos < |src|
  {
  }

  lemma FirstOfPair(src: seq<Byte>, pos: nat)
    requires pos <= |src| && SkipItems(src, pos, 2).At?
    ensures SkipItem(src, pos).At? && SkipItems(src, pos, 2).pos > pos
  {
    hide SkipItem;
  }

  lemma NoMoreKeys(src: seq<Byte>, pos: nat, f: Frame)
    requires pos <= |src|
    ensures f.remaining == 0 ==> KeyStarts(src, pos, f) == []
  {
  }

  // ---------------------------------------------------------------- leaving at a value

  lemma FindUnfold(src: seq<Byte>, pos: nat, f: Frame, key: seq<Byte>)
    requires pos <= |src|
    ensures FindAt(src, pos, f, key) ==
            if !HasMore(src, pos, f) then Search(pos, f.remaining, Some(KeyNotFound))
            else if pos >= |src| then Search(pos, f.remaining, Some(TooShort))
            else
              var h := ParseHead(src[pos..]);
              if h.n == 0 then Search(pos, f.remaining, Some(TooShort))
              else if h.major == MAJOR_TEXT && h.ai != AI_INDEFINITE && pos + h.n + h.arg > MAX_INT
              then Search(pos, f.remaining, Some(Oversized))
              else if KeyMatches(src, pos, key) then Search(pos + h.n + |key|, Consumed(f).remaining, None)
              else
                var r := SkipItems(src, pos, 2);
                if r.Stuck? then Search(r.pos, f.remaining, Some(r.error)) else FindAt(src, r.pos, AfterPair(f), key)
  {
    hide ParseHead, SkipItems, KeyMatches, HasMore;
  }

  /** From the value of a pair of an open-ended map, skipping pairs takes the break for a value. */
  lemma {:induction false} BreakTakenForValue(src: seq<Byte>, pos: nat, n: nat, depth: nat, g: Rules)
    requires pos < |src| <= MAX_INT && src[pos] != BREAK_CODE
    requires ExtentUntilBreak(src, pos, n, true, depth, g).Some?
    ensures Extent(src, pos, depth, g).Some?
    ensures var r := SkipUntilBreak(src, Extent(src, pos, depth, g).value, true);
            r.At? ==> r.pos > ExtentUntilBreak(src, pos, n, true, depth, g).value
    decreases |src| - pos
  {
    hide Extent, SkipItem, SkipItems;
    TwoItems(src, pos, depth, g);
    var value := Extent(src, pos, depth, g).value;
    var next := Extent(src, value, depth, g).value;
    ItemStarts(src, value, depth, g);
    ExtentIsSkipped(src, value, depth, g);
    TwoSkipped(src, value);
    if src[next] == BREAK_CODE {
      BreakSkipped(src, next);
    } else {
      ExtentIsSkipped(src, next, depth, g) by {
        TwoItems(src, next, depth, g);
      }
      BreakTakenForValue(src, next, n + 1, depth, g);
    }
  }

  lemma ItemStarts(src: seq<Byte>, pos: nat, depth: nat, g: Rules)
    requires pos <= |src| && Extent(src, pos, depth, g).Some?
    ensures pos < |src| && src[pos] != BREAK_CODE
  {
  }

  lemma BreakSkipped(src: seq<Byte>, pos: nat)
    requires BreakAt(src, pos)
    ensures SkipItem(src, pos) == At(pos + 1)
  {
  }

  lemma {:induction false} FindThenExit(src: seq<Byte>, pos: nat, n: nat, depth: nat, g: Rules, key: seq<Byte>)
    requires pos <= |src| <= MAX_INT && ExtentUntilBreak(src, pos, n, true, depth, g).Some?
    ensures var r := FindAt(src, pos, Frame(-1, true), key);
            r.error == None ==>
              r.remaining == -1
              && SkipUntilBreak(src, r.pos, true) != Step.At(ExtentUntilBreak(src, pos, n, true, depth, g).value)
    decreases |src| - pos
  {
    hide Extent, SkipItem, SkipItems, ParseHead, FindAt, KeyMatches;
    FindUnfold(src, pos, Frame(-1, true), key);
    if src[pos] != BREAK_CODE {
      TwoItems(src, pos, depth, g);
      ItemsAreSkipped(src, pos, 2, depth, g);
      if KeyMatches(src, pos, key) {
        ExtentIsSkipped(src, pos, depth, g);
        KeyMatchSkips(src, pos, key);
        BreakTakenForValue(src, pos, n, depth, g);
      } else {
        FindThenExit(src, ExtentItems(src, pos, 2, depth, g).value, n + 1, depth, g, key);
      }
    }
  }

  /**
   Leaving a well-formed map at a found value, without consuming the value, gets to the end of the map
   if and only if the map has a length: in an open-ended one the frame does not know that a key is gone.
   */
  lemma ExitAfterFind(src: seq<Byte>, off: nat, depth: nat, g: Rules, key: seq<Byte>)
    requires off <= |src| <= MAX_INT && Extent(src, off, depth, g).Some? && ParseHead(src[off..]).major == MAJOR_MAP
    ensures var h := ParseHead(src[off..]);
            var r := FindAt(src, off + h.n, FrameOf(h), key);
            r.error == None ==>
              (SkipRemaining(src, r.pos, Frame(r.remaining, true)) == Step.At(Extent(src, off, depth, g).value) <==>
               h.ai != AI_INDEFINITE)
  {
    hide ParseHead, ExtentUntilBreak, ExtentItems, SkipItem, SkipItems, SkipUntilBreak, FindAt, KeyStarts, FirstMatch;
    var h := ParseHead(src[off..]);
    var r := FindAt(src, off + h.n, FrameOf(h), key);
    var end := Extent(src, off, depth, g).value;
    if h.ai == AI_INDEFINITE {
      FindThenExit(src, off + h.n, 0, depth + 1, g, key);
    } else {
      ExtentIsSkipped(src, off, depth, g);
      EnterKeepsEnd(src, off, end);
      FindsFirstKey(src, off + h.n, FrameOf(h), end, key);
      if h.arg == 0 {
        SearchEnds(src, off + h.n, FrameOf(h), key);
      }
    }
  }

  // ---------------------------------------------------------------- the cursor itself

  /** A step that ended at pos with this error, if any. */
  predicate Ends(r: Step, pos: nat, err: Option<CursorError>) {
    match r
    case At(p) => pos == p && err == None
    case Stuck(p, e) => pos == p && err == Some(e)
  }

  function ConsumeTop(stack: seq<Frame>): seq<Frame> {
    if stack == [] then [] else stack[|stack| - 1 := Consumed(stack[|stack| - 1])]
  }

  class Cursor {
    const src: seq<Byte>
    const o: DecodeOpts
    var pos: nat
    var stack: seq<Frame>

    ghost predicate Valid()
      reads this
    {
      pos <= |src|
    }

    constructor (src: seq<Byte>, o: DecodeOpts)
      ensures Valid() && this.src == src && this.o == o && pos == 0 && stack == []
    {
      this.src, this.o, pos, stack := src, o, 0, [];
    }

    /** skipItem. */
    method Advance() returns (err: Option<CursorError>)
      requires Valid()
      modifies this`pos
      ensures Valid() && Ends(SkipItem(src, old(pos)), pos, err)
      decreases |src| - pos, 0
    {
      hide ParseHead, SkipItems, SkipUntilBreak, SkipString;
      if pos >= |src| {
        return Some(TooShort);
      }
      var h := ParseHead(src[pos..]);
      if h.n == 0 {
        return Some(TooShort);
      }
      match h.major
      case 0 => pos := pos + h.n; return None;
      case 1 => pos := pos + h.n; return None;
      case 7 => pos := pos + h.n; return None;
      case 4 =>
        pos := pos + h.n;
        if h.ai == AI_INDEFINITE {
          err := AdvanceUntilBreak(false);
        } else if h.arg > MAX_INT {
          err := Some(Oversized);
        } else {
          err := AdvanceItems(h.arg);
        }
      case 5 =>
        pos := pos + h.n;
        if h.ai == AI_INDEFINITE {
          err := AdvanceUntilBreak(true);
        } else if 2 * h.arg > MAX_INT {
          err := Some(Oversized);
        } else {
          err := AdvanceItems(2 * h.arg);
        }
      case 6 =>
        pos := pos + h.n;
        err := Advance();
      case _ =>
        if h.ai == AI_INDEFINITE {
          pos := pos + h.n;
          err := AdvanceString();
        } else {
          var end := pos + h.n + h.arg;
          if end > MAX_INT {
            return Some(Oversized);
          }
          if end > |src| {
            return Some(TooShort);
          }
          pos := end;
          return None;
        }
    }

    method AdvanceItems(count: nat) returns (err: Option<CursorError>)
      requires Valid()
      modifies this`pos
      ensures Valid() && Ends(SkipItems(src, old(pos), count), pos, err)
      decreases |src| - pos, 1
    {
      hide SkipItem;
      var i := 0;
      while i < count
        invariant i <= count && Valid() && pos >= old(pos)
        invariant SkipItems(src, old(pos), count) == SkipItems(src, pos, count - i)
      {
        err := Advance();
        if err.Some? {
          return;
        }
        i := i + 1;
      }
      return None;
    }

    /** skipIndefiniteItems. */
    method AdvanceUntilBreak(isMap: bool) returns (err: Option<CursorError>)
      requires Valid()
      modifies this`pos
      ensures Valid() && Ends(SkipUntilBreak(src, old(pos), isMap), pos, err)
      decreases |src| - pos, 2
    {
      hide SkipItem, SkipItems;
      while true
        invariant Valid() && pos >= old(pos)
        invariant SkipUntilBreak(src, old(pos), isMap) == SkipUntilBreak(src, pos, isMap)
        decreases |src| - pos
      {
        if pos >= |src| {
          return Some(TooShort);
        }
        if src[pos] == BREAK_CODE {
          pos := pos + 1;
          return None;
        }
        TwoSkipped(src, pos);
        OneSkipped(src, pos);
        err := Advance();
        if err.Some? {
          return;
        }
        if isMap {
          err := Advance();
          if err.Some? {
            return;
          }
        }
      }
    }

    /** skipIndefiniteString. */
    method AdvanceString() returns (err: Option<CursorError>)
      requires Valid()
      modifies this`pos
      ensures Valid() && Ends(SkipString(src, old(pos)), pos, err)
    {
      hide ParseHead;
      while true
        invariant Valid() && pos >= old(pos) && SkipString(src, old(pos)) == SkipString(src, pos)
        decreases |src| - pos
      {
        if pos >= |src| {
          return Some(TooShort);
        }
        if src[pos] == BREAK_CODE {
          pos := pos + 1;
          return None;
        }
        var h := ParseHead(src[pos..]);
        if h.n == 0 {
          return Some(TooShort);
        }
        var end := pos + h.n + h.arg;
        if end > MAX_INT {
          return Some(Oversized);
        }
        if end > |src| {
          return Some(TooShort);
        }
        pos := end;
      }
    }

    method ConsumeFromFrame()
      modifies this`stack
      ensures stack == ConsumeTop(old(stack))
    {
      if |stack| == 0 {
        return;
      }
      var top := stack[|stack| - 1];
      if top.remaining > 0 {
        stack := stack[|stack| - 1 := top.(remaining := top.remaining - 1)];
      }
    }

    method Skip() returns (r: Result<nat, CursorError>)
      requires Valid()
      modifies this
      ensures Valid()
      ensures match SkipItem(src, old(pos))
              case At(p) => r == Success(p - old(pos)) && pos == p && stack == ConsumeTop(old(stack))
              case Stuck(p, e) => r == Failure(e) && pos == p && stack == old(stack)
    {
      hide SkipItem;
      var start := pos;
      var err := Advance();
      if err.Some? {
        return Failure(err.value);
      }
      ConsumeFromFrame();
      return Success(pos - start);
    }

    method RawBytes() returns (r: Result<seq<Byte>, CursorError>)
      requires Valid()
      modifies this
      ensures Valid()
      ensures match SkipItem(src, old(pos))
              case At(p) => r == Success(src[old(pos)..p]) && pos == p && stack == ConsumeTop(old(stack))
              case Stuck(p, e) => r == Failure(e) && pos == p && stack == old(stack)
    {
      hide SkipItem;
      var start := pos;
      var err := Advance();
      if err.Some? {
        return Failure(err.value);
      }
      ConsumeFromFrame();
      return Success(src[start..pos]);
    }

    method DecodeItem() returns (r: Result<Value, CursorError>)
      requires Valid()
      modifies this
      ensures Valid()
      ensures match Decode(src[old(pos)..], o)
              case Ok(v, n) => r == Success(v) && pos == old(pos) + n && stack == ConsumeTop(old(stack))
              case Err(e, _) => r == Failure(DecodeFailed(e)) && pos == old(pos) && stack == old(stack)
    {
      hide DecodeValue;
      var d := Decoder.Decode(src[pos..], o);
      if d.Err? {
        return Failure(DecodeFailed(d.error));
      }
      pos := pos + d.next;
      ConsumeFromFrame();
      return Success(d.value);
    }

    /** EnterArray, or EnterMap if `isMap`: the number of items or pairs, -1 if it is open-ended. */
    method Enter(isMap: bool) returns (r: Result<int, CursorError>)
      requires Valid()
      modifies this
      ensures Valid()
      ensures var h := ParseHead(src[old(pos)..]);
              if h.n == 0 then r == Failure(TooShort) && pos == old(pos) && stack == old(stack)
              else if h.major != (if isMap then MAJOR_MAP else MAJOR_ARRAY)
              then r == Failure(TypeMismatch) && pos == old(pos) && stack == old(stack)
              else if FrameOf(h).remaining > MAX_INT
                then r == Failure(Oversized) && pos == old(pos) && stack == old(stack)
              else r == Success(if h.ai == AI_INDEFINITE then -1 else h.arg)
                   && pos == old(pos) + h.n && stack == old(stack) + [FrameOf(h)]
    {
      if pos >= |src| {
        return Failure(TooShort);
      }
      hide ParseHead;
      var h := ParseHead(src[pos..]);
      if h.n == 0 {
        return Failure(TooShort);
      }
      if h.major != (if isMap then MAJOR_MAP else MAJOR_ARRAY) {
        return Failure(TypeMismatch);
      }
      var count: int := -1;
      if h.ai != AI_INDEFINITE {
        count := if isMap then 2 * h.arg else h.arg;
        if count > MAX_INT {
          return Failure(Oversized);
        }
      }
      pos := pos + h.n;
      stack := stack + [Frame(count, isMap)];
      return Success(if h.ai == AI_INDEFINITE then -1 else h.arg);
    }

    /** skipRemaining. */
    method AdvanceRemaining(f: Frame) returns (err: Option<CursorError>)
      requires Valid()
      modifies this`pos
      ensures Valid() && Ends(SkipRemaining(src, old(pos), f), pos, err)
    {
      hide SkipItem, SkipItems, SkipUntilBreak;
      if f.remaining < 0 {
        err := AdvanceUntilBreak(f.isMap);
      } else {
        err := AdvanceItems(f.remaining);
      }
    }

    /** ExitArray, or ExitMap if `isMap`. */
    method Exit(isMap: bool) returns (err: Option<CursorError>)
      requires Valid()
      modifies this
      ensures Valid()
      ensures if |old(stack)| == 0 || old(stack[|stack| - 1]).isMap != isMap
              then err == Some(NotInContainer) && pos == old(pos) && stack == old(stack)
              else Ends(SkipRemaining(src, old(pos), old(stack[|stack| - 1])), pos, err)
                   && stack == if err.None? then old(stack)[..|old(stack)| - 1] else old(stack)
    {
      hide SkipRemaining;
      if |stack| == 0 {
        return Some(NotInContainer);
      }
      var top := stack[|stack| - 1];
      if top.isMap != isMap {
        return Some(NotInContainer);
      }
      err := AdvanceRemaining(top);
      if err.Some? {
        return;
      }
      stack := stack[..|stack| - 1];
    }

    method FindMapKey(key: seq<Byte>) returns (err: Option<CursorError>)
      requires Valid()
      modifies this
      ensures Valid()
      ensures if |old(stack)| == 0 || !old(stack[|stack| - 1]).isMap
              then err == Some(NotInContainer) && pos == old(pos) && stack == old(stack)
              else
                var r := FindAt(src, old(pos), old(stack[|stack| - 1]), key);
                err == r.error && pos == r.pos && stack == old(stack)[|old(stack)| - 1 := Frame(r.remaining, true)]
    {
      hide ParseHead, SkipItem, SkipItems, FindAt, KeyMatches, HasMore;
      if |stack| == 0 {
        return Some(NotInContainer);
      }
      var n := |stack| - 1;
      if !stack[n].isMap {
        return Some(NotInContainer);
      }
      while true
        invariant Valid() && |stack| == |old(stack)| && stack[..n] == old(stack)[..n] && stack[n].isMap
        invariant FindAt(src, old(pos), old(stack[|stack| - 1]), key) == FindAt(src, pos, stack[n], key)
        decreases |src| - pos
      {
        var top := stack[n];
        FindUnfold(src, pos, top, key);
        assert stack == old(stack)[n := top];
        if !HasMore(src, pos, top) {
          return Some(KeyNotFound);
        }
        if pos >= |src| {
          return Some(TooShort);
        }
        var h := ParseHead(src[pos..]);
        if h.n == 0 {
          return Some(TooShort);
        }
        if h.major == MAJOR_TEXT && h.ai != AI_INDEFINITE {
          if pos + h.n + h.arg > MAX_INT {
            return Some(Oversized);
          }
        }
        if KeyMatches(src, pos, key) {
          pos := pos + h.n + |key|;
          stack := stack[n := Consumed(top)];
          return None;
        }
        TwoSkipped(src, pos);
        err := Advance();
        if err.Some? {
          return;
        }
        err := Advance();
        if err.Some? {
          return;
        }
        stack := stack[n := AfterPair(top)];
      }
    }
  }
}
