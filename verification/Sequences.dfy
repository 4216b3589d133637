/**
 CBOR sequences (sequence.go, RFC 8742) and reading them item by item from a reader
 (rfc8949/stream_decode.go): the way the bytes arrive makes no difference.
 */
module Sequences {
  import opened Bytes
  import opened Blocks
  import opened Values
  import opened Encoding
  import D = Decoding
  import opened Decoding
  import opened RoundTrip
  import opened Canonical
  import opened Locality
  import opened Encoder
  import Decoder

  // ---------------------------------------------------------------- sequences

  /** The items appended one after the other, up to the first error. */
  function EncSequence(items: seq<Value>, o: EncodeOpts): Encoded {
    if items == [] then Done([]) else Then(Enc(items[0], o), EncSequence(items[1..], o))
  }

  function DecodedSequence(src: seq<Byte>, o: DecodeOpts): Result<seq<Value>, DecodeError>
    decreases |src|
  {
    if src == [] then Success([])
    else
      match D.Decode(src, o)
      case Err(e, _) => Failure(e)
      case Ok(v, n) =>
        match DecodedSequence(src[n..], o)
        case Failure(e) => Failure(e)
        case Success(rest) => Success([v] + rest)
  }

  method EncodeSequence(dst: seq<Byte>, items: seq<Value>, o: EncodeOpts, cache: SortStateCache?)
    returns (out: seq<Byte>, err: Option<EncodeError>)
    modifies Frame(cache)
    ensures out == dst + EncSequence(items, o).out && err == EncSequence(items, o).err
    ensures cache != null ==> cache.used == old(cache.used)
  {
    hide Enc, EncSequence, Continues;
    ghost var whole := EncSequence(items, o);
    ghost var acc: seq<Byte> := [];
    out := dst;
    var i := 0;
    ContinuesStart(whole);
    assert items[0..] == items;
    while i < |items|
      invariant i <= |items| && out == dst + acc
      invariant Continues(whole, acc, EncSequence(items[i..], o))
      invariant cache != null ==> cache.used == old(cache.used) && fresh(cache.Repr() - old(cache.Repr()))
    {
      SequenceFrom(items, i, o);
      ContinuesStep(whole, acc, Enc(items[i], o), EncSequence(items[i + 1..], o));
      out, err := Encode(out, items[i], o, cache);
      acc := acc + Enc(items[i], o).out;
      assert out == dst + acc;
      if err.Some? {
        return;
      }
      i := i + 1;
    }
    assert items[i..] == [];
    SequenceEnd(o);
    ContinuesEnd(whole, acc);
    return out, None;
  }

  lemma SequenceFrom(items: seq<Value>, i: nat, o: EncodeOpts)
    requires i < |items|
    ensures EncSequence(items[i..], o) == Then(Enc(items[i], o), EncSequence(items[i + 1..], o))
  {
    assert items[i..][1..] == items[i + 1..];
  }

  lemma SequenceEnd(o: EncodeOpts)
    ensures EncSequence([], o) == Done([])
  {
  }

  method DecodeSequence(src: seq<Byte>, o: DecodeOpts) returns (r: Result<seq<Value>, DecodeError>)
    ensures r == DecodedSequence(src, o)
  {
    hide D.DecodeValue;
    var items: seq<Value> := [];
    var remaining := src;
    JoinedEnds([], DecodedSequence(src, o));
    while |remaining| > 0
      invariant DecodedSequence(src, o) == Joined(items, DecodedSequence(remaining, o))
      decreases |remaining|
    {
      var d := Decoder.Decode(remaining, o);
      if d.Err? {
        return Failure(d.error);
      }
      JoinedStep(items, d.value, DecodedSequence(remaining[d.next..], o));
      items := items + [d.value];
      remaining := remaining[d.next..];
    }
    JoinedEnds(items, Success([]));
    return Success(items);
  }

  /** The items decoded so far, with what the rest decodes to. */
  function Joined(items: seq<Value>, rest: Result<seq<Value>, DecodeError>): Result<seq<Value>, DecodeError> {
    match rest
    case Failure(e) => Failure(e)
    case Success(more) => Success(items + more)
  }

  lemma JoinedEnds(items: seq<Value>, rest: Result<seq<Value>, DecodeError>)
    ensures Joined([], rest) == rest && Joined(items, Success([])) == Success(items)
  {
    if rest.Success? {
      assert [] + rest.value == rest.value;
    }
    assert items + [] == items;
  }

  lemma JoinedStep(items: seq<Value>, v: Value, rest: Result<seq<Value>, DecodeError>)
    ensures Joined(items, Joined([v], rest)) == Joined(items + [v], rest)
  {
    if rest.Success? {
      assert items + ([v] + rest.value) == (items + [v]) + rest.value;
    }
  }

  function NormSequence(items: seq<Value>, e: EncodeOpts): (r: seq<Value>)
    ensures |r| == |items|
    ensures forall i | 0 <= i < |r| :: r[i] == Norm(items[i], e)
  {
    if items == [] then [] else [Norm(items[0], e)] + NormSequence(items[1..], e)
  }

  /** An encoded sequence decodes to the normal forms of its items exactly if every item fits. */
  lemma {:induction false} SequenceRoundTrip(items: seq<Value>, e: EncodeOpts, d: DecodeOpts)
    requires forall i | 0 <= i < |items| :: Enc(items[i], e).Ok() && Sized(items[i])
    ensures EncSequence(items, e).Ok()
    ensures DecodedSequence(EncSequence(items, e).out, d) == Success(NormSequence(items, e)) <==>
            forall i | 0 <= i < |items| :: Fits(items[i], e, d, 0, Root)
  {
    hide Enc, Norm, Fits, D.Decode, Sized;
    if items != [] {
      var rest := items[1..];
      SequenceRoundTrip(rest, e, d);
      var b, tail := Enc(items[0], e).out, EncSequence(rest, e).out;
      DecodeOfEncode(items[0], e, d, tail);
      EncodedIsNotEmpty(items[0], e);
      assert (b + tail)[|b|..] == tail;
      FitsSplit(items, e, d);
      var r := D.Decode(b + tail, d);
      if r.Ok? {
        assert r.next == |b|;
        CancelHead(Norm(items[0], e), r.value, NormSequence(rest, e), DecodedSequence(tail, d));
      }
    }
  }

  lemma CancelHead(v: Value, w: Value, vs: seq<Value>, ws: Result<seq<Value>, DecodeError>)
    ensures Joined([w], ws) == Success([v] + vs) <==> v == w && ws == Success(vs)
  {
    if ws.Success? {
      assert ([w] + ws.value)[0] == w && ([w] + ws.value)[1..] == ws.value;
      assert ([v] + vs)[0] == v && ([v] + vs)[1..] == vs;
    }
  }

  lemma FitsSplit(items: seq<Value>, e: EncodeOpts, d: DecodeOpts)
    requires items != []
    ensures (forall i | 0 <= i < |items| :: Fits(items[i], e, d, 0, Root)) <==>
            Fits(items[0], e, d, 0, Root) && forall i | 0 <= i < |items[1..]| :: Fits(items[1..][i], e, d, 0, Root)
  {
    hide Fits;
    if Fits(items[0], e, d, 0, Root) && forall i | 0 <= i < |items[1..]| :: Fits(items[1..][i], e, d, 0, Root) {
      forall i | 0 <= i < |items|
        ensures Fits(items[i], e, d, 0, Root)
      {
        if i > 0 {
          assert items[i] == items[1..][i - 1];
        }
      }
    }
  }

  lemma EncodedIsNotEmpty(v: Value, e: EncodeOpts)
    requires Enc(v, e).Ok()
    ensures Enc(v, e).out != []
  {
  }

  // ---------------------------------------------------------------- streams

  /** The errors of a reader: io.EOF, and any other. */
  datatype IoError = EndOfFile | ReadFailed

  /** What one Read returns: up to 256 bytes, possibly none, and possibly an error, also together with bytes. */
  datatype Delivery = Delivery(data: seq<Byte>, err: Option<IoError>)

  /** The deliveries that are noticed as an error; one that comes together with bytes is not. */
  predicate Stops(d: Delivery) { d.data == [] && d.err.Some? }

  /** The bytes delivered up to the first error that is noticed; after the last delivery comes end of file. */
  function Delivered(ds: seq<Delivery>): seq<Byte> {
    if ds == [] || Stops(ds[0]) then [] else ds[0].data + Delivered(ds[1..])
  }

  function StopError(ds: seq<Delivery>): IoError {
    if ds == [] then EndOfFile else if Stops(ds[0]) then ds[0].err.value else StopError(ds[1..])
  }

  /** What the reader still delivers after that error. */
  function AfterStop(ds: seq<Delivery>): (rest: seq<Delivery>)
    ensures |rest| <= |ds|
  {
    if ds == [] then [] else if Stops(ds[0]) then ds[1..] else AfterStop(ds[1..])
  }

  datatype StreamError = Unreadable(cause: IoError) | Malformed(error: DecodeError)

  /** BufferedReader. The underlying reader is the list of what its next reads return. */
  class BufferedReader {
    var unread: seq<Delivery>
    var leftover: seq<Byte>

    constructor (deliveries: seq<Delivery>)
      requires forall i | 0 <= i < |deliveries| :: |deliveries[i].data| <= 256
      ensures unread == deliveries && leftover == []
    {
      unread := deliveries;
      leftover := [];
    }

    /** Every byte not yet returned as part of an item, up to the next error of the reader. */
    function Pending(): seq<Byte>
      reads this
    {
      leftover + Delivered(unread)
    }

    /**
     One item off the front of the pending bytes, however they are delivered: the bytes consumed are
     those of the item, the rest stays pending. If there is none, everything up to the next error of the
     reader was read and is gone; that error is reported only if there were no bytes.
     */
    method DecodeFromBuffered(o: DecodeOpts) returns (r: Result<Value, StreamError>)
      modifies this
      ensures match D.Decode(old(Pending()), o)
              case Ok(v, n) =>
                && r == Success(v) && Pending() == old(Pending())[n..]
                && StopError(unread) == StopError(old(unread)) && AfterStop(unread) == AfterStop(old(unread))
              case Err(e, _) =>
                && leftover == [] && unread == AfterStop(old(unread))
                && r == if old(Pending()) == [] then Failure(Unreadable(StopError(old(unread))))
                   else Failure(Malformed(e))
    {
      hide D.DecodeValue, D.Decode;
      ghost var all := Pending();
      var buf := leftover;
      leftover := [];
      while true
        invariant buf + Delivered(unread) == all && leftover == []
        invariant StopError(unread) == StopError(old(unread)) && AfterStop(unread) == AfterStop(old(unread))
        decreases |unread|
      {
        var d := Decoder.Decode(buf, o);
        if d.Ok? {
          assert buf[..d.next] <= all;
          DecodeIsLocal(buf, all, o);
          leftover := buf[d.next..];
          assert all[d.next..] == leftover + Delivered(unread);
          return Success(d.value);
        }
        var read := if unread == [] then Delivery([], Some(EndOfFile)) else unread[0];
        if Stops(read) {
          assert buf == all;
        }
        unread := if unread == [] then [] else unread[1..];
        if |read.data| > 0 {
          buf := buf + read.data;
        } else if read.err.Some? {
          return if |buf| == 0 then Failure(Unreadable(read.err.value)) else Failure(Malformed(d.error));
        } else {
          assert buf + [] == buf;
        }
      }
    }
  }

  /**
   A caller that reads items until the stream fails: the items are those of the bytes delivered up to
   the first error of the reader, and that error is what the stream ends with exactly if those bytes are
   a sequence.
   */
  method DrainStream(br: BufferedReader, o: DecodeOpts) returns (items: seq<Value>, err: StreamError)
    modifies br
    ensures match DecodedSequence(old(br.Pending()), o)
            case Success(all) => items == all && err == Unreadable(StopError(old(br.unread)))
            case Failure(e) => err == Malformed(e)
    ensures br.leftover == [] && br.unread == AfterStop(old(br.unread))
  {
    hide D.DecodeValue;
    items := [];
    ghost var all := br.Pending();
    JoinedEnds([], DecodedSequence(all, o));
    while true
      invariant DecodedSequence(all, o) == Joined(items, DecodedSequence(br.Pending(), o))
      invariant StopError(br.unread) == StopError(old(br.unread)) && AfterStop(br.unread) == AfterStop(old(br.unread))
      decreases |br.Pending()|
    {
      ghost var before := br.Pending();
      var r := br.DecodeFromBuffered(o);
      match r
      case Success(v) =>
        assert before != [];
        JoinedStep(items, v, DecodedSequence(br.Pending(), o));
        items := items + [v];
      case Failure(e) =>
        assert before == [] <==> e.Unreadable?;
        JoinedEnds(items, Success([]));
        return items, e;
    }
  }
}
