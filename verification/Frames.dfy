/** Frames on the wire, streams of frames, and streams of requests carried in frames. */
module Frames {
  import opened Bytes
  import opened Parsing
  import opened Protocol
  import opened Marshalling

  datatype Frame = Frame(kind: byte, reqId: uint32, length: uint32, body: seq<byte>)

  /** The bytes written for a frame. Its own `length` is not looked at: the length of the body is written. */
  function WriteFrame(f: Frame): seq<byte>
  {
    [f.kind] + (Big(f.reqId, 4) + Field(4, f.body))
  }

  /** Nine header bytes, then as many body bytes as the header announces. */
  function ReadFrame(s: seq<byte>): Reading<Frame>
  {
    if |s| < 9 then None else
      Pow256Widths();
      ValueBound(s[1..5]);
      ValueBound(s[5..9]);
      var reqId, length := Uint(s, 1, 4), Uint(s, 5, 4);
      if length > 0 then
        if |s| < 9 + length then None
        else Some((Frame(s[0], reqId, length, s[9..9 + length]), s[9 + length..]))
      else
        Some((Frame(s[0], reqId, length, []), s[9..]))
  }

  predicate FrameFits(f: Frame)
  {
    f.length == |f.body|
  }

  /** The frame with the length that will be written for it. */
  function Normal(f: Frame): Frame
    requires |f.body| < TWO32
  {
    f.(length := |f.body|)
  }

  lemma FrameSlices(f: Frame, rest: seq<byte>)
    ensures var s := WriteFrame(f) + rest;
            var n := |f.body|;
            && |s| >= 9 + n && s[0] == f.kind && s[1..5] == Big(f.reqId, 4) && s[5..9] == Big(n, 4)
            && s[9..9 + n] == f.body && s[9 + n..] == rest && s[9..] == f.body + rest
  {
    var s := WriteFrame(f) + rest;
    assert s[9..] == f.body + rest;
    assert s[1..5] == Big(f.reqId, 4);
    assert s[5..9] == Big(|f.body|, 4);
  }

  /** The bytes of a frame, place by place. */
  lemma FrameLayout(f: Frame)
    requires |f.body| < TWO32
    ensures var b := WriteFrame(f);
            && |b| == 9 + |f.body| && b[0] == f.kind && b[9..] == f.body
            && Value(b[1..5]) == f.reqId && Value(b[5..9]) == |f.body|
  {
    var b := WriteFrame(f);
    FrameSlices(f, []);
    assert b + [] == b;
    Pow256Widths();
    BigRoundTrip(f.reqId, 4);
    BigRoundTrip(|f.body|, 4);
  }

  lemma FramePieces(s: seq<byte>)
    requires |s| >= 9
    ensures s == [s[0]] + (s[1..5] + (s[5..9] + s[9..]))
  {
  }

  lemma ReadFrameSound(s: seq<byte>)
    requires ReadFrame(s).Some?
    ensures var (f, rest) := ReadFrame(s).value; FrameFits(f) && s == WriteFrame(f) + rest
  {
    hide Big;
    var (f, rest) := ReadFrame(s).value;
    FramePieces(s);
    ValueRoundTrip(s[1..5]);
    ValueRoundTrip(s[5..9]);
    var tail := s[9..];
    assert tail == f.body + rest;
    assert WriteFrame(f) + rest == [s[0]] + (s[1..5] + (s[5..9] + tail));
  }

  lemma ReadFrameComplete(f: Frame, rest: seq<byte>)
    requires FrameFits(f)
    ensures ReadFrame(WriteFrame(f) + rest) == Some((f, rest))
  {
    hide WriteFrame;
    Pow256Widths();
    FrameSlices(f, rest);
    BigRoundTrip(f.reqId, 4);
    BigRoundTrip(|f.body|, 4);
  }

  lemma ReadFrameExact(s: seq<byte>, f: Frame, rest: seq<byte>)
    ensures ReadFrame(s) == Some((f, rest)) <==> FrameFits(f) && s == WriteFrame(f) + rest
  {
    hide ReadFrame, WriteFrame;
    if ReadFrame(s).Some? {
      ReadFrameSound(s);
    }
    if FrameFits(f) {
      ReadFrameComplete(f, rest);
    }
  }

  lemma FrameFaithful()
    ensures Faithful(ReadFrame, WriteFrame, FrameFits)
  {
    hide ReadFrame, WriteFrame;
    forall s | ReadFrame(s).Some?
      ensures FrameFits(ReadFrame(s).value.0) && s == WriteFrame(ReadFrame(s).value.0) + ReadFrame(s).value.1
    {
      ReadFrameExact(s, ReadFrame(s).value.0, ReadFrame(s).value.1);
    }
    forall f, rest | FrameFits(f)
      ensures ReadFrame(WriteFrame(f) + rest) == Some((f, rest))
    {
      ReadFrameExact(WriteFrame(f) + rest, f, rest);
    }
  }

  function NormalAll(fs: seq<Frame>): (r: seq<Frame>)
    requires forall i :: 0 <= i < |fs| ==> |fs[i].body| < TWO32
    ensures |r| == |fs|
    ensures forall i :: 0 <= i < |fs| ==> r[i] == Normal(fs[i])
  {
    seq(|fs|, i requires 0 <= i < |fs| => Normal(fs[i]))
  }

  lemma {:induction false} NormalWritesSame(fs: seq<Frame>)
    requires forall i :: 0 <= i < |fs| ==> |fs[i].body| < TWO32
    ensures EncodeAll(WriteFrame, NormalAll(fs)) == EncodeAll(WriteFrame, fs)
  {
    if fs != [] {
      NormalWritesSame(fs[1..]);
      assert NormalAll(fs)[1..] == NormalAll(fs[1..]);
    }
  }

  /** Any list of frames whose bodies fit comes back from the bytes written for it, whatever follows, with
    every length corrected to that of the body; what follows is left in the stream. */
  lemma FrameStreamRoundTrip(fs: seq<Frame>, suffix: seq<byte>)
    requires forall i :: 0 <= i < |fs| ==> |fs[i].body| < TWO32
    ensures ReadAll(ReadFrame, |fs|, EncodeAll(WriteFrame, fs) + suffix) == Some((NormalAll(fs), suffix))
  {
    NormalWritesSame(fs);
    FrameFaithful();
    ReadAllComplete(ReadFrame, WriteFrame, FrameFits, NormalAll(fs), suffix);
  }

  // ---------------------------------------------------------------- requests in frames

  datatype Request =
    | Produce(produce: ProduceRequest)
    | Fetch(fetch: FetchRequest)
    | Ack(ack: AckRequest)
    | Nack(nack: AckRequest)

  const REQ_PRODUCE: byte := 0x02
  const REQ_FETCH: byte := 0x03
  const REQ_ACK: byte := 0x04
  const REQ_NACK: byte := 0x05

  function Kind(r: Request): byte
  {
    match r
    case Produce(_) => REQ_PRODUCE
    case Fetch(_) => REQ_FETCH
    case Ack(_) => REQ_ACK
    case Nack(_) => REQ_NACK
  }

  function EncodeBody(r: Request): seq<byte>
  {
    match r
    case Produce(p) => EncodeProduce(p)
    case Fetch(f) => EncodeFetch(f)
    case Ack(a) => EncodeAck(a)
    case Nack(n) => EncodeAck(n)
  }

  /** The lengths of the fields fit their prefixes. */
  predicate BodyFits(r: Request)
  {
    match r
    case Produce(p) => ProduceFits(p)
    case Fetch(f) => FetchFits(f)
    case Ack(a) => AckFits(a)
    case Nack(n) => AckFits(n)
  }

  predicate RequestFits(r: Request)
  {
    |EncodeBody(r)| < TWO32 && BodyFits(r)
  }

  /** The request a frame carries, if its kind is known and its body well formed. */
  function DecodeRequest(f: Frame): Option<Request>
  {
    if f.kind == REQ_PRODUCE then
      var p :- Body(ReadProduce(f.body)); Some(Produce(p))
    else if f.kind == REQ_FETCH then
      var q :- Body(ReadFetch(f.body)); Some(Fetch(q))
    else if f.kind == REQ_ACK then
      var a :- Body(ReadAck(f.body)); Some(Ack(a))
    else if f.kind == REQ_NACK then
      var n :- Body(ReadAck(f.body)); Some(Nack(n))
    else None
  }

  /** The frame a request is written in. Its length is filled in by the writing. */
  function Carry(id: uint32, r: Request): Frame
  {
    Frame(Kind(r), id, 0, EncodeBody(r))
  }

  /** Which frames carry a request: produce requests have kind 2, fetches 3, acks 4 and nacks 5, a body starts with the
    encoding of a request of its kind that fits, and frames of any other kind carry none. */
  lemma DecodeRequestExact(f: Frame, r: Request)
    ensures DecodeRequest(f) == Some(r) <==>
              f.kind == (match r case Produce(_) => 2 case Fetch(_) => 3 case Ack(_) => 4 case Nack(_) => 5)
              && BodyFits(r) && EncodeBody(r) <= f.body
  {
    hide ReadProduce, ReadFetch, ReadAck, EncodeProduce, EncodeFetch, EncodeAck, ProduceFits, FetchFits, AckFits;
    var body := f.body;
    if EncodeBody(r) <= body {
      var rest := body[|EncodeBody(r)|..];
      assert body == EncodeBody(r) + rest;
      match r
      case Produce(p) => ReadProduceExact(body, p, rest);
      case Fetch(q) => ReadFetchExact(body, q, rest);
      case Ack(a) => ReadAckExact(body, a, rest);
      case Nack(n) => ReadAckExact(body, n, rest);
    }
    if DecodeRequest(f) == Some(r) {
      match r
      case Produce(p) => ReadProduceExact(body, p, ReadProduce(body).value.1);
      case Fetch(q) => ReadFetchExact(body, q, ReadFetch(body).value.1);
      case Ack(a) => ReadAckExact(body, a, ReadAck(body).value.1);
      case Nack(n) => ReadAckExact(body, n, ReadAck(body).value.1);
    }
  }

  lemma CarriedDecodes(f: Frame, r: Request)
    requires RequestFits(r) && f.kind == Kind(r) && f.body == EncodeBody(r)
    ensures DecodeRequest(f) == Some(r)
  {
    hide DecodeRequest, EncodeBody;
    DecodeRequestExact(f, r);
  }

  /** A frame as long as its length field says carries only requests that fit. */
  lemma DecodedFits(f: Frame, r: Request)
    requires FrameFits(f) && DecodeRequest(f) == Some(r)
    ensures RequestFits(r)
  {
    hide DecodeRequest, EncodeBody;
    DecodeRequestExact(f, r);
  }

  /** A request comes back from the frame written for it, whatever follows in the stream, if and only if its field
    lengths fit their prefixes and its body fits the length of a frame. */
  lemma RequestRoundTrip(id: uint32, r: Request, suffix: seq<byte>)
    ensures var x := ReadFrame(WriteFrame(Carry(id, r)) + suffix);
            && (x.Some? && DecodeRequest(x.value.0) == Some(r) <==> RequestFits(r))
            && (RequestFits(r) ==> x.value.0.reqId == id && x.value.1 == suffix)
  {
    hide ReadFrame, WriteFrame, DecodeRequest, EncodeBody;
    var s := WriteFrame(Carry(id, r)) + suffix;
    if RequestFits(r) {
      var f := Normal(Carry(id, r));
      SameWritten(Carry(id, r));
      ReadFrameComplete(f, suffix);
      CarriedDecodes(f, r);
    }
    if ReadFrame(s).Some? && DecodeRequest(ReadFrame(s).value.0) == Some(r) {
      ReadFrameSound(s);
      DecodedFits(ReadFrame(s).value.0, r);
    }
  }

  lemma SameWritten(f: Frame)
    requires |f.body| < TWO32
    ensures WriteFrame(Normal(f)) == WriteFrame(f)
  {
  }

  predicate AllRequestsFit(rs: seq<(uint32, Request)>)
  {
    forall i :: 0 <= i < |rs| ==> RequestFits(rs[i].1)
  }

  function CarryAll(rs: seq<(uint32, Request)>): (fs: seq<Frame>)
    ensures |fs| == |rs|
    ensures forall i :: 0 <= i < |rs| ==> fs[i] == Carry(rs[i].0, rs[i].1)
  {
    seq(|rs|, i requires 0 <= i < |rs| => Carry(rs[i].0, rs[i].1))
  }

  /** The frames carry these requests, ids included. */
  predicate CarriesAll(fs: seq<Frame>, rs: seq<(uint32, Request)>)
  {
    && |fs| == |rs|
    && forall i :: 0 <= i < |rs| ==> fs[i].reqId == rs[i].0 && DecodeRequest(fs[i]) == Some(rs[i].1)
  }

  lemma ReadFramesFit(n: nat, s: seq<byte>)
    requires ReadAll(ReadFrame, n, s).Some?
    ensures var fs := ReadAll(ReadFrame, n, s).value.0; forall i :: 0 <= i < |fs| ==> FrameFits(fs[i])
  {
    hide ReadFrame, WriteFrame, FrameFits;
    FrameFaithful();
    ReadAllSound(ReadFrame, WriteFrame, FrameFits, n, s);
  }

  /** From one end of a connection to the other: a list of requests is read back request by request, ids included,
    from the bytes written for it plus any suffix, if and only if all of them fit. */
  lemma RequestStreamRoundTrip(rs: seq<(uint32, Request)>, suffix: seq<byte>)
    ensures var r := ReadAll(ReadFrame, |rs|, EncodeAll(WriteFrame, CarryAll(rs)) + suffix);
            && (r.Some? && CarriesAll(r.value.0, rs) <==> AllRequestsFit(rs))
            && (AllRequestsFit(rs) ==> r.value.1 == suffix)
  {
    hide DecodeRequest, EncodeBody, ReadAll, EncodeAll;
    var fs := CarryAll(rs);
    var r := ReadAll(ReadFrame, |rs|, EncodeAll(WriteFrame, fs) + suffix);
    if AllRequestsFit(rs) {
      FrameStreamRoundTrip(fs, suffix);
      forall i | 0 <= i < |rs|
        ensures DecodeRequest(NormalAll(fs)[i]) == Some(rs[i].1)
      {
        CarriedDecodes(NormalAll(fs)[i], rs[i].1);
      }
    }
    if r.Some? && CarriesAll(r.value.0, rs) {
      ReadFramesFit(|rs|, EncodeAll(WriteFrame, fs) + suffix);
      forall i | 0 <= i < |rs|
        ensures RequestFits(rs[i].1)
      {
        DecodedFits(r.value.0[i], rs[i].1);
      }
    }
  }
}
