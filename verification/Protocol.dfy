/** The request and response bodies of the wire protocol: what each one looks like in bytes, a reader for
  each, and for each the exact statement of what the reader accepts.

  Go strings are byte strings, so topics, groups and consumer ids are `seq<byte>`. A `NackRequest` has the
  layout of an `AckRequest`.
*/
module Protocol {
  import opened Bytes
  import opened Parsing

  datatype ProduceRequest = ProduceRequest(topic: seq<byte>, key: seq<byte>, value: seq<byte>)
  datatype FetchRequest = FetchRequest(topic: seq<byte>, group: seq<byte>, consumer: seq<byte>,
                                       maxMessages: uint32, ackTimeoutMs: uint32, longPollTimeoutMs: uint32)
  datatype AckRequest = AckRequest(topic: seq<byte>, group: seq<byte>, offset: uint64)
  datatype Message = Message(offset: uint64, timestamp: int64, key: seq<byte>, value: seq<byte>)

  // ---------------------------------------------------------------- integers of a Go width

  function ReadU32(s: seq<byte>): Reading<uint32>
  {
    Pow256Widths();
    var (n, rest) :- ReadBig(4, s);
    Some((n, rest))
  }

  function ReadU64(s: seq<byte>): Reading<uint64>
  {
    Pow256Widths();
    var (n, rest) :- ReadBig(8, s);
    Some((n, rest))
  }

  lemma ReadU32Exact(s: seq<byte>, n: uint32, rest: seq<byte>)
    ensures ReadU32(s) == Some((n, rest)) <==> s == Big(n, 4) + rest
  {
    Pow256Widths();
    ReadBigExact(4, s, n, rest);
  }

  lemma ReadU64Exact(s: seq<byte>, n: uint64, rest: seq<byte>)
    ensures ReadU64(s) == Some((n, rest)) <==> s == Big(n, 8) + rest
  {
    Pow256Widths();
    ReadBigExact(8, s, n, rest);
  }

  // ---------------------------------------------------------------- ProduceRequest

  function EncodeProduce(r: ProduceRequest): seq<byte>
  {
    Field(2, r.topic) + (Field(4, r.key) + Field(4, r.value))
  }

  /** Every field length fits its prefix. */
  predicate ProduceFits(r: ProduceRequest)
  {
    |r.topic| < TWO16 && |r.key| < TWO32 && |r.value| < TWO32
  }

  function ReadProduce(s: seq<byte>): Reading<ProduceRequest>
  {
    var (topic, s1) :- ReadField(2, s);
    var (key, s2) :- ReadField(4, s1);
    var (value, s3) :- ReadField(4, s2);
    Some((ProduceRequest(topic, key, value), s3))
  }

  lemma ReadProduceExact(s: seq<byte>, r: ProduceRequest, rest: seq<byte>)
    ensures ReadProduce(s) == Some((r, rest)) <==> ProduceFits(r) && s == EncodeProduce(r) + rest
  {
    Pow256Widths();
    var s2 := Field(4, r.value) + rest;
    var s1 := Field(4, r.key) + s2;
    assert EncodeProduce(r) + rest == Field(2, r.topic) + s1;
    ReadFieldExact(2, s, r.topic, s1);
    ReadFieldExact(4, s1, r.key, s2);
    ReadFieldExact(4, s2, r.value, rest);
    if ReadProduce(s) == Some((r, rest)) {
      var (_, t1) := ReadField(2, s).value;
      var (_, t2) := ReadField(4, t1).value;
      ReadFieldExact(2, s, r.topic, t1);
      ReadFieldExact(4, t1, r.key, t2);
      ReadFieldExact(4, t2, r.value, rest);
    }
  }

  // ---------------------------------------------------------------- FetchRequest

  function EncodeLimits(r: FetchRequest): seq<byte>
  {
    Big(r.maxMessages, 4) + (Big(r.ackTimeoutMs, 4) + Big(r.longPollTimeoutMs, 4))
  }

  function EncodeClient(r: FetchRequest): seq<byte>
  {
    Field(2, r.consumer) + EncodeLimits(r)
  }

  function EncodeFetch(r: FetchRequest): seq<byte>
  {
    Field(2, r.topic) + (Field(2, r.group) + EncodeClient(r))
  }

  predicate FetchFits(r: FetchRequest)
  {
    |r.topic| < TWO16 && |r.group| < TWO16 && |r.consumer| < TWO16
  }

  function ReadLimits(s: seq<byte>): Reading<(uint32, uint32, uint32)>
  {
    var (maxMessages, s1) :- ReadU32(s);
    var (ackTimeout, s2) :- ReadU32(s1);
    var (longPoll, s3) :- ReadU32(s2);
    Some(((maxMessages, ackTimeout, longPoll), s3))
  }

  function ReadClient(s: seq<byte>): Reading<(seq<byte>, (uint32, uint32, uint32))>
  {
    var (consumer, s1) :- ReadField(2, s);
    var (limits, s2) :- ReadLimits(s1);
    Some(((consumer, limits), s2))
  }

  function ReadFetch(s: seq<byte>): Reading<FetchRequest>
  {
    var (topic, s1) :- ReadField(2, s);
    var (group, s2) :- ReadField(2, s1);
    var (client, s3) :- ReadClient(s2);
    Some((FetchRequest(topic, group, client.0, client.1.0, client.1.1, client.1.2), s3))
  }

  lemma ReadLimitsExact(s: seq<byte>, r: FetchRequest, rest: seq<byte>)
    ensures ReadLimits(s) == Some(((r.maxMessages, r.ackTimeoutMs, r.longPollTimeoutMs), rest))
       <==> s == EncodeLimits(r) + rest
  {
    var s2 := Big(r.longPollTimeoutMs, 4) + rest;
    var s1 := Big(r.ackTimeoutMs, 4) + s2;
    assert EncodeLimits(r) + rest == Big(r.maxMessages, 4) + s1;
    ReadU32Exact(s, r.maxMessages, s1);
    ReadU32Exact(s1, r.ackTimeoutMs, s2);
    ReadU32Exact(s2, r.longPollTimeoutMs, rest);
    if ReadLimits(s) == Some(((r.maxMessages, r.ackTimeoutMs, r.longPollTimeoutMs), rest)) {
      var (_, t1) := ReadU32(s).value;
      var (_, t2) := ReadU32(t1).value;
      ReadU32Exact(s, r.maxMessages, t1);
      ReadU32Exact(t1, r.ackTimeoutMs, t2);
      ReadU32Exact(t2, r.longPollTimeoutMs, rest);
    }
  }

  lemma ReadClientExact(s: seq<byte>, r: FetchRequest, rest: seq<byte>)
    ensures ReadClient(s) == Some(((r.consumer, (r.maxMessages, r.ackTimeoutMs, r.longPollTimeoutMs)), rest))
       <==> |r.consumer| < TWO16 && s == EncodeClient(r) + rest
  {
    Pow256Widths();
    var s1 := EncodeLimits(r) + rest;
    assert EncodeClient(r) + rest == Field(2, r.consumer) + s1;
    ReadFieldExact(2, s, r.consumer, s1);
    ReadLimitsExact(s1, r, rest);
    if ReadClient(s) == Some(((r.consumer, (r.maxMessages, r.ackTimeoutMs, r.longPollTimeoutMs)), rest)) {
      var (_, t1) := ReadField(2, s).value;
      ReadFieldExact(2, s, r.consumer, t1);
      ReadLimitsExact(t1, r, rest);
    }
  }

  lemma ReadFetchExact(s: seq<byte>, r: FetchRequest, rest: seq<byte>)
    ensures ReadFetch(s) == Some((r, rest)) <==> FetchFits(r) && s == EncodeFetch(r) + rest
  {
    Pow256Widths();
    var s2 := EncodeClient(r) + rest;
    var s1 := Field(2, r.group) + s2;
    assert EncodeFetch(r) + rest == Field(2, r.topic) + s1;
    if ReadFetch(s) == Some((r, rest)) {
      var (_, t1) := ReadField(2, s).value;
      var (_, t2) := ReadField(2, t1).value;
      ReadFieldExact(2, s, r.topic, t1);
      ReadFieldExact(2, t1, r.group, t2);
      ReadClientExact(t2, r, rest);
    }
    if FetchFits(r) && s == EncodeFetch(r) + rest {
      ReadFieldExact(2, s, r.topic, s1);
      ReadFieldExact(2, s1, r.group, s2);
      ReadClientExact(s2, r, rest);
    }
  }

  // ---------------------------------------------------------------- AckRequest and NackRequest

  function EncodeAck(r: AckRequest): seq<byte>
  {
    Field(2, r.topic) + (Field(2, r.group) + Big(r.offset, 8))
  }

  predicate AckFits(r: AckRequest)
  {
    |r.topic| < TWO16 && |r.group| < TWO16
  }

  function ReadAck(s: seq<byte>): Reading<AckRequest>
  {
    var (topic, s1) :- ReadField(2, s);
    var (group, s2) :- ReadField(2, s1);
    var (offset, s3) :- ReadU64(s2);
    Some((AckRequest(topic, group, offset), s3))
  }

  lemma ReadAckExact(s: seq<byte>, r: AckRequest, rest: seq<byte>)
    ensures ReadAck(s) == Some((r, rest)) <==> AckFits(r) && s == EncodeAck(r) + rest
  {
    Pow256Widths();
    var s2 := Big(r.offset, 8) + rest;
    var s1 := Field(2, r.group) + s2;
    assert EncodeAck(r) + rest == Field(2, r.topic) + s1;
    ReadFieldExact(2, s, r.topic, s1);
    ReadFieldExact(2, s1, r.group, s2);
    ReadU64Exact(s2, r.offset, rest);
    if ReadAck(s) == Some((r, rest)) {
      var (_, t1) := ReadField(2, s).value;
      var (_, t2) := ReadField(2, t1).value;
      ReadFieldExact(2, s, r.topic, t1);
      ReadFieldExact(2, t1, r.group, t2);
      ReadU64Exact(t2, r.offset, rest);
    }
  }

  // ---------------------------------------------------------------- FetchResponse

  function EncodeMessage(m: Message): seq<byte>
  {
    Big(m.offset, 8) + (Big(Unsigned64(m.timestamp), 8) + (Field(4, m.key) + Field(4, m.value)))
  }

  predicate MessageFits(m: Message)
  {
    |m.key| < TWO32 && |m.value| < TWO32
  }

  function ReadMessage(s: seq<byte>): Reading<Message>
  {
    var (offset, s1) :- ReadU64(s);
    var (timestamp, s2) :- ReadU64(s1);
    var (key, s3) :- ReadField(4, s2);
    var (value, s4) :- ReadField(4, s3);
    Some((Message(offset, Signed64(timestamp), key, value), s4))
  }

  lemma ReadMessageExact(s: seq<byte>, m: Message, rest: seq<byte>)
    ensures ReadMessage(s) == Some((m, rest)) <==> MessageFits(m) && s == EncodeMessage(m) + rest
  {
    Pow256Widths();
    var ts := Unsigned64(m.timestamp);
    var s3 := Field(4, m.value) + rest;
    var s2 := Field(4, m.key) + s3;
    var s1 := Big(ts, 8) + s2;
    assert EncodeMessage(m) + rest == Big(m.offset, 8) + s1;
    ReadU64Exact(s, m.offset, s1);
    ReadU64Exact(s1, ts, s2);
    ReadFieldExact(4, s2, m.key, s3);
    ReadFieldExact(4, s3, m.value, rest);
    if ReadMessage(s) == Some((m, rest)) {
      var (_, t1) := ReadU64(s).value;
      var (u, t2) := ReadU64(t1).value;
      var (_, t3) := ReadField(4, t2).value;
      SignedRoundTrip(u);
      ReadU64Exact(s, m.offset, t1);
      ReadU64Exact(t1, u, t2);
      ReadFieldExact(4, t2, m.key, t3);
      ReadFieldExact(4, t3, m.value, rest);
    }
  }

  lemma MessageFaithful()
    ensures Faithful(ReadMessage, EncodeMessage, MessageFits)
  {
    hide ReadMessage, EncodeMessage;
    forall s | ReadMessage(s).Some?
      ensures MessageFits(ReadMessage(s).value.0) && s == EncodeMessage(ReadMessage(s).value.0) + ReadMessage(s).value.1
    {
      ReadMessageExact(s, ReadMessage(s).value.0, ReadMessage(s).value.1);
    }
    forall m, rest | MessageFits(m)
      ensures ReadMessage(EncodeMessage(m) + rest) == Some((m, rest))
    {
      ReadMessageExact(EncodeMessage(m) + rest, m, rest);
    }
  }

  /** A fetch response is its message count followed by the messages. */
  function EncodeFetchResponse(ms: seq<Message>): seq<byte>
  {
    EncodeList(EncodeMessage, ms)
  }

  predicate FetchResponseFits(ms: seq<Message>)
  {
    |ms| < TWO32 && AllFit(MessageFits, ms)
  }

  function ReadFetchResponse(s: seq<byte>): Reading<seq<Message>>
  {
    ReadList(ReadMessage, s)
  }

  lemma ReadFetchResponseExact(s: seq<byte>, ms: seq<Message>, rest: seq<byte>)
    ensures ReadFetchResponse(s) == Some((ms, rest)) <==> FetchResponseFits(ms) && s == EncodeFetchResponse(ms) + rest
  {
    Pow256Widths();
    MessageFaithful();
    ReadListExact(ReadMessage, EncodeMessage, MessageFits, s, ms, rest);
  }

  // ---------------------------------------------------------------- ListTopicsResponse

  function EncodeName(name: seq<byte>): seq<byte>
  {
    Field(2, name)
  }

  predicate NameFits(name: seq<byte>)
  {
    |name| < TWO16
  }

  function ReadName(s: seq<byte>): Reading<seq<byte>>
  {
    ReadField(2, s)
  }

  lemma NameFaithful()
    ensures Faithful(ReadName, EncodeName, NameFits)
  {
    Pow256Widths();
    forall s | ReadName(s).Some?
      ensures NameFits(ReadName(s).value.0) && s == EncodeName(ReadName(s).value.0) + ReadName(s).value.1
    {
      ReadFieldExact(2, s, ReadName(s).value.0, ReadName(s).value.1);
    }
    forall name, rest | NameFits(name)
      ensures ReadName(EncodeName(name) + rest) == Some((name, rest))
    {
      ReadFieldExact(2, EncodeName(name) + rest, name, rest);
    }
  }

  function EncodeListTopics(names: seq<seq<byte>>): seq<byte>
  {
    EncodeList(EncodeName, names)
  }

  predicate ListTopicsFits(names: seq<seq<byte>>)
  {
    |names| < TWO32 && AllFit(NameFits, names)
  }

  function ReadListTopics(s: seq<byte>): Reading<seq<seq<byte>>>
  {
    ReadList(ReadName, s)
  }

  lemma ReadListTopicsExact(s: seq<byte>, names: seq<seq<byte>>, rest: seq<byte>)
    ensures ReadListTopics(s) == Some((names, rest)) <==> ListTopicsFits(names) && s == EncodeListTopics(names) + rest
  {
    Pow256Widths();
    NameFaithful();
    ReadListExact(ReadName, EncodeName, NameFits, s, names, rest);
  }

  // ---------------------------------------------------------------- the bodies, place by place

  lemma ProduceLayout(r: ProduceRequest)
    requires ProduceFits(r)
    ensures var b := EncodeProduce(r);
            var t, k, v := |r.topic|, |r.key|, |r.value|;
            && |b| == 10 + t + k + v
            && Value(b[..2]) == t && b[2..2 + t] == r.topic
            && Value(b[2 + t..6 + t]) == k && b[6 + t..6 + t + k] == r.key
            && Value(b[6 + t + k..10 + t + k]) == v && b[10 + t + k..] == r.value
  {
    hide Big, Value, Pow256;
    var b := EncodeProduce(r);
    var t, k, v := |r.topic|, |r.key|, |r.value|;
    Pow256Widths();
    BigRoundTrip(t, 2);
    BigRoundTrip(k, 4);
    BigRoundTrip(v, 4);
    assert b[..2] == Big(t, 2);
    assert b[2 + t..6 + t] == Big(k, 4);
    assert b[6 + t + k..10 + t + k] == Big(v, 4);
  }

  lemma LimitsLayout(r: FetchRequest)
    ensures var b := EncodeLimits(r);
            |b| == 12 && Value(b[..4]) == r.maxMessages && Value(b[4..8]) == r.ackTimeoutMs
            && Value(b[8..]) == r.longPollTimeoutMs
  {
    hide Big, Value, Pow256;
    var b := EncodeLimits(r);
    Pow256Widths();
    BigRoundTrip(r.maxMessages, 4);
    BigRoundTrip(r.ackTimeoutMs, 4);
    BigRoundTrip(r.longPollTimeoutMs, 4);
    assert b[..4] == Big(r.maxMessages, 4) && b[4..8] == Big(r.ackTimeoutMs, 4);
    assert b[8..] == Big(r.longPollTimeoutMs, 4);
  }

  lemma FetchLayout(r: FetchRequest)
    requires FetchFits(r)
    ensures var b := EncodeFetch(r);
            var t, g, c := |r.topic|, |r.group|, |r.consumer|;
            var at := 6 + t + g + c;
            && |b| == at + 12
            && Value(b[..2]) == t && b[2..2 + t] == r.topic
            && Value(b[2 + t..4 + t]) == g && b[4 + t..4 + t + g] == r.group
            && Value(b[4 + t + g..6 + t + g]) == c && b[6 + t + g..at] == r.consumer
            && Value(b[at..at + 4]) == r.maxMessages && Value(b[at + 4..at + 8]) == r.ackTimeoutMs
            && Value(b[at + 8..]) == r.longPollTimeoutMs
  {
    hide EncodeLimits, Big, Value, Pow256;
    var b := EncodeFetch(r);
    var t, g, c := |r.topic|, |r.group|, |r.consumer|;
    var at := 6 + t + g + c;
    Pow256Widths();
    BigRoundTrip(t, 2);
    BigRoundTrip(g, 2);
    BigRoundTrip(c, 2);
    LimitsLayout(r);
    assert b[..2] == Big(t, 2);
    assert b[2 + t..4 + t] == Big(g, 2);
    assert b[4 + t + g..6 + t + g] == Big(c, 2);
    assert b[at..] == EncodeLimits(r);
    assert b[at..at + 4] == b[at..][..4] && b[at + 4..at + 8] == b[at..][4..8] && b[at + 8..] == b[at..][8..];
  }

  lemma AckLayout(r: AckRequest)
    requires AckFits(r)
    ensures var b := EncodeAck(r);
            var t, g := |r.topic|, |r.group|;
            && |b| == 12 + t + g
            && Value(b[..2]) == t && b[2..2 + t] == r.topic
            && Value(b[2 + t..4 + t]) == g && b[4 + t..4 + t + g] == r.group
            && Value(b[4 + t + g..]) == r.offset
  {
    hide Big, Value, Pow256;
    var b := EncodeAck(r);
    var t, g := |r.topic|, |r.group|;
    Pow256Widths();
    BigRoundTrip(t, 2);
    BigRoundTrip(g, 2);
    BigRoundTrip(r.offset, 8);
    assert b[..2] == Big(t, 2);
    assert b[2 + t..4 + t] == Big(g, 2);
    assert b[4 + t + g..] == Big(r.offset, 8);
  }

  lemma MessageLayout(m: Message)
    requires MessageFits(m)
    ensures var b := EncodeMessage(m);
            var k, v := |m.key|, |m.value|;
            && |b| == 24 + k + v
            && Value(b[..8]) == m.offset
            && Value(b[8..16]) == (if m.timestamp < 0 then m.timestamp + TWO64 else m.timestamp)
            && Value(b[16..20]) == k && b[20..20 + k] == m.key
            && Value(b[20 + k..24 + k]) == v && b[24 + k..] == m.value
  {
    hide Big, Value, Pow256;
    var b := EncodeMessage(m);
    var k, v := |m.key|, |m.value|;
    Pow256Widths();
    BigRoundTrip(m.offset, 8);
    BigRoundTrip(Unsigned64(m.timestamp), 8);
    BigRoundTrip(k, 4);
    BigRoundTrip(v, 4);
    assert b[..8] == Big(m.offset, 8);
    assert b[8..16] == Big(Unsigned64(m.timestamp), 8);
    assert b[16..20] == Big(k, 4);
    assert b[20 + k..24 + k] == Big(v, 4);
  }

  /** A fetch response is the number of messages and then the messages in their order. */
  lemma FetchResponseLayout(ms: seq<Message>, i: nat)
    requires FetchResponseFits(ms) && i < |ms|
    ensures var b := EncodeFetchResponse(ms);
            var at := 4 + |EncodeAll(EncodeMessage, ms[..i])|;
            && Value(b[..4]) == |ms|
            && at + |EncodeMessage(ms[i])| <= |b| && b[at..at + |EncodeMessage(ms[i])|] == EncodeMessage(ms[i])
  {
    ListLayout(EncodeMessage, ms, i);
  }

  lemma NamesLayout(names: seq<seq<byte>>, i: nat)
    requires ListTopicsFits(names) && i < |names|
    ensures var b := EncodeListTopics(names);
            var at := 4 + |EncodeAll(EncodeName, names[..i])|;
            Value(b[..4]) == |names| && at + 2 + |names[i]| <= |b| && b[at..at + 2 + |names[i]|] == Field(2, names[i])
  {
    hide Big, Value, Pow256, EncodeAll;
    ListLayout(EncodeName, names, i);
  }

  /** A topic list is the number of names and then each name behind its length. */
  lemma ListTopicsLayout(names: seq<seq<byte>>, i: nat)
    requires ListTopicsFits(names) && i < |names|
    ensures var b := EncodeListTopics(names);
            var at := 4 + |EncodeAll(EncodeName, names[..i])|;
            var n := |names[i]|;
            && Value(b[..4]) == |names| && at + 2 + n <= |b|
            && Value(b[at..at + 2]) == n && b[at + 2..at + 2 + n] == names[i]
  {
    hide Big, Value, Pow256, EncodeAll, EncodeListTopics;
    NamesLayout(names, i);
    var b := EncodeListTopics(names);
    var at := 4 + |EncodeAll(EncodeName, names[..i])|;
    var n := |names[i]|;
    Pow256Widths();
    assert NameFits(names[i]);
    BigRoundTrip(n, 2);
    var item := b[at..at + 2 + n];
    assert item[..2] == Big(n, 2) && item[2..] == names[i];
    SliceOfSlice(b, at, at + 2 + n, 0, 2);
    SliceOfSlice(b, at, at + 2 + n, 2, 2 + n);
  }
}
