/** `Marshal` and `Unmarshal` as the protocol package runs them: a buffer allocated from a size pass and
  filled in place behind a moving index, and a body taken apart by index arithmetic. Each is proved against
  the byte formats of module Protocol.
*/
module Marshalling {
  import opened Bytes
  import opened Parsing
  import opened Protocol

  /** Writes `s` into the buffer at `at`: both `copy(buf[at:], s)` and `PutUintN(buf[at:], n)` with `s` the bytes of `n`. */
  method Put(buf: array<byte>, at: nat, s: seq<byte>) returns (next: nat)
    requires at + |s| <= buf.Length
    modifies buf
    ensures next == at + |s|
    ensures buf[..next] == old(buf[..at]) + s
  {
    var i := 0;
    while i < |s|
      invariant 0 <= i <= |s|
      invariant buf[..at + i] == old(buf[..at]) + s[..i]
    {
      buf[at + i] := s[i];
      i := i + 1;
      assert buf[..at + i] == buf[..at + i - 1] + [s[i - 1]];
    }
    next := at + |s|;
  }

  /** A length prefix of `w` bytes and the bytes behind it. */
  method PutField(buf: array<byte>, at: nat, w: nat, f: seq<byte>) returns (next: nat)
    requires at + w + |f| <= buf.Length
    modifies buf
    ensures next == at + w + |f|
    ensures buf[..next] == old(buf[..at]) + Field(w, f)
  {
    next := Put(buf, at, Big(|f|, w));
    next := Put(buf, next, f);
  }

  method MarshalProduce(r: ProduceRequest) returns (buf: array<byte>)
    ensures buf[..] == EncodeProduce(r)
  {
    buf := new byte[2 + |r.topic| + 4 + |r.key| + 4 + |r.value|];
    var idx := PutField(buf, 0, 2, r.topic);
    idx := PutField(buf, idx, 4, r.key);
    idx := PutField(buf, idx, 4, r.value);
    assert buf[..] == buf[..idx];
  }

  method PutLimits(buf: array<byte>, at: nat, r: FetchRequest) returns (next: nat)
    requires at + 12 <= buf.Length
    modifies buf
    ensures next == at + 12
    ensures buf[..next] == old(buf[..at]) + EncodeLimits(r)
  {
    next := Put(buf, at, Big(r.maxMessages, 4));
    next := Put(buf, next, Big(r.ackTimeoutMs, 4));
    next := Put(buf, next, Big(r.longPollTimeoutMs, 4));
  }

  method MarshalFetch(r: FetchRequest) returns (buf: array<byte>)
    ensures buf[..] == EncodeFetch(r)
  {
    buf := new byte[2 + |r.topic| + 2 + |r.group| + 2 + |r.consumer| + 4 + 4 + 4];
    var idx := PutField(buf, 0, 2, r.topic);
    idx := PutField(buf, idx, 2, r.group);
    idx := PutField(buf, idx, 2, r.consumer);
    idx := PutLimits(buf, idx, r);
    assert buf[..] == buf[..idx];
  }

  method MarshalAck(r: AckRequest) returns (buf: array<byte>)
    ensures buf[..] == EncodeAck(r)
  {
    buf := new byte[2 + |r.topic| + 2 + |r.group| + 8];
    var idx := PutField(buf, 0, 2, r.topic);
    idx := PutField(buf, idx, 2, r.group);
    idx := Put(buf, idx, Big(r.offset, 8));
    assert buf[..] == buf[..idx];
  }

  /** One message of a fetch response, written at `at`; `next` is the index after it. */
  method PutMessage(buf: array<byte>, at: nat, m: Message) returns (next: nat)
    requires at + |EncodeMessage(m)| <= buf.Length
    modifies buf
    ensures next == at + |EncodeMessage(m)|
    ensures buf[..next] == old(buf[..at]) + EncodeMessage(m)
  {
    next := Put(buf, at, Big(m.offset, 8));
    next := Put(buf, next, Big(Unsigned64(m.timestamp), 8));
    next := PutField(buf, next, 4, m.key);
    next := PutField(buf, next, 4, m.value);
  }

  method FetchResponseSize(ms: seq<Message>) returns (totalSize: nat)
    ensures totalSize == |EncodeFetchResponse(ms)|
  {
    totalSize := 4;
    for i := 0 to |ms|
      invariant totalSize == 4 + |EncodeAll(EncodeMessage, ms[..i])|
    {
      totalSize := totalSize + (8 + 8 + 4 + |ms[i].key| + 4 + |ms[i].value|);
      EncodeAllNext(EncodeMessage, ms, i);
    }
    assert ms[..|ms|] == ms;
  }

  /** The fill pass ends exactly where the buffer does. */
  method MarshalFetchResponse(ms: seq<Message>) returns (buf: array<byte>)
    ensures buf[..] == EncodeFetchResponse(ms)
  {
    var totalSize := FetchResponseSize(ms);
    buf := new byte[totalSize];
    var idx: nat := Put(buf, 0, Big(|ms|, 4));
    ghost var count := buf[..4];
    for i := 0 to |ms|
      invariant 0 <= idx <= buf.Length == totalSize
      invariant buf[..idx] == count + EncodeAll(EncodeMessage, ms[..i])
    {
      EncodeAllNext(EncodeMessage, ms, i);
      Regroup(count, EncodeAll(EncodeMessage, ms[..i]), EncodeMessage(ms[i]));
      idx := PutMessage(buf, idx, ms[i]);
    }
    assert ms[..|ms|] == ms;
    assert buf[..] == buf[..idx];
  }

  method ListTopicsSize(names: seq<seq<byte>>) returns (totalSize: nat)
    ensures totalSize == |EncodeListTopics(names)|
  {
    totalSize := 4;
    for i := 0 to |names|
      invariant totalSize == 4 + |EncodeAll(EncodeName, names[..i])|
    {
      totalSize := totalSize + (2 + |names[i]|);
      EncodeAllNext(EncodeName, names, i);
    }
    assert names[..|names|] == names;
  }

  /** The fill pass ends exactly where the buffer does. */
  method MarshalListTopics(names: seq<seq<byte>>) returns (buf: array<byte>)
    ensures buf[..] == EncodeListTopics(names)
  {
    var totalSize := ListTopicsSize(names);
    buf := new byte[totalSize];
    var idx: nat := Put(buf, 0, Big(|names|, 4));
    ghost var count := buf[..4];
    for i := 0 to |names|
      invariant 0 <= idx <= buf.Length == totalSize
      invariant buf[..idx] == count + EncodeAll(EncodeName, names[..i])
    {
      EncodeAllNext(EncodeName, names, i);
      Regroup(count, EncodeAll(EncodeName, names[..i]), EncodeName(names[i]));
      idx := PutField(buf, idx, 2, names[i]);
    }
    assert names[..|names|] == names;
    assert buf[..] == buf[..idx];
  }

  // ---------------------------------------------------------------- decoding

  /** A body is decoded to the value whose encoding it starts with; what follows that encoding is ignored. */
  function Body<T>(r: Reading<T>): Option<T>
  {
    if r.Some? then Some(r.value.0) else None
  }

  /** A field that starts at `idx` of `body`: its length, its bytes and where the next one starts. */
  lemma FieldAt(w: nat, body: seq<byte>, idx: nat)
    requires idx <= |body|
    ensures ReadField(w, body[idx..]).Some? <==>
            idx + w <= |body| && idx + w + Uint(body, idx, w) <= |body|
    ensures ReadField(w, body[idx..]).Some? ==>
            var n := Uint(body, idx, w);
            ReadField(w, body[idx..]).value == (body[idx + w..idx + w + n], body[idx + w + n..])
  {
    var s := body[idx..];
    if idx + w <= |body| {
      assert s[..w] == body[idx..idx + w] && s[w..] == body[idx + w..];
      var n := Uint(body, idx, w);
      if idx + w + n <= |body| {
        assert s[w..][..n] == body[idx + w..idx + w + n] && s[w..][n..] == body[idx + w + n..];
      }
    }
  }

  lemma BigAt(w: nat, body: seq<byte>, idx: nat)
    requires idx <= |body|
    ensures ReadBig(w, body[idx..]) == if idx + w <= |body| then Some((Uint(body, idx, w), body[idx + w..])) else None
  {
    if idx + w <= |body| {
      assert body[idx..][..w] == body[idx..idx + w] && body[idx..][w..] == body[idx + w..];
    }
  }

  /** Takes the field at `idx` and insists on `more` further bytes behind it, as the decoders check before they go on. */
  method TakeField(body: seq<byte>, idx: nat, w: nat, more: nat) returns (f: Option<seq<byte>>, next: nat)
    requires idx + w <= |body|
    ensures f.Some? ==> next + more <= |body| && ReadField(w, body[idx..]) == Some((f.value, body[next..]))
    ensures f.None? ==> ReadField(w, body[idx..]).None? || |ReadField(w, body[idx..]).value.1| < more
  {
    FieldAt(w, body, idx);
    var n := Uint(body, idx, w);
    next := idx + w + n;
    if |body| < next + more {
      return None, next;
    }
    f := Some(body[idx + w..next]);
  }

  method UnmarshalProduce(body: seq<byte>) returns (r: Option<ProduceRequest>)
    ensures r == Body(ReadProduce(body))
  {
    if |body| < 2 {
      return None;
    }
    assert body[0..] == body;
    var topic, idx := TakeField(body, 0, 2, 4);
    if topic.None? {
      return None;
    }
    var key;
    key, idx := TakeField(body, idx, 4, 4);
    if key.None? {
      return None;
    }
    var value;
    value, idx := TakeField(body, idx, 4, 0);
    if value.None? {
      return None;
    }
    r := Some(ProduceRequest(topic.value, key.value, value.value));
  }

  method UnmarshalAck(body: seq<byte>) returns (r: Option<AckRequest>)
    ensures r == Body(ReadAck(body))
  {
    if |body| < 2 {
      return None;
    }
    assert body[0..] == body;
    var topic, idx := TakeField(body, 0, 2, 2);
    if topic.None? {
      return None;
    }
    var group;
    group, idx := TakeField(body, idx, 2, 8);
    if group.None? {
      return None;
    }
    Pow256Widths();
    BigAt(8, body, idx);
    r := Some(AckRequest(topic.value, group.value, Uint(body, idx, 8)));
  }

  method UnmarshalFetch(body: seq<byte>) returns (r: Option<FetchRequest>)
    ensures r == Body(ReadFetch(body))
  {
    if |body| < 2 {
      return None;
    }
    assert body[0..] == body;
    var topic, idx := TakeField(body, 0, 2, 2);
    if topic.None? {
      return None;
    }
    var group;
    group, idx := TakeField(body, idx, 2, 2);
    if group.None? {
      return None;
    }
    ghost var rest := body[idx..];
    var consumer;
    consumer, idx := TakeField(body, idx, 2, 12);
    if consumer.None? {
      assert ReadClient(rest).None?;
      return None;
    }
    LimitsAt(body, idx);
    var maxMessages, ackTimeout, longPoll := Uint(body, idx, 4), Uint(body, idx + 4, 4), Uint(body, idx + 8, 4);
    assert Body(ReadClient(rest)) == Some((consumer.value, (maxMessages, ackTimeout, longPoll)));
    r := Some(FetchRequest(topic.value, group.value, consumer.value, maxMessages, ackTimeout, longPoll));
  }

  /** The three trailing integers of a fetch request are read from the twelve bytes at `idx`. */
  lemma LimitsAt(body: seq<byte>, idx: nat)
    requires idx <= |body|
    ensures ReadLimits(body[idx..]).Some? <==> idx + 12 <= |body|
    ensures idx + 12 <= |body| ==>
            ReadLimits(body[idx..]).value.0 == (Uint(body, idx, 4), Uint(body, idx + 4, 4), Uint(body, idx + 8, 4))
  {
    BigAt(4, body, idx);
    if idx + 4 <= |body| { BigAt(4, body, idx + 4); }
    if idx + 8 <= |body| { BigAt(4, body, idx + 8); }
  }

  /** The message at `idx`, and the length checks under which there is one. */
  lemma MessageAt(body: seq<byte>, idx: nat)
    requires idx <= |body|
    ensures ReadMessage(body[idx..]).Some? ==> idx + 20 <= |body|
    ensures idx + 20 <= |body| ==>
            var keyLen := Uint(body, idx + 16, 4);
            && (ReadMessage(body[idx..]).Some? ==> idx + 20 + keyLen + 4 <= |body|)
            && (idx + 20 + keyLen + 4 <= |body| ==>
                var at := idx + 20 + keyLen;
                var valLen := Uint(body, at, 4);
                && (ReadMessage(body[idx..]).Some? <==> at + 4 + valLen <= |body|)
                && (at + 4 + valLen <= |body| ==>
                    && Uint(body, idx, 8) < TWO64 && Uint(body, idx + 8, 8) < TWO64
                    && ReadMessage(body[idx..]).value ==
                       (Message(Uint(body, idx, 8), Signed64(Uint(body, idx + 8, 8)),
                                body[idx + 20..at], body[at + 4..at + 4 + valLen]),
                        body[at + 4 + valLen..])))
  {
    Pow256Widths();
    BigAt(8, body, idx);
    if idx + 8 <= |body| { BigAt(8, body, idx + 8); }
    if idx + 16 <= |body| { FieldAt(4, body, idx + 16); }
    if idx + 20 <= |body| {
      var at := idx + 20 + Uint(body, idx + 16, 4);
      if at <= |body| { FieldAt(4, body, at); }
      ValueBound(body[idx..idx + 8]);
      ValueBound(body[idx + 8..idx + 16]);
    }
  }

  /** What reading `n` items gives when the first ones have been read already. */
  function After<T>(done: seq<T>, r: Reading<seq<T>>): Reading<seq<T>>
  {
    if r.Some? then Some((done + r.value.0, r.value.1)) else None
  }

  lemma ReadAllStep<T>(read: seq<byte> -> Reading<T>, n: nat, s: seq<byte>, done: seq<T>)
    requires n > 0
    ensures After(done, ReadAll(read, n, s)) ==
            if read(s).None? then None
            else After(done + [read(s).value.0], ReadAll(read, n - 1, read(s).value.1))
  {
    if read(s).Some? && ReadAll(read, n - 1, read(s).value.1).Some? {
      var (x, s1) := read(s).value;
      var (xs, _) := ReadAll(read, n - 1, s1).value;
      assert done + ([x] + xs) == (done + [x]) + xs;
    }
  }

  lemma AfterNothing<T>(r: Reading<seq<T>>)
    ensures After([], r) == r
  {
    assert r.Some? ==> [] + r.value.0 == r.value.0;
  }

  /** One round of the decoding loop of a fetch response. */
  method TakeMessage(body: seq<byte>, idx: nat) returns (m: Option<Message>, next: nat)
    requires idx <= |body|
    ensures m.Some? ==> next <= |body| && ReadMessage(body[idx..]) == Some((m.value, body[next..]))
    ensures m.None? ==> ReadMessage(body[idx..]).None?
  {
    MessageAt(body, idx);
    next := idx;
    if |body| < idx + 20 {
      return None, next;
    }
    var keyLen := Uint(body, idx + 16, 4);
    if |body| < idx + 20 + keyLen + 4 {
      return None, next;
    }
    next := idx + 20 + keyLen;
    var key := body[idx + 20..next];
    var valLen := Uint(body, next, 4);
    if |body| < next + 4 + valLen {
      return None, next;
    }
    var value := body[next + 4..next + 4 + valLen];
    next := next + 4 + valLen;
    m := Some(Message(Uint(body, idx, 8), Signed64(Uint(body, idx + 8, 8)), key, value));
  }

  method UnmarshalFetchResponse(body: seq<byte>) returns (r: Option<seq<Message>>)
    ensures r == Body(ReadFetchResponse(body))
  {
    assert body[0..] == body;
    BigAt(4, body, 0);
    if |body| < 4 {
      return None;
    }
    var count := Uint(body, 0, 4);
    var messages: seq<Message> := [];
    var idx: nat := 4;
    AfterNothing(ReadAll(ReadMessage, count, body[idx..]));
    for i := 0 to count
      invariant 0 <= idx <= |body|
      invariant After(messages, ReadAll(ReadMessage, count - i, body[idx..])) == ReadFetchResponse(body)
    {
      ReadAllStep(ReadMessage, count - i, body[idx..], messages);
      var m;
      m, idx := TakeMessage(body, idx);
      if m.None? {
        return None;
      }
      messages := messages + [m.value];
    }
    assert messages + [] == messages;
    r := Some(messages);
  }

  method UnmarshalListTopics(body: seq<byte>) returns (r: Option<seq<seq<byte>>>)
    ensures r == Body(ReadListTopics(body))
  {
    assert body[0..] == body;
    BigAt(4, body, 0);
    if |body| < 4 {
      return None;
    }
    var count := Uint(body, 0, 4);
    var topics: seq<seq<byte>> := [];
    var idx: nat := 4;
    AfterNothing(ReadAll(ReadName, count, body[idx..]));
    for i := 0 to count
      invariant 0 <= idx <= |body|
      invariant After(topics, ReadAll(ReadName, count - i, body[idx..])) == ReadListTopics(body)
    {
      ReadAllStep(ReadName, count - i, body[idx..], topics);
      if |body| < idx + 2 {
        return None;
      }
      var name;
      name, idx := TakeField(body, idx, 2, 0);
      if name.None? {
        return None;
      }
      topics := topics + [name.value];
    }
    assert topics + [] == topics;
    r := Some(topics);
  }
}
