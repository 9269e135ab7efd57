/** The three layers together: what a consumer decodes from the wire is what was appended to the log. */
module EndToEnd {
  import opened Bytes
  import opened Parsing
  import opened Records
  import opened Recovery
  import opened Wal
  import opened Reopen
  import opened Leases
  import opened Deliveries
  import Group
  import Batches
  import Runs
  import Protocol

  /** A message as it travels. */
  function Wire(m: Group.Message): Protocol.Message
    requires m.offset < TWO64
  {
    Protocol.Message(m.offset, m.entry.timestamp, m.entry.key, m.entry.value)
  }

  function WireAll(ms: seq<Group.Message>): (ws: seq<Protocol.Message>)
    requires forall i :: 0 <= i < |ms| ==> ms[i].offset < TWO64
    ensures |ws| == |ms|
    ensures forall i :: 0 <= i < |ms| ==> ws[i] == Wire(ms[i])
  {
    seq(|ms|, i requires 0 <= i < |ms| => Wire(ms[i]))
  }

  /** Every message of a fetched batch carries the entry appended at its offset. */
  lemma BatchFromLog(s: Group.Snapshot, consumer: seq<byte>, max: nat, timeout: nat, es: seq<Entry>,
                     env: Group.Env, limit: int)
    requires Window(s.core, |es|)
    ensures var sent := Group.DoFetch(s, consumer, max, timeout, es, env, limit).sent;
            |sent| <= max
            && forall i :: 0 <= i < |sent| ==> sent[i].offset < |es| && sent[i].entry == es[sent[i].offset]
  {
    hide Group.DoFetch, Group.ExpiredSet, Window, End, Batches.OffsetsIncrease;
    var again, m, k := Batches.FetchBatch(s, consumer, max, timeout, es, env, limit);
    var sent := Group.DoFetch(s, consumer, max, timeout, es, env, limit).sent;
    forall i | 0 <= i < |sent|
      ensures sent[i].offset < |es| && sent[i].entry == es[sent[i].offset]
    {
      if i < |again| {
        assert sent[i] == again[i];
      } else {
        assert sent[i] == Batches.Consecutive(End(s.core), k, es)[i - |again|];
      }
    }
  }

  /** The response to these messages decodes to them, and each is what reading the segments at its offset gives. */
  predicate Arrives(crc: Checksum, segs: seq<Seg>, next: nat, sent: seq<Group.Message>)
  {
    && (forall i :: 0 <= i < |sent| ==> sent[i].offset < TWO64)
    && var ws := WireAll(sent);
       && Protocol.ReadFetchResponse(Protocol.EncodeFetchResponse(ws)) == Some((ws, []))
       && forall i :: 0 <= i < |ws| ==>
            ReadFrom(crc, segs, next, ws[i].offset) == Found(ws[i].offset, Entry(ws[i].timestamp, ws[i].key, ws[i].value))
  }

  /** From the log files to the consumer: take any segments that stand for some entries, however they were written,
    rolled or reopened, any state of a group over them, and any fetch of at most 2^32 - 1 messages. The response
    decodes to the batch, and each decoded message is what reading the segments at its offset gives, the entry
    appended there. */
  lemma ConsumerSeesWhatWasAppended(crc: Checksum, segs: seq<Seg>, es: seq<Entry>, s: Group.Snapshot,
                                    consumer: seq<byte>, max: nat, timeout: nat, env: Group.Env, limit: int)
    requires Represents(crc, segs, es)
    requires Window(s.core, |es|) && max < TWO32
    ensures var sent := Group.DoFetch(s, consumer, max, timeout, es, env, limit).sent;
            && Arrives(crc, segs, |es|, sent)
            && forall i :: 0 <= i < |sent| ==> sent[i].offset < |es| && sent[i].entry == es[sent[i].offset]
  {
    assert |es| < TWO64 && AllStorable(es);
    hide Group.DoFetch, ReadFrom, Window, Represents;
    hide Protocol.ReadFetchResponse, Protocol.EncodeFetchResponse;
    var sent := Group.DoFetch(s, consumer, max, timeout, es, env, limit).sent;
    BatchFromLog(s, consumer, max, timeout, es, env, limit);
    var ws := WireAll(sent);
    forall i | 0 <= i < |ws|
      ensures Protocol.MessageFits(ws[i])
    {
      assert Storable(es[sent[i].offset]);
    }
    var body := Protocol.EncodeFetchResponse(ws);
    assert body + [] == body;
    Protocol.ReadFetchResponseExact(body, ws, []);
    forall i | 0 <= i < |sent|
      ensures ReadFrom(crc, segs, |es|, ws[i].offset)
           == Found(ws[i].offset, Entry(ws[i].timestamp, ws[i].key, ws[i].value))
    {
      assert ws[i] == Wire(sent[i]);
      assert Entry(ws[i].timestamp, ws[i].key, ws[i].value) == es[sent[i].offset];
      ReadRefines(crc, segs, es, ws[i].offset);
    }
  }

  /** How long the answer to a request leases its messages, in nanoseconds. */
  function LeaseTimeout(req: Protocol.FetchRequest, byDefault: nat): nat
  {
    if req.ackTimeoutMs == 0 then byDefault else req.ackTimeoutMs * 1_000_000
  }

  /** From the consumer's request to the consumer's messages: the broker decodes what was sent, the group leases the
    batch to the consumer named in it for the time asked for, and the response decodes to entries of the log. */
  lemma RequestIsAnswered(crc: Checksum, segs: seq<Seg>, es: seq<Entry>, s: Group.Snapshot,
                          req: Protocol.FetchRequest, byDefault: nat, env: Group.Env, limit: int)
    requires Represents(crc, segs, es)
    requires Window(s.core, |es|) && Protocol.FetchFits(req)
    ensures Protocol.ReadFetch(Protocol.EncodeFetch(req)) == Some((req, []))
    ensures var timeout := LeaseTimeout(req, byDefault);
            var r := Group.DoFetch(s, req.consumer, req.maxMessages, timeout, es, env, limit);
            && |r.sent| <= req.maxMessages
            && Batches.Stamped(r.events, req.consumer, timeout, es, env)
            && (forall i :: 0 <= i < |r.events| && r.events[i].Deliver? ==>
                  r.events[i].expiry - env.now == if req.ackTimeoutMs == 0 then byDefault
                                                  else req.ackTimeoutMs * 1_000_000)
            && Arrives(crc, segs, |es|, r.sent)
  {
    hide Group.DoFetch, Arrives, Represents, Window;
    hide Protocol.ReadFetch, Protocol.EncodeFetch;
    var body := Protocol.EncodeFetch(req);
    assert body + [] == body;
    Protocol.ReadFetchExact(body, req, []);
    var timeout := LeaseTimeout(req, byDefault);
    BatchFromLog(s, req.consumer, req.maxMessages, timeout, es, env, limit);
    Batches.FetchStamps(s, req.consumer, req.maxMessages, timeout, es, env, limit);
    ConsumerSeesWhatWasAppended(crc, segs, es, s, req.consumer, req.maxMessages, timeout, env, limit);
  }

  /** The offsets below `next` that cannot be read in this step are those that reading these files fails for. */
  ghost predicate Reflects(env: Group.Env, crc: Checksum, segs: seq<Seg>, next: nat)
  {
    forall o: nat :: o < next ==> (o in env.unreadable <==> !ReadFrom(crc, segs, next, o).Found?)
  }

  /** What a stop inside the body of a record costs the consumers: the recovered log counts the record, but as long
    as its files read as they do after the recovery, no consumer group gets past its offset. */
  lemma CutRecordStopsGroups(crc: Checksum, segs: seq<Seg>, es: seq<Entry>, e: Entry, n: nat, idx: seq<byte>,
                             sys: Runs.Sys, c0: nat, moves: seq<Runs.Move>, limit: int)
    requires Represents(crc, segs, es) && AllScannable(es) && Scannable(e) && |es| + 1 < TWO64
    requires HEADER <= n < RecordSize(e)
    requires Runs.Fresh(sys, c0) && c0 <= |es|
    requires var r := Recovered(Torn(crc, segs, |es|, e, n, idx));
             forall i :: 0 <= i < |moves| ==>
               Reflects(moves[i].env, crc, r, |es| + 1) && moves[i].op != Runs.Dispatch(|es|)
    ensures var last := Recovered(Torn(crc, segs, |es|, e, n, idx))[|segs| - 1];
            last.base < TWO64 && NextOffset(last).Some? && NextOffset(last).value == |es| + 1
    ensures var r := Runs.Run(sys, moves, limit);
            && r.sys.s.core.committed <= |es|
            && forall p :: p >= |es| ==> !DeliveredIn(r.history, p)
  {
    hide Recovered, Torn, ReadFrom, NextOffset, Represents, Runs.Run, DeliveredIn;
    TornNext(crc, segs, es, e, n, idx);
    TornMiddle(crc, segs, es, e, n, idx, |es|);
    Runs.UnreadableStops(sys, c0, moves, limit, |es|);
  }
}
