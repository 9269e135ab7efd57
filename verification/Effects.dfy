/** What each operation does, said outright: which messages are retired by it, which leases it changes and to what, whom
  it sends what, and who is still waiting afterwards. Then what follows for runs: an acked message is done with, a
  nacked one is due at once, a produced one goes to whoever waits.
*/
module Effects {
  import opened Bytes
  import opened Records
  import opened Leases
  import opened Deliveries
  import opened Sorting
  import opened Group
  import opened Batches
  import opened Runs
  import opened Progress

  // ---------------------------------------------------------------- ack

  /** The leases of offsets other than `o` that are still there are as they were. */
  ghost predicate OthersSame(c: Core, d: Core, o: nat)
  {
    forall p :: p in d.leases && p != o ==> p in c.leases && d.leases[p] == c.leases[p]
  }

  /** What is saved after a slide to `c`: the new committed offset if it moved and can be saved. */
  function SavedAfter(s: Snapshot, c: Core, env: Env): nat
  {
    if c.committed != s.core.committed && c.committed !in env.unsaved then c.committed else s.saved
  }

  /** An ack succeeds exactly for offsets below the end of the window. It retires its offset and no other; as the
    committed offset is the least that is not retired, that says where the window moves to. */
  lemma AckExactly(s: Snapshot, o: nat, log: seq<Entry>, env: Env)
    requires Window(s.core, |log|)
    ensures var (b, r) := DoAck(s, o, env);
            && r == (if o < End(s.core) then Ok else LeaseNotFound)
            && (forall p: nat :: Retired(b.s.core, p) <==> Retired(s.core, p) || (p == o && r == Ok))
            && Window(b.s.core, |log|) && End(b.s.core) == End(s.core)
            && OthersSame(s.core, b.s.core, o)
            && (o in b.s.core.leases ==> b.s.core.leases[o] == s.core.leases[o].(acked := true))
            && b.s.saved == SavedAfter(s, b.s.core, env)
            && b.s.waiters == s.waiters && b.s.dlq == s.dlq && b.sent == []
  {
    var (b, r) := DoAck(s, o, env);
    if o in s.core.leases && o >= s.core.committed {
      RetireKeeps(s.core, o, |log|);
      forall p: nat
        ensures Retired(b.s.core, p) <==> Retired(s.core, p) || p == o
      {
        PlayRetires(s.core, Ack(o), 0, |log|, p);
      }
    }
  }

  // ---------------------------------------------------------------- nack

  /** A nack succeeds exactly for unacked leases. With nobody waiting the lease runs out at that moment; otherwise the
    message goes to the first waiting fetch, which leaves the queue, under a lease of its own counted as a
    redelivery, and is sent if it can be read. Nothing else changes. */
  lemma NackExactly(s: Snapshot, o: nat, log: seq<Entry>, env: Env)
    ensures var (b, r) := DoNack(s, o, log, env);
            && r == (if Live(s.core, o) then Ok else LeaseNotFound)
            && (!Live(s.core, o) ==> b.s == s && b.sent == [])
            && (Live(s.core, o) ==>
                  && Live(b.s.core, o) && b.s.core.leases.Keys == s.core.leases.Keys
                  && b.s.core.committed == s.core.committed && OthersSame(s.core, b.s.core, o)
                  && b.s.saved == s.saved && b.s.dlq == s.dlq)
            && (Live(s.core, o) && s.waiters == [] ==>
                  && (forall now :: Expired(b.s.core, o, now) <==> now > env.now)
                  && b.s.core.leases[o].consumer == s.core.leases[o].consumer
                  && b.s.core.leases[o].redeliveries == s.core.leases[o].redeliveries
                  && b.s.waiters == [] && b.sent == [])
            && (Live(s.core, o) && s.waiters != [] ==>
                  var w := s.waiters[0];
                  && b.s.core.leases[o] == Lease(w.consumer, env.now + w.ackTimeout,
                                                 s.core.leases[o].redeliveries + 1, false)
                  && b.s.waiters == s.waiters[1..]
                  && b.sent == if o < |log| && o !in env.unreadable then [Message(o, log[o])] else [])
  {
  }

  // ---------------------------------------------------------------- dispatch

  /** A fresh message goes to the first waiting fetch exactly if there is one and the message is the next of the group:
    it is sent, leased for the first time and for the time asked for, and the fetch leaves the queue. In all other
    cases nothing happens. */
  lemma DispatchExactly(s: Snapshot, o: nat, log: seq<Entry>, env: Env)
    requires o < |log|
    ensures var b := DoDispatch(s, o, log, env);
            && b.s.core.committed == s.core.committed && b.s.saved == s.saved && b.s.dlq == s.dlq
            && (s.waiters != [] && o == End(s.core) ==>
                  && b.sent == [Message(o, log[o])]
                  && b.s.waiters == s.waiters[1..]
                  && b.s.core.leases.Keys == s.core.leases.Keys + {o}
                  && b.s.core.leases[o] == Lease(s.waiters[0].consumer, env.now + s.waiters[0].ackTimeout, 0, false)
                  && OthersSame(s.core, b.s.core, o))
            && (!(s.waiters != [] && o == End(s.core)) ==> b.s == s && b.sent == [])
  {
  }

  // ---------------------------------------------------------------- one expired offset, and the lease check

  /** What becomes of one expired offset. At the redelivery limit it is retired, it and no other, and its key and value
    are copied to the dead-letter log if the record can be read and that log written. Under the limit it is leased
    and sent again if it can be read; if not, nothing happens. */
  lemma RedeliverExactly(s: Snapshot, o: nat, consumer: seq<byte>, timeout: nat, log: seq<Entry>, env: Env, limit: int)
    requires Window(s.core, |log|) && Live(s.core, o)
    ensures var b := Redeliver(s, o, consumer, timeout, log, env, limit);
            var readable := o < |log| && o !in env.unreadable;
            var atLimit := s.core.leases[o].redeliveries >= limit;
            && b.s.waiters == s.waiters && OthersSame(s.core, b.s.core, o) && b.s.saved == SavedAfter(s, b.s.core, env)
            && (forall p: nat :: Retired(b.s.core, p) <==> Retired(s.core, p) || (p == o && atLimit))
            && b.s.dlq == s.dlq + (if atLimit && readable && o !in env.dlqDown then [Copy(log[o].key, log[o].value)]
                                   else [])
            && b.sent == (if !atLimit && readable then [Message(o, log[o])] else [])
            && (!atLimit ==>
                  o in b.s.core.leases
                  && b.s.core.leases[o] == if readable
                       then Lease(consumer, env.now + timeout, s.core.leases[o].redeliveries + 1, false)
                       else s.core.leases[o])
  {
    var b := Redeliver(s, o, consumer, timeout, log, env, limit);
    assert s.dlq + [] == s.dlq;
    if s.core.leases[o].redeliveries >= limit {
      forall p: nat
        ensures Retired(b.s.core, p) <==> Retired(s.core, p) || p == o
      {
        PlayRetires(s.core, Ack(o), 0, |log|, p);
      }
    }
  }

  /** The lease check does nothing unless a lease has run out and a fetch is waiting. Then the first fetch leaves the
    queue, and what becomes of the least expired offset is what `RedeliverExactly` says, for that fetch. */
  lemma CheckExactly(s: Snapshot, log: seq<Entry>, env: Env, limit: int, o: nat)
    ensures var b := DoExpire(s, log, env, limit);
            && (s.waiters == [] || (forall p: nat :: !Expired(s.core, p, env.now)) ==> b == Step(s, [], []))
            && (s.waiters != [] && Expired(s.core, o, env.now) && (forall p :: Expired(s.core, p, env.now) ==> o <= p) ==>
                  var w := s.waiters[0];
                  b == Redeliver(s.(waiters := s.waiters[1..]), o, w.consumer, w.ackTimeout, log, env, limit))
  {
    hide Redeliver;
    var e := ExpiredSet(s.core, env.now);
    var a := Ascending(e);
    if forall p: nat :: !Expired(s.core, p, env.now) {
      NothingListed(a, e);
      assert e == {};
    }
    if Expired(s.core, o, env.now) && forall p :: Expired(s.core, p, env.now) ==> o <= p {
      assert o in e;
      LeastFirst(e, o);
    }
  }

  lemma LeastFirst(e: set<nat>, o: nat)
    requires o in e && forall p :: p in e ==> o <= p
    ensures Ascending(e) != [] && Ascending(e)[0] == o
  {
    var a := Ascending(e);
    assert o in a;
    var i :| 0 <= i < |a| && a[i] == o;
    assert a[0] in a;
  }

  // ---------------------------------------------------------------- fetch

  /** Each event is about a later offset than the one before. */
  ghost predicate EventsIncrease(h: seq<Event>)
  {
    forall i, j :: 0 <= i < j < |h| ==> h[i].o < h[j].o
  }

  ghost predicate EventsBelow(h: seq<Event>, end: nat)
  {
    forall i :: 0 <= i < |h| ==> h[i].o < end
  }

  ghost predicate EventsFrom(h: seq<Event>, start: nat)
  {
    forall i :: 0 <= i < |h| ==> start <= h[i].o
  }

  lemma IncreaseAppend(h: seq<Event>, g: seq<Event>, m: nat)
    requires EventsIncrease(h) && EventsBelow(h, m) && EventsIncrease(g) && EventsFrom(g, m)
    ensures EventsIncrease(h + g)
  {
  }

  lemma {:induction false} TurnsIncrease(c: Core, offsets: seq<nat>, consumer: seq<byte>, timeout: nat,
                                         log: seq<Entry>, env: Env, limit: int)
    requires AllLeased(c, offsets) && Increasing(offsets)
    ensures var h := TurnsOf(c, offsets, consumer, timeout, log, env, limit);
            && EventsIncrease(h) && (offsets != [] ==> EventsFrom(h, offsets[0]))
            && forall end: nat :: (forall o :: o in offsets ==> o < end) ==> EventsBelow(h, end)
  {
    if offsets != [] {
      var o := offsets[0];
      var first := Turn(c, o, consumer, timeout, log, env, limit);
      var rest := TurnsOf(c, offsets[1..], consumer, timeout, log, env, limit);
      TurnsIncrease(c, offsets[1..], consumer, timeout, log, env, limit);
      assert offsets[1..] != [] ==> EventsFrom(rest, o + 1);
      assert offsets[1..] == [] ==> rest == [];
      IncreaseAppend(first, rest, o + 1);
      forall end: nat | forall x :: x in offsets ==> x < end
        ensures EventsBelow(first + rest, end)
      {
        assert forall x :: x in offsets[1..] ==> x in offsets;
        assert o in offsets;
        assert EventsBelow(rest, end);
      }
    }
  }

  /** A fetch touches every offset at most once, in increasing order. */
  lemma FetchEventsIncrease(s: Snapshot, consumer: seq<byte>, max: nat, timeout: nat, log: seq<Entry>, env: Env, limit: int)
    requires Window(s.core, |log|)
    ensures EventsIncrease(DoFetch(s, consumer, max, timeout, log, env, limit).events)
  {
    var m, k := FetchExactly(s, consumer, max, timeout, log, env, limit);
    ExpiredBelowEnd(s.core, env.now, |log|, m);
    var offsets := Ascending(ExpiredSet(s.core, env.now))[..m];
    hide DoFetch, TurnsOf, ExpiredSet, Window, SentBy, End, AllLeased, NewCount;
    TurnsIncrease(s.core, offsets, consumer, timeout, log, env, limit);
    var h := TurnsOf(s.core, offsets, consumer, timeout, log, env, limit);
    IncreaseAppend(h, NewOnes(End(s.core), k, consumer, timeout, env), End(s.core));
  }

  /** The one event about an offset in a history that touches each offset at most once decides its lease. */
  lemma OneDelivery(c: Core, h: seq<Event>, limit: int, len: nat, i: nat)
    requires Window(c, len) && LegalRun(c, h, limit, len) && EventsIncrease(h)
    requires i < |h| && h[i].Deliver? && (h[i].o in c.leases ==> Live(c, h[i].o))
    ensures var d, o := Replay(c, h), h[i].o;
            && o in d.leases
            && d.leases[o] == Lease(h[i].consumer, h[i].expiry,
                                    if o in c.leases then c.leases[o].redeliveries + 1 else 0, false)
  {
    hide Window, FirstOpen, Play, Legal, Replay, LegalRun, Retired;
    var o := h[i].o;
    var mid, back := h[..i + 1], h[i + 1..];
    LegalPrefix(c, h, i, limit, len);
    LegalPrefix(c, h, i + 1, limit, len);
    LeftAlone(c, h[..i], limit, len, o);
    DeliverLeases(Replay(c, h[..i]), h[i]);
    WindowThrough(c, mid, limit, len);
    assert h == mid + back;
    RunAppend(c, mid, back, limit, len);
    ReplayAppend(c, mid, back);
    LeftAlone(Replay(c, mid), back, limit, len, o);
  }

  lemma DeliverLeases(c: Core, e: Event)
    requires e.Deliver?
    ensures var d, o := Play(c, e), e.o;
            && Live(d, o)
            && d.leases[o] == Lease(e.consumer, e.expiry, if o in c.leases then c.leases[o].redeliveries + 1 else 0, false)
  {
  }

  lemma {:induction false} RetiredThrough(c: Core, h: seq<Event>, limit: int, len: nat, o: nat)
    requires Window(c, len) && LegalRun(c, h, limit, len)
    ensures Retired(Replay(c, h), o) <==> Retired(c, o) || RetiredIn(h, o)
  {
    if h != [] {
      hide Window, RetiredIn, FirstOpen;
      var n := |h| - 1;
      RetiredThrough(c, h[..n], limit, len, o);
      WindowThrough(c, h[..n], limit, len);
      PlayRetires(Replay(c, h[..n]), h[n], limit, len, o);
      RetiredSnoc(h, o);
    }
  }

  lemma {:induction false} RedeliverAllKeepsQueue(b: Step, offsets: seq<nat>, consumer: seq<byte>, max: nat, timeout: nat,
                                                  log: seq<Entry>, env: Env, limit: int)
    requires Increasing(offsets) && AllExpired(b.s.core, offsets, env.now)
    ensures RedeliverAll(b, offsets, consumer, max, timeout, log, env, limit).s.waiters == b.s.waiters
    decreases |offsets|
  {
    if offsets != [] && |b.sent| < max {
      hide Retire, AllExpired, Increasing;
      NextExpired(b.s, offsets, consumer, timeout, log, env, limit);
      var step := Redeliver(b.s, offsets[0], consumer, timeout, log, env, limit);
      assert step.s.waiters == b.s.waiters;
      RedeliverAllKeepsQueue(Then(b, step), offsets[1..], consumer, max, timeout, log, env, limit);
    }
  }

  lemma {:induction false} TakeNewKeepsQueue(b: Step, next: nat, consumer: seq<byte>, max: nat, timeout: nat,
                                             log: seq<Entry>, env: Env)
    ensures TakeNew(b, next, consumer, max, timeout, log, env).s.waiters == b.s.waiters
    decreases |log| - next
  {
    if next < |log| && |b.sent| < max && Reads(log, env, next) {
      TakeNewKeepsQueue(Then(b, New(b.s, next, consumer, timeout, log, env)), next + 1, consumer, max, timeout, log, env);
    }
  }

  lemma FetchKeepsQueue(s: Snapshot, consumer: seq<byte>, max: nat, timeout: nat, log: seq<Entry>, env: Env, limit: int)
    ensures DoFetch(s, consumer, max, timeout, log, env, limit).s.waiters == s.waiters
  {
    hide RedeliverAll, TakeNew, ExpiredSet, AllExpired, Increasing;
    ExpiredAscending(s.core, env.now);
    RedeliverAllKeepsQueue(Step(s, [], []), Ascending(ExpiredSet(s.core, env.now)), consumer, max, timeout, log, env, limit);
    var b := DoRedeliver(s, consumer, max, timeout, log, env, limit);
    TakeNewKeepsQueue(b, End(b.s.core), consumer, max, timeout, log, env);
  }

  /** The group after a fetch, offset by offset: what was sent is leased to the consumer until now plus the timeout, for
    the first time or once more; what was given up is retired, and nothing else; all other leases are as before. */
  lemma FetchLeaves(s: Snapshot, consumer: seq<byte>, max: nat, timeout: nat, log: seq<Entry>, env: Env, limit: int, o: nat)
    requires Window(s.core, |log|)
    ensures var r := DoFetch(s, consumer, max, timeout, log, env, limit);
            var c, d := s.core, r.s.core;
            && (SentIn(r.sent, o) ==>
                  o in d.leases
                  && d.leases[o] == Lease(consumer, env.now + timeout,
                                          if o in c.leases then c.leases[o].redeliveries + 1 else 0, false))
            && (Retired(d, o) <==> Retired(c, o) || DeadIn(r.events, o))
            && (Live(c, o) && !Handled(r, o) ==> o in d.leases && d.leases[o] == c.leases[o])
            && (o in d.leases && !Handled(r, o) ==> o in c.leases)
            && r.s.waiters == s.waiters
  {
    var r := DoFetch(s, consumer, max, timeout, log, env, limit);
    FetchKeepsQueue(s, consumer, max, timeout, log, env, limit);
    FetchFollows(s, consumer, max, timeout, log, env, limit);
    FetchStamps(s, consumer, max, timeout, log, env, limit);
    FetchEventsIncrease(s, consumer, max, timeout, log, env, limit);
    FetchHandles(s, consumer, max, timeout, log, env, limit, o);
    hide DoFetch, Window, LegalRun, Replay, SentBy, CopiedBy, FirstOpen, EventsIncrease, ReadableTo, Due, Stamped,
      SentIn, DeadIn, DeliveredIn, RetiredIn, Retired, AllTruthful, Saves;
    SentAreDelivered(r.events, log, o);
    RetiredThrough(s.core, r.events, limit, |log|, o);
    StampedRetires(r.events, consumer, timeout, log, env, o);
    if DeliveredIn(r.events, o) {
      var i := StampedDelivery(r.events, consumer, timeout, log, env, o);
      DueLive(s.core, o, log, env, limit);
      OneDelivery(s.core, r.events, limit, |log|, i);
    } else if !DeadIn(r.events, o) {
      StampedUntouched(r.events, consumer, timeout, log, env, o);
      LeftAlone(s.core, r.events, limit, |log|, o);
    }
  }

  lemma StampedRetires(h: seq<Event>, consumer: seq<byte>, timeout: nat, log: seq<Entry>, env: Env, o: nat)
    requires Stamped(h, consumer, timeout, log, env)
    ensures RetiredIn(h, o) <==> DeadIn(h, o)
  {
    if RetiredIn(h, o) {
      var i :| 0 <= i < |h| && Retires(h[i], o);
      assert h[i].Dead? && h[i].o == o;
    }
    if DeadIn(h, o) {
      var i :| 0 <= i < |h| && h[i].Dead? && h[i].o == o;
      assert Retires(h[i], o);
    }
  }

  lemma StampedDelivery(h: seq<Event>, consumer: seq<byte>, timeout: nat, log: seq<Entry>, env: Env, o: nat)
    returns (i: nat)
    requires Stamped(h, consumer, timeout, log, env) && DeliveredIn(h, o)
    ensures i < |h| && h[i] == Deliver(o, consumer, env.now, env.now + timeout) && o < |log|
  {
    i :| 0 <= i < |h| && Delivers(h[i], o);
  }

  lemma StampedUntouched(h: seq<Event>, consumer: seq<byte>, timeout: nat, log: seq<Entry>, env: Env, o: nat)
    requires Stamped(h, consumer, timeout, log, env) && !DeliveredIn(h, o) && !DeadIn(h, o)
    ensures forall i :: 0 <= i < |h| ==> h[i].o != o
  {
    forall i | 0 <= i < |h|
      ensures h[i].o != o
    {
      assert !Delivers(h[i], o);
    }
  }

  lemma DueLive(c: Core, o: nat, log: seq<Entry>, env: Env, limit: int)
    requires Window(c, |log|) && Due(c, o, log, env, limit)
    ensures o in c.leases ==> Live(c, o)
  {
  }

  // ---------------------------------------------------------------- the queue and the log

  /** Who is waiting after an operation: a new fetch joins behind all others, one that times out leaves its place, and
    otherwise only the first leaves, exactly when a nack, a dispatch or a lease check has something for it. */
  lemma QueueExactly(sys: Sys, m: Move, limit: int)
    ensures var s, ws := sys.s, Apply(sys, m, limit).sys.s.waiters;
            match m.op
            case Wait(w) => ws == s.waiters + [w]
            case Leave(i) => ws == if i < |s.waiters| then s.waiters[..i] + s.waiters[i + 1..] else s.waiters
            case NackMessage(o) => ws == if s.waiters != [] && Live(s.core, o) then s.waiters[1..] else s.waiters
            case Dispatch(o) =>
              ws == if s.waiters != [] && o < |sys.log| && o == End(s.core) then s.waiters[1..] else s.waiters
            case CheckLeases =>
              ws == if s.waiters != [] && ExpiredSet(s.core, m.env.now) != {} then s.waiters[1..] else s.waiters
            case _ => ws == s.waiters
  {
    if m.op.Fetch? {
      FetchKeepsQueue(sys.s, m.op.consumer, m.op.max, m.op.timeout, sys.log, m.env, limit);
    } else if m.op.CheckLeases? {
      hide Retire, Committing;
      var e := ExpiredSet(sys.s.core, m.env.now);
      NothingListed(Ascending(e), e);
      if x: nat :| x in e {
        LastIsGreatest(Ascending(e), e, x);
      }
    } else {
      hide DoFetch, DoExpire, Retire;
    }
  }

  /** The log after an operation: longer by the entry produced, and otherwise the same. */
  lemma LogExactly(sys: Sys, m: Move, limit: int)
    ensures Apply(sys, m, limit).sys.log == if m.op.Produce? then sys.log + [m.op.e] else sys.log
  {
    hide DoFetch, DoExpire, DoAck, DoNack, DoDispatch;
  }

  /** A message produced while a fetch is waiting for it goes to that fetch. */
  lemma ProducedGoesToWaiter(sys: Sys, e: Entry, env: Env, later: Env, limit: int)
    requires sys.s.waiters != [] && End(sys.s.core) == |sys.log|
    ensures var o, w := |sys.log|, sys.s.waiters[0];
            var a := Apply(Apply(sys, Move(Produce(e), env), limit).sys, Move(Dispatch(o), later), limit);
            && a.sent == [Message(o, e)]
            && a.sys.s.waiters == sys.s.waiters[1..]
            && o in a.sys.s.core.leases
            && a.sys.s.core.leases[o] == Lease(w.consumer, later.now + w.ackTimeout, 0, false)
  {
    hide DoDispatch, End;
    DispatchExactly(sys.s, |sys.log|, sys.log + [e], later);
  }

  // ---------------------------------------------------------------- runs

  /** Moves after moves. */
  lemma {:induction false} RunConcat(sys: Sys, moves: seq<Move>, more: seq<Move>, limit: int)
    ensures var r := Run(sys, moves, limit);
            var t := Run(r.sys, more, limit);
            Run(sys, moves + more, limit) == Outcome(t.sys, r.sent + t.sent, r.history + t.history)
  {
    hide Apply;
    var r := Run(sys, moves, limit);
    if more == [] {
      assert moves + more == moves;
      assert r.sent + [] == r.sent && r.history + [] == r.history;
    } else {
      var n := |more| - 1;
      RunConcat(sys, moves, more[..n], limit);
      assert (moves + more)[..|moves + more| - 1] == moves + more[..n];
      RunSnoc(sys, moves + more, limit);
      RunSnoc(r.sys, more, limit);
      var t := Run(r.sys, more[..n], limit);
      var a := Apply(t.sys, more[n], limit);
      Regroup(r.sent, t.sent, a.sent);
      Regroup(r.history, t.history, a.history);
    }
  }

  lemma RunOne(sys: Sys, m: Move, limit: int)
    ensures var a := Apply(sys, m, limit);
            Run(sys, [m], limit) == a
  {
    hide Apply;
    RunSnoc(sys, [m], limit);
    assert [m][..0] == [];
    var a := Apply(sys, m, limit);
    assert [] + a.sent == a.sent && [] + a.history == a.history;
  }

  /** An acknowledged message is done with: acking a message that has been delivered succeeds and retires it, and in
    whatever happens afterwards nothing is ever done with it again but acking it, to no effect. */
  lemma AckedForGood(sys: Sys, c0: nat, moves: seq<Move>, limit: int, o: nat, env: Env, more: seq<Move>)
    requires Fresh(sys, c0) && DeliveredIn(Run(sys, moves, limit).history, o)
    ensures var before := Run(sys, moves, limit);
            var acked := Run(sys, moves + [Move(AckMessage(o), env)], limit);
            var after := Run(sys, moves + [Move(AckMessage(o), env)] + more, limit);
            && DoAck(before.sys.s, o, env).1 == Ok
            && RetiredIn(acked.history, o)
            && |before.history| <= |after.history|
            && forall i :: |before.history| <= i < |after.history| && after.history[i].o == o ==> after.history[i].Ack?
  {
    hide Run, RetiredIn, DeliveredIn, Window, Retire, LegalRun, Replay, End, SentBy, CopiedBy;
    var ack := Move(AckMessage(o), env);
    var before := Run(sys, moves, limit);
    RunIsLegal(sys, c0, moves, limit);
    RunWindow(sys, c0, before, limit);
    DeliveredExactly(c0, before.history, limit, |before.sys.log|, o);
    AckExactly(before.sys.s, o, before.sys.log, env);
    RunConcat(sys, moves, [ack], limit);
    RunOne(before.sys, ack, limit);
    RunIsLegal(sys, c0, moves + [ack], limit);
    var acked := Run(sys, moves + [ack], limit);
    NothingLost(c0, acked.history, limit, |acked.sys.log|, o);
    RunConcat(sys, moves + [ack], more, limit);
    RunIsLegal(sys, c0, moves + [ack] + more, limit);
    var after := Run(sys, moves + [ack] + more, limit);
    forall i | |before.history| <= i < |after.history| && after.history[i].o == o
      ensures after.history[i].Ack?
    {
      if i < |acked.history| {
        assert after.history[i] == acked.history[i];
        assert acked.history[i] == DoAck(before.sys.s, o, env).0.events[i - |before.history|];
      } else {
        OnlyAcksFollow(c0, after.history, limit, |after.sys.log|, acked.history, o, i);
      }
    }
  }

  lemma OnlyAcksFollow(c0: nat, h: seq<Event>, limit: int, len: nat, first: seq<Event>, o: nat, i: nat)
    requires LegalRun(Start(c0), h, limit, len) && first <= h && RetiredIn(first, o)
    requires |first| <= i < |h| && h[i].o == o
    ensures h[i].Ack?
  {
    var j :| 0 <= j < |first| && Retires(first[j], o);
    assert h[j] == first[j];
    RetirementFinal(c0, h, limit, len, j, i);
  }

  /** A message nacked with nobody waiting is due at once, and stays so until something is done with it: after whatever
    else happens, any later fetch finds its lease run out, and the message due if it can be read or has had its
    redeliveries. */
  lemma NackedStaysDue(sys: Sys, c0: nat, moves: seq<Move>, limit: int, o: nat, env: Env, between: seq<Move>, m: Move)
    requires Fresh(sys, c0) && m.env.now > env.now
    requires var before := Run(sys, moves, limit).sys.s; Live(before.core, o) && before.waiters == []
    requires var nacked := Run(sys, moves + [Move(NackMessage(o), env)], limit);
             var h := Run(nacked.sys, between, limit).history;
             forall i :: 0 <= i < |h| ==> h[i].o != o
    ensures var sys' := Run(sys, moves + [Move(NackMessage(o), env)] + between, limit).sys;
            && Expired(sys'.s.core, o, m.env.now)
            && (Reads(sys'.log, m.env, o) || sys'.s.core.leases[o].redeliveries >= limit
                ==> Due(sys'.s.core, o, sys'.log, m.env, limit))
  {
    hide Run, Window, LegalRun, Replay, SentBy, CopiedBy, End, FirstOpen;
    var nack := Move(NackMessage(o), env);
    var before := Run(sys, moves, limit);
    NackExactly(before.sys.s, o, before.sys.log, env);
    RunConcat(sys, moves, [nack], limit);
    RunOne(before.sys, nack, limit);
    var nacked := Run(sys, moves + [nack], limit);
    RunConcat(sys, moves + [nack], between, limit);
    RunIsLegal(sys, c0, moves + [nack], limit);
    RunIsLegal(sys, c0, moves + [nack] + between, limit);
    var after := Run(sys, moves + [nack] + between, limit);
    var h := Run(nacked.sys, between, limit).history;
    RunAppend(Start(c0), nacked.history, h, limit, |after.sys.log|);
    ReplayAppend(Start(c0), nacked.history, h);
    WindowAlways(c0, nacked.history, limit, |after.sys.log|);
    LeftAlone(nacked.sys.s.core, h, limit, |after.sys.log|, o);
  }

  // ---------------------------------------------------------------- dead letters across restarts

  function AllCopied(histories: seq<seq<Event>>, log: seq<Entry>): seq<Copy>
  {
    if histories == [] then [] else
      AllCopied(histories[..|histories| - 1], log) + CopiedBy(histories[|histories| - 1], log)
  }

  ghost predicate LegalSomewhere(h: seq<Event>, limit: int, len: nat)
  {
    exists c :: LegalRun(Start(c), h, limit, len)
  }

  ghost predicate AllLegal(histories: seq<seq<Event>>, limit: int, len: nat)
  {
    forall k :: 0 <= k < |histories| ==> LegalSomewhere(histories[k], limit, len)
  }

  lemma {:induction false} AllCopiedLonger(histories: seq<seq<Event>>, limit: int, log: seq<Entry>, longer: seq<Entry>)
    requires AllLegal(histories, limit, |log|) && log <= longer
    ensures AllCopied(histories, longer) == AllCopied(histories, log) && AllLegal(histories, limit, |longer|)
  {
    forall k | 0 <= k < |histories|
      ensures LegalSomewhere(histories[k], limit, |longer|)
    {
      assert LegalSomewhere(histories[k], limit, |log|);
      var c :| LegalRun(Start(c), histories[k], limit, |log|);
      LongerLog(Start(c), histories[k], limit, |log|, |longer|);
    }
    if histories != [] {
      var n := |histories| - 1;
      AllCopiedLonger(histories[..n], limit, log, longer);
      assert LegalSomewhere(histories[n], limit, |log|);
      var c :| LegalRun(Start(c), histories[n], limit, |log|);
      CopiedLonger(c, histories[n], limit, log, longer);
    }
  }

  /** Over any number of processes the log only grows, and the dead-letter topic holds exactly what they copied, one
    after the other: a restart loses neither. */
  lemma {:induction false} DeadLettersAcrossRestarts(lives: seq<seq<Move>>, limit: int)
    ensures var l := Lives(lives, limit);
            && AllLegal(l.histories, limit, |l.sys.log|)
            && l.sys.s.dlq == AllCopied(l.histories, l.sys.log)
            && (lives != [] ==> Lives(lives[..|lives| - 1], limit).sys.log <= l.sys.log)
  {
    if lives != [] {
      hide Run, LegalRun, CopiedBy, SentBy, Replay;
      var n := |lives| - 1;
      DeadLettersAcrossRestarts(lives[..n], limit);
      var before := Lives(lives[..n], limit);
      var start := Restarted(before.sys);
      RunIsLegal(start, before.sys.s.saved, lives[n], limit);
      var r := Run(start, lives[n], limit);
      AllCopiedLonger(before.histories, limit, before.sys.log, r.sys.log);
      assert LegalSomewhere(r.history, limit, |r.sys.log|);
      var all := before.histories + [r.history];
      assert all[..|all| - 1] == before.histories;
    }
  }
}
