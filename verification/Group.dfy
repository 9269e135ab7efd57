/** The operations of a consumer group on values: what each one does to the group, what it sends, and which
  events of the lease protocol it consists of.
*/
module Group {
  import opened Bytes
  import opened Records
  import opened Leases
  import opened Deliveries
  import opened Sorting

  /** A fetch waiting for a message. */
  datatype Waiter = Waiter(consumer: seq<byte>, ackTimeout: nat)

  datatype Message = Message(offset: nat, entry: Entry)

  /** A record copied to the dead-letter topic. */
  datatype Copy = Copy(key: seq<byte>, value: seq<byte>)

  /** A group: its leases, the committed offset last saved, the waiting fetches, and the dead-letter log it
    writes to. */
  datatype Snapshot = Snapshot(core: Core, saved: nat, waiters: seq<Waiter>, dlq: seq<Copy>)

  /** What the surroundings answer during one step: the time, the offsets whose record cannot be read, the
    committed offsets that cannot be saved, and the offsets whose copy to the dead-letter log fails. */
  datatype Env = Env(now: int, unreadable: set<nat>, unsaved: set<nat>, dlqDown: set<nat>)

  datatype Reply = Ok | LeaseNotFound

  /** The outcome of a step: the group after it, the messages sent, and the events it consisted of. */
  datatype Step = Step(s: Snapshot, sent: seq<Message>, events: seq<Event>)

  predicate Reads(log: seq<Entry>, env: Env, o: nat)
  {
    o < |log| && o !in env.unreadable
  }

  /** The window after a slide, with the committed offset saved if it moved and saving works. */
  function Committing(s: Snapshot, c: Core, env: Env): Snapshot
  {
    var moved := c.committed > s.core.committed;
    s.(core := c, saved := if moved && c.committed !in env.unsaved then c.committed else s.saved)
  }

  function SetLease(s: Snapshot, o: nat, l: Lease): Snapshot
  {
    s.(core := s.core.(leases := s.core.leases[o := l]))
  }

  // ---------------------------------------------------------------- ack and nack

  function DoAck(s: Snapshot, o: nat, env: Env): (Step, Reply)
  {
    if o < s.core.committed then (Step(s, [], []), Ok)
    else if o !in s.core.leases then (Step(s, [], []), LeaseNotFound)
    else (Step(Committing(s, Retire(s.core, o), env), [], [Ack(o)]), Ok)
  }

  function DoNack(s: Snapshot, o: nat, log: seq<Entry>, env: Env): (Step, Reply)
  {
    if o !in s.core.leases || s.core.leases[o].acked then (Step(s, [], []), LeaseNotFound)
    else
      var l := s.core.leases[o];
      if s.waiters == [] then
        (Step(SetLease(s, o, l.(expiry := env.now)), [], [Nack(o, env.now, NoWaiter)]), Ok)
      else
        var w := s.waiters[0];
        var until := env.now + w.ackTimeout;
        var handed := SetLease(s, o, l.(consumer := w.consumer, expiry := until, redeliveries := l.redeliveries + 1));
        var readable := Reads(log, env, o);
        (Step(handed.(waiters := s.waiters[1..]),
              if readable then [Message(o, log[o])] else [],
              [Nack(o, env.now, To(w.consumer, until, readable))]), Ok)
  }

  // ---------------------------------------------------------------- dispatch and expiry

  /** Leases a message for the first time. */
  function New(s: Snapshot, o: nat, consumer: seq<byte>, timeout: nat, log: seq<Entry>, env: Env): Step
    requires o < |log|
  {
    var until := env.now + timeout;
    Step(SetLease(s, o, Lease(consumer, until, 0, false)), [Message(o, log[o])], [Deliver(o, consumer, env.now, until)])
  }

  /** A freshly produced message goes to the first waiting fetch if it is the next one for this group. */
  function DoDispatch(s: Snapshot, o: nat, log: seq<Entry>, env: Env): Step
    requires o < |log|
  {
    if s.waiters == [] || o != End(s.core) then Step(s, [], [])
    else
      var w := s.waiters[0];
      New(s.(waiters := s.waiters[1..]), o, w.consumer, w.ackTimeout, log, env)
  }

  /** Gives an offset up: copied to the dead-letter log if that works, then retired. */
  function GiveUp(s: Snapshot, o: nat, log: seq<Entry>, env: Env): Step
    requires o in s.core.leases
  {
    var copied := Reads(log, env, o) && o !in env.dlqDown;
    var t := Committing(s, Retire(s.core, o), env);
    Step(if copied then t.(dlq := s.dlq + [Copy(log[o].key, log[o].value)]) else t, [], [Dead(o, env.now, copied)])
  }

  /** Leases an expired offset to a consumer once more. */
  function Again(s: Snapshot, o: nat, consumer: seq<byte>, timeout: nat, log: seq<Entry>, env: Env): Step
    requires o in s.core.leases && o < |log|
  {
    var l := s.core.leases[o];
    var until := env.now + timeout;
    Step(SetLease(s, o, l.(consumer := consumer, expiry := until, redeliveries := l.redeliveries + 1)),
         [Message(o, log[o])], [Deliver(o, consumer, env.now, until)])
  }

  /** What happens to one expired offset: given up at the redelivery limit, else delivered again if readable. */
  function Redeliver(s: Snapshot, o: nat, consumer: seq<byte>, timeout: nat, log: seq<Entry>, env: Env, limit: int): Step
    requires o in s.core.leases
  {
    if s.core.leases[o].redeliveries >= limit then GiveUp(s, o, log, env)
    else if Reads(log, env, o) then Again(s, o, consumer, timeout, log, env)
    else Step(s, [], [])
  }

  function ExpiredSet(c: Core, now: int): set<nat>
  {
    set o | o in c.leases && Expired(c, o, now)
  }

  /** The lease check: the first expired offset, if any, uses up the first waiting fetch, even when it is given
    up or cannot be read. */
  ghost function DoExpire(s: Snapshot, log: seq<Entry>, env: Env, limit: int): Step
  {
    var expired := Ascending(ExpiredSet(s.core, env.now));
    if s.waiters == [] || expired == [] then Step(s, [], [])
    else
      assert expired[0] in expired;
      var w := s.waiters[0];
      Redeliver(s.(waiters := s.waiters[1..]), expired[0], w.consumer, w.ackTimeout, log, env, limit)
  }

  // ---------------------------------------------------------------- fetch

  function Then(a: Step, b: Step): Step
  {
    Step(b.s, a.sent + b.sent, a.events + b.events)
  }

  ghost predicate AllExpired(c: Core, offsets: seq<nat>, now: int)
  {
    forall i :: 0 <= i < |offsets| ==> Expired(c, offsets[i], now)
  }

  lemma ExpiredAscending(c: Core, now: int)
    ensures Increasing(Ascending(ExpiredSet(c, now))) && AllExpired(c, Ascending(ExpiredSet(c, now)), now)
  {
    var a := Ascending(ExpiredSet(c, now));
    assert forall i :: 0 <= i < |a| ==> a[i] in a;
  }

  /** Redelivering one offset leaves every other expired lease as it is, although the window may slide. */
  lemma RedeliverLeavesOthers(s: Snapshot, o: nat, consumer: seq<byte>, timeout: nat, log: seq<Entry>, env: Env,
                              limit: int, p: nat)
    requires Expired(s.core, o, env.now) && Expired(s.core, p, env.now) && o != p
    ensures var c := Redeliver(s, o, consumer, timeout, log, env, limit).s.core;
            Expired(c, p, env.now) && c.leases[p] == s.core.leases[p]
  {
    var m := Mark(s.core, o);
    assert p in m.leases && m.leases[p] == s.core.leases[p];
    assert !(m.committed <= p < FirstOpen(m.leases, m.committed));
  }

  /** Every expired offset has its lease when its turn comes, and the others keep theirs. */
  lemma NextExpired(s: Snapshot, offsets: seq<nat>, consumer: seq<byte>, timeout: nat, log: seq<Entry>, env: Env,
                    limit: int)
    requires offsets != [] && Increasing(offsets) && AllExpired(s.core, offsets, env.now)
    ensures offsets[0] in s.core.leases && Increasing(offsets[1..])
    ensures AllExpired(Redeliver(s, offsets[0], consumer, timeout, log, env, limit).s.core, offsets[1..], env.now)
  {
    hide Redeliver;
    assert Expired(s.core, offsets[0], env.now);
    forall i | 0 <= i < |offsets[1..]|
      ensures Expired(Redeliver(s, offsets[0], consumer, timeout, log, env, limit).s.core, offsets[1..][i], env.now)
    {
      assert offsets[1..][i] == offsets[i + 1];
      RedeliverLeavesOthers(s, offsets[0], consumer, timeout, log, env, limit, offsets[i + 1]);
    }
  }

  /** The expired offsets in turn, until the batch is full. */
  function RedeliverAll(b: Step, offsets: seq<nat>, consumer: seq<byte>, max: nat, timeout: nat,
                        log: seq<Entry>, env: Env, limit: int): Step
    requires Increasing(offsets) && AllExpired(b.s.core, offsets, env.now)
    decreases |offsets|
  {
    if offsets == [] || |b.sent| >= max then b
    else
      NextExpired(b.s, offsets, consumer, timeout, log, env, limit);
      RedeliverAll(Then(b, Redeliver(b.s, offsets[0], consumer, timeout, log, env, limit)), offsets[1..],
                   consumer, max, timeout, log, env, limit)
  }

  /** How many of the offsets the redelivery loop gets to. */
  function Turns(b: Step, offsets: seq<nat>, consumer: seq<byte>, max: nat, timeout: nat,
                 log: seq<Entry>, env: Env, limit: int): (m: nat)
    requires Increasing(offsets) && AllExpired(b.s.core, offsets, env.now)
    ensures m <= |offsets|
    decreases |offsets|
  {
    if offsets == [] || |b.sent| >= max then 0
    else
      NextExpired(b.s, offsets, consumer, timeout, log, env, limit);
      1 + Turns(Then(b, Redeliver(b.s, offsets[0], consumer, timeout, log, env, limit)), offsets[1..],
                consumer, max, timeout, log, env, limit)
  }

  ghost function DoRedeliver(s: Snapshot, consumer: seq<byte>, max: nat, timeout: nat,
                             log: seq<Entry>, env: Env, limit: int): Step
  {
    ExpiredAscending(s.core, env.now);
    RedeliverAll(Step(s, [], []), Ascending(ExpiredSet(s.core, env.now)), consumer, max, timeout, log, env, limit)
  }

  /** New messages from `next` on, until the batch is full, the log ends or a record cannot be read. */
  function TakeNew(b: Step, next: nat, consumer: seq<byte>, max: nat, timeout: nat, log: seq<Entry>, env: Env): Step
    decreases |log| - next
  {
    if next >= |log| || |b.sent| >= max || !Reads(log, env, next) then b
    else TakeNew(Then(b, New(b.s, next, consumer, timeout, log, env)), next + 1, consumer, max, timeout, log, env)
  }

  ghost function DoFetch(s: Snapshot, consumer: seq<byte>, max: nat, timeout: nat,
                         log: seq<Entry>, env: Env, limit: int): Step
  {
    var b := DoRedeliver(s, consumer, max, timeout, log, env, limit);
    TakeNew(b, End(b.s.core), consumer, max, timeout, log, env)
  }

  // ---------------------------------------------------------------- steps are events

  /** The message an event puts into a consumer's hands. */
  function SentOf(e: Event, log: seq<Entry>): seq<Message>
  {
    if Delivers(e, e.o) && e.o < |log| then [Message(e.o, log[e.o])] else []
  }

  /** The dead letter an event copies. */
  function CopyOf(e: Event, log: seq<Entry>): seq<Copy>
  {
    if e.Dead? && e.copied && e.o < |log| then [Copy(log[e.o].key, log[e.o].value)] else []
  }

  function SentBy(h: seq<Event>, log: seq<Entry>): seq<Message>
  {
    if h == [] then [] else SentBy(h[..|h| - 1], log) + SentOf(h[|h| - 1], log)
  }

  function CopiedBy(h: seq<Event>, log: seq<Entry>): seq<Copy>
  {
    if h == [] then [] else CopiedBy(h[..|h| - 1], log) + CopyOf(h[|h| - 1], log)
  }

  /** How saving followed the committed offset from `s` to `t`. */
  predicate Saves(s: Snapshot, t: Snapshot, env: Env)
  {
    && s.core.committed <= t.core.committed
    && (t.core.committed == s.core.committed ==> t.saved == s.saved)
    && (t.core.committed > s.core.committed && t.core.committed !in env.unsaved ==> t.saved == t.core.committed)
    && (t.saved == s.saved || s.core.committed < t.saved <= t.core.committed)
  }

  /** What an event says about its surroundings is so: it happened now; a dead letter was copied exactly if the
    record could be read and the dead-letter log written; a handoff was sent exactly if the record could be read. */
  predicate Truthful(e: Event, log: seq<Entry>, env: Env)
  {
    && (!e.Ack? ==> e.at == env.now)
    && (e.Dead? ==> (e.copied <==> Reads(log, env, e.o) && e.o !in env.dlqDown))
    && (e.Nack? && e.handoff.To? ==> (e.handoff.sent <==> Reads(log, env, e.o)))
  }

  predicate AllTruthful(h: seq<Event>, log: seq<Entry>, env: Env)
  {
    forall i :: 0 <= i < |h| ==> Truthful(h[i], log, env)
  }

  /** A step from `s` is exactly its events: they are a legal history of the lease protocol from where the
    group was to where it is, account for everything sent and every dead letter, and say what happened. */
  ghost predicate Follows(s: Snapshot, b: Step, log: seq<Entry>, env: Env, limit: int)
  {
    && LegalRun(s.core, b.events, limit, |log|)
    && b.s.core == Replay(s.core, b.events)
    && Window(b.s.core, |log|)
    && b.sent == SentBy(b.events, log)
    && b.s.dlq == s.dlq + CopiedBy(b.events, log)
    && AllTruthful(b.events, log, env)
    && Saves(s, b.s, env)
  }

  lemma NothingDone(s: Snapshot, log: seq<Entry>, env: Env, limit: int)
    requires Window(s.core, |log|)
    ensures Follows(s, Step(s, [], []), log, env, limit)
    ensures forall ws :: Follows(s, Step(s.(waiters := ws), [], []), log, env, limit)
  {
    assert s.dlq + [] == s.dlq;
  }

  /** A step of a single legal event whose effects are the event's. */
  lemma OneEvent(s: Snapshot, b: Step, e: Event, log: seq<Entry>, env: Env, limit: int)
    requires Window(s.core, |log|)
    requires b.events == [e] && Legal(s.core, e, limit, |log|) && b.s.core == Play(s.core, e)
    requires b.sent == SentOf(e, log) && b.s.dlq == s.dlq + CopyOf(e, log) && Truthful(e, log, env)
    requires Saves(s, b.s, env)
    ensures Follows(s, b, log, env, limit)
  {
    var h := [e];
    assert h[..0] == [];
    assert Replay(s.core, h) == Play(Replay(s.core, h[..0]), e);
    WindowKept(s.core, e, limit, |log|);
  }

  lemma {:induction false} SentAppend(h: seq<Event>, g: seq<Event>, log: seq<Entry>)
    ensures SentBy(h + g, log) == SentBy(h, log) + SentBy(g, log)
    ensures CopiedBy(h + g, log) == CopiedBy(h, log) + CopiedBy(g, log)
  {
    hide SentOf, CopyOf;
    if g == [] {
      assert h + g == h;
    } else {
      var m := |g| - 1;
      var hg := h + g;
      assert hg[..|hg| - 1] == h + g[..m] && hg[|hg| - 1] == g[m];
      SentAppend(h, g[..m], log);
      Regroup(SentBy(h, log), SentBy(g[..m], log), SentOf(g[m], log));
      Regroup(CopiedBy(h, log), CopiedBy(g[..m], log), CopyOf(g[m], log));
    }
  }

  lemma SavesThen(s: Snapshot, t: Snapshot, u: Snapshot, env: Env)
    requires Saves(s, t, env) && Saves(t, u, env)
    ensures Saves(s, u, env)
  {
  }

  lemma FollowsThen(s: Snapshot, a: Step, b: Step, log: seq<Entry>, env: Env, limit: int)
    requires Follows(s, a, log, env, limit) && Follows(a.s, b, log, env, limit)
    ensures Follows(s, Then(a, b), log, env, limit)
  {
    hide Saves, Window, LegalRun, Replay, SentBy, CopiedBy, Truthful;
    RunAppend(s.core, a.events, b.events, limit, |log|);
    ReplayAppend(s.core, a.events, b.events);
    SentAppend(a.events, b.events, log);
    SavesThen(s, a.s, b.s, env);
    assert s.dlq + CopiedBy(a.events, log) + CopiedBy(b.events, log)
        == s.dlq + (CopiedBy(a.events, log) + CopiedBy(b.events, log));
  }

  lemma CommittingSaves(s: Snapshot, c: Core, env: Env)
    requires s.core.committed <= c.committed
    ensures Saves(s, Committing(s, c, env), env)
  {
  }

  lemma AckFollows(s: Snapshot, o: nat, log: seq<Entry>, env: Env, limit: int)
    requires Window(s.core, |log|)
    ensures Follows(s, DoAck(s, o, env).0, log, env, limit)
  {
    NothingDone(s, log, env, limit);
    if o in s.core.leases && o >= s.core.committed {
      hide Retire;
      RetireKeeps(s.core, o, |log|);
      CommittingSaves(s, Retire(s.core, o), env);
      assert s.dlq + [] == s.dlq;
      OneEvent(s, DoAck(s, o, env).0, Ack(o), log, env, limit);
    }
  }

  lemma NackFollows(s: Snapshot, o: nat, log: seq<Entry>, env: Env, limit: int)
    requires Window(s.core, |log|)
    ensures Follows(s, DoNack(s, o, log, env).0, log, env, limit)
  {
    NothingDone(s, log, env, limit);
    if Live(s.core, o) {
      var b := DoNack(s, o, log, env).0;
      assert s.dlq + [] == s.dlq;
      OneEvent(s, b, b.events[0], log, env, limit);
    }
  }

  lemma DispatchFollows(s: Snapshot, o: nat, log: seq<Entry>, env: Env, limit: int)
    requires Window(s.core, |log|) && o < |log|
    ensures Follows(s, DoDispatch(s, o, log, env), log, env, limit)
  {
    NothingDone(s, log, env, limit);
    var b := DoDispatch(s, o, log, env);
    if b.events != [] {
      assert s.dlq + [] == s.dlq;
      OneEvent(s, b, b.events[0], log, env, limit);
    }
  }

  lemma RedeliverFollows(s: Snapshot, o: nat, consumer: seq<byte>, timeout: nat, log: seq<Entry>, env: Env, limit: int)
    requires Window(s.core, |log|) && Expired(s.core, o, env.now)
    ensures Follows(s, Redeliver(s, o, consumer, timeout, log, env, limit), log, env, limit)
  {
    hide Retire;
    NothingDone(s, log, env, limit);
    var b := Redeliver(s, o, consumer, timeout, log, env, limit);
    assert s.dlq + [] == s.dlq;
    if s.core.leases[o].redeliveries >= limit {
      RetireKeeps(s.core, o, |log|);
      CommittingSaves(s, Retire(s.core, o), env);
      OneEvent(s, b, b.events[0], log, env, limit);
    } else if Reads(log, env, o) {
      OneEvent(s, b, b.events[0], log, env, limit);
    }
  }

  /** The redelivery loop is its events, and every expired offset still has its lease when its turn comes: the
    loop gets to all of them unless the batch is full before. */
  lemma {:induction false} RedeliverAllFollows(s: Snapshot, b: Step, offsets: seq<nat>, consumer: seq<byte>, max: nat,
                                               timeout: nat, log: seq<Entry>, env: Env, limit: int)
    requires Follows(s, b, log, env, limit)
    requires Increasing(offsets) && AllExpired(b.s.core, offsets, env.now)
    ensures var r := RedeliverAll(b, offsets, consumer, max, timeout, log, env, limit);
            && Follows(s, r, log, env, limit)
            && (Turns(b, offsets, consumer, max, timeout, log, env, limit) == |offsets| || |r.sent| >= max)
    decreases |offsets|
  {
    if offsets != [] && |b.sent| < max {
      var o := offsets[0];
      assert Expired(b.s.core, o, env.now);
      hide Redeliver, Follows, Expired, AllExpired, Increasing;
      NextTurn(s, b, offsets, consumer, timeout, log, env, limit);
      RedeliverAllFollows(s, Then(b, Redeliver(b.s, o, consumer, timeout, log, env, limit)), offsets[1..],
                          consumer, max, timeout, log, env, limit);
    }
  }

  lemma NextTurn(s: Snapshot, b: Step, offsets: seq<nat>, consumer: seq<byte>, timeout: nat,
                 log: seq<Entry>, env: Env, limit: int)
    requires Follows(s, b, log, env, limit)
    requires Increasing(offsets) && AllExpired(b.s.core, offsets, env.now) && offsets != []
    ensures offsets[0] in b.s.core.leases
    ensures Increasing(offsets[1..])
    ensures var b' := Then(b, Redeliver(b.s, offsets[0], consumer, timeout, log, env, limit));
            Follows(s, b', log, env, limit) && AllExpired(b'.s.core, offsets[1..], env.now)
  {
    var o := offsets[0];
    assert Expired(b.s.core, o, env.now);
    NextExpired(b.s, offsets, consumer, timeout, log, env, limit);
    RedeliverFollows(b.s, o, consumer, timeout, log, env, limit);
    FollowsThen(s, b, Redeliver(b.s, o, consumer, timeout, log, env, limit), log, env, limit);
  }

  lemma NewFollows(s: Snapshot, consumer: seq<byte>, timeout: nat, log: seq<Entry>, env: Env, limit: int)
    requires Window(s.core, |log|) && End(s.core) < |log|
    ensures Follows(s, New(s, End(s.core), consumer, timeout, log, env), log, env, limit)
    ensures End(New(s, End(s.core), consumer, timeout, log, env).s.core) == End(s.core) + 1
  {
    var b := New(s, End(s.core), consumer, timeout, log, env);
    assert s.dlq + [] == s.dlq;
    OneEvent(s, b, b.events[0], log, env, limit);
    WindowKept(s.core, b.events[0], limit, |log|);
  }

  lemma TakeOne(s: Snapshot, b: Step, next: nat, consumer: seq<byte>, timeout: nat, log: seq<Entry>, env: Env, limit: int)
    requires Follows(s, b, log, env, limit) && next == End(b.s.core) && next < |log|
    ensures var b' := Then(b, New(b.s, next, consumer, timeout, log, env));
            Follows(s, b', log, env, limit) && End(b'.s.core) == next + 1
  {
    assert Window(b.s.core, |log|);
    hide New, Follows, End, Window;
    NewFollows(b.s, consumer, timeout, log, env, limit);
    FollowsThen(s, b, New(b.s, next, consumer, timeout, log, env), log, env, limit);
  }

  /** Taking new messages is a run of first deliveries. */
  lemma {:induction false} TakeNewFollows(s: Snapshot, b: Step, next: nat, consumer: seq<byte>, max: nat, timeout: nat,
                                          log: seq<Entry>, env: Env, limit: int)
    requires Follows(s, b, log, env, limit) && next == End(b.s.core)
    ensures Follows(s, TakeNew(b, next, consumer, max, timeout, log, env), log, env, limit)
    decreases |log| - next
  {
    hide New, Follows, End, Then, Reads;
    if next < |log| && |b.sent| < max && Reads(log, env, next) {
      TakeOne(s, b, next, consumer, timeout, log, env, limit);
      TakeNewFollows(s, Then(b, New(b.s, next, consumer, timeout, log, env)), next + 1,
                     consumer, max, timeout, log, env, limit);
    }
  }

  /** A fetch is a legal history of the lease protocol. */
  lemma FetchFollows(s: Snapshot, consumer: seq<byte>, max: nat, timeout: nat, log: seq<Entry>, env: Env, limit: int)
    requires Window(s.core, |log|)
    ensures Follows(s, DoFetch(s, consumer, max, timeout, log, env, limit), log, env, limit)
  {
    hide RedeliverAll, TakeNew, AllExpired, Increasing, ExpiredSet;
    var expired := Ascending(ExpiredSet(s.core, env.now));
    NothingDone(s, log, env, limit);
    ExpiredAscending(s.core, env.now);
    RedeliverAllFollows(s, Step(s, [], []), expired, consumer, max, timeout, log, env, limit);
    var b := RedeliverAll(Step(s, [], []), expired, consumer, max, timeout, log, env, limit);
    TakeNewFollows(s, b, End(b.s.core), consumer, max, timeout, log, env, limit);
  }

  /** So is a lease check. */
  lemma ExpireFollows(s: Snapshot, log: seq<Entry>, env: Env, limit: int)
    requires Window(s.core, |log|)
    ensures Follows(s, DoExpire(s, log, env, limit), log, env, limit)
  {
    hide Redeliver, ExpiredSet;
    NothingDone(s, log, env, limit);
    ExpiredAscending(s.core, env.now);
    var expired := Ascending(ExpiredSet(s.core, env.now));
    if s.waiters != [] && expired != [] {
      var w := s.waiters[0];
      RedeliverFollows(s.(waiters := s.waiters[1..]), expired[0], w.consumer, w.ackTimeout, log, env, limit);
    }
  }
}
