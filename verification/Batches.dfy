/** What a fetch hands out: the shape of a batch, and that nothing deliverable is left behind. */
module Batches {
  import opened Bytes
  import opened Records
  import opened Leases
  import opened Deliveries
  import opened Sorting
  import opened Group

  /** Redelivering does not move the end of the window. */
  lemma {:induction false} RedeliverAllEnd(b: Step, offsets: seq<nat>, consumer: seq<byte>, max: nat, timeout: nat,
                                           log: seq<Entry>, env: Env, limit: int)
    requires Window(b.s.core, |log|)
    requires Increasing(offsets) && AllExpired(b.s.core, offsets, env.now)
    ensures var r := RedeliverAll(b, offsets, consumer, max, timeout, log, env, limit);
            Window(r.s.core, |log|) && End(r.s.core) == End(b.s.core)
    decreases |offsets|
  {
    if offsets != [] && |b.sent| < max {
      var o := offsets[0];
      assert Expired(b.s.core, o, env.now);
      var step := Redeliver(b.s, o, consumer, timeout, log, env, limit);
      RedeliverEnd(b.s, o, consumer, timeout, log, env, limit);
      NothingDone(b.s, log, env, limit);
      NextTurn(b.s, Step(b.s, [], []), offsets, consumer, timeout, log, env, limit);
      hide Redeliver, Window, End, Expired;
      RedeliverAllEnd(Then(b, step), offsets[1..], consumer, max, timeout, log, env, limit);
    }
  }

  lemma RedeliverEnd(s: Snapshot, o: nat, consumer: seq<byte>, timeout: nat, log: seq<Entry>, env: Env, limit: int)
    requires Window(s.core, |log|) && Expired(s.core, o, env.now)
    ensures var t := Redeliver(s, o, consumer, timeout, log, env, limit).s.core;
            Window(t, |log|) && End(t) == End(s.core)
  {
    hide Retire;
    RedeliverFollows(s, o, consumer, timeout, log, env, limit);
    if s.core.leases[o].redeliveries >= limit {
      RetireKeeps(s.core, o, |log|);
    } else {
      SameKeysEnd(s.core, Redeliver(s, o, consumer, timeout, log, env, limit).s.core);
    }
  }

  // ---------------------------------------------------------------- the redelivered part

  ghost predicate AllLeased(c: Core, offsets: seq<nat>)
  {
    forall i :: 0 <= i < |offsets| ==> offsets[i] in c.leases
  }

  /** What becomes of an expired offset, judged by its lease before the fetch. */
  function Turn(c: Core, o: nat, consumer: seq<byte>, timeout: nat, log: seq<Entry>, env: Env, limit: int): seq<Event>
    requires o in c.leases
  {
    if c.leases[o].redeliveries >= limit then [Dead(o, env.now, Reads(log, env, o) && o !in env.dlqDown)]
    else if Reads(log, env, o) then [Deliver(o, consumer, env.now, env.now + timeout)]
    else []
  }

  ghost function TurnsOf(c: Core, offsets: seq<nat>, consumer: seq<byte>, timeout: nat,
                         log: seq<Entry>, env: Env, limit: int): seq<Event>
    requires AllLeased(c, offsets)
  {
    if offsets == [] then [] else
      Turn(c, offsets[0], consumer, timeout, log, env, limit)
      + TurnsOf(c, offsets[1..], consumer, timeout, log, env, limit)
  }

  lemma {:induction false} TurnsSame(c: Core, d: Core, offsets: seq<nat>, consumer: seq<byte>, timeout: nat,
                                     log: seq<Entry>, env: Env, limit: int)
    requires AllLeased(c, offsets) && AllLeased(d, offsets)
    requires forall i :: 0 <= i < |offsets| ==> c.leases[offsets[i]] == d.leases[offsets[i]]
    ensures TurnsOf(c, offsets, consumer, timeout, log, env, limit)
         == TurnsOf(d, offsets, consumer, timeout, log, env, limit)
  {
    if offsets != [] {
      TurnsSame(c, d, offsets[1..], consumer, timeout, log, env, limit);
    }
  }

  lemma RedeliverIsTurn(s: Snapshot, o: nat, consumer: seq<byte>, timeout: nat, log: seq<Entry>, env: Env, limit: int)
    requires o in s.core.leases
    ensures Redeliver(s, o, consumer, timeout, log, env, limit).events
         == Turn(s.core, o, consumer, timeout, log, env, limit)
    ensures |Redeliver(s, o, consumer, timeout, log, env, limit).sent| <= 1
  {
    hide Retire;
  }

  /** Taking one turn leaves the other offsets' leases, and so what becomes of them, as they are. */
  lemma OneTurn(s: Snapshot, offsets: seq<nat>, consumer: seq<byte>, timeout: nat, log: seq<Entry>, env: Env, limit: int)
    requires Window(s.core, |log|)
    requires offsets != [] && Increasing(offsets) && AllExpired(s.core, offsets, env.now)
    ensures offsets[0] in s.core.leases && Increasing(offsets[1..])
    ensures var c := Redeliver(s, offsets[0], consumer, timeout, log, env, limit).s.core;
            && Window(c, |log|) && AllExpired(c, offsets[1..], env.now)
            && forall i :: 0 <= i < |offsets[1..]| ==>
                 offsets[1..][i] in s.core.leases && offsets[1..][i] in c.leases
                 && c.leases[offsets[1..][i]] == s.core.leases[offsets[1..][i]]
  {
    var o := offsets[0];
    assert Expired(s.core, o, env.now);
    hide Redeliver, Window;
    RedeliverEnd(s, o, consumer, timeout, log, env, limit);
    forall i | 0 <= i < |offsets[1..]|
      ensures var p := offsets[1..][i];
              var c := Redeliver(s, o, consumer, timeout, log, env, limit).s.core;
              Expired(s.core, p, env.now) && Expired(c, p, env.now) && c.leases[p] == s.core.leases[p]
    {
      assert offsets[1..][i] == offsets[i + 1];
      RedeliverLeavesOthers(s, o, consumer, timeout, log, env, limit, offsets[i + 1]);
    }
  }

  lemma LeasedPrefix(c: Core, offsets: seq<nat>, now: int, m: nat)
    requires AllExpired(c, offsets, now) && m <= |offsets|
    ensures AllLeased(c, offsets[..m])
  {
    forall i | 0 <= i < m
      ensures offsets[..m][i] in c.leases
    {
      assert Expired(c, offsets[i], now);
    }
  }

  /** The redelivery loop in closed form: it takes offset after offset from the front, and what becomes of each is
    decided by the lease it had at the start, however the window slides on the way. It never sends more than
    the batch takes, and ends early only when the batch is full. */
  lemma {:induction false} RedeliverAllExactly(b: Step, offsets: seq<nat>, consumer: seq<byte>, max: nat, timeout: nat,
                                               log: seq<Entry>, env: Env, limit: int)
    requires Window(b.s.core, |log|)
    requires Increasing(offsets) && AllExpired(b.s.core, offsets, env.now)
    ensures var r := RedeliverAll(b, offsets, consumer, max, timeout, log, env, limit);
            var m := Turns(b, offsets, consumer, max, timeout, log, env, limit);
            && AllLeased(b.s.core, offsets[..m])
            && r.events == b.events + TurnsOf(b.s.core, offsets[..m], consumer, timeout, log, env, limit)
            && (m < |offsets| ==> |r.sent| >= max)
            && (|b.sent| <= max ==> |r.sent| <= max)
    decreases |offsets|
  {
    if offsets == [] || |b.sent| >= max {
      assert b.events + [] == b.events;
    } else {
      var step := Redeliver(b.s, offsets[0], consumer, timeout, log, env, limit);
      OneTurn(b.s, offsets, consumer, timeout, log, env, limit);
      RedeliverIsTurn(b.s, offsets[0], consumer, timeout, log, env, limit);
      var t := Then(b, step);
      hide Redeliver, Turn, Window, Expired, AllExpired, Increasing;
      RedeliverAllExactly(t, offsets[1..], consumer, max, timeout, log, env, limit);
      var m := Turns(t, offsets[1..], consumer, max, timeout, log, env, limit);
      LeasedPrefix(b.s.core, offsets, env.now, m + 1);
      LeasedPrefix(t.s.core, offsets[1..], env.now, m);
      assert offsets[..m + 1][0] == offsets[0] && offsets[..m + 1][1..] == offsets[1..][..m];
      TurnsSame(t.s.core, b.s.core, offsets[1..][..m], consumer, timeout, log, env, limit);
      Regroup(b.events, step.events, TurnsOf(b.s.core, offsets[1..][..m], consumer, timeout, log, env, limit));
    }
  }

  // ---------------------------------------------------------------- the new part

  function Min(a: int, b: int): int
  {
    if a < b then a else b
  }

  /** The first offset from `o` on that cannot be read: the end of the log, if nothing in between is unreadable. */
  function ReadableTo(o: nat, log: seq<Entry>, env: Env): (r: nat)
    ensures o <= r && (o < r ==> r <= |log|)
    ensures !Reads(log, env, r)
    ensures forall p :: o <= p < r ==> Reads(log, env, p)
    decreases |log| - o
  {
    if Reads(log, env, o) then ReadableTo(o + 1, log, env) else o
  }

  /** The messages at `k` consecutive offsets from `next` on. */
  function Consecutive(next: nat, k: nat, log: seq<Entry>): (ms: seq<Message>)
    requires k == 0 || next + k <= |log|
    ensures |ms| == k
    ensures forall i :: 0 <= i < k ==> ms[i] == Message(next + i, log[next + i])
  {
    seq(k, i requires 0 <= i < k => Message(next + i, log[next + i]))
  }

  /** The first deliveries of `k` consecutive offsets from `next` on. */
  function NewOnes(next: nat, k: nat, consumer: seq<byte>, timeout: nat, env: Env): (h: seq<Event>)
    ensures |h| == k
    ensures forall i :: 0 <= i < k ==> h[i] == Deliver(next + i, consumer, env.now, env.now + timeout)
  {
    seq(k, i requires 0 <= i < k => Deliver(next + i, consumer, env.now, env.now + timeout))
  }

  /** How many new messages a batch takes: as many as are left to read and fit. */
  function NewCount(sent: nat, next: nat, max: nat, log: seq<Entry>, env: Env): (k: nat)
    ensures k == 0 || next + k <= |log|
  {
    if sent >= max then 0 else Min(max - sent, ReadableTo(next, log, env) - next)
  }

  lemma NewOneMore(sent: nat, next: nat, max: nat, log: seq<Entry>, env: Env)
    requires next < |log| && sent < max && Reads(log, env, next)
    ensures NewCount(sent, next, max, log, env) == 1 + NewCount(sent + 1, next + 1, max, log, env)
  {
  }

  lemma ConsecutiveCons(next: nat, k: nat, consumer: seq<byte>, timeout: nat, log: seq<Entry>, env: Env)
    requires next + 1 + k <= |log|
    ensures [Message(next, log[next])] + Consecutive(next + 1, k, log) == Consecutive(next, k + 1, log)
    ensures [Deliver(next, consumer, env.now, env.now + timeout)] + NewOnes(next + 1, k, consumer, timeout, env)
         == NewOnes(next, k + 1, consumer, timeout, env)
  {
  }

  /** The loop over new messages in closed form. */
  lemma {:induction false} TakeNewExactly(b: Step, next: nat, consumer: seq<byte>, max: nat, timeout: nat,
                                          log: seq<Entry>, env: Env)
    ensures var r := TakeNew(b, next, consumer, max, timeout, log, env);
            var k := NewCount(|b.sent|, next, max, log, env);
            && r.sent == b.sent + Consecutive(next, k, log)
            && r.events == b.events + NewOnes(next, k, consumer, timeout, env)
    decreases |log| - next
  {
    if next < |log| && |b.sent| < max && Reads(log, env, next) {
      var step := New(b.s, next, consumer, timeout, log, env);
      var t := Then(b, step);
      TakeNewExactly(t, next + 1, consumer, max, timeout, log, env);
      NewOneMore(|b.sent|, next, max, log, env);
      hide NewCount, ReadableTo, Reads, TakeNew, Consecutive, NewOnes;
      var k := NewCount(|b.sent| + 1, next + 1, max, log, env);
      ConsecutiveCons(next, k, consumer, timeout, log, env);
      Regroup(b.sent, step.sent, Consecutive(next + 1, k, log));
      Regroup(b.events, step.events, NewOnes(next + 1, k, consumer, timeout, env));
    }
  }

  // ---------------------------------------------------------------- the batch

  /** A fetch in closed form, whatever its maximum and whatever cannot be read. It goes through the first `m` of
    the expired offsets, all of them unless the batch is full before; what becomes of each is decided by the
    lease it had before the fetch. Then come the new messages from the end of the window on, as many as are left
    to read and fit. */
  lemma FetchExactly(s: Snapshot, consumer: seq<byte>, max: nat, timeout: nat, log: seq<Entry>, env: Env, limit: int)
    returns (m: nat, k: nat)
    requires Window(s.core, |log|)
    ensures var expired := Ascending(ExpiredSet(s.core, env.now));
            var r := DoFetch(s, consumer, max, timeout, log, env, limit);
            && m <= |expired| && AllLeased(s.core, expired[..m])
            && r.events == TurnsOf(s.core, expired[..m], consumer, timeout, log, env, limit)
                           + NewOnes(End(s.core), k, consumer, timeout, env)
            && r.sent == SentBy(r.events, log)
            && k <= |r.sent| <= max
            && (m < |expired| ==> |r.sent| == max && k == 0)
            && k == NewCount(|r.sent| - k, End(s.core), max, log, env)
  {
    var expired := Ascending(ExpiredSet(s.core, env.now));
    ExpiredAscending(s.core, env.now);
    FetchFollows(s, consumer, max, timeout, log, env, limit);
    var b0 := Step(s, [], []);
    var b := RedeliverAll(b0, expired, consumer, max, timeout, log, env, limit);
    m := Turns(b0, expired, consumer, max, timeout, log, env, limit);
    hide RedeliverAll, TakeNew, TurnsOf, ExpiredSet, Window, NewCount, LegalRun, Replay, SentBy, CopiedBy, AllTruthful,
      End, AllLeased;
    RedeliverAllEnd(b0, expired, consumer, max, timeout, log, env, limit);
    RedeliverAllExactly(b0, expired, consumer, max, timeout, log, env, limit);
    assert [] + TurnsOf(s.core, expired[..m], consumer, timeout, log, env, limit)
        == TurnsOf(s.core, expired[..m], consumer, timeout, log, env, limit);
    k := NewCount(|b.sent|, End(s.core), max, log, env);
    TakeNewExactly(b, End(s.core), consumer, max, timeout, log, env);
    NewFits(|b.sent|, End(s.core), max, log, env);
  }

  lemma NewFits(sent: nat, next: nat, max: nat, log: seq<Entry>, env: Env)
    ensures var k := NewCount(sent, next, max, log, env);
            && (sent <= max ==> sent + k <= max)
            && (sent >= max ==> k == 0)
            && (sent + k < max ==> next + k == ReadableTo(next, log, env))
  {
  }

  lemma {:induction false} TakeNewEnd(b: Step, next: nat, consumer: seq<byte>, max: nat, timeout: nat,
                                      log: seq<Entry>, env: Env, limit: int)
    requires Window(b.s.core, |log|) && next == End(b.s.core)
    ensures var r := TakeNew(b, next, consumer, max, timeout, log, env);
            End(r.s.core) == next + NewCount(|b.sent|, next, max, log, env)
    decreases |log| - next
  {
    if next < |log| && |b.sent| < max && Reads(log, env, next) {
      var step := New(b.s, next, consumer, timeout, log, env);
      NewFollows(b.s, consumer, timeout, log, env, limit);
      NewOneMore(|b.sent|, next, max, log, env);
      hide Window, End, NewCount, LegalRun, Replay, SentBy, CopiedBy, ReadableTo, Truthful;
      TakeNewEnd(Then(b, step), next + 1, consumer, max, timeout, log, env, limit);
    }
  }

  /** A fetch never moves the end of the window past a record that cannot be read. */
  lemma FetchEnd(s: Snapshot, consumer: seq<byte>, max: nat, timeout: nat, log: seq<Entry>, env: Env, limit: int)
    requires Window(s.core, |log|)
    ensures End(DoFetch(s, consumer, max, timeout, log, env, limit).s.core) <= ReadableTo(End(s.core), log, env)
  {
    var expired := Ascending(ExpiredSet(s.core, env.now));
    ExpiredAscending(s.core, env.now);
    hide RedeliverAll, TakeNew, ExpiredSet, Window, End;
    var b0 := Step(s, [], []);
    RedeliverAllEnd(b0, expired, consumer, max, timeout, log, env, limit);
    var b := RedeliverAll(b0, expired, consumer, max, timeout, log, env, limit);
    TakeNewEnd(b, End(s.core), consumer, max, timeout, log, env, limit);
    assert NewCount(|b.sent|, End(s.core), max, log, env) <= ReadableTo(End(s.core), log, env) - End(s.core);
  }

  // ---------------------------------------------------------------- who is served

  predicate SentIn(ms: seq<Message>, o: nat)
  {
    exists i :: 0 <= i < |ms| && ms[i].offset == o
  }

  predicate DeadIn(h: seq<Event>, o: nat)
  {
    exists i :: 0 <= i < |h| && h[i].Dead? && h[i].o == o
  }

  /** The step sends the message or gives it up. */
  predicate Handled(b: Step, o: nat)
  {
    SentIn(b.sent, o) || DeadIn(b.events, o)
  }

  /** The offset is due: an expired lease that is to be given up or can be read, or a new message with nothing
    unreadable before it. */
  predicate Due(c: Core, o: nat, log: seq<Entry>, env: Env, limit: int)
  {
    || (Expired(c, o, env.now) && (c.leases[o].redeliveries >= limit || Reads(log, env, o)))
    || End(c) <= o < ReadableTo(End(c), log, env)
  }

  lemma InAppend(h: seq<Event>, g: seq<Event>, o: nat)
    ensures DeliveredIn(h + g, o) <==> DeliveredIn(h, o) || DeliveredIn(g, o)
    ensures DeadIn(h + g, o) <==> DeadIn(h, o) || DeadIn(g, o)
  {
    var hg := h + g;
    assert forall i :: 0 <= i < |h| ==> hg[i] == h[i];
    assert forall i :: 0 <= i < |g| ==> g[i] == hg[|h| + i];
    if DeliveredIn(hg, o) {
      var i :| 0 <= i < |hg| && Delivers(hg[i], o);
      assert if i < |h| then Delivers(h[i], o) else Delivers(g[i - |h|], o);
    }
    if DeadIn(hg, o) {
      var i :| 0 <= i < |hg| && hg[i].Dead? && hg[i].o == o;
      assert if i < |h| then h[i].Dead? && h[i].o == o else g[i - |h|].Dead? && g[i - |h|].o == o;
    }
  }

  lemma {:induction false} SentAreDelivered(h: seq<Event>, log: seq<Entry>, o: nat)
    ensures SentIn(SentBy(h, log), o) <==> DeliveredIn(h, o) && o < |log|
  {
    if h != [] {
      var n := |h| - 1;
      SentAreDelivered(h[..n], log, o);
      DeliveredSnoc(h, o);
      var front, last := SentBy(h[..n], log), SentOf(h[n], log);
      assert SentBy(h, log) == front + last;
      assert forall i :: 0 <= i < |front| ==> (front + last)[i] == front[i];
      assert last != [] ==> (front + last)[|front|] == last[0];
    }
  }

  lemma TurnHolds(c: Core, p: nat, consumer: seq<byte>, timeout: nat, log: seq<Entry>, env: Env, limit: int, o: nat)
    requires p in c.leases
    ensures var h := Turn(c, p, consumer, timeout, log, env, limit);
            && (DeliveredIn(h, o) <==> o == p && c.leases[o].redeliveries < limit && Reads(log, env, o))
            && (DeadIn(h, o) <==> o == p && c.leases[o].redeliveries >= limit)
  {
    var h := Turn(c, p, consumer, timeout, log, env, limit);
    if h != [] {
      assert h == [h[0]];
      assert h[0].Deliver? ==> Delivers(h[0], p);
    }
  }

  lemma {:induction false} TurnsHold(c: Core, offsets: seq<nat>, consumer: seq<byte>, timeout: nat,
                                     log: seq<Entry>, env: Env, limit: int, o: nat)
    requires AllLeased(c, offsets)
    ensures var h := TurnsOf(c, offsets, consumer, timeout, log, env, limit);
            && (o in offsets ==> o in c.leases)
            && (DeliveredIn(h, o) <==> o in offsets && c.leases[o].redeliveries < limit && Reads(log, env, o))
            && (DeadIn(h, o) <==> o in offsets && c.leases[o].redeliveries >= limit)
  {
    if offsets != [] {
      hide Turn, Reads;
      var p := offsets[0];
      assert o in offsets <==> o == p || o in offsets[1..];
      TurnHolds(c, p, consumer, timeout, log, env, limit, o);
      TurnsHold(c, offsets[1..], consumer, timeout, log, env, limit, o);
      hide DeliveredIn, DeadIn;
      InAppend(Turn(c, p, consumer, timeout, log, env, limit),
               TurnsOf(c, offsets[1..], consumer, timeout, log, env, limit), o);
    }
  }

  lemma NewHold(next: nat, k: nat, consumer: seq<byte>, timeout: nat, env: Env, o: nat)
    ensures var h := NewOnes(next, k, consumer, timeout, env);
            (DeliveredIn(h, o) <==> next <= o < next + k) && !DeadIn(h, o)
  {
    var h := NewOnes(next, k, consumer, timeout, env);
    if next <= o < next + k {
      assert Delivers(h[o - next], o);
    }
  }

  /** Which offsets a fetch sends and which it gives up. */
  lemma FetchHolds(s: Snapshot, consumer: seq<byte>, max: nat, timeout: nat, log: seq<Entry>, env: Env, limit: int,
                   m: nat, k: nat, o: nat)
    requires m <= |Ascending(ExpiredSet(s.core, env.now))|
    requires AllLeased(s.core, Ascending(ExpiredSet(s.core, env.now))[..m])
    requires k == 0 || End(s.core) + k <= |log|
    requires var expired := Ascending(ExpiredSet(s.core, env.now));
             var r := DoFetch(s, consumer, max, timeout, log, env, limit);
             && r.events == TurnsOf(s.core, expired[..m], consumer, timeout, log, env, limit)
                           + NewOnes(End(s.core), k, consumer, timeout, env)
             && r.sent == SentBy(r.events, log)
    ensures var expired := Ascending(ExpiredSet(s.core, env.now));
            var r := DoFetch(s, consumer, max, timeout, log, env, limit);
            && (o in expired[..m] ==> o in s.core.leases)
            && (SentIn(r.sent, o) <==>
                  (o in expired[..m] && s.core.leases[o].redeliveries < limit && Reads(log, env, o))
                  || End(s.core) <= o < End(s.core) + k)
            && (DeadIn(r.events, o) <==> o in expired[..m] && s.core.leases[o].redeliveries >= limit)
  {
    hide DoFetch, TurnsOf, ExpiredSet, Window, SentBy, SentIn, DeadIn, DeliveredIn, End, NewOnes, AllLeased;
    var expired := Ascending(ExpiredSet(s.core, env.now));
    var r := DoFetch(s, consumer, max, timeout, log, env, limit);
    TurnsHold(s.core, expired[..m], consumer, timeout, log, env, limit, o);
    NewHold(End(s.core), k, consumer, timeout, env, o);
    InAppend(TurnsOf(s.core, expired[..m], consumer, timeout, log, env, limit),
             NewOnes(End(s.core), k, consumer, timeout, env), o);
    SentAreDelivered(r.events, log, o);
  }

  lemma ExpiredListed(c: Core, now: int, o: nat)
    ensures o in Ascending(ExpiredSet(c, now)) <==> Expired(c, o, now)
  {
  }

  lemma InPrefix(a: seq<nat>, m: nat, p: nat)
    requires m <= |a|
    ensures p in a[..m] ==> p in a
    ensures m == |a| && p in a ==> p in a[..m]
  {
    assert m == |a| ==> a[..m] == a;
  }

  /** Whom a fetch serves, whatever its maximum: only offsets that are due, and all of them unless the batch is full;
    what it serves is given up rather than sent exactly if its lease has had its redeliveries. */
  lemma FetchHandles(s: Snapshot, consumer: seq<byte>, max: nat, timeout: nat, log: seq<Entry>, env: Env, limit: int,
                     o: nat)
    requires Window(s.core, |log|)
    ensures var r := DoFetch(s, consumer, max, timeout, log, env, limit);
            && (Handled(r, o) ==> Due(s.core, o, log, env, limit))
            && (Due(s.core, o, log, env, limit) ==> Handled(r, o) || |r.sent| == max)
            && (DeadIn(r.events, o) <==>
                  Handled(r, o) && o in s.core.leases && s.core.leases[o].redeliveries >= limit)
            && |r.sent| <= max
  {
    var m, k := FetchExactly(s, consumer, max, timeout, log, env, limit);
    NewFits(|DoFetch(s, consumer, max, timeout, log, env, limit).sent| - k, End(s.core), max, log, env);
    FetchHolds(s, consumer, max, timeout, log, env, limit, m, k, o);
    hide DoFetch, ExpiredSet, SentIn, DeadIn, ReadableTo, Reads;
    ExpiredListed(s.core, env.now, o);
    InPrefix(Ascending(ExpiredSet(s.core, env.now)), m, o);
  }

  lemma EarlierInPrefix(a: seq<nat>, m: nat, p: nat, o: nat)
    requires Increasing(a) && m <= |a| && p in a && o in a[..m] && p < o
    ensures p in a[..m]
  {
    var i :| 0 <= i < |a| && a[i] == p;
    var j :| 0 <= j < m && a[j] == o;
    assert i < j;
    assert a[..m][i] == p;
  }

  /** Due offsets are served in order: none is passed over for a later one. */
  lemma FetchInOrder(s: Snapshot, consumer: seq<byte>, max: nat, timeout: nat, log: seq<Entry>, env: Env, limit: int,
                     p: nat, o: nat)
    requires Window(s.core, |log|)
    requires p < o && Due(s.core, p, log, env, limit)
    requires Handled(DoFetch(s, consumer, max, timeout, log, env, limit), o)
    ensures Handled(DoFetch(s, consumer, max, timeout, log, env, limit), p)
  {
    var expired := Ascending(ExpiredSet(s.core, env.now));
    ExpiredAscending(s.core, env.now);
    var m, k := FetchExactly(s, consumer, max, timeout, log, env, limit);
    FetchHolds(s, consumer, max, timeout, log, env, limit, m, k, o);
    FetchHolds(s, consumer, max, timeout, log, env, limit, m, k, p);
    hide DoFetch, ExpiredSet, SentIn, DeadIn, ReadableTo, Reads;
    ExpiredListed(s.core, env.now, p);
    ExpiredListed(s.core, env.now, o);
    InPrefix(expired, m, o);
    InPrefix(expired, m, p);
    if p in expired && o in expired[..m] {
      EarlierInPrefix(expired, m, p, o);
    }
  }

  /** With room for one message, the first due offset is served: redelivery cannot be put off for ever. */
  lemma FirstDueIsHandled(s: Snapshot, consumer: seq<byte>, max: nat, timeout: nat, log: seq<Entry>, env: Env, limit: int,
                          o: nat)
    requires Window(s.core, |log|) && max > 0
    requires Due(s.core, o, log, env, limit) && forall p: nat :: p < o ==> !Due(s.core, p, log, env, limit)
    ensures Handled(DoFetch(s, consumer, max, timeout, log, env, limit), o)
  {
    hide DoFetch, Due, Window;
    var r := DoFetch(s, consumer, max, timeout, log, env, limit);
    FetchHandles(s, consumer, max, timeout, log, env, limit, o);
    if !Handled(r, o) {
      var p := r.sent[0].offset;
      assert SentIn(r.sent, p);
      FetchHandles(s, consumer, max, timeout, log, env, limit, p);
      FetchInOrder(s, consumer, max, timeout, log, env, limit, o, p);
    }
  }

  /** Progress: a fetch of at least one message sends or gives up the message at the committed offset, the one the
    window waits for, if it can be read and nobody holds a lease on it. */
  lemma CommittedIsHandled(s: Snapshot, consumer: seq<byte>, max: nat, timeout: nat, log: seq<Entry>, env: Env, limit: int)
    requires Window(s.core, |log|) && max > 0
    requires Reads(log, env, s.core.committed)
    requires s.core.committed in s.core.leases ==> Expired(s.core, s.core.committed, env.now)
    ensures Handled(DoFetch(s, consumer, max, timeout, log, env, limit), s.core.committed)
  {
    var c := s.core.committed;
    assert c !in s.core.leases ==> End(s.core) == c;
    assert Due(s.core, c, log, env, limit);
    forall p | p < c
      ensures !Due(s.core, p, log, env, limit)
    {
      assert p !in s.core.leases;
    }
    hide DoFetch, Due, Window;
    FirstDueIsHandled(s, consumer, max, timeout, log, env, limit, c);
  }

  /** No produced message is stuck, in any state the window allows and for any size of batch: one that is neither
    retired nor validly leased is sent or given up, unless the batch is full, or its record cannot be read, or
    it is new and a record before it cannot be read. */
  lemma NothingStuck(s: Snapshot, consumer: seq<byte>, max: nat, timeout: nat, log: seq<Entry>, env: Env, limit: int, o: nat)
    requires Window(s.core, |log|)
    requires o < |log| && !Retired(s.core, o) && (o in s.core.leases ==> Expired(s.core, o, env.now))
    ensures var r := DoFetch(s, consumer, max, timeout, log, env, limit);
            || Handled(r, o)
            || |r.sent| == max
            || o in env.unreadable
            || exists p :: End(s.core) <= p < o && p in env.unreadable
  {
    hide DoFetch;
    FetchHandles(s, consumer, max, timeout, log, env, limit, o);
    if !Due(s.core, o, log, env, limit) && o !in env.unreadable {
      var p := ReadableTo(End(s.core), log, env);
      assert End(s.core) <= p < o && p in env.unreadable;
    }
  }

  // ---------------------------------------------------------------- the order of a batch

  /** Messages with increasing offsets taken from `offsets`, each with the record of its offset. */
  ghost predicate Picked(ms: seq<Message>, offsets: seq<nat>, log: seq<Entry>)
  {
    && (forall i :: 0 <= i < |ms| ==>
          ms[i].offset in offsets && ms[i].offset < |log| && ms[i].entry == log[ms[i].offset])
    && OffsetsIncrease(ms)
  }

  ghost predicate OffsetsIncrease(ms: seq<Message>)
  {
    forall i, j :: 0 <= i < j < |ms| ==> ms[i].offset < ms[j].offset
  }

  lemma PickedMore(ms: seq<Message>, offsets: seq<nat>, log: seq<Entry>)
    requires offsets != [] && Increasing(offsets) && Picked(ms, offsets[1..], log)
    ensures Picked(ms, offsets, log)
    ensures offsets[0] < |log| ==> Picked([Message(offsets[0], log[offsets[0]])] + ms, offsets, log)
  {
    forall x | x in offsets[1..]
      ensures x in offsets && offsets[0] < x
    {
      var i :| 0 <= i < |offsets[1..]| && offsets[1..][i] == x;
      assert offsets[i + 1] == x;
    }
  }

  lemma TurnSends(c: Core, o: nat, consumer: seq<byte>, timeout: nat, log: seq<Entry>, env: Env, limit: int)
    requires o in c.leases
    ensures var sent := SentBy(Turn(c, o, consumer, timeout, log, env, limit), log);
            sent == [] || (o < |log| && sent == [Message(o, log[o])])
  {
    var h := Turn(c, o, consumer, timeout, log, env, limit);
    if h != [] {
      assert h[..0] == [];
      assert SentBy(h, log) == SentBy(h[..0], log) + SentOf(h[0], log);
    }
  }

  lemma {:induction false} TurnsSend(c: Core, offsets: seq<nat>, consumer: seq<byte>, timeout: nat,
                                     log: seq<Entry>, env: Env, limit: int)
    requires AllLeased(c, offsets) && Increasing(offsets)
    ensures Picked(SentBy(TurnsOf(c, offsets, consumer, timeout, log, env, limit), log), offsets, log)
  {
    if offsets != [] {
      hide Turn, Picked, SentBy;
      var o := offsets[0];
      var rest := TurnsOf(c, offsets[1..], consumer, timeout, log, env, limit);
      TurnsSend(c, offsets[1..], consumer, timeout, log, env, limit);
      TurnSends(c, o, consumer, timeout, log, env, limit);
      SentAppend(Turn(c, o, consumer, timeout, log, env, limit), rest, log);
      PickedMore(SentBy(rest, log), offsets, log);
      assert [] + SentBy(rest, log) == SentBy(rest, log);
    } else {
      assert SentBy([], log) == [];
    }
  }

  lemma {:induction false} NewSend(next: nat, k: nat, consumer: seq<byte>, timeout: nat, log: seq<Entry>, env: Env)
    requires k == 0 || next + k <= |log|
    ensures SentBy(NewOnes(next, k, consumer, timeout, env), log) == Consecutive(next, k, log)
  {
    if k > 0 {
      NewSend(next, k - 1, consumer, timeout, log, env);
      assert NewOnes(next, k, consumer, timeout, env)[..k - 1] == NewOnes(next, k - 1, consumer, timeout, env);
      assert Consecutive(next, k, log) == Consecutive(next, k - 1, log) + [Message(next + k - 1, log[next + k - 1])];
    }
  }

  lemma BatchIncreases(again: seq<Message>, offsets: seq<nat>, end: nat, k: nat, log: seq<Entry>)
    requires Picked(again, offsets, log) && (forall o :: o in offsets ==> o < end)
    requires k == 0 || end + k <= |log|
    ensures OffsetsIncrease(again + Consecutive(end, k, log))
  {
  }

  lemma ExpiredBelowEnd(c: Core, now: int, len: nat, m: nat)
    requires Window(c, len) && m <= |Ascending(ExpiredSet(c, now))|
    ensures forall o :: o in Ascending(ExpiredSet(c, now))[..m] ==> o < End(c)
    ensures Increasing(Ascending(ExpiredSet(c, now))[..m])
  {
    var a := Ascending(ExpiredSet(c, now));
    forall o | o in a[..m]
      ensures o < End(c)
    {
      InPrefix(a, m, o);
      assert Expired(c, o, now);
    }
  }

  /** A batch has at most `max` messages: some of the first `m` expired leases, then `k` new messages without a gap
    from the end of the window on, offsets increasing strictly throughout, every message with the record of its
    offset. Only a full batch stops among the expired leases, or before the log ends or a record cannot be read. */
  lemma FetchBatch(s: Snapshot, consumer: seq<byte>, max: nat, timeout: nat, log: seq<Entry>, env: Env, limit: int)
    returns (again: seq<Message>, m: nat, k: nat)
    requires Window(s.core, |log|)
    ensures var expired := Ascending(ExpiredSet(s.core, env.now));
            m <= |expired| && Picked(again, expired[..m], log) && (m < |expired| ==> |again| == max && k == 0)
    ensures k == NewCount(|again|, End(s.core), max, log, env)
    ensures var sent := DoFetch(s, consumer, max, timeout, log, env, limit).sent;
            && sent == again + Consecutive(End(s.core), k, log)
            && |sent| <= max && OffsetsIncrease(sent)
            && (|sent| < max ==> End(s.core) + k == ReadableTo(End(s.core), log, env))
  {
    m, k := FetchExactly(s, consumer, max, timeout, log, env, limit);
    ExpiredBelowEnd(s.core, env.now, |log|, m);
    var offsets := Ascending(ExpiredSet(s.core, env.now))[..m];
    var h := TurnsOf(s.core, offsets, consumer, timeout, log, env, limit);
    hide DoFetch, TurnsOf, ExpiredSet, Window, SentBy, End, NewOnes, AllLeased, ReadableTo, Picked, OffsetsIncrease;
    again := SentBy(h, log);
    TurnsSend(s.core, offsets, consumer, timeout, log, env, limit);
    NewSend(End(s.core), k, consumer, timeout, log, env);
    SentAppend(h, NewOnes(End(s.core), k, consumer, timeout, env), log);
    BatchIncreases(again, offsets, End(s.core), k, log);
    NewFits(|again|, End(s.core), max, log, env);
  }

  /** A fetch that finds nothing expired hands out the next messages, as many as can be read and fit. */
  lemma FetchOnlyNew(s: Snapshot, consumer: seq<byte>, max: nat, timeout: nat, log: seq<Entry>, env: Env, limit: int)
    requires Window(s.core, |log|) && ExpiredSet(s.core, env.now) == {}
    ensures var k := NewCount(0, End(s.core), max, log, env);
            var r := DoFetch(s, consumer, max, timeout, log, env, limit);
            && r.sent == Consecutive(End(s.core), k, log)
            && r.events == NewOnes(End(s.core), k, consumer, timeout, env)
  {
    NothingListed(Ascending({}), {});
    hide TakeNew, NewCount, End, Window;
    var b := Step(s, [], []);
    var k := NewCount(0, End(s.core), max, log, env);
    TakeNewExactly(b, End(s.core), consumer, max, timeout, log, env);
    assert [] + Consecutive(End(s.core), k, log) == Consecutive(End(s.core), k, log);
    assert [] + NewOnes(End(s.core), k, consumer, timeout, env) == NewOnes(End(s.core), k, consumer, timeout, env);
  }

  lemma {:induction false} ReplayNewOnes(c: Core, next: nat, k: nat, consumer: seq<byte>, timeout: nat, env: Env)
    ensures var d := Replay(c, NewOnes(next, k, consumer, timeout, env));
            && d.committed == c.committed
            && (forall p :: p in d.leases <==> p in c.leases || next <= p < next + k)
            && (forall p :: p in d.leases ==>
                  if next <= p < next + k then d.leases[p].expiry == env.now + timeout else d.leases[p] == c.leases[p])
  {
    if k > 0 {
      ReplayNewOnes(c, next, k - 1, consumer, timeout, env);
      assert NewOnes(next, k, consumer, timeout, env)[..k - 1] == NewOnes(next, k - 1, consumer, timeout, env);
    }
  }

  /** What such a fetch leaves behind: the window longer by the messages handed out, each leased until now plus the
    timeout. */
  lemma FetchOnlyNewLeaves(s: Snapshot, consumer: seq<byte>, max: nat, timeout: nat, log: seq<Entry>, env: Env, limit: int)
    requires Window(s.core, |log|) && ExpiredSet(s.core, env.now) == {}
    ensures var k := NewCount(0, End(s.core), max, log, env);
            var d := DoFetch(s, consumer, max, timeout, log, env, limit).s.core;
            && Window(d, |log|) && d.committed == s.core.committed && End(d) == End(s.core) + k
            && forall t :: t <= env.now + timeout && ExpiredSet(s.core, t) == {} ==> ExpiredSet(d, t) == {}
  {
    FetchOnlyNew(s, consumer, max, timeout, log, env, limit);
    FetchFollows(s, consumer, max, timeout, log, env, limit);
    var next := End(s.core);
    var k := NewCount(0, next, max, log, env);
    var d := DoFetch(s, consumer, max, timeout, log, env, limit).s.core;
    hide DoFetch, NewCount;
    ReplayNewOnes(s.core, next, k, consumer, timeout, env);
    EndOf(d, next + k);
    forall t | t <= env.now + timeout && ExpiredSet(s.core, t) == {}
      ensures ExpiredSet(d, t) == {}
    {
      assert forall o :: o in ExpiredSet(d, t) ==> o in ExpiredSet(s.core, t);
    }
  }

  /** After a restart the first fetch delivers the messages from the saved offset on, in order: as many as can be
    read and fit. */
  lemma RestartDelivers(s: Snapshot, consumer: seq<byte>, max: nat, timeout: nat, log: seq<Entry>, env: Env, limit: int)
    requires s.core == Start(s.saved)
    ensures var k := NewCount(0, s.saved, max, log, env);
            && DoFetch(s, consumer, max, timeout, log, env, limit).sent == Consecutive(s.saved, k, log)
            && (env.unreadable == {} && s.saved <= |log| ==> k == Min(max, |log| - s.saved))
  {
    NothingLeased(s.saved);
    assert ExpiredSet(s.core, env.now) == {};
    hide DoFetch, Consecutive, ExpiredSet;
    FetchOnlyNew(s, consumer, max, timeout, log, env, limit);
    var r := ReadableTo(s.saved, log, env);
    assert env.unreadable == {} && s.saved <= |log| ==> r == |log|;
  }

  // ---------------------------------------------------------------- the leases a fetch gives out

  /** Every delivery is of a record that can be read, to this consumer, now, until now plus the timeout; nothing else
    happens but give-ups, which copy what can be read and written to the dead-letter log. */
  ghost predicate Stamped(h: seq<Event>, consumer: seq<byte>, timeout: nat, log: seq<Entry>, env: Env)
  {
    forall i :: 0 <= i < |h| ==>
      (h[i].Deliver? && Reads(log, env, h[i].o)
        && h[i].consumer == consumer && h[i].at == env.now && h[i].expiry == env.now + timeout)
      || (h[i].Dead? && h[i].at == env.now && (h[i].copied <==> Reads(log, env, h[i].o) && h[i].o !in env.dlqDown))
  }

  lemma {:induction false} RedeliverAllStamps(b: Step, offsets: seq<nat>, consumer: seq<byte>, max: nat, timeout: nat,
                                              log: seq<Entry>, env: Env, limit: int)
    requires Increasing(offsets) && AllExpired(b.s.core, offsets, env.now)
    requires Stamped(b.events, consumer, timeout, log, env)
    ensures Stamped(RedeliverAll(b, offsets, consumer, max, timeout, log, env, limit).events, consumer, timeout, log, env)
    decreases |offsets|
  {
    if offsets != [] && |b.sent| < max {
      hide Retire, AllExpired, Increasing;
      NextExpired(b.s, offsets, consumer, timeout, log, env, limit);
      var step := Redeliver(b.s, offsets[0], consumer, timeout, log, env, limit);
      assert Stamped(step.events, consumer, timeout, log, env);
      RedeliverAllStamps(Then(b, step), offsets[1..], consumer, max, timeout, log, env, limit);
    }
  }

  lemma {:induction false} TakeNewStamps(b: Step, next: nat, consumer: seq<byte>, max: nat, timeout: nat,
                                         log: seq<Entry>, env: Env)
    requires Stamped(b.events, consumer, timeout, log, env)
    ensures Stamped(TakeNew(b, next, consumer, max, timeout, log, env).events, consumer, timeout, log, env)
    decreases |log| - next
  {
    if next < |log| && |b.sent| < max && Reads(log, env, next) {
      TakeNewStamps(Then(b, New(b.s, next, consumer, timeout, log, env)), next + 1, consumer, max, timeout, log, env);
    }
  }

  /** Every lease a fetch gives out is the fetching consumer's, from now for the timeout. */
  lemma FetchStamps(s: Snapshot, consumer: seq<byte>, max: nat, timeout: nat, log: seq<Entry>, env: Env, limit: int)
    ensures Stamped(DoFetch(s, consumer, max, timeout, log, env, limit).events, consumer, timeout, log, env)
  {
    hide RedeliverAll, TakeNew, ExpiredSet, AllExpired, Increasing;
    var expired := Ascending(ExpiredSet(s.core, env.now));
    ExpiredAscending(s.core, env.now);
    var b := RedeliverAll(Step(s, [], []), expired, consumer, max, timeout, log, env, limit);
    RedeliverAllStamps(Step(s, [], []), expired, consumer, max, timeout, log, env, limit);
    TakeNewStamps(b, End(b.s.core), consumer, max, timeout, log, env);
  }

  /** A lease check brings the first waiting fetch together with the least expired offset. The fetch leaves the
    queue in any case; it gets an answer, the message of that offset, exactly if the lease is under the
    redelivery limit and its record can be read. */
  lemma CheckPairsFirstWithFirst(s: Snapshot, log: seq<Entry>, env: Env, limit: int, o: nat)
    requires s.waiters != [] && Expired(s.core, o, env.now)
    requires forall p :: Expired(s.core, p, env.now) ==> o <= p
    ensures var b := DoExpire(s, log, env, limit);
            var w := s.waiters[0];
            && b.s.waiters == s.waiters[1..]
            && (b.sent != [] <==> s.core.leases[o].redeliveries < limit && Reads(log, env, o))
            && (b.sent != [] ==> b.sent == [Message(o, log[o])]
                                 && b.events == [Deliver(o, w.consumer, env.now, env.now + w.ackTimeout)])
            && (s.core.leases[o].redeliveries >= limit ==>
                  b.events == [Dead(o, env.now, Reads(log, env, o) && o !in env.dlqDown)])
  {
    hide Retire;
    var a := Ascending(ExpiredSet(s.core, env.now));
    assert o in ExpiredSet(s.core, env.now);
    assert o in a;
    var i :| 0 <= i < |a| && a[i] == o;
    assert a[0] in a;
    assert o <= a[0];
  }

}
