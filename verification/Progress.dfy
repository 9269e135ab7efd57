/** No message waits for ever: how many fetches can pass over a message that is due, in any run of any operations with
  any clock, and what follows for at-least-once delivery across restarts.
*/
module Progress {
  import opened Bytes
  import opened Records
  import opened Leases
  import opened Deliveries
  import opened Sorting
  import opened Group
  import opened Batches
  import opened Runs

  // ---------------------------------------------------------------- what is given out below an offset

  /** How often the messages from `lo` up to `hi` were given out otherwise than by handoffs. */
  function Given(h: seq<Event>, lo: nat, hi: nat): nat
    decreases hi
  {
    if hi <= lo then 0 else Given(h, lo, hi - 1) + Leasings(h, hi - 1)
  }

  lemma {:induction false} GivenBounded(c0: nat, h: seq<Event>, limit: int, len: nat, hi: nat)
    requires LegalRun(Start(c0), h, limit, len) && c0 <= hi
    ensures Given(h, c0, hi) <= (hi - c0) * (1 + NonNegative(limit))
  {
    hide LegalRun, Replay, Leasings, NonNegative;
    if c0 < hi {
      GivenBounded(c0, h, limit, len, hi - 1);
      LeasingsBounded(c0, h, limit, len, hi - 1);
      OneMoreTime(hi - 1 - c0, 1 + NonNegative(limit));
    }
  }

  lemma OneMoreTime(k: nat, each: nat)
    ensures (k + 1) * each == k * each + each
  {
  }

  lemma {:induction false} LeasingsAppend(h: seq<Event>, g: seq<Event>, o: nat)
    ensures Leasings(h + g, o) == Leasings(h, o) + Leasings(g, o)
  {
    if g == [] {
      assert h + g == h;
    } else {
      LeasingsAppend(h, g[..|g| - 1], o);
      assert (h + g)[..|h + g| - 1] == h + g[..|g| - 1];
    }
  }

  lemma {:induction false} GivenAppend(h: seq<Event>, g: seq<Event>, lo: nat, hi: nat)
    ensures Given(h + g, lo, hi) == Given(h, lo, hi) + Given(g, lo, hi)
  {
    if lo < hi {
      GivenAppend(h, g, lo, hi - 1);
      LeasingsAppend(h, g, hi - 1);
    }
  }

  lemma {:induction false} GivenOne(h: seq<Event>, lo: nat, hi: nat, p: nat)
    requires lo <= p < hi && Leasings(h, p) > 0
    ensures Given(h, lo, hi) > 0
  {
    if p < hi - 1 {
      GivenOne(h, lo, hi - 1, p);
    }
  }

  lemma {:induction false} LeasedWhereDelivered(h: seq<Event>, p: nat)
    requires DeliveredIn(h, p) && forall i :: 0 <= i < |h| ==> !h[i].Nack?
    ensures Leasings(h, p) > 0
  {
    DeliveredSnoc(h, p);
    if !Delivers(h[|h| - 1], p) {
      LeasedWhereDelivered(h[..|h| - 1], p);
    }
  }

  // ---------------------------------------------------------------- being passed over

  /** A fetch of at least one message neither sends nor gives up `o`, although it is due. */
  ghost predicate PassesOver(sys: Sys, m: Move, o: nat, limit: int)
  {
    && m.op.Fetch? && m.op.max > 0
    && Due(sys.s.core, o, sys.log, m.env, limit)
    && !Handled(DoFetch(sys.s, m.op.consumer, m.op.max, m.op.timeout, sys.log, m.env, limit), o)
  }

  /** How many moves of a run pass over `o`. */
  ghost function PassedOver(sys: Sys, moves: seq<Move>, o: nat, limit: int): nat
  {
    if moves == [] then 0 else
      var n := |moves| - 1;
      PassedOver(sys, moves[..n], o, limit)
      + if PassesOver(Run(sys, moves[..n], limit).sys, moves[n], o, limit) then 1 else 0
  }

  lemma DueInWindow(c: Core, o: nat, log: seq<Entry>, env: Env, limit: int)
    requires Window(c, |log|) && Due(c, o, log, env, limit)
    ensures c.committed <= o
  {
  }

  /** A fetch that passes over a due message gives out an earlier one. */
  lemma PassingGivesEarlier(sys: Sys, m: Move, o: nat, limit: int) returns (p: nat)
    requires Window(sys.s.core, |sys.log|) && PassesOver(sys, m, o, limit)
    ensures sys.s.core.committed <= p < o && Leasings(Apply(sys, m, limit).history, p) > 0
  {
    hide DoFetch, Due, Window;
    var s, log := sys.s, sys.log;
    var r := DoFetch(s, m.op.consumer, m.op.max, m.op.timeout, log, m.env, limit);
    FetchHandles(s, m.op.consumer, m.op.max, m.op.timeout, log, m.env, limit, o);
    p := r.sent[0].offset;
    assert SentIn(r.sent, p);
    FetchHandles(s, m.op.consumer, m.op.max, m.op.timeout, log, m.env, limit, p);
    if o < p {
      FetchInOrder(s, m.op.consumer, m.op.max, m.op.timeout, log, m.env, limit, o, p);
    }
    DueInWindow(s.core, p, log, m.env, limit);
    FetchFollows(s, m.op.consumer, m.op.max, m.op.timeout, log, m.env, limit);
    SentAreDelivered(r.events, log, p);
    FetchStamps(s, m.op.consumer, m.op.max, m.op.timeout, log, m.env, limit);
    LeasedWhereDelivered(r.events, p);
  }

  lemma {:induction false} PassedOverGiven(sys: Sys, c0: nat, moves: seq<Move>, limit: int, o: nat)
    requires Fresh(sys, c0) && c0 <= o
    ensures PassedOver(sys, moves, o, limit) <= Given(Run(sys, moves, limit).history, c0, o)
  {
    if moves != [] {
      hide Apply, Window, PassesOver, LegalRun, Replay, SentBy, CopiedBy;
      var n := |moves| - 1;
      PassedOverGiven(sys, c0, moves[..n], limit, o);
      var r := Run(sys, moves[..n], limit);
      var a := Apply(r.sys, moves[n], limit);
      GivenAppend(r.history, a.history, c0, o);
      if PassesOver(r.sys, moves[n], o, limit) {
        RunIsLegal(sys, c0, moves[..n], limit);
        RunWindow(sys, c0, r, limit);
        var p := PassingGivesEarlier(r.sys, moves[n], o, limit);
        GivenOne(a.history, c0, o, p);
      }
    }
  }

  /** No starvation: in any run, a message is passed over while it is due by at most as many fetches as the messages
    before it can be given out: each of them once, and `limit` times again. Every other fetch of at least one
    message finds it not due, or sends it or gives it up. */
  lemma NoStarvation(sys: Sys, c0: nat, moves: seq<Move>, limit: int, o: nat)
    requires Fresh(sys, c0) && c0 <= o
    ensures PassedOver(sys, moves, o, limit) <= (o - c0) * (1 + NonNegative(limit))
  {
    PassedOverGiven(sys, c0, moves, limit, o);
    RunIsLegal(sys, c0, moves, limit);
    var r := Run(sys, moves, limit);
    GivenBounded(c0, r.history, limit, |r.sys.log|, o);
  }

  // ---------------------------------------------------------------- first deliveries

  /** A fetch of at least one message that could get as far as `o`: nothing from the end of the window up to `o` is
    unreadable or missing. */
  predicate Reaches(sys: Sys, m: Move, o: nat)
  {
    m.op.Fetch? && m.op.max > 0 && forall p :: End(sys.s.core) <= p <= o ==> Reads(sys.log, m.env, p)
  }

  /** How many moves of a run are fetches that could get as far as `o`. */
  ghost function Reaching(sys: Sys, moves: seq<Move>, o: nat, limit: int): nat
  {
    if moves == [] then 0 else
      var n := |moves| - 1;
      Reaching(sys, moves[..n], o, limit) + if Reaches(Run(sys, moves[..n], limit).sys, moves[n], o) then 1 else 0
  }

  /** What could get to an undelivered message either delivers it or passes over it. */
  lemma ReachesOrDelivers(sys: Sys, m: Move, o: nat, limit: int)
    requires Window(sys.s.core, |sys.log|) && End(sys.s.core) <= o && Reaches(sys, m, o)
    ensures PassesOver(sys, m, o, limit) || DeliveredIn(Apply(sys, m, limit).history, o)
  {
    var s, log := sys.s, sys.log;
    ReadableToIs(End(s.core), o + 1, log, m.env);
    assert Due(s.core, o, log, m.env, limit);
    assert o !in s.core.leases;
    hide DoFetch, Due, Window;
    var r := DoFetch(s, m.op.consumer, m.op.max, m.op.timeout, log, m.env, limit);
    FetchHandles(s, m.op.consumer, m.op.max, m.op.timeout, log, m.env, limit, o);
    FetchFollows(s, m.op.consumer, m.op.max, m.op.timeout, log, m.env, limit);
    SentAreDelivered(r.events, log, o);
  }

  lemma {:induction false} UndeliveredPassedOver(sys: Sys, c0: nat, moves: seq<Move>, limit: int, o: nat)
    requires Fresh(sys, c0) && c0 <= o && !DeliveredIn(Run(sys, moves, limit).history, o)
    ensures Reaching(sys, moves, o, limit) <= PassedOver(sys, moves, o, limit)
  {
    if moves != [] {
      hide Apply, Window, PassesOver, Reaches, DeliveredIn, End, LegalRun, Replay, SentBy, CopiedBy;
      var n := |moves| - 1;
      var r := Run(sys, moves[..n], limit);
      var a := Apply(r.sys, moves[n], limit);
      InAppend(r.history, a.history, o);
      UndeliveredPassedOver(sys, c0, moves[..n], limit, o);
      RunIsLegal(sys, c0, moves[..n], limit);
      RunWindow(sys, c0, r, limit);
      DeliveredExactly(c0, r.history, limit, |r.sys.log|, o);
      if Reaches(r.sys, moves[n], o) {
        ReachesOrDelivers(r.sys, moves[n], o, limit);
      }
    }
  }

  /** Every message is delivered: in any run, with any operations between the fetches, leases running out at any time
    and the redelivery limit respected or not, once more than `(o - c0) * (1 + limit)` fetches could have got as
    far as `o`, it has been handed out. */
  lemma DeliveredWithin(sys: Sys, c0: nat, moves: seq<Move>, limit: int, o: nat)
    requires Fresh(sys, c0) && c0 <= o
    requires Reaching(sys, moves, o, limit) > (o - c0) * (1 + NonNegative(limit))
    ensures DeliveredIn(Run(sys, moves, limit).history, o)
  {
    hide DeliveredIn, PassedOver, Reaching, Run;
    NoStarvation(sys, c0, moves, limit, o);
    if !DeliveredIn(Run(sys, moves, limit).history, o) {
      UndeliveredPassedOver(sys, c0, moves, limit, o);
    }
  }

  /** Every message sent is the record of its offset. */
  lemma {:induction false} SentRecords(h: seq<Event>, log: seq<Entry>, i: nat)
    requires i < |SentBy(h, log)|
    ensures var m := SentBy(h, log)[i]; m.offset < |log| && m.entry == log[m.offset]
  {
    var n := |h| - 1;
    var front := SentBy(h[..n], log);
    if i < |front| {
      SentRecords(h[..n], log, i);
    }
  }

  /** At least once: after any number of processes, whatever was leased when the last one stopped, a message that none
    of them retired is handed out again by the next process, whatever else that does, once more than
    `(o - saved) * (1 + limit)` of its fetches could have got as far as the message. */
  lemma UnretiredIsDeliveredAgain(lives: seq<seq<Move>>, limit: int, o: nat, moves: seq<Move>)
    requires var l := Lives(lives, limit);
             && o < |l.sys.log| && !RetiredBefore(l.histories, o)
             && Reaching(Restarted(l.sys), moves, o, limit) > (o - l.sys.s.saved) * (1 + NonNegative(limit))
    ensures var l := Lives(lives, limit);
            var r := Run(Restarted(l.sys), moves, limit);
            && l.sys.s.saved <= o && DeliveredIn(r.history, o)
            && exists i :: 0 <= i < |r.sent| && r.sent[i] == Message(o, l.sys.log[o])
  {
    hide Lives, Run, RetiredBefore, Restarted, Fresh, Reaching, DeliveredIn, NonNegative, LegalRun, Replay;
    var l := Lives(lives, limit);
    UnretiredNotSaved(lives, limit, o);
    var sys, c0 := Restarted(l.sys), l.sys.s.saved;
    DeliveredWithin(sys, c0, moves, limit, o);
    RunIsLegal(sys, c0, moves, limit);
    var r := Run(sys, moves, limit);
    SentAreDelivered(r.history, r.sys.log, o);
    var i :| 0 <= i < |r.sent| && r.sent[i].offset == o;
    SentRecords(r.history, r.sys.log, i);
    assert r.sent[i] == Message(o, l.sys.log[o]);
  }

  // ---------------------------------------------------------------- the bound is exact

  /** One consumer asking for one message again and again, and letting every lease run out. */
  function Polls(consumer: seq<byte>, n: nat): (moves: seq<Move>)
    ensures |moves| == n
  {
    seq(n, i requires 0 <= i < n => Move(Fetch(consumer, 1, 0), Env(i, {}, {}, {})))
  }

  lemma PollsSnoc(consumer: seq<byte>, n: nat)
    ensures Polls(consumer, n + 1)[..n] == Polls(consumer, n)
    ensures Polls(consumer, n + 1)[n] == Move(Fetch(consumer, 1, 0), Env(n, {}, {}, {}))
  {
  }

  /** The state of a group with one lease, on `x`, given out at `t`. */
  function Holding(x: nat, consumer: seq<byte>, t: int, redeliveries: int): Core
  {
    Core(x, map[x := Lease(consumer, t, redeliveries, false)])
  }

  lemma OneExpired(x: nat, consumer: seq<byte>, t: int, redeliveries: int)
    ensures Ascending(ExpiredSet(Holding(x, consumer, t, redeliveries), t + 1)) == [x]
  {
    var e := ExpiredSet(Holding(x, consumer, t, redeliveries), t + 1);
    assert e == {x};
    ListingUnique([x], Ascending(e), e);
  }

  lemma RetireOnly(x: nat, l: Lease)
    ensures Retire(Core(x, map[x := l]), x) == Core(x + 1, map[])
  {
    var m := Mark(Core(x, map[x := l]), x);
    FirstOpenIs(m.leases, x, x + 1);
  }

  lemma RedeliversOne(s: Snapshot, x: nat, consumer: seq<byte>, log: seq<Entry>, env: Env, limit: int)
    requires x in s.core.leases && Ascending(ExpiredSet(s.core, env.now)) == [x]
    ensures DoRedeliver(s, consumer, 1, 0, log, env, limit).s == Redeliver(s, x, consumer, 0, log, env, limit).s
    ensures DoRedeliver(s, consumer, 1, 0, log, env, limit).sent == Redeliver(s, x, consumer, 0, log, env, limit).sent
  {
    hide Redeliver, ExpiredSet;
    ExpiredAscending(s.core, env.now);
    NextExpired(s, [x], consumer, 0, log, env, limit);
    var b := Step(s, [], []);
    var t := Then(b, Redeliver(s, x, consumer, 0, log, env, limit));
    assert RedeliverAll(b, [x], consumer, 1, 0, log, env, limit)
        == RedeliverAll(t, [], consumer, 1, 0, log, env, limit);
  }

  /** Under the limit the poll gets the same message again. */
  lemma PollAgain(s: Snapshot, x: nat, consumer: seq<byte>, t: int, redeliveries: int, log: seq<Entry>, limit: int)
    requires s.core == Holding(x, consumer, t, redeliveries) && x < |log| && redeliveries < limit
    ensures DoFetch(s, consumer, 1, 0, log, Env(t + 1, {}, {}, {}), limit).s.core
         == Holding(x, consumer, t + 1, redeliveries + 1)
  {
    hide DoRedeliver, ExpiredSet, Retire;
    var env := Env(t + 1, {}, {}, {});
    OneExpired(x, consumer, t, redeliveries);
    RedeliversOne(s, x, consumer, log, env, limit);
    var step := Redeliver(s, x, consumer, 0, log, env, limit);
    assert step == Again(s, x, consumer, 0, log, env);
  }

  /** At the limit it is given up, and the poll gets the next one. */
  lemma PollNext(s: Snapshot, x: nat, consumer: seq<byte>, t: int, redeliveries: int, log: seq<Entry>, limit: int)
    requires s.core == Holding(x, consumer, t, redeliveries) && x + 1 < |log| && redeliveries >= limit
    ensures DoFetch(s, consumer, 1, 0, log, Env(t + 1, {}, {}, {}), limit).s.core == Holding(x + 1, consumer, t + 1, 0)
  {
    hide DoRedeliver, ExpiredSet, Retire, TakeNew, End;
    var env := Env(t + 1, {}, {}, {});
    OneExpired(x, consumer, t, redeliveries);
    RedeliversOne(s, x, consumer, log, env, limit);
    RetireOnly(x, s.core.leases[x]);
    assert Redeliver(s, x, consumer, 0, log, env, limit) == GiveUp(s, x, log, env);
    TakesOne(DoRedeliver(s, consumer, 1, 0, log, env, limit), x + 1, consumer, log, env);
  }

  lemma TakesOne(b: Step, x: nat, consumer: seq<byte>, log: seq<Entry>, env: Env)
    requires b.sent == [] && b.s.core == Core(x, map[]) && Reads(log, env, x)
    ensures TakeNew(b, End(b.s.core), consumer, 1, 0, log, env).s.core == Holding(x, consumer, env.now, 0)
  {
    var t := Then(b, New(b.s, x, consumer, 0, log, env));
    assert End(b.s.core) == x;
    assert TakeNew(t, x + 1, consumer, 1, 0, log, env) == t;
  }

  lemma FirstPoll(sys: Sys, c0: nat, consumer: seq<byte>, limit: int)
    requires Fresh(sys, c0) && c0 < |sys.log|
    ensures DoFetch(sys.s, consumer, 1, 0, sys.log, Env(0, {}, {}, {}), limit).s.core == Holding(c0, consumer, 0, 0)
  {
    var env := Env(0, {}, {}, {});
    assert ExpiredSet(sys.s.core, 0) == {};
    NothingListed(Ascending({}), {});
    ExpiredAscending(sys.s.core, 0);
    assert DoRedeliver(sys.s, consumer, 1, 0, sys.log, env, limit) == Step(sys.s, [], []);
    hide DoRedeliver, TakeNew, ExpiredSet, End;
    TakesOne(Step(sys.s, [], []), c0, consumer, sys.log, env);
  }

  lemma SmallerQuotient(q: nat, d: nat, each: nat)
    ensures q * each < d * each ==> q < d
  {
    if d <= q {
      assert q * each == d * each + (q - d) * each;
    }
  }

  /** One more poll. */
  lemma PollAfter(sys: Sys, consumer: seq<byte>, n: nat, limit: int)
    ensures var before := Run(sys, Polls(consumer, n), limit).sys;
            var r := DoFetch(before.s, consumer, 1, 0, before.log, Env(n, {}, {}, {}), limit);
            Run(sys, Polls(consumer, n + 1), limit).sys == Sys(r.s, before.log)
  {
    hide DoFetch;
    PollsSnoc(consumer, n);
    RunSnoc(sys, Polls(consumer, n + 1), limit);
  }

  /** After `n` polls the window has moved by one message for every `1 + limit` of them. */
  lemma {:induction false} AfterPolls(sys: Sys, c0: nat, consumer: seq<byte>, limit: int, o: nat, n: nat)
    returns (q: nat, r: nat)
    requires Fresh(sys, c0) && c0 <= o < |sys.log| && 0 < n <= (o - c0) * (1 + NonNegative(limit))
    ensures q * (1 + NonNegative(limit)) + r == n - 1 && r <= NonNegative(limit) && q < o - c0
    ensures var t := Run(sys, Polls(consumer, n), limit).sys;
            t.log == sys.log && t.s.core == Holding(c0 + q, consumer, n - 1, r)
  {
    var each := 1 + NonNegative(limit);
    hide DoFetch, Run, Polls, Holding;
    PollAfter(sys, consumer, n - 1, limit);
    if n == 1 {
      q, r := 0, 0;
      SmallerQuotient(0, o - c0, each);
      NoPolls(sys, consumer, limit);
      FirstPoll(sys, c0, consumer, limit);
    } else {
      q, r := AfterPolls(sys, c0, consumer, limit, o, n - 1);
      var before := Run(sys, Polls(consumer, n - 1), limit).sys;
      if r < NonNegative(limit) {
        PollAgain(before.s, c0 + q, consumer, n - 2, r, sys.log, limit);
        r := r + 1;
      } else {
        OneMoreTime(q, each);
        SmallerQuotient(q + 1, o - c0, each);
        PollNext(before.s, c0 + q, consumer, n - 2, r, sys.log, limit);
        q, r := q + 1, 0;
      }
    }
  }

  lemma NoPolls(sys: Sys, consumer: seq<byte>, limit: int)
    ensures Run(sys, Polls(consumer, 0), limit) == Outcome(sys, [], [])
  {
  }

  lemma {:induction false} PollsReach(sys: Sys, consumer: seq<byte>, limit: int, o: nat, n: nat)
    requires o < |sys.log|
    ensures Run(sys, Polls(consumer, n), limit).sys.log == sys.log
    ensures Reaching(sys, Polls(consumer, n), o, limit) == n
  {
    if n > 0 {
      hide DoFetch;
      PollsSnoc(consumer, n - 1);
      RunSnoc(sys, Polls(consumer, n), limit);
      PollsReach(sys, consumer, limit, o, n - 1);
    }
  }

  /** The bound of `DeliveredWithin` cannot be lowered: whatever the limit and however far away the message, there is a
    run with exactly that many fetches that could get to it in which it is not delivered. A consumer that polls for
    one message at a time and lets every lease run out is enough. */
  lemma BoundIsReached(sys: Sys, c0: nat, limit: int, o: nat, consumer: seq<byte>)
    requires Fresh(sys, c0) && c0 <= o < |sys.log|
    ensures var n := (o - c0) * (1 + NonNegative(limit));
            n >= 0 && Reaching(sys, Polls(consumer, n), o, limit) == n
            && !DeliveredIn(Run(sys, Polls(consumer, n), limit).history, o)
  {
    var n: nat := (o - c0) * (1 + NonNegative(limit));
    PollsReach(sys, consumer, limit, o, n);
    var r := Run(sys, Polls(consumer, n), limit);
    RunIsLegal(sys, c0, Polls(consumer, n), limit);
    if n == 0 {
      NothingLeased(c0);
      assert Polls(consumer, 0) == [];
      SmallerQuotient(o - c0, 1, 1 + NonNegative(limit));
    } else {
      var q, _ := AfterPolls(sys, c0, consumer, limit, o, n);
      assert End(r.sys.s.core) == c0 + q + 1;
    }
    DeliveredExactly(c0, r.history, limit, |r.sys.log|, o);
  }
}
