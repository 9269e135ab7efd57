/** The consumer group as the broker keeps it: an object whose lease map, committed offset and queue of waiting
  fetches are updated in place, with the loops and the in-place sort of the original. Every method is proved to
  do what the operation of module Group of the same name does, and so to add legal events to the history.
*/
module ConsumerGroups {
  import opened Bytes
  import opened Records
  import opened Leases
  import opened Deliveries
  import opened Sorting
  import opened Group

  predicate Distinct(s: seq<nat>)
  {
    forall i, j :: 0 <= i < j < |s| ==> s[i] != s[j]
  }

  function Swapped(s: seq<nat>, i: nat, j: nat): (t: seq<nat>)
    requires i < |s| && j < |s|
    ensures |t| == |s|
  {
    s[i := s[j]][j := s[i]]
  }

  lemma SwapKeeps(s: seq<nat>, i: nat, j: nat, elements: set<nat>)
    requires i < j < |s| && Distinct(s) && forall x :: x in s <==> x in elements
    ensures Distinct(Swapped(s, i, j))
    ensures forall x :: x in Swapped(s, i, j) <==> x in elements
  {
    var t := Swapped(s, i, j);
    forall x
      ensures x in t <==> x in elements
    {
      if x in elements {
        var k :| 0 <= k < |s| && s[k] == x;
        assert t[if k == i then j else if k == j then i else k] == x;
      }
      if x in t {
        var k :| 0 <= k < |t| && t[k] == x;
        assert s[if k == i then j else if k == j then i else k] == x;
      }
    }
  }

  /** Sorts in place: every place in turn is exchanged with any smaller element behind it. */
  method SortOffsets(a: array<nat>, ghost elements: set<nat>)
    requires Distinct(a[..]) && forall x :: x in a[..] <==> x in elements
    modifies a
    ensures Lists(a[..], elements)
  {
    var i := 0;
    while i < a.Length
      invariant 0 <= i <= a.Length
      invariant Distinct(a[..]) && forall x :: x in a[..] <==> x in elements
      invariant forall p, q :: 0 <= p < i && p < q < a.Length ==> a[p] < a[q]
    {
      var j := i + 1;
      while j < a.Length
        invariant i < j <= a.Length
        invariant Distinct(a[..]) && forall x :: x in a[..] <==> x in elements
        invariant forall p, q :: 0 <= p < i && p < q < a.Length ==> a[p] < a[q]
        invariant forall q :: i < q < j ==> a[i] < a[q]
      {
        if a[i] > a[j] {
          SwapKeeps(a[..], i, j, elements);
          ghost var before := a[..];
          a[i], a[j] := a[j], a[i];
          assert a[..] == Swapped(before, i, j);
        }
        assert a[i] == a[..][i] && a[j] == a[..][j];
        j := j + 1;
      }
      i := i + 1;
    }
  }

  lemma SmallerMap(m: map<nat, Lease>, o: nat)
    requires o in m
    ensures |m - {o}| < |m|
  {
    assert m.Keys == (m - {o}).Keys + {o};
    assert |m| == |m.Keys| && |m - {o}| == |(m - {o}).Keys|;
  }

  class ConsumerGroup {
    const maxRedeliveries: int
    var committed: nat
    var leases: map<nat, Lease>
    var saved: nat            // the offset in the state file
    var waiters: seq<Waiter>  // the pending fetches of this group
    var dlq: seq<Copy>        // the log of the dead-letter topic
    ghost const c0: nat
    ghost var history: seq<Event>

    function View(): Snapshot
      reads this
    {
      Snapshot(Core(committed, leases), saved, waiters, dlq)
    }

    /** The group is where its history, legal for this log, has brought it. */
    ghost predicate Valid(log: seq<Entry>)
      reads this
    {
      && LegalRun(Start(c0), history, maxRedeliveries, |log|)
      && Core(committed, leases) == Replay(Start(c0), history)
    }

    /** A group loaded from its state file. */
    constructor (saved: nat, maxRedeliveries: int, dlq: seq<Copy>)
      ensures forall log :: Valid(log)
      ensures View() == Snapshot(Start(saved), saved, [], dlq) && history == []
      ensures this.maxRedeliveries == maxRedeliveries && c0 == saved
    {
      this.maxRedeliveries := maxRedeliveries;
      this.committed, this.leases, this.saved := saved, map[], saved;
      this.waiters, this.dlq := [], dlq;
      this.c0, this.history := saved, [];
    }

    /** Moves the committed offset past the acked leases at the front, deleting them, and saves it if it moved. */
    method SlideWindow(env: Env)
      modifies this`committed, this`leases, this`saved
      ensures View() == Committing(old(View()), Slide(old(Core(committed, leases))), env)
    {
      ghost var first, all := committed, leases;
      var advanced := false;
      while committed in leases && leases[committed].acked
        invariant saved == old(saved)
        invariant first <= committed && advanced == (committed > first)
        invariant forall p :: first <= p < committed ==> p in all && all[p].acked
        invariant leases == map p | p in all && !(first <= p < committed) :: all[p]
        decreases |leases|
      {
        SmallerMap(leases, committed);
        leases := leases - {committed};
        committed := committed + 1;
        advanced := true;
      }
      assert committed in all ==> committed in leases && leases[committed] == all[committed];
      FirstOpenIs(all, first, committed);
      assert leases == Slide(Core(first, all)).leases;
      if advanced && committed !in env.unsaved {
        saved := committed;
      }
    }

    /** Marks an offset acked and slides. */
    method Retire(o: nat, env: Env)
      requires o in leases
      modifies this`committed, this`leases, this`saved
      ensures View() == Committing(old(View()), Leases.Retire(old(Core(committed, leases)), o), env)
    {
      hide Slide;
      leases := leases[o := leases[o].(acked := true)];
      SlideWindow(env);
    }

    /** One past the highest lease, or the committed offset if there is none. */
    method NextOffset(ghost len: nat) returns (next: nat)
      requires Window(Core(committed, leases), len)
      ensures next == End(Core(committed, leases))
    {
      next := committed;
      var rest := leases.Keys;
      while rest != {}
        invariant rest <= leases.Keys
        invariant next == committed || (next - 1 in leases && next > committed)
        invariant forall o :: o in leases && o !in rest ==> o < next
        decreases |rest|
      {
        var o :| o in rest;
        if o >= next {
          next := o + 1;
        }
        rest := rest - {o};
      }
      EndOf(Core(committed, leases), next);
    }

    /** The expired leases, in increasing order of their offsets whatever order the map yields them in. */
    method ExpiredOffsets(now: int) returns (offsets: array<nat>)
      ensures fresh(offsets)
      ensures offsets[..] == Ascending(ExpiredSet(Core(committed, leases), now))
    {
      ghost var expired := ExpiredSet(Core(committed, leases), now);
      var found: seq<nat> := [];
      var rest := leases.Keys;
      while rest != {}
        invariant rest <= leases.Keys
        invariant Distinct(found)
        invariant forall x :: x in found <==> x in expired && x !in rest
        decreases |rest|
      {
        var o :| o in rest;
        if !leases[o].acked && now > leases[o].expiry {
          found := found + [o];
        }
        rest := rest - {o};
      }
      offsets := new nat[|found|](i requires 0 <= i < |found| => found[i]);
      assert offsets[..] == found;
      SortOffsets(offsets, expired);
      ListingUnique(offsets[..], Ascending(expired), expired);
    }

    /** An acknowledgement. */
    method Ack(o: nat, env: Env, ghost log: seq<Entry>) returns (reply: Reply)
      requires Valid(log)
      modifies this`committed, this`leases, this`saved, this`history
      ensures Valid(log)
      ensures (View(), reply) == (old(DoAck(View(), o, env).0.s), old(DoAck(View(), o, env).1))
      ensures history == old(history) + old(DoAck(View(), o, env).0.events)
    {
      hide Leases.Retire, Committing, Follows, LegalRun, Replay, Window;
      InWindow(log);
      AckFollows(View(), o, log, env, maxRedeliveries);
      ghost var step := DoAck(View(), o, env).0;
      HistoryGrows(step, log, env);
      history := history + step.events;
      if o < committed {
        return Ok;
      }
      if o !in leases {
        return LeaseNotFound;
      }
      Retire(o, env);
      reply := Ok;
    }

    /** A rejection: the lease runs out now, or goes straight to the first waiting fetch. */
    method Nack(o: nat, log: seq<Entry>, env: Env) returns (reply: Reply, sent: seq<Message>)
      requires Valid(log)
      modifies this`leases, this`waiters, this`history
      ensures Valid(log)
      ensures (View(), sent) == (old(DoNack(View(), o, log, env).0.s), old(DoNack(View(), o, log, env).0.sent))
      ensures reply == old(DoNack(View(), o, log, env).1)
      ensures history == old(history) + old(DoNack(View(), o, log, env).0.events)
    {
      hide Follows, LegalRun, Replay, Window;
      InWindow(log);
      NackFollows(View(), o, log, env, maxRedeliveries);
      ghost var step := DoNack(View(), o, log, env).0;
      HistoryGrows(step, log, env);
      history := history + step.events;
      sent := [];
      if o !in leases || leases[o].acked {
        return LeaseNotFound, sent;
      }
      leases := leases[o := leases[o].(expiry := env.now)];
      if |waiters| > 0 {
        var w := waiters[0];
        waiters := waiters[1..];
        leases := leases[o := leases[o].(consumer := w.consumer, expiry := env.now + w.ackTimeout,
                                         redeliveries := leases[o].redeliveries + 1)];
        if Reads(log, env, o) {
          sent := [Message(o, log[o])];
        }
      }
      reply := Ok;
    }

    /** Offers a freshly produced message to the first waiting fetch. */
    method Dispatch(o: nat, log: seq<Entry>, env: Env) returns (sent: seq<Message>)
      requires Valid(log) && o < |log|
      modifies this`leases, this`waiters, this`history
      ensures Valid(log)
      ensures (View(), sent) == (old(DoDispatch(View(), o, log, env).s), old(DoDispatch(View(), o, log, env).sent))
      ensures history == old(history) + old(DoDispatch(View(), o, log, env).events)
    {
      hide Follows, LegalRun, Replay, Window, End;
      InWindow(log);
      DispatchFollows(View(), o, log, env, maxRedeliveries);
      ghost var step := DoDispatch(View(), o, log, env);
      HistoryGrows(step, log, env);
      sent := [];
      if |waiters| > 0 {
        var next := NextOffset(|log|);
        if o == next {
          var w := waiters[0];
          waiters := waiters[1..];
          leases := leases[o := Lease(w.consumer, env.now + w.ackTimeout, 0, false)];
          sent := [Message(o, log[o])];
        }
      }
      history := history + step.events;
    }

    /** One expired offset: dead-lettered at the limit, else leased again if its record can be read. */
    method RedeliverOne(o: nat, consumer: seq<byte>, timeout: nat, log: seq<Entry>, env: Env) returns (sent: seq<Message>)
      requires o in leases
      modifies this`committed, this`leases, this`saved, this`dlq
      ensures View() == old(Redeliver(View(), o, consumer, timeout, log, env, maxRedeliveries).s)
      ensures sent == old(Redeliver(View(), o, consumer, timeout, log, env, maxRedeliveries).sent)
    {
      hide Leases.Retire, Committing;
      sent := [];
      var lease := leases[o];
      if lease.redeliveries >= maxRedeliveries {
        if Reads(log, env, o) && o !in env.dlqDown {
          dlq := dlq + [Copy(log[o].key, log[o].value)];
        }
        DlqApart(old(View()), dlq, Leases.Retire(Core(committed, leases), o), env);
        Retire(o, env);
      } else if Reads(log, env, o) {
        leases := leases[o := lease.(consumer := consumer, expiry := env.now + timeout,
                                     redeliveries := lease.redeliveries + 1)];
        sent := [Message(o, log[o])];
      }
    }

    /** The least expired offset, if there is one, whatever order the map yields the leases in. */
    method FirstExpired(now: int) returns (found: bool, first: nat)
      ensures found <==> Ascending(ExpiredSet(Core(committed, leases), now)) != []
      ensures found ==> first in leases && first == Ascending(ExpiredSet(Core(committed, leases), now))[0]
    {
      ghost var expired := ExpiredSet(Core(committed, leases), now);
      found, first := false, 0;
      var rest := leases.Keys;
      while rest != {}
        invariant rest <= leases.Keys
        invariant found ==> first in expired && first !in rest
        invariant forall o :: o in expired && o !in rest ==> found && first <= o
        decreases |rest|
      {
        var o :| o in rest;
        if !leases[o].acked && now > leases[o].expiry {
          if !found || o < first {
            first, found := o, true;
          }
        }
        rest := rest - {o};
      }
      LeastIsFirst(expired, found, first);
    }

    /** The lease check: the first expired lease and the first waiting fetch are brought together. */
    method CheckExpired(log: seq<Entry>, env: Env) returns (sent: seq<Message>)
      requires Valid(log)
      modifies this`committed, this`leases, this`saved, this`dlq, this`waiters, this`history
      ensures Valid(log)
      ensures View() == old(DoExpire(View(), log, env, maxRedeliveries).s)
      ensures sent == old(DoExpire(View(), log, env, maxRedeliveries).sent)
      ensures history == old(history) + old(DoExpire(View(), log, env, maxRedeliveries).events)
    {
      hide Redeliver, Follows, LegalRun, Replay, Window, ExpiredSet;
      InWindow(log);
      ExpireFollows(View(), log, env, maxRedeliveries);
      ghost var step := DoExpire(View(), log, env, maxRedeliveries);
      HistoryGrows(step, log, env);
      history := history + step.events;
      sent := [];
      if |waiters| == 0 {
        return;
      }
      var found, first := FirstExpired(env.now);
      if found {
        var w := waiters[0];
        waiters := waiters[1..];
        sent := RedeliverOne(first, w.consumer, w.ackTimeout, log, env);
      }
    }

    /** Expired leases in order of offset until the batch is full. */
    method RedeliverExpired(consumer: seq<byte>, max: nat, timeout: nat, log: seq<Entry>, env: Env)
      returns (msgs: seq<Message>, ghost events: seq<Event>)
      modifies this`committed, this`leases, this`saved, this`dlq
      ensures Step(View(), msgs, events)
           == old(DoRedeliver(View(), consumer, max, timeout, log, env, maxRedeliveries))
    {
      hide RedeliverAll, Redeliver, AllExpired, Increasing, ExpiredSet;
      msgs, events := [], [];
      ghost var start := View();
      var expired := ExpiredOffsets(env.now);
      ghost var offsets := expired[..];
      ExpiredAscending(start.core, env.now);
      ghost var all := RedeliverAll(Step(start, [], []), offsets, consumer, max, timeout, log, env, maxRedeliveries);
      assert offsets[0..] == offsets;
      var i := 0;
      while i < expired.Length && |msgs| < max
        invariant 0 <= i <= |offsets| == expired.Length && expired[..] == offsets
        invariant waiters == start.waiters
        invariant Increasing(offsets[i..]) && AllExpired(View().core, offsets[i..], env.now)
        invariant all == RedeliverAll(Step(View(), msgs, events), offsets[i..],
                                      consumer, max, timeout, log, env, maxRedeliveries)
      {
        ghost var b := Step(View(), msgs, events);
        var offset := expired[i];
        assert offsets[i..][0] == offset && offsets[i..][1..] == offsets[i + 1..];
        RedeliverAllStep(b, offsets[i..], consumer, max, timeout, log, env, maxRedeliveries);
        ghost var step := Redeliver(View(), offset, consumer, timeout, log, env, maxRedeliveries);
        var sent := RedeliverOne(offset, consumer, timeout, log, env);
        msgs := msgs + sent;
        events := events + step.events;
        assert Step(View(), msgs, events) == Then(b, step);
        i := i + 1;
      }
      RedeliverAllStops(Step(View(), msgs, events), offsets[i..], consumer, max, timeout, log, env, maxRedeliveries);
    }

    /** New messages from `from` on, until the batch is full, the log ends or a record cannot be read. */
    method TakeFresh(already: seq<Message>, ghost before: seq<Event>, from: nat, consumer: seq<byte>, max: nat,
                     timeout: nat, log: seq<Entry>, env: Env) returns (msgs: seq<Message>, ghost events: seq<Event>)
      modifies this`leases
      ensures Step(View(), msgs, events)
           == old(TakeNew(Step(View(), already, before), from, consumer, max, timeout, log, env))
    {
      msgs, events := already, before;
      var nextOffset := from;
      ghost var all := TakeNew(Step(View(), msgs, events), nextOffset, consumer, max, timeout, log, env);
      while nextOffset < |log| && |msgs| < max
        invariant committed == old(committed)
        invariant all == TakeNew(Step(View(), msgs, events), nextOffset, consumer, max, timeout, log, env)
        decreases |log| - nextOffset
      {
        if !Reads(log, env, nextOffset) {
          break;
        }
        ghost var b := Step(View(), msgs, events);
        ghost var step := New(View(), nextOffset, consumer, timeout, log, env);
        leases := leases[nextOffset := Lease(consumer, env.now + timeout, 0, false)];
        msgs := msgs + [Message(nextOffset, log[nextOffset])];
        events := events + step.events;
        assert Step(View(), msgs, events) == Then(b, step);
        nextOffset := nextOffset + 1;
      }
    }

    /** A fetch: expired leases first, then new messages. */
    method FetchAvailable(consumer: seq<byte>, max: nat, timeout: nat, log: seq<Entry>, env: Env)
      returns (msgs: seq<Message>)
      requires Valid(log)
      modifies this`committed, this`leases, this`saved, this`dlq, this`history
      ensures Valid(log)
      ensures View() == old(DoFetch(View(), consumer, max, timeout, log, env, maxRedeliveries).s)
      ensures msgs == old(DoFetch(View(), consumer, max, timeout, log, env, maxRedeliveries).sent)
      ensures history == old(history) + old(DoFetch(View(), consumer, max, timeout, log, env, maxRedeliveries).events)
    {
      hide DoRedeliver, TakeNew, Follows, LegalRun, Replay, Window, End;
      InWindow(log);
      FetchFollows(View(), consumer, max, timeout, log, env, maxRedeliveries);
      ghost var step := DoFetch(View(), consumer, max, timeout, log, env, maxRedeliveries);
      HistoryGrows(step, log, env);
      RedeliveredWindow(View(), consumer, max, timeout, log, env, maxRedeliveries);
      ghost var events;
      msgs, events := RedeliverExpired(consumer, max, timeout, log, env);
      var nextOffset := NextOffset(|log|);
      msgs, events := TakeFresh(msgs, events, nextOffset, consumer, max, timeout, log, env);
      history := history + step.events;
    }

    lemma InWindow(log: seq<Entry>)
      requires Valid(log)
      ensures Window(Core(committed, leases), |log|)
    {
      WindowAlways(c0, history, maxRedeliveries, |log|);
    }

    /** Adding the events of a step keeps the history legal and leads it to the state after the step. */
    lemma HistoryGrows(step: Step, log: seq<Entry>, env: Env)
      requires Valid(log) && Follows(View(), step, log, env, maxRedeliveries)
      ensures LegalRun(Start(c0), history + step.events, maxRedeliveries, |log|)
      ensures step.s.core == Replay(Start(c0), history + step.events)
    {
      RunAppend(Start(c0), history, step.events, maxRedeliveries, |log|);
      ReplayAppend(Start(c0), history, step.events);
    }
  }

  /** One round of the redelivery loop. */
  lemma RedeliverAllStep(b: Step, offsets: seq<nat>, consumer: seq<byte>, max: nat, timeout: nat,
                         log: seq<Entry>, env: Env, limit: int)
    requires offsets != [] && |b.sent| < max
    requires Increasing(offsets) && AllExpired(b.s.core, offsets, env.now)
    ensures offsets[0] in b.s.core.leases
    ensures var t := Then(b, Redeliver(b.s, offsets[0], consumer, timeout, log, env, limit));
            && Increasing(offsets[1..]) && AllExpired(t.s.core, offsets[1..], env.now)
            && RedeliverAll(b, offsets, consumer, max, timeout, log, env, limit)
               == RedeliverAll(t, offsets[1..], consumer, max, timeout, log, env, limit)
  {
    hide Redeliver, AllExpired, Increasing;
    NextExpired(b.s, offsets, consumer, timeout, log, env, limit);
  }

  lemma RedeliverAllStops(b: Step, offsets: seq<nat>, consumer: seq<byte>, max: nat, timeout: nat,
                          log: seq<Entry>, env: Env, limit: int)
    requires offsets == [] || |b.sent| >= max
    requires Increasing(offsets) && AllExpired(b.s.core, offsets, env.now)
    ensures RedeliverAll(b, offsets, consumer, max, timeout, log, env, limit) == b
  {
  }

  lemma RedeliveredWindow(s: Snapshot, consumer: seq<byte>, max: nat, timeout: nat, log: seq<Entry>, env: Env, limit: int)
    requires Window(s.core, |log|)
    ensures Window(DoRedeliver(s, consumer, max, timeout, log, env, limit).s.core, |log|)
  {
    ExpiredAscending(s.core, env.now);
    NothingDone(s, log, env, limit);
    hide RedeliverAll, ExpiredSet, Window;
    RedeliverAllFollows(s, Step(s, [], []), Ascending(ExpiredSet(s.core, env.now)),
                        consumer, max, timeout, log, env, limit);
  }

  lemma DlqApart(s: Snapshot, dlq: seq<Copy>, c: Core, env: Env)
    ensures Committing(s.(dlq := dlq), c, env) == Committing(s, c, env).(dlq := dlq)
  {
  }

  /** The least element of a set is the first in its increasing listing. */
  lemma LeastIsFirst(s: set<nat>, found: bool, first: nat)
    requires found ==> first in s
    requires forall o :: o in s ==> found && first <= o
    ensures found <==> Ascending(s) != []
    ensures found ==> Ascending(s)[0] == first
  {
    var a := Ascending(s);
    if found {
      assert first in a;
      var i :| 0 <= i < |a| && a[i] == first;
      assert a[0] in a;
      assert first <= a[0];
    } else {
      NothingListed(a, s);
      assert s == {};
    }
  }
}
