/** The lease protocol of one consumer group, in its smallest steps.

  The group's memory is a committed offset and a map of leases. Five things can happen to it: a message is
  delivered (for the first time or again), a lease is nacked, acked, or given up to the dead-letter log. The
  operations of the broker are sequences of these events; what every history of events keeps is proved here.
*/
module Leases {
  import opened Bytes

  datatype Lease = Lease(consumer: seq<byte>, expiry: int, redeliveries: int, acked: bool)

  datatype Core = Core(committed: nat, leases: map<nat, Lease>)

  /** Where a nacked message goes: nowhere yet, or straight to a waiting consumer (`sent` if it could be read). */
  datatype Handoff = NoWaiter | To(consumer: seq<byte>, expiry: int, sent: bool)

  datatype Event =
    | Deliver(o: nat, consumer: seq<byte>, at: int, expiry: int)
    | Nack(o: nat, at: int, handoff: Handoff)
    | Ack(o: nat)
    | Dead(o: nat, at: int, copied: bool)

  // ---------------------------------------------------------------- one event

  /** One past the last leased offset. */
  function End(c: Core): nat
  {
    c.committed + |c.leases|
  }

  predicate Live(c: Core, o: nat)
  {
    o in c.leases && !c.leases[o].acked
  }

  predicate Expired(c: Core, o: nat, now: int)
  {
    Live(c, o) && now > c.leases[o].expiry
  }

  /** The first offset from `o` on that is not an acked lease. */
  function FirstOpen(leases: map<nat, Lease>, o: nat): (r: nat)
    ensures r >= o
    ensures r !in leases || !leases[r].acked
    ensures forall p :: o <= p < r ==> p in leases && leases[p].acked
    decreases set p | p in leases && p >= o
  {
    if o in leases && leases[o].acked then
      var here, later := set p | p in leases && p >= o, set p | p in leases && p >= o + 1;
      assert later <= here && o in here && o !in later;
      FirstOpen(leases, o + 1)
    else o
  }

  /** The committed offset moved past every acked lease at its front. */
  function Slide(c: Core): Core
  {
    var to := FirstOpen(c.leases, c.committed);
    Core(to, map p | p in c.leases && !(c.committed <= p < to) :: c.leases[p])
  }

  function Mark(c: Core, o: nat): Core
    requires o in c.leases
  {
    c.(leases := c.leases[o := c.leases[o].(acked := true)])
  }

  function Retire(c: Core, o: nat): Core
    requires o in c.leases
  {
    Slide(Mark(c, o))
  }

  /** When an event can happen. `limit` is the redelivery limit, `len` the length of the topic's log. */
  predicate Legal(c: Core, e: Event, limit: int, len: nat)
  {
    match e
    case Deliver(o, _, at, expiry) =>
      at <= expiry && ((o == End(c) && o < len) || (Expired(c, o, at) && c.leases[o].redeliveries < limit))
    case Nack(o, at, handoff) => Live(c, o) && (handoff.To? ==> at <= handoff.expiry)
    case Ack(o) => o in c.leases
    case Dead(o, at, _) => Expired(c, o, at) && c.leases[o].redeliveries >= limit
  }

  function Play(c: Core, e: Event): Core
  {
    match e
    case Deliver(o, consumer, _, expiry) =>
      var redeliveries := if o in c.leases then c.leases[o].redeliveries + 1 else 0;
      c.(leases := c.leases[o := Lease(consumer, expiry, redeliveries, false)])
    case Nack(o, at, handoff) =>
      if o !in c.leases then c
      else if handoff.To? then
        c.(leases := c.leases[o := c.leases[o].(consumer := handoff.consumer, expiry := handoff.expiry,
                                                redeliveries := c.leases[o].redeliveries + 1)])
      else c.(leases := c.leases[o := c.leases[o].(expiry := at)])
    case Ack(o) => if o in c.leases then Retire(c, o) else c
    case Dead(o, _, _) => if o in c.leases then Retire(c, o) else c
  }

  // ---------------------------------------------------------------- the window

  /** The leases are exactly those from the committed offset up to `End`, which does not pass the end of the
    log, and the one at the committed offset, if any, is not acked. */
  ghost predicate Window(c: Core, len: nat)
  {
    && (forall o :: o in c.leases <==> c.committed <= o < End(c))
    && (c.leases != map[] ==> End(c) <= len)
    && (c.committed in c.leases ==> !c.leases[c.committed].acked)
  }

  lemma {:induction false} IntervalSize(s: set<nat>, lo: nat, hi: nat)
    requires lo <= hi && forall o :: o in s <==> lo <= o < hi
    ensures |s| == hi - lo
  {
    if lo < hi {
      IntervalSize(s - {hi - 1}, lo, hi - 1);
    } else {
      assert s == {};
    }
  }

  lemma EndOf(c: Core, hi: nat)
    requires c.committed <= hi && forall o :: o in c.leases <==> c.committed <= o < hi
    ensures End(c) == hi
  {
    IntervalSize(c.leases.Keys, c.committed, hi);
    assert |c.leases| == |c.leases.Keys|;
  }

  /** Retiring an offset keeps the window and its end; an offset is left in it exactly if it was not retired
    at the front. */
  lemma RetireKeeps(c: Core, o: nat, len: nat)
    requires Window(c, len) && o in c.leases
    ensures Window(Retire(c, o), len) && End(Retire(c, o)) == End(c)
    ensures c.committed <= Retire(c, o).committed <= End(c)
  {
    var m := Mark(c, o);
    var r := Retire(c, o);
    assert |m.leases| == |c.leases| by {
      assert m.leases.Keys == c.leases.Keys;
    }
    assert End(c) !in m.leases;
    EndOf(r, End(c));
  }

  lemma SameKeysEnd(c: Core, d: Core)
    requires c.committed == d.committed && c.leases.Keys == d.leases.Keys
    ensures End(c) == End(d)
  {
    assert |c.leases| == |c.leases.Keys|;
    assert |d.leases| == |d.leases.Keys|;
  }

  /** Every legal event keeps the window; its end and its start never go back. */
  lemma WindowKept(c: Core, e: Event, limit: int, len: nat)
    requires Window(c, len) && Legal(c, e, limit, len)
    ensures Window(Play(c, e), len)
    ensures c.committed <= Play(c, e).committed && End(c) <= End(Play(c, e))
    ensures End(Play(c, e)) == (if e.Deliver? && e.o == End(c) then End(c) + 1 else End(c))
  {
    var d := Play(c, e);
    if e.Ack? || e.Dead? {
      RetireKeeps(c, e.o, len);
    } else if e.Deliver? && e.o == End(c) {
      EndOf(d, End(c) + 1);
    } else {
      assert d.leases.Keys == c.leases.Keys;
      SameKeysEnd(c, d);
    }
  }

  // ---------------------------------------------------------------- histories

  function Start(c0: nat): Core
  {
    Core(c0, map[])
  }

  function Replay(c: Core, h: seq<Event>): Core
  {
    if h == [] then c else Play(Replay(c, h[..|h| - 1]), h[|h| - 1])
  }

  predicate LegalRun(c: Core, h: seq<Event>, limit: int, len: nat)
  {
    h == [] || (LegalRun(c, h[..|h| - 1], limit, len) && Legal(Replay(c, h[..|h| - 1]), h[|h| - 1], limit, len))
  }

  lemma {:induction false} ReplayAppend(c: Core, h: seq<Event>, g: seq<Event>)
    ensures Replay(c, h + g) == Replay(Replay(c, h), g)
  {
    if g == [] {
      assert h + g == h;
    } else {
      ReplayAppend(c, h, g[..|g| - 1]);
      assert (h + g)[..|h + g| - 1] == h + g[..|g| - 1];
    }
  }

  lemma {:induction false} RunAppend(c: Core, h: seq<Event>, g: seq<Event>, limit: int, len: nat)
    ensures LegalRun(c, h + g, limit, len) <==> LegalRun(c, h, limit, len) && LegalRun(Replay(c, h), g, limit, len)
  {
    if g == [] {
      assert h + g == h;
    } else {
      RunAppend(c, h, g[..|g| - 1], limit, len);
      ReplayAppend(c, h, g[..|g| - 1]);
      assert (h + g)[..|h + g| - 1] == h + g[..|g| - 1];
    }
  }

  /** A longer log allows every history a shorter one does. */
  lemma {:induction false} LongerLog(c: Core, h: seq<Event>, limit: int, len: nat, longer: nat)
    requires LegalRun(c, h, limit, len) && len <= longer
    ensures LegalRun(c, h, limit, longer)
  {
    if h != [] {
      LongerLog(c, h[..|h| - 1], limit, len, longer);
    }
  }

  lemma {:induction false} LegalPrefix(c: Core, h: seq<Event>, k: nat, limit: int, len: nat)
    requires LegalRun(c, h, limit, len) && k <= |h|
    ensures LegalRun(c, h[..k], limit, len)
    ensures k < |h| ==> Legal(Replay(c, h[..k]), h[k], limit, len)
    ensures k < |h| ==> Replay(c, h[..k + 1]) == Play(Replay(c, h[..k]), h[k])
  {
    if k == |h| {
      assert h[..k] == h;
    } else {
      var front := h[..|h| - 1];
      if k < |front| {
        LegalPrefix(c, front, k, limit, len);
        assert front[..k] == h[..k] && front[..k + 1] == h[..k + 1];
      } else {
        assert h[..k + 1] == h;
      }
    }
    if k < |h| {
      assert h[..k + 1][..k] == h[..k];
    }
  }

  /** In every history the window holds at every moment. */
  lemma {:induction false} WindowAlways(c0: nat, h: seq<Event>, limit: int, len: nat)
    requires LegalRun(Start(c0), h, limit, len)
    ensures Window(Replay(Start(c0), h), len)
    ensures c0 <= Replay(Start(c0), h).committed
  {
    if h != [] {
      WindowAlways(c0, h[..|h| - 1], limit, len);
      WindowKept(Replay(Start(c0), h[..|h| - 1]), h[|h| - 1], limit, len);
    }
  }

  lemma {:induction false} WindowThrough(c: Core, h: seq<Event>, limit: int, len: nat)
    requires Window(c, len) && LegalRun(c, h, limit, len)
    ensures Window(Replay(c, h), len)
  {
    if h != [] {
      WindowThrough(c, h[..|h| - 1], limit, len);
      WindowKept(Replay(c, h[..|h| - 1]), h[|h| - 1], limit, len);
    }
  }

  /** A group that starts inside the log stays inside it. */
  lemma {:induction false} EndWithinLog(c0: nat, h: seq<Event>, limit: int, len: nat)
    requires LegalRun(Start(c0), h, limit, len) && c0 <= len
    ensures End(Replay(Start(c0), h)) <= len
  {
    if h != [] {
      var front := h[..|h| - 1];
      EndWithinLog(c0, front, limit, len);
      WindowAlways(c0, front, limit, len);
      WindowKept(Replay(Start(c0), front), h[|h| - 1], limit, len);
    }
  }

  // ---------------------------------------------------------------- nothing is lost

  predicate Retired(c: Core, o: nat)
  {
    o < c.committed || (o in c.leases && c.leases[o].acked)
  }

  predicate Retires(e: Event, o: nat)
  {
    (e.Ack? || e.Dead?) && e.o == o
  }

  /** Somewhere in the history `o` was acked or given up. */
  ghost predicate RetiredIn(h: seq<Event>, o: nat)
  {
    exists i :: 0 <= i < |h| && Retires(h[i], o)
  }

  /** An event retires the offset it is about, if it is an ack or a give-up, and no other. */
  lemma PlayRetires(c: Core, e: Event, limit: int, len: nat, o: nat)
    requires Window(c, len) && Legal(c, e, limit, len)
    ensures Retired(Play(c, e), o) <==> Retired(c, o) || Retires(e, o)
  {
    if e.Ack? || e.Dead? {
      var m, r := Mark(c, e.o), Retire(c, e.o);
      if c.committed <= o < r.committed {
        assert o in m.leases && m.leases[o].acked;
      } else if o in c.leases {
        assert o >= r.committed ==> o in r.leases && r.leases[o] == m.leases[o];
      }
    }
  }

  /** Nothing is lost and nothing is retired by accident: an offset from `c0` on is retired exactly if the
    history holds an ack of it or its dead-lettering. */
  lemma {:induction false} NothingLost(c0: nat, h: seq<Event>, limit: int, len: nat, o: nat)
    requires LegalRun(Start(c0), h, limit, len) && c0 <= o
    ensures Retired(Replay(Start(c0), h), o) <==> RetiredIn(h, o)
  {
    if h != [] {
      hide Window, RetiredIn, FirstOpen;
      var n := |h| - 1;
      var front := h[..n];
      NothingLost(c0, front, limit, len, o);
      WindowAlways(c0, front, limit, len);
      PlayRetires(Replay(Start(c0), front), h[n], limit, len, o);
      RetiredSnoc(h, o);
    }
  }

  lemma RetiredSnoc(h: seq<Event>, o: nat)
    requires h != []
    ensures RetiredIn(h, o) <==> RetiredIn(h[..|h| - 1], o) || Retires(h[|h| - 1], o)
  {
    var n := |h| - 1;
    var front := h[..n];
    if RetiredIn(front, o) {
      var i :| 0 <= i < n && Retires(front[i], o);
      assert Retires(h[i], o);
    }
    if RetiredIn(h, o) {
      var i :| 0 <= i < |h| && Retires(h[i], o);
      assert i < n ==> Retires(front[i], o);
    }
  }

  /** The sliding window refines a plain set of retired offsets: the committed offset is the least offset from
    `c0` on that the history has not retired. */
  lemma CommittedIsLeastUnretired(c0: nat, h: seq<Event>, limit: int, len: nat)
    requires LegalRun(Start(c0), h, limit, len)
    ensures var n := Replay(Start(c0), h).committed;
            c0 <= n && !RetiredIn(h, n) && forall o :: c0 <= o < n ==> RetiredIn(h, o)
  {
    var c := Replay(Start(c0), h);
    WindowAlways(c0, h, limit, len);
    NothingLost(c0, h, limit, len, c.committed);
    forall o | c0 <= o < c.committed
      ensures RetiredIn(h, o)
    {
      NothingLost(c0, h, limit, len, o);
    }
  }

  /** What each retirement meant when it happened: the offset was leased, and a give-up came after the lease
    had expired with its redeliveries used up. */
  lemma RetirementJustified(c0: nat, h: seq<Event>, limit: int, len: nat, i: nat)
    requires LegalRun(Start(c0), h, limit, len) && i < |h| && (h[i].Ack? || h[i].Dead?)
    ensures var c := Replay(Start(c0), h[..i]);
            && h[i].o in c.leases
            && (h[i].Dead? ==> c.leases[h[i].o].redeliveries >= limit && !c.leases[h[i].o].acked
                               && h[i].at > c.leases[h[i].o].expiry)
  {
    LegalPrefix(Start(c0), h, i, limit, len);
  }

  // ---------------------------------------------------------------- retirement is final

  lemma {:induction false} StaysRetired(c0: nat, h: seq<Event>, limit: int, len: nat, i: nat, o: nat)
    requires LegalRun(Start(c0), h, limit, len) && i < |h| && Retires(h[i], o)
    ensures Retired(Replay(Start(c0), h), o)
  {
    var n := |h| - 1;
    var front := h[..n];
    WindowAlways(c0, front, limit, len);
    if i < n {
      StaysRetired(c0, front, limit, len, i, o);
    }
    PlayRetires(Replay(Start(c0), front), h[n], limit, len, o);
  }

  /** Once an offset is acked or given up, the only event about it can be another ack, and that changes nothing. */
  lemma RetirementFinal(c0: nat, h: seq<Event>, limit: int, len: nat, i: nat, j: nat)
    requires LegalRun(Start(c0), h, limit, len) && i < j < |h|
    requires (h[i].Ack? || h[i].Dead?) && h[j].o == h[i].o
    ensures h[j].Ack?
    ensures Play(Replay(Start(c0), h[..j]), h[j]) == Replay(Start(c0), h[..j])
  {
    var o := h[i].o;
    LegalPrefix(Start(c0), h, j, limit, len);
    assert Retires(h[..j][i], o);
    StaysRetired(c0, h[..j], limit, len, i, o);
    WindowAlways(c0, h[..j], limit, len);
    AckAgain(Replay(Start(c0), h[..j]), o, len);
  }

  /** Acking an acked lease changes nothing. */
  lemma AckAgain(c: Core, o: nat, len: nat)
    requires Window(c, len)
    ensures o in c.leases && c.leases[o].acked ==> Retire(c, o) == c
  {
    if o in c.leases && c.leases[o].acked {
      assert Mark(c, o).leases == c.leases;
      assert Slide(c).leases == c.leases;
    }
  }
}
