/** What every history of a group says about deliveries: when a message may be seen twice, in which order
  messages are seen first, how often one is seen, and that the order of acks does not matter.
*/
module Deliveries {
  import opened Bytes
  import opened Leases

  /** The event puts the message `o` into a consumer's hands. */
  predicate Delivers(e: Event, o: nat)
  {
    e.o == o && (e.Deliver? || (e.Nack? && e.handoff.To? && e.handoff.sent))
  }

  /** How long the consumer has it. */
  function Until(e: Event): int
    requires Delivers(e, e.o)
  {
    if e.Deliver? then e.expiry else e.handoff.expiry
  }

  predicate Nacks(e: Event, o: nat)
  {
    e.Nack? && e.o == o
  }

  ghost predicate DeliveredIn(h: seq<Event>, o: nat)
  {
    exists i :: 0 <= i < |h| && Delivers(h[i], o)
  }

  /** A nack of `o` among the events from `from` up to `to`, both included. */
  ghost predicate NackedBetween(h: seq<Event>, o: nat, from: nat, to: nat)
  {
    exists k :: from <= k <= to && k < |h| && Nacks(h[k], o)
  }

  lemma EndAfter(c0: nat, h: seq<Event>, limit: int, len: nat)
    requires LegalRun(Start(c0), h, limit, len) && h != []
    ensures var n := |h| - 1;
            var c := Replay(Start(c0), h[..n]);
            && Window(c, len) && c0 <= c.committed
            && End(Replay(Start(c0), h)) == if h[n].Deliver? && h[n].o == End(c) then End(c) + 1 else End(c)
  {
    WindowAlways(c0, h[..|h| - 1], limit, len);
    WindowKept(Replay(Start(c0), h[..|h| - 1]), h[|h| - 1], limit, len);
  }

  lemma NothingLeased(c0: nat)
    ensures End(Start(c0)) == c0
  {
  }

  /** What has been delivered is exactly what lies between the starting offset and the end of the window. */
  lemma {:induction false} DeliveredExactly(c0: nat, h: seq<Event>, limit: int, len: nat, o: nat)
    requires LegalRun(Start(c0), h, limit, len)
    ensures DeliveredIn(h, o) <==> c0 <= o < End(Replay(Start(c0), h))
  {
    if h == [] {
      NothingLeased(c0);
    } else {
      var n := |h| - 1;
      var front := h[..n];
      EndAfter(c0, h, limit, len);
      hide DeliveredIn, Window;
      DeliveredExactly(c0, front, limit, len, o);
      DeliveredSnoc(h, o);
    }
  }

  lemma DeliveredSnoc(h: seq<Event>, o: nat)
    requires h != []
    ensures DeliveredIn(h, o) <==> DeliveredIn(h[..|h| - 1], o) || Delivers(h[|h| - 1], o)
  {
    var n := |h| - 1;
    var front := h[..n];
    if DeliveredIn(front, o) {
      var i :| 0 <= i < n && Delivers(front[i], o);
      assert Delivers(h[i], o);
    }
    if DeliveredIn(h, o) {
      var i :| 0 <= i < |h| && Delivers(h[i], o);
      assert i < n ==> Delivers(front[i], o);
    }
  }

  // ---------------------------------------------------------------- visibility

  /** A lease lasts at least as long as every delivery of its message promised, unless it was nacked since. */
  lemma {:induction false} LeaseOutlasts(c0: nat, h: seq<Event>, limit: int, len: nat, i: nat, o: nat)
    requires LegalRun(Start(c0), h, limit, len) && i < |h| && Delivers(h[i], o)
    requires Live(Replay(Start(c0), h), o)
    ensures Replay(Start(c0), h).leases[o].expiry >= Until(h[i]) || NackedBetween(h, o, i + 1, |h| - 1)
  {
    var n := |h| - 1;
    var front := h[..n];
    var c := Replay(Start(c0), front);
    if i < n {
      hide Window, FirstOpen;
      WindowAlways(c0, front, limit, len);
      assert Delivers(front[i], o);
      DeliveredExactly(c0, front, limit, len, o);
      PlayRetires(c, h[n], limit, len, o);
      assert Live(c, o);
      LeaseOutlasts(c0, front, limit, len, i, o);
      if NackedBetween(front, o, i + 1, n - 1) {
        var k :| i + 1 <= k <= n - 1 && Nacks(front[k], o);
        assert Nacks(h[k], o);
      } else if h[n].o == o && h[n].Nack? {
        assert Nacks(h[n], o);
      } else if h[n].o != o {
        OtherLease(c, h[n], o);
      }
    }
  }

  /** An event leaves the leases of other offsets alone, except that it may drop acked ones. */
  lemma OtherLease(c: Core, e: Event, o: nat)
    requires e.o != o && o in Play(c, e).leases
    ensures o in c.leases && Play(c, e).leases[o] == c.leases[o]
  {
  }

  /** A history that is not about `o` leaves it alone: it leases it neither for the first time nor again, and an unacked
    lease of it stays as it is, however the window slides. */
  lemma {:induction false} LeftAlone(c: Core, h: seq<Event>, limit: int, len: nat, o: nat)
    requires Window(c, len) && LegalRun(c, h, limit, len)
    requires forall i :: 0 <= i < |h| ==> h[i].o != o
    ensures var d := Replay(c, h);
            && (o in d.leases ==> o in c.leases && d.leases[o] == c.leases[o])
            && (Live(c, o) ==> Live(d, o))
            && (Retired(d, o) <==> Retired(c, o))
  {
    if h != [] {
      hide Window, FirstOpen;
      var n := |h| - 1;
      var before := Replay(c, h[..n]);
      LeftAlone(c, h[..n], limit, len, o);
      WindowThrough(c, h[..n], limit, len);
      PlayRetires(before, h[n], limit, len, o);
      if o in Play(before, h[n]).leases {
        OtherLease(before, h[n], o);
      }
      if Live(before, o) {
        StillLeased(before, h[n], limit, len, o);
      }
    }
  }

  /** An unacked lease that an event is not about is still there after it. */
  lemma StillLeased(c: Core, e: Event, limit: int, len: nat, o: nat)
    requires Window(c, len) && Legal(c, e, limit, len) && e.o != o && Live(c, o)
    ensures Live(Play(c, e), o)
  {
    WindowKept(c, e, limit, len);
    PlayRetires(c, e, limit, len, o);
  }

  /** Visibility: when a group gives out the same message twice, the second delivery comes strictly after the
    expiry of the first, unless the message was nacked in between (or the second delivery is itself the answer
    to a nack). */
  lemma VisibilityExclusion(c0: nat, h: seq<Event>, limit: int, len: nat, i: nat, j: nat, o: nat)
    requires LegalRun(Start(c0), h, limit, len) && i < j < |h|
    requires Delivers(h[i], o) && Delivers(h[j], o)
    ensures (h[j].Deliver? && h[j].at > Until(h[i])) || NackedBetween(h, o, i + 1, j)
  {
    if h[j].Nack? {
      assert Nacks(h[j], o);
    } else {
      var front := h[..j];
      LegalPrefix(Start(c0), h, j, limit, len);
      assert Delivers(front[i], o);
      DeliveredExactly(c0, front, limit, len, o);
      LeaseOutlasts(c0, front, limit, len, i, o);
      if NackedBetween(front, o, i + 1, j - 1) {
        var k :| i + 1 <= k <= j - 1 && k < |front| && Nacks(front[k], o);
        assert Nacks(h[k], o);
      }
    }
  }

  // ---------------------------------------------------------------- first deliveries

  /** The offsets in the order in which they are delivered for the first time. */
  ghost function FirstDeliveries(h: seq<Event>): seq<nat>
  {
    if h == [] then [] else
      var front, e := h[..|h| - 1], h[|h| - 1];
      if Delivers(e, e.o) && !DeliveredIn(front, e.o) then FirstDeliveries(front) + [e.o] else FirstDeliveries(front)
  }

  /** First deliveries are in order and without gaps: `c0`, `c0 + 1`, and so on up to the end of the window. */
  lemma {:induction false} FirstDeliveriesInOrder(c0: nat, h: seq<Event>, limit: int, len: nat)
    requires LegalRun(Start(c0), h, limit, len)
    ensures End(Replay(Start(c0), h)) == c0 + |FirstDeliveries(h)|
    ensures forall k :: 0 <= k < |FirstDeliveries(h)| ==> FirstDeliveries(h)[k] == c0 + k
  {
    if h == [] {
      NothingLeased(c0);
    } else {
      var n := |h| - 1;
      FirstDeliveriesInOrder(c0, h[..n], limit, len);
      EndAfter(c0, h, limit, len);
      DeliveredExactly(c0, h[..n], limit, len, h[n].o);
    }
  }

  // ---------------------------------------------------------------- how often

  function Count(h: seq<Event>, o: nat): nat
  {
    if h == [] then 0 else Count(h[..|h| - 1], o) + if Delivers(h[|h| - 1], o) then 1 else 0
  }

  /** Nacks of `o` that were answered by handing the message to a waiting consumer. */
  function Handoffs(h: seq<Event>, o: nat): nat
  {
    if h == [] then 0 else
      Handoffs(h[..|h| - 1], o) + if Nacks(h[|h| - 1], o) && h[|h| - 1].handoff.To? then 1 else 0
  }

  function NonNegative(limit: int): nat
  {
    if limit < 0 then 0 else limit
  }

  /** Redelivery bound: a lease has at most `limit` redeliveries plus one for every handoff, since handoffs do
    not look at the limit; and no message is delivered more than once beyond that. */
  lemma {:induction false} RedeliveryBound(c0: nat, h: seq<Event>, limit: int, len: nat, o: nat)
    requires LegalRun(Start(c0), h, limit, len)
    ensures var c := Replay(Start(c0), h);
            && (o in c.leases ==>
                  0 <= c.leases[o].redeliveries <= NonNegative(limit) + Handoffs(h, o)
                  && Count(h, o) <= 1 + c.leases[o].redeliveries)
            && (o >= End(c) ==> Count(h, o) == 0)
            && Count(h, o) <= 1 + NonNegative(limit) + Handoffs(h, o)
  {
    if h != [] {
      var n := |h| - 1;
      var c := Replay(Start(c0), h[..n]);
      RedeliveryBound(c0, h[..n], limit, len, o);
      EndAfter(c0, h, limit, len);
      if h[n].o != o && o in Play(c, h[n]).leases {
        OtherLease(c, h[n], o);
      }
    }
  }

  /** How often a message was given out otherwise than by a handoff: for the first time, or because its lease had
    run out. */
  function Leasings(h: seq<Event>, o: nat): nat
  {
    if h == [] then 0 else
      Leasings(h[..|h| - 1], o) + if h[|h| - 1].Deliver? && h[|h| - 1].o == o then 1 else 0
  }

  /** The limit does bound these: whatever handoffs there are in between, a message is given out once and then at
    most `limit` times again. */
  lemma {:induction false} LeasingsBounded(c0: nat, h: seq<Event>, limit: int, len: nat, o: nat)
    requires LegalRun(Start(c0), h, limit, len)
    ensures var c := Replay(Start(c0), h);
            && (o in c.leases ==> 0 <= c.leases[o].redeliveries && Leasings(h, o) <= 1 + c.leases[o].redeliveries)
            && (o >= End(c) ==> Leasings(h, o) == 0)
            && Leasings(h, o) <= 1 + NonNegative(limit)
  {
    if h != [] {
      var n := |h| - 1;
      var c := Replay(Start(c0), h[..n]);
      LeasingsBounded(c0, h[..n], limit, len, o);
      EndAfter(c0, h, limit, len);
      if h[n].o != o && o in Play(c, h[n]).leases {
        OtherLease(c, h[n], o);
      }
    }
  }

  // ---------------------------------------------------------------- the redelivery limit

  /** No lease has been redelivered more often than the limit allows. */
  predicate WithinLimit(c: Core, limit: int)
  {
    forall o :: o in c.leases ==> c.leases[o].redeliveries <= NonNegative(limit)
  }

  /** A nack is answered by a handoff although the lease has had all its redeliveries. */
  predicate HandsOn(c: Core, e: Event, limit: int)
  {
    e.Nack? && e.handoff.To? && e.o in c.leases && c.leases[e.o].redeliveries >= NonNegative(limit)
  }

  /** The limit is passed by exactly one kind of event: a handoff of a message that is at it already. */
  lemma LimitPassedExactly(c: Core, e: Event, limit: int, len: nat)
    requires Window(c, len) && Legal(c, e, limit, len) && WithinLimit(c, limit)
    ensures WithinLimit(Play(c, e), limit) <==> !HandsOn(c, e, limit)
  {
    var d := Play(c, e);
    forall p | p in d.leases && p != e.o
      ensures d.leases[p].redeliveries <= NonNegative(limit)
    {
      OtherLease(c, e, p);
    }
    if e.Nack? {
      assert e.o in d.leases;
    }
  }

  /** The limit has been respected at every moment of a history. */
  predicate LimitKept(c: Core, h: seq<Event>, limit: int)
  {
    forall k :: 0 <= k <= |h| ==> WithinLimit(Replay(c, h[..k]), limit)
  }

  predicate NeverHandsOn(c: Core, h: seq<Event>, limit: int)
  {
    forall k :: 0 <= k < |h| ==> !HandsOn(Replay(c, h[..k]), h[k], limit)
  }

  /** The redelivery limit, both ways: a history respects it at every moment if and only if no nack in it is
    answered by handing on a message that has reached the limit. */
  lemma {:induction false} LimitKeptExactly(c: Core, h: seq<Event>, limit: int, len: nat)
    requires Window(c, len) && WithinLimit(c, limit) && LegalRun(c, h, limit, len)
    ensures LimitKept(c, h, limit) <==> NeverHandsOn(c, h, limit)
  {
    if h == [] {
      assert h[..0] == h;
    } else {
      hide Window, WithinLimit, HandsOn, Play;
      var n := |h| - 1;
      var front := h[..n];
      LimitKeptExactly(c, front, limit, len);
      assert forall k :: 0 <= k <= n ==> front[..k] == h[..k];
      assert h[..|h|] == h && h[..n] == front;
      WindowThrough(c, front, limit, len);
      if LimitKept(c, front, limit) {
        assert front[..n] == front;
        LimitPassedExactly(Replay(c, front), h[n], limit, len);
      }
      LimitSnoc(c, h, limit);
    }
  }

  lemma LimitSnoc(c: Core, h: seq<Event>, limit: int)
    requires h != []
    ensures var front := h[..|h| - 1];
            && (LimitKept(c, h, limit) <==> LimitKept(c, front, limit) && WithinLimit(Replay(c, h), limit))
            && (NeverHandsOn(c, h, limit)
                <==> NeverHandsOn(c, front, limit) && !HandsOn(Replay(c, front), h[|h| - 1], limit))
  {
    hide WithinLimit, HandsOn, Replay;
    var n := |h| - 1;
    var front := h[..n];
    assert forall k :: 0 <= k <= n ==> front[..k] == h[..k];
    assert h[..|h|] == h;
    if LimitKept(c, h, limit) {
      forall k | 0 <= k <= n
        ensures WithinLimit(Replay(c, front[..k]), limit)
      {
        assert WithinLimit(Replay(c, h[..k]), limit);
      }
    }
    if NeverHandsOn(c, h, limit) {
      forall k | 0 <= k < n
        ensures !HandsOn(Replay(c, front[..k]), front[k], limit)
      {
        assert !HandsOn(Replay(c, h[..k]), h[k], limit);
      }
    }
  }

  lemma {:induction false} LimitKeptAppend(c: Core, h: seq<Event>, g: seq<Event>, limit: int)
    requires LimitKept(c, h, limit) && LimitKept(Replay(c, h), g, limit)
    ensures LimitKept(c, h + g, limit)
  {
    hide WithinLimit, Replay;
    forall k | 0 <= k <= |h + g|
      ensures WithinLimit(Replay(c, (h + g)[..k]), limit)
    {
      if k <= |h| {
        assert (h + g)[..k] == h[..k];
      } else {
        assert (h + g)[..k] == h + g[..k - |h|];
        ReplayAppend(c, h, g[..k - |h|]);
      }
    }
  }

  /** A history without handoffs respects the limit. */
  lemma NoHandoffKeepsLimit(c: Core, h: seq<Event>, limit: int, len: nat)
    requires Window(c, len) && WithinLimit(c, limit) && LegalRun(c, h, limit, len)
    requires forall i :: 0 <= i < |h| ==> !h[i].Nack?
    ensures LimitKept(c, h, limit) && WithinLimit(Replay(c, h), limit)
  {
    LimitKeptExactly(c, h, limit, len);
    assert h[..|h|] == h;
  }

  /** Where the limit is respected, it also bounds how often a message is delivered. */
  lemma {:induction false} LimitBoundsDeliveries(c0: nat, h: seq<Event>, limit: int, len: nat, o: nat)
    requires LegalRun(Start(c0), h, limit, len) && LimitKept(Start(c0), h, limit)
    ensures Count(h, o) <= 1 + NonNegative(limit)
  {
    if h != [] {
      LimitSnoc(Start(c0), h, limit);
      LimitBoundsDeliveries(c0, h[..|h| - 1], limit, len, o);
      RedeliveryBound(c0, h, limit, len, o);
    }
  }

  /** The limit can be passed: nothing may be redelivered, and yet a message is, to a second consumer who waited. */
  lemma LimitCanBePassed(a: seq<byte>, b: seq<byte>, len: nat)
    requires len >= 1
    ensures var h := [Deliver(0, a, 0, 5), Nack(0, 1, To(b, 6, true))];
            && LegalRun(Start(0), h, 0, len)
            && Count(h, 0) == 2
            && !WithinLimit(Replay(Start(0), h), 0)
  {
    var d, n := Deliver(0, a, 0, 5), Nack(0, 1, To(b, 6, true));
    var h := [d, n];
    assert h[..1] == [d] && [d][..0] == [];
    assert Replay(Start(0), [d]) == Play(Start(0), d);
    assert 0 in Replay(Start(0), h).leases;
    assert Count([d], 0) == 1;
  }

  // ---------------------------------------------------------------- the order of acks

  /** Every offset of `s` marked acked, if leased. */
  function MarkAll(c: Core, s: set<nat>): Core
  {
    c.(leases := map p | p in c.leases :: c.leases[p].(acked := c.leases[p].acked || p in s))
  }

  function AckAll(c: Core, os: seq<nat>): Core
  {
    if os == [] then c else Play(AckAll(c, os[..|os| - 1]), Ack(os[|os| - 1]))
  }

  lemma FirstOpenIs(leases: map<nat, Lease>, o: nat, r: nat)
    requires r >= o && (r !in leases || !leases[r].acked)
    requires forall p :: o <= p < r ==> p in leases && leases[p].acked
    ensures FirstOpen(leases, o) == r
  {
  }

  lemma AckInside(c: Core, s: set<nat>, o: nat)
    requires o in Slide(MarkAll(c, s)).leases
    ensures Retire(Slide(MarkAll(c, s)), o).committed == Slide(MarkAll(c, s + {o})).committed
  {
    var m, m' := MarkAll(c, s), MarkAll(c, s + {o});
    var d := Slide(m);
    var marked := Mark(d, o);
    var r := Retire(d, o);
    forall p | c.committed <= p < r.committed
      ensures p in m'.leases && m'.leases[p].acked
    {
      if p < d.committed {
        assert m.leases[p].acked;
      } else {
        assert marked.leases[p].acked;
      }
    }
    FirstOpenIs(m'.leases, c.committed, r.committed);
  }

  /** One more ack on a window from which a set of acks has already been slid out. */
  lemma AckOneMore(c: Core, s: set<nat>, o: nat)
    requires o in c.leases
    ensures Play(Slide(MarkAll(c, s)), Ack(o)) == Slide(MarkAll(c, s + {o}))
  {
    var m, m' := MarkAll(c, s), MarkAll(c, s + {o});
    var d := Slide(m);
    if o in d.leases {
      AckInside(c, s, o);
      assert Retire(d, o).leases == Slide(m').leases;
    } else {
      assert m.leases[o].acked;
      assert m.leases == m'.leases;
    }
  }

  function Elements(os: seq<nat>): set<nat>
  {
    set o | o in os
  }

  lemma ElementsSnoc(os: seq<nat>, o: nat)
    ensures Elements(os + [o]) == Elements(os) + {o}
  {
  }

  /** Acking a sequence of leased offsets is marking them all and sliding once. */
  lemma {:induction false} AckAllIsSlide(c: Core, os: seq<nat>, len: nat)
    requires Window(c, len) && forall o :: o in os ==> o in c.leases
    ensures AckAll(c, os) == Slide(MarkAll(c, Elements(os)))
  {
    if os == [] {
      MarkNothing(c, len);
    } else {
      hide Slide, MarkAll, Elements, Play, Window;
      var n := |os| - 1;
      assert os == os[..n] + [os[n]];
      AckAllIsSlide(c, os[..n], len);
      ElementsSnoc(os[..n], os[n]);
      AckOneMore(c, Elements(os[..n]), os[n]);
    }
  }

  lemma MarkNothing(c: Core, len: nat)
    requires Window(c, len)
    ensures Slide(MarkAll(c, Elements([]))) == c
  {
    assert Elements([]) == {};
    assert MarkAll(c, {}).leases == c.leases;
    assert Slide(c).leases == c.leases;
  }

  /** The order of acks does not matter, and neither do repetitions: acking the same leased offsets in any two
    ways ends in the same committed offset and the same leases. */
  lemma AckOrderIrrelevant(c: Core, os: seq<nat>, ps: seq<nat>, len: nat)
    requires Window(c, len) && (forall o :: o in os ==> o in c.leases)
    requires forall o :: o in os <==> o in ps
    ensures AckAll(c, os) == AckAll(c, ps)
  {
    AckAllIsSlide(c, os, len);
    AckAllIsSlide(c, ps, len);
    hide Slide, MarkAll, AckAll;
    assert Elements(os) == Elements(ps);
  }
}
