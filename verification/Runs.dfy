/** Whole runs of one consumer group beside a growing log: any operations in any order, with whatever the clock,
  the disk and the dead-letter topic answer, and any number of restarts from the saved offset.
*/
module Runs {
  import opened Bytes
  import opened Records
  import opened Leases
  import opened Deliveries
  import opened Sorting
  import opened Group
  import opened Batches

  datatype Sys = Sys(s: Snapshot, log: seq<Entry>)

  datatype Op =
    | Produce(e: Entry)
    | Fetch(consumer: seq<byte>, max: nat, timeout: nat)
    | Wait(w: Waiter)
    | Leave(i: nat)
    | Dispatch(o: nat)
    | AckMessage(o: nat)
    | NackMessage(o: nat)
    | CheckLeases

  datatype Move = Move(op: Op, env: Env)

  datatype Outcome = Outcome(sys: Sys, sent: seq<Message>, history: seq<Event>)

  /** One operation: the system after it, the messages it sent and the events it consisted of. */
  ghost function Apply(sys: Sys, m: Move, limit: int): Outcome
  {
    var s := sys.s;
    match m.op
    case Produce(e) => Outcome(sys.(log := sys.log + [e]), [], [])
    case Wait(w) => Outcome(sys.(s := s.(waiters := s.waiters + [w])), [], [])
    case Leave(i) =>
      Outcome(if i < |s.waiters| then sys.(s := s.(waiters := s.waiters[..i] + s.waiters[i + 1..])) else sys, [], [])
    case Fetch(consumer, max, timeout) => After(sys, DoFetch(s, consumer, max, timeout, sys.log, m.env, limit))
    case Dispatch(o) => if o < |sys.log| then After(sys, DoDispatch(s, o, sys.log, m.env)) else Outcome(sys, [], [])
    case AckMessage(o) => After(sys, DoAck(s, o, m.env).0)
    case NackMessage(o) => After(sys, DoNack(s, o, sys.log, m.env).0)
    case CheckLeases => After(sys, DoExpire(s, sys.log, m.env, limit))
  }

  function After(sys: Sys, b: Step): Outcome
  {
    Outcome(sys.(s := b.s), b.sent, b.events)
  }

  ghost function Run(sys: Sys, moves: seq<Move>, limit: int): Outcome
  {
    if moves == [] then Outcome(sys, [], []) else
      var r := Run(sys, moves[..|moves| - 1], limit);
      var a := Apply(r.sys, moves[|moves| - 1], limit);
      Outcome(a.sys, r.sent + a.sent, r.history + a.history)
  }

  // ---------------------------------------------------------------- one operation

  /** One operation is a legal history from the group's state to its next, adds to the dead-letter log exactly
    what that history copied, moves the saved offset only with the committed one, and at most extends the log. */
  ghost predicate Sound(sys: Sys, a: Outcome, env: Env, limit: int)
  {
    && Follows(sys.s, Step(a.sys.s, a.sent, a.history), sys.log, env, limit)
    && sys.log <= a.sys.log
    && (a.history != [] ==> a.sys.log == sys.log)
  }

  lemma OperationIsSound(sys: Sys, m: Move, limit: int)
    requires Window(sys.s.core, |sys.log|)
    ensures Sound(sys, Apply(sys, m, limit), m.env, limit)
  {
    var s := sys.s;
    var log := sys.log;
    match m.op {
      case Produce(_) => NothingDone(s, log, m.env, limit);
      case Wait(_) => NothingDone(s, log, m.env, limit);
      case Leave(_) => NothingDone(s, log, m.env, limit);
      case Fetch(consumer, max, timeout) => FetchFollows(s, consumer, max, timeout, log, m.env, limit);
      case Dispatch(o) =>
        NothingDone(s, log, m.env, limit);
        if o < |log| {
          DispatchFollows(s, o, log, m.env, limit);
        }
      case AckMessage(o) => AckFollows(s, o, log, m.env, limit);
      case NackMessage(o) => NackFollows(s, o, log, m.env, limit);
      case CheckLeases => ExpireFollows(s, log, m.env, limit);
    }
  }

  // ---------------------------------------------------------------- whole runs

  /** A group as a process finds it: nothing leased, nobody waiting, the committed offset the saved one. */
  predicate Fresh(sys: Sys, c0: nat)
  {
    sys.s.core == Start(c0) && sys.s.saved == c0
  }

  /** What every run from a fresh group comes to. */
  ghost predicate RunSound(sys: Sys, c0: nat, r: Outcome, limit: int)
  {
    && LegalRun(Start(c0), r.history, limit, |r.sys.log|)
    && r.sys.s.core == Replay(Start(c0), r.history)
    && sys.log <= r.sys.log
    && c0 <= r.sys.s.saved <= r.sys.s.core.committed
    && r.sent == SentBy(r.history, r.sys.log)
    && r.sys.s.dlq == sys.s.dlq + CopiedBy(r.history, r.sys.log)
  }

  lemma LegalInLog(c: Core, e: Event, limit: int, len: nat)
    requires Window(c, len) && Legal(c, e, limit, len) && !e.Ack?
    ensures e.o < len
  {
    if e.o in c.leases {
      assert e.o < End(c);
    }
  }

  /** Copies taken and messages sent from a log are the same for any longer one. */
  lemma {:induction false} CopiedLonger(c0: nat, h: seq<Event>, limit: int, log: seq<Entry>, longer: seq<Entry>)
    requires LegalRun(Start(c0), h, limit, |log|) && log <= longer
    ensures CopiedBy(h, longer) == CopiedBy(h, log) && SentBy(h, longer) == SentBy(h, log)
  {
    if h != [] {
      var n := |h| - 1;
      CopiedLonger(c0, h[..n], limit, log, longer);
      WindowAlways(c0, h[..n], limit, |log|);
      if !h[n].Ack? {
        LegalInLog(Replay(Start(c0), h[..n]), h[n], limit, |log|);
      }
    }
  }

  lemma RunStep(sys: Sys, c0: nat, r: Outcome, a: Outcome, env: Env, limit: int)
    requires RunSound(sys, c0, r, limit) && Sound(r.sys, a, env, limit)
    ensures RunSound(sys, c0, Outcome(a.sys, r.sent + a.sent, r.history + a.history), limit)
  {
    hide CopiedBy, LegalRun, Replay, SentBy, Window;
    var h := r.history + a.history;
    LongerLog(Start(c0), r.history, limit, |r.sys.log|, |a.sys.log|);
    LongerLog(r.sys.s.core, a.history, limit, |r.sys.log|, |a.sys.log|);
    RunAppend(Start(c0), r.history, a.history, limit, |a.sys.log|);
    ReplayAppend(Start(c0), r.history, a.history);
    CopiedLonger(c0, r.history, limit, r.sys.log, a.sys.log);
    SentAppend(r.history, a.history, a.sys.log);
    EmptyCopies(r.sys.log, a.sys.log);
    assert SentBy(a.history, a.sys.log) == a.sent;
    assert sys.s.dlq + CopiedBy(r.history, a.sys.log) + CopiedBy(a.history, a.sys.log)
        == sys.s.dlq + (CopiedBy(r.history, a.sys.log) + CopiedBy(a.history, a.sys.log));
  }

  lemma EmptyCopies(log: seq<Entry>, longer: seq<Entry>)
    ensures CopiedBy([], log) == CopiedBy([], longer) == []
    ensures SentBy([], log) == SentBy([], longer) == []
  {
  }

  /** Every run of operations, whatever the surroundings answer, is a legal history of the lease protocol: the
    group's state is what the history says, the saved offset never passes the committed one, and the dead-letter
    log has grown by exactly the records copied, one for each give-up whose read and append worked. */
  lemma {:induction false} RunIsLegal(sys: Sys, c0: nat, moves: seq<Move>, limit: int)
    requires Fresh(sys, c0)
    ensures RunSound(sys, c0, Run(sys, moves, limit), limit)
  {
    if moves == [] {
      assert sys.s.dlq + [] == sys.s.dlq;
    } else {
      hide RunSound, Sound, Apply, Window;
      var n := |moves| - 1;
      RunIsLegal(sys, c0, moves[..n], limit);
      var r := Run(sys, moves[..n], limit);
      RunWindow(sys, c0, r, limit);
      OperationIsSound(r.sys, moves[n], limit);
      RunStep(sys, c0, r, Apply(r.sys, moves[n], limit), moves[n].env, limit);
    }
  }

  lemma RunWindow(sys: Sys, c0: nat, r: Outcome, limit: int)
    requires RunSound(sys, c0, r, limit)
    ensures Window(r.sys.s.core, |r.sys.log|)
  {
    WindowAlways(c0, r.history, limit, |r.sys.log|);
  }

  // ---------------------------------------------------------------- what every run keeps

  /** Window, accounting and order in every reachable state. */
  lemma EveryStateIsAccountedFor(sys: Sys, c0: nat, moves: seq<Move>, limit: int)
    requires Fresh(sys, c0)
    ensures var r := Run(sys, moves, limit);
            var c := r.sys.s.core;
            && Window(c, |r.sys.log|)
            && (forall o :: c0 <= o ==> (Retired(c, o) <==> RetiredIn(r.history, o)))
            && (forall o: nat :: DeliveredIn(r.history, o) <==> c0 <= o < End(c))
            && End(c) == c0 + |FirstDeliveries(r.history)|
            && (forall k :: 0 <= k < |FirstDeliveries(r.history)| ==> FirstDeliveries(r.history)[k] == c0 + k)
  {
    hide Run, Retired, RetiredIn, DeliveredIn, FirstDeliveries, Window, End;
    RunIsLegal(sys, c0, moves, limit);
    var r := Run(sys, moves, limit);
    RunWindow(sys, c0, r, limit);
    FirstDeliveriesInOrder(c0, r.history, limit, |r.sys.log|);
    forall o | c0 <= o
      ensures Retired(r.sys.s.core, o) <==> RetiredIn(r.history, o)
    {
      NothingLost(c0, r.history, limit, |r.sys.log|, o);
    }
    forall o: nat
      ensures DeliveredIn(r.history, o) <==> c0 <= o < End(r.sys.s.core)
    {
      DeliveredExactly(c0, r.history, limit, |r.sys.log|, o);
    }
  }

  /** Safety of any two events of a run about the same message: deliveries do not overlap unless a nack
    intervenes, and after a retirement nothing but idle acks follows. */
  lemma EveryPairIsSafe(sys: Sys, c0: nat, moves: seq<Move>, limit: int, i: nat, j: nat)
    requires Fresh(sys, c0)
    requires var h := Run(sys, moves, limit).history; i < j < |h| && h[i].o == h[j].o
    ensures var h := Run(sys, moves, limit).history;
            var o := h[i].o;
            && (Delivers(h[i], o) && Delivers(h[j], o)
                ==> (h[j].Deliver? && h[j].at > Until(h[i])) || NackedBetween(h, o, i + 1, j))
            && (Retires(h[i], o) ==> h[j].Ack? && Play(Replay(Start(c0), h[..j]), h[j]) == Replay(Start(c0), h[..j]))
  {
    RunIsLegal(sys, c0, moves, limit);
    var r := Run(sys, moves, limit);
    var o := r.history[i].o;
    if Delivers(r.history[i], o) && Delivers(r.history[j], o) {
      VisibilityExclusion(c0, r.history, limit, |r.sys.log|, i, j, o);
    }
    if Retires(r.history[i], o) {
      RetirementFinal(c0, r.history, limit, |r.sys.log|, i, j);
    }
  }

  /** No message is delivered more often in a run than the redelivery limit and its handoffs allow. */
  lemma EveryMessageIsBounded(sys: Sys, c0: nat, moves: seq<Move>, limit: int, o: nat)
    requires Fresh(sys, c0)
    ensures var r := Run(sys, moves, limit);
            && Count(r.history, o) <= 1 + NonNegative(limit) + Handoffs(r.history, o)
            && (o in r.sys.s.core.leases ==>
                  r.sys.s.core.leases[o].redeliveries <= NonNegative(limit) + Handoffs(r.history, o))
  {
    RunIsLegal(sys, c0, moves, limit);
    var r := Run(sys, moves, limit);
    RedeliveryBound(c0, r.history, limit, |r.sys.log|, o);
  }

  /** Every event of a run happened in one of its moves, and says what the surroundings answered there: when it
    was, whether a dead letter could be read and copied, whether a handoff could be read. */
  lemma {:induction false} EveryEventIsTruthful(sys: Sys, c0: nat, moves: seq<Move>, limit: int, i: nat) returns (k: nat)
    requires Fresh(sys, c0) && i < |Run(sys, moves, limit).history|
    ensures k < |moves|
    ensures |Run(sys, moves[..k], limit).history| <= i < |Run(sys, moves[..k + 1], limit).history|
    ensures Truthful(Run(sys, moves, limit).history[i], Run(sys, moves[..k], limit).sys.log, moves[k].env)
  {
    var n := |moves| - 1;
    var before := Run(sys, moves[..n], limit);
    if i < |before.history| {
      hide Truthful;
      k := EveryEventIsTruthful(sys, c0, moves[..n], limit, i);
      assert moves[..n][..k] == moves[..k] && moves[..n][..k + 1] == moves[..k + 1];
    } else {
      hide Apply, Truthful, Window;
      k := n;
      RunIsLegal(sys, c0, moves[..n], limit);
      RunWindow(sys, c0, before, limit);
      OperationIsSound(before.sys, moves[n], limit);
      assert moves[..n + 1] == moves;
    }
  }

  // ---------------------------------------------------------------- a record that cannot be read

  /** No move reads `o`, and it is never offered as a fresh message. */
  predicate NeverReads(moves: seq<Move>, o: nat)
  {
    forall i :: 0 <= i < |moves| ==> o in moves[i].env.unreadable && moves[i].op != Dispatch(o)
  }

  /** Operations other than fetches are one event at most, and only a dispatch leases anything new. */
  lemma OneEventAtMost(sys: Sys, m: Move, limit: int)
    requires !m.op.Fetch?
    ensures var h := Apply(sys, m, limit).history;
            |h| <= 1 && (h != [] && h[0].Deliver? ==> h[0].o in sys.s.core.leases || m.op == Dispatch(h[0].o))
  {
    hide DoFetch, Retire, Committing, End;
    var expired := Ascending(ExpiredSet(sys.s.core, m.env.now));
    assert expired != [] ==> expired[0] in expired;
  }

  lemma OneEventEnd(c: Core, h: seq<Event>, limit: int, len: nat, o: nat)
    requires Window(c, len) && LegalRun(c, h, limit, len) && |h| <= 1 && End(c) <= o
    requires h != [] && h[0].Deliver? ==> h[0].o in c.leases || h[0].o != o
    ensures End(Replay(c, h)) <= o
  {
    if h != [] {
      assert h[..0] == [];
      WindowKept(c, h[0], limit, len);
    }
  }

  lemma EndStops(sys: Sys, m: Move, limit: int, o: nat)
    requires Window(sys.s.core, |sys.log|) && End(sys.s.core) <= o
    requires o in m.env.unreadable && m.op != Dispatch(o)
    ensures End(Apply(sys, m, limit).sys.s.core) <= o
  {
    if m.op.Fetch? {
      hide DoFetch, Window, End;
      assert !Reads(sys.log, m.env, o);
      FetchEnd(sys.s, m.op.consumer, m.op.max, m.op.timeout, sys.log, m.env, limit);
    } else {
      hide Apply, Window, End, Replay, LegalRun;
      OperationIsSound(sys, m, limit);
      OneEventAtMost(sys, m, limit);
      OneEventEnd(sys.s.core, Apply(sys, m, limit).history, limit, |sys.log|, o);
    }
  }

  /** A record that cannot be read stops a group for good: no run in which it stays unreadable gets past it, neither
    with deliveries nor with the committed offset. */
  lemma {:induction false} UnreadableStops(sys: Sys, c0: nat, moves: seq<Move>, limit: int, o: nat)
    requires Fresh(sys, c0) && c0 <= o && NeverReads(moves, o)
    ensures var r := Run(sys, moves, limit);
            && End(r.sys.s.core) <= o && r.sys.s.core.committed <= o
            && forall p :: p >= o ==> !DeliveredIn(r.history, p)
  {
    var r := Run(sys, moves, limit);
    if moves == [] {
      NothingLeased(c0);
    } else {
      hide Apply, Window, End;
      var n := |moves| - 1;
      UnreadableStops(sys, c0, moves[..n], limit, o);
      RunIsLegal(sys, c0, moves[..n], limit);
      RunWindow(sys, c0, Run(sys, moves[..n], limit), limit);
      EndStops(Run(sys, moves[..n], limit).sys, moves[n], limit, o);
    }
    forall p | p >= o
      ensures !DeliveredIn(r.history, p)
    {
      hide Run, DeliveredIn, Window, End;
      RunIsLegal(sys, c0, moves, limit);
      DeliveredExactly(c0, r.history, limit, |r.sys.log|, p);
    }
  }

  // ---------------------------------------------------------------- the redelivery limit

  /** The move is a nack that is answered by a handoff, of a message that has had all its redeliveries. */
  predicate PassesOn(sys: Sys, m: Move, limit: int)
  {
    && m.op.NackMessage? && sys.s.waiters != []
    && Live(sys.s.core, m.op.o) && sys.s.core.leases[m.op.o].redeliveries >= NonNegative(limit)
  }

  lemma OnlyNacksNack(sys: Sys, m: Move, limit: int)
    requires !m.op.NackMessage?
    ensures var h := Apply(sys, m, limit).history;
            forall i :: 0 <= i < |h| ==> !h[i].Nack?
  {
    if m.op.Fetch? {
      hide DoFetch;
      FetchStamps(sys.s, m.op.consumer, m.op.max, m.op.timeout, sys.log, m.env, limit);
    } else {
      hide DoFetch, Retire, Committing;
    }
  }

  lemma NackLimit(s: Snapshot, o: nat, log: seq<Entry>, env: Env, limit: int)
    requires Window(s.core, |log|) && WithinLimit(s.core, limit)
    ensures var b := DoNack(s, o, log, env).0;
            && (WithinLimit(b.s.core, limit) <==> !PassesOn(Sys(s, log), Move(NackMessage(o), env), limit))
            && (WithinLimit(b.s.core, limit) ==> LimitKept(s.core, b.events, limit))
  {
    var h := DoNack(s, o, log, env).0.events;
    NackFollows(s, o, log, env, limit);
    if h != [] {
      hide WithinLimit, Window;
      assert h[..0] == [] && h[..1] == h;
      assert Replay(s.core, h) == Play(s.core, h[0]);
      LimitPassedExactly(s.core, h[0], limit, |log|);
    }
  }

  /** One operation takes a lease past the limit exactly if it passes on a message that has reached it. */
  lemma OperationLimit(sys: Sys, m: Move, limit: int)
    requires Window(sys.s.core, |sys.log|) && WithinLimit(sys.s.core, limit)
    ensures var a := Apply(sys, m, limit);
            && (WithinLimit(a.sys.s.core, limit) <==> !PassesOn(sys, m, limit))
            && (WithinLimit(a.sys.s.core, limit) ==> LimitKept(sys.s.core, a.history, limit))
  {
    if m.op.NackMessage? {
      NackLimit(sys.s, m.op.o, sys.log, m.env, limit);
    } else {
      hide Apply, Window, WithinLimit, LegalRun, Replay;
      OperationIsSound(sys, m, limit);
      OnlyNacksNack(sys, m, limit);
      NoHandoffKeepsLimit(sys.s.core, Apply(sys, m, limit).history, limit, |sys.log|);
    }
  }

  ghost predicate RespectedAfter(sys: Sys, moves: seq<Move>, k: nat, limit: int)
    requires k <= |moves|
  {
    WithinLimit(Run(sys, moves[..k], limit).sys.s.core, limit)
  }

  /** After every move the limit is respected. */
  ghost predicate LimitRespected(sys: Sys, moves: seq<Move>, limit: int)
  {
    forall k :: 0 <= k <= |moves| ==> RespectedAfter(sys, moves, k, limit)
  }

  ghost predicate NeverPassesOn(sys: Sys, moves: seq<Move>, limit: int)
  {
    forall k :: 0 <= k < |moves| ==> !PassesOn(Run(sys, moves[..k], limit).sys, moves[k], limit)
  }

  lemma RespectedPrefix(sys: Sys, moves: seq<Move>, k: nat, limit: int)
    requires k < |moves|
    ensures RespectedAfter(sys, moves[..|moves| - 1], k, limit) == RespectedAfter(sys, moves, k, limit)
  {
    assert moves[..|moves| - 1][..k] == moves[..k];
  }

  lemma RespectedAtEnd(sys: Sys, moves: seq<Move>, limit: int)
    ensures RespectedAfter(sys, moves, |moves|, limit) == WithinLimit(Run(sys, moves, limit).sys.s.core, limit)
  {
    assert moves[..|moves|] == moves;
  }

  lemma RespectedSnoc(sys: Sys, moves: seq<Move>, limit: int)
    requires moves != []
    ensures LimitRespected(sys, moves, limit)
       <==> LimitRespected(sys, moves[..|moves| - 1], limit) && WithinLimit(Run(sys, moves, limit).sys.s.core, limit)
  {
    hide RespectedAfter, WithinLimit, Run;
    var front := moves[..|moves| - 1];
    RespectedAtEnd(sys, moves, limit);
    if LimitRespected(sys, front, limit) {
      forall k | 0 <= k < |moves|
        ensures RespectedAfter(sys, moves, k, limit)
      {
        RespectedPrefix(sys, moves, k, limit);
      }
    }
    if LimitRespected(sys, moves, limit) {
      forall k | 0 <= k <= |front|
        ensures RespectedAfter(sys, front, k, limit)
      {
        RespectedPrefix(sys, moves, k, limit);
      }
    }
  }

  lemma PassesOnSnoc(sys: Sys, moves: seq<Move>, limit: int)
    requires moves != []
    ensures var n := |moves| - 1;
            NeverPassesOn(sys, moves, limit) <==>
              NeverPassesOn(sys, moves[..n], limit) && !PassesOn(Run(sys, moves[..n], limit).sys, moves[n], limit)
  {
    hide PassesOn, Run;
    var front := moves[..|moves| - 1];
    forall k | 0 <= k < |front|
      ensures PassesOn(Run(sys, front[..k], limit).sys, front[k], limit)
           == PassesOn(Run(sys, moves[..k], limit).sys, moves[k], limit)
    {
      assert front[..k] == moves[..k];
    }
  }

  /** The redelivery limit over whole runs, both ways: it is respected in every state of a run if and only if no
    message that has reached it is nacked while a fetch is waiting. Then it also bounds deliveries. */
  lemma {:induction false} LimitRespectedExactly(sys: Sys, c0: nat, moves: seq<Move>, limit: int)
    requires Fresh(sys, c0)
    ensures LimitRespected(sys, moves, limit) <==> NeverPassesOn(sys, moves, limit)
    ensures LimitRespected(sys, moves, limit) ==>
              LimitKept(Start(c0), Run(sys, moves, limit).history, limit)
              && forall o :: Count(Run(sys, moves, limit).history, o) <= 1 + NonNegative(limit)
  {
    var r := Run(sys, moves, limit);
    if moves != [] {
      hide WithinLimit, PassesOn, Window, Apply, LimitKept, LimitRespected, NeverPassesOn;
      var n := |moves| - 1;
      var before := Run(sys, moves[..n], limit);
      LimitRespectedExactly(sys, c0, moves[..n], limit);
      RespectedSnoc(sys, moves, limit);
      PassesOnSnoc(sys, moves, limit);
      RunIsLegal(sys, c0, moves[..n], limit);
      RunWindow(sys, c0, before, limit);
      if LimitRespected(sys, moves[..n], limit) {
        RespectedAtEnd(sys, moves[..n], limit);
        OperationLimit(before.sys, moves[n], limit);
        if LimitRespected(sys, moves, limit) {
          LimitKeptAppend(Start(c0), before.history, Apply(before.sys, moves[n], limit).history, limit);
        }
      }
    } else {
      assert moves[..0] == moves;
      assert r.history == [] && r.history[..0] == [];
    }
    if LimitRespected(sys, moves, limit) {
      hide *;
      BoundedDeliveries(sys, c0, moves, limit);
    }
  }

  lemma BoundedDeliveries(sys: Sys, c0: nat, moves: seq<Move>, limit: int)
    requires Fresh(sys, c0) && LimitKept(Start(c0), Run(sys, moves, limit).history, limit)
    ensures forall o :: Count(Run(sys, moves, limit).history, o) <= 1 + NonNegative(limit)
  {
    hide LimitKept, Count, NonNegative, Run;
    RunIsLegal(sys, c0, moves, limit);
    var r := Run(sys, moves, limit);
    forall o
      ensures Count(r.history, o) <= 1 + NonNegative(limit)
    {
      LimitBoundsDeliveries(c0, r.history, limit, |r.sys.log|, o);
    }
  }

  lemma FetchFirst(s: Snapshot, e: Entry, consumer: seq<byte>, timeout: nat, env: Env, limit: int)
    requires s.core == Start(0) && env.unreadable == {}
    ensures DoFetch(s, consumer, 1, timeout, [e], env, limit) == New(s, 0, consumer, timeout, [e], env)
  {
    assert ExpiredSet(s.core, env.now) == {};
    NothingListed(Ascending({}), {});
    var b, step := Step(s, [], []), New(s, 0, consumer, timeout, [e], env);
    NothingLeased(0);
    assert Then(b, step) == step;
    assert TakeNew(step, 1, consumer, 1, timeout, [e], env) == step;
    assert TakeNew(b, 0, consumer, 1, timeout, [e], env) == step;
  }

  /** The limit can be passed, from the very start of a group: nothing may be redelivered, one consumer fetches the
    only message, a second one waits, and a nack hands the message on. */
  lemma LimitPassedInARun(e: Entry, a: seq<byte>, b: seq<byte>)
    ensures var at0, at1 := Env(0, {}, {}, {}), Env(1, {}, {}, {});
            var moves := [Move(Produce(e), at0), Move(Fetch(a, 1, 5), at0),
                          Move(Wait(Waiter(b, 5)), at0), Move(NackMessage(0), at1)];
            var r := Run(Sys(Snapshot(Start(0), 0, [], []), []), moves, 0);
            && r.sent == [Message(0, e), Message(0, e)]
            && r.history == [Deliver(0, a, 0, 5), Nack(0, 1, To(b, 6, true))]
            && !WithinLimit(r.sys.s.core, 0)
  {
    var at0, at1 := Env(0, {}, {}, {}), Env(1, {}, {}, {});
    var sys := Sys(Snapshot(Start(0), 0, [], []), []);
    var p, f, w, n := Move(Produce(e), at0), Move(Fetch(a, 1, 5), at0), Move(Wait(Waiter(b, 5)), at0),
      Move(NackMessage(0), at1);
    RunOfFour(sys, p, f, w, n, 0);
    FetchFirst(sys.s, e, a, 5, at0, 0);
    hide DoFetch;
    assert sys.log + [e] == [e];
    var leased := Apply(Sys(sys.s, [e]), f, 0);
    assert leased.sys.s.core.leases == map[0 := Lease(a, 5, 0, false)];
    var waiting := Apply(leased.sys, w, 0);
    assert waiting.sys.s.waiters == [Waiter(b, 5)];
    var nacked := Apply(waiting.sys, n, 0);
    assert 0 in nacked.sys.s.core.leases && nacked.sys.s.core.leases[0].redeliveries == 1;
  }

  lemma RunOfFour(sys: Sys, m0: Move, m1: Move, m2: Move, m3: Move, limit: int)
    ensures var a := Apply(sys, m0, limit);
            var b := Apply(a.sys, m1, limit);
            var c := Apply(b.sys, m2, limit);
            var d := Apply(c.sys, m3, limit);
            Run(sys, [m0, m1, m2, m3], limit)
              == Outcome(d.sys, a.sent + b.sent + c.sent + d.sent, a.history + b.history + c.history + d.history)
  {
    hide Apply;
    assert [m0, m1, m2, m3][..3] == [m0, m1, m2] && [m0, m1, m2][..2] == [m0, m1] && [m0, m1][..1] == [m0];
    assert Run(sys, [], limit) == Outcome(sys, [], []);
    var a := Apply(sys, m0, limit);
    assert [m0][..0] == [];
    assert [] + a.sent == a.sent && [] + a.history == a.history;
    assert Run(sys, [m0], limit) == a;
    assert Run(sys, [m0, m1], limit).sys == Apply(a.sys, m1, limit).sys;
  }

  /** In any state reached, an ack of a retired offset succeeds and changes nothing, and a nack of it finds no lease. */
  lemma RetiredIsFinal(sys: Sys, c0: nat, moves: seq<Move>, limit: int, o: nat, env: Env)
    requires Fresh(sys, c0)
    requires RetiredIn(Run(sys, moves, limit).history, o) && c0 <= o
    ensures var r := Run(sys, moves, limit).sys;
            && DoAck(r.s, o, env).0.s == r.s && DoAck(r.s, o, env).1 == Ok
            && DoNack(r.s, o, r.log, env) == (Step(r.s, [], []), LeaseNotFound)
  {
    RunIsLegal(sys, c0, moves, limit);
    var r := Run(sys, moves, limit);
    RunWindow(sys, c0, r, limit);
    NothingLost(c0, r.history, limit, |r.sys.log|, o);
    AckAgain(r.sys.s.core, o, |r.sys.log|);
  }

  /** Replies in any state reached, for the offsets this process is concerned with: an ack succeeds exactly for
    messages that have been delivered, a nack exactly for those delivered and not retired. */
  lemma RepliesAreExact(sys: Sys, c0: nat, moves: seq<Move>, limit: int, o: nat, env: Env)
    requires Fresh(sys, c0) && c0 <= o
    ensures var r := Run(sys, moves, limit);
            && (DoAck(r.sys.s, o, env).1 == Ok <==> DeliveredIn(r.history, o))
            && (DoNack(r.sys.s, o, r.sys.log, env).1 == Ok <==> DeliveredIn(r.history, o) && !RetiredIn(r.history, o))
  {
    hide Run, RetiredIn, DeliveredIn, Retire, Committing, SetLease;
    RunIsLegal(sys, c0, moves, limit);
    var r := Run(sys, moves, limit);
    RunWindow(sys, c0, r, limit);
    NothingLost(c0, r.history, limit, |r.sys.log|, o);
    DeliveredExactly(c0, r.history, limit, |r.sys.log|, o);
  }

  /** Waiting fetches are served in order: whatever a nack, a dispatch or a lease check sends goes to the first
    one, which leaves the queue. */
  lemma FirstWaiterIsServed(sys: Sys, m: Move, limit: int)
    requires m.op.NackMessage? || m.op.Dispatch? || m.op.CheckLeases?
    requires Apply(sys, m, limit).history != []
    ensures var a := Apply(sys, m, limit);
            var e := a.history[0];
            && a.history == [e]
            && (Delivers(e, e.o) ==>
                  sys.s.waiters != [] && a.sys.s.waiters == sys.s.waiters[1..]
                  && (if e.Deliver? then e.consumer else e.handoff.consumer) == sys.s.waiters[0].consumer
                  && Until(e) == m.env.now + sys.s.waiters[0].ackTimeout)
  {
    hide Retire;
  }

  /** Saving: the saved offset changes only with the committed one, and equals it after every operation that
    moved it to a value that could be saved. */
  lemma SavedFollowsCommitted(sys: Sys, m: Move, limit: int)
    requires Window(sys.s.core, |sys.log|)
    ensures var t := Apply(sys, m, limit).sys.s;
            && sys.s.core.committed <= t.core.committed
            && (t.core.committed == sys.s.core.committed ==> t.saved == sys.s.saved)
            && (t.core.committed > sys.s.core.committed && t.core.committed !in m.env.unsaved
                ==> t.saved == t.core.committed)
  {
    OperationIsSound(sys, m, limit);
  }

  // ---------------------------------------------------------------- restarts

  /** The process stops and a new one loads the saved offset: leases and waiting fetches are gone, the logs stay. */
  function Restarted(sys: Sys): Sys
  {
    sys.(s := Snapshot(Start(sys.s.saved), sys.s.saved, [], sys.s.dlq))
  }

  datatype Life = Life(sys: Sys, histories: seq<seq<Event>>)

  /** One process after another, each running its moves and stopping anywhere. */
  ghost function Lives(lives: seq<seq<Move>>, limit: int): Life
  {
    if lives == [] then Life(Sys(Snapshot(Start(0), 0, [], []), []), []) else
      var before := Lives(lives[..|lives| - 1], limit);
      var r := Run(Restarted(before.sys), lives[|lives| - 1], limit);
      Life(r.sys, before.histories + [r.history])
  }

  /** Retired by some process. */
  ghost predicate RetiredBefore(histories: seq<seq<Event>>, o: nat)
  {
    exists k :: 0 <= k < |histories| && RetiredIn(histories[k], o)
  }

  lemma BelowCommitted(c: Core, o: nat)
    requires o < c.committed
    ensures Retired(c, o)
  {
  }

  /** Nothing is lost across restarts: every offset below the committed one was retired by some process; the
    saved offset is never past the committed one, and that is never past the log. */
  lemma {:induction false} NothingLostAcrossRestarts(lives: seq<seq<Move>>, limit: int)
    ensures var l := Lives(lives, limit);
            && l.sys.s.saved <= l.sys.s.core.committed <= |l.sys.log|
            && forall o :: 0 <= o < l.sys.s.core.committed ==> RetiredBefore(l.histories, o)
  {
    if lives != [] {
      hide Run, RetiredIn, Retired;
      var n := |lives| - 1;
      NothingLostAcrossRestarts(lives[..n], limit);
      var before := Lives(lives[..n], limit);
      var start := Restarted(before.sys);
      var c0 := before.sys.s.saved;
      RunIsLegal(start, c0, lives[n], limit);
      var r := Run(start, lives[n], limit);
      EndWithinLog(c0, r.history, limit, |r.sys.log|);
      var all := before.histories + [r.history];
      forall o | 0 <= o < r.sys.s.core.committed
        ensures RetiredBefore(all, o)
      {
        if o < c0 {
          assert RetiredBefore(before.histories, o);
          var k :| 0 <= k < |before.histories| && RetiredIn(before.histories[k], o);
          assert RetiredIn(all[k], o);
        } else {
          BelowCommitted(r.sys.s.core, o);
          NothingLost(c0, r.history, limit, |r.sys.log|, o);
          assert all[|before.histories|] == r.history;
        }
      }
    }
  }

  // ---------------------------------------------------------------- fetching on after a restart

  predicate OnlyFetches(moves: seq<Move>)
  {
    forall i :: 0 <= i < |moves| ==> moves[i].op.Fetch?
  }

  /** How many messages these fetches ask for altogether. */
  function Asked(moves: seq<Move>): nat
    requires OnlyFetches(moves)
  {
    if moves == [] then 0 else Asked(moves[..|moves| - 1]) + moves[|moves| - 1].op.max
  }

  /** The leases given out by these fetches last until `t`. */
  predicate Outlast(moves: seq<Move>, t: int)
    requires OnlyFetches(moves)
  {
    forall i :: 0 <= i < |moves| ==> t <= moves[i].env.now + moves[i].op.timeout
  }

  /** No lease given out by one of these fetches runs out before a later one. */
  predicate InTime(moves: seq<Move>)
    requires OnlyFetches(moves)
  {
    forall i, j :: 0 <= i < j < |moves| ==> moves[j].env.now <= moves[i].env.now + moves[i].op.timeout
  }

  /** In all moves every offset from `from` up to `to` can be read. */
  predicate ReadableAlways(moves: seq<Move>, log: seq<Entry>, from: nat, to: nat)
  {
    forall i, p :: 0 <= i < |moves| && from <= p < to ==> Reads(log, moves[i].env, p)
  }

  /** In all moves `to` cannot be read, or is the end of the log. */
  predicate EndsAlways(moves: seq<Move>, log: seq<Entry>, to: nat)
  {
    forall i :: 0 <= i < |moves| ==> !Reads(log, moves[i].env, to)
  }

  lemma FetchesPrefix(moves: seq<Move>, log: seq<Entry>, from: nat, to: nat)
    requires moves != [] && OnlyFetches(moves) && InTime(moves) && ReadableAlways(moves, log, from, to)
    ensures var n := |moves| - 1;
            && moves[n].op.Fetch?
            && OnlyFetches(moves[..n]) && InTime(moves[..n]) && ReadableAlways(moves[..n], log, from, to)
            && Outlast(moves[..n], moves[n].env.now)
            && (EndsAlways(moves, log, to) ==> EndsAlways(moves[..n], log, to) && !Reads(log, moves[n].env, to))
            && (forall p :: from <= p < to ==> Reads(log, moves[n].env, p))
            && (forall t :: Outlast(moves, t) ==>
                  Outlast(moves[..n], t) && t <= moves[n].env.now + moves[n].op.timeout)
  {
  }

  lemma ReadableToIs(from: nat, to: nat, log: seq<Entry>, env: Env)
    requires from <= to && forall p :: from <= p < to ==> Reads(log, env, p)
    ensures ReadableTo(from, log, env) >= to
    ensures !Reads(log, env, to) ==> ReadableTo(from, log, env) == to
  {
  }

  /** How far one more fetch gets. */
  lemma OneFetchMore(c0: nat, k: nat, asked: nat, max: nat, to: nat, log: seq<Entry>, env: Env)
    requires c0 <= to <= |log| && Min(asked, to - c0) <= k <= asked && (k == 0 || c0 + k <= |log|)
    requires forall p :: c0 <= p < to ==> Reads(log, env, p)
    ensures var more := NewCount(0, c0 + k, max, log, env);
            && Min(asked + max, to - c0) <= k + more <= asked + max
            && (k + more == 0 || c0 + k + more <= |log|)
            && (k == Min(asked, to - c0) && !Reads(log, env, to) ==> k + more == Min(asked + max, to - c0))
  {
    if c0 + k <= to {
      ReadableToIs(c0 + k, to, log, env);
    }
  }

  lemma ConsecutiveThen(from: nat, k: nat, more: nat, log: seq<Entry>)
    requires (k == 0 || from + k <= |log|) && (more == 0 || from + k + more <= |log|)
    ensures Consecutive(from, k, log) + Consecutive(from + k, more, log) == Consecutive(from, k + more, log)
  {
  }

  /** The group has handed out the `k` messages from `c0` on and is waiting for them. */
  ghost predicate HandedOut(r: Outcome, c0: nat, k: nat, log: seq<Entry>)
  {
    && r.sys.log == log && (k == 0 || c0 + k <= |log|)
    && r.sent == Consecutive(c0, k, log)
    && Window(r.sys.s.core, |log|) && r.sys.s.core.committed == c0 && End(r.sys.s.core) == c0 + k
  }

  lemma FetchHandsOut(r: Outcome, m: Move, c0: nat, k: nat, log: seq<Entry>, limit: int)
    requires HandedOut(r, c0, k, log) && m.op.Fetch? && ExpiredSet(r.sys.s.core, m.env.now) == {}
    ensures var a := Apply(r.sys, m, limit);
            var more := NewCount(0, c0 + k, m.op.max, log, m.env);
            && HandedOut(Outcome(a.sys, r.sent + a.sent, r.history + a.history), c0, k + more, log)
            && forall t :: t <= m.env.now + m.op.timeout && ExpiredSet(r.sys.s.core, t) == {}
                 ==> ExpiredSet(a.sys.s.core, t) == {}
  {
    hide DoFetch, NewCount, Consecutive, ExpiredSet, Window, End;
    FetchOnlyNew(r.sys.s, m.op.consumer, m.op.max, m.op.timeout, log, m.env, limit);
    FetchOnlyNewLeaves(r.sys.s, m.op.consumer, m.op.max, m.op.timeout, log, m.env, limit);
    ConsecutiveThen(c0, k, NewCount(0, c0 + k, m.op.max, log, m.env), log);
  }

  lemma RunSnoc(sys: Sys, moves: seq<Move>, limit: int)
    requires moves != []
    ensures var r := Run(sys, moves[..|moves| - 1], limit);
            var a := Apply(r.sys, moves[|moves| - 1], limit);
            Run(sys, moves, limit) == Outcome(a.sys, r.sent + a.sent, r.history + a.history)
  {
  }

  lemma NothingHandedOut(sys: Sys, c0: nat, limit: int)
    requires Fresh(sys, c0)
    ensures HandedOut(Run(sys, [], limit), c0, 0, sys.log)
    ensures forall t :: ExpiredSet(Run(sys, [], limit).sys.s.core, t) == {}
  {
    NothingLeased(c0);
  }

  lemma HandedOutInLog(r: Outcome, c0: nat, k: nat, log: seq<Entry>)
    requires HandedOut(r, c0, k, log)
    ensures k == 0 || c0 + k <= |log|
  {
  }

  /** The special case in which nothing but fetches happens after a restart and no lease runs out between them. Of any
    sizes and by any consumers, they hand out the messages from the saved offset on in order and without gaps: as
    many as they ask for, as long as everything up to `to` can be read; and no more than that if `to` cannot be,
    or is the end of the log. Module Progress is about runs in general. */
  lemma {:induction false} FetchesReach(sys: Sys, c0: nat, moves: seq<Move>, limit: int, to: nat) returns (k: nat)
    requires Fresh(sys, c0) && c0 <= to <= |sys.log|
    requires OnlyFetches(moves) && InTime(moves) && ReadableAlways(moves, sys.log, c0, to)
    ensures HandedOut(Run(sys, moves, limit), c0, k, sys.log)
    ensures forall t :: Outlast(moves, t) ==> ExpiredSet(Run(sys, moves, limit).sys.s.core, t) == {}
    ensures Min(Asked(moves), to - c0) <= k <= Asked(moves)
    ensures EndsAlways(moves, sys.log, to) ==> k == Min(Asked(moves), to - c0)
  {
    hide HandedOut, Run, NewCount, Outlast, InTime, ReadableAlways, EndsAlways, ExpiredSet, Reads, Apply;
    if moves == [] {
      k := 0;
      NothingHandedOut(sys, c0, limit);
    } else {
      var n := |moves| - 1;
      FetchesPrefix(moves, sys.log, c0, to);
      RunSnoc(sys, moves, limit);
      var before := FetchesReach(sys, c0, moves[..n], limit, to);
      var r := Run(sys, moves[..n], limit);
      HandedOutInLog(r, c0, before, sys.log);
      FetchHandsOut(r, moves[n], c0, before, sys.log, limit);
      OneFetchMore(c0, before, Asked(moves[..n]), moves[n].op.max, to, sys.log, moves[n].env);
      k := before + NewCount(0, c0 + before, moves[n].op.max, sys.log, moves[n].env);
      forall t | Outlast(moves, t)
        ensures ExpiredSet(Run(sys, moves, limit).sys.s.core, t) == {}
      {
        assert ExpiredSet(r.sys.s.core, t) == {};
      }
    }
  }

  lemma UnretiredNotSaved(lives: seq<seq<Move>>, limit: int, o: nat)
    requires !RetiredBefore(Lives(lives, limit).histories, o)
    ensures var l := Lives(lives, limit);
            l.sys.s.saved <= o && Fresh(Restarted(l.sys), l.sys.s.saved) && Restarted(l.sys).log == l.sys.log
  {
    NothingLostAcrossRestarts(lives, limit);
  }

  /** After any number of processes a message that none of them retired has its place in what the next process hands
    out: if that does nothing but fetch, no lease runs out between the fetches, and the records up to the message can
    be read, it comes as soon as they have asked for enough messages. */
  lemma UnretiredInPlace(lives: seq<seq<Move>>, limit: int, o: nat, fetches: seq<Move>)
    requires OnlyFetches(fetches) && InTime(fetches)
    requires var l := Lives(lives, limit);
             && o < |l.sys.log| && !RetiredBefore(l.histories, o)
             && ReadableAlways(fetches, l.sys.log, l.sys.s.saved, o + 1)
             && Asked(fetches) > o - l.sys.s.saved
    ensures var l := Lives(lives, limit);
            var sent := Run(Restarted(l.sys), fetches, limit).sent;
            l.sys.s.saved <= o && o - l.sys.s.saved < |sent|
            && sent[o - l.sys.s.saved] == Message(o, l.sys.log[o])
  {
    hide Lives, Run, Outlast, Window, RetiredBefore, Restarted, InTime, ReadableAlways, EndsAlways, ExpiredSet, Fresh;
    var l := Lives(lives, limit);
    UnretiredNotSaved(lives, limit, o);
    var k := FetchesReach(Restarted(l.sys), l.sys.s.saved, fetches, limit, o + 1);
  }
}
