/**
 * The clocks of the message bus, peat-protocol/src/cell/messaging.rs, in terms of the events of a run:
 * when a message expires on its way, and when a tracked message is due for retransmission.
 */
module BusTiming {
  import opened Prelude
  import opened Messaging
  import opened BusRuns
  import opened BusNetwork

  // --- Expiry on a channel ---

  /** The times at which the sender of a link published, in order. */
  ghost function PublishTimes(events: seq<LinkEvent>): seq<nat> {
    if events == [] then []
    else
      var e := events[|events| - 1];
      PublishTimes(events[..|events| - 1]) + if e.Send? && e.event.Publish? then [e.event.unix] else []
  }

  /** Publication k was stamped with the time of the k-th publish event, and lives thirty seconds. */
  ghost predicate Stamped(published: seq<CellMessage>, times: seq<nat>) {
    && |published| == |times|
    && forall k :: 0 <= k < |times| ==> published[k].timestamp == times[k] && published[k].ttl == 30
  }

  lemma StepStamps(h: History, e: Event, times: seq<nat>)
    requires Stamped(h.published, times)
    ensures Stamped(Step(h, e).published, times + if e.Publish? then [e.unix] else [])
  {}

  lemma {:induction false} SenderStamps(cellId: string, from: string, to: string, events: seq<LinkEvent>)
    ensures var l := LinkRun(LinkStart(cellId, from, to), events);
            && ChannelInv(l.sender, l.sent) && l.sender.bus.nodeId == from
            && Stamped(l.sender.published, PublishTimes(events))
  {
    if events == [] {
      StartInv(cellId, from);
    } else {
      var init, e := events[..|events| - 1], events[|events| - 1];
      SenderStamps(cellId, from, to, init);
      var l := LinkRun(LinkStart(cellId, from, to), init);
      hide LinkRun, LinkStart, Step, Inv, Emitted, Stamped;
      match e
      case Send(event) =>
        SendKeepsChannel(l, event);
        StepKeepsSettings(l.sender, event);
        StepStamps(l.sender, event, PublishTimes(init));
      case Take(_) =>
        assert PublishTimes(init) + [] == PublishTimes(init);
      case Aside(_) =>
        assert PublishTimes(init) + [] == PublishTimes(init);
    }
  }

  /** The message at the head of the channel, and when it was published. */
  ghost predicate NextIs(l: Link, events: seq<LinkEvent>, m: CellMessage, published: nat) {
    && l.taken < |l.sent| && m == l.sent[l.taken]
    && 1 <= m.num <= |PublishTimes(events)| && PublishTimes(events)[m.num - 1] == published
  }

  /** Every message is taken off the channel at most thirty seconds after it was published. */
  ghost predicate TakenInTime(cellId: string, from: string, to: string, events: seq<LinkEvent>) {
    forall i, m, published: nat :: 0 <= i < |events| && events[i].Take?
      && NextIs(LinkRun(LinkStart(cellId, from, to), events[..i]), events[..i], m, published)
      ==> events[i].unix <= published + 30
  }

  lemma NextExists(cellId: string, from: string, to: string, events: seq<LinkEvent>)
    ensures var l := LinkRun(LinkStart(cellId, from, to), events);
            l.taken < |l.sent| ==>
              var m := l.sent[l.taken];
              && 1 <= m.num <= |PublishTimes(events)| && NextIs(l, events, m, PublishTimes(events)[m.num - 1])
              && m.timestamp == PublishTimes(events)[m.num - 1] && m.ttl == 30 && m.sender == from
  {
    SenderStamps(cellId, from, to, events);
    hide LinkRun, LinkStart;
  }

  /** The lifetime condition of the channel laws, by the times of the events. */
  lemma InTimeIff(cellId: string, from: string, to: string, events: seq<LinkEvent>)
    ensures AlwaysInTime(LinkStart(cellId, from, to), events) <==> TakenInTime(cellId, from, to, events)
  {
    hide LinkRun, LinkStart, PublishTimes;
    forall i | 0 <= i < |events|
      ensures InTime(LinkRun(LinkStart(cellId, from, to), events[..i]), events[i])
         <==> forall m, published: nat :: events[i].Take?
                && NextIs(LinkRun(LinkStart(cellId, from, to), events[..i]), events[..i], m, published)
                ==> events[i].unix <= published + 30
    {
      NextExists(cellId, from, to, events[..i]);
    }
  }

  /**
   * In every run over a channel, expiry included: a message published at u and taken at v is delivered exactly
   * if v is at most u + 30 and its number is above the mark of the sender.
   */
  lemma TakenIsDeliveredIff(cellId: string, from: string, to: string, events: seq<LinkEvent>, m: CellMessage,
          u: nat, v: nat)
    requires NextIs(LinkRun(LinkStart(cellId, from, to), events), events, m, u)
    ensures var b := LinkRun(LinkStart(cellId, from, to), events).receiver;
            var after := LinkRun(LinkStart(cellId, from, to), events + [Take(v)]).receiver;
            && (after.delivered == b.delivered + [m] || after == b)
            && (after.delivered == b.delivered + [m]
                <==> v <= u + 30 && (from in b.received ==> b.received[from] < m.num))
  {
    NextExists(cellId, from, to, events);
    LinkRunSnoc(LinkStart(cellId, from, to), events, Take(v));
    var l := LinkRun(LinkStart(cellId, from, to), events);
    hide LinkRun, LinkStart, PublishTimes, AfterDeliver;
    DeliveredIff(l.receiver, m, v);
  }

  // --- When a tracked message is due ---

  /** When number s was last put on its way: the tick of its publication, or of the last pass that handed it out. */
  ghost function LastSent(cellId: string, nodeId: string, events: seq<Event>, s: nat): Option<nat> {
    if events == [] then None
    else
      var init, e := events[..|events| - 1], events[|events| - 1];
      var h := Run(Start(cellId, nodeId), init);
      if e.Publish? && |h.published| + 1 == s then Some(e.tick)
      else if e.Pass? && s in Nums(Emitted(h.bus, e)) then Some(e.tick)
      else LastSent(cellId, nodeId, init, s)
  }

  lemma PassHandsOut(h: History, tick: nat, order: seq<nat>, s: nat)
    requires Inv(h) && Enumerates(order, h.bus.tracked.Keys) && s in h.bus.tracked
    ensures s in Nums(Emitted(h.bus, Pass(tick, order))) <==> Resends(h.bus, h.bus.tracked[s], tick)
  {
    forall x | x in order ensures x in h.bus.tracked && h.bus.tracked[x].message.num == x { assert EntryInv(h, x); }
    ResentCount(h.bus, tick, order, s);
    assert s in Nums(Resent(h.bus, tick, order)) <==> multiset(Nums(Resent(h.bus, tick, order)))[s] > 0;
  }

  lemma {:induction false} LastSentIsKept(cellId: string, nodeId: string, events: seq<Event>, s: nat)
    ensures var h := Run(Start(cellId, nodeId), events);
            && Inv(h)
            && (s in h.bus.tracked ==> LastSent(cellId, nodeId, events, s) == Some(h.bus.tracked[s].lastSend))
  {
    StartInv(cellId, nodeId);
    RunInv(Start(cellId, nodeId), events);
    if events != [] {
      var init, e := events[..|events| - 1], events[|events| - 1];
      LastSentIsKept(cellId, nodeId, init, s);
      hide Start, Inv, Step;
      if s in Run(Start(cellId, nodeId), events).bus.tracked {
        LastSentStep(Run(Start(cellId, nodeId), init), e, s);
      }
    }
  }

  lemma LastSentStep(h: History, e: Event, s: nat)
    requires Inv(h) && s in Step(h, e).bus.tracked
    ensures var t := Step(h, e).bus.tracked[s].lastSend;
            if e.Publish? && |h.published| + 1 == s then t == e.tick
            else if e.Pass? && s in Nums(Emitted(h.bus, e)) then t == e.tick
            else s in h.bus.tracked && t == h.bus.tracked[s].lastSend
  {
    assert EntryInv(h, s);
    if e.Pass? && Enumerates(e.order, h.bus.tracked.Keys) {
      PassHandsOut(h, e.tick, e.order, s);
    }
  }

  lemma StatusStep(h: History, e: Event, s: nat)
    requires Inv(h) && s in Step(h, e).bus.tracked
    requires s in h.bus.tracked ==> StatusShows(h, s)
    ensures StatusShows(Step(h, e), s)
  {
    assert EntryInv(h, s);
    if e.Pass? && Enumerates(e.order, h.bus.tracked.Keys) {
      forall x | x in e.order ensures x in h.bus.tracked && h.bus.tracked[x].message.num == x { assert EntryInv(h, x); }
      ResentCount(h.bus, e.tick, e.order, s);
    }
  }

  ghost predicate StatusShows(h: History, s: nat)
    requires s in h.bus.tracked
  {
    h.bus.tracked[s].status == if s in h.acked then Acknowledged else if h.handed[s] > 0 then Delivered else Pending
  }

  /** In every run the status of a tracked number tells whether it was acknowledged, or else handed out again. */
  lemma {:induction false} StatusIsHistory(cellId: string, nodeId: string, events: seq<Event>, s: nat)
    ensures var h := Run(Start(cellId, nodeId), events); s in h.bus.tracked ==> StatusShows(h, s)
  {
    if events != [] {
      var init, e := events[..|events| - 1], events[|events| - 1];
      StatusIsHistory(cellId, nodeId, init, s);
      StartInv(cellId, nodeId);
      RunInv(Start(cellId, nodeId), init);
      hide Start, Inv, Step, StatusShows;
      if s in Run(Start(cellId, nodeId), events).bus.tracked {
        StatusStep(Run(Start(cellId, nodeId), init), e, s);
      }
    }
  }

  /**
   * In every run, a pass acts on a tracked, unacknowledged number exactly if two seconds or more have passed
   * since it was published or last handed out: it hands it out again if it did so fewer than three times, and
   * gives it up otherwise.
   */
  lemma PassActsWhenDue(cellId: string, nodeId: string, events: seq<Event>, tick: nat, order: seq<nat>, s: nat)
    requires var h := Run(Start(cellId, nodeId), events);
             Enumerates(order, h.bus.tracked.Keys) && s in h.bus.tracked && s !in h.acked
    ensures var h := Run(Start(cellId, nodeId), events);
            var sent := LastSent(cellId, nodeId, events, s);
            var after := Run(Start(cellId, nodeId), events + [Pass(tick, order)]);
            && sent.Some?
            && (s in Nums(Emitted(h.bus, Pass(tick, order))) <==> tick >= sent.value + 2000 && h.handed[s] < 3)
            && (s in after.settledFail <==> tick >= sent.value + 2000 && h.handed[s] == 3)
            && (s !in after.bus.tracked <==> s in after.settledFail)
  {
    LastSentIsKept(cellId, nodeId, events, s);
    RunKeepsTimeout(cellId, nodeId, events);
    var h := Run(Start(cellId, nodeId), events);
    assert (events + [Pass(tick, order)])[..|events|] == events;
    assert Run(Start(cellId, nodeId), events + [Pass(tick, order)]) == Step(h, Pass(tick, order));
    hide Run, LastSent, Start;
    assert EntryInv(h, s);
    PassHandsOut(h, tick, order, s);
    hide Emitted;
    PassSettles(h, tick, order, s);
  }

  lemma PassSettles(h: History, tick: nat, order: seq<nat>, s: nat)
    requires Inv(h) && Enumerates(order, h.bus.tracked.Keys) && s in h.bus.tracked && s !in h.acked
    ensures var after := Step(h, Pass(tick, order));
            && (s in after.settledFail <==> TimedOut(h.bus, h.bus.tracked[s], tick) && h.handed[s] >= h.bus.maxRetries)
            && (s !in after.bus.tracked <==> s in after.settledFail)
  {
    assert EntryInv(h, s);
  }

  lemma {:induction false} RunKeepsTimeout(cellId: string, nodeId: string, events: seq<Event>)
    ensures var b := Run(Start(cellId, nodeId), events).bus; b.retryTimeout == 2000 && b.maxRetries == 3
  {
    if events != [] {
      var init := events[..|events| - 1];
      RunKeepsTimeout(cellId, nodeId, init);
      StepKeepsSettings(Run(Start(cellId, nodeId), init), events[|events| - 1]);
      hide Step;
    }
  }
}
