/**
 * Every run of one message bus: what is published is tracked until it is settled by an
 * acknowledgement or by running out of retries, and what is queued is drained once, in order.
 */
module BusRuns {
  import opened Messaging
  import StableSort

  datatype Event =
    | Publish(payload: Payload, unix: nat, tick: nat)
    | Drain
    | AckIn(num: nat)
    | Pass(tick: nat, order: seq<nat>)  // a retransmission pass that visits the entries in this order
    | Receive(message: CellMessage, unix: nat)

  /** A bus with the history of what passed through it. */
  datatype History = History(
    bus: Bus,
    published: seq<CellMessage>,
    drained: seq<CellMessage>,
    handed: multiset<nat>,      // sequence numbers handed out for retransmission
    timeouts: multiset<nat>,    // passes at which an unacknowledged entry had timed out
    acked: set<nat>,            // acknowledged while tracked
    settledAck: set<nat>,       // dropped as acknowledged
    settledFail: set<nat>)      // dropped as failed

  function Start(cellId: string, nodeId: string): History {
    History(NewBus(cellId, nodeId), [], [], multiset{}, multiset{}, {}, {}, {})
  }

  function Nums(ms: seq<CellMessage>): seq<nat> {
    seq(|ms|, i requires 0 <= i < |ms| => ms[i].num)
  }

  /** The messages a step puts on the wire. */
  ghost function Emitted(b: Bus, e: Event): seq<CellMessage> {
    match e
    case Drain => b.outbound
    case Pass(tick, order) => if Enumerates(order, b.tracked.Keys) then Resent(b, tick, order) else []
    case _ => []
  }

  ghost function PassStep(h: History, tick: nat, order: seq<nat>): History
    requires Enumerates(order, h.bus.tracked.Keys)
  {
    var t := h.bus.tracked;
    History(AfterPass(h.bus, tick), h.published, h.drained,
            h.handed + multiset(Nums(Resent(h.bus, tick, order))),
            h.timeouts + multiset(set s | s in t && TimedOut(h.bus, t[s], tick)),
            h.acked,
            h.settledAck + (set s | s in t && t[s].status == Acknowledged),
            h.settledFail + (set s | s in t && Touched(h.bus, t[s], tick).status == Failed))
  }

  ghost function Step(h: History, e: Event): History {
    match e
    case Publish(payload, unix, tick) =>
      h.(bus := Published(h.bus, payload, unix, tick),
         published := h.published + [NewMessage(h.bus.nodeId, h.bus.cellId, h.bus.nextSeq, payload, unix)])
    case Drain => h.(bus := h.bus.(outbound := []), drained := h.drained + h.bus.outbound)
    case AckIn(num) =>
      h.(bus := AfterAck(h.bus, num), acked := if num in h.bus.tracked then h.acked + {num} else h.acked)
    case Pass(tick, order) => if Enumerates(order, h.bus.tracked.Keys) then PassStep(h, tick, order) else h
    case Receive(message, unix) => h.(bus := AfterDeliver(h.bus, message, unix))
  }

  ghost function Run(h: History, events: seq<Event>): History {
    if events == [] then h else Step(Run(h, events[..|events| - 1]), events[|events| - 1])
  }

  // --- What every step keeps ---

  /** Publications are numbered from 1, and drains followed by the queue are exactly them, in order. */
  ghost predicate QueueInv(h: History) {
    && h.bus.nextSeq == |h.published| + 1
    && (forall i :: 0 <= i < |h.published| ==>
          h.published[i].num == i + 1 && h.published[i].sender == h.bus.nodeId && h.published[i].priority == Normal)
    && h.drained + h.bus.outbound == h.published
  }

  /** Number s is tracked or settled, in exactly one way, exactly when it has been published. */
  ghost predicate InOnePlace(h: History, s: nat) {
    && (1 <= s <= |h.published| <==> s in h.bus.tracked || s in h.settledAck || s in h.settledFail)
    && !(s in h.bus.tracked && s in h.settledAck)
    && !(s in h.bus.tracked && s in h.settledFail)
    && !(s in h.settledAck && s in h.settledFail)
    && (s in h.acked ==> s in h.bus.tracked || s in h.settledAck)
    && (s in h.settledAck ==> s in h.acked)
  }

  /** A tracked entry holds its own publication and has been handed out once per timeout it survived. */
  ghost predicate TrackedEntry(h: History, s: nat)
    requires InOnePlace(h, s)
  {
    s in h.bus.tracked ==>
      var t := h.bus.tracked[s];
      && t.message == h.published[s - 1]
      && t.status != Failed && (t.status == Acknowledged <==> s in h.acked)
      && t.retries == h.handed[s] == h.timeouts[s] <= h.bus.maxRetries
  }

  /** A failed number used up its retries; no other number was handed out more often than allowed. */
  ghost predicate SettledEntry(h: History, s: nat) {
    && (s in h.settledFail ==> h.handed[s] == h.bus.maxRetries && h.timeouts[s] == h.bus.maxRetries + 1)
    && (s in h.settledAck ==> h.handed[s] == h.timeouts[s] <= h.bus.maxRetries)
    && (s == 0 || s > |h.published| ==> h.handed[s] == 0 && h.timeouts[s] == 0)
  }

  ghost predicate EntryInv(h: History, s: nat) {
    InOnePlace(h, s) && TrackedEntry(h, s) && SettledEntry(h, s)
  }

  ghost predicate Inv(h: History) {
    QueueInv(h) && forall s: nat :: EntryInv(h, s)
  }

  lemma StartInv(cellId: string, nodeId: string)
    ensures Inv(Start(cellId, nodeId))
  {
    var h := Start(cellId, nodeId);
    assert h.drained + h.bus.outbound == h.published;
  }

  /** All queued messages have one priority, so publishing appends to the queue. */
  lemma EnqueueAppends(h: History, m: CellMessage)
    requires QueueInv(h) && m.priority == Normal
    ensures Enqueue(h.bus.outbound, m) == h.bus.outbound + [m]
  {
    var q := h.bus.outbound;
    forall k | 0 <= k < |q| ensures q[k].priority == Normal {
      assert q[k] == (h.drained + q)[|h.drained| + k];
    }
    StableSort.SortOfSorted(q + [m], Before);
  }

  lemma StepQueueInv(h: History, e: Event)
    requires Inv(h)
    ensures QueueInv(Step(h, e))
  {
    match e
    case Publish(payload, unix, tick) =>
      var m := NewMessage(h.bus.nodeId, h.bus.cellId, h.bus.nextSeq, payload, unix);
      EnqueueAppends(h, m);
      assert h.drained + (h.bus.outbound + [m]) == h.drained + h.bus.outbound + [m];
    case Drain => assert h.drained + h.bus.outbound + [] == h.published;
    case AckIn(num) =>
    case Pass(tick, order) =>
    case Receive(message, unix) =>
  }

  /** A pass that visits each entry once hands each entry out at most once. */
  lemma {:induction false} ResentCount(b: Bus, tick: nat, order: seq<nat>, s: nat)
    requires forall x :: x in order ==> x in b.tracked && b.tracked[x].message.num == x
    requires forall i, j :: 0 <= i < j < |order| ==> order[i] != order[j]
    ensures multiset(Nums(Resent(b, tick, order)))[s] == if s in order && Resends(b, b.tracked[s], tick) then 1 else 0
    decreases order
  {
    if order != [] {
      var init, last := order[..|order| - 1], order[|order| - 1];
      assert order == init + [last];
      ResentCount(b, tick, init, s);
      ResentSnoc(b, tick, init, last);
      var out, m := Resent(b, tick, init), b.tracked[last].message;
      assert Nums(out + [m]) == Nums(out) + [last];
      assert last !in init;
    }
  }

  lemma PassEntry(h: History, tick: nat, order: seq<nat>, s: nat)
    requires Inv(h) && Enumerates(order, h.bus.tracked.Keys)
    ensures EntryInv(PassStep(h, tick, order), s)
  {
    forall x | x in order ensures x in h.bus.tracked && h.bus.tracked[x].message.num == x {
      assert EntryInv(h, x);
    }
    ResentCount(h.bus, tick, order, s);
    assert EntryInv(h, s);
  }

  lemma StepEntry(h: History, e: Event, s: nat)
    requires Inv(h)
    ensures EntryInv(Step(h, e), s)
  {
    assert EntryInv(h, s);
    match e
    case Publish(payload, unix, tick) =>
    case Drain =>
    case AckIn(num) =>
    case Pass(tick, order) =>
      if Enumerates(order, h.bus.tracked.Keys) {
        PassEntry(h, tick, order, s);
      }
    case Receive(message, unix) =>
  }

  lemma StepInv(h: History, e: Event)
    requires Inv(h)
    ensures Inv(Step(h, e))
  {
    StepQueueInv(h, e);
    forall s: nat ensures EntryInv(Step(h, e), s) {
      StepEntry(h, e, s);
    }
  }

  /** The conservation law, in every run. */
  lemma {:induction false} RunInv(h: History, events: seq<Event>)
    requires Inv(h)
    ensures Inv(Run(h, events))
  {
    if events != [] {
      RunInv(h, events[..|events| - 1]);
      StepInv(Run(h, events[..|events| - 1]), events[|events| - 1]);
    }
  }

  /**
   * From a new bus, in every run: drains followed by the queue are the publications 1, 2, 3, ... in
   * order; each is tracked, settled by acknowledgement or settled as failed, and only one of these;
   * none is handed out more than the retry cap; and one that timed out once more than the cap,
   * unacknowledged, is no longer tracked.
   */
  lemma Conservation(cellId: string, nodeId: string, events: seq<Event>, s: nat)
    ensures var h := Run(Start(cellId, nodeId), events);
            && h.drained + h.bus.outbound == h.published
            && |h.published| == h.bus.nextSeq - 1
            && (1 <= s < h.bus.nextSeq ==> h.published[s - 1].num == s)
            && InOnePlace(h, s)
            && h.handed[s] <= 3
            && (h.timeouts[s] > 3 ==> s in h.settledFail)
  {
    hide Run, Start;
    StartInv(cellId, nodeId);
    RunInv(Start(cellId, nodeId), events);
    RunKeepsSettings(Start(cellId, nodeId), events);
    StartSettings(cellId, nodeId);
    assert EntryInv(Run(Start(cellId, nodeId), events), s);
  }

  lemma StartSettings(cellId: string, nodeId: string)
    ensures Start(cellId, nodeId).bus.maxRetries == DEFAULT_MAX_RETRIES
  {}

  lemma {:induction false} RunKeepsSettings(h: History, events: seq<Event>)
    ensures Run(h, events).bus.maxRetries == h.bus.maxRetries && Run(h, events).bus.nodeId == h.bus.nodeId
  {
    if events != [] {
      hide Step;
      RunKeepsSettings(h, events[..|events| - 1]);
      StepKeepsSettings(Run(h, events[..|events| - 1]), events[|events| - 1]);
    }
  }

  lemma StepKeepsSettings(h: History, e: Event)
    ensures Step(h, e).bus.maxRetries == h.bus.maxRetries && Step(h, e).bus.nodeId == h.bus.nodeId
    ensures Step(h, e).bus.retryTimeout == h.bus.retryTimeout
  {}

  /** What is settled, acknowledged or published stays so, and an acknowledged number is not handed out again. */
  ghost predicate Grows(h: History, h': History) {
    && h.published <= h'.published
    && h.drained <= h'.drained
    && h.settledAck <= h'.settledAck && h.settledFail <= h'.settledFail && h.acked <= h'.acked
    && forall s :: s in h.acked || s in h.settledFail ==> h'.handed[s] == h.handed[s]
  }

  lemma StepGrows(h: History, e: Event)
    requires Inv(h)
    ensures Grows(h, Step(h, e))
  {
    match e
    case Pass(tick, order) =>
      if Enumerates(order, h.bus.tracked.Keys) {
        forall s | s in h.acked || s in h.settledFail ensures Step(h, e).handed[s] == h.handed[s] {
          forall x | x in order ensures x in h.bus.tracked && h.bus.tracked[x].message.num == x {
            assert EntryInv(h, x);
          }
          ResentCount(h.bus, tick, order, s);
          assert EntryInv(h, s);
        }
      }
    case _ =>
  }

  /** Settling is final: extending any run undoes nothing, and never hands out an acknowledged message again. */
  lemma {:induction false} SettlingIsFinal(h: History, events: seq<Event>, s: nat)
    requires Inv(h)
    ensures Grows(h, Run(h, events))
    ensures s in h.settledAck || s in h.settledFail ==> s !in Run(h, events).bus.tracked
  {
    if events != [] {
      var before := Run(h, events[..|events| - 1]);
      SettlingIsFinal(h, events[..|events| - 1], s);
      RunInv(h, events[..|events| - 1]);
      StepGrows(before, events[|events| - 1]);
    }
    RunInv(h, events);
    assert EntryInv(Run(h, events), s);
    assert EntryInv(h, s);
  }
}
