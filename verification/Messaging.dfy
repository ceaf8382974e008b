/**
 * The intra-cell message bus of peat-protocol/src/cell/messaging.rs: sequence numbers, a stable
 * priority queue, high-water-mark deduplication per sender, and acknowledgement tracking with
 * retransmission up to a retry cap.
 *
 * Clocks are parameters: `unix` in seconds for message lifetimes, `tick` in milliseconds for the
 * monotonic clock behind the retry timeout. The subscriber handlers are modelled by the log of
 * messages handed to them. Sequence numbers are unbounded.
 */
module Messaging {
  import opened Prelude
  import StableSort
  import Decimal

  datatype Priority = Low | Normal | High | Critical

  datatype RoutingContext = IntraCell | CellToZone | ZoneToCell | IntraZone

  function Rank(p: Priority): nat {
    match p case Low => 0 case Normal => 1 case High => 2 case Critical => 3
  }

  /** Going up the hierarchy raises the priority one level, up to Critical; nothing else changes it. */
  function Escalate(p: Priority, context: RoutingContext): (r: Priority)
    ensures Rank(r) == if context == CellToZone then Min(Rank(p) + 1, Rank(Critical)) else Rank(p)
  {
    match context
    case CellToZone => (match p
                        case Low => Normal
                        case Normal => High
                        case High => Critical
                        case Critical => Critical)
    case _ => p
  }

  datatype Payload =
    | LeaderAnnounce(leaderId: string, round: nat)
    | Heartbeat(nodeId: string)
    | Ack(ackOf: nat)
    | Nack(nackOf: nat, reason: string)
    | Other(kind: string, body: string)

  datatype CellMessage = CellMessage(
    messageId: string, num: nat, sender: string, cellId: string, priority: Priority,
    routing: RoutingContext, payload: Payload, timestamp: nat, ttl: nat)

  function MessageId(sender: string, num: nat): string {
    sender + "-" + Decimal.Print(num)
  }

  function NewMessage(sender: string, cellId: string, num: nat, payload: Payload, unix: nat): CellMessage {
    CellMessage(MessageId(sender, num), num, sender, cellId, Normal, IntraCell, payload, unix, 30)
  }

  predicate Expired(m: CellMessage, unix: nat) {
    Elapsed(unix, m.timestamp) > m.ttl
  }

  /** Message ids are unique across senders and sequence numbers. */
  lemma MessageIdInjective(s: string, n: nat, t: string, m: nat)
    requires MessageId(s, n) == MessageId(t, m)
    ensures s == t && n == m
  {
    LastDash(s, n);
    LastDash(t, m);
    var id := MessageId(s, n);
    assert |s| == |t|;
    assert s == id[..|s|] && t == id[..|t|];
    assert Decimal.Print(n) == id[|s| + 1..] && Decimal.Print(m) == id[|t| + 1..];
    Decimal.PrintInjective(n, m);
  }

  /** The sender ends at the last dash of a message id. */
  lemma LastDash(s: string, n: nat)
    ensures var id := MessageId(s, n);
            |s| < |id| && id[|s|] == '-' && forall k :: |s| < k < |id| ==> id[k] != '-'
  {
    var id := MessageId(s, n);
    forall k | |s| < k < |id| ensures id[k] != '-' {
      assert id[k] == Decimal.Print(n)[k - |s| - 1];
    }
  }

  /** A new message: its id spells sender and number, and it lives thirty seconds from now. */
  lemma NewMessageText(cellId: string, payload: Payload, unix: nat)
    ensures var m := NewMessage("node", cellId, 17, payload, unix);
            && m.messageId == "node-17" && m.priority == Normal && m.routing == IntraCell
            && m.timestamp == unix && m.ttl == 30
  {
    assert Decimal.Print(1) == "1" && Decimal.Print(17) == "17";
  }

  datatype Status = Pending | Delivered | Acknowledged | Failed

  datatype Tracked = Tracked(message: CellMessage, status: Status, retries: nat, lastSend: nat)

  /** The state of one bus; delivered is what the subscribers have been handed. */
  datatype Bus = Bus(
    cellId: string, nodeId: string, nextSeq: nat, outbound: seq<CellMessage>,
    tracked: map<nat, Tracked>, received: map<string, nat>, delivered: seq<CellMessage>,
    retryTimeout: nat, maxRetries: nat)

  const DEFAULT_RETRY_TIMEOUT: nat := 2000

  const DEFAULT_MAX_RETRIES: nat := 3

  function NewBus(cellId: string, nodeId: string): Bus {
    Bus(cellId, nodeId, 1, [], map[], map[], [], DEFAULT_RETRY_TIMEOUT, DEFAULT_MAX_RETRIES)
  }

  // --- What each operation does to the state ---

  /** Queue order: higher priority first. */
  predicate Before(a: CellMessage, b: CellMessage) {
    Rank(a.priority) >= Rank(b.priority)
  }

  function Enqueue(queue: seq<CellMessage>, m: CellMessage): seq<CellMessage> {
    StableSort.Sort(queue + [m], Before)
  }

  function Published(b: Bus, payload: Payload, unix: nat, tick: nat): Bus {
    var m := NewMessage(b.nodeId, b.cellId, b.nextSeq, payload, unix);
    b.(nextSeq := b.nextSeq + 1, outbound := Enqueue(b.outbound, m),
       tracked := b.tracked[b.nextSeq := Tracked(m, Pending, 0, tick)])
  }

  predicate Accepts(b: Bus, m: CellMessage, unix: nat) {
    !Expired(m, unix) && (m.sender in b.received ==> m.num > b.received[m.sender])
  }

  function AfterDeliver(b: Bus, m: CellMessage, unix: nat): Bus {
    if Accepts(b, m, unix)
    then b.(received := b.received[m.sender := m.num], delivered := b.delivered + [m])
    else b
  }

  function AfterAck(b: Bus, num: nat): Bus {
    if num in b.tracked then b.(tracked := b.tracked[num := b.tracked[num].(status := Acknowledged)]) else b
  }

  predicate TimedOut(b: Bus, t: Tracked, tick: nat) {
    t.status != Acknowledged && Elapsed(tick, t.lastSend) >= b.retryTimeout
  }

  /** A pass hands t out again. */
  predicate Resends(b: Bus, t: Tracked, tick: nat) {
    TimedOut(b, t, tick) && t.retries < b.maxRetries
  }

  /** An entry after the loop of a pass, before settled entries are dropped. */
  function Touched(b: Bus, t: Tracked, tick: nat): Tracked {
    if !TimedOut(b, t, tick) then t
    else if t.retries >= b.maxRetries then t.(status := Failed)
    else t.(retries := t.retries + 1, lastSend := tick, status := Delivered)
  }

  predicate Settled(t: Tracked) {
    t.status == Acknowledged || t.status == Failed
  }

  function AfterPass(b: Bus, tick: nat): Bus {
    b.(tracked := map s | s in b.tracked && !Settled(Touched(b, b.tracked[s], tick)) :: Touched(b, b.tracked[s], tick))
  }

  /** The messages a pass hands out, when it visits the tracked entries in the given order. */
  function Resent(b: Bus, tick: nat, order: seq<nat>): (out: seq<CellMessage>)
    requires forall s :: s in order ==> s in b.tracked
  {
    if order == [] then []
    else
      var rest := Resent(b, tick, order[..|order| - 1]);
      var s := order[|order| - 1];
      if Resends(b, b.tracked[s], tick) then rest + [b.tracked[s].message] else rest
  }

  /** order lists every key once: a possible iteration order of a hash map. */
  ghost predicate Enumerates(order: seq<nat>, keys: set<nat>) {
    && (forall s :: s in order <==> s in keys)
    && (forall i, j :: 0 <= i < j < |order| ==> order[i] != order[j])
  }

  lemma ResentSnoc(b: Bus, tick: nat, order: seq<nat>, s: nat)
    requires s in b.tracked && forall x :: x in order ==> x in b.tracked
    ensures Resent(b, tick, order + [s])
         == Resent(b, tick, order) + if Resends(b, b.tracked[s], tick) then [b.tracked[s].message] else []
  {
    assert (order + [s])[..|order|] == order;
  }

  lemma EmptyPass(b: Bus, tick: nat)
    ensures Enumerates([], b.tracked.Keys - b.tracked.Keys) && Resent(b, tick, []) == []
  {}

  lemma EnumeratesSnoc(order: seq<nat>, keys: set<nat>, s: nat)
    requires Enumerates(order, keys) && s !in keys
    ensures Enumerates(order + [s], keys + {s})
  {}

  // --- The bus ---

  class CellMessageBus {
    const cellId: string
    const nodeId: string
    var nextSeq: nat
    var outbound: seq<CellMessage>
    var tracked: map<nat, Tracked>
    var received: map<string, nat>
    var delivered: seq<CellMessage>
    const retryTimeout: nat
    const maxRetries: nat

    function State(): Bus
      reads this
    {
      Bus(cellId, nodeId, nextSeq, outbound, tracked, received, delivered, retryTimeout, maxRetries)
    }

    constructor (cellId: string, nodeId: string)
      ensures State() == NewBus(cellId, nodeId)
    {
      this.cellId, this.nodeId := cellId, nodeId;
      nextSeq := 1;
      outbound, tracked, received, delivered := [], map[], map[], [];
      retryTimeout, maxRetries := DEFAULT_RETRY_TIMEOUT, DEFAULT_MAX_RETRIES;
    }

    method Publish(payload: Payload, unix: nat, tick: nat) returns (num: nat)
      modifies this
      ensures num == old(nextSeq) && State() == Published(old(State()), payload, unix, tick)
    {
      num := nextSeq;
      nextSeq := nextSeq + 1;
      var message := NewMessage(nodeId, cellId, num, payload, unix);
      outbound := outbound + [message];
      outbound := StableSort.Sort(outbound, Before);
      tracked := tracked[num := Tracked(message, Pending, 0, tick)];
    }

    method Deliver(message: CellMessage, unix: nat)
      modifies this`received, this`delivered
      ensures State() == AfterDeliver(old(State()), message, unix)
      ensures delivered ==
              if unix <= message.timestamp + message.ttl
                 && (message.sender in old(received) ==> old(received)[message.sender] < message.num)
              then old(delivered) + [message] else old(delivered)
    {
      if Expired(message, unix) {
        return;
      }
      if message.sender in received {
        if message.num <= received[message.sender] {
          return;
        }
      }
      received := received[message.sender := message.num];
      delivered := delivered + [message];
    }

    method Acknowledge(num: nat)
      modifies this`tracked
      ensures State() == AfterAck(old(State()), num)
    {
      if num in tracked {
        tracked := tracked[num := tracked[num].(status := Acknowledged)];
      }
    }

    method ProcessRetransmissions(tick: nat) returns (toRetry: seq<CellMessage>, ghost order: seq<nat>)
      modifies this`tracked
      ensures Enumerates(order, old(tracked).Keys)
      ensures toRetry == Resent(old(State()), tick, order)
      ensures State() == AfterPass(old(State()), tick)
    {
      hide Resent;
      ghost var before := State();
      EmptyPass(before, tick);
      toRetry, order := [], [];
      var todo := tracked.Keys;
      while todo != {}
        invariant todo <= tracked.Keys == before.tracked.Keys
        invariant Enumerates(order, tracked.Keys - todo)
        invariant toRetry == Resent(before, tick, order)
        invariant forall s :: s in tracked ==>
          tracked[s] == if s in todo then before.tracked[s] else Touched(before, before.tracked[s], tick)
        decreases todo
      {
        var s :| s in todo;
        var msg := tracked[s];
        ghost var done := tracked.Keys - todo;
        todo := todo - {s};
        ResentSnoc(before, tick, order, s);
        EnumeratesSnoc(order, done, s);
        assert done + {s} == tracked.Keys - todo;
        order := order + [s];
        if msg.status != Acknowledged && Elapsed(tick, msg.lastSend) >= retryTimeout {
          if msg.retries >= maxRetries {
            tracked := tracked[s := msg.(status := Failed)];
          } else {
            tracked := tracked[s := msg.(retries := msg.retries + 1, lastSend := tick, status := Delivered)];
            toRetry := toRetry + [msg.message];
          }
        }
      }
      assert tracked.Keys - todo == tracked.Keys;
      tracked := map s | s in tracked && !Settled(tracked[s]) :: tracked[s];
    }

    method GetPendingMessages() returns (messages: seq<CellMessage>)
      modifies this`outbound
      ensures messages == old(outbound) && State() == old(State()).(outbound := [])
    {
      messages := outbound;
      outbound := [];
    }
  }

  // --- The queue ---

  lemma BeforeIsTotalPreorder()
    ensures StableSort.TotalPreorder(Before)
  {}

  /**
   * A message reaches the subscribers exactly if it is at most its lifetime old and above the mark of its
   * sender, if there is one; otherwise nothing changes.
   */
  lemma DeliveredIff(b: Bus, m: CellMessage, unix: nat)
    ensures var after := AfterDeliver(b, m, unix);
            && (after.delivered == b.delivered + [m]
                <==> unix <= m.timestamp + m.ttl && (m.sender in b.received ==> b.received[m.sender] < m.num))
            && (after.delivered == b.delivered + [m] || after == b)
  {
    assert b.delivered != b.delivered + [m] by { assert |b.delivered| != |b.delivered + [m]|; }
  }

  /** What is drained: nothing comes after a message of a lower priority. */
  lemma HigherPriorityFirst(queue: seq<CellMessage>, m: CellMessage, i: nat, j: nat)
    requires i < j < |Enqueue(queue, m)|
    ensures var early, late := Enqueue(queue, m)[i].priority, Enqueue(queue, m)[j].priority;
            && (late == Critical ==> early == Critical)
            && (late == High ==> early == Critical || early == High)
            && (early == Low ==> late == Low)
  {
    BeforeIsTotalPreorder();
    StableSort.SortSorted(queue + [m], Before);
  }

  /** Publishing keeps the queue a priority queue: sorted, nothing lost, and first in first out within a priority. */
  lemma QueueIsStablePriorityQueue(queue: seq<CellMessage>, m: CellMessage, like: CellMessage)
    ensures StableSort.Sorted(Enqueue(queue, m), Before)
    ensures multiset(Enqueue(queue, m)) == multiset(queue) + multiset{m}
    ensures StableSort.Ties(like, Enqueue(queue, m), Before) == StableSort.Ties(like, queue + [m], Before)
  {
    BeforeIsTotalPreorder();
    StableSort.SortSorted(queue + [m], Before);
    StableSort.SortPermutes(queue + [m], Before);
    StableSort.SortStable(like, queue + [m], Before);
  }
}
