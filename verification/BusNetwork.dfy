/**
 * Several buses joined by a network: safety when the network may drop, duplicate and reorder, and
 * exactly when deduplication delivers everything once over a lossless first-in-first-out channel.
 */
module BusNetwork {
  import opened Messaging
  import opened BusRuns

  // --- Any network ---

  /** Buses by node id, and every message ever put on the wire; a message may arrive any number of times, or never. */
  datatype Net = Net(nodes: map<string, History>, wire: set<CellMessage>)

  datatype NetEvent = At(node: string, event: Event)

  function NetStart(cellId: string, ids: set<string>): Net {
    Net(map id | id in ids :: Start(cellId, id), {})
  }

  ghost predicate Enabled(net: Net, e: NetEvent) {
    e.node in net.nodes && (e.event.Receive? ==> e.event.message in net.wire)
  }

  ghost function NetStep(net: Net, e: NetEvent): Net {
    if !Enabled(net, e) then net
    else
      var h := net.nodes[e.node];
      Net(net.nodes[e.node := Step(h, e.event)], net.wire + (set m | m in Emitted(h.bus, e.event)))
  }

  ghost function NetRun(net: Net, events: seq<NetEvent>): Net {
    if events == [] then net else NetStep(NetRun(net, events[..|events| - 1]), events[|events| - 1])
  }

  /** m is what its sender published under its number. */
  ghost predicate Authentic(net: Net, m: CellMessage) {
    && m.sender in net.nodes
    && var h := net.nodes[m.sender];
       1 <= m.num <= |h.published| && m == h.published[m.num - 1]
  }

  /** A node's delivered log: authentic, increasing per sender, and below the recorded marks. */
  ghost predicate LogInv(net: Net, b: Bus) {
    && (forall i :: 0 <= i < |b.delivered| ==> Authentic(net, b.delivered[i]))
    && (forall i :: 0 <= i < |b.delivered| ==>
          b.delivered[i].sender in b.received && b.delivered[i].num <= b.received[b.delivered[i].sender])
    && (forall i, j :: 0 <= i < j < |b.delivered| && b.delivered[i].sender == b.delivered[j].sender ==>
          b.delivered[i].num < b.delivered[j].num)
  }

  ghost predicate NodeInv(net: Net, n: string)
    requires n in net.nodes
  {
    net.nodes[n].bus.nodeId == n && Inv(net.nodes[n]) && LogInv(net, net.nodes[n].bus)
  }

  ghost predicate NetInv(net: Net) {
    && (forall n :: n in net.nodes ==> NodeInv(net, n))
    && (forall m :: m in net.wire ==> Authentic(net, m))
  }

  /** Whatever a bus emits is one of its publications. */
  lemma EmittedIsPublished(h: History, e: Event, m: CellMessage)
    requires Inv(h) && m in Emitted(h.bus, e)
    ensures 1 <= m.num <= |h.published| && m == h.published[m.num - 1]
  {
    match e
    case Drain =>
      var i :| 0 <= i < |h.bus.outbound| && h.bus.outbound[i] == m;
      assert m == (h.drained + h.bus.outbound)[|h.drained| + i];
    case Pass(tick, order) =>
      var s := ResentSource(h.bus, tick, order, m);
      assert EntryInv(h, s);
    case _ =>
  }

  lemma {:induction false} ResentSource(b: Bus, tick: nat, order: seq<nat>, m: CellMessage) returns (s: nat)
    requires forall x :: x in order ==> x in b.tracked
    requires m in Resent(b, tick, order)
    ensures s in b.tracked && b.tracked[s].message == m && Resends(b, b.tracked[s], tick)
    decreases order
  {
    var init, last := order[..|order| - 1], order[|order| - 1];
    if m in Resent(b, tick, init) {
      s := ResentSource(b, tick, init, m);
    } else {
      s := last;
    }
  }

  lemma AuthenticStays(net: Net, e: NetEvent, m: CellMessage)
    requires NetInv(net) && Authentic(net, m)
    ensures Authentic(NetStep(net, e), m)
  {
    if Enabled(net, e) && e.node == m.sender {
      assert NodeInv(net, e.node);
      StepGrows(net.nodes[e.node], e.event);
    }
  }

  lemma LogExtends(net: Net, b: Bus, m: CellMessage, unix: nat)
    requires LogInv(net, b) && Authentic(net, m)
    ensures LogInv(net, AfterDeliver(b, m, unix))
  {
    hide Authentic;
  }

  lemma NetStepLog(net: Net, e: NetEvent, n: string)
    requires NetInv(net) && n in net.nodes
    ensures LogInv(NetStep(net, e), NetStep(net, e).nodes[n].bus)
  {
    hide Step, Authentic, AfterDeliver, Emitted;
    var net' := NetStep(net, e);
    assert NodeInv(net, n);
    var b := net.nodes[n].bus;
    assert LogInv(net', b) by {
      forall i | 0 <= i < |b.delivered| ensures Authentic(net', b.delivered[i]) {
        AuthenticStays(net, e, b.delivered[i]);
      }
    }
    if Enabled(net, e) && e.node == n {
      if e.event.Receive? {
        AuthenticStays(net, e, e.event.message);
        LogExtends(net', b, e.event.message, e.event.unix);
        ReceiveDelivers(net.nodes[n], e.event.message, e.event.unix);
      } else {
        OnlyReceiveDelivers(net.nodes[n], e.event);
      }
    }
  }

  lemma ReceiveDelivers(h: History, m: CellMessage, unix: nat)
    ensures Step(h, Receive(m, unix)).bus == AfterDeliver(h.bus, m, unix)
  {}

  lemma OnlyReceiveDelivers(h: History, e: Event)
    requires !e.Receive?
    ensures Step(h, e).bus.delivered == h.bus.delivered && Step(h, e).bus.received == h.bus.received
  {}

  lemma NetStepInv(net: Net, e: NetEvent)
    requires NetInv(net)
    ensures NetInv(NetStep(net, e))
  {
    var net' := NetStep(net, e);
    forall n | n in net'.nodes ensures NodeInv(net', n) {
      assert NodeInv(net, n);
      NetStepLog(net, e, n);
      if Enabled(net, e) && n == e.node {
        StepInv(net.nodes[n], e.event);
      }
    }
    forall m | m in net'.wire ensures Authentic(net', m) {
      if m in net.wire {
        AuthenticStays(net, e, m);
      } else {
        assert NodeInv(net, e.node);
        var h := net.nodes[e.node];
        EmittedIsPublished(h, e.event, m);
        StepGrows(h, e.event);
      }
    }
  }

  lemma NetStartInv(cellId: string, ids: set<string>)
    ensures NetInv(NetStart(cellId, ids))
  {
    forall n | n in ids ensures NodeInv(NetStart(cellId, ids), n) {
      StartInv(cellId, n);
    }
  }

  lemma {:induction false} NetRunInv(net: Net, events: seq<NetEvent>)
    requires NetInv(net)
    ensures NetInv(NetRun(net, events)) && NetRun(net, events).nodes.Keys == net.nodes.Keys
  {
    if events != [] {
      NetRunInv(net, events[..|events| - 1]);
      NetStepInv(NetRun(net, events[..|events| - 1]), events[|events| - 1]);
    }
  }

  /**
   * In every run over a network that drops, duplicates and reorders, what a node's subscribers saw
   * from one sender has strictly increasing numbers, and each message is exactly what that sender
   * published under its number.
   */
  lemma DeliveryIsOrderedAndAuthentic(cellId: string, ids: set<string>, events: seq<NetEvent>, n: string, i: nat,
          j: nat)
    requires n in ids
    ensures var net := NetRun(NetStart(cellId, ids), events);
            && n in net.nodes
            && var log := net.nodes[n].bus.delivered;
               && (i < |log| ==> Authentic(net, log[i]))
               && (i < j < |log| && log[i].sender == log[j].sender ==> log[i].num < log[j].num)
  {
    NetStartInv(cellId, ids);
    NetRunInv(NetStart(cellId, ids), events);
    assert NodeInv(NetRun(NetStart(cellId, ids), events), n);
  }

  // --- A lossless first-in-first-out channel ---

  /** One sender, everything it put on the channel, how much has been taken off it, and the receiver. */
  datatype Link = Link(sender: History, sent: seq<CellMessage>, taken: nat, receiver: Bus)

  /** Aside is anything else the receiver does: messages of other senders, and its own traffic. */
  datatype LinkEvent = Send(event: Event) | Take(unix: nat) | Aside(event: Event)

  function LinkStart(cellId: string, from: string, to: string): Link {
    Link(Start(cellId, from), [], 0, NewBus(cellId, to))
  }

  ghost function LinkStep(l: Link, e: LinkEvent): Link {
    match e
    case Send(event) => l.(sender := Step(l.sender, event), sent := l.sent + Emitted(l.sender.bus, event))
    case Take(unix) =>
      if l.taken < |l.sent|
      then l.(taken := l.taken + 1, receiver := AfterDeliver(l.receiver, l.sent[l.taken], unix))
      else l
    case Aside(event) =>
      if event.Receive? && event.message.sender == l.sender.bus.nodeId then l
      else l.(receiver := Step(Resumed(l.receiver), event).bus)
  }

  /** A bus in mid-life, its past forgotten. */
  function Resumed(b: Bus): History {
    History(b, [], [], multiset{}, multiset{}, {}, {}, {})
  }

  /** The messages of a log that one sender sent. */
  ghost function From(log: seq<CellMessage>, sender: string): (r: seq<CellMessage>)
    ensures forall m :: m in r <==> m in log && m.sender == sender
  {
    if log == [] then []
    else
      var init, last := log[..|log| - 1], log[|log| - 1];
      assert log == init + [last];
      From(init, sender) + if last.sender == sender then [last] else []
  }

  lemma FromSnoc(log: seq<CellMessage>, m: CellMessage, sender: string)
    ensures From(log + [m], sender) == From(log, sender) + if m.sender == sender then [m] else []
  {
    assert (log + [m])[..|log|] == log;
  }

  ghost function LinkRun(l: Link, events: seq<LinkEvent>): Link {
    if events == [] then l else LinkStep(LinkRun(l, events[..|events| - 1]), events[|events| - 1])
  }

  /** The highest number in a stream, 0 if it is empty. */
  ghost function Mark(s: seq<CellMessage>): (m: nat)
    ensures forall i :: 0 <= i < |s| ==> s[i].num <= m
  {
    if s == [] then 0
    else
      var rest, last := Mark(s[..|s| - 1]), s[|s| - 1].num;
      if last > rest then last else rest
  }

  /** The messages of a stream whose number exceeds every earlier one. */
  ghost function Records(s: seq<CellMessage>): seq<CellMessage> {
    if s == [] then []
    else
      var init, last := s[..|s| - 1], s[|s| - 1];
      if last.num > Mark(init) then Records(init) + [last] else Records(init)
  }

  lemma RecordsSnoc(s: seq<CellMessage>, m: CellMessage)
    ensures Records(s + [m]) == if m.num > Mark(s) then Records(s) + [m] else Records(s)
    ensures Mark(s + [m]) == if m.num > Mark(s) then m.num else Mark(s)
  {
    assert (s + [m])[..|s|] == s;
  }

  /** No message appears for the first time after a higher-numbered one. */
  ghost predicate FirstsIncrease(s: seq<CellMessage>) {
    forall i, j :: 0 <= i < j < |s| && s[j] !in s[..j] ==> s[i].num < s[j].num
  }

  /** A stream of one sender: numbers from 1, and one message per number. */
  ghost predicate OneSender(s: seq<CellMessage>, sender: string) {
    && (forall i :: 0 <= i < |s| ==> s[i].sender == sender && s[i].num >= 1)
    && (forall i, j :: 0 <= i < |s| && 0 <= j < |s| && s[i].num == s[j].num ==> s[i] == s[j])
  }

  lemma {:induction false} RecordsIncrease(s: seq<CellMessage>, i: nat, j: nat)
    requires i < j < |Records(s)|
    ensures Records(s)[i].num < Records(s)[j].num
  {
    var init, last := s[..|s| - 1], s[|s| - 1];
    if j < |Records(init)| {
      RecordsIncrease(init, i, j);
    } else {
      RecordsFromStream(init, Records(init)[i]);
    }
  }

  lemma {:induction false} RecordsFromStream(s: seq<CellMessage>, m: CellMessage)
    requires m in Records(s)
    ensures m in s && m.num <= Mark(s)
  {
    var init, last := s[..|s| - 1], s[|s| - 1];
    assert s == init + [last];
    if m in Records(init) {
      RecordsFromStream(init, m);
    }
  }

  /** A message passed over once is never recorded. */
  lemma {:induction false} PassedOver(s: seq<CellMessage>, k: nat, m: CellMessage)
    requires k <= |s| && m.num <= Mark(s[..k]) && m !in Records(s[..k])
    ensures m !in Records(s) && m.num <= Mark(s)
    decreases |s|
  {
    if k == |s| {
      assert s[..k] == s;
    } else {
      var init := s[..|s| - 1];
      assert init[..k] == s[..k];
      PassedOver(init, k, m);
    }
  }

  /** Every message of a stream is recorded exactly when first appearances come in increasing order. */
  lemma {:induction false} AllRecordedIff(s: seq<CellMessage>, sender: string)
    requires OneSender(s, sender)
    ensures (forall m :: m in s ==> m in Records(s)) <==> FirstsIncrease(s)
  {
    if FirstsIncrease(s) {
      forall m | m in s ensures m in Records(s) {
        FirstsAreRecorded(s, sender, m);
      }
    } else {
      var i, j :| 0 <= i < j < |s| && s[j] !in s[..j] && s[j].num <= s[i].num;
      assert s[..j][i] == s[i];
      if s[j] in Records(s[..j]) {
        RecordsFromStream(s[..j], s[j]);
      }
      PassedOver(s, j, s[j]);
      assert s[j] in s;
    }
  }

  lemma FirstsPrefix(s: seq<CellMessage>, sender: string, k: nat)
    requires OneSender(s, sender) && FirstsIncrease(s) && k <= |s|
    ensures OneSender(s[..k], sender) && FirstsIncrease(s[..k])
  {
    forall i, j | 0 <= i < j < k && s[..k][j] !in s[..k][..j] ensures s[..k][i].num < s[..k][j].num {
      assert s[..k][..j] == s[..j];
    }
  }

  lemma {:induction false} FirstsAreRecorded(s: seq<CellMessage>, sender: string, m: CellMessage)
    requires OneSender(s, sender) && FirstsIncrease(s) && m in s
    ensures m in Records(s)
    decreases |s|
  {
    var init, last := s[..|s| - 1], s[|s| - 1];
    assert s == init + [last];
    if m in init {
      FirstsPrefix(s, sender, |s| - 1);
      FirstsAreRecorded(init, sender, m);
    } else {
      MarkBelow(init, m.num);
    }
  }

  lemma MarkBelow(s: seq<CellMessage>, n: nat)
    requires n > 0 && forall i :: 0 <= i < |s| ==> s[i].num < n
    ensures Mark(s) < n
  {
    MarkIsReached(s);
  }

  lemma {:induction false} MarkIsReached(s: seq<CellMessage>)
    ensures Mark(s) == 0 || exists i :: 0 <= i < |s| && s[i].num == Mark(s)
  {
    if s != [] {
      var init := s[..|s| - 1];
      MarkIsReached(init);
      if Mark(s) == Mark(init) && Mark(s) != 0 {
        var i :| 0 <= i < |init| && init[i].num == Mark(init);
        assert s[i] == init[i];
      }
    }
  }

  /** The channel carries publications, and the receiver has exactly the records of what it has taken. */
  ghost predicate LinkInv(l: Link) {
    ChannelInv(l.sender, l.sent) && ReceiverInv(l.sent, l.taken, l.receiver, l.sender.bus.nodeId)
  }

  ghost predicate ChannelInv(h: History, sent: seq<CellMessage>) {
    && Inv(h)
    && forall i :: 0 <= i < |sent| ==> 1 <= sent[i].num <= |h.published| && sent[i] == h.published[sent[i].num - 1]
  }

  ghost predicate ReceiverInv(sent: seq<CellMessage>, taken: nat, b: Bus, from: string) {
    && taken <= |sent|
    && From(b.delivered, from) == Records(sent[..taken])
    && (from in b.received <==> taken > 0)
    && (taken > 0 ==> b.received[from] == Mark(sent[..taken]))
  }

  /** A message is taken off the channel no later than its lifetime after it was stamped. */
  ghost predicate InTime(l: Link, e: LinkEvent) {
    e.Take? && l.taken < |l.sent| ==> e.unix <= l.sent[l.taken].timestamp + l.sent[l.taken].ttl
  }

  /** A retransmission pass hands out only what has already been drained from the queue. */
  ghost predicate DrainedFirst(l: Link, e: LinkEvent) {
    e.Send? && e.event.Pass? ==> forall m :: m in Emitted(l.sender.bus, e.event) ==> m in l.sender.drained
  }

  ghost predicate AlwaysInTime(l: Link, events: seq<LinkEvent>) {
    forall i :: 0 <= i < |events| ==> InTime(LinkRun(l, events[..i]), events[i])
  }

  ghost predicate AlwaysDrainedFirst(l: Link, events: seq<LinkEvent>) {
    forall i :: 0 <= i < |events| ==> DrainedFirst(LinkRun(l, events[..i]), events[i])
  }

  lemma LinkOneSender(l: Link)
    requires LinkInv(l)
    ensures OneSender(l.sent, l.sender.bus.nodeId) && OneSender(l.sent[..l.taken], l.sender.bus.nodeId)
  {}

  lemma SendKeepsChannel(l: Link, e: Event)
    requires ChannelInv(l.sender, l.sent)
    ensures ChannelInv(LinkStep(l, Send(e)).sender, LinkStep(l, Send(e)).sent)
  {
    hide Step, Emitted, Inv;
    var l' := LinkStep(l, Send(e));
    StepInv(l.sender, e);
    StepGrows(l.sender, e);
    forall i | 0 <= i < |l'.sent|
      ensures 1 <= l'.sent[i].num <= |l'.sender.published| && l'.sent[i] == l'.sender.published[l'.sent[i].num - 1]
    {
      if i >= |l.sent| {
        EmittedIsPublished(l.sender, e, l'.sent[i]);
      }
    }
  }

  lemma SendKeepsLink(l: Link, e: Event)
    requires LinkInv(l)
    ensures LinkInv(LinkStep(l, Send(e)))
  {
    hide Step, Emitted, ChannelInv;
    SendKeepsChannel(l, e);
    StepKeepsSettings(l.sender, e);
    assert LinkStep(l, Send(e)).sent[..l.taken] == l.sent[..l.taken];
  }

  lemma ReceiverTakes(sent: seq<CellMessage>, taken: nat, b: Bus, from: string, unix: nat)
    requires taken < |sent| && ReceiverInv(sent, taken, b, from)
    requires sent[taken].sender == from && sent[taken].num >= 1 && !Expired(sent[taken], unix)
    ensures ReceiverInv(sent, taken + 1, AfterDeliver(b, sent[taken], unix), from)
  {
    hide Records, Mark, Expired, AfterDeliver, Accepts;
    var before, m := sent[..taken], sent[taken];
    RecordsSnoc(before, m);
    assert sent[..taken + 1] == before + [m];
    NothingTaken(before);
    MarkedDelivery(b, m, unix, Mark(before));
    FromSnoc(b.delivered, m, from);
  }

  lemma AsideKeepsLink(l: Link, e: Event)
    requires LinkInv(l)
    ensures LinkInv(LinkStep(l, Aside(e))) && LinkStep(l, Aside(e)).sender == l.sender
  {
    hide ChannelInv, AfterDeliver, Accepts;
    var from := l.sender.bus.nodeId;
    if e.Receive? {
      if e.message.sender != from {
        ReceiveDelivers(Resumed(l.receiver), e.message, e.unix);
        hide Step;
        OtherDelivery(l.receiver, e.message, e.unix, from);
      }
    } else {
      OnlyReceiveDelivers(Resumed(l.receiver), e);
    }
  }

  lemma OtherDelivery(b: Bus, m: CellMessage, unix: nat, from: string)
    requires m.sender != from
    ensures From(AfterDeliver(b, m, unix).delivered, from) == From(b.delivered, from)
    ensures from in AfterDeliver(b, m, unix).received <==> from in b.received
    ensures from in b.received ==> AfterDeliver(b, m, unix).received[from] == b.received[from]
  {
    FromSnoc(b.delivered, m, from);
    assert From(b.delivered, from) + [] == From(b.delivered, from);
  }

  lemma TakeKeepsLink(l: Link, unix: nat)
    requires LinkInv(l) && InTime(l, Take(unix))
    ensures LinkInv(LinkStep(l, Take(unix)))
  {
    hide ChannelInv, AfterDeliver, Step, From, Records, Mark;
    if l.taken < |l.sent| {
      LinkOneSender(l);
      assert !Expired(l.sent[l.taken], unix);
      hide ReceiverInv;
      ReceiverTakes(l.sent, l.taken, l.receiver, l.sender.bus.nodeId, unix);
    }
  }

  lemma NothingTaken(s: seq<CellMessage>)
    ensures s == [] ==> Mark(s) == 0 && Records(s) == []
  {}

  /** With a high-water mark in place of the sender's entry, delivery accepts exactly above the mark. */
  lemma MarkedDelivery(b: Bus, m: CellMessage, unix: nat, mark: nat)
    requires !Expired(m, unix) && m.num >= 1
    requires if m.sender in b.received then b.received[m.sender] == mark else mark == 0
    ensures Accepts(b, m, unix) <==> m.num > mark
    ensures AfterDeliver(b, m, unix).delivered == if m.num > mark then b.delivered + [m] else b.delivered
    ensures m.sender in AfterDeliver(b, m, unix).received
    ensures AfterDeliver(b, m, unix).received[m.sender] == if m.num > mark then m.num else mark
  {}

  lemma {:induction false} LinkRunInv(l: Link, events: seq<LinkEvent>)
    requires LinkInv(l) && AlwaysInTime(l, events)
    ensures LinkInv(LinkRun(l, events)) && LinkRun(l, events).sender.bus.nodeId == l.sender.bus.nodeId
    decreases |events|
  {
    if events != [] {
      var init, e := events[..|events| - 1], events[|events| - 1];
      assert AlwaysInTime(l, init) by {
        forall i | 0 <= i < |init| ensures InTime(LinkRun(l, init[..i]), init[i]) {
          assert init[..i] == events[..i];
        }
      }
      LinkRunInv(l, init);
      assert InTime(LinkRun(l, init), e);
      match e
      case Send(event) =>
        SendKeepsLink(LinkRun(l, init), event);
        StepKeepsSettings(LinkRun(l, init).sender, event);
      case Take(unix) => TakeKeepsLink(LinkRun(l, init), unix);
      case Aside(event) => AsideKeepsLink(LinkRun(l, init), event);
    }
  }

  lemma LinkStartInv(cellId: string, from: string, to: string)
    ensures LinkInv(LinkStart(cellId, from, to))
  {
    StartInv(cellId, from);
  }

  /**
   * Over a lossless first-in-first-out channel on which nothing expires, in every run and whatever
   * else the receiver does: it delivers no message of this sender twice and in increasing order; and it
   * delivers every message it has taken exactly when no message was sent for the first time after a
   * higher-numbered one.
   */
  lemma FifoDeliversAllIff(cellId: string, from: string, to: string, events: seq<LinkEvent>, i: nat, j: nat)
    requires AlwaysInTime(LinkStart(cellId, from, to), events)
    ensures var l := LinkRun(LinkStart(cellId, from, to), events);
            && l.taken <= |l.sent|
            && var taken, log := l.sent[..l.taken], From(l.receiver.delivered, from);
               && (i < j < |log| ==> log[i].num < log[j].num)
               && ((forall m :: m in taken ==> m in log) <==> FirstsIncrease(taken))
  {
    assert LinkStart(cellId, from, to).sender.bus.nodeId == from;
    hide LinkRun, LinkStart, Inv;
    LinkStartInv(cellId, from, to);
    LinkRunInv(LinkStart(cellId, from, to), events);
    var l := LinkRun(LinkStart(cellId, from, to), events);
    LinkOneSender(l);
    AllRecordedIff(l.sent[..l.taken], l.sender.bus.nodeId);
    if i < j < |From(l.receiver.delivered, from)| {
      RecordsIncrease(l.sent[..l.taken], i, j);
    }
  }

  // --- Draining before retransmitting is enough ---

  /** Everything sent has been drained, and the drained messages are the records of the stream. */
  ghost predicate CarefulInv(l: Link) {
    && LinkInv(l)
    && Records(l.sent) == l.sender.drained
    && forall m :: m in l.sent ==> m in l.sender.drained
  }

  lemma {:induction false} RecordsOfOld(s: seq<CellMessage>, batch: seq<CellMessage>)
    requires forall m :: m in batch ==> m.num <= Mark(s)
    ensures Records(s + batch) == Records(s) && Mark(s + batch) == Mark(s)
    decreases |batch|
  {
    hide Records, Mark;
    if batch == [] {
      assert s + batch == s;
    } else {
      var init, last := batch[..|batch| - 1], batch[|batch| - 1];
      RecordsOfOld(s, init);
      RecordsSnoc(s + init, last);
      assert s + batch == s + init + [last];
    }
  }

  lemma {:induction false} RecordsOfNew(s: seq<CellMessage>, batch: seq<CellMessage>)
    requires forall i :: 0 <= i < |batch| ==> batch[i].num > Mark(s)
    requires forall i, j :: 0 <= i < j < |batch| ==> batch[i].num < batch[j].num
    ensures Records(s + batch) == Records(s) + batch
    ensures Mark(s + batch) == if batch == [] then Mark(s) else batch[|batch| - 1].num
    decreases |batch|
  {
    hide Records, Mark;
    if batch == [] {
      assert s + batch == s && Records(s) + batch == Records(s);
    } else {
      var init, last := batch[..|batch| - 1], batch[|batch| - 1];
      RecordsOfNew(s, init);
      RecordsSnoc(s + init, last);
      assert s + batch == s + init + [last];
      assert Records(s) + batch == Records(s) + init + [last];
    }
  }

  lemma CarefulMark(l: Link)
    requires CarefulInv(l)
    ensures Mark(l.sent) <= |l.sender.drained|
  {
    MarkIsReached(l.sent);
    if Mark(l.sent) != 0 {
      var i :| 0 <= i < |l.sent| && l.sent[i].num == Mark(l.sent);
      assert l.sent[i] in l.sender.drained;
      var k :| 0 <= k < |l.sender.drained| && l.sender.drained[k] == l.sent[i];
      assert l.sender.published[k] == (l.sender.drained + l.sender.bus.outbound)[k];
    }
  }

  lemma QueueNumbers(h: History, i: nat)
    requires Inv(h) && i < |h.bus.outbound|
    ensures h.bus.outbound[i].num == |h.drained| + i + 1
  {
    assert h.bus.outbound[i] == (h.drained + h.bus.outbound)[|h.drained| + i];
  }

  lemma DrainStep(h: History)
    ensures Step(h, Drain).drained == h.drained + h.bus.outbound && Emitted(h.bus, Drain) == h.bus.outbound
  {}

  lemma CarefulDrain(l: Link)
    requires CarefulInv(l)
    ensures CarefulInv(LinkStep(l, Send(Drain)))
  {
    SendKeepsLink(l, Drain);
    CarefulMark(l);
    DrainStep(l.sender);
    var h := l.sender;
    forall i | 0 <= i < |h.bus.outbound| ensures h.bus.outbound[i].num == |h.drained| + i + 1 { QueueNumbers(h, i); }
    hide Records, Mark, LinkInv, Step, Emitted;
    RecordsOfNew(l.sent, h.bus.outbound);
  }

  lemma CarefulPass(l: Link, e: Event)
    requires CarefulInv(l) && e.Pass? && DrainedFirst(l, Send(e))
    ensures CarefulInv(LinkStep(l, Send(e)))
  {
    SendKeepsLink(l, e);
    var out := Emitted(l.sender.bus, e);
    forall m | m in out ensures m.num <= Mark(l.sent) {
      RecordsFromStream(l.sent, m);
    }
    RecordsOfOld(l.sent, out);
    assert LinkStep(l, Send(e)).sender.drained == l.sender.drained;
  }

  lemma CarefulStep(l: Link, e: LinkEvent)
    requires CarefulInv(l) && InTime(l, e) && DrainedFirst(l, e)
    ensures CarefulInv(LinkStep(l, e))
  {
    match e
    case Take(unix) => TakeKeepsLink(l, unix);
    case Aside(event) => AsideKeepsLink(l, event);
    case Send(event) =>
      if event.Drain? {
        CarefulDrain(l);
      } else if event.Pass? {
        CarefulPass(l, event);
      } else {
        SendKeepsLink(l, event);
        SilentStep(l.sender, event);
        assert l.sent + [] == l.sent;
      }
  }

  lemma SilentStep(h: History, e: Event)
    requires !e.Drain? && !e.Pass?
    ensures Emitted(h.bus, e) == [] && Step(h, e).drained == h.drained
  {}

  lemma {:induction false} CarefulRun(l: Link, events: seq<LinkEvent>)
    requires CarefulInv(l) && AlwaysInTime(l, events) && AlwaysDrainedFirst(l, events)
    ensures CarefulInv(LinkRun(l, events))
    decreases |events|
  {
    if events != [] {
      hide CarefulInv, LinkStep, InTime, DrainedFirst;
      var init, e := events[..|events| - 1], events[|events| - 1];
      forall i | 0 <= i < |init|
        ensures InTime(LinkRun(l, init[..i]), init[i]) && DrainedFirst(LinkRun(l, init[..i]), init[i])
      {
        assert init[..i] == events[..i];
      }
      CarefulRun(l, init);
      assert InTime(LinkRun(l, init), e) && DrainedFirst(LinkRun(l, init), e);
      CarefulStep(LinkRun(l, init), e);
    }
  }

  /**
   * If in addition every pass hands out only messages already drained, the receiver has delivered, of
   * this sender, exactly the messages it has taken, each once, and they are a prefix of what was published.
   */
  lemma FifoExactlyOnce(cellId: string, from: string, to: string, events: seq<LinkEvent>)
    requires AlwaysInTime(LinkStart(cellId, from, to), events)
    requires AlwaysDrainedFirst(LinkStart(cellId, from, to), events)
    ensures var l := LinkRun(LinkStart(cellId, from, to), events);
            && l.taken <= |l.sent|
            && var log := From(l.receiver.delivered, from);
               log <= l.sender.published && forall m :: m in l.sent[..l.taken] <==> m in log
  {
    var start := LinkStart(cellId, from, to);
    LinkStartInv(cellId, from, to);
    assert Records(start.sent) == start.sender.drained;
    assert start.sender.bus.nodeId == from;
    hide LinkRun, LinkStart;
    LinkRunInv(start, events);
    CarefulRun(start, events);
    CarefulLinkDelivers(LinkRun(start, events));
  }

  lemma CarefulLinkDelivers(l: Link)
    requires CarefulInv(l)
    ensures var log := From(l.receiver.delivered, l.sender.bus.nodeId);
            log <= l.sender.published && forall m :: m in l.sent[..l.taken] <==> m in log
  {
    hide Records, Mark;
    var node := l.sender.bus.nodeId;
    LinkOneSender(l);
    assert l.sender.drained <= l.sender.published;
    hide Inv, OneSender, FirstsIncrease;
    AllRecordedIff(l.sent, node);
    FirstsPrefix(l.sent, node, l.taken);
    AllRecordedIff(l.sent[..l.taken], node);
    RecordsPrefix(l.sent, l.taken);
    forall m | m in From(l.receiver.delivered, node) ensures m in l.sent[..l.taken] {
      RecordsFromStream(l.sent[..l.taken], m);
    }
  }

  lemma {:induction false} RecordsPrefix(s: seq<CellMessage>, k: nat)
    requires k <= |s|
    ensures Records(s[..k]) <= Records(s)
    decreases |s|
  {
    if k < |s| {
      var init := s[..|s| - 1];
      assert init[..k] == s[..k];
      RecordsPrefix(init, k);
    } else {
      assert s[..k] == s;
    }
  }

  lemma LinkRunSnoc(l: Link, events: seq<LinkEvent>, e: LinkEvent)
    ensures LinkRun(l, events + [e]) == LinkStep(LinkRun(l, events), e)
  {
    assert (events + [e])[..|events|] == events;
  }

  /**
   * Without that care a message is lost for good: two publications, a pass that visits the second
   * entry first before the queue is drained, and then the drain. Both messages are drained and
   * taken off the channel, and the first is never delivered.
   */
  lemma EarlyPassLosesMessage(cellId: string, from: string, to: string, p: Payload)
    returns (events: seq<LinkEvent>)
    ensures AlwaysInTime(LinkStart(cellId, from, to), events)
    ensures var l := LinkRun(LinkStart(cellId, from, to), events);
            && l.taken <= |l.sent|
            && exists m :: m in l.sent[..l.taken] && m in l.sender.drained && m !in l.receiver.delivered
  {
    var l0 := LinkStart(cellId, from, to);
    var publish, pass := Send(Publish(p, 0, 0)), Send(Pass(2000, [2, 1]));
    events := [publish, publish, pass, Send(Drain), Take(0), Take(0)];
    InTimeAtZero(l0, events);
    RunOfSix(l0, publish, publish, pass, Send(Drain), Take(0), Take(0));
    TwoPublications(cellId, from, to, p);
    var l2 := LinkStep(LinkStep(l0, publish), publish);
    hide LinkRun, LinkStep, LinkStart, AlwaysInTime;
    LostAfterPublications(l2, NewMessage(from, cellId, 1, p, 0), NewMessage(from, cellId, 2, p, 0), cellId, from, to);
  }

  lemma InTimeAtZero(l: Link, events: seq<LinkEvent>)
    requires forall i :: 0 <= i < |events| && events[i].Take? ==> events[i].unix == 0
    ensures AlwaysInTime(l, events)
  {
    hide LinkRun;
  }

  lemma RunOfSix(l: Link, a: LinkEvent, b: LinkEvent, c: LinkEvent, d: LinkEvent, e: LinkEvent, f: LinkEvent)
    ensures LinkRun(l, [a, b, c, d, e, f])
         == LinkStep(LinkStep(LinkStep(LinkStep(LinkStep(LinkStep(l, a), b), c), d), e), f)
  {
    LinkRunNone(l);
    hide LinkRun, LinkStep;
    LinkRunSnoc(l, [], a);
    assert [] + [a] == [a];
    LinkRunSnoc(l, [a], b);
    assert [a] + [b] == [a, b];
    LinkRunSnoc(l, [a, b], c);
    assert [a, b] + [c] == [a, b, c];
    LinkRunSnoc(l, [a, b, c], d);
    assert [a, b, c] + [d] == [a, b, c, d];
    LinkRunSnoc(l, [a, b, c, d], e);
    assert [a, b, c, d] + [e] == [a, b, c, d, e];
    LinkRunSnoc(l, [a, b, c, d, e], f);
    assert [a, b, c, d, e] + [f] == [a, b, c, d, e, f];
  }

  /** Two publications are queued, tracked since time 0, and nothing has been sent. */
  ghost predicate JustPublished(l: Link, m1: CellMessage, m2: CellMessage, cellId: string, from: string, to: string) {
    && l.sender.bus.tracked == map[1 := Tracked(m1, Pending, 0, 0), 2 := Tracked(m2, Pending, 0, 0)]
    && l.sender.bus.outbound == [m1, m2] && l.sender.drained == [] && l.sent == [] && l.taken == 0
    && l.sender.bus.retryTimeout == 2000 && l.sender.bus.maxRetries == 3
    && l.receiver == NewBus(cellId, to)
    && m1.num == 1 && m2.num == 2 && m1.sender == m2.sender == from
  }

  lemma LostAfterPublications(l: Link, m1: CellMessage, m2: CellMessage, cellId: string, from: string, to: string)
    requires JustPublished(l, m1, m2, cellId, from, to)
    ensures var sent := LinkStep(LinkStep(l, Send(Pass(2000, [2, 1]))), Send(Drain));
            var end := LinkStep(LinkStep(sent, Take(0)), Take(0));
            && end.taken == 2 && 2 <= |end.sent|
            && m1 in end.sent[..2] && m1 in end.sender.drained && m1 !in end.receiver.delivered
  {
    EmittedEarly(l.sender.bus, m1, m2);
    var l3 := LinkStep(l, Send(Pass(2000, [2, 1])));
    assert l3.sent == [m2, m1] && l3.sender.bus.outbound == [m1, m2] && l3.sender.drained == [];
    var l4 := LinkStep(l3, Send(Drain));
    assert l4.sent == [m2, m1, m1, m2] && l4.sender.drained == [m1, m2] && l4.receiver == l.receiver && l4.taken == 0;
    hide Step, Emitted;
    TakeTwo(l4, m1, m2, from);
  }

  lemma TakeTwo(l: Link, m1: CellMessage, m2: CellMessage, from: string)
    requires l.sent == [m2, m1, m1, m2] && l.taken == 0 && l.receiver.received == map[] && l.receiver.delivered == []
    requires m1.num == 1 && m2.num == 2 && m1.sender == m2.sender == from
    ensures var end := LinkStep(LinkStep(l, Take(0)), Take(0));
            end.sent == l.sent && end.taken == 2 && end.sender == l.sender && end.receiver.delivered == [m2]
  {
    var l5 := LinkStep(l, Take(0));
    assert Accepts(l.receiver, m2, 0);
    assert l5.receiver.delivered == [m2] && from in l5.receiver.received && l5.receiver.received[from] == 2;
    assert !Accepts(l5.receiver, m1, 0);
  }

  lemma LinkRunNone(l: Link)
    ensures LinkRun(l, []) == l
  {}

  lemma TwoPublications(cellId: string, from: string, to: string, p: Payload)
    ensures var l := LinkStep(LinkStep(LinkStart(cellId, from, to), Send(Publish(p, 0, 0))), Send(Publish(p, 0, 0)));
            JustPublished(l, NewMessage(from, cellId, 1, p, 0), NewMessage(from, cellId, 2, p, 0), cellId, from, to)
  {
    var h := Start(cellId, from);
    var m1, m2 := NewMessage(from, cellId, 1, p, 0), NewMessage(from, cellId, 2, p, 0);
    StartInv(cellId, from);
    EnqueueAppends(h, m1);
    StepInv(h, Publish(p, 0, 0));
    EnqueueAppends(Step(h, Publish(p, 0, 0)), m2);
  }

  lemma EmittedEarly(b: Bus, m1: CellMessage, m2: CellMessage)
    requires b.tracked == map[1 := Tracked(m1, Pending, 0, 0), 2 := Tracked(m2, Pending, 0, 0)]
    requires b.retryTimeout == 2000 && b.maxRetries == 3
    ensures Emitted(b, Pass(2000, [2, 1])) == [m2, m1]
  {
    ResentSnoc(b, 2000, [], 2);
    ResentSnoc(b, 2000, [2], 1);
    assert [2] + [1] == [2, 1] && [] + [2] == [2];
  }
}
