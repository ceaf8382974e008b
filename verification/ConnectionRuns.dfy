/**
 * The connection slots over whole runs, examples/m5stack-core2-peat/src/nimble.rs, against what the
 * radio reported: which connections the slots show, what the older single-connection handle names,
 * and whose node ids are reported when connections end.
 */
module ConnectionRuns {
  import opened ConnectionSlots

  // --- Connections by handle ---

  datatype Link = Link(peer: Address, central: bool)

  /** Slot i holds the live connection with handle h. */
  ghost predicate Up(slots: seq<Slot>, i: nat, h: nat) { i < |slots| && slots[i].active && slots[i].handle == h }

  function LinkOf(x: Slot): Link { Link(x.peer, x.central) }

  /** The active slots are exactly the map from handles to connections, one slot each. */
  ghost predicate Shows(slots: seq<Slot>, links: map<nat, Link>) {
    && (forall i: nat, h: nat :: Up(slots, i, h) ==> h in links && links[h] == LinkOf(slots[i]))
    && (forall h :: h in links ==> exists i: nat :: Up(slots, i, h))
    && (forall i: nat, j: nat, h: nat :: Up(slots, i, h) && Up(slots, j, h) ==> i == j)
  }

  function Unlinked(links: map<nat, Link>, x: Slot): map<nat, Link> {
    if x.active then links - {x.handle} else links
  }

  function Relinked(links: map<nat, Link>, y: Slot): map<nat, Link> {
    if y.active then links[y.handle := LinkOf(y)] else links
  }

  /** Replacing one slot replaces its connection in the map. */
  lemma SlotChange(slots: seq<Slot>, links: map<nat, Link>, k: nat, y: Slot)
    requires Shows(slots, links) && k < |slots|
    requires y.active ==> forall i: nat :: i != k ==> !Up(slots, i, y.handle)
    ensures Shows(slots[k := y], Relinked(Unlinked(links, slots[k]), y))
  {
    var t := slots[k := y];
    var links' := Relinked(Unlinked(links, slots[k]), y);
    forall i: nat, h: nat ensures Up(t, i, h) <==> if i == k then y.active && y.handle == h else Up(slots, i, h) {}
    if slots[k].active { assert Up(slots, k, slots[k].handle); }
    forall i: nat, h: nat | Up(t, i, h) ensures h in links' && links'[h] == LinkOf(t[i]) {
      if i != k { assert Up(slots, i, h); }
    }
    forall h | h in links' ensures exists i: nat :: Up(t, i, h) {
      if y.active && h == y.handle {
        assert Up(t, k, h);
      } else {
        var i: nat :| Up(slots, i, h);
        assert Up(t, i, h);
      }
    }
  }

  // --- The slots and the connections the radio reported ---

  /** Every connection reported up and not yet down. */
  ghost function Live(events: seq<Event>): map<nat, Link> {
    if events == [] then map[]
    else
      var init, e := Live(events[..|events| - 1]), events[|events| - 1];
      match e
      case Connect(h, peer, central) => init[h := Link(peer, central)]
      case Disconnect(h) => init - {h}
      case Name(_) => init
  }

  /** A table with room for four, which ignores a connection that comes when it is full. */
  ghost function Tracked(events: seq<Event>): map<nat, Link> {
    if events == [] then map[]
    else
      TrackStep(Tracked(events[..|events| - 1]), events[|events| - 1])
  }

  ghost function TrackStep(links: map<nat, Link>, e: Event): map<nat, Link> {
    match e
    case Connect(h, peer, central) => if |links| < SLOTS then links[h := Link(peer, central)] else links
    case Disconnect(h) => links - {h}
    case Name(_) => links
  }

  /** The radio reports a handle up only while it is not up already. */
  ghost predicate FreshHandles(events: seq<Event>) {
    forall i :: 0 <= i < |events| && events[i].Connect? ==> events[i].handle !in Live(events[..i])
  }

  lemma NotHeld(slots: seq<Slot>, h: nat, i: nat)
    requires First(slots, Holds(h)) == |slots|
    ensures !Up(slots, i, h)
  {
    if i < |slots| { assert !Holds(h)(slots[i]); }
  }

  lemma HeldIsUp(slots: seq<Slot>, links: map<nat, Link>, h: nat)
    requires Shows(slots, links)
    ensures First(slots, Holds(h)) < |slots| <==> h in links
  {
    var i := First(slots, Holds(h));
    if i < |slots| {
      assert Up(slots, i, h);
    } else {
      forall k: nat ensures !Up(slots, k, h) { NotHeld(slots, h, k); }
    }
  }

  lemma ConnectShows(s: State, links: map<nat, Link>, h: nat, peer: Address, central: bool)
    requires Inv(s) && Shows(s.slots, links) && h !in links
    ensures Shows(AfterConnect(s, h, peer, central).slots,
                  if s.count < SLOTS then links[h := Link(peer, central)] else links)
  {
    ConnectInv(s, h, peer, central);
    HeldIsUp(s.slots, links, h);
    hide Shows;
    var i := First(s.slots, IsFree());
    if i < SLOTS {
      var y := Slot(h, 0, true, peer, 0, central);
      forall k: nat ensures !Up(s.slots, k, h) { NotHeld(s.slots, h, k); }
      assert !s.slots[i].active;
      SlotChange(s.slots, links, i, y);
    }
  }

  lemma DisconnectShows(s: State, links: map<nat, Link>, h: nat)
    requires Inv(s) && Shows(s.slots, links)
    ensures Shows(AfterDisconnect(s, h).slots, links - {h})
  {
    DisconnectInv(s, h);
    var i := First(s.slots, Holds(h));
    if i < SLOTS {
      hide Shows;
      SlotChange(s.slots, links, i, Freed(s.slots[i]));
    } else {
      forall k: nat ensures !Up(s.slots, k, h) { NotHeld(s.slots, h, k); }
      assert links - {h} == links;
    }
  }

  lemma NamingShows(s: State, links: map<nat, Link>, nodeId: nat)
    requires Inv(s) && Shows(s.slots, links)
    ensures Shows(AfterNaming(s, nodeId).slots, links)
  {
    var i := First(s.slots, IsUnnamed());
    if i < SLOTS {
      var x := s.slots[i];
      assert Up(s.slots, i, x.handle);
      assert Relinked(Unlinked(links, x), x.(nodeId := nodeId)) == links;
      SlotChange(s.slots, links, i, x.(nodeId := nodeId));
    }
  }

  lemma StepShows(s: State, links: map<nat, Link>, e: Event)
    requires Inv(s) && Shows(s.slots, links) && s.count == |links| && (e.Connect? ==> e.handle !in links)
    ensures Shows(Step(s, e).slots, TrackStep(links, e)) && Step(s, e).count == |TrackStep(links, e)|
  {
    match e
    case Connect(h, peer, central) =>
      ConnectShows(s, links, h, peer, central);
      ConnectInv(s, h, peer, central);
      hide Shows, First;
    case Disconnect(h) =>
      HeldIsUp(s.slots, links, h);
      RemoveSize(links, h);
      DisconnectShows(s, links, h);
      hide Shows, First;
    case Name(id) =>
      NamingShows(s, links, id);
      hide Shows, First;
  }

  lemma {:induction false} TrackedIsLive(events: seq<Event>, h: nat)
    ensures h in Tracked(events) ==> h in Live(events)
  {
    if events != [] {
      TrackedIsLive(events[..|events| - 1], h);
    }
  }

  lemma RemoveSize(m: map<nat, Link>, h: nat)
    ensures |m - {h}| == if h in m then |m| - 1 else |m|
  {
    if h in m {
      assert m == (m - {h})[h := m[h]];
    } else {
      assert m - {h} == m;
    }
  }

  lemma FreshPrefix(events: seq<Event>, k: nat)
    requires FreshHandles(events) && k <= |events|
    ensures FreshHandles(events[..k])
  {
    forall i | 0 <= i < k ensures events[..k][..i] == events[..i] {}
  }

  /**
   * In every run with fresh handles the slots show exactly the connections a table of four tracks,
   * and the counter counts them.
   */
  lemma {:induction false} SlotsShowTracked(events: seq<Event>)
    requires FreshHandles(events)
    ensures Inv(Run(events)) && Shows(Run(events).slots, Tracked(events)) && Run(events).count == |Tracked(events)|
  {
    RunInv(events);
    if events == [] {
      assert forall i :: 0 <= i < SLOTS ==> !Initial().slots[i].active;
    } else {
      var n := |events| - 1;
      var init, e := events[..n], events[n];
      FreshPrefix(events, n);
      SlotsShowTracked(init);
      hide Inv, Shows, TrackStep, Step;
      if e.Connect? { TrackedIsLive(init, e.handle); }
      StepShows(Run(init), Tracked(init), e);
    }
  }

  /** Event i is a connection with handle h that came when the table was full and is still up. */
  ghost predicate MissedAt(events: seq<Event>, i: nat, h: nat) {
    && i < |events| && events[i].Connect? && events[i].handle == h && |Tracked(events[..i])| >= SLOTS
    && forall k :: i < k < |events| ==> events[k] != Disconnect(h)
  }

  ghost predicate Missed(events: seq<Event>, h: nat) { exists i: nat :: MissedAt(events, i, h) }

  lemma MissedStep(events: seq<Event>, h: nat)
    requires events != []
    ensures var init, e := events[..|events| - 1], events[|events| - 1];
            Missed(events, h) == ((Missed(init, h) && e != Disconnect(h))
                || (e.Connect? && e.handle == h && |Tracked(init)| >= SLOTS))
  {
    hide Tracked;
    var n := |events| - 1;
    var init := events[..n];
    forall i: nat | i < n ensures MissedAt(events, i, h) <==> MissedAt(init, i, h) && events[n] != Disconnect(h) {
      assert init[..i] == events[..i];
    }
    assert MissedAt(events, n, h) <==> events[n].Connect? && events[n].handle == h && |Tracked(init)| >= SLOTS;
    if Missed(init, h) && events[n] != Disconnect(h) {
      var i: nat :| MissedAt(init, i, h);
      assert MissedAt(events, i, h);
    }
  }

  lemma {:induction false} MissedIff(events: seq<Event>, h: nat)
    requires FreshHandles(events)
    ensures h in Live(events) && h !in Tracked(events) <==> Missed(events, h)
  {
    if events != [] {
      FreshPrefix(events, |events| - 1);
      MissedIff(events[..|events| - 1], h);
      TrackedIsLive(events[..|events| - 1], h);
      MissedStep(events, h);
      hide Missed;
    }
  }

  lemma {:induction false} TrackedAgrees(events: seq<Event>, h: nat)
    requires FreshHandles(events) && h in Tracked(events)
    ensures h in Live(events) && Tracked(events)[h] == Live(events)[h]
  {
    var n := |events| - 1;
    FreshPrefix(events, n);
    TrackedIsLive(events, h);
    if h in Tracked(events[..n]) {
      TrackedIsLive(events[..n], h);
      TrackedAgrees(events[..n], h);
    }
  }

  /** The slots show every live connection exactly when none of them came while four were taken. */
  lemma AllShownIff(events: seq<Event>)
    requires FreshHandles(events)
    ensures Shows(Run(events).slots, Live(events)) <==> forall h: nat :: !Missed(events, h)
  {
    SlotsShowTracked(events);
    var slots, t, l := Run(events).slots, Tracked(events), Live(events);
    forall h: nat ensures h in l && h !in t <==> Missed(events, h) { MissedIff(events, h); }
    forall h | h in t ensures h in l && t[h] == l[h] { TrackedAgrees(events, h); }
    hide Tracked, Live, Missed, Run, Shows;
    if forall h: nat :: !Missed(events, h) { SameLinks(t, l); }
    if Shows(slots, l) { ShownOnce(slots, t, l); }
  }

  lemma SameLinks(t: map<nat, Link>, l: map<nat, Link>)
    requires forall h :: h in t ==> h in l && t[h] == l[h]
    requires forall h :: h in l ==> h in t
    ensures t == l
  {}

  lemma ShownOnce(slots: seq<Slot>, a: map<nat, Link>, b: map<nat, Link>)
    requires Shows(slots, a) && Shows(slots, b)
    ensures forall h :: h in b ==> h in a
  {
    forall h | h in b ensures h in a {
      var i: nat :| Up(slots, i, h);
    }
  }

  // --- The single-connection handle ---

  /** Event i is the last connection reported up. */
  ghost predicate LastConnectAt(events: seq<Event>, i: nat) {
    i < |events| && events[i].Connect? && forall k :: i < k < |events| ==> !events[k].Connect?
  }

  ghost predicate DownSince(events: seq<Event>, i: nat, h: nat) {
    exists k :: i < k < |events| && events[k] == Disconnect(h)
  }

  /** The last connection reported up has gone down since. */
  ghost predicate LastConnectLeft(events: seq<Event>) {
    exists i: nat :: LastConnectAt(events, i) && DownSince(events, i, events[i].handle)
  }

  lemma {:induction false} HandleOfLastConnect(events: seq<Event>) returns (i: nat)
    requires Run(events).connected
    ensures LastConnectAt(events, i) && Run(events).connHandle == events[i].handle
  {
    var n := |events| - 1;
    var init, e := events[..n], events[n];
    RunInv(init);
    HandleStep(Run(init), e);
    hide Inv, Step;
    if e.Connect? {
      i := n;
    } else {
      i := HandleOfLastConnect(init);
    }
  }

  lemma HandleStep(s: State, e: Event)
    requires Inv(s)
    ensures e.Connect? ==> Step(s, e).connHandle == e.handle
    ensures !e.Connect? && Step(s, e).connected ==> s.connected && Step(s, e).connHandle == s.connHandle
  {
    if e.Disconnect? { DisconnectInv(s, e.handle); }
  }

  lemma {:induction false} LastConnectUpIff(events: seq<Event>, i: nat)
    requires LastConnectAt(events, i)
    ensures events[i].handle in Live(events) <==> !DownSince(events, i, events[i].handle)
    decreases |events|
  {
    var n := |events| - 1;
    var init, h := events[..n], events[i].handle;
    if i < n {
      LastConnectUpIff(init, i);
      assert DownSince(events, i, h) <==> DownSince(init, i, h) || events[n] == Disconnect(h) by {
        if DownSince(init, i, h) {
          var k :| i < k < |init| && init[k] == Disconnect(h);
          assert events[k] == Disconnect(h);
        }
      }
    }
  }

  /**
   * In every run, however many connections come and whatever handles they use: the single-connection
   * handle names a connection that is down, while the radio counts as connected, exactly when the last
   * connection reported up has gone down and some slot is still taken.
   */
  lemma StaleHandleIff(events: seq<Event>)
    ensures var s := Run(events);
            s.connected && s.connHandle !in Live(events) <==> s.count > 0 && LastConnectLeft(events)
  {
    RunInv(events);
    hide Live, Run, DownSince;
    if Run(events).connected {
      var i := HandleOfLastConnect(events);
      LastConnectUpIff(events, i);
      forall j: nat | LastConnectAt(events, j) ensures j == i {}
    }
  }

  lemma LiveSnoc(events: seq<Event>, e: Event)
    ensures Tracked(events + [e]) == TrackStep(Tracked(events), e)
    ensures e.Connect? ==> Live(events + [e]) == Live(events)[e.handle := Link(e.peer, e.central)]
    ensures e.Disconnect? ==> Live(events + [e]) == Live(events) - {e.handle}
    ensures FreshHandles(events + [e]) <==> FreshHandles(events) && (e.Connect? ==> e.handle !in Live(events))
  {
    var all := events + [e];
    assert all[..|events|] == events;
    forall i | 0 <= i < |events| ensures all[..i] == events[..i] {}
    hide Tracked;
  }

  /** The events so far are fresh and every live connection is tracked, under these handles. */
  ghost predicate AllUp(events: seq<Event>, handles: set<nat>) {
    FreshHandles(events) && Tracked(events) == Live(events) && Live(events).Keys == handles
  }

  lemma OneMoreUp(events: seq<Event>, handles: set<nat>, h: nat, peer: Address)
    requires AllUp(events, handles) && h !in handles && |handles| < SLOTS
    ensures AllUp(events + [Connect(h, peer, false)], handles + {h})
  {
    LiveSnoc(events, Connect(h, peer, false));
    assert |Live(events)| == |handles|;
    hide Tracked, Live, FreshHandles;
  }

  lemma FourUp(peer: Address)
    ensures var events := [] + [Connect(1, peer, false)] + [Connect(2, peer, false)] + [Connect(3, peer, false)]
                          + [Connect(4, peer, false)];
            AllUp(events, {1, 2, 3, 4})
  {
    var e1 := [] + [Connect(1, peer, false)];
    var e2 := e1 + [Connect(2, peer, false)];
    var e3 := e2 + [Connect(3, peer, false)];
    assert AllUp([], {});
    hide AllUp;
    OneMoreUp([], {}, 1, peer);
    assert {} + {1} == {1};
    OneMoreUp(e1, {1}, 2, peer);
    assert {1} + {2} == {1, 2};
    OneMoreUp(e2, {1, 2}, 3, peer);
    assert {1, 2} + {3} == {1, 2, 3};
    OneMoreUp(e3, {1, 2, 3}, 4, peer);
    assert {1, 2, 3} + {4} == {1, 2, 3, 4};
  }

  /** Five connections are up and the slots do not show them: the fifth is in none. */
  lemma FifthConnectionIsNotShown(peer: Address)
    ensures var events := [] + [Connect(1, peer, false)] + [Connect(2, peer, false)] + [Connect(3, peer, false)]
                          + [Connect(4, peer, false)] + [Connect(5, peer, false)];
            && FreshHandles(events) && 5 in Live(events)
            && !Shows(Run(events).slots, Live(events))
            && First(Run(events).slots, Holds(5)) == SLOTS
  {
    FourUp(peer);
    var four := [] + [Connect(1, peer, false)] + [Connect(2, peer, false)] + [Connect(3, peer, false)]
                + [Connect(4, peer, false)];
    hide AllUp, Run;
    FullThenMissed(four, {1, 2, 3, 4}, 5, peer);
  }

  lemma FullThenMissed(events: seq<Event>, handles: set<nat>, h: nat, peer: Address)
    requires AllUp(events, handles) && |handles| == SLOTS && h !in handles
    ensures var all := events + [Connect(h, peer, false)];
            && FreshHandles(all) && h in Live(all)
            && !Shows(Run(all).slots, Live(all))
            && First(Run(all).slots, Holds(h)) == SLOTS
  {
    var all := events + [Connect(h, peer, false)];
    LiveSnoc(events, Connect(h, peer, false));
    assert |Tracked(events)| == |Live(events).Keys|;
    assert all[..|events|] == events;
    assert MissedAt(all, |events|, h);
    assert Missed(all, h);
    hide Tracked, Live, FreshHandles, Missed, MissedAt;
    AllShownIff(all);
    SlotsShowTracked(all);
    HeldIsUp(Run(all).slots, Tracked(all), h);
  }

  /** A fifth connection takes no slot but takes the handle; when it goes the handle stays, with four connections up. */
  lemma FifthConnectionGoesStale(peer: Address)
    ensures var events := [] + [Connect(1, peer, false)] + [Connect(2, peer, false)] + [Connect(3, peer, false)]
                          + [Connect(4, peer, false)] + [Connect(5, peer, false)] + [Disconnect(5)];
            var s := Run(events);
            s.connected && s.count == 4 && s.connHandle == 5 && s.connHandle !in Live(events)
  {
    FourUp(peer);
    var four := [] + [Connect(1, peer, false)] + [Connect(2, peer, false)] + [Connect(3, peer, false)]
                + [Connect(4, peer, false)];
    hide AllUp, Run, Live;
    FullThenStale(four, {1, 2, 3, 4}, 5, peer);
  }

  lemma FullThenStale(events: seq<Event>, handles: set<nat>, h: nat, peer: Address)
    requires AllUp(events, handles) && |handles| == SLOTS && h !in handles
    ensures var all := events + [Connect(h, peer, false)] + [Disconnect(h)];
            var s := Run(all);
            s.connected && s.count == SLOTS && s.connHandle == h && h !in Live(all)
  {
    var up := events + [Connect(h, peer, false)];
    var all := up + [Disconnect(h)];
    LiveSnoc(events, Connect(h, peer, false));
    LiveSnoc(up, Disconnect(h));
    assert |Tracked(events)| == |Live(events).Keys|;
    assert Tracked(all) == Live(events) by { assert Tracked(events) - {h} == Tracked(events); }
    hide Tracked, Live, FreshHandles, Shows;
    SlotsShowTracked(all);
    RunInv(all);
    var i := HandleOfLastConnect(all);
    assert all[|events|] == Connect(h, peer, false) && all[|events| + 1] == Disconnect(h);
    assert i == |events|;
  }

  // --- Node ids ---

  /** Every active slot is unnamed or named after the node at the other end. */
  ghost predicate RightlyNamed(s: State, nodeOf: Address -> nat) {
    forall i :: 0 <= i < |s.slots| && s.slots[i].active ==>
        s.slots[i].nodeId == 0 || s.slots[i].nodeId == nodeOf(s.slots[i].peer)
  }

  /** The first unnamed connection, if there is one, is with the node whose document arrived. */
  ghost predicate Fits(s: State, nodeId: nat, nodeOf: Address -> nat) {
    var i := First(s.slots, IsUnnamed());
    i < |s.slots| ==> nodeId == 0 || nodeId == nodeOf(s.slots[i].peer)
  }

  ghost predicate NamesFit(events: seq<Event>, nodeOf: Address -> nat) {
    forall i :: 0 <= i < |events| && events[i].Name? ==> Fits(Run(events[..i]), events[i].nodeId, nodeOf)
  }

  lemma StepNames(s: State, e: Event, nodeOf: Address -> nat)
    requires Inv(s) && RightlyNamed(s, nodeOf)
    ensures RightlyNamed(Step(s, e), nodeOf) <==> (e.Name? ==> Fits(s, e.nodeId, nodeOf))
  {
    match e
    case Connect(h, peer, central) => ConnectInv(s, h, peer, central);
    case Disconnect(h) =>
    case Name(n) =>
      var i := First(s.slots, IsUnnamed());
      if i < |s.slots| {
        assert Step(s, e).slots[i] == s.slots[i].(nodeId := n);
      }
  }

  /** After every event so far the connections are rightly named. */
  ghost predicate AlwaysRight(events: seq<Event>, nodeOf: Address -> nat) {
    forall k :: 0 <= k <= |events| ==> RightlyNamed(Run(events[..k]), nodeOf)
  }

  lemma AlwaysRightSnoc(events: seq<Event>, nodeOf: Address -> nat)
    requires events != []
    ensures AlwaysRight(events, nodeOf)
       <==> AlwaysRight(events[..|events| - 1], nodeOf) && RightlyNamed(Run(events), nodeOf)
    ensures AlwaysRight(events[..|events| - 1], nodeOf) ==> RightlyNamed(Run(events[..|events| - 1]), nodeOf)
  {
    hide Run, RightlyNamed;
    var n := |events| - 1;
    var init := events[..n];
    forall k | 0 <= k <= n ensures init[..k] == events[..k] {}
    assert init[..n] == init && events[..n + 1] == events;
  }

  lemma NamesFitSnoc(events: seq<Event>, nodeOf: Address -> nat)
    requires events != []
    ensures var init, e := events[..|events| - 1], events[|events| - 1];
            NamesFit(events, nodeOf) <==> NamesFit(init, nodeOf) && (e.Name? ==> Fits(Run(init), e.nodeId, nodeOf))
  {
    hide Run, Fits;
    var init := events[..|events| - 1];
    forall i | 0 <= i < |init| ensures init[..i] == events[..i] {}
  }

  /** Connections stay rightly named through a run exactly when every document fits the first unnamed connection. */
  lemma {:induction false} RightlyNamedIff(events: seq<Event>, nodeOf: Address -> nat)
    ensures AlwaysRight(events, nodeOf) <==> NamesFit(events, nodeOf)
  {
    if events == [] {
      assert forall i :: 0 <= i < SLOTS ==> !Initial().slots[i].active;
    } else {
      var init, e := events[..|events| - 1], events[|events| - 1];
      RightlyNamedIff(init, nodeOf);
      AlwaysRightSnoc(events, nodeOf);
      NamesFitSnoc(events, nodeOf);
      RunInv(init);
      hide RightlyNamed, Fits, Inv, Step, AlwaysRight, NamesFit;
      if RightlyNamed(Run(init), nodeOf) { StepNames(Run(init), e, nodeOf); }
    }
  }

  /** Then a disconnect reports the node at the other end of the connection that left, or nothing. */
  lemma ReportsAreRight(events: seq<Event>, nodeOf: Address -> nat, h: nat)
    requires NamesFit(events, nodeOf)
    ensures var s, t := Run(events), Run(events + [Disconnect(h)]);
            t.disconnected == s.disconnected
            || exists i :: 0 <= i < |s.slots| && s.slots[i].active && s.slots[i].handle == h
                           && t.disconnected == s.disconnected + [nodeOf(s.slots[i].peer)]
  {
    RightlyNamedIff(events, nodeOf);
    RunSnoc(events, Disconnect(h));
    assert events[..|events|] == events;
    hide Run;
    var s := Run(events);
    var i := First(s.slots, Holds(h));
    if i < |s.slots| && s.slots[i].nodeId != 0 {
      assert s.slots[i].active && s.slots[i].handle == h;
    }
  }

  /**
   * Two unnamed connections and a document from the second: the first gets its id, and when it leaves the
   * node at its other end is reported as the other one.
   */
  lemma SecondNamesFirst(a: Address, b: Address, nodeOf: Address -> nat)
    requires nodeOf(b) != 0 && nodeOf(b) != nodeOf(a)
    ensures var events := [Connect(1, a, false)] + [Connect(2, b, false)] + [Name(nodeOf(b))] + [Disconnect(1)];
            && !AlwaysRight(events, nodeOf)
            && Run(events).disconnected == [nodeOf(b)] != [nodeOf(a)]
  {
    var c1, c2, n := Connect(1, a, false), Connect(2, b, false), Name(nodeOf(b));
    assert [] + [c1] == [c1] && Run([]) == Initial();
    RunSnoc([], c1);
    RunSnoc([c1], c2);
    RunSnoc([c1] + [c2], n);
    RunSnoc([c1] + [c2] + [n], Disconnect(1));
    hide Run, AfterConnect, AfterNaming, AfterDisconnect;
    TwoUnnamed(a, b);
    NamedThenLeft(Run([c1] + [c2]), nodeOf(b));
    var events := [c1] + [c2] + [n] + [Disconnect(1)];
    assert events[..3] == [c1] + [c2] + [n];
    WronglyNamed(Run([c1] + [c2]), a, nodeOf(b), nodeOf);
  }

  lemma WronglyNamed(s: State, a: Address, node: nat, nodeOf: Address -> nat)
    requires s.slots != [] && s.slots[0] == Slot(1, 0, true, a, 0, false) && node != 0 && node != nodeOf(a)
    ensures !RightlyNamed(AfterNaming(s, node), nodeOf)
  {
    assert IsUnnamed()(s.slots[0]);
    assert AfterNaming(s, node).slots[0].nodeId == node;
  }

  lemma TwoUnnamed(a: Address, b: Address)
    ensures var s := AfterConnect(AfterConnect(Initial(), 1, a, false), 2, b, false);
            |s.slots| == SLOTS && s.slots[0] == Slot(1, 0, true, a, 0, false) && s.disconnected == []
  {
    var s := AfterConnect(Initial(), 1, a, false);
    assert IsFree()(Initial().slots[0]);
    assert !IsFree()(s.slots[0]);
  }

  lemma NamedThenLeft(s: State, node: nat)
    requires s.slots != [] && s.slots[0].active && s.slots[0].handle == 1 && s.slots[0].nodeId == 0
        && s.disconnected == [] && node != 0
    ensures AfterDisconnect(AfterNaming(s, node), 1).disconnected == [node]
  {
    assert IsUnnamed()(s.slots[0]);
    assert Holds(1)(AfterNaming(s, node).slots[0]);
  }

  /** A document names the first connection without a name and changes no other. */
  lemma NamingIsFirstUnnamed(s: State, node: nat, i: nat)
    requires i < |s.slots|
    ensures var t := AfterNaming(s, node);
            && |t.slots| == |s.slots|
            && (!s.slots[i].active || s.slots[i].nodeId != 0 ==> t.slots[i] == s.slots[i])
            && (s.slots[i].active && s.slots[i].nodeId == 0
                && (forall j :: 0 <= j < i ==> !s.slots[j].active || s.slots[j].nodeId != 0)
                ==> t == s.(slots := s.slots[i := s.slots[i].(nodeId := node)]))
  {
    var k := First(s.slots, IsUnnamed());
    if s.slots[i].active && s.slots[i].nodeId == 0 { assert IsUnnamed()(s.slots[i]); }
    if k < |s.slots| { assert IsUnnamed()(s.slots[k]); }
    forall j | 0 <= j < k ensures !s.slots[j].active || s.slots[j].nodeId != 0 { assert !IsUnnamed()(s.slots[j]); }
  }
}
