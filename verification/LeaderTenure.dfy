/**
 * Who is leader, for how long, in every run of the election of
 * peat-protocol/src/cell/leader_election.rs: only a manual override makes a leader, and a heartbeat
 * tracker left from before decides how long it stays one.
 */
module LeaderTenure {
  import opened Prelude
  import opened StringOrder
  import opened LeaderElection

  // --- What is on the wire ---

  /** Event i puts this announcement on the wire: a start, or a check that moved the node to a new round. */
  ghost predicate AnnouncesAt(ids: set<string>, events: seq<Event>, i: nat, a: Announce) {
    && i < |events|
    && var c, e := Run(NewCell(ids), events[..i]), events[i];
       && Enabled(c, e) && c.nodes[e.node].id == a.leaderId
       && Moved(c.nodes[e.node], e).round == a.round
       && (e.Start? || c.nodes[e.node].round < a.round)
  }

  /** A node announces exactly the rounds it was started in and the rounds it was re-elected into. */
  lemma {:induction false} AnnouncedIff(ids: set<string>, events: seq<Event>, a: Announce)
    ensures a in Run(NewCell(ids), events).announces <==> exists i :: AnnouncesAt(ids, events, i, a)
  {
    if events != [] {
      var n := |events| - 1;
      var init := events[..n];
      AnnouncedIff(ids, init, a);
      forall i | 0 <= i < n ensures AnnouncesAt(ids, events, i, a) <==> AnnouncesAt(ids, init, i, a) {
        assert init[..i] == events[..i];
      }
      var c, e := Run(NewCell(ids), init), events[n];
      assert AnnouncesAt(ids, events, n, a) <==> Enabled(c, e) && a in Announced(c.nodes[e.node], e);
      if a in Run(NewCell(ids), init).announces {
        var i :| AnnouncesAt(ids, init, i, a);
        assert AnnouncesAt(ids, events, i, a);
      }
    }
  }

  // --- Only an override makes a leader ---

  ghost predicate NeverOverridden(events: seq<Event>, id: string) {
    forall i :: 0 <= i < |events| ==> events[i] != Override(id)
  }

  /** A node never made leader by hand is never leader and sends no heartbeat. */
  lemma {:induction false} OnlyOverrideMakesLeader(ids: set<string>, events: seq<Event>, id: string)
    requires id in ids && NeverOverridden(events, id)
    ensures var c := Run(NewCell(ids), events);
            && c.nodes.Keys == ids && c.nodes[id].id == id
            && c.nodes[id].state != Leader && id !in c.beats && c.beats <= ids
  {
    NewCellInv(ids);
    RunInv(NewCell(ids), events);
    if events != [] {
      var init, e := events[..|events| - 1], events[|events| - 1];
      OnlyOverrideMakesLeader(ids, init, id);
      RunInv(NewCell(ids), init);
      var c := Run(NewCell(ids), init);
      if Enabled(c, e) { assert NodeInv(c, e.node) && e != Override(id); }
    }
  }

  ghost predicate NoOverrides(events: seq<Event>) {
    forall i :: 0 <= i < |events| ==> !events[i].Override?
  }

  /** Left to itself the election never names a leader, and no heartbeat is ever sent. */
  lemma NoLeaderWithoutOverride(ids: set<string>, events: seq<Event>)
    requires NoOverrides(events)
    ensures var c := Run(NewCell(ids), events);
            c.nodes.Keys == ids && c.beats == {} && forall id :: id in ids ==> c.nodes[id].state != Leader
  {
    NewCellInv(ids);
    RunInv(NewCell(ids), events);
    NoNodesNoBeats(ids, events);
    hide Run, NewCell;
    forall id | id in ids
      ensures Run(NewCell(ids), events).nodes[id].state != Leader && id !in Run(NewCell(ids), events).beats
    {
      OnlyOverrideMakesLeader(ids, events, id);
    }
    if ids != {} {
      var id :| id in ids;
      OnlyOverrideMakesLeader(ids, events, id);
    }
  }

  lemma {:induction false} NoNodesNoBeats(ids: set<string>, events: seq<Event>)
    ensures ids == {} ==> Run(NewCell(ids), events) == NewCell(ids)
  {
    if events != [] {
      NoNodesNoBeats(ids, events[..|events| - 1]);
    }
  }

  /** The node was a candidate until event i, an announcement it heard, and has been a follower ever since. */
  ghost predicate FollowingSince(ids: set<string>, events: seq<Event>, i: nat, id: string) {
    && i < |events| && events[i].Hear? && events[i].node == id
    && IsIn(ids, events[..i], id, Candidate)
    && forall k :: i < k <= |events| ==> IsIn(ids, events[..k], id, Follower)
  }

  ghost predicate IsIn(ids: set<string>, events: seq<Event>, id: string, state: ElectionState) {
    var c := Run(NewCell(ids), events);
    id in c.nodes && c.nodes[id].state == state
  }

  /** The last event is a heartbeat, received by the node, of the leader announced to it at event i. */
  ghost predicate BringsWord(ids: set<string>, events: seq<Event>, i: nat, id: string)
    requires i < |events| && events[i].Hear?
  {
    var e := events[|events| - 1];
    && e.HearBeat? && e.node == id && e.from == events[i].announce.leaderId
    && Enabled(Run(NewCell(ids), events[..|events| - 1]), e)
  }

  /**
   * When a node that has followed since event i last had word of its leader: at event i, or at the last
   * heartbeat of that leader it has received since.
   */
  ghost function LastWord(ids: set<string>, events: seq<Event>, i: nat, id: string): nat
    requires i < |events| && events[i].Hear?
  {
    var n := |events| - 1;
    if i == n then events[i].now
    else if BringsWord(ids, events, i, id) then events[n].now
    else LastWord(ids, events[..n], i, id)
  }

  /** A tracker after an event: refreshed by a heartbeat of the node's leader. */
  ghost function Refreshed(c: Cell, t: Tracker, e: Event, id: string): Tracker
    requires id in c.nodes
  {
    if e.HearBeat? && e.node == id && c.nodes[id].leader == Some(e.from) && Enabled(c, e)
    then t.(lastHeartbeat := e.now) else t
  }

  /** How a follower comes about: it was one, its leader the same, or it was a candidate and heard a larger id. */
  lemma FollowerStep(c: Cell, e: Event, id: string)
    requires CellInv(c) && id in c.nodes && Step(c, e).nodes[id].state == Follower
    ensures var n, m := c.nodes[id], Step(c, e).nodes[id];
            if n.state == Follower then
              && m.leader == n.leader
              && (n.tracker.Some? ==> m.tracker == Some(Refreshed(c, n.tracker.value, e, id)))
            else
              && n.state == Candidate && e.Hear? && e.node == id
              && m.leader == Some(e.announce.leaderId) && m.tracker == Some(Tracker(e.announce.leaderId, e.now))
  {
    assert NodeInv(c, id);
  }

  lemma {:induction false} SinceWhen(ids: set<string>, events: seq<Event>, id: string) returns (i: nat)
    requires id in ids && IsIn(ids, events, id, Follower)
    ensures FollowingSince(ids, events, i, id)
    ensures var n, leader := Run(NewCell(ids), events).nodes[id], events[i].announce.leaderId;
            n.leader == Some(leader) && n.tracker == Some(Tracker(leader, LastWord(ids, events, i, id)))
  {
    var n := |events| - 1;
    var init, e := events[..n], events[n];
    NewCellInv(ids);
    RunInv(NewCell(ids), init);
    var before := Run(NewCell(ids), init);
    assert Run(NewCell(ids), events) == Step(before, e);
    FollowerStep(before, e, id);
    assert events[..|events|] == events;
    hide Step, Run, CellInv, NewCell, FollowingSince, LastWord;
    if before.nodes[id].state == Follower {
      i := SinceWhen(ids, init, id);
      StillFollowing(ids, events, i, id);
    } else {
      i := n;
      BeginsFollowing(ids, events, id);
    }
  }

  lemma StillFollowing(ids: set<string>, events: seq<Event>, i: nat, id: string)
    requires events != [] && FollowingSince(ids, events[..|events| - 1], i, id) && IsIn(ids, events, id, Follower)
    ensures FollowingSince(ids, events, i, id) && i < |events| - 1
    ensures LastWord(ids, events, i, id)
            == if BringsWord(ids, events, i, id) then events[|events| - 1].now
               else LastWord(ids, events[..|events| - 1], i, id)
  {
    hide Run, IsIn, NewCell, BringsWord;
    var n := |events| - 1;
    var init := events[..n];
    assert init[..i] == events[..i] && init[i] == events[i];
    assert forall k :: i < k <= |events| ==> IsIn(ids, events[..k], id, Follower) by {
      forall k | i < k <= |events| ensures IsIn(ids, events[..k], id, Follower) {
        if k <= n {
          assert IsIn(ids, init[..k], id, Follower) && init[..k] == events[..k];
        } else {
          assert events[..k] == events;
        }
      }
    }
  }

  lemma BeginsFollowing(ids: set<string>, events: seq<Event>, id: string)
    requires events != [] && IsIn(ids, events[..|events| - 1], id, Candidate) && IsIn(ids, events, id, Follower)
    requires events[|events| - 1].Hear? && events[|events| - 1].node == id
    ensures var n := |events| - 1;
            FollowingSince(ids, events, n, id) && LastWord(ids, events, n, id) == events[n].now
  {
    hide Run, IsIn, NewCell;
    assert events[..|events|] == events;
  }

  /**
   * In every run, overrides included: a follower keeps following through a failure check exactly if the check
   * comes at most six seconds after it last had word of its leader.
   */
  lemma FollowerSurvivesIff(ids: set<string>, events: seq<Event>, id: string, now: nat)
    requires id in ids && IsIn(ids, events, id, Follower)
    ensures exists i: nat :: FollowingSince(ids, events, i, id)
                          && (IsIn(ids, events + [Check(id, now)], id, Follower)
                              <==> now <= LastWord(ids, events, i, id) + 6000)
  {
    var i := SinceWhen(ids, events, id);
    RunSnoc(NewCell(ids), events, Check(id, now));
    hide Run;
    assert IsIn(ids, events + [Check(id, now)], id, Follower) <==> now <= LastWord(ids, events, i, id) + 6000;
  }

  /** A heartbeat keeps a follower: it hears its leader, then a heartbeat at five seconds, and is checked at seven. */
  lemma HeartbeatKeepsFollower(low: string, high: string)
    requires Less(low, high)
    ensures var events := [Start(high)] + [Hear(low, Announce(high, 1), 0)] + [Override(high)] + [Beat(high)]
                          + [HearBeat(low, high, 5000)] + [Check(low, 7000)];
            IsIn({low, high}, events, low, Follower)
  {
    LessIrreflexive(low);
    var start := NewCell({low, high});
    var a, b, c, d := Start(high), Hear(low, Announce(high, 1), 0), Override(high), Beat(high);
    var e := HearBeat(low, high, 5000);
    assert [] + [a] == [a];
    RunSnoc(start, [], a);
    RunSnoc(start, [a], b);
    assert FollowsHigh(Run(start, [a] + [b]), low, high);
    RunSnoc(start, [a] + [b], c);
    RunSnoc(start, [a] + [b] + [c], d);
    RunSnoc(start, [a] + [b] + [c] + [d], e);
    RunSnoc(start, [a] + [b] + [c] + [d] + [e], Check(low, 7000));
    hide Run, Step, NewCell, FollowsHigh;
    KeptByHeartbeat(Run(start, [a] + [b]), low, high);
  }

  ghost predicate FollowsHigh(c: Cell, low: string, high: string) {
    && low in c.nodes && high in c.nodes && c.nodes[high].id == high
    && c.nodes[low] == Node(low, Follower, 1, Some(high), Some(Tracker(high, 0)))
  }

  lemma KeptByHeartbeat(c: Cell, low: string, high: string)
    requires FollowsHigh(c, low, high) && low != high
    ensures var d := Step(Step(Step(Step(c, Override(high)), Beat(high)), HearBeat(low, high, 5000)), Check(low, 7000));
            low in d.nodes && d.nodes[low].state == Follower
  {
    var c2 := Step(Step(c, Override(high)), Beat(high));
    assert low in c2.nodes && c2.nodes[low] == c.nodes[low] && high in c2.beats;
    var c3 := Step(c2, HearBeat(low, high, 5000));
    assert c3.nodes[low].tracker == Some(Tracker(high, 5000));
  }

  lemma {:induction false} NoBeatsNoWord(ids: set<string>, events: seq<Event>, i: nat, id: string)
    requires NoOverrides(events) && i < |events| && events[i].Hear?
    ensures LastWord(ids, events, i, id) == events[i].now
    decreases |events|
  {
    var n := |events| - 1;
    if i < n {
      NoLeaderWithoutOverride(ids, events[..n]);
      hide Run;
      NoBeatsNoWord(ids, events[..n], i, id);
    }
  }

  /**
   * Convergence does not last: without overrides no heartbeat is ever sent, so a follower keeps
   * following through a failure check exactly if it began to follow at most six seconds before.
   */
  lemma FollowingLastsSixSeconds(ids: set<string>, events: seq<Event>, id: string, now: nat)
    requires NoOverrides(events) && id in ids && IsIn(ids, events, id, Follower)
    ensures exists i: nat :: FollowingSince(ids, events, i, id)
                          && (IsIn(ids, events + [Check(id, now)], id, Follower) <==> now <= events[i].now + 6000)
  {
    hide Run, IsIn, LastWord;
    FollowerSurvivesIff(ids, events, id, now);
    var i: nat :| FollowingSince(ids, events, i, id)
                  && (IsIn(ids, events + [Check(id, now)], id, Follower)
                      <==> now <= LastWord(ids, events, i, id) + 6000);
    NoBeatsNoWord(ids, events, i, id);
  }

  /**
   * A converged pair of nodes that comes apart: the follower is checked just over six seconds after
   * it heard its leader.
   */
  lemma FollowerDeposed(low: string, high: string)
    requires Less(low, high)
    ensures var ids := {low, high};
            var events := [Start(high)] + [Hear(low, Announce(high, 1), 0)];
            IsIn(ids, events, low, Follower) && IsIn(ids, events + [Check(low, 6001)], low, Candidate)
  {
    LessIrreflexive(low);
    var start := NewCell({low, high});
    var a, b := Start(high), Hear(low, Announce(high, 1), 0);
    assert [] + [a] == [a];
    RunSnoc(start, [], a);
    RunSnoc(start, [a], b);
    RunSnoc(start, [a] + [b], Check(low, 6001));
    hide Run;
  }

  // --- How long an override lasts ---

  /** When the tracker of a leader was last refreshed: by a heartbeat carrying its own id, or before. */
  ghost function LastRefresh(c: Cell, later: seq<Event>, id: string): Option<nat>
    requires id in c.nodes
  {
    if later == [] then (if c.nodes[id].tracker.Some? then Some(c.nodes[id].tracker.value.lastHeartbeat) else None)
    else
      var init, e := later[..|later| - 1], later[|later| - 1];
      var before := LastRefresh(c, init, id);
      if before.Some? && e.HearBeat? && e.node == id && e.from == id && Enabled(Run(c, init), e)
      then Some(e.now) else before
  }

  /** Event i is a failure check of the node more than six seconds after its tracker was refreshed. */
  ghost predicate OverdueCheck(c: Cell, later: seq<Event>, i: nat, id: string)
    requires id in c.nodes
  {
    && i < |later| && later[i].Check? && later[i].node == id
    && var t := LastRefresh(c, later[..i], id);
       t.Some? && later[i].now > t.value + 6000
  }

  ghost predicate OverdueChecked(c: Cell, later: seq<Event>, id: string)
    requires id in c.nodes
  {
    exists i :: OverdueCheck(c, later, i, id)
  }

  lemma OverdueSnoc(c: Cell, later: seq<Event>, id: string)
    requires id in c.nodes && later != []
    ensures OverdueChecked(c, later, id)
       <==> OverdueChecked(c, later[..|later| - 1], id) || OverdueCheck(c, later, |later| - 1, id)
  {
    var n := |later| - 1;
    var init := later[..n];
    forall i | 0 <= i < n ensures OverdueCheck(c, later, i, id) <==> OverdueCheck(c, init, i, id) {
      assert init[..i] == later[..i];
    }
    if OverdueChecked(c, init, id) {
      var i :| OverdueCheck(c, init, i, id);
      assert OverdueCheck(c, later, i, id);
    }
  }

  lemma {:induction false} TenureFrom(c: Cell, later: seq<Event>, id: string)
    requires CellInv(c) && id in c.nodes && c.nodes[id].state == Leader && NeverOverridden(later, id)
    ensures var d := Run(c, later);
            && CellInv(d) && d.nodes.Keys == c.nodes.Keys
            && (d.nodes[id].state == Leader <==> !OverdueChecked(c, later, id))
            && (d.nodes[id].state == Leader ==>
                  LastRefresh(c, later, id) == if d.nodes[id].tracker.Some?
                      then Some(d.nodes[id].tracker.value.lastHeartbeat) else None)
  {
    RunInv(c, later);
    if later != [] {
      var n := |later| - 1;
      var init, e := later[..n], later[n];
      TenureFrom(c, init, id);
      OverdueSnoc(c, later, id);
      TenureStep(c, Run(c, init), later, id);
    }
  }

  lemma TenureStep(c: Cell, d: Cell, later: seq<Event>, id: string)
    requires id in c.nodes && later != [] && d == Run(c, later[..|later| - 1]) && CellInv(d) && id in d.nodes
    requires later[|later| - 1] != Override(id)
    requires d.nodes[id].state == Leader ==>
               LastRefresh(c, later[..|later| - 1], id) == if d.nodes[id].tracker.Some?
                   then Some(d.nodes[id].tracker.value.lastHeartbeat) else None
    ensures var n := Step(d, later[|later| - 1]).nodes[id];
            && (n.state == Leader <==> d.nodes[id].state == Leader && !OverdueCheck(c, later, |later| - 1, id))
            && (n.state == Leader ==>
                  LastRefresh(c, later, id) == if n.tracker.Some? then Some(n.tracker.value.lastHeartbeat) else None)
  {
    assert NodeInv(d, id);
    hide Run;
  }

  /**
   * A node made leader by hand, at any point of any run, is still leader after further events, none of
   * them an override of it, exactly if none of them was a failure check of it more than six seconds
   * after its tracker was refreshed. The tracker is the one from before the override, and only
   * heartbeats carrying the node's own id refresh it.
   */
  lemma OverrideLastsIff(ids: set<string>, events: seq<Event>, id: string, later: seq<Event>)
    requires id in ids && NeverOverridden(later, id)
    ensures var c := Run(NewCell(ids), events + [Override(id)]);
            && id in c.nodes && c.nodes[id].tracker == Run(NewCell(ids), events).nodes[id].tracker
            && id in Run(c, later).nodes
            && (Run(c, later).nodes[id].state == Leader <==> !OverdueChecked(c, later, id))
  {
    NewCellInv(ids);
    RunInv(NewCell(ids), events);
    RunSnoc(NewCell(ids), events, Override(id));
    var c := Run(NewCell(ids), events + [Override(id)]);
    assert NodeInv(Run(NewCell(ids), events), id);
    StepInv(Run(NewCell(ids), events), Override(id));
    TenureFrom(c, later, id);
  }

  /**
   * A run in which an override is undone: a node hears a larger id, is made leader, and is checked
   * six seconds later.
   */
  lemma OverrideUndone(low: string, high: string)
    requires Less(low, high)
    ensures var ids := {low, high};
            var events := [Start(high)] + [Hear(low, Announce(high, 1), 0)] + [Override(low)] + [Check(low, 6001)];
            var n := Run(NewCell(ids), events).nodes;
            low in n && n[low].state == Candidate && n[low].round == 2
  {
    LessIrreflexive(low);
    var start := NewCell({low, high});
    var a, b, d := Start(high), Hear(low, Announce(high, 1), 0), Override(low);
    assert [] + [a] == [a];
    RunSnoc(start, [], a);
    RunSnoc(start, [a], b);
    RunSnoc(start, [a] + [b], d);
    RunSnoc(start, [a] + [b] + [d], Check(low, 6001));
    hide Run;
  }
}
