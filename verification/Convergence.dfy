/**
 * Exactly when an election of peat-protocol/src/cell/leader_election.rs converges, and when it agrees
 * on one leader, over every run without manual overrides, failure checks included. Rounds are bounded,
 * and a node that was re-elected never finds its way back to the greatest id.
 */
module Convergence {
  import opened Prelude
  import opened StringOrder
  import opened LeaderElection
  import opened LeaderTenure

  // --- Rounds, in every run ---

  ghost function Larger(ids: set<string>, id: string): set<string> {
    set x | x in ids && Less(id, x)
  }

  lemma LargerShrinks(ids: set<string>, id: string, up: string)
    requires up in ids && Less(id, up)
    ensures |Larger(ids, up)| < |Larger(ids, id)|
  {
    forall x | x in Larger(ids, up) ensures x in Larger(ids, id) { LessTransitive(id, up, x); }
    LessIrreflexive(up);
    SubsetIsSmaller(Larger(ids, up), Larger(ids, id), up);
  }

  lemma {:induction false} SubsetIsSmaller(a: set<string>, b: set<string>, x: string)
    requires a <= b && x in b && x !in a
    ensures |a| < |b|
  {
    if a != {} {
      var y :| y in a;
      SubsetIsSmaller(a - {y}, b - {y}, x);
    }
  }

  /** A tracked leader is a larger node at least as far along, and the round is within the bound. */
  ghost predicate RoundInv(c: Cell, id: string)
    requires id in c.nodes
  {
    var n := c.nodes[id];
    && 1 <= n.round <= 1 + |Larger(c.nodes.Keys, id)|
    && (n.tracker.Some? ==>
          var up := n.tracker.value.leaderId;
          up in c.nodes && Less(id, up) && n.round <= c.nodes[up].round)
  }

  lemma StepRounds(c: Cell, e: Event, id: string)
    requires CellInv(c) && id in c.nodes && forall x :: x in c.nodes ==> RoundInv(c, x)
    ensures id in Step(c, e).nodes && RoundInv(Step(c, e), id)
  {
    StepInv(c, e);
    var d := Step(c, e);
    assert d.nodes.Keys == c.nodes.Keys && RoundInv(c, id) && NodeInv(c, id);
    if Enabled(c, e) && e.node == id {
      if e.Check? && LeaderFailed(c.nodes[id], e.now) {
        var up := c.nodes[id].tracker.value.leaderId;
        assert RoundInv(c, up);
        LargerShrinks(c.nodes.Keys, id, up);
      }
    }
    hide Step, Larger;
  }

  /** In every run, overrides included, a node's round is at most one more than the number of larger ids. */
  lemma {:induction false} RoundsAreBounded(ids: set<string>, events: seq<Event>, id: string)
    requires id in ids
    ensures var c := Run(NewCell(ids), events);
            CellInv(c) && c.nodes.Keys == ids && RoundInv(c, id)
  {
    NewCellInv(ids);
    RunInv(NewCell(ids), events);
    if events != [] {
      var init := events[..|events| - 1];
      RunInv(NewCell(ids), init);
      forall x | x in ids ensures RoundInv(Run(NewCell(ids), init), x) { RoundsAreBounded(ids, init, x); }
      StepRounds(Run(NewCell(ids), init), events[|events| - 1], id);
    }
  }

  /** The greatest id stays in round 1 for ever. */
  lemma GreatestStaysInRoundOne(ids: set<string>, events: seq<Event>, greatest: string)
    requires IsGreatest(greatest, ids)
    ensures var c := Run(NewCell(ids), events); greatest in c.nodes && c.nodes[greatest].round == 1
  {
    RoundsAreBounded(ids, events, greatest);
    forall x | x in ids ensures !Less(greatest, x) {
      if x == greatest { LessIrreflexive(x); } else { LessAsymmetric(x, greatest); }
    }
    assert Larger(ids, greatest) == {};
  }

  /** Whoever names the greatest id as leader, in any run, is itself still in round 1. */
  lemma NamesGreatestInRoundOne(ids: set<string>, events: seq<Event>, id: string, greatest: string)
    requires IsGreatest(greatest, ids) && id in ids && id != greatest
    ensures var c := Run(NewCell(ids), events);
            id in c.nodes && (c.nodes[id].leader == Some(greatest) ==>
                c.nodes[id].state == Follower && c.nodes[id].round == 1)
  {
    RoundsAreBounded(ids, events, id);
    GreatestStaysInRoundOne(ids, events, greatest);
    assert NodeInv(Run(NewCell(ids), events), id);
  }

  /** Re-election is one way: a node past round 1 never names the greatest id as leader again, whatever happens. */
  lemma ReelectedNeverNamesGreatest(ids: set<string>, events: seq<Event>, more: seq<Event>, id: string,
          greatest: string)
    requires IsGreatest(greatest, ids) && id in ids && id != greatest
    requires id in Run(NewCell(ids), events).nodes && Run(NewCell(ids), events).nodes[id].round > 1
    ensures var c := Run(NewCell(ids), events + more); id in c.nodes && c.nodes[id].leader != Some(greatest)
  {
    NamesGreatestInRoundOne(ids, events + more, id, greatest);
    NewCellInv(ids);
    RunInv(NewCell(ids), events);
    RunInv(Run(NewCell(ids), events), more);
    RunConcat(NewCell(ids), events, more);
  }

  lemma {:induction false} RunConcat(c: Cell, a: seq<Event>, b: seq<Event>)
    ensures Run(c, a + b) == Run(Run(c, a), b)
    decreases |b|
  {
    if b == [] {
      assert a + b == a;
    } else {
      RunConcat(c, a, b[..|b| - 1]);
      assert (a + b)[..|a + b| - 1] == a + b[..|b| - 1];
    }
  }

  /** Rounds do not fall along a chain of leaders. */
  lemma {:induction false} RootIsAsFarAlong(c: Cell, id: string)
    requires CellInv(c) && id in c.nodes
    ensures c.nodes[id].round <= c.nodes[Root(c, id)].round
    decreases Above(c, id)
  {
    assert NodeInv(c, id);
    if c.nodes[id].state == Follower {
      var up := c.nodes[id].leader.value;
      AboveShrinks(c, id, up);
      RootIsAsFarAlong(c, up);
    }
  }

  // --- The first larger id a node hears, and how long it lasts ---

  /** The first larger id a node heard announced in a run from a new cell. */
  ghost function FirstHeard(ids: set<string>, events: seq<Event>, id: string): Option<string> {
    if events == [] then None
    else
      var init, e := events[..|events| - 1], events[|events| - 1];
      var before := FirstHeard(ids, init, id);
      if before.Some? then before
      else if e.Hear? && e.node == id && Enabled(Run(NewCell(ids), init), e) && Less(id, e.announce.leaderId)
      then Some(e.announce.leaderId)
      else None
  }

  /** When it heard it. */
  ghost function HeardTime(ids: set<string>, events: seq<Event>, id: string): Option<nat> {
    if events == [] then None
    else
      var init, e := events[..|events| - 1], events[|events| - 1];
      if FirstHeard(ids, init, id).Some? then HeardTime(ids, init, id)
      else if FirstHeard(ids, events, id).Some? && e.Hear? then Some(e.now)
      else None
  }

  /** Event i is a failure check of the node more than six seconds after it first heard a larger id. */
  ghost predicate FailsAt(ids: set<string>, events: seq<Event>, i: nat, id: string) {
    && i < |events| && events[i].Check? && events[i].node == id
    && var t := HeardTime(ids, events[..i], id);
       t.Some? && events[i].now > t.value + 6000
  }

  ghost predicate Failed(ids: set<string>, events: seq<Event>, id: string) {
    exists i: nat :: FailsAt(ids, events, i, id)
  }

  lemma FailedSnoc(ids: set<string>, events: seq<Event>, id: string)
    requires events != []
    ensures var n := |events| - 1;
            Failed(ids, events, id) == (Failed(ids, events[..n], id) || FailsAt(ids, events, n, id))
  {
    hide HeardTime;
    var n := |events| - 1;
    var init := events[..n];
    forall i: nat | i < n ensures FailsAt(ids, events, i, id) <==> FailsAt(ids, init, i, id) {
      assert init[..i] == events[..i];
    }
    if Failed(ids, init, id) {
      var i: nat :| FailsAt(ids, init, i, id);
      assert FailsAt(ids, events, i, id);
    }
  }

  lemma {:induction false} AnnouncedRounds(ids: set<string>, events: seq<Event>)
    ensures forall a :: a in Run(NewCell(ids), events).announces ==> a.round >= 1
  {
    if events != [] {
      var init := events[..|events| - 1];
      AnnouncedRounds(ids, init);
      NewCellInv(ids);
      RunInv(NewCell(ids), init);
      var c, e := Run(NewCell(ids), init), events[|events| - 1];
      if Enabled(c, e) { assert NodeInv(c, e.node); }
    }
  }

  /** How a node of a run without overrides stands, as long as it is in round 1. */
  ghost predicate Standing(n: Node, heard: Option<string>, time: Option<nat>) {
    && n.leader == heard
    && n.state == (if heard.Some? then Follower else Candidate)
    && (heard.None? ==> time.None? && n.tracker.None?)
    && (heard.Some? ==> time.Some? && n.tracker == Some(Tracker(heard.value, time.value)))
  }

  lemma StandingStep(ids: set<string>, events: seq<Event>, id: string)
    requires events != [] && NoOverrides(events) && id in ids
    requires var c := Run(NewCell(ids), events[..|events| - 1]);
             id in c.nodes && c.nodes[id].id == id && c.nodes[id].round == 1
             && Standing(c.nodes[id], FirstHeard(ids, events[..|events| - 1], id),
                 HeardTime(ids, events[..|events| - 1], id))
    ensures var n := Run(NewCell(ids), events).nodes[id];
            && (n.round == 1 <==> !FailsAt(ids, events, |events| - 1, id))
            && (n.round == 1 ==> Standing(n, FirstHeard(ids, events, id), HeardTime(ids, events, id)))
  {
    var init, e := events[..|events| - 1], events[|events| - 1];
    var c := Run(NewCell(ids), init);
    NoLeaderWithoutOverride(ids, init);
    AnnouncedRounds(ids, init);
    assert Run(NewCell(ids), events) == Step(c, e);
    assert FirstHeard(ids, events, id)
        == if FirstHeard(ids, init, id).Some? then FirstHeard(ids, init, id)
           else if e.Hear? && e.node == id && Enabled(c, e) && Less(id, e.announce.leaderId)
           then Some(e.announce.leaderId) else None;
    hide Run;
  }

  /**
   * In every run without overrides: a node is in round 1 exactly if no failure check of it came more than
   * six seconds after it first heard a larger id, and then it follows exactly the first larger id it heard.
   */
  lemma {:induction false} FollowsFirstHeard(ids: set<string>, events: seq<Event>, id: string)
    requires NoOverrides(events) && id in ids
    ensures id in Run(NewCell(ids), events).nodes
    ensures var n := Run(NewCell(ids), events).nodes[id];
            && n.id == id && n.round >= 1
            && (n.round == 1 <==> !Failed(ids, events, id))
            && (n.round == 1 ==> Standing(n, FirstHeard(ids, events, id), HeardTime(ids, events, id)))
  {
    NewCellInv(ids);
    RunInv(NewCell(ids), events);
    var d := Run(NewCell(ids), events);
    assert NodeInv(d, id);
    if events != [] {
      var n := |events| - 1;
      var init, e := events[..n], events[n];
      FollowsFirstHeard(ids, init, id);
      FailedSnoc(ids, events, id);
      RunInv(NewCell(ids), init);
      var c := Run(NewCell(ids), init);
      StepInv(c, e);
      hide Standing, FirstHeard, HeardTime, FailsAt, Failed, Step;
      if c.nodes[id].round == 1 {
        StandingStep(ids, events, id);
      }
    }
  }

  // --- Exactly when an election converges, and agrees ---

  /**
   * In every run without overrides every chain of leaders ends at the greatest id if and only if every other
   * node has heard some larger id, and was never checked more than six seconds after it first did.
   */
  lemma ConvergesIff(ids: set<string>, events: seq<Event>, greatest: string)
    requires NoOverrides(events) && IsGreatest(greatest, ids)
    ensures var c := Run(NewCell(ids), events);
            && CellInv(c) && c.nodes.Keys == ids
            && ((forall id :: id in ids ==> Root(c, id) == greatest)
                <==> forall id :: id in ids && id != greatest ==>
                    FirstHeard(ids, events, id).Some? && !Failed(ids, events, id))
  {
    RoundsAreBounded(ids, events, greatest);
    GreatestStaysInRoundOne(ids, events, greatest);
    var c := Run(NewCell(ids), events);
    hide Run, NewCell, FirstHeard, Failed, HeardTime, Root;
    forall x | x in ids && x != greatest
      ensures Root(c, x) == greatest ==> FirstHeard(ids, events, x).Some? && !Failed(ids, events, x)
      ensures FirstHeard(ids, events, x).Some? && !Failed(ids, events, x) ==> c.nodes[x].state == Follower
    {
      FollowsFirstHeard(ids, events, x);
      RootIsAsFarAlong(c, x);
      RootOfNonFollower(c, x);
    }
    if forall x :: x in ids && x != greatest ==> c.nodes[x].state == Follower {
      forall x | x in ids ensures Root(c, x) == greatest { assert c.nodes[Root(c, x)].state != Follower; }
    }
    forall x | x in ids && x == greatest ensures Root(c, x) == greatest {
      FollowGraphIsAcyclic(ids, events, [], x, 0);
      RootOfNonFollower(c, x);
    }
  }

  lemma RootOfNonFollower(c: Cell, id: string)
    requires CellInv(c) && id in c.nodes
    ensures c.nodes[id].state != Follower ==> Root(c, id) == id
  {}

  /** All other nodes name this one as their leader. */
  ghost predicate Agreed(c: Cell, leader: string) {
    forall id :: id in c.nodes && id != leader ==> c.nodes[id].leader == Some(leader)
  }

  /**
   * In every run without overrides all other nodes name one node as leader if and only if each of them heard
   * it before any other larger id, and was never checked more than six seconds after that.
   */
  lemma AgreementIff(ids: set<string>, events: seq<Event>, leader: string)
    requires NoOverrides(events)
    ensures Agreed(Run(NewCell(ids), events), leader)
       <==> forall id :: id in ids && id != leader ==>
              FirstHeard(ids, events, id) == Some(leader) && !Failed(ids, events, id)
  {
    NewCellInv(ids);
    RunInv(NewCell(ids), events);
    var c := Run(NewCell(ids), events);
    hide Run, NewCell, FirstHeard, Failed, HeardTime;
    if ids != {} {
      var g := Greatest(ids);
      FollowGraphIsAcyclic(ids, events, [], g, 0);
      FollowsFirstHeard(ids, events, g);
      NoLeaderWithoutOverride(ids, events);
      assert NodeInv(c, g) && c.nodes[g].leader.None?;
      if leader == g {
        forall x | x in ids && x != g
          ensures c.nodes[x].leader == Some(g) <==> FirstHeard(ids, events, x) == Some(g) && !Failed(ids, events, x)
        {
          FollowsFirstHeard(ids, events, x);
          NamesGreatestInRoundOne(ids, events, x, g);
        }
      }
    }
  }

  // --- Without failure checks ---

  predicate Quiet(e: Event) { !e.Check? && !e.Override? }

  ghost predicate AllQuiet(events: seq<Event>) {
    forall i :: 0 <= i < |events| ==> Quiet(events[i])
  }

  lemma QuietMeansNothingFailed(events: seq<Event>)
    requires AllQuiet(events)
    ensures NoOverrides(events) && forall ids: set<string>, id :: !Failed(ids, events, id)
  {
    forall i | 0 <= i < |events| ensures !events[i].Check? && !events[i].Override? { assert Quiet(events[i]); }
    hide HeardTime;
  }

  /** Every node announced itself, and every node has processed every announcement of another. */
  ghost predicate EveryoneHeard(ids: set<string>, events: seq<Event>) {
    forall from, to :: from in ids && to in ids && from != to ==> HasHeard(ids, events, from, to)
  }

  ghost predicate HasHeard(ids: set<string>, events: seq<Event>, from: string, to: string) {
    exists i :: 0 <= i < |events| && Hears(ids, events, i, from, to)
  }

  ghost predicate Hears(ids: set<string>, events: seq<Event>, i: nat, from: string, to: string)
    requires i < |events|
  {
    events[i].Hear? && events[i].node == to && events[i].announce.leaderId == from
    && Enabled(Run(NewCell(ids), events[..i]), events[i])
  }

  lemma {:induction false} HeardSomething(ids: set<string>, events: seq<Event>, i: nat, from: string, to: string)
    requires i < |events| && Hears(ids, events, i, from, to) && Less(to, from)
    ensures FirstHeard(ids, events, to).Some?
    decreases |events|
  {
    if i < |events| - 1 {
      var init := events[..|events| - 1];
      assert init[..i] == events[..i];
      HeardSomething(ids, init, i, from, to);
    }
  }

  /**
   * Once every node has announced itself and every node has processed every announcement of the
   * others, in any order and any number of times, with no failure checks or overrides: every node but
   * the greatest follows someone, and every chain of leaders ends at the greatest.
   */
  lemma ElectionConverges(ids: set<string>, events: seq<Event>, greatest: string, id: string)
    requires AllQuiet(events) && EveryoneHeard(ids, events) && IsGreatest(greatest, ids) && id in ids
    ensures var c := Run(NewCell(ids), events);
            && CellInv(c) && c.nodes.Keys == ids
            && (c.nodes[id].state == Follower <==> id != greatest)
            && Root(c, id) == greatest
  {
    QuietMeansNothingFailed(events);
    ConvergesIff(ids, events, greatest);
    FollowGraphIsAcyclic(ids, events, [], greatest, 0);
    FollowsFirstHeard(ids, events, id);
    forall x | x in ids && x != greatest ensures FirstHeard(ids, events, x).Some? {
      assert HasHeard(ids, events, greatest, x);
      var i :| 0 <= i < |events| && Hears(ids, events, i, greatest, x);
      HeardSomething(ids, events, i, greatest, x);
    }
  }

  lemma FirstHeardSnoc(ids: set<string>, events: seq<Event>, e: Event, id: string)
    ensures FirstHeard(ids, events + [e], id)
         == if FirstHeard(ids, events, id).Some? then FirstHeard(ids, events, id)
            else if e.Hear? && e.node == id && Enabled(Run(NewCell(ids), events), e) && Less(id, e.announce.leaderId)
            then Some(e.announce.leaderId) else None
  {
    assert (events + [e])[..|events|] == events;
  }

  /** A node that hears a middle id first keeps it, whatever it hears later: the cell does not agree. */
  lemma MiddleLeaderSticks(ids: set<string>, low: string, middle: string, greatest: string, now: nat, later: seq<Event>)
    requires {low, middle, greatest} <= ids && Less(low, middle) && Less(middle, greatest) && AllQuiet(later)
    ensures var events := [Start(middle)] + [Hear(low, Announce(middle, 1), now)] + later;
            AllQuiet(events) && !Agreed(Run(NewCell(ids), events), greatest)
  {
    var first := [Start(middle)] + [Hear(low, Announce(middle, 1), now)];
    RunSnoc(NewCell(ids), [], Start(middle));
    assert [] + [Start(middle)] == [Start(middle)];
    assert Announce(middle, 1) in Run(NewCell(ids), [Start(middle)]).announces;
    FirstHeardSnoc(ids, [Start(middle)], Hear(low, Announce(middle, 1), now), low);
    FirstHeardSnoc(ids, [], Start(middle), low);
    FirstHeardSticks(ids, first, later, low);
    var events := first + later;
    QuietMeansNothingFailed(events);
    AgreementIff(ids, events, greatest);
    LessIrreflexive(greatest);
    LessTransitive(low, middle, greatest);
  }

  lemma {:induction false} FirstHeardSticks(ids: set<string>, events: seq<Event>, later: seq<Event>, id: string)
    requires FirstHeard(ids, events, id).Some?
    ensures FirstHeard(ids, events + later, id) == FirstHeard(ids, events, id)
    decreases |later|
  {
    if later == [] {
      assert events + later == events;
    } else {
      var init, e := later[..|later| - 1], later[|later| - 1];
      FirstHeardSticks(ids, events, init, id);
      FirstHeardSnoc(ids, events + init, e, id);
      assert events + later == events + init + [e];
    }
  }
}
