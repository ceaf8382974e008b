/**
 * Leader election in a cell, peat-protocol/src/cell/leader_election.rs: candidates announce
 * themselves per round, a candidate follows the first larger id it hears, and a follower whose
 * leader falls silent starts a new round.
 *
 * The clock is a parameter in milliseconds. Scores play no part in who follows whom (the source
 * compares node ids), so they are not modelled; nor is the candidate table, which nothing reads.
 */
module LeaderElection {
  import opened Prelude
  import opened StringOrder

  datatype ElectionState = Candidate | Leader | Follower

  datatype Tracker = Tracker(leaderId: string, lastHeartbeat: nat)

  datatype Node = Node(id: string, state: ElectionState, round: nat, leader: Option<string>, tracker: Option<Tracker>)

  datatype Announce = Announce(leaderId: string, round: nat)

  const HEARTBEAT_INTERVAL: nat := 2000
  const MAX_MISSED: nat := 3

  function NewNode(id: string): Node { Node(id, Candidate, 1, None, None) }

  // --- What each handler does to a node ---

  function AfterAnnounce(n: Node, a: Announce, now: nat): Node {
    if a.round >= n.round && n.state == Candidate && Less(n.id, a.leaderId)
    then n.(state := Follower, leader := Some(a.leaderId), tracker := Some(Tracker(a.leaderId, now)))
    else n
  }

  function AfterHeartbeat(n: Node, from: string, now: nat): Node {
    if n.leader == Some(from) && n.tracker.Some? then n.(tracker := Some(n.tracker.value.(lastHeartbeat := now))) else n
  }

  predicate LeaderFailed(n: Node, now: nat) {
    n.tracker.Some? && Elapsed(now, n.tracker.value.lastHeartbeat) > HEARTBEAT_INTERVAL * MAX_MISSED
  }

  function Reelected(n: Node): Node {
    n.(state := Candidate, leader := None, tracker := None, round := n.round + 1)
  }

  function AfterCheck(n: Node, now: nat): Node {
    if LeaderFailed(n, now) then Reelected(n) else n
  }

  function Overridden(n: Node): Node {
    n.(state := Leader, leader := Some(n.id))
  }

  // --- The manager ---

  class LeaderElectionManager {
    const id: string
    var state: ElectionState
    var round: nat
    var leader: Option<string>
    var tracker: Option<Tracker>

    function AsNode(): Node
      reads this
    {
      Node(id, state, round, leader, tracker)
    }

    constructor (id: string)
      ensures AsNode() == NewNode(id)
    {
      this.id := id;
      state, round, leader, tracker := Candidate, 1, None, None;
    }

    method StartElection() returns (a: Announce)
      ensures {a} == Announced(AsNode(), Start(id))
    {
      a := Announce(id, round);
    }

    method HandleLeaderAnnounce(leaderId: string, announcedRound: nat, now: nat)
      modifies this
      ensures AsNode() == AfterAnnounce(old(AsNode()), Announce(leaderId, announcedRound), now)
    {
      if announcedRound < round {
        return;
      }
      if state != Candidate {
        return;
      }
      if Less(id, leaderId) {
        state := Follower;
        leader := Some(leaderId);
        tracker := Some(Tracker(leaderId, now));
      }
    }

    method HandleHeartbeat(from: string, now: nat)
      modifies this`tracker
      ensures AsNode() == AfterHeartbeat(old(AsNode()), from, now)
      ensures leader == Some(from) && old(tracker).Some? ==> tracker == Some(Tracker(old(tracker).value.leaderId, now))
      ensures leader != Some(from) || old(tracker).None? ==> tracker == old(tracker)
    {
      if leader.Some? {
        if from == leader.value {
          if tracker.Some? {
            tracker := Some(tracker.value.(lastHeartbeat := now));
          }
        }
      }
    }

    method CheckLeaderFailure(now: nat) returns (failed: bool, announced: Option<Announce>)
      modifies this
      ensures failed == LeaderFailed(old(AsNode()), now)
      ensures AsNode() == AfterCheck(old(AsNode()), now)
      ensures announced == if failed then Some(Announce(id, old(round) + 1)) else None
    {
      if tracker.Some? {
        if Elapsed(now, tracker.value.lastHeartbeat) > HEARTBEAT_INTERVAL * MAX_MISSED {
          state := Candidate;
          leader := None;
          tracker := None;
          round := round + 1;
          return true, Some(Announce(id, round));
        }
      }
      return false, None;
    }

    method SetAsLeader()
      modifies this`state, this`leader
      ensures AsNode() == Overridden(old(AsNode()))
    {
      state := Leader;
      leader := Some(id);
    }

    method SendHeartbeatIfLeader() returns (sent: Option<string>)
      ensures Beaten(AsNode(), Beat(id)) == if sent.Some? then {sent.value} else {}
    {
      if state == Leader {
        return Some(id);
      }
      return None;
    }
  }

  // --- A cell of nodes and the announcements and heartbeats ever sent ---

  datatype Cell = Cell(nodes: map<string, Node>, announces: set<Announce>, beats: set<string>)

  datatype Event =
    | Start(node: string)
    | Hear(node: string, announce: Announce, now: nat)
    | Beat(node: string)
    | HearBeat(node: string, from: string, now: nat)
    | Check(node: string, now: nat)
    | Override(node: string)

  function NewCell(ids: set<string>): Cell {
    Cell(map id | id in ids :: NewNode(id), {}, {})
  }

  /** Messages may be delayed, repeated, reordered or lost, but not invented. */
  predicate Enabled(c: Cell, e: Event) {
    && e.node in c.nodes
    && (e.Hear? ==> e.announce in c.announces)
    && (e.HearBeat? ==> e.from in c.beats)
  }

  /** The node of the event after the event. */
  function Moved(n: Node, e: Event): Node {
    match e
    case Start(_) => n
    case Hear(_, a, now) => AfterAnnounce(n, a, now)
    case Beat(_) => n
    case HearBeat(_, from, now) => AfterHeartbeat(n, from, now)
    case Check(_, now) => AfterCheck(n, now)
    case Override(_) => Overridden(n)
  }

  function Announced(n: Node, e: Event): set<Announce> {
    match e
    case Start(_) => {Announce(n.id, n.round)}
    case Check(_, now) => if LeaderFailed(n, now) then {Announce(n.id, n.round + 1)} else {}
    case _ => {}
  }

  function Beaten(n: Node, e: Event): set<string> {
    if e.Beat? && n.state == Leader then {n.id} else {}
  }

  function Step(c: Cell, e: Event): Cell {
    if !Enabled(c, e) then c
    else
      var n := c.nodes[e.node];
      Cell(c.nodes[e.node := Moved(n, e)], c.announces + Announced(n, e),
           c.beats + Beaten(n, e))
  }

  function Run(c: Cell, events: seq<Event>): Cell {
    if events == [] then c else Step(Run(c, events[..|events| - 1]), events[|events| - 1])
  }

  // --- What every run keeps ---

  /** A follower follows a known node with a larger id that is at least as far along in rounds. */
  ghost predicate NodeInv(c: Cell, id: string)
    requires id in c.nodes
  {
    var n := c.nodes[id];
    && n.id == id && n.round >= 1
    && (n.state == Candidate ==> n.leader.None?)
    && (n.state == Leader ==> n.leader == Some(id))
    && (n.state == Follower ==>
          && n.leader.Some? && n.leader.value in c.nodes
          && Less(id, n.leader.value)
          && n.round <= c.nodes[n.leader.value].round)
  }

  ghost predicate CellInv(c: Cell) {
    && (forall id :: id in c.nodes ==> NodeInv(c, id))
    && (forall a :: a in c.announces ==> a.leaderId in c.nodes && a.round <= c.nodes[a.leaderId].round)
  }

  /** Same nodes, and no round went down. */
  ghost predicate RoundsGrow(c: Cell, c': Cell) {
    c'.nodes.Keys == c.nodes.Keys && forall id :: id in c.nodes ==> c.nodes[id].round <= c'.nodes[id].round
  }

  lemma StepInv(c: Cell, e: Event)
    requires CellInv(c)
    ensures CellInv(Step(c, e)) && RoundsGrow(c, Step(c, e))
  {
    var c' := Step(c, e);
    if Enabled(c, e) {
      assert NodeInv(c, e.node);
      assert forall id :: id in c.nodes ==> c.nodes[id].round <= c'.nodes[id].round;
      forall id | id in c'.nodes ensures NodeInv(c', id) {
        assert NodeInv(c, id);
      }
    }
  }

  lemma {:induction false} RunInv(c: Cell, events: seq<Event>)
    requires CellInv(c)
    ensures CellInv(Run(c, events)) && RoundsGrow(c, Run(c, events))
  {
    if events != [] {
      RunInv(c, events[..|events| - 1]);
      StepInv(Run(c, events[..|events| - 1]), events[|events| - 1]);
    }
  }

  lemma NewCellInv(ids: set<string>)
    ensures CellInv(NewCell(ids))
  {}

  // --- Follow chains ---

  ghost function Above(c: Cell, id: string): set<string> {
    set x | x in c.nodes && Less(id, x)
  }

  lemma AboveShrinks(c: Cell, id: string, up: string)
    requires up in c.nodes && Less(id, up)
    ensures Above(c, up) < Above(c, id)
  {
    forall x | x in Above(c, up) ensures x in Above(c, id) {
      LessTransitive(id, up, x);
    }
    LessIrreflexive(up);
    assert up in Above(c, id) && up !in Above(c, up);
  }

  /** The end of the chain of leaders from a node. */
  ghost function Root(c: Cell, id: string): (r: string)
    requires CellInv(c) && id in c.nodes
    ensures r in c.nodes && c.nodes[r].state != Follower
    ensures r == id || Less(id, r)
    decreases Above(c, id)
  {
    assert NodeInv(c, id);
    if c.nodes[id].state != Follower then id
    else
      var up := c.nodes[id].leader.value;
      AboveShrinks(c, id, up);
      var r := Root(c, up);
      assert Less(id, r) by {
        if r != up { LessTransitive(id, up, r); }
      }
      r
  }

  /** k steps up the chain of leaders; a node that follows nobody stays where it is. */
  ghost function Up(c: Cell, id: string, k: nat): (r: string)
    requires CellInv(c) && id in c.nodes
    ensures r in c.nodes && (r == id || Less(id, r))
    decreases k
  {
    assert NodeInv(c, id);
    if k == 0 || c.nodes[id].state != Follower then id
    else
      var up := c.nodes[id].leader.value;
      var r := Up(c, up, k - 1);
      assert Less(id, r) by {
        if r != up { LessTransitive(id, up, r); }
      }
      r
  }

  /**
   * In every run, with any interleaving of announcements, heartbeats, failure checks and manual
   * overrides: rounds never go down, a follower's leader has a larger id and a round at least its
   * own, the greatest id never follows, and no node is its own ancestor.
   */
  lemma FollowGraphIsAcyclic(ids: set<string>, events: seq<Event>, more: seq<Event>, id: string, k: nat)
    requires id in ids
    ensures var c := Run(NewCell(ids), events);
            && CellInv(c) && c.nodes.Keys == ids
            && RoundsGrow(c, Run(c, more))
            && (IsGreatest(id, ids) ==> c.nodes[id].state != Follower)
            && (c.nodes[id].state == Follower && k > 0 ==> Up(c, id, k) != id)
            && c.nodes[Root(c, id)].state != Follower
  {
    NewCellInv(ids);
    RunInv(NewCell(ids), events);
    var c := Run(NewCell(ids), events);
    RunInv(c, more);
    assert NodeInv(c, id);
    LessIrreflexive(id);
    if c.nodes[id].state == Follower {
      var up := c.nodes[id].leader.value;
      if IsGreatest(id, ids) {
        LessAsymmetric(id, up);
      }
      if k > 0 {
        if Up(c, id, k) != up { LessTransitive(id, up, Up(c, id, k)); }
      }
    }
  }

  lemma RunSnoc(c: Cell, events: seq<Event>, e: Event)
    ensures Run(c, events + [e]) == Step(Run(c, events), e)
  {
    assert (events + [e])[..|events|] == events;
  }
}
