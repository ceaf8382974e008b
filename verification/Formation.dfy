/**
 * The formation gate of a cell, peat-protocol/src/cell/coordinator.rs: a cell becomes ready when its
 * size, leader, roles, capabilities and readiness score pass, and a human has approved it if any
 * capability needs oversight. The clock is a parameter in seconds.
 */
module Formation {
  import opened Prelude
  import opened Aggregation
  import opened AggregationLaws

  datatype Role = Leader | Sensing | Computing | Relay | Strike | Support | Follower

  datatype Reason = TooFew(size: nat, minSize: nat) | Missing(gaps: seq<CapabilityType>)
    | LowReadiness(score: real, minScore: real) | Rejected(reason: string)

  datatype Status = Forming | AwaitingApproval | Ready | Failed(reason: Reason)

  /** The settings of a coordinator. */
  datatype Config = Config(minSize: nat, minReadiness: real, required: seq<CapabilityType>)

  datatype State = State(status: Status, approved: bool, start: nat, complete: Option<nat>)

  datatype FormationError = InvalidTransition

  /** The phase a ready cell moves on to. */
  datatype Phase = Hierarchy

  function DefaultConfig(): Config { Config(3, 0.7, [Communication, Sensor]) }

  function NewState(now: nat): State { State(Forming, false, now, None) }

  function Members(team: seq<(Member, Option<Role>)>): (r: seq<Member>)
    ensures |r| == |team|
  {
    seq(|team|, i requires 0 <= i < |team| => team[i].0)
  }

  predicate AllAssigned(team: seq<(Member, Option<Role>)>) {
    forall i :: 0 <= i < |team| ==> team[i].1.Some?
  }

  predicate NeedsApproval(caps: Capabilities) {
    exists k :: k in caps && caps[k].requiresOversight
  }

  // --- What each operation does ---

  function Completed(s: State, now: nat): State {
    s.(status := Ready, complete := if s.complete.None? then Some(now) else s.complete)
  }

  /** Size, leader and roles, the criteria that come before the capabilities. */
  predicate Assembled(c: Config, team: seq<(Member, Option<Role>)>, leader: Option<string>) {
    |team| >= c.minSize && leader.Some? && AllAssigned(team)
  }

  /** Every criterion but human approval. */
  ghost predicate Passes(c: Config, team: seq<(Member, Option<Role>)>, leader: Option<string>) {
    && Assembled(c, team, leader)
    && Gaps(Aggregate(Members(team)), c.required) == []
    && Readiness(Aggregate(Members(team))) >= c.minReadiness
  }

  ghost predicate Complete(c: Config, s: State, team: seq<(Member, Option<Role>)>, leader: Option<string>) {
    Passes(c, team, leader) && (NeedsApproval(Aggregate(Members(team))) ==> s.approved)
  }

  ghost function AfterCheck(c: Config, s: State, team: seq<(Member, Option<Role>)>, leader: Option<string>,
          now: nat): State
  {
    var caps := Aggregate(Members(team));
    if |team| < c.minSize then s.(status := Failed(TooFew(|team|, c.minSize)))
    else if !Assembled(c, team, leader) then s
    else if Gaps(caps, c.required) != [] then s.(status := Failed(Missing(Gaps(caps, c.required))))
    else if Readiness(caps) < c.minReadiness then s.(status := Failed(LowReadiness(Readiness(caps), c.minReadiness)))
    else if NeedsApproval(caps) && !s.approved then s.(status := AwaitingApproval)
    else Completed(s, now)
  }

  function AfterApprove(s: State, now: nat): State {
    if s.status != AwaitingApproval then s else Completed(s.(approved := true), now)
  }

  function AfterReject(s: State, reason: string): State {
    if s.status != AwaitingApproval then s else s.(status := Failed(Rejected(reason)))
  }

  class CellCoordinator {
    const config: Config
    var status: Status
    var approved: bool
    var start: nat
    var complete: Option<nat>

    function AsState(): State
      reads this
    {
      State(status, approved, start, complete)
    }

    constructor (now: nat)
      ensures config == DefaultConfig() && AsState() == NewState(now)
    {
      config := DefaultConfig();
      status, approved, start, complete := Forming, false, now, None;
    }

    method CheckFormationComplete(team: seq<(Member, Option<Role>)>, leader: Option<string>, now: nat)
      returns (done: bool)
      modifies this`status, this`complete
      ensures done <==> Complete(config, old(AsState()), team, leader)
      ensures AsState() == AfterCheck(config, old(AsState()), team, leader, now)
    {
      hide Aggregate, Aggregates, Gaps, Readiness, Members;
      if |team| < config.minSize {
        status := Failed(TooFew(|team|, config.minSize));
        return false;
      }
      if leader.None? {
        return false;
      }
      var unassigned := 0;
      for i := 0 to |team|
        invariant 0 <= unassigned
        invariant unassigned == 0 <==> forall j :: 0 <= j < i ==> team[j].1.Some?
      {
        if team[i].1.None? { unassigned := unassigned + 1; }
      }
      if unassigned > 0 {
        return false;
      }
      var aggregated := AggregateCapabilities(Members(team));
      var caps := aggregated.value;
      AggregateIsUnique(Members(team), caps);
      var gaps := IdentifyGaps(caps, config.required);
      if gaps != [] {
        status := Failed(Missing(gaps));
        return false;
      }
      var readiness := CalculateReadinessScore(caps);
      if readiness < config.minReadiness {
        status := Failed(LowReadiness(readiness, config.minReadiness));
        return false;
      }
      if NeedsApproval(caps) && !approved {
        status := AwaitingApproval;
        return false;
      }
      status := Ready;
      if complete.None? {
        complete := Some(now);
      }
      return true;
    }

    method ApproveFormation(now: nat) returns (r: Result<(), FormationError>)
      modifies this`status, this`approved, this`complete
      ensures r.Ok? <==> old(status) == AwaitingApproval
      ensures AsState() == AfterApprove(old(AsState()), now)
    {
      if status != AwaitingApproval {
        return Err(InvalidTransition);
      }
      approved := true;
      status := Ready;
      if complete.None? {
        complete := Some(now);
      }
      return Ok(());
    }

    method RejectFormation(reason: string) returns (r: Result<(), FormationError>)
      modifies this`status
      ensures r.Ok? <==> old(status) == AwaitingApproval
      ensures AsState() == AfterReject(old(AsState()), reason)
    {
      if status != AwaitingApproval {
        return Err(InvalidTransition);
      }
      status := Failed(Rejected(reason));
      return Ok(());
    }

    method GetHierarchicalPhase() returns (r: Result<Phase, FormationError>)
      ensures r == if status == Ready then Ok(Hierarchy) else Err(InvalidTransition)
    {
      if status != Ready {
        return Err(InvalidTransition);
      }
      return Ok(Hierarchy);
    }

    method Reset(now: nat)
      modifies this
      ensures AsState() == NewState(now)
    {
      status, approved, complete, start := Forming, false, None, now;
    }
  }

  // --- Human authority ---

  /**
   * Whenever the check reports a complete formation, every required communication or payload
   * capability is offered by an operational member whose operator binding carries an authority level.
   */
  lemma CompleteIsHumanBacked(c: Config, s: State, team: seq<(Member, Option<Role>)>, leader: Option<string>,
          k: CapabilityType)
    ensures Complete(c, s, team, leader) && k in c.required && (k == Communication || k == Payload) ==>
              HumanBacked(Members(team), k)
  {
    hide Aggregate, Readiness, HumanBacked;
    CriticalReadyIsHumanBacked(Members(team), k);
  }

  /**
   * A check can answer no and leave the phase gate open. That happens exactly when the cell was ready,
   * is still large enough, and has lost its leader or a role.
   */
  lemma StaleReadyIff(c: Config, s: State, team: seq<(Member, Option<Role>)>, leader: Option<string>, now: nat)
    ensures !Complete(c, s, team, leader) && AfterCheck(c, s, team, leader, now).status == Ready
       <==> s.status == Ready && |team| >= c.minSize && (leader.None? || !AllAssigned(team))
  {
    hide Aggregate, Gaps, Readiness;
  }

  // --- Who must approve ---

  lemma OversightKinds(members: seq<Member>, k: CapabilityType)
    ensures var caps := Aggregate(members);
            k in caps && caps[k].requiresOversight ==> k == Payload || k == Communication
  {
    hide Aggregate, Aggregates;
    AggregateFields(members, k);
  }

  /**
   * A team needs human approval exactly if it has a payload nobody of level 4 stands behind, or communication
   * whose highest operator level is 1 or absent.
   */
  lemma NeedsApprovalIff(members: seq<Member>)
    ensures NeedsApproval(Aggregate(members)) <==> UncommandedPayload(members) || UnsupervisedComms(members)
  {
    PayloadOversight(members);
    CommsOversight(members);
    forall k ensures var caps := Aggregate(members);
        k in caps && caps[k].requiresOversight ==> k == Payload || k == Communication
    {
      OversightKinds(members, k);
    }
    hide Aggregate, UncommandedPayload, UnsupervisedComms;
  }

  /**
   * Without an approval a check reports a complete formation exactly if everything else passes and every
   * payload has a level 4 operator behind it and communication some operator, the highest not of level 1.
   */
  lemma UnapprovedCompleteIff(c: Config, s: State, team: seq<(Member, Option<Role>)>, leader: Option<string>)
    ensures !s.approved ==>
              (Complete(c, s, team, leader)
               <==> Passes(c, team, leader) && !UncommandedPayload(Members(team)) && !UnsupervisedComms(Members(team)))
  {
    NeedsApprovalIff(Members(team));
    hide Passes, Aggregate, NeedsApproval, UncommandedPayload, UnsupervisedComms;
  }

  /** The criteria of a new coordinator, by number. */
  lemma DefaultCriteria(team: seq<(Member, Option<Role>)>, leader: Option<string>)
    ensures var caps := Aggregate(Members(team));
            Passes(DefaultConfig(), team, leader)
            <==> && |team| >= 3 && leader.Some? && (forall i :: 0 <= i < |team| ==> team[i].1.Some?)
                 && Communication in caps && MissionReady(caps[Communication])
                 && Sensor in caps && MissionReady(caps[Sensor])
                 && Readiness(caps) >= 0.7
  {
    hide Aggregate, Readiness, MissionReady, Members, Gaps, Aggregates;
    DefaultGaps(Aggregate(Members(team)));
  }

  lemma DefaultGaps(caps: Capabilities)
    ensures Gaps(caps, DefaultConfig().required) == [] <==> !IsGap(caps, Communication) && !IsGap(caps, Sensor)
  {
    hide MissionReady;
    var required := DefaultConfig().required;
    assert required[0] == Communication && required[1] == Sensor;
  }

  // --- Runs ---

  datatype Event = Check(team: seq<(Member, Option<Role>)>, leader: Option<string>, now: nat)
    | Approve(now: nat) | Reject(reason: string) | Restart(now: nat)

  ghost function Step(c: Config, s: State, e: Event): State {
    match e
    case Check(team, leader, now) => AfterCheck(c, s, team, leader, now)
    case Approve(now) => AfterApprove(s, now)
    case Reject(reason) => AfterReject(s, reason)
    case Restart(now) => NewState(now)
  }

  ghost function Run(c: Config, start: nat, events: seq<Event>): State {
    if events == [] then NewState(start)
    else Step(c, Run(c, start, events[..|events| - 1]), events[|events| - 1])
  }

  ghost predicate NoRestartAfter(events: seq<Event>, i: nat) {
    forall k :: i < k < |events| ==> !events[k].Restart?
  }

  /** A check that passes every criterion but approval, with some capability needing oversight. */
  ghost predicate Asks(c: Config, e: Event) {
    e.Check? && Passes(c, e.team, e.leader) && NeedsApproval(Aggregate(Members(e.team)))
  }

  ghost predicate AskedAt(c: Config, events: seq<Event>, i: nat) {
    i < |events| && Asks(c, events[i])
  }

  /** Event j is a human approval that took effect. */
  ghost predicate ApprovedAt(c: Config, start: nat, events: seq<Event>, j: nat) {
    j < |events| && events[j].Approve? && Run(c, start, events[..j]).status == AwaitingApproval
  }

  ghost predicate Asked(c: Config, events: seq<Event>) {
    exists i :: AskedAt(c, events, i) && NoRestartAfter(events, i)
  }

  /** A human approved after being asked, and the cell has not been reset since it asked. */
  ghost predicate Approved(c: Config, start: nat, events: seq<Event>) {
    exists i, j :: i < j && AskedAt(c, events, i) && ApprovedAt(c, start, events, j) && NoRestartAfter(events, i)
  }

  ghost predicate Inv(c: Config, start: nat, events: seq<Event>) {
    var s := Run(c, start, events);
    && (s.status == AwaitingApproval ==> !s.approved && Asked(c, events))
    && (s.approved ==> Approved(c, start, events))
    && (s.status == Ready ==> s.complete.Some?)
  }

  lemma AskedSnoc(c: Config, events: seq<Event>, e: Event)
    ensures !e.Restart? && (Asked(c, events) || Asks(c, e)) ==> Asked(c, events + [e])
  {
    hide Asks;
    if Asked(c, events) {
      var i :| AskedAt(c, events, i) && NoRestartAfter(events, i);
      if !e.Restart? { assert AskedAt(c, events + [e], i) && NoRestartAfter(events + [e], i); }
    } else if Asks(c, e) {
      assert AskedAt(c, events + [e], |events|) && NoRestartAfter(events + [e], |events|);
    }
  }

  lemma ApprovedSnoc(c: Config, start: nat, events: seq<Event>, e: Event)
    ensures Approved(c, start, events) && !e.Restart? ==> Approved(c, start, events + [e])
  {
    hide Asks, Run;
    if !Approved(c, start, events) || e.Restart? { return; }
    var i, j :| i < j && AskedAt(c, events, i) && ApprovedAt(c, start, events, j) && NoRestartAfter(events, i);
    assert (events + [e])[..j] == events[..j];
    assert AskedAt(c, events + [e], i) && ApprovedAt(c, start, events + [e], j) && NoRestartAfter(events + [e], i);
  }

  lemma ApprovalTakesEffect(c: Config, start: nat, events: seq<Event>, e: Event)
    ensures Asked(c, events) && e.Approve? && Run(c, start, events).status == AwaitingApproval ==>
              Approved(c, start, events + [e])
  {
    hide Asks, Run;
    if !(Asked(c, events) && e.Approve? && Run(c, start, events).status == AwaitingApproval) { return; }
    var i :| AskedAt(c, events, i) && NoRestartAfter(events, i);
    assert (events + [e])[..|events|] == events;
    assert AskedAt(c, events + [e], i) && ApprovedAt(c, start, events + [e], |events|)
        && NoRestartAfter(events + [e], i);
  }

  lemma StepEffect(c: Config, s: State, e: Event)
    ensures var t := Step(c, s, e);
            && (t.status == AwaitingApproval ==>
                !e.Restart? && ((s.status == AwaitingApproval && t == s) || (Asks(c, e) && !t.approved)))
            && (t.approved && !s.approved ==> e.Approve? && s.status == AwaitingApproval)
            && (t.approved ==> !e.Restart?)
            && (s.complete.Some? && !e.Restart? ==> t.complete == s.complete)
            && (t.status == Ready ==> t.complete.Some? || (s.status == Ready && !e.Restart?))
  {
    hide Aggregate, Gaps, Readiness, NeedsApproval, Members;
  }

  lemma StepInv(c: Config, start: nat, events: seq<Event>, e: Event)
    requires Inv(c, start, events)
    ensures Inv(c, start, events + [e])
  {
    hide Asked, Approved, Step, Asks;
    var s := Run(c, start, events);
    assert (events + [e])[..|events|] == events;
    assert Run(c, start, events + [e]) == Step(c, s, e);
    hide Run;
    StepEffect(c, s, e);
    var t := Step(c, s, e);
    if t.status == AwaitingApproval { AskedSnoc(c, events, e); }
    if t.approved {
      if s.approved {
        ApprovedSnoc(c, start, events, e);
      } else {
        ApprovalTakesEffect(c, start, events, e);
      }
    }
  }

  lemma NothingYet(c: Config, start: nat)
    ensures Inv(c, start, [])
  {}

  lemma {:induction false} RunInv(c: Config, start: nat, events: seq<Event>)
    ensures Inv(c, start, events)
  {
    hide Inv, Run;
    if events == [] {
      NothingYet(c, start);
    } else {
      var init, e := events[..|events| - 1], events[|events| - 1];
      RunInv(c, start, init);
      StepInv(c, start, init, e);
      assert init + [e] == events;
    }
  }

  /**
   * Approval history, for every run. A cell awaiting approval is not approved. When a check of a team
   * with a capability needing oversight reports a complete formation, a human approved since the last
   * reset, after a check that passed every other criterion. A ready cell has a completion time.
   */
  lemma ApprovalHistory(c: Config, start: nat, events: seq<Event>, team: seq<(Member, Option<Role>)>,
          leader: Option<string>)
    ensures var s := Run(c, start, events);
            && (s.status == AwaitingApproval ==> !s.approved)
            && (s.status == Ready ==> s.complete.Some?)
            && (Complete(c, s, team, leader) && NeedsApproval(Aggregate(Members(team))) ==> Approved(c, start, events))
  {
    RunInv(c, start, events);
  }

  /** A completion time, once set, never changes until the cell is reset. */
  lemma {:induction false} CompletionTimeIsFixed(c: Config, start: nat, events: seq<Event>, more: seq<Event>)
    requires Run(c, start, events).complete.Some?
    requires forall i :: 0 <= i < |more| ==> !more[i].Restart?
    ensures Run(c, start, events + more).complete == Run(c, start, events).complete
    decreases |more|
  {
    if more == [] {
      assert events + more == events;
    } else {
      hide Step, Asks;
      var init, e := more[..|more| - 1], more[|more| - 1];
      CompletionTimeIsFixed(c, start, events, init);
      assert (events + more)[..|events + more| - 1] == events + init;
      StepEffect(c, Run(c, start, events + init), e);
    }
  }
}
