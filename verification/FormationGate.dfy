/**
 * When the phase gate of peat-protocol/src/cell/coordinator.rs is open, over every run, with a team
 * that opens it.
 */
module FormationGate {
  import opened Prelude
  import opened Aggregation
  import opened AggregationLaws
  import opened Formation

  // --- Exactly when the gate is open ---

  /** The event opens the gate: a check that reports a complete formation, or an approval that takes effect. */
  ghost predicate Opens(c: Config, s: State, e: Event) {
    (e.Check? && Complete(c, s, e.team, e.leader)) || (e.Approve? && s.status == AwaitingApproval)
  }

  /**
   * The event leaves an open gate open: an approval or rejection out of turn, or a check that stops
   * short of the capabilities.
   */
  ghost predicate LeavesOpen(c: Config, e: Event) {
    e.Approve? || e.Reject? || (e.Check? && |e.team| >= c.minSize && !Assembled(c, e.team, e.leader))
  }

  lemma StepReadyIff(c: Config, s: State, e: Event)
    ensures Step(c, s, e).status == Ready <==> Opens(c, s, e) || (s.status == Ready && LeavesOpen(c, e))
  {
    hide Aggregate, Gaps, Readiness, NeedsApproval, Members;
  }

  ghost predicate OpenSince(c: Config, start: nat, events: seq<Event>, i: nat) {
    && i < |events| && Opens(c, Run(c, start, events[..i]), events[i])
    && forall k :: i < k < |events| ==> LeavesOpen(c, events[k])
  }

  /** The phase gate is open exactly when some event opened it and every event since left it open. */
  lemma {:induction false} GateOpenIff(c: Config, start: nat, events: seq<Event>)
    ensures Run(c, start, events).status == Ready <==> exists i: nat :: OpenSince(c, start, events, i)
  {
    hide Step, Opens, LeavesOpen;
    if events != [] {
      var n := |events| - 1;
      var init, e := events[..n], events[n];
      GateOpenIff(c, start, init);
      StepReadyIff(c, Run(c, start, init), e);
      assert Run(c, start, events) == Step(c, Run(c, start, init), e);
      hide Run;
      forall i: nat | i < n
        ensures OpenSince(c, start, events, i) <==> OpenSince(c, start, init, i) && LeavesOpen(c, e)
      {
        assert init[..i] == events[..i];
      }
      assert OpenSince(c, start, events, n) <==> Opens(c, Run(c, start, init), e);
      if Run(c, start, init).status == Ready && LeavesOpen(c, e) {
        var i: nat :| OpenSince(c, start, init, i);
        assert OpenSince(c, start, events, i);
      }
    }
  }

  // --- What an open gate says about the latest check ---

  ghost predicate LatestCheckAt(events: seq<Event>, j: nat) {
    j < |events| && events[j].Check? && forall k :: j < k < |events| ==> !events[k].Check?
  }

  /** The latest check had enough members, and passed everything but approval if it had a leader and all roles. */
  ghost predicate Stands(c: Config, e: Event) {
    && e.Check? && |e.team| >= c.minSize
    && (Assembled(c, e.team, e.leader) ==> Passes(c, e.team, e.leader))
  }

  lemma StepStands(c: Config, s: State, e: Event)
    ensures var t := Step(c, s, e);
            t.status == Ready || t.status == AwaitingApproval ==>
              if e.Check? then Stands(c, e) else s.status == Ready || s.status == AwaitingApproval
  {
    hide Aggregate, Gaps, Readiness, NeedsApproval, Members;
  }

  lemma {:induction false} LatestCheckStands(c: Config, start: nat, events: seq<Event>) returns (j: nat)
    requires var s := Run(c, start, events); s.status == Ready || s.status == AwaitingApproval
    ensures LatestCheckAt(events, j) && Stands(c, events[j])
  {
    hide Step, Stands;
    var n := |events| - 1;
    var init, e := events[..n], events[n];
    StepStands(c, Run(c, start, init), e);
    if e.Check? {
      j := n;
    } else {
      j := LatestCheckStands(c, start, init);
    }
  }

  /**
   * In every run, behind an open gate there is a latest check, and it passed everything but approval exactly
   * if it had a leader and every member had a role.
   */
  lemma OpenGateMeansPassedIff(c: Config, start: nat, events: seq<Event>)
    ensures Run(c, start, events).status == Ready ==>
              exists j: nat :: LatestCheckAt(events, j)
                            && (Passes(c, events[j].team, events[j].leader)
                                <==> events[j].leader.Some? && AllAssigned(events[j].team))
  {
    if Run(c, start, events).status == Ready {
      var j := LatestCheckStands(c, start, events);
      hide Run, Aggregate, Gaps, Readiness;
      assert LatestCheckAt(events, j);
    }
  }

  // --- Rejection and the completion time ---

  /** A rejection closes the case: an approval after it has no effect until another check asks. */
  lemma RejectionStands(c: Config, s: State, reason: string, now: nat)
    ensures s.status == AwaitingApproval ==>
              var t := Step(c, s, Reject(reason));
              t.status != AwaitingApproval && t.status != Ready && t.approved == s.approved
              && Step(c, t, Approve(now)) == t
    ensures s.status != AwaitingApproval ==> Step(c, s, Reject(reason)) == s && Step(c, s, Approve(now)) == s
  {}

  /** When the cell was first found or made ready since it was last reset. */
  ghost function FirstReady(c: Config, start: nat, events: seq<Event>): Option<nat> {
    if events == [] then None
    else
      var init, e := events[..|events| - 1], events[|events| - 1];
      var before := FirstReady(c, start, init);
      if e.Restart? then None
      else if before.Some? then before
      else if Opens(c, Run(c, start, init), e) then Some(e.now)
      else None
  }

  lemma StepCompletes(c: Config, s: State, e: Event)
    ensures Step(c, s, e).complete
         == if e.Restart? then None else if s.complete.Some? then s.complete
            else if Opens(c, s, e) then Some(e.now) else None
  {
    hide Aggregate, Gaps, Readiness, NeedsApproval, Members;
  }

  /** In every run the completion time is that of the first event since the last reset that opened the gate. */
  lemma {:induction false} CompletionIsFirstReady(c: Config, start: nat, events: seq<Event>)
    ensures Run(c, start, events).complete == FirstReady(c, start, events)
  {
    if events != [] {
      var init := events[..|events| - 1];
      hide Step, Opens;
      CompletionIsFirstReady(c, start, init);
      StepCompletes(c, Run(c, start, init), events[|events| - 1]);
    }
  }

  // --- Teams of three ---

  /** A node offering communication and sensing with full confidence, with one operator of the given level. */
  function NodeAt(level: int): Member {
    Member("n", [Capability(3, 1.0), Capability(1, 1.0)], Some([level]), false, 60)
  }

  function OfferAt(level: int): Contributor { Contributor("n", 1.0, LevelOf(level)) }

  function TeamAt(level: int): seq<(Member, Option<Role>)> {
    [(NodeAt(level), Some(Leader)), (NodeAt(level), Some(Sensing)), (NodeAt(level), Some(Relay))]
  }

  lemma RankIsInjective(a: Option<Authority>, b: Option<Authority>)
    requires Rank(a) == Rank(b)
    ensures a == b
  {}

  lemma NodeAuthority(level: int)
    ensures AuthorityOf(NodeAt(level)) == LevelOf(level)
  {
    var levels := [LevelOf(level)];
    var node := NodeAt(level);
    assert seq(1, i requires 0 <= i < 1 => LevelOf(node.operators.value[i])) == levels;
    assert levels[..0] == [] && MaxAuthority(levels) == Higher(MaxAuthority([]), LevelOf(level));
    RankIsInjective(MaxAuthority(levels), LevelOf(level));
  }

  lemma NodeOffers(level: int, k: CapabilityType)
    ensures Contributors([NodeAt(level)], k) == if k == Communication || k == Sensor then [OfferAt(level)] else []
  {
    NodeAuthority(level);
    hide AuthorityOf, LevelOf;
    var node, offer := NodeAt(level), OfferAt(level);
    var a, b := Entry(Communication, offer), Entry(Sensor, offer);
    assert MemberEntries(node) == [a, b];
    assert [node][..0] == [] && Entries([node]) == [] + [a, b] == [a, b];
    assert [a, b][..1] == [a] && [a][..0] == [];
    assert OfKind([a], k) == OfKind([], k) + if k == Communication then [offer] else [];
    assert OfKind([a, b], k) == OfKind([a], k) + if k == Sensor then [offer] else [];
  }

  function OffersAt(level: int): seq<Contributor> { [OfferAt(level), OfferAt(level), OfferAt(level)] }

  lemma TeamOffers(level: int, k: CapabilityType)
    ensures Contributors(Members(TeamAt(level)), k) == if k == Communication || k == Sensor then OffersAt(level) else []
  {
    NodeOffers(level, k);
    hide Contributors, NodeAt, OfferAt;
    var node := NodeAt(level);
    assert Members(TeamAt(level)) == [node] + ([node] + [node]);
    ContributorsConcat([node], [node] + [node], k);
    ContributorsConcat([node], [node], k);
  }

  lemma OffersAggregate(level: int)
    ensures Mean(OffersAt(level)) == 1.0 && MaxAuthority(Authorities(OffersAt(level))) == LevelOf(level)
  {
    var cs, offer := OffersAt(level), OfferAt(level);
    assert cs[..2] == [offer, offer] && cs[..2][..1] == [offer] && [offer][..0] == [];
    assert Sum([offer]) == 1.0 && Sum(cs[..2]) == 2.0 && Sum(cs) == 3.0;
    hide LevelOf;
    assert Authorities(cs)[0] == LevelOf(level);
    var a := MaxAuthority(Authorities(cs));
    assert Rank(a) >= Rank(LevelOf(level));
    if a.Some? { assert a in Authorities(cs); }
    RankIsInjective(a, LevelOf(level));
  }

  /** Three contributors with full confidence at an authority. */
  predicate Full(c: Aggregated, k: CapabilityType, a: Option<Authority>) {
    && c.confidence == 1.0 && c.contributorCount == 3 && c.maxAuthority == a
    && c.requiresOversight == NeedsOversight(k, a)
  }

  /** The team offers communication and sensing with full confidence, at the authority of its operators. */
  lemma TeamCapability(level: int, k: CapabilityType)
    ensures var caps := Aggregate(Members(TeamAt(level)));
            && (k in caps <==> k == Communication || k == Sensor)
            && (k in caps ==> Full(caps[k], k, LevelOf(level)))
  {
    TeamOffers(level, k);
    OffersAggregate(level);
    hide Contributors, Aggregate, Mean, MaxAuthority, Authorities, Members, TeamAt, LevelOf;
    var caps := Aggregate(Members(TeamAt(level)));
    assert Aggregates(caps, Members(TeamAt(level)));
    if k in caps {
      assert Ok(caps[k]) == AggregateType(k, OffersAt(level));
    }
  }

  /** Communication and sensing with full confidence at an authority, and nothing else. */
  ghost predicate Plain(caps: Capabilities, a: Option<Authority>) {
    && caps.Keys == {Communication, Sensor}
    && forall k :: k in caps ==> Full(caps[k], k, a)
  }

  lemma TeamIsPlain(level: int)
    ensures Plain(Aggregate(Members(TeamAt(level))), LevelOf(level))
  {
    hide Aggregate, Members, TeamAt, LevelOf, Full;
    var caps := Aggregate(Members(TeamAt(level)));
    assert caps.Keys == {Communication, Sensor} by {
      forall k ensures k in caps <==> k == Communication || k == Sensor { TeamCapability(level, k); }
    }
    forall k | k in caps ensures Full(caps[k], k, LevelOf(level)) { TeamCapability(level, k); }
  }

  lemma PlainReadiness(caps: Capabilities, a: Option<Authority>)
    requires Plain(caps, a) && a.Some?
    ensures Readiness(caps) >= 0.7
  {
    var e := EffectiveConfidence(caps[Communication]);
    assert EffectiveConfidence(caps[Sensor]) == 1.0 && e >= 0.6;
    hide EffectiveConfidence, Plain;
    assert TotalWeight(caps.Keys) == 0.55;
    assert TotalScore(caps, caps.Keys) == 0.25 + e * 0.30;
  }

  lemma PlainPasses(caps: Capabilities, a: Option<Authority>)
    requires Plain(caps, a) && a.Some?
    ensures Gaps(caps, DefaultConfig().required) == [] && Readiness(caps) >= 0.7
    ensures NeedsApproval(caps) <==> a == Some(Observer)
  {
    PlainReadiness(caps, a);
    hide Readiness;
    forall i | 0 <= i < 2 ensures !IsGap(caps, DefaultConfig().required[i]) {}
    assert Communication in caps;
  }

  lemma TeamIsAssembled(level: int, leader: string)
    ensures Assembled(DefaultConfig(), TeamAt(level), Some(leader))
  {}

  /**
   * The default criteria can be met: with any leader this team passes them at every operator level, the unset
   * level 0 included, and only at observer level, 1, does it need human approval.
   */
  lemma TeamPasses(level: int, leader: string)
    requires 0 <= level <= 4
    ensures Passes(DefaultConfig(), TeamAt(level), Some(leader))
    ensures NeedsApproval(Aggregate(Members(TeamAt(level)))) <==> level == 1
  {
    assert LevelOf(level).Some? && (LevelOf(level) == Some(Observer) <==> level == 1);
    TeamIsPlain(level);
    TeamIsAssembled(level, leader);
    hide Aggregate, Members, Plain, Readiness, Gaps, NeedsApproval, Assembled, TeamAt, LevelOf;
    PlainPasses(Aggregate(Members(TeamAt(level))), LevelOf(level));
  }

  /**
   * A team whose operators carry only the unset level is complete with no approval, and nobody
   * behind it ranks higher.
   */
  lemma UnsetLevelCompletes(s: State, leader: string)
    ensures Complete(DefaultConfig(), s, TeamAt(0), Some(leader))
    ensures HumanBacked(Members(TeamAt(0)), Communication) && !BackedBy(Members(TeamAt(0)), Communication, 2)
  {
    TeamPasses(0, leader);
    TeamCapability(0, Communication);
    hide Aggregate, Members, TeamAt, Passes, NeedsApproval, BackedBy;
    AuthorityComesFromMemberIff(Members(TeamAt(0)), Communication, 1);
    AuthorityComesFromMemberIff(Members(TeamAt(0)), Communication, 2);
  }

  // --- Runs the workflow lets through ---

  lemma RunSnoc(c: Config, start: nat, events: seq<Event>, e: Event)
    ensures Run(c, start, events + [e]) == Step(c, Run(c, start, events), e)
  {
    assert (events + [e])[..|events|] == events;
  }

  /** What a check of a passing team does, by whether it needs approval and has it. */
  lemma PassingCheck(c: Config, s: State, team: seq<(Member, Option<Role>)>, leader: Option<string>, now: nat)
    ensures Passes(c, team, leader) ==>
              AfterCheck(c, s, team, leader, now)
              == if NeedsApproval(Aggregate(Members(team))) && !s.approved
                 then s.(status := AwaitingApproval) else Completed(s, now)
  {
    hide Aggregate, Readiness, Gaps, NeedsApproval, Members;
  }

  lemma LeaderlessCheck(c: Config, s: State, team: seq<(Member, Option<Role>)>, now: nat)
    requires |team| >= c.minSize
    ensures AfterCheck(c, s, team, None, now) == s && !Passes(c, team, None)
  {
    hide Aggregate, Readiness, Gaps, NeedsApproval, Members;
  }

  /** A run that leaves the gate open although the last check said no: the complete team loses its leader. */
  lemma GateLeftOpen(start: nat, leader: string)
    ensures var c := DefaultConfig();
            var first := [Check(TeamAt(4), Some(leader), 1)];
            && Run(c, start, first + [Check(TeamAt(4), None, 2)]).status == Ready
            && !Complete(c, Run(c, start, first), TeamAt(4), None)
  {
    var c, team := DefaultConfig(), TeamAt(4);
    var first := Check(team, Some(leader), 1);
    assert [] + [first] == [first];
    TeamPasses(4, leader);
    RunSnoc(c, start, [], first);
    RunSnoc(c, start, [first], Check(team, None, 2));
    hide TeamAt, Passes, AfterCheck, Aggregate, NeedsApproval;
    PassingCheck(c, NewState(start), team, Some(leader), 1);
    assert |team| == 3 by { TeamSize(4); }
    LeaderlessCheck(c, Run(c, start, [first]), team, 2);
  }

  lemma TeamSize(level: int)
    ensures |TeamAt(level)| == 3
  {}

  /** A run in which a cell is approved although the latest check found it without a leader. */
  lemma LeaderlessApproval(start: nat, leader: string)
    ensures var c := DefaultConfig();
            var checks := [Check(TeamAt(1), Some(leader), 1)] + [Check(TeamAt(1), None, 2)];
            Run(c, start, checks + [Approve(3)]).status == Ready && !Passes(c, TeamAt(1), None)
  {
    var c, team := DefaultConfig(), TeamAt(1);
    var first, second := Check(team, Some(leader), 1), Check(team, None, 2);
    assert [] + [first] == [first];
    TeamPasses(1, leader);
    RunSnoc(c, start, [], first);
    RunSnoc(c, start, [first], second);
    RunSnoc(c, start, [first] + [second], Approve(3));
    hide TeamAt, Passes, AfterCheck, Aggregate, NeedsApproval;
    PassingCheck(c, NewState(start), team, Some(leader), 1);
    assert |team| == 3 by { TeamSize(1); }
    LeaderlessCheck(c, Run(c, start, [first]), team, 2);
  }

  /** A run after which every team that passes is complete: the approval given for one team serves all. */
  lemma ApprovalServesEveryTeam(start: nat, leader: string, team: seq<(Member, Option<Role>)>, other: Option<string>)
    ensures var c := DefaultConfig();
            var s := Run(c, start, [Check(TeamAt(1), Some(leader), 1)] + [Approve(2)]);
            Complete(c, s, team, other) <==> Passes(c, team, other)
  {
    var c := DefaultConfig();
    var first := Check(TeamAt(1), Some(leader), 1);
    assert [] + [first] == [first];
    TeamPasses(1, leader);
    RunSnoc(c, start, [], first);
    RunSnoc(c, start, [first], Approve(2));
    hide TeamAt, Passes, AfterCheck, Aggregate, NeedsApproval, Complete, Members;
    PassingCheck(c, NewState(start), TeamAt(1), Some(leader), 1);
    ApprovedCompletes(c, Run(c, start, [first] + [Approve(2)]), team, other);
  }

  lemma ApprovedCompletes(c: Config, s: State, team: seq<(Member, Option<Role>)>, leader: Option<string>)
    requires s.approved
    ensures Complete(c, s, team, leader) <==> Passes(c, team, leader)
  {
    hide Aggregate, Readiness, Gaps, NeedsApproval, Members, Assembled;
  }

  // --- Failures and the start ---

  /** A check that fails names the first criterion missed, with its numbers. */
  lemma FailureReason(c: Config, s: State, team: seq<(Member, Option<Role>)>, leader: Option<string>, now: nat)
    ensures var caps, t := Aggregate(Members(team)), AfterCheck(c, s, team, leader, now);
            t.status != s.status && t.status.Failed? ==>
              match t.status.reason
              case TooFew(size, minSize) => size == |team| < minSize == c.minSize
              case Missing(gaps) => |team| >= c.minSize && forall k :: k in gaps <==> k in c.required && IsGap(caps, k)
              case LowReadiness(score, minScore) => score == Readiness(caps) < minScore == c.minReadiness
              case Rejected(_) => false
  {
    hide Aggregate, Readiness, NeedsApproval, Members, IsGap;
    GapsAre(Aggregate(Members(team)), c.required);
    hide Gaps;
  }

  lemma {:induction false} GapsAre(caps: Capabilities, required: seq<CapabilityType>)
    ensures forall k :: k in Gaps(caps, required) <==> k in required && IsGap(caps, k)
  {
    hide IsGap;
    if required != [] {
      var init := required[..|required| - 1];
      GapsAre(caps, init);
      assert required == init + [required[|required| - 1]];
    }
  }

  /** When formation started: at the last reset, or at the beginning. */
  ghost function StartedAt(start: nat, events: seq<Event>): nat {
    if events == [] then start
    else
      var e := events[|events| - 1];
      if e.Restart? then e.now else StartedAt(start, events[..|events| - 1])
  }

  lemma {:induction false} StartIsLastReset(c: Config, start: nat, events: seq<Event>)
    ensures Run(c, start, events).start == StartedAt(start, events)
  {
    if events != [] {
      hide Aggregate, Gaps, Readiness, NeedsApproval, Members;
      StartIsLastReset(c, start, events[..|events| - 1]);
    }
  }
}
