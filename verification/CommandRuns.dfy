/**
 * What admission keeps true over every run of issuing and unregistering commands,
 * peat-protocol/src/command/coordinator.rs and conflict_resolver.rs.
 */
module CommandRuns {
  import opened Prelude
  import opened StableSort
  import opened Commands

  datatype Event = Issue(command: Command) | Unregister(id: string)

  function Step(active: seq<Command>, e: Event): seq<Command> {
    match e
    case Issue(c) => if Admits(active, c) then active + [c] else active
    case Unregister(id) => Without(active, id)
  }

  /** The log of active commands after the events, from a new coordinator. */
  function Run(events: seq<Event>): seq<Command> {
    if events == [] then [] else Step(Run(events[..|events| - 1]), events[|events| - 1])
  }

  ghost predicate FreshId(active: seq<Command>, c: Command) {
    forall x :: x in active ==> x.id != c.id
  }

  /** What a command needs over an active one with a shared target: a larger key, under a policy that ranks. */
  predicate Beats(p: Policy, c: Command, x: Command) { Keyed(p) && Key(p, x) < Key(p, c) }

  ghost predicate BeatsSharers(active: seq<Command>, c: Command) {
    forall x :: x in active && Shares(x, c) ==> Beats(PolicyOf(c.policy), c, x)
  }

  /**
   * The winner is not the new command but carries its id: under a ranking policy the first sharer with
   * the largest key, when c does not exceed it, and under the merge policy the first sharer.
   */
  ghost predicate WinsByBorrowedId(sharers: seq<Command>, c: Command) {
    var p := PolicyOf(c.policy);
    && sharers != []
    && ((Keyed(p) && exists i: nat :: HoldsId(sharers, c, p, i)) || (p == MergeCompatible && sharers[0].id == c.id))
  }

  /** Sharer i has the largest key, not below that of c, is the first such, and carries the id of c. */
  ghost predicate HoldsId(sharers: seq<Command>, c: Command, p: Policy, i: nat) {
    FirstMaximal(sharers, i, p) && sharers[i].id == c.id && Key(p, c) <= Key(p, sharers[i])
  }

  lemma AppendMaximal(cs: seq<Command>, c: Command, p: Policy, i: nat)
    requires FirstMaximal(cs + [c], i, p) && Keyed(p)
    ensures i <= |cs| && (i == |cs| <==> forall x :: x in cs ==> Beats(p, c, x))
    ensures i < |cs| ==> FirstMaximal(cs, i, p) && Key(p, c) <= Key(p, cs[i])
  {
    hide Key;
    var all := cs + [c];
    assert all[|cs|] == c;
    if i == |cs| {
      forall x | x in cs ensures Beats(p, c, x) {
        var j :| 0 <= j < |cs| && cs[j] == x;
        assert all[j] == x;
      }
    } else {
      assert all[i] in cs && !Beats(p, c, all[i]);
      forall j | 0 <= j < |cs| ensures cs[j] == all[j] {}
    }
  }

  lemma MaximalIsUnique(cs: seq<Command>, p: Policy, i: nat, j: nat)
    requires FirstMaximal(cs, i, p) && FirstMaximal(cs, j, p)
    ensures i == j
  {
    var k, l := Key(p, cs[i]), Key(p, cs[j]);
    hide Key;
  }

  lemma HolderIsNotBeaten(cs: seq<Command>, c: Command, p: Policy, j: nat)
    requires HoldsId(cs, c, p, j)
    ensures j < |cs| && cs[j] in cs && !Beats(p, c, cs[j])
  {}

  lemma KeyedAdmission(cs: seq<Command>, c: Command, p: Policy)
    requires cs != [] && Keyed(p) && p == PolicyOf(c.policy)
    ensures var r := Resolve(cs + [c], p);
            && r.Ok?
            && (r.value.id == c.id <==> (forall x :: x in cs ==> Beats(p, c, x)) || WinsByBorrowedId(cs, c))
  {
    hide Key, Sort, PolicyOf, FirstMaximal, Resolve;
    var all := cs + [c];
    var i := ResolvePicksFirstMaximal(all, p);
    AppendMaximal(cs, c, p, i);
    if i < |cs| && cs[i].id == c.id { assert HoldsId(cs, c, p, i); }
    if WinsByBorrowedId(cs, c) {
      var j: nat :| HoldsId(cs, c, p, j);
      HolderIsNotBeaten(cs, c, p, j);
      MaximalIsUnique(cs, p, i, j);
    }
  }

  lemma BorrowerIsBeaten(active: seq<Command>, c: Command)
    requires WinsByBorrowedId(Conflicting(active, TargetIds(c)), c)
    ensures !BeatsSharers(active, c)
  {
    ConflictsAreSharers(active, c);
    var p, cs := PolicyOf(c.policy), Conflicting(active, TargetIds(c));
    hide Conflicting, Key, PolicyOf, Shares, FirstMaximal, HoldsId;
    if Keyed(p) {
      var i: nat :| HoldsId(cs, c, p, i);
      HolderIsNotBeaten(cs, c, p, i);
    } else {
      assert cs[0] in cs && !Beats(p, c, cs[0]);
    }
  }

  /** Under a ranking policy the first of the sharers and c with the largest key decides, by its id alone. */
  lemma WinnersIdDecides(active: seq<Command>, c: Command) returns (i: nat)
    requires Keyed(PolicyOf(c.policy))
    ensures var all := Conflicting(active, TargetIds(c)) + [c];
            FirstMaximal(all, i, PolicyOf(c.policy)) && (Admits(active, c) <==> all[i].id == c.id)
  {
    hide Conflicting, Key, Sort;
    var cs := Conflicting(active, TargetIds(c));
    i := ResolvePicksFirstMaximal(cs + [c], PolicyOf(c.policy));
    if cs == [] { assert (cs + [c])[i] == c; }
  }

  /**
   * Exactly which commands are admitted, for any ids: those that beat every active command they share a
   * target with, and those that win because the sharer that would win carries their own id.
   */
  lemma AdmitsIff(active: seq<Command>, c: Command)
    ensures Admits(active, c)
       <==> BeatsSharers(active, c) || WinsByBorrowedId(Conflicting(active, TargetIds(c)), c)
    ensures Admits(active, c) && !BeatsSharers(active, c) <==> WinsByBorrowedId(Conflicting(active, TargetIds(c)), c)
  {
    if WinsByBorrowedId(Conflicting(active, TargetIds(c)), c) { BorrowerIsBeaten(active, c); }
    ConflictsAreSharers(active, c);
    var p := PolicyOf(c.policy);
    var cs := Conflicting(active, TargetIds(c));
    hide Conflicting, Key, Sort, Shares, PolicyOf, FirstMaximal;
    if cs != [] {
      assert cs[0] in cs && (cs + [c])[0] == cs[0];
      if Keyed(p) {
        KeyedAdmission(cs, c, p);
      }
    }
  }

  /** With an id no active command has, only beating every sharer counts. */
  lemma FreshIdCannotBorrow(active: seq<Command>, c: Command)
    requires FreshId(active, c)
    ensures !WinsByBorrowedId(Conflicting(active, TargetIds(c)), c)
    ensures Admits(active, c) <==> BeatsSharers(active, c)
  {
    AdmitsIff(active, c);
    ConflictsAreSharers(active, c);
    var cs := Conflicting(active, TargetIds(c));
    forall i | 0 <= i < |cs| ensures cs[i].id != c.id { assert cs[i] in cs; }
    hide Conflicting, Key, Admits, BeatsSharers, Shares, PolicyOf;
  }

  // --- Admission by the commands' own fields ---

  predicate FromZone(c: Command) { "zone-" <= c.originator }

  predicate FromGroup(c: Command) { "cohort-" <= c.originator || "cell-" <= c.originator }

  /** Policy 3: a higher tier overrides a lower one, and nothing overrides its own tier. */
  lemma AdmittedByAuthority(active: seq<Command>, c: Command)
    requires FreshId(active, c) && c.policy == 3
    ensures FromZone(c) ==>
              (Admits(active, c) <==> forall x :: x in active && Shares(x, c) ==> !FromZone(x))
    ensures !FromZone(c) && FromGroup(c) ==>
              (Admits(active, c) <==> forall x :: x in active && Shares(x, c) ==> !FromZone(x) && !FromGroup(x))
    ensures !FromZone(c) && !FromGroup(c) ==>
              (Admits(active, c) <==> forall x :: x in active ==> !Shares(x, c))
  {
    hide Admits, Shares, Conflicting;
    FreshIdCannotBorrow(active, c);
    forall x ensures Beats(PolicyOf(c.policy), c, x)
      <==> if FromZone(c) then !FromZone(x) else if FromGroup(c) then !FromZone(x) && !FromGroup(x) else false
    {}
  }

  /** Policy 1: a command is admitted exactly if it was issued later than every sharer, a missing time being 0. */
  lemma AdmittedByTime(active: seq<Command>, c: Command)
    requires FreshId(active, c) && c.policy == 1
    ensures Admits(active, c)
       <==> forall x :: x in active && Shares(x, c) ==>
              (if x.issuedAt.Some? then x.issuedAt.value else 0) < (if c.issuedAt.Some? then c.issuedAt.value else 0)
  {
    hide Admits, Shares, Conflicting;
    FreshIdCannotBorrow(active, c);
  }

  /**
   * Policy 2, and any number that names no policy: a command is admitted exactly if its priority is above that
   * of every sharer, a priority outside 0 to 4 counting as 1.
   */
  lemma AdmittedByPriority(active: seq<Command>, c: Command)
    requires FreshId(active, c) && (c.policy == 2 || c.policy < 0 || c.policy > 5)
    ensures Admits(active, c)
       <==> forall x :: x in active && Shares(x, c) ==>
              (if 0 <= x.priority <= 4 then x.priority else 1) < (if 0 <= c.priority <= 4 then c.priority else 1)
  {
    hide Admits, Shares, Conflicting;
    FreshIdCannotBorrow(active, c);
  }

  /** Policies 0, 4 and 5: a command is admitted exactly if it shares a target with no active one. */
  lemma AdmittedAlone(active: seq<Command>, c: Command)
    requires FreshId(active, c) && (c.policy == 0 || c.policy == 4 || c.policy == 5)
    ensures Admits(active, c) <==> forall x :: x in active ==> !Shares(x, c)
  {
    hide Admits, Shares, Conflicting;
    FreshIdCannotBorrow(active, c);
  }

  // --- The invariant ---

  /** Each active command beats every earlier one it shares a target with. */
  ghost predicate Chain(active: seq<Command>, p: Policy) {
    active == [] ||
      var init, c := active[..|active| - 1], active[|active| - 1];
      Chain(init, p) && forall x :: x in init && Shares(x, c) ==> Beats(p, c, x)
  }

  /** No issued command wins by a borrowed id, and all use the policy p. Fresh ids are enough for the first. */
  ghost predicate Disciplined(events: seq<Event>, p: Policy) {
    forall i :: 0 <= i < |events| && events[i].Issue? ==> Fair(Run(events[..i]), events[i].command, p)
  }

  ghost predicate Fair(active: seq<Command>, c: Command, p: Policy) {
    PolicyOf(c.policy) == p && !WinsByBorrowedId(Conflicting(active, TargetIds(c)), c)
  }

  lemma {:induction false} WithoutAre(cs: seq<Command>, id: string)
    ensures forall x :: x in Without(cs, id) <==> x in cs && x.id != id
  {
    if cs != [] {
      WithoutAre(cs[..|cs| - 1], id);
      assert cs == cs[..|cs| - 1] + [cs[|cs| - 1]];
    }
  }

  lemma {:induction false} ChainWithout(active: seq<Command>, p: Policy, id: string)
    requires Chain(active, p)
    ensures Chain(Without(active, id), p)
  {
    if active != [] {
      var init, c := active[..|active| - 1], active[|active| - 1];
      ChainWithout(init, p, id);
      WithoutAre(init, id);
      var rest := Without(init, id);
      if c.id != id {
        assert (rest + [c])[..|rest|] == rest;
      } else {
        assert rest + [] == rest;
      }
    }
  }

  /** Issuing a command keeps the chain exactly when the command does not win by a borrowed id. */
  lemma IssueKeepsChainIff(active: seq<Command>, p: Policy, c: Command)
    requires Chain(active, p) && PolicyOf(c.policy) == p
    ensures Chain(Step(active, Issue(c)), p) <==> !WinsByBorrowedId(Conflicting(active, TargetIds(c)), c)
  {
    AdmitsIff(active, c);
    assert (active + [c])[..|active|] == active;
    hide WinsByBorrowedId, Admits;
  }

  lemma StepChain(active: seq<Command>, p: Policy, e: Event)
    requires Chain(active, p) && (e.Issue? ==> Fair(active, e.command, p))
    ensures Chain(Step(active, e), p)
  {
    match e
    case Issue(c) => IssueKeepsChainIff(active, p, c);
    case Unregister(id) => ChainWithout(active, p, id);
  }

  lemma {:induction false} RunChain(events: seq<Event>, p: Policy)
    requires Disciplined(events, p)
    ensures Chain(Run(events), p)
  {
    if events != [] {
      var init := events[..|events| - 1];
      forall i | 0 <= i < |init| ensures init[..i] == events[..i] {}
      RunChain(init, p);
      StepChain(Run(init), p, events[|events| - 1]);
    }
  }

  // --- What the invariant says of one target's list ---

  ghost predicate NamesOnce(c: Command, t: string) {
    forall i, j :: 0 <= i < j < |TargetIds(c)| ==> TargetIds(c)[i] != t || TargetIds(c)[j] != t
  }

  ghost predicate AllNameOnce(active: seq<Command>, t: string) {
    forall i :: 0 <= i < |active| ==> NamesOnce(active[i], t)
  }

  /** Each entry beats every entry before it. */
  ghost predicate Increasing(list: seq<Command>, p: Policy) {
    forall i, j :: 0 <= i < j < |list| ==> Beats(p, list[j], list[i])
  }

  lemma {:induction false} MentionsOnce(c: Command, targets: seq<string>, t: string)
    ensures |Mentions(c, targets, t)| <= 1
       <==> forall i, j :: 0 <= i < j < |targets| ==> targets[i] != t || targets[j] != t
  {
    if targets != [] {
      var init := targets[..|targets| - 1];
      MentionsOnce(c, init, t);
      MentionsAre(c, init, t);
      if targets[|targets| - 1] == t && t in init {
        var i :| 0 <= i < |init| && init[i] == t;
        assert targets[i] == t && targets[|targets| - 1] == t;
      }
      if |Mentions(c, init, t)| > 1 {
        var i, j :| 0 <= i < j < |init| && init[i] == t && init[j] == t;
        assert targets[i] == t && targets[j] == t;
      }
    }
  }

  /** A target's list is strictly increasing in the policy's key exactly when no active command names it twice. */
  lemma {:induction false} ListIncreasingIff(active: seq<Command>, p: Policy, t: string)
    requires Chain(active, p)
    ensures Increasing(Listed(active, t), p) <==> AllNameOnce(active, t)
  {
    if active != [] {
      var init, c := active[..|active| - 1], active[|active| - 1];
      ListIncreasingIff(init, p, t);
      assert AllNameOnce(active, t) <==> AllNameOnce(init, t) && NamesOnce(c, t);
      ListedAre(init, t);
      MentionsAre(c, TargetIds(c), t);
      MentionsOnce(c, TargetIds(c), t);
      hide Listed, Mentions, Chain, AllNameOnce;
      var before, own := Listed(init, t), Mentions(c, TargetIds(c), t);
      forall x | x in before && c in own ensures Beats(p, c, x) { assert Shares(x, c); }
      IncreasingConcat(before, own, c, p);
      assert Listed(active, t) == before + own by { ListedSnoc(active, t); }
    }
  }

  lemma ListedSnoc(active: seq<Command>, t: string)
    requires active != []
    ensures var c := active[|active| - 1];
            Listed(active, t) == Listed(active[..|active| - 1], t) + Mentions(c, TargetIds(c), t)
  {}

  lemma IncreasingConcat(before: seq<Command>, own: seq<Command>, c: Command, p: Policy)
    requires forall x :: x in own ==> x == c
    requires forall x :: x in before && c in own ==> Beats(p, c, x)
    ensures Increasing(before + own, p) <==> Increasing(before, p) && |own| <= 1
  {
    var all := before + own;
    if |own| > 1 {
      assert own[0] in own && own[1] in own;
      assert !Beats(p, all[|before| + 1], all[|before|]);
    } else if Increasing(all, p) {
      forall i, j | 0 <= i < j < |before| ensures Beats(p, before[j], before[i]) {
        assert all[i] == before[i] && all[j] == before[j];
      }
    }
    if Increasing(before, p) && |own| <= 1 {
      forall i, j | 0 <= i < j < |all| ensures Beats(p, all[j], all[i]) {
        if j == |before| { assert all[j] == own[0] && own[0] in own && all[i] in before; }
      }
    }
  }

  lemma {:induction false} IncreasingIsShort(list: seq<Command>, p: Policy, lo: nat, hi: nat)
    requires Increasing(list, p) && lo <= hi + 1
    requires forall i :: 0 <= i < |list| ==> lo <= Key(p, list[i]) <= hi
    ensures |list| <= hi + 1 - lo
    ensures forall i :: 0 <= i < |list| ==> Key(p, list[i]) >= lo + i
  {
    hide Key;
    if list != [] {
      var n := |list| - 1;
      var init := list[..n];
      IncreasingIsShort(init, p, lo, hi);
      if n > 0 { assert Beats(p, list[n], list[n - 1]) && list[n - 1] == init[n - 1]; }
      forall i | 0 <= i < n ensures Key(p, list[i]) >= lo + i { assert list[i] == init[i]; }
    }
  }

  lemma NothingBeats(list: seq<Command>, p: Policy)
    requires !Keyed(p) && |list| > 1
    ensures !Increasing(list, p)
  {
    assert !Beats(p, list[1], list[0]);
  }

  /**
   * In every run with one policy p and no borrowed ids, for every target no active command names twice:
   * the list is strictly increasing in the key of a ranking policy, so it has at most five entries
   * under priority and three under authority; under any other policy it has at most one.
   */
  lemma TargetListsStaySmall(events: seq<Event>, p: Policy, t: string)
    requires Disciplined(events, p) && AllNameOnce(Run(events), t)
    ensures var list := Listed(Run(events), t);
            && Increasing(list, p)
            && (p == HighestPriorityWins ==> |list| <= 5)
            && (p == HighestAuthorityWins ==> |list| <= 3)
            && (!Keyed(p) ==> |list| <= 1)
  {
    RunChain(events, p);
    ListIncreasingIff(Run(events), p, t);
    var list := Listed(Run(events), t);
    hide Run, Listed, Disciplined, AllNameOnce;
    if p == HighestPriorityWins { IncreasingIsShort(list, p, 0, 4); }
    if p == HighestAuthorityWins { IncreasingIsShort(list, p, 1, 3); }
    if !Keyed(p) && |list| > 1 { NothingBeats(list, p); }
  }

  /** A target an admitted command names is left with that one entry exactly when it had none and is named once. */
  lemma SoleEntryIff(active: seq<Command>, c: Command, t: string)
    requires Admits(active, c) && t in TargetIds(c)
    ensures Listed(Step(active, Issue(c)), t) == [c] <==> Listed(active, t) == [] && NamesOnce(c, t)
    ensures |Listed(Step(active, Issue(c)), t)| == 1 <==> Listed(active, t) == [] && NamesOnce(c, t)
  {
    hide Admits;
    var before, own := Listed(active, t), Mentions(c, TargetIds(c), t);
    assert (active + [c])[..|active|] == active;
    assert Listed(active + [c], t) == before + own;
    MentionsAre(c, TargetIds(c), t);
    MentionsOnce(c, TargetIds(c), t);
    assert own[0] in own;
  }

  /**
   * Winning does not unregister the loser. Issue any two commands with different ids for one target,
   * from nothing and under one ranking policy, the second with the larger key: both stay active on it.
   */
  lemma TwoCommandsOneTarget(low: Command, high: Command, p: Policy, t: string)
    requires low.targets == Some([t]) && high.targets == Some([t]) && low.id != high.id
    requires PolicyOf(low.policy) == p && PolicyOf(high.policy) == p && Beats(p, high, low)
    ensures var events := [Issue(low)] + [Issue(high)];
            Disciplined(events, p) && Listed(Run(events), t) == [low] + [high]
  {
    var first, events := [Issue(low)], [Issue(low)] + [Issue(high)];
    assert events[..1] == first && first[..0] == [] && events[..0] == [];
    IssueFresh([], low, p);
    assert BeatsSharers([], low);
    IssueFresh([low], high, p);
    assert BeatsSharers([low], high);
    hide BeatsSharers, Beats, Step, Fair, PolicyOf;
    assert Run(first) == [low] && Run(events) == [low] + [high];
    assert Disciplined(events, p);
    hide Run, Disciplined;
    ListedOne(low, [], t);
    ListedOne(high, [low], t);
    assert [] + [low] == [low];
  }

  /** Issuing a command with a fresh id, when it beats its sharers. */
  lemma IssueFresh(active: seq<Command>, c: Command, p: Policy)
    requires FreshId(active, c) && PolicyOf(c.policy) == p
    ensures Fair(active, c, p) && (BeatsSharers(active, c) ==> Step(active, Issue(c)) == active + [c])
  {
    hide BeatsSharers, Admits, WinsByBorrowedId, PolicyOf, Conflicting;
    FreshIdCannotBorrow(active, c);
  }

  /** Reusing an active id defeats admission: the old holder wins and the new, lower command is let in. */
  lemma ReusedIdIsAdmitted(t: string)
    ensures var high := Command("x", Some([t]), "n", 4, 2, None);
            var low := high.(priority := 1);
            var events := [Issue(high), Issue(low)];
            Run(events) == [high, low] && !Increasing(Listed(Run(events), t), HighestPriorityWins)
  {
    var high := Command("x", Some([t]), "n", 4, 2, None);
    var low := high.(priority := 1);
    var events := [Issue(high), Issue(low)];
    assert events[..1] == [Issue(high)] && events[..1][..0] == [];
    ConflictsAreSharers([], high);
    assert Run(events[..1]) == [high];
    ListedOne(high, [], t);
    assert [t][..0] == [];
    assert Conflicting([high], [t]) == [high];
    var all := [high, low];
    assert [high] + [low] == all;
    var i := ResolvePicksFirstMaximal(all, HighestPriorityWins);
    assert Key(HighestPriorityWins, all[0]) == 4 && Key(HighestPriorityWins, all[1]) == 1;
    assert Admits([high], low);
    assert Run(events) == all;
    ListedOne(low, [high], t);
    assert Listed(all, t) == all;
    assert !Beats(HighestPriorityWins, all[1], all[0]);
  }

  lemma ListedOne(c: Command, before: seq<Command>, t: string)
    requires c.targets == Some([t])
    ensures Listed(before + [c], t) == Listed(before, t) + [c]
  {
    assert (before + [c])[..|before|] == before;
    assert [t][..0] == [];
    assert Mentions(c, [t], t) == Mentions(c, [], t) + [c];
  }

  /** Two commands share a target exactly if both name one; a command without targets conflicts with nothing. */
  lemma SharesIff(x: Command, c: Command)
    ensures Shares(x, c)
       <==> x.targets.Some? && c.targets.Some? && exists t :: t in x.targets.value && t in c.targets.value
    ensures c.targets.None? ==> !Shares(x, c) && !Shares(c, x)
  {
    if x.targets.Some? && c.targets.Some? && exists t :: t in x.targets.value && t in c.targets.value {
      var t :| t in x.targets.value && t in c.targets.value;
      assert t in TargetIds(x) && t in TargetIds(c);
    }
  }

  lemma UntargetedIsAdmitted(active: seq<Command>, c: Command, t: string)
    requires c.targets.None?
    ensures Admits(active, c) && Listed(Step(active, Issue(c)), t) == Listed(active, t)
  {
    assert (active + [c])[..|active|] == active;
    assert Conflicting(active, []) == [];
  }
}
