/**
 * Command admission, peat-protocol/src/command/conflict_resolver.rs and the issue path of
 * peat-protocol/src/command/coordinator.rs.
 *
 * The resolver indexes active commands by target. The ghost field `active` is the plain log the
 * index stands for: the commands registered and not since unregistered, in order. Issuing a command
 * is one atomic step; whether routing it succeeds is a parameter.
 */
module Commands {
  import opened Prelude
  import opened StableSort

  datatype Command = Command(
    id: string,
    targets: Option<seq<string>>,
    originator: string,
    priority: int,
    policy: int,
    issuedAt: Option<nat>)

  datatype Policy = UnspecifiedPolicy | LastWriteWins | HighestPriorityWins | HighestAuthorityWins
    | MergeCompatible | RejectConflict

  datatype CommandError = InvalidInput | ConflictDetected | RejectedByPolicy | RoutingFailed

  datatype ConflictResult = NoConflict | Conflict(commands: seq<Command>)

  function PolicyOf(n: int): Policy {
    if n == 0 then UnspecifiedPolicy else if n == 1 then LastWriteWins else if n == 2 then HighestPriorityWins
    else if n == 3 then HighestAuthorityWins else if n == 4 then MergeCompatible else if n == 5 then RejectConflict
    else HighestPriorityWins
  }

  function TargetIds(c: Command): seq<string> {
    if c.targets.None? then [] else c.targets.value
  }

  // --- Policies ---

  /** The policies that rank commands by a key. */
  predicate Keyed(p: Policy) { p == LastWriteWins || p == HighestPriorityWins || p == HighestAuthorityWins }

  /** A priority outside the known range counts as routine. */
  function PriorityOf(n: int): nat { if 0 <= n <= 4 then n else 1 }

  function AuthorityLevel(originator: string): nat {
    if "zone-" <= originator then 3
    else if "cohort-" <= originator || "cell-" <= originator then 2
    else 1
  }

  function Key(p: Policy, c: Command): nat {
    if p == LastWriteWins then (if c.issuedAt.None? then 0 else c.issuedAt.value)
    else if p == HighestPriorityWins then PriorityOf(c.priority)
    else AuthorityLevel(c.originator)
  }

  function Descending(p: Policy): (Command, Command) -> bool {
    (a, b) => Key(p, a) >= Key(p, b)
  }

  function Resolve(commands: seq<Command>, p: Policy): Result<Command, CommandError> {
    if commands == [] then Err(InvalidInput)
    else if |commands| == 1 then Ok(commands[0])
    else if Keyed(p) then Ok(Sort(commands, Descending(p))[0])
    else if p == MergeCompatible then Ok(commands[0])
    else if p == RejectConflict then Err(ConflictDetected)
    else Err(InvalidInput)
  }

  /** commands[i] has the largest key, and is the first that does. */
  ghost predicate FirstMaximal(commands: seq<Command>, i: nat, p: Policy) {
    && i < |commands|
    && (forall j :: 0 <= j < |commands| ==> Key(p, commands[j]) <= Key(p, commands[i]))
    && (forall j :: 0 <= j < i ==> Key(p, commands[j]) < Key(p, commands[i]))
  }

  /** A ranking policy picks the earliest of the commands with the largest key. */
  lemma ResolvePicksFirstMaximal(commands: seq<Command>, p: Policy) returns (i: nat)
    requires commands != [] && Keyed(p)
    ensures FirstMaximal(commands, i, p) && Resolve(commands, p) == Ok(commands[i])
  {
    if |commands| == 1 {
      i := 0;
    } else {
      hide Key, Sort;
      i := SortHead(commands, Descending(p));
    }
  }

  // --- The log behind the index ---

  /** c once for each time it names t. */
  function Mentions(c: Command, targets: seq<string>, t: string): seq<Command> {
    if targets == [] then []
    else Mentions(c, targets[..|targets| - 1], t) + if targets[|targets| - 1] == t then [c] else []
  }

  function Listed(active: seq<Command>, t: string): seq<Command> {
    if active == [] then []
    else
      var c := active[|active| - 1];
      Listed(active[..|active| - 1], t) + Mentions(c, TargetIds(c), t)
  }

  function Conflicting(active: seq<Command>, targets: seq<string>): seq<Command> {
    if targets == [] then []
    else Conflicting(active, targets[..|targets| - 1]) + Listed(active, targets[|targets| - 1])
  }

  function Without(cs: seq<Command>, id: string): seq<Command> {
    if cs == [] then []
    else
      var c := cs[|cs| - 1];
      Without(cs[..|cs| - 1], id) + if c.id != id then [c] else []
  }

  predicate Shares(x: Command, c: Command) {
    exists t :: t in TargetIds(x) && t in TargetIds(c)
  }

  lemma {:induction false} MentionsAre(c: Command, targets: seq<string>, t: string)
    ensures Mentions(c, targets, t) != [] <==> t in targets
    ensures forall x :: x in Mentions(c, targets, t) <==> x == c && t in targets
  {
    if targets != [] {
      MentionsAre(c, targets[..|targets| - 1], t);
      assert targets == targets[..|targets| - 1] + [targets[|targets| - 1]];
    }
  }

  lemma {:induction false} ListedAre(active: seq<Command>, t: string)
    ensures forall x :: x in Listed(active, t) <==> x in active && t in TargetIds(x)
  {
    if active != [] {
      var init, c := active[..|active| - 1], active[|active| - 1];
      ListedAre(init, t);
      MentionsAre(c, TargetIds(c), t);
      assert active == init + [c];
    }
  }

  lemma {:induction false} ConflictingAre(active: seq<Command>, targets: seq<string>)
    ensures forall x :: x in Conflicting(active, targets) <==>
              x in active && exists t :: t in targets && t in TargetIds(x)
  {
    if targets != [] {
      var init, t := targets[..|targets| - 1], targets[|targets| - 1];
      ConflictingAre(active, init);
      ListedAre(active, t);
      assert targets == init + [t];
    }
  }

  /** A conflict is reported exactly when an active command shares a target, and lists exactly those commands. */
  lemma ConflictsAreSharers(active: seq<Command>, c: Command)
    ensures forall x :: x in Conflicting(active, TargetIds(c)) <==> x in active && Shares(x, c)
    ensures Conflicting(active, TargetIds(c)) == [] <==> forall x :: x in active ==> !Shares(x, c)
  {
    ConflictingAre(active, TargetIds(c));
    var cs := Conflicting(active, TargetIds(c));
    forall x | x in active ensures x in cs <==> Shares(x, c) {}
    if cs != [] { assert cs[0] in cs; }
  }

  /** The index agrees with the log, and holds no empty list. */
  ghost predicate Refines(index: map<string, seq<Command>>, active: seq<Command>) {
    forall t :: (t in index <==> Listed(active, t) != []) && (t in index ==> index[t] == Listed(active, t))
  }

  /** The index while the targets of c are being added to it. */
  ghost predicate PartlyAdded(index: map<string, seq<Command>>, active: seq<Command>, c: Command,
          targets: seq<string>) {
    forall t :: (t in index <==> Listed(active, t) + Mentions(c, targets, t) != [])
             && (t in index ==> index[t] == Listed(active, t) + Mentions(c, targets, t))
  }

  function Pushed(index: map<string, seq<Command>>, t: string, c: Command): map<string, seq<Command>> {
    index[t := (if t in index then index[t] else []) + [c]]
  }

  lemma PushMention(index: map<string, seq<Command>>, active: seq<Command>, c: Command, targets: seq<string>, i: nat)
    requires i < |targets| && PartlyAdded(index, active, c, targets[..i])
    ensures PartlyAdded(Pushed(index, targets[i], c), active, c, targets[..i + 1])
  {
    hide Listed;
    assert targets[..i + 1][..i] == targets[..i];
    forall t
      ensures Mentions(c, targets[..i + 1], t) == Mentions(c, targets[..i], t) + if targets[i] == t then [c] else []
    {}
  }

  lemma AllAdded(index: map<string, seq<Command>>, active: seq<Command>, c: Command)
    requires PartlyAdded(index, active, c, TargetIds(c))
    ensures Refines(index, active + [c])
  {
    assert (active + [c])[..|active|] == active;
  }

  lemma {:induction false} WithoutConcat(a: seq<Command>, b: seq<Command>, id: string)
    ensures Without(a + b, id) == Without(a, id) + Without(b, id)
    decreases |b|
  {
    if b == [] {
      assert a + b == a;
    } else {
      WithoutConcat(a, b[..|b| - 1], id);
      assert (a + b)[..|a + b| - 1] == a + b[..|b| - 1];
    }
  }

  lemma WithoutOne(c: Command, id: string)
    ensures Without([c], id) == if c.id != id then [c] else []
  {
    assert [c][..0] == [];
  }

  lemma {:induction false} MentionsWithout(c: Command, targets: seq<string>, t: string, id: string)
    ensures Without(Mentions(c, targets, t), id) == if c.id != id then Mentions(c, targets, t) else []
  {
    if targets != [] {
      var init := targets[..|targets| - 1];
      MentionsWithout(c, init, t, id);
      WithoutConcat(Mentions(c, init, t), [c], id);
      WithoutOne(c, id);
      assert Mentions(c, init, t) + [] == Mentions(c, init, t);
    }
  }

  /** Dropping a command from a target's list is the list of the log without that command. */
  lemma {:induction false} ListedWithout(active: seq<Command>, t: string, id: string)
    ensures Without(Listed(active, t), id) == Listed(Without(active, id), t)
  {
    if active != [] {
      var init, c := active[..|active| - 1], active[|active| - 1];
      ListedWithout(init, t, id);
      WithoutConcat(Listed(init, t), Mentions(c, TargetIds(c), t), id);
      MentionsWithout(c, TargetIds(c), t, id);
      var rest := Without(init, id);
      hide Mentions;
      if c.id != id {
        assert (rest + [c])[..|rest|] == rest;
      } else {
        assert rest + [] == rest && Listed(rest, t) + [] == Listed(rest, t);
      }
    }
  }

  class ConflictResolver {
    var index: map<string, seq<Command>>
    ghost var active: seq<Command>

    ghost predicate Valid()
      reads this
    {
      Refines(index, active)
    }

    constructor ()
      ensures Valid() && active == [] && index == map[]
    {
      index, active := map[], [];
    }

    method CheckConflict(c: Command) returns (r: ConflictResult)
      requires Valid()
      ensures r == var cs := Conflicting(active, TargetIds(c)); if cs == [] then NoConflict else Conflict(cs)
    {
      var targets := TargetIds(c);
      var conflicting := [];
      for i := 0 to |targets|
        invariant conflicting == Conflicting(active, targets[..i])
      {
        var t := targets[i];
        assert targets[..i + 1][..i] == targets[..i];
        if t in index {
          conflicting := conflicting + index[t];
        }
      }
      assert targets[..|targets|] == targets;
      if conflicting == [] {
        return NoConflict;
      }
      return Conflict(conflicting);
    }

    method RegisterCommand(c: Command)
      requires Valid()
      modifies this
      ensures Valid() && active == old(active) + [c]
    {
      var targets := TargetIds(c);
      hide Listed;
      for i := 0 to |targets|
        modifies this`index
        invariant PartlyAdded(index, active, c, targets[..i])
      {
        PushMention(index, active, c, targets, i);
        index := Pushed(index, targets[i], c);
      }
      assert targets[..|targets|] == targets;
      AllAdded(index, active, c);
      active := active + [c];
    }

    method UnregisterCommand(id: string)
      requires Valid()
      modifies this
      ensures Valid() && active == Without(old(active), id)
    {
      hide Listed, Without;
      var todo := index.Keys;
      while todo != {}
        modifies this`index
        invariant todo <= index.Keys == old(index).Keys
        invariant forall t :: t in index ==> index[t] == if t in todo then old(index)[t] else Without(old(index)[t], id)
      {
        var t :| t in todo;
        index := index[t := Without(index[t], id)];
        todo := todo - {t};
      }
      index := map t | t in index && index[t] != [] :: index[t];
      active := Without(active, id);
      forall t ensures (t in index <==> Listed(active, t) != []) && (t in index ==> index[t] == Listed(active, t)) {
        ListedWithout(old(active), t, id);
        NothingWithout(id);
      }
    }
  }

  lemma NothingWithout(id: string)
    ensures Without([], id) == []
  {}

  // --- Issuing ---

  /** status state 1 is pending. */
  datatype Status = Status(id: string, state: int, lastUpdated: nat)

  predicate Admits(active: seq<Command>, c: Command) {
    var cs := Conflicting(active, TargetIds(c));
    cs == [] ||
      var r := Resolve(cs + [c], PolicyOf(c.policy));
      r.Ok? && r.value.id == c.id
  }

  class CommandCoordinator {
    const resolver: ConflictResolver
    var activeCommands: map<string, Command>
    var commandStatus: map<string, Status>

    constructor ()
      ensures fresh(resolver) && resolver.Valid() && resolver.active == [] && activeCommands == map[]
          && commandStatus == map[]
    {
      resolver := new ConflictResolver();
      activeCommands, commandStatus := map[], map[];
    }

    /** A command that loses its conflict changes no map. An admitted one stays registered even if routing fails. */
    method IssueCommand(c: Command, now: nat, routed: bool) returns (r: Result<(), CommandError>)
      requires resolver.Valid()
      modifies this, resolver
      ensures resolver.Valid()
      ensures Admits(old(resolver.active), c) ==>
                && resolver.active == old(resolver.active) + [c]
                && activeCommands == old(activeCommands)[c.id := c]
                && commandStatus == old(commandStatus)[c.id := Status(c.id, 1, now)]
                && r == if routed then Ok(()) else Err(RoutingFailed)
      ensures !Admits(old(resolver.active), c) ==>
                && resolver.active == old(resolver.active) && resolver.index == old(resolver.index)
                && activeCommands == old(activeCommands) && commandStatus == old(commandStatus)
                && r == Err(if c.policy == 5 then ConflictDetected
                            else if c.policy == 0 then InvalidInput else RejectedByPolicy)
    {
      hide Conflicting, Refines, Key, Sort;
      var conflict := resolver.CheckConflict(c);
      if conflict.Conflict? {
        var resolved := Resolve(conflict.commands + [c], PolicyOf(c.policy));
        if resolved.Err? {
          return Err(resolved.error);
        }
        if resolved.value.id != c.id {
          return Err(RejectedByPolicy);
        }
      }
      resolver.RegisterCommand(c);
      activeCommands := activeCommands[c.id := c];
      commandStatus := commandStatus[c.id := Status(c.id, 1, now)];
      if !routed {
        return Err(RoutingFailed);
      }
      return Ok(());
    }
  }
}
