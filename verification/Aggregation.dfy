/**
 * Capability aggregation over the members of a cell,
 * peat-protocol/src/cell/capability_aggregation.rs.
 *
 * Confidences are exact reals; rounding and NaN are not modelled.
 */
module Aggregation {
  import opened Prelude

  datatype CapabilityType = UnspecifiedType | Sensor | Compute | Communication | Mobility | Payload | Emergent

  datatype Authority = UnspecifiedLevel | Observer | Advisor | Supervisor | Commander

  /** A capability as a node advertises it: the type is the raw wire number. */
  datatype Capability = Capability(kind: int, confidence: real)

  /** operators holds the raw authority number of each operator of the binding, if there is one. */
  datatype Member = Member(
    id: string, capabilities: seq<Capability>, operators: Option<seq<int>>, failed: bool, fuelMinutes: nat)

  datatype Contributor = Contributor(id: string, confidence: real, authority: Option<Authority>)

  datatype Entry = Entry(kind: CapabilityType, contributor: Contributor)

  datatype Aggregated = Aggregated(
    kind: CapabilityType,
    confidence: real,
    contributorCount: nat,
    contributors: seq<string>,
    maxAuthority: Option<Authority>,
    requiresOversight: bool)

  type Capabilities = map<CapabilityType, Aggregated>

  function KindOf(n: int): CapabilityType {
    if n == 1 then Sensor else if n == 2 then Compute else if n == 3 then Communication
    else if n == 4 then Mobility else if n == 5 then Payload else if n == 6 then Emergent else UnspecifiedType
  }

  function LevelOf(n: int): Option<Authority> {
    if n == 0 then Some(UnspecifiedLevel) else if n == 1 then Some(Observer) else if n == 2 then Some(Advisor)
    else if n == 3 then Some(Supervisor) else if n == 4 then Some(Commander) else None
  }

  function Rank(a: Option<Authority>): nat {
    match a
    case None => 0
    case Some(l) =>
      match l
      case UnspecifiedLevel => 1
      case Observer => 2
      case Advisor => 3
      case Supervisor => 4
      case Commander => 5
  }

  function Higher(a: Option<Authority>, b: Option<Authority>): Option<Authority> {
    if Rank(a) <= Rank(b) then b else a
  }

  /** The greatest authority, no authority being the least; None for an empty list. */
  function MaxAuthority(s: seq<Option<Authority>>): (r: Option<Authority>)
    ensures forall i :: 0 <= i < |s| ==> Rank(s[i]) <= Rank(r)
    ensures r.Some? ==> r in s
  {
    if s == [] then None
    else
      var init, last := s[..|s| - 1], s[|s| - 1];
      assert s == init + [last];
      Higher(MaxAuthority(init), last)
  }

  predicate Operational(m: Member) { !m.failed && m.fuelMinutes > 0 }

  function AuthorityOf(m: Member): Option<Authority> {
    if m.operators.None? then None
    else
      var levels := m.operators.value;
      MaxAuthority(seq(|levels|, i requires 0 <= i < |levels| => LevelOf(levels[i])))
  }

  // --- Collecting contributors ---

  function MemberEntry(m: Member, i: nat): Entry
    requires i < |m.capabilities|
  {
    Entry(KindOf(m.capabilities[i].kind), Contributor(m.id, m.capabilities[i].confidence, AuthorityOf(m)))
  }

  function MemberEntries(m: Member): seq<Entry> {
    if Operational(m) then seq(|m.capabilities|, i requires 0 <= i < |m.capabilities| => MemberEntry(m, i)) else []
  }

  function Entries(members: seq<Member>): seq<Entry> {
    if members == [] then [] else Entries(members[..|members| - 1]) + MemberEntries(members[|members| - 1])
  }

  function OfKind(es: seq<Entry>, k: CapabilityType): seq<Contributor> {
    if es == [] then []
    else
      var e := es[|es| - 1];
      OfKind(es[..|es| - 1], k) + if e.kind == k then [e.contributor] else []
  }

  function Contributors(members: seq<Member>, k: CapabilityType): seq<Contributor> {
    OfKind(Entries(members), k)
  }

  ghost predicate Grouped(m: map<CapabilityType, seq<Contributor>>, es: seq<Entry>) {
    forall k :: (k in m <==> OfKind(es, k) != []) && (k in m ==> m[k] == OfKind(es, k))
  }

  function Push(m: map<CapabilityType, seq<Contributor>>, e: Entry): map<CapabilityType, seq<Contributor>> {
    m[e.kind := (if e.kind in m then m[e.kind] else []) + [e.contributor]]
  }

  lemma PushGroups(m: map<CapabilityType, seq<Contributor>>, es: seq<Entry>, e: Entry)
    requires Grouped(m, es)
    ensures Grouped(Push(m, e), es + [e])
  {
    assert (es + [e])[..|es|] == es;
  }

  lemma EntriesSnoc(members: seq<Member>, i: nat)
    requires i < |members|
    ensures Entries(members[..i + 1]) == Entries(members[..i]) + MemberEntries(members[i])
  {
    assert members[..i + 1][..i] == members[..i];
  }

  lemma MemberEntriesSnoc(before: seq<Entry>, m: Member, j: nat)
    requires Operational(m) && j < |m.capabilities|
    ensures |MemberEntries(m)| == |m.capabilities|
    ensures before + MemberEntries(m)[..j + 1] == before + MemberEntries(m)[..j] + [MemberEntry(m, j)]
  {}

  method CollectContributors(members: seq<Member>) returns (m: map<CapabilityType, seq<Contributor>>)
    ensures Grouped(m, Entries(members))
  {
    hide Entries, AuthorityOf, Push, KindOf;
    m := map[];
    assert Grouped(m, Entries(members[..0])) by { NothingGrouped(members); }
    hide Grouped;
    for i := 0 to |members|
      invariant Grouped(m, Entries(members[..i]))
    {
      var member := members[i];
      EntriesSnoc(members, i);
      ghost var before, own := Entries(members[..i]), MemberEntries(member);
      if !Operational(member) {
        assert before + own == before;
        continue;
      }
      hide MemberEntries;
      var authority := AuthorityOf(member);
      assert before + own[..0] == before;
      for j := 0 to |member.capabilities|
        invariant j <= |own| == |member.capabilities|
        invariant Grouped(m, before + own[..j])
      {
        var cap := member.capabilities[j];
        MemberEntriesSnoc(before, member, j);
        PushGroups(m, before + own[..j], MemberEntry(member, j));
        m := Push(m, Entry(KindOf(cap.kind), Contributor(member.id, cap.confidence, authority)));
      }
      assert own[..|own|] == own;
    }
    assert members[..|members|] == members;
  }

  lemma NothingGrouped(members: seq<Member>)
    ensures Entries(members[..0]) == [] && Grouped(map[], [])
  {}

  // --- One capability type ---

  function Sum(cs: seq<Contributor>): real {
    if cs == [] then 0.0 else Sum(cs[..|cs| - 1]) + cs[|cs| - 1].confidence
  }

  function Mean(cs: seq<Contributor>): real
    requires cs != []
  {
    Sum(cs) / |cs| as real
  }

  function Capped(x: real): real { if x <= 1.0 then x else 1.0 }

  function RedundancyBonus(n: nat): real {
    if n <= 1 then 0.0 else if n == 2 then 0.05 else if n <= 4 then 0.10 else 0.15
  }

  function AuthorityBonus(a: Option<Authority>): real {
    if a == Some(Commander) then 0.10
    else if a == Some(Supervisor) then 0.05
    else if a == Some(Advisor) then 0.03
    else 0.0
  }

  function Confidence(mean: real, n: nat, a: Option<Authority>): real {
    Capped(Capped(mean + RedundancyBonus(n)) + AuthorityBonus(a))
  }

  predicate NeedsOversight(k: CapabilityType, a: Option<Authority>) {
    match k
    case Payload => a != Some(Commander)
    case Communication => a.None? || a == Some(Observer)
    case _ => false
  }

  function Authorities(cs: seq<Contributor>): (r: seq<Option<Authority>>)
    ensures |r| == |cs| && forall i :: 0 <= i < |cs| ==> r[i] == cs[i].authority
  {
    seq(|cs|, i requires 0 <= i < |cs| => cs[i].authority)
  }

  function Ids(cs: seq<Contributor>): (r: seq<string>)
    ensures |r| == |cs| && forall i :: 0 <= i < |cs| ==> r[i] == cs[i].id
  {
    seq(|cs|, i requires 0 <= i < |cs| => cs[i].id)
  }

  function AggregateType(k: CapabilityType, cs: seq<Contributor>): Result<Aggregated, string> {
    if cs == [] then Err("Cannot aggregate capability with no contributors")
    else
      var a := MaxAuthority(Authorities(cs));
      Ok(Aggregated(k, Confidence(Mean(cs), |cs|, a), |cs|, Ids(cs), a, NeedsOversight(k, a)))
  }

  /** The aggregate of a cell: one entry for each type some operational member offers. */
  ghost predicate Aggregates(caps: Capabilities, members: seq<Member>) {
    forall k :: (k in caps <==> Contributors(members, k) != [])
             && (k in caps ==> Ok(caps[k]) == AggregateType(k, Contributors(members, k)))
  }

  /** The aggregate of a list of members; every list has one. */
  ghost function Aggregate(members: seq<Member>): (caps: Capabilities)
    ensures Aggregates(caps, members)
  {
    map k: CapabilityType | Contributors(members, k) != [] :: AggregateType(k, Contributors(members, k)).value
  }

  lemma AggregateIsUnique(members: seq<Member>, caps: Capabilities)
    requires Aggregates(caps, members)
    ensures caps == Aggregate(members)
  {
    var other := Aggregate(members);
    forall k ensures k in caps <==> k in other {}
    forall k | k in caps ensures caps[k] == other[k] {
      assert AggregateType(k, Contributors(members, k)).value == other[k];
    }
  }

  method AggregateCapabilities(members: seq<Member>) returns (r: Result<Capabilities, string>)
    ensures r == Ok(Aggregate(members))
  {
    var groups := CollectContributors(members);
    var caps: Capabilities := map[];
    var todo := groups.Keys;
    while todo != {}
      invariant todo <= groups.Keys
      invariant caps.Keys == groups.Keys - todo
      invariant forall k :: k in caps ==> Ok(caps[k]) == AggregateType(k, groups[k])
    {
      var k :| k in todo;
      // No group is empty, so this is never the error case.
      var one := AggregateType(k, groups[k]);
      caps := caps[k := one.value];
      todo := todo - {k};
    }
    AggregateIsUnique(members, caps);
    return Ok(caps);
  }

  // --- The score and the gaps ---

  predicate MissionReady(c: Aggregated) {
    && c.confidence >= (if c.requiresOversight then 0.8 else 0.7)
    && c.contributorCount > 0
    && (!c.requiresOversight || c.maxAuthority.Some?)
  }

  function EffectiveConfidence(c: Aggregated): real {
    if !c.requiresOversight then Capped(c.confidence)
    else
      match c.maxAuthority
      case None => Capped(c.confidence * 0.5)
      case Some(l) =>
        match l
        case Commander => Capped(c.confidence)
        case Supervisor => Capped(c.confidence * 0.85)
        case Advisor => Capped(c.confidence * 0.7)
        case Observer => Capped(c.confidence * 0.6)
        case UnspecifiedLevel => Capped(c.confidence * 0.5)
  }

  function Weight(k: CapabilityType): real {
    match k
    case Communication => 0.30
    case Sensor => 0.25
    case Compute => 0.20
    case Payload => 0.15
    case Mobility => 0.10
    case _ => 0.05
  }

  /** The weight of k times its effective confidence, zero when k is not counted. */
  function Share(caps: Capabilities, counted: set<CapabilityType>, k: CapabilityType): real {
    if k in counted && k in caps then EffectiveConfidence(caps[k]) * Weight(k) else 0.0
  }

  function WeightShare(counted: set<CapabilityType>, k: CapabilityType): real {
    if k in counted then Weight(k) else 0.0
  }

  function TotalScore(caps: Capabilities, counted: set<CapabilityType>): real {
    Share(caps, counted, UnspecifiedType) + Share(caps, counted, Sensor) + Share(caps, counted, Compute)
    + Share(caps, counted, Communication) + Share(caps, counted, Mobility) + Share(caps, counted, Payload)
    + Share(caps, counted, Emergent)
  }

  function TotalWeight(counted: set<CapabilityType>): real {
    WeightShare(counted, UnspecifiedType) + WeightShare(counted, Sensor) + WeightShare(counted, Compute)
    + WeightShare(counted, Communication) + WeightShare(counted, Mobility) + WeightShare(counted, Payload)
    + WeightShare(counted, Emergent)
  }

  function Readiness(caps: Capabilities): real {
    var w := TotalWeight(caps.Keys);
    if w > 0.0 then TotalScore(caps, caps.Keys) / w else 0.0
  }

  lemma CountOne(caps: Capabilities, counted: set<CapabilityType>, k: CapabilityType)
    requires k in caps && k !in counted
    ensures TotalScore(caps, counted + {k}) == TotalScore(caps, counted) + EffectiveConfidence(caps[k]) * Weight(k)
    ensures TotalWeight(counted + {k}) == TotalWeight(counted) + Weight(k)
  {
    hide EffectiveConfidence;
    var more := counted + {k};
    forall j | j != k
      ensures Share(caps, more, j) == Share(caps, counted, j) && WeightShare(more, j) == WeightShare(counted, j)
    {}
    assert Share(caps, counted, k) == 0.0 && WeightShare(counted, k) == 0.0;
    match k {
      case UnspecifiedType => case Sensor => case Compute => case Communication =>
      case Mobility => case Payload => case Emergent =>
    }
  }

  /** The score adds up the entries in whatever order the map yields them. */
  method CalculateReadinessScore(caps: Capabilities) returns (score: real)
    ensures score == Readiness(caps)
  {
    hide Share, WeightShare, EffectiveConfidence, TotalScore, TotalWeight;
    if caps == map[] {
      NothingCounted(caps);
      assert caps.Keys == {};
      return 0.0;
    }
    var totalScore, totalWeight := 0.0, 0.0;
    var todo := caps.Keys;
    ghost var counted: set<CapabilityType> := {};
    NothingCounted(caps);
    while todo != {}
      invariant todo <= caps.Keys && counted == caps.Keys - todo
      invariant totalScore == TotalScore(caps, counted)
      invariant totalWeight == TotalWeight(counted)
    {
      var k :| k in todo;
      CountOne(caps, counted, k);
      var weight := Weight(k);
      totalScore := totalScore + EffectiveConfidence(caps[k]) * weight;
      totalWeight := totalWeight + weight;
      todo := todo - {k};
      counted := counted + {k};
    }
    assert counted == caps.Keys;
    if totalWeight > 0.0 {
      return totalScore / totalWeight;
    }
    return 0.0;
  }

  lemma NothingCounted(caps: Capabilities)
    ensures TotalScore(caps, {}) == 0.0 && TotalWeight({}) == 0.0
  {}

  predicate IsGap(caps: Capabilities, k: CapabilityType) { k !in caps || !MissionReady(caps[k]) }

  function Gaps(caps: Capabilities, required: seq<CapabilityType>): (r: seq<CapabilityType>)
    ensures r == [] <==> forall i :: 0 <= i < |required| ==> !IsGap(caps, required[i])
  {
    if required == [] then []
    else
      var k := required[|required| - 1];
      Gaps(caps, required[..|required| - 1]) + if IsGap(caps, k) then [k] else []
  }

  method IdentifyGaps(caps: Capabilities, required: seq<CapabilityType>) returns (gaps: seq<CapabilityType>)
    ensures gaps == Gaps(caps, required)
  {
    gaps := [];
    for i := 0 to |required|
      invariant gaps == Gaps(caps, required[..i])
    {
      var k := required[i];
      assert required[..i + 1][..i] == required[..i];
      if k !in caps {
        gaps := gaps + [k];
      } else if !MissionReady(caps[k]) {
        gaps := gaps + [k];
      }
    }
    assert required[..|required|] == required;
  }
}
