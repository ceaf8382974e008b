/**
 * What aggregation guarantees for every list of members: the order of the members does not matter,
 * no capability is lost or counted twice, confidences and the readiness score stay within bounds,
 * and critical capabilities are ready only with an operator behind them.
 */
module AggregationLaws {
  import opened Prelude
  import opened Aggregation

  // --- Concatenation and permutation ---

  lemma {:induction false} OfKindConcat(a: seq<Entry>, b: seq<Entry>, k: CapabilityType)
    ensures OfKind(a + b, k) == OfKind(a, k) + OfKind(b, k)
    decreases |b|
  {
    if b == [] {
      assert a + b == a;
    } else {
      var init := b[..|b| - 1];
      OfKindConcat(a, init, k);
      assert (a + b)[..|a + b| - 1] == a + init;
    }
  }

  lemma {:induction false} EntriesConcat(a: seq<Member>, b: seq<Member>)
    ensures Entries(a + b) == Entries(a) + Entries(b)
    decreases |b|
  {
    hide MemberEntries;
    if b == [] {
      assert a + b == a;
    } else {
      var init := b[..|b| - 1];
      EntriesConcat(a, init);
      assert (a + b)[..|a + b| - 1] == a + init;
    }
  }

  lemma ContributorsConcat(a: seq<Member>, b: seq<Member>, k: CapabilityType)
    ensures Contributors(a + b, k) == Contributors(a, k) + Contributors(b, k)
  {
    EntriesConcat(a, b);
    OfKindConcat(Entries(a), Entries(b), k);
  }

  lemma {:induction false} SumConcat(a: seq<Contributor>, b: seq<Contributor>)
    ensures Sum(a + b) == Sum(a) + Sum(b)
    decreases |b|
  {
    if b == [] {
      assert a + b == a;
    } else {
      var init := b[..|b| - 1];
      SumConcat(a, init);
      assert (a + b)[..|a + b| - 1] == a + init;
    }
  }

  /** Finds the last element of a in its rearrangement b; without it the rests are rearrangements. */
  lemma FindLast<T>(a: seq<T>, b: seq<T>) returns (i: nat)
    requires a != [] && multiset(a) == multiset(b)
    ensures i < |b| && b[i] == a[|a| - 1]
    ensures a == a[..|a| - 1] + [b[i]]
    ensures b == b[..i] + ([b[i]] + b[i + 1..])
    ensures multiset(a[..|a| - 1]) == multiset(b[..i] + b[i + 1..])
  {
    var x := a[|a| - 1];
    assert x in multiset(b);
    i :| 0 <= i < |b| && b[i] == x;
    assert a == a[..|a| - 1] + [x];
    assert b == b[..i] + ([x] + b[i + 1..]);
    assert multiset(a) == multiset(a[..|a| - 1]) + multiset{x};
    assert multiset(b) == multiset(b[..i]) + (multiset{x} + multiset(b[i + 1..]));
    assert multiset(a[..|a| - 1]) == multiset(a) - multiset{x} == multiset(b) - multiset{x};
    assert multiset(b[..i] + b[i + 1..]) == multiset(b[..i]) + multiset(b[i + 1..]);
  }

  lemma SameLength<T>(a: seq<T>, b: seq<T>)
    requires multiset(a) == multiset(b)
    ensures |a| == |b|
  {
    assert |multiset(a)| == |a| && |multiset(b)| == |b|;
  }

  lemma {:induction false} ContributorsPermute(a: seq<Member>, b: seq<Member>, k: CapabilityType)
    requires multiset(a) == multiset(b)
    ensures multiset(Contributors(a, k)) == multiset(Contributors(b, k))
    decreases |a|
  {
    hide Contributors;
    if a == [] {
      SameLength(a, b);
    } else {
      var i := FindLast(a, b);
      var x, left, right := b[i], b[..i], b[i + 1..];
      ContributorsPermute(a[..|a| - 1], left + right, k);
      ContributorsConcat(a[..|a| - 1], [x], k);
      ContributorsConcat(left, right, k);
      ContributorsConcat(left, [x] + right, k);
      ContributorsConcat([x], right, k);
    }
  }

  lemma {:induction false} SumPermutes(a: seq<Contributor>, b: seq<Contributor>)
    requires multiset(a) == multiset(b)
    ensures Sum(a) == Sum(b)
    decreases |a|
  {
    if a == [] {
      SameLength(a, b);
    } else {
      var i := FindLast(a, b);
      var x, left, right := b[i], b[..i], b[i + 1..];
      SumPermutes(a[..|a| - 1], left + right);
      SumConcat(a[..|a| - 1], [x]);
      SumConcat(left, right);
      SumConcat(left, [x] + right);
      SumConcat([x], right);
    }
  }

  lemma MaxAuthorityPermutes(a: seq<Contributor>, b: seq<Contributor>)
    requires multiset(a) == multiset(b)
    ensures MaxAuthority(Authorities(a)) == MaxAuthority(Authorities(b))
  {
    MaxAuthorityCovers(a, b);
    MaxAuthorityCovers(b, a);
  }

  lemma MaxAuthorityCovers(a: seq<Contributor>, b: seq<Contributor>)
    requires multiset(a) == multiset(b)
    ensures Rank(MaxAuthority(Authorities(a))) <= Rank(MaxAuthority(Authorities(b)))
  {
    var m := MaxAuthority(Authorities(a));
    if m.Some? {
      var i :| 0 <= i < |a| && Authorities(a)[i] == m;
      assert a[i] in multiset(b);
      var j :| 0 <= j < |b| && b[j] == a[i];
      assert Authorities(b)[j] == m;
    }
  }

  lemma IdsConcat(a: seq<Contributor>, b: seq<Contributor>)
    ensures Ids(a + b) == Ids(a) + Ids(b)
  {}

  lemma {:induction false} IdsPermute(a: seq<Contributor>, b: seq<Contributor>)
    requires multiset(a) == multiset(b)
    ensures multiset(Ids(a)) == multiset(Ids(b))
    decreases |a|
  {
    if a == [] {
      SameLength(a, b);
    } else {
      var i := FindLast(a, b);
      var x, left, right := b[i], b[..i], b[i + 1..];
      IdsPermute(a[..|a| - 1], left + right);
      hide Ids;
      IdsConcat(a[..|a| - 1], [x]);
      IdsConcat(left, right);
      IdsConcat(left, [x] + right);
      IdsConcat([x], right);
    }
  }

  /** Equal in everything but the order in which the contributors are listed. */
  ghost predicate SameUpToOrder(a: Aggregated, b: Aggregated) {
    && a.kind == b.kind && a.confidence == b.confidence && a.contributorCount == b.contributorCount
    && a.maxAuthority == b.maxAuthority && a.requiresOversight == b.requiresOversight
    && multiset(a.contributors) == multiset(b.contributors)
  }

  lemma AggregateTypePermutes(k: CapabilityType, a: seq<Contributor>, b: seq<Contributor>)
    requires a != [] && multiset(a) == multiset(b)
    ensures b != [] && SameUpToOrder(AggregateType(k, a).value, AggregateType(k, b).value)
  {
    SameLength(a, b);
    SumPermutes(a, b);
    MaxAuthorityPermutes(a, b);
    IdsPermute(a, b);
  }

  /** Shuffling the members changes neither the types, nor any aggregate, nor the readiness score. */
  lemma MemberOrderIsIrrelevant(members: seq<Member>, shuffled: seq<Member>)
    requires multiset(members) == multiset(shuffled)
    ensures var caps, caps' := Aggregate(members), Aggregate(shuffled);
            && caps.Keys == caps'.Keys
            && (forall k :: k in caps ==> SameUpToOrder(caps[k], caps'[k]))
            && Readiness(caps) == Readiness(caps')
  {
    var caps, caps' := Aggregate(members), Aggregate(shuffled);
    hide Aggregate, Contributors, Readiness;
    forall k ensures (k in caps <==> k in caps') && (k in caps ==> SameUpToOrder(caps[k], caps'[k])) {
      ContributorsPermute(members, shuffled, k);
      var a, b := Contributors(members, k), Contributors(shuffled, k);
      SameLength(a, b);
      if k in caps {
        AggregateTypePermutes(k, a, b);
      }
    }
    SameReadiness(caps, caps');
  }

  lemma SameReadiness(caps: Capabilities, caps': Capabilities)
    requires caps.Keys == caps'.Keys && forall k :: k in caps ==> SameUpToOrder(caps[k], caps'[k])
    ensures Readiness(caps) == Readiness(caps')
  {
    forall k ensures Share(caps, caps.Keys, k) == Share(caps', caps'.Keys, k) {
      if k in caps { assert SameUpToOrder(caps[k], caps'[k]); }
    }
    hide Share;
  }

  // --- Conservation ---

  function CountOf(caps: Capabilities, k: CapabilityType): nat {
    if k in caps then caps[k].contributorCount else 0
  }

  function TotalCount(caps: Capabilities): nat {
    CountOf(caps, UnspecifiedType) + CountOf(caps, Sensor) + CountOf(caps, Compute) + CountOf(caps, Communication)
    + CountOf(caps, Mobility) + CountOf(caps, Payload) + CountOf(caps, Emergent)
  }

  /** The number of capabilities advertised by operational members. */
  function Advertised(members: seq<Member>): nat {
    if members == [] then 0
    else
      var m := members[|members| - 1];
      Advertised(members[..|members| - 1]) + if Operational(m) then |m.capabilities| else 0
  }

  lemma {:induction false} EntriesCount(members: seq<Member>)
    ensures |Entries(members)| == Advertised(members)
  {
    if members != [] {
      EntriesCount(members[..|members| - 1]);
    }
  }

  lemma {:induction false} EveryEntryHasOneKind(es: seq<Entry>)
    ensures |OfKind(es, UnspecifiedType)| + |OfKind(es, Sensor)| + |OfKind(es, Compute)| + |OfKind(es, Communication)|
            + |OfKind(es, Mobility)| + |OfKind(es, Payload)| + |OfKind(es, Emergent)| == |es|
  {
    if es != [] {
      EveryEntryHasOneKind(es[..|es| - 1]);
    }
  }

  lemma CountIsContributors(members: seq<Member>, k: CapabilityType)
    ensures CountOf(Aggregate(members), k) == |Contributors(members, k)|
  {
    hide Contributors, Aggregate;
    var caps := Aggregate(members);
    if k in caps { assert Ok(caps[k]) == AggregateType(k, Contributors(members, k)); }
  }

  /** The contributor counts add up to the capabilities of the operational members: none lost, none counted twice. */
  lemma ContributorsAreConserved(members: seq<Member>)
    ensures TotalCount(Aggregate(members)) == Advertised(members)
  {
    var caps := Aggregate(members);
    hide Aggregate;
    EntriesCount(members);
    EveryEntryHasOneKind(Entries(members));
    forall k ensures CountOf(caps, k) == |Contributors(members, k)| { CountIsContributors(members, k); }
    hide CountOf;
  }

  // --- Where contributors come from ---

  lemma {:induction false} EntryComesFromMember(members: seq<Member>, e: Entry) returns (m: Member)
    requires e in Entries(members)
    ensures m in members && e in MemberEntries(m)
  {
    var init, last := members[..|members| - 1], members[|members| - 1];
    if e in MemberEntries(last) {
      m := last;
    } else {
      m := EntryComesFromMember(init, e);
    }
  }

  lemma {:induction false} ContributorComesFromEntry(es: seq<Entry>, k: CapabilityType, c: Contributor)
    requires c in OfKind(es, k)
    ensures Entry(k, c) in es
  {
    var init, last := es[..|es| - 1], es[|es| - 1];
    if last != Entry(k, c) {
      ContributorComesFromEntry(init, k, c);
    }
  }

  lemma ContributorIsCapability(members: seq<Member>, k: CapabilityType, x: Contributor)
    requires x in Contributors(members, k)
    ensures exists m, c :: m in members && Operational(m) && c in m.capabilities && c.confidence == x.confidence
  {
    hide AuthorityOf;
    ContributorComesFromEntry(Entries(members), k, x);
    var m := EntryComesFromMember(members, Entry(k, x));
    var i :| 0 <= i < |MemberEntries(m)| && MemberEntries(m)[i] == Entry(k, x);
    assert m.capabilities[i] in m.capabilities;
  }

  // --- Bounds ---

  /** Capping before the authority bonus changes nothing: one cap at the end gives the same confidence. */
  lemma ConfidenceBounds(mean: real, n: nat, a: Option<Authority>)
    ensures Capped(mean) <= Confidence(mean, n, a) <= 1.0
    ensures Confidence(mean, n, a) == Capped(mean + RedundancyBonus(n) + AuthorityBonus(a))
  {}

  lemma {:induction false} SumAtMost(cs: seq<Contributor>)
    requires forall i :: 0 <= i < |cs| ==> cs[i].confidence <= 1.0
    ensures Sum(cs) <= |cs| as real
  {
    if cs != [] {
      SumAtMost(cs[..|cs| - 1]);
    }
  }

  lemma {:induction false} SumAtLeast(cs: seq<Contributor>)
    requires forall i :: 0 <= i < |cs| ==> cs[i].confidence >= 0.0
    ensures Sum(cs) >= 0.0
  {
    if cs != [] {
      SumAtLeast(cs[..|cs| - 1]);
    }
  }

  lemma Quotient(x: real, d: real)
    requires d > 0.0
    ensures x <= d ==> x / d <= 1.0
    ensures x >= 0.0 ==> x / d >= 0.0
  {}

  /** Every aggregated confidence lies between the contributors' mean and 1. */
  lemma ConfidenceBetweenMeanAndOne(members: seq<Member>, k: CapabilityType)
    ensures var caps, cs := Aggregate(members), Contributors(members, k);
            k in caps ==>
            && cs != []
            && Capped(Mean(cs)) <= caps[k].confidence <= 1.0
            && ((forall i :: 0 <= i < |cs| ==> cs[i].confidence <= 1.0) ==> Mean(cs) <= caps[k].confidence)
            && ((forall i :: 0 <= i < |cs| ==> cs[i].confidence >= 0.0) ==> 0.0 <= caps[k].confidence)
  {
    hide Contributors, Aggregate;
    var caps, cs := Aggregate(members), Contributors(members, k);
    if k !in caps { return; }
    assert Ok(caps[k]) == AggregateType(k, cs);
    ConfidenceBounds(Mean(cs), |cs|, MaxAuthority(Authorities(cs)));
    Quotient(Sum(cs), |cs| as real);
    if forall i :: 0 <= i < |cs| ==> cs[i].confidence <= 1.0 { SumAtMost(cs); }
    if forall i :: 0 <= i < |cs| ==> cs[i].confidence >= 0.0 { SumAtLeast(cs); }
  }

  lemma ShareBetween(caps: Capabilities, k: CapabilityType, lo: real, hi: real)
    requires k in caps ==> lo <= EffectiveConfidence(caps[k]) <= hi
    ensures lo * WeightShare(caps.Keys, k) <= Share(caps, caps.Keys, k) <= hi * WeightShare(caps.Keys, k)
  {
    hide EffectiveConfidence;
    match k {
      case UnspecifiedType => case Sensor => case Compute => case Communication =>
      case Mobility => case Payload => case Emergent =>
    }
  }

  lemma QuotientBetween(x: real, d: real, lo: real, hi: real)
    requires d > 0.0 && lo * d <= x <= hi * d
    ensures lo <= x / d <= hi
  {
    Dividing(x, d, lo);
    Dividing(-x, d, -hi);
  }

  lemma Dividing(x: real, d: real, lo: real)
    requires d > 0.0 && lo * d <= x
    ensures lo <= x / d
  {
    var gap := x / d - lo;
    assert gap * d == x - lo * d;
  }

  lemma AddBetween(lo: real, hi: real, w: real, s: real, w': real, s': real)
    requires lo * w <= s <= hi * w && lo * w' <= s' <= hi * w'
    ensures lo * (w + w') <= s + s' <= hi * (w + w')
  {}

  lemma TotalBetween(caps: Capabilities, lo: real, hi: real)
    requires forall k :: k in caps ==> lo <= EffectiveConfidence(caps[k]) <= hi
    ensures lo * TotalWeight(caps.Keys) <= TotalScore(caps, caps.Keys) <= hi * TotalWeight(caps.Keys)
  {
    hide Share, WeightShare, EffectiveConfidence;
    var w := WeightShare(caps.Keys, UnspecifiedType);
    var s := Share(caps, caps.Keys, UnspecifiedType);
    ShareBetween(caps, UnspecifiedType, lo, hi);
    w, s := AddShare(caps, Sensor, lo, hi, w, s);
    w, s := AddShare(caps, Compute, lo, hi, w, s);
    w, s := AddShare(caps, Communication, lo, hi, w, s);
    w, s := AddShare(caps, Mobility, lo, hi, w, s);
    w, s := AddShare(caps, Payload, lo, hi, w, s);
    w, s := AddShare(caps, Emergent, lo, hi, w, s);
    assert w == TotalWeight(caps.Keys) && s == TotalScore(caps, caps.Keys);
  }

  lemma AddShare(caps: Capabilities, k: CapabilityType, lo: real, hi: real, w: real, s: real)
    returns (w': real, s': real)
    requires lo * w <= s <= hi * w
    requires k in caps ==> lo <= EffectiveConfidence(caps[k]) <= hi
    ensures w' == w + WeightShare(caps.Keys, k) && s' == s + Share(caps, caps.Keys, k)
    ensures lo * w' <= s' <= hi * w'
  {
    hide Share, WeightShare, EffectiveConfidence;
    ShareBetween(caps, k, lo, hi);
    w', s' := w + WeightShare(caps.Keys, k), s + Share(caps, caps.Keys, k);
    AddBetween(lo, hi, w, s, WeightShare(caps.Keys, k), Share(caps, caps.Keys, k));
  }

  lemma WeightIsPositive(caps: Capabilities, k: CapabilityType)
    requires k in caps
    ensures TotalWeight(caps.Keys) > 0.0
  {
    assert WeightShare(caps.Keys, k) > 0.0;
  }

  /** The readiness score of a cell with any capability is a weighted mean of the effective confidences. */
  lemma ReadinessBetween(caps: Capabilities, lo: real, hi: real)
    requires caps != map[]
    requires forall k :: k in caps ==> lo <= EffectiveConfidence(caps[k]) <= hi
    ensures lo <= Readiness(caps) <= hi
  {
    hide TotalScore, TotalWeight, EffectiveConfidence;
    var k :| k in caps;
    WeightIsPositive(caps, k);
    TotalBetween(caps, lo, hi);
    QuotientBetween(TotalScore(caps, caps.Keys), TotalWeight(caps.Keys), lo, hi);
  }

  lemma EffectiveBounds(c: Aggregated)
    requires 0.0 <= c.confidence
    ensures 0.0 <= EffectiveConfidence(c) <= 1.0
  {}

  lemma ShareAtMostWeight(caps: Capabilities, k: CapabilityType)
    ensures Share(caps, caps.Keys, k) <= WeightShare(caps.Keys, k)
  {
    if k in caps {
      assert EffectiveConfidence(caps[k]) <= 1.0;
      hide EffectiveConfidence;
      match k {
        case UnspecifiedType => case Sensor => case Compute => case Communication =>
        case Mobility => case Payload => case Emergent =>
      }
    }
  }

  lemma ReadinessAtMostOne(caps: Capabilities)
    ensures Readiness(caps) <= 1.0
  {
    forall k ensures Share(caps, caps.Keys, k) <= WeightShare(caps.Keys, k) { ShareAtMostWeight(caps, k); }
    hide Share, WeightShare;
    assert TotalScore(caps, caps.Keys) <= TotalWeight(caps.Keys);
    if TotalWeight(caps.Keys) > 0.0 { Quotient(TotalScore(caps, caps.Keys), TotalWeight(caps.Keys)); }
  }

  lemma ReadinessNotNegative(members: seq<Member>)
    requires forall m, c :: m in members && Operational(m) && c in m.capabilities ==> c.confidence >= 0.0
    ensures 0.0 <= Readiness(Aggregate(members))
  {
    var caps := Aggregate(members);
    hide Aggregate;
    if caps == map[] {
      assert caps.Keys == {};
    } else {
      forall k | k in caps ensures 0.0 <= EffectiveConfidence(caps[k]) <= 1.0 {
        hide Contributors, Aggregates;
        ConfidenceBetweenMeanAndOne(members, k);
        forall i | 0 <= i < |Contributors(members, k)| ensures Contributors(members, k)[i].confidence >= 0.0 {
          ContributorIsCapability(members, k, Contributors(members, k)[i]);
        }
        EffectiveBounds(caps[k]);
      }
      hide Contributors, Aggregates, EffectiveConfidence, Readiness;
      ReadinessBetween(caps, 0.0, 1.0);
    }
  }

  /** The readiness score is at most 1 whatever is advertised, and not negative unless a confidence is. */
  lemma ReadinessInUnitInterval(members: seq<Member>)
    ensures Readiness(Aggregate(members)) <= 1.0
    ensures (forall m, c :: m in members && Operational(m) && c in m.capabilities ==> c.confidence >= 0.0) ==>
              0.0 <= Readiness(Aggregate(members))
  {
    hide Aggregate, Readiness;
    ReadinessAtMostOne(Aggregate(members));
    if forall m, c :: m in members && Operational(m) && c in m.capabilities ==> c.confidence >= 0.0 {
      ReadinessNotNegative(members);
    }
  }

  // --- Human authority ---

  /** An operational member that advertises k. */
  ghost predicate Offers(m: Member, k: CapabilityType) {
    Operational(m) && exists c :: c in m.capabilities && KindOf(c.kind) == k
  }

  /** Some member offering k has an operator binding of at least this authority rank; rank 1 is the unset level. */
  ghost predicate BackedBy(members: seq<Member>, k: CapabilityType, rank: nat) {
    exists m :: m in members && Offers(m, k) && Rank(AuthorityOf(m)) >= rank
  }

  /** An operational member offering k whose operator binding carries an authority level, be it the unset one. */
  ghost predicate HumanBacked(members: seq<Member>, k: CapabilityType) { BackedBy(members, k, 1) }

  lemma {:induction false} MemberIsEntered(members: seq<Member>, m: Member, e: Entry)
    requires m in members && e in MemberEntries(m)
    ensures e in Entries(members)
  {
    var init, last := members[..|members| - 1], members[|members| - 1];
    assert members == init + [last];
    if e !in MemberEntries(last) {
      MemberIsEntered(init, m, e);
    }
  }

  lemma {:induction false} EntryContributes(es: seq<Entry>, e: Entry)
    requires e in es
    ensures e.contributor in OfKind(es, e.kind)
  {
    var init, last := es[..|es| - 1], es[|es| - 1];
    assert es == init + [last];
    if e != last {
      EntryContributes(init, e);
    }
  }

  lemma OfferContributes(members: seq<Member>, k: CapabilityType, m: Member) returns (c: Contributor)
    requires m in members && Offers(m, k)
    ensures c in Contributors(members, k) && c.authority == AuthorityOf(m)
  {
    hide AuthorityOf;
    var cap :| cap in m.capabilities && KindOf(cap.kind) == k;
    var i :| 0 <= i < |m.capabilities| && m.capabilities[i] == cap;
    var e := MemberEntry(m, i);
    assert MemberEntries(m)[i] == e;
    MemberIsEntered(members, m, e);
    EntryContributes(Entries(members), e);
    c := e.contributor;
  }

  lemma ContributorIsOffered(members: seq<Member>, k: CapabilityType, c: Contributor) returns (m: Member)
    requires c in Contributors(members, k)
    ensures m in members && Offers(m, k) && AuthorityOf(m) == c.authority
  {
    hide AuthorityOf;
    ContributorComesFromEntry(Entries(members), k, c);
    m := EntryComesFromMember(members, Entry(k, c));
    var i :| 0 <= i < |MemberEntries(m)| && MemberEntries(m)[i] == Entry(k, c);
    assert m.capabilities[i] in m.capabilities;
  }

  /** The authority of an aggregated capability reaches a rank exactly when a member offering it does. */
  lemma AuthorityComesFromMemberIff(members: seq<Member>, k: CapabilityType, rank: nat)
    requires rank > 0
    ensures var caps := Aggregate(members);
            k in caps ==> (Rank(caps[k].maxAuthority) >= rank <==> BackedBy(members, k, rank))
  {
    var caps, cs := Aggregate(members), Contributors(members, k);
    hide Contributors, Aggregate, AuthorityOf, Offers;
    if k !in caps { return; }
    assert Ok(caps[k]) == AggregateType(k, cs);
    var a := caps[k].maxAuthority;
    if Rank(a) >= rank {
      var i :| 0 <= i < |cs| && Authorities(cs)[i] == a;
      var m := ContributorIsOffered(members, k, cs[i]);
    }
    if BackedBy(members, k, rank) {
      var m :| m in members && Offers(m, k) && Rank(AuthorityOf(m)) >= rank;
      var c := OfferContributes(members, k, m);
      var i :| 0 <= i < |cs| && cs[i] == c;
      assert Authorities(cs)[i] == AuthorityOf(m);
    }
  }

  /** A communication or payload capability is mission ready only if a human with some level stands behind it. */
  lemma CriticalReadyIsHumanBacked(members: seq<Member>, k: CapabilityType)
    ensures (k == Communication || k == Payload) && !IsGap(Aggregate(members), k) ==> HumanBacked(members, k)
  {
    hide Aggregate, BackedBy, Contributors;
    var caps := Aggregate(members);
    AuthorityComesFromMemberIff(members, k, 1);
    if (k == Communication || k == Payload) && !IsGap(caps, k) {
      assert Ok(caps[k]) == AggregateType(k, Contributors(members, k));
      hide Mean, Confidence, MaxAuthority, Authorities, Ids;
      assert caps[k].maxAuthority.Some?;
    }
  }

  // --- In terms of what members advertise ---

  /** A member that is up and has fuel advertises this raw capability number. */
  ghost predicate Advertises(m: Member, kind: int) {
    !m.failed && m.fuelMinutes > 0 && exists c :: c in m.capabilities && c.kind == kind
  }

  ghost predicate IsAdvertised(members: seq<Member>, kind: int) {
    exists m :: m in members && Advertises(m, kind)
  }

  /** A member advertising this has an operator of this raw authority number. */
  ghost predicate LevelBehind(members: seq<Member>, kind: int, level: int) {
    exists m :: m in members && Advertises(m, kind) && m.operators.Some? && level in m.operators.value
  }

  /** The raw number of a capability type; no number above 6 or below 0 names one. */
  predicate Numbered(k: CapabilityType, kind: int) {
    || (k == Sensor && kind == 1) || (k == Compute && kind == 2) || (k == Communication && kind == 3)
    || (k == Mobility && kind == 4) || (k == Payload && kind == 5) || (k == Emergent && kind == 6)
  }

  lemma OffersIff(m: Member, k: CapabilityType, kind: int)
    requires Numbered(k, kind)
    ensures Offers(m, k) <==> Advertises(m, kind)
  {
    forall c: Capability ensures KindOf(c.kind) == k <==> c.kind == kind {}
    if Offers(m, k) {
      var c :| c in m.capabilities && KindOf(c.kind) == k;
      assert c in m.capabilities && c.kind == kind;
    }
    if Advertises(m, kind) {
      var c :| c in m.capabilities && c.kind == kind;
      assert c in m.capabilities && KindOf(c.kind) == k;
    }
  }

  lemma AggregatedIff(members: seq<Member>, k: CapabilityType, kind: int)
    requires Numbered(k, kind)
    ensures k in Aggregate(members) <==> IsAdvertised(members, kind)
  {
    hide Aggregate, AuthorityOf;
    var cs := Contributors(members, k);
    if k in Aggregate(members) {
      assert cs[0] in cs;
      var m := ContributorIsOffered(members, k, cs[0]);
      OffersIff(m, k, kind);
    }
    if IsAdvertised(members, kind) {
      var m :| m in members && Advertises(m, kind);
      OffersIff(m, k, kind);
      var c := OfferContributes(members, k, m);
      assert cs != [];
    }
  }

  lemma RankOfLevel(level: int)
    ensures Rank(LevelOf(level)) == if 0 <= level <= 4 then level + 1 else 0
  {}

  /** A member's authority reaches a rank exactly when one of its operators does. */
  lemma OperatorReaches(m: Member, rank: nat)
    requires 1 <= rank <= 5
    ensures Rank(AuthorityOf(m)) >= rank
       <==> m.operators.Some? && exists l :: l in m.operators.value && rank - 1 <= l <= 4
  {
    if m.operators.Some? {
      var ops := m.operators.value;
      var levels := seq(|ops|, i requires 0 <= i < |ops| => LevelOf(ops[i]));
      var a := MaxAuthority(levels);
      assert AuthorityOf(m) == a;
      forall l: int ensures Rank(LevelOf(l)) == if 0 <= l <= 4 then l + 1 else 0 { RankOfLevel(l); }
      hide LevelOf, MaxAuthority;
      if Rank(a) >= rank {
        var i :| 0 <= i < |levels| && levels[i] == a;
        assert ops[i] in ops;
      }
      if exists l :: l in ops && rank - 1 <= l <= 4 {
        var l :| l in ops && rank - 1 <= l <= 4;
        var i :| 0 <= i < |ops| && ops[i] == l;
        assert Rank(levels[i]) >= rank;
      }
    }
  }

  lemma BackedIff(members: seq<Member>, k: CapabilityType, kind: int, rank: nat)
    requires Numbered(k, kind) && 1 <= rank <= 5
    ensures BackedBy(members, k, rank) <==> exists l :: rank - 1 <= l <= 4 && LevelBehind(members, kind, l)
  {
    hide AuthorityOf;
    if BackedBy(members, k, rank) {
      var m :| m in members && Offers(m, k) && Rank(AuthorityOf(m)) >= rank;
      OffersIff(m, k, kind);
      OperatorReaches(m, rank);
      var l :| l in m.operators.value && rank - 1 <= l <= 4;
      assert LevelBehind(members, kind, l);
    }
    if exists l :: rank - 1 <= l <= 4 && LevelBehind(members, kind, l) {
      var l :| rank - 1 <= l <= 4 && LevelBehind(members, kind, l);
      var m :| m in members && Advertises(m, kind) && m.operators.Some? && l in m.operators.value;
      OffersIff(m, k, kind);
      OperatorReaches(m, rank);
    }
  }

  /** A payload nobody of level 4 stands behind. */
  ghost predicate UncommandedPayload(members: seq<Member>) {
    IsAdvertised(members, 5) && !LevelBehind(members, 5, 4)
  }

  /** Communication whose highest operator level is 1, or that has none at all. */
  ghost predicate UnsupervisedComms(members: seq<Member>) {
    && IsAdvertised(members, 3)
    && !LevelBehind(members, 3, 2) && !LevelBehind(members, 3, 3) && !LevelBehind(members, 3, 4)
    && (LevelBehind(members, 3, 1) || !LevelBehind(members, 3, 0))
  }

  /** The authority behind an aggregated capability, by the raw levels of the operators. */
  lemma LevelsDecide(members: seq<Member>, k: CapabilityType, kind: int, rank: nat)
    requires Numbered(k, kind) && 1 <= rank <= 5
    ensures var caps := Aggregate(members);
            k in caps && Rank(caps[k].maxAuthority) >= rank
            <==> exists l :: rank - 1 <= l <= 4 && LevelBehind(members, kind, l)
  {
    hide Aggregate, BackedBy, LevelBehind, IsAdvertised;
    AuthorityComesFromMemberIff(members, k, rank);
    BackedIff(members, k, kind, rank);
    AggregatedIff(members, k, kind);
    forall l | LevelBehind(members, kind, l) ensures IsAdvertised(members, kind) {
      AdvertisedBehind(members, kind, l);
    }
  }

  lemma AdvertisedBehind(members: seq<Member>, kind: int, level: int)
    requires LevelBehind(members, kind, level)
    ensures IsAdvertised(members, kind)
  {
    var m :| m in members && Advertises(m, kind) && m.operators.Some? && level in m.operators.value;
    assert m in members && Advertises(m, kind);
  }

  lemma AggregateFields(members: seq<Member>, k: CapabilityType)
    ensures var caps := Aggregate(members);
            k in caps ==> caps[k].requiresOversight == NeedsOversight(k, caps[k].maxAuthority)
  {
    hide Aggregate, Contributors, Mean, Confidence, MaxAuthority, Authorities, Ids;
    var caps := Aggregate(members);
    if k in caps { assert Ok(caps[k]) == AggregateType(k, Contributors(members, k)); }
  }

  lemma PayloadOversight(members: seq<Member>)
    ensures var caps := Aggregate(members);
            Payload in caps && caps[Payload].requiresOversight <==> UncommandedPayload(members)
  {
    hide Aggregate, LevelBehind, IsAdvertised, Aggregates;
    AggregatedIff(members, Payload, 5);
    AggregateFields(members, Payload);
    var caps := Aggregate(members);
    if Payload in caps {
      LevelsDecide(members, Payload, 5, 5);
      assert Rank(caps[Payload].maxAuthority) >= 5 <==> LevelBehind(members, 5, 4);
    }
  }

  lemma CommsOversight(members: seq<Member>)
    ensures var caps := Aggregate(members);
            Communication in caps && caps[Communication].requiresOversight <==> UnsupervisedComms(members)
  {
    hide Aggregate, LevelBehind, IsAdvertised, Aggregates;
    AggregatedIff(members, Communication, 3);
    AggregateFields(members, Communication);
    var caps := Aggregate(members);
    if Communication in caps {
      var a := caps[Communication].maxAuthority;
      LevelsDecide(members, Communication, 3, 1);
      LevelsDecide(members, Communication, 3, 2);
      LevelsDecide(members, Communication, 3, 3);
      assert Rank(a) >= 3 <==> LevelBehind(members, 3, 2) || LevelBehind(members, 3, 3) || LevelBehind(members, 3, 4);
      assert Rank(a) >= 2 <==> Rank(a) >= 3 || LevelBehind(members, 3, 1);
      assert Rank(a) >= 1 <==> Rank(a) >= 2 || LevelBehind(members, 3, 0);
    }
  }
}
