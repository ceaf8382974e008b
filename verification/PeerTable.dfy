/**
 * The eight-slot table of the last contact time per peer address,
 * examples/m5stack-core2-peat/src/nimble.rs. The same code keeps sync times and failure times.
 *
 * An address is the number its six bytes spell; 0 is the address of an unused slot. Times are u32.
 */
module PeerTable {
  const SLOTS: nat := 8
  const U32_MAX: nat := 0xFFFF_FFFF

  type Mac = nat

  datatype Slot = Slot(mac: Mac, time: nat)

  ghost predicate WellSized(t: seq<Slot>) {
    |t| == SLOTS && forall i :: 0 <= i < |t| ==> t[i].time <= U32_MAX
  }

  // --- What recording does ---

  /** The first slot holding mac, or the number of slots. */
  function Find(t: seq<Slot>, mac: Mac): (r: nat)
    ensures r <= |t| && (r < |t| ==> t[r].mac == mac) && forall i :: 0 <= i < r ==> t[i].mac != mac
  {
    if t == [] then 0
    else
      var r := Find(t[..|t| - 1], mac);
      if r < |t| - 1 || t[|t| - 1].mac == mac then r else |t|
  }

  /** The first slot with the smallest time. */
  function Oldest(t: seq<Slot>): (r: nat)
    requires t != []
    ensures r < |t| && (forall i :: 0 <= i < |t| ==> t[r].time <= t[i].time)
    ensures forall i :: 0 <= i < r ==> t[r].time < t[i].time
  {
    if |t| == 1 then 0
    else
      var r := Oldest(t[..|t| - 1]);
      if t[|t| - 1].time < t[r].time then |t| - 1 else r
  }

  function Recorded(t: seq<Slot>, mac: Mac, time: nat): seq<Slot>
    requires t != []
  {
    var i := Find(t, mac);
    if i < |t| then t[i := Slot(mac, time)] else t[Oldest(t) := Slot(mac, time)]
  }

  function TimeOf(t: seq<Slot>, mac: Mac): nat {
    var i := Find(t, mac);
    if i < |t| then t[i].time else 0
  }

  const UNUSED := Slot(0, 0)

  function Empty(): seq<Slot> { [UNUSED, UNUSED, UNUSED, UNUSED, UNUSED, UNUSED, UNUSED, UNUSED] }

  class TimeTable {
    const slots: array<Slot>

    ghost predicate Valid()
      reads slots
    {
      WellSized(slots[..])
    }

    constructor ()
      ensures Valid() && fresh(slots) && slots[..] == Empty()
    {
      slots := new Slot[SLOTS](_ => UNUSED);
    }

    method Record(mac: Mac, time: nat)
      requires Valid() && time <= U32_MAX
      modifies slots
      ensures Valid() && slots[..] == Recorded(old(slots[..]), mac, time)
    {
      var oldestIdx, oldestTime := 0, U32_MAX;
      ghost var t := slots[..];
      for i := 0 to slots.Length
        invariant slots[..] == t
        invariant forall j :: 0 <= j < i ==> t[j].mac != mac
        invariant oldestIdx < slots.Length && oldestTime <= U32_MAX
        invariant forall j :: 0 <= j < i ==> oldestTime <= t[j].time
        invariant oldestTime < U32_MAX ==> oldestIdx < i && t[oldestIdx].time == oldestTime
        invariant oldestTime < U32_MAX ==> forall j :: 0 <= j < oldestIdx ==> oldestTime < t[j].time
        invariant oldestTime == U32_MAX ==> oldestIdx == 0
      {
        var slot := slots[i];
        assert slot == t[i];
        if slot.mac == mac {
          slots[i] := Slot(slot.mac, time);
          assert Find(t, mac) == i;
          return;
        }
        if slot.time < oldestTime {
          oldestTime := slot.time;
          oldestIdx := i;
        }
      }
      assert oldestIdx == Oldest(t);
      slots[oldestIdx] := Slot(mac, time);
    }

    method Get(mac: Mac) returns (time: nat)
      requires Valid()
      ensures time == TimeOf(slots[..], mac)
    {
      for i := 0 to slots.Length
        invariant forall j :: 0 <= j < i ==> slots[j].mac != mac
      {
        if slots[i].mac == mac {
          assert Find(slots[..], mac) == i;
          return slots[i].time;
        }
      }
      return 0;
    }
  }

  // --- Runs against an unbounded map ---

  datatype Contact = Contact(mac: Mac, time: nat)

  ghost function Run(log: seq<Contact>): (t: seq<Slot>)
    ensures |t| == SLOTS
  {
    if log == [] then Empty()
    else Recorded(Run(log[..|log| - 1]), log[|log| - 1].mac, log[|log| - 1].time)
  }

  /** What a map with room for every peer would hold: each peer's latest contact time. */
  function Latest(log: seq<Contact>): map<Mac, nat> {
    if log == [] then map[] else Latest(log[..|log| - 1])[log[|log| - 1].mac := log[|log| - 1].time]
  }

  ghost predicate NoRepeats(t: seq<Slot>) {
    forall i, j :: 0 <= i < j < |t| && t[i].mac == t[j].mac ==> t[i].mac == 0
  }

  /** Whatever is recorded, zero address or stale time included, no non-zero address is held twice. */
  lemma {:induction false} NeverHeldTwice(log: seq<Contact>)
    ensures NoRepeats(Run(log))
  {
    if log != [] {
      NeverHeldTwice(log[..|log| - 1]);
    }
  }

  /** Real addresses, recorded at positive times that never go back. */
  ghost predicate Ordered(log: seq<Contact>) {
    && (forall i :: 0 <= i < |log| ==> log[i].mac != 0 && 0 < log[i].time)
    && (forall i, j :: 0 <= i < j < |log| ==> log[i].time <= log[j].time)
  }

  /** Every used slot agrees with the map, and unused slots have time 0. */
  ghost predicate Agrees(t: seq<Slot>, m: map<Mac, nat>) {
    && (forall i :: 0 <= i < |t| && t[i].mac == 0 ==> t[i].time == 0)
    && (forall i :: 0 <= i < |t| && t[i].mac != 0 ==> t[i].mac in m && m[t[i].mac] == t[i].time)
  }

  /** A recorded peer missing from the table is no later than any slot. */
  ghost predicate MissingAreOlder(t: seq<Slot>, m: map<Mac, nat>) {
    forall x, i :: x in m && Find(t, x) == |t| && 0 <= i < |t| ==> m[x] <= t[i].time
  }

  ghost predicate PositiveBelow(m: map<Mac, nat>, time: nat) {
    forall x :: x in m ==> x != 0 && 0 < m[x] <= time
  }

  ghost predicate Inv(t: seq<Slot>, m: map<Mac, nat>) {
    |t| == SLOTS && NoRepeats(t) && Agrees(t, m) && MissingAreOlder(t, m)
  }

  function Target(t: seq<Slot>, mac: Mac): (k: nat)
    requires t != []
    ensures k < |t| && forall time :: Recorded(t, mac, time) == t[k := Slot(mac, time)]
  {
    if Find(t, mac) < |t| then Find(t, mac) else Oldest(t)
  }

  lemma OthersDiffer(t: seq<Slot>, mac: Mac, i: nat)
    requires t != [] && NoRepeats(t) && mac != 0 && i < |t| && i != Target(t, mac)
    ensures t[i].mac != mac
  {
    var k := Find(t, mac);
    assert k < |t| ==> t[k].mac == mac;
  }

  lemma TimesBelow(t: seq<Slot>, m: map<Mac, nat>, time: nat, i: nat)
    requires Agrees(t, m) && PositiveBelow(m, time) && 0 < time && i < |t|
    ensures t[i].time <= time
  {}

  lemma RecordAgrees(t: seq<Slot>, m: map<Mac, nat>, mac: Mac, time: nat)
    requires t != [] && NoRepeats(t) && Agrees(t, m) && PositiveBelow(m, time) && mac != 0 && 0 < time
    ensures NoRepeats(t[Target(t, mac) := Slot(mac, time)])
    ensures Agrees(t[Target(t, mac) := Slot(mac, time)], m[mac := time])
  {
    var k := Target(t, mac);
    forall i | 0 <= i < |t| ensures t[i].time <= time { TimesBelow(t, m, time, i); }
    forall i | 0 <= i < |t| && i != k ensures t[i].mac != mac { OthersDiffer(t, mac, i); }
    hide Target, Find, Oldest;
  }

  lemma RecordInv(t: seq<Slot>, m: map<Mac, nat>, mac: Mac, time: nat)
    requires Inv(t, m) && PositiveBelow(m, time) && mac != 0 && 0 < time
    ensures Inv(Recorded(t, mac, time), m[mac := time])
  {
    var k := Target(t, mac);
    var r, m' := t[k := Slot(mac, time)], m[mac := time];
    assert Recorded(t, mac, time) == r;
    RecordAgrees(t, m, mac, time);
    forall x, i | x in m' && Find(r, x) == |r| && 0 <= i < |r| ensures m'[x] <= r[i].time {
      StillMissing(t, m, mac, time, x, i);
    }
    hide *;
  }

  lemma StillMissing(t: seq<Slot>, m: map<Mac, nat>, mac: Mac, time: nat, x: Mac, i: nat)
    requires Inv(t, m) && PositiveBelow(m, time) && mac != 0 && 0 < time && i < |t|
    requires var r := t[Target(t, mac) := Slot(mac, time)]; x in m[mac := time] && Find(r, x) == |r|
    ensures x != mac && x in m && m[x] <= t[Target(t, mac) := Slot(mac, time)][i].time
  {
    var k := Target(t, mac);
    var r := t[k := Slot(mac, time)];
    assert r[k].mac == mac;
    var j := Find(t, x);
    if j < |t| {
      assert r[j].mac != x;
      assert j == k && t[k].mac == x && m[x] == t[k].time;
      if i != k { assert t[k].time <= t[i].time; }
    } else {
      assert m[x] <= t[i].time;
    }
  }

  lemma {:induction false} LatestBelow(log: seq<Contact>, time: nat)
    requires Ordered(log) && forall i :: 0 <= i < |log| ==> log[i].time <= time
    ensures PositiveBelow(Latest(log), time)
  {
    if log != [] {
      LatestBelow(log[..|log| - 1], time);
    }
  }

  lemma {:induction false} RunInv(log: seq<Contact>)
    requires Ordered(log)
    ensures Inv(Run(log), Latest(log))
  {
    if log != [] {
      var init, c := log[..|log| - 1], log[|log| - 1];
      RunInv(init);
      LatestBelow(init, c.time);
      RecordInv(Run(init), Latest(init), c.mac, c.time);
    }
  }

  // --- The eight most recent ---

  /** The peers contacted after mac was. */
  ghost function Later(m: map<Mac, nat>, mac: Mac): set<Mac>
    requires mac in m
  {
    set x | x in m && m[x] > m[mac]
  }

  /** The peers not contacted before mac was, itself among them. */
  ghost function NotEarlier(m: map<Mac, nat>, mac: Mac): set<Mac>
    requires mac in m
  {
    set x | x in m && m[x] >= m[mac]
  }

  ghost function Macs(t: seq<Slot>): (s: set<Mac>)
    ensures forall x :: x in s <==> exists i :: 0 <= i < |t| && t[i].mac == x
  {
    set i | 0 <= i < |t| :: t[i].mac
  }

  lemma {:induction false} MacsSize(t: seq<Slot>)
    ensures |Macs(t)| <= |t|
    ensures (forall i, j :: 0 <= i < j < |t| ==> t[i].mac != t[j].mac) ==> |Macs(t)| == |t|
  {
    if t != [] {
      var init, last := t[..|t| - 1], t[|t| - 1];
      MacsSize(init);
      assert Macs(t) == Macs(init) + {last.mac};
      if forall i, j :: 0 <= i < j < |t| ==> t[i].mac != t[j].mac {
        assert last.mac !in Macs(init);
      }
    }
  }

  lemma PresentHasFewLater(t: seq<Slot>, m: map<Mac, nat>, mac: Mac)
    requires Inv(t, m) && mac in m && Find(t, mac) < |t| && mac != 0
    ensures TimeOf(t, mac) == m[mac] && |Later(m, mac)| < SLOTS
  {
    var k := Find(t, mac);
    forall x | x in m && Find(t, x) == |t| ensures m[x] <= m[mac] { assert m[x] <= t[k].time; }
    forall x | x in Later(m, mac) ensures x in Macs(t) - {mac} { assert Find(t, x) < |t|; }
    MacsSize(t);
    assert Later(m, mac) <= Macs(t) - {mac};
    SubsetSize(Later(m, mac), Macs(t) - {mac});
  }

  lemma MissingHasManyNotEarlier(t: seq<Slot>, m: map<Mac, nat>, mac: Mac)
    requires Inv(t, m) && mac in m && Find(t, mac) == |t| && 0 < m[mac]
    ensures TimeOf(t, mac) == 0 && |NotEarlier(m, mac)| > SLOTS
  {
    forall i | 0 <= i < |t| ensures t[i].mac != 0 && t[i].mac in NotEarlier(m, mac) - {mac} {
      assert m[mac] <= t[i].time;
    }
    MacsSize(t);
    assert Macs(t) <= NotEarlier(m, mac) - {mac};
    SubsetSize(Macs(t), NotEarlier(m, mac) - {mac});
  }

  lemma {:induction false} SubsetSize<T>(a: set<T>, b: set<T>)
    requires a <= b
    ensures |a| <= |b|
  {
    if a != {} {
      var x :| x in a;
      SubsetSize(a - {x}, b - {x});
    }
  }

  /**
   * For every run of contacts with real addresses at positive times that never go back: the table answers
   * with the latest time or 0, with the latest time if at most eight peers are as recent, and with 0 if
   * eight are more recent.
   */
  lemma KeepsRecent(log: seq<Contact>, mac: Mac)
    requires Ordered(log) && mac in Latest(log)
    ensures var m := Latest(log);
            && (TimeOf(Run(log), mac) == m[mac] > 0 || TimeOf(Run(log), mac) == 0 < m[mac])
            && (|NotEarlier(m, mac)| <= SLOTS ==> TimeOf(Run(log), mac) == m[mac])
            && (|Later(m, mac)| >= SLOTS ==> TimeOf(Run(log), mac) == 0)
  {
    RunInv(log);
    var t, m := Run(log), Latest(log);
    if log != [] { LatestBelow(log, log[|log| - 1].time); }
    hide Run, Latest;
    if Find(t, mac) < |t| {
      PresentHasFewLater(t, m, mac);
    } else {
      MissingHasManyNotEarlier(t, m, mac);
    }
  }

  /** No other peer was last contacted at the same time. */
  ghost predicate NoTie(m: map<Mac, nat>, mac: Mac)
    requires mac in m
  {
    forall x :: x in m && m[x] == m[mac] ==> x == mac
  }

  /**
   * Without ties, so whenever times strictly increase, the table answers like the unbounded map for exactly
   * the eight most recently contacted peers, and 0 otherwise.
   */
  lemma KeepsTheEightMostRecent(log: seq<Contact>, mac: Mac)
    requires Ordered(log) && mac in Latest(log) && NoTie(Latest(log), mac)
    ensures var m := Latest(log);
            && (|Later(m, mac)| < SLOTS <==> TimeOf(Run(log), mac) == m[mac])
            && (|Later(m, mac)| >= SLOTS <==> TimeOf(Run(log), mac) == 0)
  {
    KeepsRecent(log, mac);
    var m := Latest(log);
    hide Run, Latest;
    assert NotEarlier(m, mac) == Later(m, mac) + {mac};
  }

  lemma {:induction false} StrictTimesHaveNoTies(log: seq<Contact>, mac: Mac)
    requires forall i, j :: 0 <= i < j < |log| ==> log[i].time < log[j].time
    requires mac in Latest(log)
    ensures NoTie(Latest(log), mac)
  {
    var n := |log| - 1;
    var init, last := log[..n], log[n];
    forall x | x in Latest(init) ensures Latest(init)[x] < last.time { LatestIsRecorded(init, x); }
    if mac != last.mac {
      StrictTimesHaveNoTies(init, mac);
    }
  }

  lemma {:induction false} LatestIsRecorded(log: seq<Contact>, mac: Mac)
    requires mac in Latest(log)
    ensures exists i :: 0 <= i < |log| && log[i].time == Latest(log)[mac]
  {
    var n := |log| - 1;
    if mac != log[n].mac {
      LatestIsRecorded(log[..n], mac);
    }
  }

  /** A peer never contacted is always answered with 0. */
  lemma UnknownIsZero(log: seq<Contact>, mac: Mac)
    requires Ordered(log) && mac !in Latest(log)
    ensures TimeOf(Run(log), mac) == 0
  {
    RunInv(log);
  }
}
