/**
 * The roster store and its crash consistency, peat-ffi/src/roster.rs.
 */
module RosterStore {
  import opened StableSort
  import opened Roster

  // --- What each operation does to the entries ---

  function Upserted(m: Entries, e: RosterEntry): Entries {
    var known := e.nodeId in m && e.lastSeen < m[e.nodeId].lastSeen;
    m[e.nodeId := if known then e.(lastSeen := m[e.nodeId].lastSeen) else e]
  }

  function Removed(m: Entries, id: string): Entries { map x | x in m && x != id :: m[x] }

  function Seen(m: Entries, id: string, now: nat): Entries {
    if id in m then m[id := m[id].(lastSeen := now)] else m
  }

  // --- Persisting ---

  /** The disk after persisting m with the given outcome. */
  ghost function Persisted(d: Disk, m: Entries, o: Outcome): Disk {
    match o
    case WriteFails(left) => d.(tmp := left)
    case RenameFails => d.(tmp := Json(Listing(m)))
    case Saved => Disk(Json(Listing(m)), Absent)
  }

  class Store {
    var entries: Entries
    var live: File
    var tmp: File

    function Files(): Disk
      reads this
    {
      Disk(live, tmp)
    }

    ghost predicate Valid()
      reads this
    {
      Coherent(entries)
    }

    constructor Load(d: Disk)
      ensures Valid() && entries == Loaded(d.live) && Files() == d
    {
      entries := Loaded(d.live);
      live, tmp := d.live, d.tmp;
    }

    method List() returns (list: seq<RosterEntry>)
      requires Valid()
      ensures list == Listing(entries)
    {
      var gathered: seq<RosterEntry> := [];
      var todo := entries.Keys;
      while todo != {}
        invariant todo <= entries.Keys
        invariant forall e :: e in gathered <==> e.nodeId in entries && e.nodeId !in todo && entries[e.nodeId] == e
        invariant forall i, j :: 0 <= i < j < |gathered| ==> gathered[i] != gathered[j]
      {
        var id :| id in todo;
        gathered := gathered + [entries[id]];
        todo := todo - {id};
      }
      SortGivesListing(entries, gathered);
      list := Sort(gathered, ById());
    }

    method Persist(o: Outcome)
      requires Valid()
      modifies this`live, this`tmp
      ensures Files() == Persisted(old(Files()), entries, o)
    {
      var list := List();
      if o.WriteFails? {
        tmp := o.left;
        return;
      }
      tmp := Json(list);
      if o.RenameFails? {
        return;
      }
      live, tmp := tmp, Absent;
    }

    method Upsert(e: RosterEntry, o: Outcome)
      requires Valid()
      modifies this
      ensures Valid() && entries == Upserted(old(entries), e)
      ensures Files() == Persisted(old(Files()), entries, o)
    {
      var entry := e;
      if entry.nodeId in entries {
        var existing := entries[entry.nodeId];
        if entry.lastSeen < existing.lastSeen {
          entry := entry.(lastSeen := existing.lastSeen);
        }
      }
      entries := entries[entry.nodeId := entry];
      Persist(o);
    }

    method Remove(id: string, o: Outcome) returns (removed: bool)
      requires Valid()
      modifies this
      ensures Valid() && removed == (id in old(entries)) && entries == Removed(old(entries), id)
      ensures Files() == if removed then Persisted(old(Files()), entries, o) else old(Files())
    {
      removed := id in entries;
      entries := map x | x in entries && x != id :: entries[x];
      if removed {
        Persist(o);
      }
    }

    method MarkSeen(id: string, now: nat, o: Outcome)
      requires Valid()
      modifies this
      ensures Valid() && entries == Seen(old(entries), id, now)
      ensures Files() == if id in old(entries) then Persisted(old(Files()), entries, o) else old(Files())
    {
      if id in entries {
        entries := entries[id := entries[id].(lastSeen := now)];
        Persist(o);
      }
    }
  }

  // --- Runs ---

  datatype Op = Upsert(entry: RosterEntry) | Remove(id: string) | MarkSeen(id: string, now: nat)

  datatype Event = Event(op: Op, outcome: Outcome)

  datatype State = State(entries: Entries, disk: Disk)

  function Applied(m: Entries, op: Op): (r: Entries)
    ensures Coherent(m) ==> Coherent(r)
  {
    match op
    case Upsert(e) => Upserted(m, e)
    case Remove(id) => Removed(m, id)
    case MarkSeen(id, now) => Seen(m, id, now)
  }

  /** Whether the operation writes the roster at all. */
  predicate Writes(m: Entries, op: Op) { op.Upsert? || op.id in m }

  ghost function Step(s: State, e: Event): State {
    var m := Applied(s.entries, e.op);
    State(m, if Writes(s.entries, e.op) then Persisted(s.disk, m, e.outcome) else s.disk)
  }

  ghost function Run(start: Disk, events: seq<Event>): State {
    if events == [] then State(Loaded(start.live), start)
    else Step(Run(start, events[..|events| - 1]), events[|events| - 1])
  }

  /** The number of operations up to and including the last one whose write reached the live file. */
  ghost function SavedUpTo(start: Disk, events: seq<Event>): (k: nat)
    ensures k <= |events|
  {
    if events == [] then 0
    else
      var init, e := events[..|events| - 1], events[|events| - 1];
      if Writes(Run(start, init).entries, e.op) && e.outcome == Saved then |events| else SavedUpTo(start, init)
  }

  lemma {:induction false} RunCoherent(start: Disk, events: seq<Event>)
    ensures Coherent(Run(start, events).entries)
  {
    if events != [] {
      RunCoherent(start, events[..|events| - 1]);
    }
  }

  /** The live file always holds the roster as it stood after the last operation that was saved. */
  lemma {:induction false} LiveHoldsAPrefix(start: Disk, events: seq<Event>)
    ensures Loaded(Run(start, events).disk.live) == Run(start, events[..SavedUpTo(start, events)]).entries
  {
    hide Loaded, Listing;
    if events != [] {
      var init, e := events[..|events| - 1], events[|events| - 1];
      LiveHoldsAPrefix(start, init);
      var s := Run(start, events);
      if Writes(Run(start, init).entries, e.op) && e.outcome == Saved {
        RunCoherent(start, events);
        LoadUndoesSave(s.entries);
        assert events[..|events|] == events;
      } else {
        var k := SavedUpTo(start, init);
        assert init[..k] == events[..k];
      }
    }
  }

  /** The disks a crash can leave while m is being persisted on d: at any point of the write, or around the rename. */
  ghost predicate CrashDisk(d: Disk, m: Entries, o: Outcome, crashed: Disk) {
    || (exists partial: File :: crashed == d.(tmp := partial))
    || (!o.WriteFails? && crashed == d.(tmp := Json(Listing(m))))
    || crashed == Persisted(d, m, o)
  }

  /**
   * Crash consistency. Crash anywhere inside any operation of any run, with any writes failing: what
   * is loaded afterwards is the roster after some prefix of the operations, at least as recent as the
   * last operation saved before.
   */
  lemma CrashRecoversAPrefix(start: Disk, events: seq<Event>, e: Event, crashed: Disk)
    requires var s := Run(start, events);
             crashed == s.disk || (Writes(s.entries, e.op)
                 && CrashDisk(s.disk, Applied(s.entries, e.op), e.outcome, crashed))
    ensures exists k :: SavedUpTo(start, events) <= k <= |events| + 1
                     && Loaded(crashed.live) == Run(start, (events + [e])[..k]).entries
  {
    hide Loaded, Listing, Applied, Persisted, CrashDisk, SavedUpTo;
    var all := events + [e];
    var s, k, n := Run(start, events), SavedUpTo(start, events), |events| + 1;
    LiveHoldsAPrefix(start, events);
    assert all[..k] == events[..k];
    if crashed.live == s.disk.live {
      assert Loaded(crashed.live) == Run(start, all[..k]).entries;
    } else {
      var m := Applied(s.entries, e.op);
      CrashLive(s.disk, m, e.outcome, crashed);
      RunCoherent(start, events);
      LoadUndoesSave(m);
      assert all[..n] == all && all[..|events|] == events;
      assert Loaded(crashed.live) == Run(start, all[..n]).entries;
    }
  }

  lemma CrashLive(d: Disk, m: Entries, o: Outcome, crashed: Disk)
    requires CrashDisk(d, m, o, crashed)
    ensures crashed.live == d.live || crashed.live == Json(Listing(m))
  {}

  /** What a crash recovers never goes back: a longer run has saved at least as much. */
  lemma {:induction false} SavedNeverShrinks(start: Disk, events: seq<Event>, more: seq<Event>)
    ensures SavedUpTo(start, events) <= SavedUpTo(start, events + more)
    decreases |more|
  {
    if more == [] {
      assert events + more == events;
    } else {
      SavedNeverShrinks(start, events, more[..|more| - 1]);
      assert (events + more)[..|events + more| - 1] == events + more[..|more| - 1];
    }
  }

  /** When every write succeeds, loading returns exactly the entries in memory. */
  lemma {:induction false} LoadEqualsMemory(start: Disk, events: seq<Event>)
    requires forall i :: 0 <= i < |events| ==> events[i].outcome == Saved
    ensures Loaded(Run(start, events).disk.live) == Run(start, events).entries
  {
    hide Loaded, Listing;
    if events != [] {
      var init, e := events[..|events| - 1], events[|events| - 1];
      LoadEqualsMemory(start, init);
      var s := Run(start, events);
      if Writes(Run(start, init).entries, e.op) {
        RunCoherent(start, events);
        LoadUndoesSave(s.entries);
      } else {
        assert s.entries == Run(start, init).entries;
      }
    }
  }

  // --- What an operation leaves ---

  /**
   * After an upsert the entry is the given one with the later of the two contact times, after a removal it is
   * gone, after a contact only its time changed; every other entry is as before.
   */
  lemma AppliedTo(m: Entries, op: Op, other: string)
    ensures var r := Applied(m, op);
            && (op.Upsert? ==>
                  var e := op.entry;
                  && e.nodeId in r
                  && r[e.nodeId].nodeId == e.nodeId && r[e.nodeId].groupId == e.groupId && r[e.nodeId].name == e.name
                  && r[e.nodeId].addresses == e.addresses && r[e.nodeId].relayUrl == e.relayUrl
                  && r[e.nodeId].lastSeen >= e.lastSeen
                  && (e.nodeId in m ==> r[e.nodeId].lastSeen >= m[e.nodeId].lastSeen)
                  && (r[e.nodeId].lastSeen == e.lastSeen
                      || (e.nodeId in m && r[e.nodeId].lastSeen == m[e.nodeId].lastSeen)))
            && (op.Remove? ==> op.id !in r)
            && (op.MarkSeen? ==> (op.id in r <==> op.id in m))
            && (op.MarkSeen? && op.id in m ==> r[op.id] == m[op.id].(lastSeen := op.now))
            && (other != (if op.Upsert? then op.entry.nodeId else op.id) ==>
                  (other in r <==> other in m) && (other in m ==> r[other] == m[other]))
  {}

  /** A missing or corrupt file is an empty roster; of two entries with one id in a file the later counts. */
  lemma {:induction false} LoadedLast(list: seq<RosterEntry>, i: nat)
    requires i < |list| && forall j :: i < j < |list| ==> list[j].nodeId != list[i].nodeId
    ensures Loaded(Absent) == map[] && Loaded(Garbage) == map[]
    ensures list[i].nodeId in Loaded(Json(list)) && Loaded(Json(list))[list[i].nodeId] == list[i]
    decreases |list|
  {
    if i < |list| - 1 {
      LoadedLast(list[..|list| - 1], i);
    }
  }

  // --- Last contact ---

  function Contact(op: Op): nat {
    match op
    case Upsert(e) => e.lastSeen
    case Remove(_) => 0
    case MarkSeen(_, now) => now
  }

  /** An operation moves a present entry's last contact back exactly when it marks it seen at an earlier time. */
  lemma LastSeenGoesBackIff(m: Entries, op: Op, id: string)
    requires id in m && id in Applied(m, op) && Coherent(m)
    ensures Applied(m, op)[id].lastSeen < m[id].lastSeen <==> op.MarkSeen? && op.id == id && op.now < m[id].lastSeen
  {}

  /** From an empty disk: an entry last seen at 5 is marked seen at 3. */
  lemma ClockGoesBack(e: RosterEntry)
    requires e.lastSeen == 5
    ensures var events := [Event(Upsert(e), Saved)] + [Event(MarkSeen(e.nodeId, 3), Saved)];
            var before := Run(Disk(Absent, Absent), events[..1]).entries;
            var after := Run(Disk(Absent, Absent), events).entries;
            e.nodeId in before && e.nodeId in after && after[e.nodeId].lastSeen < before[e.nodeId].lastSeen
  {
    hide Listing;
    var events := [Event(Upsert(e), Saved)] + [Event(MarkSeen(e.nodeId, 3), Saved)];
    assert events[..1][..0] == [] && events[..1] == [Event(Upsert(e), Saved)];
  }

  ghost predicate SeenBy(m: Entries, t: nat) { forall id :: id in m ==> m[id].lastSeen <= t }

  /** Contact is always marked at a time no earlier than any time recorded before. */
  ghost predicate ClockAdvances(start: Disk, events: seq<Event>) {
    forall i :: 0 <= i < |events| && events[i].op.MarkSeen? ==>
      && SeenBy(Loaded(start.live), events[i].op.now)
      && forall j :: 0 <= j < i ==> Contact(events[j].op) <= events[i].op.now
  }

  lemma {:induction false} RunSeenBy(start: Disk, events: seq<Event>, t: nat)
    requires SeenBy(Loaded(start.live), t) && forall i :: 0 <= i < |events| ==> Contact(events[i].op) <= t
    ensures SeenBy(Run(start, events).entries, t)
  {
    hide Loaded, Listing;
    if events != [] {
      RunSeenBy(start, events[..|events| - 1], t);
      assert Contact(events[|events| - 1].op) <= t;
    }
  }

  /** With such a clock, no entry's last contact ever goes back while the entry is present. */
  lemma {:induction false} LastSeenNeverGoesBack(start: Disk, events: seq<Event>, i: nat, id: string)
    requires ClockAdvances(start, events) && i <= |events|
    requires forall k :: i <= k <= |events| ==> id in Run(start, events[..k]).entries
    ensures events[..|events|] == events
    ensures Run(start, events[..i]).entries[id].lastSeen <= Run(start, events).entries[id].lastSeen
    decreases |events|
  {
    hide Loaded, Listing, Contact, SeenBy;
    assert events[..|events|] == events;
    if i < |events| {
      var n := |events| - 1;
      var init, e := events[..n], events[n];
      assert init[..i] == events[..i];
      forall k | 0 <= k <= n ensures init[..k] == events[..k] {}
      LastSeenNeverGoesBack(start, init, i, id);
      RunCoherent(start, init);
      assert id in Run(start, events[..n]).entries && id in Run(start, events[..n + 1]).entries;
      assert Run(start, events).entries == Applied(Run(start, init).entries, e.op);
      hide Applied, Coherent, Run;
      LastStep(start, init, e, id);
    }
  }

  lemma LastStep(start: Disk, init: seq<Event>, e: Event, id: string)
    requires var m := Run(start, init).entries; Coherent(m) && id in m && id in Applied(m, e.op)
    requires e.op.MarkSeen? ==>
               SeenBy(Loaded(start.live), e.op.now) && forall j :: 0 <= j < |init| ==> Contact(init[j].op) <= e.op.now
    ensures Run(start, init).entries[id].lastSeen <= Applied(Run(start, init).entries, e.op)[id].lastSeen
  {
    var m := Run(start, init).entries;
    LastSeenGoesBackIff(m, e.op, id);
    if e.op.MarkSeen? {
      RunSeenBy(start, init, e.op.now);
    }
  }
}
