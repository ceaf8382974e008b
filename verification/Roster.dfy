/**
 * The persistent roster of known peers, peat-ffi/src/roster.rs: a map in memory, written whole to a
 * temporary file that is then renamed over the live one.
 *
 * The disk is two files. Serialisation is abstracted: a file holds a list of entries, or bytes that
 * do not parse. Whether a write or a rename succeeds is a parameter, and a failed or interrupted
 * write may leave anything in the temporary file. A rename is atomic.
 */
module Roster {
  import opened Prelude
  import opened StableSort
  import opened StringOrder

  datatype RosterEntry = RosterEntry(
    nodeId: string, groupId: string, name: string, addresses: seq<string>, relayUrl: Option<string>, lastSeen: nat)

  type Entries = map<string, RosterEntry>

  datatype File = Absent | Json(list: seq<RosterEntry>) | Garbage

  datatype Disk = Disk(live: File, tmp: File)

  /** How persisting ends: the write fails and leaves something, the rename fails, or both succeed. */
  datatype Outcome = WriteFails(left: File) | RenameFails | Saved

  // --- Files ---

  /** A later entry with the same id replaces an earlier one. */
  function Collected(list: seq<RosterEntry>): (m: Entries)
    ensures Coherent(m)
  {
    if list == [] then map[]
    else
      var e := list[|list| - 1];
      Collected(list[..|list| - 1])[e.nodeId := e]
  }

  /** A missing or unreadable file is an empty roster. */
  function Loaded(f: File): (m: Entries)
    ensures Coherent(m)
  {
    if f.Json? then Collected(f.list) else map[]
  }

  predicate Coherent(m: Entries) { forall id :: id in m ==> m[id].nodeId == id }

  /** The entries of m with an id in ids, sorted by id. */
  ghost predicate IsListing(m: Entries, ids: set<string>, list: seq<RosterEntry>) {
    && (forall i, j :: 0 <= i < j < |list| ==> Less(list[i].nodeId, list[j].nodeId))
    && (forall e :: e in list <==> e.nodeId in ids && e.nodeId in m && m[e.nodeId] == e)
  }

  ghost function ListingOf(m: Entries, ids: set<string>): seq<RosterEntry>
    requires ids <= m.Keys
  {
    if ids == {} then [] else ListingOf(m, ids - {Greatest(ids)}) + [m[Greatest(ids)]]
  }

  ghost function Listing(m: Entries): seq<RosterEntry> { ListingOf(m, m.Keys) }

  lemma {:induction false} ListingLists(m: Entries, ids: set<string>)
    requires Coherent(m) && ids <= m.Keys
    ensures IsListing(m, ids, ListingOf(m, ids))
  {
    if ids != {} {
      var g := Greatest(ids);
      var init := ListingOf(m, ids - {g});
      ListingLists(m, ids - {g});
      hide ListingOf;
      forall i | 0 <= i < |init| ensures Less(init[i].nodeId, g) { assert init[i] in init; }
    }
  }

  function Restricted(m: Entries, ids: set<string>): Entries { map id | id in ids && id in m :: m[id] }

  lemma {:induction false} CollectedListingOf(m: Entries, ids: set<string>)
    requires Coherent(m) && ids <= m.Keys
    ensures Collected(ListingOf(m, ids)) == Restricted(m, ids)
  {
    if ids != {} {
      var g := Greatest(ids);
      CollectedListingOf(m, ids - {g});
      var init := ListingOf(m, ids - {g});
      assert ListingOf(m, ids)[..|init|] == init;
      assert Restricted(m, ids - {g})[g := m[g]] == Restricted(m, ids);
    }
  }

  /** Reading back what was written gives the same roster. */
  lemma LoadUndoesSave(m: Entries)
    requires Coherent(m)
    ensures Loaded(Json(Listing(m))) == m
  {
    CollectedListingOf(m, m.Keys);
    assert Restricted(m, m.Keys) == m;
  }

  /** A roster has only one sorted listing, whatever order the map was read in. */
  lemma {:induction false} ListingIsUnique(m: Entries, ids: set<string>, list: seq<RosterEntry>)
    requires Coherent(m) && ids <= m.Keys && IsListing(m, ids, list)
    ensures list == ListingOf(m, ids)
    decreases ids
  {
    if list != [] { assert list[0] in list; }
    if ids != {} {
      var g := Greatest(ids);
      assert m[g] in list;
      var n := |list| - 1;
      var last := list[n];
      LastIsGreatest(m, ids, list, g);
      var init := list[..n];
      assert list == init + [last];
      forall e ensures e in init <==> e.nodeId in ids - {g} && m[e.nodeId] == e {
        LessIrreflexive(g);
        if e in init {
          var i :| 0 <= i < n && list[i] == e;
          assert Less(list[i].nodeId, list[n].nodeId);
          assert e in list;
        }
      }
      ListingIsUnique(m, ids - {g}, init);
    }
  }

  lemma LastIsGreatest(m: Entries, ids: set<string>, list: seq<RosterEntry>, g: string)
    requires IsListing(m, ids, list) && IsGreatest(g, ids) && ids <= m.Keys && m[g].nodeId == g
    ensures list != [] && list[|list| - 1] == m[g]
  {
    assert m[g] in list;
    var n := |list| - 1;
    var i :| 0 <= i <= n && list[i] == m[g];
    assert list[n] in list;
    if i < n {
      assert Less(list[i].nodeId, list[n].nodeId);
      LessAsymmetric(g, list[n].nodeId);
    }
  }

  // --- Sorting as the store does it ---

  function ById(): (RosterEntry, RosterEntry) -> bool {
    (a: RosterEntry, b: RosterEntry) => !Less(b.nodeId, a.nodeId)
  }

  lemma ByIdOrders()
    ensures TotalPreorder(ById())
  {
    forall x, y ensures ById()(x, y) || ById()(y, x) {
      if Less(y.nodeId, x.nodeId) { LessAsymmetric(y.nodeId, x.nodeId); }
    }
    forall x, y, z | ById()(x, y) && ById()(y, z) ensures ById()(x, z) {
      if Less(z.nodeId, x.nodeId) {
        LessTotal(z.nodeId, y.nodeId);
        if Less(z.nodeId, y.nodeId) || z.nodeId == y.nodeId {
        } else {
          LessTransitive(y.nodeId, z.nodeId, x.nodeId);
        }
      }
    }
  }

  /** Sorting the entries, gathered in any order, gives the listing. */
  lemma SortGivesListing(m: Entries, gathered: seq<RosterEntry>)
    requires Coherent(m)
    requires forall e :: e in gathered <==> e.nodeId in m && m[e.nodeId] == e
    requires forall i, j :: 0 <= i < j < |gathered| ==> gathered[i] != gathered[j]
    ensures Sort(gathered, ById()) == Listing(m)
  {
    var list := Sort(gathered, ById());
    ByIdOrders();
    SortSorted(gathered, ById());
    SortPermutes(gathered, ById());
    forall e ensures e in list <==> e in gathered { assert e in multiset(list) <==> e in multiset(gathered); }
    DistinctPermutes(gathered, list);
    hide Sort;
    forall i, j | 0 <= i < j < |list| ensures Less(list[i].nodeId, list[j].nodeId) {
      assert ById()(list[i], list[j]);
      assert list[i] in list && list[j] in list;
      LessTotal(list[i].nodeId, list[j].nodeId);
    }
    ListingIsUnique(m, m.Keys, list);
  }

  lemma DistinctPermutes<T>(a: seq<T>, b: seq<T>)
    requires multiset(a) == multiset(b)
    requires forall i, j :: 0 <= i < j < |a| ==> a[i] != a[j]
    ensures forall i, j :: 0 <= i < j < |b| ==> b[i] != b[j]
  {
    forall i, j | 0 <= i < j < |b| ensures b[i] != b[j] {
      if b[i] == b[j] {
        CountTwice(b, i, j);
        CountOnce(a, b[i]);
      }
    }
  }

  lemma {:induction false} CountOnce<T>(a: seq<T>, x: T)
    requires forall i, j :: 0 <= i < j < |a| ==> a[i] != a[j]
    ensures multiset(a)[x] <= 1
  {
    if a != [] {
      var init, last := a[..|a| - 1], a[|a| - 1];
      CountOnce(init, x);
      assert a == init + [last];
      if last == x {
        assert x !in init;
        assert x !in multiset(init);
      }
    }
  }

  lemma CountTwice<T>(b: seq<T>, i: nat, j: nat)
    requires i < j < |b| && b[i] == b[j]
    ensures multiset(b)[b[i]] >= 2
  {
    assert b == b[..j] + [b[j]] + b[j + 1..];
    assert b[..j][i] == b[i] && b[i] in b[..j];
    assert b[i] in multiset(b[..j]);
  }
}
