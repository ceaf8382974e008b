/**
 * The stable sort of Rust's sort_by and sort_by_key, as insertion from the back, for any total
 * preorder. Sorted, a permutation, and stable; together these fix the result.
 */
module StableSort {
  ghost predicate TotalPreorder<T(!new)>(le: (T, T) -> bool) {
    && (forall x, y :: le(x, y) || le(y, x))
    && (forall x, y, z :: le(x, y) && le(y, z) ==> le(x, z))
  }

  ghost predicate Sorted<T>(s: seq<T>, le: (T, T) -> bool) {
    forall i, j :: 0 <= i < j < |s| ==> le(s[i], s[j])
  }

  /** Puts x before the first element that does not come strictly before it. */
  function Insert<T>(x: T, s: seq<T>, le: (T, T) -> bool): (r: seq<T>)
    ensures |r| == |s| + 1
  {
    if s == [] then [x]
    else if le(x, s[0]) then [x] + s
    else [s[0]] + Insert(x, s[1..], le)
  }

  function Sort<T>(s: seq<T>, le: (T, T) -> bool): (r: seq<T>)
    ensures |r| == |s|
  {
    if s == [] then [] else Insert(s[0], Sort(s[1..], le), le)
  }

  lemma {:induction false} InsertPermutes<T>(x: T, s: seq<T>, le: (T, T) -> bool)
    ensures multiset(Insert(x, s, le)) == multiset{x} + multiset(s)
  {
    if s != [] && !le(x, s[0]) {
      InsertPermutes(x, s[1..], le);
      assert s == [s[0]] + s[1..];
    }
  }

  lemma {:induction false} SortPermutes<T>(s: seq<T>, le: (T, T) -> bool)
    ensures multiset(Sort(s, le)) == multiset(s)
  {
    if s != [] {
      SortPermutes(s[1..], le);
      InsertPermutes(s[0], Sort(s[1..], le), le);
      assert s == [s[0]] + s[1..];
    }
  }

  lemma {:induction false} InsertSorted<T(!new)>(x: T, s: seq<T>, le: (T, T) -> bool)
    requires TotalPreorder(le) && Sorted(s, le)
    ensures Sorted(Insert(x, s, le), le)
  {
    if s != [] {
      if le(x, s[0]) {
        forall k | 0 <= k < |s| ensures le(x, s[k]) {
          assert k == 0 || le(s[0], s[k]);
        }
      } else {
        InsertSorted(x, s[1..], le);
        var r := Insert(x, s[1..], le);
        forall k | 0 <= k < |r| ensures le(s[0], r[k]) {
          InsertPermutes(x, s[1..], le);
          assert r[k] in multiset(r);
          assert r[k] == x || r[k] in s[1..];
        }
      }
    }
  }

  lemma {:induction false} SortSorted<T(!new)>(s: seq<T>, le: (T, T) -> bool)
    requires TotalPreorder(le)
    ensures Sorted(Sort(s, le), le)
  {
    if s != [] {
      SortSorted(s[1..], le);
      InsertSorted(s[0], Sort(s[1..], le), le);
    }
  }

  /** The elements of s that tie with x, in order. */
  ghost function Ties<T>(x: T, s: seq<T>, le: (T, T) -> bool): (r: seq<T>)
    ensures |r| <= |s|
  {
    if s == [] then []
    else (if le(x, s[0]) && le(s[0], x) then [s[0]] else []) + Ties(x, s[1..], le)
  }

  lemma {:induction false} InsertStable<T(!new)>(y: T, x: T, s: seq<T>, le: (T, T) -> bool)
    requires TotalPreorder(le)
    ensures Ties(y, Insert(x, s, le), le) == Ties(y, [x] + s, le)
  {
    assert ([x] + s)[1..] == s;
    if s != [] && !le(x, s[0]) {
      InsertStable(y, x, s[1..], le);
      assert Insert(x, s, le)[1..] == Insert(x, s[1..], le);
      assert ([x] + s[1..])[1..] == s[1..];
    }
  }

  /** Elements that tie keep their order. */
  lemma {:induction false} SortStable<T(!new)>(y: T, s: seq<T>, le: (T, T) -> bool)
    requires TotalPreorder(le)
    ensures Ties(y, Sort(s, le), le) == Ties(y, s, le)
  {
    if s != [] {
      SortStable(y, s[1..], le);
      InsertStable(y, s[0], Sort(s[1..], le), le);
      assert ([s[0]] + Sort(s[1..], le))[1..] == Sort(s[1..], le);
    }
  }

  /** Sorting a sorted sequence changes nothing. */
  lemma {:induction false} SortOfSorted<T>(s: seq<T>, le: (T, T) -> bool)
    requires Sorted(s, le)
    ensures Sort(s, le) == s
  {
    if s != [] {
      SortOfSorted(s[1..], le);
      if |s| > 1 {
        assert le(s[0], s[1]);
      }
      assert s == [s[0]] + s[1..];
    }
  }

  /** i is the first position among those holding a least element. */
  ghost predicate FirstLeast<T>(s: seq<T>, i: nat, le: (T, T) -> bool) {
    && i < |s|
    && (forall j :: 0 <= j < |s| ==> le(s[i], s[j]))
    && (forall j :: 0 <= j < i ==> !le(s[j], s[i]))
  }

  /** The head of the sorted sequence is the first least element of the input. */
  lemma {:induction false} SortHead<T(!new)>(s: seq<T>, le: (T, T) -> bool) returns (i: nat)
    requires TotalPreorder(le) && s != []
    ensures FirstLeast(s, i, le) && Sort(s, le)[0] == s[i]
  {
    if |s| == 1 {
      i := 0;
      assert le(s[0], s[0]);
    } else {
      var k := SortHead(s[1..], le);
      var h := s[1..][k];
      if le(s[0], h) {
        i := 0;
        forall j | 0 <= j < |s| ensures le(s[0], s[j]) {
          assert j == 0 || le(h, s[1..][j - 1]);
        }
      } else {
        i := k + 1;
        forall j | 0 <= j < |s| ensures le(s[i], s[j]) {
          assert j == 0 || le(h, s[1..][j - 1]);
        }
        forall j | 0 <= j < i ensures !le(s[j], s[i]) {
          assert j == 0 || !le(s[1..][j - 1], h);
        }
      }
    }
  }
}
