/** The lexicographic order on strings that Rust's string comparison uses. */
module StringOrder {
  predicate Less(a: string, b: string) {
    b != [] && (a == [] || a[0] < b[0] || (a[0] == b[0] && Less(a[1..], b[1..])))
  }

  lemma {:induction false} LessIrreflexive(a: string)
    ensures !Less(a, a)
  {
    if a != [] {
      LessIrreflexive(a[1..]);
    }
  }

  lemma {:induction false} LessTransitive(a: string, b: string, c: string)
    requires Less(a, b) && Less(b, c)
    ensures Less(a, c)
  {
    if a != [] && a[0] == b[0] == c[0] {
      LessTransitive(a[1..], b[1..], c[1..]);
    }
  }

  lemma {:induction false} LessTotal(a: string, b: string)
    ensures a == b || Less(a, b) || Less(b, a)
  {
    if a != [] && b != [] && a[0] == b[0] {
      LessTotal(a[1..], b[1..]);
      assert a == [a[0]] + a[1..] && b == [b[0]] + b[1..];
    }
  }

  lemma LessAsymmetric(a: string, b: string)
    requires Less(a, b)
    ensures !Less(b, a)
  {
    if Less(b, a) {
      LessTransitive(a, b, a);
      LessIrreflexive(a);
    }
  }

  /** m is the greatest of the ids. */
  ghost predicate IsGreatest(m: string, ids: set<string>) {
    m in ids && forall x :: x in ids && x != m ==> Less(x, m)
  }

  lemma {:induction false} GreatestExists(ids: set<string>) returns (m: string)
    requires ids != {}
    ensures IsGreatest(m, ids)
  {
    var x :| x in ids;
    if ids == {x} {
      m := x;
    } else {
      var rest := ids - {x};
      assert rest != {} by { assert exists y :: y in ids && y != x; }
      var k := GreatestExists(rest);
      LessTotal(x, k);
      if Less(x, k) {
        m := k;
      } else {
        m := x;
        forall y | y in ids && y != x ensures Less(y, x) {
          if y != k { LessTransitive(y, k, x); }
        }
      }
    }
  }

  ghost function Greatest(ids: set<string>): (m: string)
    requires ids != {}
    ensures IsGreatest(m, ids)
  {
    assert exists m :: IsGreatest(m, ids) by {
      var m := GreatestExists(ids);
    }
    var m :| IsGreatest(m, ids);
    m
  }

  /** The order of a dictionary: a proper prefix comes first, and otherwise the first difference decides. */
  lemma {:induction false} DictionaryOrder(prefix: string, a: string, b: string)
    ensures b != [] && (a == [] || a[0] < b[0]) ==> Less(prefix + a, prefix + b)
    ensures a != [] && (b == [] || b[0] < a[0]) ==> !Less(prefix + a, prefix + b)
  {
    if prefix == [] {
      assert prefix + a == a && prefix + b == b;
    } else {
      assert (prefix + a)[1..] == prefix[1..] + a && (prefix + b)[1..] == prefix[1..] + b;
      DictionaryOrder(prefix[1..], a, b);
    }
  }
}
