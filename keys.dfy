/**
  The order in which the model takes report rows before any ORDER BY:
  ascending primary key.  The database promises no such order; the model
  picks this one, and nothing proved about the listing depends on it beyond
  its being a duplicate-free enumeration of the table.
 */
module Keys {
  import opened Schema

  /** A set is empty or has a member (stated without a precondition). */
  lemma Inhabited(s: set<PrivateMessageReportId>)
    ensures s == {} || exists x :: x in s
  {
    if !exists x :: x in s {
      assert s == {};
    }
  }

  predicate IsLeast(m: PrivateMessageReportId, s: set<PrivateMessageReportId>) {
    m in s && forall y | y in s :: m <= y
  }

  lemma {:induction false} LeastExists(s: set<PrivateMessageReportId>)
    requires s != {}
    ensures exists m :: IsLeast(m, s)
  {
    Inhabited(s);
    var x :| x in s;
    if s - {x} == {} {
      assert s == {x};
      assert IsLeast(x, s);
    } else {
      LeastExists(s - {x});
      var m :| IsLeast(m, s - {x});
      var least := if x < m then x else m;
      forall y | y in s
        ensures least <= y
      {
        if y != x { assert y in s - {x}; }
      }
      assert IsLeast(least, s);
    }
  }

  /** A subset is no larger than its superset. */
  lemma {:induction false} SubsetCardinality(a: set<PrivateMessageReportId>, b: set<PrivateMessageReportId>)
    requires a <= b
    ensures |a| <= |b|
  {
    Inhabited(a);
    if a != {} {
      var x :| x in a;
      SubsetCardinality(a - {x}, b - {x});
    }
  }

  /** Leaving out a member of the superset makes a subset strictly smaller. */
  lemma ProperSubsetCardinality(a: set<PrivateMessageReportId>, b: set<PrivateMessageReportId>, x: PrivateMessageReportId)
    requires a <= b && x in b && x !in a
    ensures |a| < |b|
  {
    SubsetCardinality(a, b - {x});
    assert |b - {x}| == |b| - 1;
  }

  /** `r` lists the members of `s`, each once, smallest first. */
  ghost predicate Enumerates(r: seq<PrivateMessageReportId>, s: set<PrivateMessageReportId>) {
    && (forall k :: k in r <==> k in s)
    && |r| == |s|
    && (forall i, j | 0 <= i < j < |r| :: r[i] < r[j])
  }

  lemma PrependLeast(m: PrivateMessageReportId, s: set<PrivateMessageReportId>, rest: seq<PrivateMessageReportId>)
    requires IsLeast(m, s) && Enumerates(rest, s - {m})
    ensures Enumerates([m] + rest, s)
  {
    var r := [m] + rest;
    assert |s - {m}| == |s| - 1;
    forall k
      ensures k in r <==> k in s
    {
      assert k in r <==> k == m || k in rest;
    }
    forall i, j | 0 <= i < j < |r|
      ensures r[i] < r[j]
    {
      assert r[j] == rest[j - 1];
      if i > 0 { assert r[i] == rest[i - 1]; }
      else { assert rest[j - 1] in s - {m}; }
    }
  }

  /** The keys of a report table, smallest first. */
  function SortedKeys(s: set<PrivateMessageReportId>): (r: seq<PrivateMessageReportId>)
    ensures Enumerates(r, s)
    decreases s
  {
    if s == {} then []
    else
      LeastExists(s);
      assert forall a, b | IsLeast(a, s) && IsLeast(b, s) :: a <= b && b <= a;
      var m :| IsLeast(m, s);
      var rest := SortedKeys(s - {m});
      PrependLeast(m, s, rest);
      [m] + rest
  }
}
