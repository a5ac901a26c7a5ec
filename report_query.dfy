/**
  `PrivateMessageReportQuery::list`: the joined rows, filtered on
  `resolved = false` and sorted oldest first when `unresolved_only` is set,
  otherwise unfiltered and sorted newest first, then cut to the
  `[offset, offset + limit)` window.
 */
module ReportQuery {
  import opened Wrappers
  import opened Schema
  import opened Keys
  import opened ReportView

  datatype PrivateMessageReportQuery = PrivateMessageReportQuery(
    page: Option<int>,
    limit: Option<int>,
    unresolvedOnly: bool)

  /** `PrivateMessageReportQuery::default()`: every field takes its type's default. */
  function DefaultQuery(): (q: PrivateMessageReportQuery)
    ensures q.page.None? && q.limit.None?
    ensures !q.unresolvedOnly
  {
    PrivateMessageReportQuery(None, None, false)
  }

  /** What `limit_and_offset` yields on success: the LIMIT and OFFSET of the query. */
  datatype LimitOffset = LimitOffset(limit: nat, offset: nat)

  /** ORDER BY `published`, in one of two directions. */
  datatype Order = Ascending | Descending

  /** `a` may come before `b` under the order. */
  predicate Precedes(o: Order, a: PrivateMessageReportView, b: PrivateMessageReportView) {
    match o
    case Ascending => a.privateMessageReport.published <= b.privateMessageReport.published
    case Descending => a.privateMessageReport.published >= b.privateMessageReport.published
  }

  /** Unresolved-only listings are first in, first out; full listings show the newest first. */
  function OrderFor(unresolvedOnly: bool): (o: Order)
    ensures forall a, b :: Precedes(o, a, b) <==>
      if unresolvedOnly then a.privateMessageReport.published <= b.privateMessageReport.published
      else b.privateMessageReport.published <= a.privateMessageReport.published
  {
    if unresolvedOnly then Ascending else Descending
  }

  ghost predicate Sorted(o: Order, s: seq<PrivateMessageReportView>) {
    forall i, j | 0 <= i < j < |s| :: Precedes(o, s[i], s[j])
  }

  // ---------------------------------------------------------------------------
  // ORDER BY: any sorted permutation is a correct answer; insertion sort picks one.
  // ---------------------------------------------------------------------------

  /** Precedes is transitive and total, so it can order any sequence. */
  lemma PrecedesTotalPreorder(o: Order, a: PrivateMessageReportView, b: PrivateMessageReportView, c: PrivateMessageReportView)
    ensures Precedes(o, a, b) || Precedes(o, b, a)
    ensures Precedes(o, a, b) && Precedes(o, b, c) ==> Precedes(o, a, c)
  {
  }

  /** A row that may precede the head of a sorted sequence may precede all of it. */
  lemma PrependSorted(o: Order, x: PrivateMessageReportView, s: seq<PrivateMessageReportView>)
    requires Sorted(o, s)
    requires s != [] ==> Precedes(o, x, s[0])
    ensures Sorted(o, [x] + s)
  {
    var r := [x] + s;
    forall i, j | 0 <= i < j < |r|
      ensures Precedes(o, r[i], r[j])
    {
      assert r[j] == s[j - 1];
      if i == 0 {
        PrecedesTotalPreorder(o, x, s[0], s[j - 1]);
      } else {
        assert r[i] == s[i - 1];
      }
    }
  }

  function Insert(o: Order, x: PrivateMessageReportView, s: seq<PrivateMessageReportView>): (r: seq<PrivateMessageReportView>)
    requires Sorted(o, s)
    ensures Sorted(o, r)
    ensures multiset(r) == multiset(s) + multiset{x}
  {
    if s == [] || Precedes(o, x, s[0]) then
      PrependSorted(o, x, s);
      [x] + s
    else
      var rest := Insert(o, x, s[1..]);
      assert s == [s[0]] + s[1..];
      assert Sorted(o, s[1..]) by {
        forall i, j | 0 <= i < j < |s| - 1
          ensures Precedes(o, s[1..][i], s[1..][j])
        {
          assert s[1..][i] == s[i + 1] && s[1..][j] == s[j + 1];
        }
      }
      assert rest != [] ==> Precedes(o, s[0], rest[0]) by {
        if rest != [] {
          PrecedesTotalPreorder(o, x, s[0], s[0]);
          assert rest[0] in multiset(s[1..]) + multiset{x};
        }
      }
      PrependSorted(o, s[0], rest);
      [s[0]] + rest
  }

  function Sort(o: Order, s: seq<PrivateMessageReportView>): (r: seq<PrivateMessageReportView>)
    ensures Sorted(o, r)
    ensures multiset(r) == multiset(s)
  {
    if s == [] then []
    else
      assert s == [s[0]] + s[1..];
      Insert(o, s[0], Sort(o, s[1..]))
  }

  /** `s` without its element at `k`. */
  function RemoveAt(s: seq<PrivateMessageReportView>, k: nat): (r: seq<PrivateMessageReportView>)
    requires k < |s|
    ensures |r| == |s| - 1
    ensures forall m | 0 <= m < |r| :: r[m] == s[if m < k then m else m + 1]
    ensures multiset(s) == multiset(r) + multiset{s[k]}
  {
    assert s == s[..k] + [s[k]] + s[k+1..];
    s[..k] + s[k+1..]
  }

  lemma RemoveAtKeepsDistinct(s: seq<PrivateMessageReportView>, k: nat)
    requires k < |s| && DistinctIds(s)
    ensures DistinctIds(RemoveAt(s, k))
    ensures forall y | y in RemoveAt(s, k) :: y.privateMessageReport.id != s[k].privateMessageReport.id
  {
    var r := RemoveAt(s, k);
    forall i, j | 0 <= i < j < |r|
      ensures r[i].privateMessageReport.id != r[j].privateMessageReport.id
    {
      assert r[i] == s[if i < k then i else i + 1];
    }
    forall y | y in r
      ensures y.privateMessageReport.id != s[k].privateMessageReport.id
    {
      var m :| 0 <= m < |r| && r[m] == y;
      assert r[m] == s[if m < k then m else m + 1];
    }
  }

  /** A row for a report not among `rest` can be put in front of it. */
  lemma ConsDistinct(x: PrivateMessageReportView, rest: seq<PrivateMessageReportView>)
    requires DistinctIds(rest)
    requires forall y | y in rest :: y.privateMessageReport.id != x.privateMessageReport.id
    ensures DistinctIds([x] + rest)
  {
    var r := [x] + rest;
    forall i, j | 0 <= i < j < |r|
      ensures r[i].privateMessageReport.id != r[j].privateMessageReport.id
    {
      assert r[j] == rest[j - 1];
      if i > 0 { assert r[i] == rest[i - 1]; }
    }
  }

  lemma MultisetTail(s: seq<PrivateMessageReportView>, s': seq<PrivateMessageReportView>, r: seq<PrivateMessageReportView>)
    requires r != []
    requires multiset(s) == multiset(r)
    requires multiset(s) == multiset(s') + multiset{r[0]}
    ensures multiset(s') == multiset(r[1..])
  {
    assert r == [r[0]] + r[1..];
    assert multiset(r) == multiset(r[1..]) + multiset{r[0]};
    forall e
      ensures multiset(s')[e] == multiset(r[1..])[e]
    {
      assert (multiset(s') + multiset{r[0]})[e] == (multiset(r[1..]) + multiset{r[0]})[e];
    }
  }

  /** A permutation of rows for distinct reports is again rows for distinct reports. */
  lemma {:induction false} PermutationKeepsDistinct(s: seq<PrivateMessageReportView>, r: seq<PrivateMessageReportView>)
    requires multiset(s) == multiset(r)
    requires DistinctIds(s)
    ensures DistinctIds(r)
  {
    if r != [] {
      var x := r[0];
      assert x in multiset(s);
      var k :| 0 <= k < |s| && s[k] == x;
      var s' := RemoveAt(s, k);
      RemoveAtKeepsDistinct(s, k);
      MultisetTail(s, s', r);
      PermutationKeepsDistinct(s', r[1..]);
      forall y | y in r[1..]
        ensures y.privateMessageReport.id != x.privateMessageReport.id
      {
        assert y in multiset(s');
      }
      ConsDistinct(x, r[1..]);
      assert r == [x] + r[1..];
    }
  }

  // ---------------------------------------------------------------------------
  // WHERE, LIMIT and OFFSET.
  // ---------------------------------------------------------------------------

  /** The `resolved = false` filter, applied only to unresolved-only listings. */
  function ResolutionFilter(unresolvedOnly: bool, s: seq<PrivateMessageReportView>): (r: seq<PrivateMessageReportView>)
    ensures forall v :: v in r <==> v in s && (unresolvedOnly ==> !v.privateMessageReport.resolved)
    ensures DistinctIds(s) ==> DistinctIds(r)
  {
    if !unresolvedOnly || s == [] then s
    else
      var rest := ResolutionFilter(unresolvedOnly, s[1..]);
      assert s == [s[0]] + s[1..];
      (if s[0].privateMessageReport.resolved then [] else [s[0]]) + rest
  }

  function Min(a: int, b: int): int { if a <= b then a else b }

  /** OFFSET `offset` LIMIT `limit`: skip `offset` rows, then keep at most `limit`. */
  function Page<T>(s: seq<T>, limit: nat, offset: nat): (r: seq<T>)
    ensures |r| <= limit
    ensures |r| == if offset >= |s| then 0 else Min(limit, |s| - offset)
    ensures IsWindow(r, s, offset)
  {
    if offset >= |s| then [] else s[offset..Min(|s|, offset + limit)]
  }

  /** `rows` is the run of `all` that starts at `offset`. */
  ghost predicate IsWindow<T>(rows: seq<T>, all: seq<T>, offset: nat) {
    forall i | 0 <= i < |rows| :: offset + i < |all| && rows[i] == all[offset + i]
  }

  // ---------------------------------------------------------------------------
  // The listing.
  // ---------------------------------------------------------------------------

  /**
    The filtered and ordered rows before LIMIT and OFFSET: the joined rows
    the filter keeps, rearranged into the direction the filter picks.
    `OrderedIsFilteredJoin` states which rows these are.
   */
  function Ordered(t: Tables, unresolvedOnly: bool): (r: seq<PrivateMessageReportView>)
    ensures Sorted(OrderFor(unresolvedOnly), r)
    ensures multiset(r) == multiset(ResolutionFilter(unresolvedOnly, AllJoins(t)))
  {
    Sort(OrderFor(unresolvedOnly), ResolutionFilter(unresolvedOnly, AllJoins(t)))
  }

  /**
    `list`: `limitAndOffset` stands for `limit_and_offset(page, limit)`,
    whose error the listing passes on unchanged.
   */
  function List(t: Tables, q: PrivateMessageReportQuery,
                limitAndOffset: (Option<int>, Option<int>) -> Result<LimitOffset, DbError>)
    : (r: Result<seq<PrivateMessageReportView>, DbError>)
    ensures limitAndOffset(q.page, q.limit).Err? ==> r == Err(limitAndOffset(q.page, q.limit).error)
    ensures limitAndOffset(q.page, q.limit).Ok? ==> r.Ok?
    ensures r.Ok? ==>
      var p := limitAndOffset(q.page, q.limit).value;
      var all := Ordered(t, q.unresolvedOnly);
      && |r.value| <= p.limit
      && |r.value| == (if p.offset >= |all| then 0 else Min(p.limit, |all| - p.offset))
      && IsWindow(r.value, all, p.offset)
  {
    match limitAndOffset(q.page, q.limit)
    case Err(e) => Err(e)
    case Ok(p) =>
      var all := Ordered(t, q.unresolvedOnly);
      Ok(Page(all, p.limit, p.offset))
  }

  // ---------------------------------------------------------------------------
  // What the listing returns.
  // ---------------------------------------------------------------------------

  /**
    Before LIMIT and OFFSET the listing holds exactly the joined rows the
    filter keeps, each report once, sorted in the direction the filter picks.
   */
  lemma OrderedIsFilteredJoin(t: Tables, unresolvedOnly: bool)
    requires KeyedById(t)
    ensures Sorted(OrderFor(unresolvedOnly), Ordered(t, unresolvedOnly))
    ensures multiset(Ordered(t, unresolvedOnly)) == multiset(ResolutionFilter(unresolvedOnly, AllJoins(t)))
    ensures forall v :: v in Ordered(t, unresolvedOnly) <==>
      InJoin(t, v) && (unresolvedOnly ==> !v.privateMessageReport.resolved)
    ensures DistinctIds(Ordered(t, unresolvedOnly))
  {
    AllJoinsIsJoin(t);
    var kept := ResolutionFilter(unresolvedOnly, AllJoins(t));
    var ordered := Ordered(t, unresolvedOnly);
    PermutationKeepsDistinct(kept, ordered);
    forall v
      ensures v in ordered <==> v in kept
    {
      assert v in ordered <==> v in multiset(ordered);
      assert v in kept <==> v in multiset(kept);
    }
  }

  /** A window's rows are rows of the sequence it is cut from. */
  lemma WindowMembers(rows: seq<PrivateMessageReportView>, all: seq<PrivateMessageReportView>, offset: nat)
    requires IsWindow(rows, all, offset)
    ensures forall v | v in rows :: v in all
  {
    forall v | v in rows
      ensures v in all
    {
      var i :| 0 <= i < |rows| && rows[i] == v;
      assert all[offset + i] == v;
    }
  }

  /** A window of a sorted sequence is sorted. */
  lemma WindowSorted(o: Order, rows: seq<PrivateMessageReportView>, all: seq<PrivateMessageReportView>, offset: nat)
    requires Sorted(o, all) && IsWindow(rows, all, offset)
    ensures Sorted(o, rows)
  {
    forall i, j | 0 <= i < j < |rows|
      ensures Precedes(o, rows[i], rows[j])
    {
      var a, b := rows[i], rows[j];
      assert offset + i < |all| && a == all[offset + i];
      assert offset + j < |all| && b == all[offset + j];
    }
  }

  /** A window of rows for distinct reports is again for distinct reports. */
  lemma WindowDistinct(rows: seq<PrivateMessageReportView>, all: seq<PrivateMessageReportView>, offset: nat)
    requires DistinctIds(all) && IsWindow(rows, all, offset)
    ensures DistinctIds(rows)
  {
    forall i, j | 0 <= i < j < |rows|
      ensures rows[i].privateMessageReport.id != rows[j].privateMessageReport.id
    {
      var a, b := rows[i], rows[j];
      assert offset + i < |all| && a == all[offset + i];
      assert offset + j < |all| && b == all[offset + j];
    }
  }

  /**
    An unresolved-only listing holds only unresolved reports, oldest
    first (non-decreasing `published`).
   */
  lemma ListUnresolvedOnly(t: Tables, q: PrivateMessageReportQuery,
                           limitAndOffset: (Option<int>, Option<int>) -> Result<LimitOffset, DbError>,
                           rows: seq<PrivateMessageReportView>)
    requires q.unresolvedOnly
    requires List(t, q, limitAndOffset) == Ok(rows)
    ensures forall v | v in rows :: !v.privateMessageReport.resolved
    ensures forall i, j | 0 <= i < j < |rows| ::
      rows[i].privateMessageReport.published <= rows[j].privateMessageReport.published
  {
    var all := Ordered(t, true);
    var kept := ResolutionFilter(true, AllJoins(t));
    var offset := limitAndOffset(q.page, q.limit).value.offset;
    assert multiset(all) == multiset(kept);
    WindowMembers(rows, all, offset);
    forall v | v in rows
      ensures !v.privateMessageReport.resolved
    {
      assert v in multiset(all);
      assert v in kept;
    }
    WindowSorted(Ascending, rows, all, offset);
    assert forall i, j | 0 <= i < j < |rows| :: Precedes(Ascending, rows[i], rows[j]);
  }

  /** A full listing shows the newest reports first (non-increasing `published`). */
  lemma ListAllNewestFirst(t: Tables, q: PrivateMessageReportQuery,
                           limitAndOffset: (Option<int>, Option<int>) -> Result<LimitOffset, DbError>,
                           rows: seq<PrivateMessageReportView>)
    requires !q.unresolvedOnly
    requires List(t, q, limitAndOffset) == Ok(rows)
    ensures forall i, j | 0 <= i < j < |rows| ::
      rows[i].privateMessageReport.published >= rows[j].privateMessageReport.published
  {
    WindowSorted(Descending, rows, Ordered(t, false), limitAndOffset(q.page, q.limit).value.offset);
    assert forall i, j | 0 <= i < j < |rows| :: Precedes(Descending, rows[i], rows[j]);
  }

  /**
    Every row of any listing is a row of the join (so each role holds the
    person its foreign key names), and no report appears twice.
   */
  lemma ListRowsAreJoined(t: Tables, q: PrivateMessageReportQuery,
                          limitAndOffset: (Option<int>, Option<int>) -> Result<LimitOffset, DbError>,
                          rows: seq<PrivateMessageReportView>)
    requires KeyedById(t)
    requires List(t, q, limitAndOffset) == Ok(rows)
    ensures forall v | v in rows :: InJoin(t, v)
    ensures DistinctIds(rows)
  {
    var all := Ordered(t, q.unresolvedOnly);
    var offset := limitAndOffset(q.page, q.limit).value.offset;
    OrderedIsFilteredJoin(t, q.unresolvedOnly);
    WindowMembers(rows, all, offset);
    WindowDistinct(rows, all, offset);
  }

  /** A report missing its message, the message's author or its creator is in no listing. */
  lemma ListMissingPartner(t: Tables, id: PrivateMessageReportId, q: PrivateMessageReportQuery,
                           limitAndOffset: (Option<int>, Option<int>) -> Result<LimitOffset, DbError>,
                           rows: seq<PrivateMessageReportView>)
    requires KeyedById(t) && id in t.reports
    requires var r := t.reports[id];
      || r.privateMessageId !in t.messages
      || t.messages[r.privateMessageId].creatorId !in t.persons
      || r.creatorId !in t.persons
    requires List(t, q, limitAndOffset) == Ok(rows)
    ensures forall v | v in rows :: v.privateMessageReport.id != id
  {
    ListRowsAreJoined(t, q, limitAndOffset, rows);
    JoinRowExists(t, id);
  }

  /**
    `read(id)` agrees with the unfiltered listing before LIMIT and OFFSET:
    it returns that listing's row for report `id`, and NotFound exactly when
    the listing has none.
   */
  lemma ReadAgreesWithList(t: Tables, id: PrivateMessageReportId)
    requires KeyedById(t)
    ensures forall v :: Read(t, id) == Ok(v) <==> v in Ordered(t, false) && v.privateMessageReport.id == id
    ensures Read(t, id) == Err(NotFound) <==> forall v | v in Ordered(t, false) :: v.privateMessageReport.id != id
  {
    ReadIsJoinRow(t, id);
    OrderedIsFilteredJoin(t, false);
  }

  /**
    After report `id` is marked resolved by `admin`, the full listing still
    shows it, resolved and with `admin` as resolver, while the
    unresolved-only listing no longer does.
   */
  lemma ResolvedReportStillListed(t: Tables, id: PrivateMessageReportId, admin: PersonId)
    requires KeyedById(t)
    requires id in t.reports && JoinRow(t, id).Some?
    requires admin in t.persons
    ensures var t' := t.(reports := t.reports[id := t.reports[id].(resolved := true, resolverId := Some(admin))]);
      && (exists v | v in Ordered(t', false) ::
            v.privateMessageReport.id == id && v.privateMessageReport.resolved && v.resolver == Some(t.persons[admin]))
      && (forall v | v in Ordered(t', true) :: v.privateMessageReport.id != id)
  {
    var t' := t.(reports := t.reports[id := t.reports[id].(resolved := true, resolverId := Some(admin))]);
    assert KeyedById(t');
    var v := JoinRow(t', id).value;
    JoinRowIsJoin(t', id, v);
    OrderedIsFilteredJoin(t', false);
    OrderedIsFilteredJoin(t', true);
    assert v in Ordered(t', false);
    forall w | w in Ordered(t', true)
      ensures w.privateMessageReport.id != id
    {
      ViewRoles(t', w);
    }
  }

  // ---------------------------------------------------------------------------
  // The listing's size and the unresolved count.
  // ---------------------------------------------------------------------------

  /** The reports a listing with this filter would show, before LIMIT and OFFSET. */
  ghost function ListedIds(t: Tables, unresolvedOnly: bool): set<PrivateMessageReportId> {
    set id | id in t.reports && InnerJoinsMatch(t, t.reports[id]) && (unresolvedOnly ==> !t.reports[id].resolved)
  }

  ghost function IdsOf(s: seq<PrivateMessageReportView>): set<PrivateMessageReportId> {
    set v | v in s :: v.privateMessageReport.id
  }

  lemma {:induction false} DistinctIdsCardinality(s: seq<PrivateMessageReportView>)
    requires DistinctIds(s)
    ensures |IdsOf(s)| == |s|
  {
    if s != [] {
      var rest := s[1..];
      assert DistinctIds(rest) by {
        forall i, j | 0 <= i < j < |rest|
          ensures rest[i].privateMessageReport.id != rest[j].privateMessageReport.id
        {
          assert rest[i] == s[i + 1] && rest[j] == s[j + 1];
        }
      }
      DistinctIdsCardinality(rest);
      assert s == [s[0]] + rest;
      assert IdsOf(s) == {s[0].privateMessageReport.id} + IdsOf(rest);
      assert s[0].privateMessageReport.id !in IdsOf(rest);
    }
  }

  lemma OrderedIdsListed(t: Tables, unresolvedOnly: bool)
    requires KeyedById(t)
    ensures IdsOf(Ordered(t, unresolvedOnly)) <= ListedIds(t, unresolvedOnly)
  {
    var ordered := Ordered(t, unresolvedOnly);
    OrderedIsFilteredJoin(t, unresolvedOnly);
    forall id | id in IdsOf(ordered)
      ensures id in ListedIds(t, unresolvedOnly)
    {
      var v :| v in ordered && v.privateMessageReport.id == id;
      JoinRowIsJoin(t, id, v);
    }
  }

  lemma ListedIdsOrdered(t: Tables, unresolvedOnly: bool)
    requires KeyedById(t)
    ensures ListedIds(t, unresolvedOnly) <= IdsOf(Ordered(t, unresolvedOnly))
  {
    var ordered := Ordered(t, unresolvedOnly);
    OrderedIsFilteredJoin(t, unresolvedOnly);
    forall id | id in ListedIds(t, unresolvedOnly)
      ensures id in IdsOf(ordered)
    {
      var v := JoinRow(t, id).value;
      JoinRowIsJoin(t, id, v);
      assert v in ordered;
    }
  }

  /** The ordered rows are as many as the reports the filter and the inner joins let through. */
  lemma OrderedSize(t: Tables, unresolvedOnly: bool)
    requires KeyedById(t)
    ensures |Ordered(t, unresolvedOnly)| == |ListedIds(t, unresolvedOnly)|
  {
    var ordered := Ordered(t, unresolvedOnly);
    assert DistinctIds(ordered) by {
      OrderedIsFilteredJoin(t, unresolvedOnly);
    }
    DistinctIdsCardinality(ordered);
    OrderedIdsListed(t, unresolvedOnly);
    ListedIdsOrdered(t, unresolvedOnly);
    assert IdsOf(ordered) == ListedIds(t, unresolvedOnly);
  }

  /**
    With LIMIT at least the size of the report table and OFFSET 0, the full
    listing contains every row of the join, resolved or not.
   */
  lemma UnpaginatedListHasEveryJoinedRow(t: Tables, q: PrivateMessageReportQuery,
                                         limitAndOffset: (Option<int>, Option<int>) -> Result<LimitOffset, DbError>)
    requires KeyedById(t)
    requires !q.unresolvedOnly
    requires limitAndOffset(q.page, q.limit).Ok?
    requires limitAndOffset(q.page, q.limit).value.offset == 0
    requires limitAndOffset(q.page, q.limit).value.limit >= |t.reports|
    ensures List(t, q, limitAndOffset).Ok?
    ensures forall v :: v in List(t, q, limitAndOffset).value <==> InJoin(t, v)
  {
    var all := Ordered(t, false);
    var rows := List(t, q, limitAndOffset).value;
    OrderedSize(t, false);
    SubsetCardinality(ListedIds(t, false), t.reports.Keys);
    OrderedIsFilteredJoin(t, false);
    assert |rows| == |all|;
    assert rows == all;
  }

  /** The count depends on no person record. */
  lemma CountIgnoresPersons(t: Tables, persons: map<PersonId, Person>)
    ensures GetReportCount(t.(persons := persons)) == GetReportCount(t)
  {
  }

  /** The listed unresolved reports are among the counted ones. */
  lemma ListedAmongCounted(t: Tables)
    ensures ListedIds(t, true) <= UnresolvedWithMessage(t)
  {
    forall id | id in ListedIds(t, true)
      ensures id in UnresolvedWithMessage(t)
    {
      assert id in t.reports && InnerJoinsMatch(t, t.reports[id]) && !t.reports[id].resolved;
    }
  }

  /** When every counted report's inner joins match, the listed unresolved reports are exactly the counted ones. */
  lemma ListedAreCounted(t: Tables)
    requires forall id | id in UnresolvedWithMessage(t) :: InnerJoinsMatch(t, t.reports[id])
    ensures ListedIds(t, true) == UnresolvedWithMessage(t)
  {
    forall id | id in UnresolvedWithMessage(t)
      ensures id in ListedIds(t, true)
    {
      assert InnerJoinsMatch(t, t.reports[id]);
    }
    ListedAmongCounted(t);
  }

  /**
    The count is at least the size of the unpaginated unresolved-only
    listing, and equal to it exactly when every counted report has its
    message author and its creator.
   */
  lemma CountBoundsUnresolvedList(t: Tables)
    requires KeyedById(t)
    ensures |Ordered(t, true)| <= GetReportCount(t)
    ensures |Ordered(t, true)| == GetReportCount(t) <==>
      forall id | id in UnresolvedWithMessage(t) :: InnerJoinsMatch(t, t.reports[id])
  {
    var listed := ListedIds(t, true);
    var counted := UnresolvedWithMessage(t);
    OrderedSize(t, true);
    ListedAmongCounted(t);
    SubsetCardinality(listed, counted);
    if forall id | id in counted :: InnerJoinsMatch(t, t.reports[id]) {
      ListedAreCounted(t);
    } else {
      var id :| id in counted && !InnerJoinsMatch(t, t.reports[id]);
      ProperSubsetCardinality(listed, counted, id);
    }
  }
}
