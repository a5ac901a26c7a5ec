/**
  The denormalised view of a report filed against a private message: the
  join `all_joins` composes, reading one report by id, and the unresolved
  report count.
 */
module ReportView {
  import opened Wrappers
  import opened Schema
  import opened Keys

  /**
    One joined row: the report, the reported message, the message's author
    (`person`), the report's creator (alias `person1`) and the resolver
    (alias `person2`, left-joined, hence optional).
   */
  datatype PrivateMessageReportView = PrivateMessageReportView(
    privateMessageReport: PrivateMessageReport,
    privateMessage: PrivateMessage,
    privateMessageCreator: Person,
    creator: Person,
    resolver: Option<Person>)

  // ---------------------------------------------------------------------------
  // Reference semantics of the join, stated over the rows of each table.
  // ---------------------------------------------------------------------------

  /** The left join on `person2`: the matching person, or None if no person matches. */
  ghost predicate ResolverJoined(t: Tables, r: PrivateMessageReport, resolver: Option<Person>) {
    match resolver
    case Some(p) => p in t.persons.Values && r.resolverId == Some(p.id)
    case None => forall p | p in t.persons.Values :: r.resolverId != Some(p.id)
  }

  /**
    A tuple belongs to the result of `all_joins` exactly when each part is a
    row of its table and the ON conditions of lines 25-33 hold.
   */
  ghost predicate InJoin(t: Tables, v: PrivateMessageReportView) {
    var r := v.privateMessageReport;
    && r in t.reports.Values
    && v.privateMessage in t.messages.Values
    && r.privateMessageId == v.privateMessage.id
    && v.privateMessageCreator in t.persons.Values
    && v.privateMessage.creatorId == v.privateMessageCreator.id
    && v.creator in t.persons.Values
    && r.creatorId == v.creator.id
    && ResolverJoined(t, r, v.resolver)
  }

  // ---------------------------------------------------------------------------
  // The join computed by primary-key lookups.
  // ---------------------------------------------------------------------------

  function Resolver(t: Tables, r: PrivateMessageReport): Option<Person> {
    match r.resolverId
    case None => None
    case Some(id) => if id in t.persons then Some(t.persons[id]) else None
  }

  /** The three inner joins each find a partner: the message, its author and the report's creator. */
  predicate InnerJoinsMatch(t: Tables, r: PrivateMessageReport) {
    && r.privateMessageId in t.messages
    && t.messages[r.privateMessageId].creatorId in t.persons
    && r.creatorId in t.persons
  }

  /**
    The joined row of one report, or None when an inner join finds no
    partner.  For keyed tables a row it builds meets every ON condition;
    `JoinRowIsJoin` proves the converse.
   */
  function Compose(t: Tables, r: PrivateMessageReport): (o: Option<PrivateMessageReportView>)
    ensures o.Some? <==> InnerJoinsMatch(t, r)
    ensures o.Some? ==> o.value.privateMessageReport == r
    ensures KeyedById(t) && r in t.reports.Values && o.Some? ==> InJoin(t, o.value)
  {
    if !InnerJoinsMatch(t, r) then None
    else
      var m := t.messages[r.privateMessageId];
      var v := PrivateMessageReportView(r, m, t.persons[m.creatorId], t.persons[r.creatorId], Resolver(t, r));
      assert KeyedById(t) && r in t.reports.Values ==> InJoin(t, v) by {
        if KeyedById(t) && r in t.reports.Values {
          MessageRow(t, m);
          PersonRow(t, v.privateMessageCreator);
          PersonRow(t, v.creator);
          ResolverIsLeftJoin(t, r, v.resolver);
        }
      }
      Some(v)
  }

  /**
    `all_joins` applied to `private_message_report::table.find(id)`: a row
    exactly when the report exists and its inner joins find partners.
   */
  function JoinRow(t: Tables, id: PrivateMessageReportId): (o: Option<PrivateMessageReportView>)
    ensures o.Some? <==> id in t.reports && InnerJoinsMatch(t, t.reports[id])
    ensures o.Some? ==> o.value.privateMessageReport == t.reports[id]
    ensures KeyedById(t) && o.Some? ==> InJoin(t, o.value) && o.value.privateMessageReport.id == id
  {
    if id in t.reports then Compose(t, t.reports[id]) else None
  }

  /** `all_joins` applied to the reports with the given ids, in that order. */
  function JoinAll(t: Tables, ids: seq<PrivateMessageReportId>): (r: seq<PrivateMessageReportView>)
    ensures |r| <= |ids|
    ensures forall v | v in r :: exists k | k in ids :: JoinRow(t, k) == Some(v)
  {
    if ids == [] then []
    else
      var head := match JoinRow(t, ids[0]) case Some(v) => [v] case None => [];
      var rest := JoinAll(t, ids[1..]);
      assert forall v | v in head :: JoinRow(t, ids[0]) == Some(v);
      assert forall k | k in ids[1..] :: k in ids;
      head + rest
  }

  /**
    `all_joins` applied to the whole report table: at most one row per
    report, and for keyed tables only tuples of the join (`AllJoinsIsJoin`
    proves it holds all of them, once each).
   */
  function AllJoins(t: Tables): (r: seq<PrivateMessageReportView>)
    ensures |r| <= |t.reports|
    ensures KeyedById(t) ==> forall v | v in r :: InJoin(t, v)
  {
    var ids := SortedKeys(t.reports.Keys);
    assert |t.reports.Keys| == |t.reports|;
    JoinAll(t, ids)
  }

  // ---------------------------------------------------------------------------
  // The lookup join agrees with the reference semantics.
  // ---------------------------------------------------------------------------

  /** No two rows of a result describe the same report. */
  ghost predicate DistinctIds(s: seq<PrivateMessageReportView>) {
    forall i, j | 0 <= i < j < |s| :: s[i].privateMessageReport.id != s[j].privateMessageReport.id
  }

  /** The resolver lookup is the left join: the one value `ResolverJoined` admits. */
  lemma ResolverIsLeftJoin(t: Tables, r: PrivateMessageReport, resolver: Option<Person>)
    requires KeyedById(t)
    ensures ResolverJoined(t, r, resolver) <==> resolver == Resolver(t, r)
  {
    match resolver
    case Some(p) =>
      PersonRow(t, p);
    case None =>
      if ResolverJoined(t, r, None) {
        if r.resolverId.Some? && r.resolverId.value in t.persons {
          PersonRow(t, t.persons[r.resolverId.value]);
        }
      }
      if Resolver(t, r) == None {
        forall p | p in t.persons.Values
          ensures r.resolverId != Some(p.id)
        {
          PersonRow(t, p);
        }
      }
  }

  /**
    The joined row of report `id` is a tuple of the join whose report has
    that id, and every such tuple is that row.
   */
  lemma JoinRowIsJoin(t: Tables, id: PrivateMessageReportId, v: PrivateMessageReportView)
    requires KeyedById(t)
    ensures JoinRow(t, id) == Some(v) <==> InJoin(t, v) && v.privateMessageReport.id == id
  {
    var r := v.privateMessageReport;
    ResolverIsLeftJoin(t, r, v.resolver);
    ReportRow(t, r);
    MessageRow(t, v.privateMessage);
    PersonRow(t, v.privateMessageCreator);
    PersonRow(t, v.creator);
  }

  /** Rows of the join, with each role filled by the person its foreign key names. */
  lemma ViewRoles(t: Tables, v: PrivateMessageReportView)
    requires KeyedById(t) && InJoin(t, v)
    ensures var r := v.privateMessageReport;
      && r.id in t.reports && t.reports[r.id] == r
      && r.privateMessageId in t.messages && v.privateMessage == t.messages[r.privateMessageId]
      && v.privateMessage.creatorId in t.persons
      && v.privateMessageCreator == t.persons[v.privateMessage.creatorId]
      && r.creatorId in t.persons && v.creator == t.persons[r.creatorId]
      && v.resolver == (if r.resolverId.Some? && r.resolverId.value in t.persons
                        then Some(t.persons[r.resolverId.value]) else None)
  {
    JoinRowIsJoin(t, v.privateMessageReport.id, v);
  }

  /**
    A report has a joined row exactly when its message, the message's author
    and the report's creator exist; its resolver plays no part (left join).
   */
  lemma JoinRowExists(t: Tables, id: PrivateMessageReportId)
    requires KeyedById(t)
    ensures (exists v :: InJoin(t, v) && v.privateMessageReport.id == id) <==>
      && id in t.reports
      && t.reports[id].privateMessageId in t.messages
      && t.messages[t.reports[id].privateMessageId].creatorId in t.persons
      && t.reports[id].creatorId in t.persons
  {
    if id in t.reports && JoinRow(t, id).Some? {
      JoinRowIsJoin(t, id, JoinRow(t, id).value);
    }
    if exists v :: InJoin(t, v) && v.privateMessageReport.id == id {
      var v :| InJoin(t, v) && v.privateMessageReport.id == id;
      JoinRowIsJoin(t, id, v);
    }
  }

  /** The rows `all_joins` yields for a run of ids: the joined rows of those ids. */
  lemma {:induction false} JoinAllMembers(t: Tables, ids: seq<PrivateMessageReportId>, v: PrivateMessageReportView)
    requires KeyedById(t)
    ensures v in JoinAll(t, ids) <==> v.privateMessageReport.id in ids && JoinRow(t, v.privateMessageReport.id) == Some(v)
  {
    if ids != [] {
      JoinAllMembers(t, ids[1..], v);
      JoinRowIsJoin(t, ids[0], v);
      assert ids == [ids[0]] + ids[1..];
    }
  }

  /** Distinct ids give rows for distinct reports. */
  lemma {:induction false} JoinAllDistinct(t: Tables, ids: seq<PrivateMessageReportId>)
    requires KeyedById(t)
    requires forall i, j | 0 <= i < j < |ids| :: ids[i] != ids[j]
    ensures DistinctIds(JoinAll(t, ids))
  {
    if ids != [] {
      var rest := JoinAll(t, ids[1..]);
      JoinAllDistinct(t, ids[1..]);
      forall w | w in rest
        ensures w.privateMessageReport.id != ids[0]
      {
        JoinAllMembers(t, ids[1..], w);
      }
      match JoinRow(t, ids[0])
      case None =>
      case Some(v) =>
        JoinRowIsJoin(t, ids[0], v);
        assert JoinAll(t, ids) == [v] + rest;
    }
  }

  /** The whole join holds every tuple of the reference join, once. */
  lemma AllJoinsIsJoin(t: Tables)
    requires KeyedById(t)
    ensures forall v :: v in AllJoins(t) <==> InJoin(t, v)
    ensures DistinctIds(AllJoins(t))
  {
    var ids := SortedKeys(t.reports.Keys);
    forall v
      ensures v in AllJoins(t) <==> InJoin(t, v)
    {
      JoinAllMembers(t, ids, v);
      JoinRowIsJoin(t, v.privateMessageReport.id, v);
    }
    JoinAllDistinct(t, ids);
  }

  // ---------------------------------------------------------------------------
  // Read by id.
  // ---------------------------------------------------------------------------

  /** `PrivateMessageReportView::read`: `first` of the joined row, NotFound when there is none. */
  function Read(t: Tables, id: PrivateMessageReportId): (r: Result<PrivateMessageReportView, DbError>)
    ensures r.Err? ==> r.error == NotFound
  {
    match JoinRow(t, id)
    case Some(v) => Ok(v)
    case None => Err(NotFound)
  }

  /** `read(id)` returns the joined row of report `id`, and fails with NotFound exactly when there is none. */
  lemma ReadIsJoinRow(t: Tables, id: PrivateMessageReportId)
    requires KeyedById(t)
    ensures forall v :: Read(t, id) == Ok(v) <==> InJoin(t, v) && v.privateMessageReport.id == id
    ensures Read(t, id) == Err(NotFound) <==> forall v :: InJoin(t, v) ==> v.privateMessageReport.id != id
  {
    forall v ensures Read(t, id) == Ok(v) <==> InJoin(t, v) && v.privateMessageReport.id == id {
      JoinRowIsJoin(t, id, v);
    }
    if JoinRow(t, id).Some? {
      JoinRowIsJoin(t, id, JoinRow(t, id).value);
    }
  }

  /**
    A report whose message, message author or creator is missing has no
    joined row: reading it fails with NotFound.
   */
  lemma ReadMissingPartner(t: Tables, id: PrivateMessageReportId)
    requires KeyedById(t) && id in t.reports
    requires var r := t.reports[id];
      || r.privateMessageId !in t.messages
      || t.messages[r.privateMessageId].creatorId !in t.persons
      || r.creatorId !in t.persons
    ensures Read(t, id) == Err(NotFound)
    ensures forall v | v in AllJoins(t) :: v.privateMessageReport.id != id
  {
    JoinRowExists(t, id);
    ReadIsJoinRow(t, id);
    AllJoinsIsJoin(t);
  }

  // ---------------------------------------------------------------------------
  // Unresolved count.
  // ---------------------------------------------------------------------------

  /** The ids of unresolved reports whose message exists: the rows of report ⋈ message. */
  function UnresolvedWithMessage(t: Tables): set<PrivateMessageReportId> {
    set id | id in t.reports && !t.reports[id].resolved && t.reports[id].privateMessageId in t.messages
  }

  /** Nothing is counted exactly when every report is resolved or has lost its message. */
  lemma NothingToCount(t: Tables)
    ensures |UnresolvedWithMessage(t)| == 0 <==>
      forall id | id in t.reports :: t.reports[id].resolved || t.reports[id].privateMessageId !in t.messages
  {
    var counted := UnresolvedWithMessage(t);
    Inhabited(counted);
    if counted == {} {
      forall id | id in t.reports
        ensures t.reports[id].resolved || t.reports[id].privateMessageId !in t.messages
      {
        assert id !in counted;
      }
    } else {
      var id :| id in counted;
      assert !t.reports[id].resolved && t.reports[id].privateMessageId in t.messages;
    }
  }

  /**
    `get_report_count`: `count(private_message_report.id)` over report ⋈ message
    filtered on `resolved = false`.  Every report joins at most one message
    (the join is on the message's primary key), so the count of joined rows
    is the number of such reports (`CountIsJoinSize`).
   */
  function GetReportCount(t: Tables): (n: nat)
    ensures n <= |t.reports|
    ensures n == 0 <==> forall id | id in t.reports ::
      t.reports[id].resolved || t.reports[id].privateMessageId !in t.messages
  {
    var counted := UnresolvedWithMessage(t);
    SubsetCardinality(counted, t.reports.Keys);
    NothingToCount(t);
    |counted|
  }

  /** The rows of report ⋈ message with `resolved = false`, as pairs of table rows. */
  ghost function CountedPairs(t: Tables): set<(PrivateMessageReport, PrivateMessage)> {
    set r, m | r in t.reports.Values && m in t.messages.Values && r.privateMessageId == m.id && !r.resolved
      :: (r, m)
  }

  /** The joined pair of a counted report. */
  function PairOf(t: Tables, id: PrivateMessageReportId): (PrivateMessageReport, PrivateMessage)
    requires id in UnresolvedWithMessage(t)
  {
    (t.reports[id], t.messages[t.reports[id].privateMessageId])
  }

  ghost function PairsOf(t: Tables, ids: set<PrivateMessageReportId>): set<(PrivateMessageReport, PrivateMessage)>
    requires ids <= UnresolvedWithMessage(t)
  {
    set id | id in ids :: PairOf(t, id)
  }

  /** Distinct counted reports give distinct pairs, since a pair carries its report. */
  lemma {:induction false} PairsOfCardinality(t: Tables, ids: set<PrivateMessageReportId>)
    requires KeyedById(t) && ids <= UnresolvedWithMessage(t)
    ensures |PairsOf(t, ids)| == |ids|
    decreases ids
  {
    Inhabited(ids);
    if ids == {} {
      assert PairsOf(t, ids) == {};
    } else {
      var x :| x in ids;
      var rest := ids - {x};
      PairsOfCardinality(t, rest);
      forall p
        ensures p in PairsOf(t, ids) <==> p in PairsOf(t, rest) || p == PairOf(t, x)
      {
        if p in PairsOf(t, ids) {
          var id :| id in ids && p == PairOf(t, id);
          if id != x { assert id in rest; }
        }
      }
      assert PairsOf(t, ids) == PairsOf(t, rest) + {PairOf(t, x)};
      assert PairOf(t, x) !in PairsOf(t, rest);
    }
  }

  /** The count is the number of (report, message) rows the narrower join produces. */
  lemma CountIsJoinSize(t: Tables)
    requires KeyedById(t)
    ensures |CountedPairs(t)| == GetReportCount(t)
  {
    var counted := UnresolvedWithMessage(t);
    PairsOfCardinality(t, counted);
    forall p
      ensures p in CountedPairs(t) <==> p in PairsOf(t, counted)
    {
      var (r, m) := p;
      ReportRow(t, r);
      MessageRow(t, m);
      if p in CountedPairs(t) {
        assert r.id in counted && PairOf(t, r.id) == p;
      }
      if p in PairsOf(t, counted) {
        var id :| id in counted && p == PairOf(t, id);
        assert r == t.reports[id] && m == t.messages[r.privateMessageId];
      }
    }
    assert CountedPairs(t) == PairsOf(t, counted);
  }
}
