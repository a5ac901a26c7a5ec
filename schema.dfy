/**
  The three tables the private-message report view reads: `person`,
  `private_message` and `private_message_report`, each modelled as a map from
  its primary key to its row.  The query returns every column of these rows
  unchanged; only the columns that a join, filter or ordering of the view, or
  an assertion of its test, looks at are modelled, so each row here is a
  projection of the real one.
 */
module Schema {
  import opened Wrappers

  newtype PersonId = int
  newtype PrivateMessageId = int
  newtype PrivateMessageReportId = int

  datatype Person = Person(id: PersonId, name: string)

  datatype PrivateMessage = PrivateMessage(
    id: PrivateMessageId,
    creatorId: PersonId,
    recipientId: PersonId,
    content: string)

  /** `published` is the creation timestamp, modelled as an integer. */
  datatype PrivateMessageReport = PrivateMessageReport(
    id: PrivateMessageReportId,
    creatorId: PersonId,
    privateMessageId: PrivateMessageId,
    originalPmText: string,
    reason: string,
    resolved: bool,
    resolverId: Option<PersonId>,
    published: int)

  datatype Tables = Tables(
    reports: map<PrivateMessageReportId, PrivateMessageReport>,
    messages: map<PrivateMessageId, PrivateMessage>,
    persons: map<PersonId, Person>)

  /** The errors a query can end in (the variants of Diesel's error that matter here). */
  datatype DbError = NotFound | QueryBuilderError(message: string)

  /** Primary keys: each table is keyed by the `id` column of its rows. */
  ghost predicate KeyedById(t: Tables) {
    && (forall k | k in t.reports :: t.reports[k].id == k)
    && (forall k | k in t.messages :: t.messages[k].id == k)
    && (forall k | k in t.persons :: t.persons[k].id == k)
  }

  /** In a keyed table, a row is present exactly when looking up its id finds it. */
  lemma PersonRow(t: Tables, p: Person)
    requires KeyedById(t)
    ensures p in t.persons.Values <==> p.id in t.persons && t.persons[p.id] == p
  {
    if !exists k :: k in t.persons && t.persons[k] == p {
      assert p !in t.persons.Values;
    }
  }

  lemma MessageRow(t: Tables, m: PrivateMessage)
    requires KeyedById(t)
    ensures m in t.messages.Values <==> m.id in t.messages && t.messages[m.id] == m
  {
    if !exists k :: k in t.messages && t.messages[k] == m {
      assert m !in t.messages.Values;
    }
  }

  lemma ReportRow(t: Tables, r: PrivateMessageReport)
    requires KeyedById(t)
    ensures r in t.reports.Values <==> r.id in t.reports && t.reports[r.id] == r
  {
    if !exists k :: k in t.reports && t.reports[k] == r {
      assert r !in t.reports.Values;
    }
  }
}
