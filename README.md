# Private-message report view

A model of Lemmy's `PrivateMessageReportView`. This is the moderation read model
that joins a report filed against a private message with:

- the reported message;
- the message's author;
- the person who filed the report;
- the moderator who resolved it, if any.

It also models the three queries over that view: read by id, the filtered and
paginated listing, and the count of unresolved reports.

The tables `private_message_report`, `private_message` and `person` are maps
from primary key to row (`Schema.Tables`). `Schema.KeyedById` states the
primary-key invariant: each map key is the `id` of its row. Every query is a
pure function over these maps:

- `ReportView.Compose`, `JoinRow`, `JoinAll` and `AllJoins` are `all_joins`,
  computed by primary-key lookups. `ReportView.InJoin` says the same thing
  relationally: a tuple of table rows that meets the ON conditions, with a
  left join for the resolver. The lemmas prove that the two agree.
- `ReportView.Read` is `read`. It takes the `first` of the joined row and
  fails with `NotFound` when there is none.
- `ReportQuery.List` is `list`:
  - `ResolutionFilter` applies `resolved = false` to unresolved-only listings;
  - `Sort` orders by `published` in the direction `OrderFor` picks
    (`Ascending` for unresolved-only, `Descending` otherwise);
  - `Page` applies `OFFSET` and `LIMIT`.

  The pagination helper `limit_and_offset` is passed in as a function. Its
  error reaches the caller unchanged.
- `ReportView.GetReportCount` is `get_report_count`. It counts the report ⋈
  message rows with `resolved = false`.
- `ReportScenario` writes out the tables of the crate's `test_crud` test after
  the report is filed and after it is resolved. It proves what the test
  asserts about the listings.

SQL leaves the order of rows with equal `published` open. The model produces
one such order: reports are taken in ascending id, and the insertion sort is
stable. No lemma relies on it. The listing's lemmas use only "a permutation of
the filtered joined rows, sorted non-strictly".

Points where the code, not its surrounding prose, is followed:

- The doc comment of `get_report_count` (line 85) speaks of "the communities
  you mod". The code counts every unresolved private-message report, for any
  viewer, and so does the model.
- The count is one join narrower than the view. It is equal to the length of
  the unpaginated unresolved-only listing only when every counted report's
  creator and message author exist (`ReportQuery.CountBoundsUnresolvedList`).
  Otherwise it is strictly larger. It is not equal in general.
- The test's first listing (line 164) uses the default query, and the default
  has `unresolved_only == false`. `ReportScenario.ListAfterReport` models that
  listing.

## Model

| member | source | states |
|---|---|---|
| ReportView.Compose | crates/db_views/src/private_message_report_view.rs:24-40 | A report gets a joined row exactly when the three inner joins (message, its author, the report's creator) find partners. The row carries that report, and for keyed tables it is a tuple of the relational join. The converse is `JoinRowIsJoin` |
| ReportView.JoinRow | crates/db_views/src/private_message_report_view.rs:22-44 | `all_joins` over `find(id)`: a row exactly when report `id` exists and its inner joins find partners. That row carries report `id` and, for keyed tables, is a tuple of the join. The full equivalence is `JoinRowIsJoin` |
| ReportView.JoinAll | crates/db_views/src/private_message_report_view.rs:22-41 | `all_joins` over a run of report ids: at most one row per id, and every row is the joined row of one of those ids |
| ReportView.AllJoins | crates/db_views/src/private_message_report_view.rs:50 | `all_joins` over the whole report table: at most one row per report, and for keyed tables only tuples of the join. `AllJoinsIsJoin` proves it holds every tuple, once each |
| ReportView.JoinRowIsJoin | crates/db_views/src/private_message_report_view.rs:22-41 | For keyed tables, the lookup join yields `v` for report `id` exactly when `v` is a tuple of table rows that meets every ON condition of `all_joins` and its report has id `id` |
| ReportView.ResolverIsLeftJoin | crates/db_views/src/private_message_report_view.rs:31-33 | The resolver is the left join on `person2`. It is `Some(p)` exactly when `p` is a person row whose id is the report's `resolver_id`. It is `None` exactly when no person row matches, including when `resolver_id` is null |
| ReportView.ViewRoles | crates/db_views/src/private_message_report_view.rs:25-39 | In each joined row, `private_message` is the message the report references, `private_message_creator` is the person with id `private_message.creator_id`, `creator` is the person with id `private_message_report.creator_id`, and `resolver` is the person with id `resolver_id` if there is one, else None |
| ReportView.JoinRowExists | crates/db_views/src/private_message_report_view.rs:25-33 | A report has a joined row exactly when its message, that message's author and the report's creator all exist. The resolver plays no part, so a missing resolver never drops the row |
| ReportView.AllJoinsIsJoin | crates/db_views/src/private_message_report_view.rs:22-41 | `all_joins` over the whole report table holds every tuple of the relational join and nothing else, with each report at most once |
| ReportView.Read | crates/db_views/src/private_message_report_view.rs:43-47 | Reading by id can only fail with NotFound |
| ReportView.ReadIsJoinRow | crates/db_views/src/private_message_report_view.rs:43-47 | `read(id)` returns `v` exactly when `v` is a joined row with report id `id`. It fails with NotFound exactly when no such row exists |
| ReportView.ReadMissingPartner | crates/db_views/src/private_message_report_view.rs:25-30 | A report whose message, message author or creator is missing reads as NotFound and has no row in the join |
| ReportView.GetReportCount | crates/db_views/src/private_message_report_view.rs:86-97 | The unresolved count never exceeds the number of reports, and it is 0 exactly when every report is resolved or has lost its message |
| ReportView.CountIsJoinSize | crates/db_views/src/private_message_report_view.rs:90-96 | For keyed tables, the count equals the number of (report, message) row pairs that meet the `inner_join(private_message::table)` condition and have `resolved = false` |
| ReportQuery.DefaultQuery | crates/db_views/src/private_message_report_view.rs:100-105 | `#[derive(Default)]`: no page, no limit, and `unresolved_only` false |
| ReportQuery.OrderFor | crates/db_views/src/private_message_report_view.rs:52-60 | Unresolved-only listings are ordered by `published` ascending (oldest first); all other listings by `published` descending (newest first) |
| ReportQuery.Ordered | crates/db_views/src/private_message_report_view.rs:50-60 | The rows before LIMIT and OFFSET are sorted in the direction `OrderFor` picks and are a permutation of the joined rows the filter keeps. `OrderedIsFilteredJoin` states which rows these are |
| ReportQuery.ResolutionFilter | crates/db_views/src/private_message_report_view.rs:54-56 | With unresolved_only, a row is kept exactly when it was in the input and is unresolved. Without it, every row is kept. Rows for distinct reports stay distinct |
| ReportQuery.Sort | crates/db_views/src/private_message_report_view.rs:55-59 | ORDER BY `published`: the result is sorted in the given direction and is a permutation (equal multiset) of the input |
| ReportQuery.Page | crates/db_views/src/private_message_report_view.rs:64-66 | LIMIT and OFFSET: at most `limit` rows, exactly `min(limit, n - offset)` of them when `offset < n` and none otherwise, and row `i` is input row `offset + i` |
| ReportQuery.List | crates/db_views/src/private_message_report_view.rs:49-69 | An error from `limit_and_offset` is returned unchanged. Otherwise the listing succeeds with the `[offset, offset + limit)` slice of the filtered, ordered joined rows, and has at most `limit` rows |
| ReportQuery.OrderedIsFilteredJoin | crates/db_views/src/private_message_report_view.rs:50-60 | Before pagination, the rows are sorted in the direction the filter picks and are a permutation of the filtered join: a row is present exactly when it is a joined row and, with unresolved_only, unresolved. No report appears twice |
| ReportQuery.ListUnresolvedOnly | crates/db_views/src/private_message_report_view.rs:54-57 | With unresolved_only, every returned view is unresolved and `published` is non-decreasing (oldest first) |
| ReportQuery.ListAllNewestFirst | crates/db_views/src/private_message_report_view.rs:58-60 | Without unresolved_only, `published` is non-increasing (newest first) |
| ReportQuery.ListRowsAreJoined | crates/db_views/src/private_message_report_view.rs:49-69 | Every returned view is a row of the join, and no report is returned twice |
| ReportQuery.ListMissingPartner | crates/db_views/src/private_message_report_view.rs:25-30 | A report missing its message, message author or creator appears in no listing |
| ReportQuery.ReadAgreesWithList | crates/db_views/src/private_message_report_view.rs:43-60 | `read(id)` returns exactly the row of the unfiltered, unpaginated listing whose report id is `id`. It fails with NotFound exactly when that listing has no such row |
| ReportQuery.ResolvedReportStillListed | crates/db_views/src/private_message_report_view.rs:178-190 | Once a listed report is marked resolved by an existing person, the full listing still has it, resolved and with that person as resolver. The unresolved-only listing no longer has it |
| ReportQuery.OrderedSize | crates/db_views/src/private_message_report_view.rs:49-60 | The unpaginated listing has one row per report that passes the filter and all three inner joins |
| ReportQuery.UnpaginatedListHasEveryJoinedRow | crates/db_views/src/private_message_report_view.rs:58-66 | Without unresolved_only, with offset 0 and a limit of at least the table size, the listing holds every joined row, resolved or not, and nothing else |
| ReportQuery.CountIgnoresPersons | crates/db_views/src/private_message_report_view.rs:90-96 | The count does not depend on the person table |
| ReportQuery.CountBoundsUnresolvedList | crates/db_views/src/private_message_report_view.rs:90-96 | The count is at least the length of the unpaginated unresolved-only listing. The two are equal exactly when every counted report's creator and message author exist |
| ReportScenario.ListAfterReport | crates/db_views/src/private_message_report_view.rs:164-170 | In the tables of the test after the report is filed, the default listing has one view: unresolved, message author timmy_mrv, creator jessica_mrv, reason "its offensive", content "something offensive" |
| ReportScenario.ListAfterResolve | crates/db_views/src/private_message_report_view.rs:176-190 | After the admin resolves the report, the default listing has one view, resolved, whose resolver is admin_mrv. The unresolved-only listing is empty and the count is 0 |

## Left out

- Connections, pools and async execution (`get_conn`, `DbPool`, `DbConn`, `.await`). The model is a function of the table contents, so a store failure is not modelled.
- The body of `limit_and_offset` (in `lemmy_db_schema::utils`) is not part of this model. `List` takes it as a function parameter from `(page, limit)` to a LIMIT/OFFSET pair or an error.
- `PrivateMessageReport::report` and `PrivateMessageReport::resolve` live in another crate and are not part of this model. The scenario writes out the tables they would produce. `ResolvedReportStillListed` states the effect of a resolution on tables given directly.
- Person, instance and message creation and `Instance::delete` from the test fixtures.
- Diesel's query-builder typing: boxing, aliases, `nullable()` and the `select` tuple. Only the meaning of the query is modelled.
- Columns that the query returns unchanged but that no join, filter, ordering or test assertion uses: the person, message and report fields other than those in `Schema`. The view record is a projection of the real one.
- The order among rows with equal `published`. SQL leaves it unspecified, and no lemma depends on the order the model picks.
- Integer widths. Ids, timestamps and the `i64` count are unbounded integers. Counts and row numbers of finite tables stay far below the 64-bit limit.
