/**
  The `test_crud` scenario: timmy sends jessica a private message, jessica
  reports it, an admin resolves the report.  The tables are written out as
  they stand after each step; person, message and report creation and the
  resolve call itself are not part of this model.
 */
module ReportScenario {
  import opened Wrappers
  import opened Schema
  import opened Keys
  import opened ReportView
  import opened ReportQuery

  const Timmy := Person(1, "timmy_mrv")
  const Jessica := Person(2, "jessica_mrv")
  const Admin := Person(3, "admin_mrv")

  const Message := PrivateMessage(1, Timmy.id, Jessica.id, "something offensive")

  /** The report as filed: unresolved, no resolver. */
  const Filed := PrivateMessageReport(1, Jessica.id, Message.id, Message.content, "its offensive", false, None, 0)

  /** The same report after the admin resolved it. */
  const Handled := Filed.(resolved := true, resolverId := Some(Admin.id))

  /** After the report is filed. */
  const Reported := Tables(map[Filed.id := Filed], map[Message.id := Message],
                           map[Timmy.id := Timmy, Jessica.id := Jessica])

  /** After the admin is created and has resolved the report. */
  const Resolved := Tables(map[Handled.id := Handled], map[Message.id := Message],
                           map[Timmy.id := Timmy, Jessica.id := Jessica, Admin.id := Admin])

  lemma SingleKey(id: PrivateMessageReportId)
    ensures SortedKeys({id}) == [id]
  {
    var r := SortedKeys({id});
    assert |r| == 1 && r[0] in {id};
  }

  /**
    The default listing (all reports, page and limit left to the pagination
    defaults) of the reported tables shows one unresolved report, filed by
    jessica against timmy's message, with its reason and the message text.
   */
  lemma ListAfterReport(limitAndOffset: (Option<int>, Option<int>) -> Result<LimitOffset, DbError>)
    requires limitAndOffset(None, None).Ok?
    requires limitAndOffset(None, None).value.offset == 0
    requires limitAndOffset(None, None).value.limit >= 1
    ensures List(Reported, DefaultQuery(), limitAndOffset).Ok?
    ensures var reports := List(Reported, DefaultQuery(), limitAndOffset).value;
      && |reports| == 1
      && !reports[0].privateMessageReport.resolved
      && reports[0].privateMessageCreator.name == "timmy_mrv"
      && reports[0].creator.name == "jessica_mrv"
      && reports[0].privateMessageReport.reason == "its offensive"
      && reports[0].privateMessage.content == "something offensive"
  {
    SingleKey(Filed.id);
    var view := PrivateMessageReportView(Filed, Message, Timmy, Jessica, None);
    assert JoinRow(Reported, Filed.id) == Some(view);
    assert Reported.reports.Keys == {Filed.id};
    assert JoinAll(Reported, [Filed.id]) == [view] + JoinAll(Reported, []);
    assert AllJoins(Reported) == [view];
    assert Ordered(Reported, false) == [view];
  }

  /**
    After the admin resolves the report, the full listing still shows it,
    resolved and with the admin as resolver; the unresolved-only listing is
    empty and the unresolved count is 0.
   */
  lemma ListAfterResolve(limitAndOffset: (Option<int>, Option<int>) -> Result<LimitOffset, DbError>)
    requires limitAndOffset(None, None).Ok?
    requires limitAndOffset(None, None).value.offset == 0
    requires limitAndOffset(None, None).value.limit >= 1
    ensures List(Resolved, DefaultQuery(), limitAndOffset).Ok?
    ensures var reports := List(Resolved, DefaultQuery(), limitAndOffset).value;
      && |reports| == 1
      && reports[0].privateMessageReport.resolved
      && reports[0].resolver.Some?
      && reports[0].resolver.value.name == "admin_mrv"
    ensures List(Resolved, DefaultQuery().(unresolvedOnly := true), limitAndOffset) == Ok([])
    ensures GetReportCount(Resolved) == 0
  {
    SingleKey(Handled.id);
    var view := PrivateMessageReportView(Handled, Message, Timmy, Jessica, Some(Admin));
    assert JoinRow(Resolved, Handled.id) == Some(view);
    assert Resolved.reports.Keys == {Handled.id};
    assert JoinAll(Resolved, [Handled.id]) == [view] + JoinAll(Resolved, []);
    assert AllJoins(Resolved) == [view];
    assert Ordered(Resolved, false) == [view];
    assert ResolutionFilter(true, [view]) == [];
    assert UnresolvedWithMessage(Resolved) == {};
  }
}
