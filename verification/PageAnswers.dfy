/** What a telemetry page shows, in terms of the rows themselves, and where the benchmark's deep
    page lies. */
module PageAnswers {
  import opened Wrappers
  import opened Ordering
  import opened Scope
  import opened ScopedTelemetry
  import opened TelemetryKeyset
  import Text

  /** The row is behind the position and in scope. A NULL position shows nothing. */
  ghost predicate Shown(row: Row, closure: seq<Edge>, page: Page, role: string) {
    && page.position.Some? && Text.Less(page.position.value, row.uuid)
    && ((row.group.Some? && row.group == page.scope.group)
        || (page.scope.role.Some? && page.scope.role == page.scope.globalRole)
        || (page.scope.hierarchyRole == Some(role) && page.scope.ancestor.Some? && row.group.Some?
            && Edge(page.scope.ancestor, row.group) in closure))
  }

  lemma VisibleIsShown(table: set<Row>, closure: seq<Edge>, page: Page, role: string, row: Row)
    ensures row in VisibleRows(table, closure, page, role) <==> row in table && Shown(row, closure, page, role)
  {
    ScopeMeaning(row.group, page.scope, closure, role);
  }

  ghost function ShownRows(table: set<Row>, closure: seq<Edge>, page: Page, role: string): set<Row> {
    set row | row in table && Shown(row, closure, page, role)
  }

  lemma ShownIsVisible(table: set<Row>, closure: seq<Edge>, page: Page, role: string)
    ensures ShownRows(table, closure, page, role) == VisibleRows(table, closure, page, role)
  {
    forall row ensures row in VisibleRows(table, closure, page, role) <==> row in ShownRows(table, closure, page, role) {
      VisibleIsShown(table, closure, page, role, row);
    }
  }

  /** Every page ascends by uuid without repetition, has as many of the shown rows as the limit
      allows, and leaves out only rows with greater uuids. */
  lemma PageIs(table: set<Row>, closure: seq<Edge>, page: Page, role: string, a: seq<Row>)
    requires UniqueUuid(table) && OwnedAnswer(table, closure, page, role, a)
    ensures var shown := ShownRows(table, closure, page, role);
      && |a| == (if page.limit.Some? && page.limit.value < |shown| then page.limit.value else |shown|)
      && (forall i | 0 <= i < |a| :: a[i] in shown)
      && (forall row, i | row in shown && row !in a && 0 <= i < |a| :: Text.Less(a[i].uuid, row.uuid))
    ensures forall i, j | 0 <= i < j < |a| :: Text.Less(a[i].uuid, a[j].uuid)
  {
    var rows := VisibleRows(table, closure, page, role);
    ShownIsVisible(table, closure, page, role);
    UuidOrder(rows);
    AnswerShape(multiset(rows), BY_UUID, page.limit, a);
    AnswerIsTop(rows, BY_UUID, page.limit, a);
    assert |multiset(rows)| == |rows|;
    assert forall i | 0 <= i < |a| :: a[i] in ToSet(a);
    forall i, j | 0 <= i < j < |a| ensures Text.Less(a[i].uuid, a[j].uuid) {
      assert BY_UUID(a[i], a[j]);
    }
    forall row, i | row in rows && row !in a && 0 <= i < |a| ensures Text.Less(a[i].uuid, row.uuid) {
      LeftOut(rows, a, row);
      assert !BY_UUID(row, a[i]);
      assert a[i] in ToSet(a);
      assert row != a[i];
    }
  }

  /** The rewrite's pages are the same. */
  lemma CandidatePageIs(table: set<Row>, closure: seq<Edge>, page: Page, role: string, a: seq<Row>)
    requires UniqueUuid(table) && UniqueEdges(closure) && CandidateAnswer(table, closure, page, role, a)
    ensures forall i | 0 <= i < |a| :: a[i] in ShownRows(table, closure, page, role)
    ensures forall i, j | 0 <= i < j < |a| :: Text.Less(a[i].uuid, a[j].uuid)
    ensures var shown := ShownRows(table, closure, page, role);
      |a| == if page.limit.Some? && page.limit.value < |shown| then page.limit.value else |shown|
  {
    CandidateEqualsOwned(table, closure, page, role, a);
    PageIs(table, closure, page, role, a);
  }

  // ---------- the deep page ----------

  /** The rows of the own group in a fixture of `count` devices. */
  function OwnDevices(count: nat): set<Row> {
    set row | row in Series(1, count) && row.group == Some("co-a")
  }

  lemma OwnIsFifth(count: nat, row: Row)
    requires row in OwnDevices(count)
    ensures row in FifthDevices(count / 5)
  {
    SeededRow(count, row);
    var i :| 1 <= i <= count && row == DeviceRow(i);
    GroupNames(i);
    assert FifthDevices(count / 5)[i / 5 - 1] == row;
  }

  lemma FifthIsOwn(count: nat, j: nat)
    requires j < count / 5
    ensures DeviceRow(5 * (j + 1)) in OwnDevices(count)
  {
    GroupNames(5 * (j + 1));
    SeededRow(count, DeviceRow(5 * (j + 1)));
  }

  lemma OwnDeviceCount(count: nat)
    requires count < 100_000_000
    ensures |OwnDevices(count)| == count / 5
  {
    var front := FifthDevices(count / 5);
    forall row | row in OwnDevices(count) ensures row in ToSet(front) { OwnIsFifth(count, row); }
    forall row | row in ToSet(front) ensures row in OwnDevices(count) {
      var j :| 0 <= j < |front| && front[j] == row;
      FifthIsOwn(count, j);
    }
    assert OwnDevices(count) == ToSet(front);
    FifthDevicesDistinct(count / 5);
  }

  /** The OFFSET skips three quarters, rounded down, of the rows the operator sees. */
  lemma SkipsThreeQuarters(count: nat, closure: seq<Edge>)
    requires count < 100_000_000
    ensures var seen := |ScopeRows(ToSet(Series(1, count)), closure, SCOPE_PARAMETERS, HIERARCHY_ROLE)|;
      seen == count / 5 && 4 * Skipped(count) <= 3 * seen < 4 * (Skipped(count) + 1)
  {
    var rows := ScopeRows(ToSet(Series(1, count)), closure, SCOPE_PARAMETERS, HIERARCHY_ROLE);
    forall row ensures row in rows <==> row in OwnDevices(count) {
      OperatorSeesOwnGroup(row.group, closure);
    }
    assert rows == OwnDevices(count);
    OwnDeviceCount(count);
  }
}
