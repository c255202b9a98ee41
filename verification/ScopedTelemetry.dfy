/** The scope-first telemetry page: an OR/EXISTS scan rewritten as a UNION ALL of a global
    branch, an own-group branch and one lateral branch per closure descendant, each cut to
    the page limit before the merge. */
module ScopedTelemetry {
  import opened Wrappers
  import opened Ordering
  import opened Scope
  import Text

  /** A row of telemetry_latest; `reading` stands for the projected columns besides the keys. */
  datatype Row = Row(uuid: string, group: Option<string>, reading: int)

  /** One page request: the scope parameters $1..$5, the position $6 and the limit $7. */
  datatype Page = Page(scope: Parameters, position: Option<string>, limit: Option<nat>)

  const BY_UUID: (Row, Row) -> bool := (a: Row, b: Row) => Text.Less(a.uuid, b.uuid)

  /** uuid is the primary key of telemetry_latest. */
  ghost predicate UniqueUuid(table: set<Row>) {
    forall a, b | a in table && b in table && a.uuid == b.uuid :: a == b
  }

  /** uuid > $6; unknown when the position is NULL. */
  predicate After(row: Row, page: Page) {
    page.position.Some? && Text.Less(page.position.value, row.uuid)
  }

  // ---------- the owned query ----------

  function VisibleRows(table: set<Row>, closure: seq<Edge>, page: Page, role: string): set<Row> {
    set row | row in table && InScope(row.group, page.scope, closure, role).Holds() && After(row, page)
  }

  ghost predicate OwnedAnswer(table: set<Row>, closure: seq<Edge>, page: Page, role: string, result: seq<Row>) {
    OrderByLimit(multiset(VisibleRows(table, closure, page, role)), BY_UUID, page.limit, result)
  }

  // ---------- the candidate query ----------

  function GlobalRows(table: set<Row>, page: Page): set<Row> {
    set row | row in table && Equal(page.scope.role, page.scope.globalRole).Holds() && After(row, page)
  }

  function OwnRows(table: set<Row>, page: Page): set<Row> {
    set row | row in table && !Equal(page.scope.role, page.scope.globalRole).Holds()
              && Equal(row.group, page.scope.group).Holds() && After(row, page)
  }

  /** The WHERE clause of the descendant branch for one closure row. */
  predicate Joins(edge: Edge, page: Page, role: string) {
    && !Equal(page.scope.role, page.scope.globalRole).Holds()
    && Equal(page.scope.hierarchyRole, Some(role)).Holds()
    && Equal(edge.ancestor, page.scope.ancestor).Holds()
    && !Equal(edge.descendant, page.scope.group).Holds()
  }

  /** The rows the lateral scan of one closure row ranges over. */
  function ChildRows(table: set<Row>, edge: Edge, page: Page, role: string): set<Row> {
    set row | row in table && Joins(edge, page, role)
              && Equal(row.group, edge.descendant).Holds() && After(row, page)
  }

  function Branches(table: set<Row>, closure: seq<Edge>, page: Page, role: string): (parts: seq<set<Row>>)
    ensures |parts| == |closure| + 2
  {
    [GlobalRows(table, page), OwnRows(table, page)]
    + seq(|closure|, i requires 0 <= i < |closure| => ChildRows(table, closure[i], page, role))
  }

  ghost predicate BranchAnswers(table: set<Row>, closure: seq<Edge>, page: Page, role: string, results: seq<seq<Row>>) {
    var parts := Branches(table, closure, page, role);
    |results| == |parts|
    && forall i | 0 <= i < |parts| :: OrderByLimit(multiset(parts[i]), BY_UUID, page.limit, results[i])
  }

  /** Some evaluation of the branches, merged by UNION ALL, ordered and cut again, gives `result`. */
  ghost predicate CandidateAnswer(table: set<Row>, closure: seq<Edge>, page: Page, role: string, result: seq<Row>) {
    exists results :: BranchAnswers(table, closure, page, role, results)
      && OrderByLimit(multiset(Flatten(results)), BY_UUID, page.limit, result)
  }

  /** No closure pair is stored twice (pairs with a NULL never match and do not matter). */
  ghost predicate UniqueEdges(closure: seq<Edge>) {
    forall i, j | 0 <= i < j < |closure| && closure[i].ancestor.Some? && closure[i].descendant.Some? ::
      closure[i] != closure[j]
  }

  // ---------- equivalence ----------

  lemma UuidOrder(table: set<Row>)
    requires UniqueUuid(table)
    ensures WeakOrder(BY_UUID) && TotalOn(BY_UUID, table)
  {
    Text.TextOrder();
    forall a: Row, b: Row, c: Row | BY_UUID(a, c) ensures BY_UUID(a, b) || BY_UUID(b, c) {
      assert Text.Less(a.uuid, b.uuid) || Text.Less(b.uuid, c.uuid);
    }
  }

  lemma SharedRow(table: set<Row>, e: Edge, f: Edge, page: Page, role: string, row: Row)
    requires row in ChildRows(table, e, page, role) && row in ChildRows(table, f, page, role)
    ensures e == f && e.ancestor.Some? && e.descendant.Some?
  {
  }

  lemma ChildrenDisjoint(table: set<Row>, closure: seq<Edge>, i: nat, j: nat, page: Page, role: string)
    requires UniqueEdges(closure) && i < j < |closure|
    ensures ChildRows(table, closure[i], page, role) !! ChildRows(table, closure[j], page, role)
  {
    forall row | row in ChildRows(table, closure[i], page, role) ensures row !in ChildRows(table, closure[j], page, role) {
      if row in ChildRows(table, closure[j], page, role) {
        SharedRow(table, closure[i], closure[j], page, role, row);
      }
    }
  }

  lemma BranchesDisjoint(table: set<Row>, closure: seq<Edge>, page: Page, role: string)
    requires UniqueEdges(closure)
    ensures Disjoint(Branches(table, closure, page, role))
  {
    var parts := Branches(table, closure, page, role);
    forall i, j | 0 <= i < j < |parts| ensures parts[i] !! parts[j] {
      forall row: Row | row in parts[i] ensures row !in parts[j] {
        if i >= 2 { ChildrenDisjoint(table, closure, i - 2, j - 2, page, role); }
      }
    }
  }

  lemma BranchesCover(table: set<Row>, closure: seq<Edge>, page: Page, role: string)
    ensures Union(Branches(table, closure, page, role)) == VisibleRows(table, closure, page, role)
  {
    var parts := Branches(table, closure, page, role);
    var visible := VisibleRows(table, closure, page, role);
    forall row ensures row in Union(parts) <==> row in visible {
      UnionMember(parts, row);
      if row in Union(parts) {
        var i :| 0 <= i < |parts| && row in parts[i];
        if i >= 2 { InheritsFrom(closure, i - 2, page.scope.ancestor, row.group); }
      }
      if row in visible {
        if row in GlobalRows(table, page) {
          assert row in parts[0];
        } else if row in OwnRows(table, page) {
          assert row in parts[1];
        } else {
          var i :| 0 <= i < |closure|
            && And(Equal(closure[i].ancestor, page.scope.ancestor), Equal(closure[i].descendant, row.group)).Holds();
          assert row in parts[i + 2];
        }
      }
    }
  }

  lemma InheritsFrom(closure: seq<Edge>, i: nat, ancestor: Option<string>, group: Option<string>)
    requires i < |closure|
    requires Equal(closure[i].ancestor, ancestor).Holds() && Equal(group, closure[i].descendant).Holds()
    ensures Inherits(closure, ancestor, group)
  {
    assert And(Equal(closure[i].ancestor, ancestor), Equal(closure[i].descendant, group)).Holds();
  }

  /** With unique closure pairs the candidate admits exactly the owned query's answers, for every
      table, every NULL pattern of the parameters, every position and every limit. */
  lemma CandidateEqualsOwned(table: set<Row>, closure: seq<Edge>, page: Page, role: string, result: seq<Row>)
    requires UniqueUuid(table) && UniqueEdges(closure)
    ensures CandidateAnswer(table, closure, page, role, result) <==> OwnedAnswer(table, closure, page, role, result)
  {
    var parts := Branches(table, closure, page, role);
    UuidOrder(table);
    BranchesDisjoint(table, closure, page, role);
    BranchesCover(table, closure, page, role);
    forall results | BranchAnswers(table, closure, page, role, results)
      ensures OrderByLimit(multiset(Flatten(results)), BY_UUID, page.limit, result)
         <==> OwnedAnswer(table, closure, page, role, result)
    {
      UnionOfLimits(parts, results, BY_UUID, page.limit, result);
    }
    var results := BranchAnswersExist(parts, BY_UUID, page.limit);
    assert BranchAnswers(table, closure, page, role, results);
  }

  /** The page exists, is unique, ascends by uuid and holds exactly the visible rows that fewer
      than `limit` visible rows precede. */
  lemma OwnedPage(table: set<Row>, closure: seq<Edge>, page: Page, role: string) returns (result: seq<Row>)
    requires UniqueUuid(table)
    ensures forall r :: OwnedAnswer(table, closure, page, role, r) <==> r == result
    ensures Ascending(result, BY_UUID)
    ensures ToSet(result) == Top(VisibleRows(table, closure, page, role), BY_UUID, page.limit)
  {
    var visible := VisibleRows(table, closure, page, role);
    UuidOrder(table);
    result := AnswerExists(multiset(visible), BY_UUID, page.limit);
    AnswerIsTop(visible, BY_UUID, page.limit, result);
    forall r ensures OwnedAnswer(table, closure, page, role, r) <==> r == result {
      AnswerIsTop(visible, BY_UUID, page.limit, r);
      if OwnedAnswer(table, closure, page, role, r) { AscendingUnique(r, result, BY_UUID); }
    }
  }

  /** The rewrite is right for every table and page. */
  ghost predicate RewriteIsExact(closure: seq<Edge>, role: string) {
    forall table, page, result | UniqueUuid(table) ::
      CandidateAnswer(table, closure, page, role, result) <==> OwnedAnswer(table, closure, page, role, result)
  }

  /** The rewrite is right for every table and page exactly when no closure pair is repeated. */
  lemma RewriteExactness(closure: seq<Edge>, role: string)
    ensures RewriteIsExact(closure, role) <==> UniqueEdges(closure)
  {
    if UniqueEdges(closure) {
      forall table, page, result | UniqueUuid(table)
        ensures CandidateAnswer(table, closure, page, role, result) <==> OwnedAnswer(table, closure, page, role, result)
      {
        CandidateEqualsOwned(table, closure, page, role, result);
      }
    } else {
      var i, j :| 0 <= i < j < |closure| && closure[i].ancestor.Some? && closure[i].descendant.Some?
        && closure[i] == closure[j];
      RepeatedEdgeRepeatsRow(closure, role, i, j);
    }
  }

  /** A repeated closure pair makes the candidate return one row twice. */
  lemma RepeatedEdgeRepeatsRow(closure: seq<Edge>, role: string, i: nat, j: nat)
    requires i < j < |closure| && closure[i] == closure[j]
    requires closure[i].ancestor.Some? && closure[i].descendant.Some?
    ensures !RewriteIsExact(closure, role)
  {
    var row := Row("u", closure[i].descendant, 0);
    var page := Page(Parameters(None, None, None, Some(role), closure[i].ancestor), Some(""), None);
    assert After(row, page);
    assert row in ChildRows({row}, closure[i], page, role);
    RowTwice(row, closure, page, role, i, j);
  }

  lemma RowTwice(row: Row, closure: seq<Edge>, page: Page, role: string, i: nat, j: nat)
    requires i < j < |closure| && page.limit.None?
    requires row in ChildRows({row}, closure[i], page, role) && row in ChildRows({row}, closure[j], page, role)
    ensures !RewriteIsExact(closure, role)
  {
    var result := ReturnedTwice(row, closure, page, role, i, j);
    assert UniqueUuid({row});
    if OwnedAnswer({row}, closure, page, role, result) {
      OwnedReturnsOnce({row}, closure, page, role, result, row);
    }
  }

  lemma ReturnedTwice(row: Row, closure: seq<Edge>, page: Page, role: string, i: nat, j: nat) returns (result: seq<Row>)
    requires i < j < |closure| && page.limit.None?
    requires row in ChildRows({row}, closure[i], page, role) && row in ChildRows({row}, closure[j], page, role)
    ensures CandidateAnswer({row}, closure, page, role, result)
    ensures multiset(result)[row] >= 2
  {
    var parts := Branches({row}, closure, page, role);
    UuidOrder({row});
    var results := BranchAnswersExist(parts, BY_UUID, None);
    assert BranchAnswers({row}, closure, page, role, results);
    assert parts[i + 2] == {row} && parts[j + 2] == {row};
    SingletonAnswer(row, results[i + 2]);
    SingletonAnswer(row, results[j + 2]);
    FlattenTwice(results, i + 2, j + 2, row);
    result := ListingExists(multiset(Flatten(results)), BY_UUID);
    assert result == Limit(result, None);
  }

  lemma OwnedReturnsOnce(table: set<Row>, closure: seq<Edge>, page: Page, role: string, result: seq<Row>, row: Row)
    requires OwnedAnswer(table, closure, page, role, result) && page.limit.None?
    ensures multiset(result)[row] <= 1
  {
    assert multiset(VisibleRows(table, closure, page, role))[row] <= 1;
  }

  lemma SingletonAnswer(row: Row, answer: seq<Row>)
    requires OrderByLimit(multiset({row}), BY_UUID, None, answer)
    ensures row in answer
  {
    assert row in multiset(answer);
  }

  lemma {:induction false} FlattenContains<T>(parts: seq<seq<T>>, i: nat, x: T)
    requires i < |parts| && x in parts[i]
    ensures multiset(Flatten(parts))[x] >= 1
  {
    if i < |parts| - 1 { FlattenContains(parts[..|parts| - 1], i, x); }
  }

  lemma {:induction false} FlattenTwice<T>(parts: seq<seq<T>>, i: nat, j: nat, x: T)
    requires i < j < |parts| && x in parts[i] && x in parts[j]
    ensures multiset(Flatten(parts))[x] >= 2
  {
    var n := |parts| - 1;
    if j < n {
      FlattenTwice(parts[..n], i, j, x);
    } else {
      FlattenContains(parts[..n], i, x);
    }
  }
}
