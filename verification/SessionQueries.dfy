/** One stream-session summary stated three ways: the owned ARRAY_AGG query, a ROW_NUMBER +
    GROUP BY query and a DISTINCT ON + window query. */
module SessionQueries {
  import opened Wrappers
  import opened Aggregates
  import opened Ordering
  import Text

  datatype Event = Event(
    id: string, occurredAt: int, stream: Option<string>, connection: Option<string>,
    latency: Option<int>, throughput: Option<real>, icePath: Option<string>, relayReason: Option<string>)

  /** GROUP BY, PARTITION BY and DISTINCT ON treat NULL keys as equal. */
  datatype Session = Session(stream: Option<string>, connection: Option<string>)

  datatype SessionRow = SessionRow(
    session: Session, lastOccurredAt: Option<int>, eventCount: nat, avgLatency: Option<real>,
    avgThroughput: Option<real>, icePath: Option<string>, relayReason: Option<string>)

  /** The rows the shared WHERE clause leaves; id is the primary key. */
  ghost predicate UniqueIds(events: seq<Event>) {
    forall i, j | 0 <= i < j < |events| :: events[i].id != events[j].id
  }

  function SessionOf(e: Event): Session { Session(e.stream, e.connection) }

  function InSession(k: Session): Event -> bool { (e: Event) => SessionOf(e) == k }

  function Partition(events: seq<Event>, k: Session): seq<Event> { Where(events, InSession(k)) }

  const LATENCY_OF: Event -> Option<int> := (e: Event) => e.latency
  const THROUGHPUT_OF: Event -> Option<real> := (e: Event) => e.throughput
  const OCCURRED_OF: Event -> Option<int> := (e: Event) => Some(e.occurredAt)

  const LATER: (Event, Event) -> bool := (a: Event, b: Event) => a.occurredAt > b.occurredAt
  const ID_DESCENDING: (Event, Event) -> bool := (a: Event, b: Event) => Text.Less(b.id, a.id)

  /** ORDER BY occurred_at DESC, id DESC */
  const NEWEST: (Event, Event) -> bool := Then(LATER, ID_DESCENDING)

  /** An ascending nullable text key; NULLs come last. */
  predicate NullsLast(a: Option<string>, b: Option<string>) {
    a.Some? && (b.None? || Text.Less(a.value, b.value))
  }

  const BY_STREAM: (Event, Event) -> bool := (a: Event, b: Event) => NullsLast(a.stream, b.stream)
  const BY_CONNECTION: (Event, Event) -> bool := (a: Event, b: Event) => NullsLast(a.connection, b.connection)

  /** ORDER BY stream_id, connection_id, occurred_at DESC, id DESC */
  const BY_SESSION: (Event, Event) -> bool := Then(Then(BY_STREAM, BY_CONNECTION), NEWEST)

  /** A descending nullable instant; NULLs would come first. */
  predicate MoreRecent(a: Option<int>, b: Option<int>) {
    b.Some? && (a.None? || a.value > b.value)
  }

  /** ORDER BY last_occurred_at DESC */
  const BY_LAST: (SessionRow, SessionRow) -> bool :=
    (a: SessionRow, b: SessionRow) => MoreRecent(a.lastOccurredAt, b.lastOccurredAt)

  const SESSION_LIMIT: nat := 500

  // ---------- RANKED ----------

  /** ROW_NUMBER() over one partition in newest-first order. */
  function LatestPosition(partition: seq<Event>, e: Event): nat {
    1 + |set f | f in partition && NEWEST(f, e)|
  }

  /** MAX over a nullable text column. */
  function MaxText(column: seq<Option<string>>): Option<string> {
    if column == [] then None
    else
      var m, v := MaxText(column[..|column| - 1]), column[|column| - 1];
      if m.None? then v else if v.None? then m else if Text.Less(m.value, v.value) then v else m
  }

  /** MAX(CASE WHEN latest_position = 1 THEN field END) */
  function AtFirstPosition(partition: seq<Event>, field: Event -> Option<string>): Option<string> {
    MaxText(Column(partition, (e: Event) => if LatestPosition(partition, e) == 1 then field(e) else None))
  }

  const ICE_PATH_OF: Event -> Option<string> := (e: Event) => e.icePath
  const RELAY_REASON_OF: Event -> Option<string> := (e: Event) => e.relayReason

  function RankedRow(events: seq<Event>, k: Session): SessionRow {
    var p := Partition(events, k);
    SessionRow(k, Max(Column(p, OCCURRED_OF)), |p|, Avg(Column(p, LATENCY_OF)), AvgReal(Column(p, THROUGHPUT_OF)),
               AtFirstPosition(p, ICE_PATH_OF), AtFirstPosition(p, RELAY_REASON_OF))
  }

  function RankedRows(events: seq<Event>): set<SessionRow> {
    set e | e in events :: RankedRow(events, SessionOf(e))
  }

  ghost predicate RankedAnswer(events: seq<Event>, result: seq<SessionRow>) {
    OrderByLimit(multiset(RankedRows(events)), BY_LAST, Some(SESSION_LIMIT), result)
  }

  // ---------- WINDOW ----------

  /** DISTINCT ON (stream_id, connection_id): the first row of every run of equal keys. */
  function DistinctOn(s: seq<Event>): seq<Event> {
    if s == [] then []
    else
      var n := |s| - 1;
      if n == 0 || SessionOf(s[n - 1]) != SessionOf(s[n]) then DistinctOn(s[..n]) + [s[n]] else DistinctOn(s[..n])
  }

  function WindowRow(events: seq<Event>): Event -> SessionRow {
    (e: Event) =>
      var p := Partition(events, SessionOf(e));
      SessionRow(SessionOf(e), Some(e.occurredAt), |p|, Avg(Column(p, LATENCY_OF)), AvgReal(Column(p, THROUGHPUT_OF)),
                 e.icePath, e.relayReason)
  }

  ghost predicate WindowAnswer(events: seq<Event>, result: seq<SessionRow>) {
    exists s :: Listing(multiset(events), BY_SESSION, s)
      && OrderByLimit(multiset(Column(DistinctOn(s), WindowRow(events))), BY_LAST, Some(SESSION_LIMIT), result)
  }

  // ---------- CURRENT ----------

  /** A group row whose ARRAY_AGG(... ORDER BY occurred_at DESC, id DESC)[1] comes from listing t. */
  function CurrentRow(events: seq<Event>, k: Session, t: seq<Event>): SessionRow
    requires t != []
  {
    var p := Partition(events, k);
    SessionRow(k, Max(Column(p, OCCURRED_OF)), |p|, Avg(Column(p, LATENCY_OF)), AvgReal(Column(p, THROUGHPUT_OF)),
               t[0].icePath, t[0].relayReason)
  }

  ghost predicate AggregatedRow(events: seq<Event>, k: Session, row: SessionRow) {
    exists t :: t != [] && Listing(multiset(Partition(events, k)), NEWEST, t) && row == CurrentRow(events, k, t)
  }

  /** One aggregated row for every session of the table. */
  ghost predicate CurrentRows(events: seq<Event>, rows: set<SessionRow>) {
    && (forall row | row in rows :: AggregatedRow(events, row.session, row))
    && (forall a, b | a in rows && b in rows && a.session == b.session :: a == b)
    && (set row | row in rows :: row.session) == (set e | e in events :: SessionOf(e))
  }

  ghost predicate CurrentAnswer(events: seq<Event>, result: seq<SessionRow>) {
    exists rows :: CurrentRows(events, rows) && OrderByLimit(multiset(rows), BY_LAST, Some(SESSION_LIMIT), result)
  }

  // ---------- the orders are orders ----------

  lemma KeyOrders()
    ensures WeakOrder(LATER) && WeakOrder(ID_DESCENDING) && WeakOrder(BY_STREAM) && WeakOrder(BY_CONNECTION)
  {
    Text.TextOrder();
    forall a: Event, b: Event, c: Event | ID_DESCENDING(a, c) ensures ID_DESCENDING(a, b) || ID_DESCENDING(b, c) {
      assert Text.Less(c.id, b.id) || Text.Less(b.id, a.id);
    }
    forall a, b, c | NullsLast(a, c) ensures NullsLast(a, b) || NullsLast(b, c) {
      if a.Some? && b.Some? && c.Some? { assert Text.Less(a.value, b.value) || Text.Less(b.value, c.value); }
    }
    forall a: Event, b: Event, c: Event | BY_STREAM(a, c) ensures BY_STREAM(a, b) || BY_STREAM(b, c) {
      assert NullsLast(a.stream, b.stream) || NullsLast(b.stream, c.stream);
    }
    forall a: Event, b: Event, c: Event | BY_CONNECTION(a, c) ensures BY_CONNECTION(a, b) || BY_CONNECTION(b, c) {
      assert NullsLast(a.connection, b.connection) || NullsLast(b.connection, c.connection);
    }
  }

  lemma SessionOrders()
    ensures WeakOrder(NEWEST) && WeakOrder(Then(BY_STREAM, BY_CONNECTION)) && WeakOrder(BY_SESSION) && WeakOrder(BY_LAST)
  {
    KeyOrders();
    ThenIsOrder(LATER, ID_DESCENDING);
    ThenIsOrder(BY_STREAM, BY_CONNECTION);
    ThenIsOrder(Then(BY_STREAM, BY_CONNECTION), NEWEST);
    forall a: SessionRow, b: SessionRow, c: SessionRow | BY_LAST(a, c) ensures BY_LAST(a, b) || BY_LAST(b, c) {
      assert MoreRecent(a.lastOccurredAt, b.lastOccurredAt) || MoreRecent(b.lastOccurredAt, c.lastOccurredAt);
    }
  }

  /** Neither of two events precedes the other by key exactly when their sessions are equal. */
  lemma SessionKey(a: Event, b: Event)
    ensures SessionOf(a) == SessionOf(b) <==>
      !Then(BY_STREAM, BY_CONNECTION)(a, b) && !Then(BY_STREAM, BY_CONNECTION)(b, a)
  {
    Text.TextOrder();
    if a.stream.Some? && b.stream.Some? {
      assert a.stream.value == b.stream.value || Text.Less(a.stream.value, b.stream.value) || Text.Less(b.stream.value, a.stream.value);
    }
    if a.connection.Some? && b.connection.Some? {
      assert a.connection.value == b.connection.value || Text.Less(a.connection.value, b.connection.value)
        || Text.Less(b.connection.value, a.connection.value);
    }
  }

  /** Unique ids make newest-first a total order. */
  lemma NewestTotal(a: Event, b: Event)
    requires a.id != b.id
    ensures NEWEST(a, b) || NEWEST(b, a)
  {
    Text.TextOrder();
    assert Text.Less(a.id, b.id) || Text.Less(b.id, a.id);
  }

  // ---------- the newest event of a session ----------

  ghost predicate IsNewest(events: seq<Event>, e: Event) {
    e in events && forall f | f in events && SessionOf(f) == SessionOf(e) :: !NEWEST(f, e)
  }

  lemma SameIdSameEvent(events: seq<Event>, a: Event, b: Event)
    requires UniqueIds(events) && a in events && b in events && a != b
    ensures a.id != b.id
  {
    var i :| 0 <= i < |events| && events[i] == a;
    var j :| 0 <= j < |events| && events[j] == b;
    assert i < j || j < i;
  }

  lemma NewestUnique(events: seq<Event>, a: Event, b: Event)
    requires UniqueIds(events) && IsNewest(events, a) && IsNewest(events, b) && SessionOf(a) == SessionOf(b)
    ensures a == b
  {
    if a != b {
      SameIdSameEvent(events, a, b);
      NewestTotal(a, b);
    }
  }

  lemma NewestExists(events: seq<Event>, e: Event) returns (top: Event)
    requires e in events
    ensures IsNewest(events, top) && SessionOf(top) == SessionOf(e)
  {
    SessionOrders();
    var s := set f | f in events && SessionOf(f) == SessionOf(e);
    assert e in s;
    top := MinimalElement(s, NEWEST);
    forall f | f in events && SessionOf(f) == SessionOf(top) ensures !NEWEST(f, top) {
      assert f in s;
    }
  }

  lemma {:induction false} MaxIs(column: seq<Option<int>>, m: int)
    requires forall v | v in column :: v.Some? && v.value <= m
    ensures Max(column).Some? ==> Max(column).value <= m
    ensures Some(m) in column ==> Max(column) == Some(m)
  {
    if column != [] {
      var init, v := column[..|column| - 1], column[|column| - 1];
      assert v in column;
      MaxIs(init, m);
      assert column == init + [v];
    }
  }

  lemma {:induction false} MaxTextIs(column: seq<Option<string>>, v: Option<string>)
    requires forall x | x in column :: x == None || x == v
    ensures MaxText(column) == if v in column then v else None
  {
    if column != [] {
      var init, last := column[..|column| - 1], column[|column| - 1];
      assert last in column && forall x | x in init :: x in column;
      MaxTextIs(init, v);
      assert column == init + [last];
      if v.Some? && Text.Less(v.value, v.value) { Text.Asymmetric(v.value, v.value); }
    }
  }

  lemma PartitionMember(events: seq<Event>, k: Session, e: Event)
    ensures e in Partition(events, k) <==> e in events && SessionOf(e) == k
  {
    WhereMember(events, InSession(k), e);
  }

  /** Position 1 belongs to the newest event alone. */
  lemma PositionOne(events: seq<Event>, k: Session, e: Event)
    requires e in Partition(events, k)
    ensures LatestPosition(Partition(events, k), e) == 1 <==> IsNewest(events, e)
  {
    var p := Partition(events, k);
    var before := set f | f in p && NEWEST(f, e);
    PartitionMember(events, k, e);
    forall f ensures f in p <==> f in events && SessionOf(f) == k { PartitionMember(events, k, f); }
    if |before| == 0 {
      assert before == {};
      forall f | f in events && SessionOf(f) == k ensures !NEWEST(f, e) {
        assert f !in before;
      }
    }
    if IsNewest(events, e) { assert before == {}; }
  }

  lemma FirstPositionField(events: seq<Event>, top: Event, field: Event -> Option<string>)
    requires UniqueIds(events) && IsNewest(events, top)
    ensures AtFirstPosition(Partition(events, SessionOf(top)), field) == field(top)
  {
    var p := Partition(events, SessionOf(top));
    var cell := (e: Event) => if LatestPosition(p, e) == 1 then field(e) else None;
    var column := Column(p, cell);
    forall x | x in column ensures x == None || x == field(top) {
      var i :| 0 <= i < |column| && column[i] == x;
      PositionOne(events, SessionOf(top), p[i]);
      PartitionMember(events, SessionOf(top), p[i]);
      if IsNewest(events, p[i]) { NewestUnique(events, p[i], top); }
    }
    PartitionMember(events, SessionOf(top), top);
    PositionOne(events, SessionOf(top), top);
    var i :| 0 <= i < |p| && p[i] == top;
    assert column[i] == field(top);
    MaxTextIs(column, field(top));
    assert AtFirstPosition(p, field) == MaxText(column);
  }

  lemma LastOccurrence(events: seq<Event>, top: Event)
    requires IsNewest(events, top)
    ensures Max(Column(Partition(events, SessionOf(top)), OCCURRED_OF)) == Some(top.occurredAt)
  {
    var p := Partition(events, SessionOf(top));
    var column := Column(p, OCCURRED_OF);
    forall v | v in column ensures v.Some? && v.value <= top.occurredAt {
      var i :| 0 <= i < |column| && column[i] == v;
      PartitionMember(events, SessionOf(top), p[i]);
      assert !NEWEST(p[i], top);
    }
    PartitionMember(events, SessionOf(top), top);
    var i :| 0 <= i < |p| && p[i] == top;
    assert column[i] == Some(top.occurredAt);
    MaxIs(column, top.occurredAt);
  }

  /** The ranked row of a session is the window row of its newest event. */
  lemma RankedIsWindow(events: seq<Event>, top: Event)
    requires UniqueIds(events) && IsNewest(events, top)
    ensures RankedRow(events, SessionOf(top)) == WindowRow(events)(top)
  {
    LastOccurrence(events, top);
    FirstPositionField(events, top, ICE_PATH_OF);
    FirstPositionField(events, top, RELAY_REASON_OF);
  }

  /** Every ARRAY_AGG row of a session is its ranked row. */
  lemma CurrentIsRanked(events: seq<Event>, k: Session, row: SessionRow)
    requires UniqueIds(events) && AggregatedRow(events, k, row)
    ensures row == RankedRow(events, k)
  {
    var t :| t != [] && Listing(multiset(Partition(events, k)), NEWEST, t) && row == CurrentRow(events, k, t);
    var top := t[0];
    assert top in multiset(t);
    PartitionMember(events, k, top);
    forall f | f in events && SessionOf(f) == SessionOf(top) ensures !NEWEST(f, top) {
      PartitionMember(events, k, f);
      assert f in multiset(t);
      var i :| 0 <= i < |t| && t[i] == f;
      if i == 0 { SessionOrders(); }
    }
    RankedIsWindow(events, top);
  }

  // ---------- DISTINCT ON keeps exactly the newest events ----------

  predicate Head(s: seq<Event>, i: nat)
    requires i < |s|
  {
    i == 0 || SessionOf(s[i - 1]) != SessionOf(s[i])
  }

  lemma {:induction false} DistinctOnHeads(s: seq<Event>, e: Event)
    ensures e in DistinctOn(s) <==> exists i: nat :: i < |s| && Head(s, i) && s[i] == e
  {
    if s != [] {
      var n := |s| - 1;
      var init := s[..n];
      DistinctOnHeads(init, e);
      forall i: nat | i < n ensures Head(init, i) == Head(s, i) && init[i] == s[i] { }
      if e in DistinctOn(s) && e !in DistinctOn(init) {
        assert Head(s, n) && s[n] == e;
      }
      if e in DistinctOn(init) {
        var i: nat :| i < |init| && Head(init, i) && init[i] == e;
        assert i < |s| && Head(s, i) && s[i] == e;
      }
      if exists i: nat :: i < |s| && Head(s, i) && s[i] == e {
        var i: nat :| i < |s| && Head(s, i) && s[i] == e;
        if i < n { assert i < |init| && Head(init, i) && init[i] == e; }
      }
    }
  }

  /** In session order everything between two rows of a session belongs to it. */
  lemma SessionBetween(a: Event, m: Event, b: Event)
    requires SessionOf(a) == SessionOf(b) && (a == m || !BY_SESSION(m, a)) && !BY_SESSION(b, m)
    ensures SessionOf(m) == SessionOf(b)
  {
    var byKey := Then(BY_STREAM, BY_CONNECTION);
    SessionOrders();
    SessionKey(a, b);
    SessionKey(m, b);
    assert byKey(m, b) ==> byKey(m, a) || byKey(a, b);
  }

  lemma HeadIsNewest(events: seq<Event>, s: seq<Event>, i: nat)
    requires UniqueIds(events) && Listing(multiset(events), BY_SESSION, s) && i < |s|
    ensures Head(s, i) <==> IsNewest(events, s[i])
  {
    SessionOrders();
    forall x ensures x in events <==> x in s {
      assert x in events <==> x in multiset(events);
      assert x in s <==> x in multiset(s);
    }
    if Head(s, i) {
      forall f | f in events && SessionOf(f) == SessionOf(s[i]) ensures !NEWEST(f, s[i]) {
        assert f in s;
        var j :| 0 <= j < |s| && s[j] == f;
        SessionKey(f, s[i]);
        if j < i {
          SessionBetween(s[j], s[i - 1], s[i]);
        } else if i < j {
          assert !BY_SESSION(s[j], s[i]);
        }
      }
    } else {
      var f := s[i - 1];
      assert f in s && s[i] in s;
      SessionKey(f, s[i]);
      assert !BY_SESSION(s[i], f);
      NeighboursDiffer(events, s, i);
      NewestTotal(f, s[i]);
    }
  }

  lemma NeighboursDiffer(events: seq<Event>, s: seq<Event>, i: nat)
    requires UniqueIds(events) && multiset(s) == multiset(events) && 0 < i < |s|
    ensures s[i - 1].id != s[i].id
  {
    DistinctListing(events, s);
    assert s[i - 1] in multiset(s) && s[i] in multiset(s);
    SameIdSameEvent(events, s[i - 1], s[i]);
  }

  /** Reordering a table with unique ids repeats no row. */
  lemma DistinctListing(events: seq<Event>, s: seq<Event>)
    requires UniqueIds(events) && multiset(s) == multiset(events)
    ensures Distinct(s)
  {
    DistinctSize(events);
    MultisetOfSet(s, ToSet(events));
  }

  /** The window query's rows are the ranked rows, each exactly once. */
  lemma WindowIsRanked(events: seq<Event>, s: seq<Event>)
    requires UniqueIds(events) && Listing(multiset(events), BY_SESSION, s)
    ensures multiset(Column(DistinctOn(s), WindowRow(events))) == multiset(RankedRows(events))
  {
    var heads := DistinctOn(s);
    var rows := Column(heads, WindowRow(events));
    DistinctListing(events, s);
    forall e ensures e in heads <==> IsNewest(events, e) { HeadsAreNewest(events, s, e); }
    assert forall e | e in heads :: IsNewest(events, e);
    HeadsDistinct(s);
    RowsDistinct(events, heads);
    DistinctSize(rows);
    forall row ensures row in ToSet(rows) <==> row in RankedRows(events) {
      RowOfNewest(events, heads, row);
    }
  }

  lemma RowsDistinct(events: seq<Event>, heads: seq<Event>)
    requires UniqueIds(events) && forall e | e in heads :: IsNewest(events, e)
    requires Distinct(heads)
    ensures Distinct(Column(heads, WindowRow(events)))
  {
    var rows := Column(heads, WindowRow(events));
    forall i, j | 0 <= i < j < |rows| ensures rows[i].session != rows[j].session {
      assert heads[i] in heads && heads[j] in heads;
      if SessionOf(heads[i]) == SessionOf(heads[j]) { NewestUnique(events, heads[i], heads[j]); }
    }
  }

  lemma RowOfNewest(events: seq<Event>, heads: seq<Event>, row: SessionRow)
    requires UniqueIds(events) && forall e :: e in heads <==> IsNewest(events, e)
    ensures row in Column(heads, WindowRow(events)) <==> row in RankedRows(events)
  {
    var rows := Column(heads, WindowRow(events));
    if row in rows {
      var i :| 0 <= i < |rows| && rows[i] == row;
      assert heads[i] in heads;
      RankedIsWindow(events, heads[i]);
      assert heads[i] in events;
    }
    if row in RankedRows(events) {
      var e :| e in events && row == RankedRow(events, SessionOf(e));
      var top := NewestExists(events, e);
      RankedIsWindow(events, top);
      assert top in heads;
      var i :| 0 <= i < |heads| && heads[i] == top;
      assert rows[i] == row;
    }
  }

  lemma HeadsAreNewest(events: seq<Event>, s: seq<Event>, e: Event)
    requires UniqueIds(events) && Listing(multiset(events), BY_SESSION, s)
    ensures e in DistinctOn(s) <==> IsNewest(events, e)
  {
    DistinctOnHeads(s, e);
    if e in DistinctOn(s) {
      var i: nat :| i < |s| && Head(s, i) && s[i] == e;
      HeadIsNewest(events, s, i);
    }
    if IsNewest(events, e) {
      assert e in multiset(events);
      assert e in multiset(s);
      var i: nat :| i < |s| && s[i] == e;
      HeadIsNewest(events, s, i);
    }
  }

  lemma {:induction false} HeadsDistinct(s: seq<Event>)
    requires Distinct(s)
    ensures Distinct(DistinctOn(s))
  {
    if s != [] {
      var n := |s| - 1;
      HeadsDistinct(s[..n]);
      DistinctOnHeads(s[..n], s[n]);
    }
  }

  // ---------- the three queries agree ----------

  /** For every table with unique ids the three queries admit exactly the same answers. */
  lemma QueriesAgree(events: seq<Event>, result: seq<SessionRow>)
    requires UniqueIds(events)
    ensures WindowAnswer(events, result) <==> RankedAnswer(events, result)
    ensures CurrentAnswer(events, result) <==> RankedAnswer(events, result)
  {
    SessionOrders();
    forall s | Listing(multiset(events), BY_SESSION, s)
      ensures multiset(Column(DistinctOn(s), WindowRow(events))) == multiset(RankedRows(events))
    {
      WindowIsRanked(events, s);
    }
    var s := ListingExists(multiset(events), BY_SESSION);
    forall rows | CurrentRows(events, rows) ensures rows == RankedRows(events) {
      CurrentRowsAreRanked(events, rows);
    }
    RankedRowsAreCurrent(events);
  }

  lemma CurrentRowsAreRanked(events: seq<Event>, rows: set<SessionRow>)
    requires UniqueIds(events) && CurrentRows(events, rows)
    ensures rows == RankedRows(events)
  {
    var sessions := set e | e in events :: SessionOf(e);
    forall row | row in rows ensures row in RankedRows(events) {
      CurrentIsRanked(events, row.session, row);
      assert row.session in sessions;
    }
    forall row | row in RankedRows(events) ensures row in rows {
      var e :| e in events && row == RankedRow(events, SessionOf(e));
      assert SessionOf(e) in sessions;
      var other :| other in rows && other.session == SessionOf(e);
      CurrentIsRanked(events, other.session, other);
    }
  }

  lemma RankedRowsAreCurrent(events: seq<Event>)
    requires UniqueIds(events)
    ensures CurrentRows(events, RankedRows(events))
  {
    SessionOrders();
    var rows := RankedRows(events);
    forall row | row in rows ensures AggregatedRow(events, row.session, row) {
      var e :| e in events && row == RankedRow(events, SessionOf(e));
      var p := Partition(events, SessionOf(e));
      var t := ListingExists(multiset(p), NEWEST);
      PartitionMember(events, SessionOf(e), e);
      assert e in multiset(t);
      assert AggregatedRow(events, SessionOf(e), CurrentRow(events, SessionOf(e), t));
      CurrentIsRanked(events, SessionOf(e), CurrentRow(events, SessionOf(e), t));
    }
    var listed, sessions := set row | row in rows :: row.session, set e | e in events :: SessionOf(e);
    forall k | k in sessions ensures k in listed {
      var e :| e in events && SessionOf(e) == k;
      assert RankedRow(events, k) in rows;
    }
  }

  /** After the cut at 500, any two answers of any of the queries list the same
      last_occurred_at values in order and share every session newer than the last one kept. */
  lemma CutsDifferOnlyInTies(events: seq<Event>, a: seq<SessionRow>, b: seq<SessionRow>, row: SessionRow)
    requires UniqueIds(events)
    requires RankedAnswer(events, a) || WindowAnswer(events, a) || CurrentAnswer(events, a)
    requires RankedAnswer(events, b) || WindowAnswer(events, b) || CurrentAnswer(events, b)
    ensures |a| == |b| <= SESSION_LIMIT
    ensures forall i | 0 <= i < |a| :: a[i].lastOccurredAt == b[i].lastOccurredAt
    ensures a != [] && row in RankedRows(events) && BY_LAST(row, a[|a| - 1]) ==> row in a && row in b
  {
    QueriesAgree(events, a);
    QueriesAgree(events, b);
    SessionOrders();
    var rows := multiset(RankedRows(events));
    AnswersDifferOnlyInTies(rows, BY_LAST, Some(SESSION_LIMIT), a, b, row);
    forall i | 0 <= i < |a| ensures a[i].lastOccurredAt == b[i].lastOccurredAt {
      AnswerHasInstant(events, a, i);
      AnswerHasInstant(events, b, i);
    }
  }

  lemma AnswerHasInstant(events: seq<Event>, a: seq<SessionRow>, i: nat)
    requires UniqueIds(events) && RankedAnswer(events, a) && i < |a|
    ensures a[i].lastOccurredAt.Some?
  {
    var s :| Listing(multiset(RankedRows(events)), BY_LAST, s) && a == Limit(s, Some(SESSION_LIMIT));
    assert a[i] == s[i] && s[i] in multiset(s);
    var e :| e in events && a[i] == RankedRow(events, SessionOf(e));
    var top := NewestExists(events, e);
    LastOccurrence(events, top);
  }
}
