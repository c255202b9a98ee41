/** What the event aggregates answer, in terms of the events themselves: which events count, which
    latency is the least, which minutes are listed. By PairSound the same holds of every accepted
    answer from the rollup. */
module RollupAnswers {
  import opened Wrappers
  import opened Aggregates
  import opened Ordering
  import opened Scope
  import opened EventRollup

  /** The query wants the event: in scope, and inside the window if there is one. */
  predicate Wanted(q: Query, e: Event) {
    && (q.scope.group == Some(e.group)
        || (q.scope.role.Some? && q.scope.role == q.scope.globalRole)
        || (q.scope.hierarchyRole == Some(q.hierarchyRole) && q.scope.ancestor.Some?
            && Edge(q.scope.ancestor, Some(e.group)) in q.closure))
    && (q.window.Some? ==> q.window.value.start <= e.occurredAt <= q.window.value.end)
  }

  lemma RawFilterIsWanted(q: Query, e: Event)
    ensures RawFilter(q)(e) == Wanted(q, e)
  {
    ScopeMeaning(Some(e.group), q.scope, q.closure, q.hierarchyRole);
  }

  /** An operator, whose role is neither global nor hierarchical, gets the own group's events only. */
  lemma OperatorWantsOwnGroup(q: Query, e: Event)
    requires q.scope.role != q.scope.globalRole && q.scope.hierarchyRole != Some(q.hierarchyRole)
    requires RawFilter(q)(e)
    ensures q.scope.group == Some(e.group)
  {
    RawFilterIsWanted(q, e);
  }

  lemma WantedRows(events: seq<Event>, q: Query, e: Event)
    ensures e in Where(events, RawFilter(q)) <==> e in events && Wanted(q, e)
  {
    WhereMember(events, RawFilter(q), e);
    RawFilterIsWanted(q, e);
  }

  /** A query is answered from the rollup exactly when it has no window, or one that begins with a
      minute and ends with the last microsecond of one. */
  lemma PairExact(q: Query)
    ensures Pair(q) == Ok(q) <==>
      q.window.None? || (q.window.value.start % 60_000_000 == 0 && (q.window.value.end + 1) % 60_000_000 == 0)
    ensures Pair(q) != Ok(q) ==> Pair(q) == Err(PartialWindow)
  {
    if q.window.Some? {
      var w := q.window.value;
      EligibleAligned(w);
      MinuteIs(w.start);
      MinuteIs(w.end + 1);
    }
  }

  /** A window is refused exactly when it ends before it starts. */
  lemma WindowOrder(start: int, end: int)
    ensures MakeWindow(start, end) == if end < start then Err(ReversedWindow) else Ok(Window(start, end))
  {
  }

  // ---------- columns of the wanted events ----------

  lemma ColumnValues<V>(rows: seq<Event>, field: Event -> V, v: V)
    ensures v in Column(rows, field) <==> exists e :: e in rows && field(e) == v
  {
    var column := Column(rows, field);
    if v in column {
      var i :| 0 <= i < |column| && column[i] == v;
      assert rows[i] in rows;
    }
    if exists e :: e in rows && field(e) == v {
      var e :| e in rows && field(e) == v;
      var i :| 0 <= i < |rows| && rows[i] == e;
      assert column[i] == v;
    }
  }

  /** `least` is the smallest latency of the events, NULL when none has one. */
  ghost predicate IsLeastLatency(least: Option<int>, events: seq<Event>) {
    && (least.None? <==> forall e | e in events :: e.latency.None?)
    && (least.Some? ==> exists e :: e in events && e.latency == least)
    && (forall e | e in events && e.latency.Some? :: least.Some? && least.value <= e.latency.value)
  }

  ghost predicate IsGreatestLatency(greatest: Option<int>, events: seq<Event>) {
    && (greatest.None? <==> forall e | e in events :: e.latency.None?)
    && (greatest.Some? ==> exists e :: e in events && e.latency == greatest)
    && (forall e | e in events && e.latency.Some? :: greatest.Some? && e.latency.value <= greatest.value)
  }

  lemma LatencyExtremes(events: seq<Event>)
    ensures IsLeastLatency(Min(Column(events, LATENCY_OF)), events)
    ensures IsGreatestLatency(Max(Column(events, LATENCY_OF)), events)
  {
    var column := Column(events, LATENCY_OF);
    MinIsLeast(column);
    MaxIsGreatest(column);
    forall v ensures v in column <==> exists e :: e in events && LATENCY_OF(e) == v { ColumnValues(events, LATENCY_OF, v); }
    forall e | e in events ensures e.latency in column { assert LATENCY_OF(e) == e.latency; }
  }

  /** How many of the events have a latency, and how many a throughput. */
  function Latencies(events: seq<Event>): nat { |set i | 0 <= i < |events| && events[i].latency.Some?| }

  function Throughputs(events: seq<Event>): nat { |set i | 0 <= i < |events| && events[i].throughput.Some?| }

  lemma LatencyPositions(events: seq<Event>)
    ensures Count(Column(events, LATENCY_OF)) == |Present(Column(events, LATENCY_OF))| == Latencies(events)
  {
    CountIsPresent(Column(events, LATENCY_OF));
    assert Present(Column(events, LATENCY_OF)) == set i | 0 <= i < |events| && events[i].latency.Some?;
  }

  lemma ThroughputPositions(events: seq<Event>)
    ensures Count(Column(events, THROUGHPUT_OF)) == |Present(Column(events, THROUGHPUT_OF))| == Throughputs(events)
  {
    CountIsPresent(Column(events, THROUGHPUT_OF));
    assert Present(Column(events, THROUGHPUT_OF)) == set i | 0 <= i < |events| && events[i].throughput.Some?;
  }

  ghost predicate IsMeanLatency(average: Option<real>, events: seq<Event>) {
    IsMean(average, AsReal(Sum(Column(events, LATENCY_OF))), Latencies(events))
  }

  ghost predicate IsMeanThroughput(average: Option<real>, events: seq<Event>) {
    IsMean(average, SumReal(Column(events, THROUGHPUT_OF)), Throughputs(events))
  }

  lemma MeanLatency(events: seq<Event>)
    ensures IsMeanLatency(Avg(Column(events, LATENCY_OF)), events)
  {
    AverageIs(Column(events, LATENCY_OF));
    LatencyPositions(events);
  }

  lemma MeanThroughput(events: seq<Event>)
    ensures IsMeanThroughput(AvgReal(Column(events, THROUGHPUT_OF)), events)
  {
    AverageRealIs(Column(events, THROUGHPUT_OF));
    ThroughputPositions(events);
  }

  /** `total` adds the connections up, and is zero when no event has any. */
  ghost predicate IsTotalConnections(total: int, events: seq<Event>) {
    var sum := Sum(Column(events, CONNECTIONS_OF));
    if forall e | e in events :: e.connections.None? then total == 0 else sum == Some(total)
  }

  lemma ConnectionsAdd(events: seq<Event>)
    ensures IsTotalConnections(Coalesce(Sum(Column(events, CONNECTIONS_OF)), 0), events)
  {
    var column := Column(events, CONNECTIONS_OF);
    SumPresent(column);
    CountIsPresent(column);
    NonePresent(column);
    forall v ensures v in column <==> exists e :: e in events && CONNECTIONS_OF(e) == v {
      ColumnValues(events, CONNECTIONS_OF, v);
    }
    assert forall e | e in events :: CONNECTIONS_OF(e) == e.connections;
  }

  // ---------- the metrics row ----------

  /** The metrics row describes exactly the wanted events: their number, their connections, and the
      least, greatest and mean of their values. */
  ghost predicate Describes(m: Metrics, events: seq<Event>) {
    && m.totalEvents == |events| && IsTotalConnections(m.totalConnections, events)
    && IsLeastLatency(m.minLatency, events) && IsGreatestLatency(m.maxLatency, events)
    && IsMeanLatency(m.avgLatency, events) && IsMeanThroughput(m.avgThroughput, events)
  }

  /** Exactly the events that pass, as often as they occur. */
  ghost predicate Selects(some: seq<Event>, events: seq<Event>, passes: Event -> bool) {
    && |some| == |set i | 0 <= i < |events| && passes(events[i])|
    && (forall e :: multiset(some)[e] == if passes(e) then multiset(events)[e] else 0)
  }

  function WantedBy(q: Query): Event -> bool { (e: Event) => Wanted(q, e) }

  function WantedIn(q: Query, minute: int): Event -> bool {
    (e: Event) => Wanted(q, e) && MinuteOf(e.occurredAt) == minute
  }

  function InGroupMinute(group: string, minute: int): Event -> bool {
    (e: Event) => e.group == group && MinuteOf(e.occurredAt) == minute
  }

  /** The start of the minute of an instant. */
  function MinuteOf(t: int): int { t - t % 60_000_000 }

  lemma MinuteIs(t: int)
    ensures Minute(t) == MinuteOf(t)
  {
  }

  lemma FilterSelects(events: seq<Event>, keep: Event -> bool, passes: Event -> bool)
    requires forall e :: keep(e) == passes(e)
    ensures Selects(Where(events, keep), events, passes)
  {
    WhereSize(events, keep);
    assert Positions(events, keep) == set i | 0 <= i < |events| && passes(events[i]);
    forall e ensures multiset(Where(events, keep))[e] == if passes(e) then multiset(events)[e] else 0 {
      WhereKeeps(events, keep, e);
    }
  }

  /** The raw metrics describe the wanted events, and so do the metrics of every accepted query
      from any rollup of the events. */
  lemma MetricsDescribe(view: seq<RollupRow>, events: seq<Event>, q: Query) returns (scoped: seq<Event>)
    requires Materializes(view, events)
    ensures Selects(scoped, events, WantedBy(q)) && Describes(RawMetricsAnswer(events, q), scoped)
    ensures Pair(q).Ok? ==> Describes(RollupMetricsAnswer(view, q), scoped)
  {
    scoped := Where(events, RawFilter(q));
    forall e ensures RawFilter(q)(e) == WantedBy(q)(e) { RawFilterIsWanted(q, e); }
    FilterSelects(events, RawFilter(q), WantedBy(q));
    LatencyExtremes(scoped);
    MeanLatency(scoped);
    MeanThroughput(scoped);
    ConnectionsAdd(scoped);
    if Pair(q).Ok? { PairSound(view, events, q); }
  }

  // ---------- a row of the view ----------

  /** The stored row of a group and minute: its number of events, least and greatest latency, sums
      and counts of the present values. */
  ghost predicate Stored(s: Stats, events: seq<Event>) {
    && s.events == |events|
    && IsLeastLatency(s.minLatency, events) && IsGreatestLatency(s.maxLatency, events)
    && s.connections == Sum(Column(events, CONNECTIONS_OF)) && s.latencySum == Sum(Column(events, LATENCY_OF))
    && s.throughputSum == SumReal(Column(events, THROUGHPUT_OF))
    && s.latencyCount == Latencies(events) && s.throughputCount == Throughputs(events)
  }

  /** Every row of a view stores the values of exactly the events of its group and minute. */
  lemma RowStores(view: seq<RollupRow>, events: seq<Event>, row: RollupRow) returns (group: seq<Event>)
    requires Materializes(view, events) && row in view
    ensures Selects(group, events, InGroupMinute(row.key.group, row.key.bucket)) && Stored(row.stats, group)
  {
    group := Where(events, Having(row.key));
    LatencyExtremes(group);
    LatencyPositions(group);
    ThroughputPositions(group);
    forall e ensures Having(row.key)(e) == InGroupMinute(row.key.group, row.key.bucket)(e) { MinuteIs(e.occurredAt); }
    FilterSelects(events, Having(row.key), InGroupMinute(row.key.group, row.key.bucket));
  }

  // ---------- the bucket list ----------

  /** The minutes of the wanted events. */
  function Minutes(events: seq<Event>, q: Query): set<int> {
    set e | e in events && Wanted(q, e) :: MinuteOf(e.occurredAt)
  }

  /** A bucket row describes the wanted events of its minute. */
  ghost predicate DescribesBucket(b: BucketRow, inMinute: seq<Event>) {
    && b.events == Some(|inMinute|) && IsTotalConnections(b.connections, inMinute)
    && IsMeanLatency(b.avgLatency, inMinute) && IsMeanThroughput(b.avgThroughput, inMinute)
  }

  function RawInMinute(q: Query, minute: int): Event -> bool { (e: Event) => RawFilter(q)(e) && InBucket(minute)(e) }

  lemma BucketOfMinute(events: seq<Event>, q: Query, minute: int)
    ensures var rows := Where(Where(events, RawFilter(q)), InBucket(minute));
      DescribesBucket(RawBucket(minute, rows), rows) && Selects(rows, events, WantedIn(q, minute))
  {
    var rows := Where(Where(events, RawFilter(q)), InBucket(minute));
    MeanLatency(rows);
    MeanThroughput(rows);
    ConnectionsAdd(rows);
    WhereBoth(events, RawFilter(q), InBucket(minute), RawInMinute(q, minute));
    forall e ensures RawInMinute(q, minute)(e) == WantedIn(q, minute)(e) {
      RawFilterIsWanted(q, e);
      MinuteIs(e.occurredAt);
    }
    FilterSelects(events, RawInMinute(q, minute), WantedIn(q, minute));
  }

  /** Every bucket row is of a minute with wanted events, and describes exactly these. */
  lemma BucketRows(events: seq<Event>, q: Query, b: BucketRow) returns (inMinute: seq<Event>)
    requires b in RawBuckets(events, q)
    ensures b.bucket in Minutes(events, q)
    ensures Selects(inMinute, events, WantedIn(q, b.bucket)) && DescribesBucket(b, inMinute)
  {
    var scoped := Where(events, RawFilter(q));
    var e :| e in scoped && b == RawBucket(Minute(e.occurredAt), Where(scoped, InBucket(Minute(e.occurredAt))));
    WantedRows(events, q, e);
    MinuteIs(e.occurredAt);
    inMinute := Where(scoped, InBucket(b.bucket));
    BucketOfMinute(events, q, b.bucket);
  }

  lemma RowOfMinute(events: seq<Event>, q: Query, minute: int) returns (b: BucketRow)
    requires minute in Minutes(events, q)
    ensures b in RawBuckets(events, q) && b.bucket == minute
  {
    var e :| e in events && Wanted(q, e) && minute == MinuteOf(e.occurredAt);
    WantedRows(events, q, e);
    MinuteIs(e.occurredAt);
    b := RawBucket(minute, Where(Where(events, RawFilter(q)), InBucket(minute)));
  }

  lemma OneRowPerMinute(events: seq<Event>, q: Query, a: BucketRow, b: BucketRow)
    requires a in RawBuckets(events, q) && b in RawBuckets(events, q) && a.bucket == b.bucket
    ensures a == b
  {
  }

  lemma BucketCount(events: seq<Event>, q: Query)
    ensures |RawBuckets(events, q)| == |Minutes(events, q)|
  {
    var rows, minutes := RawBuckets(events, q), Minutes(events, q);
    var f: BucketRow -> int := (b: BucketRow) => b.bucket;
    forall b | b in rows ensures f(b) in minutes { var inMinute := BucketRows(events, q, b); }
    forall a, b | a in rows && b in rows && f(a) == f(b) ensures a == b { OneRowPerMinute(events, q, a, b); }
    forall minute | minute in minutes ensures exists b :: b in rows && f(b) == minute {
      var b := RowOfMinute(events, q, minute);
      assert f(b) == minute;
    }
    SameSize(rows, minutes, f);
  }

  lemma AnswerRows(events: seq<Event>, q: Query, a: seq<BucketRow>)
    requires RawBucketsAnswer(events, q, a)
    ensures forall i | 0 <= i < |a| :: a[i] in RawBuckets(events, q)
    ensures |a| == if |Minutes(events, q)| > 1440 then 1440 else |Minutes(events, q)|
  {
    var rows := RawBuckets(events, q);
    AnswerShape(multiset(rows), BY_BUCKET, Some(BUCKET_LIMIT), a);
    BucketCount(events, q);
    assert |multiset(rows)| == |rows|;
    forall i | 0 <= i < |a| ensures a[i] in rows {
      assert a[i] in multiset(a);
    }
  }

  lemma AnswerAscends(events: seq<Event>, q: Query, a: seq<BucketRow>, i: nat, j: nat)
    requires RawBucketsAnswer(events, q, a) && i < j < |a|
    ensures a[i].bucket < a[j].bucket
  {
    AnswerRows(events, q, a);
    AnswerShape(multiset(RawBuckets(events, q)), BY_BUCKET, Some(BUCKET_LIMIT), a);
    assert !BY_BUCKET(a[j], a[i]);
    if a[i].bucket == a[j].bucket {
      OneRowPerMinute(events, q, a[i], a[j]);
      TwiceInMultiset(a, i, j);
    }
  }

  lemma AnswerKeepsEarliest(events: seq<Event>, q: Query, a: seq<BucketRow>, minute: int)
    requires RawBucketsAnswer(events, q, a)
    requires minute in Minutes(events, q) && forall i | 0 <= i < |a| :: a[i].bucket != minute
    ensures |a| == 1440 && forall i | 0 <= i < |a| :: a[i].bucket < minute
  {
    var rows := RawBuckets(events, q);
    AnswerRows(events, q, a);
    AnswerShape(multiset(rows), BY_BUCKET, Some(BUCKET_LIMIT), a);
    BucketCount(events, q);
    var b := RowOfMinute(events, q, minute);
    LeftOut(rows, a, b);
    forall i | 0 <= i < |a| ensures a[i].bucket < minute { assert !BY_BUCKET(b, a[i]); }
    LeftOutIsCut(rows, a, b);
  }

  /** Every bucket list ascends, holds the earliest 1440 minutes that have wanted events, or all of
      them, and its rows are the bucket rows of those minutes. */
  lemma BucketsAre(events: seq<Event>, q: Query, a: seq<BucketRow>)
    requires RawBucketsAnswer(events, q, a)
    ensures |a| == if |Minutes(events, q)| > 1440 then 1440 else |Minutes(events, q)|
    ensures forall i | 0 <= i < |a| :: a[i] in RawBuckets(events, q)
    ensures forall i, j | 0 <= i < j < |a| :: a[i].bucket < a[j].bucket
    ensures forall minute, j | minute in Minutes(events, q) && 0 <= j < |a| && (forall i | 0 <= i < |a| :: a[i].bucket != minute) ::
      |a| == 1440 && a[j].bucket < minute
  {
    AnswerRows(events, q, a);
    forall i, j | 0 <= i < j < |a| ensures a[i].bucket < a[j].bucket { AnswerAscends(events, q, a, i, j); }
    forall minute, j | minute in Minutes(events, q) && 0 <= j < |a| && (forall i | 0 <= i < |a| :: a[i].bucket != minute)
      ensures |a| == 1440 && a[j].bucket < minute
    {
      AnswerKeepsEarliest(events, q, a, minute);
    }
  }
}
