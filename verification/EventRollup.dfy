/** Operational-event aggregates, raw and from a per-minute materialized rollup. */
module EventRollup {
  import opened Wrappers
  import opened Aggregates
  import opened Ordering
  import opened Scope

  const MINUTE: int := 60_000_000

  /** Instants are microseconds since the epoch, in UTC. */
  datatype Event = Event(
    id: string, occurredAt: int, group: string,
    connections: Option<int>, latency: Option<int>, throughput: Option<real>)

  datatype Key = Key(group: string, bucket: int)

  /** DATE_TRUNC('minute', t) */
  function Minute(t: int): int { t / MINUTE * MINUTE }

  function KeyOf(e: Event): Key { Key(e.group, Minute(e.occurredAt)) }

  /** The aggregate columns of one event_rollup row. */
  datatype Stats = Stats(
    events: nat, connections: Option<int>, minLatency: Option<int>, maxLatency: Option<int>,
    latencySum: Option<int>, latencyCount: nat, throughputSum: Option<real>, throughputCount: nat)

  datatype RollupRow = RollupRow(key: Key, stats: Stats)

  const CONNECTIONS_OF: Event -> Option<int> := (e: Event) => e.connections
  const LATENCY_OF: Event -> Option<int> := (e: Event) => e.latency
  const THROUGHPUT_OF: Event -> Option<real> := (e: Event) => e.throughput

  /** The select list of the materialized view, for the events of one group. */
  function Summary(events: seq<Event>): Stats {
    var latency, throughput := Column(events, LATENCY_OF), Column(events, THROUGHPUT_OF);
    Stats(|events|, Sum(Column(events, CONNECTIONS_OF)), Min(latency), Max(latency),
          Sum(latency), Count(latency), SumReal(throughput), Count(throughput))
  }

  function Having(key: Key): Event -> bool { (e: Event) => KeyOf(e) == key }

  ghost predicate Occurs(events: seq<Event>, key: Key) { exists e :: e in events && KeyOf(e) == key }

  ghost predicate Lists(view: seq<RollupRow>, key: Key) { exists row :: row in view && row.key == key }

  /** `view` is an answer of the materializing GROUP BY over `events`, its rows in any order. */
  ghost predicate Materializes(view: seq<RollupRow>, events: seq<Event>) {
    && (forall i, j | 0 <= i < j < |view| :: view[i].key != view[j].key)
    && (forall row | row in view :: row.stats == Summary(Where(events, Having(row.key))))
    && (forall key :: Lists(view, key) <==> Occurs(events, key))
  }

  // ---------- the queries ----------

  /** Both bounds inclusive; start <= end is enforced when a window is built. */
  datatype Window = Window(start: int, end: int)

  datatype Query = Query(scope: Parameters, closure: seq<Edge>, hierarchyRole: string, window: Option<Window>)

  predicate Admits(q: Query, group: string, instant: int) {
    && InScope(Some(group), q.scope, q.closure, q.hierarchyRole).Holds()
    && (q.window.Some? ==> q.window.value.start <= instant <= q.window.value.end)
  }

  function RawFilter(q: Query): Event -> bool { (e: Event) => Admits(q, e.group, e.occurredAt) }

  /** The same clause with occurred_at replaced by bucket_start. */
  function RollupFilter(q: Query): Key -> bool { (k: Key) => Admits(q, k.group, k.bucket) }

  datatype Metrics = Metrics(
    totalEvents: int, totalConnections: int, minLatency: Option<int>, avgLatency: Option<real>,
    maxLatency: Option<int>, avgThroughput: Option<real>)

  function RawMetrics(events: seq<Event>): Metrics {
    var latency := Column(events, LATENCY_OF);
    Metrics(|events|, Coalesce(Sum(Column(events, CONNECTIONS_OF)), 0), Min(latency), Avg(latency),
            Max(latency), AvgReal(Column(events, THROUGHPUT_OF)))
  }

  const COUNT_COLUMN: RollupRow -> Option<int> := (r: RollupRow) => Some(r.stats.events)
  const CONNECTIONS_COLUMN: RollupRow -> Option<int> := (r: RollupRow) => r.stats.connections
  const MIN_COLUMN: RollupRow -> Option<int> := (r: RollupRow) => r.stats.minLatency
  const MAX_COLUMN: RollupRow -> Option<int> := (r: RollupRow) => r.stats.maxLatency
  const LATENCY_SUM_COLUMN: RollupRow -> Option<int> := (r: RollupRow) => r.stats.latencySum
  const LATENCY_COUNT_COLUMN: RollupRow -> Option<int> := (r: RollupRow) => Some(r.stats.latencyCount)
  const THROUGHPUT_SUM_COLUMN: RollupRow -> Option<real> := (r: RollupRow) => r.stats.throughputSum
  const THROUGHPUT_COUNT_COLUMN: RollupRow -> Option<int> := (r: RollupRow) => Some(r.stats.throughputCount)

  function RollupAvgLatency(rows: seq<RollupRow>): Option<real> {
    Ratio(AsReal(Sum(Column(rows, LATENCY_SUM_COLUMN))), Sum(Column(rows, LATENCY_COUNT_COLUMN)))
  }

  function RollupAvgThroughput(rows: seq<RollupRow>): Option<real> {
    Ratio(SumReal(Column(rows, THROUGHPUT_SUM_COLUMN)), Sum(Column(rows, THROUGHPUT_COUNT_COLUMN)))
  }

  function RollupMetrics(rows: seq<RollupRow>): Metrics {
    Metrics(Coalesce(Sum(Column(rows, COUNT_COLUMN)), 0), Coalesce(Sum(Column(rows, CONNECTIONS_COLUMN)), 0),
            Min(Column(rows, MIN_COLUMN)), RollupAvgLatency(rows),
            Max(Column(rows, MAX_COLUMN)), RollupAvgThroughput(rows))
  }

  function OnKey(keep: Key -> bool): RollupRow -> bool { (r: RollupRow) => keep(r.key) }

  function RawMetricsAnswer(events: seq<Event>, q: Query): Metrics {
    RawMetrics(Where(events, RawFilter(q)))
  }

  function RollupMetricsAnswer(view: seq<RollupRow>, q: Query): Metrics {
    RollupMetrics(Where(view, OnKey(RollupFilter(q))))
  }

  datatype BucketRow = BucketRow(
    bucket: int, events: Option<int>, connections: int, avgLatency: Option<real>, avgThroughput: Option<real>)

  function InBucket(bucket: int): Event -> bool { (e: Event) => Minute(e.occurredAt) == bucket }

  function RowInBucket(bucket: int): RollupRow -> bool { (r: RollupRow) => r.key.bucket == bucket }

  function RawBucket(bucket: int, events: seq<Event>): BucketRow {
    BucketRow(bucket, Some(|events|), Coalesce(Sum(Column(events, CONNECTIONS_OF)), 0),
              Avg(Column(events, LATENCY_OF)), AvgReal(Column(events, THROUGHPUT_OF)))
  }

  function RollupBucket(bucket: int, rows: seq<RollupRow>): BucketRow {
    BucketRow(bucket, Sum(Column(rows, COUNT_COLUMN)), Coalesce(Sum(Column(rows, CONNECTIONS_COLUMN)), 0),
              RollupAvgLatency(rows), RollupAvgThroughput(rows))
  }

  /** The rows of the raw GROUP BY bucket_start. */
  function RawBuckets(events: seq<Event>, q: Query): set<BucketRow> {
    var scoped := Where(events, RawFilter(q));
    set e | e in scoped :: RawBucket(Minute(e.occurredAt), Where(scoped, InBucket(Minute(e.occurredAt))))
  }

  function RollupBuckets(view: seq<RollupRow>, q: Query): set<BucketRow> {
    var scoped := Where(view, OnKey(RollupFilter(q)));
    set r | r in scoped :: RollupBucket(r.key.bucket, Where(scoped, RowInBucket(r.key.bucket)))
  }

  const BY_BUCKET: (BucketRow, BucketRow) -> bool := (a: BucketRow, b: BucketRow) => a.bucket < b.bucket

  const BUCKET_LIMIT: nat := 1440

  ghost predicate RawBucketsAnswer(events: seq<Event>, q: Query, result: seq<BucketRow>) {
    OrderByLimit(multiset(RawBuckets(events, q)), BY_BUCKET, Some(BUCKET_LIMIT), result)
  }

  ghost predicate RollupBucketsAnswer(view: seq<RollupRow>, q: Query, result: seq<BucketRow>) {
    OrderByLimit(multiset(RollupBuckets(view, q)), BY_BUCKET, Some(BUCKET_LIMIT), result)
  }

  // ---------- summaries of a partition ----------

  function Combine(a: Stats, b: Stats): Stats {
    Stats(a.events + b.events, Plus(a.connections, b.connections), Least(a.minLatency, b.minLatency),
          Greatest(a.maxLatency, b.maxLatency), Plus(a.latencySum, b.latencySum), a.latencyCount + b.latencyCount,
          PlusReal(a.throughputSum, b.throughputSum), a.throughputCount + b.throughputCount)
  }

  function Single(e: Event): Stats {
    Stats(1, e.connections, e.latency, e.latency, e.latency, if e.latency.Some? then 1 else 0,
          e.throughput, if e.throughput.Some? then 1 else 0)
  }

  function Total(events: seq<Event>): Stats {
    if events == [] then Stats(0, None, None, None, None, 0, None, 0)
    else Combine(Total(events[..|events| - 1]), Single(events[|events| - 1]))
  }

  /** The column aggregates of the select list are one fold over the events. */
  lemma {:induction false} SummaryIsTotal(events: seq<Event>)
    ensures Summary(events) == Total(events)
  {
    if events != [] {
      var init, last := events[..|events| - 1], events[|events| - 1];
      SummaryIsTotal(init);
      assert events == init + [last];
      SumAppend(init, last, CONNECTIONS_OF);
      SumAppend(init, last, LATENCY_OF);
      MinAppend(init, last, LATENCY_OF);
      MaxAppend(init, last, LATENCY_OF);
      CountAppend(init, last, LATENCY_OF);
      SumRealAppend(init, last, THROUGHPUT_OF);
      CountAppend(init, last, THROUGHPUT_OF);
    }
  }

  lemma TotalAppend(events: seq<Event>, e: Event)
    ensures Total(events + [e]) == Combine(Total(events), Single(e))
  {
    LastOf(events, e);
  }

  lemma CombineSwap(a: Stats, b: Stats, c: Stats)
    ensures Combine(Combine(a, b), c) == Combine(Combine(a, c), b) == Combine(a, Combine(b, c))
  {
  }

  lemma {:induction false} TotalSplit(events: seq<Event>, keep: Event -> bool, drop: Event -> bool)
    requires forall e | e in events :: keep(e) != drop(e)
    ensures Total(events) == Combine(Total(Where(events, keep)), Total(Where(events, drop)))
  {
    if events != [] {
      var init, last := events[..|events| - 1], events[|events| - 1];
      var kept, rest := Where(init, keep), Where(init, drop);
      TotalSplit(init, keep, drop);
      assert last in events;
      CombineSwap(Total(kept), Total(rest), Single(last));
      if keep(last) {
        TotalAppend(kept, last);
      } else {
        TotalAppend(rest, last);
      }
    }
  }

  function Fold(rows: seq<RollupRow>): Stats {
    if rows == [] then Total([]) else Combine(Fold(rows[..|rows| - 1]), rows[|rows| - 1].stats)
  }

  /** A NULL sum over no rows, a plain count otherwise. */
  function CountSum(rows: seq<RollupRow>, n: nat): Option<int> {
    if rows == [] then None else Some(n)
  }

  lemma {:induction false} FoldCounts(rows: seq<RollupRow>)
    ensures Sum(Column(rows, COUNT_COLUMN)) == CountSum(rows, Fold(rows).events)
    ensures Sum(Column(rows, LATENCY_COUNT_COLUMN)) == CountSum(rows, Fold(rows).latencyCount)
    ensures Sum(Column(rows, THROUGHPUT_COUNT_COLUMN)) == CountSum(rows, Fold(rows).throughputCount)
  {
    if rows != [] {
      var init, last := rows[..|rows| - 1], rows[|rows| - 1];
      FoldCounts(init);
      assert rows == init + [last];
      SumAppend(init, last, COUNT_COLUMN);
      SumAppend(init, last, LATENCY_COUNT_COLUMN);
      SumAppend(init, last, THROUGHPUT_COUNT_COLUMN);
    }
  }

  lemma {:induction false} FoldSums(rows: seq<RollupRow>)
    ensures Sum(Column(rows, CONNECTIONS_COLUMN)) == Fold(rows).connections
    ensures Sum(Column(rows, LATENCY_SUM_COLUMN)) == Fold(rows).latencySum
    ensures SumReal(Column(rows, THROUGHPUT_SUM_COLUMN)) == Fold(rows).throughputSum
  {
    if rows != [] {
      var init, last := rows[..|rows| - 1], rows[|rows| - 1];
      FoldSums(init);
      assert rows == init + [last];
      SumAppend(init, last, CONNECTIONS_COLUMN);
      SumAppend(init, last, LATENCY_SUM_COLUMN);
      SumRealAppend(init, last, THROUGHPUT_SUM_COLUMN);
    }
  }

  lemma {:induction false} FoldExtremes(rows: seq<RollupRow>)
    ensures Min(Column(rows, MIN_COLUMN)) == Fold(rows).minLatency
    ensures Max(Column(rows, MAX_COLUMN)) == Fold(rows).maxLatency
  {
    if rows != [] {
      var init, last := rows[..|rows| - 1], rows[|rows| - 1];
      FoldExtremes(init);
      assert rows == init + [last];
      MinAppend(init, last, MIN_COLUMN);
      MaxAppend(init, last, MAX_COLUMN);
    }
  }

  function EventsOnKey(keep: Key -> bool): Event -> bool { (e: Event) => keep(KeyOf(e)) }

  function Without(key: Key): Event -> bool { (e: Event) => KeyOf(e) != key }

  lemma OtherKeyStays(events: seq<Event>, dropped: Key, key: Key)
    ensures key != dropped ==> Where(Where(events, Without(dropped)), Having(key)) == Where(events, Having(key))
    ensures Occurs(Where(events, Without(dropped)), key) <==> key != dropped && Occurs(events, key)
  {
    if key != dropped { WhereBoth(events, Without(dropped), Having(key), Having(key)); }
    forall e ensures e in Where(events, Without(dropped)) <==> e in events && KeyOf(e) != dropped {
      WhereMember(events, Without(dropped), e);
    }
  }

  /** Dropping the last rollup row leaves a rollup of the events of the other keys. */
  lemma DropRow(view: seq<RollupRow>, events: seq<Event>, init: seq<RollupRow>, last: RollupRow, others: seq<Event>)
    requires Materializes(view, events) && view == init + [last] && others == Where(events, Without(last.key))
    ensures Materializes(init, others)
  {
    assert last == view[|init|];
    forall i | 0 <= i < |init| ensures init[i] in view && init[i].key != last.key {
      assert init[i] == view[i];
    }
    forall i, j | 0 <= i < j < |init| ensures init[i].key != init[j].key {
      assert init[i] == view[i] && init[j] == view[j];
    }
    forall row | row in init ensures row.stats == Summary(Where(others, Having(row.key))) {
      OtherKeyStays(events, last.key, row.key);
    }
    forall key ensures Lists(init, key) <==> Occurs(others, key) {
      OtherKeyStays(events, last.key, key);
      assert Lists(view, key) <==> Occurs(events, key);
      if Lists(view, key) && key != last.key {
        var row :| row in view && row.key == key;
        assert row in init;
      }
    }
  }

  /** Summing the rollup over any set of keys summarizes exactly the events of those keys. */
  lemma {:induction false} FoldIsTotal(view: seq<RollupRow>, events: seq<Event>, keep: Key -> bool)
    requires Materializes(view, events)
    ensures Fold(Where(view, OnKey(keep))) == Total(Where(events, EventsOnKey(keep)))
    decreases |view|
  {
    if view == [] {
      forall e | e in events ensures Lists(view, KeyOf(e)) {
        assert Occurs(events, KeyOf(e));
      }
      WhereNone(events, EventsOnKey(keep));
    } else {
      var init, last := view[..|view| - 1], view[|view| - 1];
      assert view == init + [last];
      DropRow(view, events, init, last, Where(events, Without(last.key)));
      FoldIsTotal(init, Where(events, Without(last.key)), keep);
      PeelKey(events, last.key, keep);
      PeelRow(init, last, keep);
      RowTotal(view, events, last);
    }
  }

  lemma RowTotal(view: seq<RollupRow>, events: seq<Event>, row: RollupRow)
    requires Materializes(view, events) && row in view
    ensures row.stats == Total(Where(events, Having(row.key)))
  {
    SummaryIsTotal(Where(events, Having(row.key)));
  }

  lemma PeelRow(init: seq<RollupRow>, last: RollupRow, keep: Key -> bool)
    ensures Fold(Where(init + [last], OnKey(keep)))
         == if keep(last.key) then Combine(Fold(Where(init, OnKey(keep))), last.stats) else Fold(Where(init, OnKey(keep)))
  {
    WhereAppend(init, last, OnKey(keep));
    LastOf(Where(init, OnKey(keep)), last);
  }

  /** The selected events are those of one key and those of the other keys. */
  lemma PeelKey(events: seq<Event>, key: Key, keep: Key -> bool)
    ensures var others := Total(Where(Where(events, Without(key)), EventsOnKey(keep)));
      Total(Where(events, EventsOnKey(keep)))
        == if keep(key) then Combine(others, Total(Where(events, Having(key)))) else others
  {
    var selected := EventsOnKey(keep);
    var kept := Where(events, selected);
    var both := AndEvent(selected, Without(key));
    WhereBoth(events, selected, Without(key), both);
    WhereBoth(events, Without(key), selected, both);
    if keep(key) {
      TotalSplit(kept, Without(key), Having(key));
      WhereBoth(events, selected, Having(key), Having(key));
    } else {
      WhereAgree(events, selected, both);
    }
  }

  function AndEvent(p: Event -> bool, q: Event -> bool): Event -> bool { (e: Event) => p(e) && q(e) }

  // ---------- equivalence of the answers ----------

  /** What the select lists make of the statistics of the selected events. */
  lemma RawFromTotal(events: seq<Event>)
    ensures var s := Total(events);
      RawMetrics(events) == Metrics(s.events, Coalesce(s.connections, 0), s.minLatency,
        Ratio(AsReal(s.latencySum), Some(s.latencyCount)), s.maxLatency, Ratio(s.throughputSum, Some(s.throughputCount)))
  {
    SummaryIsTotal(events);
    SumPresent(Column(events, LATENCY_OF));
    SumRealPresent(Column(events, THROUGHPUT_OF));
  }

  lemma SameAggregates(rows: seq<RollupRow>, events: seq<Event>, bucket: int)
    requires Fold(rows) == Total(events)
    ensures RollupMetrics(rows) == RawMetrics(events)
    ensures rows != [] ==> RollupBucket(bucket, rows) == RawBucket(bucket, events)
  {
    FoldCounts(rows);
    FoldSums(rows);
    FoldExtremes(rows);
    RawFromTotal(events);
  }

  /** Every event of a minute passes the window test exactly when the minute's start does. */
  ghost predicate MinuteExact(q: Query) {
    forall e: Event :: RawFilter(q)(e) == EventsOnKey(RollupFilter(q))(e)
  }

  /** The metrics row from the rollup is the raw metrics row. */
  lemma MetricsEqual(view: seq<RollupRow>, events: seq<Event>, q: Query)
    requires Materializes(view, events) && MinuteExact(q)
    ensures RollupMetricsAnswer(view, q) == RawMetricsAnswer(events, q)
  {
    FoldIsTotal(view, events, RollupFilter(q));
    WhereAgree(events, RawFilter(q), EventsOnKey(RollupFilter(q)));
    SameAggregates(Where(view, OnKey(RollupFilter(q))), Where(events, RawFilter(q)), 0);
  }

  function AtBucket(keep: Key -> bool, bucket: int): Key -> bool { (k: Key) => keep(k) && k.bucket == bucket }

  lemma BucketEqual(view: seq<RollupRow>, events: seq<Event>, q: Query, bucket: int, rows: seq<RollupRow>, scoped: seq<Event>)
    requires Materializes(view, events) && MinuteExact(q)
    requires rows == Where(Where(view, OnKey(RollupFilter(q))), RowInBucket(bucket))
    requires scoped == Where(Where(events, RawFilter(q)), InBucket(bucket))
    ensures rows != [] ==> RollupBucket(bucket, rows) == RawBucket(bucket, scoped)
  {
    var keep := RollupFilter(q);
    WhereBoth(view, OnKey(keep), RowInBucket(bucket), OnKey(AtBucket(keep, bucket)));
    forall e | e in events
      ensures EventsOnKey(AtBucket(keep, bucket))(e) <==> RawFilter(q)(e) && InBucket(bucket)(e)
    {
      assert RawFilter(q)(e) == EventsOnKey(keep)(e);
      assert EventsOnKey(AtBucket(keep, bucket))(e) == AtBucket(keep, bucket)(KeyOf(e));
    }
    WhereBoth(events, RawFilter(q), InBucket(bucket), EventsOnKey(AtBucket(keep, bucket)));
    FoldIsTotal(view, events, AtBucket(keep, bucket));
    SameAggregates(rows, scoped, bucket);
  }

  lemma KeySelected(view: seq<RollupRow>, events: seq<Event>, q: Query, r: RollupRow, e: Event)
    requires MinuteExact(q) && r in view && e in events && KeyOf(e) == r.key
    ensures r in Where(view, OnKey(RollupFilter(q))) <==> e in Where(events, RawFilter(q))
  {
    WhereMember(view, OnKey(RollupFilter(q)), r);
    WhereMember(events, RawFilter(q), e);
    assert RawFilter(q)(e) == EventsOnKey(RollupFilter(q))(e);
  }

  /** A selected rollup row and a selected event of its key yield the same bucket row. */
  lemma BucketOfKey(view: seq<RollupRow>, events: seq<Event>, q: Query, r: RollupRow,
                    scopedRows: seq<RollupRow>, scopedEvents: seq<Event>)
    requires Materializes(view, events) && MinuteExact(q)
    requires scopedRows == Where(view, OnKey(RollupFilter(q))) && scopedEvents == Where(events, RawFilter(q))
    requires r in scopedRows
    ensures RollupBucket(r.key.bucket, Where(scopedRows, RowInBucket(r.key.bucket)))
         == RawBucket(r.key.bucket, Where(scopedEvents, InBucket(r.key.bucket)))
  {
    WhereMember(scopedRows, RowInBucket(r.key.bucket), r);
    BucketEqual(view, events, q, r.key.bucket, Where(scopedRows, RowInBucket(r.key.bucket)),
                Where(scopedEvents, InBucket(r.key.bucket)));
  }

  /** The minute buckets from the rollup are the raw minute buckets. */
  lemma BucketsEqual(view: seq<RollupRow>, events: seq<Event>, q: Query)
    requires Materializes(view, events) && MinuteExact(q)
    ensures RollupBuckets(view, q) == RawBuckets(events, q)
  {
    var scopedEvents, scopedRows := Where(events, RawFilter(q)), Where(view, OnKey(RollupFilter(q)));
    forall b | b in RollupBuckets(view, q) ensures b in RawBuckets(events, q) {
      var r :| r in scopedRows && b == RollupBucket(r.key.bucket, Where(scopedRows, RowInBucket(r.key.bucket)));
      WhereMember(view, OnKey(RollupFilter(q)), r);
      assert Lists(view, r.key);
      var e :| e in events && KeyOf(e) == r.key;
      KeySelected(view, events, q, r, e);
      BucketOfKey(view, events, q, r, scopedRows, scopedEvents);
    }
    forall b | b in RawBuckets(events, q) ensures b in RollupBuckets(view, q) {
      var e :| e in scopedEvents && b == RawBucket(Minute(e.occurredAt), Where(scopedEvents, InBucket(Minute(e.occurredAt))));
      WhereMember(events, RawFilter(q), e);
      assert Occurs(events, KeyOf(e));
      var r :| r in view && r.key == KeyOf(e);
      KeySelected(view, events, q, r, e);
      BucketOfKey(view, events, q, r, scopedRows, scopedEvents);
    }
  }

  // ---------- eligible windows ----------

  datatype Rejection = ReversedWindow | PartialWindow

  /** RollupWindow.__post_init__ */
  function MakeWindow(start: int, end: int): Result<Window, Rejection> {
    if start > end then Err(ReversedWindow) else Ok(Window(start, end))
  }

  function SecondOf(t: int): int { t / 1_000_000 % 60 }

  function MicrosecondOf(t: int): int { t % 1_000_000 }

  predicate Eligible(w: Window) {
    SecondOf(w.start) == 0 && MicrosecondOf(w.start) == 0 && SecondOf(w.end) == 59 && MicrosecondOf(w.end) == 999_999
  }

  /** RollupQueries.pair answers with a query only for an absent or eligible window. */
  function Pair(q: Query): Result<Query, Rejection> {
    if q.window.Some? && !Eligible(q.window.value) then Err(PartialWindow) else Ok(q)
  }

  lemma MinuteStart(t: int)
    ensures Minute(t) <= t < Minute(t) + MINUTE
    ensures Minute(t) == t <==> SecondOf(t) == 0 && MicrosecondOf(t) == 0
  {
    var s := t / 1_000_000;
    assert t / MINUTE == s / 60;
    assert t - Minute(t) == SecondOf(t) * 1_000_000 + MicrosecondOf(t);
  }

  lemma NextSecond(t: int)
    ensures SecondOf(t) == 59 && MicrosecondOf(t) == 999_999 <==> SecondOf(t + 1) == 0 && MicrosecondOf(t + 1) == 0
  {
    var s, u := t / 1_000_000, (t + 1) / 1_000_000;
    if MicrosecondOf(t) == 999_999 {
      assert u == s + 1;
    } else {
      assert u == s;
    }
  }

  lemma MinuteMonotone(a: int, b: int)
    requires a <= b
    ensures Minute(a) <= Minute(b)
  {
    assert a / MINUTE <= b / MINUTE;
  }

  /** An eligible window covers whole minutes: it starts one and ends just before another. */
  lemma EligibleAligned(w: Window)
    ensures Eligible(w) <==> Minute(w.start) == w.start && Minute(w.end + 1) == w.end + 1
  {
    MinuteStart(w.start);
    MinuteStart(w.end + 1);
    NextSecond(w.end);
  }

  lemma EligibleInstant(w: Window, t: int)
    requires Eligible(w)
    ensures w.start <= t <= w.end <==> w.start <= Minute(t) <= w.end
  {
    EligibleAligned(w);
    MinuteStart(t);
    if w.start <= t { MinuteMonotone(w.start, t); }
    if w.end < t { MinuteMonotone(w.end + 1, t); }
  }

  lemma EligibleIsMinuteExact(q: Query)
    requires q.window.Some? ==> Eligible(q.window.value)
    ensures MinuteExact(q)
  {
    forall e: Event ensures RawFilter(q)(e) == EventsOnKey(RollupFilter(q))(e) {
      assert EventsOnKey(RollupFilter(q))(e) == RollupFilter(q)(KeyOf(e)) == Admits(q, e.group, Minute(e.occurredAt));
      if q.window.Some? { EligibleInstant(q.window.value, e.occurredAt); }
    }
  }

  /** Every query that `pair` accepts gets the raw answers from any rollup of the events. */
  lemma PairSound(view: seq<RollupRow>, events: seq<Event>, q: Query)
    requires Materializes(view, events) && Pair(q).Ok?
    ensures RollupMetricsAnswer(view, q) == RawMetricsAnswer(events, q)
    ensures forall r :: RollupBucketsAnswer(view, q, r) <==> RawBucketsAnswer(events, q, r)
  {
    EligibleIsMinuteExact(q);
    MetricsEqual(view, events, q);
    BucketsEqual(view, events, q);
  }

  /** The window never makes a rollup answer differ from the raw one. */
  ghost predicate WindowExact(w: Window) {
    forall view, events, q: Query | Materializes(view, events) && q.window == Some(w) ::
      RollupMetricsAnswer(view, q) == RawMetricsAnswer(events, q)
  }

  /** `eligible` is exact: a window is refused precisely when some event table separates the
      rollup answer from the raw answer. */
  lemma EligibleExact(start: int, end: int)
    requires MakeWindow(start, end).Ok?
    ensures Eligible(Window(start, end)) <==> WindowExact(Window(start, end))
  {
    var w := Window(start, end);
    if Eligible(w) {
      forall view, events, q: Query | Materializes(view, events) && q.window == Some(w)
        ensures RollupMetricsAnswer(view, q) == RawMetricsAnswer(events, q)
      {
        PairSound(view, events, q);
      }
    } else {
      var t := SeparatingInstant(w);
      SeparatingEvent(w, t);
    }
  }

  /** A bound inside a minute splits that minute's events from its bucket. */
  lemma SeparatingInstant(w: Window) returns (t: int)
    requires w.start <= w.end && !Eligible(w)
    ensures (w.start <= t <= w.end) != (w.start <= Minute(t) <= w.end)
  {
    EligibleAligned(w);
    MinuteStart(w.start);
    MinuteStart(w.end + 1);
    MinuteMonotone(w.start, w.end + 1);
    t := if Minute(w.start) != w.start then w.start else w.end + 1;
  }

  /** A table of one event, and its rollup. */
  lemma OneEvent(e: Event) returns (row: RollupRow)
    ensures row.key == KeyOf(e) && row.stats.events == 1 && Materializes([row], [e])
  {
    row := RollupRow(KeyOf(e), Summary([e]));
    assert [e][..0] == [];
    assert Where([e], Having(row.key)) == [e];
    assert e in [e] && row in [row];
  }

  /** An instant the two filters disagree on gives a one-event table with different answers. */
  lemma SeparatingEvent(w: Window, t: int)
    requires (w.start <= t <= w.end) != (w.start <= Minute(t) <= w.end)
    ensures !WindowExact(w)
  {
    var e := Event("e", t, "g", None, None, None);
    var q := Query(Parameters(Some("g"), None, None, None, None), [], "", Some(w));
    var row := OneEvent(e);
    var events, rows := Where([e], RawFilter(q)), Where([row], OnKey(RollupFilter(q)));
    assert [e] == [] + [e] && [row] == [] + [row];
    WhereAppend([], e, RawFilter(q));
    WhereAppend([], row, OnKey(RollupFilter(q)));
    FoldCounts(rows);
    assert |events| == if RawFilter(q)(e) then 1 else 0;
    assert RollupMetrics(rows).totalEvents == if RollupFilter(q)(KeyOf(e)) then 1 else 0;
    assert RollupMetricsAnswer([row], q) != RawMetricsAnswer([e], q);
  }
}
