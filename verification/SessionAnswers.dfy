/** What the stream-session list shows, in terms of the events themselves: which sessions, in which
    order, and from which event each row takes its fields. */
module SessionAnswers {
  import opened Wrappers
  import opened Aggregates
  import opened Ordering
  import opened SessionQueries
  import Text

  /** `e` is the session's last event: none is at a later instant, and of those at its instant it
      has the greatest id. */
  ghost predicate IsLast(events: seq<Event>, k: Session, e: Event) {
    && e in events && Session(e.stream, e.connection) == k
    && (forall f | f in events && Session(f.stream, f.connection) == k ::
          f.occurredAt < e.occurredAt || (f.occurredAt == e.occurredAt && (f.id == e.id || Text.Less(f.id, e.id))))
  }

  /** The sessions that have events; NULL keys count as equal. */
  function Sessions(events: seq<Event>): set<Session> {
    set e | e in events :: Session(e.stream, e.connection)
  }

  /** Exactly the events of a session, as often as they occur. */
  ghost predicate OfSession(some: seq<Event>, events: seq<Event>, k: Session) {
    && |some| == |set i | 0 <= i < |events| && Session(events[i].stream, events[i].connection) == k|
    && (forall e :: multiset(some)[e] == if Session(e.stream, e.connection) == k then multiset(events)[e] else 0)
  }

  function Latencies(events: seq<Event>): nat { |set i | 0 <= i < |events| && events[i].latency.Some?| }

  function Throughputs(events: seq<Event>): nat { |set i | 0 <= i < |events| && events[i].throughput.Some?| }

  /** A row of the list: the instant and paths of the session's last event, the number of its
      events and the means of their values. */
  ghost predicate Shows(row: SessionRow, last: Event, own: seq<Event>) {
    && row.lastOccurredAt == Some(last.occurredAt) && row.icePath == last.icePath && row.relayReason == last.relayReason
    && row.eventCount == |own|
    && IsMean(row.avgLatency, AsReal(Sum(Column(own, LATENCY_OF))), Latencies(own))
    && IsMean(row.avgThroughput, SumReal(Column(own, THROUGHPUT_OF)), Throughputs(own))
  }

  /** The row shows the last event of its session and the means over exactly its events. */
  ghost predicate ShowsSession(events: seq<Event>, row: SessionRow) {
    exists last, own :: IsLast(events, row.session, last) && OfSession(own, events, row.session) && Shows(row, last, own)
  }

  lemma NewestIsLast(events: seq<Event>, e: Event)
    requires UniqueIds(events) && IsNewest(events, e)
    ensures IsLast(events, SessionOf(e), e)
  {
    forall f | f in events && Session(f.stream, f.connection) == SessionOf(e)
      ensures f.occurredAt < e.occurredAt || (f.occurredAt == e.occurredAt && (f.id == e.id || Text.Less(f.id, e.id)))
    {
      assert !NEWEST(f, e);
      if f != e {
        SameIdSameEvent(events, f, e);
        NewestTotal(f, e);
      }
    }
  }

  lemma SessionMeans(own: seq<Event>)
    ensures IsMean(Avg(Column(own, LATENCY_OF)), AsReal(Sum(Column(own, LATENCY_OF))), Latencies(own))
    ensures IsMean(AvgReal(Column(own, THROUGHPUT_OF)), SumReal(Column(own, THROUGHPUT_OF)), Throughputs(own))
  {
    AverageIs(Column(own, LATENCY_OF));
    AverageRealIs(Column(own, THROUGHPUT_OF));
    assert Present(Column(own, LATENCY_OF)) == set i | 0 <= i < |own| && own[i].latency.Some?;
    assert Present(Column(own, THROUGHPUT_OF)) == set i | 0 <= i < |own| && own[i].throughput.Some?;
  }

  lemma PartitionSelects(events: seq<Event>, k: Session)
    ensures OfSession(Partition(events, k), events, k)
  {
    WhereSize(events, InSession(k));
    assert Positions(events, InSession(k)) == set i | 0 <= i < |events| && Session(events[i].stream, events[i].connection) == k;
    forall e ensures multiset(Partition(events, k))[e] == if Session(e.stream, e.connection) == k then multiset(events)[e] else 0 {
      WhereKeeps(events, InSession(k), e);
    }
  }

  /** Every session that has events has one row, and it shows its last event. */
  lemma RowShows(events: seq<Event>, row: SessionRow) returns (last: Event, own: seq<Event>)
    requires UniqueIds(events) && row in RankedRows(events)
    ensures row.session in Sessions(events) && IsLast(events, row.session, last)
    ensures OfSession(own, events, row.session) && Shows(row, last, own)
  {
    var e :| e in events && row == RankedRow(events, SessionOf(e));
    last := NewestExists(events, e);
    NewestIsLast(events, last);
    RankedIsWindow(events, last);
    own := Partition(events, row.session);
    PartitionSelects(events, row.session);
    SessionMeans(own);
  }

  lemma RowOfSession(events: seq<Event>, k: Session) returns (row: SessionRow)
    requires k in Sessions(events)
    ensures row in RankedRows(events) && row.session == k
  {
    var e :| e in events && Session(e.stream, e.connection) == k;
    row := RankedRow(events, SessionOf(e));
  }

  lemma OneRowPerSession(events: seq<Event>, a: SessionRow, b: SessionRow)
    requires a in RankedRows(events) && b in RankedRows(events) && a.session == b.session
    ensures a == b
  {
  }

  lemma RowCount(events: seq<Event>)
    ensures |RankedRows(events)| == |Sessions(events)|
  {
    var rows, sessions := RankedRows(events), Sessions(events);
    var f: SessionRow -> Session := (r: SessionRow) => r.session;
    forall r | r in rows ensures f(r) in sessions {
      var e :| e in events && r == RankedRow(events, SessionOf(e));
    }
    forall a, b | a in rows && b in rows && f(a) == f(b) ensures a == b { OneRowPerSession(events, a, b); }
    forall k | k in sessions ensures exists r :: r in rows && f(r) == k {
      var row := RowOfSession(events, k);
      assert f(row) == k;
    }
    SameSize(rows, sessions, f);
  }

  /** An answer of any of the three formulations. */
  ghost predicate SomeAnswer(events: seq<Event>, a: seq<SessionRow>) {
    RankedAnswer(events, a) || WindowAnswer(events, a) || CurrentAnswer(events, a)
  }

  lemma AnswerRows(events: seq<Event>, a: seq<SessionRow>)
    requires UniqueIds(events) && SomeAnswer(events, a)
    ensures RankedAnswer(events, a)
    ensures forall i | 0 <= i < |a| :: a[i] in RankedRows(events) && a[i].lastOccurredAt.Some?
    ensures |a| == if |Sessions(events)| > 500 then 500 else |Sessions(events)|
  {
    QueriesAgree(events, a);
    var rows := RankedRows(events);
    AnswerShape(multiset(rows), BY_LAST, Some(SESSION_LIMIT), a);
    RowCount(events);
    assert |multiset(rows)| == |rows|;
    forall i | 0 <= i < |a| ensures a[i] in rows && a[i].lastOccurredAt.Some? {
      assert a[i] in multiset(a);
      var last, own := RowShows(events, a[i]);
    }
  }

  lemma AnswerDescends(events: seq<Event>, a: seq<SessionRow>, i: nat, j: nat)
    requires UniqueIds(events) && SomeAnswer(events, a) && i < j < |a|
    ensures a[i].lastOccurredAt.Some? && a[j].lastOccurredAt.Some?
    ensures a[i].lastOccurredAt.value >= a[j].lastOccurredAt.value && a[i].session != a[j].session
  {
    AnswerRows(events, a);
    AnswerShape(multiset(RankedRows(events)), BY_LAST, Some(SESSION_LIMIT), a);
    assert !BY_LAST(a[j], a[i]);
    if a[i].session == a[j].session {
      OneRowPerSession(events, a[i], a[j]);
      TwiceInMultiset(a, i, j);
    }
  }

  /** A session is left out only when 500 others are listed, none of which it is newer than. */
  lemma LeftOutIsOlder(events: seq<Event>, a: seq<SessionRow>, k: Session, last: Event)
    requires UniqueIds(events) && SomeAnswer(events, a) && IsLast(events, k, last)
    requires forall i | 0 <= i < |a| :: a[i].session != k
    ensures |a| == 500
    ensures forall i | 0 <= i < |a| :: a[i].lastOccurredAt.Some? && last.occurredAt <= a[i].lastOccurredAt.value
  {
    var rows := RankedRows(events);
    AnswerRows(events, a);
    AnswerShape(multiset(rows), BY_LAST, Some(SESSION_LIMIT), a);
    RowCount(events);
    var row := RowOfSession(events, k);
    var top, own := RowShows(events, row);
    LeftOut(rows, a, row);
    LeftOutIsCut(rows, a, row);
    forall i | 0 <= i < |a| ensures last.occurredAt <= a[i].lastOccurredAt.value {
      assert !BY_LAST(row, a[i]);
    }
  }

  /** Every answer lists distinct sessions, newest first, 500 of them or all; each row shows the last
      event of its session, and no session left out is newer than any listed. */
  lemma SessionsAre(events: seq<Event>, a: seq<SessionRow>)
    requires UniqueIds(events) && SomeAnswer(events, a)
    ensures |a| == if |Sessions(events)| > 500 then 500 else |Sessions(events)|
    ensures forall i | 0 <= i < |a| :: a[i].lastOccurredAt.Some?
    ensures forall i, j | 0 <= i < j < |a| ::
      a[i].lastOccurredAt.value >= a[j].lastOccurredAt.value && a[i].session != a[j].session
    ensures forall i | 0 <= i < |a| :: ShowsSession(events, a[i])
    ensures forall k, last, j | IsLast(events, k, last) && 0 <= j < |a| && (forall i | 0 <= i < |a| :: a[i].session != k) ::
      |a| == 500 && last.occurredAt <= a[j].lastOccurredAt.value
  {
    AnswerRows(events, a);
    forall i, j | 0 <= i < j < |a|
      ensures a[i].lastOccurredAt.value >= a[j].lastOccurredAt.value && a[i].session != a[j].session
    {
      AnswerDescends(events, a, i, j);
    }
    forall i | 0 <= i < |a| ensures ShowsSession(events, a[i]) {
      var last, own := RowShows(events, a[i]);
    }
    forall k, last, j | IsLast(events, k, last) && 0 <= j < |a| && (forall i | 0 <= i < |a| :: a[i].session != k)
      ensures |a| == 500 && last.occurredAt <= a[j].lastOccurredAt.value
    {
      LeftOutIsOlder(events, a, k, last);
    }
  }
}
