/** The append/refresh life of the materialized rollup: a database whose view is rebuilt only by
    REFRESH, whose event ids are a primary key, and whose group closure may change at any time. */
module RollupFixture {
  import opened Wrappers
  import opened Aggregates
  import opened Scope
  import opened EventRollup
  import opened RollupAnswers

  datatype Operation = Append(event: Event) | SetClosure(closure: seq<Edge>) | Refresh

  /** `seen` is what the events were when the view was last built. */
  datatype Database = Database(events: seq<Event>, closure: seq<Edge>, view: seq<RollupRow>, seen: seq<Event>)

  predicate HasId(events: seq<Event>, id: string) { exists i | 0 <= i < |events| :: events[i].id == id }

  // ---------- building the view ----------

  /** Adds one event's row, recomputing the row of its key. */
  function Absorb(view: seq<RollupRow>, row: RollupRow): seq<RollupRow> {
    if view == [] then [row]
    else
      var init, last := view[..|view| - 1], view[|view| - 1];
      if last.key == row.key then init + [row] else Absorb(init, row) + [last]
  }

  /** The materializing query over the events. */
  function BuildView(events: seq<Event>): seq<RollupRow> {
    if events == [] then []
    else
      var init, key := events[..|events| - 1], KeyOf(events[|events| - 1]);
      Absorb(BuildView(init), RollupRow(key, Summary(Where(events, Having(key)))))
  }

  lemma {:induction false} AbsorbRows(view: seq<RollupRow>, row: RollupRow)
    requires forall i, j | 0 <= i < j < |view| :: view[i].key != view[j].key
    ensures var v := Absorb(view, row);
      (forall i, j | 0 <= i < j < |v| :: v[i].key != v[j].key)
      && (forall r :: r in v <==> r == row || (r in view && r.key != row.key))
  {
    if view != [] {
      var init, last := view[..|view| - 1], view[|view| - 1];
      AbsorbRows(init, row);
      assert view == init + [last];
      forall r | r in init ensures r.key != last.key {
        var i :| 0 <= i < |init| && init[i] == r;
        assert view[i] == r;
      }
      var v := Absorb(init, row);
      assert forall i | 0 <= i < |v| :: v[i] in v;
    }
  }

  lemma OtherGroups(events: seq<Event>, e: Event, key: Key)
    ensures KeyOf(e) != key ==> Where(events + [e], Having(key)) == Where(events, Having(key))
    ensures Occurs(events + [e], key) <==> Occurs(events, key) || KeyOf(e) == key
  {
    WhereAppend(events, e, Having(key));
    assert e in events + [e];
    forall x ensures x in events + [e] <==> x in events || x == e { }
  }

  /** Refreshing from any event table yields a correct rollup of it. */
  lemma {:induction false} BuildViewMaterializes(events: seq<Event>)
    ensures Materializes(BuildView(events), events)
  {
    if events != [] {
      var init, e := events[..|events| - 1], events[|events| - 1];
      var row := RollupRow(KeyOf(e), Summary(Where(events, Having(KeyOf(e)))));
      BuildViewMaterializes(init);
      assert events == init + [e];
      AbsorbRows(BuildView(init), row);
      var view := BuildView(events);
      forall r | r in view ensures r.stats == Summary(Where(events, Having(r.key))) {
        OtherGroups(init, e, r.key);
      }
      forall key ensures Lists(view, key) <==> Occurs(events, key) {
        OtherGroups(init, e, key);
        assert Lists(BuildView(init), key) <==> Occurs(init, key);
        assert row in view;
        if Lists(BuildView(init), key) && key != row.key {
          var r :| r in BuildView(init) && r.key == key;
          assert r in view;
        }
      }
    }
  }

  // ---------- runs ----------

  function Step(db: Database, op: Operation): Database {
    match op
    case Append(e) => if HasId(db.events, e.id) then db else db.(events := db.events + [e])
    case SetClosure(closure) => db.(closure := closure)
    case Refresh => db.(view := BuildView(db.events), seen := db.events)
  }

  function Run(db: Database, ops: seq<Operation>): Database {
    if ops == [] then db else Step(Run(db, ops[..|ops| - 1]), ops[|ops| - 1])
  }

  /** Ids are unique, and the view is the rollup of an earlier state of the append-only table. */
  ghost predicate Consistent(db: Database) {
    && (forall i, j | 0 <= i < j < |db.events| :: db.events[i].id != db.events[j].id)
    && Materializes(db.view, db.seen)
    && db.seen <= db.events
  }

  lemma StepConsistent(db: Database, op: Operation)
    requires Consistent(db)
    ensures Consistent(Step(db, op))
    ensures db.events <= Step(db, op).events
  {
    if op.Refresh? { BuildViewMaterializes(db.events); }
  }

  /** Every run keeps the invariant and only ever appends to the table. */
  lemma {:induction false} RunConsistent(db: Database, ops: seq<Operation>)
    requires Consistent(db)
    ensures Consistent(Run(db, ops)) && db.events <= Run(db, ops).events
  {
    if ops != [] {
      RunConsistent(db, ops[..|ops| - 1]);
      StepConsistent(Run(db, ops[..|ops| - 1]), ops[|ops| - 1]);
    }
  }

  /** The last refresh of a run is its operation number j. */
  ghost predicate LastRefreshAt(ops: seq<Operation>, j: nat) {
    j < |ops| && ops[j].Refresh? && forall i | j < i < |ops| :: !ops[i].Refresh?
  }

  lemma {:induction false} RefreshLasts(db: Database, ops: seq<Operation>, j: nat)
    requires LastRefreshAt(ops, j)
    ensures Run(db, ops).view == BuildView(Run(db, ops[..j]).events)
    ensures Run(db, ops).seen == Run(db, ops[..j]).events
  {
    var n := |ops| - 1;
    if j < n {
      assert ops[..n][..j] == ops[..j];
      RefreshLasts(db, ops[..n], j);
      assert !ops[n].Refresh?;
    }
  }

  /** After any run the view is the materialization of the events at the last refresh. */
  lemma ViewIsLastRefresh(db: Database, ops: seq<Operation>, j: nat)
    requires LastRefreshAt(ops, j)
    ensures Run(db, ops).seen == Run(db, ops[..j]).events
    ensures Run(db, ops).view == BuildView(Run(db, ops[..j]).events)
    ensures Materializes(Run(db, ops).view, Run(db, ops[..j]).events)
  {
    RefreshLasts(db, ops, j);
    BuildViewMaterializes(Run(db, ops[..j]).events);
  }

  /** Without a refresh the view stays what it was. */
  lemma {:induction false} ViewWithoutRefresh(db: Database, ops: seq<Operation>)
    requires forall op | op in ops :: !op.Refresh?
    ensures Run(db, ops).view == db.view && Run(db, ops).seen == db.seen
  {
    if ops != [] {
      ViewWithoutRefresh(db, ops[..|ops| - 1]);
      assert ops[|ops| - 1] in ops;
    }
  }

  /** All accepted rollup queries under the current closure agree with the raw queries. */
  ghost predicate Fresh(db: Database) {
    forall q: Query | Pair(q).Ok? && q.closure == db.closure ::
      && RollupMetricsAnswer(db.view, q) == RawMetricsAnswer(db.events, q)
      && (forall r :: RollupBucketsAnswer(db.view, q, r) <==> RawBucketsAnswer(db.events, q, r))
  }

  lemma {:induction false} WhereAll<R>(rows: seq<R>, keep: R -> bool)
    requires forall r | r in rows :: keep(r)
    ensures Where(rows, keep) == rows
  {
    if rows != [] {
      WhereAll(rows[..|rows| - 1], keep);
      assert rows[|rows| - 1] in rows;
    }
  }

  lemma RefreshedIsFresh(db: Database)
    requires Materializes(db.view, db.events)
    ensures Fresh(db)
  {
    forall q: Query | Pair(q).Ok? && q.closure == db.closure
      ensures RollupMetricsAnswer(db.view, q) == RawMetricsAnswer(db.events, q)
      ensures forall r :: RollupBucketsAnswer(db.view, q, r) <==> RawBucketsAnswer(db.events, q, r)
    {
      PairSound(db.view, db.events, q);
    }
  }

  /** The unrestricted query of a super administrator. */
  function Everything(closure: seq<Edge>): (q: Query)
    ensures Pair(q).Ok? && q.closure == closure
  {
    Query(Parameters(None, Some("r"), Some("r"), None, None), closure, "", None)
  }

  lemma CountsEverything(events: seq<Event>, closure: seq<Edge>)
    ensures RawMetricsAnswer(events, Everything(closure)).totalEvents == |events|
  {
    WhereAll(events, RawFilter(Everything(closure)));
  }

  /** The rollup answers are the raw answers exactly when nothing was inserted since the refresh. */
  lemma FreshIffNothingInserted(db: Database)
    requires Consistent(db)
    ensures Fresh(db) <==> db.events == db.seen
  {
    if db.events == db.seen {
      RefreshedIsFresh(db);
    } else {
      PairSound(db.view, db.seen, Everything(db.closure));
      CountsEverything(db.seen, db.closure);
      CountsEverything(db.events, db.closure);
    }
  }

  /** In a fresh database every accepted query gets the raw answers from the rollup. */
  lemma FreshGives(db: Database, q: Query)
    requires Fresh(db) && q.closure == db.closure
    requires q.window.None? || (q.window.value.start % 60_000_000 == 0 && (q.window.value.end + 1) % 60_000_000 == 0)
    ensures RollupMetricsAnswer(db.view, q) == RawMetricsAnswer(db.events, q)
    ensures forall r :: RollupBucketsAnswer(db.view, q, r) <==> RawBucketsAnswer(db.events, q, r)
  {
    PairExact(q);
  }

  /** Whether an operation inserts an event. */
  predicate Inserts(db: Database, op: Operation) { op.Append? && !HasId(db.events, op.event.id) }

  lemma InsertsMeans(db: Database, op: Operation)
    ensures Inserts(db, op) <==> op.Append? && forall e | e in db.events :: e.id != op.event.id
    ensures Step(db, op).events == if Inserts(db, op) then db.events + [op.event] else db.events
  {
    assert forall i | 0 <= i < |db.events| :: db.events[i] in db.events;
    if op.Append? {
      if e :| e in db.events && e.id == op.event.id {
        var i :| 0 <= i < |db.events| && db.events[i] == e;
      }
    }
  }

  /** Only an insertion makes the view stale; duplicates and closure changes never do, a refresh
      always restores it, and nothing but a refresh does. */
  lemma FreshnessStep(db: Database, op: Operation)
    requires Consistent(db)
    ensures Fresh(Step(db, op)) <==> op.Refresh? || (Fresh(db) && !Inserts(db, op))
    ensures !Inserts(db, op) ==> Step(db, op).events == db.events
  {
    StepConsistent(db, op);
    FreshIffNothingInserted(db);
    FreshIffNothingInserted(Step(db, op));
  }

  /** No operation of the run from number `from` on inserts an event. */
  ghost predicate NoInsertFrom(db: Database, ops: seq<Operation>, from: nat) {
    forall i | from <= i < |ops| :: !Inserts(Run(db, ops[..i]), ops[i])
  }

  lemma NoInsertLast(db: Database, init: seq<Operation>, op: Operation, from: nat)
    requires from <= |init|
    ensures NoInsertFrom(db, init + [op], from) <==> NoInsertFrom(db, init, from) && !Inserts(Run(db, init), op)
  {
    var ops := init + [op];
    assert ops[..|init|] == init && ops[|init|] == op;
    assert forall i | 0 <= i < |init| :: ops[..i] == init[..i] && ops[i] == init[i];
  }

  /** The operations up to and including the last refresh; none when there is no refresh. */
  function Settled(ops: seq<Operation>): (j: nat)
    ensures j <= |ops|
    ensures j > 0 ==> LastRefreshAt(ops, j - 1)
    ensures j == 0 ==> forall op | op in ops :: !op.Refresh?
  {
    if ops == [] then 0
    else
      var init, op := ops[..|ops| - 1], ops[|ops| - 1];
      assert ops == init + [op];
      if op.Refresh? then |ops| else Settled(init)
  }

  /** For every run from every consistent database: all answers are right at the end exactly when
      nothing was inserted since the last refresh of the run, or, when the run has none, the
      database was fresh to begin with and nothing was inserted at all. */
  lemma {:induction false} FreshRun(db: Database, ops: seq<Operation>)
    requires Consistent(db)
    ensures Fresh(Run(db, ops)) <==> (Settled(ops) > 0 || Fresh(db)) && NoInsertFrom(db, ops, Settled(ops))
  {
    if ops != [] {
      var init, op := ops[..|ops| - 1], ops[|ops| - 1];
      assert ops == init + [op];
      FreshRun(db, init);
      RunConsistent(db, init);
      FreshnessStep(Run(db, init), op);
      if !op.Refresh? { NoInsertLast(db, init, op, Settled(ops)); }
    }
  }

  // ---------- the fixture as mutable state ----------

  class Fixture {
    var events: seq<Event>
    var closure: seq<Edge>
    var view: seq<RollupRow>
    ghost var seen: seq<Event>

    ghost function State(): Database
      reads this
    {
      Database(events, closure, view, seen)
    }

    /** initialize_rollup: seed the tables, then create the view. */
    constructor (initial: seq<Event>, edges: seq<Edge>)
      requires forall i, j | 0 <= i < j < |initial| :: initial[i].id != initial[j].id
      ensures Consistent(State()) && State() == Database(initial, edges, BuildView(initial), initial)
    {
      events, closure, view, seen := initial, edges, BuildView(initial), initial;
      new;
      BuildViewMaterializes(initial);
    }

    /** INSERT ... ON CONFLICT (id) DO NOTHING; returns the row count. */
    method AppendEvent(e: Event) returns (rowCount: nat)
      requires Consistent(State())
      modifies this
      ensures Consistent(State()) && State() == Step(old(State()), Append(e))
      ensures rowCount == |events| - |old(events)|
      ensures rowCount == if exists i :: 0 <= i < |old(events)| && old(events)[i].id == e.id then 0 else 1
      ensures events == if rowCount == 0 then old(events) else old(events) + [e]
      ensures view == old(view) && closure == old(closure)
    {
      if HasId(events, e.id) {
        rowCount := 0;
      } else {
        events, rowCount := events + [e], 1;
      }
    }

    /** DELETE and INSERT on organization_group_closure. */
    method ReplaceClosure(edges: seq<Edge>)
      requires Consistent(State())
      modifies this`closure
      ensures Consistent(State()) && State() == Step(old(State()), SetClosure(edges)) && closure == edges
    {
      closure := edges;
    }

    /** REFRESH MATERIALIZED VIEW event_rollup */
    method RefreshRollup()
      requires Consistent(State())
      modifies this`view, this`seen
      ensures Consistent(State()) && State() == Step(old(State()), Refresh) && Fresh(State())
    {
      BuildViewMaterializes(events);
      view, seen := BuildView(events), events;
      FreshIffNothingInserted(State());
    }

    /** Any sequence of operations. */
    method Execute(ops: seq<Operation>)
      requires Consistent(State())
      modifies this
      ensures Consistent(State()) && State() == Run(old(State()), ops)
    {
      var i := 0;
      while i < |ops|
        invariant 0 <= i <= |ops|
        invariant Consistent(State()) && State() == Run(old(State()), ops[..i])
      {
        match ops[i] {
          case Append(e) => var _ := AppendEvent(e);
          case SetClosure(edges) => ReplaceClosure(edges);
          case Refresh => RefreshRollup();
        }
        assert ops[..i + 1][..i] == ops[..i];
        i := i + 1;
      }
      assert ops[..i] == ops;
    }
  }
}
