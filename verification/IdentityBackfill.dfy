/** The bounded, resumable identity backfill of telemetry_history under SKIP LOCKED, and the
    guarded finalization of its primary key. */
module IdentityBackfill {
  import opened Wrappers

  /** An event id: one written by a producer, or 'legacy:' and a fresh uuid. */
  datatype EventId = Named(text: string) | Legacy(uuid: nat)

  /** `reading` stands for the columns the backfill never touches. */
  datatype Row = Row(eventId: Option<EventId>, reading: int)

  datatype PrimaryKey = Absent | OnEventId | OnOther

  datatype Failure = BoundsInvalid | FinalizeRequiresRun | UnexpectedPrimaryKey | BackfillIncomplete

  datatype Options = Options(run: bool, finalize: bool, batchSize: int, maxBatches: int)

  datatype Report = Report(updated: nat, pending: bool, primaryKeyReady: bool, complete: bool)

  function Validate(o: Options): Option<Failure> {
    if !(1 <= o.batchSize <= 10_000) || !(1 <= o.maxBatches <= 1000) then Some(BoundsInvalid)
    else if o.finalize && !o.run then Some(FinalizeRequiresRun)
    else None
  }

  /** Row numbers with a NULL id that no other transaction holds. */
  function Open(rows: seq<Row>, locked: set<nat>): set<nat> {
    set i | 0 <= i < |rows| && rows[i].eventId.None? && i !in locked
  }

  /** The rows still without an id. */
  function Pending(rows: seq<Row>): nat { |Open(rows, {})| }

  /** Rows are conserved, in place, with their readings; ids once present never change; a row
      that had none has none or a legacy id, and rows that appeared meanwhile have one. */
  ghost predicate Evolves(before: seq<Row>, after: seq<Row>) {
    && |before| <= |after|
    && (forall i | 0 <= i < |before| :: after[i].reading == before[i].reading)
    && (forall i | 0 <= i < |before| && before[i].eventId.Some? :: after[i].eventId == before[i].eventId)
    && (forall i | 0 <= i < |before| && before[i].eventId.None? && after[i].eventId.Some? :: after[i].eventId.value.Legacy?)
    && (forall i | |before| <= i < |after| :: after[i].eventId.Some?)
  }

  lemma EvolvesTransitive(a: seq<Row>, b: seq<Row>, c: seq<Row>)
    requires Evolves(a, b) && Evolves(b, c)
    ensures Evolves(a, c)
  {
  }

  /** No row is ever opened again. */
  lemma OpenShrinks(before: seq<Row>, after: seq<Row>, locked: set<nat>)
    requires Evolves(before, after)
    ensures Open(after, locked) <= Open(before, locked)
  {
    forall i | i in Open(after, locked) ensures i in Open(before, locked) { }
  }

  /** Nothing is open exactly when every row that others do not hold has an id. */
  lemma OpenMeans(rows: seq<Row>, locked: set<nat>)
    ensures Open(rows, locked) == {} <==> forall i | 0 <= i < |rows| && i !in locked :: rows[i].eventId.Some?
  {
    if !(forall i | 0 <= i < |rows| && i !in locked :: rows[i].eventId.Some?) {
      var i :| 0 <= i < |rows| && i !in locked && rows[i].eventId.None?;
      assert i in Open(rows, locked);
    }
  }

  /** Every row without an id is one of the locked. */
  ghost predicate OnlyLockedLack(rows: seq<Row>, locked: set<nat>) {
    forall i | 0 <= i < |rows| && rows[i].eventId.None? :: i in locked
  }

  lemma LackMeans(rows: seq<Row>, locked: set<nat>)
    ensures OnlyLockedLack(rows, locked) <==> Open(rows, locked) == {}
  {
    OpenMeans(rows, locked);
  }

  /** Nothing is pending exactly when every row has an id. */
  lemma PendingMeans(rows: seq<Row>)
    ensures Pending(rows) == 0 <==> forall i | 0 <= i < |rows| :: rows[i].eventId.Some?
    ensures Pending(rows) == |set i | 0 <= i < |rows| && rows[i].eventId.None?|
  {
    OpenMeans(rows, {});
    assert Open(rows, {}) == set i | 0 <= i < |rows| && rows[i].eventId.None?;
  }

  /** The rows that had no id and have one now. */
  function Filled(before: seq<Row>, after: seq<Row>): set<int> {
    set i | 0 <= i < |before| && i < |after| && before[i].eventId.None? && after[i].eventId.Some?
  }

  lemma NothingFilled(rows: seq<Row>)
    ensures Filled(rows, rows) == {}
  {
  }

  /** Filling as many rows as were pending leaves none pending. */
  lemma ClearsAll(before: seq<Row>, after: seq<Row>, budget: int)
    requires Evolves(before, after) && |Filled(before, after)| == budget
    ensures |set i | 0 <= i < |before| && before[i].eventId.None?| <= budget ==> forall i | 0 <= i < |after| :: after[i].eventId.Some?
  {
    FilledCount(before, after);
    PendingMeans(before);
    PendingMeans(after);
  }

  lemma FilledCount(before: seq<Row>, after: seq<Row>)
    requires Evolves(before, after)
    ensures |Filled(before, after)| == Pending(before) - Pending(after)
  {
    OpenShrinks(before, after, {});
    assert Filled(before, after) == Open(before, {}) - Open(after, {});
  }

  /** The bounds on an invocation: 1 to 10,000 rows a batch and 1 to 1,000 batches, and finalizing
      only in a run. */
  lemma ValidateMeans(o: Options)
    ensures Validate(o) == Some(BoundsInvalid) <==>
      o.batchSize < 1 || o.batchSize > 10_000 || o.maxBatches < 1 || o.maxBatches > 1000
    ensures Validate(o).None? <==>
      1 <= o.batchSize <= 10_000 && 1 <= o.maxBatches <= 1000 && (o.finalize ==> o.run)
    ensures Validate(o).Some? ==> Validate(o).value in [BoundsInvalid, FinalizeRequiresRun]
  {
  }

  ghost predicate UniqueIds(rows: seq<Row>) {
    forall i, j | 0 <= i < j < |rows| && rows[i].eventId.Some? :: rows[i].eventId != rows[j].eventId
  }

  ghost predicate IssuedBelow(rows: seq<Row>, next: nat) {
    forall i | 0 <= i < |rows| && rows[i].eventId.Some? && rows[i].eventId.value.Legacy? :: rows[i].eventId.value.uuid < next
  }

  /** Giving one open row a fresh id closes exactly that row and touches no other. */
  lemma FillRow(rows: seq<Row>, i: nat, uuid: nat, locked: set<nat>)
    requires UniqueIds(rows) && IssuedBelow(rows, uuid) && i in Open(rows, locked)
    ensures var filled := rows[i := rows[i].(eventId := Some(Legacy(uuid)))];
      && Evolves(rows, filled) && UniqueIds(filled) && IssuedBelow(filled, uuid + 1)
      && Open(filled, locked) == Open(rows, locked) - {i} && Open(filled, {}) == Open(rows, {}) - {i}
  {
  }

  class History {
    var rows: seq<Row>
    var primaryKey: PrimaryKey
    var nextUuid: nat

    /** Present ids are unique (the unique index), generated uuids are fresh, and the primary key
        stands only over rows that all have an id. */
    ghost predicate Valid()
      reads this
    {
      && UniqueIds(rows) && IssuedBelow(rows, nextUuid)
      && (primaryKey == OnEventId ==> forall i | 0 <= i < |rows| :: rows[i].eventId.Some?)
    }

    constructor (initial: seq<Row>, key: PrimaryKey)
      requires forall i | 0 <= i < |initial| && initial[i].eventId.Some? :: initial[i].eventId.value.Named?
      requires UniqueIds(initial)
      requires key == OnEventId ==> forall i | 0 <= i < |initial| :: initial[i].eventId.Some?
      ensures Valid() && rows == initial && primaryKey == key
    {
      rows, primaryKey, nextUuid := initial, key, 0;
    }

    /** Other sessions insert rows; the check constraint gives each of them an id, the index a new one. */
    method OtherSessions(inserted: seq<Row>)
      requires Valid()
      modifies this`rows
      ensures Valid() && Evolves(old(rows), rows) && Pending(rows) == Pending(old(rows))
    {
      var i := 0;
      while i < |inserted|
        invariant 0 <= i <= |inserted|
        invariant Valid() && Evolves(old(rows), rows) && Open(rows, {}) == Open(old(rows), {})
      {
        var row := inserted[i];
        if row.eventId.Some? && row.eventId.value.Named?
           && forall k | 0 <= k < |rows| :: rows[k].eventId != row.eventId {
          ghost var before := rows;
          rows := rows + [row];
          assert Open(rows, {}) == Open(before, {});
        }
        i := i + 1;
      }
    }

    /** BACKFILL_SQL: fills up to `limit` NULL ids among the rows nobody else holds; which ones is
        not determined, since the batch has no order. Returns the row count. */
    method Batch(limit: nat, locked: set<nat>) returns (accepted: nat)
      requires Valid()
      modifies this`rows, this`nextUuid
      ensures Valid() && Evolves(old(rows), rows) && |rows| == |old(rows)|
      ensures forall i | 0 <= i < |old(rows)| ::
        rows[i].reading == old(rows)[i].reading && (old(rows)[i].eventId.Some? ==> rows[i] == old(rows)[i])
      ensures forall i, j | 0 <= i < j < |rows| && rows[i].eventId.Some? :: rows[i].eventId != rows[j].eventId
      ensures forall i | i in locked && 0 <= i < |rows| :: rows[i] == old(rows)[i]
      ensures accepted == (if |Open(old(rows), locked)| < limit then |Open(old(rows), locked)| else limit)
      ensures Pending(rows) == Pending(old(rows)) - accepted
      ensures accepted == |Filled(old(rows), rows)|
      ensures accepted < limit ==> forall i | 0 <= i < |rows| && i !in locked :: rows[i].eventId.Some?
    {
      accepted := 0;
      while accepted < limit && Open(rows, locked) != {}
        invariant accepted <= limit && |rows| == |old(rows)|
        invariant Valid() && Evolves(old(rows), rows)
        invariant forall i | i in locked && 0 <= i < |rows| :: rows[i] == old(rows)[i]
        invariant |Open(rows, locked)| + accepted == |Open(old(rows), locked)|
        invariant Pending(rows) + accepted == Pending(old(rows))
        decreases limit - accepted
      {
        var i :| i in Open(rows, locked);
        ghost var before := rows;
        FillRow(rows, i, nextUuid, locked);
        rows := rows[i := rows[i].(eventId := Some(Legacy(nextUuid)))];
        nextUuid := nextUuid + 1;
        EvolvesTransitive(old(rows), before, rows);
        accepted := accepted + 1;
      }
      FilledCount(old(rows), rows);
      OpenMeans(rows, locked);
    }

    /** primary_key_ready */
    method PrimaryKeyReady() returns (r: Result<bool, Failure>)
      ensures r == if primaryKey == OnOther then Err(UnexpectedPrimaryKey) else Ok(primaryKey == OnEventId)
    {
      if primaryKey == Absent { return Ok(false); }
      if primaryKey != OnEventId { return Err(UnexpectedPrimaryKey); }
      return Ok(true);
    }

    /** pending_history_identifiers: SELECT EXISTS (... event_id IS NULL) */
    method PendingIdentifiers() returns (pending: bool)
      ensures pending <==> exists i :: 0 <= i < |rows| && rows[i].eventId.None?
    {
      pending := Open(rows, {}) != {};
      OpenMeans(rows, {});
    }

    /** finalize_primary_key */
    method FinalizePrimaryKey() returns (r: Result<(), Failure>)
      requires Valid()
      modifies this`primaryKey
      ensures Valid()
      ensures r == if old(primaryKey) == OnOther then Err(UnexpectedPrimaryKey)
                   else if old(primaryKey) == Absent && !(forall i | 0 <= i < |rows| :: rows[i].eventId.Some?)
                   then Err(BackfillIncomplete)
                   else Ok(())
      ensures primaryKey == if r.Ok? then OnEventId else old(primaryKey)
      ensures primaryKey == OnEventId ==> forall i | 0 <= i < |rows| :: rows[i].eventId.Some?
    {
      var ready := PrimaryKeyReady();
      if ready.Err? { return Err(ready.error); }
      if ready.value { return Ok(()); }
      var pending := PendingIdentifiers();
      if pending { return Err(BackfillIncomplete); }
      primaryKey := OnEventId;
      return Ok(());
    }

    /** The batches of one invocation, each with its own rows locked by others and its own
        insertions by other sessions before it. */
    method Batches(o: Options, locked: nat -> set<nat>, inserted: nat -> seq<Row>) returns (updated: nat)
      requires Valid() && Validate(o).None?
      modifies this`rows, this`nextUuid
      ensures Valid() && Evolves(old(rows), rows)
      ensures updated <= o.batchSize * o.maxBatches
      ensures updated == |Filled(old(rows), rows)|
      ensures updated == o.batchSize * o.maxBatches
        || exists k: nat :: k < o.maxBatches && OnlyLockedLack(rows, locked(k))
      ensures (forall k :: locked(k) == {}) ==>
        (forall i | 0 <= i < |rows| :: rows[i].eventId.Some?) || updated == o.batchSize * o.maxBatches
    {
      updated := 0;
      var k := 0;
      while k < o.maxBatches
        invariant 0 <= k <= o.maxBatches && updated <= o.batchSize * k
        invariant Valid() && Evolves(old(rows), rows) && Pending(rows) + updated == Pending(old(rows))
        invariant updated == o.batchSize * k || exists j: nat :: j < k && OnlyLockedLack(rows, locked(j))
      {
        ghost var start := rows;
        var accepted := Turn(o.batchSize, locked(k), inserted(k));
        EvolvesTransitive(old(rows), start, rows);
        forall j: nat | OnlyLockedLack(start, locked(j)) ensures OnlyLockedLack(rows, locked(j)) { }
        assert o.batchSize * (k + 1) == o.batchSize * k + o.batchSize;
        updated := updated + accepted;
        k := k + 1;
        if accepted == 0 {
          Steps(o.batchSize, k, o.maxBatches);
          break;
        }
      }
      FilledCount(old(rows), rows);
    }

    /** One batch, behind what other sessions inserted since the last. */
    method Turn(limit: nat, locked: set<nat>, inserted: seq<Row>) returns (accepted: nat)
      requires Valid()
      modifies this`rows, this`nextUuid
      ensures Valid() && Evolves(old(rows), rows) && accepted <= limit
      ensures Pending(rows) + accepted == Pending(old(rows))
      ensures accepted < limit ==> OnlyLockedLack(rows, locked)
    {
      OtherSessions(inserted);
      ghost var middle := rows;
      accepted := Batch(limit, locked);
      EvolvesTransitive(old(rows), middle, rows);
    }

    /** backfill */
    method Backfill(o: Options, locked: nat -> set<nat>, inserted: nat -> seq<Row>) returns (r: Result<Report, Failure>)
      requires Valid()
      modifies this
      ensures Valid() && Evolves(old(rows), rows) && |old(rows)| <= |rows|
      ensures forall i | 0 <= i < |old(rows)| ::
        rows[i].reading == old(rows)[i].reading && (old(rows)[i].eventId.Some? ==> rows[i] == old(rows)[i])
      ensures |Filled(old(rows), rows)| <= if o.run && Validate(o).None? then o.batchSize * o.maxBatches else 0
      ensures !o.run || Validate(o).Some? ==> rows == old(rows)
      ensures primaryKey != old(primaryKey) ==> old(primaryKey) == Absent && primaryKey == OnEventId && o.finalize
      ensures primaryKey == OnEventId ==> forall i | 0 <= i < |rows| :: rows[i].eventId.Some?
      ensures var pending := !forall i | 0 <= i < |rows| :: rows[i].eventId.Some?;
        r == (if Validate(o).Some? then Err(Validate(o).value)
              else if primaryKey == OnOther then Err(UnexpectedPrimaryKey)
              else if o.finalize && primaryKey == Absent then Err(BackfillIncomplete)
              else Ok(Report(|Filled(old(rows), rows)|, pending, primaryKey == OnEventId, primaryKey == OnEventId && !pending)))
      ensures Validate(o).None? && o.run ==>
        |Filled(old(rows), rows)| == o.batchSize * o.maxBatches
        || exists k: nat :: k < o.maxBatches && OnlyLockedLack(rows, locked(k))
      ensures Validate(o).None? && o.run && (forall k :: locked(k) == {})
        && |set i | 0 <= i < |old(rows)| && old(rows)[i].eventId.None?| <= o.batchSize * o.maxBatches
        ==> forall i | 0 <= i < |rows| :: rows[i].eventId.Some?
      ensures Validate(o).None? && o.finalize && primaryKey == Absent ==> !forall i | 0 <= i < |rows| :: rows[i].eventId.Some?
    {
      var invalid := Validate(o);
      NothingFilled(rows);
      if invalid.Some? { return Err(invalid.value); }
      var updated := 0;
      if o.run {
        updated := Batches(o, locked, inserted);
        if updated == o.batchSize * o.maxBatches { ClearsAll(old(rows), rows, updated); }
      }
      if o.finalize {
        var finalized := FinalizePrimaryKey();
        if finalized.Err? { return Err(finalized.error); }
      }
      var pending := PendingIdentifiers();
      var ready := PrimaryKeyReady();
      if ready.Err? { return Err(ready.error); }
      return Ok(Report(updated, pending, ready.value, !pending && ready.value));
    }

    /** Any sequence of invocations, whatever others lock and insert meanwhile: rows and ids are
        conserved, the budget bounds the updates, and a key once added stays over identified rows. */
    method Migrate(invocations: seq<Options>, locked: (nat, nat) -> set<nat>, inserted: (nat, nat) -> seq<Row>)
      requires Valid()
      modifies this
      ensures Valid() && Evolves(old(rows), rows) && |old(rows)| <= |rows|
      ensures forall i | 0 <= i < |old(rows)| ::
        rows[i].reading == old(rows)[i].reading && (old(rows)[i].eventId.Some? ==> rows[i] == old(rows)[i])
      ensures |Filled(old(rows), rows)| <= Budget(invocations)
      ensures old(primaryKey) != Absent ==> primaryKey == old(primaryKey)
      ensures primaryKey == OnEventId ==> forall i | 0 <= i < |rows| :: rows[i].eventId.Some?
    {
      var i := 0;
      while i < |invocations|
        invariant 0 <= i <= |invocations|
        invariant Valid() && Evolves(old(rows), rows)
        invariant Pending(rows) <= Pending(old(rows)) <= Pending(rows) + Budget(invocations[..i])
        invariant old(primaryKey) != Absent ==> primaryKey == old(primaryKey)
      {
        ghost var start := rows;
        var _ := Backfill(invocations[i], (k: nat) => locked(i, k), (k: nat) => inserted(i, k));
        EvolvesTransitive(old(rows), start, rows);
        FilledCount(start, rows);
        assert invocations[..i + 1][..i] == invocations[..i];
        i := i + 1;
      }
      assert invocations[..i] == invocations;
      FilledCount(old(rows), rows);
    }
  }

  lemma Steps(batchSize: int, k: int, maxBatches: int)
    requires batchSize >= 0 && k <= maxBatches
    ensures batchSize * k <= batchSize * maxBatches
  {
  }

  /** The updates a sequence of invocations is allowed. */
  function Budget(invocations: seq<Options>): nat {
    if invocations == [] then 0
    else
      var o := invocations[|invocations| - 1];
      Budget(invocations[..|invocations| - 1])
      + (if o.run && Validate(o).None? then Product(o.batchSize, o.maxBatches) else 0)
  }

  function Product(a: nat, b: nat): nat { a * b }
}
