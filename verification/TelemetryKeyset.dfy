/** The keyset page against the deep OFFSET page, on the seeded telemetry fixture. */
module TelemetryKeyset {
  import opened Wrappers
  import opened Ordering
  import opened Scope
  import opened ScopedTelemetry
  import Text

  const SEED_BATCH_SIZE: nat := 1_000
  const UUID_DIGITS: nat := 8

  // ---------- OFFSET and seek ----------

  function ScopeRows(table: set<Row>, closure: seq<Edge>, scope: Parameters, role: string): set<Row> {
    set row | row in table && InScope(row.group, scope, closure, role).Holds()
  }

  /** ORDER BY uuid LIMIT limit OFFSET skipped */
  ghost predicate OffsetAnswer(rows: set<Row>, limit: Option<nat>, skipped: nat, result: seq<Row>) {
    exists s :: Listing(multiset(rows), BY_UUID, s)
      && result == Limit(if skipped <= |s| then s[skipped..] else [], limit)
  }

  /** The scoped rows that do not come after a position. */
  function UpTo(rows: set<Row>, position: string): set<Row> {
    set row | row in rows && !Text.Less(position, row.uuid)
  }

  function Beyond(rows: set<Row>, position: string): set<Row> {
    set row | row in rows && Text.Less(position, row.uuid)
  }

  /** A listing lists the rows up to the position first and the rows beyond it after them. */
  lemma ListingSplits(rows: set<Row>, position: string, s: seq<Row>)
    requires UniqueUuid(rows) && Listing(multiset(rows), BY_UUID, s)
    ensures |UpTo(rows, position)| <= |s|
    ensures Ascending(s, BY_UUID)
    ensures ToSet(s[|UpTo(rows, position)|..]) == Beyond(rows, position)
  {
    var k := |UpTo(rows, position)|;
    UuidOrder(rows);
    Text.TextOrder();
    MultisetOfSet(s, rows);
    if s != [] { ListingRank(rows, BY_UUID, s, 0); }
    var n := 0;
    while n < |s| && !Text.Less(position, s[n].uuid)
      invariant n <= |s|
      invariant forall i | 0 <= i < n :: !Text.Less(position, s[i].uuid)
    {
      n := n + 1;
    }
    forall i | n <= i < |s| ensures Text.Less(position, s[i].uuid) {
      assert i > n ==> BY_UUID(s[n], s[i]);
    }
    forall row ensures row in ToSet(s[..n]) <==> row in UpTo(rows, position) {
      MemberSplit(s, n, row);
      assert row in rows <==> row in ToSet(s);
    }
    assert ToSet(s[..n]) == UpTo(rows, position);
    DistinctSize(s[..n]);
    forall row ensures row in ToSet(s[n..]) <==> row in Beyond(rows, position) {
      MemberSplit(s, n, row);
      assert row in rows <==> row in ToSet(s);
    }
  }

  lemma MemberSplit<T>(s: seq<T>, n: nat, x: T)
    requires n <= |s|
    ensures x in s <==> x in s[..n] || x in s[n..]
  {
    assert s == s[..n] + s[n..];
  }

  lemma SuffixListed(rows: set<Row>, position: string, s: seq<Row>)
    requires UniqueUuid(rows) && Listing(multiset(rows), BY_UUID, s)
    ensures |UpTo(rows, position)| <= |s|
    ensures Listing(multiset(Beyond(rows, position)), BY_UUID, s[|UpTo(rows, position)|..])
  {
    ListingSplits(rows, position, s);
    UuidOrder(rows);
    AscendingDistinct(s, BY_UUID);
    DistinctSize(s[|UpTo(rows, position)|..]);
  }

  /** Skipping as many rows as lie up to a position is seeking past the position. */
  lemma SeekIsOffset(rows: set<Row>, position: string, limit: Option<nat>, result: seq<Row>)
    requires UniqueUuid(rows)
    ensures OffsetAnswer(rows, limit, |UpTo(rows, position)|, result)
       <==> OrderByLimit(multiset(Beyond(rows, position)), BY_UUID, limit, result)
  {
    var k, beyond := |UpTo(rows, position)|, Beyond(rows, position);
    UuidOrder(rows);
    forall s | Listing(multiset(rows), BY_UUID, s) ensures k <= |s| && Listing(multiset(beyond), BY_UUID, s[k..]) {
      SuffixListed(rows, position, s);
    }
    if OrderByLimit(multiset(beyond), BY_UUID, limit, result) {
      var s := ListingExists(multiset(rows), BY_UUID);
      OneAnswer(beyond, limit, result, Limit(s[k..], limit));
    }
  }

  /** Rows with unique uuids have one page. */
  lemma OneAnswer(rows: set<Row>, limit: Option<nat>, a: seq<Row>, b: seq<Row>)
    requires UniqueUuid(rows) && OrderByLimit(multiset(rows), BY_UUID, limit, a) && OrderByLimit(multiset(rows), BY_UUID, limit, b)
    ensures a == b
  {
    UuidOrder(rows);
    AnswerIsTop(rows, BY_UUID, limit, a);
    AnswerIsTop(rows, BY_UUID, limit, b);
    AscendingUnique(a, b, BY_UUID);
  }

  // ---------- the fixture ----------

  function DeviceUuid(i: nat): string { "device-" + Text.LPad(i, UUID_DIGITS) }

  function DeviceRow(i: nat): Row {
    Row(DeviceUuid(i), Some(if i % 5 == 0 then "co-a" else "co-b"), 0)
  }

  /** generate_series(first, last), as the inserted rows. */
  function Series(first: nat, last: nat): (rows: seq<Row>)
    ensures |rows| == if first <= last then last - first + 1 else 0
    ensures forall k | 0 <= k < |rows| :: rows[k] == DeviceRow(first + k)
  {
    seq(if first <= last then last - first + 1 else 0, k requires k >= 0 => DeviceRow(first + k))
  }

  class TelemetryLatest {
    var rows: seq<Row>

    constructor ()
      ensures rows == []
    {
      rows := [];
    }

    /** One batch: INSERT ... SELECT ... FROM generate_series(first, last). */
    method InsertSeries(first: nat, last: nat)
      modifies this
      ensures rows == old(rows) + Series(first, last)
    {
      rows := rows + Series(first, last);
    }

    /** Seeding in batches of SEED_BATCH_SIZE inserts the devices 1..count exactly once, in order. */
    method Seed(count: nat)
      requires rows == []
      modifies this
      ensures rows == Series(1, count)
    {
      var first := 1;
      while first < count + 1
        invariant first >= 1
        invariant rows == Series(1, if first <= count then first - 1 else count)
      {
        var last := first + SEED_BATCH_SIZE - 1;
        InsertSeries(first, if last < count then last else count);
        first := first + SEED_BATCH_SIZE;
      }
    }
  }

  lemma EightDigits()
    ensures Text.Pow10(UUID_DIGITS) == 100_000_000
  {
    assert Text.Pow10(2) == 100;
    assert Text.Pow10(4) == 10_000;
    assert Text.Pow10(6) == 1_000_000;
  }

  /** Below 10^8 the text order of device ids is their numeric order. */
  lemma DeviceOrder(i: nat, j: nat)
    requires i < 100_000_000 && j < 100_000_000
    ensures Text.Less(DeviceUuid(i), DeviceUuid(j)) <==> i < j
    ensures DeviceUuid(i) == DeviceUuid(j) <==> i == j
    ensures DeviceUuid(i) == "device-" + Text.ZeroFill(i, UUID_DIGITS)
  {
    EightDigits();
    Text.Padded(i, UUID_DIGITS);
    Text.Padded(j, UUID_DIGITS);
    Text.NumeralOrder(Text.LPad(i, UUID_DIGITS), Text.LPad(j, UUID_DIGITS));
    Text.LessPrefix("device-", Text.LPad(i, UUID_DIGITS), Text.LPad(j, UUID_DIGITS));
    assert DeviceUuid(i)[7..] == Text.LPad(i, UUID_DIGITS) && DeviceUuid(j)[7..] == Text.LPad(j, UUID_DIGITS);
  }

  /** The primary key accepts the seeded devices exactly while eight digits suffice. */
  lemma SeedKeysUnique(count: nat)
    ensures (forall i, j | 1 <= i < j <= count :: DeviceUuid(i) != DeviceUuid(j)) <==> count < 100_000_000
  {
    if count < 100_000_000 {
      forall i, j | 1 <= i < j <= count ensures DeviceUuid(i) != DeviceUuid(j) { DeviceOrder(i, j); }
    } else {
      var short := Text.Decimal(10_000_000);
      EightDigits();
      Text.DecimalLength(10_000_000, 8);
      DecimalLong(10_000_000, 7);
      assert Text.Decimal(100_000_000) == short + ['0'];
      assert Text.LPad(100_000_000, UUID_DIGITS) == short == Text.LPad(10_000_000, UUID_DIGITS);
      assert DeviceUuid(10_000_000) == DeviceUuid(100_000_000);
    }
  }

  lemma {:induction false} DecimalLong(n: nat, k: nat)
    requires n >= Text.Pow10(k)
    ensures |Text.Decimal(n)| > k
  {
    if k > 0 {
      assert n >= 10 by { PowPositive(k - 1); }
      DecimalLong(n / 10, k - 1);
    }
  }

  lemma {:induction false} PowPositive(k: nat)
    ensures Text.Pow10(k) >= 1
  {
    if k > 0 { PowPositive(k - 1); }
  }

  // ---------- the benchmarked pair ----------

  /** The benchmark's group, role, global role, hierarchy role and ancestor. */
  const SCOPE_PARAMETERS: Parameters := Parameters(Some("co-a"), Some("OPERATOR"), Some("ADMIN"), Some("OPERATOR"), Some("co-a"))

  const HIERARCHY_ROLE: string := "GROUP_ADMIN"

  function Skipped(count: nat): nat { count / 5 * 3 / 4 }

  function Position(count: nat): string { "device-" + Text.ZeroFill(Skipped(count) * 5, UUID_DIGITS) }

  lemma OperatorSeesOwnGroup(group: Option<string>, closure: seq<Edge>)
    ensures InScope(group, SCOPE_PARAMETERS, closure, HIERARCHY_ROLE).Holds() <==> group == Some("co-a")
  {
    assert "OPERATOR"[0] != "ADMIN"[0] && "OPERATOR"[0] != "GROUP_ADMIN"[0];
  }

  lemma SeededRow(count: nat, row: Row)
    ensures row in Series(1, count) <==> exists i :: 1 <= i <= count && row == DeviceRow(i)
  {
    var rows := Series(1, count);
    if row in rows {
      var k :| 0 <= k < |rows| && rows[k] == row;
      assert row == DeviceRow(k + 1);
    }
    if exists i :: 1 <= i <= count && row == DeviceRow(i) {
      var i :| 1 <= i <= count && row == DeviceRow(i);
      assert rows[i - 1] == row;
    }
  }

  lemma GroupNames(i: nat)
    ensures DeviceRow(i).group == Some("co-a") <==> i % 5 == 0
  {
    assert "co-a"[3] != "co-b"[3];
  }

  lemma SeededUnique(count: nat)
    requires count < 100_000_000
    ensures UniqueUuid(ToSet(Series(1, count)))
  {
    forall a, b | a in Series(1, count) && b in Series(1, count) && a.uuid == b.uuid ensures a == b {
      SeededRow(count, a);
      SeededRow(count, b);
      var i :| 1 <= i <= count && a == DeviceRow(i);
      var j :| 1 <= j <= count && b == DeviceRow(j);
      DeviceOrder(i, j);
    }
  }

  /** The scoped devices up to the position are every fifth device up to 5 * Skipped(count). */
  lemma SkippedDevice(count: nat, closure: seq<Edge>, i: nat)
    requires count < 100_000_000 && 1 <= i <= count
    ensures DeviceRow(i) in UpTo(ScopeRows(ToSet(Series(1, count)), closure, SCOPE_PARAMETERS, HIERARCHY_ROLE), Position(count))
       <==> i % 5 == 0 && i <= Skipped(count) * 5
  {
    OperatorSeesOwnGroup(DeviceRow(i).group, closure);
    SeededRow(count, DeviceRow(i));
    GroupNames(i);
    DeviceOrder(Skipped(count) * 5, i);
  }

  function FifthDevices(n: nat): (rows: seq<Row>)
    ensures |rows| == n && forall j | 0 <= j < n :: rows[j] == DeviceRow(5 * (j + 1))
  {
    seq(n, j requires j >= 0 => DeviceRow(5 * (j + 1)))
  }

  lemma FifthDevicesDistinct(n: nat)
    requires n < 20_000_000
    ensures |ToSet(FifthDevices(n))| == n
  {
    var front := FifthDevices(n);
    forall i, j | 0 <= i < j < n ensures front[i] != front[j] {
      DeviceOrder(5 * (i + 1), 5 * (j + 1));
    }
    DistinctSize(front);
  }

  lemma SkippedRow(count: nat, closure: seq<Edge>, row: Row)
    requires count < 100_000_000
    requires row in UpTo(ScopeRows(ToSet(Series(1, count)), closure, SCOPE_PARAMETERS, HIERARCHY_ROLE), Position(count))
    ensures row in FifthDevices(Skipped(count))
  {
    SeededRow(count, row);
    var i :| 1 <= i <= count && row == DeviceRow(i);
    SkippedDevice(count, closure, i);
    assert FifthDevices(Skipped(count))[i / 5 - 1] == row;
  }

  lemma SkippedRows(count: nat, closure: seq<Edge>)
    requires count < 100_000_000
    ensures UpTo(ScopeRows(ToSet(Series(1, count)), closure, SCOPE_PARAMETERS, HIERARCHY_ROLE), Position(count))
         == ToSet(FifthDevices(Skipped(count)))
  {
    var skippedRows := UpTo(ScopeRows(ToSet(Series(1, count)), closure, SCOPE_PARAMETERS, HIERARCHY_ROLE), Position(count));
    var front := FifthDevices(Skipped(count));
    forall row | row in skippedRows ensures row in ToSet(front) {
      SkippedRow(count, closure, row);
    }
    forall j | 0 <= j < |front| ensures front[j] in skippedRows {
      SkippedDevice(count, closure, 5 * (j + 1));
    }
    assert ToSet(front) <= skippedRows;
  }

  /** Exactly Skipped(count) scoped devices lie up to the computed position. */
  lemma PositionSkips(count: nat, closure: seq<Edge>)
    requires count < 100_000_000
    ensures |UpTo(ScopeRows(ToSet(Series(1, count)), closure, SCOPE_PARAMETERS, HIERARCHY_ROLE), Position(count))| == Skipped(count)
  {
    SkippedRows(count, closure);
    FifthDevicesDistinct(Skipped(count));
  }

  /** On every seeded fixture below 10^8 rows, whatever the closure table holds, the seek page
      after the computed position is the OFFSET page. */
  lemma PagesEqual(count: nat, closure: seq<Edge>, limit: Option<nat>, result: seq<Row>)
    requires count < 100_000_000
    ensures OffsetAnswer(ScopeRows(ToSet(Series(1, count)), closure, SCOPE_PARAMETERS, HIERARCHY_ROLE), limit, Skipped(count), result)
       <==> OwnedAnswer(ToSet(Series(1, count)), closure, Page(SCOPE_PARAMETERS, Some(Position(count)), limit), HIERARCHY_ROLE, result)
  {
    var table := ToSet(Series(1, count));
    var rows := ScopeRows(table, closure, SCOPE_PARAMETERS, HIERARCHY_ROLE);
    SeededUnique(count);
    PositionSkips(count, closure);
    SeekIsOffset(rows, Position(count), limit, result);
    assert Beyond(rows, Position(count))
        == VisibleRows(table, closure, Page(SCOPE_PARAMETERS, Some(Position(count)), limit), HIERARCHY_ROLE);
  }
}
