/** The directory of signed, sequential audit anchors. The digest, the keyed digest and the
    timestamp parser are parameters. */
module AuditAnchors {
  import opened Wrappers
  import opened AuditChain
  import Ordering
  import Text

  /** datetime.fromisoformat: an instant, with or without a UTC offset. */
  datatype Timestamp = Timestamp(aware: bool, instant: int)

  datatype Failure =
    | FieldMissing(field: string) | BadHash | BadSignature | NameGap | SequenceMismatch | PreviousMismatch
    | CountRegressed | BadTimestamp | TimestampRegressed | CommitMismatch
    | MalformedName | NoAnchors | CheckpointMismatch
    | TypeError

  datatype Options = Options(
    digest: string -> string, sign: string -> string, parse: string -> Option<Timestamp>, commit: Option<string>)

  /** Digests are hexadecimal, so they never contain the payload separator. */
  ghost predicate HexDigest(digest: string -> string) {
    forall payload :: '|' !in digest(payload)
  }

  // ---------- the signed payload ----------

  function IntText(n: int): string {
    if n < 0 then "-" + Text.Decimal(-n) else Text.Decimal(n)
  }

  /** Python's str(). */
  function Shown(v: Value): string {
    match v
    case Null => "None"
    case Bool(b) => if b then "True" else "False"
    case Int(n) => IntText(n)
    case Str(s) => s
    case Other(_, shown) => shown
  }

  const PAYLOAD_FIELDS: seq<string> :=
    ["sequence", "previousAnchorHash", "chainHead", "recordCount", "anchoredAt", "sourceCommit"]

  /** "|".join(str(anchor[field]) for field in fields), or the first missing field. */
  function Join(anchor: Record, fields: seq<string>): Result<string, Failure> {
    if fields == [] then Ok("")
    else if fields[0] !in anchor then Err(FieldMissing(fields[0]))
    else if |fields| == 1 then Ok(Shown(anchor[fields[0]]))
    else
      var rest := Join(anchor, fields[1..]);
      if rest.Err? then rest else Ok(Shown(anchor[fields[0]]) + "|" + rest.value)
  }

  function PayloadText(anchor: Record): Result<string, Failure> { Join(anchor, PAYLOAD_FIELDS) }

  /** str(anchor.get(field, "")) */
  function ShownOrEmpty(anchor: Record, field: string): string {
    if field in anchor then Shown(anchor[field]) else ""
  }

  /** hmac.compare_digest raises for text that is not ASCII. */
  predicate IsAscii(s: string) { forall i | 0 <= i < |s| :: s[i] as int < 128 }

  /** verify_anchor_record */
  function VerifyRecord(anchor: Record, o: Options): Result<string, Failure> {
    var payload := PayloadText(anchor);
    if payload.Err? then payload
    else
      var anchorHash := o.digest(payload.value);
      if !IsAscii(ShownOrEmpty(anchor, "anchorHash")) then Err(TypeError)
      else if anchorHash != ShownOrEmpty(anchor, "anchorHash") then Err(BadHash)
      else if !IsAscii(ShownOrEmpty(anchor, "signature")) then Err(TypeError)
      else if o.sign(anchorHash) != ShownOrEmpty(anchor, "signature") then Err(BadSignature)
      else Ok(anchorHash)
  }

  // ---------- one anchor after another ----------

  datatype State = State(sequence: nat, anchorHash: string, recordCount: int, anchoredAt: Option<Timestamp>)

  const INITIAL: State := State(0, GENESIS, -1, None)

  datatype Entry = Entry(name: string, anchor: Record)

  const PREFIX: string := "anchor-"
  const SUFFIX: string := ".json"

  /** ANCHOR_PATTERN.fullmatch: twenty ASCII digits between prefix and suffix. */
  predicate IsAnchorName(name: string) {
    |name| == 32 && name[..7] == PREFIX && Text.IsNumeral(name[7..27]) && name[27..] == SUFFIX
  }

  /** The glob anchor-*.json */
  predicate Globbed(name: string) {
    |name| >= 12 && name[..7] == PREFIX && name[|name| - 5..] == SUFFIX
  }

  function NameNumber(name: string): nat
    requires IsAnchorName(name)
  {
    Text.Number(name[7..27])
  }

  /** isinstance(value, int): a Python bool is an int. */
  function IntOf(v: Value): Option<int> {
    if v.Int? then Some(v.n) else if v.Bool? then Some(Numeric(v.b)) else None
  }

  /** parse_timestamp */
  function TimestampOf(v: Value, o: Options): Result<Timestamp, Failure> {
    if !v.Str? then Err(BadTimestamp)
    else
      var t := o.parse(v.s);
      if t.None? then Err(BadTimestamp) else Ok(t.value)
  }

  /** verify_next_anchor */
  function Next(entry: Entry, expected: nat, previous: State, o: Options): Result<State, Failure>
    requires IsAnchorName(entry.name)
  {
    var anchor := entry.anchor;
    if NameNumber(entry.name) != expected then Err(NameGap)
    else if !PyEqual(Get(anchor, "sequence"), Int(expected)) then Err(SequenceMismatch)
    else if !PyEqual(Get(anchor, "previousAnchorHash"), Str(previous.anchorHash)) then Err(Failure.PreviousMismatch)
    else
      var count := IntOf(Get(anchor, "recordCount"));
      if count.None? || count.value < previous.recordCount then Err(CountRegressed)
      else
        var at := TimestampOf(Get(anchor, "anchoredAt"), o);
        if at.Err? then Err(at.error)
        else if previous.anchoredAt.Some? && at.value.aware != previous.anchoredAt.value.aware then Err(TypeError)
        else if previous.anchoredAt.Some? && at.value.instant < previous.anchoredAt.value.instant then Err(TimestampRegressed)
        else if o.commit.Some? && !PyEqual(Get(anchor, "sourceCommit"), Str(o.commit.value)) then Err(CommitMismatch)
        else
          var verified := VerifyRecord(anchor, o);
          if verified.Err? then Err(verified.error) else Ok(State(expected, verified.value, count.value, Some(at.value)))
  }

  /** verify_checkpoint */
  predicate CheckpointMatches(checkpoint: Record, state: State) {
    PyEqual(Get(checkpoint, "sequence"), Int(state.sequence)) && PyEqual(Get(checkpoint, "anchorHash"), Str(state.anchorHash))
  }

  // ---------- the directory ----------

  const BY_NAME: (Entry, Entry) -> bool := (a: Entry, b: Entry) => Text.Less(a.name, b.name)

  ghost predicate DistinctNames(listing: seq<Entry>) {
    forall i, j | 0 <= i < j < |listing| :: listing[i].name != listing[j].name
  }

  function Insert(e: Entry, s: seq<Entry>): seq<Entry> {
    if s == [] || Text.Less(e.name, s[0].name) then [e] + s else [s[0]] + Insert(e, s[1..])
  }

  /** sorted(path for path in directory.iterdir() if the name matches) */
  function SortedAnchors(listing: seq<Entry>): (s: seq<Entry>)
  {
    if listing == [] then []
    else if IsAnchorName(listing[0].name) then Insert(listing[0], SortedAnchors(listing[1..]))
    else SortedAnchors(listing[1..])
  }

  predicate AllNamed(paths: seq<Entry>) { forall i | 0 <= i < |paths| :: IsAnchorName(paths[i].name) }

  /** The state after the first `count` sorted anchors, or the first failure. */
  function StateAfter(paths: seq<Entry>, count: nat, o: Options): Result<State, Failure>
    requires count <= |paths| && AllNamed(paths)
  {
    if count == 0 then Ok(INITIAL)
    else
      var previous := StateAfter(paths, count - 1, o);
      if previous.Err? then previous else Next(paths[count - 1], count, previous.value, o)
  }

  predicate Malformed(listing: seq<Entry>) {
    exists i | 0 <= i < |listing| :: Globbed(listing[i].name) && !IsAnchorName(listing[i].name)
  }

  function Verdict(listing: seq<Entry>, o: Options, checkpoint: Option<Record>): Result<nat, Failure> {
    if Malformed(listing) then Err(MalformedName)
    else
      var paths := SortedAnchors(listing);
      SortedAnchorsMatch(listing);
      if paths == [] then Err(NoAnchors)
      else
        var state := StateAfter(paths, |paths|, o);
        if state.Err? then Err(state.error)
        else if checkpoint.Some? && !CheckpointMatches(checkpoint.value, state.value) then Err(CheckpointMismatch)
        else Ok(|paths|)
  }

  lemma {:induction false} InsertMembers(e: Entry, s: seq<Entry>)
    ensures multiset(Insert(e, s)) == multiset(s) + multiset{e}
  {
    if s != [] && !Text.Less(e.name, s[0].name) {
      InsertMembers(e, s[1..]);
      assert s == [s[0]] + s[1..];
    }
  }

  lemma {:induction false} SortedAnchorsMatch(listing: seq<Entry>)
    ensures AllNamed(SortedAnchors(listing))
    ensures forall e :: e in SortedAnchors(listing) <==> e in listing && IsAnchorName(e.name)
  {
    if listing != [] {
      SortedAnchorsMatch(listing[1..]);
      var rest := SortedAnchors(listing[1..]);
      if IsAnchorName(listing[0].name) { InsertMembers(listing[0], rest); }
      var s := SortedAnchors(listing);
      forall e ensures e in s <==> e in listing && IsAnchorName(e.name) {
        assert e in s <==> e in multiset(s);
        assert e in rest <==> e in multiset(rest);
        assert e in listing <==> e == listing[0] || e in listing[1..];
      }
      forall i | 0 <= i < |s| ensures IsAnchorName(s[i].name) { assert s[i] in s; }
    }
  }

  /** verify_anchor_directory */
  method VerifyDirectory(listing: seq<Entry>, o: Options, checkpoint: Option<Record>) returns (r: Result<nat, Failure>)
    ensures r == Verdict(listing, o, checkpoint)
  {
    if Malformed(listing) { return Err(MalformedName); }
    var paths := SortedAnchors(listing);
    SortedAnchorsMatch(listing);
    if paths == [] { return Err(NoAnchors); }
    var state := VerifyPaths(paths, o);
    if state.Err? { return Err(state.error); }
    if checkpoint.Some? && !CheckpointMatches(checkpoint.value, state.value) { return Err(CheckpointMismatch); }
    return Ok(|paths|);
  }

  /** The loop of verify_anchor_directory over the sorted paths. */
  method VerifyPaths(paths: seq<Entry>, o: Options) returns (r: Result<State, Failure>)
    requires AllNamed(paths)
    ensures r == StateAfter(paths, |paths|, o)
  {
    var state, expected := INITIAL, 1;
    while expected <= |paths|
      invariant 1 <= expected <= |paths| + 1
      invariant StateAfter(paths, expected - 1, o) == Ok(state)
    {
      var next := Next(paths[expected - 1], expected, state, o);
      if next.Err? {
        FailurePersists(paths, expected, |paths|, o);
        return next;
      }
      state, expected := next.value, expected + 1;
    }
    return Ok(state);
  }

  lemma {:induction false} FailurePersists(paths: seq<Entry>, i: nat, n: nat, o: Options)
    requires i <= n <= |paths| && AllNamed(paths)
    requires StateAfter(paths, i, o).Err?
    ensures StateAfter(paths, n, o) == StateAfter(paths, i, o)
  {
    if i < n { FailurePersists(paths, i, n - 1, o); }
  }

  // ---------- listing order ----------

  lemma {:induction false} InsertAscending(e: Entry, s: seq<Entry>)
    requires Ordering.Ascending(s, BY_NAME) && forall x | x in s :: x.name != e.name
    ensures Ordering.Ascending(Insert(e, s), BY_NAME)
  {
    Text.TextOrder();
    if s == [] {
    } else if Text.Less(e.name, s[0].name) {
      forall j | 0 <= j < |s| ensures BY_NAME(e, s[j]) {
        assert j > 0 ==> BY_NAME(s[0], s[j]);
      }
    } else {
      var rest := Insert(e, s[1..]);
      assert s[0] in s && BY_NAME(s[0], e);
      InsertAscending(e, s[1..]);
      InsertMembers(e, s[1..]);
      forall j | 0 <= j < |rest| ensures BY_NAME(s[0], rest[j]) {
        assert rest[j] in multiset(rest);
        if rest[j] != e {
          assert rest[j] in s[1..];
          var k :| 0 <= k < |s[1..]| && s[1..][k] == rest[j];
          assert BY_NAME(s[0], s[k + 1]);
        }
      }
    }
  }

  lemma {:induction false} SortedAscending(listing: seq<Entry>)
    requires DistinctNames(listing)
    ensures Ordering.Ascending(SortedAnchors(listing), BY_NAME)
  {
    if listing != [] {
      SortedAscending(listing[1..]);
      SortedAnchorsMatch(listing[1..]);
      if IsAnchorName(listing[0].name) {
        forall x | x in SortedAnchors(listing[1..]) ensures x.name != listing[0].name {
          var k :| 0 <= k < |listing[1..]| && listing[1..][k] == x;
          assert x == listing[k + 1];
        }
        InsertAscending(listing[0], SortedAnchors(listing[1..]));
      }
    }
  }

  lemma NameOrder()
    ensures Ordering.WeakOrder(BY_NAME)
  {
    Text.TextOrder();
    forall a: Entry, b: Entry, c: Entry | BY_NAME(a, c) ensures BY_NAME(a, b) || BY_NAME(b, c) {
      assert Text.Less(a.name, b.name) || Text.Less(b.name, c.name);
    }
  }

  /** The verdict does not depend on the order in which the directory lists its entries. */
  lemma ListingOrderIrrelevant(a: seq<Entry>, b: seq<Entry>, o: Options, checkpoint: Option<Record>)
    requires DistinctNames(a) && DistinctNames(b) && (forall e :: e in a <==> e in b)
    ensures Verdict(a, o, checkpoint) == Verdict(b, o, checkpoint)
  {
    SortedAscending(a);
    SortedAscending(b);
    SortedAnchorsMatch(a);
    SortedAnchorsMatch(b);
    NameOrder();
    var s, t := SortedAnchors(a), SortedAnchors(b);
    forall e ensures e in Ordering.ToSet(s) <==> e in Ordering.ToSet(t) { }
    Ordering.AscendingUnique(s, t, BY_NAME);
    MalformedAgrees(a, b);
    MalformedAgrees(b, a);
  }

  lemma MalformedAgrees(a: seq<Entry>, b: seq<Entry>)
    requires forall e | e in a :: e in b
    ensures Malformed(a) ==> Malformed(b)
  {
    if Malformed(a) {
      var i :| 0 <= i < |a| && Globbed(a[i].name) && !IsAnchorName(a[i].name);
      assert a[i] in b;
      var j :| 0 <= j < |b| && b[j] == a[i];
      assert Globbed(b[j].name) && !IsAnchorName(b[j].name);
    }
  }

  /** On anchor names, sorting by text is sorting by number. */
  lemma NamesSortNumerically(a: string, b: string)
    requires IsAnchorName(a) && IsAnchorName(b)
    ensures Text.Less(a, b) <==> NameNumber(a) < NameNumber(b)
    ensures a == b <==> NameNumber(a) == NameNumber(b)
  {
    var x, y := a[7..27], b[7..27];
    assert a == PREFIX + (x + SUFFIX) && b == PREFIX + (y + SUFFIX);
    Text.LessPrefix(PREFIX, x + SUFFIX, y + SUFFIX);
    Text.LessSuffix(x, y, SUFFIX);
    Text.NumeralOrder(x, y);
  }

  // ---------- what acceptance means ----------

  predicate NotLater(s: Timestamp, t: Timestamp) { s.aware == t.aware && s.instant <= t.instant }

  /** The anchor carries this digest and the keyed digest of it. */
  ghost predicate SignedAs(anchor: Record, anchorHash: string, o: Options) {
    && ShownOrEmpty(anchor, "anchorHash") == anchorHash && IsAscii(anchorHash)
    && ShownOrEmpty(anchor, "signature") == o.sign(anchorHash) && IsAscii(o.sign(anchorHash))
  }

  /** What passing the tests of one anchor says about it, the state before and the state after. */
  ghost predicate Step(anchor: Record, expected: nat, s: State, t: State, o: Options) {
    && t.sequence == expected && SignedAs(anchor, t.anchorHash, o)
    && (o.commit.Some? ==> Get(anchor, "sourceCommit") == Str(o.commit.value))
    && PyEqual(Get(anchor, "sequence"), Int(expected))
    && Get(anchor, "previousAnchorHash") == Str(s.anchorHash)
    && PayloadText(anchor).Ok? && t.anchorHash == o.digest(PayloadText(anchor).value)
    && IntOf(Get(anchor, "recordCount")) == Some(t.recordCount) && s.recordCount <= t.recordCount
    && t.anchoredAt.Some? && TimestampOf(Get(anchor, "anchoredAt"), o) == Ok(t.anchoredAt.value)
    && (s.anchoredAt.Some? ==> NotLater(s.anchoredAt.value, t.anchoredAt.value))
  }

  /** An anchor passes into a state exactly when its name has the number and the step holds. */
  lemma NextExact(entry: Entry, expected: nat, s: State, t: State, o: Options)
    requires IsAnchorName(entry.name)
    ensures Next(entry, expected, s, o) == Ok(t) <==> NameNumber(entry.name) == expected && Step(entry.anchor, expected, s, t, o)
  {
  }

  /** The states an accepted chain of anchors runs through. */
  ghost predicate Chain(paths: seq<Entry>, states: seq<State>, o: Options) {
    && |states| == |paths| + 1 && states[0] == INITIAL
    && forall i: nat | i < |paths| :: Step(paths[i].anchor, i + 1, states[i], states[i + 1], o)
  }

  function States(paths: seq<Entry>, n: nat, o: Options): (states: seq<State>)
    requires n <= |paths| && AllNamed(paths) && forall i: nat | i <= n :: StateAfter(paths, i, o).Ok?
    ensures |states| == n + 1 && forall i: nat | i <= n :: StateAfter(paths, i, o) == Ok(states[i])
  {
    seq(n + 1, i requires 0 <= i <= n => StateAfter(paths, i, o).value)
  }

  lemma {:induction false} StatesOk(paths: seq<Entry>, i: nat, n: nat, o: Options)
    requires i <= n <= |paths| && AllNamed(paths) && StateAfter(paths, n, o).Ok?
    ensures StateAfter(paths, i, o).Ok?
  {
    if i < n { StatesOk(paths, i, n - 1, o); }
  }

  lemma ChainOf(paths: seq<Entry>, o: Options) returns (states: seq<State>)
    requires AllNamed(paths) && StateAfter(paths, |paths|, o).Ok?
    ensures Chain(paths, states, o) && StateAfter(paths, |paths|, o) == Ok(states[|paths|])
    ensures forall i: nat | i < |paths| :: NameNumber(paths[i].name) == i + 1
  {
    forall i: nat | i <= |paths| ensures StateAfter(paths, i, o).Ok? { StatesOk(paths, i, |paths|, o); }
    states := States(paths, |paths|, o);
    forall i: nat | i < |paths|
      ensures Step(paths[i].anchor, i + 1, states[i], states[i + 1], o) && NameNumber(paths[i].name) == i + 1
    {
      StateStep(paths, i, states[i], states[i + 1], o);
    }
    assert states[0] == INITIAL;
  }

  lemma StateStep(paths: seq<Entry>, i: nat, s: State, t: State, o: Options)
    requires i < |paths| && AllNamed(paths) && StateAfter(paths, i, o) == Ok(s) && StateAfter(paths, i + 1, o) == Ok(t)
    ensures Step(paths[i].anchor, i + 1, s, t, o) && NameNumber(paths[i].name) == i + 1
  {
    NextExact(paths[i], i + 1, s, t, o);
  }

  lemma {:induction false} ChainMonotone(paths: seq<Entry>, states: seq<State>, i: nat, j: nat, o: Options)
    requires Chain(paths, states, o) && 1 <= i <= j <= |paths|
    ensures states[i].recordCount <= states[j].recordCount
    ensures states[i].anchoredAt.Some? && states[j].anchoredAt.Some?
    ensures NotLater(states[i].anchoredAt.value, states[j].anchoredAt.value)
  {
    assert Step(paths[j - 1].anchor, j, states[j - 1], states[j], o);
    if i < j { ChainMonotone(paths, states, i, j - 1, o); }
  }

  /** What an accepted directory shows at position i: number, record count and time. */
  ghost predicate NumberedAt(paths: seq<Entry>, i: nat, o: Options) {
    && i < |paths| && IsAnchorName(paths[i].name) && NameNumber(paths[i].name) == i + 1
    && PyEqual(Get(paths[i].anchor, "sequence"), Int(i + 1))
    && IntOf(Get(paths[i].anchor, "recordCount")).Some?
    && TimestampOf(Get(paths[i].anchor, "anchoredAt"), o).Ok?
  }

  /** The sorted anchors of an acceptable directory with the states they run through: no malformed
      name, at least one anchor, names numbered from 1, every step in order, and a checkpoint that
      names the last number and digest. */
  ghost predicate AcceptedAs(listing: seq<Entry>, o: Options, checkpoint: Option<Record>, paths: seq<Entry>, states: seq<State>) {
    && !Malformed(listing) && paths == SortedAnchors(listing) && paths != []
    && AllNamed(paths) && Chain(paths, states, o)
    && (forall i: nat | i < |paths| :: NameNumber(paths[i].name) == i + 1)
    && (checkpoint.Some? ==> CheckpointMatches(checkpoint.value, states[|paths|]))
  }

  lemma {:induction false} ChainRuns(paths: seq<Entry>, states: seq<State>, k: nat, o: Options)
    requires AllNamed(paths) && Chain(paths, states, o) && k <= |paths|
    requires forall i: nat | i < |paths| :: NameNumber(paths[i].name) == i + 1
    ensures StateAfter(paths, k, o) == Ok(states[k])
  {
    if k > 0 {
      ChainRuns(paths, states, k - 1, o);
      assert Step(paths[k - 1].anchor, k, states[k - 1], states[k], o);
      NextExact(paths[k - 1], k, states[k - 1], states[k], o);
    }
  }

  /** A directory is accepted, with its number of anchors, exactly when its sorted anchors form a
      signed chain numbered from 1 that the checkpoint, if there is one, closes. */
  lemma AcceptanceExact(listing: seq<Entry>, o: Options, checkpoint: Option<Record>, n: nat)
    ensures Verdict(listing, o, checkpoint) == Ok(n) <==>
      n == |SortedAnchors(listing)| && exists states :: AcceptedAs(listing, o, checkpoint, SortedAnchors(listing), states)
  {
    var paths := SortedAnchors(listing);
    SortedAnchorsMatch(listing);
    if Verdict(listing, o, checkpoint) == Ok(n) {
      var states := AcceptedIsChain(listing, o, checkpoint);
    }
    forall states | AcceptedAs(listing, o, checkpoint, paths, states) ensures Verdict(listing, o, checkpoint) == Ok(|paths|) {
      ChainRuns(paths, states, |paths|, o);
    }
  }

  /** An accepted directory runs through a chain of states. */
  lemma AcceptedIsChain(listing: seq<Entry>, o: Options, checkpoint: Option<Record>) returns (states: seq<State>)
    requires Verdict(listing, o, checkpoint).Ok?
    ensures AcceptedAs(listing, o, checkpoint, SortedAnchors(listing), states)
  {
    var paths := SortedAnchors(listing);
    SortedAnchorsMatch(listing);
    states := ChainOf(paths, o);
  }

  /** An accepted directory is numbered 1..n without gaps, and record counts and times never
      decrease between any two of its anchors. */
  lemma AcceptedShape(listing: seq<Entry>, o: Options, checkpoint: Option<Record>, i: nat, j: nat)
    requires Verdict(listing, o, checkpoint).Ok? && i <= j < Verdict(listing, o, checkpoint).value
    ensures |SortedAnchors(listing)| == Verdict(listing, o, checkpoint).value
    ensures NumberedAt(SortedAnchors(listing), i, o) && NumberedAt(SortedAnchors(listing), j, o)
    ensures var x, y := SortedAnchors(listing)[i].anchor, SortedAnchors(listing)[j].anchor;
      && IntOf(Get(x, "recordCount")).value <= IntOf(Get(y, "recordCount")).value
      && NotLater(TimestampOf(Get(x, "anchoredAt"), o).value, TimestampOf(Get(y, "anchoredAt"), o).value)
  {
    var states := AcceptedIsChain(listing, o, checkpoint);
    ShapeOfChain(SortedAnchors(listing), states, i, j, o);
  }

  lemma ShapeOfChain(paths: seq<Entry>, states: seq<State>, i: nat, j: nat, o: Options)
    requires Chain(paths, states, o) && AllNamed(paths) && i <= j < |paths|
    requires forall k: nat | k < |paths| :: NameNumber(paths[k].name) == k + 1
    ensures NumberedAt(paths, i, o) && NumberedAt(paths, j, o)
    ensures var x, y := paths[i].anchor, paths[j].anchor;
      && IntOf(Get(x, "recordCount")).value <= IntOf(Get(y, "recordCount")).value
      && NotLater(TimestampOf(Get(x, "anchoredAt"), o).value, TimestampOf(Get(y, "anchoredAt"), o).value)
  {
    ChainMonotone(paths, states, i + 1, j + 1, o);
    assert Step(paths[i].anchor, i + 1, states[i], states[i + 1], o);
    assert Step(paths[j].anchor, j + 1, states[j], states[j + 1], o);
  }

  // ---------- commitment ----------

  /** Two anchors of the directories have different payload texts and one digest. */
  ghost predicate Collides(a: seq<Entry>, b: seq<Entry>, o: Options) {
    exists i, j :: 0 <= i < |a| && 0 <= j < |b|
      && PayloadText(a[i].anchor).Ok? && PayloadText(b[j].anchor).Ok?
      && PayloadText(a[i].anchor) != PayloadText(b[j].anchor)
      && o.digest(PayloadText(a[i].anchor).value) == o.digest(PayloadText(b[j].anchor).value)
  }

  lemma FrontOf(x: string, x': string)
    ensures (x + "|" + x')[0] == if x == "" then '|' else x[0]
    ensures (x + "|" + x')[1..] == if x == "" then x' else x[1..] + "|" + x'
  {
  }

  /** Texts without the separator are determined by their concatenation behind a separator. */
  lemma {:induction false} CutAtSeparator(x: string, x': string, y: string, y': string)
    requires '|' !in x && '|' !in y && x + "|" + x' == y + "|" + y'
    ensures x == y && x' == y'
  {
    FrontOf(x, x');
    FrontOf(y, y');
    if x != "" && y != "" { CutAtSeparator(x[1..], x', y[1..], y'); }
  }

  lemma NumeralText(n: nat)
    ensures '|' !in Text.Decimal(n) && Text.Decimal(n) != "True"
  {
    assert forall i | 0 <= i < |Text.Decimal(n)| :: Text.IsDigit(Text.Decimal(n)[i]);
    assert !Text.IsDigit("True"[0]);
  }

  /** A passing sequence field shows a separator-free text that determines the number. */
  lemma SequenceText(v: Value, w: Value, m: nat, n: nat)
    requires PyEqual(v, Int(m)) && PyEqual(w, Int(n))
    ensures '|' !in Shown(v) && '|' !in Shown(w)
    ensures Shown(v) == Shown(w) ==> m == n
  {
    NumeralText(m);
    NumeralText(n);
    assert v.Bool? ==> m == Numeric(v.b);
    assert w.Bool? ==> n == Numeric(w.b);
    assert "True"[0] != "False"[0];
    FalseIsNoNumeral(m);
    FalseIsNoNumeral(n);
    if v.Int? && w.Int? && Text.Decimal(m) == Text.Decimal(n) { Text.DecimalInjective(m, n); }
  }

  lemma FalseIsNoNumeral(n: nat)
    ensures Text.Decimal(n) != "False"
  {
    assert !Text.IsDigit("False"[0]);
  }

  /** The payload text begins with the shown sequence and the previous anchor's digest. */
  lemma PayloadFront(anchor: Record) returns (tail: string)
    requires PayloadText(anchor).Ok?
    ensures "sequence" in anchor && "previousAnchorHash" in anchor
    ensures PayloadText(anchor).value == Shown(anchor["sequence"]) + "|" + (Shown(anchor["previousAnchorHash"]) + "|" + tail)
  {
    var rest := PAYLOAD_FIELDS[1..];
    assert rest[0] == "previousAnchorHash" && Join(anchor, rest).Ok?;
    assert Join(anchor, rest[1..]).Ok?;
    tail := Join(anchor, rest[1..]).value;
  }

  /** The digest an accepted anchor names as its predecessor's holds no separator. */
  lemma PreviousIsDigest(paths: seq<Entry>, states: seq<State>, i: nat, o: Options)
    requires Chain(paths, states, o) && i < |paths| && HexDigest(o.digest)
    ensures '|' !in states[i].anchorHash
  {
    if i > 0 {
      assert Step(paths[i - 1].anchor, i, states[i - 1], states[i], o);
    } else {
      assert forall k | 0 <= k < |GENESIS| :: Text.IsDigit(GENESIS[k]);
    }
  }

  /** Equal payload texts agree on the number and on the predecessor's digest. */
  lemma SameFront(x: Record, y: Record, m: nat, n: nat, p: string, q: string)
    requires PayloadText(x).Ok? && PayloadText(x) == PayloadText(y)
    requires PyEqual(Get(x, "sequence"), Int(m)) && PyEqual(Get(y, "sequence"), Int(n))
    requires Get(x, "previousAnchorHash") == Str(p) && Get(y, "previousAnchorHash") == Str(q)
    requires '|' !in p && '|' !in q
    ensures m == n && p == q
  {
    var t := PayloadFront(x);
    var u := PayloadFront(y);
    SequenceText(x["sequence"], y["sequence"], m, n);
    CutAtSeparator(Shown(x["sequence"]), p + "|" + t, Shown(y["sequence"]), q + "|" + u);
    CutAtSeparator(p, t, q, u);
  }

  lemma CollisionAt(a: seq<Entry>, i: nat, b: seq<Entry>, j: nat, o: Options)
    requires i < |a| && j < |b| && PayloadText(a[i].anchor).Ok? && PayloadText(b[j].anchor).Ok?
    requires PayloadText(a[i].anchor) != PayloadText(b[j].anchor)
    requires o.digest(PayloadText(a[i].anchor).value) == o.digest(PayloadText(b[j].anchor).value)
    ensures Collides(a, b, o)
  {
  }

  /** Equal payloads at positions i and j put both anchors at the same number behind the same digest. */
  lemma StepBack(a: seq<Entry>, sa: seq<State>, i: nat, b: seq<Entry>, sb: seq<State>, j: nat, o: Options)
    requires HexDigest(o.digest) && Chain(a, sa, o) && Chain(b, sb, o) && i < |a| && j < |b|
    requires PayloadText(a[i].anchor) == PayloadText(b[j].anchor)
    ensures i == j && sa[i].anchorHash == sb[j].anchorHash
  {
    assert Step(a[i].anchor, i + 1, sa[i], sa[i + 1], o);
    assert Step(b[j].anchor, j + 1, sb[j], sb[j + 1], o);
    PreviousIsDigest(a, sa, i, o);
    PreviousIsDigest(b, sb, j, o);
    SameFront(a[i].anchor, b[j].anchor, i + 1, j + 1, sa[i].anchorHash, sb[j].anchorHash);
  }

  /** If the chains reach one digest at i + 1, all payload texts up to i agree, or two collide. */
  lemma {:induction false} HistoryAgrees(a: seq<Entry>, sa: seq<State>, b: seq<Entry>, sb: seq<State>, i: nat, k: nat, o: Options)
    requires HexDigest(o.digest) && Chain(a, sa, o) && Chain(b, sb, o) && k <= i < |a| && i < |b|
    requires sa[i + 1].anchorHash == sb[i + 1].anchorHash
    ensures Collides(a, b, o) || PayloadText(a[k].anchor) == PayloadText(b[k].anchor)
  {
    assert Step(a[i].anchor, i + 1, sa[i], sa[i + 1], o);
    assert Step(b[i].anchor, i + 1, sb[i], sb[i + 1], o);
    if PayloadText(a[i].anchor) != PayloadText(b[i].anchor) {
      CollisionAt(a, i, b, i, o);
    } else if k < i {
      StepBack(a, sa, i, b, sb, i, o);
      HistoryAgrees(a, sa, b, sb, i - 1, k, o);
    }
  }

  /** Two accepted directories whose last anchors have one digest have the same number of anchors
      and the same signed payload text at every position, or two of their payloads collide. */
  lemma LastDigestCommits(x: seq<Entry>, y: seq<Entry>, o: Options, c: Option<Record>, d: Option<Record>,
                          a: seq<Entry>, sa: seq<State>, b: seq<Entry>, sb: seq<State>, k: nat)
    requires HexDigest(o.digest) && AcceptedAs(x, o, c, a, sa) && AcceptedAs(y, o, d, b, sb)
    requires sa[|a|].anchorHash == sb[|b|].anchorHash
    ensures Collides(a, b, o)
      || (|a| == |b| && (k < |a| ==> PayloadText(a[k].anchor) == PayloadText(b[k].anchor)))
  {
    var m, n := |a| - 1, |b| - 1;
    assert Step(a[m].anchor, m + 1, sa[m], sa[m + 1], o);
    assert Step(b[n].anchor, n + 1, sb[n], sb[n + 1], o);
    if PayloadText(a[m].anchor) != PayloadText(b[n].anchor) {
      CollisionAt(a, m, b, n, o);
    } else {
      StepBack(a, sa, m, b, sb, n, o);
      if k < |a| { HistoryAgrees(a, sa, b, sb, m, k, o); }
    }
  }

  ghost predicate SeparatorFree(anchor: Record) {
    forall i | 0 <= i < |PAYLOAD_FIELDS| :: PAYLOAD_FIELDS[i] in anchor ==> '|' !in Shown(anchor[PAYLOAD_FIELDS[i]])
  }

  lemma {:induction false} JoinInjective(x: Record, y: Record, fields: seq<string>, f: string)
    requires Join(x, fields).Ok? && Join(x, fields) == Join(y, fields) && f in fields
    requires forall g | g in fields :: (g in x ==> '|' !in Shown(x[g])) && (g in y ==> '|' !in Shown(y[g]))
    ensures f in x && f in y && Shown(x[f]) == Shown(y[f])
  {
    if |fields| == 1 {
      assert f == fields[0];
    } else {
      var rest := fields[1..];
      assert fields[0] in fields && forall g | g in rest :: g in fields;
      CutAtSeparator(Shown(x[fields[0]]), Join(x, rest).value, Shown(y[fields[0]]), Join(y, rest).value);
      if f != fields[0] { JoinInjective(x, y, rest, f); }
    }
  }

  /** When no field contains the separator, equal payload texts are equal in all six fields. */
  lemma PayloadDeterminesFields(x: Record, y: Record, i: nat)
    requires i < |PAYLOAD_FIELDS| && SeparatorFree(x) && SeparatorFree(y)
    requires PayloadText(x).Ok? && PayloadText(x) == PayloadText(y)
    ensures var f := PAYLOAD_FIELDS[i]; f in x && f in y && Shown(x[f]) == Shown(y[f])
  {
    forall g | g in PAYLOAD_FIELDS ensures (g in x ==> '|' !in Shown(x[g])) && (g in y ==> '|' !in Shown(y[g])) {
      var j :| 0 <= j < |PAYLOAD_FIELDS| && PAYLOAD_FIELDS[j] == g;
    }
    JoinInjective(x, y, PAYLOAD_FIELDS, PAYLOAD_FIELDS[i]);
  }
}
