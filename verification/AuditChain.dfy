/** The hash-chained audit log. The digest of a record's canonical JSON is a parameter: every
    law here holds for every digest function, and names a digest collision where it needs one. */
module AuditChain {
  import opened Wrappers
  import Text

  /** A JSON value. Floats, lists and objects are opaque: their canonical JSON and their str(). */
  datatype Value = Null | Bool(b: bool) | Int(n: int) | Str(s: string) | Other(json: string, shown: string)

  type Record = map<string, Value>

  /** record.get(field): a missing field reads as None. */
  function Get(record: Record, field: string): Value {
    if field in record then record[field] else Null
  }

  function Numeric(b: bool): int { if b then 1 else 0 }

  /** Python's ==, under which True equals 1 and False equals 0. */
  predicate PyEqual(a: Value, b: Value) {
    if a.Bool? && b.Int? then b.n == Numeric(a.b)
    else if a.Int? && b.Bool? then a.n == Numeric(b.b)
    else a == b
  }

  const GENESIS: string := Text.Zeros(64)

  /** What is hashed: the record without its own hash. */
  function Payload(record: Record): Record { record - {"recordHash"} }

  datatype Failure = SequenceGap | PreviousMismatch | HashMismatch

  /** The three tests of one record, in order. */
  function Check(record: Record, expected: nat, previous: string, hash: Record -> string): Option<Failure> {
    if !PyEqual(Get(record, "sequence"), Int(expected)) then Some(SequenceGap)
    else if !PyEqual(Get(record, "previousHash"), Str(previous)) then Some(PreviousMismatch)
    else if !PyEqual(Get(record, "recordHash"), Str(hash(Payload(record)))) then Some(HashMismatch)
    else None
  }

  /** The hash record i must name as its predecessor's. */
  function Previous(records: seq<Record>, i: nat, hash: Record -> string): string
    requires i <= |records|
  {
    if i == 0 then GENESIS else hash(Payload(records[i - 1]))
  }

  predicate Linked(records: seq<Record>, i: nat, hash: Record -> string)
    requires i < |records|
  {
    Check(records[i], i + 1, Previous(records, i, hash), hash).None?
  }

  ghost predicate Accepted(records: seq<Record>, hash: Record -> string) {
    forall i: nat | i < |records| :: Linked(records, i, hash)
  }

  /** The recordHash of the last record, or the genesis hash of an empty log. */
  function Head(records: seq<Record>): Value {
    if records == [] then Str(GENESIS) else Get(records[|records| - 1], "recordHash")
  }

  /** Some record is the first that fails, and this is the first test it fails. */
  ghost predicate FirstFailure(records: seq<Record>, failure: Failure, hash: Record -> string) {
    exists i: nat :: (i < |records| && Check(records[i], i + 1, Previous(records, i, hash), hash) == Some(failure)
      && forall j: nat | j < i :: Linked(records, j, hash))
  }

  /** verify_records: accepts exactly the linked logs, and otherwise reports the first failing
      record's first failing test. */
  method VerifyRecords(records: seq<Record>, hash: Record -> string) returns (r: Result<nat, Failure>)
    ensures r.Ok? <==> Accepted(records, hash)
    ensures r.Ok? ==> r.value == |records|
    ensures r.Err? ==> FirstFailure(records, r.error, hash)
  {
    var previous, expected := GENESIS, 1;
    while expected <= |records|
      invariant 1 <= expected <= |records| + 1
      invariant previous == Previous(records, expected - 1, hash)
      invariant forall j: nat | j < expected - 1 :: Linked(records, j, hash)
    {
      var record := records[expected - 1];
      var failure := Check(record, expected, previous, hash);
      if failure.Some? {
        assert !Linked(records, expected - 1, hash);
        return Err(failure.value);
      }
      previous := record["recordHash"].s;
      expected := expected + 1;
    }
    return Ok(|records|);
  }

  // ---------- commitment ----------

  /** Two hashed payloads of the logs differ and have one digest. */
  ghost predicate Collides(a: seq<Record>, b: seq<Record>, hash: Record -> string) {
    exists i, j :: 0 <= i < |a| && 0 <= j < |b|
      && Payload(a[i]) != Payload(b[j]) && hash(Payload(a[i])) == hash(Payload(b[j]))
  }

  lemma LinkedFields(records: seq<Record>, i: nat, hash: Record -> string)
    requires i < |records| && Linked(records, i, hash)
    ensures Get(records[i], "recordHash") == Str(hash(Payload(records[i])))
    ensures Get(records[i], "previousHash") == Str(Previous(records, i, hash))
    ensures "recordHash" in records[i] && records[i] == Payload(records[i])["recordHash" := Str(hash(Payload(records[i])))]
    ensures "sequence" in Payload(records[i]) && "previousHash" in Payload(records[i])
  {
    var p := Payload(records[i]);
    assert forall k :: k in records[i] <==> k in p || k == "recordHash";
    DistinctNames();
  }

  lemma DistinctNames()
    ensures "sequence" != "recordHash" && "previousHash" != "recordHash"
  {
    assert "sequence"[0] != "recordHash"[0] && "previousHash"[0] != "recordHash"[0];
  }

  lemma SamePayload(a: seq<Record>, i: nat, b: seq<Record>, j: nat, hash: Record -> string)
    requires i < |a| && j < |b| && Linked(a, i, hash) && Linked(b, j, hash)
    requires Payload(a[i]) == Payload(b[j])
    ensures a[i] == b[j] && i == j && Previous(a, i, hash) == Previous(b, j, hash)
  {
    LinkedFields(a, i, hash);
    LinkedFields(b, j, hash);
    assert PyEqual(Get(a[i], "sequence"), Int(i + 1)) && PyEqual(Get(b[j], "sequence"), Int(j + 1));
  }

  /** If record i of both logs has one hash, everything up to i is identical, or a collision shows. */
  lemma {:induction false} HistoryAgrees(a: seq<Record>, b: seq<Record>, i: nat, hash: Record -> string)
    requires Accepted(a, hash) && Accepted(b, hash) && i < |a| && i < |b|
    requires hash(Payload(a[i])) == hash(Payload(b[i]))
    ensures Collides(a, b, hash) || a[..i + 1] == b[..i + 1]
  {
    assert Linked(a, i, hash) && Linked(b, i, hash);
    if Payload(a[i]) == Payload(b[i]) {
      SamePayload(a, i, b, i, hash);
      assert a[..i + 1] == a[..i] + [a[i]] && b[..i + 1] == b[..i] + [b[i]];
      if i > 0 { HistoryAgrees(a, b, i - 1, hash); }
    }
  }

  /** Two non-empty accepted logs that end in the same recordHash are identical record by record,
      or two of their payloads collide. */
  lemma HeadCommits(a: seq<Record>, b: seq<Record>, hash: Record -> string)
    requires Accepted(a, hash) && Accepted(b, hash) && a != [] && b != []
    requires Head(a) == Head(b)
    ensures a == b || Collides(a, b, hash)
  {
    var m, n := |a| - 1, |b| - 1;
    assert Linked(a, m, hash) && Linked(b, n, hash);
    LinkedFields(a, m, hash);
    LinkedFields(b, n, hash);
    if Payload(a[m]) == Payload(b[n]) {
      SamePayload(a, m, b, n, hash);
      HistoryAgrees(a, b, m, hash);
      assert a[..m + 1] == a && b[..m + 1] == b;
    }
  }

  // ---------- what equality tests say ----------

  /** A field equals a number: as that integer, or as a Python bool for 1 and 0. */
  lemma EqualsNumber(v: Value, n: int)
    ensures PyEqual(v, Int(n)) <==> v == Int(n) || (v == Bool(true) && n == 1) || (v == Bool(false) && n == 0)
  {
  }

  lemma EqualsText(v: Value, s: string)
    ensures PyEqual(v, Str(s)) <==> v == Str(s)
  {
  }

  lemma GenesisIsZeros()
    ensures |GENESIS| == 64 && forall i | 0 <= i < 64 :: GENESIS[i] == '0'
  {
  }


  // ---------- what acceptance says of one more record ----------

  /** A log with one more record is accepted exactly when the log is, and the record has the next
      number, the hash of the record before it (64 zeros at first) and its own digest. */
  lemma ExtendsExactly(log: seq<Record>, r: Record, hash: Record -> string)
    ensures Accepted([], hash)
    ensures Accepted(log + [r], hash) <==>
      && Accepted(log, hash)
      && (Get(r, "sequence") == Int(|log| + 1) || (Get(r, "sequence") == Bool(true) && log == []))
      && Get(r, "previousHash") == (if log == [] then Str(GENESIS) else Get(log[|log| - 1], "recordHash"))
      && Get(r, "recordHash") == Str(hash(r - {"recordHash"}))
  {
    var all, n := log + [r], |log|;
    forall i: nat | i < n ensures Linked(all, i, hash) == Linked(log, i, hash) {
      assert all[i] == log[i] && (i > 0 ==> all[i - 1] == log[i - 1]);
    }
    assert all[n] == r && (n > 0 ==> all[n - 1] == log[n - 1]);
    if Accepted(log, hash) && n > 0 {
      assert Linked(log, n - 1, hash);
      LinkedFields(log, n - 1, hash);
    }
    assert Accepted(all, hash) <==> Accepted(log, hash) && Linked(all, n, hash);
  }

  /** A record fails by its first failing test: the number, then the predecessor, then the digest. */
  lemma FailsBy(r: Record, n: nat, previous: string, hash: Record -> string)
    ensures var numbered := Get(r, "sequence") == Int(n) || (Get(r, "sequence") == Bool(true) && n == 1)
                            || (Get(r, "sequence") == Bool(false) && n == 0);
      var linked := Get(r, "previousHash") == Str(previous);
      && (Check(r, n, previous, hash) == Some(SequenceGap) <==> !numbered)
      && (Check(r, n, previous, hash) == Some(PreviousMismatch) <==> numbered && !linked)
      && (Check(r, n, previous, hash) == Some(HashMismatch) <==>
          numbered && linked && Get(r, "recordHash") != Str(hash(r - {"recordHash"})))
  {
  }

  lemma BeginningAccepted(records: seq<Record>, i: nat, hash: Record -> string)
    requires i < |records|
    ensures Accepted(records[..i], hash) <==> forall j: nat | j < i :: Linked(records, j, hash)
  {
    var front := records[..i];
    forall j: nat | j < i ensures Linked(front, j, hash) == Linked(records, j, hash) {
      assert j > 0 ==> front[j - 1] == records[j - 1];
    }
  }

  /** The record is the first that fails, and this is its failure. */
  ghost predicate FailsAt(records: seq<Record>, i: nat, failure: Failure, hash: Record -> string) {
    i < |records| && Accepted(records[..i], hash)
    && Check(records[i], i + 1, Previous(records, i, hash), hash) == Some(failure)
  }

  /** A log fails at the record behind its longest accepted beginning. */
  lemma FailureIs(records: seq<Record>, failure: Failure, hash: Record -> string)
    ensures FirstFailure(records, failure, hash) <==> exists i :: FailsAt(records, i, failure, hash)
  {
    if FirstFailure(records, failure, hash) {
      var i: nat :| i < |records| && Check(records[i], i + 1, Previous(records, i, hash), hash) == Some(failure)
        && forall j: nat | j < i :: Linked(records, j, hash);
      BeginningAccepted(records, i, hash);
      assert FailsAt(records, i, failure, hash);
    }
    if i :| FailsAt(records, i, failure, hash) {
      BeginningAccepted(records, i, hash);
    }
  }

  /** It fails in one place and one way. */
  lemma FailureUnique(records: seq<Record>, i: nat, f: Failure, k: nat, g: Failure, hash: Record -> string)
    requires FailsAt(records, i, f, hash) && FailsAt(records, k, g, hash)
    ensures i == k && f == g
  {
    BeginningAccepted(records, i, hash);
    BeginningAccepted(records, k, hash);
    assert !Linked(records, i, hash) && !Linked(records, k, hash);
  }

  /** With an injective digest there is no collision, and the last hash identifies the whole log. */
  lemma InjectiveHead(a: seq<Record>, b: seq<Record>, hash: Record -> string)
    requires forall p, q | hash(p) == hash(q) :: p == q
    requires Accepted(a, hash) && Accepted(b, hash) && a != [] && b != []
    requires Get(a[|a| - 1], "recordHash") == Get(b[|b| - 1], "recordHash")
    ensures a == b
  {
    HeadCommits(a, b, hash);
  }
}
