/** The recovery check: a restored audit log against its source export and a signed anchor. */
module AuditRecovery {
  import opened Wrappers
  import opened AuditChain
  import AuditAnchors

  datatype Failure =
    | ChainFailure(chain: AuditChain.Failure) | LogsDiffer | AnchorDoesNotBind | AnchorFailure(anchor: AuditAnchors.Failure)

  /** Python's == on two parsed values. What it says of floats, lists and objects is a parameter, so
      that NaN may differ from itself, [1] equal [true] and 1.0 equal 1. */
  predicate SameValue(a: Value, b: Value, opaqueEqual: (Value, Value) -> bool) {
    if a.Other? || b.Other? then opaqueEqual(a, b) else PyEqual(a, b)
  }

  /** Python's == on records: the same keys, equal values. */
  predicate SameRecord(a: Record, b: Record, opaqueEqual: (Value, Value) -> bool) {
    a.Keys == b.Keys && forall k | k in a.Keys :: SameValue(a[k], b[k], opaqueEqual)
  }

  predicate SameRecords(a: seq<Record>, b: seq<Record>, opaqueEqual: (Value, Value) -> bool) {
    |a| == |b| && forall i | 0 <= i < |a| :: SameRecord(a[i], b[i], opaqueEqual)
  }

  /** anchor.get("recordCount") and anchor.get("chainHead") name this log. */
  predicate Binds(anchor: Record, records: seq<Record>) {
    && PyEqual(Get(anchor, "recordCount"), Int(|records|))
    && PyEqual(Get(anchor, "chainHead"), Head(records))
  }

  /** verify_recovery */
  method VerifyRecovery(original: seq<Record>, restored: seq<Record>, anchor: Record,
                        hash: Record -> string, o: AuditAnchors.Options, opaqueEqual: (Value, Value) -> bool)
    returns (r: Result<nat, Failure>)
    ensures r.Ok? <==> Accepted(original, hash) && Accepted(restored, hash) && SameRecords(original, restored, opaqueEqual)
                       && Binds(anchor, restored) && AuditAnchors.VerifyRecord(anchor, o).Ok?
    ensures r.Ok? ==> r.value == |restored|
    ensures !Accepted(original, hash) ==>
      r.Err? && r.error.ChainFailure? && FirstFailure(original, r.error.chain, hash)
    ensures Accepted(original, hash) && !Accepted(restored, hash) ==>
      r.Err? && r.error.ChainFailure? && FirstFailure(restored, r.error.chain, hash)
    ensures Accepted(original, hash) && Accepted(restored, hash) && !SameRecords(original, restored, opaqueEqual) ==> r == Err(LogsDiffer)
    ensures Accepted(original, hash) && Accepted(restored, hash) && SameRecords(original, restored, opaqueEqual) && !Binds(anchor, restored)
            ==> r == Err(AnchorDoesNotBind)
    ensures Accepted(original, hash) && Accepted(restored, hash) && SameRecords(original, restored, opaqueEqual) && Binds(anchor, restored)
            && AuditAnchors.VerifyRecord(anchor, o).Err?
            ==> r == Err(AnchorFailure(AuditAnchors.VerifyRecord(anchor, o).error))
  {
    var first := VerifyRecords(original, hash);
    if first.Err? { return Err(ChainFailure(first.error)); }
    var second := VerifyRecords(restored, hash);
    if second.Err? { return Err(ChainFailure(second.error)); }
    if !SameRecords(original, restored, opaqueEqual) { return Err(LogsDiffer); }
    if !Binds(anchor, restored) { return Err(AnchorDoesNotBind); }
    var signed := AuditAnchors.VerifyRecord(anchor, o);
    if signed.Err? { return Err(AnchorFailure(signed.error)); }
    return Ok(|restored|);
  }

  /** Python-equal accepted logs are the same records, or two payloads collide, whatever equality
      says of opaque values: True and 1 compare equal but are hashed differently. */
  lemma EqualLogsIdentical(a: seq<Record>, b: seq<Record>, hash: Record -> string, opaqueEqual: (Value, Value) -> bool)
    requires Accepted(a, hash) && Accepted(b, hash) && SameRecords(a, b, opaqueEqual)
    ensures a == b || Collides(a, b, hash)
  {
    if a != [] {
      var n := |a| - 1;
      assert SameRecord(a[n], b[n], opaqueEqual);
      assert Linked(a, n, hash) && Linked(b, n, hash);
      LinkedFields(a, n, hash);
      LinkedFields(b, n, hash);
      assert SameValue(a[n]["recordHash"], b[n]["recordHash"], opaqueEqual);
      HeadCommits(a, b, hash);
    }
  }

  /** The restored log that passes is the source export itself, and it is the only accepted log
      its anchor can bind: any accepted log bound by the anchor's count and head is identical to
      it, or a collision of the digest is at hand. */
  lemma AnchorBindsOneLog(original: seq<Record>, restored: seq<Record>, anchor: Record, hash: Record -> string, log: seq<Record>,
                          opaqueEqual: (Value, Value) -> bool)
    requires Accepted(original, hash) && Accepted(restored, hash) && SameRecords(original, restored, opaqueEqual) && Binds(anchor, restored)
    requires Accepted(log, hash) && Binds(anchor, log)
    ensures original == restored || Collides(original, restored, hash)
    ensures log == restored || Collides(log, restored, hash)
  {
    EqualLogsIdentical(original, restored, hash, opaqueEqual);
    SameCount(anchor, log, restored);
    if log != [] {
      assert Linked(log, |log| - 1, hash) && Linked(restored, |restored| - 1, hash);
      LinkedFields(log, |log| - 1, hash);
      LinkedFields(restored, |restored| - 1, hash);
      HeadCommits(log, restored, hash);
    }
  }

  lemma SameCount(anchor: Record, a: seq<Record>, b: seq<Record>)
    requires Binds(anchor, a) && Binds(anchor, b)
    ensures |a| == |b|
  {
  }

  /** The head alone is enough when it is not the genesis hash. */
  lemma HeadBindsOneLog(restored: seq<Record>, log: seq<Record>, hash: Record -> string)
    requires Accepted(restored, hash) && Accepted(log, hash)
    requires Head(restored) == Head(log) && Head(restored) != Str(GENESIS)
    ensures log == restored || Collides(log, restored, hash)
  {
    HeadCommits(log, restored, hash);
  }

  /** Two logs compare equal exactly when they have the same length and their records the same keys
      with equal values: the same value, or True for 1 and False for 0, or whatever equality says
      of opaque values. */
  lemma SameRecordsMeans(a: seq<Record>, b: seq<Record>, opaqueEqual: (Value, Value) -> bool)
    ensures SameRecords(a, b, opaqueEqual) <==>
      && |a| == |b|
      && (forall i, k | 0 <= i < |a| && k in a[i] :: k in b[i])
      && (forall i, k | 0 <= i < |a| && k in b[i] :: k in a[i])
      && (forall i, k | 0 <= i < |a| && k in a[i] && k in b[i] ::
            var v, w := a[i][k], b[i][k];
            if v.Other? || w.Other? then opaqueEqual(v, w)
            else v == w || (v.Bool? && w == Int(if v.b then 1 else 0)) || (w.Bool? && v == Int(if w.b then 1 else 0)))
  {
    if SameRecords(a, b, opaqueEqual) {
      assert forall i | 0 <= i < |a| :: SameRecord(a[i], b[i], opaqueEqual);
    }
  }

  /** A log without opaque values equals itself, so an intact restore is never refused for differing. */
  lemma IntactRestore(a: seq<Record>, opaqueEqual: (Value, Value) -> bool)
    requires forall i, k | 0 <= i < |a| && k in a[i] :: !a[i][k].Other?
    ensures SameRecords(a, a, opaqueEqual)
  {
  }

  /** An anchor binds a log exactly when it names its length and its last record's hash. */
  lemma BindsMeans(anchor: Record, log: seq<Record>, hash: Record -> string)
    requires Accepted(log, hash)
    ensures Binds(anchor, log) <==>
      && (Get(anchor, "recordCount") == Int(|log|) || (Get(anchor, "recordCount") == Bool(true) && |log| == 1)
          || (Get(anchor, "recordCount") == Bool(false) && |log| == 0))
      && Get(anchor, "chainHead") == (if log == [] then Str(GENESIS) else Get(log[|log| - 1], "recordHash"))
  {
    if log != [] {
      assert Linked(log, |log| - 1, hash);
      LinkedFields(log, |log| - 1, hash);
    }
  }

  /** With an injective digest the passing log is the source export, and the only accepted log its
      anchor can bind. */
  lemma InjectiveRecovery(original: seq<Record>, restored: seq<Record>, anchor: Record, hash: Record -> string, log: seq<Record>,
                          opaqueEqual: (Value, Value) -> bool)
    requires forall p, q | hash(p) == hash(q) :: p == q
    requires Accepted(original, hash) && Accepted(restored, hash) && SameRecords(original, restored, opaqueEqual)
    requires Binds(anchor, restored) && Accepted(log, hash) && Binds(anchor, log)
    ensures original == restored == log
  {
    AnchorBindsOneLog(original, restored, anchor, hash, log, opaqueEqual);
  }
}
