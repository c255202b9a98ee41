/** The verdicts on an anchor directory in plain words: names, checkpoint and refusals. */
module AnchorVerdicts {
  import opened Wrappers
  import opened AuditChain
  import opened AuditAnchors
  import Text

  /** str() of a field: a text as it is, an integer in decimal with a minus sign, and None, True and
      False by name. */
  lemma ShownMeans(n: int, s: string)
    requires n >= 0
    ensures Shown(Str(s)) == s && Shown(Null) == "None" && Shown(Bool(true)) == "True" && Shown(Bool(false)) == "False"
    ensures Shown(Int(n)) == Text.Decimal(n) && (n > 0 ==> Shown(Int(-n)) == "-" + Text.Decimal(n))
    ensures Text.Number(Text.Decimal(n)) == n && (Text.Decimal(n)[0] == '0' ==> n == 0)
  {
    Text.NumberOfDecimal(n);
    Text.NoLeadingZero(n);
  }

  // ---------- names ----------

  predicate TwentyDigits(d: string) { |d| == 20 && forall i | 0 <= i < 20 :: '0' <= d[i] <= '9' }

  /** An anchor is named "anchor-", twenty digits and ".json", and its number is what they denote. */
  lemma NameIs(name: string)
    ensures IsAnchorName(name) <==> exists d :: TwentyDigits(d) && name == "anchor-" + d + ".json"
    ensures forall d | TwentyDigits(d) && name == "anchor-" + d + ".json" :: IsAnchorName(name) && Text.IsNumeral(d) && NameNumber(name) == Text.Number(d)
  {
    if IsAnchorName(name) {
      var d := name[7..27];
      assert TwentyDigits(d) && name == "anchor-" + d + ".json";
    }
    forall d | TwentyDigits(d) && name == "anchor-" + d + ".json"
      ensures IsAnchorName(name) && Text.IsNumeral(d) && NameNumber(name) == Text.Number(d)
    {
      assert name[..7] == "anchor-" && name[7..27] == d && name[27..] == ".json";
      assert forall i | 0 <= i < |d| :: Text.IsDigit(d[i]);
    }
  }

  /** A stray name begins and ends like an anchor's without being one. */
  ghost predicate Stray(name: string) {
    (exists w :: name == "anchor-" + w + ".json") && !exists d :: TwentyDigits(d) && name == "anchor-" + d + ".json"
  }

  lemma StrayIs(name: string)
    ensures Globbed(name) && !IsAnchorName(name) <==> Stray(name)
  {
    NameIs(name);
    if Globbed(name) {
      assert name == "anchor-" + name[7..|name| - 5] + ".json";
    }
    if w :| name == "anchor-" + w + ".json" {
      assert name[..7] == "anchor-" && name[|name| - 5..] == ".json";
    }
  }

  /** A directory is refused for its names exactly when one is stray, and for want of anchors exactly
      when none is and no name is an anchor's. */
  lemma NamesDecide(listing: seq<Entry>, o: Options, checkpoint: Option<Record>)
    ensures Verdict(listing, o, checkpoint) == Err(MalformedName) <==> exists e :: e in listing && Stray(e.name)
    ensures Verdict(listing, o, checkpoint) == Err(NoAnchors) <==>
      !(exists e :: e in listing && Stray(e.name)) && !exists e, d :: e in listing && TwentyDigits(d) && e.name == "anchor-" + d + ".json"
  {
    SortedAnchorsMatch(listing);
    forall e: Entry ensures (Globbed(e.name) && !IsAnchorName(e.name) <==> Stray(e.name))
      && (IsAnchorName(e.name) <==> exists d :: TwentyDigits(d) && e.name == "anchor-" + d + ".json")
    {
      StrayIs(e.name);
      NameIs(e.name);
    }
    assert Malformed(listing) <==> exists e :: e in listing && Stray(e.name) by { MalformedIs(listing); }
    var paths := SortedAnchors(listing);
    assert paths == [] <==> !exists e :: e in listing && IsAnchorName(e.name) by {
      if paths != [] { assert paths[0] in paths; }
      if e :| e in listing && IsAnchorName(e.name) { assert e in paths; }
    }
    if paths != [] { StateErrors(paths, |paths|, o); }
  }

  lemma MalformedIs(listing: seq<Entry>)
    ensures Malformed(listing) <==> exists e :: e in listing && Stray(e.name)
  {
    forall e: Entry ensures Globbed(e.name) && !IsAnchorName(e.name) <==> Stray(e.name) { StrayIs(e.name); }
    if Malformed(listing) {
      var i :| 0 <= i < |listing| && Globbed(listing[i].name) && !IsAnchorName(listing[i].name);
      assert listing[i] in listing;
    }
    if e :| e in listing && Stray(e.name) {
      var i :| 0 <= i < |listing| && listing[i] == e;
      assert Globbed(listing[i].name) && !IsAnchorName(listing[i].name);
    }
  }

  /** Anchors by themselves never raise the refusals of a directory. */
  predicate OfAnAnchor(f: AuditAnchors.Failure) { f != MalformedName && f != NoAnchors && f != CheckpointMismatch }

  lemma NextErrors(entry: Entry, expected: nat, s: State, o: Options)
    requires IsAnchorName(entry.name) && Next(entry, expected, s, o).Err?
    ensures OfAnAnchor(Next(entry, expected, s, o).error)
  {
    JoinErrors(entry.anchor, PAYLOAD_FIELDS);
  }

  lemma {:induction false} JoinErrors(anchor: Record, fields: seq<string>)
    ensures Join(anchor, fields).Err? ==> Join(anchor, fields).error.FieldMissing?
  {
    if fields != [] { JoinErrors(anchor, fields[1..]); }
  }

  lemma {:induction false} StateErrors(paths: seq<Entry>, n: nat, o: Options)
    requires n <= |paths| && AllNamed(paths)
    ensures StateAfter(paths, n, o).Err? ==> OfAnAnchor(StateAfter(paths, n, o).error)
  {
    if n > 0 {
      StateErrors(paths, n - 1, o);
      if StateAfter(paths, n - 1, o).Ok? && StateAfter(paths, n, o).Err? {
        NextErrors(paths[n - 1], n, StateAfter(paths, n - 1, o).value, o);
      }
    }
  }

  // ---------- the checkpoint ----------

  /** The last state of an accepted directory is its last anchor's number and digest. */
  lemma LastState(listing: seq<Entry>, o: Options, n: nat)
    requires Verdict(listing, o, None) == Ok(n)
    ensures n == |SortedAnchors(listing)| > 0 && AllNamed(SortedAnchors(listing))
    ensures var state := StateAfter(SortedAnchors(listing), n, o);
      state.Ok? && state.value.sequence == n
      && state.value.anchorHash == ShownOrEmpty(SortedAnchors(listing)[n - 1].anchor, "anchorHash")
  {
    var paths := SortedAnchors(listing);
    SortedAnchorsMatch(listing);
    var states := ChainOf(paths, o);
    assert Step(paths[n - 1].anchor, n, states[n - 1], states[n], o);
  }

  /** A checkpoint accepts an acceptable directory exactly when it names the number of its anchors
      and the digest its last anchor carries, and otherwise it is what refuses it. */
  lemma CheckpointExact(listing: seq<Entry>, o: Options, c: Record, n: nat)
    ensures Verdict(listing, o, Some(c)) == Ok(n) <==>
      && Verdict(listing, o, None) == Ok(n)
      && (Get(c, "sequence") == Int(n) || (Get(c, "sequence") == Bool(true) && n == 1))
      && Get(c, "anchorHash") == Str(ShownOrEmpty(SortedAnchors(listing)[n - 1].anchor, "anchorHash"))
    ensures Verdict(listing, o, None).Err? ==> Verdict(listing, o, Some(c)) == Verdict(listing, o, None)
    ensures Verdict(listing, o, None) == Ok(n) && Verdict(listing, o, Some(c)) != Ok(n) ==>
      Verdict(listing, o, Some(c)) == Err(CheckpointMismatch)
  {
    if Verdict(listing, o, None) == Ok(n) {
      LastState(listing, o, n);
      EqualsNumber(Get(c, "sequence"), n);
    }
  }

  /** Two directories accepted under one checkpoint have the same number of anchors and the same
      signed payload text at every position, or two of their payloads collide. */
  lemma CheckpointCommits(x: seq<Entry>, y: seq<Entry>, o: Options, c: Record, m: nat, n: nat, k: nat)
    requires HexDigest(o.digest) && Verdict(x, o, Some(c)) == Ok(m) && Verdict(y, o, Some(c)) == Ok(n)
    ensures m == |SortedAnchors(x)| && n == |SortedAnchors(y)|
    ensures AuditAnchors.Collides(SortedAnchors(x), SortedAnchors(y), o)
      || (m == n && (k < m ==> PayloadText(SortedAnchors(x)[k].anchor) == PayloadText(SortedAnchors(y)[k].anchor)))
  {
    var a, b := SortedAnchors(x), SortedAnchors(y);
    CheckpointExact(x, o, c, m);
    CheckpointExact(y, o, c, n);
    var sa := AcceptedIsChain(x, o, Some(c));
    var sb := AcceptedIsChain(y, o, Some(c));
    assert Step(a[m - 1].anchor, m, sa[m - 1], sa[m], o);
    assert Step(b[n - 1].anchor, n, sb[n - 1], sb[n], o);
    LastDigestCommits(x, y, o, Some(c), Some(c), a, sa, b, sb, k);
  }

  /** With an injective digest there is no collision: one checkpoint identifies every payload. */
  lemma InjectiveCheckpoint(x: seq<Entry>, y: seq<Entry>, o: Options, c: Record, m: nat, n: nat, k: nat)
    requires HexDigest(o.digest) && Verdict(x, o, Some(c)) == Ok(m) && Verdict(y, o, Some(c)) == Ok(n)
    requires forall p, q | o.digest(p) == o.digest(q) :: p == q
    ensures m == n == |SortedAnchors(x)| == |SortedAnchors(y)|
    ensures k < m ==> PayloadText(SortedAnchors(x)[k].anchor) == PayloadText(SortedAnchors(y)[k].anchor)
  {
    CheckpointCommits(x, y, o, c, m, n, k);
  }

  // ---------- refusals of one anchor ----------

  /** How an anchor fails is decided by its first failing test: name, number, predecessor, record
      count, time, commit, fields, digest, signature. */
  lemma NextRefuses(entry: Entry, n: nat, s: State, o: Options)
    requires IsAnchorName(entry.name)
    ensures var r, x := Next(entry, n, s, o), entry.anchor;
      var named := NameNumber(entry.name) == n;
      var numbered := named && (Get(x, "sequence") == Int(n) || (Get(x, "sequence") == Bool(true) && n == 1)
                                || (Get(x, "sequence") == Bool(false) && n == 0));
      var linked := numbered && Get(x, "previousAnchorHash") == Str(s.anchorHash);
      var counted := linked && IntOf(Get(x, "recordCount")).Some? && IntOf(Get(x, "recordCount")).value >= s.recordCount;
      && (r == Err(NameGap) <==> !named)
      && (r == Err(SequenceMismatch) <==> named && !numbered)
      && (r == Err(AuditAnchors.PreviousMismatch) <==> numbered && !linked)
      && (r == Err(CountRegressed) <==> linked && !counted)
      && (r == Err(BadTimestamp) <==> counted && !(Get(x, "anchoredAt").Str? && o.parse(Get(x, "anchoredAt").s).Some?))
  {
    JoinErrors(entry.anchor, PAYLOAD_FIELDS);
  }

  /** The integer of a record count: a Python bool counts as 0 or 1, anything else has none. */
  lemma CountIs(v: Value, n: int)
    ensures IntOf(v) == Some(n) <==> v == Int(n) || (v == Bool(true) && n == 1) || (v == Bool(false) && n == 0)
  {
  }

  /** Behind an accepted time: a time with and one without offset do not compare, an earlier one and
      another commit are refused. */
  lemma NextRefusesTime(entry: Entry, n: nat, s: State, o: Options, at: Timestamp)
    requires IsAnchorName(entry.name) && NameNumber(entry.name) == n && Get(entry.anchor, "sequence") == Int(n)
    requires Get(entry.anchor, "previousAnchorHash") == Str(s.anchorHash)
    requires IntOf(Get(entry.anchor, "recordCount")).Some? && IntOf(Get(entry.anchor, "recordCount")).value >= s.recordCount
    requires Get(entry.anchor, "anchoredAt").Str? && o.parse(Get(entry.anchor, "anchoredAt").s) == Some(at)
    ensures var r := Next(entry, n, s, o);
      && (r == Err(TimestampRegressed) <==>
          s.anchoredAt.Some? && at.aware == s.anchoredAt.value.aware && at.instant < s.anchoredAt.value.instant)
      && (r == Err(CommitMismatch) <==>
          (s.anchoredAt.None? || NotLater(s.anchoredAt.value, at))
          && o.commit.Some? && Get(entry.anchor, "sourceCommit") != Str(o.commit.value))
      && (s.anchoredAt.Some? && at.aware != s.anchoredAt.value.aware ==> r == Err(TypeError))
  {
    JoinErrors(entry.anchor, PAYLOAD_FIELDS);
  }

  /** How the record itself fails: the first missing field, then the digest, then the signature. */
  lemma RecordRefuses(anchor: Record, o: Options)
    ensures VerifyRecord(anchor, o) == Err(BadHash) <==>
      PayloadText(anchor).Ok? && IsAscii(ShownOrEmpty(anchor, "anchorHash"))
      && o.digest(PayloadText(anchor).value) != ShownOrEmpty(anchor, "anchorHash")
    ensures VerifyRecord(anchor, o) == Err(BadSignature) <==>
      PayloadText(anchor).Ok? && IsAscii(ShownOrEmpty(anchor, "anchorHash"))
      && o.digest(PayloadText(anchor).value) == ShownOrEmpty(anchor, "anchorHash")
      && IsAscii(ShownOrEmpty(anchor, "signature"))
      && o.sign(o.digest(PayloadText(anchor).value)) != ShownOrEmpty(anchor, "signature")
    ensures VerifyRecord(anchor, o).Ok? ==> VerifyRecord(anchor, o).value == ShownOrEmpty(anchor, "anchorHash")
  {
    JoinErrors(anchor, PAYLOAD_FIELDS);
  }

  ghost predicate FirstMissing(anchor: Record, fields: seq<string>, i: int) {
    0 <= i < |fields| && fields[i] !in anchor && forall j | 0 <= j < i :: fields[j] in anchor
  }

  /** Comparing a digest or a signature with text beyond ASCII raises instead of refusing. */
  lemma RecordRaises(anchor: Record, o: Options)
    ensures VerifyRecord(anchor, o) == Err(TypeError) <==>
      PayloadText(anchor).Ok?
      && ((exists c :: c in ShownOrEmpty(anchor, "anchorHash") && c as int >= 128)
          || (o.digest(PayloadText(anchor).value) == ShownOrEmpty(anchor, "anchorHash")
              && exists c :: c in ShownOrEmpty(anchor, "signature") && c as int >= 128))
  {
    JoinErrors(anchor, PAYLOAD_FIELDS);
    AsciiMeans(ShownOrEmpty(anchor, "anchorHash"));
    AsciiMeans(ShownOrEmpty(anchor, "signature"));
  }

  lemma AsciiMeans(s: string)
    ensures IsAscii(s) <==> forall c | c in s :: c as int < 128
  {
    assert forall i | 0 <= i < |s| :: s[i] in s;
  }

  /** The first missing field, in the order of the payload, is the one named. */
  lemma {:induction false} MissingField(anchor: Record, fields: seq<string>, f: string)
    requires fields != []
    ensures Join(anchor, fields) == Err(FieldMissing(f)) <==> exists i :: FirstMissing(anchor, fields, i) && fields[i] == f
  {
    if fields[0] !in anchor {
      assert FirstMissing(anchor, fields, 0);
    } else if |fields| > 1 {
      var rest := fields[1..];
      MissingField(anchor, rest, f);
      if i :| FirstMissing(anchor, fields, i) && fields[i] == f {
        assert forall j | 0 <= j < i - 1 :: rest[j] == fields[j + 1];
        assert FirstMissing(anchor, rest, i - 1) && rest[i - 1] == f;
      }
      if i :| FirstMissing(anchor, rest, i) && rest[i] == f {
        assert forall j | 0 < j < i + 1 :: fields[j] == rest[j - 1];
        assert FirstMissing(anchor, fields, i + 1) && fields[i + 1] == f;
      }
    }
  }
}
