/** What the signed payload text of an audit anchor says about its fields. The text is the six
    fields joined by '|', so a field that contains the separator can shift the others. */
module AnchorFields {
  import opened Wrappers
  import opened AuditChain
  import opened AuditAnchors
  import Text

  // ---------- six texts behind five separators ----------

  function Joined(a: string, b: string, c: string, d: string, e: string, f: string): string {
    a + "|" + (b + "|" + (c + "|" + (d + "|" + (e + "|" + f))))
  }

  lemma BackOf(x: string, x': string)
    ensures var whole := x + "|" + x';
      && whole[|whole| - 1] == (if x' == "" then '|' else x'[|x'| - 1])
      && whole[..|whole| - 1] == if x' == "" then x else x + "|" + x'[..|x'| - 1]
  {
  }

  /** Texts without the separator are determined by their concatenation in front of a separator. */
  lemma {:induction false} CutAtLastSeparator(x: string, x': string, y: string, y': string)
    requires '|' !in x' && '|' !in y' && x + "|" + x' == y + "|" + y'
    ensures x == y && x' == y'
    decreases |x'|
  {
    BackOf(x, x');
    BackOf(y, y');
    if x' != "" && y' != "" {
      CutAtLastSeparator(x, x'[..|x'| - 1], y, y'[..|y'| - 1]);
      assert x' == x'[..|x'| - 1] + [x'[|x'| - 1]] && y' == y'[..|y'| - 1] + [y'[|y'| - 1]];
    }
  }

  lemma FromTheRight(c: string, d: string, e: string, f: string)
    ensures c + "|" + (d + "|" + (e + "|" + f)) == ((c + "|" + d) + "|" + e) + "|" + f
  {
  }

  lemma SameEnd(x: string, y: string, f: string)
    requires x + "|" + f == y + "|" + f
    ensures x == y
  {
    assert x == (x + "|" + f)[..|x|] && y == (y + "|" + f)[..|y|];
  }

  lemma LastFour(c: string, d: string, e: string, f: string, c': string, d': string, e': string, f': string)
    requires c + "|" + (d + "|" + (e + "|" + f)) == c' + "|" + (d' + "|" + (e' + "|" + f'))
    requires '|' !in d && '|' !in d' && '|' !in e && '|' !in e' && (f == f' || ('|' !in f && '|' !in f'))
    ensures c == c' && d == d' && e == e' && f == f'
  {
    FromTheRight(c, d, e, f);
    FromTheRight(c', d', e', f');
    if f == f' {
      SameEnd((c + "|" + d) + "|" + e, (c' + "|" + d') + "|" + e', f);
    } else {
      CutAtLastSeparator((c + "|" + d) + "|" + e, f, (c' + "|" + d') + "|" + e', f');
    }
    CutAtLastSeparator(c + "|" + d, e, c' + "|" + d', e');
    CutAtLastSeparator(c, d, c', d');
  }

  // ---------- the six fields ----------

  lemma JoinStep(anchor: Record, fields: seq<string>)
    requires |fields| > 1 && Join(anchor, fields).Ok?
    ensures fields[0] in anchor && Join(anchor, fields[1..]).Ok?
    ensures Join(anchor, fields).value == Shown(anchor[fields[0]]) + "|" + Join(anchor, fields[1..]).value
  {
  }

  lemma PayloadFields(anchor: Record)
    requires PayloadText(anchor).Ok?
    ensures forall f | f in PAYLOAD_FIELDS :: f in anchor
    ensures PayloadText(anchor).value
      == Joined(Shown(anchor["sequence"]), Shown(anchor["previousAnchorHash"]), Shown(anchor["chainHead"]),
                Shown(anchor["recordCount"]), Shown(anchor["anchoredAt"]), Shown(anchor["sourceCommit"]))
  {
    var fields := PAYLOAD_FIELDS;
    JoinStep(anchor, fields);
    JoinStep(anchor, fields[1..]);
    assert fields[1..][1..] == fields[2..];
    JoinStep(anchor, fields[2..]);
    assert fields[2..][1..] == fields[3..];
    JoinStep(anchor, fields[3..]);
    assert fields[3..][1..] == fields[4..];
    JoinStep(anchor, fields[4..]);
    assert fields[4..][1..] == ["sourceCommit"];
  }

  lemma IntTextIs(n: int)
    ensures '|' !in IntText(n) && IntText(n)[0] != 'T' && IntText(n)[0] != 'F'
    ensures IntText(n)[0] == '-' <==> n < 0
  {
    var digits := Text.Decimal(if n < 0 then -n else n);
    assert forall i | 0 <= i < |digits| :: Text.IsDigit(digits[i]);
  }

  lemma IntTextInjective(m: int, n: int)
    requires IntText(m) == IntText(n)
    ensures m == n
  {
    IntTextIs(m);
    IntTextIs(n);
    if m < 0 {
      assert IntText(m)[1..] == Text.Decimal(-m) && IntText(n)[1..] == Text.Decimal(-n);
      Text.DecimalInjective(-m, -n);
    } else {
      Text.DecimalInjective(m, n);
    }
  }

  /** An integer field, which may be a Python bool, shows a separator-free text that fixes it. */
  lemma IntegerField(v: Value, w: Value)
    requires IntOf(v).Some? && IntOf(w).Some?
    ensures '|' !in Shown(v)
    ensures Shown(v) == Shown(w) ==> v == w
  {
    if v.Int? { IntTextIs(v.n); }
    if w.Int? { IntTextIs(w.n); }
    assert "True"[0] == 'T' && "False"[0] == 'F';
    if v.Int? && w.Int? && Shown(v) == Shown(w) { IntTextInjective(v.n, w.n); }
  }

  /** The two fields that could shift the others: the time, and the commit unless it is prescribed. */
  ghost predicate EndFree(anchor: Record, o: Options) {
    && '|' !in Shown(Get(anchor, "anchoredAt"))
    && (o.commit.None? ==> '|' !in Shown(Get(anchor, "sourceCommit")))
  }

  /** Number, predecessor, record count and time are equal; chain head and commit show one text. */
  ghost predicate SameFields(x: Record, y: Record) {
    && Get(x, "sequence") == Get(y, "sequence") && Get(x, "previousAnchorHash") == Get(y, "previousAnchorHash")
    && Get(x, "recordCount") == Get(y, "recordCount") && Get(x, "anchoredAt") == Get(y, "anchoredAt")
    && Shown(Get(x, "chainHead")) == Shown(Get(y, "chainHead"))
    && Shown(Get(x, "sourceCommit")) == Shown(Get(y, "sourceCommit"))
  }

  /** Every field of the payload shows the same text, and number, predecessor, count and time are the
      same values. */
  lemma SameFieldsMeans(x: Record, y: Record, f: string)
    requires SameFields(x, y) && f in PAYLOAD_FIELDS
    ensures Shown(Get(x, f)) == Shown(Get(y, f))
    ensures f !in ["chainHead", "sourceCommit"] ==> Get(x, f) == Get(y, f)
  {
  }

  /** The fields of a passing anchor that cannot contain the separator. */
  lemma PassingFields(x: Record, m: nat, s: State, t: State, o: Options)
    requires Step(x, m, s, t, o) && '|' !in s.anchorHash
    ensures PayloadText(x) == Ok(TextOfFields(x))
    ensures IntOf(Get(x, "sequence")).Some? && IntOf(Get(x, "recordCount")).Some?
    ensures '|' !in Shown(Get(x, "sequence")) && '|' !in Shown(Get(x, "recordCount"))
    ensures Get(x, "previousAnchorHash") == Str(s.anchorHash) && Get(x, "anchoredAt").Str?
    ensures o.commit.Some? ==> Get(x, "sourceCommit") == Str(o.commit.value)
  {
    PayloadFields(x);
    FieldNames();
    IntegerField(Get(x, "sequence"), Get(x, "sequence"));
    IntegerField(Get(x, "recordCount"), Get(x, "recordCount"));
  }

  function TextOfFields(x: Record): string {
    Joined(Shown(Get(x, "sequence")), Shown(Get(x, "previousAnchorHash")), Shown(Get(x, "chainHead")),
           Shown(Get(x, "recordCount")), Shown(Get(x, "anchoredAt")), Shown(Get(x, "sourceCommit")))
  }

  /** Two passing anchors with one payload text agree in every field, if neither time nor a free
      commit contains the separator. The chain head may contain it. */
  lemma StepFixesFields(x: Record, m: nat, s: State, t: State, y: Record, n: nat, u: State, v: State, o: Options)
    requires Step(x, m, s, t, o) && Step(y, n, u, v, o) && PayloadText(x) == PayloadText(y)
    requires '|' !in s.anchorHash && '|' !in u.anchorHash && EndFree(x, o) && EndFree(y, o)
    ensures SameFields(x, y)
  {
    PassingFields(x, m, s, t, o);
    PassingFields(y, n, u, v, o);
    SameTexts(Shown(Get(x, "sequence")), Shown(Get(x, "previousAnchorHash")), Shown(Get(x, "chainHead")),
              Shown(Get(x, "recordCount")), Shown(Get(x, "anchoredAt")), Shown(Get(x, "sourceCommit")),
              Shown(Get(y, "sequence")), Shown(Get(y, "previousAnchorHash")), Shown(Get(y, "chainHead")),
              Shown(Get(y, "recordCount")), Shown(Get(y, "anchoredAt")), Shown(Get(y, "sourceCommit")));
    IntegerField(Get(x, "sequence"), Get(y, "sequence"));
    IntegerField(Get(x, "recordCount"), Get(y, "recordCount"));
  }

  lemma FieldNames()
    ensures forall f | f in ["sequence", "previousAnchorHash", "chainHead", "recordCount", "anchoredAt", "sourceCommit"] :: f in PAYLOAD_FIELDS
  {
  }

  lemma SameTexts(a: string, b: string, c: string, d: string, e: string, f: string,
                  a': string, b': string, c': string, d': string, e': string, f': string)
    requires Joined(a, b, c, d, e, f) == Joined(a', b', c', d', e', f')
    requires '|' !in a && '|' !in a' && '|' !in b && '|' !in b' && '|' !in d && '|' !in d' && '|' !in e && '|' !in e'
    requires f == f' || ('|' !in f && '|' !in f')
    ensures a == a' && b == b' && c == c' && d == d' && e == e' && f == f'
  {
    var rest, rest' := c + "|" + (d + "|" + (e + "|" + f)), c' + "|" + (d' + "|" + (e' + "|" + f'));
    CutAtSeparator(a, b + "|" + rest, a', b' + "|" + rest');
    CutAtSeparator(b, rest, b', rest');
    LastFour(c, d, e, f, c', d', e', f');
  }

  /** Two accepted directories whose last digests are equal have, at every position where time and
      commit hold no separator, anchors that agree in every field, or two payloads collide. */
  lemma LastDigestFixesFields(x: seq<Entry>, y: seq<Entry>, o: Options, c: Option<Record>, d: Option<Record>,
                              a: seq<Entry>, sa: seq<State>, b: seq<Entry>, sb: seq<State>, k: nat)
    requires HexDigest(o.digest) && AcceptedAs(x, o, c, a, sa) && AcceptedAs(y, o, d, b, sb)
    requires sa[|a|].anchorHash == sb[|b|].anchorHash
    requires k < |a| && k < |b| && EndFree(a[k].anchor, o) && EndFree(b[k].anchor, o)
    ensures AuditAnchors.Collides(a, b, o) || (|a| == |b| && SameFields(a[k].anchor, b[k].anchor))
  {
    LastDigestCommits(x, y, o, c, d, a, sa, b, sb, k);
    if !AuditAnchors.Collides(a, b, o) {
      PreviousIsDigest(a, sa, k, o);
      PreviousIsDigest(b, sb, k, o);
      assert Step(a[k].anchor, k + 1, sa[k], sa[k + 1], o) && Step(b[k].anchor, k + 1, sb[k], sb[k + 1], o);
      StepFixesFields(a[k].anchor, k + 1, sa[k], sa[k + 1], b[k].anchor, k + 1, sb[k], sb[k + 1], o);
    }
  }

  // ---------- two anchors with one payload ----------

  /** A first anchor, digested and signed. */
  function FirstAnchor(head: string, count: Value, at: string, commit: string, o: Options): Record {
    var payload := FirstPayload(head, count, at, commit);
    map["sequence" := Int(1), "previousAnchorHash" := Str(GENESIS), "chainHead" := Str(head), "recordCount" := count,
        "anchoredAt" := Str(at), "sourceCommit" := Str(commit),
        "anchorHash" := Str(o.digest(payload)), "signature" := Str(o.sign(o.digest(payload)))]
  }

  function FirstPayload(head: string, count: Value, at: string, commit: string): string {
    Joined("1", GENESIS, head, Shown(count), at, commit)
  }

  /** Digests and keyed digests are ASCII text. */
  ghost predicate AsciiDigests(o: Options) { forall s :: IsAscii(o.digest(s)) && IsAscii(o.sign(s)) }

  /** No commit is prescribed either. */
  ghost predicate Ordinary(o: Options) { o.commit.None? && AsciiDigests(o) }

  /** A record count that a passing anchor may have: an integer or a Python bool, at least -1. */
  predicate IsCount(v: Value) { IntOf(v).Some? && IntOf(v).value >= -1 }

  function FirstState(head: string, count: Value, at: string, commit: string, o: Options): State
    requires IsCount(count)
  {
    State(1, o.digest(FirstPayload(head, count, at, commit)), IntOf(count).value, o.parse(at))
  }

  lemma FirstFields(head: string, count: Value, at: string, commit: string, o: Options)
    ensures var x := FirstAnchor(head, count, at, commit, o);
      && Get(x, "sequence") == Int(1) && Get(x, "previousAnchorHash") == Str(GENESIS) && Get(x, "chainHead") == Str(head)
      && Get(x, "recordCount") == count && Get(x, "anchoredAt") == Str(at) && Get(x, "sourceCommit") == Str(commit)
      && ShownOrEmpty(x, "anchorHash") == o.digest(FirstPayload(head, count, at, commit))
      && ShownOrEmpty(x, "signature") == o.sign(o.digest(FirstPayload(head, count, at, commit)))
      && (forall f | f in PAYLOAD_FIELDS :: f in x)
  {
    assert "anchoredAt"[6] != "anchorHash"[6] && "chainHead"[0] != "signature"[0];
  }

  lemma {:induction false} JoinPresent(anchor: Record, fields: seq<string>)
    requires fields != [] && forall f | f in fields :: f in anchor
    ensures Join(anchor, fields).Ok?
  {
    if |fields| > 1 { JoinPresent(anchor, fields[1..]); }
  }

  /** The anchor passes as the first of a directory when its time parses. */
  lemma FirstPasses(head: string, count: Value, at: string, commit: string, o: Options)
    requires AsciiDigests(o) && o.parse(at).Some? && IsCount(count) && (o.commit.None? || o.commit == Some(commit))
    ensures Step(FirstAnchor(head, count, at, commit, o), 1, INITIAL, FirstState(head, count, at, commit, o), o)
    ensures PayloadText(FirstAnchor(head, count, at, commit, o)) == Ok(FirstPayload(head, count, at, commit))
  {
    var x := FirstAnchor(head, count, at, commit, o);
    FirstFields(head, count, at, commit, o);
    JoinPresent(x, PAYLOAD_FIELDS);
    PayloadFields(x);
    assert IntText(1) == "1";
  }

  /** A time that contains the separator: as with "2026-01-01|00:00", which the timestamp parser of
      Python 3.11 accepts, an anchor of time a and commit b|c shares its signed payload with one of
      time a|b and commit c, and both pass. */
  lemma SharedByTime(head: string, a: string, b: string, c: string, o: Options)
    requires Ordinary(o) && o.parse(a).Some? && o.parse(a + "|" + b).Some?
    ensures var x, y := FirstAnchor(head, Int(0), a, b + "|" + c, o), FirstAnchor(head, Int(0), a + "|" + b, c, o);
      && PayloadText(x).Ok? && PayloadText(x) == PayloadText(y)
      && Step(x, 1, INITIAL, FirstState(head, Int(0), a, b + "|" + c, o), o)
      && Step(y, 1, INITIAL, FirstState(head, Int(0), a + "|" + b, c, o), o)
      && !SameFields(x, y)
  {
    assert IntText(0) == "0";
    FirstPasses(head, Int(0), a, b + "|" + c, o);
    FirstPasses(head, Int(0), a + "|" + b, c, o);
    assert a + "|" + (b + "|" + c) == (a + "|" + b) + "|" + c;
    FirstFields(head, Int(0), a, b + "|" + c, o);
    FirstFields(head, Int(0), a + "|" + b, c, o);
    assert |a| != |a + "|" + b|;
  }

  /** A commit that contains the separator, whatever the timestamp parser accepts: what stands
      before its last separators can be moved into the chain head. */
  lemma SharedByCommit(head: string, at: string, b: string, c: string, o: Options)
    requires Ordinary(o) && o.parse(at).Some?
    ensures var longer := head + "|" + ("0" + "|" + (at + "|" + b));
      var x, y := FirstAnchor(head, Int(0), at, b + "|" + ("0" + "|" + (at + "|" + c)), o), FirstAnchor(longer, Int(0), at, c, o);
      && PayloadText(x).Ok? && PayloadText(x) == PayloadText(y)
      && Step(x, 1, INITIAL, FirstState(head, Int(0), at, b + "|" + ("0" + "|" + (at + "|" + c)), o), o)
      && Step(y, 1, INITIAL, FirstState(longer, Int(0), at, c, o), o)
      && !SameFields(x, y)
  {
    assert IntText(0) == "0";
    var moved := "0" + "|" + (at + "|" + c);
    var longer := head + "|" + ("0" + "|" + (at + "|" + b));
    FirstPasses(head, Int(0), at, b + "|" + moved, o);
    FirstPasses(longer, Int(0), at, c, o);
    assert head + "|" + ("0" + "|" + (at + "|" + (b + "|" + moved))) == longer + "|" + moved;
    FirstFields(head, Int(0), at, b + "|" + moved, o);
    FirstFields(longer, Int(0), at, c, o);
    assert |head| != |longer|;
  }
}
