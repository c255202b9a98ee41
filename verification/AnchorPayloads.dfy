/** Exactly when the signed payload of an audit anchor fixes its fields: with a prescribed commit, a
    condition on the timestamp parser alone; without one, never. */
module AnchorPayloads {
  import opened Wrappers
  import opened AuditChain
  import opened AuditAnchors
  import opened AnchorFields
  import Text

  /** What holds of the state before any anchor of an accepted directory. */
  ghost predicate Reachable(s: State) { '|' !in s.anchorHash && s.recordCount >= -1 }

  /** Any two passing anchors with one payload text agree in every field. */
  ghost predicate FieldsFixed(o: Options) {
    forall x, m, s, t, y, n, u, v |
      Reachable(s) && Reachable(u) && Step(x, m, s, t, o) && Step(y, n, u, v, o) && PayloadText(x) == PayloadText(y) ::
      SameFields(x, y)
  }

  /** The text of a record count: a numeral, "-1", "True" or "False". */
  ghost predicate CountText(w: string) { exists v: Value :: IsCount(v) && Shown(v) == w }

  /** Two accepted times, the shorter behind a separator at the end of the longer, where a count
      stands right before that separator. */
  ghost predicate Shifts(o: Options, p: string, w: string, t: string) {
    && CountText(w) && o.parse(t).Some? && o.parse(p + "|" + t).Some?
    && (p == w || exists q :: p == q + "|" + w)
  }

  ghost predicate TimesShift(o: Options) { exists p, w, t :: Shifts(o, p, w, t) }

  // ---------- sharing a payload means shifting a time ----------

  lemma SplitAtLast(p: string) returns (q: string, w: string)
    requires '|' in p
    ensures p == q + "|" + w && '|' !in w
  {
    var k := |p| - 1;
    while p[k] != '|'
      invariant 0 <= k < |p|
      invariant forall i | k < i < |p| :: p[i] != '|'
      decreases k
    {
      k := k - 1;
    }
    q, w := p[..k], p[k + 1..];
  }

  lemma LongerEnd(x: string, e: string, y: string, e': string) returns (p: string)
    requires x + "|" + e == y + "|" + e' && |e| < |e'|
    ensures e' == p + "|" + e && x == y + "|" + p
  {
    var whole, k := x + "|" + e, |e'| - |e| - 1;
    p := e'[..k];
    assert e' == whole[|y| + 1..] && e'[k] == whole[|x|] == '|';
    assert e'[k + 1..] == whole[|x| + 1..] == e;
    assert e' == e'[..k] + [e'[k]] + e'[k + 1..];
    assert x == whole[..|x|] == (y + "|" + e')[..|x|];
  }

  /** The count before a separator is the last part of whatever the other text has there. */
  lemma CountBeforeTime(c: string, d: string, y: string, p: string)
    requires c + "|" + d == y + "|" + p && '|' !in d
    ensures p == d || exists q :: p == q + "|" + d
  {
    if '|' in p {
      var q, w := SplitAtLast(p);
      assert y + "|" + (q + "|" + w) == (y + "|" + q) + "|" + w;
      CutAtLastSeparator(c, d, y + "|" + q, w);
    } else {
      CutAtLastSeparator(c, d, y, p);
    }
  }

  /** A shorter and a longer time behind the same head and count texts. */
  lemma ShiftFound(c: string, d: string, e: string, y: string, e': string, o: Options)
    requires (c + "|" + d) + "|" + e == y + "|" + e' && |e| < |e'| && '|' !in d
    requires CountText(d) && o.parse(e).Some? && o.parse(e').Some?
    ensures TimesShift(o)
  {
    var p := LongerEnd(c + "|" + d, e, y, e');
    CountBeforeTime(c, d, y, p);
    assert Shifts(o, p, d, e);
  }

  /** Head, count and time texts are fixed by their join when no time shifts. */
  lemma MiddleFixed(c: string, d: string, e: string, c': string, d': string, e': string, o: Options)
    requires (c + "|" + d) + "|" + e == (c' + "|" + d') + "|" + e' && '|' !in d && '|' !in d'
    requires CountText(d) && CountText(d') && o.parse(e).Some? && o.parse(e').Some?
    ensures TimesShift(o) || (c == c' && d == d' && e == e')
  {
    if |e| < |e'| {
      ShiftFound(c, d, e, c' + "|" + d', e', o);
    } else if |e'| < |e| {
      ShiftFound(c', d', e', c + "|" + d, e, o);
    } else {
      var whole := (c + "|" + d) + "|" + e;
      assert e == whole[|whole| - |e|..] && e' == whole[|whole| - |e|..];
      SameEnd(c + "|" + d, c' + "|" + d', e);
      CutAtLastSeparator(c, d, c', d');
    }
  }

  /** What a passing anchor behind a reachable state says of its count and time. */
  lemma PassingMiddle(x: Record, m: nat, s: State, t: State, o: Options)
    requires Step(x, m, s, t, o) && Reachable(s)
    ensures IsCount(Get(x, "recordCount")) && CountText(Shown(Get(x, "recordCount")))
    ensures Get(x, "anchoredAt").Str? && o.parse(Shown(Get(x, "anchoredAt"))).Some?
  {
  }

  lemma FrontFixed(a: string, b: string, c: string, d: string, e: string, f: string,
                   a': string, b': string, c': string, d': string, e': string)
    requires Joined(a, b, c, d, e, f) == Joined(a', b', c', d', e', f)
    requires '|' !in a && '|' !in a' && '|' !in b && '|' !in b'
    ensures a == a' && b == b' && (c + "|" + d) + "|" + e == (c' + "|" + d') + "|" + e'
  {
    var rest, rest' := c + "|" + (d + "|" + (e + "|" + f)), c' + "|" + (d' + "|" + (e' + "|" + f));
    CutAtSeparator(a, b + "|" + rest, a', b' + "|" + rest');
    CutAtSeparator(b, rest, b', rest');
    FromTheRight(c, d, e, f);
    FromTheRight(c', d', e', f);
    SameEnd((c + "|" + d) + "|" + e, (c' + "|" + d') + "|" + e', f);
  }

  /** Under a prescribed commit, passing anchors with one payload agree unless a time shifts. */
  lemma PrescribedFields(x: Record, m: nat, s: State, t: State, y: Record, n: nat, u: State, v: State, o: Options)
    requires o.commit.Some? && Reachable(s) && Reachable(u)
    requires Step(x, m, s, t, o) && Step(y, n, u, v, o) && PayloadText(x) == PayloadText(y)
    ensures TimesShift(o) || SameFields(x, y)
  {
    PassingFields(x, m, s, t, o);
    PassingFields(y, n, u, v, o);
    PassingMiddle(x, m, s, t, o);
    PassingMiddle(y, n, u, v, o);
    FrontFixed(Shown(Get(x, "sequence")), Shown(Get(x, "previousAnchorHash")), Shown(Get(x, "chainHead")),
               Shown(Get(x, "recordCount")), Shown(Get(x, "anchoredAt")), o.commit.value,
               Shown(Get(y, "sequence")), Shown(Get(y, "previousAnchorHash")), Shown(Get(y, "chainHead")),
               Shown(Get(y, "recordCount")), Shown(Get(y, "anchoredAt")));
    MiddleFixed(Shown(Get(x, "chainHead")), Shown(Get(x, "recordCount")), Shown(Get(x, "anchoredAt")),
                Shown(Get(y, "chainHead")), Shown(Get(y, "recordCount")), Shown(Get(y, "anchoredAt")), o);
    IntegerField(Get(x, "sequence"), Get(y, "sequence"));
    IntegerField(Get(x, "recordCount"), Get(y, "recordCount"));
  }

  // ---------- a shifting time shares a payload ----------

  /** Two heads and the times t and p|t that make one text with a count before the shorter time. */
  lemma ShiftedTexts(p: string, w: string, t: string) returns (head: string)
    requires p == w || exists q :: p == q + "|" + w
    ensures (head + "|" + w) + "|" + t == ("" + "|" + "0") + "|" + (p + "|" + t)
  {
    if p == w {
      head := "" + "|" + "0";
    } else {
      var q :| p == q + "|" + w;
      head := ("" + "|" + "0") + "|" + q;
    }
  }

  lemma SamePayload(head: string, w: string, t: string, head': string, w': string, t': string, f: string)
    requires (head + "|" + w) + "|" + t == (head' + "|" + w') + "|" + t'
    ensures Joined("1", GENESIS, head, w, t, f) == Joined("1", GENESIS, head', w', t', f)
  {
    FromTheRight(head, w, t, f);
    FromTheRight(head', w', t', f);
  }

  /** Two first anchors that pass under a prescribed commit, or without one, with one signed
      payload and different times: one of time t, one of time p|t. */
  lemma SharedByShift(p: string, w: string, t: string, commit: string, o: Options) returns (x: Record, y: Record, s: State, u: State)
    requires AsciiDigests(o) && (o.commit.None? || o.commit == Some(commit)) && Shifts(o, p, w, t)
    ensures Step(x, 1, INITIAL, s, o) && Step(y, 1, INITIAL, u, o)
    ensures PayloadText(x) == PayloadText(y) && x["anchoredAt"] == Str(t) && y["anchoredAt"] == Str(p + "|" + t)
    ensures !SameFields(x, y)
  {
    var count: Value :| IsCount(count) && Shown(count) == w;
    var head := ShiftedTexts(p, w, t);
    assert IntText(0) == "0";
    x, s := FirstAnchor(head, count, t, commit, o), FirstState(head, count, t, commit, o);
    y, u := FirstAnchor("", Int(0), p + "|" + t, commit, o), FirstState("", Int(0), p + "|" + t, commit, o);
    FirstPasses(head, count, t, commit, o);
    FirstPasses("", Int(0), p + "|" + t, commit, o);
    SamePayload(head, w, t, "", "0", p + "|" + t, commit);
    FirstFields(head, count, t, commit, o);
    FirstFields("", Int(0), p + "|" + t, commit, o);
    assert |t| != |p + "|" + t|;
  }

  lemma InitialReachable()
    ensures Reachable(INITIAL)
  {
    assert forall k | 0 <= k < |GENESIS| :: Text.IsDigit(GENESIS[k]);
  }

  // ---------- the exact conditions ----------

  /** With a prescribed commit the payload fixes all fields if and only if no accepted time ends in
      a separator and another accepted time with a count right before that separator. */
  lemma PrescribedExact(o: Options)
    requires AsciiDigests(o) && o.commit.Some?
    ensures FieldsFixed(o) <==> !TimesShift(o)
  {
    if TimesShift(o) {
      var p, w, t :| Shifts(o, p, w, t);
      var x, y, s, u := SharedByShift(p, w, t, o.commit.value, o);
      InitialReachable();
      assert Step(x, 1, INITIAL, s, o) && Step(y, 1, INITIAL, u, o) && !SameFields(x, y);
    } else {
      forall x, m, s, t, y, n, u, v |
        Reachable(s) && Reachable(u) && Step(x, m, s, t, o) && Step(y, n, u, v, o) && PayloadText(x) == PayloadText(y)
        ensures SameFields(x, y)
      {
        PrescribedFields(x, m, s, t, y, n, u, v, o);
      }
    }
  }

  /** Without a prescribed commit the payload fixes the fields only if no time is accepted at all,
      so that no anchor passes. */
  lemma UnprescribedExact(o: Options)
    requires AsciiDigests(o) && o.commit.None?
    ensures FieldsFixed(o) <==> forall at :: o.parse(at).None?
  {
    InitialReachable();
    forall at | o.parse(at).Some? ensures !FieldsFixed(o) {
      SharedByCommit("", at, "", "", o);
    }
  }

  // ---------- whole directories ----------

  lemma {:induction false} StatesReachable(paths: seq<Entry>, states: seq<State>, i: nat, o: Options)
    requires Chain(paths, states, o) && i <= |paths| && HexDigest(o.digest)
    ensures Reachable(states[i])
  {
    if i == 0 {
      InitialReachable();
    } else {
      StatesReachable(paths, states, i - 1, o);
      assert Step(paths[i - 1].anchor, i, states[i - 1], states[i], o);
    }
  }

  /** Where payloads fix fields, one last digest fixes the fields of every anchor of an accepted
      directory, or two payloads collide. */
  lemma LastDigestFixesAll(x: seq<Entry>, y: seq<Entry>, o: Options, c: Option<Record>, d: Option<Record>,
                           a: seq<Entry>, sa: seq<State>, b: seq<Entry>, sb: seq<State>, k: nat)
    requires HexDigest(o.digest) && AcceptedAs(x, o, c, a, sa) && AcceptedAs(y, o, d, b, sb)
    requires sa[|a|].anchorHash == sb[|b|].anchorHash && FieldsFixed(o)
    ensures AuditAnchors.Collides(a, b, o)
      || (|a| == |b| && (k < |a| ==> SameFields(a[k].anchor, b[k].anchor)))
  {
    LastDigestCommits(x, y, o, c, d, a, sa, b, sb, k);
    if !AuditAnchors.Collides(a, b, o) && k < |a| {
      StatesReachable(a, sa, k, o);
      StatesReachable(b, sb, k, o);
      assert Step(a[k].anchor, k + 1, sa[k], sa[k + 1], o) && Step(b[k].anchor, k + 1, sb[k], sb[k + 1], o);
    }
  }
}
