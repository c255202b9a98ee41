/** When reconciliation succeeds, how it fails, and what package URLs look like byte by byte. */
module MavenOutcomes {
  import opened Wrappers
  import opened Bytes
  import opened MavenSbom

  // ---------- package URLs ----------

  /** Bytes that percent-encoding leaves alone: letters, digits, '-', '.', '_' and '~'. */
  predicate Plain(b: byte) {
    65 <= b <= 90 || 97 <= b <= 122 || 48 <= b <= 57 || b == 45 || b == 46 || b == 95 || b == 126
  }

  const HEX: string := "0123456789ABCDEF"

  lemma HexDigits(d: nat)
    requires d < 16
    ensures HexDigit(d) == HEX[d] as int
  {
  }

  /** A plain byte prints as itself, any other as '%' and two upper-case hexadecimal digits. */
  lemma ByteQuoted(b: byte, safe: seq<byte>)
    requires safe in [GROUP_SAFE, NAME_SAFE]
    ensures QuoteByte(b, safe) == if Plain(b) then [b] else [37, HEX[b / 16] as int, HEX[b % 16] as int]
  {
    SafeSets();
    HexDigits(b / 16);
    HexDigits(b % 16);
  }

  /** Text of plain bytes is not changed. */
  lemma {:induction false} PlainText(s: seq<byte>, safe: seq<byte>)
    requires forall i | 0 <= i < |s| :: Plain(s[i])
    ensures Quote(s, safe) == s
  {
    if s != [] {
      PlainText(s[1..], safe);
      assert s == [s[0]] + s[1..];
    }
  }

  /** Encoding works byte by byte. */
  lemma {:induction false} QuoteConcat(a: seq<byte>, b: seq<byte>, safe: seq<byte>)
    ensures Quote(a + b, safe) == Quote(a, safe) + Quote(b, safe)
  {
    if a == [] {
      assert a + b == b;
    } else {
      QuoteConcat(a[1..], b, safe);
      assert (a + b)[1..] == a[1..] + b;
      Regroup(QuoteByte(a[0], safe), Quote(a[1..], safe), Quote(b, safe));
    }
  }

  /** A coordinate of plain bytes prints as pkg:maven/group/name@version. */
  lemma PlainPurl(c: Coordinate)
    requires forall i | 0 <= i < |c.group| :: Plain(c.group[i])
    requires forall i | 0 <= i < |c.name| :: Plain(c.name[i])
    requires forall i | 0 <= i < |c.version| :: Plain(c.version[i])
    ensures Purl(c) == Ascii("pkg:maven/") + c.group + [47] + c.name + [64] + c.version
  {
    PlainText(c.group, GROUP_SAFE);
    PlainText(c.name, NAME_SAFE);
    PlainText(c.version, NAME_SAFE);
  }

  lemma {:induction false} BeforeFirst(a: seq<byte>, c: byte, b: seq<byte>)
    requires c !in a
    ensures Before(a + [c] + b, c) == a
  {
    var s := a + [c] + b;
    if a != [] {
      BeforeFirst(a[1..], c, b);
      assert s[1..] == a[1..] + [c] + b && s[0] == a[0];
      assert a[0] in a && a == [a[0]] + a[1..];
    }
  }

  lemma AssembleTail(g: seq<byte>, n: seq<byte>, v: seq<byte>, tail: seq<byte>)
    ensures Assemble(g, n, v) + tail == Assemble(g, n, v + tail)
  {
    Regroup(PURL_PREFIX + g + [SLASH] + n + [AT], v, tail);
  }

  lemma QuotedParts(c: Coordinate)
    ensures var n, v := Quote(c.name, NAME_SAFE), Quote(c.version, NAME_SAFE);
      SLASH !in n && AT !in v && QUESTION !in v && HASH !in v && Unquote(n) == c.name && Unquote(v) == c.version
    ensures Unquote(Quote(c.group, GROUP_SAFE)) == c.group
  {
    SafeSets();
    QuotedBytes(c.name, NAME_SAFE);
    QuotedBytes(c.version, NAME_SAFE);
    UnquoteQuote(c.group, GROUP_SAFE);
    UnquoteQuote(c.name, NAME_SAFE);
    UnquoteQuote(c.version, NAME_SAFE);
  }

  /** Qualifiers behind '?' and a subpath behind '#' are ignored, as long as they hold no '@'. */
  lemma QualifiersIgnored(c: Coordinate, mark: byte, tail: seq<byte>)
    requires mark in [63, 35] && AT !in tail && (mark == 35 ==> QUESTION !in tail)
    ensures ParsePurl(Purl(c) + ([mark] + tail)) == Some(c)
  {
    var g, n, v := Quote(c.group, GROUP_SAFE), Quote(c.name, NAME_SAFE), Quote(c.version, NAME_SAFE);
    QuotedParts(c);
    QualifiedVersion(v, mark, tail);
    assert v + ([mark] + tail) == v + [mark] + tail;
    ParseQualified(g, n, v, v + ([mark] + tail));
    AssembleTail(g, n, v, [mark] + tail);
  }

  lemma QualifiedVersion(v: seq<byte>, mark: byte, tail: seq<byte>)
    requires mark in [63, 35] && AT !in tail && (mark == 35 ==> QUESTION !in tail)
    requires AT !in v && QUESTION !in v && HASH !in v
    ensures AT !in v + [mark] + tail && Before(Before(v + [mark] + tail, QUESTION), HASH) == v
  {
    if mark == 63 {
      BeforeFirst(v, QUESTION, tail);
      BeforeAbsent(v, HASH);
    } else {
      BeforeAbsent(v + [mark] + tail, QUESTION);
      BeforeFirst(v, HASH, tail);
    }
  }

  lemma ParseQualified(g: seq<byte>, n: seq<byte>, v: seq<byte>, qualified: seq<byte>)
    requires SLASH !in n && AT !in qualified && Before(Before(qualified, QUESTION), HASH) == v
    ensures ParsePurl(Assemble(g, n, qualified)) == Some(Coordinate(Unquote(g), Unquote(n), Unquote(v)))
  {
    var path := g + [SLASH] + n;
    var whole := Assemble(g, n, qualified);
    assert whole == PURL_PREFIX + (path + [AT] + qualified);
    assert whole[|PURL_PREFIX|..] == path + [AT] + qualified && PURL_PREFIX <= whole;
    SplitLastAt(path, AT, qualified);
    SplitLastAt(g, SLASH, n);
  }

  lemma {:induction false} NoSplit(s: seq<byte>, c: byte)
    ensures SplitLast(s, c).None? <==> c !in s
    ensures SplitLast(s, c).Some? ==> s == SplitLast(s, c).value.0 + [c] + SplitLast(s, c).value.1 && c !in SplitLast(s, c).value.1
  {
    if s != [] {
      var n := |s| - 1;
      NoSplit(s[..n], c);
      assert s == s[..n] + [s[n]];
    }
  }

  /** The text behind the prefix has an '@', and a '/' before its last '@'. */
  ghost predicate HasParts(tail: seq<byte>) { exists path, version :: AtParts(tail, path, version) && 47 in path }

  /** `path` and `version` stand before and behind the last '@'. */
  predicate AtParts(tail: seq<byte>, path: seq<byte>, version: seq<byte>) {
    tail == path + [64] + version && 64 !in version
  }

  lemma PartsFound(tail: seq<byte>)
    ensures HasParts(tail) <==> SplitLast(tail, AT).Some? && SplitLast(SplitLast(tail, AT).value.0, SLASH).Some?
  {
    NoSplit(tail, AT);
    if SplitLast(tail, AT).Some? {
      var (path, version) := SplitLast(tail, AT).value;
      NoSplit(path, SLASH);
      assert AtParts(tail, path, version);
    }
    if HasParts(tail) {
      var path, version :| AtParts(tail, path, version) && 47 in path;
      SplitLastAt(path, AT, version);
      NoSplit(path, SLASH);
    }
  }

  /** Text is a Maven URL exactly when it is the prefix and a text with these parts. */
  lemma PurlMeans(purl: seq<byte>)
    ensures ParsePurl(purl).Some? <==>
      Ascii("pkg:maven/") <= purl && HasParts(purl[|Ascii("pkg:maven/")|..])
  {
    if PURL_PREFIX <= purl { PartsFound(purl[|PURL_PREFIX|..]); }
  }

  // ---------- one package ----------

  /** A reference of type "purl" whose locator begins with "pkg:maven/". */
  predicate IsMaven(r: Reference) { r.Reference? && r.kind == "purl" && Ascii("pkg:maven/") <= r.locator }

  function MavenPositions(refs: seq<Reference>): set<int> { set k | 0 <= k < |refs| && IsMaven(refs[k]) }

  lemma {:induction false} MatchesAre(refs: seq<Reference>)
    ensures |Matches(refs)| == |MavenPositions(refs)|
    ensures forall k :: k in Matches(refs) <==> k in MavenPositions(refs)
  {
    if refs != [] {
      var n := |refs| - 1;
      MatchesAre(refs[..n]);
      assert MavenPositions(refs) == MavenPositions(refs[..n]) + if IsMaven(refs[n]) then {n} else {};
    }
  }

  /** Two manifest entries have the artifact name and version of the locator. */
  ghost predicate TwoFit(coordinates: seq<Coordinate>, name: seq<byte>, version: seq<byte>) {
    exists i, j :: 0 <= i < j < |coordinates| && Fits(coordinates[i], name, version) && Fits(coordinates[j], name, version)
  }

  /** Several coordinates fit exactly when neither none nor exactly one does. */
  lemma TwoOrFewer(coordinates: seq<Coordinate>, name: seq<byte>, version: seq<byte>)
    ensures TwoFit(coordinates, name, version) <==>
      !NoFit(coordinates, name, version) && !exists c :: OnlyFit(coordinates, c, name, version)
  {
    if !NoFit(coordinates, name, version) && !TwoFit(coordinates, name, version) {
      var i :| 0 <= i < |coordinates| && Fits(coordinates[i], name, version);
      assert OnlyFit(coordinates, coordinates[i], name, version);
    }
  }

  /** The locator is ambiguous: it parses, no manifest URL is equal to it, and two coordinates fit. */
  ghost predicate IsAmbiguous(locator: seq<byte>, coordinates: seq<Coordinate>) {
    var parsed := ParsePurl(locator);
    parsed.Some? && (forall c | c in coordinates :: Purl(c) != locator)
    && TwoFit(coordinates, parsed.value.name, parsed.value.version)
  }

  lemma CanonicalMeans(coordinates: seq<Coordinate>, locator: seq<byte>)
    ensures Canonical(coordinates, locator) <==> exists c :: c in coordinates && Purl(c) == locator
  {
    if c :| c in coordinates && Purl(c) == locator { CanonicalMember(coordinates, c); }
  }

  lemma AmbiguousIs(locator: seq<byte>, coordinates: seq<Coordinate>)
    ensures Replacement(locator, coordinates).Err? <==> IsAmbiguous(locator, coordinates)
    ensures Replacement(locator, coordinates).Err? ==> Replacement(locator, coordinates).error == Ambiguous
  {
    CanonicalMeans(coordinates, locator);
    var r, parsed := Replacement(locator, coordinates), ParsePurl(locator);
    if parsed.Some? { TwoOrFewer(coordinates, parsed.value.name, parsed.value.version); }
    forall c ensures r == Ok(Some(c)) <==>
      parsed.Some? && !Canonical(coordinates, locator) && OnlyFit(coordinates, c, parsed.value.name, parsed.value.version)
    {
      ReplacementExact(locator, coordinates, c);
    }
    ReplacementExact(locator, coordinates, Coordinate([], [], []));
    assert r.Ok? ==> r == Ok(None) || r == Ok(Some(r.value.value));
  }

  /** How a package fails: it is no object, its references are no list, it has two Maven URLs, or its
      one Maven URL is ambiguous. */
  ghost predicate Fails(p: Package, coordinates: seq<Coordinate>, e: Failure) {
    if p.NotAPackage? then e == PackageInvalid
    else if p.refs.NotAList? then e == RefsInvalid
    else if |MavenPositions(p.refs.items)| > 1 then e == MultiplePurls
    else e == Ambiguous && exists k :: 0 <= k < |p.refs.items| && IsMaven(p.refs.items[k])
                                       && IsAmbiguous(p.refs.items[k].locator, coordinates)
  }

  lemma OneMatch(refs: seq<Reference>, k: nat)
    requires |MavenPositions(refs)| <= 1 && k < |refs| && IsMaven(refs[k])
    ensures Matches(refs) == [k]
  {
    MatchesAre(refs);
    assert k in Matches(refs);
    assert |Matches(refs)| == 1 && Matches(refs) == [Matches(refs)[0]];
  }

  /** With one Maven URL the package fails as its locator does. */
  lemma OneUrlFails(p: Package, coordinates: seq<Coordinate>, k: nat)
    requires p.Package? && p.refs.RefList? && k < |p.refs.items| && IsMaven(p.refs.items[k]) && |MavenPositions(p.refs.items)| <= 1
    ensures forall e :: ReconcilePackage(p, coordinates) == Err(e) <==>
      e == Ambiguous && IsAmbiguous(p.refs.items[k].locator, coordinates)
  {
    OneMatch(p.refs.items, k);
    AmbiguousIs(p.refs.items[k].locator, coordinates);
  }

  lemma OnlyUrl(refs: seq<Reference>, k: nat, j: nat)
    requires |MavenPositions(refs)| <= 1 && k < |refs| && IsMaven(refs[k]) && j < |refs| && IsMaven(refs[j])
    ensures j == k
  {
    OneMatch(refs, k);
    OneMatch(refs, j);
  }

  lemma PackageFails(p: Package, coordinates: seq<Coordinate>, e: Failure)
    ensures ReconcilePackage(p, coordinates) == Err(e) <==> Fails(p, coordinates, e)
  {
    if p.Package? && p.refs.RefList? {
      MatchesAre(p.refs.items);
      if |MavenPositions(p.refs.items)| <= 1 {
        if k: nat :| k < |p.refs.items| && IsMaven(p.refs.items[k]) {
          OneUrlFails(p, coordinates, k);
          forall j: nat | j < |p.refs.items| && IsMaven(p.refs.items[j]) ensures j == k { OnlyUrl(p.refs.items, k, j); }
        } else {
          assert MavenPositions(p.refs.items) == {};
        }
      }
    }
  }

  /** A package without a Maven URL is kept as it is. */
  lemma OthersKept(p: Package, coordinates: seq<Coordinate>)
    requires p.Package? && p.refs.RefList? && forall r | r in p.refs.items :: !IsMaven(r)
    ensures ReconcilePackage(p, coordinates) == Ok((p, []))
  {
    MatchesAre(p.refs.items);
    assert forall k | 0 <= k < |p.refs.items| :: p.refs.items[k] in p.refs.items;
    assert MavenPositions(p.refs.items) == {};
  }

  /** A package whose one Maven URL fits exactly one coordinate, and is not canonical, gets that
      coordinate's URL. */
  lemma Replaced(p: Package, coordinates: seq<Coordinate>, k: nat, c: Coordinate)
    requires p.Package? && p.refs.RefList? && k < |p.refs.items| && IsMaven(p.refs.items[k])
    requires |MavenPositions(p.refs.items)| <= 1
    requires var locator := p.refs.items[k].locator;
      && ParsePurl(locator).Some? && (forall d | d in coordinates :: Purl(d) != locator)
      && OnlyFit(coordinates, c, ParsePurl(locator).value.name, ParsePurl(locator).value.version)
    ensures ReconcilePackage(p, coordinates)
      == Ok((p.(refs := RefList(p.refs.items[k := p.refs.items[k].(locator := Purl(c))])),
             [Change(p.spdxId, p.refs.items[k].locator, Purl(c))]))
  {
    OneMatch(p.refs.items, k);
    CanonicalMeans(coordinates, p.refs.items[k].locator);
    ReplacementExact(p.refs.items[k].locator, coordinates, c);
  }

  // ---------- the document ----------

  /** The package can be reconciled. */
  ghost predicate Passes(p: Package, coordinates: seq<Coordinate>) { forall e :: !Fails(p, coordinates, e) }

  lemma PackagePasses(p: Package, coordinates: seq<Coordinate>)
    ensures ReconcilePackage(p, coordinates).Ok? <==> Passes(p, coordinates)
    ensures ReconcilePackage(p, coordinates).Err? ==> Fails(p, coordinates, ReconcilePackage(p, coordinates).error)
  {
    forall e ensures ReconcilePackage(p, coordinates) == Err(e) <==> Fails(p, coordinates, e) { PackageFails(p, coordinates, e); }
    var r := ReconcilePackage(p, coordinates);
    if r.Err? { assert r == Err(r.error); }
  }

  /** A document is reconciled exactly when each of its packages can be. */
  lemma {:induction false} DocumentPasses(packages: seq<Package>, coordinates: seq<Coordinate>)
    ensures ReconcileAll(packages, coordinates).Ok? <==> forall i | 0 <= i < |packages| :: Passes(packages[i], coordinates)
  {
    if packages != [] {
      var init, last := packages[..|packages| - 1], packages[|packages| - 1];
      DocumentPasses(init, coordinates);
      PackagePasses(last, coordinates);
      assert packages == init + [last];
    }
  }

  /** Otherwise its failure is that of the first package that cannot. */
  lemma {:induction false} DocumentFails(packages: seq<Package>, coordinates: seq<Coordinate>) returns (i: nat)
    requires ReconcileAll(packages, coordinates).Err?
    ensures i < |packages| && Fails(packages[i], coordinates, ReconcileAll(packages, coordinates).error)
    ensures forall j | 0 <= j < i :: Passes(packages[j], coordinates)
  {
    var n := |packages| - 1;
    if ReconcileAll(packages[..n], coordinates).Err? {
      i := DocumentFails(packages[..n], coordinates);
    } else {
      i := n;
      DocumentPasses(packages[..n], coordinates);
      PackagePasses(packages[n], coordinates);
      assert forall j | 0 <= j < n :: packages[..n][j] == packages[j];
    }
  }
}
