/** Maven package URLs and the reconciliation of an SBOM with resolved coordinates. Text is its
    UTF-8 bytes, as percent-encoding sees it. */
module MavenSbom {
  import opened Wrappers
  import opened Bytes

  datatype Coordinate = Coordinate(group: seq<byte>, name: seq<byte>, version: seq<byte>)

  const PURL_PREFIX: seq<byte> := Ascii("pkg:maven/")
  const SLASH: byte := 47
  const AT: byte := 64
  const QUESTION: byte := 63
  const HASH: byte := 35
  const PERCENT: byte := 37

  // ---------- percent-encoding ----------

  predicate IsAlnum(b: byte) { 48 <= b <= 57 || 65 <= b <= 90 || 97 <= b <= 122 }

  /** The unreserved bytes of RFC 3986, section 2.3: letters, digits, '-', '.', '_' and '~'. */
  predicate IsUnreserved(b: byte) { IsAlnum(b) || b == 45 || b == 46 || b == 95 || b == 126 }

  function HexDigit(d: nat): (b: byte)
    requires d < 16
    ensures IsUnreserved(b)
  {
    if d < 10 then 48 + d else 55 + d
  }

  /** The value of a hexadecimal digit of either case. */
  function HexValue(b: byte): Option<nat> {
    if 48 <= b <= 57 then Some(b - 48)
    else if 65 <= b <= 70 then Some(b - 55)
    else if 97 <= b <= 102 then Some(b - 87)
    else None
  }

  function QuoteByte(b: byte, safe: seq<byte>): seq<byte> {
    if IsUnreserved(b) || b in safe then [b] else [PERCENT, HexDigit(b / 16), HexDigit(b % 16)]
  }

  /** urllib.parse.quote(s, safe) */
  function Quote(s: seq<byte>, safe: seq<byte>): seq<byte> {
    if s == [] then [] else QuoteByte(s[0], safe) + Quote(s[1..], safe)
  }

  /** urllib.parse.unquote: a percent sign not followed by two hexadecimal digits stays. */
  function Unquote(s: seq<byte>): seq<byte> {
    if s == [] then []
    else if s[0] == PERCENT && |s| >= 3 && HexValue(s[1]).Some? && HexValue(s[2]).Some?
    then [16 * HexValue(s[1]).value + HexValue(s[2]).value] + Unquote(s[3..])
    else [s[0]] + Unquote(s[1..])
  }

  const GROUP_SAFE: seq<byte> := Ascii(".")
  const NAME_SAFE: seq<byte> := Ascii(".-_")

  /** The safe bytes used here are unreserved anyway. */
  predicate SafeSet(safe: seq<byte>) { forall i | 0 <= i < |safe| :: IsUnreserved(safe[i]) }

  lemma HexRoundTrip(b: byte)
    ensures HexValue(HexDigit(b / 16)) == Some(b / 16) && HexValue(HexDigit(b % 16)) == Some(b % 16)
  {
  }

  lemma {:induction false} UnquoteQuote(s: seq<byte>, safe: seq<byte>)
    requires SafeSet(safe)
    ensures Unquote(Quote(s, safe)) == s
  {
    if s != [] {
      UnquoteQuote(s[1..], safe);
      UnquoteByte(s[0], safe, Quote(s[1..], safe));
      assert s == [s[0]] + s[1..];
    }
  }

  lemma UnquoteByte(b: byte, safe: seq<byte>, rest: seq<byte>)
    requires SafeSet(safe)
    ensures Unquote(QuoteByte(b, safe) + rest) == [b] + Unquote(rest)
  {
    var q := QuoteByte(b, safe) + rest;
    if IsUnreserved(b) || b in safe {
      assert q[1..] == rest;
    } else {
      HexRoundTrip(b);
      assert q[3..] == rest;
      assert 16 * (b / 16) + b % 16 == b;
    }
  }

  /** Quoted text consists of unreserved bytes and percent signs. */
  lemma {:induction false} QuotedBytes(s: seq<byte>, safe: seq<byte>)
    requires SafeSet(safe)
    ensures forall b | b in Quote(s, safe) :: IsUnreserved(b) || b == PERCENT
  {
    if s != [] {
      QuotedBytes(s[1..], safe);
      forall b | b in Quote(s, safe) ensures IsUnreserved(b) || b == PERCENT {
        assert b in QuoteByte(s[0], safe) || b in Quote(s[1..], safe);
      }
    }
  }

  // ---------- package URLs ----------

  /** MavenCoordinate.purl */
  function Purl(c: Coordinate): seq<byte> {
    PURL_PREFIX + Quote(c.group, GROUP_SAFE) + [SLASH] + Quote(c.name, NAME_SAFE) + [AT] + Quote(c.version, NAME_SAFE)
  }

  /** s.rsplit(c, 1), when c occurs. */
  function SplitLast(s: seq<byte>, c: byte): Option<(seq<byte>, seq<byte>)> {
    if s == [] then None
    else if s[|s| - 1] == c then Some((s[..|s| - 1], []))
    else
      var r := SplitLast(s[..|s| - 1], c);
      if r.None? then None else Some((r.value.0, r.value.1 + [s[|s| - 1]]))
  }

  /** s.split(c, 1)[0] */
  function Before(s: seq<byte>, c: byte): seq<byte> {
    if s == [] || s[0] == c then [] else [s[0]] + Before(s[1..], c)
  }

  /** parse_maven_purl */
  function ParsePurl(purl: seq<byte>): Option<Coordinate> {
    if !(PURL_PREFIX <= purl) then None
    else
      var outer := SplitLast(purl[|PURL_PREFIX|..], AT);
      if outer.None? then None
      else
        var inner := SplitLast(outer.value.0, SLASH);
        if inner.None? then None
        else
          var version := Before(Before(outer.value.1, QUESTION), HASH);
          Some(Coordinate(Unquote(inner.value.0), Unquote(inner.value.1), Unquote(version)))
  }

  lemma {:induction false} SplitLastAt(a: seq<byte>, c: byte, b: seq<byte>)
    requires c !in b
    ensures SplitLast(a + [c] + b, c) == Some((a, b))
  {
    var s := a + [c] + b;
    if b == [] {
      assert s[..|s| - 1] == a;
    } else {
      var n := |b| - 1;
      SplitLastAt(a, c, b[..n]);
      assert s[..|s| - 1] == a + [c] + b[..n];
      assert b[n] in b && b[..n] + [b[n]] == b;
    }
  }

  lemma {:induction false} BeforeAbsent(s: seq<byte>, c: byte)
    requires c !in s
    ensures Before(s, c) == s
  {
    if s != [] {
      BeforeAbsent(s[1..], c);
      assert s[0] in s && [s[0]] + s[1..] == s;
    }
  }

  lemma SafeSets()
    ensures SafeSet(GROUP_SAFE) && SafeSet(NAME_SAFE)
  {
  }

  function Assemble(g: seq<byte>, n: seq<byte>, v: seq<byte>): seq<byte> {
    PURL_PREFIX + g + [SLASH] + n + [AT] + v
  }

  /** The separators are found wherever the parts do not contain them. */
  lemma ParseAssembled(g: seq<byte>, n: seq<byte>, v: seq<byte>)
    requires SLASH !in n && AT !in v && QUESTION !in v && HASH !in v
    ensures ParsePurl(Assemble(g, n, v)) == Some(Coordinate(Unquote(g), Unquote(n), Unquote(v)))
  {
    var path := g + [SLASH] + n;
    var whole := Assemble(g, n, v);
    assert whole == PURL_PREFIX + (path + [AT] + v);
    assert whole[|PURL_PREFIX|..] == path + [AT] + v && PURL_PREFIX <= whole;
    SplitLastAt(path, AT, v);
    SplitLastAt(g, SLASH, n);
    BeforeAbsent(v, QUESTION);
    BeforeAbsent(v, HASH);
  }

  /** Parsing a printed coordinate gives it back, for every text of its three parts. */
  lemma PurlRoundTrip(c: Coordinate)
    ensures ParsePurl(Purl(c)) == Some(c)
  {
    SafeSets();
    QuotedBytes(c.name, NAME_SAFE);
    QuotedBytes(c.version, NAME_SAFE);
    UnquoteQuote(c.group, GROUP_SAFE);
    UnquoteQuote(c.name, NAME_SAFE);
    UnquoteQuote(c.version, NAME_SAFE);
    ParseAssembled(Quote(c.group, GROUP_SAFE), Quote(c.name, NAME_SAFE), Quote(c.version, NAME_SAFE));
  }

  /** No two coordinates share a package URL. */
  lemma PurlInjective(c: Coordinate, d: Coordinate)
    requires Purl(c) == Purl(d)
    ensures c == d
  {
    PurlRoundTrip(c);
    PurlRoundTrip(d);
  }

  // ---------- documents ----------

  /** An external reference: an object with its type and locator, or something else. */
  datatype Reference = Reference(kind: string, locator: seq<byte>) | NotAReference

  datatype References = RefList(items: seq<Reference>) | NotAList

  datatype Package = Package(name: string, spdxId: string, refs: References) | NotAPackage

  datatype Change = Change(spdxId: string, original: seq<byte>, canonical: seq<byte>)

  datatype Failure = PackagesInvalid | PackageInvalid | RefsInvalid | MultiplePurls | Ambiguous

  predicate IsMavenPurl(r: Reference) { r.Reference? && r.kind == "purl" && PURL_PREFIX <= r.locator }

  /** The positions of the Maven package URLs of a reference list. */
  function Matches(refs: seq<Reference>): (ks: seq<nat>)
    ensures forall i | 0 <= i < |ks| :: ks[i] < |refs| && IsMavenPurl(refs[ks[i]])
  {
    if refs == [] then []
    else
      var n := |refs| - 1;
      Matches(refs[..n]) + (if IsMavenPurl(refs[n]) then [n] else [])
  }

  /** package_purl_reference, as a position. */
  function PurlReference(refs: References): (r: Result<Option<nat>, Failure>)
    ensures r.Ok? && r.value.Some? ==> refs.RefList? && r.value.value < |refs.items| && IsMavenPurl(refs.items[r.value.value])
  {
    if refs.NotAList? then Err(RefsInvalid)
    else
      var ks := Matches(refs.items);
      if |ks| > 1 then Err(MultiplePurls) else Ok(if ks == [] then None else Some(ks[0]))
  }

  /** The coordinates of an artifact name and version, in manifest order. */
  function Candidates(coordinates: seq<Coordinate>, name: seq<byte>, version: seq<byte>): (found: seq<Coordinate>)
    ensures forall c | c in found :: c in coordinates && c.name == name && c.version == version
  {
    if coordinates == [] then []
    else
      var last := coordinates[|coordinates| - 1];
      Candidates(coordinates[..|coordinates| - 1], name, version)
      + (if last.name == name && last.version == version then [last] else [])
  }

  /** locator in {coordinate.purl for coordinate in coordinates} */
  predicate Canonical(coordinates: seq<Coordinate>, locator: seq<byte>) {
    exists i | 0 <= i < |coordinates| :: Purl(coordinates[i]) == locator
  }

  /** The replacement for a locator, None when it stays. */
  function Replacement(locator: seq<byte>, coordinates: seq<Coordinate>): Result<Option<Coordinate>, Failure> {
    var parsed := ParsePurl(locator);
    if parsed.None? || Canonical(coordinates, locator) then Ok(None)
    else
      var found := Candidates(coordinates, parsed.value.name, parsed.value.version);
      if |found| > 1 then Err(Ambiguous) else Ok(if found == [] then None else Some(found[0]))
  }

  function SetLocator(p: Package, k: nat, locator: seq<byte>): Package
    requires p.Package? && p.refs.RefList? && k < |p.refs.items| && p.refs.items[k].Reference?
  {
    p.(refs := RefList(p.refs.items[k := p.refs.items[k].(locator := locator)]))
  }

  /** One package: what it becomes, and the change if its locator is replaced. */
  function ReconcilePackage(p: Package, coordinates: seq<Coordinate>): Result<(Package, seq<Change>), Failure> {
    if p.NotAPackage? then Err(PackageInvalid)
    else
      var reference := PurlReference(p.refs);
      if reference.Err? then Err(reference.error)
      else if reference.value.None? then Ok((p, []))
      else
        var k := reference.value.value;
        var original := p.refs.items[k].locator;
        var replacement := Replacement(original, coordinates);
        if replacement.Err? then Err(replacement.error)
        else if replacement.value.None? then Ok((p, []))
        else
          var canonical := Purl(replacement.value.value);
          Ok((SetLocator(p, k, canonical), [Change(p.spdxId, original, canonical)]))
  }

  function ReconcileAll(packages: seq<Package>, coordinates: seq<Coordinate>): Result<(seq<Package>, seq<Change>), Failure> {
    if packages == [] then Ok(([], []))
    else
      var n := |packages| - 1;
      var init := ReconcileAll(packages[..n], coordinates);
      if init.Err? then init
      else
        var last := ReconcilePackage(packages[n], coordinates);
        if last.Err? then Err(last.error) else Ok((init.value.0 + [last.value.0], init.value.1 + last.value.1))
  }

  // ---------- reconcile_document ----------

  /** The index by artifact name and version that the source fills before its pass. */
  ghost predicate Indexes(index: map<(seq<byte>, seq<byte>), seq<Coordinate>>, coordinates: seq<Coordinate>) {
    forall name, version :: Lookup(index, name, version) == Candidates(coordinates, name, version)
  }

  function Lookup(index: map<(seq<byte>, seq<byte>), seq<Coordinate>>, name: seq<byte>, version: seq<byte>): seq<Coordinate> {
    if (name, version) in index then index[(name, version)] else []
  }

  method BuildIndex(coordinates: seq<Coordinate>) returns (index: map<(seq<byte>, seq<byte>), seq<Coordinate>>)
    ensures Indexes(index, coordinates)
  {
    index := map[];
    var i := 0;
    while i < |coordinates|
      invariant 0 <= i <= |coordinates|
      invariant Indexes(index, coordinates[..i])
    {
      var c := coordinates[i];
      ghost var before := index;
      index := index[(c.name, c.version) := Lookup(index, c.name, c.version) + [c]];
      forall name, version ensures Lookup(index, name, version) == Candidates(coordinates[..i + 1], name, version) {
        assert coordinates[..i + 1][..i] == coordinates[..i];
        assert Lookup(before, name, version) == Candidates(coordinates[..i], name, version);
      }
      i := i + 1;
    }
    assert coordinates[..i] == coordinates;
  }

  method CanonicalSet(coordinates: seq<Coordinate>) returns (purls: set<seq<byte>>)
    ensures forall locator :: locator in purls <==> Canonical(coordinates, locator)
  {
    purls := {};
    var i := 0;
    while i < |coordinates|
      invariant 0 <= i <= |coordinates|
      invariant forall locator :: locator in purls <==> Canonical(coordinates[..i], locator)
    {
      ghost var before := purls;
      purls := purls + {Purl(coordinates[i])};
      forall locator ensures locator in purls <==> Canonical(coordinates[..i + 1], locator) {
        assert locator in before <==> Canonical(coordinates[..i], locator);
        CanonicalNext(coordinates, i, locator);
      }
      i := i + 1;
    }
    assert coordinates[..i] == coordinates;
  }

  lemma CanonicalNext(coordinates: seq<Coordinate>, i: nat, locator: seq<byte>)
    requires i < |coordinates|
    ensures Canonical(coordinates[..i + 1], locator) <==> Canonical(coordinates[..i], locator) || Purl(coordinates[i]) == locator
  {
    var longer, shorter := coordinates[..i + 1], coordinates[..i];
    assert longer[i] == coordinates[i] && forall k | 0 <= k < i :: longer[k] == shorter[k];
    if Canonical(shorter, locator) {
      var k :| 0 <= k < i && Purl(shorter[k]) == locator;
      assert Purl(longer[k]) == locator;
    }
  }

  lemma CanonicalMember(coordinates: seq<Coordinate>, c: Coordinate)
    requires c in coordinates
    ensures Canonical(coordinates, Purl(c))
  {
  }

  /** One more package at the end of the pass. */
  lemma ReconcileStep(packages: seq<Package>, i: nat, coordinates: seq<Coordinate>)
    requires i < |packages|
    ensures var init, last := ReconcileAll(packages[..i], coordinates), ReconcilePackage(packages[i], coordinates);
      ReconcileAll(packages[..i + 1], coordinates)
        == if init.Err? then init
           else if last.Err? then Err(last.error)
           else Ok((init.value.0 + [last.value.0], init.value.1 + last.value.1))
  {
    assert packages[..i + 1][..i] == packages[..i];
  }

  /** reconcile_document, on the deep copy of the packages. */
  method Reconcile(packages: Option<seq<Package>>, coordinates: seq<Coordinate>)
    returns (r: Result<(seq<Package>, seq<Change>), Failure>)
    ensures packages.None? ==> r == Err(PackagesInvalid)
    ensures packages.Some? ==> r == ReconcileAll(packages.value, coordinates)
  {
    if packages.None? { return Err(PackagesInvalid); }
    var normalized := packages.value;
    var canonical := CanonicalSet(coordinates);
    var index := BuildIndex(coordinates);
    var changes: seq<Change>, i := [], 0;
    while i < |normalized|
      invariant 0 <= i <= |normalized| == |packages.value|
      invariant forall j | i <= j < |normalized| :: normalized[j] == packages.value[j]
      invariant ReconcileAll(packages.value[..i], coordinates) == Ok((normalized[..i], changes))
    {
      var package := normalized[i];
      ReconcileStep(packages.value, i, coordinates);
      var step := ReconcileOne(package, canonical, index, coordinates);
      if step.Err? {
        FailureStays(packages.value, i + 1, coordinates);
        return Err(step.error);
      }
      ghost var done := normalized[..i];
      normalized, changes := normalized[i := step.value.0], changes + step.value.1;
      assert normalized[..i + 1] == done + [step.value.0];
      i := i + 1;
    }
    assert normalized[..i] == normalized && packages.value[..i] == packages.value;
    return Ok((normalized, changes));
  }

  /** The body of the pass for one package, by the canonical set and the index. */
  method ReconcileOne(package: Package, canonical: set<seq<byte>>, index: map<(seq<byte>, seq<byte>), seq<Coordinate>>,
                      ghost coordinates: seq<Coordinate>)
    returns (r: Result<(Package, seq<Change>), Failure>)
    requires Indexes(index, coordinates) && forall locator :: locator in canonical <==> Canonical(coordinates, locator)
    ensures r == ReconcilePackage(package, coordinates)
  {
    if package.NotAPackage? { return Err(PackageInvalid); }
    var reference := PurlReference(package.refs);
    if reference.Err? { return Err(reference.error); }
    if reference.value.None? { return Ok((package, [])); }
    var original := package.refs.items[reference.value.value].locator;
    var parsed := ParsePurl(original);
    if parsed.None? || original in canonical { return Ok((package, [])); }
    var candidates := Lookup(index, parsed.value.name, parsed.value.version);
    if |candidates| > 1 { return Err(Ambiguous); }
    if |candidates| != 1 { return Ok((package, [])); }
    var replacement := Purl(candidates[0]);
    return Ok((SetLocator(package, reference.value.value, replacement), [Change(package.spdxId, original, replacement)]));
  }

  lemma {:induction false} FailureStays(packages: seq<Package>, n: nat, coordinates: seq<Coordinate>)
    requires n <= |packages| && ReconcileAll(packages[..n], coordinates).Err?
    ensures ReconcileAll(packages, coordinates) == ReconcileAll(packages[..n], coordinates)
  {
    if n < |packages| {
      var init := packages[..|packages| - 1];
      assert init[..n] == packages[..n];
      FailureStays(init, n, coordinates);
    } else {
      assert packages[..n] == packages;
    }
  }

  // ---------- laws ----------

  /** What a package may become: itself, or itself with the locator of its one Maven reference
      replaced by the canonical URL of a manifest coordinate of the same name and version. */
  ghost predicate Reconciled(before: Package, after: Package, coordinates: seq<Coordinate>) {
    before == after
    || (&& before.Package? && after.Package? && before.name == after.name && before.spdxId == after.spdxId
        && before.refs.RefList? && after.refs.RefList? && |before.refs.items| == |after.refs.items|
        && exists k, c :: 0 <= k < |before.refs.items| && c in coordinates && Rewrites(before, after, k, c))
  }

  ghost predicate Rewrites(before: Package, after: Package, k: nat, c: Coordinate)
    requires before.Package? && after.Package? && before.refs.RefList? && after.refs.RefList?
    requires |before.refs.items| == |after.refs.items| && k < |before.refs.items|
  {
    var x, y := before.refs.items[k], after.refs.items[k];
    && (forall j | 0 <= j < |before.refs.items| && j != k :: after.refs.items[j] == before.refs.items[j])
    && x.Reference? && y.Reference? && x.kind == y.kind && y.locator == Purl(c) && x.locator != y.locator
    && ParsePurl(x.locator).Some? && ParsePurl(y.locator) == Some(c)
    && ParsePurl(x.locator).value.name == c.name && ParsePurl(x.locator).value.version == c.version
  }

  lemma PackageReconciled(p: Package, coordinates: seq<Coordinate>)
    requires ReconcilePackage(p, coordinates).Ok?
    ensures Reconciled(p, ReconcilePackage(p, coordinates).value.0, coordinates)
    ensures ReconcilePackage(p, coordinates).value.0 == p <==> ReconcilePackage(p, coordinates).value.1 == []
  {
    var (after, changes) := ReconcilePackage(p, coordinates).value;
    if changes != [] {
      var k := PurlReference(p.refs).value.value;
      var c := Replacement(p.refs.items[k].locator, coordinates).value.value;
      ReplacementIsNew(p.refs.items[k].locator, coordinates);
      PurlRoundTrip(c);
      assert Rewrites(p, after, k, c);
      assert p.refs.items[k].locator != after.refs.items[k].locator;
    }
  }

  lemma ReplacementIsNew(locator: seq<byte>, coordinates: seq<Coordinate>)
    requires Replacement(locator, coordinates).Ok? && Replacement(locator, coordinates).value.Some?
    ensures var c := Replacement(locator, coordinates).value.value;
      c in coordinates && Purl(c) != locator && Canonical(coordinates, Purl(c))
      && ParsePurl(locator).Some? && ParsePurl(locator).value.name == c.name && ParsePurl(locator).value.version == c.version
  {
    var parsed := ParsePurl(locator).value;
    var found := Candidates(coordinates, parsed.name, parsed.version);
    assert found[0] in found;
    CanonicalMember(coordinates, found[0]);
  }

  /** Reconciliation keeps the number and order of the packages, rewrites nothing but the locator
      of a package's one Maven reference, and there keeps the artifact name and version. */
  lemma {:induction false} ReconcileKeepsPackages(packages: seq<Package>, coordinates: seq<Coordinate>, i: nat)
    requires ReconcileAll(packages, coordinates).Ok? && i < |packages|
    ensures |ReconcileAll(packages, coordinates).value.0| == |packages|
    ensures Reconciled(packages[i], ReconcileAll(packages, coordinates).value.0[i], coordinates)
  {
    var n := |packages| - 1;
    ReconcileStep(packages, n, coordinates);
    assert packages[..n + 1] == packages;
    if n > 0 { ReconcileKeepsPackages(packages[..n], coordinates, if i < n then i else 0); }
    if i == n {
      PackageReconciled(packages[n], coordinates);
    }
  }

  /** Replacing a Maven locator by another Maven locator leaves the matches where they are. */
  lemma {:induction false} MatchesStay(refs: seq<Reference>, k: nat, locator: seq<byte>)
    requires k < |refs| && IsMavenPurl(refs[k]) && PURL_PREFIX <= locator
    ensures Matches(refs[k := refs[k].(locator := locator)]) == Matches(refs)
  {
    var n := |refs| - 1;
    var updated := refs[k := refs[k].(locator := locator)];
    if k < n {
      MatchesStay(refs[..n], k, locator);
      assert updated[..n] == refs[..n][k := refs[k].(locator := locator)];
    } else {
      assert updated[..n] == refs[..n];
    }
  }

  lemma PackageSettled(p: Package, coordinates: seq<Coordinate>)
    requires ReconcilePackage(p, coordinates).Ok?
    ensures ReconcilePackage(ReconcilePackage(p, coordinates).value.0, coordinates)
         == Ok((ReconcilePackage(p, coordinates).value.0, []))
  {
    var (after, changes) := ReconcilePackage(p, coordinates).value;
    PackageReconciled(p, coordinates);
    if changes != [] {
      var k := PurlReference(p.refs).value.value;
      var c := Replacement(p.refs.items[k].locator, coordinates).value.value;
      ReplacementIsNew(p.refs.items[k].locator, coordinates);
      assert PURL_PREFIX <= Purl(c);
      MatchesStay(p.refs.items, k, Purl(c));
      assert PurlReference(after.refs) == Ok(Some(k));
    }
  }

  lemma SettledLast(init: seq<Package>, last: Package, coordinates: seq<Coordinate>)
    requires ReconcileAll(init, coordinates) == Ok((init, [])) && ReconcilePackage(last, coordinates) == Ok((last, []))
    ensures ReconcileAll(init + [last], coordinates) == Ok((init + [last], []))
  {
    var all, none: seq<Change> := init + [last], [];
    assert none + none == none;
    ReconcileStep(all, |init|, coordinates);
    assert all[..|init|] == init && all[|init|] == last && all[..|init| + 1] == all;
  }

  /** Reconciling a reconciled document changes nothing and reports no change. */
  lemma {:induction false} ReconcileIdempotent(packages: seq<Package>, coordinates: seq<Coordinate>)
    requires ReconcileAll(packages, coordinates).Ok?
    ensures var once := ReconcileAll(packages, coordinates).value.0;
      ReconcileAll(once, coordinates) == Ok((once, []))
  {
    if packages != [] {
      var n := |packages| - 1;
      ReconcileIdempotent(packages[..n], coordinates);
      PackageSettled(packages[n], coordinates);
      var init, last := ReconcileAll(packages[..n], coordinates).value.0, ReconcilePackage(packages[n], coordinates).value.0;
      SettledLast(init, last, coordinates);
      assert ReconcileAll(packages, coordinates).value.0 == init + [last];
    }
  }

  /** The change list is empty exactly when the document is returned as it was. */
  lemma {:induction false} NoChangeIsIdentity(packages: seq<Package>, coordinates: seq<Coordinate>)
    requires ReconcileAll(packages, coordinates).Ok?
    ensures ReconcileAll(packages, coordinates).value.1 == [] <==> ReconcileAll(packages, coordinates).value.0 == packages
    ensures |ReconcileAll(packages, coordinates).value.0| == |packages|
  {
    if packages != [] {
      var n := |packages| - 1;
      NoChangeIsIdentity(packages[..n], coordinates);
      PackageReconciled(packages[n], coordinates);
      var init := ReconcileAll(packages[..n], coordinates).value.0;
      var all := ReconcileAll(packages, coordinates).value.0;
      assert all[..n] == init && all[n] == ReconcilePackage(packages[n], coordinates).value.0;
      assert all == packages <==> init == packages[..n] && all[n] == packages[n];
    }
  }

  // ---------- when a locator is replaced ----------

  predicate Fits(c: Coordinate, name: seq<byte>, version: seq<byte>) { c.name == name && c.version == version }

  /** Exactly one manifest entry, this one, has the name and version. */
  ghost predicate OnlyFit(coordinates: seq<Coordinate>, c: Coordinate, name: seq<byte>, version: seq<byte>) {
    exists i :: 0 <= i < |coordinates| && coordinates[i] == c && Fits(c, name, version)
      && forall j | 0 <= j < |coordinates| && j != i :: !Fits(coordinates[j], name, version)
  }

  ghost predicate NoFit(coordinates: seq<Coordinate>, name: seq<byte>, version: seq<byte>) {
    forall j | 0 <= j < |coordinates| :: !Fits(coordinates[j], name, version)
  }

  lemma {:induction false} NoCandidate(coordinates: seq<Coordinate>, name: seq<byte>, version: seq<byte>)
    ensures Candidates(coordinates, name, version) == [] <==> NoFit(coordinates, name, version)
  {
    if coordinates != [] {
      var init, last := coordinates[..|coordinates| - 1], coordinates[|coordinates| - 1];
      NoCandidate(init, name, version);
      assert coordinates == init + [last];
      NoFitLast(init, last, name, version);
    }
  }

  lemma {:induction false} OneCandidate(coordinates: seq<Coordinate>, c: Coordinate, name: seq<byte>, version: seq<byte>)
    ensures Candidates(coordinates, name, version) == [c] <==> OnlyFit(coordinates, c, name, version)
  {
    if coordinates != [] {
      var init, last := coordinates[..|coordinates| - 1], coordinates[|coordinates| - 1];
      OneCandidate(init, c, name, version);
      NoCandidate(init, name, version);
      assert coordinates == init + [last];
      OnlyFitLast(init, last, c, name, version);
      OneMore(Candidates(init, name, version), last, c);
    }
  }

  lemma OneMore(found: seq<Coordinate>, last: Coordinate, c: Coordinate)
    ensures found + [last] == [c] <==> found == [] && last == c
  {
    assert found + [last] == [c] ==> |found| == 0 && (found + [last])[0] == c;
  }

  lemma NoFitLast(init: seq<Coordinate>, last: Coordinate, name: seq<byte>, version: seq<byte>)
    ensures NoFit(init + [last], name, version) <==> NoFit(init, name, version) && !Fits(last, name, version)
  {
    var all := init + [last];
    assert all[|init|] == last && forall j | 0 <= j < |init| :: all[j] == init[j];
  }

  lemma OnlyFitLast(init: seq<Coordinate>, last: Coordinate, c: Coordinate, name: seq<byte>, version: seq<byte>)
    ensures OnlyFit(init + [last], c, name, version) <==>
      if Fits(last, name, version) then NoFit(init, name, version) && c == last else OnlyFit(init, c, name, version)
  {
    var all := init + [last];
    assert all[|init|] == last && forall j | 0 <= j < |init| :: all[j] == init[j];
    if OnlyFit(init, c, name, version) && !Fits(last, name, version) {
      var i :| 0 <= i < |init| && init[i] == c && Fits(c, name, version)
        && forall j | 0 <= j < |init| && j != i :: !Fits(init[j], name, version);
      assert all[i] == c;
    }
  }

  /** A locator is replaced by a coordinate's URL exactly when it is a package URL, is not already
      canonical, and that coordinate alone has its name and version; it is ambiguous exactly when
      several have. */
  lemma ReplacementExact(locator: seq<byte>, coordinates: seq<Coordinate>, c: Coordinate)
    ensures var parsed, r := ParsePurl(locator), Replacement(locator, coordinates);
      && (r == Ok(Some(c)) <==> parsed.Some? && !Canonical(coordinates, locator)
                                && OnlyFit(coordinates, c, parsed.value.name, parsed.value.version))
      && (r == Ok(None) <==> parsed.None? || Canonical(coordinates, locator)
                             || NoFit(coordinates, parsed.value.name, parsed.value.version))
  {
    var parsed := ParsePurl(locator);
    if parsed.Some? {
      var found := Candidates(coordinates, parsed.value.name, parsed.value.version);
      NoCandidate(coordinates, parsed.value.name, parsed.value.version);
      OneCandidate(coordinates, c, parsed.value.name, parsed.value.version);
      assert |found| == 1 ==> found == [found[0]];
    }
  }

  /** A locator reconciliation has nothing to do about. */
  predicate Resolved(locator: seq<byte>, coordinates: seq<Coordinate>) {
    Replacement(locator, coordinates) == Ok(None)
  }

  lemma {:induction false} MatchesComplete(refs: seq<Reference>, k: nat)
    requires k < |refs| && IsMavenPurl(refs[k])
    ensures k in Matches(refs)
  {
    if k < |refs| - 1 { MatchesComplete(refs[..|refs| - 1], k); }
  }

  lemma PackageResolved(p: Package, coordinates: seq<Coordinate>, k: nat)
    requires ReconcilePackage(p, coordinates) == Ok((p, [])) && p.refs.RefList?
    requires k < |p.refs.items| && IsMavenPurl(p.refs.items[k])
    ensures Resolved(p.refs.items[k].locator, coordinates)
  {
    MatchesComplete(p.refs.items, k);
  }

  lemma {:induction false} SettledEach(packages: seq<Package>, coordinates: seq<Coordinate>, i: nat)
    requires ReconcileAll(packages, coordinates) == Ok((packages, [])) && i < |packages|
    ensures ReconcilePackage(packages[i], coordinates) == Ok((packages[i], []))
  {
    var n := |packages| - 1;
    ReconcileStep(packages, n, coordinates);
    assert packages[..n + 1] == packages;
    var init, last := ReconcileAll(packages[..n], coordinates).value, ReconcilePackage(packages[n], coordinates).value;
    NoChangeIsIdentity(packages[..n], coordinates);
    assert init.1 + last.1 == [];
    assert init.1 == [] && last.1 == [];
    assert (init.0 + [last.0])[n] == last.0;
    if i < n { SettledEach(packages[..n], coordinates, i); }
  }

  /** After reconciliation every Maven package URL of the document is canonical, unparseable, or
      of a name and version the manifest does not have. */
  lemma ReconcileResolves(packages: seq<Package>, coordinates: seq<Coordinate>, i: nat, k: nat)
    requires ReconcileAll(packages, coordinates).Ok?
    requires var once := ReconcileAll(packages, coordinates).value.0;
      i < |once| && once[i].Package? && once[i].refs.RefList? && k < |once[i].refs.items| && IsMavenPurl(once[i].refs.items[k])
    ensures var locator := ReconcileAll(packages, coordinates).value.0[i].refs.items[k].locator;
      Canonical(coordinates, locator) || ParsePurl(locator).None?
      || NoFit(coordinates, ParsePurl(locator).value.name, ParsePurl(locator).value.version)
  {
    var once := ReconcileAll(packages, coordinates).value.0;
    ReconcileIdempotent(packages, coordinates);
    SettledEach(once, coordinates, i);
    PackageResolved(once[i], coordinates, k);
    ReplacementExact(once[i].refs.items[k].locator, coordinates, Coordinate([], [], []));
  }

  // ---------- the change list ----------

  /** The locators that differ between two versions of a reference list. */
  function RefDifferences(spdxId: string, before: seq<Reference>, after: seq<Reference>): seq<Change>
    requires |before| == |after|
  {
    if before == [] then []
    else
      var n := |before| - 1;
      var x, y := before[n], after[n];
      RefDifferences(spdxId, before[..n], after[..n])
      + (if x.Reference? && y.Reference? && x.locator != y.locator then [Change(spdxId, x.locator, y.locator)] else [])
  }

  function PackageDifferences(before: Package, after: Package): seq<Change> {
    if before.Package? && after.Package? && before.refs.RefList? && after.refs.RefList?
       && |before.refs.items| == |after.refs.items|
    then RefDifferences(before.spdxId, before.refs.items, after.refs.items)
    else []
  }

  function Differences(before: seq<Package>, after: seq<Package>): seq<Change>
    requires |before| == |after|
  {
    if before == [] then []
    else Differences(before[..|before| - 1], after[..|after| - 1])
         + PackageDifferences(before[|before| - 1], after[|after| - 1])
  }

  lemma {:induction false} NoRefDifferences(spdxId: string, refs: seq<Reference>)
    ensures RefDifferences(spdxId, refs, refs) == []
  {
    if refs != [] { NoRefDifferences(spdxId, refs[..|refs| - 1]); }
  }

  lemma {:induction false} OneRefDifference(spdxId: string, refs: seq<Reference>, k: nat, locator: seq<byte>)
    requires k < |refs| && refs[k].Reference? && refs[k].locator != locator
    ensures RefDifferences(spdxId, refs, refs[k := refs[k].(locator := locator)])
         == [Change(spdxId, refs[k].locator, locator)]
  {
    var n := |refs| - 1;
    var updated := refs[k := refs[k].(locator := locator)];
    if k < n {
      OneRefDifference(spdxId, refs[..n], k, locator);
      assert updated[..n] == refs[..n][k := refs[k].(locator := locator)];
    } else {
      NoRefDifferences(spdxId, refs[..n]);
      assert updated[..n] == refs[..n];
    }
  }

  lemma PackageChanges(p: Package, coordinates: seq<Coordinate>)
    requires ReconcilePackage(p, coordinates).Ok?
    ensures ReconcilePackage(p, coordinates).value.1 == PackageDifferences(p, ReconcilePackage(p, coordinates).value.0)
  {
    var (after, changes) := ReconcilePackage(p, coordinates).value;
    if changes == [] {
      if p.refs.RefList? { NoRefDifferences(p.spdxId, p.refs.items); }
    } else {
      var k := PurlReference(p.refs).value.value;
      ReplacementIsNew(p.refs.items[k].locator, coordinates);
      var c := Replacement(p.refs.items[k].locator, coordinates).value.value;
      OneRefDifference(p.spdxId, p.refs.items, k, Purl(c));
    }
  }

  /** The reported changes are the differences between the document and its reconciled form. */
  lemma {:induction false} ChangesAreDifferences(packages: seq<Package>, coordinates: seq<Coordinate>)
    requires ReconcileAll(packages, coordinates).Ok?
    ensures |ReconcileAll(packages, coordinates).value.0| == |packages|
    ensures ReconcileAll(packages, coordinates).value.1 == Differences(packages, ReconcileAll(packages, coordinates).value.0)
  {
    if packages != [] {
      var n := |packages| - 1;
      ChangesAreDifferences(packages[..n], coordinates);
      PackageChanges(packages[n], coordinates);
      var init, last := ReconcileAll(packages[..n], coordinates).value, ReconcilePackage(packages[n], coordinates).value;
      var all := ReconcileAll(packages, coordinates).value;
      assert all.0[..n] == init.0 && all.0[n] == last.0;
    }
  }
}
