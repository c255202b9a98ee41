/** Stream paths (raw/asset/sensor, ai/asset/sensor/processor, archive/asset/sensor/date) and
    their dotted stream ids. */
module StreamPaths {
  import opened Wrappers
  import Text

  datatype Prefix = Raw | Ai | Archive

  datatype StreamPath = StreamPath(
    prefix: Prefix, assetId: string, sensorId: string, processorId: Option<string>, archiveDate: Option<string>)

  datatype Failure = EmptyPath | EdgeSlash | Backslash | EmptySegment | BadPrefix | WrongSegmentCount
                   | Traversal | BadSegment | BadDate | EmptyId | IdHasSlash | EdgeDot | EmptyIdSegment

  // ---------- splitting and joining ----------

  /** s.split(c) */
  function Split(s: string, c: char): (parts: seq<string>)
    ensures |parts| > 0
  {
    if s == "" then [""]
    else
      var rest := Split(s[1..], c);
      if s[0] == c then [""] + rest else [[s[0]] + rest[0]] + rest[1..]
  }

  function Join(parts: seq<string>, c: char): string
    requires parts != []
  {
    if |parts| == 1 then parts[0] else parts[0] + [c] + Join(parts[1..], c)
  }

  /** s.replace(a, b) for single characters. */
  function Replace(s: string, a: char, b: char): (r: string)
    ensures |r| == |s| && forall i | 0 <= i < |s| :: r[i] == if s[i] == a then b else s[i]
  {
    seq(|s|, i requires 0 <= i < |s| => if s[i] == a then b else s[i])
  }

  lemma {:induction false} JoinSplit(s: string, c: char)
    ensures Join(Split(s, c), c) == s
  {
    if s != "" {
      JoinSplit(s[1..], c);
      var rest := Split(s[1..], c);
      if s[0] == c {
        assert ([""] + rest)[1..] == rest;
      } else {
        assert ([[s[0]] + rest[0]] + rest[1..])[1..] == rest[1..];
      }
    }
  }

  lemma {:induction false} SplitWord(s: string, c: char)
    requires c !in s
    ensures Split(s, c) == [s]
  {
    if s != "" {
      SplitWord(s[1..], c);
      assert s[0] in s && [s[0]] + s[1..] == s;
    }
  }

  lemma {:induction false} SplitFront(s: string, c: char, t: string)
    requires c !in s
    ensures Split(s + [c] + t, c) == [s] + Split(t, c)
  {
    var whole := s + [c] + t;
    if s == "" {
      assert whole[1..] == t;
    } else {
      SplitFront(s[1..], c, t);
      assert whole[1..] == s[1..] + [c] + t;
      assert s[0] in s && whole[0] == s[0] && [s[0]] + s[1..] == s;
      assert ([s[1..]] + Split(t, c))[1..] == Split(t, c);
    }
  }

  lemma {:induction false} SplitJoin(parts: seq<string>, c: char)
    requires parts != [] && forall i | 0 <= i < |parts| :: c !in parts[i]
    ensures Split(Join(parts, c), c) == parts
  {
    if |parts| == 1 {
      SplitWord(parts[0], c);
    } else {
      SplitJoin(parts[1..], c);
      SplitFront(parts[0], c, Join(parts[1..], c));
    }
  }

  // ---------- segments and dates ----------

  predicate IsAlnum(c: char) { 'A' <= c <= 'Z' || 'a' <= c <= 'z' || '0' <= c <= '9' }

  /** [A-Za-z0-9][A-Za-z0-9_-]{0,63} */
  predicate IsSegment(s: string) {
    1 <= |s| <= 64 && IsAlnum(s[0]) && forall i | 0 <= i < |s| :: IsAlnum(s[i]) || s[i] == '_' || s[i] == '-'
  }

  predicate IsLeap(year: nat) { year % 4 == 0 && (year % 100 != 0 || year % 400 == 0) }

  function DaysIn(year: nat, month: nat): nat {
    if month == 2 then if IsLeap(year) then 29 else 28
    else if month in {4, 6, 9, 11} then 30 else 31
  }

  /** YYYY-MM-DD naming a day of the proleptic Gregorian calendar from year 1. */
  predicate IsDate(s: string) {
    && |s| == 10 && s[4] == '-' && s[7] == '-'
    && Text.IsNumeral(s[..4]) && Text.IsNumeral(s[5..7]) && Text.IsNumeral(s[8..])
    && Text.Number(s[..4]) >= 1 && 1 <= Text.Number(s[5..7]) <= 12
    && 1 <= Text.Number(s[8..]) <= DaysIn(Text.Number(s[..4]), Text.Number(s[5..7]))
  }

  // ---------- parsing ----------

  function CheckSegments(segments: seq<string>): Option<Failure> {
    if segments == [] then None
    else if segments[0] == "." || segments[0] == ".." then Some(Traversal)
    else if !IsSegment(segments[0]) then Some(BadSegment)
    else CheckSegments(segments[1..])
  }

  function ParseParts(parts: seq<string>): Result<StreamPath, Failure>
    requires parts != []
  {
    if parts[0] == "raw" then
      if |parts| != 3 then Err(WrongSegmentCount)
      else
        var bad := CheckSegments([parts[1], parts[2]]);
        if bad.Some? then Err(bad.value) else Ok(StreamPath(Raw, parts[1], parts[2], None, None))
    else if parts[0] == "ai" then
      if |parts| != 4 then Err(WrongSegmentCount)
      else
        var bad := CheckSegments([parts[1], parts[2], parts[3]]);
        if bad.Some? then Err(bad.value) else Ok(StreamPath(Ai, parts[1], parts[2], Some(parts[3]), None))
    else if parts[0] == "archive" then
      if |parts| != 4 then Err(WrongSegmentCount)
      else
        var bad := CheckSegments([parts[1], parts[2]]);
        if bad.Some? then Err(bad.value)
        else if !IsDate(parts[3]) then Err(BadDate)
        else Ok(StreamPath(Archive, parts[1], parts[2], None, Some(parts[3])))
    else Err(BadPrefix)
  }

  /** validate_stream_path */
  function ValidatePath(path: string): Result<StreamPath, Failure> {
    if path == "" then Err(EmptyPath)
    else if path[0] == '/' || path[|path| - 1] == '/' then Err(EdgeSlash)
    else if '\\' in path then Err(Backslash)
    else if "" in Split(path, '/') then Err(EmptySegment)
    else ParseParts(Split(path, '/'))
  }

  predicate HasDoubleDot(s: string) { exists i | 0 <= i < |s| - 1 :: s[i] == '.' && s[i + 1] == '.' }

  /** validate_stream_id */
  function ValidateId(id: string): Result<StreamPath, Failure> {
    if id == "" then Err(EmptyId)
    else if '/' in id || '\\' in id then Err(IdHasSlash)
    else if id[0] == '.' || id[|id| - 1] == '.' then Err(EdgeDot)
    else if HasDoubleDot(id) then Err(EmptyIdSegment)
    else ValidatePath(Replace(id, '.', '/'))
  }

  // ---------- printing ----------

  function OrNone(s: Option<string>): string { if s.Some? then s.value else "None" }

  function Parts(p: StreamPath): (parts: seq<string>)
    ensures parts != []
  {
    match p.prefix
    case Ai => ["ai", p.assetId, p.sensorId, OrNone(p.processorId)]
    case Archive => ["archive", p.assetId, p.sensorId, OrNone(p.archiveDate)]
    case Raw => ["raw", p.assetId, p.sensorId]
  }

  /** StreamPath.path */
  function Path(p: StreamPath): string { Join(Parts(p), '/') }

  /** StreamPath.stream_id */
  function StreamId(p: StreamPath): string { Replace(Path(p), '/', '.') }

  /** The values the parsers produce. */
  predicate WellFormed(p: StreamPath) {
    && IsSegment(p.assetId) && IsSegment(p.sensorId)
    && match p.prefix
       case Raw => p.processorId == None && p.archiveDate == None
       case Ai => p.processorId.Some? && IsSegment(p.processorId.value) && p.archiveDate == None
       case Archive => p.processorId == None && p.archiveDate.Some? && IsDate(p.archiveDate.value)
  }

  // ---------- the two forms are inverse ----------

  lemma Prefixes()
    ensures "raw" != "ai" && "raw" != "archive" && "ai" != "archive"
  {
    assert "raw"[0] != "ai"[0] && |"ai"| != |"archive"|;
  }

  lemma PartsAreWords(p: StreamPath, i: nat)
    requires WellFormed(p) && i < |Parts(p)|
    ensures Parts(p)[i] != "" && '/' !in Parts(p)[i] && '.' !in Parts(p)[i] && '\\' !in Parts(p)[i]
  {
    var s := Parts(p)[i];
    if p.prefix == Archive && i == 3 { DateIsWord(s); }
  }

  lemma DateIsWord(s: string)
    requires IsDate(s)
    ensures s != "" && '/' !in s && '.' !in s && '\\' !in s
  {
    forall i | 0 <= i < |s| ensures s[i] != '/' && s[i] != '.' && s[i] != '\\' {
      if i < 4 {
        assert s[i] == s[..4][i] && Text.IsDigit(s[..4][i]);
      } else if 5 <= i < 7 {
        assert s[i] == s[5..7][i - 5] && Text.IsDigit(s[5..7][i - 5]);
      } else if 8 <= i {
        assert s[i] == s[8..][i - 8] && Text.IsDigit(s[8..][i - 8]);
      }
    }
  }

  /** A join of words starts and ends inside a word and never puts two separators together. */
  lemma {:induction false} JoinedWords(parts: seq<string>, c: char)
    requires parts != [] && forall i | 0 <= i < |parts| :: parts[i] != "" && c !in parts[i]
    ensures var s := Join(parts, c);
      && s != "" && s[0] != c && s[|s| - 1] != c
      && forall i | 0 <= i < |s| - 1 :: !(s[i] == c && s[i + 1] == c)
  {
    if |parts| > 1 {
      var t := Join(parts[1..], c);
      JoinedWords(parts[1..], c);
      var s := Join(parts, c);
      assert s == parts[0] + [c] + t;
      assert s[0] == parts[0][0] && s[|s| - 1] == t[|t| - 1];
      forall i | 0 <= i < |s| - 1 ensures !(s[i] == c && s[i + 1] == c) {
        var n := |parts[0]|;
        if i < n { assert s[i] == parts[0][i]; }
        if i > n { assert s[i] == t[i - n - 1] && s[i + 1] == t[i - n]; }
        if i == n { assert s[i + 1] == t[0]; }
      }
    }
  }

  lemma {:induction false} JoinedChars(parts: seq<string>, c: char, x: char)
    requires parts != [] && x != c && forall i | 0 <= i < |parts| :: x !in parts[i]
    ensures x !in Join(parts, c)
  {
    if |parts| > 1 { JoinedChars(parts[1..], c, x); }
  }

  lemma SegmentsPass(p: StreamPath)
    requires WellFormed(p)
    ensures ParseParts(Parts(p)) == Ok(p)
  {
    Prefixes();
    assert IsSegment(p.assetId) && IsSegment(p.sensorId);
    SegmentIsNoTraversal(p.assetId);
    SegmentIsNoTraversal(p.sensorId);
    assert CheckSegments([]) == None;
    assert [p.sensorId][1..] == [] && [p.assetId, p.sensorId][1..] == [p.sensorId];
    assert CheckSegments([p.sensorId]) == None && CheckSegments([p.assetId, p.sensorId]) == None;
    if p.prefix == Ai {
      var q := p.processorId.value;
      SegmentIsNoTraversal(q);
      assert [q][1..] == [] && [p.sensorId, q][1..] == [q] && [p.assetId, p.sensorId, q][1..] == [p.sensorId, q];
      assert CheckSegments([q]) == None && CheckSegments([p.sensorId, q]) == None;
      assert CheckSegments([p.assetId, p.sensorId, q]) == None;
    }
  }

  lemma SegmentIsNoTraversal(s: string)
    requires IsSegment(s)
    ensures s != "." && s != ".."
  {
    assert !IsAlnum("."[0]) && !IsAlnum(".."[0]);
  }

  /** Printing a parsed value and parsing it again gives the value back. */
  lemma PathRoundTrip(p: StreamPath)
    requires WellFormed(p)
    ensures ValidatePath(Path(p)) == Ok(p)
  {
    var parts := Parts(p);
    forall i: nat | i < |parts|
      ensures parts[i] != "" && '/' !in parts[i] && '.' !in parts[i] && '\\' !in parts[i]
    {
      PartsAreWords(p, i);
    }
    JoinedWords(parts, '/');
    JoinedChars(parts, '/', '\\');
    SplitJoin(parts, '/');
    SegmentsPass(p);
  }

  /** The stream id of a parsed value parses to the same value. */
  lemma IdRoundTrip(p: StreamPath)
    requires WellFormed(p)
    ensures ValidateId(StreamId(p)) == Ok(p)
  {
    var parts, path, id := Parts(p), Path(p), StreamId(p);
    forall i: nat | i < |parts|
      ensures parts[i] != "" && '/' !in parts[i] && '.' !in parts[i] && '\\' !in parts[i]
    {
      PartsAreWords(p, i);
    }
    JoinedWords(parts, '/');
    JoinedChars(parts, '/', '.');
    JoinedChars(parts, '/', '\\');
    forall i | 0 <= i < |id| ensures (id[i] == '.' <==> path[i] == '/') && id[i] != '/' && id[i] != '\\' {
      assert path[i] in path;
    }
    assert Replace(id, '.', '/') == path;
    PathRoundTrip(p);
  }

  lemma {:induction false} CheckedSegments(segments: seq<string>, i: nat)
    requires CheckSegments(segments) == None && i < |segments|
    ensures IsSegment(segments[i])
  {
    if i > 0 { CheckedSegments(segments[1..], i - 1); }
  }

  lemma ParsedParts(parts: seq<string>)
    requires parts != [] && ParseParts(parts).Ok?
    ensures WellFormed(ParseParts(parts).value) && Parts(ParseParts(parts).value) == parts
  {
    Prefixes();
    var checked := if parts[0] == "ai" then [parts[1], parts[2], parts[3]] else [parts[1], parts[2]];
    forall i: nat | i < |checked| ensures IsSegment(checked[i]) { CheckedSegments(checked, i); }
    assert IsSegment(checked[0]) && IsSegment(checked[1]);
    if parts[0] == "ai" { assert IsSegment(checked[2]); }
  }

  /** Every accepted path prints back to itself from a well-formed value. */
  lemma AcceptedPath(path: string)
    requires ValidatePath(path).Ok?
    ensures WellFormed(ValidatePath(path).value) && Path(ValidatePath(path).value) == path
  {
    ParsedParts(Split(path, '/'));
    JoinSplit(path, '/');
  }

  /** Every accepted id prints back to itself from a well-formed value. */
  lemma AcceptedId(id: string)
    requires ValidateId(id).Ok?
    ensures WellFormed(ValidateId(id).value) && StreamId(ValidateId(id).value) == id
  {
    AcceptedPath(Replace(id, '.', '/'));
    forall i | 0 <= i < |id| ensures id[i] != '/' { assert id[i] in id; }
  }

  /** The accepted paths are exactly the printed forms of the well-formed values, and so are the
      accepted ids. */
  lemma AcceptanceIsPrinting(s: string)
    ensures ValidatePath(s).Ok? <==> exists p :: WellFormed(p) && Path(p) == s
    ensures ValidateId(s).Ok? <==> exists p :: WellFormed(p) && StreamId(p) == s
  {
    if ValidatePath(s).Ok? { AcceptedPath(s); }
    if ValidateId(s).Ok? { AcceptedId(s); }
    forall p | WellFormed(p) ensures ValidatePath(Path(p)) == Ok(p) && ValidateId(StreamId(p)) == Ok(p) {
      PathRoundTrip(p);
      IdRoundTrip(p);
    }
  }

  /** Distinct parsed values have distinct paths and distinct ids. */
  lemma FormsInjective(p: StreamPath, q: StreamPath)
    requires WellFormed(p) && WellFormed(q) && (Path(p) == Path(q) || StreamId(p) == StreamId(q))
    ensures p == q
  {
    PathRoundTrip(p);
    PathRoundTrip(q);
    IdRoundTrip(p);
    IdRoundTrip(q);
  }

  /** path_to_stream_id and stream_id_to_path */
  function PathToId(path: string): Result<string, Failure> {
    var p := ValidatePath(path);
    if p.Ok? then Ok(StreamId(p.value)) else Err(p.error)
  }

  function IdToPath(id: string): Result<string, Failure> {
    var p := ValidateId(id);
    if p.Ok? then Ok(Path(p.value)) else Err(p.error)
  }

  /** The two conversions undo each other wherever they are defined. */
  lemma ConversionsInverse(s: string)
    ensures PathToId(s).Ok? ==> IdToPath(PathToId(s).value) == Ok(s)
    ensures IdToPath(s).Ok? ==> PathToId(IdToPath(s).value) == Ok(s)
  {
    if PathToId(s).Ok? {
      AcceptedPath(s);
      IdRoundTrip(ValidatePath(s).value);
    }
    if IdToPath(s).Ok? {
      AcceptedId(s);
      PathRoundTrip(ValidateId(s).value);
    }
  }
}
