/** The grammar of stream paths and ids character by character, and how each kind of text outside it
    is refused. */
module StreamGrammar {
  import opened Wrappers
  import opened StreamPaths
  import Text

  /** A segment is 1 to 64 ASCII letters, digits, '_' and '-', and begins with a letter or digit. */
  lemma SegmentMeans(s: string)
    ensures IsSegment(s) <==>
      && 1 <= |s| <= 64 && s[0] != '_' && s[0] != '-'
      && forall i | 0 <= i < |s| ::
           65 <= s[i] as int <= 90 || 97 <= s[i] as int <= 122 || 48 <= s[i] as int <= 57 || s[i] == '_' || s[i] == '-'
  {
  }

  const MONTHS: seq<nat> := [31, 28, 31, 30, 31, 30, 31, 31, 30, 31, 30, 31]

  /** A day of the proleptic Gregorian calendar. */
  predicate IsDay(year: nat, month: nat, day: nat) {
    && 1 <= year <= 9999 && 1 <= month <= 12 && 1 <= day
    && (day <= MONTHS[month - 1] || (month == 2 && day == 29 && year % 4 == 0 && (year % 100 != 0 || year % 400 == 0)))
  }

  function DateText(year: nat, month: nat, day: nat): string {
    Text.ZeroFill(year, 4) + "-" + Text.ZeroFill(month, 2) + "-" + Text.ZeroFill(day, 2)
  }

  lemma Powers()
    ensures Text.Pow10(2) == 100 && Text.Pow10(4) == 10_000
  {
  }

  lemma {:induction false} NumeralBound(s: string)
    requires Text.IsNumeral(s)
    ensures Text.Number(s) < Text.Pow10(|s|)
  {
    if s != "" { NumeralBound(s[..|s| - 1]); }
  }

  /** A numeral of some width is the padded text of its number. */
  lemma FixedWidth(s: string, width: nat)
    requires Text.IsNumeral(s) && |s| == width >= 1
    ensures Text.Number(s) < Text.Pow10(width) && Text.ZeroFill(Text.Number(s), width) == s
  {
    NumeralBound(s);
    Text.Padded(Text.Number(s), width);
    Text.NumeralOrder(Text.ZeroFill(Text.Number(s), width), s);
  }

  lemma PaddedParts(year: nat, month: nat, day: nat)
    requires year < 10_000 && month < 100 && day < 100
    ensures var s := DateText(year, month, day);
      && |s| == 10 && s[4] == '-' && s[7] == '-'
      && Text.IsNumeral(s[..4]) && Text.IsNumeral(s[5..7]) && Text.IsNumeral(s[8..])
      && Text.Number(s[..4]) == year && Text.Number(s[5..7]) == month && Text.Number(s[8..]) == day
  {
    Powers();
    Text.Padded(year, 4);
    Text.Padded(month, 2);
    Text.Padded(day, 2);
    var s := DateText(year, month, day);
    assert s[..4] == Text.ZeroFill(year, 4) && s[5..7] == Text.ZeroFill(month, 2) && s[8..] == Text.ZeroFill(day, 2);
  }

  /** A date segment is the padded text of a calendar day. */
  lemma DateMeans(s: string)
    ensures IsDate(s) <==> exists y: nat, m: nat, d: nat :: IsDay(y, m, d) && s == DateText(y, m, d)
  {
    if IsDate(s) {
      FixedWidth(s[..4], 4);
      FixedWidth(s[5..7], 2);
      FixedWidth(s[8..], 2);
      Powers();
      var y, m, d := Text.Number(s[..4]), Text.Number(s[5..7]), Text.Number(s[8..]);
      DaysAre(y, m, d);
      assert s == s[..4] + "-" + s[5..7] + "-" + s[8..];
      assert IsDay(y, m, d) && s == DateText(y, m, d);
    }
    forall y: nat, m: nat, d: nat | IsDay(y, m, d) && s == DateText(y, m, d) ensures IsDate(s) {
      DaysAre(y, m, d);
      PaddedParts(y, m, d);
    }
  }

  lemma DaysAre(year: nat, month: nat, day: nat)
    requires 1 <= year <= 9999 && 1 <= month <= 12 && 1 <= day
    ensures day <= DaysIn(year, month) <==> IsDay(year, month, day)
    ensures DaysIn(year, month) <= 31
  {
  }

  // ---------- refusals of a path ----------

  /** A separator that ends the text or stands before another one. */
  ghost predicate Dangling(s: string, c: char) {
    exists i :: 0 <= i < |s| && s[i] == c && (i + 1 == |s| || s[i + 1] == c)
  }

  lemma DanglingLater(s: string, c: char)
    requires s != ""
    ensures Dangling(s, c) <==> (s[0] == c && (|s| == 1 || s[1] == c)) || Dangling(s[1..], c)
  {
    if i :| 0 <= i < |s| && s[i] == c && (i + 1 == |s| || s[i + 1] == c) {
      if i > 0 { assert s[1..][i - 1] == c && (i == |s[1..]| || s[1..][i] == c); }
    }
    if i :| 0 <= i < |s[1..]| && s[1..][i] == c && (i + 1 == |s[1..]| || s[1..][i + 1] == c) {
      assert s[i + 1] == c && (i + 2 == |s| || s[i + 2] == c);
    }
  }

  lemma FrontPart(s: string, c: char)
    ensures Split(s, c)[0] == "" <==> s == "" || s[0] == c
  {
  }

  /** A part behind the first is empty exactly when a separator dangles. */
  lemma {:induction false} EmptyParts(s: string, c: char)
    ensures "" in Split(s, c)[1..] <==> Dangling(s, c)
  {
    if s != "" {
      EmptyParts(s[1..], c);
      DanglingLater(s, c);
      var rest := Split(s[1..], c);
      assert "" in rest <==> rest[0] == "" || "" in rest[1..] by { assert rest == [rest[0]] + rest[1..]; }
      FrontPart(s[1..], c);
    }
  }

  /** Refusals for the shape of a path: empty, a slash at an edge, a backslash, an empty segment. */
  lemma PathShape(path: string)
    ensures var r := ValidatePath(path);
      var edge := path != "" && (path[0] == '/' || path[|path| - 1] == '/');
      && (r == Err(EmptyPath) <==> path == "")
      && (r == Err(EdgeSlash) <==> edge)
      && (r == Err(Backslash) <==> path != "" && !edge && '\\' in path)
      && (r == Err(EmptySegment) <==>
          path != "" && !edge && '\\' !in path && exists i :: 0 <= i < |path| - 1 && path[i] == '/' && path[i + 1] == '/')
  {
    PartsRefuse(Split(path, '/'));
    EmptyParts(path, '/');
    FrontPart(path, '/');
    var parts := Split(path, '/');
    assert "" in parts <==> parts[0] == "" || "" in parts[1..] by { assert parts == [parts[0]] + parts[1..]; }
  }

  /** The first refusal among segments: a traversal, or characters outside the grammar. */
  lemma {:induction false} SegmentsRefuse(segments: seq<string>)
    ensures CheckSegments(segments).None? <==> forall i | 0 <= i < |segments| :: IsSegment(segments[i])
    ensures CheckSegments(segments) == Some(Traversal) <==>
      exists i :: 0 <= i < |segments| && segments[i] in [".", ".."] && forall j | 0 <= j < i :: IsSegment(segments[j])
    ensures CheckSegments(segments).Some? ==> CheckSegments(segments).value in [Traversal, BadSegment]
  {
    if segments != [] {
      var rest := segments[1..];
      SegmentsRefuse(rest);
      DotsAreNoSegments();
      assert segments == [segments[0]] + rest;
      if IsSegment(segments[0]) {
        if i :| 0 <= i < |segments| && segments[i] in [".", ".."] && forall j | 0 <= j < i :: IsSegment(segments[j]) {
          assert i > 0;
          assert rest[i - 1] == segments[i] && forall j | 0 <= j < i - 1 :: rest[j] == segments[j + 1];
        }
        if i :| 0 <= i < |rest| && rest[i] in [".", ".."] && forall j | 0 <= j < i :: IsSegment(rest[j]) {
          assert segments[i + 1] == rest[i] && forall j | 0 < j < i + 1 :: segments[j] == rest[j - 1];
        }
      }
    }
  }

  lemma DotsAreNoSegments()
    ensures !IsSegment(".") && !IsSegment("..")
  {
    assert "."[0] == '.' && ".."[0] == '.';
  }

  /** Refusals for the parts of a path: an unknown prefix, then a wrong number of segments. */
  lemma PartsRefuse(parts: seq<string>)
    requires parts != []
    ensures var r := ParseParts(parts);
      var known := parts[0] == "raw" || parts[0] == "ai" || parts[0] == "archive";
      && (r == Err(BadPrefix) <==> !known)
      && (r == Err(WrongSegmentCount) <==> known && |parts| != if parts[0] == "raw" then 3 else 4)
      && (r.Err? ==> r.error in [BadPrefix, WrongSegmentCount, Traversal, BadSegment, BadDate])
  {
    Prefixes();
    if |parts| > 2 { SegmentsRefuse([parts[1], parts[2]]); }
    if |parts| > 3 { SegmentsRefuse([parts[1], parts[2], parts[3]]); }
  }

  /** An archive path with good names is refused for its date exactly when it is no calendar day. */
  lemma ArchiveDate(asset: string, sensor: string, date: string)
    requires IsSegment(asset) && IsSegment(sensor)
    ensures ParseParts(["archive", asset, sensor, date]) == Err(BadDate) <==>
      !exists y: nat, m: nat, d: nat :: IsDay(y, m, d) && date == DateText(y, m, d)
  {
    Prefixes();
    SegmentsRefuse([asset, sensor]);
    DateMeans(date);
  }

  // ---------- refusals of an id ----------

  /** Refusals for the shape of an id, before it is read as a path. */
  lemma IdShape(id: string)
    ensures var r := ValidateId(id);
      var foreign := '/' in id || '\\' in id;
      var edge := id != "" && (id[0] == '.' || id[|id| - 1] == '.');
      && (r == Err(EmptyId) <==> id == "")
      && (r == Err(IdHasSlash) <==> id != "" && foreign)
      && (r == Err(EdgeDot) <==> edge && !foreign)
      && (r == Err(EmptyIdSegment) <==>
          id != "" && !foreign && !edge && exists i :: 0 <= i < |id| - 1 && id[i] == '.' && id[i + 1] == '.')
      && (id != "" && !foreign && !edge && r != Err(EmptyIdSegment) ==> r == ValidatePath(Replace(id, '.', '/')))
  {
    PathErrors(Replace(id, '.', '/'));
  }

  lemma PathErrors(path: string)
    ensures ValidatePath(path).Err? ==> ValidatePath(path).error !in [EmptyId, IdHasSlash, EdgeDot, EmptyIdSegment]
  {
    PartsRefuse(Split(path, '/'));
  }

  // ---------- printed forms ----------

  /** How each kind of path and its id are written. */
  lemma PrintedForms(a: string, b: string, x: string)
    ensures Path(StreamPath(Raw, a, b, None, None)) == "raw" + "/" + a + "/" + b
    ensures Path(StreamPath(Ai, a, b, Some(x), None)) == "ai" + "/" + a + "/" + b + "/" + x
    ensures Path(StreamPath(Archive, a, b, None, Some(x))) == "archive" + "/" + a + "/" + b + "/" + x
  {
    JoinThree("raw", a, b);
    JoinFour("ai", a, b, x);
    JoinFour("archive", a, b, x);
  }

  lemma JoinThree(p: string, a: string, b: string)
    ensures Join([p, a, b], '/') == p + "/" + a + "/" + b
  {
    assert [p, a, b][1..] == [a, b] && [a, b][1..] == [b];
    assert Join([b], '/') == b && Join([a, b], '/') == a + "/" + b;
  }

  lemma JoinFour(p: string, a: string, b: string, x: string)
    ensures Join([p, a, b, x], '/') == p + "/" + a + "/" + b + "/" + x
  {
    assert [p, a, b, x][1..] == [a, b, x];
    JoinThree(a, b, x);
  }
}
