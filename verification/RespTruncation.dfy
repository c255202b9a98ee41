/** Truncated RESP commands: where a peer that closes leaves the reader with an error, and where it
    leaves it calling recv for ever. */
module RespTruncation {
  import opened Wrappers
  import opened Bytes
  import opened Resp
  import opened RespStreams
  import Text

  /** A bulk string whose header line reads as a size, in any spelling that int() accepts, stalls
      the reader exactly when the stream ends before its payload and two closing bytes. */
  lemma BulkStalls(line: seq<byte>, size: nat, rest: seq<byte>)
    requires SplitLine(line + CRLF) == Some((line, [])) && PyInt(line) == Some(size)
    ensures ReplyOf([36] + line + CRLF + rest).result == Err(Stalled) <==> |rest| < size + 2
  {
    LineLocal(line + CRLF, rest);
    assert [] + rest == rest;
    BulkBody([36] + line + CRLF + rest, line, size, rest);
  }

  lemma BulkBody(b: seq<byte>, line: seq<byte>, size: nat, rest: seq<byte>)
    requires b == [36] + line + CRLF + rest && SplitLine((line + CRLF) + rest) == Some((line, rest))
    requires PyInt(line) == Some(size)
    ensures ReplyOf(b) == BulkOf(rest, size)
  {
    assert b[1..] == (line + CRLF) + rest;
    ReplyByBody(b, line, rest);
  }

  /** "$5", CRLF, "hi" and a closed connection: the reader never returns. */
  lemma StalledStream()
    ensures ReplyOf([36, 53, 13, 10, 104, 105]) == Outcome(Err(Stalled), [])
  {
    assert Text.Decimal(5) == "5";
    assert Numeral(5) == [53];
    assert [36] + Numeral(5) + CRLF + [104, 105] == [36, 53, 13, 10, 104, 105];
    BulkHeader(5, [104, 105]);
  }

  // ---------- one cut bulk string ----------

  function BulkHead(part: text): seq<byte> { [36] + Numeral(|part|) + CRLF }

  lemma CutLine(n: nat, rest: seq<byte>, k: nat)
    requires k < |Numeral(n)| + 2
    ensures SplitLine((Numeral(n) + CRLF + rest)[..k]).None?
  {
    var b := Numeral(n) + CRLF + rest;
    forall i: nat ensures !CrlfAt(b[..k], i) {
      if i < |Numeral(n)| { assert Text.IsDigit(Text.Decimal(n)[i]); }
    }
    NoLine(b[..k]);
  }

  lemma CutHeader(prefix: byte, n: nat, rest: seq<byte>, k: nat)
    requires k < |Numeral(n)| + 3
    ensures ReplyOf(([prefix] + Numeral(n) + CRLF + rest)[..k]) == Outcome(Err(Closed), [])
  {
    var b := [prefix] + Numeral(n) + CRLF + rest;
    if k > 0 {
      CutLine(n, rest, k - 1);
      assert b[..k][1..] == (Numeral(n) + CRLF + rest)[..k - 1];
    }
  }

  /** A bulk string cut inside its header closes the reader, cut behind it stalls it. */
  lemma CutBulk(part: text, k: nat)
    requires k < |BulkString(part)|
    ensures ReplyOf(BulkString(part)[..k]) == Outcome(Err(if k < |BulkHead(part)| then Closed else Stalled), [])
  {
    var tail := part + CRLF;
    assert BulkString(part) == BulkHead(part) + tail;
    if k < |BulkHead(part)| {
      CutHeader(36, |part|, tail, k);
    } else {
      var rest := tail[..k - |BulkHead(part)|];
      assert BulkString(part)[..k] == BulkHead(part) + rest;
      BulkHeader(|part|, rest);
    }
  }

  // ---------- a cut command ----------

  /** Byte k of the bulk strings lies behind the header of bulk i and before its end. */
  ghost predicate InsideBulk(parts: seq<text>, i: nat, k: nat)
    requires i < |parts|
  {
    |BulkStrings(parts[..i])| + |BulkHead(parts[i])| <= k < |BulkStrings(parts[..i])| + |BulkString(parts[i])|
  }

  ghost predicate InsideSomeBulk(parts: seq<text>, k: nat) {
    exists i: nat :: i < |parts| && InsideBulk(parts, i, k)
  }

  lemma FrontOffset(parts: seq<text>, i: nat)
    requires i < |parts| && parts != []
    ensures |BulkStrings(parts[..i + 1])| == |BulkString(parts[0])| + |BulkStrings(parts[1..][..i])|
  {
    BulkStringsFirst(parts[..i + 1]);
    assert parts[..i + 1][1..] == parts[1..][..i];
  }

  lemma FirstOffset(parts: seq<text>)
    ensures BulkStrings(parts[..0]) == []
  {
  }

  lemma InsideShift(parts: seq<text>, i: nat, k: nat)
    requires 0 < i < |parts|
    ensures InsideBulk(parts, i, k) <==>
      k >= |BulkString(parts[0])| && InsideBulk(parts[1..], i - 1, k - |BulkString(parts[0])|)
  {
    FrontOffset(parts, i - 1);
  }

  lemma InsideZero(parts: seq<text>, k: nat)
    requires parts != []
    ensures InsideBulk(parts, 0, k) <==> |BulkHead(parts[0])| <= k < |BulkString(parts[0])|
  {
    FirstOffset(parts);
  }

  /** A byte of the first bulk string is inside some bulk when it is behind the first header. */
  lemma InsideFront(parts: seq<text>, k: nat)
    requires parts != [] && k < |BulkString(parts[0])|
    ensures InsideSomeBulk(parts, k) <==> k >= |BulkHead(parts[0])|
  {
    InsideZero(parts, k);
    forall i: nat | 0 < i < |parts| ensures !InsideBulk(parts, i, k) { InsideShift(parts, i, k); }
  }

  /** A later byte is inside some bulk when it is inside one of the others. */
  lemma InsideLater(parts: seq<text>, k: nat)
    requires parts != [] && k >= |BulkString(parts[0])|
    ensures InsideSomeBulk(parts, k) <==> InsideSomeBulk(parts[1..], k - |BulkString(parts[0])|)
  {
    var rest, shifted := parts[1..], k - |BulkString(parts[0])|;
    if InsideSomeBulk(parts, k) {
      var i: nat :| i < |parts| && InsideBulk(parts, i, k);
      InsideZero(parts, k);
      InsideShift(parts, i, k);
      assert InsideBulk(rest, i - 1, shifted);
    }
    if InsideSomeBulk(rest, shifted) {
      var i: nat :| i < |rest| && InsideBulk(rest, i, shifted);
      InsideShift(parts, i + 1, k);
      assert InsideBulk(parts, i + 1, k);
    }
  }

  lemma FirstItemFails(b: seq<byte>, count: nat, e: Failure, rest: seq<byte>)
    requires count > 0 && ReplyOf(b) == Outcome(Err(e), rest)
    ensures RepliesOf(b, count) == Outcome(Err(e), rest)
  {
  }

  lemma LaterItemFails(b: seq<byte>, count: nat, item: Reply, tail: seq<byte>, e: Failure)
    requires count > 0 && ReplyOf(b) == Outcome(Ok(item), tail) && RepliesOf(tail, count - 1) == Outcome(Err(e), [])
    ensures RepliesOf(b, count) == Outcome(Err(e), [])
  {
    ItemsStep(b, count, item, tail);
  }

  /** How the reader fails on bulk strings cut after k bytes. */
  ghost function CutFailure(parts: seq<text>, k: nat): Failure {
    if InsideSomeBulk(parts, k) then Stalled else Closed
  }

  lemma CutFirst(parts: seq<text>, k: nat)
    requires parts != [] && k < |BulkString(parts[0])|
    ensures RepliesOf(BulkString(parts[0])[..k], |parts|) == Outcome(Err(CutFailure(parts, k)), [])
  {
    CutBulk(parts[0], k);
    InsideFront(parts, k);
    FirstItemFails(BulkString(parts[0])[..k], |parts|, CutFailure(parts, k), []);
  }

  lemma CutLater(parts: seq<text>, k: nat, tail: seq<byte>)
    requires parts != [] && k >= |BulkString(parts[0])|
    requires RepliesOf(tail, |parts| - 1) == Outcome(Err(CutFailure(parts[1..], k - |BulkString(parts[0])|)), [])
    ensures RepliesOf(BulkString(parts[0]) + tail, |parts|) == Outcome(Err(CutFailure(parts, k)), [])
  {
    BulkRoundTrip(parts[0], tail);
    InsideLater(parts, k);
    LaterItemFails(BulkString(parts[0]) + tail, |parts|, Str(parts[0]), tail, CutFailure(parts, k));
  }

  lemma {:induction false} CutBulks(parts: seq<text>, k: nat)
    requires k < |BulkStrings(parts)|
    ensures RepliesOf(BulkStrings(parts)[..k], |parts|) == Outcome(Err(CutFailure(parts, k)), [])
    decreases |parts|
  {
    if parts == [] {
      FirstOffset(parts);
    } else {
      var first, others := BulkString(parts[0]), BulkStrings(parts[1..]);
      BulkStringsFirst(parts);
      FrontOfTwo(first, others, k);
      if k < |first| {
        CutFirst(parts, k);
      } else {
        CutBulks(parts[1..], k - |first|);
        CutLater(parts, k, others[..k - |first|]);
      }
    }
  }

  function CommandHead(parts: seq<text>): seq<byte> { [42] + Numeral(|parts|) + CRLF }

  lemma CutArray(count: nat, rest: seq<byte>, e: Failure)
    requires RepliesOf(rest, count) == Outcome(Err(e), [])
    ensures ReplyOf([42] + Numeral(count) + CRLF + rest) == Outcome(Err(e), [])
  {
    ArrayHeader(count, rest);
  }

  /** A command cut anywhere before its end is never read as a reply: the reader fails as closed,
      or stalls, and it stalls exactly when the cut lies behind the header line of some bulk string
      and before that bulk string's end. */
  lemma TruncatedCommand(parts: seq<text>, n: nat)
    requires n < |CommandBytes(parts)|
    ensures ReplyOf(CommandBytes(parts)[..n])
         == Outcome(Err(if n < |CommandHead(parts)| then Closed else CutFailure(parts, n - |CommandHead(parts)|)), [])
  {
    var head, bulks := CommandHead(parts), BulkStrings(parts);
    FrontOfTwo(head, bulks, n);
    if n < |head| {
      CutHeader(42, |parts|, bulks, n);
    } else {
      CutBulks(parts, n - |head|);
      CutArray(|parts|, bulks[..n - |head|], CutFailure(parts, n - |head|));
    }
  }
}
