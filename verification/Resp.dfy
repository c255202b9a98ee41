/** RESP commands and replies over a socket. */
module Resp {
  import opened Wrappers
  import opened Bytes
  import opened Sockets
  import Text

  datatype Reply = Nil | Integer(n: int) | Str(s: text) | Array(items: seq<Reply>)

  /** Stalled is the state in which the source would call recv on a closed socket for ever. */
  datatype Failure = Closed | ServerError(message: text) | NotANumber | NotText | UnsupportedPrefix(prefix: byte) | Stalled

  const CRLF: seq<byte> := [13, 10]

  // ---------- writing ----------

  function Numeral(n: nat): seq<byte> { Ascii(Text.Decimal(n)) }

  function BulkString(part: text): seq<byte> {
    [36] + Numeral(|part|) + CRLF + part + CRLF
  }

  function Bulks(parts: seq<text>): (bulks: seq<seq<byte>>)
    ensures |bulks| == |parts| && forall i | 0 <= i < |parts| :: bulks[i] == BulkString(parts[i])
  {
    seq(|parts|, i requires 0 <= i < |parts| => BulkString(parts[i]))
  }

  function BulkStrings(parts: seq<text>): seq<byte> { Concat(Bulks(parts)) }

  /** The RESP array of bulk strings for a command. */
  function CommandBytes(parts: seq<text>): seq<byte> {
    [42] + Numeral(|parts|) + CRLF + BulkStrings(parts)
  }

  lemma {:induction false} ConcatAppend(parts: seq<seq<byte>>, p: seq<byte>)
    ensures Concat(parts + [p]) == Concat(parts) + p
  {
    if parts == [] {
      assert [] + [p] == [p] && [p][1..] == [];
    } else {
      ConcatAppend(parts[1..], p);
      assert (parts + [p])[1..] == parts[1..] + [p];
    }
  }

  lemma BulkStringsNext(parts: seq<text>, i: nat)
    requires i < |parts|
    ensures BulkStrings(parts[..i + 1]) == BulkStrings(parts[..i]) + BulkString(parts[i])
  {
    ConcatAppend(Bulks(parts[..i]), BulkString(parts[i]));
    assert Bulks(parts[..i + 1]) == Bulks(parts[..i]) + [BulkString(parts[i])];
  }

  lemma BulkStringsFirst(parts: seq<text>)
    requires parts != []
    ensures BulkStrings(parts) == BulkString(parts[0]) + BulkStrings(parts[1..])
  {
    assert Bulks(parts)[1..] == Bulks(parts[1..]);
  }

  lemma BodyGrows(body: seq<seq<byte>>, header: seq<byte>, part: text)
    requires header == [36] + Numeral(|part|) + CRLF
    ensures Concat(body + [header] + [part] + [CRLF]) == Concat(body) + BulkString(part)
  {
    ConcatAppend(body, header);
    ConcatAppend(body + [header], part);
    ConcatAppend(body + [header] + [part], CRLF);
  }

  /** encode_command: collects the pieces, then joins them. */
  method EncodeCommand(parts: seq<text>) returns (wire: seq<byte>)
    ensures wire == CommandBytes(parts)
  {
    var head := [42] + Numeral(|parts|) + CRLF;
    var body: seq<seq<byte>> := [head];
    var i := 0;
    assert body[1..] == [] && BulkStrings(parts[..0]) == [];
    while i < |parts|
      invariant 0 <= i <= |parts|
      invariant Concat(body) == head + BulkStrings(parts[..i])
    {
      var part := parts[i];
      var header := [36] + Numeral(|part|) + CRLF;
      BodyGrows(body, header, part);
      BulkStringsNext(parts, i);
      Regroup(head, BulkStrings(parts[..i]), BulkString(part));
      body := body + [header];
      body := body + [part];
      body := body + [CRLF];
      i := i + 1;
    }
    assert parts[..i] == parts;
    wire := Concat(body);
  }

  // ---------- int(line) ----------

  predicate IsSpace(b: byte) { b == 32 || 9 <= b <= 13 }

  predicate IsDigitByte(b: byte) { 48 <= b <= 57 }

  function StripLeft(b: seq<byte>): seq<byte> {
    if b != [] && IsSpace(b[0]) then StripLeft(b[1..]) else b
  }

  function StripRight(b: seq<byte>): seq<byte> {
    if b != [] && IsSpace(b[|b| - 1]) then StripRight(b[..|b| - 1]) else b
  }

  /** Digits, with single underscores allowed between them. */
  function Digits(b: seq<byte>): Option<nat> {
    if b == [] || !IsDigitByte(b[|b| - 1]) then None
    else
      var n, d := |b| - 1, b[|b| - 1] - 48;
      if n == 0 then Some(d)
      else
        var front := Digits(if b[n - 1] == 95 then b[..n - 1] else b[..n]);
        if front.None? then None else Some(10 * front.value + d)
  }

  function Signed(negative: bool, n: nat): int { if negative then 0 - n else n }

  /** Python's int() of a byte string. */
  function PyInt(line: seq<byte>): Option<int> {
    var b := StripRight(StripLeft(line));
    if b == [] then None
    else
      var digits := Digits(if b[0] == 43 || b[0] == 45 then b[1..] else b);
      if digits.None? then None else Some(Signed(b[0] == 45, digits.value))
  }

  lemma {:induction false} DigitsOfNumeral(s: string)
    requires s != "" && Text.IsNumeral(s)
    ensures Digits(Ascii(s)) == Some(Text.Number(s))
  {
    var n := |s| - 1;
    assert Ascii(s)[..n] == Ascii(s[..n]);
    if n > 0 { DigitsOfNumeral(s[..n]); }
  }

  lemma IntOfNumeral(n: nat)
    ensures PyInt(Numeral(n)) == Some(n)
  {
    var s := Text.Decimal(n);
    assert Text.IsDigit(s[0]) && Text.IsDigit(s[|s| - 1]);
    DigitsOfNumeral(s);
    Text.NumberOfDecimal(n);
  }

  // ---------- what the reader makes of a stream ----------

  /** The line up to the first CRLF and what follows it. */
  function SplitLine(b: seq<byte>): (r: Option<(seq<byte>, seq<byte>)>)
    ensures r.Some? ==> b == r.value.0 + CRLF + r.value.1
  {
    if |b| < 2 then None
    else if b[0] == 13 && b[1] == 10 then Some(([], b[2..]))
    else
      var rest := SplitLine(b[1..]);
      if rest.None? then None else Some(([b[0]] + rest.value.0, rest.value.1))
  }

  /** What a read makes of a stream, and what it leaves unread, after a failure too. */
  datatype Outcome<T> = Outcome(result: Result<T, Failure>, rest: seq<byte>)

  /** A bulk payload of known size with its two closing bytes, which are not looked at. */
  function BulkOf(b: seq<byte>, size: nat): (o: Outcome<Reply>)
    ensures |o.rest| <= |b|
  {
    if |b| < size + 2 then Outcome(Err(Stalled), [])
    else Outcome(TextOf(b[..size]), b[size + 2..])
  }

  function TextOf(b: seq<byte>): Result<Reply, Failure> {
    if ValidUtf8(b) then Ok(Str(b)) else Err(NotText)
  }

  /** The reader ran out of stream. */
  predicate RanOut<T>(r: Result<T, Failure>) { r == Err(Closed) || r == Err(Stalled) }

  /** A reply that ends with its line. */
  function LineReply(kind: byte, line: seq<byte>): (r: Result<Reply, Failure>)
    ensures !RanOut(r)
  {
    if kind == 43 then TextOf(line)
    else if kind == 45 then if ValidUtf8(line) then Err(ServerError(line)) else Err(NotText)
    else if kind == 58 && PyInt(line).Some? then Ok(Integer(PyInt(line).value))
    else if kind == 36 && PyInt(line).Some? then Ok(Nil)
    else if kind == 58 || kind == 36 || kind == 42 then Err(NotANumber)
    else Err(UnsupportedPrefix(kind))
  }

  /** range(n) runs no turn for a negative n. */
  function CountOf(n: int): nat { if n < 0 then 0 else n }

  function ArrayOf(items: Outcome<seq<Reply>>): Outcome<Reply> {
    Outcome(if items.result.Err? then Err(items.result.error) else Ok(Array(items.result.value)), items.rest)
  }

  /** What the reader makes of a stream behind the type byte and the first line. */
  function BodyOf(kind: byte, line: seq<byte>, rest: seq<byte>): (o: Outcome<Reply>)
    ensures |o.rest| <= |rest|
    decreases |rest| + 1, 0
  {
    if kind == 36 && PyInt(line).Some? && PyInt(line).value >= 0 then BulkOf(rest, PyInt(line).value)
    else if kind == 42 && PyInt(line).Some? then ArrayOf(RepliesOf(rest, CountOf(PyInt(line).value)))
    else Outcome(LineReply(kind, line), rest)
  }

  function ReplyOf(b: seq<byte>): (o: Outcome<Reply>)
    ensures b != [] ==> |o.rest| < |b|
    ensures b == [] ==> o == Outcome(Err(Closed), [])
    decreases |b|, 0
  {
    if b == [] || SplitLine(b[1..]).None? then Outcome(Err(Closed), [])
    else
      var (line, rest) := SplitLine(b[1..]).value;
      BodyOf(b[0], line, rest)
  }

  function RepliesOf(b: seq<byte>, count: nat): (o: Outcome<seq<Reply>>)
    ensures |o.rest| <= |b|
    decreases |b|, count + 1
  {
    if count == 0 then Outcome(Ok([]), b)
    else
      var first := ReplyOf(b);
      if first.result.Err? then Outcome(Err(first.result.error), first.rest)
      else Prepend([first.result.value], RepliesOf(first.rest, count - 1))
  }

  /** Items already read, in front of what the rest of the stream gives. */
  function Prepend(done: seq<Reply>, o: Outcome<seq<Reply>>): (r: Outcome<seq<Reply>>)
    ensures r.rest == o.rest
  {
    if o.result.Err? then o else Outcome(Ok(done + o.result.value), o.rest)
  }

  // ---------- reading ----------

  predicate CrlfAt(b: seq<byte>, i: nat) { i + 1 < |b| && b[i] == 13 && b[i + 1] == 10 }

  /** The first CRLF ends the line. */
  lemma {:induction false} SplitLineAt(b: seq<byte>, n: nat)
    requires CrlfAt(b, n) && forall i: nat | i < n :: !CrlfAt(b, i)
    ensures SplitLine(b) == Some((b[..n], b[n + 2..]))
  {
    assert !CrlfAt(b, 0) || n == 0;
    if n > 0 {
      forall i: nat | i < n - 1 ensures !CrlfAt(b[1..], i) { assert !CrlfAt(b, i + 1); }
      SplitLineAt(b[1..], n - 1);
      assert [b[0]] + b[1..][..n - 1] == b[..n];
    }
  }

  lemma {:induction false} NoLine(b: seq<byte>)
    requires forall i: nat :: !CrlfAt(b, i)
    ensures SplitLine(b).None?
  {
    assert !CrlfAt(b, 0);
    if |b| >= 2 {
      forall i: nat ensures !CrlfAt(b[1..], i) { assert !CrlfAt(b, i + 1); }
      NoLine(b[1..]);
    }
  }

  /** Extending data by one byte can only complete a CRLF at its very end. */
  lemma CrlfExtends(data: seq<byte>, b: byte)
    ensures forall i: nat | i + 2 <= |data| :: CrlfAt(data + [b], i) == CrlfAt(data, i)
  {
  }

  predicate EndsWithCrlf(data: seq<byte>) { |data| >= 2 && data[|data| - 2] == 13 && data[|data| - 1] == 10 }

  lemma LineComplete(stream: seq<byte>, data: seq<byte>, rest: seq<byte>)
    requires stream == data + rest && EndsWithCrlf(data)
    requires forall i: nat | i + 2 < |data| :: !CrlfAt(data, i)
    ensures SplitLine(stream) == Some((data[..|data| - 2], rest))
  {
    var n := |data| - 2;
    forall i: nat | i < n ensures !CrlfAt(stream, i) {
      assert !CrlfAt(data, i);
    }
    SplitLineAt(stream, n);
    assert stream[..n] == data[..n] && stream[n + 2..] == rest;
  }

  /** read_line: byte by byte until the data ends with CRLF. */
  method ReadLine(sock: Socket) returns (r: Result<seq<byte>, Failure>)
    modifies sock
    ensures var split := SplitLine(old(sock.incoming));
      if split.Some? then r == Ok(split.value.0) && sock.incoming == split.value.1
      else r == Err(Closed) && sock.incoming == []
  {
    ghost var stream := sock.incoming;
    var data: seq<byte> := [];
    while !EndsWithCrlf(data)
      invariant data + sock.incoming == stream
      invariant forall i: nat | i + 2 < |data| :: !CrlfAt(data, i)
      decreases |sock.incoming|
    {
      ghost var ahead := sock.incoming;
      var chunk := sock.Recv(1);
      if chunk == [] {
        assert data == stream;
        forall i: nat ensures !CrlfAt(data, i) { }
        NoLine(stream);
        return Err(Closed);
      }
      assert ahead == chunk + sock.incoming;
      CrlfExtends(data, chunk[0]);
      assert chunk == [chunk[0]];
      data := data + chunk;
    }
    LineComplete(stream, data, sock.incoming);
    return Ok(data[..|data| - 2]);
  }

  /** The payload of a bulk string of known size, in as many receives as it takes. */
  method ReadBulk(sock: Socket, size: nat) returns (r: Result<Reply, Failure>)
    modifies sock
    ensures Outcome(r, sock.incoming) == BulkOf(old(sock.incoming), size)
  {
    ghost var stream := sock.incoming;
    var payload: seq<byte> := [];
    while |payload| < size + 2
      invariant |payload| <= size + 2 && payload + sock.incoming == stream
      decreases size + 2 - |payload|
    {
      ghost var ahead := sock.incoming;
      var chunk := sock.Recv(size + 2 - |payload|);
      if chunk == [] { return Err(Stalled); }
      assert payload + ahead == (payload + chunk) + sock.incoming;
      payload := payload + chunk;
    }
    assert payload[..size] == stream[..size] && sock.incoming == stream[size + 2..];
    if !ValidUtf8(payload[..size]) { return Err(NotText); }
    return Ok(Str(payload[..size]));
  }

  lemma PrependFailure(done: seq<Reply>, b: seq<byte>, count: nat, e: Failure, rest: seq<byte>)
    requires count > 0 && ReplyOf(b) == Outcome(Err(e), rest)
    ensures Prepend(done, RepliesOf(b, count)) == Outcome(Err(e), rest)
  {
  }

  lemma PrependItem(done: seq<Reply>, b: seq<byte>, count: nat, item: Reply, rest: seq<byte>)
    requires count > 0 && ReplyOf(b) == Outcome(Ok(item), rest)
    ensures Prepend(done, RepliesOf(b, count)) == Prepend(done + [item], RepliesOf(rest, count - 1))
  {
    PrependTwice(done, item, RepliesOf(rest, count - 1));
  }

  lemma PrependEnd(done: seq<Reply>, b: seq<byte>)
    ensures Prepend(done, RepliesOf(b, 0)) == Outcome(Ok(done), b)
  {
    assert done + [] == done;
  }

  lemma PrependTwice(done: seq<Reply>, item: Reply, o: Outcome<seq<Reply>>)
    ensures Prepend(done, Prepend([item], o)) == Prepend(done + [item], o)
  {
    if o.result.Ok? { assert done + ([item] + o.result.value) == (done + [item]) + o.result.value; }
  }

  lemma PrependNone(o: Outcome<seq<Reply>>)
    ensures Prepend([], o) == o
  {
    if o.result.Ok? { assert [] + o.result.value == o.result.value; }
  }

  /** [read_resp(sock) for _ in range(count)] */
  method ReadItems(sock: Socket, count: nat) returns (r: Result<seq<Reply>, Failure>)
    modifies sock
    ensures Outcome(r, sock.incoming) == RepliesOf(old(sock.incoming), count)
    decreases |sock.incoming|, 1
  {
    ghost var stream := sock.incoming;
    var items: seq<Reply>, i := [], 0;
    PrependNone(RepliesOf(stream, count));
    while i < count
      invariant 0 <= i <= count && |sock.incoming| <= |stream|
      invariant RepliesOf(stream, count) == Prepend(items, RepliesOf(sock.incoming, count - i))
    {
      ghost var ahead := sock.incoming;
      var item := ReadResp(sock);
      if item.Err? {
        PrependFailure(items, ahead, count - i, item.error, sock.incoming);
        return Err(item.error);
      }
      PrependItem(items, ahead, count - i, item.value, sock.incoming);
      items := items + [item.value];
      i := i + 1;
    }
    PrependEnd(items, sock.incoming);
    return Ok(items);
  }

  /** read_resp(sock): the reply at the front of the stream or its failure, and in both cases
      exactly what is left unread. */
  method ReadResp(sock: Socket) returns (r: Result<Reply, Failure>)
    modifies sock
    ensures Outcome(r, sock.incoming) == ReplyOf(old(sock.incoming))
    decreases |sock.incoming|, 0
  {
    ghost var stream := sock.incoming;
    var prefix := sock.Recv(1);
    if prefix == [] { return Err(Closed); }
    assert sock.incoming == stream[1..];
    var line := ReadLine(sock);
    if line.Err? { return Err(Closed); }
    if prefix[0] == 43 {
      if !ValidUtf8(line.value) { return Err(NotText); }
      return Ok(Str(line.value));
    } else if prefix[0] == 45 {
      if !ValidUtf8(line.value) { return Err(NotText); }
      return Err(ServerError(line.value));
    } else if prefix[0] == 58 {
      var n := PyInt(line.value);
      if n.None? { return Err(NotANumber); }
      return Ok(Integer(n.value));
    } else if prefix[0] == 36 {
      var size := PyInt(line.value);
      if size.None? { return Err(NotANumber); }
      if size.value < 0 { return Ok(Nil); }
      r := ReadBulk(sock, size.value);
    } else if prefix[0] == 42 {
      var count := PyInt(line.value);
      if count.None? { return Err(NotANumber); }
      var items := ReadItems(sock, if count.value < 0 then 0 else count.value);
      if items.Err? { return Err(items.error); }
      return Ok(Array(items.value));
    } else {
      return Err(UnsupportedPrefix(prefix[0]));
    }
  }

  // ---------- round trip ----------

  lemma HeaderLine(n: nat, rest: seq<byte>)
    ensures SplitLine(Numeral(n) + CRLF + rest) == Some((Numeral(n), rest))
  {
    var b := Numeral(n) + CRLF + rest;
    var k := |Numeral(n)|;
    forall i: nat | i < k ensures !CrlfAt(b, i) {
      assert Text.IsDigit(Text.Decimal(n)[i]);
    }
    SplitLineAt(b, k);
    assert b[..k] == Numeral(n) && b[k + 2..] == rest;
  }

  lemma BulkRoundTrip(part: text, rest: seq<byte>)
    ensures ReplyOf(BulkString(part) + rest) == Outcome(Ok(Str(part)), rest)
  {
    var tail := part + CRLF + rest;
    assert BulkString(part) + rest == [36] + Numeral(|part|) + CRLF + tail;
    BulkHeader(|part|, tail);
    assert tail[..|part|] == part && tail[|part| + 2..] == rest;
  }

  /** Behind the header of a bulk string the reader takes its payload. */
  lemma BulkHeader(size: nat, rest: seq<byte>)
    ensures ReplyOf([36] + Numeral(size) + CRLF + rest) == BulkOf(rest, size)
  {
    var b := [36] + Numeral(size) + CRLF + rest;
    assert b[1..] == Numeral(size) + CRLF + rest;
    HeaderLine(size, rest);
    IntOfNumeral(size);
  }

  function Strs(parts: seq<text>): (replies: seq<Reply>)
    ensures |replies| == |parts| && forall i | 0 <= i < |parts| :: replies[i] == Str(parts[i])
  {
    seq(|parts|, i requires 0 <= i < |parts| => Str(parts[i]))
  }

  lemma ItemsStep(b: seq<byte>, count: nat, first: Reply, tail: seq<byte>)
    requires count > 0 && ReplyOf(b) == Outcome(Ok(first), tail)
    ensures RepliesOf(b, count) == Prepend([first], RepliesOf(tail, count - 1))
  {
  }

  lemma {:induction false} BulksRoundTrip(parts: seq<text>, rest: seq<byte>)
    ensures RepliesOf(BulkStrings(parts) + rest, |parts|) == Outcome(Ok(Strs(parts)), rest)
  {
    if parts == [] {
      assert BulkStrings(parts) + rest == rest;
    } else {
      var tail := BulkStrings(parts[1..]) + rest;
      BulkStringsFirst(parts);
      Regroup(BulkString(parts[0]), BulkStrings(parts[1..]), rest);
      BulkRoundTrip(parts[0], tail);
      BulksRoundTrip(parts[1..], rest);
      ItemsStep(BulkStrings(parts) + rest, |parts|, Str(parts[0]), tail);
      StrsFirst(parts);
    }
  }

  lemma StrsFirst(parts: seq<text>)
    requires parts != []
    ensures Strs(parts) == [Str(parts[0])] + Strs(parts[1..])
  {
  }

  lemma ArrayLine(b: seq<byte>, line: seq<byte>, count: nat, rest: seq<byte>)
    requires b == [42] + line + CRLF + rest && SplitLine(line + CRLF + rest) == Some((line, rest))
    requires PyInt(line) == Some(count)
    ensures var items := RepliesOf(rest, count);
      ReplyOf(b) == Outcome(if items.result.Err? then Err(items.result.error) else Ok(Array(items.result.value)), items.rest)
  {
    assert b[1..] == line + CRLF + rest;
  }

  /** Behind the header of an array the reader takes its items. */
  lemma ArrayHeader(count: nat, rest: seq<byte>)
    ensures var items := RepliesOf(rest, count);
      ReplyOf([42] + Numeral(count) + CRLF + rest)
        == Outcome(if items.result.Err? then Err(items.result.error) else Ok(Array(items.result.value)), items.rest)
  {
    HeaderLine(count, rest);
    IntOfNumeral(count);
    ArrayLine([42] + Numeral(count) + CRLF + rest, Numeral(count), count, rest);
  }

  /** Reading an encoded command yields its parts in order and leaves exactly what follows,
      whatever bytes the parts contain. */
  lemma CommandRoundTrip(parts: seq<text>, suffix: seq<byte>)
    ensures ReplyOf(CommandBytes(parts) + suffix) == Outcome(Ok(Array(Strs(parts))), suffix)
  {
    Regroup([42] + Numeral(|parts|) + CRLF, BulkStrings(parts), suffix);
    ArrayHeader(|parts|, BulkStrings(parts) + suffix);
    BulksRoundTrip(parts, suffix);
  }

  /** A command written to a socket is read back from it under every chunking, and what was sent
      behind it stays unread. */
  method Loopback(parts: seq<text>, suffix: seq<byte>) returns (r: Result<Reply, Failure>, rest: seq<byte>)
    ensures r == Ok(Array(Strs(parts))) && rest == suffix
  {
    var wire := EncodeCommand(parts);
    var sock := new Socket(wire + suffix);
    r := ReadResp(sock);
    CommandRoundTrip(parts, suffix);
    rest := sock.incoming;
  }
}
