/** What each kind of RESP reply means, byte by byte. */
module RespReplies {
  import opened Wrappers
  import opened Bytes
  import opened Resp
  import opened RespStreams
  import Text

  /** No CRLF begins inside the line. */
  predicate OneLine(line: seq<byte>) { forall i: nat | i + 1 < |line| :: line[i] != 13 || line[i + 1] != 10 }

  lemma LineEnds(line: seq<byte>, rest: seq<byte>)
    requires OneLine(line)
    ensures SplitLine(line + [13, 10] + rest) == Some((line, rest))
  {
    var b := line + [13, 10] + rest;
    forall i: nat | i < |line| ensures !CrlfAt(b, i) {
      assert b[i] == line[i];
      assert i + 1 < |line| ==> b[i + 1] == line[i + 1];
    }
    SplitLineAt(b, |line|);
    assert b[..|line|] == line && b[|line| + 2..] == rest;
  }

  /** The reply that begins with this byte and line. */
  lemma ReplyIs(kind: byte, line: seq<byte>, rest: seq<byte>)
    requires OneLine(line)
    ensures ReplyOf([kind] + line + [13, 10] + rest) == BodyOf(kind, line, rest)
  {
    var b := [kind] + line + [13, 10] + rest;
    LineEnds(line, rest);
    assert b[1..] == line + [13, 10] + rest && b[0] == kind;
    ReplyByBody(b, line, rest);
  }

  /** '+' gives the line as text. */
  lemma SimpleString(line: seq<byte>, rest: seq<byte>)
    requires OneLine(line)
    ensures ValidUtf8(line) ==> ReplyOf([43] + line + [13, 10] + rest) == Outcome(Ok(Str(line)), rest)
    ensures !ValidUtf8(line) ==> ReplyOf([43] + line + [13, 10] + rest) == Outcome(Err(NotText), rest)
  {
    ReplyIs(43, line, rest);
  }

  /** '-' raises the line as the server's error. */
  lemma ErrorReply(line: seq<byte>, rest: seq<byte>)
    requires OneLine(line)
    ensures ValidUtf8(line) ==> ReplyOf([45] + line + [13, 10] + rest) == Outcome(Err(ServerError(line)), rest)
    ensures !ValidUtf8(line) ==> ReplyOf([45] + line + [13, 10] + rest) == Outcome(Err(NotText), rest)
  {
    ReplyIs(45, line, rest);
  }

  lemma NumeralLine(n: nat)
    ensures OneLine(Numeral(n)) && OneLine([45] + Numeral(n))
  {
    forall i: nat | i < |Numeral(n)| ensures Numeral(n)[i] >= 48 {
      assert Text.IsDigit(Text.Decimal(n)[i]);
    }
    assert forall i: nat | 0 < i < |[45] + Numeral(n)| :: ([45] + Numeral(n))[i] == Numeral(n)[i - 1];
  }

  /** int() reads a negative numeral. */
  lemma IntOfNegative(n: int)
    requires n >= 0
    ensures PyInt([45] + Numeral(n)) == Some(-n)
  {
    var s := Text.Decimal(n);
    var b := [45] + Numeral(n);
    assert Text.IsDigit(s[|s| - 1]) && b[|b| - 1] == Numeral(n)[|s| - 1];
    assert b[1..] == Numeral(n);
    DigitsOfNumeral(s);
    Text.NumberOfDecimal(n);
  }

  /** ':' gives the number. */
  lemma IntegerReply(n: nat, rest: seq<byte>)
    ensures ReplyOf([58] + Numeral(n) + [13, 10] + rest) == Outcome(Ok(Integer(n)), rest)
  {
    NumeralLine(n);
    IntOfNumeral(n);
    NumberReply(Numeral(n), n, rest);
  }

  lemma NegativeReply(n: int, rest: seq<byte>)
    requires n >= 0
    ensures ReplyOf([58] + ([45] + Numeral(n)) + [13, 10] + rest) == Outcome(Ok(Integer(-n)), rest)
  {
    NumeralLine(n);
    IntOfNegative(n);
    NumberReply([45] + Numeral(n), -n, rest);
  }

  lemma NumberReply(line: seq<byte>, n: int, rest: seq<byte>)
    requires OneLine(line) && PyInt(line) == Some(n)
    ensures ReplyOf([58] + line + [13, 10] + rest) == Outcome(Ok(Integer(n)), rest)
  {
    ReplyIs(58, line, rest);
  }

  /** '$' with a negative size gives no value, and no payload is read. */
  lemma NilReply(n: nat, rest: seq<byte>)
    requires n > 0
    ensures ReplyOf([36] + ([45] + Numeral(n)) + [13, 10] + rest) == Outcome(Ok(Nil), rest)
  {
    NumeralLine(n);
    ReplyIs(36, [45] + Numeral(n), rest);
    IntOfNegative(n);
  }

  /** '$' with a size gives exactly that many bytes as text and skips two more, whatever they are. */
  lemma BulkReply(payload: seq<byte>, x: byte, y: byte, rest: seq<byte>)
    ensures var b := [36] + Numeral(|payload|) + [13, 10] + (payload + [x, y] + rest);
      ReplyOf(b) == Outcome(if ValidUtf8(payload) then Ok(Str(payload)) else Err(NotText), rest)
  {
    NumeralLine(|payload|);
    IntOfNumeral(|payload|);
    PayloadOf(payload, [x, y], rest);
    SizedReply(Numeral(|payload|), |payload|, payload + [x, y] + rest);
  }

  lemma PayloadOf(payload: seq<byte>, two: seq<byte>, rest: seq<byte>)
    requires |two| == 2
    ensures BulkOf(payload + two + rest, |payload|)
         == Outcome(if ValidUtf8(payload) then Ok(Str(payload)) else Err(NotText), rest)
  {
    var tail := payload + two + rest;
    assert tail[..|payload|] == payload && tail[|payload| + 2..] == rest;
  }

  lemma SizedReply(line: seq<byte>, size: nat, rest: seq<byte>)
    requires OneLine(line) && PyInt(line) == Some(size)
    ensures ReplyOf([36] + line + [13, 10] + rest) == BulkOf(rest, size)
  {
    ReplyIs(36, line, rest);
  }

  /** '*' with a negative count gives an empty array. */
  lemma EmptyArray(n: nat, rest: seq<byte>)
    ensures ReplyOf([42] + ([45] + Numeral(n)) + [13, 10] + rest) == Outcome(Ok(Array([])), rest)
  {
    NumeralLine(n);
    ReplyIs(42, [45] + Numeral(n), rest);
    IntOfNegative(n);
  }

  /** The bytes are read as this item, whatever follows them. */
  ghost predicate Reads(wire: seq<byte>, item: Reply) {
    forall tail :: ReplyOf(wire + tail) == Outcome(Ok(item), tail)
  }

  /** '*' with a count gives that many replies, each read behind the one before. */
  lemma ArrayReply(items: seq<Reply>, wires: seq<seq<byte>>, rest: seq<byte>)
    requires |items| == |wires|
    requires forall i | 0 <= i < |items| :: Reads(wires[i], items[i])
    ensures ReplyOf([42] + Numeral(|items|) + [13, 10] + (Concat(wires) + rest)) == Outcome(Ok(Array(items)), rest)
  {
    NumeralLine(|items|);
    ReplyIs(42, Numeral(|items|), Concat(wires) + rest);
    IntOfNumeral(|items|);
    ItemsInOrder(items, wires, rest);
  }

  lemma ConcatFirst(wires: seq<seq<byte>>, rest: seq<byte>)
    requires wires != []
    ensures Concat(wires) + rest == wires[0] + (Concat(wires[1..]) + rest)
  {
    Regroup(wires[0], Concat(wires[1..]), rest);
  }

  lemma ItemThenRest(b: seq<byte>, item: Reply, tail: seq<byte>, others: seq<Reply>, rest: seq<byte>)
    requires ReplyOf(b) == Outcome(Ok(item), tail) && RepliesOf(tail, |others|) == Outcome(Ok(others), rest)
    ensures RepliesOf(b, |others| + 1) == Outcome(Ok([item] + others), rest)
  {
    ItemsStep(b, |others| + 1, item, tail);
  }

  lemma {:induction false} ItemsInOrder(items: seq<Reply>, wires: seq<seq<byte>>, rest: seq<byte>)
    requires |items| == |wires|
    requires forall i | 0 <= i < |items| :: Reads(wires[i], items[i])
    ensures RepliesOf(Concat(wires) + rest, |items|) == Outcome(Ok(items), rest)
    decreases |items|
  {
    if items == [] {
      assert Concat(wires) + rest == rest;
    } else {
      var wire, others := wires[0], wires[1..];
      forall i | 0 <= i < |items[1..]| ensures Reads(others[i], items[1..][i]) {
        assert others[i] == wires[i + 1] && items[1..][i] == items[i + 1];
      }
      ItemsInOrder(items[1..], others, rest);
      ConcatFirst(wires, rest);
      ReadFirst(wire, items[0], Concat(others) + rest, items[1..], rest);
      assert [items[0]] + items[1..] == items;
    }
  }

  lemma ReadFirst(wire: seq<byte>, item: Reply, tail: seq<byte>, others: seq<Reply>, rest: seq<byte>)
    requires Reads(wire, item) && RepliesOf(tail, |others|) == Outcome(Ok(others), rest)
    ensures RepliesOf(wire + tail, |others| + 1) == Outcome(Ok([item] + others), rest)
  {
    ItemThenRest(wire + tail, item, tail, others, rest);
  }

  /** A line that int() does not read is refused where a number is due. */
  lemma NumberDue(kind: byte, line: seq<byte>, rest: seq<byte>)
    requires OneLine(line) && PyInt(line).None? && (kind == 36 || kind == 42 || kind == 58)
    ensures ReplyOf([kind] + line + [13, 10] + rest) == Outcome(Err(NotANumber), rest)
  {
    ReplyIs(kind, line, rest);
  }

  /** Any other first byte is refused by name, behind its line. */
  lemma UnknownReply(kind: byte, line: seq<byte>, rest: seq<byte>)
    requires OneLine(line) && kind != 36 && kind != 42 && kind != 43 && kind != 45 && kind != 58
    ensures ReplyOf([kind] + line + [13, 10] + rest) == Outcome(Err(UnsupportedPrefix(kind)), rest)
  {
    ReplyIs(kind, line, rest);
  }

  // ---------- int() ----------

  predicate AllSpace(b: seq<byte>) { forall i | 0 <= i < |b| :: b[i] in [32, 9, 10, 11, 12, 13] }

  lemma {:induction false} StripsLeft(space: seq<byte>, b: seq<byte>)
    requires AllSpace(space) && b != [] && !IsSpace(b[0])
    ensures StripLeft(space + b) == b
  {
    if space == [] {
      assert space + b == b;
    } else {
      assert (space + b)[1..] == space[1..] + b;
      StripsLeft(space[1..], b);
    }
  }

  lemma {:induction false} StripsRight(b: seq<byte>, space: seq<byte>)
    requires AllSpace(space) && b != [] && !IsSpace(b[|b| - 1])
    ensures StripRight(b + space) == b
  {
    if space == [] {
      assert b + space == b;
    } else {
      var n := |space| - 1;
      assert (b + space)[..|b + space| - 1] == b + space[..n];
      StripsRight(b, space[..n]);
    }
  }

  lemma EndsAreDigits(digits: string)
    requires digits != "" && Text.IsNumeral(digits)
    ensures IsDigitByte(Ascii(digits)[0]) && IsDigitByte(Ascii(digits)[|digits| - 1])
  {
    assert Text.IsDigit(digits[0]) && Text.IsDigit(digits[|digits| - 1]);
  }

  /** What int() reads between the spaces: an optional sign is cut off. */
  function Unsigned(body: seq<byte>): seq<byte> {
    if body != [] && (body[0] == 43 || body[0] == 45) then body[1..] else body
  }

  lemma UnsignedBody(sign: seq<byte>, b: seq<byte>)
    requires sign in [[], [43], [45]] && b != [] && IsDigitByte(b[0]) && IsDigitByte(b[|b| - 1])
    ensures var body := sign + b;
      Unsigned(body) == b && !IsSpace(body[0]) && !IsSpace(body[|body| - 1]) && (body[0] == 45 <==> sign == [45])
  {
    var body := sign + b;
    assert body[|body| - 1] == b[|b| - 1];
    if sign == [] {
      assert body == b;
    } else {
      assert body[0] == sign[0] && body[1..] == b;
    }
  }

  lemma PyIntIs(line: seq<byte>, body: seq<byte>, n: nat)
    requires StripRight(StripLeft(line)) == body && body != [] && Digits(Unsigned(body)) == Some(n)
    ensures PyInt(line) == Some(Signed(body[0] == 45, n))
  {
  }

  /** int() accepts ASCII space around an optional sign and digits with leading zeros. */
  lemma IntSpelled(left: seq<byte>, sign: seq<byte>, digits: string, right: seq<byte>)
    requires AllSpace(left) && AllSpace(right) && sign in [[], [43], [45]] && digits != "" && Text.IsNumeral(digits)
    ensures var n: int := Text.Number(digits);
      PyInt(left + (sign + Ascii(digits) + right)) == Some(if sign == [45] then -n else n)
  {
    EndsAreDigits(digits);
    UnsignedBody(sign, Ascii(digits));
    DigitsOfNumeral(digits);
    Stripped(left, sign + Ascii(digits), right);
    PyIntIs(left + (sign + Ascii(digits) + right), sign + Ascii(digits), Text.Number(digits));
  }

  /** Digits with single underscores between them. */
  predicate Grouped(b: seq<byte>) {
    b != [] && forall i | 0 <= i < |b| ::
      48 <= b[i] <= 57 || (b[i] == 95 && 0 < i < |b| - 1 && 48 <= b[i - 1] <= 57 && 48 <= b[i + 1] <= 57)
  }

  /** Exactly digits with single underscores between them are read as digits. */
  lemma {:induction false} DigitsExactly(b: seq<byte>)
    ensures Digits(b).Some? <==> Grouped(b)
    decreases |b|
  {
    if b != [] && IsDigitByte(b[|b| - 1]) && |b| > 1 {
      var n := |b| - 1;
      if b[n - 1] == 95 {
        DigitsExactly(b[..n - 1]);
        BehindUnderscore(b);
      } else {
        DigitsExactly(b[..n]);
        BehindDigit(b);
      }
    }
  }

  lemma BehindUnderscore(b: seq<byte>)
    requires |b| > 1 && IsDigitByte(b[|b| - 1]) && b[|b| - 2] == 95
    ensures Grouped(b) <==> Grouped(b[..|b| - 2])
  {
    var k := |b| - 2;
    if Grouped(b) {
      assert b[k] == 95 && k > 0 && 48 <= b[k - 1] <= 57;
    }
    if Grouped(b[..k]) {
      assert b[..k][k - 1] == b[k - 1] && 48 <= b[k - 1] <= 57;
    }
  }

  lemma BehindDigit(b: seq<byte>)
    requires |b| > 1 && IsDigitByte(b[|b| - 1]) && b[|b| - 2] != 95
    ensures Grouped(b) <==> Grouped(b[..|b| - 1])
  {
    var n := |b| - 1;
    if Grouped(b) {
      assert forall i | 0 <= i < n && b[i] == 95 :: i + 1 < n;
    }
  }

  /** Underscores do not change the number. */
  lemma UnderscoreIgnored(front: string, d: char)
    requires front != "" && Text.IsNumeral(front) && Text.IsDigit(d)
    ensures Digits(Ascii(front) + [95, d as int]) == Digits(Ascii(front + [d]))
  {
    var b, c := Ascii(front) + [95, d as int], Ascii(front + [d]);
    assert b[..|b| - 2] == Ascii(front) && c[..|c| - 1] == Ascii(front);
    assert Text.IsDigit(front[|front| - 1]);
  }

  lemma Stripped(left: seq<byte>, body: seq<byte>, right: seq<byte>)
    requires AllSpace(left) && AllSpace(right) && body != [] && !IsSpace(body[0]) && !IsSpace(body[|body| - 1])
    ensures StripRight(StripLeft(left + (body + right))) == body
  {
    assert (body + right)[0] == body[0];
    StripsLeft(left, body + right);
    StripsRight(body, right);
  }

  // ---------- known wires ----------

  lemma PingIsText()
    ensures ValidUtf8([80, 73, 78, 71])
  {
    var ping: seq<byte> := [80, 73, 78, 71];
    assert ping[1..] == [73, 78, 71] && ping[1..][1..] == [78, 71] && ping[1..][1..][1..] == [71] && ping[1..][1..][1..][1..] == [];
    assert ValidUtf8(ping[1..][1..][1..]) && ValidUtf8(ping[1..][1..]) && ValidUtf8(ping[1..]);
  }

  lemma OneDigit(n: nat)
    requires n < 10
    ensures Numeral(n) == [48 + n]
  {
  }

  /** "*1", "$4", "PING" */
  lemma PingOnTheWire(ping: text)
    requires ping == [80, 73, 78, 71]
    ensures CommandBytes([ping]) == [42, 49, 13, 10] + [36, 52, 13, 10, 80, 73, 78, 71, 13, 10]
  {
    OneDigit(1);
    OneDigit(4);
    BulkStringsFirst([ping]);
    assert [ping][1..] == [] && BulkStrings([]) == [];
    assert BulkString(ping) == [36, 52, 13, 10, 80, 73, 78, 71, 13, 10];
    assert BulkStrings([ping]) == BulkString(ping);
  }

  /** "+OK" is the text OK. */
  lemma OkIsText()
    ensures ReplyOf([43, 79, 75, 13, 10]) == Outcome(Ok(Str([79, 75])), [])
  {
    var ok: seq<byte> := [79, 75];
    assert ok[1..][1..] == [] && ValidUtf8(ok[1..]) && ValidUtf8(ok);
    SimpleString(ok, []);
    assert [43] + ok + [13, 10] + [] == [43, 79, 75, 13, 10];
  }
}
