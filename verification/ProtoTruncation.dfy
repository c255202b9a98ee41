/** Truncated telemetry messages: which cuts still decode, and to what. */
module ProtoTruncation {
  import opened Wrappers
  import opened Bytes
  import opened Base128
  import opened ProtoTelemetry

  /** A prefix of valid UTF-8 is valid exactly when it ends between two characters. */
  lemma {:induction false} Utf8Boundary(s: seq<byte>, k: nat)
    requires ValidUtf8(s) && k < |s|
    ensures ValidUtf8(s[..k]) <==> !Continuation(s[k])
    decreases k
  {
    if k > 0 {
      var n := if s[0] < 0x80 then 1 else if s[0] <= 0xDF then 2 else if s[0] <= 0xEF then 3 else 4;
      if k >= n {
        Utf8Boundary(s[n..], k - n);
        assert s[..k][n..] == s[n..][..k - n];
      }
    }
  }

  /** A text whose value is cut after k bytes: shortened when that is between two characters. */
  function ShortText(number: nat, s: text, k: nat): Result<seq<Field>, Failure>
    requires k < |s|
  {
    Utf8Boundary(s, k);
    if Continuation(s[k]) then Err(UnicodeError) else Ok([Field(number, Text(s[..k]))])
  }

  function KeyOf(f: Field): seq<byte> { Varint(8 * f.number + WireType(f.value)) }

  /** What is read of a field cut after `c` of its bytes: nothing of it at its start, a shortened
      text behind the length of a text when the cut falls between two characters, else an error. */
  function CutField(f: Field, c: nat): Result<seq<Field>, Failure>
    requires c < |EncodeField(f)|
  {
    if c == 0 then Ok([])
    else if c < |KeyOf(f)| then Err(IndexError)
    else CutValue(f, c - |KeyOf(f)|)
  }

  function CutValue(f: Field, c: nat): Result<seq<Field>, Failure>
    requires c < |EncodeValue(f.value)|
  {
    match f.value
    case Number(_) => Err(IndexError)
    case Real(_) => Err(StructError)
    case Text(s) => if c < |Varint(|s|)| then Err(IndexError) else ShortText(f.number, s, c - |Varint(|s|)|)
  }

  lemma CutNumber(n: nat, c: nat)
    requires c < |Varint(n)|
    ensures ParseValue(0, Varint(n)[..c]) == Err(IndexError)
  {
    CutVarint(n, c);
  }

  lemma CutLength(s: text, c: nat)
    requires c < |Varint(|s|)|
    ensures ParseValue(2, (Varint(|s|) + s)[..c]) == Err(IndexError)
  {
    FrontOfTwo(Varint(|s|), s, c);
    CutVarint(|s|, c);
  }

  /** The value behind the length of a text that is cut after k bytes. */
  lemma CutText(s: text, k: nat, cut: seq<byte>)
    requires k < |s| && cut == Varint(|s|) + s[..k]
    ensures Continuation(s[k]) ==> ParseValue(2, cut) == Err(UnicodeError)
    ensures !Continuation(s[k]) ==> ValidUtf8(s[..k]) && ParseValue(2, cut) == Ok((Text(s[..k]), |Varint(|s|)| + |s|))
  {
    var size := Varint(|s|);
    VarintRoundTrip(|s|, s[..k]);
    assert cut[|size|..] == s[..k];
    Utf8Boundary(s, k);
  }

  lemma FirstFails(b: seq<byte>)
    requires b != [] && ParseField(b).Err?
    ensures ParseFields(b) == Err(ParseField(b).error)
  {
  }

  lemma ValueFails(f: Field, cut: seq<byte>, e: Failure)
    requires ParseValue(WireType(f.value), cut) == Err(e)
    ensures ParseFields(KeyOf(f) + cut) == Err(e)
  {
    BehindKey(f.number, WireType(f.value), KeyOf(f), cut, Err(e));
    FirstFails(KeyOf(f) + cut);
  }

  lemma ValueParses(f: Field, cut: seq<byte>, v: Value, consumed: nat)
    requires ParseValue(WireType(f.value), cut) == Ok((v, consumed))
    ensures ParseField(KeyOf(f) + cut) == Ok((Field(f.number, v), |KeyOf(f)| + consumed))
  {
    BehindKey(f.number, WireType(f.value), KeyOf(f), cut, Ok((v, consumed)));
  }

  lemma ValueEnds(f: Field, cut: seq<byte>, v: Value, consumed: nat, b: seq<byte>)
    requires ParseValue(WireType(f.value), cut) == Ok((v, consumed)) && consumed >= |cut| && b == KeyOf(f) + cut
    ensures ParseFields(b) == Ok([Field(f.number, v)])
  {
    ValueParses(f, cut, v, consumed);
    ReadsLast(b, Field(f.number, v), |KeyOf(f)| + consumed);
  }

  lemma ShortTextReads(f: Field, s: text, k: nat, cut: seq<byte>)
    requires f.value == Text(s) && k < |s| && cut == Varint(|s|) + s[..k]
    ensures ParseFields(KeyOf(f) + cut) == ShortText(f.number, s, k)
  {
    CutText(s, k, cut);
    if Continuation(s[k]) {
      ValueFails(f, cut, UnicodeError);
    } else {
      ValueEnds(f, cut, Text(s[..k]), |Varint(|s|)| + |s|, KeyOf(f) + cut);
    }
  }

  lemma CutLengthReads(f: Field, s: text, cut: seq<byte>)
    requires f.value == Text(s) && |cut| < |Varint(|s|)| && cut == (Varint(|s|) + s)[..|cut|]
    ensures ParseFields(KeyOf(f) + cut) == Err(IndexError)
  {
    CutLength(s, |cut|);
    ValueFails(f, cut, IndexError);
  }

  lemma CutBehindLength(s: text, c: nat, cut: seq<byte>)
    requires |Varint(|s|)| <= c < |Varint(|s|) + s| && cut == (Varint(|s|) + s)[..c]
    ensures cut == Varint(|s|) + s[..c - |Varint(|s|)|]
  {
  }

  /** A text value cut behind its key is read as CutValue says. */
  lemma CutTextReads(f: Field, s: text, c: nat, cut: seq<byte>)
    requires f.value == Text(s) && c < |Varint(|s|) + s| && cut == (Varint(|s|) + s)[..c]
    ensures c < |Varint(|s|)| ==> ParseFields(KeyOf(f) + cut) == Err(IndexError)
    ensures c >= |Varint(|s|)| ==> ParseFields(KeyOf(f) + cut) == ShortText(f.number, s, c - |Varint(|s|)|)
  {
    if c < |Varint(|s|)| {
      CutLengthReads(f, s, cut);
    } else {
      CutBehindLength(s, c, cut);
      ShortTextReads(f, s, c - |Varint(|s|)|, cut);
    }
  }

  /** A value cut behind its key is read as CutValue says. */
  lemma CutValueReads(f: Field, c: nat)
    requires c < |EncodeValue(f.value)|
    ensures ParseFields(KeyOf(f) + EncodeValue(f.value)[..c]) == CutValue(f, c)
  {
    match f.value {
      case Number(n) =>
        CutNumber(n, c);
        ValueFails(f, Varint(n)[..c], IndexError);
      case Real(d) =>
        ValueFails(f, d[..c], StructError);
      case Text(s) =>
        CutTextReads(f, s, c, EncodeValue(f.value)[..c]);
    }
  }

  lemma CutKeyReads(f: Field, c: nat)
    requires 0 < c < |KeyOf(f)|
    ensures ParseFields(KeyOf(f)[..c]) == Err(IndexError)
  {
    CutVarint(8 * f.number + WireType(f.value), c);
    FirstFails(KeyOf(f)[..c]);
  }

  /** A cut field is read as CutField says. */
  lemma CutFieldReads(f: Field, c: nat)
    requires c < |EncodeField(f)|
    ensures ParseFields(EncodeField(f)[..c]) == CutField(f, c)
  {
    FrontOfTwo(KeyOf(f), EncodeValue(f.value), c);
    assert EncodeField(f) == KeyOf(f) + EncodeValue(f.value);
    if c == 0 {
      assert EncodeField(f)[..c] == [] && ParseFields([]) == Ok([]);
    } else if c < |KeyOf(f)| {
      CutKeyReads(f, c);
    } else {
      CutValueReads(f, c - |KeyOf(f)|);
    }
  }

  /** Every cut of a written payload falls in some field, and reading the cut payload gives the
      fields before it and what is read of the cut one. */
  lemma {:induction false} TruncationExact(fields: seq<Field>, n: nat) returns (i: nat, c: nat)
    requires n < |EncodeFields(fields)|
    ensures i < |fields| && c < |EncodeField(fields[i])| && n == |EncodeFields(fields[..i])| + c
    ensures ParseFields(EncodeFields(fields)[..n]) == Continue(fields[..i], CutField(fields[i], c))
  {
    i := |fields| - 1;
    var init, last := EncodeFields(fields[..i]), EncodeField(fields[i]);
    FrontOfTwo(init, last, n);
    if n < |init| {
      i, c := TruncationExact(fields[..|fields| - 1], n);
      assert fields[..|fields| - 1][..i] == fields[..i];
    } else {
      c := n - |init|;
      FieldsRoundTrip(fields[..i]);
      DecodeConcat(init, last[..c]);
      CutFieldReads(fields[i], c);
    }
  }

  /** A truncated message decodes exactly when the cut falls between two fields or, behind the
      length of a string, between two characters of it; it then holds the fields before the cut
      and the characters before it. */
  lemma TruncatedMessage(t: Telemetry, n: nat) returns (i: nat, c: nat)
    requires Encodable(t) && n < |EncodeFields(FieldsOf(t))|
    ensures i < |FieldsOf(t)| && c < |EncodeField(FieldsOf(t)[i])| && n == |EncodeFields(FieldsOf(t)[..i])| + c
    ensures var cut := CutField(FieldsOf(t)[i], c);
      Decoded(EncodeFields(FieldsOf(t))[..n])
        == if cut.Ok? then Ok(Grouped(FieldsOf(t)[..i] + cut.value)) else Err(cut.error)
  {
    i, c := TruncationExact(FieldsOf(t), n);
  }
}
