/** The bytes of telemetry fields and how unreadable ones are refused. */
module ProtoWire {
  import opened Wrappers
  import opened Bytes
  import opened Base128
  import opened ProtoTelemetry

  /** A key is eight times the field number plus 0 for integers, 1 for doubles and 2 for texts; texts
      carry their length in bytes. */
  lemma WireFormat(number: nat)
    ensures forall n: nat :: EncodeField(Field(number, Number(n))) == Varint(8 * number) + Varint(n)
    ensures forall d: Double :: EncodeField(Field(number, Real(d))) == Varint(8 * number + 1) + d
    ensures forall s: text :: EncodeField(Field(number, Text(s))) == Varint(8 * number + 2) + (Varint(|s|) + s)
  {
  }

  /** Field 5 with 300, field 8 with a double and field 15 with "A", byte by byte. */
  lemma KnownFields(d: Double)
    ensures EncodeField(Field(5, Number(300))) == [40, 172, 2]
    ensures EncodeField(Field(8, Real(d))) == [65] + d
    ensures ValidUtf8([65]) && EncodeField(Field(15, Text([65]))) == [122, 1, 65]
  {
    AsciiTail([]);
    assert [] + [0] == [0];
    assert ValidUtf8([65][1..]);
    assert Varint(300) == [172] + Varint(2);
    assert Varint(40) == [40] && Varint(65) == [65] && Varint(122) == [122] && Varint(1) == [1];
  }

  /** Wire types 3 to 7 are refused by number. */
  lemma UnknownWireType(number: nat, wireType: nat, rest: seq<byte>)
    requires 3 <= wireType < 8
    ensures ParseField(Varint(8 * number + wireType) + rest) == Err(UnsupportedWireType(wireType))
  {
    BehindTag(8 * number + wireType, Varint(8 * number + wireType), rest);
    assert (8 * number + wireType) / 8 == number && (8 * number + wireType) % 8 == wireType;
  }

  /** A string that is not UTF-8 is refused. */
  lemma BadText(number: nat, bytes: seq<byte>, rest: seq<byte>)
    requires !ValidUtf8(bytes)
    ensures ParseField(Varint(8 * number + 2) + (Varint(|bytes|) + bytes + rest)) == Err(UnicodeError)
  {
    var tail := Varint(|bytes|) + bytes + rest;
    Regroup(Varint(|bytes|), bytes, rest);
    VarintRoundTrip(|bytes|, bytes + rest);
    assert tail[|Varint(|bytes|)|..] == bytes + rest && (bytes + rest)[..|bytes|] == bytes;
    BehindKey(number, 2, Varint(8 * number + 2), tail, Err(UnicodeError));
  }
}
