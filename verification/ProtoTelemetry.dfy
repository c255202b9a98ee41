/** The protobuf-like telemetry message: tagged fields, written in a fixed order and read back
    into lists of values per field number. */
module ProtoTelemetry {
  import opened Wrappers
  import opened Bytes
  import opened Base128

  /** A double as its eight packed bytes. */
  type Double = b: seq<byte> | |b| == 8 witness [0, 0, 0, 0, 0, 0, 0, 0]

  datatype Value = Number(n: nat) | Real(d: Double) | Text(s: text)

  datatype Field = Field(number: nat, value: Value)

  datatype Telemetry = Telemetry(
    eventId: text, orgId: text, groupId: text, assetId: text, assetKind: int,
    observedMillis: int, receivedMillis: int, latitude: Double, longitude: Double, altitude: Double,
    heading: Double, speed: Double, battery: Double, health: int, streamIds: seq<text>)

  // ---------- the wire format ----------

  function WireType(v: Value): (w: nat)
    ensures w < 3
  {
    match v case Number(_) => 0 case Real(_) => 1 case Text(_) => 2
  }

  function EncodeValue(v: Value): seq<byte> {
    match v
    case Number(n) => Varint(n)
    case Real(d) => d
    case Text(s) => Varint(|s|) + s
  }

  function EncodeField(f: Field): seq<byte> {
    Varint(8 * f.number + WireType(f.value)) + EncodeValue(f.value)
  }

  function EncodeFields(fields: seq<Field>): seq<byte> {
    if fields == [] then [] else EncodeFields(fields[..|fields| - 1]) + EncodeField(fields[|fields| - 1])
  }

  /** Reads one value; the count may run past the end, because a text slice is cut silently. */
  function ParseValue(wireType: nat, b: seq<byte>): (r: Result<(Value, nat), Failure>) {
    if wireType == 0 then
      var v := ParseVarint(b);
      if v.None? then Err(IndexError) else Ok((Number(v.value.0), v.value.1))
    else if wireType == 1 then
      if |b| < 8 then Err(StructError) else Ok((Real(b[..8]), 8))
    else if wireType == 2 then
      var size := ParseVarint(b);
      if size.None? then Err(IndexError) else ParseText(b[size.value.1..], size.value.0, size.value.1)
    else Err(UnsupportedWireType(wireType))
  }

  function ParseText(b: seq<byte>, length: nat, consumed: nat): Result<(Value, nat), Failure> {
    var slice := if length <= |b| then b[..length] else b;
    if ValidUtf8(slice) then Ok((Text(slice), consumed + length)) else Err(UnicodeError)
  }

  function ParseField(b: seq<byte>): (r: Result<(Field, nat), Failure>)
    ensures r.Ok? ==> r.value.1 > 0
  {
    var key := ParseVarint(b);
    if key.None? then Err(IndexError)
    else
      var (tag, k) := key.value;
      Tagged(tag / 8, Shifted(ParseValue(tag % 8, b[k..]), k))
  }

  /** The same reading, counted from `k` bytes earlier. */
  function Shifted<T>(r: Result<(T, nat), Failure>, k: nat): Result<(T, nat), Failure> {
    if r.Ok? then Ok((r.value.0, k + r.value.1)) else r
  }

  function Tagged(number: nat, r: Result<(Value, nat), Failure>): Result<(Field, nat), Failure> {
    if r.Ok? then Ok((Field(number, r.value.0), r.value.1)) else Err(r.error)
  }

  function Rest(b: seq<byte>, consumed: nat): seq<byte> {
    if consumed <= |b| then b[consumed..] else []
  }

  function Prepend(f: Field, r: Result<seq<Field>, Failure>): Result<seq<Field>, Failure> {
    if r.Ok? then Ok([f] + r.value) else r
  }

  /** All fields of a payload, in wire order. */
  function ParseFields(b: seq<byte>): Result<seq<Field>, Failure>
    decreases |b|
  {
    if b == [] then Ok([])
    else
      var first := ParseField(b);
      if first.Err? then Err(first.error) else Prepend(first.value.0, ParseFields(Rest(b, first.value.1)))
  }

  /** decoded.setdefault(number, []).append(value), field by field. */
  function Grouped(fields: seq<Field>): map<nat, seq<Value>> {
    if fields == [] then map[]
    else Add(Grouped(fields[..|fields| - 1]), fields[|fields| - 1])
  }

  function Add(m: map<nat, seq<Value>>, f: Field): map<nat, seq<Value>> {
    m[f.number := (if f.number in m then m[f.number] else []) + [f.value]]
  }

  function Decoded(b: seq<byte>): Result<map<nat, seq<Value>>, Failure> {
    var fields := ParseFields(b);
    if fields.Ok? then Ok(Grouped(fields.value)) else Err(fields.error)
  }

  // ---------- the writers ----------

  method WriteString(payload: Buffer, number: nat, value: text)
    modifies payload
    ensures payload.data == old(payload.data) + EncodeField(Field(number, Text(value)))
  {
    ghost var before, tag, size := payload.data, Varint(8 * number + 2), Varint(|value|);
    var _ := WriteVarint(payload, 8 * number + 2);
    var _ := WriteVarint(payload, |value|);
    payload.Extend(value);
    Regroup(before + tag, size, value);
    Regroup(before, tag, size + value);
    assert EncodeValue(Text(value)) == size + value;
  }

  method WriteDouble(payload: Buffer, number: nat, value: Double)
    modifies payload
    ensures payload.data == old(payload.data) + EncodeField(Field(number, Real(value)))
  {
    var _ := WriteVarint(payload, 8 * number + 1);
    payload.Extend(value);
  }

  method WriteVarintField(payload: Buffer, number: nat, value: int) returns (r: Result<(), Failure>)
    modifies payload
    ensures value >= 0 ==> r.Ok? && payload.data == old(payload.data) + EncodeField(Field(number, Number(value)))
    ensures value < 0 ==> r == Err(ValueError)
  {
    var _ := WriteVarint(payload, 8 * number);
    r := WriteVarint(payload, value);
  }

  predicate Encodable(t: Telemetry) {
    t.assetKind >= 0 && t.observedMillis >= 0 && t.receivedMillis >= 0 && t.health >= 0
  }

  function IdentityFields(t: Telemetry): seq<Field> {
    [Field(1, Text(t.eventId)), Field(2, Text(t.orgId)), Field(3, Text(t.groupId)), Field(4, Text(t.assetId))]
  }

  function ClockFields(t: Telemetry): seq<Field>
    requires t.assetKind >= 0 && t.observedMillis >= 0 && t.receivedMillis >= 0
  {
    [Field(5, Number(t.assetKind)), Field(6, Number(t.observedMillis)), Field(7, Number(t.receivedMillis))]
  }

  function PositionFields(t: Telemetry): seq<Field> {
    [Field(8, Real(t.latitude)), Field(9, Real(t.longitude)), Field(10, Real(t.altitude))]
  }

  function MotionFields(t: Telemetry): seq<Field> {
    [Field(11, Real(t.heading)), Field(12, Real(t.speed)), Field(13, Real(t.battery))]
  }

  /** The fourteen single-valued fields in write order. */
  function HeadFields(t: Telemetry): (fields: seq<Field>)
    requires Encodable(t)
    ensures |fields| == 14 && forall i | 0 <= i < 14 :: fields[i].number == i + 1
  {
    IdentityFields(t) + ClockFields(t) + PositionFields(t) + MotionFields(t) + [Field(14, Number(t.health))]
  }

  function StreamFields(streamIds: seq<text>): (fields: seq<Field>)
    ensures |fields| == |streamIds| && forall i | 0 <= i < |fields| :: fields[i] == Field(15, Text(streamIds[i]))
  {
    seq(|streamIds|, i requires 0 <= i < |streamIds| => Field(15, Text(streamIds[i])))
  }

  function FieldsOf(t: Telemetry): seq<Field>
    requires Encodable(t)
  {
    HeadFields(t) + StreamFields(t.streamIds)
  }

  lemma EncodeLast(fields: seq<Field>, f: Field)
    ensures EncodeFields(fields + [f]) == EncodeFields(fields) + EncodeField(f)
  {
    assert (fields + [f])[..|fields|] == fields;
  }

  method WriteIdentity(payload: Buffer, t: Telemetry)
    requires payload.data == []
    modifies payload
    ensures payload.data == EncodeFields(IdentityFields(t))
  {
    ghost var f := IdentityFields(t);
    WriteString(payload, 1, t.eventId);
    EncodeLast([], f[0]);
    WriteString(payload, 2, t.orgId);
    EncodeLast([] + [f[0]], f[1]);
    WriteString(payload, 3, t.groupId);
    EncodeLast([] + [f[0]] + [f[1]], f[2]);
    AppendThree([], f[0], f[1], f[2]);
    WriteString(payload, 4, t.assetId);
    EncodeLast([f[0], f[1], f[2]], f[3]);
    assert [] + [f[0], f[1], f[2]] == [f[0], f[1], f[2]] && [f[0], f[1], f[2]] + [f[3]] == f;
  }

  method WriteClock(payload: Buffer, t: Telemetry, ghost log: seq<Field>) returns (r: Result<(), Failure>)
    requires payload.data == EncodeFields(log)
    modifies payload
    ensures r.Ok? <==> t.assetKind >= 0 && t.observedMillis >= 0 && t.receivedMillis >= 0
    ensures r.Err? ==> r.error == ValueError
    ensures r.Ok? ==> payload.data == EncodeFields(log + ClockFields(t))
  {
    r := WriteVarintField(payload, 5, t.assetKind);
    if r.Err? { return; }
    ghost var f5 := Field(5, Number(t.assetKind));
    EncodeLast(log, f5);
    r := WriteVarintField(payload, 6, t.observedMillis);
    if r.Err? { return; }
    ghost var f6 := Field(6, Number(t.observedMillis));
    EncodeLast(log + [f5], f6);
    r := WriteVarintField(payload, 7, t.receivedMillis);
    if r.Err? { return; }
    ghost var f7 := Field(7, Number(t.receivedMillis));
    EncodeLast(log + [f5] + [f6], f7);
    AppendThree(log, f5, f6, f7);
    assert ClockFields(t) == [f5, f6, f7];
  }

  method WritePosition(payload: Buffer, t: Telemetry, ghost log: seq<Field>)
    requires payload.data == EncodeFields(log)
    modifies payload
    ensures payload.data == EncodeFields(log + PositionFields(t))
  {
    ghost var f := PositionFields(t);
    WriteDouble(payload, 8, t.latitude);
    EncodeLast(log, f[0]);
    WriteDouble(payload, 9, t.longitude);
    EncodeLast(log + [f[0]], f[1]);
    WriteDouble(payload, 10, t.altitude);
    EncodeLast(log + [f[0]] + [f[1]], f[2]);
    AppendThree(log, f[0], f[1], f[2]);
  }

  method WriteMotion(payload: Buffer, t: Telemetry, ghost log: seq<Field>)
    requires payload.data == EncodeFields(log)
    modifies payload
    ensures payload.data == EncodeFields(log + MotionFields(t))
  {
    ghost var f := MotionFields(t);
    WriteDouble(payload, 11, t.heading);
    EncodeLast(log, f[0]);
    WriteDouble(payload, 12, t.speed);
    EncodeLast(log + [f[0]], f[1]);
    WriteDouble(payload, 13, t.battery);
    EncodeLast(log + [f[0]] + [f[1]], f[2]);
    AppendThree(log, f[0], f[1], f[2]);
  }

  lemma AppendThree<T>(log: seq<T>, a: T, b: T, c: T)
    ensures log + [a] + [b] + [c] == log + [a, b, c]
  {
  }

  lemma TakeNext<T>(log: seq<T>, s: seq<T>, i: nat)
    requires i < |s|
    ensures log + s[..i + 1] == (log + s[..i]) + [s[i]]
  {
  }

  lemma EncodeNext(log: seq<Field>, fields: seq<Field>, i: nat)
    requires i < |fields|
    ensures EncodeFields(log + fields[..i + 1]) == EncodeFields(log + fields[..i]) + EncodeField(fields[i])
  {
    TakeNext(log, fields, i);
    EncodeLast(log + fields[..i], fields[i]);
  }

  method WriteStreams(payload: Buffer, streamIds: seq<text>, ghost log: seq<Field>)
    requires payload.data == EncodeFields(log)
    modifies payload
    ensures payload.data == EncodeFields(log + StreamFields(streamIds))
  {
    ghost var streams := StreamFields(streamIds);
    var i := 0;
    assert log + streams[..0] == log;
    while i < |streamIds|
      invariant 0 <= i <= |streamIds|
      invariant payload.data == EncodeFields(log + streams[..i])
    {
      WriteString(payload, 15, streamIds[i]);
      EncodeNext(log, streams, i);
      i := i + 1;
    }
    assert streams[..i] == streams;
  }

  /** encode_proto_like_telemetry: fails exactly when one of the four integers is negative. */
  method Encode(t: Telemetry) returns (r: Result<seq<byte>, Failure>)
    ensures r == if Encodable(t) then Ok(EncodeFields(FieldsOf(t))) else Err(ValueError)
  {
    var payload := new Buffer();
    WriteIdentity(payload, t);
    ghost var log := IdentityFields(t);
    var clock := WriteClock(payload, t, log);
    if clock.Err? { return Err(ValueError); }
    log := log + ClockFields(t);
    WritePosition(payload, t, log);
    log := log + PositionFields(t);
    WriteMotion(payload, t, log);
    var health := WriteVarintField(payload, 14, t.health);
    if health.Err? { return Err(ValueError); }
    EncodeLast(log + MotionFields(t), Field(14, Number(t.health)));
    WriteStreams(payload, t.streamIds, HeadFields(t));
    return Ok(payload.data);
  }

  // ---------- the reader ----------

  function Continue(done: seq<Field>, rest: Result<seq<Field>, Failure>): Result<seq<Field>, Failure> {
    if rest.Ok? then Ok(done + rest.value) else rest
  }

  /** payload[from : from + length].decode(), a slice that stops at the end of the payload. */
  method ReadSlice(payload: seq<byte>, from: nat, length: nat) returns (r: Result<(Value, nat), Failure>)
    requires from <= |payload|
    ensures r == ParseText(payload[from..], length, from)
  {
    var to := from + length;
    var slice := payload[from..if to <= |payload| then to else |payload|];
    assert slice == if to <= |payload| then payload[from..][..length] else payload[from..];
    if !ValidUtf8(slice) { return Err(UnicodeError); }
    return Ok((Text(slice), to));
  }

  lemma ShiftText(b: seq<byte>, length: nat, consumed: nat, k: nat)
    ensures Shifted(ParseText(b, length, consumed), k) == ParseText(b, length, k + consumed)
  {
  }

  /** The length and text at the cursor. */
  method ReadText(payload: seq<byte>, cursor: nat) returns (r: Result<(Value, nat), Failure>)
    requires cursor <= |payload|
    ensures r == Shifted(ParseValue(2, payload[cursor..]), cursor)
  {
    var size := ReadVarint(payload, cursor);
    if size.Err? { return Err(size.error); }
    var after := size.value.1;
    r := ReadSlice(payload, after, size.value.0);
    DropDrop(payload, cursor, after);
    ShiftText(payload[after..], size.value.0, after - cursor, cursor);
  }

  /** The value at the cursor, of the given wire type, and the cursor behind it. */
  method ReadValue(payload: seq<byte>, cursor: nat, wireType: nat) returns (r: Result<(Value, nat), Failure>)
    requires cursor <= |payload|
    ensures r == Shifted(ParseValue(wireType, payload[cursor..]), cursor)
  {
    if wireType == 0 {
      var v := ReadVarint(payload, cursor);
      if v.Err? { return Err(v.error); }
      return Ok((Number(v.value.0), v.value.1));
    } else if wireType == 1 {
      if |payload| - cursor < 8 { return Err(StructError); }
      assert payload[cursor..][..8] == payload[cursor..cursor + 8];
      return Ok((Real(payload[cursor..cursor + 8]), cursor + 8));
    } else if wireType == 2 {
      r := ReadText(payload, cursor);
    } else {
      return Err(UnsupportedWireType(wireType));
    }
  }

  lemma ShiftTagged(number: nat, r: Result<(Value, nat), Failure>, i: nat, j: nat)
    ensures Shifted(Tagged(number, Shifted(r, j)), i) == Tagged(number, Shifted(r, i + j))
  {
  }

  lemma DropDrop(b: seq<byte>, i: nat, j: nat)
    requires i <= j <= |b|
    ensures b[i..][j - i..] == b[j..]
  {
  }

  /** The field at the cursor and the cursor behind it. */
  method ReadField(payload: seq<byte>, cursor: nat) returns (r: Result<(Field, nat), Failure>)
    requires cursor < |payload|
    ensures r == Shifted(ParseField(payload[cursor..]), cursor)
  {
    var key := ReadVarint(payload, cursor);
    if key.Err? { return Err(key.error); }
    var number, wireType, after := key.value.0 / 8, key.value.0 % 8, key.value.1;
    var value := ReadValue(payload, after, wireType);
    DropDrop(payload, cursor, after);
    ShiftTagged(number, ParseValue(wireType, payload[after..]), cursor, after - cursor);
    if value.Err? { return Err(value.error); }
    return Ok((Field(number, value.value.0), value.value.1));
  }

  /** decode_proto_like_telemetry */
  method Decode(payload: seq<byte>) returns (r: Result<map<nat, seq<Value>>, Failure>)
    ensures r == Decoded(payload)
  {
    var cursor: nat, decoded: map<nat, seq<Value>> := 0, map[];
    ghost var done: seq<Field> := [];
    assert Rest(payload, 0) == payload;
    ContinueEmpty(ParseFields(payload));
    while cursor < |payload|
      invariant decoded == Grouped(done)
      invariant ParseFields(payload) == Continue(done, ParseFields(Rest(payload, cursor)))
    {
      var field := ReadField(payload, cursor);
      if field.Err? { return Err(field.error); }
      var f := field.value.0;
      assert Rest(payload[cursor..], field.value.1 - cursor) == Rest(payload, field.value.1);
      AppendDone(done, f, ParseFields(Rest(payload, field.value.1)));
      cursor := field.value.1;
      decoded := Add(decoded, f);
      assert (done + [f])[..|done|] == done;
      done := done + [f];
    }
    assert done + [] == done;
    return Ok(decoded);
  }

  lemma ContinueEmpty(r: Result<seq<Field>, Failure>)
    ensures Continue([], r) == r
  {
    if r.Ok? { assert [] + r.value == r.value; }
  }

  lemma AppendDone(done: seq<Field>, f: Field, rest: Result<seq<Field>, Failure>)
    ensures Continue(done, Prepend(f, rest)) == Continue(done + [f], rest)
  {
    if rest.Ok? { assert done + ([f] + rest.value) == (done + [f]) + rest.value; }
  }

  // ---------- locality ----------

  lemma ValueLocal(wireType: nat, a: seq<byte>, b: seq<byte>)
    requires ParseValue(wireType, a).Ok? && ParseValue(wireType, a).value.1 <= |a|
    ensures ParseValue(wireType, a + b) == ParseValue(wireType, a)
  {
    if wireType == 1 {
      assert (a + b)[..8] == a[..8];
    } else {
      VarintLocal(a, b);
      var (v, k) := ParseVarint(a).value;
      assert (a + b)[k..] == a[k..] + b;
      if wireType == 2 { assert (a[k..] + b)[..v] == a[k..][..v]; }
    }
  }

  /** A field that ends inside its payload is read the same whatever follows. */
  lemma FieldLocal(a: seq<byte>, b: seq<byte>)
    requires ParseField(a).Ok? && ParseField(a).value.1 <= |a|
    ensures ParseField(a + b) == ParseField(a)
  {
    VarintLocal(a, b);
    var (tag, k) := ParseVarint(a).value;
    ValueLocal(tag % 8, a[k..], b);
    DropFront(a, b, k);
  }

  lemma DropFront(a: seq<byte>, b: seq<byte>, k: nat)
    requires k <= |a|
    ensures (a + b)[k..] == a[k..] + b
  {
  }

  /** A payload whose last text is not cut short. */
  predicate Complete(b: seq<byte>)
    decreases |b|
  {
    b == [] || var first := ParseField(b);
      first.Ok? && first.value.1 <= |b| && Complete(b[first.value.1..])
  }

  lemma {:induction false} CompleteDecodes(b: seq<byte>)
    requires Complete(b)
    ensures ParseFields(b).Ok?
    decreases |b|
  {
    if b != [] { CompleteDecodes(b[ParseField(b).value.1..]); }
  }

  /** Decoding is compositional behind a complete payload. */
  lemma {:induction false} DecodeConcat(a: seq<byte>, b: seq<byte>)
    requires Complete(a)
    ensures ParseFields(a).Ok? && ParseFields(a + b) == Continue(ParseFields(a).value, ParseFields(b))
    decreases |a|
  {
    CompleteDecodes(a);
    if a == [] {
      assert a + b == b;
      ContinueEmpty(ParseFields(b));
    } else {
      var (f, n) := ParseField(a).value;
      DecodeConcat(a[n..], b);
      FieldLocal(a, b);
      DropFront(a, b, n);
      ContinueOne(f, ParseFields(a[n..]).value, ParseFields(b));
    }
  }

  lemma ContinueOne(f: Field, tail: seq<Field>, rest: Result<seq<Field>, Failure>)
    ensures Prepend(f, Continue(tail, rest)) == Continue([f] + tail, rest)
  {
    if rest.Ok? { assert [f] + (tail + rest.value) == ([f] + tail) + rest.value; }
  }

  /** Concatenation behaves for every continuation. */
  ghost predicate Compositional(a: seq<byte>) {
    ParseFields(a).Ok? && forall b :: ParseFields(a + b) == Continue(ParseFields(a).value, ParseFields(b))
  }

  lemma ReadsLast(b: seq<byte>, f: Field, consumed: nat)
    requires b != [] && ParseField(b) == Ok((f, consumed)) && consumed >= |b|
    ensures ParseFields(b) == Ok([f])
  {
    assert Rest(b, consumed) == [] && [f] + [] == [f];
  }

  /** A string field of declared length 5 that holds the single letter A: it decodes, as "A", but is
      cut short, and what is appended to it is swallowed. */
  lemma CutStringDecodes()
    ensures ParseFields([10, 5, 65]) == Ok([Field(1, Text([65]))]) && !Complete([10, 5, 65])
    ensures !Compositional([10, 5, 65])
  {
    var a: seq<byte> := [10, 5, 65];
    assert a[1..] == [5, 65] && [5, 65][1..] == [65];
    assert ParseVarint(a) == Some((10, 1)) && ParseVarint(a[1..]) == Some((5, 1));
    AsciiTail([]);
    assert [] + [65] == [65] && [65][1..] == [];
    assert ParseField(a) == Ok((Field(1, Text([65])), 7));
    ReadsLast(a, Field(1, Text([65])), 7);
    CompositionExact(a);
  }

  /** A payload decodes and composes with every continuation exactly when no text is cut short. */
  lemma CompositionExact(a: seq<byte>)
    ensures Compositional(a) <==> Complete(a)
  {
    if Complete(a) {
      CompleteDecodes(a);
      forall b ensures ParseFields(a + b) == Continue(ParseFields(a).value, ParseFields(b)) { DecodeConcat(a, b); }
    } else if ParseFields(a).Ok? {
      SwallowsByte(a);
      assert ParseVarint([0]) == Some((0, 1)) && ParseVarint([0][1..]).None?;
      assert ParseFields([0]).Err?;
    }
  }

  lemma {:induction false} AsciiTail(b: seq<byte>)
    requires ValidUtf8(b)
    ensures ValidUtf8(b + [0])
  {
    if b == [] {
      assert b + [0] == [0] && [0][1..] == [];
    } else {
      var n := if b[0] < 0x80 then 1 else if b[0] <= 0xDF then 2 else if b[0] <= 0xEF then 3 else 4;
      AsciiTail(b[n..]);
      assert (b + [0])[n..] == b[n..] + [0];
    }
  }

  /** A cut text takes the next byte as its own. */
  lemma {:induction false} SwallowsByte(a: seq<byte>)
    requires ParseFields(a).Ok? && !Complete(a)
    ensures ParseFields(a + [0]).Ok?
    decreases |a|
  {
    var (f, n) := ParseField(a).value;
    if n <= |a| {
      FieldLocal(a, [0]);
      SwallowsByte(a[n..]);
      assert (a + [0])[n..] == a[n..] + [0];
    } else {
      CutFieldGrows(a);
    }
  }

  lemma CutValueGrows(wireType: nat, a: seq<byte>)
    requires ParseValue(wireType, a).Ok? && ParseValue(wireType, a).value.1 > |a|
    ensures ParseValue(wireType, a + [0]).Ok? && ParseValue(wireType, a + [0]).value.1 == ParseValue(wireType, a).value.1
  {
    VarintLocal(a, [0]);
    var (v, k) := ParseVarint(a).value;
    AsciiTail(a[k..]);
    assert (a + [0])[k..] == a[k..] + [0];
    assert v == |a[k..] + [0]| ==> (a[k..] + [0])[..v] == a[k..] + [0];
  }

  lemma CutFieldGrows(a: seq<byte>)
    requires ParseField(a).Ok? && ParseField(a).value.1 > |a|
    ensures ParseFields(a + [0]).Ok?
  {
    VarintLocal(a, [0]);
    var (tag, k) := ParseVarint(a).value;
    DropFront(a, [0], k);
    CutValueGrows(tag % 8, a[k..]);
    EndsIt(a + [0]);
  }

  lemma EndsIt(b: seq<byte>)
    requires b != [] && ParseField(b).Ok? && ParseField(b).value.1 >= |b|
    ensures ParseFields(b).Ok?
  {
    assert Rest(b, ParseField(b).value.1) == [];
  }

  // ---------- round trip ----------

  lemma ValueRoundTrip(v: Value, suffix: seq<byte>)
    ensures ParseValue(WireType(v), EncodeValue(v) + suffix) == Ok((v, |EncodeValue(v)|))
  {
    match v {
      case Number(n) => VarintRoundTrip(n, suffix);
      case Real(d) => assert (d + suffix)[..8] == d;
      case Text(s) =>
        VarintRoundTrip(|s|, s + suffix);
        assert Varint(|s|) + s + suffix == Varint(|s|) + (s + suffix);
        assert (Varint(|s|) + (s + suffix))[|Varint(|s|)|..] == s + suffix;
        assert (s + suffix)[..|s|] == s;
    }
  }

  lemma BehindTag(tag: nat, code: seq<byte>, rest: seq<byte>)
    requires code == Varint(tag)
    ensures ParseField(code + rest) == Tagged(tag / 8, Shifted(ParseValue(tag % 8, rest), |code|))
  {
    VarintRoundTrip(tag, rest);
    assert (code + rest)[|code|..] == rest;
  }

  /** Behind a written key the value is read by the key's wire type. */
  lemma BehindKey(number: nat, wireType: nat, code: seq<byte>, rest: seq<byte>, value: Result<(Value, nat), Failure>)
    requires wireType < 3 && code == Varint(8 * number + wireType) && value == ParseValue(wireType, rest)
    ensures ParseField(code + rest) == Tagged(number, Shifted(value, |code|))
  {
    BehindTag(8 * number + wireType, code, rest);
    assert (8 * number + wireType) / 8 == number && (8 * number + wireType) % 8 == wireType;
  }

  lemma FieldRoundTrip(f: Field, suffix: seq<byte>)
    ensures ParseField(EncodeField(f) + suffix) == Ok((f, |EncodeField(f)|))
  {
    var tag, value := 8 * f.number + WireType(f.value), EncodeValue(f.value);
    ValueRoundTrip(f.value, suffix);
    BehindKey(f.number, WireType(f.value), Varint(tag), value + suffix, Ok((f.value, |value|)));
    Regroup(Varint(tag), value, suffix);
  }

  /** `b` is complete and holds exactly these fields. */
  predicate Reads(b: seq<byte>, fields: seq<Field>) { Complete(b) && ParseFields(b) == Ok(fields) }

  /** Every written field list is complete and reads back field by field. */
  lemma {:induction false} FieldsRoundTrip(fields: seq<Field>)
    ensures Reads(EncodeFields(fields), fields)
  {
    if fields == [] {
      assert Reads([], []);
    } else {
      var init, last := fields[..|fields| - 1], fields[|fields| - 1];
      assert init + [last] == fields;
      FieldsRoundTrip(init);
      ReadsNext(EncodeFields(init), init, last);
    }
  }

  lemma ReadsNext(a: seq<byte>, fields: seq<Field>, f: Field)
    requires Reads(a, fields)
    ensures Reads(a + EncodeField(f), fields + [f])
  {
    SingleField(f);
    AppendReads(a, fields, EncodeField(f), f);
  }

  lemma AppendReads(a: seq<byte>, fields: seq<Field>, b: seq<byte>, f: Field)
    requires Reads(a, fields) && Reads(b, [f])
    ensures Reads(a + b, fields + [f])
  {
    DecodeConcat(a, b);
    CompleteConcat(a, b);
  }

  lemma SingleField(f: Field)
    ensures Reads(EncodeField(f), [f])
  {
    FieldRoundTrip(f, []);
    assert EncodeField(f) + [] == EncodeField(f);
    assert EncodeField(f)[|EncodeField(f)|..] == [];
    assert [f] + [] == [f];
  }

  lemma CompleteStep(b: seq<byte>, n: nat)
    requires ParseField(b).Ok? && ParseField(b).value.1 == n <= |b| && Complete(b[n..])
    ensures Complete(b)
  {
  }

  lemma {:induction false} CompleteConcat(a: seq<byte>, b: seq<byte>)
    requires Complete(a) && Complete(b)
    ensures Complete(a + b)
    decreases |a|
  {
    if a == [] {
      assert a + b == b;
    } else {
      var n := ParseField(a).value.1;
      CompleteConcat(a[n..], b);
      FieldLocal(a, b);
      DropFront(a, b, n);
      CompleteStep(a + b, n);
    }
  }

  // ---------- field lists by number ----------

  /** The values of one field number, in wire order. */
  function Values(fields: seq<Field>, number: nat): seq<Value> {
    if fields == [] then []
    else
      var init, last := Values(fields[..|fields| - 1], number), fields[|fields| - 1];
      if last.number == number then init + [last.value] else init
  }

  lemma {:induction false} GroupedValues(fields: seq<Field>, number: nat)
    ensures number in Grouped(fields) <==> Values(fields, number) != []
    ensures number in Grouped(fields) ==> Grouped(fields)[number] == Values(fields, number)
  {
    if fields != [] { GroupedValues(fields[..|fields| - 1], number); }
  }

  lemma {:induction false} ValuesConcat(a: seq<Field>, b: seq<Field>, number: nat)
    ensures Values(a + b, number) == Values(a, number) + Values(b, number)
  {
    if b == [] {
      assert a + b == a;
    } else {
      var init, last := b[..|b| - 1], b[|b| - 1];
      ValuesConcat(a, init, number);
      assert (a + b)[..|a + b| - 1] == a + init;
    }
  }

  /** The map of a concatenation appends, number by number, the lists of the two maps. */
  lemma GroupedConcat(a: seq<Field>, b: seq<Field>, number: nat)
    ensures var m, ma, mb := Grouped(a + b), Grouped(a), Grouped(b);
      && (number in m <==> number in ma || number in mb)
      && (number in m ==> m[number] == (if number in ma then ma[number] else []) + (if number in mb then mb[number] else []))
  {
    GroupedValues(a + b, number);
    GroupedValues(a, number);
    GroupedValues(b, number);
    ValuesConcat(a, b, number);
  }

  /** decode(a ++ b) behind a complete a: the error of b, or the two maps' lists appended. */
  lemma DecodedConcat(a: seq<byte>, b: seq<byte>, number: nat)
    requires Complete(a)
    ensures Decoded(a).Ok?
    ensures Decoded(b).Err? ==> Decoded(a + b) == Decoded(b)
    ensures Decoded(b).Ok? ==> Decoded(a + b).Ok?
    ensures Decoded(b).Ok? ==>
      (var m, ma, mb := Decoded(a + b).value, Decoded(a).value, Decoded(b).value;
       && (number in m <==> number in ma || number in mb)
       && (number in m ==> m[number] == (if number in ma then ma[number] else []) + (if number in mb then mb[number] else [])))
  {
    DecodeConcat(a, b);
    if ParseFields(b).Ok? { GroupedConcat(ParseFields(a).value, ParseFields(b).value, number); }
  }

  lemma HeadValues(t: Telemetry, number: nat)
    requires Encodable(t)
    ensures Values(HeadFields(t), number)
         == if 1 <= number <= 14 then [HeadFields(t)[number - 1].value] else []
  {
    PrefixValues(HeadFields(t), 14, number);
    assert HeadFields(t)[..14] == HeadFields(t);
  }

  lemma {:induction false} PrefixValues(fields: seq<Field>, n: nat, number: nat)
    requires n <= |fields| && forall i | 0 <= i < |fields| :: fields[i].number == i + 1
    ensures Values(fields[..n], number) == if 1 <= number <= n then [fields[number - 1].value] else []
  {
    if n > 0 {
      PrefixValues(fields, n - 1, number);
      assert fields[..n][..n - 1] == fields[..n - 1];
    }
  }

  function Texts(streamIds: seq<text>): (values: seq<Value>)
    ensures |values| == |streamIds| && forall i | 0 <= i < |values| :: values[i] == Text(streamIds[i])
  {
    seq(|streamIds|, i requires 0 <= i < |streamIds| => Text(streamIds[i]))
  }

  lemma {:induction false} StreamValues(streamIds: seq<text>, number: nat)
    ensures Values(StreamFields(streamIds), number) == if number == 15 then Texts(streamIds) else []
  {
    if streamIds != [] {
      var n := |streamIds| - 1;
      StreamValues(streamIds[..n], number);
      assert StreamFields(streamIds)[..n] == StreamFields(streamIds[..n]);
      assert Texts(streamIds) == Texts(streamIds[..n]) + [Text(streamIds[n])];
    }
  }

  /** Decoding an encoded message gives field i its single value for 1..14, field 15 its stream
      ids in order, and no other field; an empty stream list leaves field 15 out. */
  lemma MessageRoundTrip(t: Telemetry)
    requires Encodable(t)
    ensures Decoded(EncodeFields(FieldsOf(t))).Ok?
    ensures var m := Decoded(EncodeFields(FieldsOf(t))).value;
      && (forall i | 1 <= i <= 14 :: i in m && m[i] == [HeadFields(t)[i - 1].value])
      && (15 in m <==> t.streamIds != []) && (15 in m ==> m[15] == Texts(t.streamIds))
      && (forall i | i in m :: 1 <= i <= 15)
  {
    DecodedWritten(FieldsOf(t));
    GroupedShape(t);
  }

  lemma DecodedWritten(fields: seq<Field>)
    ensures Decoded(EncodeFields(fields)) == Ok(Grouped(fields))
  {
    FieldsRoundTrip(fields);
  }

  lemma GroupedShape(t: Telemetry)
    requires Encodable(t)
    ensures var m := Grouped(FieldsOf(t));
      && (forall i | 1 <= i <= 14 :: i in m && m[i] == [HeadFields(t)[i - 1].value])
      && (15 in m <==> t.streamIds != []) && (15 in m ==> m[15] == Texts(t.streamIds))
      && (forall i | i in m :: 1 <= i <= 15)
  {
    forall number: nat
      ensures number in Grouped(FieldsOf(t)) <==> 1 <= number <= 14 || (number == 15 && t.streamIds != [])
      ensures 1 <= number <= 14 ==> Grouped(FieldsOf(t))[number] == [HeadFields(t)[number - 1].value]
      ensures number == 15 && t.streamIds != [] ==> Grouped(FieldsOf(t))[number] == Texts(t.streamIds)
    {
      FieldsGrouped(t, number);
    }
  }

  lemma FieldsGrouped(t: Telemetry, number: nat)
    requires Encodable(t)
    ensures number in Grouped(FieldsOf(t)) <==> 1 <= number <= 14 || (number == 15 && t.streamIds != [])
    ensures 1 <= number <= 14 ==> Grouped(FieldsOf(t))[number] == [HeadFields(t)[number - 1].value]
    ensures number == 15 && t.streamIds != [] ==> Grouped(FieldsOf(t))[number] == Texts(t.streamIds)
  {
    ValuesOf(t, number);
    GroupedValues(FieldsOf(t), number);
  }

  lemma ValuesOf(t: Telemetry, number: nat)
    requires Encodable(t)
    ensures Values(FieldsOf(t), number)
         == if 1 <= number <= 14 then [HeadFields(t)[number - 1].value] else if number == 15 then Texts(t.streamIds) else []
  {
    ValuesConcat(HeadFields(t), StreamFields(t.streamIds), number);
    HeadValues(t, number);
    StreamValues(t.streamIds, number);
  }

  function HeadLayout(t: Telemetry): map<nat, seq<Value>>
    requires Encodable(t)
  {
    map[1 := [Text(t.eventId)], 2 := [Text(t.orgId)], 3 := [Text(t.groupId)], 4 := [Text(t.assetId)],
        5 := [Number(t.assetKind)], 6 := [Number(t.observedMillis)], 7 := [Number(t.receivedMillis)],
        8 := [Real(t.latitude)], 9 := [Real(t.longitude)], 10 := [Real(t.altitude)], 11 := [Real(t.heading)],
        12 := [Real(t.speed)], 13 := [Real(t.battery)], 14 := [Number(t.health)]]
  }

  /** The message as a reader sees it: field numbers 1 to 14 with their values, and 15 if any. */
  function Layout(t: Telemetry): map<nat, seq<Value>>
    requires Encodable(t)
  {
    if t.streamIds == [] then HeadLayout(t) else HeadLayout(t)[15 := Texts(t.streamIds)]
  }

  lemma HeadLayoutAt(t: Telemetry, i: nat)
    requires Encodable(t)
    ensures i in HeadLayout(t) <==> 1 <= i <= 14
    ensures 1 <= i <= 14 ==> HeadLayout(t)[i] == [HeadFields(t)[i - 1].value]
  {
  }

  lemma SameMap<K, V>(m: map<K, V>, n: map<K, V>)
    requires forall k :: (k in m <==> k in n) && (k in m ==> m[k] == n[k])
    ensures m == n
  {
  }

  /** Decoding an encoded message gives every value under its own field number. */
  lemma DecodedLayout(t: Telemetry)
    requires Encodable(t)
    ensures Decoded(EncodeFields(FieldsOf(t))) == Ok(Layout(t))
  {
    MessageRoundTrip(t);
    LayoutIs(t, Decoded(EncodeFields(FieldsOf(t))).value);
  }

  lemma LayoutIs(t: Telemetry, m: map<nat, seq<Value>>)
    requires Encodable(t)
    requires forall i | 1 <= i <= 14 :: i in m && m[i] == [HeadFields(t)[i - 1].value]
    requires (15 in m <==> t.streamIds != []) && (15 in m ==> m[15] == Texts(t.streamIds))
    requires forall i | i in m :: 1 <= i <= 15
    ensures m == Layout(t)
  {
    forall i: nat ensures (i in m <==> i in Layout(t)) && (i in m ==> m[i] == Layout(t)[i]) {
      HeadLayoutAt(t, i);
    }
    SameMap(m, Layout(t));
  }

  /** No two messages share an encoding. */
  lemma {:induction false} FieldsInjective(a: seq<Field>, b: seq<Field>)
    requires EncodeFields(a) == EncodeFields(b)
    ensures a == b
  {
    FieldsRoundTrip(a);
    FieldsRoundTrip(b);
  }
}
