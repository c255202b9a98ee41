/** MQTT packet framing: a first byte, the remaining length in base 128, and the body. */
module Mqtt {
  import opened Wrappers
  import opened Bytes
  import opened Base128
  import opened Sockets

  datatype Failure = Closed

  /** remaining(value): the same bytes as the varint writer. */
  method Remaining(value: nat) returns (encoded: seq<byte>)
    ensures encoded == Varint(value)
  {
    var v := value;
    encoded := [];
    while true
      invariant encoded + Varint(v) == Varint(value)
      decreases v
    {
      var digit := v % 128;
      v := v / 128;
      encoded := encoded + [if v != 0 then digit + 128 else digit];
      if v == 0 { return; }
    }
  }

  /** exact(connection, count): reads exactly `count` bytes however they arrive. */
  method Exact(connection: Socket, count: nat) returns (r: Result<seq<byte>, Failure>)
    modifies connection
    ensures |old(connection.incoming)| >= count ==>
      r == Ok(old(connection.incoming)[..count]) && connection.incoming == old(connection.incoming)[count..]
    ensures |old(connection.incoming)| < count ==> r == Err(Closed) && connection.incoming == []
  {
    var data: seq<byte> := [];
    while |data| < count
      invariant |data| <= count && data + connection.incoming == old(connection.incoming)
      decreases count - |data|
    {
      ghost var before := connection.incoming;
      var chunk := connection.Recv(count - |data|);
      if chunk == [] { return Err(Closed); }
      assert data + before == (data + chunk) + connection.incoming;
      data := data + chunk;
    }
    return Ok(data);
  }

  /** The first byte, the body and what follows the packet at the front of a stream. */
  function PacketOf(stream: seq<byte>): Option<(byte, seq<byte>, seq<byte>)> {
    if stream == [] then None
    else
      var header := ParseVarint(stream[1..]);
      if header.None? then None
      else
        var start := 1 + header.value.1;
        var end := start + header.value.0;
        if |stream| < end then None else Some((stream[0], stream[start..end], stream[end..]))
  }

  lemma LengthStep(ahead: seq<byte>, length: nat, multiplier: nat)
    requires ahead != []
    ensures Resume(ParseVarint(ahead), length, multiplier, 0)
      == if ahead[0] < 128 then Ok((length + ahead[0] % 128 * multiplier, 1))
         else Resume(ParseVarint(ahead[1..]), length + ahead[0] % 128 * multiplier, 128 * multiplier, 1)
  {
    if ahead[0] < 128 {
      LastDigit(ahead, length, multiplier, 0);
    } else {
      NextDigit(ahead, length, multiplier, 0);
    }
  }

  /** The remaining length at the front of the stream, digit by digit from the socket. */
  method ReadLength(connection: Socket) returns (r: Result<nat, Failure>)
    modifies connection
    ensures var header := ParseVarint(old(connection.incoming));
      if header.Some? then r == Ok(header.value.0) && connection.incoming == old(connection.incoming)[header.value.1..]
      else r == Err(Closed) && connection.incoming == []
  {
    ghost var stream := connection.incoming;
    ghost var taken: nat := 0;
    var multiplier: nat, length: nat := 1, 0;
    while true
      invariant taken <= |stream| && connection.incoming == stream[taken..]
      invariant Resume(ParseVarint(stream), 0, 1, 0) == Resume(ParseVarint(connection.incoming), length, multiplier, taken)
      decreases |connection.incoming|
    {
      ghost var ahead := connection.incoming;
      var next := Exact(connection, 1);
      if next.Err? { return Err(Closed); }
      var digit := next.value[0];
      LengthStep(ahead, length, multiplier);
      ResumeShift(ParseVarint(ahead), length, multiplier, taken);
      if digit >= 128 {
        ResumeShift(ParseVarint(ahead[1..]), length + digit % 128 * multiplier, 128 * multiplier, taken + 1);
        ResumeShift(ParseVarint(ahead[1..]), length + digit % 128 * multiplier, 128 * multiplier, 1);
      }
      length := length + digit % 128 * multiplier;
      taken := taken + 1;
      assert stream[taken - 1..][1..] == stream[taken..];
      if digit < 128 { return Ok(length); }
      multiplier := multiplier * 128;
    }
  }

  lemma ResumeShift(ahead: Option<(nat, nat)>, result: nat, scale: nat, position: nat)
    ensures Resume(ahead, result, scale, position)
      == if ahead.None? then Err(IndexError)
         else Ok((Resume(ahead, result, scale, 0).value.0, position + ahead.value.1))
  {
  }

  /** packet(connection) */
  method Packet(connection: Socket) returns (r: Result<(byte, seq<byte>), Failure>)
    modifies connection
    ensures var p := PacketOf(old(connection.incoming));
      if p.Some? then r == Ok((p.value.0, p.value.1)) && connection.incoming == p.value.2
      else r == Err(Closed) && connection.incoming == []
  {
    ghost var stream := connection.incoming;
    var first := Exact(connection, 1);
    if first.Err? { return Err(Closed); }
    var length := ReadLength(connection);
    if length.Err? { return Err(Closed); }
    ghost var k := ParseVarint(stream[1..]).value.1;
    assert connection.incoming == stream[1..][k..] == stream[1 + k..];
    var body := Exact(connection, length.value);
    if body.Err? { return Err(Closed); }
    assert stream[1 + k..][..length.value] == stream[1 + k..1 + k + length.value];
    assert stream[1 + k..][length.value..] == stream[1 + k + length.value..];
    return Ok((first.value[0], body.value));
  }

  // ---------- laws ----------

  function Frame(first: byte, body: seq<byte>): seq<byte> {
    [first] + Varint(|body|) + body
  }

  /** A framed packet is recovered from any chunking, and nothing behind it is consumed. */
  lemma FrameRoundTrip(first: byte, body: seq<byte>, suffix: seq<byte>)
    ensures PacketOf(Frame(first, body) + suffix) == Some((first, body, suffix))
  {
    var stream := Frame(first, body) + suffix;
    VarintRoundTrip(|body|, body + suffix);
    assert stream[1..] == Varint(|body|) + (body + suffix);
    var start := 1 + |Varint(|body|)|;
    assert stream == ([first] + Varint(|body|)) + (body + suffix);
    assert stream[start..] == body + suffix;
    assert stream[start..start + |body|] == body && stream[start + |body|..] == suffix;
  }

  /** The packets at the front of a stream, `count` of them, and what follows. */
  function PacketsOf(stream: seq<byte>, count: nat): Option<(seq<(byte, seq<byte>)>, seq<byte>)> {
    if count == 0 then Some(([], stream))
    else
      var p := PacketOf(stream);
      if p.None? then None
      else
        var rest := PacketsOf(p.value.2, count - 1);
        if rest.None? then None else Some(([(p.value.0, p.value.1)] + rest.value.0, rest.value.1))
  }

  function Frames(packets: seq<(byte, seq<byte>)>): seq<byte> {
    if packets == [] then [] else Frame(packets[0].0, packets[0].1) + Frames(packets[1..])
  }

  lemma PacketsStep(stream: seq<byte>, count: nat, first: (byte, seq<byte>), tail: seq<byte>)
    requires count > 0 && PacketOf(stream) == Some((first.0, first.1, tail)) && PacketsOf(tail, count - 1).Some?
    ensures PacketsOf(stream, count) == Some(([first] + PacketsOf(tail, count - 1).value.0, PacketsOf(tail, count - 1).value.1))
  {
  }

  /** A stream of framed packets reads back as those packets, whatever follows. */
  lemma {:induction false} FramesRoundTrip(packets: seq<(byte, seq<byte>)>, suffix: seq<byte>)
    ensures PacketsOf(Frames(packets) + suffix, |packets|) == Some((packets, suffix))
  {
    if packets == [] {
      assert Frames(packets) + suffix == suffix;
    } else {
      var frame, tail := Frame(packets[0].0, packets[0].1), Frames(packets[1..]);
      FramesRoundTrip(packets[1..], suffix);
      FrameRoundTrip(packets[0].0, packets[0].1, tail + suffix);
      Regroup(frame, tail, suffix);
      PacketsStep(frame + (tail + suffix), |packets|, packets[0], tail + suffix);
      assert [packets[0]] + packets[1..] == packets;
    }
  }

  /** The length field has at most four bytes exactly up to 268,435,455, the largest remaining
      length of section 2.2.3 of MQTT 3.1.1; the reader itself accepts any number of bytes. */
  lemma FourBytes(n: nat)
    ensures |Varint(n)| <= 4 <==> n <= 268_435_455
  {
    var a := n / 128;
    var b := a / 128;
    var c := b / 128;
    assert |Varint(n)| == if n < 128 then 1 else 1 + |Varint(a)|;
    assert |Varint(a)| == if a < 128 then 1 else 1 + |Varint(b)|;
    assert |Varint(b)| == if b < 128 then 1 else 1 + |Varint(c)|;
    assert |Varint(c)| == if c < 128 then 1 else 1 + |Varint(c / 128)|;
  }
}
