/** Truncated MQTT streams: a cut packet is never read, and the packets before it are. */
module MqttTruncation {
  import opened Wrappers
  import opened Bytes
  import opened Base128
  import opened Mqtt

  /** A packet cut anywhere before its end is not read. */
  lemma CutFrame(first: byte, body: seq<byte>, n: nat)
    requires n < |Frame(first, body)|
    ensures PacketOf(Frame(first, body)[..n]).None?
  {
    var code := Varint(|body|);
    assert Frame(first, body) == [first] + (code + body);
    if n > 0 {
      assert Frame(first, body)[..n][1..] == (code + body)[..n - 1];
      FrontOfTwo(code, body, n - 1);
      if n - 1 < |code| {
        CutVarint(|body|, n - 1);
      } else {
        VarintRoundTrip(|body|, body[..n - 1 - |code|]);
      }
    }
  }

  lemma FramesFirst(first: (byte, seq<byte>), others: seq<(byte, seq<byte>)>)
    ensures Frames([first] + others) == Frame(first.0, first.1) + Frames(others)
  {
    assert ([first] + others)[1..] == others;
  }

  lemma {:induction false} FramesLast(packets: seq<(byte, seq<byte>)>, last: (byte, seq<byte>))
    ensures Frames(packets + [last]) == Frames(packets) + Frame(last.0, last.1)
  {
    if packets == [] {
      FramesFirst(last, []);
      assert [] + [last] == [last] + [] && Frames([]) + Frame(last.0, last.1) == Frame(last.0, last.1) + Frames([]);
    } else {
      var first, others := packets[0], packets[1..];
      FramesLast(others, last);
      assert packets == [first] + others && packets + [last] == [first] + (others + [last]);
      FramesFirst(first, others);
      FramesFirst(first, others + [last]);
      Regroup(Frame(first.0, first.1), Frames(others), Frame(last.0, last.1));
    }
  }

  /** Every cut of a stream of packets falls in one packet; the reader gets exactly the packets
      before it, and then fails. */
  lemma {:induction false} CutFrames(packets: seq<(byte, seq<byte>)>, n: nat) returns (i: nat, cut: seq<byte>)
    requires n < |Frames(packets)|
    ensures i < |packets| && cut < Frame(packets[i].0, packets[i].1)
    ensures Frames(packets)[..n] == Frames(packets[..i]) + cut
    ensures PacketsOf(Frames(packets)[..n], i) == Some((packets[..i], cut)) && PacketOf(cut).None?
  {
    i := |packets| - 1;
    var init, last := Frames(packets[..i]), Frame(packets[i].0, packets[i].1);
    assert packets == packets[..i] + [packets[i]];
    FramesLast(packets[..i], packets[i]);
    FrontOfTwo(init, last, n);
    if n < |init| {
      i, cut := CutFrames(packets[..|packets| - 1], n);
      assert packets[..|packets| - 1][..i] == packets[..i];
    } else {
      cut := last[..n - |init|];
      FramesRoundTrip(packets[..i], cut);
      CutFrame(packets[i].0, packets[i].1, n - |init|);
    }
  }
}
