/** UTF-8 as RFC 3629 defines it: the validity test accepts exactly the encodings of Unicode scalar
    values. */
module Utf8 {
  import opened Bytes

  /** A Unicode scalar value. */
  predicate IsScalar(c: nat) { c < 0xD800 || 0xE000 <= c <= 0x10FFFF }

  /** The encoding of one scalar value, section 3 of RFC 3629. */
  function EncodePoint(c: nat): (b: seq<byte>)
    requires IsScalar(c)
    ensures b != []
  {
    if c < 0x80 then [c]
    else if c < 0x800 then [0xC0 + c / 0x40, 0x80 + c % 0x40]
    else if c < 0x10000 then [0xE0 + c / 0x1000, 0x80 + c / 0x40 % 0x40, 0x80 + c % 0x40]
    else [0xF0 + c / 0x40000, 0x80 + c / 0x1000 % 0x40, 0x80 + c / 0x40 % 0x40, 0x80 + c % 0x40]
  }

  function EncodePoints(points: seq<nat>): seq<byte>
    requires forall i | 0 <= i < |points| :: IsScalar(points[i])
  {
    if points == [] then [] else EncodePoint(points[0]) + EncodePoints(points[1..])
  }

  lemma FourParts(c: nat)
    ensures c == 0x40000 * (c / 0x40000) + 0x1000 * (c / 0x1000 % 0x40) + 0x40 * (c / 0x40 % 0x40) + c % 0x40
  {
    var a, b := c / 0x40, c / 0x1000;
    assert a / 0x40 == b && b / 0x40 == c / 0x40000;
  }

  /** One encoding in front of valid text is valid. */
  lemma PointThenValid(c: nat, rest: seq<byte>)
    requires IsScalar(c) && ValidUtf8(rest)
    ensures ValidUtf8(EncodePoint(c) + rest)
  {
    var b := EncodePoint(c) + rest;
    FourParts(c);
    if c < 0x80 {
      assert b[1..] == rest;
    } else if c < 0x800 {
      assert b[2..] == rest;
    } else if c < 0x10000 {
      assert b[3..] == rest;
    } else {
      assert b[4..] == rest;
    }
  }

  lemma {:induction false} EncodedIsValid(points: seq<nat>)
    requires forall i | 0 <= i < |points| :: IsScalar(points[i])
    ensures ValidUtf8(EncodePoints(points))
  {
    if points != [] {
      EncodedIsValid(points[1..]);
      PointThenValid(points[0], EncodePoints(points[1..]));
    }
  }

  /** How many bytes the first character takes. */
  function Width(b: seq<byte>): nat
    requires b != []
  {
    if b[0] < 0x80 then 1 else if b[0] <= 0xDF then 2 else if b[0] <= 0xEF then 3 else 4
  }

  lemma TwoBytes(x: byte, y: byte) returns (c: nat)
    requires 0xC2 <= x <= 0xDF && Continuation(y)
    ensures IsScalar(c) && EncodePoint(c) == [x, y]
  {
    c := 0x40 * (x as int - 0xC0) + (y as int - 0x80);
    assert c / 0x40 == x as int - 0xC0 && c % 0x40 == y as int - 0x80;
  }

  lemma ThreeBytes(x: byte, y: byte, z: byte) returns (c: nat)
    requires 0xE0 <= x <= 0xEF && Continuation(y) && Continuation(z)
    requires (x == 0xE0 ==> y >= 0xA0) && (x == 0xED ==> y <= 0x9F)
    ensures IsScalar(c) && EncodePoint(c) == [x, y, z]
  {
    var high := 0x40 * (x as int - 0xE0) + (y as int - 0x80);
    c := 0x40 * high + (z as int - 0x80);
    assert c / 0x40 == high && c % 0x40 == z as int - 0x80;
    assert high / 0x40 == x as int - 0xE0 && high % 0x40 == y as int - 0x80;
    assert c / 0x1000 == high / 0x40;
  }

  lemma FourBytes(x: byte, y: byte, z: byte, w: byte) returns (c: nat)
    requires 0xF0 <= x <= 0xF4 && Continuation(y) && Continuation(z) && Continuation(w)
    requires (x == 0xF0 ==> y >= 0x90) && (x == 0xF4 ==> y <= 0x8F)
    ensures IsScalar(c) && EncodePoint(c) == [x, y, z, w]
  {
    var top := 0x40 * (x as int - 0xF0) + (y as int - 0x80);
    var high := 0x40 * top + (z as int - 0x80);
    c := 0x40 * high + (w as int - 0x80);
    assert c / 0x40 == high && c % 0x40 == w as int - 0x80;
    assert high / 0x40 == top && high % 0x40 == z as int - 0x80;
    assert top / 0x40 == x as int - 0xF0 && top % 0x40 == y as int - 0x80;
    assert c / 0x1000 == top && c / 0x40000 == top / 0x40;
  }

  lemma FirstPoint(b: seq<byte>) returns (c: nat)
    requires ValidUtf8(b) && b != []
    ensures Width(b) <= |b| && ValidUtf8(b[Width(b)..])
    ensures IsScalar(c) && EncodePoint(c) == b[..Width(b)]
  {
    if b[0] < 0x80 {
      c := b[0];
    } else if b[0] <= 0xDF {
      c := TwoBytes(b[0], b[1]);
    } else if b[0] <= 0xEF {
      c := ThreeBytes(b[0], b[1], b[2]);
    } else {
      c := FourBytes(b[0], b[1], b[2], b[3]);
    }
  }

  lemma {:induction false} ValidIsEncoded(b: seq<byte>) returns (points: seq<nat>)
    requires ValidUtf8(b)
    ensures (forall i | 0 <= i < |points| :: IsScalar(points[i])) && EncodePoints(points) == b
    decreases |b|
  {
    if b == [] {
      points := [];
    } else {
      var c := FirstPoint(b);
      var others := ValidIsEncoded(b[Width(b)..]);
      points := [c] + others;
      assert points[1..] == others && b == b[..Width(b)] + b[Width(b)..];
    }
  }

  /** Valid UTF-8 is exactly the encodings of sequences of scalar values. */
  lemma ValidExactly(b: seq<byte>)
    ensures ValidUtf8(b) <==>
      exists points: seq<nat> :: (forall i | 0 <= i < |points| :: IsScalar(points[i])) && EncodePoints(points) == b
  {
    if ValidUtf8(b) { var points := ValidIsEncoded(b); }
    forall points: seq<nat> | (forall i | 0 <= i < |points| :: IsScalar(points[i])) && EncodePoints(points) == b
      ensures ValidUtf8(b)
    {
      EncodedIsValid(points);
    }
  }
}
