/** The base-128 integer code of the protobuf-like writer and reader. */
module Base128 {
  import opened Wrappers
  import opened Bytes

  datatype Failure = ValueError | IndexError | StructError | UnicodeError | UnsupportedWireType(wireType: nat)

  function Varint(n: nat): (code: seq<byte>)
    ensures |code| >= 1
  {
    if n < 128 then [n] else [n % 128 + 128] + Varint(n / 128)
  }

  /** The value and the length of the code at the front of `b`; None when `b` ends inside it. */
  function ParseVarint(b: seq<byte>): (r: Option<(nat, nat)>)
    ensures r.Some? ==> 1 <= r.value.1 <= |b|
  {
    if b == [] then None
    else if b[0] < 128 then Some((b[0], 1))
    else
      var rest := ParseVarint(b[1..]);
      if rest.None? then None else Some((b[0] - 128 + 128 * rest.value.0, 1 + rest.value.1))
  }

  // ---------- write_varint and read_varint ----------

  /** Appends the code of the value; a negative value raises before anything is appended. */
  method WriteVarint(payload: Buffer, value: int) returns (r: Result<(), Failure>)
    modifies payload
    ensures value >= 0 ==> r.Ok? && payload.data == old(payload.data) + Varint(value)
    ensures value < 0 ==> r == Err(ValueError) && payload.data == old(payload.data)
  {
    var v := value;
    while v > 0x7F
      invariant value < 0 ==> v == value && payload.data == old(payload.data)
      invariant value >= 0 ==> v >= 0 && payload.data + Varint(v) == old(payload.data) + Varint(value)
      decreases v
    {
      payload.Append(v % 128 + 128);
      v := v / 128;
    }
    if v < 0 { return Err(ValueError); }
    payload.Append(v);
    return Ok(());
  }

  function Pow2(k: nat): (p: nat)
    ensures p >= 1
  {
    if k == 0 then 1 else 2 * Pow2(k - 1)
  }

  lemma Pow2Seven(k: nat)
    ensures Pow2(k + 7) == 128 * Pow2(k)
  {
    assert Pow2(k + 7) == 2 * Pow2(k + 6) && Pow2(k + 6) == 2 * Pow2(k + 5) && Pow2(k + 5) == 2 * Pow2(k + 4);
    assert Pow2(k + 4) == 2 * Pow2(k + 3) && Pow2(k + 3) == 2 * Pow2(k + 2) && Pow2(k + 2) == 2 * Pow2(k + 1);
  }

  /** What a parse ahead of the cursor contributes when `scale` is the weight of its first digit. */
  function Resume(ahead: Option<(nat, nat)>, result: nat, scale: nat, cursor: nat): Result<(nat, nat), Failure> {
    if ahead.None? then Err(IndexError) else Ok((result + scale * ahead.value.0, cursor + ahead.value.1))
  }

  function ReadAt(payload: seq<byte>, cursor: nat): Result<(nat, nat), Failure> {
    Resume(if cursor <= |payload| then ParseVarint(payload[cursor..]) else None, 0, 1, cursor)
  }

  lemma Distribute(result: nat, scale: nat, digit: nat, v: nat)
    ensures result + scale * (digit + 128 * v) == (result + digit * scale) + (128 * scale) * v
  {
    assert scale * (128 * v) == (128 * scale) * v;
  }

  lemma DigitBound(result: nat, scale: nat, digit: nat)
    requires result < scale && digit < 128
    ensures result + digit * scale < 128 * scale
  {
    assert digit * scale <= 127 * scale;
  }

  lemma LastDigit(ahead: seq<byte>, result: nat, scale: nat, position: nat)
    requires ahead != [] && ahead[0] < 128
    ensures Resume(ParseVarint(ahead), result, scale, position) == Ok((result + ahead[0] % 128 * scale, position + 1))
  {
    assert ahead[0] % 128 == ahead[0];
    assert scale * ahead[0] == ahead[0] * scale;
  }

  lemma ShiftAhead(ahead: (nat, nat), result: nat, scale: nat, digit: nat, position: nat)
    ensures Resume(Some((digit + 128 * ahead.0, 1 + ahead.1)), result, scale, position)
         == Resume(Some(ahead), result + digit * scale, 128 * scale, position + 1)
  {
    Distribute(result, scale, digit, ahead.0);
  }

  lemma NextDigit(ahead: seq<byte>, result: nat, scale: nat, position: nat)
    requires ahead != [] && ahead[0] >= 128
    ensures Resume(ParseVarint(ahead), result, scale, position)
         == Resume(ParseVarint(ahead[1..]), result + ahead[0] % 128 * scale, 128 * scale, position + 1)
  {
    var digit: nat := ahead[0] - 128;
    assert ahead[0] % 128 == digit;
    var rest := ParseVarint(ahead[1..]);
    if rest.Some? { ShiftAhead(rest.value, result, scale, digit, position); }
  }

  lemma FirstStep(payload: seq<byte>, cursor: nat)
    requires cursor <= |payload|
    ensures ReadAt(payload, cursor) == Resume(ParseVarint(payload[cursor..]), 0, Pow2(0), cursor)
  {
  }

  /** One byte of the loop: the last digit ends the code, another one moves on. */
  lemma DigitStep(payload: seq<byte>, position: nat, result: nat, scale: nat)
    requires position < |payload|
    ensures var b := payload[position];
      Resume(ParseVarint(payload[position..]), result, scale, position)
        == if b < 128 then Ok((result + b % 128 * scale, position + 1))
           else Resume(ParseVarint(payload[position + 1..]), result + b % 128 * scale, 128 * scale, position + 1)
  {
    var ahead := payload[position..];
    if ahead[0] < 128 {
      LastDigit(ahead, result, scale, position);
    } else {
      NextDigit(ahead, result, scale, position);
      assert ahead[1..] == payload[position + 1..];
    }
  }

  /** result |= (byte & 0x7F) << shift: as result stays below 2^shift, the OR is a sum. */
  method ReadVarint(payload: seq<byte>, cursor: nat) returns (r: Result<(nat, nat), Failure>)
    ensures r == ReadAt(payload, cursor)
  {
    if cursor > |payload| { return Err(IndexError); }
    var shift: nat, result: nat, position: nat := 0, 0, cursor;
    FirstStep(payload, cursor);
    while position < |payload|
      invariant cursor <= position <= |payload|
      invariant result < Pow2(shift)
      invariant ReadAt(payload, cursor) == Resume(ParseVarint(payload[position..]), result, Pow2(shift), position)
    {
      var b := payload[position];
      DigitBound(result, Pow2(shift), b % 128);
      DigitStep(payload, position, result, Pow2(shift));
      Pow2Seven(shift);
      position := position + 1;
      result := result + b % 128 * Pow2(shift);
      if b < 128 { return Ok((result, position)); }
      shift := shift + 7;
    }
    return Err(IndexError);
  }

  // ---------- laws of the code ----------

  /** Reading a written value returns it and the exact length, whatever follows. */
  lemma {:induction false} VarintRoundTrip(n: nat, suffix: seq<byte>)
    ensures ParseVarint(Varint(n) + suffix) == Some((n, |Varint(n)|))
  {
    if n >= 128 {
      VarintRoundTrip(n / 128, suffix);
      assert (Varint(n) + suffix)[1..] == Varint(n / 128) + suffix;
    }
  }

  /** A readable code is read the same whatever follows. */
  lemma {:induction false} VarintLocal(a: seq<byte>, b: seq<byte>)
    requires ParseVarint(a).Some?
    ensures ParseVarint(a + b) == ParseVarint(a)
  {
    if a[0] >= 128 {
      VarintLocal(a[1..], b);
      assert (a + b)[1..] == a[1..] + b;
    }
  }

  /** A cut varint is not read. */
  lemma CutVarint(n: nat, k: nat)
    requires k < |Varint(n)|
    ensures ParseVarint(Varint(n)[..k]).None?
  {
    var a, b := Varint(n)[..k], Varint(n)[k..];
    assert a + b == Varint(n);
    if ParseVarint(a).Some? { ReadableIsWhole(a, b, n); }
  }

  lemma ReadableIsWhole(a: seq<byte>, b: seq<byte>, n: nat)
    requires a + b == Varint(n) && ParseVarint(a).Some?
    ensures b == []
  {
    VarintLocal(a, b);
    VarintRoundTrip(n, []);
    assert Varint(n) + [] == Varint(n);
  }

  /** The same at a cursor inside a payload, in the reader's terms. */
  lemma ReadBack(prefix: seq<byte>, n: nat, suffix: seq<byte>)
    ensures ReadAt(prefix + Varint(n) + suffix, |prefix|) == Ok((n, |prefix| + |Varint(n)|))
  {
    VarintRoundTrip(n, suffix);
    assert (prefix + Varint(n) + suffix)[|prefix|..] == Varint(n) + suffix;
  }

  /** No code is a prefix of another. */
  lemma VarintPrefixFree(m: nat, n: nat)
    requires Varint(m) <= Varint(n)
    ensures m == n
  {
    var suffix := Varint(n)[|Varint(m)|..];
    VarintRoundTrip(m, suffix);
    VarintRoundTrip(n, []);
    assert Varint(n) == Varint(m) + suffix;
    assert Varint(n) + [] == Varint(n);
  }

  function BitLength(n: nat): nat {
    if n == 0 then 0 else 1 + BitLength(n / 2)
  }

  lemma SevenBits(n: nat)
    requires n >= 128
    ensures BitLength(n) == 7 + BitLength(n / 128)
  {
    BitStep(n);
    BitStep(n / 8);
    assert n / 8 / 8 == n / 64 && n / 64 / 2 == n / 128;
  }

  lemma BitStep(n: nat)
    requires n >= 8
    ensures BitLength(n) == 3 + BitLength(n / 8)
  {
    var a := n / 2;
    var b := a / 2;
    assert BitLength(n) == 1 + BitLength(a) && BitLength(a) == 1 + BitLength(b) && BitLength(b) == 1 + BitLength(b / 2);
    assert b / 2 == n / 8;
  }

  lemma SmallBits(n: nat)
    requires n < 128
    ensures BitLength(n) <= 7 && (BitLength(n) == 0 <==> n == 0)
  {
    if n < 8 {
      ThreeBits(n);
    } else {
      BitStep(n);
      if n >= 64 {
        BitStep(n / 8);
        ThreeBits(n / 8 / 8);
      } else {
        ThreeBits(n / 8);
      }
    }
  }

  lemma ThreeBits(n: nat)
    requires n < 8
    ensures BitLength(n) <= 3 && (n < 2 ==> BitLength(n) == n)
  {
    var a := n / 2;
    var b := a / 2;
    assert b / 2 == 0 && BitLength(b / 2) == 0;
    assert BitLength(b) <= 1 && BitLength(a) <= 2;
  }

  /** The code takes max(1, ceil(bits / 7)) bytes. */
  lemma {:induction false} VarintLength(n: nat)
    ensures |Varint(n)| == if n == 0 then 1 else (BitLength(n) + 6) / 7
  {
    if n < 128 {
      SmallBits(n);
    } else {
      SevenBits(n);
      VarintLength(n / 128);
    }
  }

  lemma LeadDigit(digit: nat, v: nat)
    requires digit < 128
    ensures v > 0 ==> Varint(digit + 128 * v)[0] == digit + 128 && Varint(digit + 128 * v)[1..] == Varint(v)
    ensures v == 0 ==> |Varint(digit + 128 * v)| == 1
  {
    assert (digit + 128 * v) % 128 == digit && (digit + 128 * v) / 128 == v;
  }

  /** A code that reads back is the written one exactly when it carries no padding digit. */
  lemma {:induction false} CanonicalCode(b: seq<byte>)
    requires ParseVarint(b).Some?
    ensures var (v, k) := ParseVarint(b).value; b[..k] == Varint(v) <==> k == 1 || b[k - 1] != 0
  {
    if b[0] >= 128 {
      CanonicalCode(b[1..]);
      var (v, k) := ParseVarint(b[1..]).value;
      assert b[..k + 1] == [b[0]] + b[1..][..k];
      LeadDigit(b[0] - 128, v);
      if v == 0 {
        PaddedZero(b[1..]);
      } else {
        assert b[..k + 1][1..] == b[1..][..k] && b[..k + 1][0] == b[0];
        if k == 1 { NonzeroDigit(b[1..]); }
      }
    }
  }

  lemma {:induction false} PaddedZero(b: seq<byte>)
    requires ParseVarint(b).Some? && ParseVarint(b).value.0 == 0
    ensures b[ParseVarint(b).value.1 - 1] == 0
  {
    if b[0] >= 128 { PaddedZero(b[1..]); }
  }

  lemma NonzeroDigit(b: seq<byte>)
    requires ParseVarint(b).Some? && ParseVarint(b).value.0 != 0 && ParseVarint(b).value.1 == 1
    ensures b[0] != 0
  {
  }

  // ---------- the bytes of a code ----------

  /** n >> 7 * k */
  function Shift(n: nat, k: nat): nat { if k == 0 then n else Shift(n / 128, k - 1) }

  /** Byte k of a code holds seven bits of the number, the least first, with the high bit set on
      every byte but the last, behind which no bits are left. */
  lemma {:induction false} CodeBytes(n: nat, k: nat)
    requires k < |Varint(n)|
    ensures Varint(n)[k] == Shift(n, k) % 128 + (if k + 1 < |Varint(n)| then 128 else 0)
    ensures k + 1 == |Varint(n)| <==> Shift(n, k) < 128
  {
    if k > 0 { CodeBytes(n / 128, k - 1); }
  }

  /** The example of the protobuf documentation: 150 is 0x96 0x01. */
  lemma KnownCode()
    ensures Varint(0) == [0] && Varint(1) == [1] && Varint(127) == [127] && Varint(150) == [0x96, 0x01]
  {
  }
}
