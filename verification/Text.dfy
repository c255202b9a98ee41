/** Text order, decimal numerals and zero padding. */
module Text {
  import opened Wrappers
  import opened Ordering

  /** Text order by code unit, the order of a C collation. */
  predicate Less(a: string, b: string) {
    |b| > 0 && (|a| == 0 || a[0] < b[0] || (a[0] == b[0] && Less(a[1..], b[1..])))
  }

  lemma {:induction false} Asymmetric(a: string, b: string)
    requires Less(a, b)
    ensures !Less(b, a)
  {
    if |a| > 0 && a[0] == b[0] { Asymmetric(a[1..], b[1..]); }
  }

  lemma {:induction false} Connected(a: string, b: string)
    ensures a == b || Less(a, b) || Less(b, a)
  {
    if |a| > 0 && |b| > 0 && a[0] == b[0] {
      Connected(a[1..], b[1..]);
      assert a == [a[0]] + a[1..] && b == [b[0]] + b[1..];
    }
  }

  lemma {:induction false} Transitive(a: string, b: string, c: string)
    requires Less(a, b) && Less(b, c)
    ensures Less(a, c)
  {
    if |a| > 0 && a[0] == b[0] == c[0] { Transitive(a[1..], b[1..], c[1..]); }
  }

  /** Text order is a strict total order. */
  lemma TextOrder()
    ensures forall a, b :: Less(a, b) ==> !Less(b, a)
    ensures forall a, b :: a == b || Less(a, b) || Less(b, a)
    ensures forall a, b, c :: Less(a, c) ==> Less(a, b) || Less(b, c)
  {
    forall a, b | Less(a, b) ensures !Less(b, a) { Asymmetric(a, b); }
    forall a, b ensures a == b || Less(a, b) || Less(b, a) { Connected(a, b); }
    forall a, b, c | Less(a, c) ensures Less(a, b) || Less(b, c) {
      if b != a && !Less(a, b) {
        Connected(a, b);
        Transitive(b, a, c);
      }
    }
  }

  // ---------- decimal numerals ----------

  predicate IsDigit(c: char) { '0' <= c <= '9' }

  predicate IsNumeral(s: string) { forall i | 0 <= i < |s| :: IsDigit(s[i]) }

  function DigitChar(d: nat): (c: char)
    requires d < 10
    ensures IsDigit(c) && c as int - '0' as int == d
  {
    '0' + d as char
  }

  /** The decimal text of a natural number, as str() and SQL ::text print it. */
  function Decimal(n: nat): (s: string)
    ensures |s| > 0 && IsNumeral(s)
  {
    if n < 10 then [DigitChar(n)] else Decimal(n / 10) + [DigitChar(n % 10)]
  }

  /** The number a numeral denotes, leading zeros allowed. */
  function Number(s: string): nat
    requires IsNumeral(s)
  {
    if s == "" then 0
    else 10 * Number(s[..|s| - 1]) + (s[|s| - 1] as int - '0' as int)
  }

  lemma {:induction false} NumberOfDecimal(n: nat)
    ensures Number(Decimal(n)) == n
  {
    if n >= 10 {
      NumberOfDecimal(n / 10);
      assert Decimal(n)[..|Decimal(n)| - 1] == Decimal(n / 10);
    } else {
      assert Decimal(n)[..0] == "";
    }
  }

  lemma {:induction false} NoLeadingZero(n: nat)
    ensures Decimal(n)[0] == '0' ==> n == 0
  {
    if n >= 10 {
      NoLeadingZero(n / 10);
      assert Decimal(n)[0] == Decimal(n / 10)[0];
    }
  }

  lemma DecimalInjective(m: nat, n: nat)
    requires Decimal(m) == Decimal(n)
    ensures m == n
  {
    NumberOfDecimal(m);
    NumberOfDecimal(n);
  }

  function Pow10(k: nat): nat {
    if k == 0 then 1 else 10 * Pow10(k - 1)
  }

  lemma {:induction false} DecimalLength(n: nat, k: nat)
    requires 1 <= k && n < Pow10(k)
    ensures |Decimal(n)| <= k
  {
    if n >= 10 {
      assert k >= 2 by { assert Pow10(1) == 10 * Pow10(0); }
      DecimalLength(n / 10, k - 1);
    }
  }

  function Zeros(k: nat): (s: string)
    ensures |s| == k && IsNumeral(s)
  {
    seq(k, _ => '0')
  }

  lemma {:induction false} NumberOfZeros(k: nat, s: string)
    requires IsNumeral(s)
    ensures Number(Zeros(k) + s) == Number(s)
  {
    var t := Zeros(k) + s;
    if s != "" {
      assert t[..|t| - 1] == Zeros(k) + s[..|s| - 1];
      NumberOfZeros(k, s[..|s| - 1]);
    } else if k > 0 {
      assert t[..|t| - 1] == Zeros(k - 1) + "";
      NumberOfZeros(k - 1, "");
    }
  }

  /** Python's format(n, "0{width}d"): pads, never cuts. */
  function ZeroFill(n: nat, width: nat): (s: string)
    ensures IsNumeral(s)
  {
    var s := Decimal(n);
    if |s| < width then Zeros(width - |s|) + s else s
  }

  /** SQL's LPAD(n::text, width, '0'): pads, and cuts what is too long. */
  function LPad(n: nat, width: nat): (s: string)
    ensures IsNumeral(s) && |s| == width
  {
    var s := Decimal(n);
    if |s| < width then Zeros(width - |s|) + s else s[..width]
  }

  /** Within the width both paddings print the same fixed-width numeral of the number. */
  lemma Padded(n: nat, width: nat)
    requires 1 <= width && n < Pow10(width)
    ensures ZeroFill(n, width) == LPad(n, width)
    ensures Number(LPad(n, width)) == n
  {
    DecimalLength(n, width);
    NumberOfDecimal(n);
    NumberOfZeros(width - |Decimal(n)|, Decimal(n));
    assert |Decimal(n)| == width ==> Decimal(n)[..width] == Decimal(n);
  }

  lemma {:induction false} LessAppend(a: string, b: string, x: char, y: char)
    requires |a| == |b|
    ensures Less(a + [x], b + [y]) <==> Less(a, b) || (a == b && x < y)
  {
    if |a| > 0 {
      LessAppend(a[1..], b[1..], x, y);
      assert (a + [x])[1..] == a[1..] + [x] && (b + [y])[1..] == b[1..] + [y];
      assert a == [a[0]] + a[1..] && b == [b[0]] + b[1..];
    } else {
      assert (a + [x])[1..] == "" && (b + [y])[1..] == "";
    }
  }

  /** On numerals of one width, text order is numeric order. */
  lemma {:induction false} NumeralOrder(a: string, b: string)
    requires IsNumeral(a) && IsNumeral(b) && |a| == |b|
    ensures Less(a, b) <==> Number(a) < Number(b)
    ensures a == b <==> Number(a) == Number(b)
  {
    if a != "" {
      var n := |a| - 1;
      NumeralOrder(a[..n], b[..n]);
      LessAppend(a[..n], b[..n], a[n], b[n]);
      assert a == a[..n] + [a[n]] && b == b[..n] + [b[n]];
    }
  }

  /** A common prefix does not change the order of two texts. */
  lemma {:induction false} LessPrefix(p: string, a: string, b: string)
    ensures Less(p + a, p + b) <==> Less(a, b)
  {
    if p == "" {
      assert p + a == a && p + b == b;
    } else {
      LessPrefix(p[1..], a, b);
      assert (p + a)[1..] == p[1..] + a && (p + b)[1..] == p[1..] + b;
    }
  }

  /** A common suffix does not change the order of two texts of one length. */
  lemma {:induction false} LessSuffix(a: string, b: string, suffix: string)
    requires |a| == |b|
    ensures Less(a + suffix, b + suffix) <==> Less(a, b)
  {
    if a == "" {
      assert a + suffix == suffix == b + suffix;
      if Less(suffix, suffix) { Asymmetric(suffix, suffix); }
    } else {
      LessSuffix(a[1..], b[1..], suffix);
      assert (a + suffix)[1..] == a[1..] + suffix && (b + suffix)[1..] == b[1..] + suffix;
    }
  }

  // ---------- text order in plain words ----------

  /** From position k on `a` is smaller: it has ended there, or has the smaller character. */
  ghost predicate SmallerFrom(a: string, b: string, k: nat) {
    k <= |a| && k < |b| && a[..k] == b[..k] && (k == |a| || a[k] < b[k])
  }

  lemma SameHeads(a: string, b: string, k: nat)
    requires 0 < k <= |a| && k <= |b|
    ensures a[..k] == b[..k] <==> a[0] == b[0] && a[1..][..k - 1] == b[1..][..k - 1]
  {
    assert a[..k] == [a[0]] + a[1..][..k - 1] && b[..k] == [b[0]] + b[1..][..k - 1];
    if a[..k] == b[..k] { assert a[..k][0] == b[..k][0] && a[..k][1..] == b[..k][1..]; }
  }

  lemma SmallerLater(a: string, b: string, k: nat)
    requires a != "" && b != "" && k > 0
    ensures SmallerFrom(a, b, k) <==> a[0] == b[0] && SmallerFrom(a[1..], b[1..], k - 1)
  {
    if k <= |a| && k <= |b| { SameHeads(a, b, k); }
  }

  /** `a` is a proper prefix of `b`, or the first place where they differ has the smaller character. */
  lemma {:induction false} LessMeaning(a: string, b: string)
    ensures Less(a, b) <==> exists k: nat :: SmallerFrom(a, b, k)
  {
    assert SmallerFrom(a, b, 0) <==> b != "" && (a == "" || a[0] < b[0]);
    if a != "" && b != "" {
      forall k: nat | k > 0 ensures SmallerFrom(a, b, k) <==> a[0] == b[0] && SmallerFrom(a[1..], b[1..], k - 1) {
        SmallerLater(a, b, k);
      }
      LessMeaning(a[1..], b[1..]);
      if k: nat :| SmallerFrom(a[1..], b[1..], k) {
        assert a[0] == b[0] ==> SmallerFrom(a, b, k + 1);
      }
    }
  }
}
