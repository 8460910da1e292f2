/** Decimal numerals of natural numbers, of any length. */
module Decimals {
  import opened Sorting

  predicate IsDigit(c: char) {
    '0' <= c <= '9'
  }

  predicate AllDigits(s: string) {
    forall i | 0 <= i < |s| :: IsDigit(s[i])
  }

  function DigitValue(c: char): nat
    requires IsDigit(c)
  {
    c as nat - '0' as nat
  }

  function DigitChar(d: nat): (c: char)
    requires d < 10
    ensures IsDigit(c) && DigitValue(c) == d
  {
    ('0' as nat + d) as char
  }

  /** The number a digit string denotes; leading zeros count for nothing. */
  function Value(s: string): nat
    requires AllDigits(s)
  {
    if s == [] then 0 else 10 * Value(s[..|s| - 1]) + DigitValue(s[|s| - 1])
  }

  /** What `{n}` prints. */
  function Decimal(n: nat): (s: string)
    ensures s != [] && AllDigits(s) && Value(s) == n
    ensures |s| > 1 ==> s[0] != '0'
  {
    if n < 10 then [DigitChar(n)] else Decimal(n / 10) + [DigitChar(n % 10)]
  }

  lemma DecimalInjective(a: nat, b: nat)
    ensures Decimal(a) == Decimal(b) <==> a == b
  {
  }

  /** What `{n:0width}` prints. */
  function Padded(n: nat, width: nat): (s: string)
    ensures AllDigits(s) && |s| >= width && Value(s) == n
  {
    PadValue(Decimal(n), width);
    PadTo(Decimal(n), width)
  }

  function PadTo(s: string, width: nat): (r: string)
    ensures |r| >= width
    decreases width - |s|
  {
    if |s| >= width then s else PadTo(['0'] + s, width)
  }

  /** Zeros are put in front only up to the width. */
  lemma PaddedIsTight(n: nat, width: nat)
    ensures |Padded(n, width)| > width ==> Padded(n, width) == Decimal(n)
    ensures width >= 1 && |Padded(n, width)| > width ==> Padded(n, width)[0] != '0'
  {
    PadToIsTight(Decimal(n), width);
  }

  lemma {:induction false} PadToIsTight(s: string, width: nat)
    ensures |PadTo(s, width)| > width ==> PadTo(s, width) == s
    decreases width - |s|
  {
    if |s| < width {
      PadToIsTight(['0'] + s, width);
    }
  }

  lemma {:induction false} LeadingZero(s: string)
    requires AllDigits(s)
    ensures AllDigits(['0'] + s) && Value(['0'] + s) == Value(s)
  {
    var z := ['0'] + s;
    if s == [] {
      assert z[..|z| - 1] == [];
    } else {
      LeadingZero(s[..|s| - 1]);
      assert z[..|z| - 1] == ['0'] + s[..|s| - 1];
    }
  }

  lemma {:induction false} PadValue(s: string, width: nat)
    requires AllDigits(s)
    ensures AllDigits(PadTo(s, width)) && Value(PadTo(s, width)) == Value(s)
    decreases width - |s|
  {
    if |s| < width {
      LeadingZero(s);
      PadValue(['0'] + s, width);
    }
  }

  // --------------------------------------------- numbers by their text

  function Pow10(n: nat): (p: nat)
    ensures p >= 1
  {
    if n == 0 then 1 else 10 * Pow10(n - 1)
  }

  lemma {:induction false} ValueFront(c: char, s: string)
    requires IsDigit(c) && AllDigits(s)
    ensures AllDigits([c] + s) && Value([c] + s) == DigitValue(c) * Pow10(|s|) + Value(s)
  {
    var all := [c] + s;
    if s == [] {
      assert all[..|all| - 1] == [];
    } else {
      var init := s[..|s| - 1];
      ValueFront(c, init);
      assert all[..|all| - 1] == [c] + init;
      assert Pow10(|s|) == 10 * Pow10(|init|);
      assert DigitValue(c) * Pow10(|s|) == 10 * (DigitValue(c) * Pow10(|init|));
    }
  }

  lemma {:induction false} ValueBound(s: string)
    requires AllDigits(s)
    ensures Value(s) < Pow10(|s|)
  {
    if s != [] {
      ValueBound(s[..|s| - 1]);
    }
  }

  /** Among numerals of one length, text order is numeric order. */
  lemma {:induction false} SameLengthOrder(a: string, b: string)
    requires AllDigits(a) && AllDigits(b) && |a| == |b|
    ensures NameLeq(a, b) <==> Value(a) <= Value(b)
    ensures a == b <==> Value(a) == Value(b)
  {
    if a != [] {
      var x, y := a[1..], b[1..];
      assert a == [a[0]] + x && b == [b[0]] + y;
      ValueFront(a[0], x);
      ValueFront(b[0], y);
      ValueBound(x);
      ValueBound(y);
      SameLengthOrder(x, y);
      FrontDecides(DigitValue(a[0]), DigitValue(b[0]), Pow10(|x|), Value(x), Value(y));
    }
  }

  lemma FrontDecides(c: nat, d: nat, p: nat, x: nat, y: nat)
    requires x < p && y < p
    ensures c < d ==> c * p + x < d * p + y
    ensures d < c ==> d * p + y < c * p + x
  {
    if c < d {
      assert (c + 1) * p <= d * p;
    }
    if d < c {
      assert (d + 1) * p <= c * p;
    }
  }

  lemma {:induction false} DecimalLength(n: nat, width: nat)
    requires width >= 1 && n < Pow10(width)
    ensures |Decimal(n)| <= width
  {
    if n >= 10 {
      assert width > 1 by {
        assert Pow10(0) == 1 && Pow10(1) == 10;
      }
      DecimalLength(n / 10, width - 1);
    }
  }

  lemma {:induction false} PadToLength(s: string, width: nat)
    requires |s| <= width
    ensures |PadTo(s, width)| == width
    decreases width - |s|
  {
    if |s| < width {
      PadToLength(['0'] + s, width);
    }
  }

  lemma PaddedLength(n: nat, width: nat)
    requires width >= 1 && n < Pow10(width)
    ensures |Padded(n, width)| == width
  {
    DecimalLength(n, width);
    PadToLength(Decimal(n), width);
  }

  /** Equal-length heads decide, equal heads leave it to the tails. */
  lemma {:induction false} HeadThenTail(a: string, b: string, x: string, y: string)
    requires |a| == |b|
    ensures NameLeq(a + x, b + y) <==> if a == b then NameLeq(x, y) else NameLeq(a, b)
  {
    if a == [] {
      assert a + x == x && b + y == y;
    } else {
      assert (a + x)[1..] == a[1..] + x && (b + y)[1..] == b[1..] + y;
      HeadThenTail(a[1..], b[1..], x, y);
      assert a == [a[0]] + a[1..] && b == [b[0]] + b[1..];
    }
  }
}
