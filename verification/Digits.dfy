/** Decimal numerals: what they denote, and that numerals of one width are ordered as numbers are. */
module Digits {
  import opened Lexicographic

  predicate IsDigit(c: char) {
    '0' <= c <= '9'
  }

  function DigitValue(c: char): nat
    requires IsDigit(c)
  {
    c as int - '0' as int
  }

  predicate AllDigits(s: string) {
    forall k :: 0 <= k < |s| ==> IsDigit(s[k])
  }

  function Decimal(s: string): nat
    requires AllDigits(s)
  {
    if s == "" then 0 else 10 * Decimal(s[..|s| - 1]) + DigitValue(s[|s| - 1])
  }

  function Pow10(n: nat): (r: nat)
    ensures r > 0
  {
    if n == 0 then 1 else 10 * Pow10(n - 1)
  }

  lemma TenTimes(a: nat, p: nat)
    ensures a * (10 * p) == 10 * (a * p)
  {
  }

  lemma {:induction false} DecimalAppend(a: string, b: string)
    requires AllDigits(a) && AllDigits(b)
    ensures AllDigits(a + b)
    ensures Decimal(a + b) == Decimal(a) * Pow10(|b|) + Decimal(b)
    decreases |b|
  {
    if b == "" {
      assert a + b == a;
    } else {
      var b', last := b[..|b| - 1], b[|b| - 1];
      DecimalAppend(a, b');
      assert (a + b)[..|a + b| - 1] == a + b' && (a + b)[|a + b| - 1] == last;
      assert Decimal(a + b) == 10 * Decimal(a + b') + DigitValue(last);
      TenTimes(Decimal(a), Pow10(|b'|));
    }
  }

  lemma {:induction false} DecimalBound(s: string)
    requires AllDigits(s)
    ensures Decimal(s) < Pow10(|s|)
  {
    if s != "" {
      DecimalBound(s[..|s| - 1]);
    }
  }

  lemma DecimalOfOne(s: string)
    requires |s| == 1 && AllDigits(s)
    ensures Decimal(s) == DigitValue(s[0])
  {
    assert s[..0] == "";
    assert Decimal(s) == 10 * Decimal(s[..0]) + DigitValue(s[0]);
  }

  lemma DecimalHead(s: string)
    requires s != "" && AllDigits(s)
    ensures Decimal(s) == DigitValue(s[0]) * Pow10(|s| - 1) + Decimal(s[1..])
  {
    assert s == s[..1] + s[1..];
    DecimalAppend(s[..1], s[1..]);
    DecimalOfOne(s[..1]);
  }

  lemma {:induction false} NextMultiple(p: nat, q: nat, unit: nat)
    requires p < q
    ensures p * unit + unit <= q * unit
    decreases q
  {
    assert q * unit == (q - 1) * unit + unit;
    if p < q - 1 {
      NextMultiple(p, q - 1, unit);
    }
  }

  /** Of two numerals of one width, the smaller number comes first in the dictionary. */
  lemma {:induction false} DictionaryIsNumeric(a: string, b: string)
    requires |a| == |b| && AllDigits(a) && AllDigits(b)
    ensures LexLe(a, b) <==> Decimal(a) <= Decimal(b)
    ensures a == b <==> Decimal(a) == Decimal(b)
  {
    if a != "" {
      DictionaryIsNumeric(a[1..], b[1..]);
      DecimalHead(a);
      DecimalHead(b);
      DecimalBound(a[1..]);
      DecimalBound(b[1..]);
      assert a == [a[0]] + a[1..] && b == [b[0]] + b[1..];
      var p, q, unit := DigitValue(a[0]), DigitValue(b[0]), Pow10(|a| - 1);
      if p < q {
        NextMultiple(p, q, unit);
      } else if q < p {
        NextMultiple(q, p, unit);
      }
    }
  }
}
