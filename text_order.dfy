/** SQLite's comparison of TEXT values under the default BINARY collation:
    compare character by character, and a proper prefix sorts first. On
    Dafny's `char` (Unicode scalar values) code-point order agrees with the
    byte order of the UTF-8 encoding that SQLite compares. */
module TextOrder {

  /** `a <= b` as the queries' `start_date<=?` and `end_date>=?` evaluate it. */
  predicate LexLe(a: string, b: string)
  {
    |a| == 0 || (|b| > 0 && if a[0] == b[0] then LexLe(a[1..], b[1..]) else a[0] < b[0])
  }

  lemma {:induction false} LexLeReflexive(a: string)
    ensures LexLe(a, a)
  {
    if |a| > 0 {
      LexLeReflexive(a[1..]);
    }
  }

  lemma {:induction false} LexLeAntisymmetric(a: string, b: string)
    requires LexLe(a, b) && LexLe(b, a)
    ensures a == b
  {
    if |a| > 0 && |b| > 0 {
      LexLeAntisymmetric(a[1..], b[1..]);
      assert a == [a[0]] + a[1..] && b == [b[0]] + b[1..];
    }
  }

  lemma {:induction false} LexLeTransitive(a: string, b: string, c: string)
    requires LexLe(a, b) && LexLe(b, c)
    ensures LexLe(a, c)
  {
    if |a| > 0 && |b| > 0 && |c| > 0 && a[0] == b[0] == c[0] {
      LexLeTransitive(a[1..], b[1..], c[1..]);
    }
  }

  lemma {:induction false} LexLeTotal(a: string, b: string)
    ensures LexLe(a, b) || LexLe(b, a)
  {
    if |a| > 0 && |b| > 0 && a[0] == b[0] {
      LexLeTotal(a[1..], b[1..]);
    }
  }

  /** When two strings start with blocks of the same length, the comparison is
      decided by those blocks unless they are equal. */
  lemma {:induction false} LexLeConcat(p: string, q: string, p': string, q': string)
    requires |p| == |p'|
    ensures LexLe(p + q, p' + q') == if p == p' then LexLe(q, q') else LexLe(p, p')
  {
    if |p| == 0 {
      assert p + q == q && p' + q' == q';
    } else {
      assert (p + q)[0] == p[0] && (p' + q')[0] == p'[0];
      assert (p + q)[1..] == p[1..] + q && (p' + q')[1..] == p'[1..] + q';
      assert p == [p[0]] + p[1..] && p' == [p'[0]] + p'[1..];
      if p[0] == p'[0] {
        LexLeConcat(p[1..], q, p'[1..], q');
      }
    }
  }

  predicate IsDigit(c: char)
  {
    '0' <= c <= '9'
  }

  predicate AllDigits(s: string)
  {
    forall i :: 0 <= i < |s| ==> IsDigit(s[i])
  }

  function DigitValue(c: char): (d: nat)
    requires IsDigit(c)
    ensures d <= 9
  {
    c as int - '0' as int
  }

  function Pow10(n: nat): (r: nat)
    ensures r >= 1
  {
    if n == 0 then 1 else 10 * Pow10(n - 1)
  }

  /** The decimal value of a string of digits, most significant first. */
  function Number(s: string): (v: nat)
    requires AllDigits(s)
    ensures v < Pow10(|s|)
  {
    if |s| == 0 then 0
    else
      var d, rest := DigitValue(s[0]), Number(s[1..]);
      MulBound(d, 9, Pow10(|s| - 1));
      d * Pow10(|s| - 1) + rest
  }

  lemma MulBound(a: nat, b: nat, c: nat)
    requires a <= b
    ensures a * c <= b * c
  {
  }

  /** A smaller leading digit outweighs whatever the lower digits hold. */
  lemma LeadingDigitDecides(da: nat, db: nat, ra: nat, rb: nat, p: nat)
    requires da < db && ra < p
    ensures da * p + ra < db * p + rb
  {
    MulBound(da + 1, db, p);
    assert (da + 1) * p == da * p + p;
  }

  /** Splits off the leading digit: its weight and the value of the rest. */
  lemma NumberHead(s: string) returns (lead: nat, rest: nat)
    requires AllDigits(s) && |s| > 0
    ensures AllDigits(s[1..])
    ensures rest == Number(s[1..]) && rest < Pow10(|s| - 1)
    ensures lead == DigitValue(s[0]) * Pow10(|s| - 1)
    ensures Number(s) == lead + rest
  {
    assert forall i :: 0 <= i < |s[1..]| ==> s[1..][i] == s[i + 1];
    lead, rest := DigitValue(s[0]) * Pow10(|s| - 1), Number(s[1..]);
  }

  /** On digit strings of one length, text order is numeric order. */
  lemma {:induction false} DigitsOrder(a: string, b: string)
    requires AllDigits(a) && AllDigits(b) && |a| == |b|
    ensures LexLe(a, b) <==> Number(a) <= Number(b)
  {
    if |a| > 0 {
      var la, ra := NumberHead(a);
      var lb, rb := NumberHead(b);
      if a[0] == b[0] {
        assert la == lb;
        DigitsOrder(a[1..], b[1..]);
        assert LexLe(a, b) == LexLe(a[1..], b[1..]);
      } else if a[0] < b[0] {
        LeadingDigitDecides(DigitValue(a[0]), DigitValue(b[0]), ra, rb, Pow10(|a| - 1));
        assert LexLe(a, b);
      } else {
        LeadingDigitDecides(DigitValue(b[0]), DigitValue(a[0]), rb, ra, Pow10(|a| - 1));
        assert !LexLe(a, b);
      }
    }
  }

  /** Digit strings of one length with the same value are the same string. */
  lemma NumberInjective(a: string, b: string)
    requires AllDigits(a) && AllDigits(b) && |a| == |b|
    ensures Number(a) == Number(b) <==> a == b
  {
    if Number(a) == Number(b) {
      DigitsOrder(a, b);
      DigitsOrder(b, a);
      LexLeAntisymmetric(a, b);
    }
  }

  /** The stored shape of `start_date`, `end_date` and of
      `datetime.today().strftime('%Y-%m-%d')`. */
  predicate IsIsoDate(s: string)
  {
    |s| == 10 && AllDigits(s[0..4]) && s[4] == '-' && AllDigits(s[5..7]) && s[7] == '-' && AllDigits(s[8..10])
  }

  function Year(s: string): nat
    requires IsIsoDate(s)
  {
    Number(s[0..4])
  }

  function Month(s: string): nat
    requires IsIsoDate(s)
  {
    Number(s[5..7])
  }

  function Day(s: string): nat
    requires IsIsoDate(s)
  {
    Number(s[8..10])
  }

  /** Chronological order of two dates given as (year, month, day). */
  predicate CalendarLe(s: string, t: string)
    requires IsIsoDate(s) && IsIsoDate(t)
  {
    Year(s) < Year(t) || (Year(s) == Year(t) && (Month(s) < Month(t) || (Month(s) == Month(t) && Day(s) <= Day(t))))
  }

  /** Comparing `YYYY-MM-DD` strings as text compares the dates they denote. */
  lemma IsoDateOrderIsCalendarOrder(s: string, t: string)
    requires IsIsoDate(s) && IsIsoDate(t)
    ensures LexLe(s, t) <==> CalendarLe(s, t)
  {
    // Split both strings at each field boundary, left to right.
    assert s == s[0..4] + s[4..] && t == t[0..4] + t[4..];
    LexLeConcat(s[0..4], s[4..], t[0..4], t[4..]);
    assert s[4..] == [s[4]] + s[5..] && t[4..] == [t[4]] + t[5..];
    LexLeConcat([s[4]], s[5..], [t[4]], t[5..]);
    assert s[5..] == s[5..7] + s[7..] && t[5..] == t[5..7] + t[7..];
    LexLeConcat(s[5..7], s[7..], t[5..7], t[7..]);
    assert s[7..] == [s[7]] + s[8..10] && t[7..] == [t[7]] + t[8..10];
    LexLeConcat([s[7]], s[8..10], [t[7]], t[8..10]);
    DigitsOrder(s[0..4], t[0..4]);
    NumberInjective(s[0..4], t[0..4]);
    DigitsOrder(s[5..7], t[5..7]);
    NumberInjective(s[5..7], t[5..7]);
    DigitsOrder(s[8..10], t[8..10]);
  }
}
