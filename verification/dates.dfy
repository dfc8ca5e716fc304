/** Calendar dates as the date input produces them: `YYYY-MM-DD` strings.
    The sort compares such strings character by character; this module
    shows that, for well-formed dates, that order is chronological order. */
module Dates {
  import opened Text

  predicate IsDigit(c: char)
  {
    '0' <= c <= '9'
  }

  /** The value of a decimal digit; any other character counts as zero. */
  function DigitValue(c: char): (d: nat)
    ensures d < 10
  {
    if IsDigit(c) then c as int - '0' as int else 0
  }

  function Pow10(n: nat): (p: nat)
    ensures p > 0
  {
    if n == 0 then 1 else 10 * Pow10(n - 1)
  }

  /** The decimal number a string of digits spells, most significant first. */
  function Numeral(s: string): nat
  {
    if |s| == 0 then 0 else DigitValue(s[0]) * Pow10(|s| - 1) + Numeral(s[1..])
  }

  lemma MulMonotone(a: nat, b: nat, p: nat)
    requires a <= b
    ensures a * p <= b * p
  {
  }

  lemma {:induction false} NumeralBound(s: string)
    ensures Numeral(s) < Pow10(|s|)
  {
    if |s| > 0 {
      NumeralBound(s[1..]);
      var d, p, n := DigitValue(s[0]), Pow10(|s| - 1), Numeral(s[1..]);
      assert Numeral(s) == d * p + n;
      MulMonotone(d, 9, p);
      assert Pow10(|s|) == 10 * p;
    }
  }

  lemma MulAssoc(x: nat, y: nat, z: nat)
    ensures x * (y * z) == (x * y) * z
  {
  }

  lemma {:induction false} Pow10Add(m: nat, n: nat)
    ensures Pow10(m + n) == Pow10(m) * Pow10(n)
  {
    if m > 0 {
      Pow10Add(m - 1, n);
      assert Pow10(m + n) == 10 * Pow10(m - 1 + n);
      MulAssoc(10, Pow10(m - 1), Pow10(n));
    }
  }

  lemma Regroup(d: nat, p: nat, q: nat, n: nat, m: nat)
    ensures d * (p * q) + n * q + m == (d * p + n) * q + m
  {
    assert d * (p * q) == (d * p) * q;
    assert (d * p) * q + n * q == (d * p + n) * q;
  }

  /** The arithmetic step of `NumeralAppend`, apart from any string. */
  lemma AppendArith(d: nat, p: nat, q: nat, n: nat, m: nat, whole: nat, head: nat)
    requires whole == d * (p * q) + (n * q + m)
    requires head == d * p + n
    ensures whole == head * q + m
  {
    Regroup(d, p, q, n, m);
  }

  lemma {:induction false} NumeralAppend(x: string, y: string)
    ensures Numeral(x + y) == Numeral(x) * Pow10(|y|) + Numeral(y)
  {
    var xy := x + y;
    if |x| > 0 {
      assert xy[0] == x[0] && xy[1..] == x[1..] + y;
      NumeralAppend(x[1..], y);
      Pow10Add(|x| - 1, |y|);
      assert |xy| - 1 == (|x| - 1) + |y|;
      AppendArith(DigitValue(x[0]), Pow10(|x| - 1), Pow10(|y|), Numeral(x[1..]), Numeral(y),
                  Numeral(xy), Numeral(x));
    } else {
      assert xy == y;
    }
  }

  /** A smaller leading digit makes a smaller number, whatever follows it. */
  lemma LeadingDigitDecides(da: nat, db: nat, p: nat, na: nat, nb: nat)
    requires da < db && na < p
    ensures da * p + na < db * p + nb
  {
    MulMonotone(da + 1, db, p);
    assert (da + 1) * p == da * p + p;
  }

  /** Position by position, both strings hold a digit or both hold the same character. */
  predicate SameShape(a: string, b: string)
  {
    |a| == |b| && forall i :: 0 <= i < |a| ==> (IsDigit(a[i]) && IsDigit(b[i])) || a[i] == b[i]
  }

  /** For strings of the same shape, character order is numeric order. */
  lemma {:induction false} LexLeIsNumeric(a: string, b: string)
    requires SameShape(a, b)
    ensures LexLe(a, b) <==> Numeral(a) <= Numeral(b)
  {
    if |a| > 0 {
      assert SameShape(a[1..], b[1..]) by {
        forall i | 0 <= i < |a| - 1
          ensures (IsDigit(a[1..][i]) && IsDigit(b[1..][i])) || a[1..][i] == b[1..][i]
        {
          assert a[1..][i] == a[i + 1] && b[1..][i] == b[i + 1];
        }
      }
      LexLeIsNumeric(a[1..], b[1..]);
      NumeralBound(a[1..]);
      NumeralBound(b[1..]);
      var p := Pow10(|a| - 1);
      var da, db := DigitValue(a[0]), DigitValue(b[0]);
      var na, nb := Numeral(a[1..]), Numeral(b[1..]);
      assert Numeral(a) == da * p + na;
      assert Numeral(b) == db * p + nb;
      if a[0] < b[0] {
        assert IsDigit(a[0]) && IsDigit(b[0]);
        LeadingDigitDecides(da, db, p, na, nb);
      } else if b[0] < a[0] {
        assert IsDigit(a[0]) && IsDigit(b[0]);
        LeadingDigitDecides(db, da, p, nb, na);
      }
    }
  }

  function Year(s: string): nat
    requires |s| == 10
  {
    Numeral(s[..4])
  }

  function Month(s: string): nat
    requires |s| == 10
  {
    Numeral(s[5..7])
  }

  function Day(s: string): nat
    requires |s| == 10
  {
    Numeral(s[8..])
  }

  /** A `YYYY-MM-DD` string with a month from 1 to 12 and a day from 1 to 31. */
  predicate WellFormedDate(s: string)
  {
    && |s| == 10
    && (forall i :: 0 <= i < 10 && i != 4 && i != 7 ==> IsDigit(s[i]))
    && s[4] == '-' && s[7] == '-'
    && 1 <= Month(s) <= 12 && 1 <= Day(s) <= 31
  }

  /** `a` falls on or before `b` in the calendar. */
  predicate ChronoLe(a: string, b: string)
    requires |a| == 10 && |b| == 10
  {
    || Year(a) < Year(b)
    || (Year(a) == Year(b) && Month(a) < Month(b))
    || (Year(a) == Year(b) && Month(a) == Month(b) && Day(a) <= Day(b))
  }

  lemma NumeralOfDate(s: string)
    requires WellFormedDate(s)
    ensures Numeral(s) == Year(s) * 1000000 + Month(s) * 1000 + Day(s)
    ensures Month(s) < 100 && Day(s) < 100
  {
    assert s == s[..4] + s[4..];
    NumeralAppend(s[..4], s[4..]);
    assert Numeral(s[4..]) == Numeral(s[5..]) by {
      assert s[4..][1..] == s[5..];
    }
    assert s[5..] == s[5..7] + s[7..];
    NumeralAppend(s[5..7], s[7..]);
    assert Numeral(s[7..]) == Numeral(s[8..]) by {
      assert s[7..][1..] == s[8..];
    }
    NumeralBound(s[5..7]);
    NumeralBound(s[8..]);
  }

  /** Comparing two well-formed dates as strings orders them by calendar. */
  lemma DateOrderIsChronological(a: string, b: string)
    requires WellFormedDate(a) && WellFormedDate(b)
    ensures LexLe(a, b) <==> ChronoLe(a, b)
  {
    assert SameShape(a, b);
    LexLeIsNumeric(a, b);
    NumeralOfDate(a);
    NumeralOfDate(b);
  }
}
