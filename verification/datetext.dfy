/** Date strings. The components store and compare days as `YYYY-MM-DD`
    strings: `getLocalISODate` produces them, `Charts` filters with the
    string operators `>=` and `<=`, the list sorts with `localeCompare`, and
    the calendar builds them with `padStart` and reads them back with
    `split('-').map(Number)`. This module defines those strings and proves
    that, for four-digit years, string order is day order. */
module DateText {
  import opened Types
  import opened Gregorian

  function Pow10(w: nat): (p: nat)
    ensures p >= 1
  {
    if w == 0 then 1 else 10 * Pow10(w - 1)
  }

  predicate IsDigit(c: char)
  {
    '0' <= c <= '9'
  }

  function DigitChar(d: int): (c: char)
    requires 0 <= d < 10
    ensures IsDigit(c)
  {
    (48 + d) as char
  }

  function DigitValue(c: char): (d: int)
    requires IsDigit(c)
    ensures 0 <= d < 10
  {
    c as int - 48
  }

  /** The last `w` decimal digits of `n`, zero-padded to width `w`. */
  function Digits(n: nat, w: nat): (s: string)
    ensures |s| == w
    ensures forall i :: 0 <= i < w ==> IsDigit(s[i])
  {
    if w == 0 then [] else Digits(n / 10, w - 1) + [DigitChar(n % 10)]
  }

  /** `String(n)` for a non-negative integer: its decimal digits, no padding. */
  function Decimal(n: nat): (s: string)
    ensures |s| >= 1
    ensures forall i :: 0 <= i < |s| ==> IsDigit(s[i])
    decreases n
  {
    if n < 10 then [DigitChar(n)] else Decimal(n / 10) + [DigitChar(n % 10)]
  }

  /** `String(n)` for any integer. */
  function IntText(n: int): string
  {
    if n < 0 then "-" + Decimal(-n) else Decimal(n)
  }

  function Zeros(k: nat): (s: string)
    ensures |s| == k
  {
    if k == 0 then [] else Zeros(k - 1) + ['0']
  }

  /** `s.padStart(w, '0')`. */
  function PadStart(s: string, w: nat): (r: string)
    ensures |r| == if |s| < w then w else |s|
  {
    if |s| < w then Zeros(w - |s|) + s else s
  }

  /** JavaScript `a < b` on strings: code-unit lexicographic order. */
  predicate LexLess(a: string, b: string)
    decreases |a|
  {
    if |a| == 0 then |b| > 0
    else if |b| == 0 then false
    else if a[0] != b[0] then a[0] < b[0]
    else LexLess(a[1..], b[1..])
  }

  /** The canonical `YYYY-MM-DD` form, as `toISOString().split('T')[0]`
      writes it for years 0..9999. */
  function IsoString(d: Date): string
    requires 0 <= d.year && 0 <= d.month && 0 <= d.day
  {
    Digits(d.year, 4) + ("-" + (Digits(d.month, 2) + ("-" + Digits(d.day, 2))))
  }

  /** The string a day is stored under. */
  function DateString(n: Day): string
    requires 0 <= n
  {
    FromDayCorrect(n);
    IsoString(FromDay(n))
  }

  // ---------------------------------------------------------------------
  // Lexicographic order

  lemma {:induction false} LexIrreflexive(a: string)
    ensures !LexLess(a, a)
    decreases |a|
  {
    if |a| > 0 {
      LexIrreflexive(a[1..]);
    }
  }

  lemma {:induction false} LexAsymmetric(a: string, b: string)
    requires LexLess(a, b)
    ensures !LexLess(b, a)
    decreases |a|
  {
    if |a| > 0 && |b| > 0 && a[0] == b[0] {
      LexAsymmetric(a[1..], b[1..]);
    }
  }

  /** Comparing two strings that start with prefixes of the same length:
      the prefixes decide unless they are equal. */
  lemma {:induction false} LexConcat(p: string, s: string, q: string, t: string)
    requires |p| == |q|
    ensures LexLess(p + s, q + t) == if p == q then LexLess(s, t) else LexLess(p, q)
    decreases |p|
  {
    if |p| > 0 {
      assert (p + s)[0] == p[0] && (q + t)[0] == q[0];
      assert (p + s)[1..] == p[1..] + s;
      assert (q + t)[1..] == q[1..] + t;
      LexConcat(p[1..], s, q[1..], t);
      if p[0] == q[0] {
        assert p == q <==> p[1..] == q[1..] by {
          if p[1..] == q[1..] {
            assert p == [p[0]] + p[1..] && q == [q[0]] + q[1..];
          }
        }
      }
    } else {
      assert p + s == s && q + t == t;
    }
  }

  lemma DigitCharOrder(a: int, b: int)
    requires 0 <= a < 10 && 0 <= b < 10
    ensures DigitChar(a) < DigitChar(b) <==> a < b
    ensures DigitChar(a) == DigitChar(b) <==> a == b
  {
    assert DigitChar(a) as int == 48 + a;
    assert DigitChar(b) as int == 48 + b;
  }

  /** Fixed-width digit strings compare like the numbers they write. */
  lemma {:induction false} DigitsOrder(a: nat, b: nat, w: nat)
    requires a < Pow10(w) && b < Pow10(w)
    ensures LexLess(Digits(a, w), Digits(b, w)) <==> a < b
    ensures Digits(a, w) == Digits(b, w) <==> a == b
  {
    if w == 0 {
      assert a == 0 && b == 0;
    } else {
      DigitsOrder(a / 10, b / 10, w - 1);
      DigitCharOrder(a % 10, b % 10);
      var pa, pb := Digits(a / 10, w - 1), Digits(b / 10, w - 1);
      var ca, cb := [DigitChar(a % 10)], [DigitChar(b % 10)];
      LexConcat(pa, ca, pb, cb);
      if pa + ca == pb + cb {
        assert pa == (pa + ca)[..w - 1] && pb == (pb + cb)[..w - 1];
        assert ca[0] == (pa + ca)[w - 1] && cb[0] == (pb + cb)[w - 1];
      }
    }
  }

  /** On valid dates with years below 10000, the ISO strings compare like the dates. */
  lemma IsoStringOrder(a: Date, b: Date)
    requires ValidDate(a) && ValidDate(b) && a.year < 10000 && b.year < 10000
    ensures LexLess(IsoString(a), IsoString(b)) <==> Before(a, b)
    ensures IsoString(a) == IsoString(b) <==> a == b
  {
    IsoStringLexOrder(a, b);
    IsoStringInjective(a, b);
  }

  lemma IsoStringLexOrder(a: Date, b: Date)
    requires ValidDate(a) && ValidDate(b) && a.year < 10000 && b.year < 10000
    ensures LexLess(IsoString(a), IsoString(b)) <==> Before(a, b)
  {
    DigitsOrder(a.year, b.year, 4);
    DigitsOrder(a.month, b.month, 2);
    DigitsOrder(a.day, b.day, 2);
    var ya, yb := Digits(a.year, 4), Digits(b.year, 4);
    var ma, mb := Digits(a.month, 2), Digits(b.month, 2);
    var da, db := Digits(a.day, 2), Digits(b.day, 2);
    var ta, tb := "-" + da, "-" + db;
    var ra, rb := "-" + (ma + ta), "-" + (mb + tb);
    LexConcat("-", da, "-", db);
    LexConcat(ma, ta, mb, tb);
    LexConcat("-", ma + ta, "-", mb + tb);
    LexConcat(ya, ra, yb, rb);
  }

  lemma IsoStringInjective(a: Date, b: Date)
    requires ValidDate(a) && ValidDate(b) && a.year < 10000 && b.year < 10000
    ensures IsoString(a) == IsoString(b) <==> a == b
  {
    DigitsOrder(a.year, b.year, 4);
    DigitsOrder(a.month, b.month, 2);
    DigitsOrder(a.day, b.day, 2);
    var ya, yb := Digits(a.year, 4), Digits(b.year, 4);
    var ma, mb := Digits(a.month, 2), Digits(b.month, 2);
    var da, db := Digits(a.day, 2), Digits(b.day, 2);
    var ra, rb := "-" + (ma + ("-" + da)), "-" + (mb + ("-" + db));
    if ya + ra == yb + rb {
      assert ya == (ya + ra)[..4] && yb == (yb + rb)[..4];
      assert ra == (ya + ra)[4..] && rb == (yb + rb)[4..];
      assert ma == ra[1..3] && mb == rb[1..3];
      assert da == ra[4..] && db == rb[4..];
    }
  }

  /** String order on the stored form of days with four-digit years is day
      order, and distinct days have distinct strings. This is what makes the
      string comparisons of the weekly filter and the `localeCompare` sort
      agree with the calendar. */
  lemma DateStringOrder(a: Day, b: Day)
    requires InRange(a) && InRange(b)
    ensures LexLess(DateString(a), DateString(b)) <==> a < b
    ensures DateString(a) == DateString(b) <==> a == b
  {
    InRangeYears(a);
    InRangeYears(b);
    FromDayCorrect(a);
    FromDayCorrect(b);
    IsoStringOrder(FromDay(a), FromDay(b));
    ToDayOrder(FromDay(a), FromDay(b));
  }

  // ---------------------------------------------------------------------
  // Reading strings back

  /** `s.split(sep)`. */
  function Split(s: string, sep: char): (parts: seq<string>)
    ensures |parts| >= 1
    decreases |s|
  {
    if |s| == 0 then [""]
    else
      var rest := Split(s[1..], sep);
      if s[0] == sep then [""] + rest else [[s[0]] + rest[0]] + rest[1..]
  }

  predicate AllDigits(s: string)
  {
    forall i :: 0 <= i < |s| ==> IsDigit(s[i])
  }

  /** The value of a string of decimal digits (the empty string reads as 0). */
  function DigitsValue(s: string): (n: nat)
    requires AllDigits(s)
    decreases |s|
  {
    if |s| == 0 then 0 else 10 * DigitsValue(s[..|s| - 1]) + DigitValue(s[|s| - 1])
  }

  /** `Number(s)` restricted to what the calendar feeds it: a digit string
      (`""` reads as 0) gives its value; anything else gives NaN (`None`). */
  function ParseNumber(s: string): Option<int>
  {
    if AllDigits(s) then Some(DigitsValue(s)) else None
  }

  lemma {:induction false} SplitNoSep(a: string, sep: char)
    requires forall i :: 0 <= i < |a| ==> a[i] != sep
    ensures Split(a, sep) == [a]
    decreases |a|
  {
    if |a| > 0 {
      SplitNoSep(a[1..], sep);
      assert [a[0]] + a[1..] == a;
    }
  }

  lemma {:induction false} SplitAtSep(a: string, sep: char, b: string)
    requires forall i :: 0 <= i < |a| ==> a[i] != sep
    ensures Split(a + [sep] + b, sep) == [a] + Split(b, sep)
    decreases |a|
  {
    if |a| == 0 {
      assert a + [sep] + b == [sep] + b;
      assert ([sep] + b)[1..] == b;
    } else {
      assert (a + [sep] + b)[1..] == a[1..] + [sep] + b;
      SplitAtSep(a[1..], sep, b);
      assert [a[0]] + a[1..] == a;
    }
  }

  lemma DigitRoundTrip(d: int)
    requires 0 <= d < 10
    ensures DigitValue(DigitChar(d)) == d
  {
    assert DigitChar(d) as int == 48 + d;
  }

  lemma {:induction false} DecimalValue(n: nat)
    ensures DigitsValue(Decimal(n)) == n
    decreases n
  {
    var s := Decimal(n);
    DigitRoundTrip(n % 10);
    if n < 10 {
      assert s[..0] == [];
    } else {
      DecimalValue(n / 10);
      assert s[..|s| - 1] == Decimal(n / 10);
    }
  }

  lemma {:induction false} ZerosValue(k: nat)
    ensures AllDigits(Zeros(k)) && DigitsValue(Zeros(k)) == 0
  {
    if k > 0 {
      ZerosValue(k - 1);
      assert Zeros(k)[..k - 1] == Zeros(k - 1);
      DigitRoundTrip(0);
    }
  }

  /** Leading zeros do not change a digit string's value. */
  lemma {:induction false} LeadingZerosValue(k: nat, s: string)
    requires AllDigits(s)
    ensures AllDigits(Zeros(k) + s) && DigitsValue(Zeros(k) + s) == DigitsValue(s)
    decreases |s|
  {
    ZerosValue(k);
    var z := Zeros(k) + s;
    if |s| > 0 {
      LeadingZerosValue(k, s[..|s| - 1]);
      assert z[..|z| - 1] == Zeros(k) + s[..|s| - 1];
    } else {
      assert z == Zeros(k);
    }
  }

  /** `String(n).padStart(w, '0')` reads back as `n`. */
  lemma PaddedDecimalValue(n: nat, w: nat)
    ensures AllDigits(PadStart(Decimal(n), w))
    ensures ParseNumber(PadStart(Decimal(n), w)) == Some(n)
  {
    DecimalValue(n);
    if |Decimal(n)| < w {
      LeadingZerosValue(w - |Decimal(n)|, Decimal(n));
    }
  }

  /** A number below `10^w` has at most `w` digits, and one of at least
      `10^(w-1)` has at least `w`. */
  lemma {:induction false} DecimalLength(n: nat, w: nat)
    requires 1 <= w
    ensures n < Pow10(w) ==> |Decimal(n)| <= w
    ensures Pow10(w - 1) <= n ==> |Decimal(n)| >= w
    decreases n
  {
    if n >= 10 {
      if w > 1 {
        DecimalLength(n / 10, w - 1);
      } else {
        DecimalLength(n / 10, 1);
      }
    }
  }

  /** The fixed-width digits of a number that fits read back as it. */
  lemma {:induction false} DigitsValueOfDigits(n: nat, w: nat)
    requires n < Pow10(w)
    ensures AllDigits(Digits(n, w)) && DigitsValue(Digits(n, w)) == n
    decreases w
  {
    if w > 0 {
      DigitsValueOfDigits(n / 10, w - 1);
      assert Digits(n, w)[..w - 1] == Digits(n / 10, w - 1);
      DigitRoundTrip(n % 10);
    }
  }

  /** Two digit strings of one length with one value are the same string. */
  lemma {:induction false} DigitStringsInjective(a: string, b: string)
    requires AllDigits(a) && AllDigits(b) && |a| == |b|
    requires DigitsValue(a) == DigitsValue(b)
    ensures a == b
    decreases |a|
  {
    if |a| > 0 {
      var k := |a| - 1;
      var da := DigitValue(a[k]);
      var db := DigitValue(b[k]);
      LastDigit(DigitsValue(a[..k]), da, DigitsValue(b[..k]), db);
      DigitStringsInjective(a[..k], b[..k]);
      assert a == a[..k] + [a[k]] && b == b[..k] + [b[k]];
    }
  }

  /** A number and its last decimal digit determine each other. */
  lemma LastDigit(x: nat, d: int, y: nat, e: int)
    requires 0 <= d < 10 && 0 <= e < 10
    requires 10 * x + d == 10 * y + e
    ensures x == y && d == e
  {
  }

  /** `String(n).padStart(w, '0')` is the fixed-width form when `n` fits. */
  lemma PaddedDecimalIsDigits(n: nat, w: nat)
    requires 1 <= w && n < Pow10(w)
    ensures PadStart(Decimal(n), w) == Digits(n, w)
  {
    DecimalLength(n, w);
    PaddedDecimalValue(n, w);
    DigitsValueOfDigits(n, w);
    DigitStringsInjective(PadStart(Decimal(n), w), Digits(n, w));
  }
}
