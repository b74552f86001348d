/** The part of Go's `time` package the core uses: calendar dates as parsed
    by `time.Parse("2006-01-02", …)`, their order, the first and last day of
    a month (`time.Date(y, m, 1, …)` and `AddDate(0, 1, -1)`), and the
    `"2006-01-02"` / `"2006-01"` layouts of `Time.Format`. */
module Calendar {

  /** A calendar date at midnight UTC; every transaction date and period
      bound in the core is one. */
  datatype Date = Date(year: int, month: int, day: int)

  predicate IsLeapYear(y: int) {
    y % 4 == 0 && (y % 100 != 0 || y % 400 == 0)
  }

  function DaysInMonth(y: int, m: int): (n: int)
    requires 1 <= m <= 12
    ensures 28 <= n <= 31
    ensures m == 2 ==> (n == 29 <==> IsLeapYear(y))
  {
    if m == 2 then (if IsLeapYear(y) then 29 else 28)
    else if m == 4 || m == 6 || m == 9 || m == 11 then 30
    else 31
  }

  predicate ValidDate(d: Date) {
    1 <= d.month <= 12 && 1 <= d.day <= DaysInMonth(d.year, d.month)
  }

  /** Chronological order of dates (lexicographic on year, month, day). */
  predicate DateLe(a: Date, b: Date) {
    a.year < b.year
    || (a.year == b.year && (a.month < b.month || (a.month == b.month && a.day <= b.day)))
  }

  lemma DateLeTotal(a: Date, b: Date)
    ensures DateLe(a, b) || DateLe(b, a)
    ensures DateLe(a, b) && DateLe(b, a) ==> a == b
  {
  }

  function FirstOfMonth(y: int, m: int): (d: Date)
    requires 1 <= m <= 12
    ensures ValidDate(d) && d == Date(y, m, 1)
  {
    Date(y, m, 1)
  }

  /** `time.Date(y, m, 1, …).AddDate(0, 1, -1)`: the first of the next
      month, one day back. */
  function LastOfMonth(y: int, m: int): (d: Date)
    requires 1 <= m <= 12
    ensures ValidDate(d)
    ensures d.year == y && d.month == m
    ensures forall day :: 1 <= day <= DaysInMonth(y, m) ==> DateLe(Date(y, m, day), d)
  {
    Date(y, m, DaysInMonth(y, m))
  }

  /** A valid date lies in the range from the first to the last day of a
      month exactly when it belongs to that month, so the twelve monthly
      ranges of a year split its dates without overlap. */
  lemma InMonthRange(d: Date, y: int, m: int)
    requires ValidDate(d) && 1 <= m <= 12
    ensures DateLe(FirstOfMonth(y, m), d) && DateLe(d, LastOfMonth(y, m)) <==> d.year == y && d.month == m
  {
  }

  function DigitChar(n: int): (c: char)
    requires 0 <= n < 10
    ensures '0' <= c <= '9'
  {
    "0123456789"[n]
  }

  /** Decimal digits of `n`, most significant first, with no leading zero. */
  function Digits(n: nat): (s: string)
    ensures |s| >= 1
    ensures forall i :: 0 <= i < |s| ==> '0' <= s[i] <= '9'
    ensures n < 10 <==> |s| == 1
  {
    if n < 10 then [DigitChar(n)] else Digits(n / 10) + [DigitChar(n % 10)]
  }

  /** The value of a string of decimal digits. */
  function DigitsValue(s: string): nat
    requires forall i :: 0 <= i < |s| ==> '0' <= s[i] <= '9'
  {
    if s == [] then 0 else 10 * DigitsValue(s[..|s| - 1]) + (s[|s| - 1] as int - '0' as int)
  }

  lemma {:induction false} DigitsRoundTrip(n: nat)
    ensures DigitsValue(Digits(n)) == n
  {
    if n >= 10 {
      var s := Digits(n);
      assert s[..|s| - 1] == Digits(n / 10);
      DigitsRoundTrip(n / 10);
      DigitCharValue(n % 10);
    } else {
      DigitCharValue(n);
    }
  }

  lemma DigitCharValue(d: int)
    requires 0 <= d < 10
    ensures DigitChar(d) as int - '0' as int == d
  {
    var digits := "0123456789";
    assert digits[d] as int == '0' as int + d by {
      if d < 5 {
        assert d == 0 || d == 1 || d == 2 || d == 3 || d == 4;
      } else {
        assert d == 5 || d == 6 || d == 7 || d == 8 || d == 9;
      }
    }
  }

  function Zeros(k: nat): (s: string)
    ensures |s| == k && forall i :: 0 <= i < k ==> s[i] == '0'
  {
    if k == 0 then "" else "0" + Zeros(k - 1)
  }

  /** Go's `appendInt(b, x, width)`: a minus sign for negative `x`, then the
      digits of `|x|` padded with leading zeros to at least `width`. */
  function FormatInt(x: int, width: nat): (s: string)
    ensures x >= 0 ==> |s| >= width
  {
    var digits := Digits(if x < 0 then -x else x);
    var padded := if |digits| >= width then digits else Zeros(width - |digits|) + digits;
    if x < 0 then "-" + padded else padded
  }

  /** The `"2006-01-02"` layout. */
  function FormatDate(d: Date): string {
    FormatInt(d.year, 4) + "-" + FormatInt(d.month, 2) + "-" + FormatInt(d.day, 2)
  }

  /** The `"2006-01"` layout used for month labels. */
  function FormatYearMonth(y: int, m: int): (s: string)
    requires 1 <= m <= 12
    ensures 0 <= y <= 9999 ==> |s| == 7 && s[4] == '-'
  {
    var ys := FormatInt(y, 4);
    var ms := FormatInt(m, 2);
    assert 0 <= y <= 9999 ==> |ys| == 4 by {
      if 0 <= y <= 9999 { DigitsLength(y); }
    }
    assert |ms| == 2 by { DigitsLength(m); }
    ys + "-" + ms
  }

  lemma {:induction false} DigitsLength(n: nat)
    ensures n < 10000 ==> |Digits(n)| <= 4
    ensures n < 100 ==> |Digits(n)| <= 2
  {
    if n >= 10 { DigitsLength(n / 10); }
  }

  /** Distinct months of one year get distinct labels. */
  lemma MonthLabelsDistinct(y: int, m1: int, m2: int)
    requires 0 <= y <= 9999 && 1 <= m1 <= 12 && 1 <= m2 <= 12 && m1 != m2
    ensures FormatYearMonth(y, m1) != FormatYearMonth(y, m2)
  {
    var a, b := FormatYearMonth(y, m1), FormatYearMonth(y, m2);
    DigitsLength(m1);
    DigitsLength(m2);
    var ma, mb := FormatInt(m1, 2), FormatInt(m2, 2);
    assert a[5..] == ma && b[5..] == mb;
    MonthFieldValue(m1);
    MonthFieldValue(m2);
  }

  lemma MonthFieldValue(m: int)
    requires 1 <= m <= 12
    ensures |FormatInt(m, 2)| == 2
    ensures forall i :: 0 <= i < 2 ==> '0' <= FormatInt(m, 2)[i] <= '9'
    ensures DigitsValue(FormatInt(m, 2)) == m
  {
    DigitsLength(m);
    DigitsRoundTrip(m);
    var d := Digits(m);
    if |d| == 1 {
      var s := FormatInt(m, 2);
      assert s == "0" + d;
      assert s[..1] == "0";
      assert DigitsValue(s[..1]) == 0 by {
        assert s[..1][..0] == [];
      }
      assert d[..0] == [];
    }
  }
}
