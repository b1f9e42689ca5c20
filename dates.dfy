/** Calendar dates and their `YYYY-MM-DD` text form, which both the page's
    date field and the server's stored `fecha` use. */
module Dates {
  import opened Text

  /** A calendar date; `month` runs from 1 to 12. */
  datatype Date = Date(year: nat, month: nat, day: nat)

  /** Two digits, zero-padded: `String(n).padStart(2, '0')`, or `%m`/`%d`. */
  function TwoDigit(n: nat): (r: string)
    requires n < 100
    ensures |r| == 2 && IsDigit(r[0]) && IsDigit(r[1]) && ParseDecimal(r) == n
  {
    TwoDigits(n);
    PadStart(Decimal(n), 2, '0')
  }

  /** The `YYYY-MM` text of a month, the form the monthly summary is asked for. */
  function MonthText(year: nat, month: nat): string
    requires month < 100
  {
    Decimal(year) + "-" + TwoDigit(month)
  }

  /** The `YYYY-MM-DD` text of a date. The year is written without padding,
      as glibc's `%Y` and JavaScript's `String` do. */
  function IsoDate(d: Date): string
    requires d.month < 100 && d.day < 100
  {
    MonthText(d.year, d.month) + "-" + TwoDigit(d.day)
  }

  /** For a four-digit year the text is ten characters: digits with dashes at
      positions 4 and 7, and the three fields read back as year, month, day. */
  lemma IsoDateLayout(d: Date)
    requires 1000 <= d.year <= 9999 && d.month < 100 && d.day < 100
    ensures var s := IsoDate(d);
      && |s| == 10 && s[4] == '-' && s[7] == '-'
      && (forall k :: 0 <= k < 10 && k != 4 && k != 7 ==> IsDigit(s[k]))
      && ParseDecimal(s[..4]) == d.year
      && ParseDecimal(s[5..7]) == d.month
      && ParseDecimal(s[8..]) == d.day
      && s[..7] == MonthText(d.year, d.month)
  {
    DecimalLength(d.year);
    DecimalRoundTrip(d.year);
    var s := IsoDate(d);
    assert s[..4] == Decimal(d.year);
    assert s[5..7] == TwoDigit(d.month);
    assert s[8..] == TwoDigit(d.day);
  }

  /** SQLite's `strftime('%Y-%m', fecha) = mes` on a stored date: the
      date's first seven characters are the month text. */
  predicate InMonth(fecha: string, mes: string)
  {
    |fecha| >= 7 && fecha[..7] == mes
  }

  /** The two parts of `a + "-" + b` can be cut out again. */
  lemma DashJoin(a: string, b: string)
    ensures |a + "-" + b| == |a| + 1 + |b|
    ensures (a + "-" + b)[..|a|] == a
    ensures (a + "-" + b)[|a| + 1..] == b
  {
  }

  /** The month text is the year's digits, a dash and two month digits. */
  lemma MonthTextLayout(y: nat, m: nat)
    requires m < 100
    ensures |MonthText(y, m)| == |Decimal(y)| + 3
    ensures MonthText(y, m)[..|Decimal(y)|] == Decimal(y)
    ensures MonthText(y, m)[|Decimal(y)| + 1..] == TwoDigit(m)
  {
    var a, b := Decimal(y), TwoDigit(m);
    assert MonthText(y, m) == a + "-" + b;
    DashJoin(a, b);
  }

  /** Different months of four-digit years have different texts. */
  lemma MonthTextInjective(y1: nat, m1: nat, y2: nat, m2: nat)
    requires m1 < 100 && m2 < 100
    requires MonthText(y1, m1) == MonthText(y2, m2)
    requires 1000 <= y1 <= 9999
    ensures y1 == y2 && m1 == m2
  {
    MonthTextLayout(y1, m1);
    MonthTextLayout(y2, m2);
    DecimalLength(y1);
    DecimalLength(y2);
    DecimalRoundTrip(y1);
    DecimalRoundTrip(y2);
    assert Decimal(y1) == Decimal(y2);
  }

  /** A date with a four-digit year is in the month `MonthText(y, m)` exactly
      when its year is `y` and its month is `m`. */
  lemma InMonthIff(d: Date, y: nat, m: nat)
    requires 1000 <= d.year <= 9999 && d.month < 100 && d.day < 100 && m < 100
    ensures InMonth(IsoDate(d), MonthText(y, m)) <==> d.year == y && d.month == m
  {
    IsoDateLayout(d);
    if InMonth(IsoDate(d), MonthText(y, m)) {
      MonthTextInjective(d.year, d.month, y, m);
    }
  }
}
