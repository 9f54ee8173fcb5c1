/**
 * Calendar dates and the two textual forms the pipeline reads and writes:
 * `%Y-%m-%d` (ISO) and `%d-%b-%Y` (`20-Dec-2023`), with the acceptance rules of
 * Python's `datetime.strptime` and the rendering of `datetime.strftime` in the
 * C locale.
 */
module Dates {
  import opened Wrappers
  import opened Text

  datatype Date = Date(year: int, month: int, day: int)

  predicate IsLeapYear(y: int) {
    y % 4 == 0 && (y % 100 != 0 || y % 400 == 0)
  }

  function DaysInMonth(y: int, m: int): (n: int)
    requires 1 <= m <= 12
    ensures 28 <= n <= 31
  {
    if m == 2 then (if IsLeapYear(y) then 29 else 28)
    else if m == 4 || m == 6 || m == 9 || m == 11 then 30
    else 31
  }

  /** A date `datetime` accepts: years 1..9999 and a day that exists in its month. */
  predicate ValidDate(d: Date) {
    && 1 <= d.year <= 9999
    && 1 <= d.month <= 12
    && 1 <= d.day <= DaysInMonth(d.year, d.month)
  }

  /** The C locale's `%b` month abbreviations. */
  const MonthNames: seq<string> :=
    ["Jan", "Feb", "Mar", "Apr", "May", "Jun", "Jul", "Aug", "Sep", "Oct", "Nov", "Dec"]

  /** The `%b` abbreviation of month `m`. */
  function MonthName(m: int): (r: string)
    requires 1 <= m <= 12
    ensures |r| == 3
  {
    MonthNames[m - 1]
  }

  function Pad2(n: int): (r: string)
    requires 0 <= n < 100
    ensures |r| == 2 && AllDigits(r)
  {
    [DigitChar(n / 10), DigitChar(n % 10)]
  }

  function Pad4(n: int): (r: string)
    requires 0 <= n < 10000
    ensures |r| == 4 && AllDigits(r)
  {
    [DigitChar(n / 1000), DigitChar(n / 100 % 10), DigitChar(n / 10 % 10), DigitChar(n % 10)]
  }

  function TwoDigits(a: char, b: char): (n: int)
    requires IsDigit(a) && IsDigit(b)
    ensures 0 <= n < 100
  {
    10 * DigitValue(a) + DigitValue(b)
  }

  function FourDigits(t: string, p: nat): (n: int)
    requires p + 4 <= |t| && AllDigits(t[p..p + 4])
    ensures 0 <= n < 10000
  {
    assert IsDigit(t[p]) && IsDigit(t[p + 1]) && IsDigit(t[p + 2]) && IsDigit(t[p + 3]) by {
      assert t[p..p + 4][0] == t[p] && t[p..p + 4][1] == t[p + 1];
      assert t[p..p + 4][2] == t[p + 2] && t[p..p + 4][3] == t[p + 3];
    }
    1000 * DigitValue(t[p]) + 100 * DigitValue(t[p + 1]) + 10 * DigitValue(t[p + 2]) + DigitValue(t[p + 3])
  }

  /** `strftime("%d-%b-%Y")`. */
  function FormatDmy(d: Date): (r: string)
    requires ValidDate(d)
    ensures |r| == 11
  {
    Pad2(d.day) + "-" + MonthName(d.month) + "-" + Pad4(d.year)
  }

  /** The zero-padded ISO text `YYYY-MM-DD` of a date. */
  function IsoText(d: Date): (r: string)
    requires ValidDate(d)
    ensures |r| == 10
  {
    Pad4(d.year) + "-" + Pad2(d.month) + "-" + Pad2(d.day)
  }

  /*
   * strptime compiles each directive to a regular expression and then requires
   * the match to cover the whole input:
   *   %Y  \d\d\d\d
   *   %m  1[0-2]|0[1-9]|[1-9]
   *   %d  3[01]|[12]\d|0[1-9]|[1-9]| [1-9]
   *   %b  the twelve abbreviations, case-insensitively
   * Every field below is followed either by '-' or by the end of the input,
   * which makes the regular expression's choice among alternatives unique.
   */

  predicate TwoDigitMonth(a: char, b: char) {
    (a == '1' && '0' <= b <= '2') || (a == '0' && '1' <= b <= '9')
  }

  predicate TwoCharDay(a: char, b: char) {
    || (a == '3' && (b == '0' || b == '1'))
    || ((a == '1' || a == '2') && IsDigit(b))
    || (a == '0' && '1' <= b <= '9')
    || (a == ' ' && '1' <= b <= '9')
  }

  function TwoCharDayValue(a: char, b: char): (n: int)
    requires TwoCharDay(a, b)
    ensures 1 <= n <= 31
  {
    if a == ' ' then DigitValue(b) else TwoDigits(a, b)
  }

  /** A `%m` field at `p` followed by '-': the month and the index of that '-'. */
  function MonthField(t: string, p: nat): (r: Option<(int, nat)>)
    ensures r.Some? ==> 1 <= r.value.0 <= 12 && p < r.value.1 < |t| && t[r.value.1] == '-'
  {
    if p + 2 < |t| && t[p + 2] == '-' && TwoDigitMonth(t[p], t[p + 1]) then
      Some((TwoDigits(t[p], t[p + 1]), p + 2))
    else if p + 1 < |t| && t[p + 1] == '-' && '1' <= t[p] <= '9' then
      Some((DigitValue(t[p]), p + 1))
    else
      None
  }

  /** A `%d` field at `p` followed by '-': the day and the index of that '-'. */
  function DayField(t: string, p: nat): (r: Option<(int, nat)>)
    ensures r.Some? ==> 1 <= r.value.0 <= 31 && p < r.value.1 < |t| && t[r.value.1] == '-'
  {
    if p + 2 < |t| && t[p + 2] == '-' && TwoCharDay(t[p], t[p + 1]) then
      Some((TwoCharDayValue(t[p], t[p + 1]), p + 2))
    else if p + 1 < |t| && t[p + 1] == '-' && '1' <= t[p] <= '9' then
      Some((DigitValue(t[p]), p + 1))
    else
      None
  }

  /** A `%d` field that must run to the end of the input. */
  function FinalDayField(u: string): (r: Option<int>)
    ensures r.Some? ==> 1 <= r.value <= 31
  {
    if |u| == 2 && TwoCharDay(u[0], u[1]) then Some(TwoCharDayValue(u[0], u[1]))
    else if |u| == 1 && '1' <= u[0] <= '9' then Some(DigitValue(u[0]))
    else None
  }

  /** `%b`: the month whose abbreviation equals `a` ignoring case. */
  function MonthOfName(a: string): (r: Option<int>)
    ensures r.Some? ==> 1 <= r.value <= 12 && LowerStr(a) == LowerStr(MonthName(r.value))
    ensures r.None? ==> forall m :: 1 <= m <= 12 ==> LowerStr(a) != LowerStr(MonthName(m))
  {
    MonthOfNameFrom(a, 1)
  }

  function MonthOfNameFrom(a: string, m: nat): (r: Option<int>)
    requires 1 <= m <= 13
    ensures r.Some? ==> m <= r.value <= 12 && LowerStr(a) == LowerStr(MonthName(r.value))
    ensures r.None? ==> forall k :: m <= k <= 12 ==> LowerStr(a) != LowerStr(MonthName(k))
    decreases 13 - m
  {
    if m == 13 then None
    else if LowerStr(a) == LowerStr(MonthName(m)) then Some(m)
    else MonthOfNameFrom(a, m + 1)
  }

  function CheckDate(d: Date): (r: Option<Date>)
    ensures r.Some? <==> ValidDate(d)
    ensures r.Some? ==> r.value == d
  {
    if ValidDate(d) then Some(d) else None
  }

  /** `datetime.strptime(t, "%Y-%m-%d")`, `None` where it raises `ValueError`. */
  function ParseYmd(t: string): (r: Option<Date>)
    ensures r.Some? ==> ValidDate(r.value)
  {
    if |t| < 5 || !AllDigits(t[..4]) || t[4] != '-' then None
    else
      match MonthField(t, 5)
      case None => None
      case Some(mq) =>
        match FinalDayField(t[mq.1 + 1..])
        case None => None
        case Some(day) => CheckDate(Date(FourDigits(t, 0), mq.0, day))
  }

  /** `datetime.strptime(t, "%d-%b-%Y")`, `None` where it raises `ValueError`. */
  function ParseDmy(t: string): (r: Option<Date>)
    ensures r.Some? ==> ValidDate(r.value)
  {
    match DayField(t, 0)
    case None => None
    case Some(dq) =>
      var q := dq.1;
      if q + 9 != |t| || t[q + 4] != '-' || !AllDigits(t[q + 5..]) then None
      else
        match MonthOfName(t[q + 1..q + 4])
        case None => None
        case Some(m) => CheckDate(Date(FourDigits(t, q + 5), m, dq.0))
  }
}

module DateFacts {
  import opened Wrappers
  import opened Text
  import opened Dates

  /** Ten characters at `i` shaped like `\d{4}-\d{2}-\d{2}`. */
  predicate IsoShapeAt(s: string, i: nat) {
    && i + 10 <= |s|
    && IsDigit(s[i]) && IsDigit(s[i + 1]) && IsDigit(s[i + 2]) && IsDigit(s[i + 3])
    && s[i + 4] == '-' && IsDigit(s[i + 5]) && IsDigit(s[i + 6])
    && s[i + 7] == '-' && IsDigit(s[i + 8]) && IsDigit(s[i + 9])
  }

  /** The year, month and day numbers written in an ISO-shaped token. */
  function IsoFields(t: string): Date
    requires IsoShapeAt(t, 0)
  {
    assert t[..4][0] == t[0] && t[..4][1] == t[1] && t[..4][2] == t[2] && t[..4][3] == t[3];
    Date(FourDigits(t, 0), TwoDigits(t[5], t[6]), TwoDigits(t[8], t[9]))
  }

  lemma Pad2Value(n: int)
    requires 0 <= n < 100
    ensures TwoDigits(Pad2(n)[0], Pad2(n)[1]) == n
  {
  }

  lemma Pad4Value(t: string, p: nat, n: int)
    requires 0 <= n < 10000
    requires p + 4 <= |t| && t[p..p + 4] == Pad4(n)
    ensures AllDigits(t[p..p + 4]) && FourDigits(t, p) == n
  {
    assert t[p] == Pad4(n)[0] && t[p + 1] == Pad4(n)[1];
    assert t[p + 2] == Pad4(n)[2] && t[p + 3] == Pad4(n)[3];
    assert AllDigits(t[p..p + 4]);
    assert FourDigits(t, p) == 1000 * (n / 1000) + 100 * (n / 100 % 10) + 10 * (n / 10 % 10) + n % 10;
    Pad4Digits(n);
  }

  /** The four digits `Pad4` writes add back up to the number. */
  lemma Pad4Digits(n: int)
    requires 0 <= n < 10000
    ensures 1000 * (n / 1000) + 100 * (n / 100 % 10) + 10 * (n / 10 % 10) + n % 10 == n
  {
    var q1, d := n / 10, n % 10;
    var q2, c := q1 / 10, q1 % 10;
    var a, b := q2 / 10, q2 % 10;
    assert n == 10 * q1 + d && q1 == 10 * q2 + c && q2 == 10 * a + b;
    DivModUnique(n, 100, q2, 10 * c + d);
    DivModUnique(n, 1000, a, 100 * b + 10 * c + d);
  }

  lemma DigitsPad2(a: char, b: char)
    requires IsDigit(a) && IsDigit(b)
    ensures Pad2(TwoDigits(a, b)) == [a, b]
  {
  }

  lemma DivModUnique(n: int, k: int, q: int, r: int)
    requires k == 10 || k == 100 || k == 1000
    requires 0 <= r < k && n == k * q + r
    ensures n / k == q && n % k == r
  {
    if k == 10 {
      assert n == 10 * q + r;
    } else if k == 100 {
      assert n == 100 * q + r;
    } else {
      assert n == 1000 * q + r;
    }
  }

  lemma DigitsPad4(t: string)
    requires |t| >= 4 && AllDigits(t[..4])
    ensures Pad4(FourDigits(t, 0)) == t[..4]
  {
    assert t[..4][0] == t[0] && t[..4][1] == t[1] && t[..4][2] == t[2] && t[..4][3] == t[3];
    var a, b, c, d := DigitValue(t[0]), DigitValue(t[1]), DigitValue(t[2]), DigitValue(t[3]);
    var n := 1000 * a + 100 * b + 10 * c + d;
    DivModUnique(n, 1000, a, 100 * b + 10 * c + d);
    DivModUnique(n, 100, 10 * a + b, 10 * c + d);
    DivModUnique(10 * a + b, 10, a, b);
    DivModUnique(n, 10, 100 * a + 10 * b + c, d);
    DivModUnique(100 * a + 10 * b + c, 10, 10 * a + b, c);
  }

  /** Reading back the zero-padded ISO text of a valid date yields that date. */
  lemma IsoRoundTrip(d: Date)
    requires ValidDate(d)
    ensures ParseYmd(IsoText(d)) == Some(d)
  {
    var t := IsoText(d);
    assert t[..4] == Pad4(d.year);
    Pad4Value(t, 0, d.year);
    assert t[4] == '-';
    IsoMonthReadback(d);
    IsoDayReadback(d);
  }

  lemma IsoMonthReadback(d: Date)
    requires ValidDate(d)
    ensures MonthField(IsoText(d), 5) == Some((d.month, 7))
  {
    var t := IsoText(d);
    assert t[5] == Pad2(d.month)[0] && t[6] == Pad2(d.month)[1] && t[7] == '-';
    Pad2Value(d.month);
  }

  lemma IsoDayReadback(d: Date)
    requires ValidDate(d)
    ensures FinalDayField(IsoText(d)[8..]) == Some(d.day)
  {
    var t := IsoText(d);
    assert t[8..] == Pad2(d.day);
    Pad2Value(d.day);
  }

  /**
   * An ISO-shaped token parses exactly when the numbers it spells form a valid
   * date (month 13 or 30 February do not), and then it is that date's ISO text.
   */
  lemma IsoTokenParse(t: string)
    requires |t| == 10 && IsoShapeAt(t, 0)
    ensures ParseYmd(t) == CheckDate(IsoFields(t))
    ensures ValidDate(IsoFields(t)) ==> IsoText(IsoFields(t)) == t
  {
    var f := IsoFields(t);
    assert AllDigits(t[..4]);
    if TwoDigitMonth(t[5], t[6]) {
      assert MonthField(t, 5) == Some((f.month, 7));
      var u := t[8..];
      assert u == [t[8], t[9]];
      if TwoCharDay(t[8], t[9]) {
        assert FinalDayField(u) == Some(f.day);
      } else {
        assert FinalDayField(u).None?;
        assert !ValidDate(f);
      }
    } else {
      assert MonthField(t, 5).None?;
      assert !(1 <= f.month <= 12);
    }
    if ValidDate(f) {
      DigitsPad4(t);
      DigitsPad2(t[5], t[6]);
      DigitsPad2(t[8], t[9]);
      assert IsoText(f) == t[..4] + "-" + [t[5], t[6]] + "-" + [t[8], t[9]];
    }
  }

  /** Reading back `strftime("%d-%b-%Y")` with `%d-%b-%Y` yields the same date. */
  lemma DmyRoundTrip(d: Date)
    requires ValidDate(d)
    ensures ParseDmy(FormatDmy(d)) == Some(d)
  {
    var t := FormatDmy(d);
    Pad2Value(d.day);
    assert t[0] == Pad2(d.day)[0] && t[1] == Pad2(d.day)[1] && t[2] == '-';
    assert DayField(t, 0) == Some((d.day, 2));
    assert t[3..6] == MonthName(d.month);
    MonthNameReadsBack(d.month);
    assert t[7..] == Pad4(d.year);
    assert t[7..11] == Pad4(d.year);
    Pad4Value(t, 7, d.year);
  }

  /** `%b` reads each abbreviation back as its own month. */
  lemma MonthNameReadsBack(m: int)
    requires 1 <= m <= 12
    ensures MonthOfName(MonthName(m)) == Some(m)
  {
    MonthNamesDistinct(m);
    MonthSearchFinds(MonthName(m), 1, m);
  }

  lemma {:induction false} MonthSearchFinds(a: string, from: nat, m: int)
    requires 1 <= from <= m <= 12
    requires LowerStr(a) == LowerStr(MonthName(m))
    requires forall k :: from <= k < m ==> LowerStr(MonthName(k)) != LowerStr(MonthName(m))
    ensures MonthOfNameFrom(a, from) == Some(m)
    decreases m - from
  {
    if from < m {
      assert LowerStr(MonthName(from)) != LowerStr(MonthName(m));
      MonthSearchFinds(a, from + 1, m);
    }
  }

  /** No two months share an abbreviation, even ignoring case. */
  lemma MonthNamesDistinct(m: int)
    requires 1 <= m <= 12
    ensures forall k :: 1 <= k < m ==> LowerStr(MonthName(k)) != LowerStr(MonthName(m))
  {
    forall k | 1 <= k < m ensures LowerStr(MonthName(k)) != LowerStr(MonthName(m)) {
      var a, b := MonthName(k), MonthName(m);
      assert LowerStr(a)[0] != LowerStr(b)[0] || LowerStr(a)[1] != LowerStr(b)[1]
        || LowerStr(a)[2] != LowerStr(b)[2];
    }
  }

  /** A `%d-%b-%Y` text is never accepted by `%Y-%m-%d`. */
  lemma FormattedIsNotIso(d: Date)
    requires ValidDate(d)
    ensures ParseYmd(FormatDmy(d)) == None
  {
    var t := FormatDmy(d);
    assert t[2] == '-';
    assert t[..4][2] == '-';
  }

  /** No ISO-shaped token occurs anywhere inside a `%d-%b-%Y` text. */
  lemma FormattedHasNoIsoShape(d: Date, i: nat)
    requires ValidDate(d)
    ensures !IsoShapeAt(FormatDmy(d), i)
  {
    var t := FormatDmy(d);
    assert t[2] == '-';
  }

  lemma FormatExample()
    ensures FormatDmy(Date(2023, 12, 20)) == "20-Dec-2023"
  {
    assert Pad2(20) == "20" && MonthName(12) == "Dec" && Pad4(2023) == "2023";
  }

  lemma ParseExample()
    ensures ParseYmd("2023-12-20") == Some(Date(2023, 12, 20))
  {
    IsoRoundTrip(Date(2023, 12, 20));
    assert Pad4(2023) == "2023" && Pad2(12) == "12" && Pad2(20) == "20";
    assert IsoText(Date(2023, 12, 20)) == "2023-12-20";
  }

  lemma NoThirteenthMonth()
    ensures ParseYmd("2023-13-01") == None
  {
    var t := "2023-13-01";
    assert IsoShapeAt(t, 0);
    IsoTokenParse(t);
    assert IsoFields(t).month == 13;
  }

  lemma NoThirtiethOfFebruary()
    ensures ParseYmd("2023-02-30") == None
  {
    var t := "2023-02-30";
    assert IsoShapeAt(t, 0);
    IsoTokenParse(t);
    assert IsoFields(t).month == 2 && IsoFields(t).day == 30;
  }
}
