/** The proleptic Gregorian calendar as `datetime.date` counts it, and ISO dates as text. */
module Calendar {
  import opened Prelude
  import opened Text

  predicate IsLeap(y: int) {
    y % 4 == 0 && (y % 100 != 0 || y % 400 == 0)
  }

  function YearLength(y: int): int {
    if IsLeap(y) then 366 else 365
  }

  function DaysInMonth(y: int, m: int): int {
    if m == 2 then (if IsLeap(y) then 29 else 28)
    else if m == 4 || m == 6 || m == 9 || m == 11 then 30
    else 31
  }

  /** Long and short months alternate, beginning with a long one, up to July and again from August on. */
  lemma MonthsAlternate(y: int, m: int)
    requires 1 <= m <= 12
    ensures DaysInMonth(y, m) ==
            if m == 2 then YearLength(y) - 337 else if (m <= 7) == (m % 2 == 1) then 31 else 30
  {
  }

  function DaysBeforeYear(y: int): int {
    var p := y - 1;
    p * 365 + p / 4 - p / 100 + p / 400
  }

  function DaysBeforeMonth(y: int, m: nat): int
    decreases m
  {
    if m <= 1 then 0 else DaysBeforeMonth(y, m - 1) + DaysInMonth(y, m - 1)
  }

  datatype Date = Date(year: nat, month: nat, day: nat)

  /** A day of the calendar, in any year from 1 on. */
  predicate CalendarDay(d: Date) {
    1 <= d.year && 1 <= d.month <= 12 && 1 <= d.day <= DaysInMonth(d.year, d.month)
  }

  predicate ValidDate(d: Date) {
    CalendarDay(d) && d.year <= 9999
  }

  function Ordinal(d: Date): int {
    DaysBeforeYear(d.year) + DaysBeforeMonth(d.year, d.month) + d.day
  }

  predicate Earlier(a: Date, b: Date) {
    || a.year < b.year
    || (a.year == b.year && (a.month < b.month || (a.month == b.month && a.day < b.day)))
  }

  // ----- the count follows the calendar -----

  lemma Quarters(y: nat)
    requires 1 <= y
    ensures y / 4 == (y - 1) / 4 + if y % 4 == 0 then 1 else 0
  {
  }

  lemma Centuries(y: nat)
    requires 1 <= y
    ensures y / 100 == (y - 1) / 100 + if y % 100 == 0 then 1 else 0
    ensures y % 100 == 0 ==> y % 4 == 0
  {
  }

  lemma FourCenturies(y: nat)
    requires 1 <= y
    ensures y / 400 == (y - 1) / 400 + if y % 400 == 0 then 1 else 0
    ensures y % 400 == 0 ==> y % 100 == 0
  {
  }

  /** The number of days before a year, from its quarter, century and four-century counts. */
  function YearCount(p: int, quarters: int, centuries: int, fourCenturies: int): int {
    p * 365 + quarters - centuries + fourCenturies
  }

  lemma YearCountIs(y: int)
    ensures DaysBeforeYear(y) == YearCount(y - 1, (y - 1) / 4, (y - 1) / 100, (y - 1) / 400)
  {
  }

  lemma NextYear(y: nat)
    requires 1 <= y
    ensures DaysBeforeYear(y + 1) == DaysBeforeYear(y) + YearLength(y)
  {
    hide DaysBeforeYear;
    YearCountIs(y);
    YearCountIs(y + 1);
    Quarters(y);
    Centuries(y);
    FourCenturies(y);
  }

  lemma {:induction false} YearsAdvance(a: nat, b: nat)
    requires 1 <= a < b
    ensures DaysBeforeYear(a) + YearLength(a) <= DaysBeforeYear(b)
    decreases b
  {
    NextYear(b - 1);
    if a < b - 1 {
      YearsAdvance(a, b - 1);
    }
  }

  lemma {:induction false} MonthsAdvance(y: nat, a: nat, b: nat)
    requires 1 <= a < b
    ensures DaysBeforeMonth(y, a) + DaysInMonth(y, a) <= DaysBeforeMonth(y, b)
    decreases b
  {
    if a < b - 1 {
      MonthsAdvance(y, a, b - 1);
    }
  }

  lemma MonthsFillYear(y: nat)
    ensures DaysBeforeMonth(y, 13) == YearLength(y)
  {
    assert DaysBeforeMonth(y, 4) == DaysInMonth(y, 1) + DaysInMonth(y, 2) + DaysInMonth(y, 3);
    assert DaysBeforeMonth(y, 7) == DaysBeforeMonth(y, 4) + 91;
    assert DaysBeforeMonth(y, 10) == DaysBeforeMonth(y, 7) + 92;
    assert DaysBeforeMonth(y, 13) == DaysBeforeMonth(y, 10) + 92;
  }

  lemma {:induction false} EarlierIsLess(a: Date, b: Date)
    requires CalendarDay(a) && CalendarDay(b) && Earlier(a, b)
    ensures Ordinal(a) < Ordinal(b)
  {
    hide DaysBeforeYear, IsLeap;
    if a.year < b.year {
      YearsAdvance(a.year, b.year);
      MonthsFillYear(a.year);
      MonthsAdvance(a.year, a.month, 13);
      if 1 < b.month { MonthsAdvance(b.year, 1, b.month); }
    } else if a.month < b.month {
      MonthsAdvance(a.year, a.month, b.month);
    }
  }

  /** Day numbers are ordered exactly as dates are. */
  lemma OrdinalFollowsCalendar(a: Date, b: Date)
    requires CalendarDay(a) && CalendarDay(b)
    ensures Earlier(a, b) <==> Ordinal(a) < Ordinal(b)
    ensures a == b <==> Ordinal(a) == Ordinal(b)
  {
    if Earlier(a, b) {
      EarlierIsLess(a, b);
    } else if Earlier(b, a) {
      EarlierIsLess(b, a);
    }
  }

  // ----- the count counts days -----

  /** Turning the page of the calendar. */
  function NextDay(d: Date): Date {
    if d.day < DaysInMonth(d.year, d.month) then Date(d.year, d.month, d.day + 1)
    else if d.month < 12 then Date(d.year, d.month + 1, 1)
    else Date(d.year + 1, 1, 1)
  }

  function DaysLater(d: Date, n: nat): Date {
    if n == 0 then d else NextDay(DaysLater(d, n - 1))
  }

  /** Each day's number is one more than that of the day before. */
  lemma OrdinalCountsDays(d: Date)
    requires CalendarDay(d)
    ensures CalendarDay(NextDay(d)) && Ordinal(NextDay(d)) == Ordinal(d) + 1
  {
    hide DaysBeforeYear, DaysInMonth, DaysBeforeMonth, YearLength;
    MonthOpens(d.year, d.month);
    if d.day == DaysInMonth(d.year, d.month) {
      if d.month == 12 {
        NextYear(d.year);
        MonthsFillYear(d.year);
        MonthOpens(d.year + 1, 1);
      } else {
        MonthOpens(d.year, d.month + 1);
      }
    }
  }

  lemma MonthOpens(y: nat, m: nat)
    requires 1 <= m
    ensures 1 <= DaysInMonth(y, m) && DaysBeforeMonth(y, m + 1) == DaysBeforeMonth(y, m) + DaysInMonth(y, m)
    ensures DaysBeforeMonth(y, 1) == 0
  {
  }

  lemma {:induction false} OrdinalAfter(d: Date, n: nat)
    requires CalendarDay(d)
    ensures CalendarDay(DaysLater(d, n)) && Ordinal(DaysLater(d, n)) == Ordinal(d) + n
  {
    hide Ordinal, CalendarDay, NextDay;
    if n > 0 {
      OrdinalAfter(d, n - 1);
      OrdinalCountsDays(DaysLater(d, n - 1));
    }
  }

  /** The difference of two day numbers is the number of days from one date to the other. */
  lemma DifferenceCountsDays(a: Date, b: Date, n: nat)
    requires CalendarDay(a) && CalendarDay(b)
    ensures Ordinal(b) - Ordinal(a) == n <==> b == DaysLater(a, n)
    ensures Ordinal(b) - Ordinal(a) >= n <==> !Earlier(b, DaysLater(a, n))
  {
    hide Ordinal, CalendarDay, DaysLater, Earlier;
    OrdinalAfter(a, n);
    OrdinalFollowsCalendar(b, DaysLater(a, n));
  }

  lemma FirstDayIsOne()
    ensures Ordinal(Date(1, 1, 1)) == 1
  {
  }

  /** A day's number is its place in the calendar, whose first day is number 1. */
  lemma OrdinalIsPlace(d: Date)
    requires CalendarDay(d)
    ensures Ordinal(d) >= 1 && d == DaysLater(Date(1, 1, 1), Ordinal(d) - 1)
  {
    hide Ordinal, DaysLater;
    FirstDayIsOne();
    OrdinalFollowsCalendar(d, Date(1, 1, 1));
    DifferenceCountsDays(Date(1, 1, 1), d, Ordinal(d) - 1);
  }

  // ----- ISO text -----

  predicate IsoShape(s: string) {
    && |s| == 10 && s[4] == '-' && s[7] == '-'
    && IsDigit(s[0]) && IsDigit(s[1]) && IsDigit(s[2]) && IsDigit(s[3])
    && IsDigit(s[5]) && IsDigit(s[6]) && IsDigit(s[8]) && IsDigit(s[9])
  }

  function DateOf(s: string): Date
    requires IsoShape(s)
  {
    Date(1000 * DigitValue(s[0]) + 100 * DigitValue(s[1]) + 10 * DigitValue(s[2]) + DigitValue(s[3]),
         10 * DigitValue(s[5]) + DigitValue(s[6]), 10 * DigitValue(s[8]) + DigitValue(s[9]))
  }

  /** The day number of a `YYYY-MM-DD` text, if it names a real day. */
  function FromIso(s: string): Option<int> {
    if IsoShape(s) && ValidDate(DateOf(s)) then Some(Ordinal(DateOf(s))) else None
  }

  /** The last `width` decimal digits of a number. */
  function Padded(n: nat, width: nat): (s: string)
    ensures |s| == width && AllDigits(s)
    decreases width
  {
    if width == 0 then [] else Padded(n / 10, width - 1) + [DigitChar(n % 10)]
  }

  /** A date as `isoformat` writes it. */
  function IsoText(d: Date): string {
    Padded(d.year, 4) + ['-'] + Padded(d.month, 2) + ['-'] + Padded(d.day, 2)
  }

  lemma TwoDigits(n: nat)
    requires n < 100
    ensures var s := Padded(n, 2); 10 * DigitValue(s[0]) + DigitValue(s[1]) == n
  {
    assert Padded(n, 2) == Padded(n / 10, 1) + [DigitChar(n % 10)];
    assert Padded(n / 10, 1) == Padded(n / 10 / 10, 0) + [DigitChar(n / 10 % 10)];
  }

  lemma FourDigits(n: nat)
    requires n < 10000
    ensures var s := Padded(n, 4);
            1000 * DigitValue(s[0]) + 100 * DigitValue(s[1]) + 10 * DigitValue(s[2]) + DigitValue(s[3]) == n
  {
    var high := n / 100;
    assert Padded(n, 4) == Padded(n / 10, 3) + [DigitChar(n % 10)];
    assert Padded(n / 10, 3) == Padded(n / 10 / 10, 2) + [DigitChar(n / 10 % 10)];
    assert n / 10 / 10 == high;
    TwoDigits(high);
  }

  /** Exactly the texts `isoformat` writes name days, each the day it is written for. */
  lemma FromIsoExactly(s: string, n: int)
    ensures FromIso(s) == Some(n) <==> exists d :: CalendarDay(d) && d.year <= 9999 && s == IsoText(d) && Ordinal(d) == n
  {
    hide Ordinal, Padded;
    forall d | ValidDate(d)
      ensures IsoShape(IsoText(d)) && DateOf(IsoText(d)) == d
    {
      IsoTextReads(d);
    }
    if FromIso(s).Some? {
      SameDateSameText(s, IsoText(DateOf(s)));
    }
  }

  lemma IsoTextReads(d: Date)
    requires d.year < 10000 && d.month < 100 && d.day < 100
    ensures IsoShape(IsoText(d)) && DateOf(IsoText(d)) == d
  {
    hide Padded;
    var y, m, day := Padded(d.year, 4), Padded(d.month, 2), Padded(d.day, 2);
    var s := IsoText(d);
    FourDigits(d.year);
    TwoDigits(d.month);
    TwoDigits(d.day);
    assert s[0] == y[0] && s[1] == y[1] && s[2] == y[2] && s[3] == y[3] && s[4] == '-';
    assert s[5] == m[0] && s[6] == m[1] && s[7] == '-' && s[8] == day[0] && s[9] == day[1];
    assert forall c :: c in y || c in m || c in day ==> IsDigit(c);
  }

  lemma SameDateSameText(s: string, t: string)
    requires IsoShape(s) && IsoShape(t) && DateOf(s) == DateOf(t)
    ensures s == t
  {
    IsoOrder(s, t);
    IsoOrder(t, s);
    LexTotal(s, t);
  }

  function Prefix(s: string, n: nat): string {
    if |s| <= n then s else s[..n]
  }

  /** `s <= t` for strings. */
  predicate AtMost(s: string, t: string) {
    s == t || LexLess(s, t)
  }

  lemma {:induction false} FirstDifference(s: string, t: string) returns (i: nat)
    requires |s| == |t|
    ensures i <= |s| && s[..i] == t[..i]
    ensures i == |s| ==> s == t
    ensures i < |s| ==> s[i] != t[i] && (LexLess(s, t) <==> s[i] < t[i])
  {
    if s == [] || s[0] != t[0] {
      i := 0;
    } else {
      var j := FirstDifference(s[1..], t[1..]);
      i := j + 1;
      assert s == [s[0]] + s[1..] && t == [t[0]] + t[1..];
      assert s[..i] == [s[0]] + s[1..][..j] && t[..i] == [t[0]] + t[1..][..j];
    }
  }

  lemma DigitOrder(a: char, b: char)
    requires IsDigit(a) && IsDigit(b)
    ensures a < b <==> DigitValue(a) < DigitValue(b)
    ensures a == b <==> DigitValue(a) == DigitValue(b)
  {
  }

  /** ISO dates sort as text the way they sort as days. */
  lemma IsoOrder(s: string, t: string)
    requires IsoShape(s) && IsoShape(t)
    ensures LexLess(s, t) <==> Earlier(DateOf(s), DateOf(t))
  {
    hide LexLess;
    var i := FirstDifference(s, t);
    forall k | 0 <= k < i
      ensures s[k] == t[k]
    {
      assert s[..i][k] == t[..i][k];
    }
    if i < |s| {
      assert i != 4 && i != 7;
      DigitOrder(s[i], t[i]);
    } else {
      LexTotal(s, s);
    }
  }

  /** Two texts that name days name the same day exactly when they are the same text. */
  lemma SameDaySameText(s: string, t: string)
    requires FromIso(s).Some? && FromIso(t).Some?
    ensures FromIso(s) == FromIso(t) <==> s == t
    ensures FromIso(s).value < FromIso(t).value <==> LexLess(s, t)
  {
    hide Ordinal, LexLess, IsoShape, DateOf;
    OrdinalFollowsCalendar(DateOf(s), DateOf(t));
    OrdinalFollowsCalendar(DateOf(t), DateOf(s));
    IsoOrder(s, t);
    IsoOrder(t, s);
    LexTotal(s, t);
  }

  lemma {:induction false} PrefixAtMost(s: string, t: string, n: nat)
    requires AtMost(s, t)
    ensures AtMost(Prefix(s, n), Prefix(t, n))
    decreases n
  {
    if s != t && n > 0 && s != [] && s[0] == t[0] {
      PrefixAtMost(s[1..], t[1..], n - 1);
      var p, q := Prefix(s, n), Prefix(t, n);
      assert p[0] == s[0] && q[0] == t[0];
      assert p[1..] == Prefix(s[1..], n - 1) && q[1..] == Prefix(t[1..], n - 1);
      assert p == [p[0]] + p[1..] && q == [q[0]] + q[1..];
    }
  }

  /** A later clock reading never has an earlier day number. */
  lemma LaterReadingLaterDay(s: string, t: string)
    requires AtMost(s, t) && FromIso(Prefix(s, 10)).Some? && FromIso(Prefix(t, 10)).Some?
    ensures FromIso(Prefix(s, 10)).value <= FromIso(Prefix(t, 10)).value
  {
    hide Ordinal, LexLess;
    var p, q := Prefix(s, 10), Prefix(t, 10);
    PrefixAtMost(s, t, 10);
    IsoOrder(p, q);
    OrdinalFollowsCalendar(DateOf(p), DateOf(q));
  }
}
