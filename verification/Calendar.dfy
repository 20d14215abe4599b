/** Calendar days: the hand-written previous-day step of the running-server transport against the
    library's day numbers used by the local backend and the context handler. */
module Calendar {
  import opened Wrappers
  import opened Orders
  import opened Text

  datatype Date = Date(year: nat, month: nat, day: nat)

  /** Leap years by the rule of Appendix C of RFC 3339. */
  predicate Leap(year: nat) {
    year % 4 == 0 && (year % 100 != 0 || year % 400 == 0)
  }

  function MonthLength(year: nat, month: nat): nat {
    if month == 2 then (if Leap(year) then 29 else 28)
    else if month == 4 || month == 6 || month == 9 || month == 11 then 30
    else 31
  }

  function YearLength(year: nat): nat {
    if Leap(year) then 366 else 365
  }

  predicate WellFormed(d: Date) {
    1 <= d.month <= 12 && 1 <= d.day <= MonthLength(d.year, d.month)
  }

  /** The dates the library type can hold. */
  predicate Valid(d: Date) {
    WellFormed(d) && 1 <= d.year <= 9999
  }

  function DaysBeforeYear(year: nat): nat {
    if year == 0 then 0 else DaysBeforeYear(year - 1) + YearLength(year - 1)
  }

  function DaysBeforeMonth(year: nat, month: nat): nat {
    if month <= 1 then 0 else DaysBeforeMonth(year, month - 1) + MonthLength(year, month - 1)
  }

  /** The proleptic Gregorian day number (`toordinal`): 0001-01-01 is day 1. */
  function Ordinal(d: Date): int {
    DaysBeforeYear(d.year) + DaysBeforeMonth(d.year, d.month) + d.day - 366
  }

  lemma {:induction false} MonthsFillYear(year: nat)
    ensures DaysBeforeMonth(year, 13) == YearLength(year)
    ensures DaysBeforeMonth(year, 12) == YearLength(year) - 31
  {
    assert DaysBeforeMonth(year, 2) == 31;
    assert DaysBeforeMonth(year, 3) == 31 + MonthLength(year, 2);
    assert DaysBeforeMonth(year, 6) == DaysBeforeMonth(year, 3) + 31 + 30 + 31 by {
      assert DaysBeforeMonth(year, 5) == DaysBeforeMonth(year, 4) + 30;
    }
    assert DaysBeforeMonth(year, 9) == DaysBeforeMonth(year, 6) + 30 + 31 + 31 by {
      assert DaysBeforeMonth(year, 8) == DaysBeforeMonth(year, 7) + 31;
    }
    assert DaysBeforeMonth(year, 12) == DaysBeforeMonth(year, 9) + 30 + 31 + 30 by {
      assert DaysBeforeMonth(year, 11) == DaysBeforeMonth(year, 10) + 31;
    }
  }

  lemma {:induction false} QuotientSteps(y: nat)
    requires y >= 1
    ensures y / 4 == (y - 1) / 4 + if y % 4 == 0 then 1 else 0
    ensures y / 100 == (y - 1) / 100 + if y % 100 == 0 then 1 else 0
    ensures y / 400 == (y - 1) / 400 + if y % 400 == 0 then 1 else 0
  {
  }

  lemma {:induction false} MultiplesNest(y: nat)
    ensures y % 100 == 0 ==> y % 4 == 0
    ensures y % 400 == 0 ==> y % 100 == 0
  {
    if y % 100 == 0 {
      assert y == 4 * (25 * (y / 100));
    }
    if y % 400 == 0 {
      assert y == 100 * (4 * (y / 400));
    }
  }

  /** Leap days before a year, counted by the three quotients. */
  lemma {:induction false} LeapStep(y: nat)
    requires y >= 1
    ensures y / 4 - y / 100 + y / 400 ==
            (y - 1) / 4 - (y - 1) / 100 + (y - 1) / 400 + YearLength(y) - 365
  {
    QuotientSteps(y);
    MultiplesNest(y);
  }

  lemma {:induction false} DaysBeforeYearOne()
    ensures DaysBeforeYear(1) == 366
  {
    assert DaysBeforeYear(1) == DaysBeforeYear(0) + YearLength(0);
  }

  /** The library's closed form gives the same numbers as adding up year lengths. */
  lemma {:induction false} DaysBeforeYearClosed(year: nat)
    requires year >= 1
    ensures DaysBeforeYear(year) == 366 + (year - 1) * 365 + (year - 1) / 4 - (year - 1) / 100 + (year - 1) / 400
  {
    if year > 1 {
      DaysBeforeYearClosed(year - 1);
      LeapStep(year - 1);
    } else {
      DaysBeforeYearOne();
    }
  }

  // ---- the transport's previous day ----

  const MONTHS: seq<nat> := [31, 28, 31, 30, 31, 30, 31, 31, 30, 31, 30, 31]

  lemma {:induction false} MonthTable(month: nat)
    requires 1 <= month <= 12
    ensures |MONTHS| == 12
    ensures MONTHS[month - 1] == if month == 2 then 28 else if month in {4, 6, 9, 11} then 30 else 31
  {
  }

  predicate LeapByTransport(year: nat) {
    year % 400 == 0 || (year % 4 == 0 && year % 100 != 0)
  }

  lemma {:induction false} LeapTestsAgree(year: nat)
    ensures LeapByTransport(year) <==> Leap(year)
  {
    MultiplesNest(year);
  }

  /** The transport's own month table and leap test. */
  function PreviousDay(d: Date): Date
    requires WellFormed(d) && (d.year == 0 ==> d.month > 1 || d.day > 1)
  {
    if d.day > 1 then Date(d.year, d.month, d.day - 1)
    else if d.month == 1 then Date(d.year - 1, 12, 31)
    else
      var previous := d.month - 1;
      var length := MONTHS[previous - 1];
      if previous == 2 && LeapByTransport(d.year) then
        Date(d.year, previous, 29)
      else Date(d.year, previous, length)
  }

  lemma {:induction false} MonthBefore(d: Date)
    requires WellFormed(d) && d.day == 1 && d.month > 1
    ensures PreviousDay(d) == Date(d.year, d.month - 1, MonthLength(d.year, d.month - 1))
  {
    MonthTable(d.month - 1);
    LeapTestsAgree(d.year);
    assert MonthLength(d.year, d.month - 1) == if d.month == 3 && Leap(d.year) then 29 else MONTHS[d.month - 2];
  }

  lemma {:induction false} LastOfMonth(year: nat, month: nat)
    requires 1 < month <= 12
    ensures WellFormed(Date(year, month - 1, MonthLength(year, month - 1)))
    ensures Ordinal(Date(year, month - 1, MonthLength(year, month - 1))) == Ordinal(Date(year, month, 1)) - 1
  {
    assert DaysBeforeMonth(year, month) == DaysBeforeMonth(year, month - 1) + MonthLength(year, month - 1);
  }

  lemma {:induction false} LastOfYear(year: nat)
    requires year > 0
    ensures Ordinal(Date(year - 1, 12, 31)) == Ordinal(Date(year, 1, 1)) - 1
  {
    MonthsFillYear(year - 1);
    assert DaysBeforeMonth(year, 1) == 0;
    assert DaysBeforeYear(year) == DaysBeforeYear(year - 1) + YearLength(year - 1);
  }

  lemma {:induction false} PreviousDayStep(d: Date)
    requires WellFormed(d) && (d.year == 0 ==> d.month > 1 || d.day > 1)
    ensures WellFormed(PreviousDay(d)) && Ordinal(PreviousDay(d)) == Ordinal(d) - 1
    ensures Valid(d) ==> (Valid(PreviousDay(d)) <==> d != Date(1, 1, 1))
  {
    if d.day == 1 && d.month == 1 {
      LastOfYear(d.year);
    } else if d.day == 1 {
      MonthBefore(d);
      LastOfMonth(d.year, d.month);
    }
  }

  // ---- day numbers order dates ----

  lemma {:induction false} MonthsGrow(year: nat, m: nat, n: nat)
    requires 1 <= m < n <= 13
    ensures DaysBeforeMonth(year, m) + MonthLength(year, m) <= DaysBeforeMonth(year, n)
    decreases n
  {
    if m + 1 < n {
      MonthsGrow(year, m, n - 1);
    }
  }

  lemma {:induction false} YearsGrow(y: nat, z: nat)
    requires y < z
    ensures DaysBeforeYear(y) + YearLength(y) <= DaysBeforeYear(z)
    decreases z
  {
    if y + 1 < z {
      YearsGrow(y, z - 1);
    }
  }

  predicate Earlier(a: Date, b: Date) {
    a.year < b.year || (a.year == b.year && (a.month < b.month || (a.month == b.month && a.day < b.day)))
  }

  lemma {:induction false} EarlierIsSmaller(a: Date, b: Date)
    requires WellFormed(a) && WellFormed(b) && Earlier(a, b)
    ensures Ordinal(a) < Ordinal(b)
  {
    if a.year < b.year {
      YearsGrow(a.year, b.year);
      MonthsFillYear(a.year);
      MonthsGrow(a.year, a.month, 13);
    } else if a.month < b.month {
      MonthsGrow(a.year, a.month, b.month);
    }
  }

  lemma {:induction false} OrdinalOrder(a: Date, b: Date)
    requires WellFormed(a) && WellFormed(b)
    ensures Earlier(a, b) <==> Ordinal(a) < Ordinal(b)
    ensures a == b <==> Ordinal(a) == Ordinal(b)
  {
    if Earlier(a, b) {
      EarlierIsSmaller(a, b);
    } else if a != b {
      EarlierIsSmaller(b, a);
    }
  }

  // ---- dates as text ----

  /** `isoformat`, and the transport's `"{:04d}-{:02d}-{:02d}"`. */
  function Format(d: Date): string {
    Padded(d.year, 4) + "-" + Padded(d.month, 2) + "-" + Padded(d.day, 2)
  }

  lemma {:induction false} FormatParts(d: Date)
    requires WellFormed(d) && d.year <= 9999
    ensures |Padded(d.year, 4)| == 4 && |Padded(d.month, 2)| == 2 && |Padded(d.day, 2)| == 2
  {
    DecimalLength(d.year, 4);
    DecimalLength(d.month, 2);
    DecimalLength(d.day, 2);
  }

  lemma {:induction false} DashedOrder(a: string, b: string, c: string, x: string, y: string, z: string)
    requires |a| == |x| && |b| == |y| && |c| == |z|
    ensures TextLess(a + "-" + b + "-" + c, x + "-" + y + "-" + z) <==>
            TextLess(a, x) || (a == x && (TextLess(b, y) || (b == y && TextLess(c, z))))
    ensures a + "-" + b + "-" + c == x + "-" + y + "-" + z ==> a == x && b == y && c == z
  {
    var (s, t) := (a + "-" + b + "-" + c, x + "-" + y + "-" + z);
    assert s == a + ("-" + (b + ("-" + c))) && t == x + ("-" + (y + ("-" + z)));
    LexConcat(CharLess, a, x, "-" + (b + ("-" + c)), "-" + (y + ("-" + z)));
    LexConcat(CharLess, "-", "-", b + ("-" + c), y + ("-" + z));
    LexConcat(CharLess, b, y, "-" + c, "-" + z);
    LexConcat(CharLess, "-", "-", c, z);
    if s == t {
      assert s[..|a|] == a && t[..|a|] == x;
      assert s[|a| + 1..][..|b|] == b && t[|a| + 1..][..|b|] == y;
      assert s[|a| + |b| + 2..] == c && t[|a| + |b| + 2..] == z;
    }
  }

  /** Zero-padded dates compare as text in calendar order. */
  lemma {:induction false} FormatOrder(a: Date, b: Date)
    requires WellFormed(a) && WellFormed(b) && a.year <= 9999 && b.year <= 9999
    ensures TextLess(Format(a), Format(b)) <==> Ordinal(a) < Ordinal(b)
    ensures Format(a) == Format(b) ==> a == b
  {
    FormatParts(a);
    FormatParts(b);
    PaddedOrder(a.year, b.year, 4);
    PaddedOrder(a.month, b.month, 2);
    PaddedOrder(a.day, b.day, 2);
    DashedOrder(Padded(a.year, 4), Padded(a.month, 2), Padded(a.day, 2),
                Padded(b.year, 4), Padded(b.month, 2), Padded(b.day, 2));
    OrdinalOrder(a, b);
  }

  // ---- the window ----

  /** This is the library date with that day number; there is at most one (`OrdinalOrder`). */
  ghost predicate HasNumber(d: Date, n: int) {
    Valid(d) && Ordinal(d) == n
  }

  /** The library's `fromordinal` returns instead of raising. */
  ghost predicate HasOrdinal(n: int) {
    exists d :: HasNumber(d, n)
  }

  lemma {:induction false} AfterNewYear(d: Date, year: nat)
    requires WellFormed(d)
    ensures Ordinal(d) >= DaysBeforeYear(year) - 365 <==> d.year >= year
  {
    var newYear := Date(year, 1, 1);
    assert DaysBeforeMonth(year, 1) == 0;
    OrdinalOrder(d, newYear);
  }

  lemma {:induction false} AfterYearZero(d: Date)
    requires WellFormed(d)
    ensures Ordinal(d) >= 1 <==> d.year >= 1
    ensures Ordinal(d) >= -364 ==> d.year > 0 || d.month > 1 || d.day > 1
  {
    DaysBeforeYearOne();
    AfterNewYear(d, 1);
    if d.year == 0 && d.month == 1 {
      assert DaysBeforeMonth(0, 1) == 0;
    }
  }

  /** `k` steps of the previous-day rule. */
  function DaysBack(today: Date, k: nat): (d: Date)
    requires WellFormed(today) && today.year >= 1 && k <= 31
    ensures WellFormed(d) && Ordinal(d) == Ordinal(today) - k
    ensures d != Date(0, 1, 1) && d.year <= today.year
  {
    AfterYearZero(today);
    if k == 0 then today
    else
      var before := DaysBack(today, k - 1);
      PreviousDayStep(before);
      AfterYearZero(PreviousDay(before));
      PreviousDay(before)
  }

  function Reviewed(today: Date): (dates: seq<string>)
    requires Valid(today)
    ensures |dates| == 31
  {
    seq(31, k requires 0 <= k < 31 => Format(DaysBack(today, k)))
  }

  ghost predicate BackFrom(today: Date, k: nat, d: Date)
    requires Valid(today) && k <= 31
  {
    d == DaysBack(today, k) && WellFormed(d) && (d.year == 0 ==> d.month > 1 || d.day > 1)
  }

  lemma {:induction false} BackStep(today: Date, k: nat, d: Date)
    requires Valid(today) && k < 31 && BackFrom(today, k, d)
    ensures Reviewed(today)[k] == Format(d)
    ensures BackFrom(today, k + 1, PreviousDay(d))
  {
  }

  /** The 31 dates asked of the running server, newest first. */
  method ReviewDates(today: Date) returns (dates: seq<string>)
    requires Valid(today)
    ensures dates == Reviewed(today)
  {
    dates := [];
    var current := today;
    ghost var expected := Reviewed(today);
    assert BackFrom(today, 0, today);
    var k := 0;
    while k < 31
      invariant 0 <= k <= 31 && dates == expected[..k]
      invariant BackFrom(today, k, current)
    {
      BackStep(today, k, current);
      TakeNext(expected, k);
      dates := dates + [Format(current)];
      current := PreviousDay(current);
      k := k + 1;
    }
  }

  /** The day number of 9999-12-31, the last date. */
  const LAST_ORDINAL: int := 3652059

  lemma {:induction false} LastDay(year: nat)
    requires year == 9999
    ensures Ordinal(Date(year, 12, 31)) == LAST_ORDINAL
  {
    DaysBeforeYearClosed(year);
    MonthsFillYear(year);
  }

  lemma {:induction false} WithinLast(d: Date)
    requires Valid(d)
    ensures 1 <= Ordinal(d) <= LAST_ORDINAL
  {
    var last := Date(9999, 12, 31);
    AfterYearZero(d);
    LastDay(last.year);
    OrdinalOrder(last, d);
  }

  lemma {:induction false} Counted(n: nat)
    requires 1 <= n <= LAST_ORDINAL
    ensures HasOrdinal(n)
    decreases LAST_ORDINAL - n
  {
    if n == LAST_ORDINAL {
      var year: nat := 9999;
      LastDay(year);
      assert HasNumber(Date(year, 12, 31), n);
    } else {
      Counted(n + 1);
      var d :| HasNumber(d, n + 1);
      PreviousDayStep(d);
      AfterYearZero(PreviousDay(d));
      assert HasNumber(PreviousDay(d), n);
    }
  }

  /** `fromordinal` raises exactly outside the day numbers from 1 to that of 9999-12-31. */
  lemma {:induction false} OrdinalRange(n: int)
    ensures HasOrdinal(n) <==> 1 <= n <= LAST_ORDINAL
  {
    if HasOrdinal(n) {
      var d :| HasNumber(d, n);
      WithinLast(d);
    } else if 1 <= n <= LAST_ORDINAL {
      Counted(n);
    }
  }

  /** The text is a date in the library's own spelling. */
  ghost predicate Canonical(text: string, d: Date) {
    Valid(d) && text == Format(d)
  }

  /** The local backend raises unless `fromordinal` can go 30 days back. */
  ghost predicate LocalWindowExists(today: Date) {
    HasOrdinal(Ordinal(today) - 30)
  }

  /** A date in the library's spelling that does not compare outside the two ends. */
  ghost predicate TextBetween(oldest: Date, newest: Date, text: string) {
    && (exists d :: Canonical(text, d))
    && !TextLess(text, Format(oldest)) && !TextLess(Format(newest), text)
  }

  /** The local backend compares canonical date strings with the two ends of its window. */
  ghost predicate LocalAdmits(today: Date, text: string)
    requires Valid(today) && LocalWindowExists(today)
  {
    exists oldest :: HasNumber(oldest, Ordinal(today) - 30) && TextBetween(oldest, today, text)
  }

  /** The handler filters once more, comparing dates instead of text. */
  ghost predicate HandlerKeeps(today: Date, text: string) {
    exists d :: Canonical(text, d) && Ordinal(today) - 30 <= Ordinal(d) <= Ordinal(today)
  }

  lemma {:induction false} TextsInWindow(oldest: Date, d: Date, today: Date)
    requires Valid(oldest) && Valid(d) && Valid(today)
    ensures !TextLess(Format(d), Format(oldest)) && !TextLess(Format(today), Format(d)) <==>
              Ordinal(oldest) <= Ordinal(d) <= Ordinal(today)
  {
    FormatOrder(d, oldest);
    FormatOrder(today, d);
  }

  lemma {:induction false} DateBetween(oldest: Date, newest: Date, d: Date, text: string)
    requires Valid(oldest) && Valid(newest) && Canonical(text, d)
    ensures TextBetween(oldest, newest, text) <==> Ordinal(oldest) <= Ordinal(d) <= Ordinal(newest)
  {
    TextsInWindow(oldest, d, newest);
  }

  lemma {:induction false} BetweenIsHandled(oldest: Date, today: Date, text: string)
    requires Valid(today) && HasNumber(oldest, Ordinal(today) - 30)
    ensures TextBetween(oldest, today, text) <==> HandlerKeeps(today, text)
  {
    if d :| Canonical(text, d) {
      DateBetween(oldest, today, d, text);
      HandlerKeepsDate(today, d, text);
    }
  }

  lemma {:induction false} LocalIsHandler(today: Date, text: string)
    requires Valid(today) && LocalWindowExists(today)
    ensures LocalAdmits(today, text) <==> HandlerKeeps(today, text)
  {
    if LocalAdmits(today, text) {
      var oldest :| HasNumber(oldest, Ordinal(today) - 30) && TextBetween(oldest, today, text);
      BetweenIsHandled(oldest, today, text);
    }
    if HandlerKeeps(today, text) {
      var oldest :| HasNumber(oldest, Ordinal(today) - 30);
      BetweenIsHandled(oldest, today, text);
    }
  }

  lemma {:induction false} HandlerKeepsDate(today: Date, d: Date, text: string)
    requires Valid(today) && Canonical(text, d)
    ensures HandlerKeeps(today, text) <==> Ordinal(today) - 30 <= Ordinal(d) <= Ordinal(today)
  {
    if HandlerKeeps(today, text) {
      var other :| Canonical(text, other) && Ordinal(today) - 30 <= Ordinal(other) <= Ordinal(today);
      FormatOrder(d, other);
    }
  }

  lemma {:induction false} HandledIsReviewed(today: Date, d: Date)
    requires Valid(today) && Valid(d) && Ordinal(today) - 30 <= Ordinal(d) <= Ordinal(today)
    ensures Format(d) in Reviewed(today)
  {
    var k := Ordinal(today) - Ordinal(d);
    OrdinalOrder(DaysBack(today, k), d);
    assert Reviewed(today)[k] == Format(d);
  }

  lemma {:induction false} ReviewedIsHandled(today: Date, k: nat)
    requires Valid(today) && k < 31 && Ordinal(today) >= 31
    ensures HandlerKeeps(today, Reviewed(today)[k])
  {
    var d := DaysBack(today, k);
    AfterYearZero(d);
    assert Canonical(Reviewed(today)[k], d);
  }

  /** The local backend can go 30 days back exactly from 0001-01-31 on. */
  lemma {:induction false} LocalWindowFrom(today: Date)
    requires Valid(today)
    ensures LocalWindowExists(today) <==> Ordinal(today) >= 31
  {
    var oldest := DaysBack(today, 30);
    AfterYearZero(oldest);
    if Ordinal(today) >= 31 {
      assert HasNumber(oldest, Ordinal(today) - 30);
    }
    if LocalWindowExists(today) {
      var d :| HasNumber(d, Ordinal(today) - 30);
      AfterYearZero(d);
    }
  }

  lemma {:induction false} ReviewedIsHandler(today: Date, text: string)
    requires Valid(today) && LocalWindowExists(today)
    ensures text in Reviewed(today) <==> HandlerKeeps(today, text)
  {
    LocalWindowFrom(today);
    if HandlerKeeps(today, text) {
      var d :| Canonical(text, d) && Ordinal(today) - 30 <= Ordinal(d) <= Ordinal(today);
      HandledIsReviewed(today, d);
    }
    if text in Reviewed(today) {
      var k :| 0 <= k < 31 && Reviewed(today)[k] == text;
      ReviewedIsHandled(today, k);
    }
  }

  lemma {:induction false} OldestDoesNotExist(today: Date, d: Date)
    requires Valid(today) && Ordinal(today) < 31
    ensures !Canonical(Reviewed(today)[30], d)
  {
    var oldest := DaysBack(today, 30);
    AfterYearZero(oldest);
    if Canonical(Format(oldest), d) {
      FormatOrder(oldest, d);
      AfterYearZero(d);
    }
  }

  /** From 0001-01-31 on, the dates reviewed over HTTP, the dates the local backend admits and the dates
      the handler keeps are the same; before that the local backend raises and the transport asks for a
      date that does not exist. */
  lemma {:induction false} WindowsAgree(today: Date)
    requires Valid(today)
    ensures LocalWindowExists(today) <==> Ordinal(today) >= 31
    ensures LocalWindowExists(today) ==>
              forall text :: (text in Reviewed(today) <==> LocalAdmits(today, text)) &&
                             (LocalAdmits(today, text) <==> HandlerKeeps(today, text))
    ensures !LocalWindowExists(today) ==> forall d :: !Canonical(Reviewed(today)[30], d)
  {
    LocalWindowFrom(today);
    if LocalWindowExists(today) {
      forall text
        ensures (text in Reviewed(today) <==> LocalAdmits(today, text)) &&
                (LocalAdmits(today, text) <==> HandlerKeeps(today, text))
      {
        LocalIsHandler(today, text);
        ReviewedIsHandler(today, text);
      }
    } else {
      forall d ensures !Canonical(Reviewed(today)[30], d) {
        OldestDoesNotExist(today, d);
      }
    }
  }
}
