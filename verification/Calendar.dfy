/**
 UTC dates and instants: `datetime` values with `tzinfo=UTC`, their order, their ISO 8601 text, and the
 calendar-day windows of the digest job (backend/app/services/audit_hash_service.py).
 */
module Calendar {
  import opened Text
  import Lex

  datatype Date = Date(year: int, month: int, day: int)

  predicate IsLeap(year: int) {
    year % 4 == 0 && (year % 100 != 0 || year % 400 == 0)
  }

  function DaysInMonth(year: int, month: int): int {
    if month == 2 then if IsLeap(year) then 29 else 28
    else if month == 4 || month == 6 || month == 9 || month == 11 then 30
    else 31
  }

  predicate ValidDate(d: Date) {
    1 <= d.year <= 9999 && 1 <= d.month <= 12 && 1 <= d.day <= DaysInMonth(d.year, d.month)
  }

  type Day = d: Date | ValidDate(d) witness Date(1970, 1, 1)

  const FIRST_DAY: Day := Date(1, 1, 1)
  const LAST_DAY: Day := Date(9999, 12, 31)

  /** `d + timedelta(days=1)`, which overflows on the last day of year 9999. */
  function NextDay(d: Day): Day
    requires d != LAST_DAY
  {
    if d.day < DaysInMonth(d.year, d.month) then Date(d.year, d.month, d.day + 1)
    else if d.month < 12 then Date(d.year, d.month + 1, 1)
    else Date(d.year + 1, 1, 1)
  }

  /** `d - timedelta(days=1)`, which overflows on the first day of year 1. */
  function PreviousDay(d: Day): Day
    requires d != FIRST_DAY
  {
    if d.day > 1 then Date(d.year, d.month, d.day - 1)
    else if d.month > 1 then Date(d.year, d.month - 1, DaysInMonth(d.year, d.month - 1))
    else Date(d.year - 1, 12, 31)
  }

  /** January to December. */
  lemma MonthLengths(year: int, month: int)
    requires 1 <= month <= 12
    ensures DaysInMonth(year, month) ==
            if month == 2 && year % 4 == 0 && (year % 400 == 0 || year % 100 != 0) then 29
            else [31, 28, 31, 30, 31, 30, 31, 31, 30, 31, 30, 31][month - 1]
  {}

  lemma PreviousOfNext(d: Day)
    requires d != LAST_DAY
    ensures NextDay(d) != FIRST_DAY && PreviousDay(NextDay(d)) == d
  {}

  lemma NextOfPrevious(d: Day)
    requires d != FIRST_DAY
    ensures PreviousDay(d) != LAST_DAY && NextDay(PreviousDay(d)) == d
  {}

  datatype Instant = Instant(date: Day, hour: int, minute: int, second: int, micro: int)

  predicate ValidInstant(t: Instant) {
    0 <= t.hour < 24 && 0 <= t.minute < 60 && 0 <= t.second < 60 && 0 <= t.micro < 1_000_000
  }

  type Utc = t: Instant | ValidInstant(t) witness Instant(Date(1970, 1, 1), 0, 0, 0, 0)

  function InstantKey(t: Utc): (k: seq<int>)
    ensures |k| == 7
  {
    [t.date.year, t.date.month, t.date.day, t.hour, t.minute, t.second, t.micro]
  }

  predicate Before(t: Utc, u: Utc) {
    Lex.Less(InstantKey(t), InstantKey(u))
  }

  lemma InstantKeyInjective(t: Utc, u: Utc)
    requires InstantKey(t) == InstantKey(u)
    ensures t == u
  {
    var a, b := InstantKey(t), InstantKey(u);
    assert a[0] == b[0] && a[1] == b[1] && a[2] == b[2] && a[3] == b[3] && a[4] == b[4] && a[5] == b[5] && a[6] == b[6];
  }

  /* ---------- Day windows ---------- */

  /** `datetime.combine(day, time.min, tzinfo=UTC)` */
  function StartOf(d: Day): Utc {
    Instant(d, 0, 0, 0, 0)
  }

  /** `_day_window`: from the start of the day, inclusive, to the start of the next, exclusive. */
  predicate InDayWindow(t: Utc, d: Day)
    requires d != LAST_DAY
  {
    !Before(t, StartOf(d)) && Before(t, StartOf(NextDay(d)))
  }

  lemma SplitKey(t: Utc)
    ensures InstantKey(t) == DateKey(t.date) + [t.hour, t.minute, t.second, t.micro]
  {}

  function DateKey(d: Day): (k: seq<int>)
    ensures |k| == 3
  {
    [d.year, d.month, d.day]
  }

  lemma DateKeyOrder(d: Day, e: Day)
    ensures Lex.Less(DateKey(d), DateKey(e)) <==>
            d.year < e.year || (d.year == e.year && (d.month < e.month || (d.month == e.month && d.day < e.day)))
  {
    var a, b := DateKey(d), DateKey(e);
    assert a[1..] == [d.month, d.day] && b[1..] == [e.month, e.day];
    assert a[1..][1..] == [d.day] && b[1..][1..] == [e.day];
    assert Lex.Less([d.day], [e.day]) == (d.day < e.day);
    assert Lex.Less([d.month, d.day], [e.month, e.day]) == (d.month < e.month || (d.month == e.month && d.day < e.day));
  }

  /** There is no day between a day and the next. */
  lemma NextDayIsNext(d: Day, e: Day)
    requires d != LAST_DAY
    ensures Lex.Less(DateKey(d), DateKey(NextDay(d)))
    ensures Lex.Less(DateKey(d), DateKey(e)) ==> e == NextDay(d) || Lex.Less(DateKey(NextDay(d)), DateKey(e))
  {
    DateKeyOrder(d, NextDay(d));
    DateKeyOrder(d, e);
    DateKeyOrder(NextDay(d), e);
  }

  /** Microseconds since midnight. */
  function TimeOfDay(t: Utc): int {
    ((t.hour * 60 + t.minute) * 60 + t.second) * 1_000_000 + t.micro
  }

  lemma ClockOrder(a: int, b: int, c: int, d: int, e: int, f: int, g: int, h: int)
    ensures Lex.Less([a, b, c, d], [e, f, g, h]) <==>
            a < e || (a == e && (b < f || (b == f && (c < g || (c == g && d < h)))))
  {
    assert [a, b, c, d][1..] == [b, c, d] && [e, f, g, h][1..] == [f, g, h];
    assert [b, c, d][1..] == [c, d] && [f, g, h][1..] == [g, h];
    PairOrder(c, d, g, h);
  }

  /** Instants are ordered by date and then by the time of day. */
  lemma TimeOrder(t: Utc, u: Utc)
    ensures Before(t, u) <==> || Lex.Less(DateKey(t.date), DateKey(u.date))
                              || (t.date == u.date && TimeOfDay(t) < TimeOfDay(u))
  {
    SplitKey(t);
    SplitKey(u);
    Lex.EqualLengthPrefix(DateKey(t.date), DateKey(u.date), [t.hour, t.minute, t.second, t.micro],
                          [u.hour, u.minute, u.second, u.micro]);
    ClockOrder(t.hour, t.minute, t.second, t.micro, u.hour, u.minute, u.second, u.micro);
    if DateKey(t.date) == DateKey(u.date) {
      assert DateKey(t.date)[0] == DateKey(u.date)[0] && DateKey(t.date)[1] == DateKey(u.date)[1];
      assert DateKey(t.date)[2] == DateKey(u.date)[2];
    }
  }

  lemma {:induction false} NonNegativeNotBelowZeros(a: seq<int>, z: seq<int>)
    requires |a| == |z|
    requires forall i :: 0 <= i < |a| ==> a[i] >= 0 && z[i] == 0
    ensures !Lex.Less(a, z)
  {
    if a != [] {
      NonNegativeNotBelowZeros(a[1..], z[1..]);
    }
  }

  /** An instant precedes midnight of a day exactly when its date does. */
  lemma BeforeMidnight(t: Utc, d: Day)
    ensures Before(t, StartOf(d)) <==> Lex.Less(DateKey(t.date), DateKey(d))
  {
    var clock, zeros := [t.hour, t.minute, t.second, t.micro], [0, 0, 0, 0];
    SplitKey(t);
    SplitKey(StartOf(d));
    Lex.EqualLengthPrefix(DateKey(t.date), DateKey(d), clock, zeros);
    NonNegativeNotBelowZeros(clock, zeros);
  }

  /** The windows tile the time line: an instant lies in the window of its own date and in no other. */
  lemma WindowsTile(t: Utc, d: Day)
    requires d != LAST_DAY
    ensures InDayWindow(t, d) <==> t.date == d
  {
    BeforeMidnight(t, d);
    BeforeMidnight(t, NextDay(d));
    DateKeyOrder(t.date, d);
    DateKeyOrder(t.date, NextDay(d));
  }

  /* ---------- ISO 8601 text ---------- */

  /** `isoformat()` with `+00:00` written as `Z`; microseconds are left out when zero. */
  function Iso(t: Utc): string {
    Padded(t.date.year, 4) + "-" + Padded(t.date.month, 2) + "-" + Padded(t.date.day, 2) + "T" +
    Padded(t.hour, 2) + ":" + Padded(t.minute, 2) + ":" + Padded(t.second, 2) +
    (if t.micro == 0 then "" else "." + Padded(t.micro, 6)) + "Z"
  }

  lemma IsoFields(t: Utc)
    ensures |Iso(t)| == if t.micro == 0 then 20 else 27
    ensures Iso(t)[0..4] == Padded(t.date.year, 4) && Iso(t)[5..7] == Padded(t.date.month, 2)
    ensures Iso(t)[8..10] == Padded(t.date.day, 2) && Iso(t)[11..13] == Padded(t.hour, 2)
    ensures Iso(t)[14..16] == Padded(t.minute, 2) && Iso(t)[17..19] == Padded(t.second, 2)
    ensures t.micro != 0 ==> Iso(t)[20..26] == Padded(t.micro, 6)
  {}

  lemma PowersOfTen()
    ensures Pow10(2) == 100 && Pow10(4) == 10_000 && Pow10(6) == 1_000_000
  {
    assert Pow10(1) == 10;
    assert Pow10(3) == 1000;
    assert Pow10(5) == 100_000;
  }

  lemma IsoMarks(t: Utc)
    ensures var s := Iso(t);
            && s[4] == s[7] == '-' && s[10] == 'T' && s[13] == s[16] == ':' && s[|s| - 1] == 'Z'
            && (t.micro != 0 ==> s[19] == '.')
  {
    IsoFields(t);
  }

  lemma PaddedIs(s: string, n: nat, width: nat)
    requires s == Padded(n, width) && n < Pow10(width)
    ensures NatIs(s, n)
  {
    PaddedValue(n, width);
  }

  /** `2026-05-21T03:04:05Z`: the fields stand in order, zero-padded; microseconds follow the seconds. */
  lemma IsoNumbers(t: Utc)
    ensures var s := Iso(t);
            && |s| == (if t.micro == 0 then 20 else 27)
            && NatIs(s[0..4], t.date.year) && NatIs(s[5..7], t.date.month) && NatIs(s[8..10], t.date.day)
            && NatIs(s[11..13], t.hour) && NatIs(s[14..16], t.minute) && NatIs(s[17..19], t.second)
            && (t.micro != 0 ==> NatIs(s[20..26], t.micro))
  {
    var s := Iso(t);
    IsoFields(t);
    PowersOfTen();
    PaddedIs(s[0..4], t.date.year, 4);
    PaddedIs(s[5..7], t.date.month, 2);
    PaddedIs(s[8..10], t.date.day, 2);
    PaddedIs(s[11..13], t.hour, 2);
    PaddedIs(s[14..16], t.minute, 2);
    PaddedIs(s[17..19], t.second, 2);
    if t.micro != 0 {
      PaddedIs(s[20..26], t.micro, 6);
    }
  }

  ghost predicate NatIs(s: string, n: int) {
    AllDigits(s) && NatValue(s) == n
  }

  /** Distinct instants have distinct texts. */
  lemma IsoInjective(t: Utc, u: Utc)
    requires Iso(t) == Iso(u)
    ensures t == u
  {
    IsoFields(t);
    IsoFields(u);
    PowersOfTen();
    PaddedInjective(t.date.year, u.date.year, 4);
    PaddedInjective(t.date.month, u.date.month, 2);
    PaddedInjective(t.date.day, u.date.day, 2);
    PaddedInjective(t.hour, u.hour, 2);
    PaddedInjective(t.minute, u.minute, 2);
    PaddedInjective(t.second, u.second, 2);
    if t.micro != 0 && u.micro != 0 {
      PaddedInjective(t.micro, u.micro, 6);
    }
  }
}
