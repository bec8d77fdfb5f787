/** Local "HHMM" clock times, calendar dates and the conversion of a local
    time on a reference date to an RFC 3339 UTC timestamp (`format_24_hrs`). */
module TimeFormat {
  import opened Wrappers
  import opened Text
  import opened Errors

  const ParseErrorMessage := "Error parsing time"
  const InvalidTimeMessage := "invalid time components"
  const SecondsPerDay := 86400

  /** A date of the proleptic Gregorian calendar, as chrono's `NaiveDate`. */
  datatype Date = Date(year: int, month: int, day: int)

  predicate IsLeapYear(y: int) {
    y % 4 == 0 && (y % 100 != 0 || y % 400 == 0)
  }

  function DaysInMonth(y: int, m: int): (n: int)
    requires 1 <= m <= 12
    ensures 28 <= n <= 31
  {
    if m == 2 then (if IsLeapYear(y) then 29 else 28)
    else if m == 4 || m == 6 || m == 9 || m == 11 then 30
    else 31
  }

  predicate ValidDate(d: Date) {
    1 <= d.month <= 12 && 1 <= d.day <= DaysInMonth(d.year, d.month)
  }

  function NextDay(d: Date): (r: Date)
    requires ValidDate(d)
    ensures ValidDate(r)
  {
    if d.day < DaysInMonth(d.year, d.month) then Date(d.year, d.month, d.day + 1)
    else if d.month < 12 then Date(d.year, d.month + 1, 1)
    else Date(d.year + 1, 1, 1)
  }

  function PrevDay(d: Date): (r: Date)
    requires ValidDate(d)
    ensures ValidDate(r)
  {
    if d.day > 1 then Date(d.year, d.month, d.day - 1)
    else if d.month > 1 then Date(d.year, d.month - 1, DaysInMonth(d.year, d.month - 1))
    else Date(d.year - 1, 12, 31)
  }

  lemma NextPrevInverse(d: Date)
    requires ValidDate(d)
    ensures PrevDay(NextDay(d)) == d
    ensures NextDay(PrevDay(d)) == d
  {
  }

  /** The date `k` days after `d` (before it when `k` is negative). */
  function AddDays(d: Date, k: int): (r: Date)
    requires ValidDate(d)
    ensures ValidDate(r)
    decreases if k >= 0 then k else -k
  {
    if k == 0 then d
    else if k > 0 then AddDays(NextDay(d), k - 1)
    else AddDays(PrevDay(d), k + 1)
  }

  lemma AddDaysNext(d: Date, n: int)
    requires ValidDate(d)
    ensures AddDays(NextDay(d), n - 1) == AddDays(d, n)
  {
    if n <= 0 {
      NextPrevInverse(d);
    }
  }

  lemma AddDaysPrev(d: Date, n: int)
    requires ValidDate(d)
    ensures AddDays(PrevDay(d), n + 1) == AddDays(d, n)
  {
    if n >= 0 {
      NextPrevInverse(d);
    }
  }

  /** Moving by `a` days and then by `b` days is moving by `a + b` days. */
  lemma {:induction false} AddDaysCompose(d: Date, a: int, b: int)
    requires ValidDate(d)
    ensures AddDays(AddDays(d, a), b) == AddDays(d, a + b)
    decreases if a >= 0 then a else -a
  {
    if a > 0 {
      AddDaysCompose(NextDay(d), a - 1, b);
      AddDaysNext(d, a + b);
    } else if a < 0 {
      AddDaysCompose(PrevDay(d), a + 1, b);
      AddDaysPrev(d, a + b);
    }
  }

  /** A point in time: a date and the second of that day. */
  datatype Instant = Instant(date: Date, second: int)

  predicate ValidInstant(i: Instant) {
    ValidDate(i.date) && 0 <= i.second < SecondsPerDay
  }

  lemma DivModUnique(t: int, q: int, r: int)
    requires t == SecondsPerDay * q + r && 0 <= r < SecondsPerDay
    ensures t / SecondsPerDay == q && t % SecondsPerDay == r
  {
  }

  /** The instant `delta` seconds after `i`, carrying whole days into the date
      (chrono's `NaiveDateTime + Duration`). */
  function Shift(i: Instant, delta: int): (r: Instant)
    requires ValidInstant(i)
    ensures ValidInstant(r)
  {
    var t := i.second + delta;
    Instant(AddDays(i.date, t / SecondsPerDay), t % SecondsPerDay)
  }

  lemma ShiftZero(i: Instant)
    requires ValidInstant(i)
    ensures Shift(i, 0) == i
  {
    DivModUnique(i.second, 0, i.second);
  }

  /** Shifting by `a` and then by `b` seconds is shifting by `a + b`. */
  lemma ShiftCompose(i: Instant, a: int, b: int)
    requires ValidInstant(i)
    ensures Shift(Shift(i, a), b) == Shift(i, a + b)
  {
    var t1 := i.second + a;
    var q1, r1 := t1 / SecondsPerDay, t1 % SecondsPerDay;
    var t2 := r1 + b;
    var q2, r2 := t2 / SecondsPerDay, t2 % SecondsPerDay;
    DivModUnique(i.second + a + b, q1 + q2, r2);
    AddDaysCompose(i.date, q1, q2);
  }

  /** Shifting back and then forward by the same amount returns to the start. */
  lemma ShiftBack(i: Instant, d: int)
    requires ValidInstant(i)
    ensures Shift(Shift(i, -d), d) == i
  {
    ShiftCompose(i, -d, d);
    ShiftZero(i);
  }

  /** A wall-clock time, as the system clock reports it. */
  datatype ClockTime = ClockTime(hour: nat, minute: nat)

  predicate ValidClock(c: ClockTime) {
    c.hour < 24 && c.minute < 60
  }

  /** chrono's `%H%M`. */
  function FormatHHMM(c: ClockTime): (s: string)
    requires ValidClock(c)
    ensures |s| == 4 && AllDigits(s)
  {
    Pad2(c.hour) + Pad2(c.minute)
  }

  /** Rust's `str::parse::<u32>` of a two-character string: decimal digits,
      optionally after one leading `+`. */
  function ParseTwoDigits(a: char, b: char): (r: Option<nat>)
    ensures r.Some? ==> r.value < 100
  {
    if a == '+' then (if IsDigit(b) then Some(DigitValue(b)) else None)
    else if IsDigit(a) && IsDigit(b) then Some(DigitValue(a) * 10 + DigitValue(b))
    else None
  }

  /** The input `format_24_hrs` slices without panicking. */
  predicate SliceableTime(t: string) {
    |t| >= 4 && forall i :: 0 <= i < 4 ==> t[i] < 128 as char
  }

  /** Hour and minute as `format_24_hrs` reads them from characters 0..2 and 2..4. */
  function ReadClock(t: string): (r: Result<ClockTime, Error>)
    requires SliceableTime(t)
    ensures r.Success? ==> ValidClock(r.value)
    ensures r.Success? ==> ParseTwoDigits(t[0], t[1]) == Some(r.value.hour) && ParseTwoDigits(t[2], t[3]) == Some(r.value.minute)
    ensures r == Failure(CustomError(ParseErrorMessage)) <==> ParseTwoDigits(t[0], t[1]).None? || ParseTwoDigits(t[2], t[3]).None?
    ensures ParseTwoDigits(t[0], t[1]).Some? && ParseTwoDigits(t[2], t[3]).Some? ==>
      (r.Success? <==> ParseTwoDigits(t[0], t[1]).value < 24 && ParseTwoDigits(t[2], t[3]).value < 60)
    ensures r.Failure? ==> r.error == CustomError(ParseErrorMessage) || r.error == CustomError(InvalidTimeMessage)
  {
    match ParseTwoDigits(t[0], t[1])
    case None => Failure(CustomError(ParseErrorMessage))
    case Some(h) =>
      match ParseTwoDigits(t[2], t[3])
      case None => Failure(CustomError(ParseErrorMessage))
      case Some(m) =>
        if h > 23 || m > 59 then Failure(CustomError(InvalidTimeMessage))
        else Success(ClockTime(h, m))
  }

  /** What the clock prints reads back as the same clock time. */
  lemma ClockTextRoundTrip(c: ClockTime)
    requires ValidClock(c)
    ensures SliceableTime(FormatHHMM(c))
    ensures ReadClock(FormatHHMM(c)) == Success(c)
  {
    var s := FormatHHMM(c);
    assert s[..2] == Pad2(c.hour) && s[2..] == Pad2(c.minute);
    assert DigitValue(s[0]) * 10 + DigitValue(s[1]) == c.hour;
    assert DigitValue(s[2]) * 10 + DigitValue(s[3]) == c.minute;
  }

  /** The configured UTC offset, already split into whole hours and the
      truncated minute remainder (both carry the offset's sign). */
  datatype Offset = Offset(hours: int, minutes: int)

  function OffsetSeconds(tz: Option<Offset>): int {
    match tz
    case None => 0
    case Some(o) => o.hours * 3600 + o.minutes * 60
  }

  function SecondOfDay(c: ClockTime): (s: int)
    requires ValidClock(c)
    ensures 0 <= s < SecondsPerDay
  {
    c.hour * 3600 + c.minute * 60
  }

  /** The instant that is `local` in a zone `offset` seconds ahead of UTC. */
  function ToUtc(local: Instant, offset: int): (u: Instant)
    requires ValidInstant(local)
    ensures ValidInstant(u) && Shift(u, offset) == local
  {
    ShiftBack(local, offset);
    Shift(local, -offset)
  }

  /** The UTC instant of local time `t` on `date` in zone `tz`. */
  function LocalToUtc(tz: Option<Offset>, date: Date, t: string): (r: Result<Instant, Error>)
    requires ValidDate(date) && SliceableTime(t)
    ensures r.Success? <==> ReadClock(t).Success?
    ensures r.Failure? ==> r.error == ReadClock(t).error
    ensures r.Success? ==> ValidInstant(r.value)
    ensures r.Success? ==>
      Shift(r.value, OffsetSeconds(tz)) == Instant(date, SecondOfDay(ReadClock(t).value))
  {
    var clock := ReadClock(t);
    if clock.Failure? then Failure(clock.error)
    else Success(ToUtc(Instant(date, SecondOfDay(clock.value)), OffsetSeconds(tz)))
  }

  /** chrono's year field: four digits within 0..=9999, otherwise `{:+05}`. */
  function YearText(y: int): string {
    if 0 <= y <= 9999 then PadDecimal(y, 4)
    else if y > 9999 then "+" + PadDecimal(y, 4)
    else "-" + PadDecimal(-y, 4)
  }

  /** `YYYY-MM-DD`. */
  function DateText(d: Date): string
    requires ValidDate(d)
  {
    YearText(d.year) + "-" + Pad2(d.month) + "-" + Pad2(d.day)
  }

  /** `to_rfc3339()` of a `DateTime<Utc>` with no fractional seconds:
      the `date-time` form of section 5.6 of RFC 3339 with offset `+00:00`. */
  function Rfc3339(i: Instant): string
    requires ValidInstant(i)
  {
    DateText(i.date) + "T" + Pad2(i.second / 3600) + ":" + Pad2(i.second % 3600 / 60)
      + ":" + Pad2(i.second % 60) + "+00:00"
  }

  lemma DateTextParts(d: Date)
    requires ValidDate(d) && 0 <= d.year <= 9999
    ensures var s := DateText(d);
      && |s| == 10 && s[4] == '-' && s[7] == '-'
      && s[0..4] == PadDecimal(d.year, 4) && s[5..7] == Pad2(d.month) && s[8..10] == Pad2(d.day)
  {
    assert Pow10(4) == 10000;
    PadDecimalWidth(d.year, 4);
  }

  /** A timestamp whose year lies in 0..=9999 is the 25 characters
      `YYYY-MM-DDTHH:MM:SS+00:00`, and each numeric field reads back as the
      matching field of the instant. */
  lemma Rfc3339Shape(i: Instant)
    requires ValidInstant(i) && 0 <= i.date.year <= 9999
    ensures var s := Rfc3339(i);
      && |s| == 25
      && s[4] == '-' && s[7] == '-' && s[10] == 'T' && s[13] == ':' && s[16] == ':'
      && s[19..] == "+00:00"
      && AllDigits(s[0..4]) && AllDigits(s[5..7]) && AllDigits(s[8..10])
      && AllDigits(s[11..13]) && AllDigits(s[14..16]) && AllDigits(s[17..19])
      && DecimalValue(s[0..4]) == i.date.year
      && DecimalValue(s[5..7]) == i.date.month
      && DecimalValue(s[8..10]) == i.date.day
      && DecimalValue(s[11..13]) == i.second / 3600
      && DecimalValue(s[14..16]) == i.second % 3600 / 60
      && DecimalValue(s[17..19]) == i.second % 60
  {
    var d := DateText(i.date);
    DateTextParts(i.date);
    var hh, mm, ss := Pad2(i.second / 3600), Pad2(i.second % 3600 / 60), Pad2(i.second % 60);
    assert Rfc3339(i) == d + ("T" + hh + ":" + mm + ":" + ss + "+00:00");
    TimestampLayout(d, hh, mm, ss);
    PadDecimalValue(i.date.year, 4);
    Pad2Value(i.date.month);
    Pad2Value(i.date.day);
    Pad2Value(i.second / 3600);
    Pad2Value(i.second % 3600 / 60);
    Pad2Value(i.second % 60);
  }

  /** Where the parts of `<date>T<hh>:<mm>:<ss>+00:00` sit. */
  lemma TimestampLayout(d: string, hh: string, mm: string, ss: string)
    requires |d| == 10 && |hh| == 2 && |mm| == 2 && |ss| == 2
    ensures var s := d + ("T" + hh + ":" + mm + ":" + ss + "+00:00");
      && |s| == 25
      && s[0..4] == d[0..4] && s[4] == d[4] && s[5..7] == d[5..7] && s[7] == d[7] && s[8..10] == d[8..10]
      && s[10] == 'T' && s[11..13] == hh && s[13] == ':' && s[14..16] == mm && s[16] == ':'
      && s[17..19] == ss && s[19..] == "+00:00"
  {
    var t := "T" + hh + ":" + mm + ":" + ss + "+00:00";
    var s := d + t;
    assert s[..10] == d;
    assert s[10..] == t;
    assert t[1..3] == hh && t[4..6] == mm && t[7..9] == ss && t[9..] == "+00:00";
  }

  /** `format_24_hrs`. */
  function FormatTwentyFourHours(tz: Option<Offset>, date: Date, t: string): (r: Result<string, Error>)
    requires ValidDate(date) && SliceableTime(t)
    ensures r.Success? <==> ReadClock(t).Success?
    ensures r.Failure? ==> r.error == ReadClock(t).error
    ensures r.Success? ==> LocalToUtc(tz, date, t).Success? && r.value == Rfc3339(LocalToUtc(tz, date, t).value)
  {
    match LocalToUtc(tz, date, t)
    case Failure(e) => Failure(e)
    case Success(i) => Success(Rfc3339(i))
  }

  lemma SecondOfDayFields(c: ClockTime)
    requires ValidClock(c)
    ensures SecondOfDay(c) / 3600 == c.hour
    ensures SecondOfDay(c) % 3600 / 60 == c.minute
    ensures SecondOfDay(c) % 60 == 0
  {
  }

  lemma Rfc3339OfClock(date: Date, c: ClockTime)
    requires ValidDate(date) && ValidClock(c)
    ensures Rfc3339(Instant(date, SecondOfDay(c)))
      == DateText(date) + "T" + Pad2(c.hour) + ":" + Pad2(c.minute) + ":00+00:00"
  {
    SecondOfDayFields(c);
    assert Pad2(0) == "00";
  }

  /** With no offset the UTC instant is the local one. */
  lemma UtcWithoutOffset(date: Date, t: string)
    requires ValidDate(date) && SliceableTime(t) && ReadClock(t).Success?
    ensures LocalToUtc(None, date, t) == Success(Instant(date, SecondOfDay(ReadClock(t).value)))
  {
    ShiftZero(LocalToUtc(None, date, t).value);
  }

  /** A clock read from four digits prints back as those digits. */
  lemma ClockDigits(t: string)
    requires SliceableTime(t) && AllDigits(t[..4]) && ReadClock(t).Success?
    ensures Pad2(ReadClock(t).value.hour) == t[0..2] && Pad2(ReadClock(t).value.minute) == t[2..4]
  {
    var c := ReadClock(t).value;
    var hh, mm := t[0..2], t[2..4];
    assert AllDigits(hh) && AllDigits(mm) by {
      assert IsDigit(t[0]) && IsDigit(t[1]) && IsDigit(t[2]) && IsDigit(t[3]);
    }
    assert c.hour == DigitValue(hh[0]) * 10 + DigitValue(hh[1]);
    assert c.minute == DigitValue(mm[0]) * 10 + DigitValue(mm[1]);
    Pad2OfDigits(hh);
    Pad2OfDigits(mm);
  }

  /** With no offset configured the timestamp is the local date and time, read
      straight from the four digits. */
  lemma FormatWithoutOffset(date: Date, t: string)
    requires ValidDate(date) && SliceableTime(t)
    requires AllDigits(t[..4]) && ReadClock(t).Success?
    ensures FormatTwentyFourHours(None, date, t)
      == Success(DateText(date) + "T" + t[0..2] + ":" + t[2..4] + ":00+00:00")
  {
    var c := ReadClock(t).value;
    UtcWithoutOffset(date, t);
    assert FormatTwentyFourHours(None, date, t) == Success(Rfc3339(Instant(date, SecondOfDay(c))));
    Rfc3339OfClock(date, c);
    ClockDigits(t);
  }

  /** The four-digit rendering of a year `abcd` with `a` nonzero. */
  lemma YearDigits(y: nat, a: nat, b: nat, c: nat, d: nat)
    requires 1 <= a < 10 && b < 10 && c < 10 && d < 10
    requires y == 1000 * a + 100 * b + 10 * c + d
    ensures YearText(y) == [DigitChar(a), DigitChar(b), DigitChar(c), DigitChar(d)]
  {
    assert y / 10 == 100 * a + 10 * b + c && y % 10 == d;
    assert (y / 10) / 10 == 10 * a + b && (y / 10) % 10 == c;
    assert ((y / 10) / 10) / 10 == a && ((y / 10) / 10) % 10 == b;
    assert PadDecimal(a, 1) == [DigitChar(a)];
    assert PadDecimal(10 * a + b, 2) == [DigitChar(a)] + [DigitChar(b)];
    assert PadDecimal(100 * a + 10 * b + c, 3) == [DigitChar(a), DigitChar(b)] + [DigitChar(c)];
    assert PadDecimal(y, 4) == [DigitChar(a), DigitChar(b), DigitChar(c)] + [DigitChar(d)];
  }

  lemma YearTexts()
    ensures YearText(2023) == "2023" && YearText(2024) == "2024" && YearText(2025) == "2025"
  {
    YearDigits(2023, 2, 0, 2, 3);
    YearDigits(2024, 2, 0, 2, 4);
    YearDigits(2025, 2, 0, 2, 5);
  }

  lemma IndiaMorningClock()
    ensures ReadClock("0930") == Success(ClockTime(9, 30))
  {
  }

  lemma IndiaMorningShift()
    ensures Shift(Instant(Date(2024, 1, 1), 34200), -19800) == Instant(Date(2024, 1, 1), 14400)
  {
  }

  lemma IndiaMorningText()
    ensures Rfc3339(Instant(Date(2024, 1, 1), 14400)) == "2024-01-01T04:00:00+00:00"
  {
    YearTexts();
  }

  /** The worked example: 09:30 on 2024-01-01 at UTC+05:30 is 04:00 UTC. */
  lemma IndiaMorningExample()
    ensures FormatTwentyFourHours(Some(Offset(5, 30)), Date(2024, 1, 1), "0930")
      == Success("2024-01-01T04:00:00+00:00")
  {
    IndiaMorningClock();
    IndiaMorningShift();
    IndiaMorningText();
  }

  lemma PreviousDayClock()
    ensures ReadClock("0100") == Success(ClockTime(1, 0))
  {
  }

  lemma PreviousDayShift()
    ensures Shift(Instant(Date(2024, 1, 1), 3600), -19800) == Instant(Date(2023, 12, 31), 70200)
  {
    DivModUnique(3600 - 19800, -1, 70200);
  }

  lemma PreviousDayText()
    ensures Rfc3339(Instant(Date(2023, 12, 31), 70200)) == "2023-12-31T19:30:00+00:00"
  {
    YearTexts();
  }

  /** Early morning east of UTC falls on the previous UTC day, here in the previous year. */
  lemma PreviousDayExample()
    ensures FormatTwentyFourHours(Some(Offset(5, 30)), Date(2024, 1, 1), "0100")
      == Success("2023-12-31T19:30:00+00:00")
  {
    PreviousDayClock();
    PreviousDayShift();
    PreviousDayText();
  }

  lemma NextDayClock()
    ensures ReadClock("2330") == Success(ClockTime(23, 30))
  {
  }

  lemma NextDayShift()
    ensures Shift(Instant(Date(2024, 12, 31), 84600), 7200) == Instant(Date(2025, 1, 1), 5400)
  {
    DivModUnique(84600 + 7200, 1, 5400);
  }

  lemma NextDayText()
    ensures Rfc3339(Instant(Date(2025, 1, 1), 5400)) == "2025-01-01T01:30:00+00:00"
  {
    YearTexts();
  }

  /** Late evening west of UTC falls on the next UTC day. */
  lemma NextDayExample()
    ensures FormatTwentyFourHours(Some(Offset(-2, 0)), Date(2024, 12, 31), "2330")
      == Success("2025-01-01T01:30:00+00:00")
  {
    NextDayClock();
    NextDayShift();
    NextDayText();
  }
}
