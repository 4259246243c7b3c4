/**
 * convertTimeStamp_to_Date and the tm conversions beside it: a millisecond
 * offset from the epoch (midnight of the configured start date) becomes a
 * calendar date, the day key "Y_M-D" that names a day file, and the clock
 * fields of a plot label.
 */
module TimeConversion {
  import opened Wrappers
  import opened Calendar
  import opened Decimal

  const MsPerSecond: nat := 1000
  const MsPerMinute: nat := 60000
  const MsPerHour: nat := 3600000
  const MsPerDay: nat := 86400000
  const SecondsPerDay: nat := 86400

  /** Whole hours, the first field of the duration built from a timestamp. */
  function HoursField(ts: nat): nat {
    ts / MsPerHour
  }

  /** Minutes within the hour, the second field. */
  function MinutesField(ts: nat): nat {
    (ts / MsPerMinute) % 60
  }

  /** The seconds field as written: the timestamp is divided by 1000 twice. */
  function AsWrittenSecondsField(ts: nat): nat {
    (ts / 1000000) % 60
  }

  /** The seconds field as the status board computes it: seconds within the minute. */
  function SecondsField(ts: nat): nat {
    (ts / MsPerSecond) % 60
  }

  /** Whole seconds of the duration hours:minutes:seconds as written. */
  function AsWrittenOffset(ts: nat): nat {
    HoursField(ts) * 3600 + MinutesField(ts) * 60 + AsWrittenSecondsField(ts)
  }

  /** Whole seconds of the duration with the corrected seconds field. */
  function Offset(ts: nat): nat {
    HoursField(ts) * 3600 + MinutesField(ts) * 60 + SecondsField(ts)
  }

  /** The calendar fields of a struct tm (the sub-second part is dropped). */
  datatype Clock = Clock(date: Date, hour: nat, minute: nat, second: nat)

  /** The clock reading a whole number of seconds after the epoch's midnight. */
  function ClockAt(epoch: Date, seconds: nat): (c: Clock)
    requires ValidDate(epoch)
    ensures ValidDate(c.date) && c.hour < 24 && c.minute < 60 && c.second < 60
  {
    Clock(AddDays(epoch, seconds / SecondsPerDay), (seconds % SecondsPerDay) / 3600,
          (seconds % 3600) / 60, seconds % 60)
  }

  /** The date convertTimeStamp_to_Date reads from the tm of epoch + duration. */
  function DateOf(epoch: Date, ts: nat): Date
    requires ValidDate(epoch)
  {
    ClockAt(epoch, AsWrittenOffset(ts)).date
  }

  /** "year_month-day", each number written without zero padding. */
  function FormatDate(d: Date): string
    requires ValidDate(d)
  {
    NatToString(d.year) + "_" + NatToString(d.month) + "-" + NatToString(d.day)
  }

  /** The day key naming the day file of a timestamp. */
  function DayKey(epoch: Date, ts: nat): string
    requires ValidDate(epoch)
  {
    FormatDate(DateOf(epoch, ts))
  }

  /** The label clock as written (seconds field divided by 1000 twice). */
  function AsWrittenLabel(epoch: Date, ts: nat): Clock
    requires ValidDate(epoch)
  {
    ClockAt(epoch, AsWrittenOffset(ts))
  }

  /** The label clock with the corrected seconds field. */
  function Label(epoch: Date, ts: nat): Clock
    requires ValidDate(epoch)
  {
    ClockAt(epoch, Offset(ts))
  }

  function IndexOf(s: string, c: char): (r: Option<nat>)
    ensures r.Some? ==> r.value < |s| && s[r.value] == c
    ensures r.Some? ==> forall i :: 0 <= i < r.value ==> s[i] != c
    ensures r.None? ==> forall i :: 0 <= i < |s| ==> s[i] != c
  {
    if s == [] then None
    else if s[0] == c then Some(0)
    else match IndexOf(s[1..], c)
      case None => None
      case Some(i) => Some(i + 1)
  }

  /** Reads a day key back into the date it names. */
  function ParseDayKey(s: string): Option<Date> {
    match IndexOf(s, '_')
    case None => None
    case Some(i) =>
      var rest := s[i + 1..];
      match IndexOf(rest, '-')
      case None => None
      case Some(j) =>
        var ys, ms, ds := s[..i], rest[..j], rest[j + 1..];
        if ys != [] && ms != [] && ds != [] && AllDigits(ys) && AllDigits(ms) && AllDigits(ds)
        then Some(Date(DigitsValue(ys), DigitsValue(ms), DigitsValue(ds)))
        else None
  }

  // ---------------------------------------------------------------------
  // Arithmetic on the duration fields
  // ---------------------------------------------------------------------

  lemma {:induction false} MulAtLeast(k: int, d: nat)
    requires k >= 1
    ensures k * d >= d
  {
    if k > 1 {
      MulAtLeast(k - 1, d);
      assert k * d == (k - 1) * d + d;
    }
  }

  /** Division by d is determined by any quotient and remainder below d. */
  lemma DivSplit(a: nat, d: nat, q: nat, r: nat)
    requires d > 0 && r < d && a == q * d + r
    ensures a / d == q && a % d == r
  {
    var q0, r0 := a / d, a % d;
    assert a == q0 * d + r0;
    if q0 < q {
      MulAtLeast(q - q0, d);
      assert false;
    } else if q < q0 {
      MulAtLeast(q0 - q, d);
      assert false;
    }
  }

  /** Whole hours are whole seconds divided by 3600. */
  lemma HoursFromSeconds(ts: nat)
    ensures ts / MsPerHour == (ts / 1000) / 3600
    ensures ts / MsPerMinute == (ts / 1000) / 60
    ensures ts / MsPerDay == (ts / MsPerHour) / 24
  {
    var q := ts / 1000;
    var h := q / 3600;
    DivSplit(ts, MsPerHour, h, ts - h * MsPerHour);
    var m := q / 60;
    DivSplit(ts, MsPerMinute, m, ts - m * MsPerMinute);
    var hh := ts / MsPerHour;
    var dd := hh / 24;
    DivSplit(ts, MsPerDay, dd, ts - dd * MsPerDay);
  }

  /** The corrected duration is the timestamp in whole seconds. */
  lemma OffsetIsWholeSeconds(ts: nat)
    ensures Offset(ts) == ts / MsPerSecond
  {
    HoursFromSeconds(ts);
    var q := ts / 1000;
    var a, r1 := q / 60, q % 60;
    var b, r2 := a / 60, a % 60;
    assert q == a * 60 + r1;
    assert a * 60 == b * 3600 + r2 * 60;
    DivSplit(q, 3600, b, r2 * 60 + r1);
    assert HoursField(ts) == b && MinutesField(ts) == r2 && SecondsField(ts) == r1;
  }

  /**
   * Whatever its seconds field, a duration of H hours plus less than an hour
   * lands on day H div 24 after the epoch.
   */
  lemma DayOfDuration(ts: nat, extra: nat)
    requires extra < 3600
    ensures (HoursField(ts) * 3600 + extra) / SecondsPerDay == ts / MsPerDay
  {
    HoursFromSeconds(ts);
    var h := HoursField(ts);
    DivSplit(h * 3600 + extra, SecondsPerDay, h / 24, (h % 24) * 3600 + extra);
  }

  /** A day count and a time of day split back out of their whole seconds. */
  lemma WholeSecondsFields(n: nat, h: nat, m: nat, sec: nat)
    requires h < 24 && m < 60 && sec < 60
    ensures var x := n * 86400 + h * 3600 + m * 60 + sec;
            x / 86400 == n && (x % 86400) / 3600 == h && (x % 3600) / 60 == m && x % 60 == sec
  {
    var secs := h * 3600 + m * 60 + sec;
    var x := n * 86400 + secs;
    var rest := m * 60 + sec;
    assert rest < 3600;
    assert secs < 86400;
    DivSplit(x, 86400, n, secs);
    DivSplit(secs, 3600, h, rest);
    assert x == (n * 24 + h) * 3600 + rest;
    DivSplit(x, 3600, n * 24 + h, rest);
    DivSplit(rest, 60, m, sec);
    assert x == ((n * 24 + h) * 60 + m) * 60 + sec;
    DivSplit(x, 60, (n * 24 + h) * 60 + m, sec);
  }

  /** The clock reading n days and h:m:s after the epoch's midnight. */
  lemma ClockAtWhole(epoch: Date, n: nat, h: nat, m: nat, sec: nat)
    requires ValidDate(epoch) && h < 24 && m < 60 && sec < 60
    ensures ClockAt(epoch, n * 86400 + h * 3600 + m * 60 + sec) == Clock(AddDays(epoch, n), h, m, sec)
  {
    WholeSecondsFields(n, h, m, sec);
  }

  // ---------------------------------------------------------------------
  // Properties of the day key
  // ---------------------------------------------------------------------

  /** The date of a timestamp is the epoch date plus its whole days. */
  lemma DateOfIsEpochPlusDays(epoch: Date, ts: nat)
    requires ValidDate(epoch)
    ensures DateOf(epoch, ts) == AddDays(epoch, ts / MsPerDay)
  {
    DayOfDuration(ts, MinutesField(ts) * 60 + AsWrittenSecondsField(ts));
  }

  lemma {:induction false} IndexOfAfterDigits(ys: string, c: char, rest: string)
    requires AllDigits(ys) && !IsDigit(c)
    ensures IndexOf(ys + [c] + rest, c) == Some(|ys|)
  {
    if ys != [] {
      assert (ys + [c] + rest)[1..] == ys[1..] + [c] + rest;
      IndexOfAfterDigits(ys[1..], c, rest);
    }
  }

  /** Reading a day key gives back the date it was written from. */
  lemma ParseFormatDate(d: Date)
    requires ValidDate(d)
    ensures ParseDayKey(FormatDate(d)) == Some(d)
  {
    var ys, ms, ds := NatToString(d.year), NatToString(d.month), NatToString(d.day);
    var s := FormatDate(d);
    var tail := ms + "-" + ds;
    assert s == ys + ['_'] + tail;
    IndexOfAfterDigits(ys, '_', tail);
    assert s[|ys| + 1..] == tail;
    assert s[..|ys|] == ys;
    IndexOfAfterDigits(ms, '-', ds);
    assert tail == ms + ['-'] + ds;
    assert tail[..|ms|] == ms;
    assert tail[|ms| + 1..] == ds;
    DigitsValueOfNatToString(d.year);
    DigitsValueOfNatToString(d.month);
    DigitsValueOfNatToString(d.day);
  }

  /** Distinct dates are written as distinct keys. */
  lemma FormatDateInjective(d1: Date, d2: Date)
    requires ValidDate(d1) && ValidDate(d2) && FormatDate(d1) == FormatDate(d2)
    ensures d1 == d2
  {
    ParseFormatDate(d1);
    ParseFormatDate(d2);
  }

  /**
   * The day key depends on the whole days of the timestamp and on nothing
   * else: two timestamps share a day file exactly when they share a day.
   */
  lemma DayKeySameIffSameDay(epoch: Date, t1: nat, t2: nat)
    requires ValidDate(epoch)
    ensures DayKey(epoch, t1) == DayKey(epoch, t2) <==> t1 / MsPerDay == t2 / MsPerDay
  {
    DateOfIsEpochPlusDays(epoch, t1);
    DateOfIsEpochPlusDays(epoch, t2);
    if DayKey(epoch, t1) == DayKey(epoch, t2) {
      FormatDateInjective(DateOf(epoch, t1), DateOf(epoch, t2));
      AddDaysInjective(epoch, t1 / MsPerDay, t2 / MsPerDay);
    }
  }

  /** The day key is the epoch date plus the whole days, formatted. */
  lemma DayKeyIsFormattedDay(epoch: Date, ts: nat)
    requires ValidDate(epoch)
    ensures DayKey(epoch, ts) == FormatDate(AddDays(epoch, ts / MsPerDay))
    ensures ParseDayKey(DayKey(epoch, ts)) == Some(AddDays(epoch, ts / MsPerDay))
  {
    DateOfIsEpochPlusDays(epoch, ts);
    ParseFormatDate(AddDays(epoch, ts / MsPerDay));
  }

  // ---------------------------------------------------------------------
  // Label clocks
  // ---------------------------------------------------------------------

  /**
   * The corrected label reads the date, hour, minute and second of the
   * timestamp, and these recombine to its whole seconds.
   */
  lemma LabelFields(epoch: Date, ts: nat)
    requires ValidDate(epoch)
    ensures Label(epoch, ts).date == AddDays(epoch, ts / MsPerDay)
    ensures Label(epoch, ts).hour == (ts / MsPerHour) % 24
    ensures Label(epoch, ts).minute == (ts / MsPerMinute) % 60
    ensures Label(epoch, ts).second == (ts / MsPerSecond) % 60
    ensures (ts / MsPerDay) * SecondsPerDay + Label(epoch, ts).hour * 3600
            + Label(epoch, ts).minute * 60 + Label(epoch, ts).second == ts / MsPerSecond
  {
    var h := HoursField(ts);
    ClockOfFields(epoch, h, MinutesField(ts), SecondsField(ts));
    OffsetIsWholeSeconds(ts);
    HoursFromSeconds(ts);
    assert h == (h / 24) * 24 + h % 24;
  }

  /**
   * The clock h hours, m minutes and s seconds after the epoch's midnight
   * shows day h div 24, hour h mod 24, minute m and second s.
   */
  lemma ClockOfFields(epoch: Date, h: nat, m: nat, s: nat)
    requires ValidDate(epoch) && m < 60 && s < 60
    ensures ClockAt(epoch, h * 3600 + m * 60 + s) == Clock(AddDays(epoch, h / 24), h % 24, m, s)
  {
    var q := h * 3600 + m * 60 + s;
    var hd, hr, r := h / 24, h % 24, m * 60 + s;
    assert h == hd * 24 + hr;
    DivSplit(q, SecondsPerDay, hd, hr * 3600 + r);
    DivSplit(hr * 3600 + r, 3600, hr, r);
    DivSplit(q, 3600, h, r);
    DivSplit(r, 60, m, s);
    DivSplit(q, 60, h * 60 + m, s);
  }

  /**
   * As written, the label of a timestamp one second after the epoch shows
   * zero seconds: the seconds field divides by 1000 twice.
   */
  lemma AsWrittenLabelDropsSeconds(epoch: Date)
    requires ValidDate(epoch)
    ensures AsWrittenLabel(epoch, 1000).second == 0
    ensures Label(epoch, 1000).second == 1
  {
  }

  /** The as-written label agrees with the corrected one on everything but the seconds. */
  lemma AsWrittenLabelAgreesAboveSeconds(epoch: Date, ts: nat)
    requires ValidDate(epoch)
    ensures AsWrittenLabel(epoch, ts).date == Label(epoch, ts).date
    ensures AsWrittenLabel(epoch, ts).hour == Label(epoch, ts).hour
    ensures AsWrittenLabel(epoch, ts).minute == Label(epoch, ts).minute
  {
    ClockOfFields(epoch, HoursField(ts), MinutesField(ts), AsWrittenSecondsField(ts));
    ClockOfFields(epoch, HoursField(ts), MinutesField(ts), SecondsField(ts));
  }
}
