/**
 * The settings read in Initialise and the plot configuration file read by
 * ReadInConfiguration: tab-separated lines "hours, end time, label, plot
 * type ...", and the conversion of each end time to milliseconds after the
 * epoch.
 */
module PlotConfig {
  import opened Wrappers
  import opened Calendar
  import opened Decimal
  import opened TimeConversion

  // ---------------------------------------------------------------------
  // Settings normalisation
  // ---------------------------------------------------------------------

  /** The tool settings that Initialise checks after reading them. */
  datatype Settings = Settings(updateFrequency: real, forceUpdate: int, imgExtension: string)

  predicate KnownExtension(e: string) {
    e == "png" || e == "jpg" || e == "jpeg"
  }

  predicate SettingsNormal(s: Settings) {
    s.updateFrequency >= 0.1 && (s.forceUpdate == 0 || s.forceUpdate == 1) && KnownExtension(s.imgExtension)
  }

  /**
   * A frequency below 0.1 minutes becomes 5, a force-update flag other than
   * 0 or 1 becomes 0, an image format other than png, jpg or jpeg becomes jpg;
   * acceptable values are kept.
   */
  function NormaliseSettings(s: Settings): (r: Settings)
    ensures SettingsNormal(r)
    ensures SettingsNormal(s) ==> r == s
    ensures s.updateFrequency >= 0.1 ==> r.updateFrequency == s.updateFrequency
    ensures s.updateFrequency < 0.1 ==> r.updateFrequency == 5.0
    ensures s.forceUpdate == 0 || s.forceUpdate == 1 ==> r.forceUpdate == s.forceUpdate
    ensures s.forceUpdate != 0 && s.forceUpdate != 1 ==> r.forceUpdate == 0
    ensures KnownExtension(s.imgExtension) ==> r.imgExtension == s.imgExtension
    ensures !KnownExtension(s.imgExtension) ==> r.imgExtension == "jpg"
  {
    Settings(
      if s.updateFrequency < 0.1 then 5.0 else s.updateFrequency,
      if s.forceUpdate != 0 && s.forceUpdate != 1 then 0 else s.forceUpdate,
      if !KnownExtension(s.imgExtension) then "jpg" else s.imgExtension)
  }

  /** Normalising twice is normalising once. */
  lemma NormaliseIdempotent(s: Settings)
    ensures NormaliseSettings(NormaliseSettings(s)) == NormaliseSettings(s)
  {
  }

  /** The update period: the frequency's whole minutes, in seconds. */
  function UpdatePeriodSeconds(freq: real): (p: nat)
    requires freq >= 0.1
    ensures p as real <= freq * 60.0 < p as real + 60.0
    ensures p % 60 == 0
  {
    freq.Floor * 60
  }

  // ---------------------------------------------------------------------
  // Splitting a line on tabs
  // ---------------------------------------------------------------------

  /** Every piece between separators, including empty ones at either end. */
  function SplitOn(s: string, c: char): (parts: seq<string>)
    ensures |parts| >= 1
    ensures forall k :: 0 <= k < |parts| ==> c !in parts[k]
    decreases |s|
  {
    match IndexOf(s, c)
    case None => [s]
    case Some(i) => [s[..i]] + SplitOn(s[i + 1..], c)
  }

  function Join(parts: seq<string>, c: char): string
    requires |parts| >= 1
  {
    if |parts| == 1 then parts[0] else parts[0] + [c] + Join(parts[1..], c)
  }

  /** Joining the pieces with the separator restores the string. */
  lemma {:induction false} JoinSplitOn(s: string, c: char)
    ensures Join(SplitOn(s, c), c) == s
    decreases |s|
  {
    match IndexOf(s, c)
    case None =>
    case Some(i) =>
      var parts := SplitOn(s, c);
      assert parts == [s[..i]] + SplitOn(s[i + 1..], c);
      JoinSplitOn(s[i + 1..], c);
      calc {
        Join(parts, c);
        parts[0] + [c] + Join(parts[1..], c);
        { assert parts[1..] == SplitOn(s[i + 1..], c); }
        s[..i] + [c] + s[i + 1..];
        s;
      }
  }

  /** The last piece is empty exactly when the string is empty or ends with the separator. */
  lemma {:induction false} LastPieceEmpty(s: string, c: char)
    ensures var parts := SplitOn(s, c);
            parts[|parts| - 1] == [] <==> (s == [] || s[|s| - 1] == c)
    decreases |s|
  {
    match IndexOf(s, c)
    case None =>
    case Some(i) =>
      LastPieceEmpty(s[i + 1..], c);
      if i + 1 < |s| {
        assert s[|s| - 1] == s[i + 1..][|s[i + 1..]| - 1];
      }
  }

  /**
   * The fields std::getline yields when it reads a line with tab as the
   * delimiter: an empty line has none, and a final tab does not open an
   * empty last field.
   */
  function SplitTabs(line: string): seq<string> {
    if line == [] then []
    else
      var parts := SplitOn(line, '\t');
      if parts[|parts| - 1] == [] then parts[..|parts| - 1] else parts
  }

  /**
   * No field holds a tab, and the fields joined by tabs give the line back,
   * with its final tab when it had one.
   */
  lemma SplitTabsJoin(line: string)
    requires line != []
    ensures forall k :: 0 <= k < |SplitTabs(line)| ==> '\t' !in SplitTabs(line)[k]
    ensures line[|line| - 1] != '\t' ==> Join(SplitTabs(line), '\t') == line
    ensures line[|line| - 1] == '\t' && |line| > 1 && |SplitTabs(line)| >= 1 ==>
              Join(SplitTabs(line) + [[]], '\t') == line
  {
    var parts := SplitOn(line, '\t');
    JoinSplitOn(line, '\t');
    LastPieceEmpty(line, '\t');
    if parts[|parts| - 1] == [] {
      assert parts == parts[..|parts| - 1] + [[]];
    }
  }

  // ---------------------------------------------------------------------
  // Configuration lines
  // ---------------------------------------------------------------------

  /** One configured plot: window length, end time text, file label, plot types. */
  datatype PlotEntry = PlotEntry(frameMs: nat, endTime: string, fileLabel: string, plotTypes: seq<string>)

  /** Whole hours written as decimal digits, in milliseconds. */
  function HoursToMs(field: string): (r: Option<nat>)
    ensures r.Some? <==> field != [] && AllDigits(field)
    ensures r.Some? ==> r.value % MsPerHour == 0
  {
    if field != [] && AllDigits(field) then Some(DigitsValue(field) * MsPerHour) else None
  }

  /** A number of hours written in decimal reads back as that many hours. */
  lemma HoursToMsOfText(h: nat)
    ensures HoursToMs(NatToString(h)) == Some(h * MsPerHour)
  {
    DigitsValueOfNatToString(h);
  }

  /** A line is used when it holds no '#' and has at least four fields. */
  predicate Accepted(line: string) {
    '#' !in line && |SplitTabs(line)| >= 4
  }

  /** The entry an accepted line describes, or None when its hours cannot be read. */
  function EntryOf(line: string): Option<PlotEntry>
    requires Accepted(line)
  {
    var f := SplitTabs(line);
    match HoursToMs(f[0])
    case None => None
    case Some(ms) => Some(PlotEntry(ms, f[1], f[2], f[3..]))
  }

  /** The entries read so far, and whether reading went through without an exception. */
  datatype ConfigRead = ConfigRead(entries: seq<PlotEntry>, ok: bool)

  /**
   * The configuration lines read in order; an unreadable hours field stops
   * the reading where it stands.
   */
  function ReadConfigLines(lines: seq<string>): ConfigRead
    decreases |lines|
  {
    if lines == [] then ConfigRead([], true)
    else
      var prev := ReadConfigLines(lines[..|lines| - 1]);
      var line := lines[|lines| - 1];
      if !prev.ok || !Accepted(line) then prev
      else match EntryOf(line)
        case None => ConfigRead(prev.entries, false)
        case Some(e) => ConfigRead(prev.entries + [e], true)
  }

  function CountAccepted(lines: seq<string>): nat
    decreases |lines|
  {
    if lines == [] then 0
    else CountAccepted(lines[..|lines| - 1]) + (if Accepted(lines[|lines| - 1]) then 1 else 0)
  }

  predicate BadLine(line: string) {
    Accepted(line) && EntryOf(line).None?
  }

  /** The entry a line adds when its hours can be read: none for a skipped or unreadable line. */
  function LineEntries(line: string): seq<PlotEntry> {
    if Accepted(line) && EntryOf(line).Some? then [EntryOf(line).value] else []
  }

  /**
   * The entries of the accepted lines, in line order, taken from the first
   * line on; the reference that a reading which goes through is compared to.
   */
  function AcceptedEntries(lines: seq<string>): seq<PlotEntry>
    decreases |lines|
  {
    if lines == [] then [] else LineEntries(lines[0]) + AcceptedEntries(lines[1..])
  }

  /** Taking one more line at the end adds that line's entry at the end. */
  lemma {:induction false} AcceptedEntriesSnoc(lines: seq<string>, line: string)
    ensures AcceptedEntries(lines + [line]) == AcceptedEntries(lines) + LineEntries(line)
    decreases |lines|
  {
    if lines == [] {
      assert [line][1..] == [];
      assert AcceptedEntries([line]) == LineEntries(line) + AcceptedEntries([]);
    } else {
      assert (lines + [line])[0] == lines[0];
      assert (lines + [line])[1..] == lines[1..] + [line];
      AcceptedEntriesSnoc(lines[1..], line);
    }
  }

  /**
   * Every entry comes from an accepted line (no '#', four fields or more),
   * reading fails exactly when some accepted line has an unreadable hours
   * field, and a reading that goes through has one entry per accepted line.
   */
  lemma {:induction false} ReadConfigLinesSpec(lines: seq<string>)
    ensures var r := ReadConfigLines(lines);
            forall k :: 0 <= k < |r.entries| ==>
              exists j :: 0 <= j < |lines| && Accepted(lines[j]) && EntryOf(lines[j]) == Some(r.entries[k])
    ensures !ReadConfigLines(lines).ok <==> exists j :: 0 <= j < |lines| && BadLine(lines[j])
    ensures ReadConfigLines(lines).ok ==> |ReadConfigLines(lines).entries| == CountAccepted(lines)
    ensures ReadConfigLines(lines).ok ==> ReadConfigLines(lines).entries == AcceptedEntries(lines)
  {
    EntriesFromAcceptedLines(lines);
    ReadFailsOnBadLine(lines);
    EntryPerAcceptedLine(lines);
    ReadConfigLinesInOrder(lines);
  }

  /** A reading that goes through holds the entry of each accepted line, in line order. */
  lemma {:induction false} ReadConfigLinesInOrder(lines: seq<string>)
    ensures ReadConfigLines(lines).ok ==> ReadConfigLines(lines).entries == AcceptedEntries(lines)
    decreases |lines|
  {
    if lines == [] {
      assert ReadConfigLines(lines).entries == [];
    } else {
      var init := lines[..|lines| - 1];
      var line := lines[|lines| - 1];
      assert init + [line] == lines;
      ReadConfigLinesInOrder(init);
      AcceptedEntriesSnoc(init, line);
      var prev := ReadConfigLines(init);
      var r := ReadConfigLines(lines);
      if r.ok {
        assert prev.ok;
        if Accepted(line) {
          assert r.entries == prev.entries + [EntryOf(line).value];
        } else {
          assert r.entries == prev.entries;
        }
      }
    }
  }

  /** Every entry read is the entry of some accepted line. */
  lemma {:induction false} EntriesFromAcceptedLines(lines: seq<string>)
    ensures forall k :: 0 <= k < |ReadConfigLines(lines).entries| ==>
              exists j :: 0 <= j < |lines| && Accepted(lines[j]) && EntryOf(lines[j]) == Some(ReadConfigLines(lines).entries[k])
    decreases |lines|
  {
    if lines == [] {
      assert ReadConfigLines(lines).entries == [];
    } else {
      var init := lines[..|lines| - 1];
      var line := lines[|lines| - 1];
      EntriesFromAcceptedLines(init);
      var prev := ReadConfigLines(init);
      var r := ReadConfigLines(lines);
      var keep := !prev.ok || !Accepted(line) || EntryOf(line).None?;
      assert keep ==> r.entries == prev.entries;
      assert !keep ==> r.entries == prev.entries + [EntryOf(line).value];
      forall k | 0 <= k < |r.entries|
        ensures exists j :: 0 <= j < |lines| && Accepted(lines[j]) && EntryOf(lines[j]) == Some(r.entries[k])
      {
        if k < |prev.entries| {
          assert r.entries[k] == prev.entries[k];
          var j :| 0 <= j < |init| && Accepted(init[j]) && EntryOf(init[j]) == Some(prev.entries[k]);
          assert lines[j] == init[j];
        } else {
          assert Accepted(line) && EntryOf(line) == Some(r.entries[k]);
        }
      }
    }
  }

  /** Reading fails exactly when some accepted line has an unreadable hours field. */
  lemma ReadFailsOnBadLine(lines: seq<string>)
    ensures !ReadConfigLines(lines).ok <==> exists j :: 0 <= j < |lines| && BadLine(lines[j])
  {
    FailureHasBadLine(lines);
    BadLineFails(lines);
  }

  /** A failed reading has met an accepted line whose hours cannot be read. */
  lemma {:induction false} FailureHasBadLine(lines: seq<string>)
    ensures !ReadConfigLines(lines).ok ==> exists j :: 0 <= j < |lines| && BadLine(lines[j])
    decreases |lines|
  {
    if lines == [] {
      assert ReadConfigLines(lines).ok;
    } else {
      var init := lines[..|lines| - 1];
      var line := lines[|lines| - 1];
      FailureHasBadLine(init);
      var prev := ReadConfigLines(init);
      if !prev.ok {
        var j :| 0 <= j < |init| && BadLine(init[j]);
        assert lines[j] == init[j];
      } else if !ReadConfigLines(lines).ok {
        assert BadLine(line);
      }
    }
  }

  /** An accepted line whose hours cannot be read makes the reading fail. */
  lemma {:induction false} BadLineFails(lines: seq<string>)
    ensures (exists j :: 0 <= j < |lines| && BadLine(lines[j])) ==> !ReadConfigLines(lines).ok
    decreases |lines|
  {
    if j :| 0 <= j < |lines| && BadLine(lines[j]) {
      var init := lines[..|lines| - 1];
      if j < |init| {
        assert init[j] == lines[j];
        BadLineFails(init);
        FailureSticks(lines);
      } else {
        LastBadLineFails(lines);
      }
    }
  }

  /** A reading that has failed stays failed whatever line comes next. */
  lemma FailureSticks(lines: seq<string>)
    requires lines != [] && !ReadConfigLines(lines[..|lines| - 1]).ok
    ensures !ReadConfigLines(lines).ok
  {
  }

  /** A last line that is accepted but unreadable makes the reading fail. */
  lemma LastBadLineFails(lines: seq<string>)
    requires lines != [] && BadLine(lines[|lines| - 1])
    ensures !ReadConfigLines(lines).ok
  {
  }

  /** A reading that goes through has one entry per accepted line. */
  lemma {:induction false} EntryPerAcceptedLine(lines: seq<string>)
    ensures ReadConfigLines(lines).ok ==> |ReadConfigLines(lines).entries| == CountAccepted(lines)
    decreases |lines|
  {
    if lines != [] {
      EntryPerAcceptedLine(lines[..|lines| - 1]);
    }
  }

  // ---------------------------------------------------------------------
  // End times
  // ---------------------------------------------------------------------

  const TwoTo64: int := 0x1_0000_0000_0000_0000

  /** The clock fields of a "YYYYMMDDTHHMMSS" end time, when it has that form. */
  function IsoFields(s: string): Option<Clock> {
    if |s| == 15 && s[8] == 'T'
       && AllDigits(s[..4]) && AllDigits(s[4..6]) && AllDigits(s[6..8])
       && AllDigits(s[9..11]) && AllDigits(s[11..13]) && AllDigits(s[13..])
    then
      var d := Date(DigitsValue(s[..4]), DigitsValue(s[4..6]), DigitsValue(s[6..8]));
      if 1400 <= d.year <= 9999 && ValidDate(d)
      then Some(Clock(d, DigitsValue(s[9..11]), DigitsValue(s[11..13]), DigitsValue(s[13..])))
      else None
    else None
  }

  /** Signed milliseconds from the epoch to a clock reading. */
  function MsFromEpoch(epoch: Date, c: Clock): int
    requires ValidDate(epoch) && ValidDate(c.date)
  {
    DaysBetween(epoch, c.date) * MsPerDay + (c.hour * 3600 + c.minute * 60 + c.second) * MsPerSecond
  }

  /** A signed 64-bit value converted to unsigned: negative values wrap. */
  function ToUnsigned64(v: int): (r: nat)
    requires -TwoTo64 / 2 <= v < TwoTo64 / 2
    ensures r < TwoTo64
    ensures v >= 0 ==> r == v
    ensures v < 0 ==> r == v + TwoTo64
  {
    if v < 0 then v + TwoTo64 else v
  }

  /**
   * The end time of a configuration entry in milliseconds: 0 (meaning "the
   * current time") for TEND_LASTFILE and for any text not 15 characters
   * long, the parsed time for a 15-character one, and None where parsing
   * would throw.
   */
  function EndTimeMs(epoch: Date, s: string): Option<nat>
    requires ValidDate(epoch) && 1400 <= epoch.year <= 9999
  {
    if s == "TEND_LASTFILE" then Some(0)
    else if |s| == 15 then
      match IsoFields(s)
      case None => None
      case Some(c) =>
        EndTimeRange(epoch, c);
        Some(ToUnsigned64(MsFromEpoch(epoch, c)))
    else Some(0)
  }

  lemma EndTimeRange(epoch: Date, c: Clock)
    requires ValidDate(epoch) && 1400 <= epoch.year <= 9999
    requires ValidDate(c.date) && 1400 <= c.date.year <= 9999 && c.hour < 100 && c.minute < 100 && c.second < 100
    ensures -TwoTo64 / 2 <= MsFromEpoch(epoch, c) < TwoTo64 / 2
  {
    var lo, hi := Date(1400, 1, 1), Date(10000, 1, 1);
    if epoch != lo { OrdinalMonotone(lo, epoch); }
    if c.date != lo { OrdinalMonotone(lo, c.date); }
    OrdinalMonotone(epoch, hi);
    OrdinalMonotone(c.date, hi);
    DaysBeforeYearSpan(1400, 10000);
  }

  /** The years 1400 .. 9999 hold fewer than 3 653 000 days. */
  lemma {:induction false} DaysBeforeYearSpan(y1: int, y2: int)
    requires 1 <= y1 <= y2
    ensures DaysBeforeYear(y2) - DaysBeforeYear(y1) <= 366 * (y2 - y1)
    decreases y2 - y1
  {
    if y1 < y2 {
      DaysBeforeYearSpan(y1, y2 - 1);
    }
  }

  /**
   * A well-formed end time at or after the epoch converts to milliseconds
   * whose label clock reads back the configured date and time.
   */
  lemma EndTimeRoundTrip(epoch: Date, s: string)
    requires ValidDate(epoch) && 1400 <= epoch.year <= 9999
    requires IsoFields(s).Some?
    requires var c := IsoFields(s).value;
             c.hour < 24 && c.minute < 60 && c.second < 60 && Ordinal(epoch) <= Ordinal(c.date)
    ensures EndTimeMs(epoch, s).Some?
    ensures Label(epoch, EndTimeMs(epoch, s).value) == IsoFields(s).value
  {
    var c := IsoFields(s).value;
    var n: nat := Ordinal(c.date) - Ordinal(epoch);
    var ms := EndTimeMs(epoch, s).value;
    assert ms == (n * 86400 + c.hour * 3600 + c.minute * 60 + c.second) * 1000;
    LabelOfWholeSeconds(epoch, ms, n, c.hour, c.minute, c.second);
    AddDaysReaches(epoch, c.date);
  }

  /** The label of a whole number of seconds reads that day, hour, minute and second. */
  lemma LabelOfWholeSeconds(epoch: Date, ms: nat, n: nat, h: nat, m: nat, sec: nat)
    requires ValidDate(epoch) && h < 24 && m < 60 && sec < 60
    requires ms == (n * 86400 + h * 3600 + m * 60 + sec) * 1000
    ensures Label(epoch, ms) == Clock(AddDays(epoch, n), h, m, sec)
  {
    var whole := n * 86400 + h * 3600 + m * 60 + sec;
    DivSplit(ms, 1000, whole, 0);
    OffsetIsWholeSeconds(ms);
    assert Label(epoch, ms) == ClockAt(epoch, whole);
    ClockAtWhole(epoch, n, h, m, sec);
  }

  /** The end times converted in order; a conversion that would throw stops it. */
  function ConvertEndTimes(epoch: Date, ss: seq<string>): (seq<nat>, bool)
    requires ValidDate(epoch) && 1400 <= epoch.year <= 9999
    decreases |ss|
  {
    if ss == [] then ([], true)
    else
      var (prev, ok) := ConvertEndTimes(epoch, ss[..|ss| - 1]);
      if !ok then (prev, ok)
      else match EndTimeMs(epoch, ss[|ss| - 1])
        case None => (prev, false)
        case Some(v) => (prev + [v], true)
  }

  /**
   * A conversion that goes through gives exactly one value per end time, in
   * order; one that fails holds the values of the end times before the
   * first one that cannot be read.
   */
  lemma {:induction false} ConvertEndTimesSpec(epoch: Date, ss: seq<string>)
    requires ValidDate(epoch) && 1400 <= epoch.year <= 9999
    ensures var (vs, ok) := ConvertEndTimes(epoch, ss);
            |vs| <= |ss|
            && (forall k :: 0 <= k < |vs| ==> EndTimeMs(epoch, ss[k]) == Some(vs[k]))
            && (ok <==> forall k :: 0 <= k < |ss| ==> EndTimeMs(epoch, ss[k]).Some?)
            && (ok ==> |vs| == |ss|)
            && (!ok ==> |vs| < |ss| && EndTimeMs(epoch, ss[|vs|]).None?)
    decreases |ss|
  {
    if ss != [] {
      var init := ss[..|ss| - 1];
      ConvertEndTimesSpec(epoch, init);
      assert forall k :: 0 <= k < |init| ==> init[k] == ss[k];
    }
  }

  /** A conversion that succeeds converts every end time. */
  lemma ConvertEndTimesLength(epoch: Date, ss: seq<string>)
    requires ValidDate(epoch) && 1400 <= epoch.year <= 9999
    ensures ConvertEndTimes(epoch, ss).1 ==> |ConvertEndTimes(epoch, ss).0| == |ss|
  {
    ConvertEndTimesSpec(epoch, ss);
  }
}
