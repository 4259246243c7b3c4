/**
 * The monitoring tool itself: its settings and plot configuration, the day
 * files it writes the current values to, the window it reads back for the
 * time-evolution plots with its single cached window key, and the Execute
 * step that ties them together.
 */
module Monitor {
  import opened Wrappers
  import opened Calendar
  import opened TimeConversion
  import opened PlotConfig
  import opened DayStore

  /** The end time and length of the window last read. */
  datatype WindowKey = WindowKey(end: nat, frameMs: nat)

  /** One time-evolution drawing: window end, window length and file label. */
  datatype DrawRequest = DrawRequest(end: nat, frameMs: nat, fileLabel: string)

  /**
   * One element of each of the six plotted series: the timestamp, the PPS
   * rate, the frame rate, the integrated charge, the buffer size and the
   * time-axis label.
   */
  datatype PlotPoint = PlotPoint(time: nat, ppsRate: real, frameRate: real, intCharge: real,
                                 bufferSize: int, timeLabel: Clock)

  /** The point a record contributes, labelled with the corrected clock. */
  function PointOf(epoch: Date, r: Record): PlotPoint
    requires ValidDate(epoch)
  {
    PlotPoint(r.time, r.payload.ppsRate, r.payload.frameRate, r.payload.intCharge, r.payload.bufferSize,
              Label(epoch, r.time))
  }

  /** The points the records rs contribute, in order. */
  function Points(epoch: Date, rs: seq<Record>): (ps: seq<PlotPoint>)
    requires ValidDate(epoch)
    ensures |ps| == |rs|
  {
    if rs == [] then [] else Points(epoch, rs[..|rs| - 1]) + [PointOf(epoch, rs[|rs| - 1])]
  }

  /** Each record contributes its own point: the time, the four values and the corrected label. */
  lemma {:induction false} PointsSpec(epoch: Date, rs: seq<Record>)
    requires ValidDate(epoch)
    ensures forall k :: 0 <= k < |rs| ==>
              && Points(epoch, rs)[k].time == rs[k].time
              && Points(epoch, rs)[k].ppsRate == rs[k].payload.ppsRate
              && Points(epoch, rs)[k].frameRate == rs[k].payload.frameRate
              && Points(epoch, rs)[k].intCharge == rs[k].payload.intCharge
              && Points(epoch, rs)[k].bufferSize == rs[k].payload.bufferSize
              && Points(epoch, rs)[k].timeLabel == Label(epoch, rs[k].time)
  {
    if rs != [] {
      PointsSpec(epoch, rs[..|rs| - 1]);
    }
  }

  /** Taking one more record of c after before appends that record's point. */
  lemma PointsExtend(epoch: Date, before: seq<Record>, c: seq<Record>, k: nat)
    requires ValidDate(epoch) && k < |c|
    ensures Points(epoch, before + c[..k + 1]) == Points(epoch, before + c[..k]) + [PointOf(epoch, c[k])]
  {
    var rs := before + c[..k];
    assert before + c[..k + 1] == rs + [c[k]];
    assert (rs + [c[k]])[..|rs|] == rs;
  }

  /** The plot type that draws a window; every other type is reported and skipped. */
  const TimeEvolution: string := "TimeEvolution"

  /** A configured end time of 0 stands for the current timestamp. */
  function EffectiveEnd(end: nat, tCurrent: nat): (e: nat)
    ensures end != 0 ==> e == end
    ensures end == 0 ==> e == tCurrent
  {
    if end == 0 then tCurrent else end
  }

  /** One drawing per "TimeEvolution" entry among a row's plot types. */
  function RowRequests(end: nat, frameMs: nat, fileLabel: string, types: seq<string>): seq<DrawRequest>
    decreases |types|
  {
    if types == [] then []
    else RowRequests(end, frameMs, fileLabel, types[..|types| - 1])
         + (if types[|types| - 1] == TimeEvolution then [DrawRequest(end, frameMs, fileLabel)] else [])
  }

  /** The drawings the first n configuration rows ask for, row by row. */
  function Requests(timeFrames: seq<nat>, endTimes: seq<nat>, fileLabels: seq<string>,
                    plotTypes: seq<seq<string>>, tCurrent: nat, n: nat): seq<DrawRequest>
    requires n <= |timeFrames| <= |endTimes| && |timeFrames| <= |fileLabels| && |timeFrames| <= |plotTypes|
  {
    if n == 0 then []
    else Requests(timeFrames, endTimes, fileLabels, plotTypes, tCurrent, n - 1)
         + RowRequests(EffectiveEnd(endTimes[n - 1], tCurrent), timeFrames[n - 1], fileLabels[n - 1], plotTypes[n - 1])
  }

  /**
   * The first timestamp whose minute count, taken with a cast to a signed
   * 32-bit int when a timestamp is converted to a date, no longer fits.
   */
  const CastLimitMs: nat := 2147483648 * MsPerMinute

  /**
   * Every drawn window is at most as long as its end time, and every
   * timestamp converted while reading it (its start, its end, and the day
   * loop's, which stay below the end plus one day) has a minute count
   * that fits an int.
   */
  predicate WindowsFit(timeFrames: seq<nat>, endTimes: seq<nat>, plotTypes: seq<seq<string>>, tCurrent: nat)
    requires |timeFrames| <= |endTimes| && |timeFrames| <= |plotTypes|
  {
    forall i :: 0 <= i < |timeFrames| && TimeEvolution in plotTypes[i] ==>
      timeFrames[i] <= EffectiveEnd(endTimes[i], tCurrent) && EffectiveEnd(endTimes[i], tCurrent) + MsPerDay <= CastLimitMs
  }

  /**
   * A row draws its window once per "TimeEvolution" entry among its plot
   * types and draws nothing for any other type.
   */
  lemma {:induction false} RowRequestsSpec(end: nat, frameMs: nat, fileLabel: string, types: seq<string>)
    ensures |RowRequests(end, frameMs, fileLabel, types)| == multiset(types)[TimeEvolution]
    ensures forall q :: 0 <= q < |RowRequests(end, frameMs, fileLabel, types)| ==>
              RowRequests(end, frameMs, fileLabel, types)[q] == DrawRequest(end, frameMs, fileLabel)
    decreases |types|
  {
    if types != [] {
      var init := types[..|types| - 1];
      assert types == init + [types[|types| - 1]];
      RowRequestsSpec(end, frameMs, fileLabel, init);
    }
  }

  /** The drawings of a row's first j + 1 plot types extend those of its first j by the (j+1)-th's. */
  lemma RowRequestsStep(end: nat, frameMs: nat, fileLabel: string, types: seq<string>, j: nat)
    requires j < |types|
    ensures RowRequests(end, frameMs, fileLabel, types[..j + 1])
            == RowRequests(end, frameMs, fileLabel, types[..j])
               + (if types[j] == TimeEvolution then [DrawRequest(end, frameMs, fileLabel)] else [])
  {
    assert types[..j + 1][..j] == types[..j];
  }

  /** After the drawings of the first i rows, those of row i + 1 complete the first i + 1. */
  lemma RequestsStep(before: seq<DrawRequest>, timeFrames: seq<nat>, endTimes: seq<nat>, fileLabels: seq<string>,
                     plotTypes: seq<seq<string>>, tCurrent: nat, i: nat)
    requires i < |timeFrames| <= |endTimes| && |timeFrames| <= |fileLabels| && |timeFrames| <= |plotTypes|
    ensures before + Requests(timeFrames, endTimes, fileLabels, plotTypes, tCurrent, i)
            + RowRequests(EffectiveEnd(endTimes[i], tCurrent), timeFrames[i], fileLabels[i], plotTypes[i])
            == before + Requests(timeFrames, endTimes, fileLabels, plotTypes, tCurrent, i + 1)
  {
    var row := RowRequests(EffectiveEnd(endTimes[i], tCurrent), timeFrames[i], fileLabels[i], plotTypes[i]);
    assert before + Requests(timeFrames, endTimes, fileLabels, plotTypes, tCurrent, i) + row
           == before + (Requests(timeFrames, endTimes, fileLabels, plotTypes, tCurrent, i) + row);
  }

  /** Drawing r is the one row i asks for, if row i holds "TimeEvolution". */
  predicate DrawnFrom(r: DrawRequest, timeFrames: seq<nat>, endTimes: seq<nat>, fileLabels: seq<string>,
                      plotTypes: seq<seq<string>>, tCurrent: nat, i: nat)
    requires i < |timeFrames| <= |endTimes| && |timeFrames| <= |fileLabels| && |timeFrames| <= |plotTypes|
  {
    TimeEvolution in plotTypes[i]
    && r == DrawRequest(EffectiveEnd(endTimes[i], tCurrent), timeFrames[i], fileLabels[i])
  }

  /** Drawing r is the one some row before row n asks for. */
  predicate DrawnFromSome(r: DrawRequest, timeFrames: seq<nat>, endTimes: seq<nat>, fileLabels: seq<string>,
                          plotTypes: seq<seq<string>>, tCurrent: nat, n: nat)
    requires n <= |timeFrames| <= |endTimes| && |timeFrames| <= |fileLabels| && |timeFrames| <= |plotTypes|
  {
    exists i: nat :: i < n && DrawnFrom(r, timeFrames, endTimes, fileLabels, plotTypes, tCurrent, i)
  }

  /**
   * Every drawing comes from a row holding "TimeEvolution", with the row's
   * window length and label and its end time, 0 replaced by the current
   * timestamp.
   */
  lemma {:induction false} RequestsFromRows(timeFrames: seq<nat>, endTimes: seq<nat>, fileLabels: seq<string>,
                                            plotTypes: seq<seq<string>>, tCurrent: nat, n: nat)
    requires n <= |timeFrames| <= |endTimes| && |timeFrames| <= |fileLabels| && |timeFrames| <= |plotTypes|
    ensures forall q :: 0 <= q < |Requests(timeFrames, endTimes, fileLabels, plotTypes, tCurrent, n)| ==>
              DrawnFromSome(Requests(timeFrames, endTimes, fileLabels, plotTypes, tCurrent, n)[q],
                            timeFrames, endTimes, fileLabels, plotTypes, tCurrent, n)
  {
    if n > 0 {
      RequestsFromRows(timeFrames, endTimes, fileLabels, plotTypes, tCurrent, n - 1);
      var prev := Requests(timeFrames, endTimes, fileLabels, plotTypes, tCurrent, n - 1);
      var end := EffectiveEnd(endTimes[n - 1], tCurrent);
      var row := RowRequests(end, timeFrames[n - 1], fileLabels[n - 1], plotTypes[n - 1]);
      RowRequestsSpec(end, timeFrames[n - 1], fileLabels[n - 1], plotTypes[n - 1]);
      var rs := Requests(timeFrames, endTimes, fileLabels, plotTypes, tCurrent, n);
      assert rs == prev + row;
      forall q | 0 <= q < |rs|
        ensures DrawnFromSome(rs[q], timeFrames, endTimes, fileLabels, plotTypes, tCurrent, n)
      {
        if q < |prev| {
          assert DrawnFromSome(prev[q], timeFrames, endTimes, fileLabels, plotTypes, tCurrent, n - 1);
          var i: nat :| i < n - 1 && DrawnFrom(prev[q], timeFrames, endTimes, fileLabels, plotTypes, tCurrent, i);
          assert rs[q] == prev[q];
          assert DrawnFrom(rs[q], timeFrames, endTimes, fileLabels, plotTypes, tCurrent, i);
        } else {
          assert rs[q] == row[q - |prev|];
          assert TimeEvolution in multiset(plotTypes[n - 1]);
          assert DrawnFrom(rs[q], timeFrames, endTimes, fileLabels, plotTypes, tCurrent, n - 1);
        }
      }
    }
  }

  /**
   * One pass over a file's entries: the in-window timestamps in stored
   * order, and for each of them the first entry that has it (a later entry
   * with the same timestamp leaves the map as it is).
   */
  method CollectWindow(entries: seq<Record>, start: nat, end: nat)
    returns (timestamps: seq<nat>, firstEntry: map<nat, nat>)
    ensures timestamps == FilteredTimes(entries, start, end)
    ensures forall t :: t in timestamps ==>
              t in firstEntry && HasTime(entries, t) && firstEntry[t] == FirstIndexOf(entries, t)
  {
    timestamps := [];
    firstEntry := map[];
    var i := 0;
    while i < |entries|
      invariant 0 <= i <= |entries|
      invariant timestamps == FilteredTimes(entries[..i], start, end)
      invariant forall t :: t in firstEntry <==> t in timestamps
      invariant forall t :: t in firstEntry ==>
                  firstEntry[t] < i && entries[firstEntry[t]].time == t
                  && forall j :: 0 <= j < firstEntry[t] ==> entries[j].time != t
    {
      var t := entries[i].time;
      assert entries[..i + 1] == entries[..i] + [entries[i]];
      if start <= t <= end {
        if t !in firstEntry {
          FilteredTimesSpec(entries[..i], start, end);
          forall j | 0 <= j < i ensures entries[j].time != t {
            assert entries[..i][j] == entries[j];
          }
          firstEntry := firstEntry[t := i];
        }
        timestamps := timestamps + [t];
      }
      i := i + 1;
    }
    assert entries[..i] == entries;
    forall t | t in timestamps
      ensures HasTime(entries, t) && firstEntry[t] == FirstIndexOf(entries, t)
    {
      FirstIndexOfUnique(entries, t, firstEntry[t]);
    }
  }

  /**
   * The indices of a file's entries in the order ReadFromFile visits them:
   * the in-window timestamps sorted ascending, each mapped to the first
   * entry that has it.
   */
  method SortedEntryIndices(entries: seq<Record>, start: nat, end: nat) returns (order: seq<nat>)
    ensures order == ContributionOrder(entries, start, end)
  {
    var timestamps, firstEntry := CollectWindow(entries, start, end);
    var sorted := SortAscending(timestamps);
    SortAscendingSpec(timestamps);
    ghost var spec := ContributionOrder(entries, start, end);
    ContributionOrderSpec(entries, start, end);
    order := [];
    var k := 0;
    while k < |sorted|
      invariant 0 <= k <= |sorted|
      invariant order == spec[..k]
    {
      var t := sorted[k];
      assert t in multiset(timestamps);
      assert t in timestamps;
      assert spec[k] == FirstIndexOf(entries, t);
      order := order + [firstEntry[t]];
      k := k + 1;
    }
  }

  /** The lines of the configuration file; a file that cannot be opened has none. */
  function ConfigLines(file: Option<seq<string>>): seq<string> {
    match file
    case None => []
    case Some(lines) => lines
  }

  /** Once a line cannot be read, the lines after it change nothing. */
  lemma {:induction false} ReadConfigStops(lines: seq<string>, i: nat)
    requires i <= |lines| && !ReadConfigLines(lines[..i]).ok
    ensures ReadConfigLines(lines) == ReadConfigLines(lines[..i])
    decreases |lines|
  {
    if i < |lines| {
      var init := lines[..|lines| - 1];
      assert init[..i] == lines[..i];
      ReadConfigStops(init, i);
    } else {
      assert lines[..i] == lines;
    }
  }

  /** Once an end time cannot be read, the end times after it change nothing. */
  lemma {:induction false} ConvertEndTimesStops(epoch: Date, ss: seq<string>, i: nat)
    requires ValidDate(epoch) && 1400 <= epoch.year <= 9999
    requires i <= |ss| && !ConvertEndTimes(epoch, ss[..i]).1
    ensures ConvertEndTimes(epoch, ss) == ConvertEndTimes(epoch, ss[..i])
    decreases |ss|
  {
    if i < |ss| {
      var init := ss[..|ss| - 1];
      assert init[..i] == ss[..i];
      ConvertEndTimesStops(epoch, init, i);
    } else {
      assert ss[..i] == ss;
    }
  }

  class MonitorLAPPDData {
    /** Midnight of the configured start date; every timestamp counts milliseconds from it. */
    const epoch: Date

    /** The settings, fixed once the tool is set up. */
    const updateFrequency: real
    const forceUpdate: int
    const imgExtension: string

    /** The plot configuration, one element per accepted configuration line. */
    var configTimeframes: seq<nat>
    var configEndtime: seq<string>
    var configLabel: seq<string>
    var configPlottypes: seq<seq<string>>
    var configEndtimeLong: seq<nat>
    /** Whether reading the configuration went through without an exception. */
    var configured: bool

    /** The scheduler: the update period and the last restart, in seconds since the epoch. */
    const periodUpdate: nat
    var last: int

    /** The current timestamp. */
    var tCurrent: nat

    /** The day files. */
    var files: Store

    /**
     * The window read last: the six parallel series (timestamps, PPS rate,
     * frame rate, integrated charge, buffer size, time-axis label), one
     * point per element, since they are always cleared and appended together.
     */
    var plotPoints: seq<PlotPoint>

    /** The key of the window read last; None before the first read. */
    var readKey: Option<WindowKey>

    /** The day files as they were when the window was read last. */
    ghost var readFrom: Store
    /** The records read last. */
    ghost var readWindow: seq<Record>
    /** How many times the day files have been read. */
    ghost var readPasses: nat
    /** The time-evolution drawings made so far. */
    ghost var drawLog: seq<DrawRequest>

    /**
     * The settings are normalised, the period follows the frequency, the
     * configuration was read and holds one element per entry in each series,
     * and every day file holds only entries of its own day.
     */
    predicate Valid()
      reads this`configured, this`configTimeframes, this`configEndtime, this`configLabel, this`configPlottypes,
            this`configEndtimeLong, this`files
    {
      && ValidDate(epoch) && 1400 <= epoch.year <= 9999
      && SettingsNormal(Settings(updateFrequency, forceUpdate, imgExtension))
      && periodUpdate == UpdatePeriodSeconds(updateFrequency)
      && configured
      && |configEndtime| == |configTimeframes| && |configLabel| == |configTimeframes|
      && |configPlottypes| == |configTimeframes| && |configEndtimeLong| == |configTimeframes|
      && WellFiled(epoch, files)
    }

    /** The series hold the records rs, one point each, in order. */
    predicate PlotsHold(rs: seq<Record>)
      requires ValidDate(epoch)
      reads this`plotPoints
    {
      plotPoints == Points(epoch, rs)
    }

    /** The series hold the records read last. */
    ghost predicate CacheConsistent()
      requires ValidDate(epoch)
      reads this`readKey, this`readWindow, this`plotPoints
    {
      readKey.Some? ==> PlotsHold(readWindow)
    }

    /** The records read last, and so the plotted series, ascend by timestamp. */
    ghost predicate SeriesSorted()
      reads this`readWindow
    {
      SortedTimes(Times(readWindow))
    }

    /**
     * The records read last are the window of the cached key over the day
     * files as they were at that read. It is stated for every k that is the
     * cached key, with the window as trigger, so that a method which only
     * hands it on does not expand the window's definition.
     */
    ghost predicate WindowRecorded()
      requires ValidDate(epoch)
      reads this`readKey, this`readWindow, this`readFrom
    {
      forall k {:trigger Window(epoch, readFrom, k.end, k.frameMs)} :: readKey == Some(k) ==>
        k.frameMs <= k.end && readWindow == Window(epoch, readFrom, k.end, k.frameMs)
    }

    /** The cache: its key, the series, the records and files of the last read, and the reads so far. */
    ghost function CacheView(): (Option<WindowKey>, seq<PlotPoint>, seq<Record>, Store, nat)
      reads this`readKey, this`plotPoints, this`readWindow, this`readFrom, this`readPasses
    {
      (readKey, plotPoints, readWindow, readFrom, readPasses)
    }

    /** The cached key is the window of the latest drawing. */
    ghost predicate KeyOfLastDrawing()
      reads this`readKey, this`drawLog
    {
      drawLog != [] ==> readKey == Some(WindowKey(drawLog[|drawLog| - 1].end, drawLog[|drawLog| - 1].frameMs))
    }

    /**
     * Writes the values processed for the current data file under the
     * current timestamp to the file of its day, unless that file already
     * holds an entry with this timestamp.
     */
    method WriteToFile(payload: Payload)
      requires ValidDate(epoch)
      modifies this`files
      ensures files == AppendIfAbsent(old(files), DayKey(epoch, tCurrent), Record(tCurrent, payload))
    {
      var key := DayKey(epoch, tCurrent);
      var entries := Entries(files, key);
      var omit := false;
      var i := 0;
      while i < |entries|
        invariant 0 <= i <= |entries|
        invariant omit <==> HasTime(entries[..i], tCurrent)
      {
        assert entries[..i + 1] == entries[..i] + [entries[i]];
        if entries[i].time == tCurrent {
          omit := true;
        }
        i := i + 1;
      }
      assert entries[..i] == entries;
      if omit {
        return;
      }
      files := files[key := Tree(entries + [Record(tCurrent, payload)])];
    }

    /**
     * Appends one day file's in-window entries to the six series, in the
     * order SortedEntryIndices gives, checking each entry against the
     * window once more as it is read.
     */
    method EmitFile(entries: seq<Record>, start: nat, end: nat, ghost before: seq<Record>)
      requires ValidDate(epoch) && PlotsHold(before)
      modifies this`plotPoints
      ensures PlotsHold(before + Contribution(entries, start, end))
    {
      ghost var c := Contribution(entries, start, end);
      ContributionInWindow(entries, start, end);
      var order := SortedEntryIndices(entries, start, end);
      assert before + c[..0] == before;
      var k := 0;
      while k < |order|
        invariant 0 <= k <= |order| && |order| == |c|
        invariant PlotsHold(before + c[..k])
      {
        ContributionAt(entries, start, end, k);
        var r := entries[order[k]];
        PointsExtend(epoch, before, c, k);
        if start <= r.time <= end {
          plotPoints := plotPoints + [PointOf(epoch, r)];
        }
        k := k + 1;
      }
      assert c[..k] == c;
    }

    /**
     * Fills the cleared series with the window of frameMs milliseconds
     * ending at end: one pass per day from the day of the window's start to
     * the day of its end, each reading that day's file if it exists and
     * holds the monitoring tree.
     */
    method ReadWindow(end: nat, frameMs: nat)
      requires ValidDate(epoch) && frameMs <= end && PlotsHold([])
      modifies this`plotPoints
      ensures PlotsHold(Window(epoch, files, end, frameMs))
    {
      var start := end - frameMs;
      var days := files;
      var numberOfDays := DaySpan(epoch, start, end);
      DaySpanIsDayDifference(epoch, start, end);
      var iDay := 0;
      while iDay <= numberOfDays
        invariant 0 <= iDay <= numberOfDays + 1
        invariant PlotsHold(Visited(days, VisitKeys(epoch, start, iDay), start, end))
      {
        var key := DayKey(epoch, start + iDay * MsPerDay);
        ghost var visited := VisitKeys(epoch, start, iDay);
        ghost var read := Visited(days, visited, start, end);
        assert VisitKeys(epoch, start, iDay + 1) == visited + [key];
        assert (visited + [key])[..iDay] == visited;
        if key in days && days[key].Tree? {
          EmitFile(days[key].entries, start, end, read);
        } else {
          MissingFileContributesNothing(days, key, start, end);
          assert read + Contribution(Entries(days, key), start, end) == read;
        }
        iDay := iDay + 1;
      }
      WindowVisits(epoch, days, start, end, frameMs, iDay);
    }

    /**
     * Clears the six series, fills them with the window of frameMs
     * milliseconds ending at end, and records the window's key.
     */
    method ReadFromFile(end: nat, frameMs: nat)
      requires ValidDate(epoch) && frameMs <= end && WellFiled(epoch, files)
      modifies this`plotPoints, this`readKey, this`readFrom, this`readWindow, this`readPasses
      ensures readKey == Some(WindowKey(end, frameMs)) && readFrom == files
      ensures readWindow == Window(epoch, files, end, frameMs)
      ensures readPasses == old(readPasses) + 1
      ensures CacheConsistent() && WindowRecorded() && SeriesSorted()
    {
      WindowSorted(epoch, files, end, frameMs);
      plotPoints, readKey, readFrom, readWindow, readPasses
        := [], Some(WindowKey(end, frameMs)), files, Window(epoch, files, end, frameMs), readPasses + 1;
      ReadWindow(end, frameMs);
    }

    /** The four configuration series hold the entries es, one element per entry. */
    predicate ConfigHolds(es: seq<PlotEntry>)
      reads this`configTimeframes, this`configEndtime, this`configLabel, this`configPlottypes
    {
      && |configTimeframes| == |es| && |configEndtime| == |es| && |configLabel| == |es| && |configPlottypes| == |es|
      && forall k :: 0 <= k < |es| ==>
           && configTimeframes[k] == es[k].frameMs
           && configEndtime[k] == es[k].endTime
           && configLabel[k] == es[k].fileLabel
           && configPlottypes[k] == es[k].plotTypes
    }

    /**
     * Reads the configuration lines in order: every line without '#' and
     * with at least four tab-separated fields appends an entry (window
     * length, end time text, file label, plot types) to the four series;
     * an hours field that cannot be read stops the reading there.
     */
    method ReadPlotLines(lines: seq<string>) returns (ok: bool)
      requires ConfigHolds([])
      modifies this`configTimeframes, this`configEndtime, this`configLabel, this`configPlottypes
      ensures ConfigHolds(ReadConfigLines(lines).entries)
      ensures ok == ReadConfigLines(lines).ok
    {
      var i := 0;
      while i < |lines|
        invariant 0 <= i <= |lines|
        invariant ReadConfigLines(lines[..i]).ok
        invariant ConfigHolds(ReadConfigLines(lines[..i]).entries)
      {
        var line := lines[i];
        assert lines[..i + 1][..i] == lines[..i] && lines[..i + 1][i] == line;
        var values := SplitTabs(line);
        if '#' in line || |values| < 4 {
          i := i + 1;
          continue;
        }
        var hours := HoursToMs(values[0]);
        if hours.None? {
          assert EntryOf(line).None?;
          assert ReadConfigLines(lines[..i + 1]) == ConfigRead(ReadConfigLines(lines[..i]).entries, false);
          ReadConfigStops(lines, i + 1);
          ok := false;
          return;
        }
        configTimeframes := configTimeframes + [hours.value];
        configEndtime := configEndtime + [values[1]];
        configLabel := configLabel + [values[2]];
        configPlottypes := configPlottypes + [values[3..]];
        i := i + 1;
      }
      assert lines[..i] == lines;
      ok := true;
    }

    /**
     * Converts the configured end times in order, appending 0 for
     * "TEND_LASTFILE" and for any text not 15 characters long, and the
     * parsed time otherwise; a 15-character text that cannot be parsed
     * stops the conversion there.
     */
    method ConvertConfigEndTimes() returns (ok: bool)
      requires ValidDate(epoch) && 1400 <= epoch.year <= 9999 && configEndtimeLong == []
      modifies this`configEndtimeLong
      ensures (configEndtimeLong, ok) == ConvertEndTimes(epoch, configEndtime)
    {
      var texts := configEndtime;
      assert texts[..0] == [];
      var j := 0;
      while j < |texts|
        invariant 0 <= j <= |texts|
        invariant ConvertEndTimes(epoch, texts[..j]) == (configEndtimeLong, true)
      {
        var text := texts[j];
        assert texts[..j + 1][..j] == texts[..j] && texts[..j + 1][j] == text;
        if text == "TEND_LASTFILE" {
          configEndtimeLong := configEndtimeLong + [0];
        } else if |text| == 15 {
          var fields := IsoFields(text);
          if fields.None? {
            ConvertEndTimesStops(epoch, texts, j + 1);
            ok := false;
            return;
          }
          EndTimeRange(epoch, fields.value);
          configEndtimeLong := configEndtimeLong + [ToUnsigned64(MsFromEpoch(epoch, fields.value))];
        } else {
          configEndtimeLong := configEndtimeLong + [0];
        }
        j := j + 1;
      }
      assert texts[..j] == texts;
      ok := true;
    }

    /**
     * Reads the plot configuration from its file, if the file could be
     * opened, then converts the end times; ok == false stands for a reading
     * or conversion that would throw.
     */
    method ReadInConfiguration(file: Option<seq<string>>) returns (ok: bool)
      requires ValidDate(epoch) && 1400 <= epoch.year <= 9999
      requires ConfigHolds([]) && configEndtimeLong == []
      modifies this`configTimeframes, this`configEndtime, this`configLabel, this`configPlottypes,
               this`configEndtimeLong
      ensures ConfigHolds(ReadConfigLines(ConfigLines(file)).entries)
      ensures ok == (ReadConfigLines(ConfigLines(file)).ok && ConvertEndTimes(epoch, configEndtime).1)
      ensures configEndtimeLong
              == if ReadConfigLines(ConfigLines(file)).ok then ConvertEndTimes(epoch, configEndtime).0 else []
    {
      ok := ReadPlotLines(ConfigLines(file));
      if ok {
        ok := ConvertConfigEndTimes();
      }
    }

    /**
     * Draws the window of frameMs milliseconds ending at end, reading the
     * day files only when the window differs from the one read last. The
     * series then hold the records of that read, which are the window over
     * the files as they were at that read.
     */
    method DrawTimeEvolution(end: nat, frameMs: nat, fileLabel: string)
      requires ValidDate(epoch) && frameMs <= end && CacheConsistent()
      requires WellFiled(epoch, files) && SeriesSorted()
      modifies this`plotPoints, this`readKey, this`readFrom, this`readWindow, this`readPasses,
               this`drawLog
      ensures drawLog == old(drawLog) + [DrawRequest(end, frameMs, fileLabel)]
      ensures readKey == Some(WindowKey(end, frameMs)) && CacheConsistent() && KeyOfLastDrawing()
      ensures old(readKey) == readKey ==>
                readPasses == old(readPasses) && readFrom == old(readFrom) && readWindow == old(readWindow)
                && unchanged(this`plotPoints)
      ensures old(readKey) != readKey ==>
                readPasses == old(readPasses) + 1 && readFrom == files && WindowRecorded()
      ensures old(WindowRecorded()) ==> WindowRecorded()
      ensures SeriesSorted()
    {
      if readKey != Some(WindowKey(end, frameMs)) {
        ReadFromFile(end, frameMs);
      }
      drawLog := drawLog + [DrawRequest(end, frameMs, fileLabel)];
    }

    /**
     * One plot type of a row: "TimeEvolution" draws the row's window, any
     * other type is reported and skipped.
     */
    method DrawPlotType(end: nat, frameMs: nat, fileLabel: string, plotType: string)
      requires ValidDate(epoch) && CacheConsistent() && WindowRecorded()
      requires WellFiled(epoch, files) && SeriesSorted()
      requires plotType == TimeEvolution ==> frameMs <= end
      modifies this`plotPoints, this`readKey, this`readFrom, this`readWindow, this`readPasses,
               this`drawLog
      ensures drawLog == old(drawLog) + (if plotType == TimeEvolution then [DrawRequest(end, frameMs, fileLabel)] else [])
      ensures readPasses - old(readPasses) <= |drawLog| - |old(drawLog)|
      ensures CacheConsistent() && WindowRecorded() && SeriesSorted()
      ensures |drawLog| > |old(drawLog)| ==> readKey == Some(WindowKey(end, frameMs)) && KeyOfLastDrawing()
      ensures |drawLog| == |old(drawLog)| ==> CacheView() == old(CacheView()) && drawLog == old(drawLog)
    {
      if plotType == TimeEvolution {
        DrawTimeEvolution(end, frameMs, fileLabel);
      }
    }

    /**
     * Draws one configuration row: its window once for every
     * "TimeEvolution" among its plot types, nothing for any other type.
     */
    method DrawRow(end: nat, frameMs: nat, fileLabel: string, types: seq<string>)
      requires ValidDate(epoch) && CacheConsistent() && WindowRecorded()
      requires WellFiled(epoch, files) && SeriesSorted()
      requires TimeEvolution in types ==> frameMs <= end
      modifies this`plotPoints, this`readKey, this`readFrom, this`readWindow, this`readPasses,
               this`drawLog
      ensures drawLog == old(drawLog) + RowRequests(end, frameMs, fileLabel, types)
      ensures readPasses - old(readPasses) <= |drawLog| - |old(drawLog)|
      ensures CacheConsistent() && WindowRecorded() && SeriesSorted()
      ensures |drawLog| > |old(drawLog)| ==> readKey == Some(WindowKey(end, frameMs)) && KeyOfLastDrawing()
      ensures |drawLog| == |old(drawLog)| ==> CacheView() == old(CacheView()) && drawLog == old(drawLog)
    {
      var j := 0;
      while j < |types|
        invariant 0 <= j <= |types|
        invariant drawLog == old(drawLog) + RowRequests(end, frameMs, fileLabel, types[..j])
        invariant readPasses - old(readPasses) <= |drawLog| - |old(drawLog)|
        invariant CacheConsistent() && WindowRecorded() && SeriesSorted()
        invariant |drawLog| > |old(drawLog)| ==> readKey == Some(WindowKey(end, frameMs)) && KeyOfLastDrawing()
        invariant |drawLog| == |old(drawLog)| ==> CacheView() == old(CacheView()) && drawLog == old(drawLog)
      {
        RowRequestsStep(end, frameMs, fileLabel, types, j);
        DrawPlotType(end, frameMs, fileLabel, types[j]);
        j := j + 1;
      }
      assert types[..j] == types;
    }

    /**
     * Draws, row by row, every configured plot: a "TimeEvolution" type
     * draws the row's window, an end time of 0 standing for the current
     * timestamp; any other type is skipped.
     */
    method UpdateMonitorPlots(timeFrames: seq<nat>, endTimes: seq<nat>, fileLabels: seq<string>,
                              plotTypes: seq<seq<string>>)
      requires ValidDate(epoch) && CacheConsistent() && WindowRecorded()
      requires WellFiled(epoch, files) && SeriesSorted()
      requires |endTimes| == |timeFrames| && |fileLabels| == |timeFrames| && |plotTypes| == |timeFrames|
      requires WindowsFit(timeFrames, endTimes, plotTypes, tCurrent)
      modifies this`plotPoints, this`readKey, this`readFrom, this`readWindow, this`readPasses,
               this`drawLog
      ensures drawLog == old(drawLog) + Requests(timeFrames, endTimes, fileLabels, plotTypes, tCurrent, |timeFrames|)
      ensures readPasses - old(readPasses) <= |drawLog| - |old(drawLog)|
      ensures CacheConsistent()
      ensures WindowRecorded() && SeriesSorted()
      ensures |drawLog| > |old(drawLog)| ==> KeyOfLastDrawing()
      ensures |drawLog| == |old(drawLog)| ==> CacheView() == old(CacheView()) && drawLog == old(drawLog)
    {
      var i := 0;
      while i < |timeFrames|
        invariant 0 <= i <= |timeFrames|
        invariant drawLog == old(drawLog) + Requests(timeFrames, endTimes, fileLabels, plotTypes, tCurrent, i)
        invariant readPasses - old(readPasses) <= |drawLog| - |old(drawLog)|
        invariant CacheConsistent()
        invariant WindowRecorded()
        invariant SeriesSorted()
        invariant |drawLog| > |old(drawLog)| ==> KeyOfLastDrawing()
        invariant |drawLog| == |old(drawLog)| ==> CacheView() == old(CacheView()) && drawLog == old(drawLog)
      {
        RequestsStep(old(drawLog), timeFrames, endTimes, fileLabels, plotTypes, tCurrent, i);
        DrawRow(EffectiveEnd(endTimes[i], tCurrent), timeFrames[i], fileLabels[i], plotTypes[i]);
        i := i + 1;
      }
    }

    /**
     * Sets the tool up: normalises the settings, derives the update period
     * from the frequency's whole minutes, reads the plot configuration and
     * starts the scheduler at startSeconds. The day files already written
     * are existing; no window has been read yet.
     */
    constructor Initialise(given: Settings, startDate: Date, configFile: Option<seq<string>>,
                           existing: Store, startSeconds: int)
      requires ValidDate(startDate) && 1400 <= startDate.year <= 9999 && WellFiled(startDate, existing)
      ensures epoch == startDate && files == existing && last == startSeconds && readKey == None
      ensures Settings(updateFrequency, forceUpdate, imgExtension) == NormaliseSettings(given)
      ensures periodUpdate == UpdatePeriodSeconds(updateFrequency)
      ensures ConfigHolds(ReadConfigLines(ConfigLines(configFile)).entries)
      ensures configured == (ReadConfigLines(ConfigLines(configFile)).ok && ConvertEndTimes(epoch, configEndtime).1)
      ensures configured ==> Valid() && CacheConsistent() && WindowRecorded() && KeyOfLastDrawing() && SeriesSorted()
      ensures configEndtimeLong
              == if ReadConfigLines(ConfigLines(configFile)).ok then ConvertEndTimes(epoch, configEndtime).0 else []
      ensures plotPoints == [] && drawLog == [] && readPasses == 0
    {
      epoch := startDate;
      var normal := NormaliseSettings(given);
      updateFrequency, forceUpdate, imgExtension := normal.updateFrequency, normal.forceUpdate, normal.imgExtension;
      configTimeframes, configEndtime, configLabel, configPlottypes, configEndtimeLong := [], [], [], [], [];
      configured := false;
      periodUpdate := UpdatePeriodSeconds(normal.updateFrequency);
      last := startSeconds;
      tCurrent := 0;
      files := existing;
      plotPoints := [];
      readKey, readFrom, readWindow, readPasses, drawLog := None, map[], [], 0, [];
      new;
      assert CacheConsistent() && WindowRecorded() && KeyOfLastDrawing() && SeriesSorted();
      configured := ReadInConfiguration(configFile);
      ConvertEndTimesLength(epoch, configEndtime);
    }

    /** Writes the current values, keeping every entry in the file of its own day. */
    method StoreRecord(payload: Payload)
      requires Valid()
      modifies this`files
      ensures Valid()
      ensures files == AppendIfAbsent(old(files), DayKey(epoch, tCurrent), Record(tCurrent, payload))
    {
      ghost var before := files;
      WriteToFile(payload);
      AppendKeepsWellFiled(epoch, before, Record(tCurrent, payload));
    }

    /**
     * The new-data-file branch of a step: writes the values processed from
     * the file under the current timestamp and draws every configured plot.
     */
    method StoreAndDraw(payload: Payload)
      requires Valid() && CacheConsistent() && WindowRecorded() && SeriesSorted()
      requires WindowsFit(configTimeframes, configEndtimeLong, configPlottypes, tCurrent)
      modifies this`files, this`plotPoints, this`readKey, this`readFrom, this`readWindow, this`readPasses,
               this`drawLog
      ensures Valid()
      ensures CacheConsistent()
      ensures WindowRecorded() && SeriesSorted()
      ensures |drawLog| > |old(drawLog)| ==> KeyOfLastDrawing()
      ensures |drawLog| == |old(drawLog)| ==> CacheView() == old(CacheView()) && drawLog == old(drawLog)
      ensures files == AppendIfAbsent(old(files), DayKey(epoch, tCurrent), Record(tCurrent, payload))
      ensures drawLog == old(drawLog)
                         + Requests(configTimeframes, configEndtimeLong, configLabel, configPlottypes, tCurrent,
                                    |configTimeframes|)
    {
      StoreRecord(payload);
      UpdateMonitorPlots(configTimeframes, configEndtimeLong, configLabel, configPlottypes);
    }

    /**
     * The drawing part of a step at the current timestamp: a new data file
     * is stored and every configured plot drawn; a forced update draws them
     * all (again).
     */
    method StoreAndUpdate(dataFile: bool, payload: Payload)
      requires Valid() && CacheConsistent() && WindowRecorded() && SeriesSorted()
      requires dataFile || forceUpdate != 0 ==>
                 WindowsFit(configTimeframes, configEndtimeLong, configPlottypes, tCurrent)
      modifies this`files, this`plotPoints, this`readKey, this`readFrom, this`readWindow, this`readPasses,
               this`drawLog
      ensures Valid()
      ensures CacheConsistent()
      ensures WindowRecorded() && SeriesSorted()
      ensures |drawLog| > |old(drawLog)| ==> KeyOfLastDrawing()
      ensures |drawLog| == |old(drawLog)| ==> CacheView() == old(CacheView()) && drawLog == old(drawLog)
      ensures files == if dataFile
                       then AppendIfAbsent(old(files), DayKey(epoch, tCurrent), Record(tCurrent, payload))
                       else old(files)
      ensures var rs := Requests(configTimeframes, configEndtimeLong, configLabel, configPlottypes, tCurrent,
                                 |configTimeframes|);
              drawLog == old(drawLog) + (if dataFile then rs else []) + (if forceUpdate != 0 then rs else [])
    {
      StoreIfDataFile(dataFile, payload);
      ForcedUpdate();
    }

    /** The data-file branch of a step: store the values and draw every plot, or do nothing. */
    method StoreIfDataFile(dataFile: bool, payload: Payload)
      requires Valid() && CacheConsistent() && WindowRecorded() && SeriesSorted()
      requires dataFile ==> WindowsFit(configTimeframes, configEndtimeLong, configPlottypes, tCurrent)
      modifies this`files, this`plotPoints, this`readKey, this`readFrom, this`readWindow, this`readPasses,
               this`drawLog
      ensures Valid()
      ensures CacheConsistent()
      ensures WindowRecorded() && SeriesSorted()
      ensures |drawLog| > |old(drawLog)| ==> KeyOfLastDrawing()
      ensures |drawLog| == |old(drawLog)| ==> CacheView() == old(CacheView()) && drawLog == old(drawLog)
      ensures files == if dataFile
                       then AppendIfAbsent(old(files), DayKey(epoch, tCurrent), Record(tCurrent, payload))
                       else old(files)
      ensures drawLog == old(drawLog)
                         + if dataFile
                           then Requests(configTimeframes, configEndtimeLong, configLabel, configPlottypes, tCurrent,
                                         |configTimeframes|)
                           else []
    {
      if dataFile {
        StoreAndDraw(payload);
      } else {
        assert drawLog == old(drawLog) + [];
      }
    }

    /** A forced update draws every configured plot, whether or not a data file came. */
    method ForcedUpdate()
      requires Valid() && CacheConsistent() && WindowRecorded() && SeriesSorted()
      requires forceUpdate != 0 ==> WindowsFit(configTimeframes, configEndtimeLong, configPlottypes, tCurrent)
      modifies this`plotPoints, this`readKey, this`readFrom, this`readWindow, this`readPasses, this`drawLog
      ensures CacheConsistent()
      ensures WindowRecorded() && SeriesSorted()
      ensures |drawLog| > |old(drawLog)| ==> KeyOfLastDrawing()
      ensures |drawLog| == |old(drawLog)| ==> CacheView() == old(CacheView()) && drawLog == old(drawLog)
      ensures drawLog == old(drawLog)
                         + if forceUpdate != 0
                           then Requests(configTimeframes, configEndtimeLong, configLabel, configPlottypes, tCurrent,
                                         |configTimeframes|)
                           else []
    {
      if forceUpdate != 0 {
        UpdateMonitorPlots(configTimeframes, configEndtimeLong, configLabel, configPlottypes);
      } else {
        assert drawLog == old(drawLog) + [];
      }
    }

    /**
     * One execution step at now seconds since the epoch, with the values
     * processed from the data file the stream delivers. When the LAPPD data
     * stream reports a new data file, the values are written to the day
     * files and every configured plot is drawn; any other state is only
     * reported. A forced update draws every configured plot (again). The
     * scheduler restarts on a new data file and once the update period has
     * passed since its last restart, measured at the start of the step.
     */
    method Execute(hasLappd: bool, state: string, now: nat, payload: Payload)
      requires Valid() && CacheConsistent() && WindowRecorded() && SeriesSorted()
      requires (hasLappd && state == "DataFile") || forceUpdate != 0 ==>
                 WindowsFit(configTimeframes, configEndtimeLong, configPlottypes, now * 1000)
      modifies this`tCurrent, this`files, this`last,
               this`plotPoints, this`readKey, this`readFrom, this`readWindow, this`readPasses,
               this`drawLog
      ensures Valid()
      ensures CacheConsistent()
      ensures WindowRecorded() && SeriesSorted()
      ensures |drawLog| > |old(drawLog)| ==> KeyOfLastDrawing()
      ensures |drawLog| == |old(drawLog)| ==> CacheView() == old(CacheView()) && drawLog == old(drawLog)
      ensures tCurrent == now * 1000
      ensures files == if hasLappd && state == "DataFile"
                       then AppendIfAbsent(old(files), DayKey(epoch, now * 1000), Record(now * 1000, payload))
                       else old(files)
      ensures var rs := Requests(configTimeframes, configEndtimeLong, configLabel, configPlottypes, tCurrent,
                                 |configTimeframes|);
              drawLog == old(drawLog) + (if hasLappd && state == "DataFile" then rs else [])
                         + (if forceUpdate != 0 then rs else [])
      ensures last == if (hasLappd && state == "DataFile") || now - old(last) >= periodUpdate then now else old(last)
    {
      var dataFile := hasLappd && state == "DataFile";
      var duration := now - last;
      // Both restarts of the scheduler happen here at once: nothing the
      // step does in between reads last.
      tCurrent, last := now * 1000, if dataFile || duration >= periodUpdate then now else last;
      StoreAndUpdate(dataFile, payload);
    }
  }
}
