# MonitorLAPPDData in Dafny

This is a model of the monitoring tool `MonitorLAPPDData` of the ToolAnalysis
framework. The tool keeps the PSEC data values of the LAPPD data stream (PPS
rate, frame rate, buffer size and integrated charge) in one file per calendar
day. On each new data file it writes the processed values
under the current timestamp to the file of that day. It skips the write when
that file already holds an entry with this timestamp. It then draws the
time-evolution plots named in a plot configuration file. Each plot reads back a
window of `time_frame` hours ending at a configured end time. An end time of 0
stands for "now". The tool counts the days from the window's start to its end
and reads the file of each of those days. When start and end fall in the same
month number, it counts the day-of-month difference; otherwise it counts the
Gregorian date difference. From each file it takes the in-window entries, sorted
by timestamp. The window it read last is cached, and a plot over the same window
does not read the files again. The class in this model reads with the Gregorian
count for every window. The count as written is modelled beside it, together
with the windows on which the two differ (see Findings).

The model is split into these modules:

* `Calendar` (calendar.dfy) is the proleptic Gregorian calendar: ordinals,
  adding days, and the day count between dates.
* `Decimal` (decimal.dfy) is the decimal text of a number, as a C++ stream
  writes it.
* `TimeConversion` (timeconv.dfy) covers `convertTimeStamp_to_Date`:
  * A millisecond timestamp after the epoch becomes the day key `Y_M-D` that
    names a day file.
  * It also becomes the clock fields of a plot label.
* `PlotConfig` (plotconfig.dfy) holds the pure parts of `Initialise` and
  `ReadInConfiguration`:
  * the settings normalisation and the update period;
  * tab splitting, the configuration lines, and the end-time conversion.
* `DayStore` (daystore.dfy) holds the day files as a map from day key to the
  entries of the file's tree, together with:
  * the append-if-absent write;
  * the specification of the window that `ReadFromFile` reads back and its
    properties.
* `Monitor` (monitor.dfy) holds the class `MonitorLAPPDData`.
  * Its fields are the ones the tool updates in place:
    * the configuration vectors;
    * the current timestamp;
    * the day files;
    * the six plotted vectors, held as one sequence of points;
    * the cached window key;
    * the scheduler's `last`.
  * Its methods are `WriteToFile`, `ReadFromFile`, `ReadInConfiguration`,
    `UpdateMonitorPlots`, the cache test of `DrawTimeEvolutionLAPPDData`,
    `Initialise` and `Execute`.
  * Each method is proved against the specification functions of the other
    modules.

Time is counted in whole milliseconds after midnight of the configured start
date (the epoch), as a `nat`. The wall clock, the data stream's state and the
processed values are parameters of `Execute`. Existing day files are a
parameter of `Initialise`, and the configuration file's lines are a parameter
of `ReadInConfiguration`.

## Model

| member | source | states |
|---|---|---|
| PlotConfig.NormaliseSettings | UserTools/MonitorLAPPDData/MonitorLAPPDData.cpp:38-51 | A frequency below 0.1 minutes becomes 5. A force-update flag of 0 or 1 is kept, and any other becomes 0. An image format other than png/jpg/jpeg becomes jpg. Acceptable values are kept, and the result is always normal. |
| PlotConfig.NormaliseIdempotent | UserTools/MonitorLAPPDData/MonitorLAPPDData.cpp:38-51 | Normalising the settings a second time changes nothing. |
| PlotConfig.UpdatePeriodSeconds | UserTools/MonitorLAPPDData/MonitorLAPPDData.cpp:80 | The update period is the frequency's whole minutes: a multiple of 60 seconds, at most the frequency and less than a minute below it. |
| PlotConfig.SplitOn | UserTools/MonitorLAPPDData/MonitorLAPPDData.cpp:341-346 | Splitting on a separator gives at least one piece, and no piece holds the separator. |
| PlotConfig.JoinSplitOn | UserTools/MonitorLAPPDData/MonitorLAPPDData.cpp:341-346 | Joining the pieces with the separator gives the string back. |
| PlotConfig.LastPieceEmpty | UserTools/MonitorLAPPDData/MonitorLAPPDData.cpp:341-346 | The last piece is empty exactly when the string is empty or ends with the separator. |
| PlotConfig.SplitTabsJoin | UserTools/MonitorLAPPDData/MonitorLAPPDData.cpp:341-346 | The fields that `getline` with a tab delimiter yields hold no tab. Joined by tabs they give the line back, without a final empty field after a trailing tab. |
| PlotConfig.HoursToMs | UserTools/MonitorLAPPDData/MonitorLAPPDData.cpp:351 | The hours field is read exactly when it is a non-empty digit string, and the result is a whole number of hours in milliseconds. |
| PlotConfig.HoursToMsOfText | UserTools/MonitorLAPPDData/MonitorLAPPDData.cpp:351 | A number of hours h written in decimal is read as exactly h hours in milliseconds. |
| PlotConfig.ReadConfigLinesSpec | UserTools/MonitorLAPPDData/MonitorLAPPDData.cpp:336-361 | Every entry comes from a line without '#' that has at least four fields. Reading fails exactly when such a line has an unreadable hours field. A reading that goes through holds exactly the entries of the accepted lines, one per line and in line order (`AcceptedEntries`). |
| PlotConfig.EntriesFromAcceptedLines | UserTools/MonitorLAPPDData/MonitorLAPPDData.cpp:336-361 | Every entry read is the entry of some line without '#' that has at least four fields. |
| PlotConfig.ReadFailsOnBadLine | UserTools/MonitorLAPPDData/MonitorLAPPDData.cpp:336-361 | Reading fails if and only if some accepted line has an hours field that is not a non-empty digit string (see `PlotConfig.HoursToMs` under Left out). |
| PlotConfig.FailureHasBadLine | UserTools/MonitorLAPPDData/MonitorLAPPDData.cpp:336-361 | A reading that fails has an accepted line with an unreadable hours field. |
| PlotConfig.BadLineFails | UserTools/MonitorLAPPDData/MonitorLAPPDData.cpp:336-361 | An accepted line with an unreadable hours field makes the reading fail, whatever follows it. |
| PlotConfig.EntryPerAcceptedLine | UserTools/MonitorLAPPDData/MonitorLAPPDData.cpp:336-361 | A reading that goes through has as many entries as there are accepted lines. |
| PlotConfig.ReadConfigLinesInOrder | UserTools/MonitorLAPPDData/MonitorLAPPDData.cpp:336-361 | A reading that goes through holds exactly the entries of the accepted lines, entry k coming from the k-th accepted line. |
| PlotConfig.AcceptedEntriesSnoc | UserTools/MonitorLAPPDData/MonitorLAPPDData.cpp:336-361 | One more line at the end of the file adds its entry, if any, at the end of the accepted entries. |
| Monitor.ReadConfigStops | UserTools/MonitorLAPPDData/MonitorLAPPDData.cpp:351 | Once a line throws, the lines after it change nothing. |
| Monitor.MonitorLAPPDData.ReadPlotLines | UserTools/MonitorLAPPDData/MonitorLAPPDData.cpp:333-362 | The four configuration vectors hold exactly the entries of the lines read, in order. The success flag matches the line-reading specification. |
| PlotConfig.ToUnsigned64 | UserTools/MonitorLAPPDData/MonitorLAPPDData.cpp:388 | Casting a signed 64-bit count to `ULong64_t` keeps non-negative values and wraps negative ones by 2^64. |
| PlotConfig.EndTimeRange | UserTools/MonitorLAPPDData/MonitorLAPPDData.cpp:386-388 | The milliseconds between two dates of years 1400..9999 fit a signed 64-bit count. |
| PlotConfig.EndTimeRoundTrip | UserTools/MonitorLAPPDData/MonitorLAPPDData.cpp:385-389 | A well-formed `YYYYMMDDTHHMMSS` end time at or after the epoch converts to milliseconds whose label clock reads the configured date and time back. |
| PlotConfig.LabelOfWholeSeconds | UserTools/MonitorLAPPDData/MonitorLAPPDData.cpp:398-403 | The label of n days, h hours, m minutes and s seconds after the epoch reads the date n days after the epoch and the clock h:m:s. |
| PlotConfig.ConvertEndTimesSpec | UserTools/MonitorLAPPDData/MonitorLAPPDData.cpp:380-395 | A conversion that goes through gives one value per end time, in order. "TEND_LASTFILE" and any text not 15 characters long become 0. A 15-character text becomes its parsed time. A failing conversion holds the values of the end times before the first one that cannot be read, and that one cannot be read. |
| Monitor.ConvertEndTimesStops | UserTools/MonitorLAPPDData/MonitorLAPPDData.cpp:385-386 | Once an end time throws, the end times after it change nothing. |
| Monitor.MonitorLAPPDData.ConvertConfigEndTimes | UserTools/MonitorLAPPDData/MonitorLAPPDData.cpp:380-395 | The loop leaves in the end-time vector, together with its success flag, exactly what the conversion specification gives. |
| Monitor.MonitorLAPPDData.ReadInConfiguration | UserTools/MonitorLAPPDData/MonitorLAPPDData.cpp:325-396 | A file that cannot be opened gives no entries. Otherwise the vectors hold the entries read. The end times are converted only when reading did not throw. The flag is true exactly when neither step throws. |
| TimeConversion.ClockAt | UserTools/MonitorLAPPDData/MonitorLAPPDData.cpp:402-403 | The clock of epoch plus a duration is a valid date with hour < 24, minute < 60 and second < 60. |
| TimeConversion.DateOfIsEpochPlusDays | UserTools/MonitorLAPPDData/MonitorLAPPDData.cpp:402-403 | The date of a timestamp is the epoch date plus its whole days, whatever the seconds field. |
| TimeConversion.DayKeyIsFormattedDay | UserTools/MonitorLAPPDData/MonitorLAPPDData.cpp:398-408 | The day key is the epoch date plus the whole days, written "year_month-day". Reading the key back gives that date. |
| TimeConversion.ParseFormatDate | UserTools/MonitorLAPPDData/MonitorLAPPDData.cpp:404-405 | The written key of a valid date reads back as that date. |
| TimeConversion.FormatDateInjective | UserTools/MonitorLAPPDData/MonitorLAPPDData.cpp:404-405 | Distinct dates are written as distinct keys, despite the missing zero padding. |
| TimeConversion.DayKeySameIffSameDay | UserTools/MonitorLAPPDData/MonitorLAPPDData.cpp:398-408 | Two timestamps share a day file exactly when they share a whole day after the epoch. |
| TimeConversion.OffsetIsWholeSeconds | UserTools/MonitorLAPPDData/MonitorLAPPDData.cpp:402 | With the corrected seconds field, hours:minutes:seconds is the timestamp in whole seconds. |
| TimeConversion.LabelFields | UserTools/MonitorLAPPDData/MonitorLAPPDData.cpp:619-621 | The corrected label reads the timestamp's date, hour, minute and second, and these recombine to its whole seconds. |
| TimeConversion.AsWrittenLabelDropsSeconds | UserTools/MonitorLAPPDData/MonitorLAPPDData.cpp:402 | As written, the label of the timestamp 1000 ms shows second 0, while the corrected one shows second 1. |
| TimeConversion.AsWrittenLabelAgreesAboveSeconds | UserTools/MonitorLAPPDData/MonitorLAPPDData.cpp:402 | The label as written agrees with the corrected one in date, hour and minute. |
| Decimal.DigitsValueOfNatToString | UserTools/MonitorLAPPDData/MonitorLAPPDData.cpp:405 | Reading the decimal text the stream writes gives the number back. |
| Decimal.NatToStringInjective | UserTools/MonitorLAPPDData/MonitorLAPPDData.cpp:405 | Different numbers are written as different texts. |
| Calendar.OrdinalAddDays | UserTools/MonitorLAPPDData/MonitorLAPPDData.cpp:402-403 | Adding n days to a date moves its day ordinal by exactly n. |
| Calendar.OrdinalInjective | UserTools/MonitorLAPPDData/MonitorLAPPDData.cpp:404-405 | Distinct valid dates have distinct ordinals. |
| Calendar.DaysBetweenAddDays | UserTools/MonitorLAPPDData/MonitorLAPPDData.cpp:544-545 | The Gregorian day difference between the dates a and b days after d is b - a. |
| Calendar.AddDaysReaches | UserTools/MonitorLAPPDData/MonitorLAPPDData.cpp:544-545 | Every valid date on or after d is d plus the difference of their ordinals. |
| DayStore.AppendIfAbsentSpec | UserTools/MonitorLAPPDData/MonitorLAPPDData.cpp:461-497 | A write only appends. Afterwards the file holds the timestamp. Other files are untouched. The store is unchanged exactly when the file already held the timestamp. Otherwise exactly the new record is appended. |
| DayStore.AppendIdempotent | UserTools/MonitorLAPPDData/MonitorLAPPDData.cpp:461-480 | Writing the same timestamp again changes nothing, whatever the values. |
| DayStore.AppendKeepsWellFiled | UserTools/MonitorLAPPDData/MonitorLAPPDData.cpp:426-428 | Writing a record under its own day key keeps every entry in the file of its day. |
| DayStore.AppendKeepsUniqueTimes | UserTools/MonitorLAPPDData/MonitorLAPPDData.cpp:461-480 | Writing never gives a file a second entry with the same timestamp. |
| DayStore.AppendAllDistinct | UserTools/MonitorLAPPDData/MonitorLAPPDData.cpp:461-497 | Writing records with distinct timestamps to an empty day leaves exactly those records, in write order. |
| Monitor.MonitorLAPPDData.WriteToFile | UserTools/MonitorLAPPDData/MonitorLAPPDData.cpp:419-509 | The scan over the file's entries leaves the day files equal to the append-if-absent of (t_current, values) under t_current's day key. |
| DayStore.FilteredTimesSpec | UserTools/MonitorLAPPDData/MonitorLAPPDData.cpp:592-599 | A timestamp is collected exactly when some entry has it and it lies in [start, end]. |
| DayStore.InsertSortedSpec | UserTools/MonitorLAPPDData/MonitorLAPPDData.cpp:601 | Inserting into a sorted sequence keeps it sorted and adds exactly that element. |
| DayStore.SortAscendingSpec | UserTools/MonitorLAPPDData/MonitorLAPPDData.cpp:601 | The sort of the timestamps is ascending and a permutation of its input. |
| DayStore.FirstIndexOfUnique | UserTools/MonitorLAPPDData/MonitorLAPPDData.cpp:596-597 | An entry index that has t, with no earlier entry having t, is the index `emplace` keeps for t. |
| Monitor.CollectWindow | UserTools/MonitorLAPPDData/MonitorLAPPDData.cpp:592-599 | The collected timestamps are the in-window timestamps in stored order, and the map sends each to the first entry that has it. |
| Monitor.SortedEntryIndices | UserTools/MonitorLAPPDData/MonitorLAPPDData.cpp:592-606 | The entry indices visited are the sorted in-window timestamps, each mapped to its first entry. |
| DayStore.ContributionSpec | UserTools/MonitorLAPPDData/MonitorLAPPDData.cpp:592-626 | Record k of a file's contribution is the first stored entry with the k-th sorted in-window timestamp. |
| DayStore.ContributionTimes | UserTools/MonitorLAPPDData/MonitorLAPPDData.cpp:601-626 | The timestamps a file emits are its in-window timestamps, sorted. |
| DayStore.ContributionInWindow | UserTools/MonitorLAPPDData/MonitorLAPPDData.cpp:612-613 | Every record a file emits lies in [start, end]. |
| DayStore.ContributionSorted | UserTools/MonitorLAPPDData/MonitorLAPPDData.cpp:601-626 | The records a file emits ascend by timestamp. |
| DayStore.ContributionFirstEntries | UserTools/MonitorLAPPDData/MonitorLAPPDData.cpp:596-611 | Every emitted record is the first stored entry with its timestamp. |
| DayStore.ContributionComplete | UserTools/MonitorLAPPDData/MonitorLAPPDData.cpp:592-626 | The emitted timestamps are the in-window stored ones, each as often as it is stored. Every in-window entry's timestamp is emitted. |
| DayStore.ContributionHasTime | UserTools/MonitorLAPPDData/MonitorLAPPDData.cpp:592-626 | A timestamp stored in a day file and inside the window is among those the file emits. |
| DayStore.ContributionDistinct | UserTools/MonitorLAPPDData/MonitorLAPPDData.cpp:592-626 | A file with distinct timestamps emits no timestamp twice. |
| DayStore.ContributionExact | UserTools/MonitorLAPPDData/MonitorLAPPDData.cpp:592-626 | With distinct stored timestamps, every in-window entry itself is emitted. |
| DayStore.MissingFileContributesNothing | UserTools/MonitorLAPPDData/MonitorLAPPDData.cpp:557-564 | A missing file, or one without the monitoring tree, adds nothing. |
| Monitor.PointsSpec | UserTools/MonitorLAPPDData/MonitorLAPPDData.cpp:614-623 | Each record read adds one point: its timestamp, the four values, and its corrected label clock. |
| Monitor.MonitorLAPPDData.EmitFile | UserTools/MonitorLAPPDData/MonitorLAPPDData.cpp:608-626 | Emitting a file appends exactly that file's contribution to the six series. |
| DayStore.DaySpanIsDayDifference | UserTools/MonitorLAPPDData/MonitorLAPPDData.cpp:540-547 | The corrected day count is the number of midnights between start and end, and it is never negative. |
| DayStore.VisitSpanEnds | UserTools/MonitorLAPPDData/MonitorLAPPDData.cpp:549-552 | The first day visited is the day of the window's start, and the last is the day of its end. |
| DayStore.VisitKeyIsDay | UserTools/MonitorLAPPDData/MonitorLAPPDData.cpp:551-552 | The i-th visit names the date i days after the start's day. |
| DayStore.VisitKeysDistinct | UserTools/MonitorLAPPDData/MonitorLAPPDData.cpp:549-552 | No day file is visited twice in one read. |
| DayStore.WindowVisits | UserTools/MonitorLAPPDData/MonitorLAPPDData.cpp:540-634 | The window is what the loop over the Gregorian day span + 1 days adds, file after file. |
| DayStore.WindowVisitsDays | UserTools/MonitorLAPPDData/MonitorLAPPDData.cpp:540-634 | The window is what visiting the days from the day of its start to the day of its end adds, file after file. |
| Monitor.MonitorLAPPDData.ReadWindow | UserTools/MonitorLAPPDData/MonitorLAPPDData.cpp:527-634 | The day loop, run over the Gregorian day count, leaves in the cleared series exactly the window over the day files. |
| Monitor.MonitorLAPPDData.ReadFromFile | UserTools/MonitorLAPPDData/MonitorLAPPDData.cpp:511-644 | The series are cleared and then hold the window of the requested end and length. The cache key becomes (end, length), and the cache is consistent. When every entry sits in the file of its day, the series read ascend by timestamp. |
| DayStore.WindowInRange | UserTools/MonitorLAPPDData/MonitorLAPPDData.cpp:608-613 | Every timestamp read back lies in [end - frame, end]. |
| DayStore.WindowSorted | UserTools/MonitorLAPPDData/MonitorLAPPDData.cpp:549-626 | When every entry sits in the file of its day, the window read back ascends by timestamp across days. |
| DayStore.WindowComplete | UserTools/MonitorLAPPDData/MonitorLAPPDData.cpp:549-626 | Every stored entry inside [end - frame, end] whose file is its own day's has its timestamp read back. |
| DayStore.AsWrittenDaySpanAgrees | UserTools/MonitorLAPPDData/MonitorLAPPDData.cpp:540-547 | The day count as written equals the Gregorian difference, unless start and end share a month in different years. |
| DayStore.AsWrittenDaySpanSkipsYearWindow | UserTools/MonitorLAPPDData/MonitorLAPPDData.cpp:540-547 | A window from day d of a month to day d-1 of that month a year later counts -1 days as written, for an epoch with `epoch.month >= 3 && epoch.day >= 2`. It then visits no day, where the Gregorian difference is at least 364. |
| DayStore.AsWrittenWindowAgrees | UserTools/MonitorLAPPDData/MonitorLAPPDData.cpp:527-634 | Unless the window starts and ends in the same month number of different years, the window read with the day count as written is the window read with the Gregorian count. |
| DayStore.AsWrittenWindowMissesYear | UserTools/MonitorLAPPDData/MonitorLAPPDData.cpp:527-634 | The window from the epoch's midnight to midnight of day d-1 of the same month a year later reads nothing as written, whatever the files hold. The Gregorian window visits each of its at least 365 days. |
| Monitor.MonitorLAPPDData.DrawTimeEvolution | UserTools/MonitorLAPPDData/MonitorLAPPDData.cpp:742 | The files are read only when (end, frame) differs from the cached key, and the series then hold the window of that read. An equal key leaves the series, the recorded window and the read count unchanged. Either way the series stay sorted by timestamp. |
| Monitor.EffectiveEnd | UserTools/MonitorLAPPDData/MonitorLAPPDData.cpp:671-672 | An end time of 0 is replaced by the current timestamp, and any other end time is kept. |
| Monitor.RowRequestsSpec | UserTools/MonitorLAPPDData/MonitorLAPPDData.cpp:674-679 | A row draws its window exactly once per "TimeEvolution" among its plot types, and nothing for any other type. |
| Monitor.RequestsFromRows | UserTools/MonitorLAPPDData/MonitorLAPPDData.cpp:668-681 | Every drawing comes from a row holding "TimeEvolution", with that row's length, label and effective end time. |
| Monitor.MonitorLAPPDData.DrawPlotType | UserTools/MonitorLAPPDData/MonitorLAPPDData.cpp:675-678 | "TimeEvolution" logs one drawing of the row's window and leaves that window's key cached. Any other type logs nothing and leaves the cache as it was. The recorded window stays the window of the cached key. |
| Monitor.MonitorLAPPDData.DrawRow | UserTools/MonitorLAPPDData/MonitorLAPPDData.cpp:674-679 | The drawings of one row are logged in order, with at most one file read per drawing. After a drawing, the cached key is the row's window, which is the key of the last drawing. Without one, the cache and the log are unchanged. The recorded window stays the window of the cached key. |
| Monitor.MonitorLAPPDData.UpdateMonitorPlots | UserTools/MonitorLAPPDData/MonitorLAPPDData.cpp:662-686 | The drawings logged are exactly the rows' requests, row by row, with at most one file read per drawing. The cache stays consistent, and the recorded window stays the window of the cached key. After any drawing, the cached key is that of the last drawing. Without one, the cache and the log are unchanged. |
| Monitor.MonitorLAPPDData.Initialise | UserTools/MonitorLAPPDData/MonitorLAPPDData.cpp:38-81 | The settings are normalised and the period derived from them. The configuration is read, and the end times are converted exactly when the lines were read without throwing. `last` is the start time, the series are empty, and no window is cached. The existing day files must hold every entry in the file of its own day, and a successful start leaves the class valid, with sorted series. |
| Monitor.MonitorLAPPDData.StoreRecord | UserTools/MonitorLAPPDData/MonitorLAPPDData.cpp:134-137 | The values are written under t_current as `WriteToFile` appends them, and every entry stays in the file of its own day, so the class stays valid. |
| Monitor.MonitorLAPPDData.StoreAndDraw | UserTools/MonitorLAPPDData/MonitorLAPPDData.cpp:119-139 | A new data file appends its values under t_current, then draws every configured plot. The cache ends as `UpdateMonitorPlots` leaves it. Every entry stays in the file of its day (`DayStore.AppendKeepsWellFiled`), and the series stay sorted. |
| Monitor.MonitorLAPPDData.StoreAndUpdate | UserTools/MonitorLAPPDData/MonitorLAPPDData.cpp:119-154 | A new data file is stored and drawn, then a forced update draws every plot again. The files and the drawing log are exactly these, and the cache ends as `UpdateMonitorPlots` leaves it. The class stays valid and the series sorted. |
| Monitor.MonitorLAPPDData.StoreIfDataFile | UserTools/MonitorLAPPDData/MonitorLAPPDData.cpp:119-146 | A data file appends its values under t_current and logs every configured plot's drawing. Any other state leaves the files, the cache and the log unchanged. The class stays valid and the series sorted. |
| Monitor.MonitorLAPPDData.ForcedUpdate | UserTools/MonitorLAPPDData/MonitorLAPPDData.cpp:153-154 | A non-zero force-update flag logs every configured plot's drawing again. A zero flag leaves the cache and the log unchanged. |
| Monitor.MonitorLAPPDData.Execute | UserTools/MonitorLAPPDData/MonitorLAPPDData.cpp:93-164 | t_current is now in milliseconds. Only a "DataFile" state with LAPPD data writes and draws. A forced update draws everything again. `last` restarts on a data file or once the period has passed, measured from the step's start. The cache ends consistent, with the recorded window that of the cached key, which is the key of the last drawing. A step that draws nothing leaves the cache as it was. The class stays valid, every entry stays in the file of its day, and the series stay sorted. |

## Left out

- File I/O and ROOT: the day files are a map from day key to the entries of
  their tree, and the path prefix `LAPPDPSEC_` and the `.root` suffix are not
  modelled. All drawing (graphs, canvases, images) is reduced to a log of
  drawing requests.
- `ProcessLAPPDData`, `DrawLastFilePlots`, `DrawStatus_PsecData` and
  `DrawTimeAlignment` are left out. The processed values reach `Execute` as a
  parameter, because the PSEC data format is not fixed in the source.
- The wall clock and the local/UTC offset are left out. `Execute` takes the
  current time as whole seconds after the epoch, as `second_clock` gives it.
- The parsing of `StartTime` is left out. The epoch is given as a valid date of
  years 1400..9999.
- Verbosity and log messages are not modelled.
- `PlotConfig.HoursToMs`: the hours field is read only as a non-empty digit
  string of whole hours. The fractional and signed values that `std::stod`
  accepts are not modelled, and such a field counts as one that throws.
- Exceptions (`std::stod`, `from_iso_string`) are modelled as a `false` success
  flag, and the reading stops where the exception would be thrown.
- Double arithmetic is modelled with exact values:
  * window lengths are whole milliseconds;
  * the cache compares (end, length) as exact values;
  * the `int(...)` casts of the duration fields are exact divisions, within
    the range `Monitor.WindowsFit` admits (see below);
  * the payload's rates and charge are reals.
- `PlotConfig.EndTimeMs`: a 15-character end time is read when it is
  `YYYYMMDDTHHMMSS` in digits with a valid date of years 1400..9999; every
  other 15-character text is taken to throw. The hour, minute and second
  fields are accepted up to 99 each, as the two digits allow.
- `Monitor.MonitorLAPPDData.UpdateMonitorPlots` requires that every drawn window
  is no longer than its end time. The start `timestamp - time_frame*...` is a
  `double` subtraction, whose negative result is then converted to `ULong64_t`.
  That conversion has no defined behaviour in C++, so the model excludes such a
  window. `Execute` and `StoreAndUpdate` require this only of steps that draw:
  a data-file step or a forced update.
- `Monitor.MonitorLAPPDData.UpdateMonitorPlots` also requires that every drawn
  window ends more than one day before `Monitor.CastLimitMs`, 2^31 minutes
  after the epoch. Reading a window casts the minute count of its start, its
  end and each visited day's timestamp to `int` (MonitorLAPPDData.cpp:402 and
  :528-530). Beyond that limit the cast overflows, which has no defined
  behaviour in C++. This excludes every end time before the epoch, which
  wraps to about 1.8e19 ms in `PlotConfig.ToUnsigned64`. The same cast of
  t_current in `WriteToFile` is not bounded: the model takes the wall clock
  to stay within 2^31 minutes of the epoch.
- The cache key `readfromfile_tend`/`readfromfile_timeframe` is uninitialised in
  the source. The model starts it as `None`, so the first drawing always reads.
  One cache slot is shared by all rows, as in the source.
- `Monitor.MonitorLAPPDData.Execute`: both updates of `last` in one step are
  made at once. Nothing in between reads `last`, and the duration is measured
  before either update, as in the source.
- `Monitor.MonitorLAPPDData.ReadFromFile` reads with the Gregorian day count,
  not with the same-month day-of-month difference the source uses.
  `DayStore.AsWrittenWindow` models the count as written. The two windows agree
  outside same-month windows of different years (`DayStore.AsWrittenWindowAgrees`).
  On such a window the count as written reads nothing
  (`DayStore.AsWrittenWindowMissesYear`).
- `Monitor.MonitorLAPPDData.ReadWindow` runs its day loop over the Gregorian day
  count, for the same reason as `ReadFromFile`.
- `DayStore.WindowVisits` relates the window to the Gregorian day count. The
  count as written is related to it by `DayStore.AsWrittenWindowAgrees`.
- The six vectors `data_times_plot` … `labels_timeaxis` are one sequence of
  points, because they are always cleared and appended together.
- `Monitor.PointsSpec` and `Monitor.MonitorLAPPDData.EmitFile`: the labels
  hold the corrected clock, not the clock as written. The label as written is
  modelled separately (see Findings).

## Findings

| source | as written | input that shows it | evidently intended | confidence | as-written member | corrected member |
|---|---|---|---|---|---|---|
| UserTools/MonitorLAPPDData/MonitorLAPPDData.cpp:402 | The seconds field is `int(timestamp/MSEC_to_SEC/1000.)%60`, which divides by 1000 twice. The label's second is `(timestamp/10^6) % 60` instead of `(timestamp/1000) % 60`, which is wrong whenever the two differ. The day key is unaffected. | timestamp 1000 ms (one second after the epoch) gets the label second 0 | seconds within the minute: `(timestamp/1000) % 60` | not executed | TimeConversion.AsWrittenLabelDropsSeconds | TimeConversion.LabelFields |
| UserTools/MonitorLAPPDData/MonitorLAPPDData.cpp:540-547 | When start and end fall in the same month number, the day count is the day-of-month difference, whatever the years. | a window from 2023-3-21 00:00 to 2024-3-20 00:00 counts -1 days, so no day file is read | the Gregorian day difference, as in the other branch | not executed | DayStore.AsWrittenWindowMissesYear | DayStore.DaySpanIsDayDifference |
