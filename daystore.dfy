/**
 * The per-day files as a map from day key to file contents, the
 * append-if-absent write of WriteToFile, and the specification of the
 * window ReadFromFile reads back: the days it visits, the records it keeps
 * from each file and the order it emits them in.
 */
module DayStore {
  import opened Calendar
  import opened TimeConversion

  /** The measured values of one entry, carried along unchanged. */
  datatype Payload = Payload(ppsRate: real, frameRate: real, intCharge: real, bufferSize: int)

  /** One tree entry: the timestamp t_current and the measured values. */
  datatype Record = Record(time: nat, payload: Payload)

  /** A day file either lacks the monitoring tree or holds its entries in stored order. */
  datatype DayFile = NoTree | Tree(entries: seq<Record>)

  /** The day files that exist, by day key. */
  type Store = map<string, DayFile>

  /** The entries of a day file; a missing file or a file without the tree has none. */
  function Entries(files: Store, key: string): seq<Record> {
    if key in files && files[key].Tree? then files[key].entries else []
  }

  predicate HasTime(entries: seq<Record>, t: nat) {
    exists j :: 0 <= j < |entries| && entries[j].time == t
  }

  // ---------------------------------------------------------------------
  // Writing
  // ---------------------------------------------------------------------

  /**
   * The day files after writing r to the file named key: unchanged when
   * that file already holds an entry with r's timestamp, otherwise r is
   * appended (creating the file or the tree when missing).
   */
  function AppendIfAbsent(files: Store, key: string, r: Record): Store {
    if HasTime(Entries(files, key), r.time) then files
    else files[key := Tree(Entries(files, key) + [r])]
  }

  /** Every entry of every file lies on the day its file is named after. */
  predicate WellFiled(epoch: Date, files: Store)
    requires ValidDate(epoch)
  {
    forall key, j :: key in files && files[key].Tree? && 0 <= j < |files[key].entries| ==>
      DayKey(epoch, files[key].entries[j].time) == key
  }

  predicate DistinctTimes(entries: seq<Record>) {
    forall i, j :: 0 <= i < j < |entries| ==> entries[i].time != entries[j].time
  }

  /** No file holds two entries with the same timestamp. */
  predicate UniqueTimes(files: Store) {
    forall key :: key in files && files[key].Tree? ==> DistinctTimes(files[key].entries)
  }

  /**
   * Writing only ever appends: every file keeps its entries as a prefix,
   * files other than key are untouched, afterwards the file named key holds
   * r's timestamp, and it grew by one entry exactly when it lacked it.
   */
  lemma AppendIfAbsentSpec(files: Store, key: string, r: Record)
    ensures var after := AppendIfAbsent(files, key, r);
            && HasTime(Entries(after, key), r.time)
            && (forall k :: k != key ==> (k in after <==> k in files) && (k in files ==> after[k] == files[k]))
            && Entries(files, key) <= Entries(after, key)
            && (HasTime(Entries(files, key), r.time) <==> after == files)
            && (!HasTime(Entries(files, key), r.time) ==> Entries(after, key) == Entries(files, key) + [r])
  {
    var after := AppendIfAbsent(files, key, r);
    if !HasTime(Entries(files, key), r.time) {
      var es := Entries(after, key);
      assert es[|es| - 1].time == r.time;
      assert Entries(after, key) != Entries(files, key);
    }
  }

  /** Writing the same timestamp again, whatever its values, changes nothing. */
  lemma AppendIdempotent(files: Store, key: string, r: Record, r2: Record)
    requires r2.time == r.time
    ensures AppendIfAbsent(AppendIfAbsent(files, key, r), key, r2) == AppendIfAbsent(files, key, r)
  {
    AppendIfAbsentSpec(files, key, r);
  }

  /** Writing a record under its own day key keeps every file on its day. */
  lemma AppendKeepsWellFiled(epoch: Date, files: Store, r: Record)
    requires ValidDate(epoch) && WellFiled(epoch, files)
    ensures WellFiled(epoch, AppendIfAbsent(files, DayKey(epoch, r.time), r))
  {
    var key := DayKey(epoch, r.time);
    var after := AppendIfAbsent(files, key, r);
    forall k, j | k in after && after[k].Tree? && 0 <= j < |after[k].entries|
      ensures DayKey(epoch, after[k].entries[j].time) == k
    {
      if k == key && after != files {
        var old_ := Entries(files, key);
        assert after[k].entries == old_ + [r];
        if j < |old_| {
          assert after[k].entries[j] == files[key].entries[j];
        }
      }
    }
  }

  /** Writing never creates a second entry for a timestamp. */
  lemma AppendKeepsUniqueTimes(files: Store, key: string, r: Record)
    requires UniqueTimes(files)
    ensures UniqueTimes(AppendIfAbsent(files, key, r))
  {
    var after := AppendIfAbsent(files, key, r);
    if after != files {
      var es := Entries(files, key);
      assert after[key].entries == es + [r];
      assert DistinctTimes(es);
      forall i, j | 0 <= i < j < |es + [r]|
        ensures (es + [r])[i].time != (es + [r])[j].time
      {
        if j == |es| {
          assert (es + [r])[i] == es[i];
        }
      }
    }
  }

  /** Writes of records one after the other under one key. */
  function AppendAll(files: Store, key: string, rs: seq<Record>): Store
    decreases |rs|
  {
    if rs == [] then files else AppendIfAbsent(AppendAll(files, key, rs[..|rs| - 1]), key, rs[|rs| - 1])
  }

  /**
   * Writing records with distinct timestamps to a day that has no entries
   * yet leaves exactly those records in that file, in the order written.
   */
  lemma {:induction false} AppendAllDistinct(files: Store, key: string, rs: seq<Record>)
    requires Entries(files, key) == [] && DistinctTimes(rs)
    ensures Entries(AppendAll(files, key, rs), key) == rs
    decreases |rs|
  {
    if rs != [] {
      var init := rs[..|rs| - 1];
      var last := rs[|rs| - 1];
      assert DistinctTimes(init);
      AppendAllDistinct(files, key, init);
      forall j | 0 <= j < |init| ensures init[j].time != last.time {
        assert init[j] == rs[j];
      }
    }
  }

  // ---------------------------------------------------------------------
  // One file's contribution to the window
  // ---------------------------------------------------------------------

  predicate InWindow(t: nat, start: nat, end: nat) {
    start <= t <= end
  }

  /** The timestamps of the entries inside the window, in stored order. */
  function FilteredTimes(entries: seq<Record>, start: nat, end: nat): (ts: seq<nat>)
    ensures |ts| <= |entries|
    decreases |entries|
  {
    if entries == [] then []
    else
      var prev := FilteredTimes(entries[..|entries| - 1], start, end);
      var last := entries[|entries| - 1];
      if InWindow(last.time, start, end) then prev + [last.time] else prev
  }

  /** A timestamp is kept exactly when it lies in the window and some entry has it. */
  lemma {:induction false} FilteredTimesSpec(entries: seq<Record>, start: nat, end: nat)
    ensures forall t :: t in FilteredTimes(entries, start, end) <==> InWindow(t, start, end) && HasTime(entries, t)
    decreases |entries|
  {
    if entries != [] {
      var init := entries[..|entries| - 1];
      FilteredTimesSpec(init, start, end);
      forall t | HasTime(entries, t)
        ensures HasTime(init, t) || entries[|entries| - 1].time == t
      {
        var j :| 0 <= j < |entries| && entries[j].time == t;
        if j < |init| {
          assert init[j] == entries[j];
        }
      }
      forall t | HasTime(init, t)
        ensures HasTime(entries, t)
      {
        var j :| 0 <= j < |init| && init[j].time == t;
        assert entries[j] == init[j];
      }
    }
  }

  predicate SortedTimes(s: seq<nat>) {
    forall i, j :: 0 <= i < j < |s| ==> s[i] <= s[j]
  }

  /** x placed before the first element of s not smaller than it. */
  function InsertSorted(x: nat, s: seq<nat>): seq<nat> {
    if s == [] || x <= s[0] then [x] + s
    else [s[0]] + InsertSorted(x, s[1..])
  }

  /** Inserting into a sorted sequence keeps it sorted and adds exactly x. */
  lemma {:induction false} InsertSortedSpec(x: nat, s: seq<nat>)
    requires SortedTimes(s)
    ensures SortedTimes(InsertSorted(x, s))
    ensures multiset(InsertSorted(x, s)) == multiset(s) + multiset{x}
  {
    if s != [] && x > s[0] {
      InsertSortedSpec(x, s[1..]);
      InsertBehindHead(x, s, InsertSorted(x, s[1..]));
    }
  }

  /** Putting the head of s before the insertion into its tail keeps the order. */
  lemma InsertBehindHead(x: nat, s: seq<nat>, rest: seq<nat>)
    requires SortedTimes(s) && s != [] && s[0] < x
    requires SortedTimes(rest) && multiset(rest) == multiset(s[1..]) + multiset{x}
    ensures SortedTimes([s[0]] + rest) && multiset([s[0]] + rest) == multiset(s) + multiset{x}
  {
    assert s == [s[0]] + s[1..];
    assert forall k :: 0 <= k < |rest| ==> rest[k] in multiset(s[1..]) + multiset{x};
  }

  /** The timestamps in ascending order, as std::sort leaves them. */
  function SortAscending(s: seq<nat>): seq<nat>
    decreases |s|
  {
    if s == [] then []
    else InsertSorted(s[|s| - 1], SortAscending(s[..|s| - 1]))
  }

  /** The sort returns a sorted permutation of its input. */
  lemma {:induction false} SortAscendingSpec(s: seq<nat>)
    ensures SortedTimes(SortAscending(s)) && multiset(SortAscending(s)) == multiset(s)
    decreases |s|
  {
    if s != [] {
      SortAscendingSpec(s[..|s| - 1]);
      InsertSortedSpec(s[|s| - 1], SortAscending(s[..|s| - 1]));
      assert s == s[..|s| - 1] + [s[|s| - 1]];
    }
  }


  /** The index of the first entry with timestamp t. */
  function FirstIndexOf(entries: seq<Record>, t: nat): (i: nat)
    requires HasTime(entries, t)
    ensures i < |entries| && entries[i].time == t
  {
    if entries[0].time == t then 0
    else
      assert HasTime(entries[1..], t) by {
        var j :| 0 <= j < |entries| && entries[j].time == t;
        assert entries[1..][j - 1] == entries[j];
      }
      1 + FirstIndexOf(entries[1..], t)
  }

  /** An entry with timestamp t and no earlier one is the first index of t. */
  lemma {:induction false} FirstIndexOfUnique(entries: seq<Record>, t: nat, i: nat)
    requires i < |entries| && entries[i].time == t
    requires forall j :: 0 <= j < i ==> entries[j].time != t
    ensures HasTime(entries, t) && FirstIndexOf(entries, t) == i
  {
    if i > 0 {
      forall j | 0 <= j < i - 1 ensures entries[1..][j].time != t {
        assert entries[1..][j] == entries[j + 1];
      }
      FirstIndexOfUnique(entries[1..], t, i - 1);
    }
  }

  /** For each timestamp of ts, in order, the index of the first entry that has it. */
  function FirstIndices(entries: seq<Record>, ts: seq<nat>): (order: seq<nat>)
    requires forall k :: 0 <= k < |ts| ==> HasTime(entries, ts[k])
    ensures |order| == |ts|
  {
    if ts == [] then []
    else FirstIndices(entries, ts[..|ts| - 1]) + [FirstIndexOf(entries, ts[|ts| - 1])]
  }

  /** Element k of the indices is the first index of timestamp ts[k]. */
  lemma {:induction false} FirstIndicesSpec(entries: seq<Record>, ts: seq<nat>)
    requires forall k :: 0 <= k < |ts| ==> HasTime(entries, ts[k])
    ensures forall k :: 0 <= k < |ts| ==> FirstIndices(entries, ts)[k] == FirstIndexOf(entries, ts[k])
    decreases |ts|
  {
    if ts != [] {
      FirstIndicesSpec(entries, ts[..|ts| - 1]);
    }
  }

  /** Each in-window timestamp, sorted, is mapped to the first entry that has it. */
  function ContributionOrder(entries: seq<Record>, start: nat, end: nat): (order: seq<nat>)
  {
    var ts := SortAscending(FilteredTimes(entries, start, end));
    SortedTimesStored(entries, start, end, ts);
    FirstIndices(entries, ts)
  }

  /** Every in-window timestamp, once sorted, is stored in the file. */
  lemma SortedTimesStored(entries: seq<Record>, start: nat, end: nat, ts: seq<nat>)
    requires ts == SortAscending(FilteredTimes(entries, start, end))
    ensures forall k :: 0 <= k < |ts| ==> HasTime(entries, ts[k])
  {
    FilteredTimesSpec(entries, start, end);
    SortAscendingSpec(FilteredTimes(entries, start, end));
    forall k | 0 <= k < |ts| ensures HasTime(entries, ts[k]) {
      assert ts[k] in multiset(ts);
    }
  }

  /** Element k of the order is the first index of the k-th sorted in-window timestamp. */
  lemma ContributionOrderSpec(entries: seq<Record>, start: nat, end: nat)
    ensures var ts := SortAscending(FilteredTimes(entries, start, end));
            var order := ContributionOrder(entries, start, end);
            && |order| == |ts|
            && forall k :: 0 <= k < |ts| ==>
                 HasTime(entries, ts[k]) && order[k] == FirstIndexOf(entries, ts[k]) && order[k] < |entries|
  {
    var ts := SortAscending(FilteredTimes(entries, start, end));
    SortedTimesStored(entries, start, end, ts);
    FirstIndicesSpec(entries, ts);
  }

  /** The entries at the given indices, in order. */
  function Pick(entries: seq<Record>, order: seq<nat>): (rs: seq<Record>)
    requires forall k :: 0 <= k < |order| ==> order[k] < |entries|
    ensures |rs| == |order|
  {
    if order == [] then []
    else Pick(entries, order[..|order| - 1]) + [entries[order[|order| - 1]]]
  }

  /** Element k of the picked records is the entry at index order[k]. */
  lemma {:induction false} PickSpec(entries: seq<Record>, order: seq<nat>)
    requires forall k :: 0 <= k < |order| ==> order[k] < |entries|
    ensures forall k :: 0 <= k < |order| ==> Pick(entries, order)[k] == entries[order[k]]
    decreases |order|
  {
    if order != [] {
      PickSpec(entries, order[..|order| - 1]);
    }
  }

  /** The records one day file adds to the window, in emitted order. */
  function Contribution(entries: seq<Record>, start: nat, end: nat): seq<Record> {
    ContributionOrderSpec(entries, start, end);
    Pick(entries, ContributionOrder(entries, start, end))
  }

  /** Record k of a file's contribution is the first entry with the k-th sorted in-window timestamp. */
  lemma ContributionSpec(entries: seq<Record>, start: nat, end: nat)
    ensures var ts := SortAscending(FilteredTimes(entries, start, end));
            var c := Contribution(entries, start, end);
            && |c| == |ts|
            && forall k :: 0 <= k < |ts| ==>
                 HasTime(entries, ts[k]) && c[k] == entries[FirstIndexOf(entries, ts[k])]
  {
    ContributionOrderSpec(entries, start, end);
    PickSpec(entries, ContributionOrder(entries, start, end));
  }

  /** Record k of a file's contribution is the entry at element k of the order. */
  lemma ContributionAt(entries: seq<Record>, start: nat, end: nat, k: nat)
    requires k < |ContributionOrder(entries, start, end)|
    ensures var order := ContributionOrder(entries, start, end);
            && |Contribution(entries, start, end)| == |order|
            && order[k] < |entries|
            && Contribution(entries, start, end)[k] == entries[order[k]]
  {
    ContributionOrderSpec(entries, start, end);
    PickSpec(entries, ContributionOrder(entries, start, end));
  }

  /** The timestamps of a sequence of records. */
  function Times(rs: seq<Record>): (ts: seq<nat>)
    ensures |ts| == |rs|
  {
    seq(|rs|, k requires 0 <= k < |rs| => rs[k].time)
  }

  /** The emitted timestamps lie in the window and ascend. */
  /** The timestamps a file contributes are its in-window timestamps, sorted. */
  lemma ContributionTimes(entries: seq<Record>, start: nat, end: nat)
    ensures Times(Contribution(entries, start, end)) == SortAscending(FilteredTimes(entries, start, end))
  {
    var ts := SortAscending(FilteredTimes(entries, start, end));
    var c := Contribution(entries, start, end);
    ContributionSpec(entries, start, end);
    forall k | 0 <= k < |c|
      ensures c[k].time == ts[k]
    {
    }
  }

  /** Every record a file contributes lies in [start, end]. */
  lemma ContributionInWindow(entries: seq<Record>, start: nat, end: nat)
    ensures var c := Contribution(entries, start, end);
            forall k :: 0 <= k < |c| ==> InWindow(c[k].time, start, end)
  {
    FilteredTimesSpec(entries, start, end);
    SortAscendingSpec(FilteredTimes(entries, start, end));
    ContributionTimes(entries, start, end);
    var ts := SortAscending(FilteredTimes(entries, start, end));
    var c := Contribution(entries, start, end);
    forall k | 0 <= k < |c|
      ensures InWindow(c[k].time, start, end)
    {
      assert c[k].time == Times(c)[k];
      assert ts[k] in multiset(ts);
    }
  }

  /** The records a file contributes are sorted by timestamp. */
  lemma ContributionSorted(entries: seq<Record>, start: nat, end: nat)
    ensures SortedTimes(Times(Contribution(entries, start, end)))
  {
    SortAscendingSpec(FilteredTimes(entries, start, end));
    ContributionTimes(entries, start, end);
  }

  /**
   * Every emitted record is the first entry stored with its timestamp, so a
   * timestamp stored twice emits its first entry twice.
   */
  lemma ContributionFirstEntries(entries: seq<Record>, start: nat, end: nat)
    ensures var c := Contribution(entries, start, end);
            forall k :: 0 <= k < |c| ==>
              HasTime(entries, c[k].time) && c[k] == entries[FirstIndexOf(entries, c[k].time)]
  {
    FilteredTimesSpec(entries, start, end);
    var ts := SortAscending(FilteredTimes(entries, start, end));
    SortAscendingSpec(FilteredTimes(entries, start, end));
    var c := Contribution(entries, start, end);
    ContributionSpec(entries, start, end);
    forall k | 0 <= k < |c|
      ensures HasTime(entries, c[k].time) && c[k] == entries[FirstIndexOf(entries, c[k].time)]
    {
      assert ts[k] in multiset(ts);
      assert c[k].time == ts[k];
    }
  }

  /**
   * The emitted timestamps are the in-window timestamps of the file, each
   * as often as it is stored; in particular every in-window entry's
   * timestamp is emitted.
   */
  lemma ContributionComplete(entries: seq<Record>, start: nat, end: nat)
    ensures multiset(Times(Contribution(entries, start, end))) == multiset(FilteredTimes(entries, start, end))
    ensures forall j :: 0 <= j < |entries| && InWindow(entries[j].time, start, end) ==>
              HasTime(Contribution(entries, start, end), entries[j].time)
  {
    SortAscendingSpec(FilteredTimes(entries, start, end));
    ContributionTimes(entries, start, end);
    forall j | 0 <= j < |entries| && InWindow(entries[j].time, start, end)
      ensures HasTime(Contribution(entries, start, end), entries[j].time)
    {
      ContributionHasTime(entries, start, end, entries[j].time);
    }
  }

  /** A stored in-window timestamp is among the emitted ones. */
  lemma ContributionHasTime(entries: seq<Record>, start: nat, end: nat, t: nat)
    requires InWindow(t, start, end) && HasTime(entries, t)
    ensures HasTime(Contribution(entries, start, end), t)
  {
    var ft := FilteredTimes(entries, start, end);
    FilteredTimesSpec(entries, start, end);
    assert t in multiset(ft);
    var ts := SortAscending(ft);
    SortAscendingSpec(ft);
    assert t in multiset(ts);
    var k :| 0 <= k < |ts| && ts[k] == t;
    var c := Contribution(entries, start, end);
    ContributionTimes(entries, start, end);
    assert Times(c)[k] == t;
    assert c[k].time == t;
  }

  /** A missing file, or one without the tree, adds nothing to the window. */
  lemma MissingFileContributesNothing(files: Store, key: string, start: nat, end: nat)
    requires key !in files || files[key].NoTree?
    ensures Contribution(Entries(files, key), start, end) == []
  {
  }

  /** With distinct stored timestamps a file emits no timestamp twice. */
  lemma ContributionDistinct(entries: seq<Record>, start: nat, end: nat)
    requires DistinctTimes(entries)
    ensures DistinctTimes(Contribution(entries, start, end))
  {
    var ft := FilteredTimes(entries, start, end);
    var ts := SortAscending(ft);
    SortAscendingSpec(ft);
    var c := Contribution(entries, start, end);
    FilteredTimesDistinct(entries, start, end);
    ContributionTimes(entries, start, end);
    forall i, j | 0 <= i < j < |c| ensures c[i].time != c[j].time {
      MultisetDistinct(ft, ts, i, j);
      assert c[i].time == ts[i] && c[j].time == ts[j];
    }
  }

  /** With distinct stored timestamps every in-window entry itself is emitted. */
  lemma ContributionExact(entries: seq<Record>, start: nat, end: nat)
    requires DistinctTimes(entries)
    ensures forall j :: 0 <= j < |entries| && InWindow(entries[j].time, start, end) ==>
              entries[j] in Contribution(entries, start, end)
  {
    var c := Contribution(entries, start, end);
    ContributionComplete(entries, start, end);
    ContributionFirstEntries(entries, start, end);
    forall j | 0 <= j < |entries| && InWindow(entries[j].time, start, end)
      ensures entries[j] in c
    {
      var k :| 0 <= k < |c| && c[k].time == entries[j].time;
      assert FirstIndexOf(entries, entries[j].time) == j;
      assert c[k] == entries[j];
    }
  }

  predicate NoRepeats(s: seq<nat>) {
    forall i, j :: 0 <= i < j < |s| ==> s[i] != s[j]
  }

  lemma {:induction false} FilteredTimesDistinct(entries: seq<Record>, start: nat, end: nat)
    requires DistinctTimes(entries)
    ensures NoRepeats(FilteredTimes(entries, start, end))
    decreases |entries|
  {
    if entries != [] {
      var init := entries[..|entries| - 1];
      assert DistinctTimes(init);
      FilteredTimesDistinct(init, start, end);
      var last := entries[|entries| - 1];
      forall j | 0 <= j < |init| ensures init[j].time != last.time {
        assert init[j] == entries[j];
      }
      FilteredTimesSpec(init, start, end);
      assert !HasTime(init, last.time);
      assert last.time !in FilteredTimes(init, start, end);
    }
  }

  /** A permutation of a sequence without repeats has none either. */
  lemma MultisetDistinct(a: seq<nat>, b: seq<nat>, i: nat, j: nat)
    requires NoRepeats(a) && multiset(a) == multiset(b) && i < j < |b|
    ensures b[i] != b[j]
  {
    if b[i] == b[j] {
      var x := b[i];
      assert multiset(b)[x] >= 2 by {
        var front := b[..j];
        assert b == front + [x] + b[j + 1..];
        assert front[i] == x;
        assert multiset(front)[x] >= 1;
        assert multiset(b) == multiset(front) + multiset{x} + multiset(b[j + 1..]);
      }
      NoRepeatsCount(a, x);
    }
  }

  lemma {:induction false} NoRepeatsCount(a: seq<nat>, x: nat)
    requires NoRepeats(a)
    ensures multiset(a)[x] <= 1
    decreases |a|
  {
    if a != [] {
      var init := a[..|a| - 1];
      assert a == init + [a[|a| - 1]];
      assert NoRepeats(init);
      NoRepeatsCount(init, x);
      if a[|a| - 1] == x {
        forall j | 0 <= j < |init| ensures init[j] != x {
          assert init[j] == a[j];
        }
        assert x !in multiset(init);
      }
    }
  }

  // ---------------------------------------------------------------------
  // The days a window visits
  // ---------------------------------------------------------------------

  /** The key of the i-th visited day: the file of start + i days. */
  function VisitKey(epoch: Date, start: nat, i: nat): string
    requires ValidDate(epoch)
  {
    DayKey(epoch, start + i * MsPerDay)
  }

  /** The days between the start and end dates, by Gregorian date difference. */
  function DaySpan(epoch: Date, start: nat, end: nat): int
    requires ValidDate(epoch)
  {
    DaysBetween(DateOf(epoch, start), DateOf(epoch, end))
  }

  /**
   * The day count as written: the day-of-month difference whenever the two
   * months are equal, whatever the years.
   */
  function AsWrittenDaySpan(startDate: Date, endDate: Date): int
    requires ValidDate(startDate) && ValidDate(endDate)
  {
    if endDate.month == startDate.month then endDate.day - startDate.day
    else DaysBetween(startDate, endDate)
  }

  /** A loop "for i = 0 .. n" visits n + 1 days, none when n is negative. */
  function VisitCount(n: int): nat {
    if n < 0 then 0 else n + 1
  }

  /** The file names of the first k visited days, from the day of start on. */
  function VisitKeys(epoch: Date, start: nat, k: nat): (keys: seq<string>)
    requires ValidDate(epoch)
    ensures |keys| == k
  {
    if k == 0 then [] else VisitKeys(epoch, start, k - 1) + [VisitKey(epoch, start, k - 1)]
  }

  lemma {:induction false} VisitKeysAt(epoch: Date, start: nat, k: nat, i: nat)
    requires ValidDate(epoch) && i < k
    ensures VisitKeys(epoch, start, k)[i] == VisitKey(epoch, start, i)
    decreases k
  {
    if i < k - 1 {
      VisitKeysAt(epoch, start, k - 1, i);
    }
  }

  /** The records the files named by keys add, one file after the other. */
  function Visited(files: Store, keys: seq<string>, start: nat, end: nat): seq<Record> {
    if keys == [] then []
    else Visited(files, keys[..|keys| - 1], start, end) + Contribution(Entries(files, keys[|keys| - 1]), start, end)
  }

  /**
   * The window of frameMs milliseconds ending at end, as ReadFromFile emits
   * it: the contributions of the files of every day from the day of its
   * start to the day of its end, one day after the other.
   */
  function Window(epoch: Date, files: Store, end: nat, frameMs: nat): seq<Record>
    requires ValidDate(epoch) && frameMs <= end
  {
    Visited(files, WindowKeys(epoch, end, frameMs), end - frameMs, end)
  }

  /** The file names of the window's days, from the day of its start to the day of its end. */
  function WindowKeys(epoch: Date, end: nat, frameMs: nat): seq<string>
    requires ValidDate(epoch) && frameMs <= end
  {
    VisitKeys(epoch, end - frameMs, VisitCount(end / MsPerDay - (end - frameMs) / MsPerDay))
  }

  /** The window is what the Gregorian day span plus one visits from its start add. */
  lemma WindowVisits(epoch: Date, files: Store, start: nat, end: nat, frameMs: nat, n: nat)
    requires ValidDate(epoch) && frameMs <= end && start == end - frameMs
    requires n == DaySpan(epoch, start, end) + 1
    ensures Window(epoch, files, end, frameMs) == Visited(files, VisitKeys(epoch, start, n), start, end)
  {
    DaySpanIsDayDifference(epoch, start, end);
    WindowVisitsDays(epoch, files, start, end, frameMs, n);
  }

  /** The window visits the days from the day of its start to the day of its end. */
  lemma WindowVisitsDays(epoch: Date, files: Store, start: nat, end: nat, frameMs: nat, n: nat)
    requires ValidDate(epoch) && frameMs <= end && start == end - frameMs
    requires n == end / MsPerDay - start / MsPerDay + 1
    ensures Window(epoch, files, end, frameMs) == Visited(files, VisitKeys(epoch, start, n), start, end)
  {
    var keys := VisitKeys(epoch, start, n);
    assert VisitCount(end / MsPerDay - (end - frameMs) / MsPerDay) == n;
    assert WindowKeys(epoch, end, frameMs) == keys;
    assert Window(epoch, files, end, frameMs) == Visited(files, keys, start, end);
  }

  /** The i-th key of the window names the day i days after the day of its start. */
  lemma WindowKeysAt(epoch: Date, end: nat, frameMs: nat, i: nat)
    requires ValidDate(epoch) && frameMs <= end
    requires i <= end / MsPerDay - (end - frameMs) / MsPerDay
    ensures i < |WindowKeys(epoch, end, frameMs)|
    ensures WindowKeys(epoch, end, frameMs)[i] == VisitKey(epoch, end - frameMs, i)
  {
    VisitKeysAt(epoch, end - frameMs, VisitCount(end / MsPerDay - (end - frameMs) / MsPerDay), i);
  }

  /** The i-th visited instant falls i days after the day of start. */
  lemma VisitDayIndex(start: nat, i: nat)
    ensures (start + i * MsPerDay) / MsPerDay == start / MsPerDay + i
  {
    var q, r := start / 86400000, start % 86400000;
    assert start + i * 86400000 == (q + i) * 86400000 + r;
    DivSplit(start + i * MsPerDay, MsPerDay, q + i, r);
  }

  /** The day span is the number of midnights between start and end. */
  lemma DaySpanIsDayDifference(epoch: Date, start: nat, end: nat)
    requires ValidDate(epoch) && start <= end
    ensures DaySpan(epoch, start, end) == end / MsPerDay - start / MsPerDay >= 0
  {
    DateOfIsEpochPlusDays(epoch, start);
    DateOfIsEpochPlusDays(epoch, end);
    DaysBetweenAddDays(epoch, start / MsPerDay, end / MsPerDay);
  }

  /** The i-th visited key names the date i days after the day of start. */
  lemma VisitKeyIsDay(epoch: Date, start: nat, i: nat)
    requires ValidDate(epoch)
    ensures VisitKey(epoch, start, i) == FormatDate(AddDays(epoch, start / MsPerDay + i))
  {
    var ts := start + i * MsPerDay;
    var days := start / MsPerDay + i;
    VisitDayIndex(start, i);
    assert ts / MsPerDay == days;
    DateOfIsEpochPlusDays(epoch, ts);
  }

  /** Different visits name different day files. */
  lemma VisitKeysDistinct(epoch: Date, start: nat, i: nat, j: nat)
    requires ValidDate(epoch) && i != j
    ensures VisitKey(epoch, start, i) != VisitKey(epoch, start, j)
  {
    VisitDayIndex(start, i);
    VisitDayIndex(start, j);
    DayKeySameIffSameDay(epoch, start + i * MsPerDay, start + j * MsPerDay);
  }

  /** The file of an instant t >= start is the visit numbered by its day distance. */
  lemma InstantVisit(epoch: Date, start: nat, t: nat, i: nat)
    requires ValidDate(epoch) && start / MsPerDay + i == t / MsPerDay
    ensures DayKey(epoch, t) == VisitKey(epoch, start, i)
  {
    VisitDayIndex(start, i);
    DayKeySameIffSameDay(epoch, t, start + i * MsPerDay);
  }

  /** The first visit is the day of start and the last the day of end. */
  lemma VisitSpanEnds(epoch: Date, start: nat, end: nat)
    requires ValidDate(epoch) && start <= end
    ensures DaySpan(epoch, start, end) >= 0
    ensures VisitKey(epoch, start, 0) == DayKey(epoch, start)
    ensures VisitKey(epoch, start, DaySpan(epoch, start, end)) == DayKey(epoch, end)
  {
    DaySpanIsDayDifference(epoch, start, end);
    InstantVisit(epoch, start, start, 0);
    InstantVisit(epoch, start, end, DaySpan(epoch, start, end));
  }

  lemma DivMonotone(a: nat, b: nat)
    requires a <= b
    ensures a / MsPerDay <= b / MsPerDay
  {
  }

  /** An earlier day means an earlier instant. */
  lemma DayOrder(a: nat, b: nat)
    requires a / MsPerDay < b / MsPerDay
    ensures a < b
  {
  }

  /** Every visited record lies in [start, end]. */
  lemma {:induction false} VisitedInRange(files: Store, keys: seq<string>, start: nat, end: nat)
    ensures forall q :: 0 <= q < |Visited(files, keys, start, end)| ==>
              InWindow(Visited(files, keys, start, end)[q].time, start, end)
    decreases |keys|
  {
    if keys != [] {
      var init := keys[..|keys| - 1];
      VisitedInRange(files, init, start, end);
      var prev := Visited(files, init, start, end);
      var last := Contribution(Entries(files, keys[|keys| - 1]), start, end);
      ContributionInWindow(Entries(files, keys[|keys| - 1]), start, end);
      var w := Visited(files, keys, start, end);
      assert w == prev + last;
      forall q | 0 <= q < |w|
        ensures InWindow(w[q].time, start, end)
      {
        if q >= |prev| {
          assert w[q] == last[q - |prev|];
        } else {
          assert w[q] == prev[q];
        }
      }
    }
  }

  /** A timestamp the file of the i-th key contributes is among the visited records. */
  lemma {:induction false} VisitedHas(files: Store, keys: seq<string>, start: nat, end: nat, i: nat, key: string, t: nat)
    requires i < |keys| && keys[i] == key
    requires HasTime(Contribution(Entries(files, key), start, end), t)
    ensures HasTime(Visited(files, keys, start, end), t)
    decreases |keys|
  {
    var init := keys[..|keys| - 1];
    if i < |keys| - 1 {
      assert init[i] == keys[i];
      VisitedHas(files, init, start, end, i, key, t);
    }
    HasTimeAppend(Visited(files, init, start, end),
                  Contribution(Entries(files, keys[|keys| - 1]), start, end), t);
  }

  /** A timestamp held by either half is held by the concatenation. */
  lemma HasTimeAppend(a: seq<Record>, b: seq<Record>, t: nat)
    ensures HasTime(a, t) || HasTime(b, t) ==> HasTime(a + b, t)
  {
    if HasTime(a, t) {
      var q :| 0 <= q < |a| && a[q].time == t;
      assert (a + b)[q] == a[q];
    } else if HasTime(b, t) {
      var q :| 0 <= q < |b| && b[q].time == t;
      assert (a + b)[|a| + q] == b[q];
    }
  }

  /** In a well-filed store the j-th entry under the i-th visited key lies on day start/day + i. */
  lemma VisitedEntryOnDay(epoch: Date, files: Store, start: nat, i: nat, j: nat)
    requires ValidDate(epoch) && WellFiled(epoch, files)
    requires j < |Entries(files, VisitKey(epoch, start, i))|
    ensures Entries(files, VisitKey(epoch, start, i))[j].time / MsPerDay == start / MsPerDay + i
  {
    var key := VisitKey(epoch, start, i);
    var t := files[key].entries[j].time;
    assert DayKey(epoch, t) == key;
    VisitDayIndex(start, i);
    DayKeySameIffSameDay(epoch, t, start + i * MsPerDay);
  }

  /** In a well-filed store the i-th visited file emits only records of day start/day + i. */
  lemma ContributionOnDay(epoch: Date, files: Store, start: nat, end: nat, i: nat)
    requires ValidDate(epoch) && WellFiled(epoch, files)
    ensures var c := Contribution(Entries(files, VisitKey(epoch, start, i)), start, end);
            forall q :: 0 <= q < |c| ==> c[q].time / MsPerDay == start / MsPerDay + i
  {
    var entries := Entries(files, VisitKey(epoch, start, i));
    var c := Contribution(entries, start, end);
    ContributionFirstEntries(entries, start, end);
    forall q | 0 <= q < |c|
      ensures c[q].time / MsPerDay == start / MsPerDay + i
    {
      VisitedEntryOnDay(epoch, files, start, i, FirstIndexOf(entries, c[q].time));
    }
  }

  /** In a well-filed store the i-th visited file emits a sorted series of day start/day + i. */
  lemma ContributionSortedOnDay(epoch: Date, files: Store, start: nat, end: nat, i: nat)
    requires ValidDate(epoch) && WellFiled(epoch, files)
    ensures var c := Contribution(Entries(files, VisitKey(epoch, start, i)), start, end);
            && SortedTimes(Times(c))
            && forall q :: 0 <= q < |c| ==> c[q].time / MsPerDay == start / MsPerDay + i
  {
    ContributionSorted(Entries(files, VisitKey(epoch, start, i)), start, end);
    ContributionOnDay(epoch, files, start, end, i);
  }

  /** Two sorted series, the first wholly earlier, concatenate to a sorted series. */
  lemma SortedConcat(a: seq<Record>, b: seq<Record>)
    requires SortedTimes(Times(a)) && SortedTimes(Times(b))
    requires forall x, y :: 0 <= x < |a| && 0 <= y < |b| ==> a[x].time < b[y].time
    ensures SortedTimes(Times(a + b))
  {
    var w := a + b;
    forall x, y | 0 <= x < y < |w|
      ensures Times(w)[x] <= Times(w)[y]
    {
      if y < |a| {
        assert Times(a)[x] <= Times(a)[y];
      } else if x >= |a| {
        assert Times(b)[x - |a|] <= Times(b)[y - |a|];
      } else {
        assert w[x] == a[x] && w[y] == b[y - |a|];
      }
    }
  }

  /** A series sorted by timestamp whose records all fall on day d. */
  predicate SortedOnDay(c: seq<Record>, d: nat) {
    SortedTimes(Times(c)) && forall q :: 0 <= q < |c| ==> c[q].time / MsPerDay == d
  }

  /**
   * When the file of the i-th key contributes a sorted series of day d + i,
   * the visited records are sorted by timestamp and lie before day d + |keys|.
   */
  lemma {:induction false} VisitedSorted(files: Store, keys: seq<string>, start: nat, end: nat, d: nat)
    requires forall i :: 0 <= i < |keys| ==> SortedOnDay(Contribution(Entries(files, keys[i]), start, end), d + i)
    ensures SortedTimes(Times(Visited(files, keys, start, end)))
    ensures forall q :: 0 <= q < |Visited(files, keys, start, end)| ==>
              Visited(files, keys, start, end)[q].time / MsPerDay < d + |keys|
    decreases |keys|
  {
    if keys != [] {
      var init := keys[..|keys| - 1];
      assert forall i :: 0 <= i < |init| ==> init[i] == keys[i];
      VisitedSorted(files, init, start, end, d);
      var prev := Visited(files, init, start, end);
      var last := Contribution(Entries(files, keys[|keys| - 1]), start, end);
      assert SortedOnDay(last, d + |init|);
      forall x, y | 0 <= x < |prev| && 0 <= y < |last|
        ensures prev[x].time < last[y].time
      {
        DayOrder(prev[x].time, last[y].time);
      }
      SortedConcat(prev, last);
      DaysBelowConcat(prev, last, d + |keys|);
      assert Visited(files, keys, start, end) == prev + last;
    }
  }

  /** Two series that lie before day bound concatenate to one that does too. */
  lemma DaysBelowConcat(a: seq<Record>, b: seq<Record>, bound: nat)
    requires forall q :: 0 <= q < |a| ==> a[q].time / MsPerDay < bound
    requires forall q :: 0 <= q < |b| ==> b[q].time / MsPerDay < bound
    ensures forall q :: 0 <= q < |a + b| ==> (a + b)[q].time / MsPerDay < bound
  {
    forall q | 0 <= q < |a + b|
      ensures (a + b)[q].time / MsPerDay < bound
    {
      if q >= |a| {
        assert (a + b)[q] == b[q - |a|];
      }
    }
  }

  /** A timestamp the file of the window's i-th key contributes is in the window. */
  lemma WindowHasDay(epoch: Date, files: Store, end: nat, frameMs: nat, i: nat, key: string, t: nat)
    requires ValidDate(epoch) && frameMs <= end
    requires i < |WindowKeys(epoch, end, frameMs)| && WindowKeys(epoch, end, frameMs)[i] == key
    requires HasTime(Contribution(Entries(files, key), end - frameMs, end), t)
    ensures HasTime(Window(epoch, files, end, frameMs), t)
  {
    VisitedHas(files, WindowKeys(epoch, end, frameMs), end - frameMs, end, i, key, t);
  }

  /** Every timestamp of the window read back lies in [end - frameMs, end]. */
  lemma WindowInRange(epoch: Date, files: Store, end: nat, frameMs: nat)
    requires ValidDate(epoch) && frameMs <= end
    ensures var w := Window(epoch, files, end, frameMs);
            forall q :: 0 <= q < |w| ==> InWindow(w[q].time, end - frameMs, end)
  {
    VisitedInRange(files, WindowKeys(epoch, end, frameMs), end - frameMs, end);
  }

  /** In a well-filed store the window read back is sorted by timestamp. */
  lemma WindowSorted(epoch: Date, files: Store, end: nat, frameMs: nat)
    requires ValidDate(epoch) && frameMs <= end && WellFiled(epoch, files)
    ensures SortedTimes(Times(Window(epoch, files, end, frameMs)))
  {
    var start := end - frameMs;
    var keys := WindowKeys(epoch, end, frameMs);
    forall i | 0 <= i < |keys|
      ensures SortedOnDay(Contribution(Entries(files, keys[i]), start, end), start / MsPerDay + i)
    {
      WindowKeysAt(epoch, end, frameMs, i);
      ContributionSortedOnDay(epoch, files, start, end, i);
    }
    VisitedSorted(files, keys, start, end, start / MsPerDay);
  }

  /**
   * The window read back holds the timestamp of every stored entry inside
   * [end - frameMs, end] that sits in the file of its own day, as every
   * entry of a well-filed store does.
   */
  lemma WindowComplete(epoch: Date, files: Store, end: nat, frameMs: nat, key: string, r: Record)
    requires ValidDate(epoch) && frameMs <= end
    requires key in files && files[key].Tree? && r in files[key].entries && DayKey(epoch, r.time) == key
    requires InWindow(r.time, end - frameMs, end)
    ensures HasTime(Window(epoch, files, end, frameMs), r.time)
  {
    var start := end - frameMs;
    DivMonotone(start, r.time);
    DivMonotone(r.time, end);
    var i: nat := r.time / MsPerDay - start / MsPerDay;
    InstantVisit(epoch, start, r.time, i);
    WindowKeysAt(epoch, end, frameMs, i);
    ContributionComplete(files[key].entries, start, end);
    var j :| 0 <= j < |files[key].entries| && files[key].entries[j] == r;
    assert HasTime(Contribution(Entries(files, key), start, end), r.time);
    WindowHasDay(epoch, files, end, frameMs, i, key, r.time);
  }

  /**
   * The as-written day count agrees with the Gregorian difference unless
   * the start and end dates share a month in different years.
   */
  lemma AsWrittenDaySpanAgrees(sd: Date, ed: Date)
    requires ValidDate(sd) && ValidDate(ed)
    requires sd.year == ed.year || sd.month != ed.month
    ensures AsWrittenDaySpan(sd, ed) == DaysBetween(sd, ed)
  {
  }

  /**
   * A window starting at midnight of the epoch, on a day d >= 2 of a month
   * from March on, and ending on day d - 1 of the same month a year later:
   * the as-written day count is -1, so the reader visits no day at all,
   * where at least 365 days are due (366 from 2023-3-21 to 2024-3-20).
   */
  lemma AsWrittenDaySpanSkipsYearWindow(epoch: Date)
    requires ValidDate(epoch) && epoch.month >= 3 && epoch.day >= 2
    ensures var later := Date(epoch.year + 1, epoch.month, epoch.day - 1);
            var end := DaysBetween(epoch, later) * MsPerDay;
            && DaysBetween(epoch, later) >= 364
            && DateOf(epoch, 0) == epoch
            && DateOf(epoch, end) == later
            && VisitCount(AsWrittenDaySpan(DateOf(epoch, 0), DateOf(epoch, end))) == 0
            && VisitCount(DaySpan(epoch, 0, end)) == DaysBetween(epoch, later) + 1
  {
    var later := Date(epoch.year + 1, epoch.month, epoch.day - 1);
    assert ValidDate(later) by {
      assert MonthLength(later.year, later.month) >= 28;
    }
    assert DaysBeforeYear(later.year) == DaysBeforeYear(epoch.year) + YearLength(epoch.year);
    var n := DaysBetween(epoch, later);
    assert n >= 364;
    var end := n * MsPerDay;
    VisitDayIndex(0, n);
    DateOfIsEpochPlusDays(epoch, 0);
    DateOfIsEpochPlusDays(epoch, end);
    AddDaysReaches(epoch, later);
    DaySpanIsDayDifference(epoch, 0, end);
  }

  /**
   * The window as written: the day loop runs for as many days as the
   * as-written day count gives, from the day of the window's start.
   */
  function AsWrittenWindow(epoch: Date, files: Store, end: nat, frameMs: nat): seq<Record>
    requires ValidDate(epoch) && frameMs <= end
  {
    var start := end - frameMs;
    Visited(files, VisitKeys(epoch, start, VisitCount(AsWrittenDaySpan(DateOf(epoch, start), DateOf(epoch, end)))),
            start, end)
  }

  /**
   * Unless the window starts and ends in the same month of different
   * years, the window as written is the window.
   */
  lemma AsWrittenWindowAgrees(epoch: Date, files: Store, end: nat, frameMs: nat)
    requires ValidDate(epoch) && frameMs <= end
    requires DateOf(epoch, end - frameMs).year == DateOf(epoch, end).year
             || DateOf(epoch, end - frameMs).month != DateOf(epoch, end).month
    ensures AsWrittenWindow(epoch, files, end, frameMs) == Window(epoch, files, end, frameMs)
  {
    var start := end - frameMs;
    AsWrittenDaySpanAgrees(DateOf(epoch, start), DateOf(epoch, end));
    DaySpanIsDayDifference(epoch, start, end);
    var n := DaySpan(epoch, start, end) + 1;
    var visits := VisitCount(AsWrittenDaySpan(DateOf(epoch, start), DateOf(epoch, end)));
    assert AsWrittenWindow(epoch, files, end, frameMs) == Visited(files, VisitKeys(epoch, start, visits), start, end);
    assert visits == n;
    WindowVisits(epoch, files, start, end, frameMs, n);
  }

  /**
   * The window from midnight of the epoch (day d >= 2 of a month from March
   * on) to midnight of day d - 1 of that month a year later reads nothing
   * as written, whatever the day files hold, where the window visits every
   * one of its at least 365 days.
   */
  lemma AsWrittenWindowMissesYear(epoch: Date, files: Store)
    requires ValidDate(epoch) && epoch.month >= 3 && epoch.day >= 2
    ensures var later := Date(epoch.year + 1, epoch.month, epoch.day - 1);
            var end := DaysBetween(epoch, later) * MsPerDay;
            && AsWrittenWindow(epoch, files, end, end) == []
            && |WindowKeys(epoch, end, end)| == DaysBetween(epoch, later) + 1 >= 365
  {
    var later := Date(epoch.year + 1, epoch.month, epoch.day - 1);
    var end := DaysBetween(epoch, later) * MsPerDay;
    AsWrittenDaySpanSkipsYearWindow(epoch);
    assert VisitCount(AsWrittenDaySpan(DateOf(epoch, 0), DateOf(epoch, end))) == 0;
    assert end - end == 0;
    DaySpanIsDayDifference(epoch, 0, end);
  }
}
