/** The activity catalog: loading it from its parsed file form and selecting the
    activities that run on a given weekday. */
module Catalog {
  import opened Basics
  import opened Clock

  /** The weekday marker meaning "every day of the week". */
  const Everyday := "Everyday"

  /** One catalog entry as read from the file: `start_times` still `"HH:MM"` text,
      `duration_minutes` an integer or null. */
  datatype RawActivity = RawActivity(
    name: string,
    days: seq<string>,
    startTimes: seq<string>,
    durationMinutes: Option<int>)

  /** One catalog entry after loading: start times as minutes of the day, the
      duration in minutes or absent. */
  datatype Activity = Activity(
    name: string,
    days: seq<string>,
    startTimes: seq<int>,
    duration: Option<int>)

  /** An activity as it appears in a day's schedule: the weekdays are dropped. */
  datatype DayEntry = DayEntry(name: string, startTimes: seq<int>, duration: Option<int>)

  // ---------- loading ----------

  /** The largest magnitude, in days, of Python's `timedelta`. */
  const MaxTimedeltaDays := 999999999

  /** `timedelta(minutes=d)` exists: its whole days, rounded down, stay within
      the type's range. An absent duration needs no conversion. */
  predicate DurationFits(d: Option<int>) {
    d.None? || -MaxTimedeltaDays <= d.value / MinutesPerDay <= MaxTimedeltaDays
  }

  /** Parse every start time; one unparsable time fails the whole list. */
  function ParseTimes(ts: seq<string>): (r: Option<seq<int>>)
    ensures r.Some? <==> forall j :: 0 <= j < |ts| ==> ParseClock(ts[j]).Some?
    ensures r.Some? ==> |r.value| == |ts| && forall j :: 0 <= j < |ts| ==> ParseClock(ts[j]) == Some(r.value[j])
  {
    if |ts| == 0 then Some([])
    else
      match ParseClock(ts[0])
      case None => None
      case Some(t) =>
        match ParseTimes(ts[1..])
        case None => None
        case Some(rest) => Some([t] + rest)
  }

  /** `a` is what loading `raw` produces. */
  ghost predicate LoadedFrom(raw: RawActivity, a: Activity) {
    && a.name == raw.name
    && a.days == raw.days
    && |a.startTimes| == |raw.startTimes|
    && (forall j :: 0 <= j < |raw.startTimes| ==> ParseClock(raw.startTimes[j]) == Some(a.startTimes[j]))
    && a.duration == raw.durationMinutes
  }

  function LoadActivity(raw: RawActivity): Option<Activity> {
    if !DurationFits(raw.durationMinutes) then None
    else
      match ParseTimes(raw.startTimes)
      case None => None
      case Some(ts) => Some(Activity(raw.name, raw.days, ts, raw.durationMinutes))
  }

  /** Load the whole catalog, keeping its order. A single malformed start time
      or out-of-range duration anywhere makes the load fail. */
  function LoadActivities(raws: seq<RawActivity>): (r: Option<seq<Activity>>)
    ensures r.Some? <==> (forall i :: 0 <= i < |raws| ==> DurationFits(raws[i].durationMinutes))
                         && forall i, j :: 0 <= i < |raws| && 0 <= j < |raws[i].startTimes| ==> ParseClock(raws[i].startTimes[j]).Some?
    ensures r.Some? ==> |r.value| == |raws| && forall i :: 0 <= i < |raws| ==> LoadedFrom(raws[i], r.value[i])
  {
    if |raws| == 0 then Some([])
    else
      match LoadActivity(raws[0])
      case None => None
      case Some(a) =>
        match LoadActivities(raws[1..])
        case None => None
        case Some(rest) =>
          assert forall i :: 1 <= i < |raws| ==> raws[i] == raws[1..][i - 1];
          Some([a] + rest)
  }

  /** The last minute of `timedelta`'s range loads; one minute more fails the
      whole catalog. */
  lemma DurationBoundary(raw: RawActivity)
    requires forall j :: 0 <= j < |raw.startTimes| ==> ParseClock(raw.startTimes[j]).Some?
    ensures var top := MaxTimedeltaDays * MinutesPerDay + MinutesPerDay - 1;
            && LoadActivities([raw.(durationMinutes := Some(top))]).Some?
            && LoadActivities([raw.(durationMinutes := Some(top + 1))]).None?
            && LoadActivities([raw.(durationMinutes := Some(-MaxTimedeltaDays * MinutesPerDay - 1))]).None?
  {
  }

  /** The file form of a loaded activity, with canonical `"HH:MM"` times. */
  function Unload(a: Activity): RawActivity {
    RawActivity(a.name, a.days, seq(|a.startTimes|, j requires 0 <= j < |a.startTimes| => FormatClock(a.startTimes[j])), a.duration)
  }

  predicate WellTimed(a: Activity) {
    && DurationFits(a.duration)
    && forall j :: 0 <= j < |a.startTimes| ==> IsMinuteOfDay(a.startTimes[j])
  }

  /** Loading inverts writing a catalog out with canonical times. */
  lemma {:induction false} LoadUnload(catalog: seq<Activity>)
    requires forall i :: 0 <= i < |catalog| ==> WellTimed(catalog[i])
    ensures LoadActivities(seq(|catalog|, i requires 0 <= i < |catalog| => Unload(catalog[i]))) == Some(catalog)
  {
    var raws := seq(|catalog|, i requires 0 <= i < |catalog| => Unload(catalog[i]));
    forall i, j | 0 <= i < |raws| && 0 <= j < |raws[i].startTimes|
      ensures ParseClock(raws[i].startTimes[j]) == Some(catalog[i].startTimes[j])
    {
      ParseFormatClock(catalog[i].startTimes[j]);
    }
    var r := LoadActivities(raws);
    assert r.Some?;
    assert r.value == catalog by {
      forall i | 0 <= i < |catalog| ensures r.value[i] == catalog[i] {
        assert LoadedFrom(raws[i], r.value[i]);
        assert r.value[i].startTimes == catalog[i].startTimes;
      }
    }
  }

  // ---------- the day's schedule ----------

  /** The activity takes place on `day` (a weekday name such as "Monday"). */
  predicate RunsOn(a: Activity, day: string) {
    Everyday in a.days || day in a.days
  }

  function EntryOf(a: Activity): DayEntry {
    DayEntry(a.name, a.startTimes, a.duration)
  }

  /** The activities running on `day`, in catalog order. */
  function GetDaySchedule(catalog: seq<Activity>, day: string): (r: seq<DayEntry>)
    ensures |r| <= |catalog|
  {
    if |catalog| == 0 then []
    else (if RunsOn(catalog[0], day) then [EntryOf(catalog[0])] else []) + GetDaySchedule(catalog[1..], day)
  }

  /** How many catalog entries run on `day`. */
  function RunningCount(catalog: seq<Activity>, day: string): nat {
    if |catalog| == 0 then 0
    else (if RunsOn(catalog[0], day) then 1 else 0) + RunningCount(catalog[1..], day)
  }

  /** Every position in `idx` is a catalog entry running on `day`. */
  ghost predicate RunningPositions(idx: seq<int>, catalog: seq<Activity>, day: string) {
    forall k :: 0 <= k < |idx| ==> 0 <= idx[k] < |catalog| && RunsOn(catalog[idx[k]], day)
  }

  /** `r` lists the catalog entries at positions `idx`. */
  ghost predicate EntriesAt(r: seq<DayEntry>, catalog: seq<Activity>, idx: seq<int>) {
    |r| == |idx| && forall k :: 0 <= k < |idx| ==> 0 <= idx[k] < |catalog| && r[k] == EntryOf(catalog[idx[k]])
  }

  ghost predicate Increasing(idx: seq<int>) {
    forall k, l :: 0 <= k < l < |idx| ==> idx[k] < idx[l]
  }

  /** `r` lists the catalog entries at the strictly increasing positions `idx`,
      each of which runs on `day`, and there are as many of them as there are
      running entries: so `idx` is exactly the running positions, in order. */
  ghost predicate SelectedAt(r: seq<DayEntry>, catalog: seq<Activity>, day: string, idx: seq<int>) {
    && |idx| == RunningCount(catalog, day)
    && RunningPositions(idx, catalog, day)
    && EntriesAt(r, catalog, idx)
    && Increasing(idx)
  }

  /** The positions `idx` moved one place to the right. */
  function Shift(idx: seq<int>): (r: seq<int>)
    ensures |r| == |idx| && forall k :: 0 <= k < |idx| ==> r[k] == idx[k] + 1
  {
    seq(|idx|, k requires 0 <= k < |idx| => idx[k] + 1)
  }

  lemma ShiftRunning(c0: Activity, tail: seq<Activity>, day: string, rest: seq<int>)
    requires RunningPositions(rest, tail, day)
    ensures RunningPositions(Shift(rest), [c0] + tail, day)
  {
    var catalog := [c0] + tail;
    forall k | 0 <= k < |rest| ensures catalog[rest[k] + 1] == tail[rest[k]] {
    }
  }

  lemma ShiftEntries(c0: Activity, tail: seq<Activity>, rr: seq<DayEntry>, rest: seq<int>)
    requires EntriesAt(rr, tail, rest)
    ensures EntriesAt(rr, [c0] + tail, Shift(rest))
  {
    var catalog := [c0] + tail;
    forall k | 0 <= k < |rest| ensures catalog[rest[k] + 1] == tail[rest[k]] {
    }
  }

  lemma ConsRunning(c0: Activity, tail: seq<Activity>, day: string, rest: seq<int>)
    requires RunsOn(c0, day) && RunningPositions(Shift(rest), [c0] + tail, day)
    ensures RunningPositions([0] + Shift(rest), [c0] + tail, day)
  {
    var idx := [0] + Shift(rest);
    forall k | 1 <= k < |idx| ensures idx[k] == Shift(rest)[k - 1] {
    }
  }

  lemma ConsEntries(c0: Activity, tail: seq<Activity>, rr: seq<DayEntry>, rest: seq<int>)
    requires EntriesAt(rr, [c0] + tail, Shift(rest))
    ensures EntriesAt([EntryOf(c0)] + rr, [c0] + tail, [0] + Shift(rest))
  {
    var idx := [0] + Shift(rest);
    var r := [EntryOf(c0)] + rr;
    forall k | 1 <= k < |idx| ensures idx[k] == Shift(rest)[k - 1] && r[k] == rr[k - 1] {
    }
  }

  lemma ShiftIncreasing(rest: seq<int>)
    requires Increasing(rest)
    ensures Increasing(Shift(rest))
  {
  }

  lemma ConsIncreasing(rest: seq<int>)
    requires Increasing(rest) && forall k :: 0 <= k < |rest| ==> 0 <= rest[k]
    ensures Increasing([0] + Shift(rest))
  {
    var idx := [0] + Shift(rest);
    forall k, l | 0 <= k < l < |idx| ensures idx[k] < idx[l] {
      assert idx[l] == rest[l - 1] + 1;
      if k > 0 {
        assert idx[k] == rest[k - 1] + 1;
      }
    }
  }

  lemma SelectedSkip(c0: Activity, tail: seq<Activity>, day: string, rr: seq<DayEntry>, rest: seq<int>)
    requires SelectedAt(rr, tail, day, rest)
    requires !RunsOn(c0, day)
    ensures SelectedAt(rr, [c0] + tail, day, Shift(rest))
  {
    assert ([c0] + tail)[1..] == tail;
    ShiftRunning(c0, tail, day, rest);
    ShiftEntries(c0, tail, rr, rest);
    ShiftIncreasing(rest);
  }

  lemma SelectedKeep(c0: Activity, tail: seq<Activity>, day: string, rr: seq<DayEntry>, rest: seq<int>)
    requires SelectedAt(rr, tail, day, rest)
    requires RunsOn(c0, day)
    ensures SelectedAt([EntryOf(c0)] + rr, [c0] + tail, day, [0] + Shift(rest))
  {
    assert ([c0] + tail)[1..] == tail;
    ShiftRunning(c0, tail, day, rest);
    ConsRunning(c0, tail, day, rest);
    ShiftEntries(c0, tail, rr, rest);
    ConsEntries(c0, tail, rr, rest);
    ConsIncreasing(rest);
  }

  /** The day's schedule is the running activities, each exactly once, in
      catalog order, with name, start times and duration unchanged. */
  lemma {:induction false} DaySchedulePositions(catalog: seq<Activity>, day: string) returns (idx: seq<int>)
    ensures SelectedAt(GetDaySchedule(catalog, day), catalog, day, idx)
  {
    if |catalog| == 0 {
      idx := [];
    } else {
      var rest := DaySchedulePositions(catalog[1..], day);
      assert catalog == [catalog[0]] + catalog[1..];
      if RunsOn(catalog[0], day) {
        SelectedKeep(catalog[0], catalog[1..], day, GetDaySchedule(catalog[1..], day), rest);
        idx := [0] + Shift(rest);
      } else {
        SelectedSkip(catalog[0], catalog[1..], day, GetDaySchedule(catalog[1..], day), rest);
        idx := Shift(rest);
      }
    }
  }
}
