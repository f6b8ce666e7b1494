/** Turning a day's schedule into its time line: one event per start time, with
    an end time when the activity has a duration, stably sorted by start. */
module Timeline {
  import opened Basics
  import opened Clock
  import opened Catalog

  /** One concrete occurrence of an activity on the day. */
  datatype Event = Event(name: string, start: int, end: Option<int>)

  /** The end of an occurrence: start plus duration, as a time of day (so it
      wraps past midnight). A zero duration counts as no duration. */
  function EndTime(start: int, duration: Option<int>): (r: Option<int>)
    ensures r.None? <==> duration.None? || duration.value == 0
    ensures r.Some? ==> IsMinuteOfDay(r.value) && (start + duration.value - r.value) % MinutesPerDay == 0
  {
    if duration.Some? && duration.value != 0 then Some((start + duration.value) % MinutesPerDay) else None
  }

  /** An occurrence that runs past midnight ends before it starts. */
  lemma EndWrapsPastMidnight()
    ensures EndTime(23 * 60 + 30, Some(60)) == Some(30)
  {
  }

  // ---------- flattening ----------

  function EventAt(e: DayEntry, j: int): Event
    requires 0 <= j < |e.startTimes|
  {
    Event(e.name, e.startTimes[j], EndTime(e.startTimes[j], e.duration))
  }

  /** The occurrences of one activity, in the order of its start times. */
  function EventsOf(e: DayEntry): (r: seq<Event>)
    ensures |r| == |e.startTimes| && forall j :: 0 <= j < |r| ==> r[j] == EventAt(e, j)
  {
    seq(|e.startTimes|, j requires 0 <= j < |e.startTimes| => EventAt(e, j))
  }

  /** How many start times the schedule lists in all. */
  function TotalStarts(s: seq<DayEntry>): nat {
    if |s| == 0 then 0 else |s[0].startTimes| + TotalStarts(s[1..])
  }

  /** All occurrences of the schedule, activity by activity. */
  function Flatten(s: seq<DayEntry>): (r: seq<Event>)
    ensures |r| == TotalStarts(s)
  {
    if |s| == 0 then [] else EventsOf(s[0]) + Flatten(s[1..])
  }

  /** An event is in the flattened list exactly when it is the occurrence of
      some activity of the schedule at one of its start times. */
  lemma {:induction false} FlattenMembers(s: seq<DayEntry>, ev: Event)
    ensures ev in Flatten(s) <==> exists i, j :: 0 <= i < |s| && 0 <= j < |s[i].startTimes| && ev == EventAt(s[i], j)
  {
    if |s| > 0 {
      FlattenMembers(s[1..], ev);
      if ev in Flatten(s[1..]) {
        var i, j :| 0 <= i < |s[1..]| && 0 <= j < |s[1..][i].startTimes| && ev == EventAt(s[1..][i], j);
        assert s[i + 1] == s[1..][i];
      }
      if exists i, j :: 0 <= i < |s| && 0 <= j < |s[i].startTimes| && ev == EventAt(s[i], j) {
        var i, j :| 0 <= i < |s| && 0 <= j < |s[i].startTimes| && ev == EventAt(s[i], j);
        if i == 0 {
          assert EventsOf(s[0])[j] == ev;
        } else {
          assert s[1..][i - 1] == s[i];
        }
      }
    }
  }

  /** The occurrence of activity `i` at its start time `j` sits at position
      `TotalStarts(s[..i]) + j`: activities in schedule order, each one's start
      times in list order, each pair exactly once. */
  lemma {:induction false} FlattenAt(s: seq<DayEntry>, i: int, j: int)
    requires 0 <= i < |s| && 0 <= j < |s[i].startTimes|
    ensures TotalStarts(s[..i]) + j < |Flatten(s)|
    ensures Flatten(s)[TotalStarts(s[..i]) + j] == EventAt(s[i], j)
  {
    if i == 0 {
      assert s[..0] == [];
    } else {
      FlattenAt(s[1..], i - 1, j);
      assert s[1..][..i - 1] == s[..i][1..];
      assert s[1..][i - 1] == s[i];
      assert TotalStarts(s[..i]) == |s[0].startTimes| + TotalStarts(s[1..][..i - 1]);
    }
  }

  // ---------- stable sort by start ----------

  predicate SortedByStart(s: seq<Event>) {
    forall i, j :: 0 <= i < j < |s| ==> s[i].start <= s[j].start
  }

  function StartsAt(k: int): Event -> bool {
    (e: Event) => e.start == k
  }

  /** Filtering a sequence with a known first element. */
  lemma FilterCons(x: Event, s: seq<Event>, p: Event -> bool)
    ensures Filter([x] + s, p) == (if p(x) then [x] else []) + Filter(s, p)
  {
    assert ([x] + s)[0] == x && ([x] + s)[1..] == s;
  }

  /** Insert `e` before the first element that does not start earlier. */
  function InsertByStart(e: Event, s: seq<Event>): (r: seq<Event>)
    ensures |r| == |s| + 1 && (r[0] == e || (|s| > 0 && r[0] == s[0]))
  {
    if |s| == 0 || e.start <= s[0].start then [e] + s
    else [s[0]] + InsertByStart(e, s[1..])
  }

  /** Inserting into a sorted sequence keeps it sorted. */
  lemma {:induction false} InsertSorted(e: Event, s: seq<Event>)
    requires SortedByStart(s)
    ensures SortedByStart(InsertByStart(e, s))
  {
    if |s| > 0 && e.start > s[0].start {
      var t := InsertByStart(e, s[1..]);
      InsertSorted(e, s[1..]);
      assert s[0].start <= t[0].start;
      var r := [s[0]] + t;
      forall i, j | 0 <= i < j < |r| ensures r[i].start <= r[j].start {
        if i > 0 {
          assert r[i] == t[i - 1] && r[j] == t[j - 1];
        } else if j > 1 {
          assert r[j] == t[j - 1];
        }
      }
    }
  }

  /** Python's `list.sort(key=start)`: see `SortSorted`, `SortPermutes` and
      `SortStable`. */
  function SortByStart(s: seq<Event>): (r: seq<Event>)
    ensures |r| == |s|
  {
    if |s| == 0 then [] else InsertByStart(s[0], SortByStart(s[1..]))
  }

  /** The sort orders by start time. */
  lemma {:induction false} SortSorted(s: seq<Event>)
    ensures SortedByStart(SortByStart(s))
  {
    if |s| > 0 {
      SortSorted(s[1..]);
      InsertSorted(s[0], SortByStart(s[1..]));
    }
  }

  lemma {:induction false} InsertPermutes(e: Event, s: seq<Event>)
    ensures multiset(InsertByStart(e, s)) == multiset(s) + multiset{e}
  {
    if |s| > 0 && e.start > s[0].start {
      InsertPermutes(e, s[1..]);
      assert s == [s[0]] + s[1..];
    }
  }

  /** The sort only reorders: every event is kept, as many times as it occurs. */
  lemma {:induction false} SortPermutes(s: seq<Event>)
    ensures multiset(SortByStart(s)) == multiset(s)
  {
    if |s| > 0 {
      var t := SortByStart(s[1..]);
      SortPermutes(s[1..]);
      InsertPermutes(s[0], t);
      assert s == [s[0]] + s[1..];
    }
  }

  /** Among the events with start `k`, the inserted one comes first. */
  lemma {:induction false} InsertFilter(e: Event, s: seq<Event>, k: int)
    ensures Filter(InsertByStart(e, s), StartsAt(k)) == (if e.start == k then [e] else []) + Filter(s, StartsAt(k))
  {
    if |s| == 0 || e.start <= s[0].start {
      FilterCons(e, s, StartsAt(k));
    } else {
      var t := InsertByStart(e, s[1..]);
      InsertFilter(e, s[1..], k);
      FilterCons(s[0], t, StartsAt(k));
      FilterCons(s[0], s[1..], StartsAt(k));
      assert s == [s[0]] + s[1..];
    }
  }

  /** Stability: for every start time, the events starting then keep their
      relative order. */
  lemma {:induction false} SortStable(s: seq<Event>, k: int)
    ensures Filter(SortByStart(s), StartsAt(k)) == Filter(s, StartsAt(k))
  {
    if |s| > 0 {
      SortStable(s[1..], k);
      InsertFilter(s[0], SortByStart(s[1..]), k);
    }
  }

  /** A sorted sequence is determined by its per-start subsequences. */
  lemma {:induction false} SortedUnique(a: seq<Event>, b: seq<Event>)
    requires SortedByStart(a) && SortedByStart(b)
    requires forall k :: Filter(a, StartsAt(k)) == Filter(b, StartsAt(k))
    ensures a == b
  {
    if |a| == 0 || |b| == 0 {
      if |a| > 0 {
        FilterMembers(a, StartsAt(a[0].start), a[0]);
      } else if |b| > 0 {
        FilterMembers(b, StartsAt(b[0].start), b[0]);
      }
    } else {
      var ka, kb := a[0].start, b[0].start;
      assert a[0] in b by {
        FilterMembers(a, StartsAt(ka), a[0]);
        FilterMembers(b, StartsAt(ka), a[0]);
      }
      assert b[0] in a by {
        FilterMembers(b, StartsAt(kb), b[0]);
        FilterMembers(a, StartsAt(kb), b[0]);
      }
      assert ka == kb;
      forall k ensures Filter(a[1..], StartsAt(k)) == Filter(b[1..], StartsAt(k)) {
        assert a == [a[0]] + a[1..] && b == [b[0]] + b[1..];
        FilterCons(a[0], a[1..], StartsAt(k));
        FilterCons(b[0], b[1..], StartsAt(k));
        assert StartsAt(k)(a[0]) == (k == ka) && StartsAt(k)(b[0]) == (k == ka);
        assert Filter(a, StartsAt(k)) == Filter(b, StartsAt(k));
        if k == ka {
          var fa, fb := Filter(a[1..], StartsAt(k)), Filter(b[1..], StartsAt(k));
          assert Filter(a, StartsAt(k)) == [a[0]] + fa;
          assert Filter(b, StartsAt(k)) == [b[0]] + fb;
          assert [a[0]] + fa == [b[0]] + fb;
          assert fa == ([a[0]] + fa)[1..] == ([b[0]] + fb)[1..] == fb;
        } else {
          assert Filter(a, StartsAt(k)) == Filter(a[1..], StartsAt(k));
          assert Filter(b, StartsAt(k)) == Filter(b[1..], StartsAt(k));
        }
      }
      assert a[0] == b[0] by {
        assert a == [a[0]] + a[1..] && b == [b[0]] + b[1..];
        FilterCons(a[0], a[1..], StartsAt(ka));
        FilterCons(b[0], b[1..], StartsAt(ka));
        assert Filter(a, StartsAt(ka)) == Filter(b, StartsAt(ka));
        assert Filter(a, StartsAt(ka))[0] == a[0];
      }
      SortedUnique(a[1..], b[1..]);
      assert a == [a[0]] + a[1..] && b == [b[0]] + b[1..];
    }
  }

  /** The sort is the one and only stable sort: a sequence is `SortByStart(s)`
      exactly when it is sorted and keeps, for every start time, the order of
      the events of `s` starting then. */
  lemma StableSortCharacterization(s: seq<Event>, r: seq<Event>)
    ensures r == SortByStart(s) <==> SortedByStart(r) && forall k :: Filter(r, StartsAt(k)) == Filter(s, StartsAt(k))
  {
    SortSorted(s);
    forall k ensures Filter(SortByStart(s), StartsAt(k)) == Filter(s, StartsAt(k)) {
      SortStable(s, k);
    }
    if SortedByStart(r) && forall k :: Filter(r, StartsAt(k)) == Filter(s, StartsAt(k)) {
      SortedUnique(r, SortByStart(s));
    }
  }

  // ---------- the day's time line ----------

  /** The occurrences of the activities running on `day`, sorted by start,
      same-time occurrences in catalog order. */
  function DayTimeline(catalog: seq<Activity>, day: string): (r: seq<Event>)
    ensures SortedByStart(r)
    ensures |r| == TotalStarts(GetDaySchedule(catalog, day))
  {
    SortSorted(Flatten(GetDaySchedule(catalog, day)));
    SortByStart(Flatten(GetDaySchedule(catalog, day)))
  }

  /** The day's time line holds exactly the occurrences of the day's schedule,
      as many times each, and same-time occurrences keep catalog order. */
  lemma DayTimelineContents(catalog: seq<Activity>, day: string, k: int)
    ensures multiset(DayTimeline(catalog, day)) == multiset(Flatten(GetDaySchedule(catalog, day)))
    ensures Filter(DayTimeline(catalog, day), StartsAt(k)) == Filter(Flatten(GetDaySchedule(catalog, day)), StartsAt(k))
  {
    SortPermutes(Flatten(GetDaySchedule(catalog, day)));
    SortStable(Flatten(GetDaySchedule(catalog, day)), k);
  }
}
