/** The decisions behind the day-schedule picture: which instant counts as
    "now" after a display offset such as `"+11"`, which occurrence cards are
    highlighted as running, which occurrence is an activity's last session, and
    how the time line is split into two columns. */
module Display {
  import opened Basics
  import opened Clock
  import opened Timeline
  import opened Reminders

  // ---------- the display offset ----------

  /** The instant shown as "now", in seconds since midnight, after applying
      `offset`: `"+N"` moves it N minutes forward, any other first character N
      minutes back, wrapping around the day. A missing or empty offset, or one
      whose remainder is not a decimal number, leaves it unchanged. */
  function ShiftedNow(nowSec: int, offset: Option<string>): (r: int)
    requires 0 <= nowSec < SecondsPerDay
    ensures 0 <= r < SecondsPerDay
    ensures offset.None? || |offset.value| == 0 || ParseNat(offset.value[1..]).None? ==> r == nowSec
    ensures offset.Some? && |offset.value| > 0 && ParseNat(offset.value[1..]).Some? ==>
              var delta := ParseNat(offset.value[1..]).value * SecondsPerMinute;
              (r - nowSec - (if offset.value[0] == '+' then delta else -delta)) % SecondsPerDay == 0
  {
    if offset.None? || |offset.value| == 0 then nowSec
    else
      match ParseNat(offset.value[1..])
      case None => nowSec
      case Some(m) =>
        if offset.value[0] == '+' then (nowSec + m * SecondsPerMinute) % SecondsPerDay
        else (nowSec - m * SecondsPerMinute) % SecondsPerDay
  }

  /** Shifting forward by N minutes and back by N minutes returns to the start. */
  lemma ShiftRoundTrip(nowSec: int, m: nat)
    requires 0 <= nowSec < SecondsPerDay
    ensures ShiftedNow(ShiftedNow(nowSec, Some("+" + Decimal(m))), Some("-" + Decimal(m))) == nowSec
  {
    ParseDecimal(m);
    assert ("+" + Decimal(m))[1..] == Decimal(m);
    assert ("-" + Decimal(m))[1..] == Decimal(m);
    var d := m * SecondsPerMinute;
    var fwd := (nowSec + d) % SecondsPerDay;
    assert ShiftedNow(nowSec, Some("+" + Decimal(m))) == fwd;
    ModBack(nowSec, d);
  }

  lemma ModBack(n: int, d: int)
    requires 0 <= n < SecondsPerDay
    ensures (((n + d) % SecondsPerDay) - d) % SecondsPerDay == n
  {
    var q := (n + d) / SecondsPerDay;
    assert (n + d) % SecondsPerDay == n + d - q * SecondsPerDay;
    assert ((n + d) % SecondsPerDay) - d == n + (-q) * SecondsPerDay;
  }

  /** The picture attached to a reminder uses offset `"+11"`: eleven minutes
      past the reminder, one minute after the announced start. */
  lemma ReminderPictureOffset(nowSec: int)
    requires 0 <= nowSec < SecondsPerDay
    ensures ShiftedNow(nowSec, Some("+11")) == (nowSec + 11 * SecondsPerMinute) % SecondsPerDay
  {
    assert "+11"[1..] == "11";
    assert "11"[..1] == "1";
    assert "1"[..0] == "";
    assert DigitsValue("11") == 11;
  }

  // ---------- highlighted cards ----------

  /** The occurrence is running at `nowSec` (seconds since midnight): from its
      start to its end, both inclusive, or for five minutes when it has no end. */
  predicate IsActive(e: Event, nowSec: int)
    ensures IsActive(e, nowSec) ==> e.start * SecondsPerMinute <= nowSec && (e.end.None? || e.start <= e.end.value)
  {
    var startSec := e.start * SecondsPerMinute;
    var endSec := if e.end.Some? then e.end.value * SecondsPerMinute else startSec + 300;
    startSec <= nowSec <= endSec
  }

  /** An occurrence without an end is highlighted for exactly its first five
      minutes (and the second that closes them). */
  lemma OpenEndedWindow(e: Event, nowSec: int)
    requires e.end.None?
    ensures IsActive(e, nowSec) <==> e.start * SecondsPerMinute <= nowSec <= e.start * SecondsPerMinute + 5 * SecondsPerMinute
  {
  }

  /** An occurrence whose end wrapped past midnight to before its start is
      never highlighted. */
  lemma WrappedNeverActive(e: Event, nowSec: int)
    requires e.end.Some? && e.end.value < e.start
    ensures !IsActive(e, nowSec)
  {
  }

  /** The picture sent with a reminder, shifted by `"+11"` during the reminder's
      minute, highlights the announced occurrence when it starts before 23:59
      and either has no end or ends, as a time of day, at least two minutes
      after its start (so not one whose end wraps past midnight). */
  lemma ReminderPictureHighlights(e: Event, nowSec: int)
    requires 0 <= nowSec < SecondsPerDay && e.start < MinutesPerDay - 1
    requires var k := ReminderMinute(ReminderItem(e.name, e.start));
             k * SecondsPerMinute <= nowSec < (k + 1) * SecondsPerMinute
    requires e.end.None? || e.end.value >= e.start + 2
    ensures IsActive(e, ShiftedNow(nowSec, Some("+11")))
  {
    ReminderPictureOffset(nowSec);
    var t := nowSec + 11 * SecondsPerMinute;
    assert e.start * SecondsPerMinute < t < (e.start + 2) * SecondsPerMinute <= SecondsPerDay;
  }

  /** An occurrence at 23:59 is announced at 23:49, whose picture shows a
      minute past midnight: its card is not highlighted. */
  lemma LastMinuteNotHighlighted(e: Event, nowSec: int)
    requires 0 <= nowSec < SecondsPerDay && e.start == MinutesPerDay - 1
    requires var k := ReminderMinute(ReminderItem(e.name, e.start));
             k * SecondsPerMinute <= nowSec < (k + 1) * SecondsPerMinute
    ensures !IsActive(e, ShiftedNow(nowSec, Some("+11")))
  {
    ReminderPictureOffset(nowSec);
    assert ShiftedNow(nowSec, Some("+11")) == nowSec + 11 * SecondsPerMinute - SecondsPerDay;
  }

  // ---------- last sessions ----------

  /** The start times of the occurrences named `name`, in order. */
  function StartsNamed(events: seq<Event>, name: string): (r: seq<int>)
    ensures |r| <= |events|
    ensures forall f :: f in events && f.name == name ==> f.start in r
  {
    if |events| == 0 then []
    else
      assert forall f :: f in events ==> f == events[0] || f in events[1..];
      (if events[0].name == name then [events[0].start] else []) + StartsNamed(events[1..], name)
  }

  lemma {:induction false} StartsNamedMembers(events: seq<Event>, name: string, t: int)
    ensures t in StartsNamed(events, name) <==> exists f :: f in events && f.name == name && f.start == t
  {
    if |events| > 0 {
      StartsNamedMembers(events[1..], name, t);
      assert events == [events[0]] + events[1..];
      if exists f :: f in events && f.name == name && f.start == t {
        var f :| f in events && f.name == name && f.start == t;
        if f != events[0] {
          assert f in events[1..];
        }
      }
    }
  }

  /** Python's `max` of a non-empty list. */
  function MaxOf(s: seq<int>): (m: int)
    requires |s| > 0
    ensures m in s && forall x :: x in s ==> x <= m
  {
    if |s| == 1 then s[0]
    else
      var rest := MaxOf(s[1..]);
      assert forall x :: x in s ==> x == s[0] || x in s[1..];
      if s[0] >= rest then s[0] else rest
  }

  /** The occurrence is its activity's last session of the day: it starts at
      the latest start among the occurrences with its name. */
  predicate IsLastSession(e: Event, events: seq<Event>)
    requires e in events
    ensures IsLastSession(e, events) ==> forall f :: f in events && f.name == e.name ==> f.start <= e.start
  {
    StartsNamedMembers(events, e.name, e.start);
    e.start == MaxOf(StartsNamed(events, e.name))
  }

  /** An occurrence is the last session exactly when no occurrence of the same
      activity starts later. */
  lemma LastSessionIff(e: Event, events: seq<Event>)
    requires e in events
    ensures IsLastSession(e, events) <==> forall f :: f in events && f.name == e.name ==> f.start <= e.start
  {
    StartsNamedMembers(events, e.name, e.start);
    var m := MaxOf(StartsNamed(events, e.name));
    StartsNamedMembers(events, e.name, m);
    forall f | f in events && f.name == e.name ensures f.start <= m {
      StartsNamedMembers(events, e.name, f.start);
    }
  }

  // ---------- two columns ----------

  /** Split the time line into a left column of the first half, rounded up,
      and a right column of the rest. */
  function Columns(events: seq<Event>): (r: (seq<Event>, seq<Event>))
    ensures r.0 + r.1 == events
    ensures |r.1| <= |r.0| <= |r.1| + 1
  {
    var mid := (|events| + 1) / 2;
    (events[..mid], events[mid..])
  }

  /** The split is the only one into two consecutive parts whose left part is
      as long as the right one or one longer. */
  lemma ColumnsUnique(events: seq<Event>, left: seq<Event>, right: seq<Event>)
    requires left + right == events
    requires |right| <= |left| <= |right| + 1
    ensures Columns(events) == (left, right)
  {
    assert |left| == (|events| + 1) / 2;
    assert events[..|left|] == left;
    assert events[|left|..] == right;
  }
}
