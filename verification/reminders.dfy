/** Reminders for the rest of the day: which occurrences still get one, how
    same-minute reminders are merged into one job, and the message text. */
module Reminders {
  import opened Basics
  import opened Clock
  import opened Catalog
  import opened Timeline

  /** Reminders go out this many minutes before an activity starts. */
  const LeadMinutes := 10

  /** One activity occurrence a reminder announces. */
  datatype ReminderItem = ReminderItem(name: string, start: int)

  /** The occurrences reminded of at the same minute, `key` minutes after midnight. */
  datatype Bucket = Bucket(key: int, items: seq<ReminderItem>)

  /** The minute of the day at which the reminder for `it` is due. */
  function ReminderMinute(it: ReminderItem): int {
    it.start - LeadMinutes
  }

  /** The reminder for `it` is still ahead, `nowSec` being seconds since today's
      midnight: a reminder that is due now or earlier is dropped. */
  function IsAhead(nowSec: int): ReminderItem -> bool {
    (it: ReminderItem) => ReminderMinute(it) * SecondsPerMinute > nowSec
  }

  function HasKey(k: int): ReminderItem -> bool {
    (it: ReminderItem) => ReminderMinute(it) == k
  }

  /** Every (activity, start time) pair of the day, activity by activity in
      catalog order: not sorted by time. */
  function Candidates(schedule: seq<DayEntry>): (r: seq<ReminderItem>)
    ensures |r| == TotalStarts(schedule)
  {
    var f := Flatten(schedule);
    seq(|f|, i requires 0 <= i < |f| => ReminderItem(f[i].name, f[i].start))
  }

  /** The candidates are exactly the (name, start) pairs of the day's entries. */
  lemma CandidateMembers(schedule: seq<DayEntry>, it: ReminderItem)
    ensures it in Candidates(schedule) <==>
              exists i, j :: 0 <= i < |schedule| && 0 <= j < |schedule[i].startTimes|
                             && it == ReminderItem(schedule[i].name, schedule[i].startTimes[j])
  {
    var f := Flatten(schedule);
    var c := Candidates(schedule);
    if it in c {
      var k :| 0 <= k < |c| && c[k] == it;
      FlattenMembers(schedule, f[k]);
      var i, j :| 0 <= i < |schedule| && 0 <= j < |schedule[i].startTimes| && f[k] == EventAt(schedule[i], j);
      assert it == ReminderItem(schedule[i].name, schedule[i].startTimes[j]);
    }
    if exists i, j :: 0 <= i < |schedule| && 0 <= j < |schedule[i].startTimes|
                      && it == ReminderItem(schedule[i].name, schedule[i].startTimes[j]) {
      var i, j :| 0 <= i < |schedule| && 0 <= j < |schedule[i].startTimes|
                  && it == ReminderItem(schedule[i].name, schedule[i].startTimes[j]);
      FlattenMembers(schedule, EventAt(schedule[i], j));
      var k :| 0 <= k < |f| && f[k] == EventAt(schedule[i], j);
      assert c[k] == it;
    }
  }

  /** Candidates follow the schedule: activity `i`'s start time `j` is the
      candidate at position `TotalStarts(schedule[..i]) + j`. */
  lemma CandidateAt(schedule: seq<DayEntry>, i: int, j: int)
    requires 0 <= i < |schedule| && 0 <= j < |schedule[i].startTimes|
    ensures TotalStarts(schedule[..i]) + j < |Candidates(schedule)|
    ensures Candidates(schedule)[TotalStarts(schedule[..i]) + j] == ReminderItem(schedule[i].name, schedule[i].startTimes[j])
  {
    FlattenAt(schedule, i, j);
  }

  /** A reminder whose minute has begun is skipped; one still to come is kept. */
  lemma DueNotAhead(nowSec: int, it: ReminderItem)
    ensures ReminderMinute(it) * SecondsPerMinute <= nowSec ==> !IsAhead(nowSec)(it)
    ensures nowSec < ReminderMinute(it) * SecondsPerMinute ==> IsAhead(nowSec)(it)
  {
  }

  /** Time only removes reminders: one still ahead later was ahead earlier. */
  lemma AheadMonotone(earlier: int, later: int, it: ReminderItem)
    requires earlier <= later
    ensures IsAhead(later)(it) ==> IsAhead(earlier)(it)
  {
  }

  function Keys(bs: seq<Bucket>): (r: seq<int>)
    ensures |r| == |bs| && forall i :: 0 <= i < |bs| ==> r[i] == bs[i].key
  {
    if |bs| == 0 then [] else [bs[0].key] + Keys(bs[1..])
  }

  function ItemKeys(items: seq<ReminderItem>): (r: seq<int>)
    ensures |r| == |items| && forall i :: 0 <= i < |items| ==> r[i] == ReminderMinute(items[i])
  {
    seq(|items|, i requires 0 <= i < |items| => ReminderMinute(items[i]))
  }

  // ---------- merging by reminder minute ----------

  /** File `it` under its reminder minute: appended to the first bucket with
      that key if there is one, otherwise in a new bucket at the end. */
  function AddItem(bs: seq<Bucket>, it: ReminderItem): (r: seq<Bucket>)
    ensures |bs| <= |r| <= |bs| + 1
  {
    if |bs| == 0 then [Bucket(ReminderMinute(it), [it])]
    else if bs[0].key == ReminderMinute(it) then [bs[0].(items := bs[0].items + [it])] + bs[1..]
    else [bs[0]] + AddItem(bs[1..], it)
  }

  /** Adding an item keeps the bucket keys when its minute already has a
      bucket, and otherwise adds that minute as the last key. */
  lemma {:induction false} AddItemKeys(bs: seq<Bucket>, it: ReminderItem)
    ensures Keys(AddItem(bs, it)) == if ReminderMinute(it) in Keys(bs) then Keys(bs) else Keys(bs) + [ReminderMinute(it)]
  {
    if |bs| > 0 {
      if bs[0].key == ReminderMinute(it) {
        AddItemKeysHit(bs, it);
      } else {
        AddItemKeys(bs[1..], it);
        AddItemKeysMiss(bs, it);
      }
    }
  }

  lemma AddItemKeysHit(bs: seq<Bucket>, it: ReminderItem)
    requires |bs| > 0 && bs[0].key == ReminderMinute(it)
    ensures ReminderMinute(it) in Keys(bs) && Keys(AddItem(bs, it)) == Keys(bs)
  {
    assert Keys(bs)[0] == bs[0].key;
    assert AddItem(bs, it)[1..] == bs[1..];
  }

  lemma AddItemKeysMiss(bs: seq<Bucket>, it: ReminderItem)
    requires |bs| > 0 && bs[0].key != ReminderMinute(it)
    ensures Keys(bs) == [bs[0].key] + Keys(bs[1..])
    ensures Keys(AddItem(bs, it)) == [bs[0].key] + Keys(AddItem(bs[1..], it))
    ensures ReminderMinute(it) in Keys(bs) <==> ReminderMinute(it) in Keys(bs[1..])
  {
    assert AddItem(bs, it) == [bs[0]] + AddItem(bs[1..], it);
  }

  /** With distinct keys, adding an item extends the one bucket of its minute
      and leaves every other bucket as it was. */
  lemma {:induction false} AddItemItems(bs: seq<Bucket>, it: ReminderItem)
    requires NoDups(Keys(bs))
    ensures var r := AddItem(bs, it);
            forall i :: 0 <= i < |bs| ==>
              r[i].key == bs[i].key && r[i].items == bs[i].items + (if bs[i].key == ReminderMinute(it) then [it] else [])
  {
    if |bs| > 0 {
      var r := AddItem(bs, it);
      if bs[0].key == ReminderMinute(it) {
        forall i | 1 <= i < |bs| ensures bs[i].key != bs[0].key {
          assert Keys(bs)[0] == bs[0].key && Keys(bs)[i] == bs[i].key;
        }
      } else {
        assert Keys(bs[1..]) == Keys(bs)[1..];
        AddItemItems(bs[1..], it);
        assert r == [bs[0]] + AddItem(bs[1..], it);
      }
    }
  }

  /** A bucket opened by adding an item holds just that item. */
  lemma {:induction false} AddItemNew(bs: seq<Bucket>, it: ReminderItem)
    ensures |AddItem(bs, it)| > |bs| ==> AddItem(bs, it)[|bs|] == Bucket(ReminderMinute(it), [it])
  {
    if |bs| > 0 && bs[0].key != ReminderMinute(it) {
      AddItemNew(bs[1..], it);
      assert AddItem(bs, it) == [bs[0]] + AddItem(bs[1..], it);
    }
  }

  /** `bs` is the bucketing of `items`: one bucket per distinct reminder minute,
      in order of first appearance, each holding exactly the items due then, in
      their original order. */
  ghost predicate GroupedAs(bs: seq<Bucket>, items: seq<ReminderItem>) {
    && Keys(bs) == Distinct(ItemKeys(items))
    && forall i :: 0 <= i < |bs| ==> bs[i].items == Filter(items, HasKey(bs[i].key))
  }

  lemma NoItemWithAbsentKey(items: seq<ReminderItem>, k: int)
    requires k !in ItemKeys(items)
    ensures Filter(items, HasKey(k)) == []
  {
    if Filter(items, HasKey(k)) != [] {
      FilterMembers(items, HasKey(k), Filter(items, HasKey(k))[0]);
    }
  }

  lemma GroupStep(bs: seq<Bucket>, all: seq<ReminderItem>)
    requires |all| > 0 && GroupedAs(bs, all[..|all| - 1])
    ensures NoDups(Keys(bs))
    ensures GroupedAs(AddItem(bs, all[|all| - 1]), all)
  {
    var items := all[..|all| - 1];
    var it := all[|all| - 1];
    assert all == items + [it];
    var r := AddItem(bs, it);
    GroupStepKeys(bs, items, it);
    AddItemItems(bs, it);
    AddItemNew(bs, it);
    forall i | 0 <= i < |r| ensures r[i].items == Filter(all, HasKey(r[i].key)) {
      GroupStepAt(bs, items, it, i);
    }
  }

  /** One bucket after adding `it` holds exactly the items of its minute. */
  lemma GroupStepAt(bs: seq<Bucket>, items: seq<ReminderItem>, it: ReminderItem, i: nat)
    requires i < |AddItem(bs, it)|
    requires i < |bs| ==> bs[i].items == Filter(items, HasKey(bs[i].key))
    requires i < |bs| ==> AddItem(bs, it)[i].key == bs[i].key
    requires i < |bs| ==> AddItem(bs, it)[i].items == bs[i].items + (if bs[i].key == ReminderMinute(it) then [it] else [])
    requires i == |bs| ==> ReminderMinute(it) !in ItemKeys(items)
    requires i == |bs| ==> AddItem(bs, it)[i] == Bucket(ReminderMinute(it), [it])
    ensures AddItem(bs, it)[i].items == Filter(items + [it], HasKey(AddItem(bs, it)[i].key))
  {
    var p := HasKey(AddItem(bs, it)[i].key);
    FilterAppend(items, [it], p);
    FilterSingle(it, p);
    if i == |bs| {
      NoItemWithAbsentKey(items, ReminderMinute(it));
    }
  }

  /** The keys after adding `it` are the distinct minutes of `items + [it]`. */
  lemma GroupStepKeys(bs: seq<Bucket>, items: seq<ReminderItem>, it: ReminderItem)
    requires Keys(bs) == Distinct(ItemKeys(items))
    ensures Keys(AddItem(bs, it)) == Distinct(ItemKeys(items + [it]))
    ensures |AddItem(bs, it)| > |bs| ==> ReminderMinute(it) !in ItemKeys(items)
  {
    var ks, k := ItemKeys(items), ReminderMinute(it);
    assert ItemKeys(items + [it]) == ks + [k];
    assert (ks + [k])[..|ks|] == ks;
    AddItemKeys(bs, it);
  }

  /** Adding an item keeps the bucket keys distinct. */
  lemma AddItemDistinct(bs: seq<Bucket>, it: ReminderItem)
    requires NoDups(Keys(bs))
    ensures NoDups(Keys(AddItem(bs, it)))
  {
    AddItemKeys(bs, it);
  }

  /** Merge the items by reminder minute, visiting them in order. */
  function GroupByMinute(items: seq<ReminderItem>): (bs: seq<Bucket>)
    ensures NoDups(Keys(bs))
  {
    if |items| == 0 then []
    else
      var bs := GroupByMinute(items[..|items| - 1]);
      AddItemDistinct(bs, items[|items| - 1]);
      AddItem(bs, items[|items| - 1])
  }

  /** The merge yields one bucket per distinct reminder minute, in order of
      first appearance, each holding exactly the items due then, in order. */
  lemma {:induction false} GroupByMinuteGrouped(items: seq<ReminderItem>)
    ensures GroupedAs(GroupByMinute(items), items)
  {
    if |items| > 0 {
      var prefix := items[..|items| - 1];
      GroupByMinuteGrouped(prefix);
      GroupStep(GroupByMinute(prefix), items);
    }
  }

  /** Each item lands in exactly one bucket, the one of its reminder minute;
      all items of a bucket start at the same minute. */
  lemma {:induction false} BucketMembership(items: seq<ReminderItem>, it: ReminderItem)
    requires it in items
    ensures exists i :: 0 <= i < |GroupByMinute(items)| && GroupByMinute(items)[i].key == ReminderMinute(it)
    ensures forall i :: 0 <= i < |GroupByMinute(items)| ==>
              (it in GroupByMinute(items)[i].items <==> GroupByMinute(items)[i].key == ReminderMinute(it))
    ensures forall i, j :: 0 <= i < j < |GroupByMinute(items)| ==> GroupByMinute(items)[i].key != GroupByMinute(items)[j].key
  {
    var bs := GroupByMinute(items);
    GroupByMinuteGrouped(items);
    var j :| 0 <= j < |items| && items[j] == it;
    assert ReminderMinute(it) in ItemKeys(items) by {
      assert ItemKeys(items)[j] == ReminderMinute(it);
    }
    assert ReminderMinute(it) in Keys(bs);
    forall i | 0 <= i < |bs| ensures it in bs[i].items <==> bs[i].key == ReminderMinute(it) {
      FilterMembers(items, HasKey(bs[i].key), it);
    }
    forall i, j | 0 <= i < j < |bs| ensures bs[i].key != bs[j].key {
      assert Keys(bs)[i] == bs[i].key && Keys(bs)[j] == bs[j].key;
    }
  }

  /** There is one bucket per distinct reminder minute. */
  lemma BucketCount(items: seq<ReminderItem>)
    ensures |GroupByMinute(items)| == |set it | it in items :: ReminderMinute(it)|
  {
    var ks := ItemKeys(items);
    var d := Distinct(ks);
    GroupByMinuteGrouped(items);
    NoDupsCardinality(d);
    assert (set x | x in d) == (set x | x in ks);
    assert (set x | x in ks) == (set it | it in items :: ReminderMinute(it)) by {
      forall x | x in ks ensures x in (set it | it in items :: ReminderMinute(it)) {
        var j :| 0 <= j < |ks| && ks[j] == x;
        assert items[j] in items;
      }
      forall x | x in (set it | it in items :: ReminderMinute(it)) ensures x in ks {
        var it :| it in items && ReminderMinute(it) == x;
        var j :| 0 <= j < |items| && items[j] == it;
        assert ks[j] == x;
      }
    }
  }

  /** The reminder groups of the day: the occurrences whose reminder is still
      ahead, merged by reminder minute in catalog encounter order. */
  function DayBuckets(schedule: seq<DayEntry>, nowSec: int): seq<Bucket> {
    GroupByMinute(Filter(Candidates(schedule), IsAhead(nowSec)))
  }

  ghost predicate InSomeBucket(bs: seq<Bucket>, it: ReminderItem) {
    exists i :: 0 <= i < |bs| && it in bs[i].items
  }

  /** An item is in some bucket exactly when it is one of the grouped items. */
  lemma KeptIffBucketed(kept: seq<ReminderItem>, it: ReminderItem)
    ensures InSomeBucket(GroupByMinute(kept), it) <==> it in kept
  {
    var bs := GroupByMinute(kept);
    GroupByMinuteGrouped(kept);
    if it in kept {
      BucketMembership(kept, it);
      var i :| 0 <= i < |bs| && bs[i].key == ReminderMinute(it);
      assert it in bs[i].items;
    } else {
      forall i | 0 <= i < |bs| ensures it !in bs[i].items {
        FilterMembers(kept, HasKey(bs[i].key), it);
      }
    }
  }

  /** An occurrence of the day gets a reminder exactly when its reminder minute
      is still ahead of now. */
  lemma ReminderIffAhead(schedule: seq<DayEntry>, nowSec: int, it: ReminderItem)
    requires it in Candidates(schedule)
    ensures InSomeBucket(DayBuckets(schedule, nowSec), it) <==> ReminderMinute(it) * SecondsPerMinute > nowSec
  {
    var kept := Filter(Candidates(schedule), IsAhead(nowSec));
    assert DayBuckets(schedule, nowSec) == GroupByMinute(kept);
    FilterMembers(Candidates(schedule), IsAhead(nowSec), it);
    assert it in kept <==> ReminderMinute(it) * SecondsPerMinute > nowSec;
    KeptIffBucketed(kept, it);
  }

  // ---------- message text ----------

  function Bullet(name: string): string {
    "• " + name
  }

  /** The `n` characters of `s` from position `k`. */
  function Window(s: string, k: nat, n: nat): string
    requires k + n <= |s|
  {
    s[k..k + n]
  }

  /** `sub` occurs somewhere in `s`. */
  predicate Quotes(s: string, sub: string) {
    exists k: nat :: k + |sub| <= |s| && Window(s, k, |sub|) == sub
  }

  /** The announcement of a lone activity, naming it and its start time. */
  function SingleText(it: ReminderItem): (r: string)
    ensures Quotes(r, it.name) && Quotes(r, FormatClock(it.start))
  {
    var pre := "活动提醒：";
    var mid := " 将在 10 分钟后（";
    var c := FormatClock(it.start);
    var t := pre + it.name + mid + c + "）开始！";
    assert Window(t, |pre|, |it.name|) == it.name;
    assert Window(t, |pre| + |it.name| + |mid|, |c|) == c;
    t
  }

  /** The first line of a merged announcement, giving the shared start time. */
  function ListHeader(start: int): (r: string)
    ensures Quotes(r, FormatClock(start))
  {
    var pre := "活动提醒：以下活动将在 10 分钟后（";
    var c := FormatClock(start);
    var t := pre + c + "）开始：";
    assert Window(t, |pre|, |c|) == c;
    t
  }

  /** Python's `"\n".join(lines)`. */
  function JoinLines(lines: seq<string>): string {
    if |lines| == 0 then ""
    else if |lines| == 1 then lines[0]
    else lines[0] + "\n" + JoinLines(lines[1..])
  }

  /** Cut `s` at every line break. */
  function SplitLines(s: string): (r: seq<string>)
    ensures |r| > 0
  {
    if '\n' !in s then [s]
    else
      var i := IndexOf(s, '\n');
      [s[..i]] + SplitLines(s[i + 1..])
  }

  predicate SingleLine(s: string) {
    '\n' !in s
  }

  /** Joining lines without breaks and cutting them again gives the lines. */
  lemma {:induction false} SplitJoin(lines: seq<string>)
    requires |lines| > 0
    requires forall i :: 0 <= i < |lines| ==> SingleLine(lines[i])
    ensures SplitLines(JoinLines(lines)) == lines
  {
    if |lines| > 1 {
      SplitAtFirstBreak(lines[0], JoinLines(lines[1..]));
      SplitJoin(lines[1..]);
      assert lines == [lines[0]] + lines[1..];
    }
  }

  /** A line without breaks, a break, and the rest: the line is cut off first. */
  lemma SplitAtFirstBreak(line: string, rest: string)
    requires SingleLine(line)
    ensures SplitLines(line + "\n" + rest) == [line] + SplitLines(rest)
  {
    var s := line + "\n" + rest;
    assert s[|line|] == '\n';
    var i := IndexOf(s, '\n');
    assert i == |line|;
    assert s[..i] == line;
    assert s[i + 1..] == rest;
  }

  /** The text of a reminder: `None` for an empty group (the plugin's `IndexError`,
      which it logs and swallows); the single-activity phrasing for one
      item; otherwise a header with the first item's start time followed by one
      bullet line per item. */
  function ReminderText(items: seq<ReminderItem>): (r: Option<string>)
    ensures r.None? <==> |items| == 0
  {
    if |items| == 0 then None
    else if |items| == 1 then Some(SingleText(items[0]))
    else Some(ListHeader(items[0].start) + "\n" + JoinLines(seq(|items|, i requires 0 <= i < |items| => Bullet(items[i].name))))
  }

  /** A lone activity is announced with the single-activity text. */
  lemma SingleReminderText(it: ReminderItem)
    ensures ReminderText([it]) == Some(SingleText(it))
  {
  }

  /** The single-activity text for a name without a line break is one line. */
  lemma SingleReminderLine(it: ReminderItem)
    requires SingleLine(it.name)
    ensures SplitLines(SingleText(it)) == [SingleText(it)]
  {
    var pre := "活动提醒：";
    var mid := " 将在 10 分钟后（";
    var post := "）开始！";
    var c := FormatClock(it.start);
    assert SingleText(it) == pre + it.name + mid + c + post;
    assert SingleLine(pre) && SingleLine(mid) && SingleLine(post) by {
      assert forall i :: 0 <= i < |pre| ==> pre[i] != '\n';
      assert forall i :: 0 <= i < |mid| ==> mid[i] != '\n';
      assert forall i :: 0 <= i < |post| ==> post[i] != '\n';
    }
    assert SingleLine(c) by {
      assert forall i :: 0 <= i < |c| ==> c[i] != '\n';
    }
  }

  lemma HeaderSingleLine(start: int)
    ensures SingleLine(ListHeader(start))
  {
    var c := FormatClock(start);
    var h := ListHeader(start);
    assert h == "活动提醒：以下活动将在 10 分钟后（" + c + "）开始：";
    var pre := "活动提醒：以下活动将在 10 分钟后（";
    var post := "）开始：";
    assert h == pre + c + post;
    forall i | 0 <= i < |h| ensures h[i] != '\n' {
      if i < |pre| {
        assert h[i] == pre[i];
      } else if i < |pre| + |c| {
        assert h[i] == c[i - |pre|];
      } else {
        assert h[i] == post[i - |pre| - |c|];
      }
    }
  }

  /** With several items, the message reads line by line as the header and then
      one `• name` line per item, in order. */
  lemma {:induction false} ReminderLines(items: seq<ReminderItem>)
    requires |items| >= 2
    requires forall i :: 0 <= i < |items| ==> SingleLine(items[i].name)
    ensures SplitLines(ReminderText(items).value)
            == [ListHeader(items[0].start)] + seq(|items|, i requires 0 <= i < |items| => Bullet(items[i].name))
  {
    var bullets := seq(|items|, i requires 0 <= i < |items| => Bullet(items[i].name));
    var lines := [ListHeader(items[0].start)] + bullets;
    HeaderSingleLine(items[0].start);
    forall i | 0 <= i < |bullets| ensures SingleLine(bullets[i]) {
      assert bullets[i] == "• " + items[i].name;
      forall j | 0 <= j < |bullets[i]| ensures bullets[i][j] != '\n' {
        if j >= 2 {
          assert bullets[i][j] == items[i].name[j - 2];
        }
      }
    }
    assert lines[1..] == bullets;
    assert JoinLines(lines) == ReminderText(items).value;
    SplitJoin(lines);
  }

  /** All items of one bucket start at the same minute, so quoting the first
      item's start time quotes every item's. */
  lemma BucketSharesStart(items: seq<ReminderItem>, i: int, j: int)
    requires 0 <= i < |GroupByMinute(items)|
    requires 0 <= j < |GroupByMinute(items)[i].items|
    ensures GroupByMinute(items)[i].items[j].start == GroupByMinute(items)[i].key + LeadMinutes
  {
    var b := GroupByMinute(items)[i];
    GroupByMinuteGrouped(items);
    FilterMembers(items, HasKey(b.key), b.items[j]);
  }

  /** Every bucket is non-empty, and all its items start `LeadMinutes` after
      the bucket's minute. */
  lemma BucketShape(items: seq<ReminderItem>, i: int)
    requires 0 <= i < |GroupByMinute(items)|
    ensures var b := GroupByMinute(items)[i];
            |b.items| > 0 && forall k :: 0 <= k < |b.items| ==> b.items[k].start == b.key + LeadMinutes
  {
    var bs := GroupByMinute(items);
    GroupByMinuteGrouped(items);
    assert bs[i].key in ItemKeys(items) by {
      assert Keys(bs)[i] == bs[i].key;
    }
    var j :| 0 <= j < |items| && ItemKeys(items)[j] == bs[i].key;
    FilterMembers(items, HasKey(bs[i].key), items[j]);
    forall k | 0 <= k < |bs[i].items| ensures bs[i].items[k].start == bs[i].key + LeadMinutes {
      BucketSharesStart(items, i, k);
    }
  }
}
