/** The per-group reminder state machine: the configuration, the registry of job
    ids each group owns, and the jobs the scheduler still holds, with the
    transitions that change them (switching reminders on and off, the daily
    reset, a job firing, and restoring jobs when the bot connects). */
module Scheduler {
  import opened Basics
  import opened Clock
  import opened Catalog
  import opened Timeline
  import opened Reminders
  import opened Config

  // ---------- jobs ----------

  /** A scheduled job. A reminder job carries its group, the minute it is due,
      the occurrences it announces and a nonce; a daily reset job its group and
      a nonce. Nonces stand for the random id suffixes and are drawn from a
      counter, so a newly created job differs from every earlier one. */
  datatype JobId =
    | EventJob(group: string, due: int, items: seq<ReminderItem>, nonce: nat)
    | ResetJob(group: string, nonce: nat)

  /** The id string of a job. */
  function Render(id: JobId): string {
    match id
    case EventJob(g, due, _, n) => "event_" + g + "_" + FormatKey(due) + "_" + Decimal(n)
    case ResetJob(g, n) => ResetPrefix + g + "_" + Decimal(n)
  }

  const ResetPrefix := "daily_reset_"

  predicate HasResetPrefix(s: string) {
    |ResetPrefix| <= |s| && s[..|ResetPrefix|] == ResetPrefix
  }

  /** The prefix test the reset uses on id strings recognises exactly the reset jobs. */
  lemma ResetPrefixIffReset(id: JobId)
    ensures HasResetPrefix(Render(id)) <==> id.ResetJob?
  {
    var s := Render(id);
    if id.EventJob? {
      assert s[0] == 'e';
      assert ResetPrefix[0] == 'd';
    } else {
      assert s[..|ResetPrefix|] == ResetPrefix;
    }
  }

  /** Within one group, two jobs of the same kind (and, for reminder jobs, the
      same due minute) whose nonces differ get different id strings; jobs of
      different kinds always do. */
  lemma RenderDistinct(a: JobId, b: JobId)
    requires a.group == b.group && a.nonce != b.nonce
    requires a.EventJob? && b.EventJob? ==> a.due == b.due
    ensures Render(a) != Render(b)
  {
    ResetPrefixIffReset(a);
    ResetPrefixIffReset(b);
    if a.ResetJob? == b.ResetJob? {
      var p := if a.ResetJob? then ResetPrefix + a.group + "_"
               else "event_" + a.group + "_" + FormatKey(a.due) + "_";
      assert Render(a) == p + Decimal(a.nonce) && Render(b) == p + Decimal(b.nonce);
      if Render(a) == Render(b) {
        assert Decimal(a.nonce) == Render(a)[|p|..] == Decimal(b.nonce);
        DecimalValue(a.nonce);
        DecimalValue(b.nonce);
      }
    }
  }

  function IsResetJob(): JobId -> bool {
    (id: JobId) => id.ResetJob?
  }

  /** What the job creation depends on besides the group: the catalog, today's
      weekday, the current instant in seconds since today's midnight, and
      whether a bot connection is available. */
  datatype Env = Env(catalog: seq<Activity>, day: string, nowSec: int, botAvailable: bool)

  /** The occurrences of today whose reminder is still ahead. */
  function Kept(env: Env): (r: seq<ReminderItem>)
    ensures |r| <= TotalStarts(GetDaySchedule(env.catalog, env.day))
  {
    Filter(Candidates(GetDaySchedule(env.catalog, env.day)), IsAhead(env.nowSec))
  }

  /** A reminder is kept for exactly the occurrences of today's schedule whose
      reminder minute is still ahead. */
  lemma KeptMembers(env: Env, it: ReminderItem)
    ensures var schedule := GetDaySchedule(env.catalog, env.day);
            it in Kept(env) <==>
              (exists i, j :: 0 <= i < |schedule| && 0 <= j < |schedule[i].startTimes|
                              && it == ReminderItem(schedule[i].name, schedule[i].startTimes[j]))
              && ReminderMinute(it) * SecondsPerMinute > env.nowSec
  {
    var schedule := GetDaySchedule(env.catalog, env.day);
    FilterMembers(Candidates(schedule), IsAhead(env.nowSec), it);
    CandidateMembers(schedule, it);
  }

  /** Today's reminder jobs for group `g`, numbered from nonce `next`: none
      without a bot connection, otherwise one per reminder minute still ahead,
      announcing the occurrences due then. */
  function CreateEventReminderJobs(g: string, env: Env, next: nat): (ids: seq<JobId>)
    ensures !env.botAvailable ==> ids == []
    ensures forall i :: 0 <= i < |ids| ==> ids[i].EventJob? && ids[i].group == g && ids[i].nonce == next + i
    ensures env.botAvailable ==> |ids| == |GroupByMinute(Kept(env))|
  {
    if !env.botAvailable then [] else JobsFrom(g, GroupByMinute(Kept(env)), next)
  }

  /** One reminder job per bucket, in bucket order, numbered from `next`. */
  function JobsFrom(g: string, bs: seq<Bucket>, next: nat): (ids: seq<JobId>)
    ensures |ids| == |bs|
    ensures forall i :: 0 <= i < |bs| ==> ids[i] == EventJob(g, bs[i].key, bs[i].items, next + i)
  {
    if |bs| == 0 then [] else [EventJob(g, bs[0].key, bs[0].items, next)] + JobsFrom(g, bs[1..], next + 1)
  }

  /** `it` is announced by one of the jobs `ids`. */
  ghost predicate Announced(ids: seq<JobId>, it: ReminderItem) {
    exists i :: 0 <= i < |ids| && ids[i].EventJob? && it in ids[i].items
  }

  /** With a bot available there is one job per distinct reminder minute of the
      occurrences still ahead; without one there are none. */
  lemma JobCount(g: string, env: Env, next: nat)
    ensures |CreateEventReminderJobs(g, env, next)| ==
            if env.botAvailable then |set it | it in Kept(env) :: ReminderMinute(it)| else 0
  {
    BucketCount(Kept(env));
  }

  /** An occurrence of today is announced exactly when a bot is available and
      its reminder minute is still ahead; the job announcing it is due at its
      reminder minute, and no two jobs are due at the same minute. */
  lemma JobsCoverReminders(g: string, env: Env, next: nat, it: ReminderItem)
    requires it in Candidates(GetDaySchedule(env.catalog, env.day))
    ensures Announced(CreateEventReminderJobs(g, env, next), it) <==>
            env.botAvailable && ReminderMinute(it) * SecondsPerMinute > env.nowSec
    ensures forall i :: 0 <= i < |CreateEventReminderJobs(g, env, next)| && it in CreateEventReminderJobs(g, env, next)[i].items
              ==> CreateEventReminderJobs(g, env, next)[i].due == ReminderMinute(it)
    ensures forall i, j :: 0 <= i < j < |CreateEventReminderJobs(g, env, next)| ==>
              CreateEventReminderJobs(g, env, next)[i].due != CreateEventReminderJobs(g, env, next)[j].due
  {
    var ids := CreateEventReminderJobs(g, env, next);
    if env.botAvailable {
      var kept := Kept(env);
      var bs := GroupByMinute(kept);
      GroupByMinuteGrouped(kept);
      assert forall i :: 0 <= i < |ids| ==> ids[i].due == bs[i].key && ids[i].items == bs[i].items;
      ReminderIffAhead(GetDaySchedule(env.catalog, env.day), env.nowSec, it);
      assert DayBuckets(GetDaySchedule(env.catalog, env.day), env.nowSec) == bs;
      assert Announced(ids, it) <==> InSomeBucket(bs, it);
      forall i | 0 <= i < |ids| && it in ids[i].items ensures ids[i].due == ReminderMinute(it) {
        FilterMembers(kept, HasKey(bs[i].key), it);
      }
      forall i, j | 0 <= i < j < |ids| ensures ids[i].due != ids[j].due {
        assert Keys(bs)[i] == bs[i].key && Keys(bs)[j] == bs[j].key;
      }
    }
  }

  // ---------- removing jobs ----------

  /** Remove each of `ids` from the scheduler; removing a job that is already
      gone fails quietly and the loop goes on. */
  function RemoveAll(live: set<JobId>, ids: seq<JobId>): (r: set<JobId>)
    ensures forall x :: x in r <==> x in live && x !in ids
  {
    if |ids| == 0 then live
    else
      var r := RemoveAll(live - {ids[0]}, ids[1..]);
      assert ids == [ids[0]] + ids[1..];
      r
  }

  /** The cleanup loop of the daily reset: visiting a snapshot `todo` of the
      group's registry, every id that `spared` does not hold for is removed from
      the scheduler and its first occurrence from the registry `reg`. The reset
      spares the ids with the reset prefix (`RendersAsReset`). */
  function Sweep(todo: seq<JobId>, reg: seq<JobId>, live: set<JobId>, spared: JobId -> bool): (r: (seq<JobId>, set<JobId>))
    ensures |r.0| <= |reg| && r.1 <= live
  {
    if |todo| == 0 then (reg, live)
    else if spared(todo[0]) then Sweep(todo[1..], reg, live, spared)
    else Sweep(todo[1..], RemoveFirst(reg, todo[0]), live - {todo[0]}, spared)
  }

  /** The test the reset applies to each registered id string. */
  function RendersAsReset(): JobId -> bool {
    (id: JobId) => HasResetPrefix(Render(id))
  }

  /** Filtering by the id-string test keeps exactly the reset jobs. */
  lemma SparedAreResets(s: seq<JobId>)
    ensures Filter(s, RendersAsReset()) == Filter(s, IsResetJob())
  {
    forall x | x in s ensures RendersAsReset()(x) == IsResetJob()(x) {
      ResetPrefixIffReset(x);
    }
    FilterCongruent(s, RendersAsReset(), IsResetJob());
  }

  /** Sweeping the registry `pre + xs`, where `pre` holds only spared ids,
      leaves `pre` followed by the spared ids of `xs` in their order. */
  lemma {:induction false} SweepRegistry(pre: seq<JobId>, xs: seq<JobId>, live: set<JobId>, spared: JobId -> bool)
    requires forall k :: 0 <= k < |pre| ==> spared(pre[k])
    ensures Sweep(xs, pre + xs, live, spared).0 == pre + Filter(xs, spared)
    decreases |xs|
  {
    if |xs| == 0 {
      assert pre + xs == pre;
    } else if spared(xs[0]) {
      SweepSpareStep(pre, xs, live, spared);
      SweepRegistry(pre + [xs[0]], xs[1..], live, spared);
      assert (pre + [xs[0]]) + Filter(xs[1..], spared) == pre + ([xs[0]] + Filter(xs[1..], spared));
    } else {
      SweepDropStep(pre, xs, live, spared);
      SweepRegistry(pre, xs[1..], live - {xs[0]}, spared);
    }
  }

  /** A spared head moves from the to-do list onto the kept prefix. */
  lemma SweepSpareStep(pre: seq<JobId>, xs: seq<JobId>, live: set<JobId>, spared: JobId -> bool)
    requires |xs| > 0 && spared(xs[0])
    ensures Sweep(xs, pre + xs, live, spared) == Sweep(xs[1..], (pre + [xs[0]]) + xs[1..], live, spared)
    ensures Filter(xs, spared) == [xs[0]] + Filter(xs[1..], spared)
  {
    assert pre + xs == (pre + [xs[0]]) + xs[1..];
  }

  /** An unspared head, absent from the kept prefix, is cut out of the registry. */
  lemma SweepDropStep(pre: seq<JobId>, xs: seq<JobId>, live: set<JobId>, spared: JobId -> bool)
    requires forall k :: 0 <= k < |pre| ==> spared(pre[k])
    requires |xs| > 0 && !spared(xs[0])
    ensures Sweep(xs, pre + xs, live, spared) == Sweep(xs[1..], pre + xs[1..], live - {xs[0]}, spared)
    ensures Filter(xs, spared) == Filter(xs[1..], spared)
  {
    assert xs[0] !in pre;
    assert pre + xs == pre + [xs[0]] + xs[1..];
    RemoveFirstPast(pre, xs[1..], xs[0]);
  }

  /** The sweep takes exactly the unspared ids of the snapshot off the scheduler. */
  lemma {:induction false} SweepLive(todo: seq<JobId>, reg: seq<JobId>, live: set<JobId>, spared: JobId -> bool)
    ensures forall x :: x in Sweep(todo, reg, live, spared).1 <==> x in live && (x !in todo || spared(x))
  {
    if |todo| > 0 {
      assert todo == [todo[0]] + todo[1..];
      if spared(todo[0]) {
        SweepLive(todo[1..], reg, live, spared);
      } else {
        SweepLive(todo[1..], RemoveFirst(reg, todo[0]), live - {todo[0]}, spared);
      }
    }
  }

  /** `RendersAsReset` holds exactly for the reset jobs. */
  lemma RendersAsResetIff()
    ensures forall x :: RendersAsReset()(x) <==> x.ResetJob?
  {
    forall x ensures RendersAsReset()(x) <==> x.ResetJob? {
      ResetPrefixIffReset(x);
    }
  }

  /** The reset's sweep over a whole registry `reg` keeps exactly its reset
      jobs, in order, and takes exactly its reminder jobs off the scheduler. */
  lemma ResetSweep(reg: seq<JobId>, live: set<JobId>)
    ensures Sweep(reg, reg, live, RendersAsReset()).0 == Filter(reg, IsResetJob())
    ensures forall x :: x in Sweep(reg, reg, live, RendersAsReset()).1 <==> x in live && (x !in reg || x.ResetJob?)
  {
    SweepRegistry([], reg, live, RendersAsReset());
    assert [] + reg == reg;
    SparedAreResets(reg);
    SweepLive(reg, reg, live, RendersAsReset());
    RendersAsResetIff();
  }

  // ---------- the state ----------

  /** The plugin's state: each group's configuration, the ids registered for
      each group, the jobs the scheduler holds, and the next unused nonce. */
  datatype Store = Store(config: GroupConfigs, registry: map<string, seq<JobId>>, live: set<JobId>, next: nat)

  /** The state at startup: the configuration read from the file, no jobs. */
  function Initial(data: Option<Json>): Store {
    Store(LoadConfig(data), map[], {}, 0)
  }

  /** The ids registered for `g` (none when `g` has no entry). */
  function Registered(st: Store, g: string): seq<JobId> {
    if g in st.registry then st.registry[g] else []
  }

  /** The live jobs of group `g`. */
  function LiveOf(st: Store, g: string): set<JobId> {
    set id | id in st.live && id.group == g
  }

  function ElementsOf(s: seq<JobId>): set<JobId> {
    set id | id in s
  }

  /** Cancel the jobs registered for `g`, then create today's reminder jobs and
      a new daily reset job, and register exactly these, in that order. This is
      what switching reminders on and restoring them on connect both do. */
  function Rebuild(st: Store, g: string, env: Env): (r: Store)
    ensures r.config == st.config
    ensures g in r.registry && r.next > 0
    ensures r.registry[g] == CreateEventReminderJobs(g, env, st.next) + [ResetJob(g, r.next - 1)]
    ensures forall h :: h != g ==> Registered(r, h) == Registered(st, h)
    ensures forall id :: id in r.live <==> (id in st.live && id !in Registered(st, g)) || id in r.registry[g]
    ensures r.next == st.next + |r.registry[g]|
  {
    var evs := CreateEventReminderJobs(g, env, st.next);
    var batch := evs + [ResetJob(g, st.next + |evs|)];
    Store(st.config, st.registry[g := batch], RemoveAll(st.live, Registered(st, g)) + ElementsOf(batch), st.next + |batch|)
  }

  /** Reminder jobs are never reset jobs. */
  lemma NoResetAmongReminders(g: string, env: Env, next: nat)
    ensures Filter(CreateEventReminderJobs(g, env, next), IsResetJob()) == []
  {
    var evs := CreateEventReminderJobs(g, env, next);
    if Filter(evs, IsResetJob()) != [] {
      FilterMembers(evs, IsResetJob(), Filter(evs, IsResetJob())[0]);
    }
  }

  /** A rebuilt group has exactly one reset job registered: the last one. */
  lemma RebuildOneReset(st: Store, g: string, env: Env)
    ensures Filter(Rebuild(st, g, env).registry[g], IsResetJob()) == [ResetJob(g, Rebuild(st, g, env).next - 1)]
  {
    var r := Rebuild(st, g, env);
    var evs := CreateEventReminderJobs(g, env, st.next);
    NoResetAmongReminders(g, env, st.next);
    FilterAppend(evs, [ResetJob(g, r.next - 1)], IsResetJob());
    assert Filter([ResetJob(g, r.next - 1)], IsResetJob()) == [ResetJob(g, r.next - 1)] by {
      assert [ResetJob(g, r.next - 1)][1..] == [];
    }
  }

  // ---------- switching reminders on and off ----------

  /** `活动提醒 开`: mark the group enabled, cancel everything registered for
      it, and register today's reminder jobs followed by one new reset job. */
  function Enable(st: Store, g: string, env: Env): (r: Store)
    ensures r.config == st.config[g := true] && IsEnabled(r.config, g)
    ensures r.next > st.next
    ensures Registered(r, g) == CreateEventReminderJobs(g, env, st.next) + [ResetJob(g, r.next - 1)]
    ensures forall h :: h != g ==> Registered(r, h) == Registered(st, h)
    ensures forall id :: id in Registered(st, g) && id.nonce < st.next ==> id !in r.live
    ensures forall id :: id in r.live <==> (id in st.live && id !in Registered(st, g)) || id in Registered(r, g)
  {
    Rebuild(st.(config := st.config[g := true]), g, env)
  }

  /** `活动提醒 关`: mark the group disabled and, if it has a registry entry,
      cancel every id in it and empty it. */
  function Disable(st: Store, g: string): (r: Store)
    ensures r.config == st.config[g := false] && !IsEnabled(r.config, g)
    ensures Registered(r, g) == []
    ensures forall h :: h != g ==> Registered(r, h) == Registered(st, h)
    ensures forall id :: id in r.live <==> id in st.live && id !in Registered(st, g)
    ensures r.next == st.next
  {
    var cfg := st.config[g := false];
    if g in st.registry then Store(cfg, st.registry[g := []], RemoveAll(st.live, st.registry[g]), st.next)
    else st.(config := cfg)
  }

  // ---------- jobs firing ----------

  /** The daily reset of group `g`: nothing while the group is absent or
      disabled; otherwise cancel and unregister every registered id without the
      reset prefix, then create today's reminder jobs and register them after
      the reset ids. When the group has no registry entry the new jobs are
      created but registering them fails, so they stay unregistered. */
  function FireReset(st: Store, g: string, env: Env): (r: Store)
    ensures !IsEnabled(st.config, g) ==> r == st
    ensures r.config == st.config
    ensures IsEnabled(st.config, g) && g in st.registry ==>
              r.registry == st.registry[g := Filter(st.registry[g], IsResetJob()) + CreateEventReminderJobs(g, env, st.next)]
    ensures IsEnabled(st.config, g) && g in st.registry ==>
              forall id :: id in r.live <==>
                (id in st.live && (id !in st.registry[g] || id.ResetJob?)) || id in CreateEventReminderJobs(g, env, st.next)
    ensures IsEnabled(st.config, g) && g !in st.registry ==>
              r.registry == st.registry && forall id :: id in r.live <==> id in st.live || id in CreateEventReminderJobs(g, env, st.next)
    ensures IsEnabled(st.config, g) ==> r.next == st.next + |CreateEventReminderJobs(g, env, st.next)|
  {
    if !IsEnabled(st.config, g) then st
    else
      var evs := CreateEventReminderJobs(g, env, st.next);
      if g in st.registry then
        var reg := st.registry[g];
        var swept := Sweep(reg, reg, st.live, RendersAsReset());
        ResetSweep(reg, st.live);
        Store(st.config, st.registry[g := swept.0 + evs], swept.1 + ElementsOf(evs), st.next + |evs|)
      else
        Store(st.config, st.registry, st.live + ElementsOf(evs), st.next + |evs|)
  }

  /** The result of a job firing: the new state and the message sent, if any. */
  datatype Outcome = Outcome(store: Store, message: Option<string>)

  /** The scheduler runs live job `id`. A reminder job is one-shot: it leaves
      the scheduler, and sends its text only while its group is enabled. A
      reset job stays scheduled and performs the daily reset. */
  function Fire(st: Store, id: JobId, env: Env): (r: Outcome)
    requires id in st.live
    ensures id.EventJob? ==> r.store == st.(live := st.live - {id}) && id !in r.store.live
    ensures id.EventJob? ==> (r.message.Some? <==> IsEnabled(st.config, id.group) && |id.items| > 0)
    ensures id.EventJob? && r.message.Some? ==> r.message == ReminderText(id.items)
    ensures id.ResetJob? ==> r.message.None? && r.store == FireReset(st, id.group, env) && id in r.store.live
  {
    match id
    case EventJob(g, _, items, _) =>
      Outcome(st.(live := st.live - {id}), if IsEnabled(st.config, g) then ReminderText(items) else None)
    case ResetJob(g, _) =>
      RendersAsResetIff();
      Outcome(FireReset(st, g, env), None)
  }

  // ---------- restoring on connect ----------

  /** Rebuild, in the order of `groups`, every enabled group. */
  function RestoreGroups(st: Store, groups: seq<string>, env: Env): (r: Store)
    ensures r.config == st.config
    ensures r.next >= st.next
    ensures forall h :: h !in groups || !IsEnabled(st.config, h) ==> Registered(r, h) == Registered(st, h)
    decreases |groups|
  {
    if |groups| == 0 then st
    else
      var st1 := if IsEnabled(st.config, groups[0]) then Rebuild(st, groups[0], env) else st;
      RestoreGroups(st1, groups[1..], env)
  }

  /** When a bot connects, every enabled group gets its jobs rebuilt; `groups`
      is the configuration's key order. */
  function Restore(st: Store, groups: seq<string>, env: Env): (r: Store)
    requires NoDups(groups)
    requires forall g :: g in groups <==> g in st.config
    ensures r.config == st.config
    ensures forall h :: !IsEnabled(st.config, h) ==> Registered(r, h) == Registered(st, h)
  {
    RestoreGroups(st, groups, env)
  }

  // ---------- the invariant ----------

  /** Every registered id belongs to the group it is registered for, and its
      nonce has been drawn. */
  ghost predicate Owned(st: Store) {
    forall g, id :: g in st.registry && id in st.registry[g] ==> id.group == g && id.nonce < st.next
  }

  /** Every job the scheduler holds is registered for its group. */
  ghost predicate Tracked(st: Store) {
    forall id :: id in st.live ==> id in Registered(st, id.group)
  }

  /** Only configured groups have a registry entry, and a disabled group's
      entry is empty. */
  ghost predicate Configured(st: Store) {
    forall g :: g in st.registry ==> g in st.config && (!st.config[g] ==> st.registry[g] == [])
  }

  ghost predicate Valid(st: Store) {
    Owned(st) && Tracked(st) && Configured(st)
  }

  /** The startup state satisfies the invariant, whatever the file held. */
  lemma InitialValid(data: Option<Json>)
    ensures Valid(Initial(data))
  {
  }

  /** Rebuilding a group registers ids of that group with newly drawn nonces. */
  lemma RebuildFresh(st: Store, g: string, env: Env)
    ensures var r := Rebuild(st, g, env);
            forall id :: id in r.registry[g] ==> id.group == g && st.next <= id.nonce < r.next
  {
    var r := Rebuild(st, g, env);
    var evs := CreateEventReminderJobs(g, env, st.next);
    forall id | id in r.registry[g] ensures id.group == g && st.next <= id.nonce < r.next {
      if id in evs {
        var i :| 0 <= i < |evs| && evs[i] == id;
      } else {
        assert id == ResetJob(g, r.next - 1);
      }
    }
  }

  lemma RebuildOwned(st: Store, g: string, env: Env)
    requires Owned(st)
    ensures Owned(Rebuild(st, g, env))
  {
    var r := Rebuild(st, g, env);
    RebuildFresh(st, g, env);
    forall h, id | h in r.registry && id in r.registry[h] ensures id.group == h && id.nonce < r.next {
      if h != g {
        assert Registered(r, h) == Registered(st, h);
      }
    }
  }

  lemma RebuildValid(st: Store, g: string, env: Env)
    requires Valid(st) && IsEnabled(st.config, g)
    ensures Valid(Rebuild(st, g, env))
  {
    var r := Rebuild(st, g, env);
    RebuildOwned(st, g, env);
    assert Tracked(r) by {
      forall id | id in r.live ensures id in Registered(r, id.group) {
        if id in r.registry[g] {
          assert id.group == g;
        } else {
          assert id in Registered(st, id.group) && id.group != g;
          assert Registered(r, id.group) == Registered(st, id.group);
        }
      }
    }
  }

  /** Switching reminders on keeps the invariant. */
  lemma EnableValid(st: Store, g: string, env: Env)
    requires Valid(st)
    ensures Valid(Enable(st, g, env))
  {
    var st1 := st.(config := st.config[g := true]);
    assert Registered(st1, g) == Registered(st, g);
    RebuildValid(st1, g, env);
  }

  /** Switching reminders off keeps the invariant. */
  lemma DisableValid(st: Store, g: string)
    requires Valid(st)
    ensures Valid(Disable(st, g))
  {
    var r := Disable(st, g);
    assert Tracked(r) by {
      forall id | id in r.live ensures id in Registered(r, id.group) {
        assert id in Registered(st, id.group) && id !in Registered(st, g);
        assert id.group != g;
      }
    }
  }

  /** The daily reset of a group with a registry entry keeps the invariant. */
  lemma FireResetValid(st: Store, g: string, env: Env)
    requires Valid(st) && (g in st.registry || !IsEnabled(st.config, g))
    ensures Valid(FireReset(st, g, env))
  {
    var r := FireReset(st, g, env);
    var evs := CreateEventReminderJobs(g, env, st.next);
    if IsEnabled(st.config, g) && g in st.registry {
      var kept := Filter(st.registry[g], IsResetJob());
      assert r.registry[g] == kept + evs;
      assert Owned(r) by {
        forall h, id | h in r.registry && id in r.registry[h] ensures id.group == h && id.nonce < r.next {
          if h == g {
            if id in kept {
              FilterMembers(st.registry[g], IsResetJob(), id);
            } else {
              var i :| 0 <= i < |evs| && evs[i] == id;
            }
          }
        }
      }
      assert Tracked(r) by {
        forall id | id in r.live ensures id in Registered(r, id.group) {
          if id in evs {
            assert id.group == g;
          } else if id.group == g {
            assert id in st.registry[g] && id.ResetJob?;
            FilterMembers(st.registry[g], IsResetJob(), id);
          } else {
            assert Registered(r, id.group) == Registered(st, id.group);
          }
        }
      }
    }
  }

  /** Under the invariant a live job's group has a registry entry, so a reset
      fired by the scheduler never takes the path where registering the new
      jobs fails. */
  lemma LiveJobRegistered(st: Store, id: JobId)
    requires Valid(st) && id in st.live
    ensures id.group in st.registry && id in st.registry[id.group]
  {
  }

  /** A job firing keeps the invariant. */
  lemma FireValid(st: Store, id: JobId, env: Env)
    requires Valid(st) && id in st.live
    ensures Valid(Fire(st, id, env).store)
  {
    if id.ResetJob? {
      FireResetValid(st, id.group, env);
    }
  }

  /** Restoring keeps the invariant. */
  lemma {:induction false} RestoreGroupsValid(st: Store, groups: seq<string>, env: Env)
    requires Valid(st)
    ensures Valid(RestoreGroups(st, groups, env))
    decreases |groups|
  {
    if |groups| > 0 {
      var st1 := if IsEnabled(st.config, groups[0]) then Rebuild(st, groups[0], env) else st;
      if IsEnabled(st.config, groups[0]) {
        RebuildValid(st, groups[0], env);
      }
      RestoreGroupsValid(st1, groups[1..], env);
    }
  }

  /** Restoring never brings back a job with a nonce drawn before it: every
      such job live afterwards was live before. */
  lemma {:induction false} RestoreNoOld(st: Store, groups: seq<string>, env: Env)
    ensures forall id :: id in RestoreGroups(st, groups, env).live && id.nonce < st.next ==> id in st.live
    decreases |groups|
  {
    if |groups| > 0 {
      var g := groups[0];
      var st1 := if IsEnabled(st.config, g) then Rebuild(st, g, env) else st;
      RestoreNoOld(st1, groups[1..], env);
      if IsEnabled(st.config, g) {
        RebuildFresh(st, g, env);
      }
    }
  }

  /** Restoring cancels every job registered for a listed enabled group. */
  lemma {:induction false} RestoreGroupsCancels(st: Store, groups: seq<string>, env: Env, g: string)
    requires Owned(st)
    requires g in groups && IsEnabled(st.config, g)
    ensures forall id :: id in Registered(st, g) ==> id !in RestoreGroups(st, groups, env).live
    decreases |groups|
  {
    var h := groups[0];
    var st1 := if IsEnabled(st.config, h) then Rebuild(st, h, env) else st;
    if h == g {
      RestoreNoOld(st1, groups[1..], env);
      RebuildFresh(st, g, env);
      forall id | id in Registered(st, g) ensures id !in RestoreGroups(st, groups, env).live {
        assert id.nonce < st.next;
        assert id !in st1.live;
      }
    } else {
      if IsEnabled(st.config, h) {
        RebuildOwned(st, h, env);
      }
      assert Registered(st1, g) == Registered(st, g);
      RestoreGroupsCancels(st1, groups[1..], env, g);
    }
  }

  /** `ids` is the batch a rebuild of `g` registers when it starts drawing
      nonces at `n`: the reminder jobs, then one reset job. */
  ghost predicate BuiltFrom(ids: seq<JobId>, g: string, env: Env, n: nat) {
    ids == CreateEventReminderJobs(g, env, n) + [ResetJob(g, n + |CreateEventReminderJobs(g, env, n)|)]
  }

  lemma RebuildBuilds(st: Store, g: string, env: Env)
    ensures BuiltFrom(Registered(Rebuild(st, g, env), g), g, env, st.next)
    ensures Rebuild(st, g, env).next > st.next
  {
  }

  /** After restoring, a listed enabled group has a newly built batch
      registered: its reminder jobs numbered from some unused nonce `n`,
      then one reset job. */
  lemma {:induction false} RestoreGroupsRebuilds(st: Store, groups: seq<string>, env: Env, g: string)
    requires g in groups && IsEnabled(st.config, g)
    ensures exists n :: st.next <= n && BuiltFrom(Registered(RestoreGroups(st, groups, env), g), g, env, n)
    decreases |groups|
  {
    var h := groups[0];
    var st1 := if IsEnabled(st.config, h) then Rebuild(st, h, env) else st;
    assert st1.next >= st.next && st1.config == st.config;
    assert RestoreGroups(st, groups, env) == RestoreGroups(st1, groups[1..], env);
    if g in groups[1..] {
      RestoreGroupsRebuilds(st1, groups[1..], env, g);
    } else {
      assert h == g;
      RebuildBuilds(st, g, env);
      assert Registered(RestoreGroups(st1, groups[1..], env), g) == Registered(st1, g);
      assert BuiltFrom(Registered(RestoreGroups(st, groups, env), g), g, env, st.next);
    }
  }

  /** Restoring cancels every registered job of each enabled group and
      registers a newly built batch for it in their place. */
  lemma RestoreReplaces(st: Store, groups: seq<string>, env: Env, g: string)
    requires Owned(st)
    requires NoDups(groups)
    requires forall h :: h in groups <==> h in st.config
    requires IsEnabled(st.config, g)
    ensures forall id :: id in Registered(st, g) ==> id !in Restore(st, groups, env).live
    ensures exists n :: st.next <= n && BuiltFrom(Registered(Restore(st, groups, env), g), g, env, n)
  {
    RestoreGroupsCancels(st, groups, env, g);
    RestoreGroupsRebuilds(st, groups, env, g);
    var n :| st.next <= n && BuiltFrom(Registered(RestoreGroups(st, groups, env), g), g, env, n);
    assert Restore(st, groups, env) == RestoreGroups(st, groups, env);
  }

  // ---------- what the transitions promise ----------

  /** After switching reminders on, the group's live jobs are exactly its
      newly registered ones: nothing from before survives, so repeated
      switching on never accumulates jobs. */
  lemma EnableReplaces(st: Store, g: string, env: Env)
    requires Valid(st)
    ensures LiveOf(Enable(st, g, env), g) == ElementsOf(Registered(Enable(st, g, env), g))
  {
    EnableOwnGroup(st, g, env);
    assert forall id :: id in Registered(st, g) ==> id.group == g;
  }

  /** Switching reminders on for `g` leaves the live jobs of every other
      group as they were. */
  lemma EnableLeavesOthers(st: Store, g: string, env: Env)
    requires Valid(st)
    ensures forall h :: h != g ==> LiveOf(Enable(st, g, env), h) == LiveOf(st, h)
  {
    EnableOwnGroup(st, g, env);
    assert forall id :: id in Registered(st, g) ==> id.group == g;
  }

  /** The jobs registered by switching reminders on for `g` belong to `g`. */
  lemma EnableOwnGroup(st: Store, g: string, env: Env)
    ensures forall id :: id in Registered(Enable(st, g, env), g) ==> id.group == g
  {
    var evs := CreateEventReminderJobs(g, env, st.next);
    forall id | id in Registered(Enable(st, g, env), g) ensures id.group == g {
      if id in evs {
        var i :| 0 <= i < |evs| && evs[i] == id;
      }
    }
  }

  /** After switching reminders off, no job of the group is left; other
      groups are untouched. */
  lemma DisableSilences(st: Store, g: string)
    requires Valid(st)
    ensures LiveOf(Disable(st, g), g) == {}
    ensures forall h :: h != g ==> LiveOf(Disable(st, g), h) == LiveOf(st, h)
  {
    var r := Disable(st, g);
    forall id | id in st.live && id.group == g ensures id !in r.live {
      assert id in Registered(st, g);
    }
    assert forall id :: id in Registered(st, g) ==> id.group == g;
  }

  /** Off, then on again: the group ends up with only the new batch of jobs
      registered, numbered on from where the state stood before. */
  lemma ReenableRegisters(st: Store, g: string, env: Env)
    ensures var r := Enable(Disable(st, g), g, env);
            Registered(r, g) == CreateEventReminderJobs(g, env, st.next) + [ResetJob(g, r.next - 1)]
  {
  }

  /** On, off, on again: no job of the first batch is live any more. */
  lemma ReenableDropsFirstBatch(st: Store, g: string, e1: Env, e2: Env)
    ensures var s1 := Enable(st, g, e1);
            forall id :: id in Registered(s1, g) ==> id !in Enable(Disable(s1, g), g, e2).live
  {
    var s1 := Enable(st, g, e1);
    FirstBatchGone(st, s1, Disable(s1, g), g, e1, e2);
  }

  lemma FirstBatchGone(st: Store, s1: Store, s2: Store, g: string, e1: Env, e2: Env)
    requires s1 == Enable(st, g, e1) && s2 == Disable(s1, g)
    ensures forall id :: id in Registered(s1, g) ==> id !in Enable(s2, g, e2).live
  {
    EnableNonces(st, g, e1);
    OldBatchGone(s1, s2, g, e2);
  }

  lemma OldBatchGone(s1: Store, s2: Store, g: string, e2: Env)
    requires s2 == Disable(s1, g)
    ensures forall id :: id in Registered(s1, g) && id.nonce < s1.next ==> id !in Enable(s2, g, e2).live
  {
    var s3 := Enable(s2, g, e2);
    EnableNonces(s2, g, e2);
    assert forall id :: id in Registered(s1, g) ==> id !in s2.live;
    assert forall id :: id in s3.live ==> id in s2.live || id in Registered(s3, g);
  }

  /** The jobs registered by switching reminders on carry newly drawn nonces. */
  lemma EnableNonces(st: Store, g: string, env: Env)
    ensures forall id :: id in Registered(Enable(st, g, env), g) ==> st.next <= id.nonce < Enable(st, g, env).next
  {
    var r := Enable(st, g, env);
    var evs := CreateEventReminderJobs(g, env, st.next);
    forall id | id in Registered(r, g) ensures st.next <= id.nonce < r.next {
      if id in evs {
        var i :| 0 <= i < |evs| && evs[i] == id;
      }
    }
  }

  /** A reminder job created while a bot is available announces a non-empty
      group of occurrences that all start `LeadMinutes` after it is due; fired
      while its group is enabled it sends that group's reminder text, and
      fired while the group is disabled or unknown it sends nothing. */
  lemma FiredReminder(st: Store, g: string, env: Env, next: nat, i: int)
    requires 0 <= i < |CreateEventReminderJobs(g, env, next)|
    requires CreateEventReminderJobs(g, env, next)[i] in st.live
    ensures var id := CreateEventReminderJobs(g, env, next)[i];
            && |id.items| > 0
            && (forall k :: 0 <= k < |id.items| ==> id.items[k].start == id.due + LeadMinutes)
            && Fire(st, id, env).message == (if IsEnabled(st.config, g) then ReminderText(id.items) else None)
            && (IsEnabled(st.config, g) ==> Fire(st, id, env).message.Some?)
  {
    var id := CreateEventReminderJobs(g, env, next)[i];
    BucketShape(Kept(env), i);
    assert id.items == GroupByMinute(Kept(env))[i].items && id.due == GroupByMinute(Kept(env))[i].key;
  }

  // ---------- one live reset job per enabled group ----------

  /** Group `g` has exactly one reset job registered, and it is live. */
  ghost predicate Armed(st: Store, g: string) {
    && g in st.registry
    && |Filter(st.registry[g], IsResetJob())| == 1
    && Filter(st.registry[g], IsResetJob())[0] in st.live
  }

  /** The invariant once the bot has connected: besides `Valid`, every enabled
      group has exactly one live daily reset job. */
  ghost predicate Running(st: Store) {
    Valid(st) && forall g :: IsEnabled(st.config, g) ==> Armed(st, g)
  }

  /** At startup an enabled group has no reset job yet: the state is not
      running until the first restore. */
  lemma InitialNotRunning(data: Option<Json>, g: string)
    requires IsEnabled(LoadConfig(data), g)
    ensures !Running(Initial(data))
  {
    assert !Armed(Initial(data), g);
  }

  /** The reset job of an armed group belongs to that group. */
  lemma ArmedOwned(st: Store, h: string)
    requires Valid(st) && Armed(st, h)
    ensures Filter(st.registry[h], IsResetJob())[0].group == h
  {
    var x := Filter(st.registry[h], IsResetJob())[0];
    FilterMembers(st.registry[h], IsResetJob(), x);
  }

  /** Rebuilding `g` arms it and leaves every other armed group armed. */
  lemma RebuildArms(st: Store, g: string, env: Env)
    requires Valid(st)
    ensures Armed(Rebuild(st, g, env), g)
    ensures forall h :: h != g && Armed(st, h) ==> Armed(Rebuild(st, g, env), h)
  {
    var r := Rebuild(st, g, env);
    RebuildOneReset(st, g, env);
    forall h | h != g && Armed(st, h) ensures Armed(r, h) {
      ArmedOwned(st, h);
      var x := Filter(st.registry[h], IsResetJob())[0];
      assert Registered(r, h) == Registered(st, h);
      assert forall id :: id in Registered(st, g) ==> id.group == g;
      assert x !in Registered(st, g);
    }
  }

  /** Restoring arms every enabled group that comes up in `groups` and leaves
      armed groups armed. */
  lemma {:induction false} RestoreGroupsArms(st: Store, groups: seq<string>, env: Env)
    requires Valid(st)
    ensures forall h :: IsEnabled(st.config, h) && (h in groups || Armed(st, h)) ==> Armed(RestoreGroups(st, groups, env), h)
    decreases |groups|
  {
    if |groups| > 0 {
      var g := groups[0];
      var st1 := if IsEnabled(st.config, g) then Rebuild(st, g, env) else st;
      if IsEnabled(st.config, g) {
        RebuildValid(st, g, env);
        RebuildArms(st, g, env);
      }
      RestoreGroupsArms(st1, groups[1..], env);
      forall h | IsEnabled(st.config, h) && (h in groups || Armed(st, h)) ensures Armed(RestoreGroups(st, groups, env), h) {
        assert h == g || h in groups[1..] || Armed(st, h);
      }
    }
  }

  /** Once the bot has connected and jobs are restored, every enabled group
      has exactly one live daily reset job. */
  lemma RestoreRunning(st: Store, groups: seq<string>, env: Env)
    requires Valid(st)
    requires NoDups(groups)
    requires forall g :: g in groups <==> g in st.config
    ensures Running(Restore(st, groups, env))
  {
    RestoreGroupsValid(st, groups, env);
    RestoreGroupsArms(st, groups, env);
  }

  /** Switching reminders on keeps every enabled group armed. */
  lemma EnableRunning(st: Store, g: string, env: Env)
    requires Running(st)
    ensures Running(Enable(st, g, env))
  {
    EnableValid(st, g, env);
    var st1 := st.(config := st.config[g := true]);
    assert Registered(st1, g) == Registered(st, g);
    assert Valid(st1);
    RebuildArms(st1, g, env);
    forall h | h != g && IsEnabled(st.config, h) ensures Armed(st1, h) {
      assert Armed(st, h);
    }
  }

  /** Switching reminders off keeps every other enabled group armed. */
  lemma DisableRunning(st: Store, g: string)
    requires Running(st)
    ensures Running(Disable(st, g))
  {
    DisableValid(st, g);
    var r := Disable(st, g);
    forall h | IsEnabled(r.config, h) ensures Armed(r, h) {
      ArmedOwned(st, h);
      var x := Filter(st.registry[h], IsResetJob())[0];
      assert forall id :: id in Registered(st, g) ==> id.group == g;
      assert x !in Registered(st, g);
    }
  }

  /** The daily reset keeps its own group armed. */
  lemma FireResetArmsOwn(st: Store, g: string, env: Env)
    requires Running(st) && IsEnabled(st.config, g)
    ensures Armed(FireReset(st, g, env), g)
  {
    var r := FireReset(st, g, env);
    assert Armed(st, g);
    var before := st.registry[g];
    var evs := CreateEventReminderJobs(g, env, st.next);
    assert r.registry[g] == Filter(before, IsResetJob()) + evs;
    assert Filter(r.registry[g], IsResetJob()) == Filter(before, IsResetJob()) by {
      FilterAppend(Filter(before, IsResetJob()), evs, IsResetJob());
      FilterIdempotent(before, IsResetJob());
      NoResetAmongReminders(g, env, st.next);
    }
    var x := Filter(before, IsResetJob())[0];
    FilterMembers(before, IsResetJob(), x);
  }

  /** The daily reset of `g` leaves every other armed group armed. */
  lemma FireResetArmsOthers(st: Store, g: string, env: Env, h: string)
    requires Valid(st) && h != g && Armed(st, h)
    ensures Armed(FireReset(st, g, env), h)
  {
    var r := FireReset(st, g, env);
    if IsEnabled(st.config, g) {
      ArmedOwned(st, h);
      var y := Filter(st.registry[h], IsResetJob())[0];
      assert r.registry[h] == st.registry[h];
      assert y in st.live;
      if g in st.registry {
        assert forall id :: id in st.registry[g] ==> id.group == g;
      }
    }
  }

  /** The daily reset keeps every enabled group armed. */
  lemma FireResetRunning(st: Store, g: string, env: Env)
    requires Running(st) && (g in st.registry || !IsEnabled(st.config, g))
    ensures Running(FireReset(st, g, env))
  {
    FireResetValid(st, g, env);
    var r := FireReset(st, g, env);
    if IsEnabled(st.config, g) {
      FireResetArmsOwn(st, g, env);
    }
    forall h | h != g && IsEnabled(r.config, h) ensures Armed(r, h) {
      FireResetArmsOthers(st, g, env, h);
    }
  }

  /** A job firing keeps every enabled group armed. */
  lemma FireRunning(st: Store, id: JobId, env: Env)
    requires Running(st) && id in st.live
    ensures Running(Fire(st, id, env).store)
  {
    FireValid(st, id, env);
    if id.ResetJob? {
      LiveJobRegistered(st, id);
      FireResetRunning(st, id.group, env);
    } else {
      var r := Fire(st, id, env).store;
      forall h | IsEnabled(r.config, h) ensures Armed(r, h) {
        var x := Filter(st.registry[h], IsResetJob())[0];
        FilterMembers(st.registry[h], IsResetJob(), x);
      }
    }
  }
}
