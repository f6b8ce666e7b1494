# Activity reminders: a verified model

This project models the core of a chat-bot plugin that publishes a weekly
activity catalog and reminds chat groups ten minutes before each activity
starts. The model covers:

- **Occurrences of the day.** The catalog file's `"HH:MM"` start times are
  parsed and the activities running on a weekday (`"Everyday"` or the named
  day) are selected. Each activity is flattened into one occurrence per start
  time. An occurrence's end is its start plus the duration, wrapping at
  midnight; a zero or missing duration gives no end. The occurrences are
  then stably sorted by start time.
- **Reminder jobs.** An occurrence keeps a reminder only when start minus ten
  minutes is still ahead of now. The kept ones are merged by reminder minute
  in encounter order, and each merged group becomes one job. The message
  uses the singular text for one activity and a bulleted list for several.
- **The per-group state machine.** The state is the configuration (group to
  enabled), the registry of job ids per group, the set of jobs the scheduler
  holds, and a nonce counter standing in for the random id suffixes. The
  transitions are:
  - switching reminders on;
  - switching reminders off;
  - the daily 00:01 reset;
  - a job firing;
  - restoring jobs when the bot connects.
- **Configuration normalization.** Older file shapes are read into the
  current `{"<group>": {"event_reminder": {"enabled": b}}}` shape.
- **Display decisions.** The model covers the display offset applied to
  "now", which cards are highlighted as running, the "last session" flag,
  and the two-column split.

Times of day are whole minutes since midnight (0 to 1439). The current
instant is whole seconds since today's midnight, passed in as a parameter
together with the weekday and whether a bot connection is available.

Modules, one per file:

| file | module | covers |
|---|---|---|
| basics.dfy | `Basics` | `Option`, `Filter`, `Distinct`, `list.remove` |
| clock.dfy | `Clock` | digits, `"HH:MM"` and `"HHMM"` text, `strptime("%H:%M")` |
| catalog.dfy | `Catalog` | loading the catalog, the day's schedule |
| timeline.dfy | `Timeline` | occurrences, end times, the stable sort |
| reminders.dfy | `Reminders` | keep rule, merging by minute, message text |
| config.dfy | `Config` | the config file's shapes |
| scheduler.dfy | `Scheduler` | jobs, registry, transitions, invariants |
| display.dfy | `Display` | offset, highlighting, last session, columns |

## Where the code departs from what one might expect

The model follows the code in each case below.

- **Midnight wrap.** One might expect an occurrence's end never to precede
  its start. The code computes the end as a time of day
  (service.py:65-69), so an activity running past midnight ends "before" it
  starts. `Timeline.EndWrapsPastMidnight` exhibits such an occurrence, and
  `Display.WrappedNeverActive` shows that its card is never highlighted.
- **Fired jobs stay registered.** One might expect every registered id to be
  a job the scheduler still holds. In the code, a reminder
  job that has fired leaves the scheduler but stays in the group's id list
  until the next cancel or reset. The model's invariant (`Scheduler.Valid`)
  is therefore the converse inclusion: every job the scheduler holds is
  registered for its group.
- **Reset jobs before the first connection.** One might expect exactly one
  live reset job per enabled group at all times, but this does not hold at
  startup. The configuration is loaded then,
  but no jobs exist until the bot connects (__init__.py:352-387). The model
  proves it from the restore onwards (`Scheduler.RestoreRunning`) and proves
  that every later transition keeps it.

## Model

| member | source | states |
|---|---|---|
| Clock.ParseClock | service.py:37-39 | an accepted `"HH:MM"` text yields a time of day in 0..1439 |
| Clock.ParseFormatClock | service.py:37-39 | every time of day written as `"%H:%M"` parses back to itself |
| Clock.ParseClockIff | service.py:37-39 | a text parses to `t` iff `t` is a time of day and the text is its hour, a colon and its minute, each two digits or, below ten, optionally one |
| Clock.ParseShortHour | service.py:37-39 | `"9:05"` reads as 9:05 |
| Clock.ParseOutOfRange | service.py:37-39 | `"24:00"` and `"12:60"` are rejected |
| Clock.ParseLongHour | service.py:37-39 | `"012:30"` is rejected: an hour has at most two digits |
| Clock.ParseNat | service.py:83 | a text converts to a number iff it is a non-empty run of ASCII digits |
| Clock.FormatClock | __init__.py:235 | `strftime("%H:%M")` gives five characters: two digits, a colon, two digits |
| Clock.FormatKey | __init__.py:275 | `strftime("%H%M")` gives four digits |
| Clock.FormatKeyDetermines | __init__.py:275 | two minutes of the day have the same `"%H%M"` key iff they are the same minute |
| Clock.ParseDecimal | service.py:83 | a rendered natural number parses back to itself |
| Catalog.ParseTimes | service.py:37-39 | a start-time list loads iff every entry parses; the loaded list holds each entry's parsed value in order |
| Catalog.LoadActivities | service.py:36-44 | the catalog loads iff every start time parses and every duration fits `timedelta`'s range of ±999999999 days; each loaded entry keeps its name, days and duration and holds the parsed times |
| Catalog.LoadUnload | service.py:36-44 | loading a catalog of times of day and in-range durations, written out with canonical times, gives the catalog back |
| Catalog.DurationBoundary | service.py:40-44 | a duration of 999999999 days and 1439 minutes loads; one minute more, or a minute below -999999999 days, fails the load |
| Catalog.GetDaySchedule | service.py:49-56 | the day's schedule has at most one entry per catalog activity |
| Catalog.DaySchedulePositions | service.py:49-56 | the day's schedule is exactly the entries naming `"Everyday"` or the day, each once, in catalog order, with start times and duration unchanged |
| Timeline.EndTime | service.py:65-69 | no end iff the duration is absent or zero; otherwise the end is a time of day congruent to start plus duration modulo a day |
| Timeline.EndWrapsPastMidnight | service.py:65-69 | a 60-minute activity at 23:30 ends at 00:30 |
| Timeline.Flatten | service.py:62-70 | the flattened list has as many occurrences as the schedule has start times |
| Timeline.FlattenMembers | service.py:62-70 | an occurrence is in the flattened list iff it is some scheduled activity's occurrence at one of its start times |
| Timeline.FlattenAt | service.py:62-70 | activity `i`'s occurrence at its start time `j` sits at position `TotalStarts(s[..i]) + j`: activities in order, each one's start times in list order, every pair exactly once |
| Timeline.SortByStart | service.py:71 | sorting keeps the number of occurrences |
| Timeline.SortSorted | service.py:71 | the sorted list is ordered by start time |
| Timeline.SortPermutes | service.py:71 | sorting keeps every occurrence with its multiplicity |
| Timeline.SortStable | service.py:71 | for every start time, the occurrences starting then keep their relative order |
| Timeline.StableSortCharacterization | service.py:71 | a list is the sorted time line iff it is ordered by start and keeps, per start time, the input order |
| Timeline.DayTimeline | service.py:58-72 | the day's time line is ordered by start and has one occurrence per start time of the day's schedule |
| Timeline.DayTimelineContents | service.py:58-72 | the day's time line is a permutation of the day's occurrences in which same-time occurrences keep catalog order |
| Reminders.Candidates | __init__.py:268-270 | there are as many candidates as start times in the day's schedule |
| Reminders.CandidateMembers | __init__.py:268-270 | an item is a candidate iff it pairs a scheduled activity's name with one of its start times |
| Reminders.CandidateAt | __init__.py:268-270 | activity `i`'s start time `j` is the candidate at position `TotalStarts(schedule[..i]) + j`, so candidates come in loop order, each pair exactly once |
| Reminders.DueNotAhead | __init__.py:270-273 | a reminder whose minute has begun is skipped, and one whose minute is still to come is kept |
| Reminders.AheadMonotone | __init__.py:270-273 | a reminder still ahead at a later instant was ahead at every earlier one |
| Scheduler.Kept | __init__.py:268-273 | at most one reminder per occurrence of today's schedule |
| Scheduler.KeptMembers | __init__.py:268-273 | an item is kept iff it is an occurrence of today's schedule whose reminder minute lies strictly after now |
| Reminders.AddItem | __init__.py:275-279 | adding an item opens at most one new bucket and drops none |
| Reminders.AddItemKeys | __init__.py:275-279 | adding an item keeps the bucket minutes when its minute has a bucket, and otherwise appends its minute last |
| Reminders.AddItemItems | __init__.py:275-279 | with distinct minutes, an item is appended to the one bucket of its minute and every other bucket is unchanged |
| Reminders.AddItemNew | __init__.py:275-279 | a bucket opened by an item holds that item alone, under its minute |
| Reminders.GroupByMinute | __init__.py:266-279 | no two buckets share a reminder minute |
| Reminders.GroupByMinuteGrouped | __init__.py:268-279 | one bucket per distinct reminder minute in order of first appearance, each holding exactly the items due then in encounter order |
| Reminders.BucketMembership | __init__.py:275-279 | every kept item is in exactly the bucket of its reminder minute, and no two buckets share a minute |
| Reminders.BucketCount | __init__.py:266-279 | there are as many buckets as distinct reminder minutes |
| Reminders.ReminderIffAhead | __init__.py:270-273 | an occurrence gets a reminder iff start minus ten minutes lies strictly after now |
| Reminders.BucketShape | __init__.py:275-279 | every bucket is non-empty and all its items start ten minutes after its minute |
| Reminders.BucketSharesStart | __init__.py:238-241 | every item of a bucket starts ten minutes after the bucket's minute, so quoting the first item's start quotes all |
| Reminders.ReminderText | __init__.py:232-242 | a message exists iff there is at least one activity |
| Reminders.SingleText | __init__.py:232-236 | the text for a lone activity names it and quotes its start time as `HH:MM` |
| Reminders.ListHeader | __init__.py:238-241 | the header of a merged reminder quotes the shared start time as `HH:MM` |
| Reminders.SingleReminderText | __init__.py:232-236 | a lone activity, whatever its name, is announced with the single-activity text |
| Reminders.SingleReminderLine | __init__.py:232-236 | the single-activity text is one line when the activity's name has no line break |
| Reminders.ReminderLines | __init__.py:237-242 | with several activities the message reads as the header with the first start time, then one `• name` line per activity in order |
| Config.NormalizeEntry | __init__.py:65-73 | a nested `event_reminder` object decides; failing that, the truthiness of a top-level `enabled` key decides; a non-object entry is disabled |
| Config.LoadConfig | __init__.py:55-78 | same group keys as the file, each value the normalized entry; a missing or non-object file gives the empty configuration |
| Config.SaveConfig | __init__.py:81-92 | the saved file is an object with exactly one key per configured group |
| Config.LoadSave | __init__.py:63-74 | reading back a saved configuration gives the same configuration |
| Config.NormalizeCanonical | __init__.py:63-74 | normalizing a file already in the current shape changes nothing |
| Config.LegacyShapes | __init__.py:67-72 | a bare `{"enabled": b}` entry and one with a sibling `scheduled_send` read as `b` |
| Config.NestedTakesPrecedence | __init__.py:68-72 | a nested flag wins over a bare top-level `enabled` |
| Config.BareFlagDecides | __init__.py:65-73 | without a nested `event_reminder` object, whatever value a top-level `enabled` key holds decides by its truthiness |
| Config.Truthy | __init__.py:69-72 | `bool` of a JSON value is false exactly for `null`, `false`, `0` and the empty string, list and object |
| Config.EnabledIffNestedFlag | __init__.py:223-226 | a group counts as enabled iff it has an entry whose `event_reminder.enabled` is truthy, the test applied when a reminder fires |
| Scheduler.ResetPrefixIffReset | __init__.py:291 | an id string has the `daily_reset_` prefix iff it is a reset job's id |
| Scheduler.RenderDistinct | __init__.py:291-311 | within a group, ids of the same kind and due minute but different suffixes differ, and ids of different kinds always differ |
| Scheduler.CreateEventReminderJobs | __init__.py:255-304 | no jobs without a bot; otherwise one reminder job per bucket, for the group, with newly drawn nonces |
| Scheduler.JobCount | __init__.py:281-304 | the number of jobs is the number of distinct reminder minutes still ahead, or 0 without a bot |
| Scheduler.JobsCoverReminders | __init__.py:268-304 | an occurrence is announced iff a bot is available and its reminder is ahead; its job is due at its reminder minute; job minutes are distinct |
| Scheduler.RemoveAll | __init__.py:169-175 | cancelling a list removes exactly its ids; ids already gone are skipped |
| Basics.RemoveFirst | __init__.py:329-332 | removing an id shortens the list by one iff the id is in it |
| Basics.RemoveFirstPast | __init__.py:329-332 | removing an id takes out its first occurrence and keeps the rest in order |
| Basics.RemoveAbsent | __init__.py:329-332 | removing an id that is not in the list changes nothing, as the swallowed `ValueError` does |
| Scheduler.SweepRegistry | __init__.py:321-332 | the reset's sweep keeps exactly the spared ids of the registry, in order |
| Scheduler.SweepLive | __init__.py:321-328 | the sweep takes exactly the unspared ids of the snapshot off the scheduler |
| Scheduler.Sweep | __init__.py:321-332 | the sweep never lengthens the registry and never adds a job to the scheduler |
| Scheduler.ResetSweep | __init__.py:321-332 | on a group's registry the sweep keeps exactly its reset jobs in order and cancels exactly its reminder jobs |
| Scheduler.Rebuild | __init__.py:168-184 | cancel what is registered for the group, then register the new reminder jobs followed by one new reset job |
| Scheduler.RebuildOneReset | __init__.py:179-184 | a rebuilt group has exactly one reset job registered |
| Scheduler.Enable | __init__.py:160-184 | the group is enabled; its registry is the new reminder jobs then one reset job; every earlier id of the group is cancelled; other groups unchanged |
| Scheduler.Disable | __init__.py:190-201 | the group is disabled; its registry is empty; exactly its registered ids are cancelled; other groups unchanged |
| Scheduler.FireReset | __init__.py:313-337 | nothing when the group is absent or disabled; otherwise the registry becomes its reset ids in order followed by the new reminder jobs, and only reminder jobs are cancelled |
| Scheduler.Fire | __init__.py:223-241 | a reminder job leaves the scheduler and sends its text iff its group is enabled; a reset job stays scheduled and performs the reset |
| Scheduler.RestoreGroups | __init__.py:367-387 | configuration unchanged; groups not listed or not enabled keep their registry |
| Scheduler.Restore | __init__.py:367-387 | only enabled groups are rebuilt |
| Scheduler.RestoreNoOld | __init__.py:372-387 | restoring makes no earlier-numbered job live that was not live before |
| Scheduler.RestoreGroupsCancels | __init__.py:372-378 | every id registered for a listed enabled group is off the scheduler after restoring |
| Scheduler.RestoreGroupsRebuilds | __init__.py:382-387 | a listed enabled group's registry becomes a newly numbered batch of reminder jobs followed by one reset job |
| Scheduler.RestoreReplaces | __init__.py:367-387 | for every enabled group, the old registered ids are cancelled and the registry is a new batch of reminder jobs followed by one reset job |
| Scheduler.InitialValid | __init__.py:51-78 | the startup state meets the invariant |
| Scheduler.InitialNotRunning | __init__.py:352-356 | at startup no reset job exists, so the state is not running while any group is enabled |
| Scheduler.EnableValid | __init__.py:164-184 | switching on keeps the invariant |
| Scheduler.DisableValid | __init__.py:190-201 | switching off keeps the invariant |
| Scheduler.FireResetValid | __init__.py:313-337 | the reset of a registered group keeps the invariant |
| Scheduler.FireValid | __init__.py:223-241 | a job firing keeps the invariant |
| Scheduler.RestoreGroupsValid | __init__.py:367-387 | restoring keeps the invariant |
| Scheduler.LiveJobRegistered | __init__.py:322-336 | a live job's group is registered, so a fired reset never hits the missing-entry path |
| Scheduler.EnableReplaces | __init__.py:164-184 | after switching on, the group's live jobs are exactly its new registry |
| Scheduler.EnableLeavesOthers | __init__.py:164-184 | switching on for one group leaves every other group's live jobs unchanged |
| Scheduler.EnableOwnGroup | __init__.py:164-184 | the jobs registered by switching on belong to that group |
| Scheduler.DisableSilences | __init__.py:190-201 | after switching off, no job of the group is live; other groups' jobs are unchanged |
| Scheduler.ReenableRegisters | __init__.py:164-201 | off then on leaves only the new batch registered, numbered from where the state stood |
| Scheduler.ReenableDropsFirstBatch | __init__.py:164-201 | on, off, on leaves no job of the first batch live |
| Scheduler.FiredReminder | __init__.py:223-241 | a created reminder job announces a non-empty group starting ten minutes after it is due, and sends that group's text iff the group is enabled |
| Scheduler.RestoreRunning | __init__.py:367-387 | after restoring, every enabled group has exactly one live reset job |
| Scheduler.EnableRunning | __init__.py:164-184 | switching on keeps one live reset job per enabled group |
| Scheduler.DisableRunning | __init__.py:190-201 | switching off keeps one live reset job per other enabled group |
| Scheduler.FireResetRunning | __init__.py:313-337 | the reset keeps one live reset job per enabled group |
| Scheduler.FireRunning | __init__.py:223-241 | a job firing keeps one live reset job per enabled group |
| Display.ShiftedNow | service.py:79-90 | "now" stays a second of the day, moved forward for `+N` and back otherwise, modulo a day; unchanged for a missing, empty or unparsable offset |
| Display.ShiftRoundTrip | service.py:79-90 | shifting by `+N` then `-N` returns the original instant |
| Display.ReminderPictureOffset | __init__.py:230 | the reminder picture's offset `+11` moves "now" eleven minutes forward |
| Display.ReminderPictureHighlights | __init__.py:229-230 | during a reminder's minute, the `+11` picture highlights the announced occurrence when it starts before 23:59 and has no end or an end time of day at least two minutes after its start, so not one that wraps past midnight |
| Display.LastMinuteNotHighlighted | __init__.py:229-230 | for an occurrence at 23:59 the `+11` picture shows a time past midnight and does not highlight it |
| Display.OpenEndedWindow | service.py:114-117 | an occurrence without an end is highlighted from its start through the following 300 seconds |
| Display.IsActive | service.py:114-117 | a highlighted occurrence has started, and any end it has is not before its start |
| Display.WrappedNeverActive | service.py:114-117 | an occurrence whose end wrapped before its start is never highlighted |
| Display.MaxOf | service.py:119-120 | the maximum is an element and bounds every element |
| Display.IsLastSession | service.py:119-120 | a last session starts no earlier than any occurrence of the same name |
| Display.LastSessionIff | service.py:119-120 | an occurrence is the last session iff no occurrence with its name starts later |
| Display.Columns | service.py:105-107 | the columns concatenate to the time line, and the left one has the same length as the right or one more |
| Display.ColumnsUnique | service.py:105-107 | that split is the only one with these lengths |

## Left out

- File reading and writing: `load_config` and `save_config` are modelled on
  the parsed JSON value only, and `load_activities` on a typed form of it (see
  `Catalog.LoadActivities` below). A file that does not parse is the `None`
  input of `Config.LoadConfig`.
- JSON floats. The model's JSON integers are whole numbers, so the
  truthiness of a float flag such as `0.0` is not modelled.
- Rendering of the picture: the HTML template, the headless browser and the
  PNG bytes. Only the decisions feeding the cards are modelled.
- The placeholder occurrence shown when the day has no activities
  (__init__.py:104-108). It belongs to rendering only.
- Chat commands: regex matching, permissions, the reply texts and the
  `FinishedException` flow. The model's `Enable` and `Disable` are the state
  changes behind `活动提醒 开` and `活动提醒 关`.
- Sending messages and the bot object. A fired reminder's outcome is the
  text it would send; delivery and its failures are outside the model.
- The clock, today's weekday and the bot connection are parameters (`Env`).
  The model does not cover the case where the date changes between the
  code's separate reads of today and now.
- Job-store internals: triggers, run dates, `max_instances`, `coalesce` and
  asynchronous execution. The scheduler is the set of live jobs, and a job
  fires only while it is in that set.
- Random id suffixes are replaced by nonces drawn from a counter, so new ids
  never collide with earlier ones. Clashing suffixes, and the store's
  reaction to a duplicate id, are not modelled.
- Scheduler.Render: the six hex digits of a random suffix are rendered as the
  nonce's decimal digits. Only the `daily_reset_` prefix test depends on the
  id string, and it is unaffected.
- Reminders.Bucket: a bucket is keyed by its reminder minute as an integer
  rather than by its `"%H%M"` text. A kept reminder always falls on today, so
  the two keys determine each other.
- Clock.ParseClock: `strptime` also accepts non-ASCII decimal digits; the
  model accepts ASCII digits only.
- Display.ShiftedNow: Python's `int` also accepts signs, surrounding
  whitespace and underscores after the direction character; the model
  accepts decimal digits only. An offset so large that date arithmetic
  overflows is not modelled either; the code ignores it, the model shifts.
- Timeline.EndTime: a duration so large that date arithmetic overflows is not
  modelled; the model wraps it like any other.
- Scheduler.Restore: the configuration's key order is an input, `groups`,
  which must list every configured group exactly once.
- Catalog.LoadActivities: the activity file is modelled as already typed
  (`RawActivity`). A float `duration_minutes` such as `1.5`, which `timedelta`
  accepts and which gives an end with seconds, is outside the model. So are a
  missing key or a field of the wrong type, which abort the whole load, and a
  `days` given as one string, which `in` would test by substring.
- Logging throughout.
