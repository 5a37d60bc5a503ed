# Toxicology on-call scheduler: a Dafny model of the assignment engine

The toxicology on-call scheduler fills one month of on-call days for a roster of
first-year and second-year toxicology fellows. When "Generate Schedule" is pressed
it does the following:

- It refuses a roster that lacks either tier.
- It splits the month's days into a weekday pool (Monday to Friday) and a weekend pool (Saturday and Sunday).
- It computes a per-fellow quota for each pool:
  - weekdays: the floor share for second-year fellows and one more for first-year fellows;
  - weekends: the floor share for everybody, plus one for each fellow a random sample draws to absorb the remainder.
- It runs the randomized greedy assigner `assign_shifts` over each pool. The assigner walks the pool's dates in shuffled order and reshuffles the fellows for each date. Each date goes to the first fellow who is not blacked out that day and is still under quota. A date nobody can take is dropped.
- It concatenates the two schedules and sorts them by date.
- It reports who covers the clinic date and, per fellow, the total and weekend shift counts.

A fellow is blacked out by an emergency-medicine (EM) shift that starts before 23:00, or by an off-day request. The program ships in two variants that differ only in how these are entered:
- one takes single EM shift dates and single off-days;
- the other takes inclusive date ranges.

The model is functional:
- Dates are day ordinals (`int`) and fellows are strings.
- Tables are `map<Fellow, nat>`, read like `defaultdict(int)`.
- The run's random choices are an explicit `Randomness` input, so every theorem holds for every outcome of the shuffles and the sample. That input has three parts:
  - the shuffled walk of the weekday pool, one fellow order per date;
  - the fellows `random.sample` draws for the weekend remainder;
  - the shuffled walk of the weekend pool, one fellow order per date.

Modules:
- `Seqs`: distinctness.
- `Calendar`: dates, the month and the pools.
- `Roster`: fellows and tables.
- `Quotas`.
- `Blackout`.
- `Schedule`: entries and counts.
- `Assigner`: `assign_shifts`, both as a recursive walk and as the source's two nested loops.
- `Report`: sorting, summary, clinic lookup.
- `Scheduler`: one whole run, `Generate`, and the theorems about it.

## Model

| member | source | states |
|---|---|---|
| Calendar.DateRange | toxicology_scheduler_with_date_ranges.py:70-71 | the month's days from the first to the last, ascending, one per day and none when the ends are reversed |
| Calendar.DateRangeMembers | toxicology_scheduler_with_date_ranges.py:70-71 | a day is in the range exactly when it lies between the ends inclusive, and no day repeats |
| Calendar.PoolDays | toxicology_scheduler_with_date_ranges.py:72-73 | a day is in a pool exactly when it is a day of the month on that pool's side of `weekday() >= 5` |
| Calendar.WeekendDays | toxicology_scheduler_with_date_ranges.py:72 | the weekend pool holds exactly the month's days whose weekday is Saturday or Sunday (`weekday() >= 5`) |
| Calendar.WeekdayDays | toxicology_scheduler_with_date_ranges.py:73 | the weekday pool holds exactly the month's days whose weekday is Monday to Friday (`weekday() < 5`) |
| Calendar.PartitionIsExact | toxicology_scheduler_with_date_ranges.py:72-73 | the weekend and weekday pools are disjoint and together are a permutation of the month's days |
| Calendar.PoolDaysDistinct | toxicology_scheduler_all_inputs_inline.py:64-67 | a pool of a month without repeated days has no repeated days |
| Roster.Bump | toxicology_scheduler_with_date_ranges.py:90 | `count[f] += 1` raises `f`'s entry by one, adds `f` as a key and changes no other fellow |
| Roster.TallyBump | toxicology_scheduler_with_date_ranges.py:111 | over a distinct roster, bumping a fellow raises the tally by one if the fellow is on the roster and leaves it unchanged otherwise |
| Quotas.FloorShare | toxicology_scheduler_with_date_ranges.py:98 | `total // N` is the floor share: `N` such shares fit in the pool, `N` larger ones do not, and the remainder makes up the difference |
| Quotas.WeekdayQuotas | toxicology_scheduler_with_date_ranges.py:94-102 | the weekday table has exactly the roster's names as keys; a second-year name gets the floor share; a first-year-only name gets one more; a name in both tiers keeps the second-year value, as the dict merge does |
| Quotas.FirstYearGetsOneMore | toxicology_scheduler_all_inputs_inline.py:88-96 | any first-year fellow's weekday quota is exactly one more than any second-year fellow's, and the latter is the floor share |
| Quotas.WeekdayQuotaSum | toxicology_scheduler_with_date_ranges.py:94-102 | over distinct names the weekday quotas add up to `N` floor shares plus the number of first-year fellows; this lies between pool − second-year count (exclusive) and pool + first-year count, so the weekday total is not reconciled with the pool |
| Quotas.AddBonus | toxicology_scheduler_with_date_ranges.py:110-111 | adding the sample's bonuses keeps the keys and raises each fellow's quota by the number of times the sample names the fellow |
| Quotas.EvenShares | toxicology_scheduler_with_date_ranges.py:109 | every roster name, and no other, gets the same base quota |
| Quotas.WeekendQuotas | toxicology_scheduler_with_date_ranges.py:107-111 | the weekend table has exactly the roster's names as keys, and each fellow gets the floor share plus one per time the sample draws them |
| Quotas.WeekendQuotaTwoValues | toxicology_scheduler_with_date_ranges.py:107-111 | with a sample without repeats, each weekend quota is the floor share, plus one exactly when the fellow was sampled |
| Quotas.WeekendQuotaSum | toxicology_scheduler_all_inputs_inline.py:101-105 | over distinct names with a sample of `total % N` roster fellows, the weekend quotas add up to exactly the number of weekend days |
| Quotas.BonusTally | toxicology_scheduler_with_date_ranges.py:110-111 | over a distinct roster, every sampled name adds exactly one to the tally of the quotas |
| Blackout.Blocked | toxicology_scheduler_with_date_ranges.py:86-87 | the assigner's blackout test: a fellow is unavailable on a day in the fellow's EM set or off-day set, and a fellow with no dictionary entry is available |
| Blackout.RangeDays | toxicology_scheduler_with_date_ranges.py:47 | `pd.date_range(start, end)` holds exactly the days from start to end inclusive |
| Blackout.EmShiftDays | toxicology_scheduler_all_inputs_inline.py:45-46 | a day is in a fellow's EM set exactly when one of the fellow's shifts falls on it and starts before 23:00 |
| Blackout.OffDays | toxicology_scheduler_all_inputs_inline.py:56 | a day is in a fellow's off-day set exactly when the fellow asked for it |
| Blackout.EmRangeDays | toxicology_scheduler_with_date_ranges.py:44-48 | a day is in a fellow's EM set exactly when it lies inside one of the fellow's EM ranges, ends included, whose shifts start before 23:00 |
| Blackout.OffRangeDays | toxicology_scheduler_with_date_ranges.py:59-62 | a day is in a fellow's off-day set exactly when it lies inside one of the fellow's off-day ranges, ends included |
| Blackout.EmMapFromShifts | toxicology_scheduler_all_inputs_inline.py:35-46 | the per-fellow EM dictionary: a day is in a fellow's set exactly when the fellow has an EM shift that day starting before 23:00; a fellow without entries reads as the empty set |
| Blackout.OffMapFromDays | toxicology_scheduler_all_inputs_inline.py:50-56 | the per-fellow off-day dictionary holds exactly the requested days |
| Blackout.EmMapFromRanges | toxicology_scheduler_with_date_ranges.py:33-48 | the per-fellow EM dictionary of the range variant holds exactly the days of the fellow's ranges whose shifts start before 23:00 |
| Blackout.OffMapFromRanges | toxicology_scheduler_with_date_ranges.py:52-62 | the per-fellow off-day dictionary of the range variant holds exactly the days of the fellow's off-day ranges |
| Blackout.BlockedBySingleDates | toxicology_scheduler_all_inputs_inline.py:45-56 | single-date variant: a fellow is blocked on a day exactly when the fellow has an EM shift that day starting before 23:00, or asked for that day off |
| Blackout.BlockedByRanges | toxicology_scheduler_with_date_ranges.py:44-62 | range variant: a fellow is blocked on a day exactly when the day lies in an EM range starting before 23:00 or in an off-day range, ends included |
| Blackout.SingleShiftIsOneDayRange | toxicology_scheduler_with_date_ranges.py:44-48 | the single-date EM variant blocks the same days as the range variant given one-day ranges |
| Schedule.FellowCountPositive | toxicology_scheduler_with_date_ranges.py:131-134 | a fellow's shift count is positive exactly when some entry names the fellow |
| Assigner.Eligible | toxicology_scheduler_with_date_ranges.py:86-88 | the inner loop's test: the fellow is not in the EM set for the date, not in the off-day set, and the running count is below the quota |
| Assigner.FirstEligible | toxicology_scheduler_with_date_ranges.py:85-91 | the scan's stopping point: it is eligible and every position before it is not; no stopping point means nobody from the start on is eligible |
| Assigner.Pick | toxicology_scheduler_with_date_ranges.py:85-91 | no pick exactly when every fellow in the date's order is blocked or at quota; a pick is in the order, has a quota and is eligible |
| Assigner.PickIsFirstEligible | toxicology_scheduler_with_date_ranges.py:84-91 | the pick is the first eligible fellow of the date's order |
| Assigner.Charge | toxicology_scheduler_with_date_ranges.py:90 | the running count grows by one for the picked fellow only and stays put when nobody is picked |
| Assigner.AssignFrom | toxicology_scheduler_with_date_ranges.py:83-91 | from any running counts within quota: no more entries than dates; each entry's date comes from the walk and its fellow has a quota and is not blacked out that day; counts plus entries stay within quota; distinct walk dates give distinct entry dates |
| Assigner.Emit | toxicology_scheduler_with_date_ranges.py:89 | one step's output adds the picked entry, if any, to the rest: one more entry, one more shift for the picked fellow and its date in front |
| Assigner.Place | toxicology_scheduler_all_inputs_inline.py:83 | an appended entry adds exactly that entry, one shift for its fellow and its date |
| Assigner.Assign | toxicology_scheduler_all_inputs_inline.py:72-86 | `assign_shifts`: at most one entry per date; dates come from the pool; nobody is scheduled on a blacked-out day; nobody exceeds quota; distinct pool dates give distinct entry dates |
| Assigner.CountsTrackEntries | toxicology_scheduler_with_date_ranges.py:82-90 | the running count after the walk is the starting count plus the fellow's entries, so it grows only on assignment |
| Assigner.WalkSplits | toxicology_scheduler_with_date_ranges.py:83-91 | walking two stretches of dates one after the other is the first stretch's output followed by the second's from the counts the first leaves |
| Assigner.CountsAfterSplits | toxicology_scheduler_with_date_ranges.py:83-90 | the counts after two stretches are the second stretch's counts started from the first's |
| Assigner.GreedyChoice | toxicology_scheduler_with_date_ranges.py:84-91 | with distinct dates, the date of step `i` is given to `f` exactly when the scan, on the counts left by steps before `i`, picks `f` |
| Assigner.DroppedDate | toxicology_scheduler_all_inputs_inline.py:77-85 | a date is missing from the output exactly when, at its turn, every fellow was blacked out or at quota |
| Assigner.DateOnlyAt | toxicology_scheduler_with_date_ranges.py:83 | in a walk of distinct dates, the date of step `i` occurs in no earlier and no later step |
| Assigner.RoomMeansPick | toxicology_scheduler_with_date_ranges.py:85-91 | when all roster fellows are in the order and free that day and the counts leave room under the quotas, the scan picks someone |
| Assigner.FullCoverage | toxicology_scheduler_with_date_ranges.py:83-91 | with nobody blacked out and quotas with room for every date, the walk assigns every date, in walk order |
| Assigner.AllBlockedAssignsNothing | toxicology_scheduler_with_date_ranges.py:83-91 | when every fellow is blacked out on every date of the walk, the output is empty |
| Assigner.ScanFellows | toxicology_scheduler_with_date_ranges.py:85-91 | the inner loop, with its `break`, returns the scan's pick |
| Assigner.AssignShifts | toxicology_scheduler_with_date_ranges.py:78-92 | the two nested loops produce the walk `Assign` describes |
| Assigner.StepOfWalk | toxicology_scheduler_all_inputs_inline.py:77-85 | one iteration of the outer loop: the first date's output, then the rest of the walk from the updated counts |
| Report.Insert | toxicology_scheduler_with_date_ranges.py:116 | inserting adds the entry to the multiset of entries |
| Report.InsertSorted | toxicology_scheduler_with_date_ranges.py:116 | inserting into a date-sorted schedule keeps it sorted |
| Report.SortByDate | toxicology_scheduler_with_date_ranges.py:116 | `sort_values(by="Date")` yields a permutation of its input in ascending date order |
| Report.SortDates | toxicology_scheduler_all_inputs_inline.py:110 | sorting keeps the multiset of dates |
| Report.CountPermutation | toxicology_scheduler_with_date_ranges.py:131-134 | counting entries does not depend on their order, so the sorted table's counts are the merged schedule's |
| Report.Summary | toxicology_scheduler_with_date_ranges.py:130-134 | the `groupby("Fellow")` summary has a row exactly for the fellows with at least one shift; each row's total is the fellow's shift count and its weekend figure the fellow's weekend shifts; fellows without a row have no shifts |
| Report.Loads | toxicology_scheduler_with_date_ranges.py:131-133 | each fellow's number of entries, gathered entry by entry; the reference count the summary is checked against |
| Report.SummaryTotalsAddUp | toxicology_scheduler_all_inputs_inline.py:124-128 | over a distinct roster naming every scheduled fellow, the summary's totals add up to the schedule's length |
| Report.LoadsAddUp | toxicology_scheduler_all_inputs_inline.py:125-127 | every entry adds one to the roster's tally of the per-fellow counts |
| Report.ClinicCoverage | toxicology_scheduler_with_date_ranges.py:123-128 | the clinic lookup is empty ("No fellow is assigned") exactly when no entry has the clinic date; otherwise it names a fellow with an entry on that date |
| Report.ClinicCoverageUnique | toxicology_scheduler_all_inputs_inline.py:117-122 | when no date repeats, the lookup names `f` exactly when `f` holds the clinic date |
| Report.PublishAsWritten | toxicology_scheduler_with_date_ranges.py:115-116 | post-processing as written fails exactly on an empty merged schedule, and otherwise agrees with the corrected one |
| Report.Publish | toxicology_scheduler_with_date_ranges.py:115-134 | the published rows are a date-sorted permutation of the merged schedule; the summary has one row per fellow with shifts and counts that fellow's shifts and weekend shifts; the clinic cover is missing exactly when no entry has the clinic date |
| Report.PublishedTotalsAddUp | toxicology_scheduler_with_date_ranges.py:130-134 | over a distinct roster naming every scheduled fellow, the published totals add up to the number of published rows |
| Report.EmptyScheduleIsPublished | toxicology_scheduler_all_inputs_inline.py:109-110 | on an empty schedule the as-written post-processing fails, while the corrected one publishes no rows, no summary and no clinic cover |
| Scheduler.IsShuffle | toxicology_scheduler_with_date_ranges.py:80-84 | the outcomes `random.shuffle` can give: the walk's dates are a permutation of the pool, and each date's fellow order is a permutation of the roster |
| Scheduler.ValidRandomness | toxicology_scheduler_with_date_ranges.py:81-110 | the random choices of one run: both walks are shuffles of their pools over the roster, and the weekend sample takes `remainder` positions of the roster without repetition |
| Scheduler.ShuffleCovers | toxicology_scheduler_with_date_ranges.py:84-88 | a fellow order that is a shuffle of the roster names only fellows with a quota, so `base_shift_dict[fellow]` never misses |
| Scheduler.SampleOnRoster | toxicology_scheduler_with_date_ranges.py:110 | every sampled fellow is a roster fellow |
| Scheduler.Generate | toxicology_scheduler_with_date_ranges.py:65-116 | one run with the corrected post-processing of the Findings row: it fails, with the missing-tier error, exactly when a tier is empty; otherwise both quota tables have exactly the roster's names as keys, and the published rows are a permutation of the weekday schedule followed by the weekend schedule |
| Scheduler.GenerateAsWritten | toxicology_scheduler_with_date_ranges.py:65-116 | one run as written: the missing-tier error exactly when a tier is empty; the empty-schedule error exactly when the tiers are filled but neither pool got a single date; any run it completes is the corrected run |
| Scheduler.RunShape | toxicology_scheduler_with_date_ranges.py:104-116 | the run's weekday and weekend schedules are `assign_shifts` over the respective pool walks and quota tables, and what is published is their concatenation, post-processed |
| Scheduler.PoolDates | toxicology_scheduler_with_date_ranges.py:80-81 | a shuffled pool of the month holds distinct dates, all in the month and on the pool's side of the weekend split |
| Scheduler.PoolWalk | toxicology_scheduler_with_date_ranges.py:78-92 | a walk over a shuffled pool yields a sound pool schedule: every entry falls in the month and on the pool's side; it names a roster fellow who is not blacked out; no date repeats; every fellow stays within quota |
| Scheduler.PoolSchedules | toxicology_scheduler_with_date_ranges.py:104-113 | both pool schedules of a run are sound, each against its own quota table |
| Scheduler.RunIsSafe | toxicology_scheduler_all_inputs_inline.py:77-110 | every published row falls in the month and names a roster fellow who is not blacked out that day; no date is published twice; rows are in date order |
| Scheduler.SummaryWithinQuotas | toxicology_scheduler_with_date_ranges.py:104-134 | every summary row is a roster fellow; weekend shifts are within the weekend quota and at most the total; the remaining shifts are within the weekday quota |
| Scheduler.ClinicIsTheOnCallFellow | toxicology_scheduler_with_date_ranges.py:123-128 | the clinic cover is `f` exactly when `f` holds a row on the clinic date, and it is missing exactly when no row falls on that date |
| Scheduler.SummaryAddsUp | toxicology_scheduler_all_inputs_inline.py:124-128 | over distinct names, the summary's total shifts add up to the number of published rows |
| Scheduler.WeekendQuotasOfRun | toxicology_scheduler_with_date_ranges.py:107-111 | over distinct names, the run's weekend quotas add up to exactly the number of weekend days, and each is the floor share, plus one exactly when sampled |
| Scheduler.SampleDistinct | toxicology_scheduler_with_date_ranges.py:110 | a sample of roster positions names nobody twice when the names are distinct |
| Scheduler.OpenWalk | toxicology_scheduler_with_date_ranges.py:83-91 | with nobody blacked out and quotas that add up to at least the pool, a shuffled pool is assigned in full |
| Scheduler.WeekdayRoom | toxicology_scheduler_with_date_ranges.py:94-102 | the weekday quotas have room for every weekday exactly when the weekday remainder `|weekdays| % N` is at most the number of first-year fellows |
| Scheduler.OpenWeekends | toxicology_scheduler_with_date_ranges.py:107-113 | over distinct names with nobody blacked out, every weekend day of the month is assigned |
| Scheduler.OpenWeekdays | toxicology_scheduler_with_date_ranges.py:94-104 | over distinct names with nobody blacked out, every weekday is assigned exactly when `|weekdays| % N` is at most the number of first-year fellows; otherwise some weekday is dropped |
| Scheduler.FullyBlockedMonthFails | toxicology_scheduler_with_date_ranges.py:115-116 | when every fellow is blacked out all month, both schedules are empty, the as-written post-processing fails and the as-written run stops with the empty-schedule error, while the corrected run publishes no rows and no clinic cover |
| Scheduler.BlockedWalk | toxicology_scheduler_all_inputs_inline.py:77-85 | a walk over days on which every fellow is blacked out assigns nothing |

## Left out

- Streamlit widgets, layout, messages and the page title are not modelled. The model's inputs are what those widgets would hand over: the two tiers, the month's first and last day, the clinic date, the blackout entries and the random choices.
- `calendar.monthrange` and `datetime` are not modelled. A month is given by its first and last day ordinal, and `Calendar.Weekday` is the weekday arithmetic on Python's day ordinal.
- The `Day` column (`strftime('%A')`), the column reordering and the CSV export are presentation only and are left out.
- `random.shuffle` and `random.sample` are not modelled as generators. Their outcomes are the `Randomness` input. `ValidRandomness` admits exactly the outcomes they can produce:
  - date walks that are permutations of the pool;
  - fellow orders that are permutations of the roster;
  - a sample of `remainder` roster positions.
- The in-place shuffle of `all_fellows` is not modelled as shared state. It makes each date's order a permutation of the roster, which is what each `Draw.order` is, and it changes nothing else the engine reads.
- Scheduler.Generate: publishes an empty schedule where the program as written raises on sorting an empty table (see Findings). The as-written run is Scheduler.GenerateAsWritten, which agrees with Scheduler.Generate on every run that assigns at least one date.
- Report.Summary: returns a map, so the order of the summary's rows (pandas sorts them by fellow name) is not modelled.
- Report.SortByDate: the tie order among entries with the same date is not pinned down. This loses nothing in a run, where no date repeats (Scheduler.RunIsSafe).
- `assigned_days` is written and never read, so it is left out.
- A date-range widget can return a partially selected one-element tuple, and unpacking that tuple fails. This is widget behaviour, and every range here has both ends.
- Widget keys that collide when two fellows share a name are left out.
- Quotas.WeekdayQuotaSum: requires distinct names. With a repeated name the dict merge collapses keys and the roster tally counts that name twice, so the sum is not the roster's intended total.
- Quotas.WeekendQuotaSum: requires distinct names for the same reason. The weekend quotas are keyed by name, while the tally walks the roster, so a repeated name is counted twice.
- Scheduler.WeekendQuotasOfRun, Scheduler.SummaryAddsUp, Scheduler.OpenWeekends and Scheduler.OpenWeekdays: these also assume distinct names, as the quota sums do.
- `random.sample` draws distinct positions of the roster, so a repeated name can be drawn twice. `ValidRandomness` allows that, and only the distinct-name lemmas rule it out (Scheduler.SampleDistinct).

## Findings

| source | as written | input that shows it | evidently intended | confidence | as-written member | corrected member |
|---|---|---|---|---|---|---|
| toxicology_scheduler_with_date_ranges.py:115-116 | `pd.DataFrame(final_schedule).sort_values(by="Date")` on the merged schedule; when no date was assigned the frame has no `Date` column and the sort raises a key error before anything is shown (same code at toxicology_scheduler_all_inputs_inline.py:109-110) | any roster in which every fellow is blacked out on every day of the month, e.g. each fellow asks for the whole month off | an unfillable date is a silent gap, not an error, so an empty schedule is published as no rows, an empty summary and "No fellow is assigned" for the clinic day | not executed | Report.PublishAsWritten, Scheduler.GenerateAsWritten, Scheduler.FullyBlockedMonthFails | Report.Publish, Scheduler.Generate |
