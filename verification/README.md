# Think evaluation store, modelled in Dafny

This project models the core of a personal self-reflection log. Each entry (an
*evaluation*) is a short text checked against five criteria: true, helpful,
important, necessary and kind. The model covers:

- the **evaluation store** (`hooks/think-store.ts`): a newest-first list of at
  most 100 evaluations, a two-week deletion protection refreshed on load and on
  a periodic tick, guarded single delete, clearing of all deletable records,
  and a day-streak progression record with two unlock tiers (14 and 42 days);
- the **aggregate queries** over that list: overall stats, and the
  keep-to-yourself summary with its recent-versus-older trend;
- the **scoring helpers** (`utils/think-helpers.ts`): criteria count to
  percentage, and the six-band colour and message classifier;
- the **shared records** (`types/think.ts`) and the card's relative-time text
  (`formatDate` in `components/EvaluationCard.tsx`).

Every store operation is a pure transition over
`Store(evaluations, progression)`. Time is an integer number of milliseconds
and is passed in as `now`. A calendar day is the day number
`(t + zone) / 86400000`, where `zone` is a fixed local offset from UTC. The
streak code's own arithmetic (truncate both instants to local midnight, then
floor the difference over 86400000) is modelled literally.
`Progression.DaysBetween` proves that this arithmetic equals the difference of
the day numbers.

`Math.round(a / b)` with `b > 0` is `(2a + b) / (2b)` in Dafny's floor
division, which rounds halves up as JavaScript does. The trend rates are exact
`real` quotients.

Modules and files:

| file | module | source |
|---|---|---|
| think_types.dfy | ThinkTypes | types/think.ts |
| think_helpers.dfy | ThinkHelpers | utils/think-helpers.ts |
| progression.dfy | Progression | hooks/think-store.ts (progression parts) |
| retention.dfy | Retention | hooks/think-store.ts (canDelete refresh) |
| evaluation_store.dfy | EvaluationStore | hooks/think-store.ts (save, clear, delete, tick) |
| store_stats.dfy | StoreStats | hooks/think-store.ts (getStats, getKeepToYourselfStats) |
| elapsed_format.dfy | ElapsedFormat | components/EvaluationCard.tsx (formatDate) |

Behaviour of the code that is easy to misread:

- A record becomes deletable only when it is *more than* 14 days old: the code
  tests `timestamp < now - 14 days`, which is strict.
- A negative day difference, such as a clock moved back, resets the streak to 1.
  It goes through the code's `else` branch and is not a no-op.
- The store does not compute `percentage` or `id`. The caller supplies both,
  and the entry screen computes the percentage from the criteria count
  (`app/(tabs)/index.tsx`, lines 55-56), which `ThinkHelpers.Score` models.
  `saveEvaluation` only overwrites `timestamp` and `canDelete`.
- `deleteEvaluation` checks only the *first* record with the given id. If that
  record is deletable, it removes *every* record with that id.
  `DuplicateIdRemovesProtected` shows that a protected duplicate goes too.
  `DeleteKeepsProtected` shows that with unique ids no protected record is ever
  removed.
- A stored progression record is trusted as loaded, flags included.
  `LoadedFlagsNotGuaranteed` exhibits such a state. The flag invariant holds for
  the initial state and after every state-changing update, so every session
  that starts from a new installation keeps it (`SessionFromInitialIsValid`).
- `saveEvaluation` returns nothing. The model's `Save` returns the new store.

## Model

| member | source | states |
|---|---|---|
| ThinkTypes.CountTrue | types/think.ts:1-7 | the number of set flags is at most the number of flags; it is 0 exactly when none is set and the full length exactly when all are set |
| ThinkTypes.CountTrueIsMultiplicity | types/think.ts:1-7 | the count of set flags is exactly the number of occurrences of `true` in the list |
| ThinkTypes.CountTrueOfFive | types/think.ts:1-7 | counting a five-flag list gives the sum of the five flags taken as 0 or 1 |
| ThinkTypes.SatisfiedCount | types/think.ts:1-7 | the satisfied count is the number of the five flags (true, helpful, important, necessary, kind) that are set, so it is in 0..5; it is 0 iff no criterion holds and 5 iff all hold |
| ThinkTypes.CriteriaTablesComplete | types/think.ts:32-46 | the label table and the description table each have exactly one entry per criterion key, five keys in all |
| ThinkTypes.CriteriaLabelsDistinct | types/think.ts:32-38 | no two criterion keys share a display label |
| ThinkTypes.CriteriaDescriptionsDistinct | types/think.ts:40-46 | no two criterion keys share a description |
| ThinkHelpers.BandOf | utils/think-helpers.ts:1-17 | first-match-wins guards: perfect only at exactly 100, "good" for >= 80 other than 100 (so inputs above 100 fall there), then [60,80), [40,60), [20,40), and below 20 |
| ThinkHelpers.PercentageColor | utils/think-helpers.ts:1-8 | the colour returned is the colour of the band the percentage falls in |
| ThinkHelpers.PercentageMessage | utils/think-helpers.ts:10-17 | the message returned is the message of the band the percentage falls in |
| ThinkHelpers.ColorAndMessageAgree | utils/think-helpers.ts:1-17 | two percentages get the same colour iff they fall in the same band iff they get the same message: the six colours and the six messages are pairwise distinct |
| ThinkHelpers.BandMonotoneUpTo100 | utils/think-helpers.ts:1-17 | up to 100 a larger percentage never falls in a lower band |
| ThinkHelpers.AboveHundredIsGood | utils/think-helpers.ts:10-12 | any percentage above 100 falls in the "Good to say" band, below the perfect band |
| ThinkHelpers.CalculatePercentage | utils/think-helpers.ts:19-21 | the integer result equals the exact rational `(count / 5) * 100` |
| ThinkHelpers.CalculatePercentageSteps | utils/think-helpers.ts:19-21 | strictly increasing in the count, 20 points per satisfied criterion |
| ThinkHelpers.CountBands | utils/think-helpers.ts:1-21 | each count 0..5 lands in its own band, rank equal to the count: 0 gives "Keep it to yourself" and 5 gives "Perfect! Say it with confidence" |
| ThinkHelpers.Score | utils/think-helpers.ts:19-21 | the entry screen's percentage is 20 per satisfied criterion, so it lies in [0,100], is 100 iff every criterion holds and 0 iff none does, and its band rank is the satisfied count |
| Progression.LocalMidnight | hooks/think-store.ts:77-79 | the local midnight built for an instant is at most that instant, less than a day before it, on the same local day, and is itself a local midnight: its local time is a whole number of days |
| Progression.DaysBetween | hooks/think-store.ts:87 | the floored difference of the two local midnights in days is exactly the difference of the two local day numbers |
| Progression.Initial | hooks/think-store.ts:61-67 | the initial record has streak 0, no last activity, start date now, and flags consistent with the streak |
| Progression.LoadProgression | hooks/think-store.ts:49-70 | a stored record is used as it is, flags included; without one the initial record is used |
| Progression.UpdateProgression | hooks/think-store.ts:76-107 | same local day as the last activity: the whole record is unchanged; no last activity: streak 1; next day: streak + 1; any other difference (gap or negative): streak 1; after every state-changing update the flags match the streak (>= 14, >= 42), the last activity is the new time and the start date is kept |
| Progression.Advance | hooks/think-store.ts:101-107 | the record after a state-changing activity has the new streak length, the activity as its last activity, the old start date, and unlock flags that match the streak (>= 14, >= 42) |
| Progression.UpdateKeepsFlagsConsistent | hooks/think-store.ts:101-107 | consistent unlock flags stay consistent across any update |
| Progression.SameDayIdempotent | hooks/think-store.ts:89-91 | a second activity on the same local day as the previous one changes nothing |
| Progression.DailyRunStreak | hooks/think-store.ts:92-107 | from a new installation, activity on n consecutive local days gives streak n, with the first tier unlocked iff n >= 14 and the second iff n >= 42 |
| Progression.StreakAtMostActivities | hooks/think-store.ts:76-107 | from a new installation, the streak never exceeds the number of activities, the flags stay consistent and the start date never changes |
| Progression.StreakScenario | hooks/think-store.ts:83-99 | days 1, 2 give streaks 1, 2; skipping day 3 and returning on day 4 resets to 1; a later activity dated a day earlier also resets to 1 |
| Progression.ResetRelocks | hooks/think-store.ts:95-106 | a gap of two or more days leaves both tiers locked, since both flags are recomputed rather than accumulated |
| Progression.LoadedFlagsNotGuaranteed | hooks/think-store.ts:54-58 | a stored record whose flags disagree with its streak is loaded unchanged |
| Retention.Refresh | hooks/think-store.ts:227-233 | same length and order; every field but `canDelete` is unchanged; `canDelete` holds iff the record is strictly more than 14 days old |
| Retention.LoadEvaluations | hooks/think-store.ts:25-41 | nothing stored gives an empty list; a stored list keeps its records' content and gets `canDelete` recomputed against the load time |
| Retention.RefreshOverrides | hooks/think-store.ts:30-38 | flags carried by a list never matter: refreshing a refreshed list equals one refresh at the second time |
| Retention.RefreshMonotone | hooks/think-store.ts:227-233 | for a fixed list, a record deletable at one time is deletable at every later time |
| Retention.ProtectionBoundary | hooks/think-store.ts:31-38 | a record exactly 14 days old is still protected, and one millisecond later it is deletable |
| EvaluationStore.Load | hooks/think-store.ts:20-67 | nothing stored gives an empty list; a stored list keeps length, order and content, each record deletable iff more than 14 days old at load time; a stored progression record is kept as it is, otherwise the streak is 0, there is no last activity, the start is now and the flags are consistent |
| EvaluationStore.LoadNothingIsInitial | hooks/think-store.ts:59-67 | loading with nothing stored yields the new-installation state |
| EvaluationStore.Stamp | hooks/think-store.ts:119-124 | the stored record keeps the caller's id, text, criteria and percentage, with timestamp now and not deletable |
| EvaluationStore.Save | hooks/think-store.ts:118-130 | new length min(100, old + 1); the stamped record is at index 0; the older records follow unchanged and in order; the progression gets the streak update for now |
| EvaluationStore.SaveDropsOnlyAtCap | hooks/think-store.ts:126 | below 100 records nothing is dropped; at 100 exactly the oldest record is dropped, whether it is protected or not |
| EvaluationStore.SaveAllKeepsNewest | hooks/think-store.ts:118-127 | after any sequence of saves, the list is the saved records newest first followed by the earlier list, cut at 100 |
| EvaluationStore.Protected | hooks/think-store.ts:141 | the filter is no longer than its input; it keeps every non-deletable record as often as it occurs and drops every deletable one |
| EvaluationStore.ProtectedAppend | hooks/think-store.ts:141 | the filter distributes over concatenation, so relative order is preserved |
| EvaluationStore.ClearHistory | hooks/think-store.ts:139-148 | with nothing deletable the store is unchanged; in every case the list becomes exactly the order-preserving filter of protected records, each kept with its multiplicity; progression untouched |
| EvaluationStore.FirstWithId | hooks/think-store.ts:157 | absent iff no record has the id; otherwise the index of a record with the id and no earlier one |
| EvaluationStore.WithoutId | hooks/think-store.ts:163 | filtering out an id is no longer than its input; it drops exactly the records with that id and keeps the others with their multiplicity |
| EvaluationStore.WithoutIdAppend | hooks/think-store.ts:163 | filtering out an id distributes over concatenation, so relative order is preserved |
| EvaluationStore.DeleteEvaluation | hooks/think-store.ts:156-164 | an id nobody has leaves the store unchanged; no record is ever added; records with other ids are kept with their multiplicity; progression untouched |
| EvaluationStore.DeleteGuard | hooks/think-store.ts:157-163 | if the first record with the id is protected the delete is a no-op; otherwise the list becomes the filter of records without that id |
| EvaluationStore.DeleteKeepsProtected | hooks/think-store.ts:156-164 | with unique ids, no protected record is removed and at most one record goes |
| EvaluationStore.DuplicateIdRemovesProtected | hooks/think-store.ts:157-163 | a deletable record followed by a protected one with the same id: deleting that id removes both |
| EvaluationStore.Tick | hooks/think-store.ts:225-234 | the periodic refresh keeps length, order, content and progression, and recomputes `canDelete` against the tick time |
| EvaluationStore.ApplyKeepsValid | hooks/think-store.ts:118-171 | save, clear, delete and tick each keep the list within 100 and the unlock flags consistent |
| EvaluationStore.SessionFromInitialIsValid | hooks/think-store.ts:10-17 | every sequence of operations from a new installation keeps the list within 100 and the flags consistent |
| StoreStats.RoundDiv | hooks/think-store.ts:182 | the result is the integer nearest to a / b, with halves rounded up |
| StoreStats.RoundDivWithin | hooks/think-store.ts:182-184 | rounding a quotient that lies in [lo, hi] stays in [lo, hi] |
| StoreStats.CountPercentage | hooks/think-store.ts:178 | the count is at most the length; it is 0 iff no record has the value and the length iff all do |
| StoreStats.CountAppend | hooks/think-store.ts:207-208 | counts over two parts add up to the count over the whole |
| StoreStats.Sum | hooks/think-store.ts:177 | the recursive sum of percentages equals the left-to-right `reduce` with an accumulator starting at 0 |
| StoreStats.ReduceShift | hooks/think-store.ts:177 | reducing from any starting accumulator equals that accumulator plus the reduce from 0 |
| StoreStats.SumWithin | hooks/think-store.ts:177 | if every percentage is in [lo, hi], the sum lies between lo·n and hi·n |
| StoreStats.GetStats | hooks/think-store.ts:173-185 | none iff the list is empty; otherwise total = length, average = nearest integer to sum / total, perfectCount = number of 100% records <= total, perfectRate = nearest integer to 100 * perfectCount / total, in [0,100], 100 when all are perfect and 0 when none is |
| StoreStats.AverageWithin | hooks/think-store.ts:177-182 | the rounded average lies in any range [lo, hi] holding every percentage, so in [0,100] for valid percentages |
| StoreStats.ZeroRate | hooks/think-store.ts:210-211 | for a non-empty part the rate is the number of 0% records divided by the part's length; in [0,1]; 0 iff the part has no 0% record (or is empty); 1 iff the part is non-empty and all 0% |
| StoreStats.Ratio | hooks/think-store.ts:210-211 | the quotient of a count by a positive total it does not exceed lies in [0,1], is 0 iff the count is 0, 1 iff the count is the total, and multiplied by the total gives back the count |
| StoreStats.ClassifyTrend | hooks/think-store.ts:213-215 | improving iff the rate fell by more than 0.1, declining iff it rose by more than 0.1, stable iff it moved by at most 0.1 |
| StoreStats.TrendAntisymmetric | hooks/think-store.ts:213-215 | swapping the two rates swaps improving and declining and keeps stable |
| StoreStats.GetKeepToYourselfStats | hooks/think-store.ts:188-221 | the empty list gives (0, 100, stable); the total is the number of 0% records; the score is the nearest integer to 100·(n − zeros)/n, in [0,100], 100 with no 0% record and 0 when all are; the trend compares the first floor(n/2) records with the rest |
| StoreStats.KeepSplitsAtMidpoint | hooks/think-store.ts:203-208 | the total of 0% records is the recent half's count plus the older half's |
| StoreStats.RecentZerosDecline | hooks/think-store.ts:203-215 | newest half all 0% and older half none 0%: declining |
| StoreStats.OlderZerosImprove | hooks/think-store.ts:203-215 | newest half none 0% and older half all 0%: improving |
| StoreStats.SingleZeroReadsImproving | hooks/think-store.ts:203-214 | a single 0% record reads (1, 0, improving), because the empty recent half has rate 0 |
| StoreStats.AllZerosStable | hooks/think-store.ts:200-215 | two or more records, all 0%: (n, 0, stable) |
| ElapsedFormat.ElapsedOf | components/EvaluationCard.tsx:14-27 | minutes iff less than an hour elapsed, hours iff one hour up to a day, days from a day on; the count is the whole number of units elapsed; minutes are in 0..59 for a non-negative time, hours in 1..23, days at least 1 |
| ElapsedFormat.FloorOfFloor | components/EvaluationCard.tsx:17-25 | flooring by hours, then by 24, equals flooring by days |
| ElapsedFormat.NatToString | components/EvaluationCard.tsx:21-26 | the numeral of a count is non-empty, all decimal digits, starts with '0' only for 0, and 0 prints as "0" |
| ElapsedFormat.IntToString | components/EvaluationCard.tsx:21-26 | the numeral of an integer is non-empty, has no space, and starts with a minus sign exactly when the integer is negative |
| ElapsedFormat.NatToStringRoundTrip | components/EvaluationCard.tsx:21-26 | the printed decimal numeral of a count reads back as that count |
| ElapsedFormat.IntToStringRoundTrip | components/EvaluationCard.tsx:21 | the numeral printed for any integer is digits after an optional minus sign and reads back as that integer |
| ElapsedFormat.NegativeNumeral | components/EvaluationCard.tsx:21 | a negative integer prints as a minus sign followed by the digits of its absolute value |
| ElapsedFormat.Render | components/EvaluationCard.tsx:21-26 | the text ends in " ago" |
| ElapsedFormat.RenderPlural | components/EvaluationCard.tsx:21-26 | the character before " ago" is 's' exactly when the count is not 1 |
| ElapsedFormat.RenderLeadsWithCount | components/EvaluationCard.tsx:21-26 | the numeral is everything before the first space and a space follows it; the total length is the numeral, one space, the unit word, one more for a plural s and four for " ago", so nothing else is inserted |
| ElapsedFormat.FormatDate | components/EvaluationCard.tsx:14-28 | the text ends in " ago" and its unit is plural exactly when the count is not 1 |
| ElapsedFormat.FormatDateReadsBack | components/EvaluationCard.tsx:14-28 | the numeral before the first space reads back as the whole number of elapsed units, and the unit word follows it |
| ElapsedFormat.FormatBoundaries | components/EvaluationCard.tsx:17-26 | just under an hour gives 59 minutes, one hour gives 1 hour, just under a day gives 23 hours, one day gives 1 day, and a future time gives -1 minutes |

## Left out

- Persistence: AsyncStorage reads and writes, JSON encoding, console logging and the try/catch recovery around them are I/O. A failed write never rolls back in-memory state, so the model keeps only the in-memory state. An unreadable stored list leaves the list empty in the code; here that is the "nothing stored" case of `LoadEvaluations`.
- React machinery: the context hook, state setters, callback dependency lists, the `isLoading` flag and the asynchronous ordering between `saveEvaluation` and `updateProgression`. `Save` applies the streak update to the current progression record.
- The 60-second `setInterval` timer itself: only its body is modelled, as `Tick` at a given time.
- Local time zones: a calendar day is taken at a fixed offset from UTC, so daylight-saving changes, which can make a local day 23 or 25 hours long, are not modelled.
- Floating point: the rates and the ±0.1 trend thresholds use exact rationals, and `Math.round` uses exact integer arithmetic. Where a JavaScript double rounds differently at an exact boundary, the two can disagree. `calculatePercentage` of a count above 10 can also differ from `20 * count` (11 gives 220.00000000000003); only 0..5 occur.
- ThinkHelpers.BandOf: the stored `percentage` is a JavaScript number but is modelled as an integer. Every value the entry screen produces (0, 20, …, 100) is an integer, and the band classifier is modelled over integers only.
- Screens, navigation, onboarding, the splash screen, styling, and the rendering components other than `formatDate` are presentation only.
- Record fields beyond the six declared ones, which the code's object spread would carry along, are not modelled.
