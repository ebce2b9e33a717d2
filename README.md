# Timeslot schedules, modelled in Dafny

This project models the timeslot engine of the TimeSlots library.

Each schedule has two lists of cron rules:
- start rules, whose occurrences are `Begin` events;
- stop rules, whose occurrences are `End` events.

From these events the engine answers four questions:
- which event is the latest at or before an instant, looking back no further than a horizon;
- which event comes next;
- whether an instant is active, which it is when the previous event is a `Begin`;
- which timeslots cover a range. The time-ordered events are cut into slots: a slot opens at a `Begin` and closes at the first `End` after it.

Three engines are modelled:
- `Schedule` (`TimeSlots.Domain/Schedule.cs`), with its value types `Timeslot` and `Event` and the weekday helper `Next`;
- the older `TimeSlotSchedule` (`TimeSlotSchedule.cs`), whose operations are proved to agree with the newer engine;
- the run-time utility `RunTimeSchedule`. It finds the next run time of a rule list and the distinct run times in a window.

How the system is represented:
- **Instants** are integer ticks since `DateTimeOffset.MinValue`. `MinValue` is 0 and day 0 is a Monday.
- **The cron library (Cronos)** is the `cron` parameter, a value of three functions. `CronSource.Cronos.Valid` states what the schedules rely on: occurrences lie in the requested window, and a next occurrence is not before its starting instant (strictly after it when not inclusive).
- **Exceptions** are `Failure` values of a `Result`.
- **Null** is `None`.
- **LINQ pipelines** become functions.
- **Loops** are methods proved against those functions:
  - the slot-cutting loop of `Timeslots` (`TimeslotSegmentation.Segment`);
  - the slot-cutting loop of the older `Schedule`, which leaves with `break` (`TimeSlotSchedule.CutSlots`).
- **`OrderBy`** is a stable insertion sort.

The tie-breaking is proved, not assumed. Start events come before stop events and the sort is stable, so:
- an `End` wins a tie for the previous event;
- a `Begin` wins a tie for the next event.

Where the code and its evident intent (its own messages and names) disagree, the model follows the code:
- A `Timeslot` whose end equals its beginning is accepted. `Validate` rejects only `To` strictly before `From` (`TimeSlots.Domain/Timeslot.cs:31`), although its message says that `to` has to be after `from` (`TimeSlots.Domain/Timeslot.cs:32`).
- `NextTimeslotEvent` does not skip a rule that has no further occurrence (`TimeSlots.Domain/Schedule.cs:126`). Its `?? default` gives such a rule an event at `MinValue`, before the instant asked about.
- `Timeslots` fails when there is no previous event (`TimeSlots.Domain/Schedule.cs:142-146`), rather than cutting only the range's events.

The last two are listed under "## Findings".

## Model

| member | source | states |
|---|---|---|
| DateTimeExtensions.ComparisonsAreDual | TimeSlots.Domain/Extensions/DateTimeExtensions.cs:9-26 | IsBefore(a,b) iff IsAfter(b,a); IsBeforeOrSame iff not IsAfter; IsAfterOrSame iff not IsBefore; before-or-same is before or equal; before is asymmetric |
| DateTimeExtensions.DaysToAdd | TimeSlots.Domain/Extensions/DateTimeExtensions.cs:42-44 | the day delta is 0..7 and lands on the target weekday; on the same weekday it is 0 exactly when now's time of day is not past the target; on another weekday it is 1..6 |
| DateTimeExtensions.Next | TimeSlots.Domain/Extensions/DateTimeExtensions.cs:35-50 | for a time of day in [0, 24h) the result is on the requested weekday, at the requested time of day (now's own when the argument is zero), at or after now and less than a week later |
| DateTimeExtensions.NextIsEarliestMatch | TimeSlots.Domain/Extensions/DateTimeExtensions.cs:35-50 | for a time of day in [0, 24h) the result falls on the requested weekday at the requested time of day (now's own when the argument is zero), is at or after now and less than a week later, and no earlier instant at or after now matches |
| DateTimeExtensions.NextLaterToday | TimeSlots.Domain/Extensions/DateTimeExtensions.cs:42-43 | on the target weekday before or at the target time the result is today at that time, and is now itself when the times match |
| DateTimeExtensions.NextNextWeek | TimeSlots.Domain/Extensions/DateTimeExtensions.cs:42-43 | on the target weekday past the target time the result is exactly one week later at the target time |
| DateTimeExtensions.NextWithFullDay | TimeSlots.Domain/Extensions/DateTimeExtensions.cs:35-50 | a time of day of 24 hours runs into the next day: the result is at midnight of the weekday after the requested one |
| CronSource.SplitLength | TimeSlots.Domain/Schedule.cs:169-170 | splitting a rule on spaces gives one more field than the rule has spaces |
| CronSource.JoinSplit | TimeSlots.Domain/Schedule.cs:169-170 | joining the split fields with spaces gives the rule back, and no field holds a space |
| CronSource.DeduceCronFormat | TimeSlots.Domain/Schedule.cs:169-170 | a rule is read with seconds exactly when it has five spaces (six fields), in standard format otherwise |
| CronSource.ParseCronExpression | TimeSlots.Domain/Schedule.cs:93-95 | parsing succeeds exactly when the library accepts the rule in its deduced format, keeps the rule's text, and fails with CronFormatException otherwise |
| CronSource.OccurrencesOf | TimeSlots.Domain/Schedule.cs:91-106 | the rules' occurrences succeed exactly when every rule parses, else CronFormatException; they hold exactly the instants one of the rules has in [from, to] |
| CronSource.SameRulesSameOccurrences | RunTimeSchedule.cs:53-54 | two rule lists with the same rules, whatever their order and repetitions, parse alike and have the same occurrences, so deduplicating the rules changes neither |
| Events.Tag | TimeSlots.Domain/Schedule.cs:105-107 | each occurrence becomes one event of the given kind at the same position |
| Events.TagContains | TimeSlots.Domain/Schedule.cs:105-107 | an event is among the tagged ones exactly when it has the given kind and its time is one of the occurrences |
| Events.TagConcat | TimeSlotSchedule.cs:125-126 | tagging rule by rule and concatenating equals tagging all the occurrences at once |
| Events.InsertByWhen | TimeSlots.Domain/Schedule.cs:136 | the new event goes after every event not later than it and before the rest, and nothing is lost or added |
| Events.InsertKeepsSorted | TimeSlots.Domain/Schedule.cs:136 | inserting into a time-ordered list keeps it time-ordered |
| Events.OrderByWhen | TimeSlots.Domain/Schedule.cs:136 | the sort's output is in time order and is a permutation of its input |
| Events.OrderByWhenKeepsBeginsFirst | TimeSlots.Domain/Schedule.cs:81-82 | when every Begin of the input precedes every End, the stable sort leaves, at each instant, Ends after Begins |
| Events.OrderByWhenOfSorted | TimeSlots.Domain/Schedule.cs:161-163 | sorting events already in time order changes nothing, so re-sorting the remaining events in the loop is a no-op |
| Events.LastIndexAtOrBefore | TimeSlots.Domain/Schedule.cs:137 | the index found is of an event not later than the instant, and every event after it is later |
| Events.LatestAtOrBefore | TimeSlots.Domain/Schedule.cs:135-137 | after sorting, the last event at or before the instant is an input event, is the latest such, is absent exactly when all events are later, and is a Begin only when no End shares its time |
| Events.LatestIsBeginIffUnclosed | TimeSlots.Domain/Schedule.cs:53-56 | that last event is a Begin exactly when some Begin at or before the instant has no End at or after it up to the instant |
| Events.EarliestFirst | TimeSlots.Domain/Schedule.cs:117-120 | after sorting, the first event is an input event no later than any other, is absent exactly for no input, and is an End only when no Begin shares its time |
| TimeslotValues.NewTimeslot | TimeSlots.Domain/Timeslot.cs:12-33 | construction succeeds exactly when a bound is present and `to` is not strictly before `from`, keeps both bounds, and otherwise raises ArgumentException |
| TimeslotValues.NewTimeslotAccepts | TimeSlots.Domain/Timeslot.cs:26-33 | a slot with only a beginning, only an end, or equal ends is accepted; two bounds are accepted exactly when ordered |
| TimeslotValues.ParseBound | TimeSlots.Domain/Timeslot.cs:21-22 | a null or blank text gives no bound; any other text gives the bound ParseExact reads, or its error |
| TimeslotValues.NewTimeslotFromText | TimeSlots.Domain/Timeslot.cs:19-24 | two blank texts raise ArgumentException; a built slot is valid, a bound is absent exactly when its text is blank, and present bounds are what ParseExact read in the given format |
| TimeslotValues.Equals | TimeSlots.Domain/Timeslot.cs:40-46 | equal exactly when the other object is a slot with the same bounds; null is never equal |
| TimeslotValues.EqualsIsEquivalence | TimeSlots.Domain/Timeslot.cs:40-46 | Equals is reflexive, symmetric and transitive, and false against null |
| TimeslotValues.Wrap | TimeSlots.Domain/Timeslot.cs:37 | unchecked 32-bit arithmetic: the result is in the signed range and congruent to the exact value modulo 2^32 |
| TimeslotValues.GetHashCode | TimeSlots.Domain/Timeslot.cs:35-38 | the hash is the beginning's hash plus twice the end's (0 for an absent bound), modulo 2^32 |
| TimeslotValues.EqualSlotsHashEqually | TimeSlots.Domain/Timeslot.cs:35-46 | Equal slots have equal hash codes; a slot without an end hashes as its beginning |
| TimeslotSegmentation.FirstBeginFrom | TimeSlots.Domain/Schedule.cs:153-155 | finds the first Begin among the remaining events, every event before it being an End; none when only Ends remain |
| TimeslotSegmentation.FirstEndAfterFrom | TimeSlots.Domain/Schedule.cs:156 | finds the first End strictly after the slot's start, no earlier remaining event qualifying; none when there is no such End |
| TimeslotSegmentation.SkipThrough | TimeSlots.Domain/Schedule.cs:161-163 | drops exactly the leading events not later than the slot's end, or every event when the slot is open |
| TimeslotSegmentation.SlotsComeFromEvents | TimeSlots.Domain/Schedule.cs:153-164 | each slot opens at a Begin of the events and, when closed, closes later at an End of the events |
| TimeslotSegmentation.SegmentationIsWellFormed | TimeSlots.Domain/Schedule.cs:153-164 | every slot has a beginning, ends strictly after it when it ends, and every slot but the last is closed and ends strictly before the next begins |
| TimeslotSegmentation.WellFormedSlotsAreOrdered | TimeSlots.Domain/Schedule.cs:153-164 | in such a list any slot ends strictly before any later slot begins: the slots are ascending and disjoint |
| TimeslotSegmentation.EveryBeginIsCovered | TimeSlots.Domain/Schedule.cs:153-164 | every Begin among the events lies in some slot, both ends included |
| TimeslotSegmentation.NoEndInsideSlot | TimeSlots.Domain/Schedule.cs:156-162 | no End among the events lies strictly inside a slot |
| TimeslotSegmentation.SegmentationOfEvents | TimeSlots.Domain/Schedule.cs:144-164 | cutting any events after sorting them gives well-formed slots, every Begin covered and no End strictly inside a slot |
| TimeslotSegmentation.FirstSlotOpensByBegin | TimeSlots.Domain/Schedule.cs:153-158 | when the events hold a Begin, the first slot exists and opens no later than it |
| TimeslotSegmentation.Segment | TimeSlots.Domain/Schedule.cs:148-166 | the loop's slots are the segmentation of the sorted events, and they are well formed |
| ScheduleEngine.NewSchedule | TimeSlots.Domain/Schedule.cs:40-43 | null options raise ArgumentNullException; otherwise the schedule keeps them |
| ScheduleEngine.IsScheduleInitialised | TimeSlots.Domain/Schedule.cs:59-71 | initialised exactly when both rule lists hold a rule; a null list counts as an empty one |
| ScheduleEngine.CalculateEvents | TimeSlots.Domain/Schedule.cs:85-108 | succeeds exactly when every rule parses, else CronFormatException; the events are exactly the rules' occurrences in [from, to], all of the given kind |
| ScheduleEngine.TimeslotEvents | TimeSlots.Domain/Schedule.cs:76-83 | an uninitialised schedule gives no events without parsing; otherwise success exactly when all rules parse, else CronFormatException; every Begin comes before every End |
| ScheduleEngine.TimeslotEventsAreGenerated | TimeSlots.Domain/Schedule.cs:76-108 | an event is listed exactly when the schedule is initialised and it is a start-rule occurrence tagged Begin or a stop-rule occurrence tagged End |
| ScheduleEngine.TimeslotEventsWithinWindow | TimeSlots.Domain/Schedule.cs:97-102 | every event lies in [from, to], both ends included |
| ScheduleEngine.TimeslotEventsAround | TimeSlots.Domain/Schedule.cs:73-74 | an event is listed exactly when a start or stop rule generates it in [at - backward, at + forward]; with TimeslotEventsWithinWindow every listed event lies in that window |
| ScheduleEngine.PreviousTimeslotEvent | TimeSlots.Domain/Schedule.cs:131-138 | no event for an uninitialised schedule; fails, with CronFormatException, exactly when an initialised schedule has a rule that does not parse; the event found is not later than the instant |
| ScheduleEngine.PreviousTimeslotEventIsLatest | TimeSlots.Domain/Schedule.cs:131-138 | fails only on a rule that does not parse; absent exactly when the lookback window holds no event; otherwise a window event, within [at - horizon, at], the latest one, and an End when a Begin and an End tie |
| ScheduleEngine.ActiveOnIffUnclosedBegin | TimeSlots.Domain/Schedule.cs:48-57 | false without parsing for an uninitialised schedule; otherwise true exactly when the lookback window holds a Begin at or before the instant with no End at or after it up to the instant |
| ScheduleEngine.ActiveOn | TimeSlots.Domain/Schedule.cs:48-57 | false for an uninitialised schedule; fails, with CronFormatException, exactly when an initialised schedule has a rule that does not parse; true only when the previous event exists and is a Begin |
| ScheduleEngine.ActiveOnWeekly | TimeSlots.Domain/Schedule.cs:46 | for a time of day in [0, 24h) the answer is ActiveOn at the first instant from now on that weekday at that time of day (now's own when it is zero); that instant is less than a week away |
| ScheduleEngine.NextTimeslotEvent | TimeSlots.Domain/Schedule.cs:112-121 | a null rule list raises ArgumentNullException; otherwise it fails, with CronFormatException, exactly when a rule does not parse; there is no next event exactly when both lists are empty |
| ScheduleEngine.CalculateNextEvents | TimeSlots.Domain/Schedule.cs:123-127 | one event per rule, in order, at the rule's inclusive next occurrence or MinValue; CronFormatException when a rule does not parse |
| ScheduleEngine.NextEventsAreCandidates | TimeSlots.Domain/Schedule.cs:114-118 | the combined next events put Begins before Ends and are exactly the per-rule candidates |
| ScheduleEngine.NextTimeslotEventIsEarliest | TimeSlots.Domain/Schedule.cs:112-121 | a null rule list raises ArgumentNullException, a bad rule CronFormatException; absent exactly when both lists are empty; otherwise the earliest candidate, a Begin when a Begin and an End tie |
| ScheduleEngine.ExhaustedRuleGivesMinValue | TimeSlots.Domain/Schedule.cs:126 | as written, one exhausted start rule makes the next event fall at MinValue, before the instant asked about |
| ScheduleEngine.PresentNextEvents | TimeSlots.Domain/Schedule.cs:123-127 | corrected: the events are exactly the real next occurrences of the rules, exhausted rules contributing none |
| ScheduleEngine.PresentNextEventsAreReal | TimeSlots.Domain/Schedule.cs:114-118 | corrected: the combined events put Begins first, are exactly the real next occurrences and are none before the instant |
| ScheduleEngine.NextSkippingExhaustedIsEarliest | TimeSlots.Domain/Schedule.cs:112-127 | corrected: the same errors; the next event is absent exactly when every rule is exhausted, otherwise the earliest real next occurrence, not before the instant, a Begin winning ties |
| ScheduleEngine.Timeslots | TimeSlots.Domain/Schedule.cs:140-167 | the method returns the as-written result: previous-event errors, then range errors, then NullReferenceException for a missing previous event, otherwise the well-formed segmentation of the sorted events |
| ScheduleEngine.TimeslotsSeeEveryEvent | TimeSlots.Domain/Schedule.cs:142-146 | Timeslots succeeds exactly when a previous event exists; a missing one gives NullReferenceException and a failing lookup CronFormatException |
| ScheduleEngine.TimeslotsCoverBegins | TimeSlots.Domain/Schedule.cs:140-167 | the slots are well formed; every Begin of the range, and the previous event when it is a Begin, lies in a slot; no End of the range lies strictly inside a slot |
| ScheduleEngine.ActiveScheduleCarriesOver | TimeSlots.Domain/Schedule.cs:142-158 | when the schedule is active at `from`, Timeslots succeeds and its first slot begins at or before `from` |
| ScheduleEngine.UninitialisedTimeslotsFail | TimeSlots.Domain/Schedule.cs:142-146 | as written, Timeslots of an uninitialised schedule raises NullReferenceException |
| ScheduleEngine.TimeslotsAsIntended | TimeSlots.Domain/Schedule.cs:140-167 | corrected: the loop over the events, with the previous event only when there is one, gives well-formed slots |
| ScheduleEngine.TimeslotsAsIntendedAgrees | TimeSlots.Domain/Schedule.cs:140-167 | corrected: fails only on a rule that does not parse, gives no slots for an uninitialised schedule, and agrees with the code whenever the code succeeds |
| TimeSlotSchedule.MaxTimeForPreviousTimeSlotEvent | TimeSlotSchedule.cs:34-35 | the horizon is the minutes in ticks; the default 5760 minutes is four days, the newer engine's default |
| TimeSlotSchedule.NewTimeSlotSchedule | TimeSlotSchedule.cs:42-45 | null options raise ArgumentNullException; otherwise the schedule keeps them |
| TimeSlotSchedule.IsScheduleInitialised | TimeSlotSchedule.cs:68-80 | initialised exactly when the newer engine with the same rules is |
| TimeSlotSchedule.SelectManyTagged | TimeSlotSchedule.cs:96-126 | tagging each rule's occurrences inside the selector gives the same events and errors as the newer engine's CalculateEvents |
| TimeSlotSchedule.TimeSlotEvents | TimeSlotSchedule.cs:87-127 | the same events, in the same order, and the same errors as the newer engine |
| TimeSlotSchedule.TimeSlotEventsAround | TimeSlotSchedule.cs:82-85 | the same as the newer engine's events around an instant |
| TimeSlotSchedule.ParseAll | TimeSlotSchedule.cs:136-137 | the rules are parsed in order and the first rule that fails to parse raises CronFormatException; success exactly when every rule parses, with one expression per rule in order |
| TimeSlotSchedule.NextEventsOf | TimeSlotSchedule.cs:139-140 | one event per expression, at its inclusive next occurrence or MinValue |
| TimeSlotSchedule.NextTimeSlotEvent | TimeSlotSchedule.cs:134-146 | the same next event and the same errors as the newer engine |
| TimeSlotSchedule.PreviousTimeSlotEvent | TimeSlotSchedule.cs:153-158 | the same previous event as the newer engine with the horizon in ticks |
| TimeSlotSchedule.ActiveOn | TimeSlotSchedule.cs:57-66 | the same answer as the newer engine |
| TimeSlotSchedule.ActiveOnWeekly | TimeSlotSchedule.cs:52-55 | the same answer as the newer engine |
| TimeSlotSchedule.NewTimeSlotInstance | TimeSlotSchedule.cs:202-221 | construction fails, with ArgumentException, exactly when `to` is strictly before `from`; it accepts two absent bounds, which is the only case where it accepts and Timeslot refuses |
| TimeSlotSchedule.NewTimeSlotInstanceFromText | TimeSlotSchedule.cs:209-215 | two blank texts give a slot with no bounds; a built slot is ordered, a bound is absent exactly when its text is blank, and present bounds are read in the fixed format |
| TimeSlotSchedule.CutSlots | TimeSlotSchedule.cs:168-191 | the loop that stops with `break` when no Begin remains gives the same slots as the segmentation, and they are well formed |
| TimeSlotSchedule.Schedule | TimeSlotSchedule.cs:160-194 | the same slots and the same errors as Timeslots of the newer engine, and they are well formed |
| RunTimeSchedule.NewRunTimeSchedule | RunTimeSchedule.cs:21-22 | null options raise ArgumentNullException; otherwise the schedule keeps them |
| RunTimeSchedule.IsInitialized | RunTimeSchedule.cs:62-68 | initialised exactly when the rule list holds a rule; a null list counts as an empty one |
| RunTimeSchedule.FormatChoice | RunTimeSchedule.cs:57-60 | a rule is read with seconds exactly when it splits into CronFormatIncludeSeconds (6) fields |
| RunTimeSchedule.Distinct | RunTimeSchedule.cs:53-54 | Distinct keeps exactly the elements of its input, each once, in the order of their first appearance, and is no longer than its input |
| RunTimeSchedule.DistinctOfDistinct | RunTimeSchedule.cs:53-54 | a list without duplicates is its own Distinct, so Distinct is idempotent |
| RunTimeSchedule.SchedulesOf | RunTimeSchedule.cs:40-55 | a null or empty list gives nothing; otherwise success exactly when every rule parses, else CronFormatException; the run times have no duplicates and are exactly the instants some rule has in [from, to] |
| RunTimeSchedule.Schedules | RunTimeSchedule.cs:35-38 | nothing unless initialised; always the same as the overload applied to the configured list |
| RunTimeSchedule.SchedulesWithinWindow | RunTimeSchedule.cs:45-51 | every run time lies in [from, to], both ends included |
| RunTimeSchedule.NextOccurrences | RunTimeSchedule.cs:26-31 | succeeds exactly when every rule parses and has a next occurrence strictly after the instant, giving those occurrences in rule order; otherwise the first rule that fails decides the error: CronFormatException when it does not parse, InvalidOperationException when it has no next occurrence |
| RunTimeSchedule.Earliest | RunTimeSchedule.cs:30-32 | the first element after sorting is an element no later than any other |
| RunTimeSchedule.NextRunTimeIsEarliest | RunTimeSchedule.cs:24-33 | a null list raises ArgumentNullException; success exactly when every rule runs; absent exactly for no rules; otherwise strictly after the starting instant, one rule's next occurrence, and no later than any rule's |
| RunTimeSchedule.DefaultMeansNow | RunTimeSchedule.cs:28 | a `default` starting instant means now; any other starting instant gives a result that does not depend on the clock |

## Left out

- The cron library (Cronos) is not modelled: parsing, occurrence enumeration and next-occurrence search are the `cron` parameter, and `Cronos.Valid` is assumed of it.
- Time zones and daylight saving are not modelled. Instants carry one fixed offset, and `TimeZoneInfo.Local` is not modelled.
- `DateTimeOffset.Now` is a parameter (`now`).
- The clock-reading overloads are not modelled separately, because each one is its `at` overload applied to the current time: `Active()`, `PreviousTimeslotEvent()` and `NextTimeslotEvent()` of both engines.
- `DateTimeOffset.ParseExact` is a parameter of the string constructors.
- LINQ is lazy, but the model evaluates every pipeline eagerly. Exceptions that the code raises only when the result is enumerated (`Schedules`, `TimeslotEvents`) appear as a `Failure` of the call.
- `DateTimeOffset` range errors are not modelled: `Subtract`, `Add` and `AddDays` near `MinValue`/`MaxValue` raise `ArgumentOutOfRangeException`, but instants here are unbounded integers.
- Cronos rejecting a window whose `from` is after its `to` is not modelled; such a window simply has no occurrences.
- The horizons `MaxTimeForPreviousTimeSlotEventInMinutes` are `double` in the source. Here they are a whole number of ticks (`ScheduleOptions`) or of minutes (`TimeSlotScheduleOptions`). Fractional minutes and the rounding of `TimeSpan.FromMinutes` are not modelled.
- TimeslotValues.GetHashCode: the hash of a `DateTimeOffset` is a parameter. Only "equal slots hash equally" is proved; nothing is claimed about unequal slots.
- `char.IsWhiteSpace` is modelled as a fixed list of characters (the Unicode separators and the listed control characters).
- `ScheduleOptions.DateTimeFormat` is carried in the options, but no modelled operation reads it.
- RunTimeSchedule.NextOccurrences: the errors follow the order of .NET Core's `OrderBy(...).FirstOrDefault()`, which computes each key as it reads each element. On .NET Framework every rule is parsed before any key is read. There, a bad rule after an exhausted one would raise `CronFormatException` rather than `InvalidOperationException`.
- `FetchSchedulerOptions` is not part of this model except for its `Schedules` list.
- `ScheduleHelper` is not part of this model.
- The `Pension.Hub.Connector.Domain.Extensions` namespace imported by `TimeSlotSchedule.cs` is not part of this model. Its `Next` is taken to be the one of `DateTimeExtensions.cs`.
- CronSource.DeduceCronFormat and CronSource.ParseCronExpression: a null element of a rule array is not modelled. In the source, `Split` on it raises `NullReferenceException` (`Schedule.cs:170`, `TimeSlotSchedule.cs:100`, `RunTimeSchedule.cs:60`). Here every rule is a string; only a null array is modelled, as `None`.
- ScheduleEngine.ActiveOnWeekly: for a time-of-day argument outside [0, 24h) the instant is what `Next`'s arithmetic gives, and nothing more is stated about it (DateTimeExtensions.NextWithFullDay covers a full 24 hours).
- `TimeSlotInstance.Equals` and `GetHashCode` (`TimeSlotSchedule.cs:223-234`) have no rows of their own. They are the same as `Timeslot`'s, and `TimeSlotSchedule.TimeSlotInstance` is the type `Timeslot`, so TimeslotValues.Equals and TimeslotValues.EqualSlotsHashEqually state them.
- `TimeSlotEvent` compares by reference in the source. Here it is the same value type as `Event`; no modelled operation compares events.

## Findings

| source | as written | input that shows it | evidently intended | confidence | as-written member | corrected member |
|---|---|---|---|---|---|---|
| TimeSlots.Domain/Schedule.cs:142-146 | the previous event is prepended even when it is null, and the sort then reads `When` of null; the same code is at TimeSlotSchedule.cs:162-166 | any schedule whose rule lists are null or empty (no previous event in the lookback window), e.g. `new ScheduleOptions()`, queried over any range | no previous event means only the range's events are cut; an uninitialised schedule gives no slots | high (not executed) | ScheduleEngine.UninitialisedTimeslotsFail | ScheduleEngine.TimeslotsAsIntendedAgrees |
| TimeSlots.Domain/Schedule.cs:126 | a rule with no further occurrence contributes an event at `default(DateTimeOffset)`, which sorts first; the same code is at TimeSlotSchedule.cs:139-140 | a start rule that never fires again (e.g. a rule for a date in a past year) next to any other rule, asked at any instant after MinValue: the "next" event is at MinValue, before the instant | exhausted rules are skipped; the next event is the earliest real next occurrence, none when every rule is exhausted | medium (not executed) | ScheduleEngine.ExhaustedRuleGivesMinValue | ScheduleEngine.NextSkippingExhaustedIsEarliest |
