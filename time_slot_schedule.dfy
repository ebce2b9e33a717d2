/**
 * The earlier timeslot engine of TimeSlotSchedule.cs, kept beside Schedule.cs. It reads the
 * same rules the same way, but builds its events rule by rule, maps NextTimeSlotEvent's rules
 * to expressions in a separate step, leaves its cutting loop with a `break`, and accepts a slot
 * with neither bound.
 *
 * Each operation is defined here as the legacy code computes it and proved to agree with the
 * engine of Schedule.cs on the corresponding schedule.
 */
module TimeSlotSchedule {
  import opened Wrappers
  import opened Exceptions
  import opened DateTimeExtensions
  import opened CronSource
  import opened Events
  import opened TimeslotValues
  import opened TimeslotSegmentation
  import ScheduleEngine

  /** TimeSlotScheduleOptions; the lookback horizon is a number of minutes. */
  datatype TimeSlotScheduleOptions = TimeSlotScheduleOptions(
    startCronExpressions: Option<seq<string>>,
    stopCronExpressions: Option<seq<string>>,
    maxTimeForPreviousTimeSlotEventInMinutes: int)

  /** The default horizon, 5760 minutes. */
  const DefaultMaxTimeInMinutes: int := 5760

  const DefaultTimeSlotScheduleOptions: TimeSlotScheduleOptions :=
    TimeSlotScheduleOptions(None, None, DefaultMaxTimeInMinutes)

  /** `MaxTimeForPreviousTimeSlotEvent`: the horizon in ticks; the default is four days. */
  function MaxTimeForPreviousTimeSlotEvent(options: TimeSlotScheduleOptions): (d: Duration)
    ensures d == options.maxTimeForPreviousTimeSlotEventInMinutes * TicksPerMinute
    ensures options.maxTimeForPreviousTimeSlotEventInMinutes == DefaultMaxTimeInMinutes ==>
              d == 4 * TicksPerDay && d == ScheduleEngine.DefaultMaxTimeForPreviousTimeslotEvent
  {
    options.maxTimeForPreviousTimeSlotEventInMinutes * TicksPerMinute
  }

  datatype TimeSlotSchedule = TimeSlotSchedule(options: TimeSlotScheduleOptions)

  /** `new TimeSlotSchedule(options)`: null options are refused. */
  function NewTimeSlotSchedule(options: Option<TimeSlotScheduleOptions>): (r: Result<TimeSlotSchedule, Exception>)
    ensures r.Failure? <==> options.None?
    ensures r.Failure? ==> r.error == ArgumentNullException
    ensures r.Success? ==> r.value.options == options.value
  {
    if options.None? then Failure(ArgumentNullException) else Success(TimeSlotSchedule(options.value))
  }

  /** The engine of Schedule.cs with the same rules and horizon. */
  function AsSchedule(sch: TimeSlotSchedule): ScheduleEngine.Schedule {
    ScheduleEngine.Schedule(ScheduleEngine.ScheduleOptions(
      DefaultDateTimeFormat,
      sch.options.startCronExpressions,
      sch.options.stopCronExpressions,
      MaxTimeForPreviousTimeSlotEvent(sch.options)))
  }

  /** Both rule lists are present and non-empty, as in the newer engine. */
  predicate IsScheduleInitialised(sch: TimeSlotSchedule)
    ensures IsScheduleInitialised(sch) <==> ScheduleEngine.IsScheduleInitialised(AsSchedule(sch))
  {
    && sch.options.startCronExpressions.Some? && |sch.options.startCronExpressions.value| > 0
    && sch.options.stopCronExpressions.Some? && |sch.options.stopCronExpressions.value| > 0
  }

  /**
   * `rules.SelectMany(selector)`: each rule in turn is parsed and its occurrences in
   * [from, to] are tagged with `kind`; the same events as tagging the occurrences of all
   * the rules at once.
   */
  function SelectManyTagged(cron: Cronos, rules: seq<string>, from: Instant, to: Instant, kind: EventType)
    : (r: Result<seq<Event>, Exception>)
    ensures r == ScheduleEngine.CalculateEvents(cron, from, to, rules, kind)
  {
    if |rules| == 0 then Success([])
    else
      var e :- ParseCronExpression(cron, rules[0]);
      var rest :- SelectManyTagged(cron, rules[1..], from, to, kind);
      var occurrences := cron.occurrences(e, from, to);
      TagConcat(occurrences, OccurrencesOf(cron, rules[1..], from, to).value, kind);
      Success(Tag(occurrences, kind) + rest)
  }

  /** `TimeSlotEvents(from, to)`: the events of the newer engine, in the same order. */
  function TimeSlotEvents(sch: TimeSlotSchedule, cron: Cronos, from: Instant, to: Instant)
    : (r: Result<seq<Event>, Exception>)
    ensures r == ScheduleEngine.TimeslotEvents(AsSchedule(sch), cron, from, to)
  {
    if !IsScheduleInitialised(sch) then Success([])
    else
      var starts :- SelectManyTagged(cron, sch.options.startCronExpressions.value, from, to, Begin);
      var stops :- SelectManyTagged(cron, sch.options.stopCronExpressions.value, from, to, End);
      Success(starts + stops)
  }

  /** `TimeSlotEvents(at, backward, forward)`. */
  function TimeSlotEventsAround(sch: TimeSlotSchedule, cron: Cronos, at: Instant, backward: Duration, forward: Duration)
    : (r: Result<seq<Event>, Exception>)
    ensures r == ScheduleEngine.TimeslotEventsAround(AsSchedule(sch), cron, at, backward, forward)
  {
    TimeSlotEvents(sch, cron, at - backward, at + forward)
  }

  /**
   * `Select(CronExpression.Parse)` over the rules: the first rule that fails to parse raises
   * CronFormatException. The Select is lazy, so parsing alternates rule by rule with the next
   * occurrence of NextEventsOf; that step cannot fail, so parsing every rule first gives the
   * same result.
   */
  function ParseAll(cron: Cronos, rules: seq<string>): (r: Result<seq<CronExpression>, Exception>)
    ensures r.Success? <==> AllParse(cron, rules)
    ensures r.Failure? ==> r.error == CronFormatException
    ensures r.Success? ==> |r.value| == |rules| && forall k :: 0 <= k < |rules| ==> r.value[k] == Expr(rules[k])
  {
    if |rules| == 0 then Success([])
    else
      AllParseCons(cron, rules);
      var e :- ParseCronExpression(cron, rules[0]);
      var rest :- ParseAll(cron, rules[1..]);
      Success([e] + rest)
  }

  /** `crons.Select(c => new TimeSlotEvent(c.GetNextOccurrence(at, inclusive: true) ?? default, kind))`. */
  function NextEventsOf(cron: Cronos, exprs: seq<CronExpression>, at: Instant, kind: EventType): (r: seq<Event>)
    ensures |r| == |exprs|
    ensures forall k :: 0 <= k < |exprs| ==> r[k] == Event(ScheduleEngine.NextOrDefault(cron, exprs[k], at), kind)
  {
    seq(|exprs|, k requires 0 <= k < |exprs| => Event(ScheduleEngine.NextOrDefault(cron, exprs[k], at), kind))
  }

  /** `NextTimeSlotEvent(at)`: the same next event, and the same errors, as the newer engine. */
  function NextTimeSlotEvent(sch: TimeSlotSchedule, cron: Cronos, at: Instant): (r: Result<Option<Event>, Exception>)
    ensures r == ScheduleEngine.NextTimeslotEvent(AsSchedule(sch), cron, at)
  {
    if sch.options.startCronExpressions.None? || sch.options.stopCronExpressions.None? then
      Failure(ArgumentNullException)
    else
      var startRules := sch.options.startCronExpressions.value;
      var stopRules := sch.options.stopCronExpressions.value;
      var startCrons :- ParseAll(cron, startRules);
      var stopCrons :- ParseAll(cron, stopRules);
      var starts := NextEventsOf(cron, startCrons, at, Begin);
      var stops := NextEventsOf(cron, stopCrons, at, End);
      assert starts == ScheduleEngine.CalculateNextEvents(cron, at, startRules, Begin).value;
      assert stops == ScheduleEngine.CalculateNextEvents(cron, at, stopRules, End).value;
      Success(FirstOrDefault(OrderByWhen(starts + stops)))
  }

  /** `PreviousTimeSlotEvent(at)`: the same previous event as the newer engine. */
  function PreviousTimeSlotEvent(sch: TimeSlotSchedule, cron: Cronos, at: Instant): (r: Result<Option<Event>, Exception>)
    ensures r == ScheduleEngine.PreviousTimeslotEvent(AsSchedule(sch), cron, at)
  {
    var lookback := at - MaxTimeForPreviousTimeSlotEvent(sch.options);
    assert lookback == ScheduleEngine.LookbackStart(AsSchedule(sch), at);
    var events :- TimeSlotEvents(sch, cron, lookback, at);
    Success(LastAtOrBefore(OrderByWhen(events), at))
  }

  /** `ActiveOn(at)`: the same answer as the newer engine. */
  function ActiveOn(sch: TimeSlotSchedule, cron: Cronos, at: Instant): (r: Result<bool, Exception>)
    ensures r == ScheduleEngine.ActiveOn(AsSchedule(sch), cron, at)
  {
    if !IsScheduleInitialised(sch) then Success(false)
    else
      var previous :- PreviousTimeSlotEvent(sch, cron, at);
      Success(previous.Some? && previous.value.what == Begin)
  }

  /** `ActiveOn(day, timeOfDay)`: the same answer as the newer engine. */
  function ActiveOnWeekly(sch: TimeSlotSchedule, cron: Cronos, now: Instant, day: Weekday, timeOfDay: Duration)
    : (r: Result<bool, Exception>)
    ensures r == ScheduleEngine.ActiveOnWeekly(AsSchedule(sch), cron, now, day, timeOfDay)
  {
    ActiveOn(sch, cron, Next(now, day, timeOfDay))
  }

  /** A TimeSlotInstance holds the same two optional bounds as a Timeslot. */
  type TimeSlotInstance = Timeslot

  /**
   * `new TimeSlotInstance(from, to)`: only a `to` strictly before `from` is refused; unlike
   * Timeslot, a slot with neither bound is accepted.
   */
  function NewTimeSlotInstance(from: Option<Instant>, to: Option<Instant>): (r: Result<TimeSlotInstance, Exception>)
    ensures r.Success? <==> Ordered(from, to)
    ensures r.Success? ==> r.value == Timeslot(from, to)
    ensures r.Failure? ==> r.error == ArgumentException
    ensures r.Success? && (from.Some? || to.Some?) <==> NewTimeslot(from, to).Success?
  {
    if to.Some? && from.Some? && IsBefore(to.value, from.value) then Failure(ArgumentException)
    else Success(Timeslot(from, to))
  }

  /** `new TimeSlotInstance(fromText, toText)`: both texts are read in the fixed format "yyyy-MM-dd HH:mm". */
  function NewTimeSlotInstanceFromText(fromText: Option<string>, toText: Option<string>,
                                       parseExact: (string, string) -> Result<Instant, Exception>)
    : (r: Result<TimeSlotInstance, Exception>)
    ensures IsNullOrWhiteSpace(fromText) && IsNullOrWhiteSpace(toText) ==> r == Success(Timeslot(None, None))
    ensures r.Success? ==> Ordered(r.value.from, r.value.to)
    ensures r.Success? ==> (r.value.from.None? <==> IsNullOrWhiteSpace(fromText))
    ensures r.Success? ==> (r.value.to.None? <==> IsNullOrWhiteSpace(toText))
    ensures r.Success? && r.value.from.Some? ==> parseExact(fromText.value, DefaultDateTimeFormat) == Success(r.value.from.value)
    ensures r.Success? && r.value.to.Some? ==> parseExact(toText.value, DefaultDateTimeFormat) == Success(r.value.to.value)
  {
    var from :- ParseBound(fromText, DefaultDateTimeFormat, parseExact);
    var to :- ParseBound(toText, DefaultDateTimeFormat, parseExact);
    NewTimeSlotInstance(from, to)
  }

  /**
   * The loop of Schedule(from, to): as long as events remain, open a slot at the first Begin,
   * close it at the first End after it, and drop every event up to its end; stop as soon as no
   * Begin remains.
   */
  method CutSlots(timeSlotEvents: seq<Event>) returns (timeSlots: seq<TimeSlotInstance>)
    requires SortedByWhen(timeSlotEvents)
    ensures timeSlots == Segmentation(timeSlotEvents)
    ensures WellFormedSlots(timeSlots)
  {
    SegmentationIsWellFormed(timeSlotEvents, 0);
    timeSlots := [];
    var i := 0;
    while i < |timeSlotEvents|
      invariant i <= |timeSlotEvents|
      invariant timeSlots + SegmentationFrom(timeSlotEvents, i) == Segmentation(timeSlotEvents)
      decreases |timeSlotEvents| - i
    {
      var b := FirstBeginFrom(timeSlotEvents, i);
      if b == |timeSlotEvents| {
        break;
      }
      SegmentationStep(timeSlotEvents, i, timeSlots);
      var start := timeSlotEvents[b];
      var stop := FirstEndAfterFrom(timeSlotEvents, i, start.when);
      var stopTime := if stop < |timeSlotEvents| then Some(timeSlotEvents[stop].when) else None;
      var currentTimeSlot := NewTimeSlotInstance(Some(start.when), stopTime);
      timeSlots := timeSlots + [currentTimeSlot.value];
      i := SkipThrough(timeSlotEvents, i, currentTimeSlot.value.to);
    }
  }

  /**
   * `Schedule(from, to)`: the previous event in front of the range's events, sorted by time,
   * cut into slots. It gives the same slots and the same errors as Timeslots of the newer engine.
   */
  method Schedule(sch: TimeSlotSchedule, cron: Cronos, from: Instant, to: Instant)
    returns (r: Result<seq<TimeSlotInstance>, Exception>)
    ensures r == ScheduleEngine.TimeslotsOf(AsSchedule(sch), cron, from, to)
    ensures r.Success? ==> WellFormedSlots(r.value)
  {
    var previousEvent := PreviousTimeSlotEvent(sch, cron, from);
    if previousEvent.Failure? {
      return Failure(previousEvent.error);
    }
    var range := TimeSlotEvents(sch, cron, from, to);
    if range.Failure? {
      return Failure(range.error);
    }
    if previousEvent.value.None? {
      return Failure(NullReferenceException);
    }
    var timeSlots := CutSlots(OrderByWhen([previousEvent.value.value] + range.value));
    return Success(timeSlots);
  }
}
