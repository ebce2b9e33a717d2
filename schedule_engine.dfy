/**
 * The timeslot engine of Schedule.cs. Start rules give Begin events and stop rules give End
 * events; from them the engine finds the previous and the next event around an instant,
 * whether an instant is active, and the timeslots of a range.
 *
 * The cron library is the `cron` parameter; "now" is a parameter of the operations that read
 * the clock.
 */
module ScheduleEngine {
  import opened Wrappers
  import opened Exceptions
  import opened DateTimeExtensions
  import opened CronSource
  import opened Events
  import opened TimeslotValues
  import opened TimeslotSegmentation

  /** ScheduleOptions. A null rule list is `None`; the lookback horizon is in ticks. */
  datatype ScheduleOptions = ScheduleOptions(
    dateTimeFormat: string,
    startCronExpressions: Option<seq<string>>,
    stopCronExpressions: Option<seq<string>>,
    maxTimeForPreviousTimeslotEvent: Duration)

  /** The default lookback horizon, TimeSpan.FromDays(4). */
  const DefaultMaxTimeForPreviousTimeslotEvent: Duration := 4 * TicksPerDay

  /** `new ScheduleOptions()`: no rule lists yet. */
  const DefaultScheduleOptions: ScheduleOptions :=
    ScheduleOptions(DefaultDateTimeFormat, None, None, DefaultMaxTimeForPreviousTimeslotEvent)

  datatype Schedule = Schedule(options: ScheduleOptions)

  /** `new Schedule(options)`: null options are refused. */
  function NewSchedule(options: Option<ScheduleOptions>): (r: Result<Schedule, Exception>)
    ensures r.Failure? <==> options.None?
    ensures r.Failure? ==> r.error == ArgumentNullException
    ensures r.Success? ==> r.value.options == options.value
  {
    if options.None? then Failure(ArgumentNullException) else Success(Schedule(options.value))
  }

  /** Both rule lists are present and non-empty. */
  predicate IsScheduleInitialised(sch: Schedule)
    ensures IsScheduleInitialised(sch) <==> |StartRules(sch)| > 0 && |StopRules(sch)| > 0
  {
    && sch.options.startCronExpressions.Some? && |sch.options.startCronExpressions.value| > 0
    && sch.options.stopCronExpressions.Some? && |sch.options.stopCronExpressions.value| > 0
  }

  function StartRules(sch: Schedule): seq<string> {
    sch.options.startCronExpressions.GetOr([])
  }

  function StopRules(sch: Schedule): seq<string> {
    sch.options.stopCronExpressions.GetOr([])
  }

  /** Every rule of both lists parses. */
  predicate RulesParse(sch: Schedule, cron: Cronos) {
    AllParse(cron, StartRules(sch)) && AllParse(cron, StopRules(sch))
  }

  /** CalculateEvents: the occurrences of the rules in [from, to], each tagged with `kind`. */
  function CalculateEvents(cron: Cronos, from: Instant, to: Instant, rules: seq<string>, kind: EventType)
    : (r: Result<seq<Event>, Exception>)
    ensures r.Success? <==> AllParse(cron, rules)
    ensures r.Failure? ==> r.error == CronFormatException
    ensures r.Success? ==> forall e :: e in r.value <==> e.what == kind && OccursIn(cron, rules, from, to, e.when)
    ensures r.Success? ==> forall i :: 0 <= i < |r.value| ==> r.value[i].what == kind
  {
    var occurrences :- OccurrencesOf(cron, rules, from, to);
    TagContains(occurrences, kind);
    Success(Tag(occurrences, kind))
  }

  /** `e` is an event of the schedule in [from, to]: an occurrence of a start rule tagged Begin, or of a stop rule tagged End. */
  predicate Generated(sch: Schedule, cron: Cronos, from: Instant, to: Instant, e: Event) {
    && IsScheduleInitialised(sch)
    && (|| (e.what == Begin && OccursIn(cron, StartRules(sch), from, to, e.when))
        || (e.what == End && OccursIn(cron, StopRules(sch), from, to, e.when)))
  }

  /**
   * `TimeslotEvents(from, to)`: nothing for a schedule that is not initialised (no rule is
   * parsed); otherwise the start events followed by the stop events.
   */
  function TimeslotEvents(sch: Schedule, cron: Cronos, from: Instant, to: Instant): (r: Result<seq<Event>, Exception>)
    ensures !IsScheduleInitialised(sch) ==> r == Success([])
    ensures IsScheduleInitialised(sch) ==> (r.Success? <==> RulesParse(sch, cron))
    ensures r.Failure? ==> r.error == CronFormatException
    ensures r.Success? ==> BeginsBeforeEnds(r.value)
  {
    if !IsScheduleInitialised(sch) then Success([])
    else
      var starts :- CalculateEvents(cron, from, to, StartRules(sch), Begin);
      var stops :- CalculateEvents(cron, from, to, StopRules(sch), End);
      assert forall i :: 0 <= i < |starts + stops| ==>
        (starts + stops)[i].what == (if i < |starts| then Begin else End);
      Success(starts + stops)
  }

  /** The events are exactly the occurrences of the start rules as Begins and of the stop rules as Ends. */
  lemma TimeslotEventsAreGenerated(sch: Schedule, cron: Cronos, from: Instant, to: Instant)
    ensures var r := TimeslotEvents(sch, cron, from, to);
            r.Success? ==> forall e :: e in r.value <==> Generated(sch, cron, from, to, e)
  {
    if IsScheduleInitialised(sch) && RulesParse(sch, cron) {
      var starts := CalculateEvents(cron, from, to, StartRules(sch), Begin).value;
      var stops := CalculateEvents(cron, from, to, StopRules(sch), End).value;
      assert TimeslotEvents(sch, cron, from, to).value == starts + stops;
    }
  }

  /** With a well-behaved cron library every event lies in [from, to], both ends included. */
  lemma TimeslotEventsWithinWindow(sch: Schedule, cron: Cronos, from: Instant, to: Instant)
    requires cron.Valid()
    ensures forall e :: Generated(sch, cron, from, to, e) ==> from <= e.when <= to
    ensures var r := TimeslotEvents(sch, cron, from, to);
            r.Success? ==> forall e :: e in r.value ==> from <= e.when <= to
  {
    TimeslotEventsAreGenerated(sch, cron, from, to);
    forall e | Generated(sch, cron, from, to, e) ensures from <= e.when <= to {
      var rules := if e.what == Begin then StartRules(sch) else StopRules(sch);
      assert OccursIn(cron, rules, from, to, e.when);
      var k :| 0 <= k < |rules| && e.when in cron.occurrences(Expr(rules[k]), from, to);
    }
  }

  /** `TimeslotEvents(at, backward, forward)`: the events of [at - backward, at + forward]. */
  function TimeslotEventsAround(sch: Schedule, cron: Cronos, at: Instant, backward: Duration, forward: Duration)
    : (r: Result<seq<Event>, Exception>)
    ensures r == TimeslotEvents(sch, cron, at - backward, at + forward)
    ensures r.Success? ==> forall e :: e in r.value <==> Generated(sch, cron, at - backward, at + forward, e)
  {
    TimeslotEventsAreGenerated(sch, cron, at - backward, at + forward);
    TimeslotEvents(sch, cron, at - backward, at + forward)
  }

  /** The lookback window of PreviousTimeslotEvent ends at `at` and starts one horizon earlier. */
  function LookbackStart(sch: Schedule, at: Instant): Instant {
    at - sch.options.maxTimeForPreviousTimeslotEvent
  }

  /**
   * `PreviousTimeslotEvent(at)`: the events of the lookback window sorted by time, and the last
   * of them not later than `at`; `None` is the null event.
   */
  function PreviousTimeslotEvent(sch: Schedule, cron: Cronos, at: Instant): (r: Result<Option<Event>, Exception>)
    ensures !IsScheduleInitialised(sch) ==> r == Success(None)
    ensures r.Success? <==> !IsScheduleInitialised(sch) || RulesParse(sch, cron)
    ensures r.Failure? ==> r.error == CronFormatException
    ensures r.Success? && r.value.Some? ==> r.value.value.when <= at
  {
    var events :- TimeslotEvents(sch, cron, LookbackStart(sch, at), at);
    Success(LastAtOrBefore(OrderByWhen(events), at))
  }

  /**
   * The previous event is the latest event of the lookback window; there is none exactly when
   * the window holds no event; and at a tie an End wins over a Begin.
   */
  lemma PreviousTimeslotEventIsLatest(sch: Schedule, cron: Cronos, at: Instant)
    requires cron.Valid()
    ensures var r := PreviousTimeslotEvent(sch, cron, at);
            && (r.Success? <==> !IsScheduleInitialised(sch) || RulesParse(sch, cron))
            && (r.Failure? ==> r.error == CronFormatException)
            && (r.Success? ==> (r.value.None? <==> forall e :: !Generated(sch, cron, LookbackStart(sch, at), at, e)))
    ensures var r := PreviousTimeslotEvent(sch, cron, at);
            r.Success? && r.value.Some? ==>
              var p := r.value.value;
              && Generated(sch, cron, LookbackStart(sch, at), at, p)
              && LookbackStart(sch, at) <= p.when <= at
              && (forall e :: Generated(sch, cron, LookbackStart(sch, at), at, e) ==> e.when <= p.when)
              && (p.what == Begin ==> !Generated(sch, cron, LookbackStart(sch, at), at, Event(p.when, End)))
  {
    var w := TimeslotEvents(sch, cron, LookbackStart(sch, at), at);
    TimeslotEventsWithinWindow(sch, cron, LookbackStart(sch, at), at);
    TimeslotEventsAreGenerated(sch, cron, LookbackStart(sch, at), at);
    if w.Success? {
      LatestAtOrBefore(w.value, at);
    }
  }

  /** `ActiveOn(at)`: false when not initialised, otherwise whether the previous event is a Begin. */
  function ActiveOn(sch: Schedule, cron: Cronos, at: Instant): (r: Result<bool, Exception>)
    ensures !IsScheduleInitialised(sch) ==> r == Success(false)
    ensures r.Success? <==> !IsScheduleInitialised(sch) || RulesParse(sch, cron)
    ensures r.Failure? ==> r.error == CronFormatException
    ensures var p := PreviousTimeslotEvent(sch, cron, at);
            r == Success(true) ==> p.Success? && p.value.Some? && p.value.value.what == Begin
  {
    if !IsScheduleInitialised(sch) then Success(false)
    else
      var previous :- PreviousTimeslotEvent(sch, cron, at);
      Success(previous.Some? && previous.value.what == Begin)
  }

  /**
   * An instant is active exactly when the lookback window holds a Begin at or before it that
   * no End closes, an End at the same instant included.
   */
  lemma ActiveOnIffUnclosedBegin(sch: Schedule, cron: Cronos, at: Instant)
    ensures !IsScheduleInitialised(sch) ==> ActiveOn(sch, cron, at) == Success(false)
    ensures ActiveOn(sch, cron, at).Success? <==> !IsScheduleInitialised(sch) || RulesParse(sch, cron)
    ensures var w := TimeslotEvents(sch, cron, LookbackStart(sch, at), at);
            ActiveOn(sch, cron, at) == Success(true) <==>
              IsScheduleInitialised(sch) && w.Success? && UnclosedBegin(w.value, at)
  {
    var w := TimeslotEvents(sch, cron, LookbackStart(sch, at), at);
    if IsScheduleInitialised(sch) && w.Success? {
      LatestIsBeginIffUnclosed(w.value, at);
    }
  }

  /** `t` is on `day` at time of day `tod`. */
  predicate OnWeekdayAt(t: Instant, day: Weekday, tod: Duration) {
    DayOfWeek(t) == day && TimeOfDay(t) == tod
  }

  /**
   * `ActiveOn(day, timeOfDay)`: whether the schedule is active at the first instant from now
   * on `day` at `timeOfDay` (now's time of day for a zero `timeOfDay`), which lies within the
   * coming week.
   */
  function ActiveOnWeekly(sch: Schedule, cron: Cronos, now: Instant, day: Weekday, timeOfDay: Duration)
    : (r: Result<bool, Exception>)
    ensures 0 <= timeOfDay < TicksPerDay ==>
              exists t ::
                && OnWeekdayAt(t, day, TargetTimeOfDay(now, timeOfDay))
                && now <= t < now + 7 * TicksPerDay
                && (forall u :: now <= u < t ==> !OnWeekdayAt(u, day, TargetTimeOfDay(now, timeOfDay)))
                && r == ActiveOn(sch, cron, t)
  {
    if 0 <= timeOfDay < TicksPerDay then
      NextIsEarliestMatch(now, day, timeOfDay);
      ActiveOn(sch, cron, Next(now, day, timeOfDay))
    else ActiveOn(sch, cron, Next(now, day, timeOfDay))
  }

  /** `GetNextOccurrence(at, inclusive: true) ?? default`: an exhausted rule gives MinValue. */
  function NextOrDefault(cron: Cronos, e: CronExpression, at: Instant): Instant {
    cron.nextOccurrence(e, at, true).GetOr(MinValue)
  }

  /** CalculateNextEvents: for each rule in turn, parse it and tag its next occurrence (or default). */
  function CalculateNextEvents(cron: Cronos, at: Instant, rules: seq<string>, kind: EventType)
    : (r: Result<seq<Event>, Exception>)
    ensures r.Success? <==> AllParse(cron, rules)
    ensures r.Failure? ==> r.error == CronFormatException
    ensures r.Success? ==> |r.value| == |rules|
    ensures r.Success? ==> forall k :: 0 <= k < |rules| ==> r.value[k] == Event(NextOrDefault(cron, Expr(rules[k]), at), kind)
  {
    if |rules| == 0 then Success([])
    else
      AllParseCons(cron, rules);
      var e :- ParseCronExpression(cron, rules[0]);
      var rest :- CalculateNextEvents(cron, at, rules[1..], kind);
      Success([Event(NextOrDefault(cron, e, at), kind)] + rest)
  }

  /**
   * `NextTimeslotEvent(at)`: the per-rule next events of the start rules then the stop rules,
   * sorted by time, and the first of them. A null rule list fails at once, before any rule is
   * parsed; there is no check that the schedule is initialised.
   */
  function NextTimeslotEvent(sch: Schedule, cron: Cronos, at: Instant): (r: Result<Option<Event>, Exception>)
    ensures sch.options.startCronExpressions.None? || sch.options.stopCronExpressions.None? ==> r == Failure(ArgumentNullException)
    ensures sch.options.startCronExpressions.Some? && sch.options.stopCronExpressions.Some? ==>
              (r.Success? <==> RulesParse(sch, cron)) && (r.Failure? ==> r.error == CronFormatException)
    ensures r.Success? ==> (r.value.None? <==> |StartRules(sch)| + |StopRules(sch)| == 0)
  {
    if sch.options.startCronExpressions.None? || sch.options.stopCronExpressions.None? then
      Failure(ArgumentNullException)
    else
      var starts :- CalculateNextEvents(cron, at, StartRules(sch), Begin);
      var stops :- CalculateNextEvents(cron, at, StopRules(sch), End);
      Success(FirstOrDefault(OrderByWhen(starts + stops)))
  }

  /** `t` is the next occurrence of one of the rules, or MinValue for an exhausted one. */
  predicate NextOfSome(cron: Cronos, rules: seq<string>, at: Instant, t: Instant) {
    exists k :: 0 <= k < |rules| && t == NextOrDefault(cron, Expr(rules[k]), at)
  }

  /** `e` is the next event one rule contributes: its next occurrence, or MinValue when exhausted. */
  predicate NextCandidate(sch: Schedule, cron: Cronos, at: Instant, e: Event) {
    || (e.what == Begin && NextOfSome(cron, StartRules(sch), at, e.when))
    || (e.what == End && NextOfSome(cron, StopRules(sch), at, e.when))
  }

  /** The next events of one list are exactly its rules' next occurrences, all of the list's kind. */
  lemma NextEventsOfRules(cron: Cronos, at: Instant, rules: seq<string>, kind: EventType)
    requires AllParse(cron, rules)
    ensures forall e :: e in CalculateNextEvents(cron, at, rules, kind).value <==> e.what == kind && NextOfSome(cron, rules, at, e.when)
    ensures forall i :: 0 <= i < |CalculateNextEvents(cron, at, rules, kind).value| ==> CalculateNextEvents(cron, at, rules, kind).value[i].what == kind
  {
    var r := CalculateNextEvents(cron, at, rules, kind).value;
    forall e: Event | e.what == kind && NextOfSome(cron, rules, at, e.when) ensures e in r {
      var k :| 0 <= k < |rules| && e.when == NextOrDefault(cron, Expr(rules[k]), at);
      assert r[k] == e;
    }
  }

  /** The per-rule next events of both lists, start rules first. */
  lemma NextEventsAreCandidates(sch: Schedule, cron: Cronos, at: Instant, starts: seq<Event>, stops: seq<Event>)
    requires RulesParse(sch, cron)
    requires starts == CalculateNextEvents(cron, at, StartRules(sch), Begin).value
    requires stops == CalculateNextEvents(cron, at, StopRules(sch), End).value
    ensures BeginsBeforeEnds(starts + stops)
    ensures forall e :: e in starts + stops <==> NextCandidate(sch, cron, at, e)
  {
    NextEventsOfRules(cron, at, StartRules(sch), Begin);
    NextEventsOfRules(cron, at, StopRules(sch), End);
    BeginsThenEnds(starts, stops);
  }

  /**
   * The next event is the earliest of the per-rule next events; there is none exactly when
   * both lists are empty; and at a tie a Begin wins over an End.
   */
  lemma NextTimeslotEventIsEarliest(sch: Schedule, cron: Cronos, at: Instant)
    ensures var r := NextTimeslotEvent(sch, cron, at);
            && (sch.options.startCronExpressions.None? || sch.options.stopCronExpressions.None? ==> r == Failure(ArgumentNullException))
            && (sch.options.startCronExpressions.Some? && sch.options.stopCronExpressions.Some? ==>
                  (r.Success? <==> RulesParse(sch, cron)) && (r.Failure? ==> r.error == CronFormatException))
            && (r.Success? ==> (r.value.None? <==> |StartRules(sch)| + |StopRules(sch)| == 0))
    ensures var r := NextTimeslotEvent(sch, cron, at);
            r.Success? && r.value.Some? ==>
              var f := r.value.value;
              && NextCandidate(sch, cron, at, f)
              && (forall e :: NextCandidate(sch, cron, at, e) ==> f.when <= e.when)
              && (f.what == End ==> !NextCandidate(sch, cron, at, Event(f.when, Begin)))
  {
    if sch.options.startCronExpressions.Some? && sch.options.stopCronExpressions.Some? && RulesParse(sch, cron) {
      var starts := CalculateNextEvents(cron, at, StartRules(sch), Begin).value;
      var stops := CalculateNextEvents(cron, at, StopRules(sch), End).value;
      assert NextTimeslotEvent(sch, cron, at) == Success(FirstOrDefault(OrderByWhen(starts + stops)));
      NextEventsAreCandidates(sch, cron, at, starts, stops);
      EarliestFirst(starts + stops);
    }
  }

  /**
   * As written, a rule with no further occurrence contributes an event at MinValue, which is
   * then the earliest: the "next" event lies before `at` for any `at` after MinValue.
   */
  lemma ExhaustedRuleGivesMinValue(sch: Schedule, cron: Cronos, at: Instant, k: nat)
    requires cron.Valid() && NextTimeslotEvent(sch, cron, at).Success?
    requires k < |StartRules(sch)| && cron.nextOccurrence(Expr(StartRules(sch)[k]), at, true).None?
    ensures NextTimeslotEvent(sch, cron, at).value.Some?
    ensures NextTimeslotEvent(sch, cron, at).value.value.when == MinValue
    ensures at > MinValue ==> NextTimeslotEvent(sch, cron, at).value.value.when < at
  {
    NextTimeslotEventIsEarliest(sch, cron, at);
    var f := NextTimeslotEvent(sch, cron, at).value.value;
    assert NextCandidate(sch, cron, at, Event(MinValue, Begin));
    forall e | NextCandidate(sch, cron, at, e) ensures MinValue <= e.when {
      if e.what == Begin {
        var i :| 0 <= i < |StartRules(sch)| && e.when == NextOrDefault(cron, Expr(StartRules(sch)[i]), at);
      } else {
        var i :| 0 <= i < |StopRules(sch)| && e.when == NextOrDefault(cron, Expr(StopRules(sch)[i]), at);
      }
    }
  }

  /** The next events of the rules that still have an occurrence; exhausted rules contribute nothing. */
  function PresentNextEvents(cron: Cronos, at: Instant, rules: seq<string>, kind: EventType)
    : (r: Result<seq<Event>, Exception>)
    ensures r.Success? <==> AllParse(cron, rules)
    ensures r.Failure? ==> r.error == CronFormatException
    ensures r.Success? ==> forall e :: e in r.value <==>
              e.what == kind && exists k :: 0 <= k < |rules| && cron.nextOccurrence(Expr(rules[k]), at, true) == Some(e.when)
  {
    if |rules| == 0 then Success([])
    else
      AllParseCons(cron, rules);
      var e :- ParseCronExpression(cron, rules[0]);
      var rest :- PresentNextEvents(cron, at, rules[1..], kind);
      var next := cron.nextOccurrence(e, at, true);
      var r := if next.Some? then [Event(next.value, kind)] + rest else rest;
      assert forall e' :: e' in r <==>
        e'.what == kind && exists k :: 0 <= k < |rules| && cron.nextOccurrence(Expr(rules[k]), at, true) == Some(e'.when) by {
        forall e': Event | e'.what == kind && exists k :: 0 <= k < |rules| && cron.nextOccurrence(Expr(rules[k]), at, true) == Some(e'.when)
          ensures e' in r
        {
          var k :| 0 <= k < |rules| && cron.nextOccurrence(Expr(rules[k]), at, true) == Some(e'.when);
          if k > 0 {
            assert rules[1..][k - 1] == rules[k];
          }
        }
        forall e': Event | e' in rest
          ensures exists k :: 0 <= k < |rules| && cron.nextOccurrence(Expr(rules[k]), at, true) == Some(e'.when)
        {
          var k :| 0 <= k < |rules[1..]| && cron.nextOccurrence(Expr(rules[1..][k]), at, true) == Some(e'.when);
          assert rules[k + 1] == rules[1..][k];
        }
      }
      Success(r)
  }

  /** NextTimeslotEvent as intended: the earliest real next occurrence, exhausted rules skipped. */
  function NextTimeslotEventSkippingExhausted(sch: Schedule, cron: Cronos, at: Instant): Result<Option<Event>, Exception> {
    if sch.options.startCronExpressions.None? || sch.options.stopCronExpressions.None? then
      Failure(ArgumentNullException)
    else
      var starts :- PresentNextEvents(cron, at, StartRules(sch), Begin);
      var stops :- PresentNextEvents(cron, at, StopRules(sch), End);
      Success(FirstOrDefault(OrderByWhen(starts + stops)))
  }

  /** Some rule's next occurrence, at or after `at`, is `e.when` and its list gives `e` its kind. */
  predicate RealNext(sch: Schedule, cron: Cronos, at: Instant, e: Event) {
    || (e.what == Begin && exists k :: 0 <= k < |StartRules(sch)| && cron.nextOccurrence(Expr(StartRules(sch)[k]), at, true) == Some(e.when))
    || (e.what == End && exists k :: 0 <= k < |StopRules(sch)| && cron.nextOccurrence(Expr(StopRules(sch)[k]), at, true) == Some(e.when))
  }

  /** The present next events of both lists, start rules first, are the real next occurrences, none before `at`. */
  lemma PresentNextEventsAreReal(sch: Schedule, cron: Cronos, at: Instant, starts: seq<Event>, stops: seq<Event>)
    requires cron.Valid() && RulesParse(sch, cron)
    requires starts == PresentNextEvents(cron, at, StartRules(sch), Begin).value
    requires stops == PresentNextEvents(cron, at, StopRules(sch), End).value
    ensures BeginsBeforeEnds(starts + stops)
    ensures forall e :: e in starts + stops <==> RealNext(sch, cron, at, e)
    ensures forall e :: e in starts + stops ==> at <= e.when
  {
    forall i | 0 <= i < |starts| ensures starts[i].what == Begin {
      assert starts[i] in starts;
    }
    forall i | 0 <= i < |stops| ensures stops[i].what == End {
      assert stops[i] in stops;
    }
    BeginsThenEnds(starts, stops);
    forall e | RealNext(sch, cron, at, e) ensures at <= e.when {
      if e.what == Begin {
        var k :| 0 <= k < |StartRules(sch)| && cron.nextOccurrence(Expr(StartRules(sch)[k]), at, true) == Some(e.when);
      } else {
        var k :| 0 <= k < |StopRules(sch)| && cron.nextOccurrence(Expr(StopRules(sch)[k]), at, true) == Some(e.when);
      }
    }
  }

  /**
   * With exhausted rules skipped, the next event is never before `at`; it is the earliest real
   * next occurrence, a Begin winning ties; and there is none exactly when every rule is exhausted.
   */
  lemma NextSkippingExhaustedIsEarliest(sch: Schedule, cron: Cronos, at: Instant)
    requires cron.Valid()
    ensures var r := NextTimeslotEventSkippingExhausted(sch, cron, at);
            && (sch.options.startCronExpressions.None? || sch.options.stopCronExpressions.None? ==> r == Failure(ArgumentNullException))
            && (sch.options.startCronExpressions.Some? && sch.options.stopCronExpressions.Some? ==>
                  (r.Success? <==> RulesParse(sch, cron)) && (r.Failure? ==> r.error == CronFormatException))
            && (r.Success? ==> (r.value.None? <==> forall e :: !RealNext(sch, cron, at, e)))
    ensures var r := NextTimeslotEventSkippingExhausted(sch, cron, at);
            r.Success? && r.value.Some? ==>
              var f := r.value.value;
              && RealNext(sch, cron, at, f) && at <= f.when
              && (forall e :: RealNext(sch, cron, at, e) ==> f.when <= e.when)
              && (f.what == End ==> !RealNext(sch, cron, at, Event(f.when, Begin)))
  {
    var r := NextTimeslotEventSkippingExhausted(sch, cron, at);
    if r.Success? {
      var starts := PresentNextEvents(cron, at, StartRules(sch), Begin).value;
      var stops := PresentNextEvents(cron, at, StopRules(sch), End).value;
      PresentNextEventsAreReal(sch, cron, at, starts, stops);
      EarliestFirst(starts + stops);
      if |starts + stops| > 0 {
        assert (starts + stops)[0] in starts + stops;
      }
    }
  }

  /**
   * Timeslots as written: the previous event is put in front of the range's events and the
   * whole is sorted by time. When there is no previous event the sort reads the time of a
   * null event.
   */
  function TimeslotsOf(sch: Schedule, cron: Cronos, from: Instant, to: Instant): Result<seq<Timeslot>, Exception> {
    var previous :- PreviousTimeslotEvent(sch, cron, from);
    var events :- TimeslotEvents(sch, cron, from, to);
    if previous.None? then Failure(NullReferenceException)
    else Success(Segmentation(OrderByWhen([previous.value] + events)))
  }

  /** `Timeslots(from, to)`: sort the events, then run the segmentation loop over them. */
  method Timeslots(sch: Schedule, cron: Cronos, from: Instant, to: Instant) returns (r: Result<seq<Timeslot>, Exception>)
    ensures r == TimeslotsOf(sch, cron, from, to)
    ensures r.Success? ==> WellFormedSlots(r.value)
  {
    var previous := PreviousTimeslotEvent(sch, cron, from);
    if previous.Failure? {
      return Failure(previous.error);
    }
    var events := TimeslotEvents(sch, cron, from, to);
    if events.Failure? {
      return Failure(events.error);
    }
    if previous.value.None? {
      return Failure(NullReferenceException);
    }
    var timeslotEvents := OrderByWhen([previous.value.value] + events.value);
    var slots := Segment(timeslotEvents);
    return Success(slots);
  }

  /** The range's events with the previous event in front are the events the segmentation sees. */
  lemma TimeslotsSeeEveryEvent(sch: Schedule, cron: Cronos, from: Instant, to: Instant)
    ensures var r := TimeslotsOf(sch, cron, from, to);
            && (PreviousTimeslotEvent(sch, cron, from) == Success(None) ==> r == Failure(NullReferenceException))
            && (PreviousTimeslotEvent(sch, cron, from).Failure? ==> r == Failure(CronFormatException))
            && (r.Success? <==> PreviousTimeslotEvent(sch, cron, from).Success? && PreviousTimeslotEvent(sch, cron, from).value.Some?)
  {
  }

  /**
   * The segmentation of the range's events: every Begin of the range, and the previous event
   * when it is a Begin, lies in a slot; no End of the range lies strictly inside one.
   */
  lemma TimeslotsCoverBegins(sch: Schedule, cron: Cronos, from: Instant, to: Instant)
    requires TimeslotsOf(sch, cron, from, to).Success?
    ensures var slots := TimeslotsOf(sch, cron, from, to).value;
            var p := PreviousTimeslotEvent(sch, cron, from).value.value;
            && WellFormedSlots(slots)
            && (forall t :: Generated(sch, cron, from, to, Event(t, Begin)) ==> exists slot :: slot in slots && Covers(slot, t))
            && (p.what == Begin ==> exists slot :: slot in slots && Covers(slot, p.when))
            && (forall t, slot :: Generated(sch, cron, from, to, Event(t, End)) && slot in slots ==> !StrictlyInside(slot, t))
  {
    var p := PreviousTimeslotEvent(sch, cron, from).value.value;
    var events := TimeslotEvents(sch, cron, from, to).value;
    var slots := Segmentation(OrderByWhen([p] + events));
    TimeslotEventsAreGenerated(sch, cron, from, to);
    SegmentationWithPrevious(p, events);
    forall t | Generated(sch, cron, from, to, Event(t, Begin))
      ensures exists slot :: slot in slots && Covers(slot, t)
    {
      assert Event(t, Begin) in events;
    }
    forall t, slot | Generated(sch, cron, from, to, Event(t, End)) && slot in slots
      ensures !StrictlyInside(slot, t)
    {
      assert Event(t, End) in events;
    }
  }

  /**
   * A Begin before the range carries over: when the schedule is active at `from`, the first
   * slot starts at the previous Begin, at or before `from`.
   */
  lemma ActiveScheduleCarriesOver(sch: Schedule, cron: Cronos, from: Instant, to: Instant)
    requires ActiveOn(sch, cron, from) == Success(true)
    ensures TimeslotsOf(sch, cron, from, to).Success?
    ensures var slots := TimeslotsOf(sch, cron, from, to).value;
            |slots| > 0 && slots[0].from.Some? && slots[0].from.value <= from
  {
    var w := TimeslotEvents(sch, cron, LookbackStart(sch, from), from);
    LatestAtOrBefore(w.value, from);
    var p := PreviousTimeslotEvent(sch, cron, from).value.value;
    assert p.what == Begin && p.when <= from;
    var events := TimeslotEvents(sch, cron, from, to).value;
    FirstSlotOpensByBegin([p] + events, p.when);
  }

  /** Timeslots as written fails on every schedule that is not initialised, instead of giving no slots. */
  lemma UninitialisedTimeslotsFail(sch: Schedule, cron: Cronos, from: Instant, to: Instant)
    requires !IsScheduleInitialised(sch)
    ensures TimeslotsOf(sch, cron, from, to) == Failure(NullReferenceException)
  {
    assert TimeslotEvents(sch, cron, LookbackStart(sch, from), from) == Success([]);
  }

  /** Timeslots as intended: the previous event joins the range's events only when there is one. */
  function TimeslotsAsIntendedOf(sch: Schedule, cron: Cronos, from: Instant, to: Instant): Result<seq<Timeslot>, Exception> {
    var previous :- PreviousTimeslotEvent(sch, cron, from);
    var events :- TimeslotEvents(sch, cron, from, to);
    var all := if previous.Some? then [previous.value] + events else events;
    Success(Segmentation(OrderByWhen(all)))
  }

  method TimeslotsAsIntended(sch: Schedule, cron: Cronos, from: Instant, to: Instant) returns (r: Result<seq<Timeslot>, Exception>)
    ensures r == TimeslotsAsIntendedOf(sch, cron, from, to)
    ensures r.Success? ==> WellFormedSlots(r.value)
  {
    var previous := PreviousTimeslotEvent(sch, cron, from);
    if previous.Failure? {
      return Failure(previous.error);
    }
    var events := TimeslotEvents(sch, cron, from, to);
    if events.Failure? {
      return Failure(events.error);
    }
    var all := if previous.value.Some? then [previous.value.value] + events.value else events.value;
    var slots := Segment(OrderByWhen(all));
    return Success(slots);
  }

  /**
   * As intended, Timeslots fails only on a rule that does not parse, gives no slots for a
   * schedule that is not initialised, and agrees with the code whenever there is a previous event.
   */
  lemma TimeslotsAsIntendedAgrees(sch: Schedule, cron: Cronos, from: Instant, to: Instant)
    ensures TimeslotsAsIntendedOf(sch, cron, from, to).Success? <==> !IsScheduleInitialised(sch) || RulesParse(sch, cron)
    ensures !IsScheduleInitialised(sch) ==> TimeslotsAsIntendedOf(sch, cron, from, to) == Success([])
    ensures TimeslotsOf(sch, cron, from, to).Success? ==> TimeslotsAsIntendedOf(sch, cron, from, to) == TimeslotsOf(sch, cron, from, to)
  {
    if !IsScheduleInitialised(sch) {
      assert TimeslotEvents(sch, cron, LookbackStart(sch, from), from) == Success([]);
      assert OrderByWhen([]) == [];
      assert FirstBeginFrom([], 0) == 0;
    }
  }
}
