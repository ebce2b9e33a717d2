/**
 * RunTimeSchedule: a list of cron rules that says when a job runs next and lists the distinct
 * run times of a window.
 *
 * The cron library is the `cron` parameter; "now" is a parameter of NextRunTime.
 */
module RunTimeSchedule {
  import opened Wrappers
  import opened Exceptions
  import opened DateTimeExtensions
  import opened CronSource

  /** The part of FetchSchedulerOptions the schedule reads: its rules, `None` for a null array. */
  datatype FetchSchedulerOptions = FetchSchedulerOptions(schedules: Option<seq<string>>)

  datatype RunTimeSchedule = RunTimeSchedule(schedulerOptions: FetchSchedulerOptions)

  /** A rule with this many space-separated fields is read in seconds format. */
  const CronFormatIncludeSeconds: nat := 6

  /** NextRunTime looks strictly after its starting instant. */
  const IncludeCurrentOccurrence: bool := false

  /** `new RunTimeSchedule(options)`: null options are refused. */
  function NewRunTimeSchedule(options: Option<FetchSchedulerOptions>): (r: Result<RunTimeSchedule, Exception>)
    ensures r.Failure? <==> options.None?
    ensures r.Failure? ==> r.error == ArgumentNullException
    ensures r.Success? ==> r.value.schedulerOptions == options.value
  {
    if options.None? then Failure(ArgumentNullException) else Success(RunTimeSchedule(options.value))
  }

  /** The format choice of ParseCronExpression is the one of the timeslot engines. */
  lemma FormatChoice(rule: string)
    ensures Expr(rule).format == IncludeSeconds <==> |Split(rule, ' ')| == CronFormatIncludeSeconds
  {
    SplitLength(rule, ' ');
  }

  /** The rule list is present and not empty. */
  predicate IsInitialized(rts: RunTimeSchedule)
    ensures IsInitialized(rts) <==> |rts.schedulerOptions.schedules.GetOr([])| > 0
  {
    rts.schedulerOptions.schedules.Some? && |rts.schedulerOptions.schedules.value| > 0
  }

  /** No element appears twice. */
  predicate NoDuplicates<T(==)>(s: seq<T>) {
    forall i, j :: 0 <= i < j < |s| ==> s[i] != s[j]
  }

  /** The index where `x` first appears in `s`. */
  function FirstIndex<T(==)>(s: seq<T>, x: T): (k: nat)
    requires x in s
    ensures k < |s| && s[k] == x
    ensures forall j :: 0 <= j < k ==> s[j] != x
  {
    if s[0] == x then 0 else 1 + FirstIndex(s[1..], x)
  }

  /** Appending an element moves no first occurrence; a new element first appears at the end. */
  lemma FirstIndexAppend<T>(init: seq<T>, last: T, x: T)
    requires x in init + [last]
    ensures x in init ==> FirstIndex(init + [last], x) == FirstIndex(init, x)
    ensures x !in init ==> FirstIndex(init + [last], x) == |init|
  {
    var s := init + [last];
    var k := FirstIndex(s, x);
    if x in init {
      var k0 := FirstIndex(init, x);
      assert s[k0] == x;
      assert k <= k0;
      assert init[k] == s[k];
    } else {
      assert forall j :: 0 <= j < |init| ==> s[j] == init[j];
    }
  }

  /** Elements of `init` listed in first-occurrence order stay so after an append, and come before a new element. */
  lemma FirstOrderAppend<T>(init: seq<T>, last: T, d: seq<T>)
    requires forall i :: 0 <= i < |d| ==> d[i] in init
    requires forall i, j :: 0 <= i < j < |d| ==> FirstIndex(init, d[i]) < FirstIndex(init, d[j])
    ensures forall i, j :: 0 <= i < j < |d| ==> FirstIndex(init + [last], d[i]) < FirstIndex(init + [last], d[j])
    ensures last !in init ==> forall i :: 0 <= i < |d| ==> FirstIndex(init + [last], d[i]) < FirstIndex(init + [last], last)
  {
    forall i | 0 <= i < |d| ensures FirstIndex(init + [last], d[i]) == FirstIndex(init, d[i]) {
      FirstIndexAppend(init, last, d[i]);
    }
    if last !in init {
      FirstIndexAppend(init, last, last);
    }
  }

  /** LINQ `Distinct`: each element once, in the order of the places they first appear. */
  function Distinct<T(==)>(s: seq<T>): (r: seq<T>)
    ensures forall i :: 0 <= i < |r| ==> r[i] in s
    ensures forall i :: 0 <= i < |s| ==> s[i] in r
    ensures NoDuplicates(r)
    ensures |r| <= |s|
    ensures forall i, j :: 0 <= i < j < |r| ==> FirstIndex(s, r[i]) < FirstIndex(s, r[j])
  {
    if |s| == 0 then []
    else
      var init := s[..|s| - 1];
      var last := s[|s| - 1];
      assert s == init + [last];
      var d := Distinct(init);
      FirstOrderAppend(init, last, d);
      if last in d then d
      else
        assert last !in init;
        d + [last]
  }

  /** A list without duplicates is its own Distinct, so Distinct is idempotent. */
  lemma {:induction false} DistinctOfDistinct<T>(s: seq<T>)
    requires NoDuplicates(s)
    ensures Distinct(s) == s
  {
    if |s| > 0 {
      var init, last := s[..|s| - 1], s[|s| - 1];
      assert NoDuplicates(init);
      DistinctOfDistinct(init);
      assert last !in init;
      assert Distinct(s) == Distinct(init) + [last];
    }
  }

  /**
   * `Schedules(from, to, cronExpressions)`: nothing for a null or empty list; otherwise the
   * distinct rules, each parsed in turn, their occurrences in [from, to], each listed once.
   */
  function SchedulesOf(cron: Cronos, from: Instant, to: Instant, cronExpressions: Option<seq<string>>)
    : (r: Result<seq<Instant>, Exception>)
    ensures cronExpressions.None? || |cronExpressions.value| == 0 ==> r == Success([])
    ensures r.Success? <==> cronExpressions.None? || AllParse(cron, cronExpressions.value)
    ensures r.Failure? ==> r.error == CronFormatException
    ensures r.Success? ==> NoDuplicates(r.value)
    ensures r.Success? ==> forall t :: t in r.value <==>
              cronExpressions.Some? && OccursIn(cron, cronExpressions.value, from, to, t)
  {
    if cronExpressions.None? || |cronExpressions.value| == 0 then Success([])
    else
      var schedules := Distinct(cronExpressions.value);
      SameRulesSameOccurrences(cron, schedules, cronExpressions.value, from, to);
      var occurrences :- OccurrencesOf(cron, schedules, from, to);
      Success(Distinct(occurrences))
  }

  /**
   * `Schedules(from, to)`: nothing unless initialised, otherwise the run times of the configured
   * rules; the initialisation check changes nothing, since an absent or empty list gives nothing.
   */
  function Schedules(rts: RunTimeSchedule, cron: Cronos, from: Instant, to: Instant): (r: Result<seq<Instant>, Exception>)
    ensures !IsInitialized(rts) ==> r == Success([])
    ensures r == SchedulesOf(cron, from, to, rts.schedulerOptions.schedules)
  {
    if !IsInitialized(rts) then Success([])
    else SchedulesOf(cron, from, to, rts.schedulerOptions.schedules)
  }

  /** With a well-behaved cron library every run time lies in [from, to], both ends included. */
  lemma SchedulesWithinWindow(cron: Cronos, from: Instant, to: Instant, cronExpressions: Option<seq<string>>)
    requires cron.Valid()
    ensures var r := SchedulesOf(cron, from, to, cronExpressions);
            r.Success? ==> forall t :: t in r.value ==> from <= t <= to
  {
    var r := SchedulesOf(cron, from, to, cronExpressions);
    if r.Success? {
      forall t | t in r.value ensures from <= t <= to {
        var rules := cronExpressions.value;
        var k :| 0 <= k < |rules| && t in cron.occurrences(Expr(rules[k]), from, to);
      }
    }
  }

  /** The rule parses and has a next occurrence strictly after `at`. */
  predicate RuleRuns(cron: Cronos, rule: string, at: Instant) {
    cron.parses(Expr(rule)) && cron.nextOccurrence(Expr(rule), at, IncludeCurrentOccurrence).Some?
  }

  /** The exception the first rule that does not run raises: it does not parse, or `.Value` of its missing next occurrence. */
  function RuleError(cron: Cronos, rule: string): Exception {
    if cron.parses(Expr(rule)) then InvalidOperationException else CronFormatException
  }

  /** Rule `k` is the first of the list that does not run. */
  predicate FirstFailure(cron: Cronos, rules: seq<string>, at: Instant, k: int) {
    && 0 <= k < |rules| && !RuleRuns(cron, rules[k], at)
    && forall j :: 0 <= j < k ==> RuleRuns(cron, rules[j], at)
  }

  /**
   * The keys `OrderBy(e => e.Value)` computes, rule by rule: parse the rule, take its next
   * occurrence strictly after `at`, and read its value; the first rule that fails stops it all.
   */
  function NextOccurrences(cron: Cronos, rules: seq<string>, at: Instant): (r: Result<seq<Instant>, Exception>)
    ensures r.Success? <==> forall k :: 0 <= k < |rules| ==> RuleRuns(cron, rules[k], at)
    ensures r.Success? ==> |r.value| == |rules|
    ensures r.Success? ==> forall k :: 0 <= k < |rules| ==>
              Some(r.value[k]) == cron.nextOccurrence(Expr(rules[k]), at, IncludeCurrentOccurrence)
    ensures r.Failure? ==> exists k :: FirstFailure(cron, rules, at, k) && r.error == RuleError(cron, rules[k])
  {
    if |rules| == 0 then Success([])
    else
      var e :- ParseCronExpression(cron, rules[0]);
      var next := cron.nextOccurrence(e, at, IncludeCurrentOccurrence);
      if next.None? then Failure(InvalidOperationException)
      else
        var rest := NextOccurrences(cron, rules[1..], at);
        if rest.Failure? then
          var k :| FirstFailure(cron, rules[1..], at, k) && rest.error == RuleError(cron, rules[1..][k]);
          assert rules[k + 1] == rules[1..][k];
          assert forall j :: 0 < j < k + 1 ==> rules[j] == rules[1..][j - 1];
          assert FirstFailure(cron, rules, at, k + 1);
          Failure(rest.error)
        else
          assert forall k :: 0 < k < |rules| ==> rules[k] == rules[1..][k - 1];
          Success([next.value] + rest.value)
  }

  /** `OrderBy(t => t).FirstOrDefault()` on a non-empty list: the first of its smallest elements. */
  function Earliest(s: seq<Instant>): (m: Instant)
    requires |s| > 0
    ensures m in s
    ensures forall t :: t in s ==> m <= t
  {
    if |s| == 1 then s[0]
    else
      var m := Earliest(s[1..]);
      assert forall t :: t in s ==> t == s[0] || t in s[1..];
      if s[0] <= m then s[0] else m
  }

  /** The instant NextRunTime starts from: `now` for a `default` argument. */
  function StartOf(fromDateTime: Instant, now: Instant): Instant {
    if fromDateTime == MinValue then now else fromDateTime
  }

  /**
   * `NextRunTime(fromDateTime)`: the earliest of the rules' next occurrences strictly after the
   * starting instant; null when there are no rules. A null rule list fails at once.
   */
  function NextRunTime(rts: RunTimeSchedule, cron: Cronos, fromDateTime: Instant, now: Instant)
    : Result<Option<Instant>, Exception>
  {
    if rts.schedulerOptions.schedules.None? then Failure(ArgumentNullException)
    else
      var times :- NextOccurrences(cron, rts.schedulerOptions.schedules.value, StartOf(fromDateTime, now));
      if |times| == 0 then Success(None) else Success(Some(Earliest(times)))
  }

  /**
   * The next run time is strictly after the starting instant (an occurrence at that instant is
   * skipped), is the next occurrence of one rule and is no later than that of any rule; there
   * is none exactly when there are no rules; it fails exactly when some rule does not run.
   */
  lemma NextRunTimeIsEarliest(rts: RunTimeSchedule, cron: Cronos, fromDateTime: Instant, now: Instant)
    requires cron.Valid()
    ensures var r := NextRunTime(rts, cron, fromDateTime, now);
            var rules := rts.schedulerOptions.schedules;
            var at := StartOf(fromDateTime, now);
            && (rules.None? ==> r == Failure(ArgumentNullException))
            && (rules.Some? ==> (r.Success? <==> forall k :: 0 <= k < |rules.value| ==> RuleRuns(cron, rules.value[k], at)))
            && (r.Success? ==> (r.value.None? <==> |rules.value| == 0))
    ensures var r := NextRunTime(rts, cron, fromDateTime, now);
            var rules := rts.schedulerOptions.schedules;
            var at := StartOf(fromDateTime, now);
            r.Success? && r.value.Some? ==>
              && at < r.value.value
              && (exists k :: 0 <= k < |rules.value| && cron.nextOccurrence(Expr(rules.value[k]), at, false) == Some(r.value.value))
              && (forall k :: 0 <= k < |rules.value| ==> r.value.value <= cron.nextOccurrence(Expr(rules.value[k]), at, false).value)
  {
    var r := NextRunTime(rts, cron, fromDateTime, now);
    if r.Success? && r.value.Some? {
      var rules := rts.schedulerOptions.schedules.value;
      var at := StartOf(fromDateTime, now);
      var times := NextOccurrences(cron, rules, at).value;
      var m := r.value.value;
      assert m == Earliest(times);
      var k :| 0 <= k < |times| && times[k] == m;
      assert Some(times[k]) == cron.nextOccurrence(Expr(rules[k]), at, false);
      forall j | 0 <= j < |rules| ensures m <= cron.nextOccurrence(Expr(rules[j]), at, false).value {
        assert times[j] in times;
      }
    }
  }

  /** A `default` starting instant means now; any other starting instant ignores the clock. */
  lemma DefaultMeansNow(rts: RunTimeSchedule, cron: Cronos, fromDateTime: Instant, now: Instant, otherNow: Instant)
    ensures NextRunTime(rts, cron, MinValue, now) == NextRunTime(rts, cron, now, now)
    ensures fromDateTime != MinValue ==> NextRunTime(rts, cron, fromDateTime, now) == NextRunTime(rts, cron, fromDateTime, otherNow)
  {
  }
}
