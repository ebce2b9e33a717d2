/**
 * The cron library the schedules delegate to, and how a rule string is handed to it.
 *
 * The library is not modelled: it is a value of type Cronos, three functions that say
 * which expressions parse, which occurrences an expression has in a window and what its
 * next occurrence is. `Cronos.Valid()` is the contract the schedules rely on.
 */
module CronSource {
  import opened Wrappers
  import opened Exceptions
  import opened DateTimeExtensions

  /** CronFormat.Standard (five fields, minute precision) or CronFormat.IncludeSeconds (six fields). */
  datatype CronFormat = Standard | IncludeSeconds

  /** A rule as handed to CronExpression.Parse: its text and the format it is read in. */
  datatype CronExpression = CronExpression(text: string, format: CronFormat)

  datatype Cronos = Cronos(
    /** CronExpression.Parse succeeds (otherwise it throws CronFormatException). */
    parses: CronExpression -> bool,
    /** GetOccurrences(from, to, zone, fromInclusive: true, toInclusive: true). */
    occurrences: (CronExpression, Instant, Instant) -> seq<Instant>,
    /** GetNextOccurrence(at, zone, inclusive); None when the rule has no further occurrence. */
    nextOccurrence: (CronExpression, Instant, bool) -> Option<Instant>)
  {
    /**
     * What the schedules assume of the library: occurrences lie in the window, both ends
     * included; a next occurrence is at or after `at` (strictly after when not inclusive);
     * and every instant the library produces is a real DateTimeOffset, not before MinValue.
     */
    ghost predicate Valid() {
      && (forall e, from, to, t :: t in occurrences(e, from, to) ==> MinValue <= t && from <= t <= to)
      && (forall e, at, inclusive ::
            nextOccurrence(e, at, inclusive).Some? ==>
              && MinValue <= nextOccurrence(e, at, inclusive).value
              && (if inclusive then at <= nextOccurrence(e, at, inclusive).value
                  else at < nextOccurrence(e, at, inclusive).value))
    }
  }

  /** `s.Split(sep)`: the pieces between separators; adjacent separators give empty pieces. */
  function Split(s: string, sep: char): (parts: seq<string>)
    ensures |parts| >= 1
  {
    if |s| == 0 then [""]
    else
      var rest := Split(s[1..], sep);
      if s[0] == sep then [""] + rest
      else [[s[0]] + rest[0]] + rest[1..]
  }

  /** `string.Join(sep, parts)`. */
  function Join(parts: seq<string>, sep: char): string
    requires |parts| >= 1
  {
    if |parts| == 1 then parts[0] else parts[0] + [sep] + Join(parts[1..], sep)
  }

  function Count(s: string, c: char): nat {
    if |s| == 0 then 0 else (if s[0] == c then 1 else 0) + Count(s[1..], c)
  }

  /** Splitting yields one more piece than there are separators. */
  lemma {:induction false} SplitLength(s: string, sep: char)
    ensures |Split(s, sep)| == Count(s, sep) + 1
  {
    if |s| > 0 {
      SplitLength(s[1..], sep);
    }
  }

  /** Joining the pieces with the separator gives back the string, and no piece holds the separator. */
  lemma {:induction false} JoinSplit(s: string, sep: char)
    ensures Join(Split(s, sep), sep) == s
    ensures forall k :: 0 <= k < |Split(s, sep)| ==> sep !in Split(s, sep)[k]
  {
    if |s| > 0 {
      JoinSplit(s[1..], sep);
      var rest := Split(s[1..], sep);
      if s[0] == sep {
        assert Split(s, sep)[1..] == rest;
      } else {
        var parts := Split(s, sep);
        assert parts[0] == [s[0]] + rest[0];
        assert parts[1..] == rest[1..];
        if |rest| > 1 {
          assert Join(rest, sep) == rest[0] + [sep] + Join(rest[1..], sep);
        }
      }
    }
  }

  /** The format a rule is parsed in: seconds format exactly when it has six space-separated fields. */
  function DeduceCronFormat(rule: string): (f: CronFormat)
    ensures f == IncludeSeconds <==> Count(rule, ' ') == 5
  {
    SplitLength(rule, ' ');
    if |Split(rule, ' ')| == 6 then IncludeSeconds else Standard
  }

  /** The expression a rule string denotes. */
  function Expr(rule: string): CronExpression {
    CronExpression(rule, DeduceCronFormat(rule))
  }

  /** `CronExpression.Parse(rule, DeduceCronFormat(rule))`. */
  function ParseCronExpression(cron: Cronos, rule: string): (r: Result<CronExpression, Exception>)
    ensures r.Success? <==> cron.parses(Expr(rule))
    ensures r.Success? ==> r.value.text == rule && (r.value.format == IncludeSeconds <==> Count(rule, ' ') == 5)
    ensures r.Failure? ==> r.error == CronFormatException
  {
    if cron.parses(Expr(rule)) then Success(Expr(rule)) else Failure(CronFormatException)
  }

  /** Every rule of the list parses. */
  predicate AllParse(cron: Cronos, rules: seq<string>) {
    forall k :: 0 <= k < |rules| ==> cron.parses(Expr(rules[k]))
  }

  /** `t` is an occurrence, in [from, to], of one of the rules. */
  predicate OccursIn(cron: Cronos, rules: seq<string>, from: Instant, to: Instant, t: Instant) {
    exists k :: 0 <= k < |rules| && t in cron.occurrences(Expr(rules[k]), from, to)
  }

  /** A rule list parses exactly when its head parses and its tail does. */
  lemma AllParseCons(cron: Cronos, rules: seq<string>)
    requires |rules| > 0
    ensures AllParse(cron, rules) <==> cron.parses(Expr(rules[0])) && AllParse(cron, rules[1..])
  {
    if cron.parses(Expr(rules[0])) && AllParse(cron, rules[1..]) {
      forall k | 0 <= k < |rules| ensures cron.parses(Expr(rules[k])) {
        if k > 0 {
          assert rules[k] == rules[1..][k - 1];
        }
      }
    }
  }

  /** An instant occurs for a rule list exactly when it occurs for its head or for its tail. */
  lemma OccursInCons(cron: Cronos, rules: seq<string>, from: Instant, to: Instant)
    requires |rules| > 0
    ensures forall t :: OccursIn(cron, rules, from, to, t)
              <==> t in cron.occurrences(Expr(rules[0]), from, to) || OccursIn(cron, rules[1..], from, to, t)
  {
    forall t ensures OccursIn(cron, rules, from, to, t)
                 <==> t in cron.occurrences(Expr(rules[0]), from, to) || OccursIn(cron, rules[1..], from, to, t)
    {
      if OccursIn(cron, rules, from, to, t) && t !in cron.occurrences(Expr(rules[0]), from, to) {
        var k :| 0 <= k < |rules| && t in cron.occurrences(Expr(rules[k]), from, to);
        assert rules[1..][k - 1] == rules[k];
      }
      if OccursIn(cron, rules[1..], from, to, t) {
        var k :| 0 <= k < |rules[1..]| && t in cron.occurrences(Expr(rules[1..][k]), from, to);
        assert rules[k + 1] == rules[1..][k];
      }
    }
  }

  /**
   * `rules.SelectMany(generateOccurrences)`: each rule is parsed in turn, and its occurrences
   * in [from, to] follow those of the rules before it.
   */
  function OccurrencesOf(cron: Cronos, rules: seq<string>, from: Instant, to: Instant): (r: Result<seq<Instant>, Exception>)
    ensures r.Success? <==> AllParse(cron, rules)
    ensures r.Failure? ==> r.error == CronFormatException
    ensures r.Success? ==> forall t :: t in r.value <==> OccursIn(cron, rules, from, to, t)
  {
    if |rules| == 0 then Success([])
    else
      AllParseCons(cron, rules);
      OccursInCons(cron, rules, from, to);
      var e :- ParseCronExpression(cron, rules[0]);
      var rest :- OccurrencesOf(cron, rules[1..], from, to);
      Success(cron.occurrences(e, from, to) + rest)
  }

  /** Two rule lists with the same rules, in any order and with any repetition, parse alike and have the same occurrences. */
  lemma SameRulesSameOccurrences(cron: Cronos, a: seq<string>, b: seq<string>, from: Instant, to: Instant)
    requires forall rule :: rule in a <==> rule in b
    ensures AllParse(cron, a) <==> AllParse(cron, b)
    ensures forall t :: OccursIn(cron, a, from, to, t) <==> OccursIn(cron, b, from, to, t)
  {
    forall t | OccursIn(cron, a, from, to, t) ensures OccursIn(cron, b, from, to, t) {
      var k :| 0 <= k < |a| && t in cron.occurrences(Expr(a[k]), from, to);
      assert a[k] in b;
      var l :| 0 <= l < |b| && b[l] == a[k];
    }
    forall t | OccursIn(cron, b, from, to, t) ensures OccursIn(cron, a, from, to, t) {
      var l :| 0 <= l < |b| && t in cron.occurrences(Expr(b[l]), from, to);
      assert b[l] in a;
      var k :| 0 <= k < |a| && a[k] == b[l];
    }
    if AllParse(cron, a) {
      forall l | 0 <= l < |b| ensures cron.parses(Expr(b[l])) {
        assert b[l] in a;
        var k :| 0 <= k < |a| && a[k] == b[l];
      }
    }
    if AllParse(cron, b) {
      forall k | 0 <= k < |a| ensures cron.parses(Expr(a[k])) {
        assert a[k] in b;
        var l :| 0 <= l < |b| && b[l] == a[k];
      }
    }
  }
}
