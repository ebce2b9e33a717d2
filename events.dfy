/**
 * Timeslot events and the ordering operations the schedules apply to them:
 * a stable sort by time (LINQ OrderBy), LastOrDefault and FirstOrDefault.
 */
module Events {
  import opened Wrappers
  import opened DateTimeExtensions

  datatype EventType = Begin | End

  /** An immutable event: when it happens and whether it opens or closes a timeslot. */
  datatype Event = Event(when: Instant, what: EventType)

  /** `occurrences.Select(o => new Event(o, kind))`. */
  function Tag(occurrences: seq<Instant>, kind: EventType): (r: seq<Event>)
    ensures |r| == |occurrences|
    ensures forall i :: 0 <= i < |r| ==> r[i] == Event(occurrences[i], kind)
  {
    seq(|occurrences|, i requires 0 <= i < |occurrences| => Event(occurrences[i], kind))
  }

  /** The tagged events are exactly the occurrences, each with the given kind. */
  lemma TagContains(occurrences: seq<Instant>, kind: EventType)
    ensures forall e: Event :: e in Tag(occurrences, kind) <==> e.what == kind && e.when in occurrences
  {
    var r := Tag(occurrences, kind);
    forall e: Event | e.what == kind && e.when in occurrences ensures e in r {
      var i :| 0 <= i < |occurrences| && occurrences[i] == e.when;
      assert r[i] == e;
    }
  }

  /** Tagging distributes over concatenation: tagging rule by rule equals tagging the whole list. */
  lemma TagConcat(a: seq<Instant>, b: seq<Instant>, kind: EventType)
    ensures Tag(a + b, kind) == Tag(a, kind) + Tag(b, kind)
  {
  }

  predicate SortedByWhen(s: seq<Event>) {
    forall i, j :: 0 <= i < j < |s| ==> s[i].when <= s[j].when
  }

  /** No Begin comes after an End: start events were concatenated before stop events. */
  predicate BeginsBeforeEnds(s: seq<Event>) {
    forall i, j :: 0 <= i < j < |s| && s[i].what == End ==> s[j].what == End
  }

  /** Begins followed by Ends have every Begin before every End. */
  lemma BeginsThenEnds(starts: seq<Event>, stops: seq<Event>)
    requires forall i :: 0 <= i < |starts| ==> starts[i].what == Begin
    requires forall i :: 0 <= i < |stops| ==> stops[i].what == End
    ensures BeginsBeforeEnds(starts + stops)
  {
    var s := starts + stops;
    forall i | 0 <= i < |s| ensures s[i].what == (if i < |starts| then Begin else End) {
      if i < |starts| {
        assert s[i] == starts[i];
      } else {
        assert s[i] == stops[i - |starts|];
      }
    }
  }

  /** Among events at the same instant, every Begin comes before every End. */
  predicate EndsLastAmongTies(s: seq<Event>) {
    forall i, j :: 0 <= i < j < |s| && s[i].when == s[j].when && s[i].what == End ==> s[j].what == End
  }

  /** The index of the first event strictly later than `w` (|s| if none). */
  function FirstLaterIndex(s: seq<Event>, w: Instant): (p: nat)
    ensures p <= |s|
    ensures forall i :: 0 <= i < p ==> s[i].when <= w
    ensures p < |s| ==> s[p].when > w
  {
    if |s| == 0 || s[0].when > w then 0 else 1 + FirstLaterIndex(s[1..], w)
  }

  /** Inserts `x` after every event that is not later than it, keeping equal times in arrival order. */
  function InsertByWhen(s: seq<Event>, x: Event): (r: seq<Event>)
    ensures |r| == |s| + 1
    ensures var p := FirstLaterIndex(s, x.when);
            && r[p] == x
            && (forall i :: 0 <= i < p ==> r[i] == s[i])
            && (forall i :: p < i < |r| ==> r[i] == s[i - 1])
  {
    var p := FirstLaterIndex(s, x.when);
    s[..p] + [x] + s[p..]
  }

  /** Inserting adds the one event and loses none. */
  lemma InsertIsPermutation(s: seq<Event>, x: Event)
    ensures multiset(InsertByWhen(s, x)) == multiset(s) + multiset{x}
  {
    var p := FirstLaterIndex(s, x.when);
    assert s == s[..p] + s[p..];
    assert InsertByWhen(s, x) == s[..p] + [x] + s[p..];
  }

  lemma InsertKeepsSorted(s: seq<Event>, x: Event)
    requires SortedByWhen(s)
    ensures SortedByWhen(InsertByWhen(s, x))
  {
    var p := FirstLaterIndex(s, x.when);
    var r := InsertByWhen(s, x);
    forall i, j | 0 <= i < j < |r| ensures r[i].when <= r[j].when {
      if j < p {
        assert r[i] == s[i] && r[j] == s[j];
      } else if j == p {
        assert r[i] == s[i];
      } else if i < p {
        assert r[i] == s[i] && r[j] == s[j - 1];
      } else if i == p {
        assert r[j] == s[j - 1] && s[p].when <= s[j - 1].when;
      } else {
        assert r[i] == s[i - 1] && r[j] == s[j - 1];
      }
    }
  }

  /** `s.OrderBy(e => e.When)`: a stable sort, here an insertion sort in arrival order. */
  function OrderByWhen(s: seq<Event>): (r: seq<Event>)
    ensures SortedByWhen(r)
    ensures multiset(r) == multiset(s)
  {
    if |s| == 0 then []
    else
      assert s == s[..|s| - 1] + [s[|s| - 1]];
      InsertKeepsSorted(OrderByWhen(s[..|s| - 1]), s[|s| - 1]);
      InsertIsPermutation(OrderByWhen(s[..|s| - 1]), s[|s| - 1]);
      InsertByWhen(OrderByWhen(s[..|s| - 1]), s[|s| - 1])
  }

  /** Two sequences with the same multiset hold the same events. */
  lemma SameElements(s: seq<Event>, r: seq<Event>)
    requires multiset(s) == multiset(r)
    ensures |s| == |r|
    ensures forall e :: e in s <==> e in r
  {
    assert |s| == |multiset(s)| == |multiset(r)| == |r|;
    forall e ensures e in s <==> e in r {
      assert e in s <==> e in multiset(s);
      assert e in r <==> e in multiset(r);
    }
  }

  /** Inserting an End after every event not later than it keeps Begins before Ends at each instant. */
  lemma InsertEndKeepsTies(s: seq<Event>, x: Event)
    requires SortedByWhen(s) && EndsLastAmongTies(s) && x.what == End
    ensures EndsLastAmongTies(InsertByWhen(s, x))
  {
    var p := FirstLaterIndex(s, x.when);
    var r := InsertByWhen(s, x);
    forall i, j | 0 <= i < j < |r| && r[i].when == r[j].when && r[i].what == End
      ensures r[j].what == End
    {
      if j > p {
        assert r[j] == s[j - 1] && s[j - 1].when >= s[p].when > x.when;
      }
      if j < p {
        assert r[i] == s[i] && r[j] == s[j];
      } else if i < p && p < j {
        assert r[i] == s[i];
      } else if p < i {
        assert r[i] == s[i - 1];
      }
    }
  }

  predicate AllBegin(s: seq<Event>) {
    forall i :: 0 <= i < |s| ==> s[i].what == Begin
  }

  lemma AllBeginTies(s: seq<Event>)
    requires AllBegin(s)
    ensures EndsLastAmongTies(s)
  {
  }

  /** A permutation of Begins holds only Begins. */
  lemma AllBeginPermuted(s: seq<Event>, r: seq<Event>)
    requires AllBegin(s) && multiset(r) == multiset(s)
    ensures AllBegin(r)
  {
    forall i | 0 <= i < |r| ensures r[i].what == Begin {
      assert r[i] in multiset(r);
      assert r[i] in multiset(s);
      var k :| 0 <= k < |s| && s[k] == r[i];
    }
  }

  /** Dropping the last event keeps the Begins before the Ends. */
  lemma BeginsBeforeEndsInit(s: seq<Event>)
    requires BeginsBeforeEnds(s) && |s| > 0
    ensures BeginsBeforeEnds(s[..|s| - 1])
  {
    var init := s[..|s| - 1];
    forall i, j | 0 <= i < j < |init| && init[i].what == End ensures init[j].what == End {
      assert init[i] == s[i] && init[j] == s[j];
    }
  }

  /** The stable sort of a stream whose Begins precede its Ends keeps, at every instant, Begins before Ends. */
  lemma {:induction false} OrderByWhenKeepsBeginsFirst(s: seq<Event>)
    requires BeginsBeforeEnds(s)
    ensures EndsLastAmongTies(OrderByWhen(s))
  {
    if |s| > 0 {
      var init, x := s[..|s| - 1], s[|s| - 1];
      assert s == init + [x];
      var sorted := OrderByWhen(init);
      assert OrderByWhen(s) == InsertByWhen(sorted, x);
      if x.what == Begin {
        assert AllBegin(s);
        AllBeginPermuted(s, OrderByWhen(s));
        AllBeginTies(OrderByWhen(s));
      } else {
        BeginsBeforeEndsInit(s);
        OrderByWhenKeepsBeginsFirst(init);
        InsertEndKeepsTies(sorted, x);
      }
    }
  }

  /** Inserting an event no earlier than every event of the list appends it. */
  lemma InsertLatest(s: seq<Event>, x: Event)
    requires forall i :: 0 <= i < |s| ==> s[i].when <= x.when
    ensures InsertByWhen(s, x) == s + [x]
  {
    assert FirstLaterIndex(s, x.when) == |s|;
  }

  /** Sorting a stream that is already in time order leaves it unchanged, because the sort is stable. */
  lemma {:induction false} OrderByWhenOfSorted(s: seq<Event>)
    requires SortedByWhen(s)
    ensures OrderByWhen(s) == s
  {
    if |s| > 0 {
      var init, x := s[..|s| - 1], s[|s| - 1];
      assert s == init + [x];
      assert SortedByWhen(init) && forall i :: 0 <= i < |init| ==> init[i].when <= x.when by {
        forall i | 0 <= i < |init| ensures init[i] == s[i] {}
      }
      OrderByWhenOfSorted(init);
      InsertLatest(init, x);
    }
  }

  /** The index of the last event not later than `at` (-1 if none). */
  function LastIndexAtOrBefore(s: seq<Event>, at: Instant): (k: int)
    ensures -1 <= k < |s|
    ensures k >= 0 ==> s[k].when <= at
    ensures forall j :: k < j < |s| ==> s[j].when > at
  {
    if |s| == 0 then -1
    else if s[|s| - 1].when <= at then |s| - 1
    else LastIndexAtOrBefore(s[..|s| - 1], at)
  }

  /** `s.LastOrDefault(e => e.When <= at)`. */
  function LastAtOrBefore(s: seq<Event>, at: Instant): Option<Event> {
    var k := LastIndexAtOrBefore(s, at);
    if k < 0 then None else Some(s[k])
  }

  /** `s.FirstOrDefault()`. */
  function FirstOrDefault(s: seq<Event>): Option<Event> {
    if |s| == 0 then None else Some(s[0])
  }

  /** In a sorted stream where Ends follow Begins at each instant, LastAtOrBefore finds the latest event, an End at a tie. */
  lemma LatestInSorted(r: seq<Event>, at: Instant)
    requires SortedByWhen(r) && EndsLastAmongTies(r)
    ensures LastAtOrBefore(r, at).None? <==> forall e :: e in r ==> e.when > at
    ensures LastAtOrBefore(r, at).Some? ==>
              var p := LastAtOrBefore(r, at).value;
              && p in r && p.when <= at
              && (forall e :: e in r && e.when <= at ==> e.when <= p.when)
              && (p.what == Begin ==> Event(p.when, End) !in r)
  {
    var k := LastIndexAtOrBefore(r, at);
    if k >= 0 {
      var p := r[k];
      forall m | 0 <= m < |r| && r[m].when <= at ensures r[m].when <= p.when {
        assert m <= k;
      }
      if p.what == Begin {
        forall m | 0 <= m < |r| ensures r[m] != Event(p.when, End) {
          if m > k {
            assert r[m].when > at;
          } else if m < k && r[m].when == p.when {
            assert r[m].what == Begin;
          }
        }
      }
    }
  }

  /**
   * Sorting a Begins-then-Ends stream and taking the last event not later than `at` yields
   * the latest such event; at a tie an End wins.
   */
  lemma LatestAtOrBefore(s: seq<Event>, at: Instant)
    requires BeginsBeforeEnds(s)
    ensures LastAtOrBefore(OrderByWhen(s), at).None? <==> forall e :: e in s ==> e.when > at
    ensures LastAtOrBefore(OrderByWhen(s), at).Some? ==>
              var p := LastAtOrBefore(OrderByWhen(s), at).value;
              && p in s && p.when <= at
              && (forall e :: e in s && e.when <= at ==> e.when <= p.when)
              && (p.what == Begin ==> Event(p.when, End) !in s)
  {
    OrderByWhenKeepsBeginsFirst(s);
    SameElements(s, OrderByWhen(s));
    LatestInSorted(OrderByWhen(s), at);
  }

  /** A Begin at or before `at` that no End closes, an End at the same instant included. */
  ghost predicate UnclosedBegin(s: seq<Event>, at: Instant) {
    exists t :: t <= at && Event(t, Begin) in s && forall u :: t <= u <= at ==> Event(u, End) !in s
  }

  /** The latest event at or before `at` is a Begin exactly when some Begin is still open at `at`. */
  lemma LatestIsBeginIffUnclosed(s: seq<Event>, at: Instant)
    requires BeginsBeforeEnds(s)
    ensures (var p := LastAtOrBefore(OrderByWhen(s), at); p.Some? && p.value.what == Begin) <==> UnclosedBegin(s, at)
  {
    LatestAtOrBefore(s, at);
    var last := LastAtOrBefore(OrderByWhen(s), at);
    if last.Some? && last.value.what == Begin {
      var p := last.value;
      assert Event(p.when, Begin) in s;
      forall u | p.when <= u <= at ensures Event(u, End) !in s {
        assert Event(u, End) in s ==> u <= p.when;
      }
    }
    if UnclosedBegin(s, at) {
      var t :| t <= at && Event(t, Begin) in s && forall u :: t <= u <= at ==> Event(u, End) !in s;
      var p := last.value;
      assert t <= p.when <= at;
      assert Event(p.when, End) !in s;
      assert p != Event(p.when, End);
    }
  }

  /** The head of a sorted stream with Ends last at each instant is its earliest event, and an End there has no Begin beside it. */
  lemma HeadOfSorted(r: seq<Event>)
    requires SortedByWhen(r) && EndsLastAmongTies(r) && |r| > 0
    ensures forall e :: e in r ==> r[0].when <= e.when
    ensures r[0].what == End ==> Event(r[0].when, Begin) !in r
  {
    forall m | 0 < m < |r| ensures r[0].when <= r[m].when && (r[0].what == End ==> r[m] != Event(r[0].when, Begin)) {
    }
  }

  /**
   * Sorting a Begins-then-Ends stream and taking the first event yields the earliest event;
   * at a tie a Begin wins.
   */
  lemma EarliestFirst(s: seq<Event>)
    requires BeginsBeforeEnds(s)
    ensures FirstOrDefault(OrderByWhen(s)).None? <==> |s| == 0
    ensures FirstOrDefault(OrderByWhen(s)).Some? ==>
              var f := FirstOrDefault(OrderByWhen(s)).value;
              && f in s
              && (forall e :: e in s ==> f.when <= e.when)
              && (f.what == End ==> Event(f.when, Begin) !in s)
  {
    var sorted := OrderByWhen(s);
    OrderByWhenKeepsBeginsFirst(s);
    SameElements(s, sorted);
    if |s| > 0 {
      HeadOfSorted(sorted);
    }
  }
}
