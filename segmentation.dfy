/**
 * Cutting a time-ordered event stream into timeslots, the loop shared by Schedule.Timeslots
 * and TimeSlotSchedule.Schedule.
 *
 * The remaining events of the loop are always a suffix s[i..] of the sorted stream: SkipWhile
 * on a sorted stream drops a prefix, and sorting a sorted stream again changes nothing
 * (Events.OrderByWhenOfSorted).
 */
module TimeslotSegmentation {
  import opened Wrappers
  import opened DateTimeExtensions
  import opened Events
  import opened TimeslotValues

  /** `First(e => e.What == Begin)` on s[i..]: the index of the first Begin, |s| when there is none. */
  function FirstBeginFrom(s: seq<Event>, i: nat): (b: nat)
    requires i <= |s|
    ensures i <= b <= |s|
    ensures b < |s| ==> s[b].what == Begin
    ensures forall k :: i <= k < b ==> s[k].what == End
    decreases |s| - i
  {
    if i == |s| || s[i].what == Begin then i
    else
      assert s[i].what == End;
      FirstBeginFrom(s, i + 1)
  }

  predicate IsEndAfter(e: Event, start: Instant) {
    e.what == End && e.when > start
  }

  /** `FirstOrDefault(e => e.What == End && e.When > start)` on s[i..]: |s| when there is none. */
  function FirstEndAfterFrom(s: seq<Event>, i: nat, start: Instant): (e: nat)
    requires i <= |s|
    ensures i <= e <= |s|
    ensures e < |s| ==> IsEndAfter(s[e], start)
    ensures forall k :: i <= k < e ==> !IsEndAfter(s[k], start)
    decreases |s| - i
  {
    if i == |s| || IsEndAfter(s[i], start) then i else FirstEndAfterFrom(s, i + 1, start)
  }

  /** `SkipWhile(e => e.When <= (to ?? MaxValue))` on s[i..]: an absent end skips everything. */
  function SkipThrough(s: seq<Event>, i: nat, to: Option<Instant>): (j: nat)
    requires i <= |s|
    ensures i <= j <= |s|
    ensures forall k :: i <= k < j ==> to.None? || s[k].when <= to.value
    ensures j < |s| ==> to.Some? && s[j].when > to.value
    decreases |s| - i
  {
    if i == |s| || (to.Some? && s[i].when > to.value) then i else SkipThrough(s, i + 1, to)
  }

  /** The end of the slot opened at `start`: the time of the first End after it in s[i..], if any. */
  function SlotEnd(s: seq<Event>, i: nat, start: Instant): Option<Instant>
    requires i <= |s|
  {
    var e := FirstEndAfterFrom(s, i, start);
    if e < |s| then Some(s[e].when) else None
  }

  /** The slots the loop emits from the remaining events s[i..]. */
  function SegmentationFrom(s: seq<Event>, i: nat): seq<Timeslot>
    requires i <= |s| && SortedByWhen(s)
    decreases |s| - i
  {
    var b := FirstBeginFrom(s, i);
    if b == |s| then []
    else
      var to := SlotEnd(s, i, s[b].when);
      var j := SkipThrough(s, i, to);
      assert s[i].when <= s[b].when;
      [Timeslot(Some(s[b].when), to)] + SegmentationFrom(s, j)
  }

  function Segmentation(s: seq<Event>): seq<Timeslot>
    requires SortedByWhen(s)
  {
    SegmentationFrom(s, 0)
  }

  /**
   * Every slot has a beginning and, when it has an end, ends strictly after it begins; each
   * slot but the last is closed and ends strictly before the next one begins.
   */
  predicate WellFormedSlots(slots: seq<Timeslot>) {
    && (forall k :: 0 <= k < |slots| ==>
          slots[k].from.Some? && (slots[k].to.Some? ==> slots[k].from.value < slots[k].to.value))
    && (forall k :: 0 <= k < |slots| - 1 ==>
          slots[k].to.Some? && slots[k].to.value < slots[k + 1].from.value)
  }

  /** The slot contains `t`, both ends included; an open slot extends forever. */
  predicate Covers(slot: Timeslot, t: Instant) {
    slot.from.Some? && slot.from.value <= t && (slot.to.None? || t <= slot.to.value)
  }

  /** `t` lies strictly between the slot's ends. */
  predicate StrictlyInside(slot: Timeslot, t: Instant) {
    slot.from.Some? && slot.from.value < t && (slot.to.None? || t < slot.to.value)
  }

  /** The slot opens at a Begin of s[i..] and, when it is closed, closes later at an End of s[i..]. */
  predicate SlotFromEvents(s: seq<Event>, i: nat, slot: Timeslot)
    requires i <= |s|
  {
    && slot.from.Some? && i < |s| && s[i].when <= slot.from.value
    && Event(slot.from.value, Begin) in s[i..]
    && (slot.to.Some? ==> slot.from.value < slot.to.value && Event(slot.to.value, End) in s[i..])
  }

  /** Each slot opens at a Begin and closes at an End of the remaining events, later than the Begin. */
  lemma {:induction false} SlotsComeFromEvents(s: seq<Event>, i: nat)
    requires i <= |s| && SortedByWhen(s)
    ensures forall slot :: slot in SegmentationFrom(s, i) ==> SlotFromEvents(s, i, slot)
    decreases |s| - i
  {
    var b := FirstBeginFrom(s, i);
    if b < |s| {
      var to := SlotEnd(s, i, s[b].when);
      var j := SkipThrough(s, i, to);
      assert s[i].when <= s[b].when;
      SlotsComeFromEvents(s, j);
      var first := Timeslot(Some(s[b].when), to);
      var rest := SegmentationFrom(s, j);
      assert SegmentationFrom(s, i) == [first] + rest;
      assert s[i..][b - i] == s[b];
      var e := FirstEndAfterFrom(s, i, s[b].when);
      if e < |s| {
        assert s[i..][e - i] == s[e];
      }
      assert Event(s[b].when, Begin) == s[b];
      assert SlotFromEvents(s, i, first);
      forall slot | slot in rest ensures SlotFromEvents(s, i, slot) {
        assert SlotFromEvents(s, j, slot);
        assert s[j..] == s[i..][j - i..];
        assert s[i].when <= s[j].when;
      }
    }
  }

  /** A valid slot ending before well-formed slots begin, put in front of them, keeps them well formed. */
  lemma WellFormedCons(first: Timeslot, rest: seq<Timeslot>)
    requires first.from.Some? && (first.to.Some? ==> first.from.value < first.to.value)
    requires WellFormedSlots(rest)
    requires |rest| > 0 ==> first.to.Some? && first.to.value < rest[0].from.value
    ensures WellFormedSlots([first] + rest)
  {
    var r := [first] + rest;
    forall k | 0 < k < |r| ensures r[k] == rest[k - 1] {}
  }

  /** The loop's slots are well formed: ascending, disjoint, and only the last may be open. */
  lemma {:induction false} SegmentationIsWellFormed(s: seq<Event>, i: nat)
    requires i <= |s| && SortedByWhen(s)
    ensures WellFormedSlots(SegmentationFrom(s, i))
    decreases |s| - i
  {
    var b := FirstBeginFrom(s, i);
    if b < |s| {
      var first := Timeslot(Some(s[b].when), SlotEnd(s, i, s[b].when));
      var j := SkipThrough(s, i, first.to);
      SegmentationStep(s, i, []);
      SegmentationIsWellFormed(s, j);
      SlotsComeFromEvents(s, j);
      var rest := SegmentationFrom(s, j);
      if |rest| > 0 {
        assert rest[0] in rest;
        assert SlotFromEvents(s, j, rest[0]);
      }
      WellFormedCons(first, rest);
    }
  }

  /** In well-formed slots every slot ends before any later slot begins: they are disjoint and in order. */
  lemma {:induction false} WellFormedSlotsAreOrdered(slots: seq<Timeslot>, k: nat, l: nat)
    requires WellFormedSlots(slots) && k < l < |slots|
    ensures slots[k].to.Some? && slots[k].to.value < slots[l].from.value
    decreases l - k
  {
    if l > k + 1 {
      WellFormedSlotsAreOrdered(slots, k, l - 1);
      assert slots[l - 1].from.value < slots[l - 1].to.value < slots[l].from.value;
    }
  }

  /** Every Begin among the remaining events falls inside one of the slots. */
  lemma {:induction false} EveryBeginIsCovered(s: seq<Event>, i: nat)
    requires i <= |s| && SortedByWhen(s)
    ensures forall k :: i <= k < |s| && s[k].what == Begin ==>
              exists slot :: slot in SegmentationFrom(s, i) && Covers(slot, s[k].when)
    decreases |s| - i
  {
    var b := FirstBeginFrom(s, i);
    if b < |s| {
      var first := Timeslot(Some(s[b].when), SlotEnd(s, i, s[b].when));
      var j := SkipThrough(s, i, first.to);
      assert s[i].when <= s[b].when;
      EveryBeginIsCovered(s, j);
      var rest := SegmentationFrom(s, j);
      assert SegmentationFrom(s, i) == [first] + rest;
      forall k | i <= k < |s| && s[k].what == Begin
        ensures exists slot :: slot in SegmentationFrom(s, i) && Covers(slot, s[k].when)
      {
        if k < j {
          assert b <= k;
          assert s[b].when <= s[k].when;
          assert Covers(first, s[k].when);
        } else {
          var slot :| slot in rest && Covers(slot, s[k].when);
          assert slot in SegmentationFrom(s, i);
        }
      }
    }
  }

  /** No End among the remaining events falls strictly inside a slot: each slot ends at the first End after it opens. */
  lemma {:induction false} NoEndInsideSlot(s: seq<Event>, i: nat)
    requires i <= |s| && SortedByWhen(s)
    ensures forall slot, k :: slot in SegmentationFrom(s, i) && i <= k < |s| && s[k].what == End ==>
              !StrictlyInside(slot, s[k].when)
    decreases |s| - i
  {
    var b := FirstBeginFrom(s, i);
    if b < |s| {
      var start := s[b].when;
      var e := FirstEndAfterFrom(s, i, start);
      var first := Timeslot(Some(start), SlotEnd(s, i, start));
      var j := SkipThrough(s, i, first.to);
      assert s[i].when <= start;
      NoEndInsideSlot(s, j);
      SlotsComeFromEvents(s, j);
      var rest := SegmentationFrom(s, j);
      assert SegmentationFrom(s, i) == [first] + rest;
      forall slot, k | slot in SegmentationFrom(s, i) && i <= k < |s| && s[k].what == End
        ensures !StrictlyInside(slot, s[k].when)
      {
        if slot == first {
          if k < e {
            assert !IsEndAfter(s[k], start);
          } else if k > e {
            assert s[e].when <= s[k].when;
          }
        } else {
          assert slot in rest;
          assert SlotFromEvents(s, j, slot);
          if k < j {
            assert s[k].when <= first.to.value;
          }
        }
      }
    }
  }

  /**
   * One round of the loop: the slot opened at the first remaining Begin and closed at the first
   * End after it is valid, and it follows the slots emitted so far.
   */
  lemma SegmentationStep(s: seq<Event>, i: nat, done: seq<Timeslot>)
    requires i <= |s| && SortedByWhen(s) && FirstBeginFrom(s, i) < |s|
    ensures var start := s[FirstBeginFrom(s, i)].when;
            var e := FirstEndAfterFrom(s, i, start);
            var slot := Timeslot(Some(start), if e < |s| then Some(s[e].when) else None);
            && NewTimeslot(slot.from, slot.to) == Success(slot)
            && done + SegmentationFrom(s, i) == (done + [slot]) + SegmentationFrom(s, SkipThrough(s, i, slot.to))
  {
    assert s[i].when <= s[FirstBeginFrom(s, i)].when;
  }

  /**
   * Segmenting events in time order: the slots are well formed, every Begin lies in a slot and
   * no End lies strictly inside one.
   */
  lemma SegmentationOfEvents(s: seq<Event>)
    ensures var slots := Segmentation(OrderByWhen(s));
            && WellFormedSlots(slots)
            && (forall t :: Event(t, Begin) in s ==> exists slot :: slot in slots && Covers(slot, t))
            && (forall t, slot :: Event(t, End) in s && slot in slots ==> !StrictlyInside(slot, t))
  {
    var sorted := OrderByWhen(s);
    SameElements(s, sorted);
    SegmentationIsWellFormed(sorted, 0);
    EveryBeginIsCovered(sorted, 0);
    NoEndInsideSlot(sorted, 0);
    forall t | Event(t, Begin) in s
      ensures exists slot :: slot in Segmentation(sorted) && Covers(slot, t)
    {
      assert Event(t, Begin) in sorted;
      var k :| 0 <= k < |sorted| && sorted[k] == Event(t, Begin);
    }
    forall t, slot | Event(t, End) in s && slot in Segmentation(sorted)
      ensures !StrictlyInside(slot, t)
    {
      assert Event(t, End) in sorted;
      var k :| 0 <= k < |sorted| && sorted[k] == Event(t, End);
    }
  }

  /** Segmenting a previous event in front of other events: the facts of SegmentationOfEvents, stated for each part. */
  lemma SegmentationWithPrevious(p: Event, events: seq<Event>)
    ensures var slots := Segmentation(OrderByWhen([p] + events));
            && WellFormedSlots(slots)
            && (forall t :: Event(t, Begin) in events ==> exists slot :: slot in slots && Covers(slot, t))
            && (p.what == Begin ==> exists slot :: slot in slots && Covers(slot, p.when))
            && (forall t, slot :: Event(t, End) in events && slot in slots ==> !StrictlyInside(slot, t))
  {
    var s := [p] + events;
    SegmentationOfEvents(s);
    assert forall e :: e in events ==> e in s;
    if p.what == Begin {
      assert Event(p.when, Begin) == s[0];
    }
  }

  /** In a sorted stream, the first slot opens no later than any Begin of the stream. */
  lemma FirstSlotOpensByBeginSorted(s: seq<Event>, k: nat)
    requires SortedByWhen(s) && k < |s| && s[k].what == Begin
    ensures var slots := Segmentation(s);
            |slots| > 0 && slots[0].from.Some? && slots[0].from.value <= s[k].when
  {
    var b := FirstBeginFrom(s, 0);
    assert b <= k;
    SegmentationStep(s, 0, []);
    assert s[b].when <= s[k].when;
  }

  /** When the events hold a Begin, there is a first slot, and it opens no later than that Begin. */
  lemma FirstSlotOpensByBegin(s: seq<Event>, t: Instant)
    requires Event(t, Begin) in s
    ensures var slots := Segmentation(OrderByWhen(s));
            |slots| > 0 && slots[0].from.Some? && slots[0].from.value <= t
  {
    var sorted := OrderByWhen(s);
    SameElements(s, sorted);
    assert Event(t, Begin) in sorted;
    var k :| 0 <= k < |sorted| && sorted[k] == Event(t, Begin);
    FirstSlotOpensByBeginSorted(sorted, k);
  }

  /**
   * The loop of Schedule.Timeslots: while a Begin remains, open a slot there, close it at the
   * first End after it (or leave it open), and drop every event up to its end.
   */
  method Segment(events: seq<Event>) returns (slots: seq<Timeslot>)
    requires SortedByWhen(events)
    ensures slots == Segmentation(events)
    ensures WellFormedSlots(slots)
  {
    SegmentationIsWellFormed(events, 0);
    slots := [];
    var i := 0;
    while FirstBeginFrom(events, i) < |events|
      invariant i <= |events|
      invariant slots + SegmentationFrom(events, i) == Segmentation(events)
      decreases |events| - i
    {
      SegmentationStep(events, i, slots);
      var start := events[FirstBeginFrom(events, i)];
      var stop := FirstEndAfterFrom(events, i, start.when);
      var to := if stop < |events| then Some(events[stop].when) else None;
      var current := NewTimeslot(Some(start.when), to);
      slots := slots + [current.value];
      i := SkipThrough(events, i, current.value.to);
    }
  }
}
