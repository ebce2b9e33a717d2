/**
 * The Timeslot value: a span of time with an optional beginning and an optional end,
 * its validation, its equality and its hash code.
 */
module TimeslotValues {
  import opened Wrappers
  import opened Exceptions
  import opened DateTimeExtensions

  /** An immutable slot; `None` stands for a null bound. */
  datatype Timeslot = Timeslot(from: Option<Instant>, to: Option<Instant>)

  /** The format the string constructor reads by default. */
  const DefaultDateTimeFormat: string := "yyyy-MM-dd HH:mm"

  /** `to` is not strictly before `from` (an empty slot, to == from, passes). */
  predicate Ordered(from: Option<Instant>, to: Option<Instant>) {
    !(to.Some? && from.Some? && IsBefore(to.value, from.value))
  }

  /** The slots the constructors accept: at least one bound, and the bounds in order. */
  predicate Valid(t: Timeslot) {
    (t.from.Some? || t.to.Some?) && Ordered(t.from, t.to)
  }

  /** `new Timeslot(from, to)`: stores the bounds, then validates them. */
  function NewTimeslot(from: Option<Instant>, to: Option<Instant>): (r: Result<Timeslot, Exception>)
    ensures r.Success? <==> Valid(Timeslot(from, to))
    ensures r.Success? ==> r.value.from == from && r.value.to == to
    ensures r.Failure? ==> r.error == ArgumentException
  {
    if from.None? && to.None? then Failure(ArgumentException)
    else if to.Some? && from.Some? && IsBefore(to.value, from.value) then Failure(ArgumentException)
    else Success(Timeslot(from, to))
  }

  /** A slot with one bound only, and a slot whose end equals its beginning, are both accepted. */
  lemma NewTimeslotAccepts(t: Instant, u: Instant)
    ensures NewTimeslot(Some(t), None) == Success(Timeslot(Some(t), None))
    ensures NewTimeslot(None, Some(u)) == Success(Timeslot(None, Some(u)))
    ensures NewTimeslot(Some(t), Some(t)) == Success(Timeslot(Some(t), Some(t)))
    ensures NewTimeslot(Some(t), Some(u)).Success? <==> t <= u
  {
  }

  /** `char.IsWhiteSpace`: the Unicode separators and the control characters U+0009-U+000D and U+0085. */
  predicate IsWhiteSpace(c: char) {
    || ('\t' <= c <= '\r')                        // U+0009 to U+000D
    || c == ' ' || c == '\U{0085}' || c == '\U{00A0}' || c == '\U{1680}'
    || ('\U{2000}' <= c <= '\U{200A}')           // the typographic spaces
    || c == '\U{2028}' || c == '\U{2029}' || c == '\U{202F}' || c == '\U{205F}' || c == '\U{3000}'
  }

  /** `string.IsNullOrWhiteSpace(s)`. */
  predicate IsNullOrWhiteSpace(s: Option<string>) {
    s.None? || forall k :: 0 <= k < |s.value| ==> IsWhiteSpace(s.value[k])
  }

  /**
   * One bound of the string constructor: absent when the text is blank, otherwise what
   * `DateTimeOffset.ParseExact(text, format)` gives (a parameter: date parsing is not modelled).
   */
  function ParseBound(text: Option<string>, format: string, parseExact: (string, string) -> Result<Instant, Exception>)
    : (r: Result<Option<Instant>, Exception>)
    ensures IsNullOrWhiteSpace(text) ==> r == Success(None)
    ensures !IsNullOrWhiteSpace(text) ==> r.Failure? || r.value.Some?
    ensures !IsNullOrWhiteSpace(text) && r.Success? ==> parseExact(text.value, format) == Success(r.value.value)
  {
    if IsNullOrWhiteSpace(text) then Success(None)
    else
      var t :- parseExact(text.value, format);
      Success(Some(t))
  }

  /** `new Timeslot(fromAsString, toAsString, format)`: parses `from`, then `to`, then validates. */
  function NewTimeslotFromText(fromText: Option<string>, toText: Option<string>, format: string,
                               parseExact: (string, string) -> Result<Instant, Exception>)
    : (r: Result<Timeslot, Exception>)
    ensures IsNullOrWhiteSpace(fromText) && IsNullOrWhiteSpace(toText) ==> r == Failure(ArgumentException)
    ensures r.Success? ==> Valid(r.value)
    ensures r.Success? ==> (r.value.from.None? <==> IsNullOrWhiteSpace(fromText))
    ensures r.Success? ==> (r.value.to.None? <==> IsNullOrWhiteSpace(toText))
    ensures r.Success? && r.value.from.Some? ==> parseExact(fromText.value, format) == Success(r.value.from.value)
    ensures r.Success? && r.value.to.Some? ==> parseExact(toText.value, format) == Success(r.value.to.value)
  {
    var from :- ParseBound(fromText, format, parseExact);
    var to :- ParseBound(toText, format, parseExact);
    NewTimeslot(from, to)
  }

  /** `Equals(object obj)`: `None` stands for null or an object that is not a Timeslot. */
  function Equals(t: Timeslot, obj: Option<Timeslot>): (r: bool)
    ensures r <==> obj == Some(t)
  {
    obj.Some? && t.from == obj.value.from && t.to == obj.value.to
  }

  /** Equals is an equivalence on Timeslots and is false against anything else. */
  lemma EqualsIsEquivalence(a: Timeslot, b: Timeslot, c: Timeslot)
    ensures Equals(a, Some(a))
    ensures Equals(a, Some(b)) <==> Equals(b, Some(a))
    ensures Equals(a, Some(b)) && Equals(b, Some(c)) ==> Equals(a, Some(c))
    ensures !Equals(a, None)
  {
  }

  /** A 32-bit signed integer. */
  type Int32 = x: int | -0x8000_0000 <= x < 0x8000_0000

  /** Unchecked 32-bit arithmetic: the result is taken modulo 2^32 into the signed range. */
  function Wrap(x: int): (r: Int32)
    ensures (r - x) % 0x1_0000_0000 == 0
  {
    (x + 0x8000_0000) % 0x1_0000_0000 - 0x8000_0000
  }

  /** `Nullable<DateTimeOffset>.GetHashCode()`: 0 for null, the instant's hash otherwise. */
  function NullableHash(t: Option<Instant>, instantHash: Instant -> Int32): Int32 {
    if t.Some? then instantHash(t.value) else 0
  }

  /** `From.GetHashCode() + To.GetHashCode() * 2`, wrapping on overflow. */
  function GetHashCode(t: Timeslot, instantHash: Instant -> Int32): (h: Int32)
    ensures (h - NullableHash(t.from, instantHash) - 2 * NullableHash(t.to, instantHash)) % 0x1_0000_0000 == 0
  {
    var doubled := Wrap(NullableHash(t.to, instantHash) * 2);
    WrapSum(NullableHash(t.from, instantHash), doubled, NullableHash(t.to, instantHash) * 2);
    Wrap(NullableHash(t.from, instantHash) + doubled)
  }

  /** Wrapping a sum whose second term is already wrapped agrees with wrapping the exact sum. */
  lemma WrapSum(a: int, b: int, exact: int)
    requires (b - exact) % 0x1_0000_0000 == 0
    ensures (Wrap(a + b) - a - exact) % 0x1_0000_0000 == 0
  {
    var q := (b - exact) / 0x1_0000_0000;
    assert b == exact + 0x1_0000_0000 * q;
    var p := (Wrap(a + b) - (a + b)) / 0x1_0000_0000;
    assert Wrap(a + b) - a - exact == 0x1_0000_0000 * (p + q);
  }

  /** Slots that are Equal have the same hash code, and a slot with no end hashes as its beginning. */
  lemma EqualSlotsHashEqually(a: Timeslot, b: Timeslot, instantHash: Instant -> Int32)
    ensures Equals(a, Some(b)) ==> GetHashCode(a, instantHash) == GetHashCode(b, instantHash)
    ensures a.from.Some? && a.to.None? ==> GetHashCode(a, instantHash) == instantHash(a.from.value)
  {
  }
}
