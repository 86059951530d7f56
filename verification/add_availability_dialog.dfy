/**
 * The teacher's "Add Availability" dialog: a calendar date and two `HH:MM` times are turned
 * into a new time slot for the offer, after checking that the range is not empty.
 *
 * A calendar date is a day number and an instant is a whole minute: the instant at clock
 * time h:m of day d is `d * 1440 + h * 60 + m`. A time that cannot be parsed gives an
 * invalid date, as `setHours` with `NaN` does.
 */
module AddAvailabilityDialog {
  import opened Wrappers
  import Text
  import Store

  const MinutesPerDay: int := 1440

  /**
   * `Number(s)` for the strings a time field produces: surrounding white space is ignored,
   * the empty string is 0, a run of decimal digits is its value, and anything else is
   * `NaN` (`None`).
   */
  function NumberOf(s: string): (r: Option<nat>)
    ensures Text.Trim(s) == "" ==> r == Some(0)
    ensures Text.AllDigits(Text.Trim(s)) ==> r == Some(Text.DigitsValue(Text.Trim(s)))
    ensures !Text.AllDigits(Text.Trim(s)) ==> r == None
  {
    var t := Text.Trim(s);
    if Text.AllDigits(t) then Some(Text.DigitsValue(t)) else None
  }

  /** A decimal numeral, with any white space around it, is read as its value. */
  lemma NumberOfDecimal(front: string, n: nat, back: string)
    requires forall i :: 0 <= i < |front| ==> Text.IsWhitespace(front[i])
    requires forall i :: 0 <= i < |back| ==> Text.IsWhitespace(back[i])
    ensures NumberOf(front + Text.NatToString(n) + back) == Some(n)
  {
    var d := Text.NatToString(n);
    assert Text.IsDigit(d[0]) && Text.IsDigit(d[|d| - 1]);
    Text.TrimPadded(front, d, back);
  }

  /** A character that is neither white space nor a digit makes the piece `NaN`. */
  lemma NumberOfRejectsStray(s: string, k: int)
    requires 0 <= k < |s| && !Text.IsWhitespace(s[k]) && !Text.IsDigit(s[k])
    ensures NumberOf(s) == None
  {
    var t := Text.Trim(s);
    var a := Text.LeadingSpace(s);
    assert a <= k < a + |t|;
    assert t[k - a] == s[k];
  }

  /**
   * The minute of the day a time field denotes: the hours and minutes are the first two
   * pieces of the field split on ':'. A field with no ':' has no minutes, which makes the
   * time invalid, and so does a piece that is not a number. Pieces after the second are
   * ignored. Out-of-range values are not rejected: they carry into the next hour or day,
   * as `setHours` does.
   */
  function ClockMinutes(field: string): (r: Option<int>)
    ensures r.Some? ==> ':' in field && r.value >= 0
  {
    MinutesOfPieces(Text.Split(field, ':'))
  }

  /** The minute of the day read from the pieces of a split field: its first two. */
  function MinutesOfPieces(parts: seq<string>): (r: Option<int>)
    ensures r.Some? ==> |parts| >= 2 && r.value >= 0
  {
    if |parts| < 2 then None
    else
      var hours, minutes := NumberOf(parts[0]), NumberOf(parts[1]);
      if hours.Some? && minutes.Some? then Some(hours.value * 60 + minutes.value) else None
  }

  /** A `Date` value: an instant, or the invalid date (whose time value is `NaN`). */
  datatype Moment = Valid(minute: int) | Invalid

  /** A copy of the selected date with its clock set from a time field. */
  function AtTime(day: int, field: string): (t: Moment)
    ensures t.Valid? <==> ClockMinutes(field).Some?
    ensures t.Valid? ==> t.minute - day * MinutesPerDay == ClockMinutes(field).value
  {
    match ClockMinutes(field)
    case Some(c) => Valid(day * MinutesPerDay + c)
    case None => Invalid
  }

  /** A value of a time input sets the selected date's clock to that minute of the day. */
  lemma AtTimeOfClockField(day: int, h: nat, m: nat)
    requires h < 24 && m < 60
    ensures AtTime(day, ClockField(h, m)) == Valid(day * MinutesPerDay + h * 60 + m)
  {
    ClockFieldRoundTrip(h, m);
  }

  /** A field without ':' has no minutes part, so the date becomes invalid. */
  lemma AtTimeNeedsColon(day: int, field: string)
    requires ':' !in field
    ensures AtTime(day, field) == Invalid
  {
    assert Text.Split(field, ':') == [field];
  }

  /**
   * `startDate >= endDate`: dates compare by time value, and a comparison involving `NaN`
   * is false, so an invalid date is never rejected here.
   */
  predicate NotBefore(a: Moment, b: Moment)
  {
    a.Valid? && b.Valid? && a.minute >= b.minute
  }

  /** The row inserted into `time_slots`. */
  datatype NewSlot = NewSlot(offerId: string, startTime: int, endTime: int, isBooked: bool)

  /** How a submission ends. */
  datatype Decision =
    | NoDate                 // no date selected: error toast, nothing else
    | EmptyRange             // start not before end: "Invalid time range"
    | InvalidTime            // an invalid date reached `toISOString`, which throws
    | Insert(slot: NewSlot)  // the row to insert

  /**
   * The decision `handleSubmit` takes before the store is called: a date is required; both
   * times are set on that date; a range whose start is not before its end is rejected; an
   * invalid time throws when it is formatted; otherwise the row is an unbooked slot of
   * this offer.
   */
  function Decide(offerId: string, selectedDate: Option<int>, startField: string, endField: string): (d: Decision)
    ensures d == NoDate <==> selectedDate.None?
    ensures d == EmptyRange <==> (
      && selectedDate.Some?
      && NotBefore(AtTime(selectedDate.value, startField), AtTime(selectedDate.value, endField)))
    ensures d == InvalidTime <==> (
      && selectedDate.Some?
      && !NotBefore(AtTime(selectedDate.value, startField), AtTime(selectedDate.value, endField))
      && (AtTime(selectedDate.value, startField).Invalid? || AtTime(selectedDate.value, endField).Invalid?))
    ensures d.Insert? <==> (
      && selectedDate.Some?
      && AtTime(selectedDate.value, startField).Valid? && AtTime(selectedDate.value, endField).Valid?
      && AtTime(selectedDate.value, startField).minute < AtTime(selectedDate.value, endField).minute)
    ensures d.Insert? ==> (
      && d.slot.offerId == offerId && !d.slot.isBooked
      && d.slot.startTime < d.slot.endTime
      && d.slot.startTime == selectedDate.value * MinutesPerDay + ClockMinutes(startField).value
      && d.slot.endTime == selectedDate.value * MinutesPerDay + ClockMinutes(endField).value)
  {
    match selectedDate
    case None => NoDate
    case Some(day) =>
      var start := AtTime(day, startField);
      var end := AtTime(day, endField);
      if NotBefore(start, end) then EmptyRange
      else if start.Invalid? || end.Invalid? then InvalidTime
      else Insert(NewSlot(offerId, start.minute, end.minute, false))
  }

  /** Equal start and end times never make a slot. */
  lemma EqualTimesRejected(offerId: string, day: int, field: string)
    ensures !Decide(offerId, Some(day), field, field).Insert?
  {
  }

  /** Whether a range is accepted does not depend on which date is selected. */
  lemma DecisionIgnoresDay(offerId: string, d1: int, d2: int, startField: string, endField: string)
    ensures Decide(offerId, Some(d1), startField, endField).Insert?
        <==> Decide(offerId, Some(d2), startField, endField).Insert?
  {
  }

  /** Two decimal digits, as a time input writes hours and minutes. */
  function Pad2(n: nat): (s: string)
    requires n < 100
    ensures |s| == 2 && Text.AllDigits(s) && Text.DigitsValue(s) == n
  {
    var s := [Text.DigitChar(n / 10), Text.DigitChar(n % 10)];
    assert s[..1] == [s[0]] && s[..1][..0] == [];
    assert Text.DigitsValue(s[..1]) == n / 10;
    s
  }

  /** The value of a time input: `HH:MM`. */
  function ClockField(h: nat, m: nat): string
    requires h < 24 && m < 60
  {
    Pad2(h) + ":" + Pad2(m)
  }

  lemma NumberOfPad2(n: nat)
    requires n < 100
    ensures NumberOf(Pad2(n)) == Some(n)
  {
    Text.TrimUntrimmed(Pad2(n));
  }

  lemma SplitClockField(h: nat, m: nat)
    requires h < 24 && m < 60
    ensures Text.Split(ClockField(h, m), ':') == [Pad2(h), Pad2(m)]
  {
    var a, b := Pad2(h), Pad2(m);
    assert ':' !in a && ':' !in b;
    assert [a, b][1..] == [b];
    assert Text.Join([a, b], ':') == ClockField(h, m);
    Text.SplitJoin([a, b], ':');
  }

  lemma ClockMinutesOfPieces(field: string, hours: string, minutes: string, h: nat, m: nat)
    requires Text.Split(field, ':') == [hours, minutes]
    requires NumberOf(hours) == Some(h) && NumberOf(minutes) == Some(m)
    ensures ClockMinutes(field) == Some(h * 60 + m)
  {
    TwoPiecesMinutes(hours, minutes, h, m);
  }

  lemma TwoPiecesMinutes(hours: string, minutes: string, h: nat, m: nat)
    requires NumberOf(hours) == Some(h) && NumberOf(minutes) == Some(m)
    ensures MinutesOfPieces([hours, minutes]) == Some(h * 60 + m)
  {
    var parts := [hours, minutes];
    assert parts[0] == hours && parts[1] == minutes;
  }

  /** Every value a time input can hold parses back to its own minute of the day. */
  lemma ClockFieldRoundTrip(h: nat, m: nat)
    requires h < 24 && m < 60
    ensures ClockMinutes(ClockField(h, m)) == Some(h * 60 + m)
  {
    var f := ClockField(h, m);
    SplitClockField(h, m);
    NumberOfPad2(h);
    NumberOfPad2(m);
    ClockMinutesOfPieces(f, Pad2(h), Pad2(m), h, m);
  }

  /**
   * Any two values the time inputs can hold, the start before the end, make a slot on the
   * selected date from the start's minute to the end's.
   */
  lemma ClockRangeAccepted(offerId: string, day: int, h1: nat, m1: nat, h2: nat, m2: nat)
    requires h1 < 24 && m1 < 60 && h2 < 24 && m2 < 60
    requires h1 * 60 + m1 < h2 * 60 + m2
    ensures Decide(offerId, Some(day), ClockField(h1, m1), ClockField(h2, m2))
         == Insert(NewSlot(offerId, day * MinutesPerDay + h1 * 60 + m1, day * MinutesPerDay + h2 * 60 + m2, false))
  {
    ClockFieldRoundTrip(h1, m1);
    ClockFieldRoundTrip(h2, m2);
  }

  lemma DefaultFields()
    ensures ClockField(9, 0) == "09:00" && ClockField(10, 0) == "10:00"
  {
    assert Pad2(0) == "00" && Pad2(9) == "09" && Pad2(10) == "10";
  }

  /** With the dialog's initial times, any selected date gives the one-hour slot 09:00-10:00. */
  lemma DefaultRangeAccepted(offerId: string, day: int)
    ensures Decide(offerId, Some(day), "09:00", "10:00")
         == Insert(NewSlot(offerId, day * MinutesPerDay + 540, day * MinutesPerDay + 600, false))
  {
    DefaultFields();
    ClockRangeAccepted(offerId, day, 9, 0, 10, 0);
  }

  /** A field that is cleared (the empty string) has no minutes and makes the time invalid. */
  lemma ClearedFieldInvalid(day: int)
    ensures AtTime(day, "") == Invalid
  {
    assert Text.Split("", ':') == [""];
  }

  /** What the dialog reports to the user and to its parent, in order. */
  datatype Event =
    | ErrorToast(title: string)
    | SuccessToast
    | AvailabilityAdded   // the parent's `onAvailabilityAdded`
    | Closed              // the parent's `onClose`

  class AvailabilityDialog {
    const offerId: string
    var selectedDate: Option<int>
    var startTime: string
    var endTime: string
    var isSubmitting: bool
    var events: seq<Event>

    /** The dialog opens on today's date with 09:00-10:00. */
    constructor (offerId: string, today: int)
      ensures this.offerId == offerId && selectedDate == Some(today)
      ensures startTime == "09:00" && endTime == "10:00"
      ensures !isSubmitting && events == []
    {
      this.offerId := offerId;
      selectedDate := Some(today);
      startTime := "09:00";
      endTime := "10:00";
      isSubmitting := false;
      events := [];
    }

    /**
     * `handleSubmit`, the store's answer to the insert given as `outcome`. Only the
     * `Insert` decision touches the store; the parent is told (added, then closed) only
     * after an insert without error. The busy flag is cleared on every path that raised it,
     * including the early return for an empty range.
     */
    method HandleSubmit(db: Store.Table<NewSlot>, outcome: WriteOutcome)
      modifies this, db
      ensures selectedDate == old(selectedDate) && startTime == old(startTime) && endTime == old(endTime)
      ensures var d := Decide(offerId, old(selectedDate), old(startTime), old(endTime));
        match d
        case NoDate =>
          db.rows == old(db.rows) && isSubmitting == old(isSubmitting)
          && events == old(events) + [ErrorToast("Error")]
        case EmptyRange =>
          db.rows == old(db.rows) && !isSubmitting
          && events == old(events) + [ErrorToast("Invalid time range")]
        case InvalidTime =>
          db.rows == old(db.rows) && !isSubmitting
          && events == old(events) + [ErrorToast("Error adding availability")]
        case Insert(slot) =>
          !isSubmitting
          && (outcome == WriteOk ==>
                db.rows == old(db.rows) + [slot]
                && events == old(events) + [SuccessToast, AvailabilityAdded, Closed])
          && (outcome == WriteError ==>
                db.rows == old(db.rows)
                && events == old(events) + [ErrorToast("Error adding availability")])
    {
      if selectedDate.None? {
        events := events + [ErrorToast("Error")];
        return;
      }
      isSubmitting := true;
      var day := selectedDate.value;
      var startDate := AtTime(day, startTime);
      var endDate := AtTime(day, endTime);
      if NotBefore(startDate, endDate) {
        events := events + [ErrorToast("Invalid time range")];
        isSubmitting := false;
        return;
      }
      if startDate.Invalid? || endDate.Invalid? {
        // `toISOString` throws on an invalid date before the store is called
        events := events + [ErrorToast("Error adding availability")];
        isSubmitting := false;
        return;
      }
      var row := NewSlot(offerId, startDate.minute, endDate.minute, false);
      if outcome == WriteOk {
        db.Insert(row);
        events := events + [SuccessToast, AvailabilityAdded, Closed];
      } else {
        events := events + [ErrorToast("Error adding availability")];
      }
      isSubmitting := false;
    }
  }
}
