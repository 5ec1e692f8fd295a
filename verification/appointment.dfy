/** The appointment entity: the closed status set, the record itself, its
    derived values (duration, start/end date-times, upcoming/past) and its
    lossless conversion to and from a stored record. */
module Appointments {
  import opened Wrappers
  import opened Calendar

  // ---- status ------------------------------------------------------------

  /** The four lifecycle states of an appointment. */
  datatype Status = Scheduled | Completed | Cancelled | NoShow {
    /** The label stored in a record and shown to the user. */
    function Label(): string {
      match this
      case Scheduled => "Scheduled"
      case Completed => "Completed"
      case Cancelled => "Cancelled"
      case NoShow => "No Show"
    }
  }

  /** `AppointmentStatus.ALL`, in its declared order. */
  const StatusLabels: seq<string> :=
    [Scheduled.Label(), Completed.Label(), Cancelled.Label(), NoShow.Label()]

  /** `status in AppointmentStatus.ALL`. */
  predicate ValidStatus(s: string) {
    s in StatusLabels
  }

  /** The status whose label is `s`, if any. */
  function ParseStatus(s: string): (r: Option<Status>)
    ensures r.Some? <==> ValidStatus(s)
    ensures r.Some? ==> r.value.Label() == s
  {
    if s == "Scheduled" then Some(Scheduled)
    else if s == "Completed" then Some(Completed)
    else if s == "Cancelled" then Some(Cancelled)
    else if s == "No Show" then Some(NoShow)
    else None
  }

  /** The status set is exactly the four labels, they are pairwise distinct,
      and a label names exactly one status. */
  lemma StatusSetIsClosed(s: string, st: Status, st': Status)
    ensures ValidStatus(s) <==> s == "Scheduled" || s == "Completed" || s == "Cancelled" || s == "No Show"
    ensures ValidStatus(st.Label())
    ensures ParseStatus(st.Label()) == Some(st)
    ensures st.Label() == st'.Label() ==> st == st'
    ensures |StatusLabels| == 4
  {
  }

  // ---- the entity --------------------------------------------------------

  /** One appointment as the store holds it. The status is kept as text, as
      the stored records and the form inputs carry it. */
  datatype Appointment = Appointment(
    id: string,
    title: string,
    clientName: string,
    clientEmail: string,
    clientPhone: string,
    date: Date,
    start: Time,
    end: Time,
    status: string,
    notes: string,
    createdAt: DateTime,
    updatedAt: DateTime
  )

  /** The user-editable fields of an appointment, as the form submits them. */
  datatype Fields = Fields(
    title: string,
    clientName: string,
    clientEmail: string,
    clientPhone: string,
    date: Date,
    start: Time,
    end: Time,
    status: string,
    notes: string
  )

  /** The editable fields of an appointment. */
  function FieldsOf(a: Appointment): Fields {
    Fields(a.title, a.clientName, a.clientEmail, a.clientPhone, a.date, a.start, a.end, a.status, a.notes)
  }

  /** `a` with all nine editable fields replaced by `f`; id and timestamps kept. */
  function WithFields(a: Appointment, f: Fields): (b: Appointment)
    ensures FieldsOf(b) == f
    ensures b.id == a.id && b.createdAt == a.createdAt && b.updatedAt == a.updatedAt
  {
    a.(title := f.title, clientName := f.clientName, clientEmail := f.clientEmail,
       clientPhone := f.clientPhone, date := f.date, start := f.start, end := f.end,
       status := f.status, notes := f.notes)
  }

  /** A new appointment with id `id`, fields `f`, created and updated at `now`. */
  function NewAppointment(id: string, f: Fields, now: DateTime): (a: Appointment)
    ensures FieldsOf(a) == f
    ensures a.id == id && a.createdAt == now && a.updatedAt == now
  {
    Appointment(id, f.title, f.clientName, f.clientEmail, f.clientPhone,
                f.date, f.start, f.end, f.status, f.notes, now, now)
  }

  /** What Python's types guarantee of any `Appointment` object: a real date,
      real times of day and real timestamps. */
  predicate WellFormed(a: Appointment) {
    ValidDate(a.date) && ValidTime(a.start) && ValidTime(a.end)
    && ValidDateTime(a.createdAt) && ValidDateTime(a.updatedAt)
  }

  /** `start_datetime`: the appointment's date at its start time, on a
      whole minute; a real date-time when the appointment is well formed. */
  function StartDateTime(a: Appointment): (dt: DateTime)
    ensures dt.date == a.date && dt.minute == MinuteOfDay(a.start) && dt.micro == 0
    ensures WellFormed(a) ==> ValidDateTime(dt)
  {
    Combine(a.date, a.start)
  }

  /** `end_datetime`: the appointment's date at its end time. */
  function EndDateTime(a: Appointment): (dt: DateTime)
    ensures dt.date == a.date && dt.minute == MinuteOfDay(a.end) && dt.micro == 0
    ensures WellFormed(a) ==> ValidDateTime(dt)
  {
    Combine(a.date, a.end)
  }

  /** `duration_minutes`: whole minutes from start to end, both on the
      appointment's own date, so adding it to the start's minute of day
      gives the end's. It is positive exactly when the end date-time
      is after the start, zero exactly when they coincide, and negative
      exactly when the end comes first. */
  function DurationMinutes(a: Appointment): (d: int)
    ensures StartDateTime(a).minute + d == EndDateTime(a).minute
    ensures d > 0 <==> Before(StartDateTime(a), EndDateTime(a))
    ensures d == 0 <==> StartDateTime(a) == EndDateTime(a)
    ensures d < 0 <==> Before(EndDateTime(a), StartDateTime(a))
  {
    CombineOrder(a.date, a.start, a.end);
    CombineOrder(a.date, a.end, a.start);
    MinuteOfDay(a.end) - MinuteOfDay(a.start)
  }

  /** `is_upcoming` evaluated at `now`: scheduled, and starting on a later
      day or later the same day. The start has no seconds, so only the
      minute of `now` matters. */
  function IsUpcoming(a: Appointment, now: DateTime): (r: bool)
    ensures r <==> a.status == Scheduled.Label()
                   && (DateBefore(now.date, a.date)
                       || (now.date == a.date && now.minute < MinuteOfDay(a.start)))
  {
    Before(now, StartDateTime(a)) && a.status == Scheduled.Label()
  }

  /** `is_past` evaluated at `now`, whatever the status: starting on an
      earlier day, at an earlier minute the same day, or at `now`'s own
      minute once `now` is past it. */
  function IsPast(a: Appointment, now: DateTime): (r: bool)
    ensures r <==> DateBefore(a.date, now.date)
                   || (a.date == now.date
                       && (MinuteOfDay(a.start) < now.minute
                           || (MinuteOfDay(a.start) == now.minute && now.micro > 0)))
  {
    Before(StartDateTime(a), now)
  }

  /** An appointment is never both upcoming and past; a scheduled one that
      does not start exactly at `now` is one or the other; an appointment that
      is not scheduled is never upcoming. */
  lemma UpcomingAndPastSplitTime(a: Appointment, now: DateTime)
    ensures !(IsUpcoming(a, now) && IsPast(a, now))
    ensures (a.status == Scheduled.Label() && StartDateTime(a) != now) ==>
              IsUpcoming(a, now) != IsPast(a, now)
    ensures a.status != Scheduled.Label() ==> !IsUpcoming(a, now)
  {
    BeforeIsStrictTotalOrder(now, StartDateTime(a), now);
  }

  // ---- stored record -----------------------------------------------------

  /** The stored form of an appointment (`to_dict`): dates and times as text.
      `notes` and the two timestamps may be missing from a stored record. */
  datatype Record = Record(
    id: string,
    title: string,
    clientName: string,
    clientEmail: string,
    clientPhone: string,
    date: string,
    startTime: string,
    endTime: string,
    status: string,
    notes: Option<string>,
    createdAt: Option<DateTime>,
    updatedAt: Option<DateTime>
  )

  /** `to_dict`. */
  function ToRecord(a: Appointment): (r: Record)
    requires WellFormed(a)
    ensures r.notes.Some? && r.createdAt.Some? && r.updatedAt.Some?
  {
    Record(a.id, a.title, a.clientName, a.clientEmail, a.clientPhone,
           FormatDate(a.date), FormatTime(a.start), FormatTime(a.end),
           a.status, Some(a.notes), Some(a.createdAt), Some(a.updatedAt))
  }

  function OrElse<T>(o: Option<T>, default: T): T {
    if o.Some? then o.value else default
  }

  /** `from_dict`, with `now` for the missing-timestamp defaults; `None`
      where Python raises on a malformed date or time. */
  function FromRecord(r: Record, now: DateTime): (a: Option<Appointment>)
    ensures a.Some? <==> ParseDate(r.date).Some? && ParseTime(r.startTime).Some? && ParseTime(r.endTime).Some?
    ensures a.Some? ==> ValidDate(a.value.date) && ValidTime(a.value.start) && ValidTime(a.value.end)
  {
    var d := ParseDate(r.date);
    var s := ParseTime(r.startTime);
    var e := ParseTime(r.endTime);
    if d.Some? && s.Some? && e.Some? then
      Some(Appointment(r.id, r.title, r.clientName, r.clientEmail, r.clientPhone,
                       d.value, s.value, e.value, r.status,
                       OrElse(r.notes, ""), OrElse(r.createdAt, now), OrElse(r.updatedAt, now)))
    else None
  }

  /** Storing and reloading an appointment gives it back unchanged. */
  lemma RecordRoundTrip(a: Appointment, now: DateTime)
    requires WellFormed(a)
    ensures FromRecord(ToRecord(a), now) == Some(a)
  {
    DateRoundTrip(a.date);
    TimeRoundTrip(a.start);
    TimeRoundTrip(a.end);
  }

  /** A complete stored record that loads is exactly what its appointment
      would be stored as. */
  lemma RecordTextRoundTrip(r: Record, now: DateTime)
    requires r.notes.Some? && r.createdAt.Some? && r.updatedAt.Some?
    requires ValidDateTime(r.createdAt.value) && ValidDateTime(r.updatedAt.value)
    requires FromRecord(r, now).Some?
    ensures WellFormed(FromRecord(r, now).value)
    ensures ToRecord(FromRecord(r, now).value) == r
  {
    DateTextRoundTrip(r.date);
    TimeTextRoundTrip(r.startTime);
    TimeTextRoundTrip(r.endTime);
  }
}
