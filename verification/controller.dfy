/** `AppointmentController`: the business rules. A create validates, then
    checks for a time conflict, and only then touches the store; an update
    validates, then looks the record up, then checks for a conflict with any
    other record; a delete only looks the id up. Each operation maps the
    store it is given to a reply and the store it leaves. */
module Controller {
  import opened Wrappers
  import Text
  import opened Calendar
  import opened Appointments
  import opened Validator
  import opened Seqs
  import opened Sorting
  import opened Repository

  /** A reply (`{"success": True, ...}` or `{"success": False, "errors": [...]}`)
      and the store after the call. */
  datatype Step<R> = Step(reply: Result<R, seq<string>>, store: Store)

  const NotFound := "Appointment not found."

  /** What Python's types guarantee of every stored appointment's times. */
  predicate TimesValid(store: Store) {
    forall i :: 0 <= i < |store| ==> ValidTime(store[i].start) && ValidTime(store[i].end)
  }

  /** Appending an appointment with valid times keeps every time valid. */
  lemma AppendKeepsTimesValid(store: Store, a: Appointment)
    requires TimesValid(store)
    ensures ValidTime(a.start) && ValidTime(a.end) ==> TimesValid(store + [a])
  {
    var r := store + [a];
    assert forall i :: 0 <= i < |store| ==> r[i] == store[i];
  }

  // ---- reads -------------------------------------------------------------

  /** `list_all(sort_by)`: every stored appointment, sorted by the key named
      `sortBy`, date order for a name it does not know. */
  function ListAll(store: Store, sortBy: string): (r: seq<Appointment>)
    ensures multiset(r) == multiset(store)
    ensures forall i, j :: 0 <= i < j < |r| ==> KeyLe(ParseSortKey(sortBy), r[i], r[j])
  {
    SortBy(ParseSortKey(sortBy), store)
  }

  /** An unknown sort name lists appointments in date-and-start order. */
  lemma UnknownSortKeyFallsBackToDate(store: Store, sortBy: string)
    requires sortBy != "client_name" && sortBy != "status" && sortBy != "title"
    ensures forall i, j :: 0 <= i < j < |ListAll(store, sortBy)| ==>
              KeyLe(ByDate, ListAll(store, sortBy)[i], ListAll(store, sortBy)[j])
  {
  }

  // ---- conflicts ---------------------------------------------------------

  /** Half-open intervals `[s1, e1)` and `[s2, e2)` of minutes share a minute. */
  predicate Overlap(s1: int, e1: int, s2: int, e2: int) {
    s1 < e2 && e1 > s2
  }

  /** `exclude_id and existing.id == exclude_id`: an empty id excludes nothing. */
  predicate Excluded(exclude: Option<string>, a: Appointment) {
    exclude.Some? && exclude.value != "" && a.id == exclude.value
  }

  /** `a`, already known to be on the candidate's date, blocks the slot
      `[start, end)`. */
  predicate Blocks(a: Appointment, start: Time, end: Time, exclude: Option<string>) {
    !Excluded(exclude, a) && a.status != Cancelled.Label()
    && Overlap(MinuteOfDay(start), MinuteOfDay(end), MinuteOfDay(a.start), MinuteOfDay(a.end))
  }

  /** `a` conflicts with a candidate on date `d` from `start` to `end`. */
  predicate ConflictsWith(a: Appointment, d: Date, start: Time, end: Time, exclude: Option<string>) {
    a.date == d && Blocks(a, start, end, exclude)
  }

  predicate HasConflict(store: Store, d: Date, start: Time, end: Time, exclude: Option<string>) {
    exists i :: 0 <= i < |store| && ConflictsWith(store[i], d, start, end, exclude)
  }

  /** The first of `candidates` that blocks the slot. */
  function FirstBlocking(candidates: seq<Appointment>, start: Time, end: Time, exclude: Option<string>)
    : (r: Option<Appointment>)
    ensures r.None? <==> forall i :: 0 <= i < |candidates| ==> !Blocks(candidates[i], start, end, exclude)
    ensures r.Some? ==> exists i :: 0 <= i < |candidates| && candidates[i] == r.value
                                    && Blocks(r.value, start, end, exclude)
                                    && forall j :: 0 <= j < i ==> !Blocks(candidates[j], start, end, exclude)
  {
    if |candidates| == 0 then None
    else if Blocks(candidates[0], start, end, exclude) then Some(candidates[0])
    else
      var r := FirstBlocking(candidates[1..], start, end, exclude);
      assert forall i :: 1 <= i < |candidates| ==> candidates[i] == candidates[1..][i - 1];
      r
  }

  /** `_check_conflict`: the first appointment of the day, in store order,
      that is not excluded, not cancelled, and overlaps `[start, end)`. */
  function CheckConflict(store: Store, d: Date, start: Time, end: Time, exclude: Option<string>)
    : (r: Option<Appointment>)
    ensures r.None? <==> !HasConflict(store, d, start, end, exclude)
    ensures r.Some? ==> r.value in store && ConflictsWith(r.value, d, start, end, exclude)
  {
    var sameDay := GetByDate(store, d);
    var r := FirstBlocking(sameDay, start, end, exclude);
    assert HasConflict(store, d, start, end, exclude) ==> r.Some? by {
      if HasConflict(store, d, start, end, exclude) {
        var i :| 0 <= i < |store| && ConflictsWith(store[i], d, start, end, exclude);
        assert store[i] in sameDay;
      }
    }
    r
  }

  /** The conflict reported is the first conflicting appointment in store order. */
  lemma {:induction false} CheckConflictFindsFirst(store: Store, d: Date, start: Time, end: Time, exclude: Option<string>)
    ensures CheckConflict(store, d, start, end, exclude) ==
              if |store| == 0 then None
              else if ConflictsWith(store[0], d, start, end, exclude) then Some(store[0])
              else CheckConflict(store[1..], d, start, end, exclude)
  {
    if |store| > 0 {
      assert store == [store[0]] + store[1..];
    }
  }

  /** Back-to-back slots never conflict: a slot that ends when another
      starts, or starts when it ends, does not overlap it. */
  lemma BackToBackNeverConflicts(a: Appointment, start: Time, end: Time, exclude: Option<string>)
    requires MinuteOfDay(end) == MinuteOfDay(a.start) || MinuteOfDay(start) == MinuteOfDay(a.end)
    ensures !ConflictsWith(a, a.date, start, end, exclude)
  {
  }

  /** The message for a conflict with `c`: it names `c`'s title and both
      ends of its time window, and it is none of the validation messages. */
  function ConflictMessage(c: Appointment): (m: string)
    requires ValidTime(c.start) && ValidTime(c.end)
    ensures Text.Contains(m, c.title)
    ensures Text.Contains(m, FormatTime(c.start)) && Text.Contains(m, FormatTime(c.end))
    ensures forall status :: m !in Messages(status)
  {
    // The literal is split so that its first letters are cheap to read off.
    var head := "Tim" + "e conflict with appointment '";
    var m := head + (c.title + ("' (" + (FormatTime(c.start)
             + (" \U{2013} " + (FormatTime(c.end) + ").")))));
    JoinContainsParts(head, c.title, "' (", FormatTime(c.start), " \U{2013} ", FormatTime(c.end), ").");
    assert m[0] == 'T' && m[2] == 'm';
    assert forall status :: m !in Messages(status) by {
      forall status ensures m !in Messages(status) {
        ConflictMessageIsNotValidation(m, status);
      }
    }
    m
  }

  /** A text joined from seven parts contains its second, fourth and sixth. */
  lemma JoinContainsParts(p0: string, x: string, p1: string, y: string, p2: string, z: string, p3: string)
    ensures Text.Contains(p0 + (x + (p1 + (y + (p2 + (z + p3))))), x)
    ensures Text.Contains(p0 + (x + (p1 + (y + (p2 + (z + p3))))), y)
    ensures Text.Contains(p0 + (x + (p1 + (y + (p2 + (z + p3))))), z)
  {
    var m := p0 + (x + (p1 + (y + (p2 + (z + p3)))));
    assert m == p0 + x + (p1 + (y + (p2 + (z + p3))));
    Text.ContainsMiddle(p0, x, p1 + (y + (p2 + (z + p3))));
    assert m == (p0 + x + p1) + y + (p2 + (z + p3));
    Text.ContainsMiddle(p0 + x + p1, y, p2 + (z + p3));
    assert m == (p0 + x + p1 + y + p2) + z + p3;
    Text.ContainsMiddle(p0 + x + p1 + y + p2, z, p3);
  }

  /** A text that starts `T?m` is not one of the validation messages: only
      the title message starts with `T`, and its third letter is `t`. */
  lemma ConflictMessageIsNotValidation(m: string, status: string)
    requires |m| >= 3 && m[0] == 'T' && m[2] == 'm'
    ensures m !in Messages(status)
  {
    assert InvalidStatus(status)[0] == 'I';
    assert TitleRequired[0] == 'T' && TitleRequired[2] == 't';
    assert NameRequired[0] == 'C' && EmailRequired[0] == 'C' && EmailInvalid[0] == 'P';
    assert PhoneRequired[0] == 'C' && EndNotAfterStart[0] == 'E';
    assert TooShort == "Appointment must be at least 15 minutes " + "long.";
  }

  // ---- writes ------------------------------------------------------------

  /** `create_appointment` with the fresh id `freshId` at time `now`. */
  function CreateAppointment(store: Store, f: Fields, freshId: string, now: DateTime): (s: Step<Appointment>)
    requires TimesValid(store)
    ensures s.reply.Success? <==> Acceptable(f) && !HasConflict(store, f.date, f.start, f.end, None)
    ensures ValidTime(f.start) && ValidTime(f.end) ==> TimesValid(s.store)
    ensures !Acceptable(f) ==> s.reply == Failure(Validate(f)) && s.store == store
    ensures Acceptable(f) && HasConflict(store, f.date, f.start, f.end, None) ==>
              && s.store == store
              && exists i :: 0 <= i < |store| && ConflictsWith(store[i], f.date, f.start, f.end, None)
                             && s.reply == Failure([ConflictMessage(store[i])])
    ensures s.reply.Success? ==>
              && FieldsOf(s.reply.value) == f && s.reply.value.id == freshId
              && s.reply.value.createdAt == now && s.reply.value.updatedAt == now
              && s.store == store + [s.reply.value]
  {
    var errors := Validate(f);
    if errors != [] then Step(Failure(errors), store)
    else
      var conflict := CheckConflict(store, f.date, f.start, f.end, None);
      if conflict.Some? then
        Step(Failure([ConflictMessage(conflict.value)]), store)
      else
        var a := NewAppointment(freshId, f, now);
        AppendKeepsTimesValid(store, a);
        Step(Success(a), Create(store, a))
  }

  /** `update_appointment` of record `id` at time `now`. */
  function UpdateAppointment(store: Store, id: string, f: Fields, now: DateTime): (s: Step<Appointment>)
    requires TimesValid(store)
    ensures |s.store| == |store|
    ensures s.reply.Success? <==>
              Acceptable(f) && HasId(store, id) && !HasConflict(store, f.date, f.start, f.end, Some(id))
    ensures !Acceptable(f) ==> s.reply == Failure(Validate(f)) && s.store == store
    ensures Acceptable(f) && !HasId(store, id) ==> s.reply == Failure([NotFound]) && s.store == store
    ensures Acceptable(f) && HasId(store, id) && HasConflict(store, f.date, f.start, f.end, Some(id)) ==>
              && s.store == store
              && exists i :: 0 <= i < |store| && ConflictsWith(store[i], f.date, f.start, f.end, Some(id))
                             && s.reply == Failure([ConflictMessage(store[i])])
    ensures s.reply.Success? ==>
              exists i :: 0 <= i < |store| && store[i].id == id
                && (forall j :: 0 <= j < i ==> store[j].id != id)
                && s.store[i] == s.reply.value
                && s.reply.value.id == id && FieldsOf(s.reply.value) == f
                && s.reply.value.createdAt == store[i].createdAt && s.reply.value.updatedAt == now
                && (forall j :: 0 <= j < |store| && j != i ==> s.store[j] == store[j])
  {
    var errors := Validate(f);
    if errors != [] then Step(Failure(errors), store)
    else
      var existing := GetById(store, id);
      if existing.None? then Step(Failure([NotFound]), store)
      else
        var conflict := CheckConflict(store, f.date, f.start, f.end, Some(id));
        if conflict.Some? then
          Step(Failure([ConflictMessage(conflict.value)]), store)
        else
          assert existing.value == store[IndexOf(store, id).value];
          var w := Update(store, WithFields(existing.value, f), now);
          Step(Success(w.result.value), w.store)
  }

  /** `delete_appointment`: removes every appointment with the id and
      nothing else, keeping the order of the rest; a missing id is reported
      and leaves the store alone. */
  function DeleteAppointment(store: Store, id: string): (s: Step<()>)
    ensures s.reply.Success? <==> HasId(store, id)
    ensures s.reply.Failure? ==> s.reply.error == [NotFound] && s.store == store
    ensures s.reply.Success? ==> |s.store| < |store|
    ensures !HasId(s.store, id)
    ensures forall i :: 0 <= i < |store| && store[i].id != id ==> store[i] in s.store
    ensures forall i :: 0 <= i < |s.store| ==> s.store[i] in store
    ensures forall x :: multiset(s.store)[x] == if x.id == id then 0 else multiset(store)[x]
  {
    var w := Delete(store, id);
    if w.result then Step(Success(()), w.store) else Step(Failure([NotFound]), store)
  }

  /** `update_status`: only the status and the update time change, and
      neither the other rules nor the conflict check are re-run. */
  function UpdateStatus(store: Store, id: string, newStatus: string, now: DateTime): (s: Step<Appointment>)
    ensures |s.store| == |store|
    ensures s.reply.Success? <==> HasId(store, id) && ValidStatus(newStatus)
    ensures !HasId(store, id) ==> s.reply == Failure([NotFound]) && s.store == store
    ensures HasId(store, id) && !ValidStatus(newStatus) ==>
              s.reply == Failure([InvalidStatus(newStatus)]) && s.store == store
    ensures s.reply.Success? ==>
              exists i :: 0 <= i < |store| && store[i].id == id
                && (forall j :: 0 <= j < i ==> store[j].id != id)
                && s.store[i] == s.reply.value
                && s.reply.value == store[i].(status := newStatus, updatedAt := now)
                && (forall j :: 0 <= j < |store| && j != i ==> s.store[j] == store[j])
  {
    var existing := GetById(store, id);
    if existing.None? then Step(Failure([NotFound]), store)
    else if !ValidStatus(newStatus) then Step(Failure([InvalidStatus(newStatus)]), store)
    else
      var w := Update(store, existing.value.(status := newStatus), now);
      Step(Success(w.result.value), w.store)
  }

  // ---- store invariants --------------------------------------------------

  predicate UniqueIds(store: Store) {
    forall i, j :: 0 <= i < j < |store| ==> store[i].id != store[j].id
  }

  /** Two appointments on one date, neither cancelled, whose slots overlap. */
  predicate Clash(a: Appointment, b: Appointment) {
    a.date == b.date && a.status != Cancelled.Label() && b.status != Cancelled.Label()
    && Overlap(MinuteOfDay(a.start), MinuteOfDay(a.end), MinuteOfDay(b.start), MinuteOfDay(b.end))
  }

  /** The soft invariant the write rules aim at: no two stored appointments clash. */
  predicate ConflictFree(store: Store) {
    forall i, j :: 0 <= i < |store| && 0 <= j < |store| && i != j ==> !Clash(store[i], store[j])
  }

  /** A successful create keeps the store free of clashes. */
  lemma CreateKeepsConflictFree(store: Store, f: Fields, freshId: string, now: DateTime)
    requires TimesValid(store) && ConflictFree(store)
    requires Acceptable(f) && !HasConflict(store, f.date, f.start, f.end, None)
    ensures CreateAppointment(store, f, freshId, now).reply.Success?
    ensures ConflictFree(CreateAppointment(store, f, freshId, now).store)
  {
    var s := CreateAppointment(store, f, freshId, now);
    var a := s.reply.value;
    var r := s.store;
    forall i, j | 0 <= i < |r| && 0 <= j < |r| && i != j
      ensures !Clash(r[i], r[j])
    {
      if i == |store| {
        assert !ConflictsWith(store[j], f.date, f.start, f.end, None);
      } else if j == |store| {
        assert !ConflictsWith(store[i], f.date, f.start, f.end, None);
      } else {
        assert r[i] == store[i] && r[j] == store[j];
      }
    }
  }

  /** A create with an id not yet stored keeps ids unique. */
  lemma CreateKeepsUniqueIds(store: Store, f: Fields, freshId: string, now: DateTime)
    requires TimesValid(store) && UniqueIds(store) && !HasId(store, freshId)
    ensures UniqueIds(CreateAppointment(store, f, freshId, now).store)
  {
    var s := CreateAppointment(store, f, freshId, now);
    if s.reply.Success? {
      var r := s.store;
      forall i, j | 0 <= i < j < |r| ensures r[i].id != r[j].id {
        assert r[i] == store[i];
        if j < |store| {
          assert r[j] == store[j];
        }
      }
    }
  }

  /** Replacing record `i` by `e`, which keeps its id and conflicts with no
      other record, keeps the store free of clashes and its ids unique. */
  lemma ReplaceKeepsInvariants(store: Store, i: int, e: Appointment, r: Store)
    requires UniqueIds(store) && ConflictFree(store)
    requires 0 <= i < |store| && |r| == |store| && r[i] == e && e.id == store[i].id
    requires forall j :: 0 <= j < |store| && j != i ==> r[j] == store[j]
    requires forall j :: 0 <= j < |store| && j != i ==>
               !ConflictsWith(store[j], e.date, e.start, e.end, Some(e.id))
    ensures ConflictFree(r) && UniqueIds(r)
  {
    forall j, k | 0 <= j < |r| && 0 <= k < |r| && j != k
      ensures !Clash(r[j], r[k])
    {
      if j == i {
        assert !ConflictsWith(store[k], e.date, e.start, e.end, Some(e.id));
      } else if k == i {
        assert !ConflictsWith(store[j], e.date, e.start, e.end, Some(e.id));
      } else {
        assert r[j] == store[j] && r[k] == store[k];
      }
    }
    forall j, k | 0 <= j < k < |r| ensures r[j].id != r[k].id {
      if j != i && k != i {
        assert r[j] == store[j] && r[k] == store[k];
      } else if j == i {
        assert r[k] == store[k];
      } else {
        assert r[j] == store[j];
      }
    }
  }

  /** With unique ids, a successful update keeps the store free of clashes
      and its ids unique: the edited record is only excluded from its own
      conflict check. */
  lemma UpdateKeepsInvariants(store: Store, id: string, f: Fields, now: DateTime)
    requires TimesValid(store) && UniqueIds(store) && ConflictFree(store)
    requires Acceptable(f) && HasId(store, id) && !HasConflict(store, f.date, f.start, f.end, Some(id))
    ensures UpdateAppointment(store, id, f, now).reply.Success?
    ensures ConflictFree(UpdateAppointment(store, id, f, now).store)
    ensures UniqueIds(UpdateAppointment(store, id, f, now).store)
  {
    var s := UpdateAppointment(store, id, f, now);
    var e := s.reply.value;
    var i :| 0 <= i < |store| && store[i].id == id
             && (forall j :: 0 <= j < i ==> store[j].id != id)
             && s.store[i] == e
             && e.id == id && FieldsOf(e) == f
             && e.createdAt == store[i].createdAt && e.updatedAt == now
             && (forall j :: 0 <= j < |store| && j != i ==> s.store[j] == store[j]);
    assert !HasConflict(store, f.date, f.start, f.end, Some(id));
    ReplaceKeepsInvariants(store, i, e, s.store);
  }

  // ---- scenarios ---------------------------------------------------------

  /** Dropping appointments keeps the ids unique. */
  lemma FilterKeepsUniqueIds(store: Store, p: Appointment -> bool)
    requires UniqueIds(store)
    ensures UniqueIds(Filter(store, p))
  {
    FilterKeepsPairs(store, p, (a: Appointment, b: Appointment) => a.id != b.id);
  }

  /** Dropping appointments keeps the store free of clashes. */
  lemma FilterKeepsConflictFree(store: Store, p: Appointment -> bool)
    requires ConflictFree(store)
    ensures ConflictFree(Filter(store, p))
  {
    var apart := (a: Appointment, b: Appointment) => !Clash(a, b) && !Clash(b, a);
    assert forall i, j :: 0 <= i < j < |store| ==> apart(store[i], store[j]);
    FilterKeepsPairs(store, p, apart);
    var r := Filter(store, p);
    forall i, j | 0 <= i < |r| && 0 <= j < |r| && i != j ensures !Clash(r[i], r[j]) {
      if i < j {
        assert apart(r[i], r[j]);
      } else {
        assert apart(r[j], r[i]);
      }
    }
  }

  /** A delete keeps every stored time valid, the ids unique and the store
      free of clashes: what is left is a subsequence of what was there. */
  lemma DeleteKeepsInvariants(store: Store, id: string)
    requires TimesValid(store) && UniqueIds(store) && ConflictFree(store)
    ensures TimesValid(DeleteAppointment(store, id).store)
    ensures UniqueIds(DeleteAppointment(store, id).store)
    ensures ConflictFree(DeleteAppointment(store, id).store)
  {
    var s := DeleteAppointment(store, id);
    if s.reply.Success? {
      assert s.store == Filter(store, OtherThan(id));
      FilterKeepsUniqueIds(store, OtherThan(id));
      FilterKeepsConflictFree(store, OtherThan(id));
    }
  }

  /** Appending an appointment behind a conflict-free store: it is the
      conflict found exactly when it conflicts. */
  lemma {:induction false} CheckConflictAfterAppend(store: Store, a: Appointment, d: Date, start: Time, end: Time, exclude: Option<string>)
    requires !HasConflict(store, d, start, end, exclude)
    ensures CheckConflict(store + [a], d, start, end, exclude)
            == if ConflictsWith(a, d, start, end, exclude) then Some(a) else None
  {
    var t := store + [a];
    if |store| == 0 {
      assert t == [a];
    } else {
      var rest := store[1..];
      assert !HasConflict(rest, d, start, end, exclude) by {
        assert forall i :: 0 <= i < |rest| ==> rest[i] == store[i + 1];
      }
      CheckConflictAfterAppend(rest, a, d, start, end, exclude);
      assert t[0] == store[0] && t[1..] == rest + [a];
      CheckConflictSkipsHead(t, d, start, end, exclude);
    }
  }

  /** A first record that does not conflict is passed over. */
  lemma CheckConflictSkipsHead(store: Store, d: Date, start: Time, end: Time, exclude: Option<string>)
    requires |store| > 0 && !ConflictsWith(store[0], d, start, end, exclude)
    ensures CheckConflict(store, d, start, end, exclude) == CheckConflict(store[1..], d, start, end, exclude)
  {
    CheckConflictFindsFirst(store, d, start, end, exclude);
  }

  /** Once an appointment is created, a second one on the same date whose
      slot overlaps it is refused with a single conflict message and the
      store is left alone; when nothing else was in the way, the message
      names the first appointment. */
  lemma OverlappingSecondCreateFails(store: Store, f1: Fields, id1: string, now1: DateTime,
                                     f2: Fields, id2: string, now2: DateTime)
    requires TimesValid(store)
    requires Acceptable(f1) && !HasConflict(store, f1.date, f1.start, f1.end, None)
    requires f1.status != Cancelled.Label()
    requires Acceptable(f2) && f2.date == f1.date
    requires Overlap(MinuteOfDay(f2.start), MinuteOfDay(f2.end), MinuteOfDay(f1.start), MinuteOfDay(f1.end))
    requires ValidTime(f1.start) && ValidTime(f1.end)
    ensures var s1 := CreateAppointment(store, f1, id1, now1);
            var s2 := CreateAppointment(s1.store, f2, id2, now2);
            && s1.reply.Success?
            && s2.reply.Failure? && |s2.reply.error| == 1 && s2.store == s1.store
            && (!HasConflict(store, f2.date, f2.start, f2.end, None) ==>
                  s2.reply.error == [ConflictMessage(s1.reply.value)])
  {
    var s1 := CreateAppointment(store, f1, id1, now1);
    var a1 := s1.reply.value;
    assert s1.store[|store|] == a1;
    assert ConflictsWith(a1, f2.date, f2.start, f2.end, None);
    assert HasConflict(s1.store, f2.date, f2.start, f2.end, None);
    if !HasConflict(store, f2.date, f2.start, f2.end, None) {
      CheckConflictAfterAppend(store, a1, f2.date, f2.start, f2.end, None);
    }
  }

  /** Back-to-back appointments on one date, the second starting when the
      first ends, can both be created. */
  lemma BackToBackCreatesSucceed(store: Store, f1: Fields, id1: string, now1: DateTime,
                                 f2: Fields, id2: string, now2: DateTime)
    requires TimesValid(store)
    requires ValidTime(f1.start) && ValidTime(f1.end)
    requires Acceptable(f1) && Acceptable(f2)
    requires f2.date == f1.date && MinuteOfDay(f2.start) == MinuteOfDay(f1.end)
    requires !HasConflict(store, f1.date, f1.start, f1.end, None)
    requires !HasConflict(store, f2.date, f2.start, f2.end, None)
    ensures var s1 := CreateAppointment(store, f1, id1, now1);
            && s1.reply.Success?
            && CreateAppointment(s1.store, f2, id2, now2).reply.Success?
  {
    var s1 := CreateAppointment(store, f1, id1, now1);
    var a1 := s1.reply.value;
    assert s1.store == store + [a1];
    CheckConflictAfterAppend(store, a1, f2.date, f2.start, f2.end, None);
  }

  /** A status change is exempt from the conflict rule: re-activating a
      cancelled appointment succeeds even when it then clashes with another
      one, so `update_status` does not keep the store conflict-free. */
  lemma StatusChangeCanReintroduceClash()
    ensures exists store: Store, now: DateTime ::
              && UniqueIds(store) && ConflictFree(store)
              && UpdateStatus(store, "A", Scheduled.Label(), now).reply.Success?
              && !ConflictFree(UpdateStatus(store, "A", Scheduled.Label(), now).store)
  {
    var d := Date(2025, 6, 1);
    var now := DateTime(d, 0, 0);
    var a := Appointment("A", "Check-up", "Ann", "ann@example.com", "555", d,
                         Time(9, 0), Time(10, 0), Cancelled.Label(), "", now, now);
    var b := a.(id := "B", start := Time(9, 30), end := Time(10, 30), status := Scheduled.Label());
    var store := [a, b];
    assert store[0].id == "A";
    var s := UpdateStatus(store, "A", Scheduled.Label(), now);
    assert s.reply.Success?;
    assert s.store[0] == a.(status := Scheduled.Label(), updatedAt := now);
    assert s.store[1] == b;
    assert Clash(s.store[0], s.store[1]);
  }
}
