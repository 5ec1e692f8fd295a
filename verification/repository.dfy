/** `AppointmentRepository` with its JSON file abstracted away: the store is
    one ordered sequence of appointments; every read is a view of it and
    every write replaces it as a whole. */
module Repository {
  import opened Wrappers
  import opened Text
  import opened Calendar
  import opened Appointments
  import opened Seqs
  import opened Sorting

  /** The stored records, in file order. */
  type Store = seq<Appointment>

  /** What a write returns to its caller, and the store it leaves behind. */
  datatype Write<R> = Write(result: R, store: Store)

  predicate HasId(store: Store, id: string) {
    exists i :: 0 <= i < |store| && store[i].id == id
  }

  // ---- the file ----------------------------------------------------------

  /** The records written to the file for `store` (`_write` of `to_dict`s):
      one per appointment, in store order. */
  function Save(store: Store): (rs: seq<Record>)
    requires forall i :: 0 <= i < |store| ==> WellFormed(store[i])
    ensures |rs| == |store|
    ensures forall i :: 0 <= i < |store| ==> rs[i] == ToRecord(store[i])
  {
    if |store| == 0 then []
    else
      assert forall i :: 1 <= i < |store| ==> store[i] == store[1..][i - 1];
      [ToRecord(store[0])] + Save(store[1..])
  }

  /** `get_all`: every stored record loaded with `from_dict`, in file order;
      `None` where one malformed record makes Python raise. */
  function GetAll(records: seq<Record>, now: DateTime): (r: Option<Store>)
    ensures r.Some? <==> forall i :: 0 <= i < |records| ==> FromRecord(records[i], now).Some?
    ensures r.Some? ==> |r.value| == |records|
                        && forall i :: 0 <= i < |records| ==> FromRecord(records[i], now) == Some(r.value[i])
  {
    MapAll(records, (rec: Record) => FromRecord(rec, now))
  }

  /** Writing a store to the file and reading it back gives the same store. */
  lemma GetAllAfterSave(store: Store, now: DateTime)
    requires forall i :: 0 <= i < |store| ==> WellFormed(store[i])
    ensures GetAll(Save(store), now) == Some(store)
  {
    var rs := Save(store);
    forall i | 0 <= i < |store| ensures FromRecord(rs[i], now) == Some(store[i]) {
      RecordRoundTrip(store[i], now);
    }
    var r := GetAll(rs, now);
    assert r.value == store;
  }

  // ---- CRUD --------------------------------------------------------------

  /** The position of the first record with `id`, if any. */
  function IndexOf(store: Store, id: string): (r: Option<nat>)
    ensures r.None? <==> !HasId(store, id)
    ensures r.Some? ==> r.value < |store| && store[r.value].id == id
    ensures r.Some? ==> forall j :: 0 <= j < r.value ==> store[j].id != id
  {
    if |store| == 0 then None
    else if store[0].id == id then Some(0)
    else
      var r := IndexOf(store[1..], id);
      assert HasId(store, id) ==> HasId(store[1..], id) by {
        if HasId(store, id) {
          var i :| 0 <= i < |store| && store[i].id == id;
          assert store[1..][i - 1] == store[i];
        }
      }
      if r.None? then None else Some(r.value + 1)
  }

  /** `get_by_id`: the first record with `id`, or `None` when there is none. */
  function GetById(store: Store, id: string): (r: Option<Appointment>)
    ensures r.None? <==> !HasId(store, id)
    ensures r.Some? ==> exists i :: 0 <= i < |store| && store[i] == r.value && r.value.id == id
                                    && forall j :: 0 <= j < i ==> store[j].id != id
  {
    var i := IndexOf(store, id);
    if i.None? then None else Some(store[i.value])
  }

  /** `create`: the record goes at the end; nothing checks that its id is new. */
  function Create(store: Store, a: Appointment): (r: Store)
    ensures |r| == |store| + 1
    ensures r[..|store|] == store && r[|store|] == a
  {
    store + [a]
  }

  /** `update`: the first record with `a`'s id is replaced by `a`, stamped
      with `now`; no record with that id means `None` and no change. */
  function Update(store: Store, a: Appointment, now: DateTime): (w: Write<Option<Appointment>>)
    ensures |w.store| == |store|
    ensures !HasId(store, a.id) ==> w.result.None? && w.store == store
    ensures HasId(store, a.id) ==>
              && w.result == Some(a.(updatedAt := now))
              && exists i :: 0 <= i < |store| && store[i].id == a.id
                   && (forall j :: 0 <= j < i ==> store[j].id != a.id)
                   && w.store[i] == a.(updatedAt := now)
                   && (forall j :: 0 <= j < |store| && j != i ==> w.store[j] == store[j])
  {
    var i := IndexOf(store, a.id);
    if i.None? then Write(None, store)
    else
      var stamped := a.(updatedAt := now);
      Write(Some(stamped), store[i.value := stamped])
  }

  /** The test `delete` keeps a record by: its id is not `id`. */
  function OtherThan(id: string): Appointment -> bool {
    (a: Appointment) => a.id != id
  }

  /** `delete`: every record with `id` goes and the others stay, each once
      and in order; the answer says whether the store got shorter. */
  function Delete(store: Store, id: string): (w: Write<bool>)
    ensures w.store == Filter(store, OtherThan(id))
    ensures w.result <==> HasId(store, id)
    ensures w.result <==> |w.store| < |store|
    ensures !w.result ==> w.store == store
    ensures !HasId(w.store, id)
    ensures forall x :: multiset(w.store)[x] == if x.id == id then 0 else multiset(store)[x]
    ensures forall i :: 0 <= i < |store| && store[i].id != id ==> store[i] in w.store
    ensures forall i :: 0 <= i < |w.store| ==> w.store[i] in store
  {
    var kept := Filter(store, OtherThan(id));
    FilterKeepsLength(store, OtherThan(id));
    assert forall x :: multiset(kept)[x] == if x.id == id then 0 else multiset(store)[x] by {
      forall x ensures multiset(kept)[x] == if x.id == id then 0 else multiset(store)[x] {
        FilterMultiplicity(store, OtherThan(id), x);
      }
    }
    if |kept| == |store| then
      FilterKeepsAll(store, OtherThan(id));
      Write(false, store)
    else Write(true, kept)
  }

  /** Deleting keeps store order: deleting from a concatenation is
      concatenating the deletions. */
  lemma DeleteKeepsOrder(s: Store, t: Store, id: string)
    ensures Delete(s + t, id).store == Delete(s, id).store + Delete(t, id).store
  {
    FilterAppend(s, t, OtherThan(id));
  }

  /** After a delete nothing with that id can be found. */
  lemma DeleteThenGetIsNone(store: Store, id: string)
    ensures GetById(Delete(store, id).store, id).None?
  {
  }

  /** Without an id check in `create`, a record whose id is already present
      is stored but shadowed: lookups keep finding the older record. */
  lemma CreateThenGet(store: Store, a: Appointment)
    ensures GetById(Create(store, a), a.id) ==
              if HasId(store, a.id) then GetById(store, a.id) else Some(a)
  {
    var r := Create(store, a);
    assert HasId(r, a.id) by { assert r[|store|].id == a.id; }
    if HasId(store, a.id) {
      var i := IndexOf(store, a.id).value;
      var k := IndexOf(r, a.id).value;
      assert r[i] == store[i];
      assert k <= i;
      assert r[k] == store[k];
    }
  }

  // ---- queries -----------------------------------------------------------

  /** `get_by_status`. */
  function GetByStatus(store: Store, status: string): (r: seq<Appointment>)
    ensures forall i :: 0 <= i < |r| ==> r[i] in store && r[i].status == status
    ensures forall i :: 0 <= i < |store| && store[i].status == status ==> store[i] in r
  {
    Filter(store, (a: Appointment) => a.status == status)
  }

  /** `get_by_date`. */
  function GetByDate(store: Store, d: Date): (r: seq<Appointment>)
    ensures forall i :: 0 <= i < |r| ==> r[i] in store && r[i].date == d
    ensures forall i :: 0 <= i < |store| && store[i].date == d ==> store[i] in r
  {
    Filter(store, (a: Appointment) => a.date == d)
  }

  /** `get_by_date_range`: both ends included. */
  function GetByDateRange(store: Store, from: Date, to: Date): (r: seq<Appointment>)
    ensures forall i :: 0 <= i < |r| ==> r[i] in store && DateLe(from, r[i].date) && DateLe(r[i].date, to)
    ensures forall i :: (0 <= i < |store| && DateLe(from, store[i].date) && DateLe(store[i].date, to)) ==>
                          store[i] in r
  {
    Filter(store, (a: Appointment) => DateLe(from, a.date) && DateLe(a.date, to))
  }

  /** A one-day range is exactly that day's appointments, in the same order. */
  lemma {:induction false} OneDayRangeIsDate(store: Store, d: Date)
    ensures GetByDateRange(store, d, d) == GetByDate(store, d)
  {
    if |store| > 0 {
      OneDayRangeIsDate(store[1..], d);
      DateLeIsTotalOrder(d, store[0].date, d);
    }
  }

  /** Queries keep store order: querying a concatenation is concatenating
      the queries. */
  lemma QueriesKeepOrder(s: Store, t: Store, status: string, d: Date, from: Date, to: Date, query: string)
    ensures GetByStatus(s + t, status) == GetByStatus(s, status) + GetByStatus(t, status)
    ensures GetByDate(s + t, d) == GetByDate(s, d) + GetByDate(t, d)
    ensures GetByDateRange(s + t, from, to) == GetByDateRange(s, from, to) + GetByDateRange(t, from, to)
    ensures Search(s + t, query) == Search(s, query) + Search(t, query)
  {
    var q := Strip(Lower(query));
    FilterAppend(s, t, (a: Appointment) => Matches(a, q));
    FilterAppend(s, t, (a: Appointment) => a.status == status);
    FilterAppend(s, t, (a: Appointment) => a.date == d);
    FilterAppend(s, t, (a: Appointment) => DateLe(from, a.date) && DateLe(a.date, to));
  }

  /** `get_upcoming` at `now`: the scheduled appointments starting after
      `now`, earliest start first. */
  function GetUpcoming(store: Store, now: DateTime): (r: seq<Appointment>)
    ensures forall i :: 0 <= i < |r| ==> r[i] in store && IsUpcoming(r[i], now)
    ensures forall i :: 0 <= i < |store| && IsUpcoming(store[i], now) ==> store[i] in r
    ensures forall i, j :: 0 <= i < j < |r| ==> !Before(StartDateTime(r[j]), StartDateTime(r[i]))
    ensures forall a :: multiset(r)[a] == if IsUpcoming(a, now) then multiset(store)[a] else 0
  {
    var upcoming := Filter(store, (a: Appointment) => IsUpcoming(a, now));
    var r := SortBy(ByDate, upcoming);
    forall a ensures multiset(r)[a] == if IsUpcoming(a, now) then multiset(store)[a] else 0 {
      FilterMultiplicity(store, (a: Appointment) => IsUpcoming(a, now), a);
    }
    forall i | 0 <= i < |r| ensures r[i] in store && IsUpcoming(r[i], now) {
      assert r[i] in multiset(upcoming);
    }
    forall i | 0 <= i < |store| && IsUpcoming(store[i], now) ensures store[i] in r {
      assert store[i] in multiset(upcoming);
    }
    forall i, j | 0 <= i < j < |r| ensures !Before(StartDateTime(r[j]), StartDateTime(r[i])) {
      DateKeyIsStartOrder(r[i], r[j]);
    }
    r
  }

  /** A record matches the already lower-cased, stripped query `q`. */
  predicate Matches(a: Appointment, q: string) {
    Contains(Lower(a.title), q) || Contains(Lower(a.clientName), q)
    || Contains(Lower(a.clientEmail), q) || Contains(Lower(a.notes), q)
  }

  /** `search`: the query is lower-cased and stripped, then kept records are
      those where it occurs in the lower-cased title, client name, email or
      notes. */
  function Search(store: Store, query: string): (r: seq<Appointment>)
    ensures forall i :: 0 <= i < |r| ==> r[i] in store && Matches(r[i], Strip(Lower(query)))
    ensures forall i :: 0 <= i < |store| && Matches(store[i], Strip(Lower(query))) ==> store[i] in r
  {
    var q := Strip(Lower(query));
    Filter(store, (a: Appointment) => Matches(a, q))
  }

  /** A blank query matches every record, in store order. */
  lemma BlankSearchMatchesAll(store: Store, query: string)
    requires IsBlank(query)
    ensures Search(store, query) == store
  {
    LowerKeepsBlank(query);
    BlankIffAllSpace(Lower(query));
    var q := Strip(Lower(query));
    assert q == [];
    forall i | 0 <= i < |store| ensures Matches(store[i], q) {
      assert OccursAt(Lower(store[i].title), q, 0);
    }
    FilterKeepsAll(store, (a: Appointment) => Matches(a, q));
  }

  /** Lower-casing twice is lower-casing once. */
  lemma LowerIdempotent(s: string)
    ensures Lower(Lower(s)) == Lower(s)
  {
  }

  /** The search ignores the case of the query. */
  lemma SearchIgnoresQueryCase(store: Store, query: string)
    ensures Search(store, Lower(query)) == Search(store, query)
  {
    LowerIdempotent(query);
  }

  // ---- stats -------------------------------------------------------------

  /** `get_stats`. */
  datatype Stats = Stats(
    total: nat,
    scheduled: nat,
    completed: nat,
    cancelled: nat,
    noShow: nat,
    today: nat,
    upcoming: nat
  )

  /** `sum(1 for a in all_appts if a.status == status)`: as many as
      `get_by_status` returns. */
  function CountStatus(store: Store, status: string): (n: nat)
    ensures n == |GetByStatus(store, status)|
    ensures n <= |store|
  {
    if |store| == 0 then 0
    else (if store[0].status == status then 1 else 0) + CountStatus(store[1..], status)
  }

  /** Records whose status is none of the four labels. */
  function CountInvalidStatus(store: Store): (n: nat)
    ensures n <= |store|
  {
    |Filter(store, (a: Appointment) => !ValidStatus(a.status))|
  }

  /** `get_stats` at `now`; `today` is `now`'s date. */
  function GetStats(store: Store, now: DateTime): (st: Stats)
    ensures st.total == |store|
    ensures st.scheduled == |GetByStatus(store, Scheduled.Label())|
    ensures st.completed == |GetByStatus(store, Completed.Label())|
    ensures st.cancelled == |GetByStatus(store, Cancelled.Label())|
    ensures st.noShow == |GetByStatus(store, NoShow.Label())|
    ensures st.upcoming == |GetUpcoming(store, now)|
    ensures st.today == |GetByDate(store, now.date)|
    ensures st.scheduled <= st.total && st.completed <= st.total
    ensures st.cancelled <= st.total && st.noShow <= st.total
    ensures st.upcoming <= st.scheduled
  {
    UpcomingAreScheduled(store, now);
    Stats(
      |store|,
      CountStatus(store, Scheduled.Label()),
      CountStatus(store, Completed.Label()),
      CountStatus(store, Cancelled.Label()),
      CountStatus(store, NoShow.Label()),
      |GetByDate(store, now.date)|,
      |GetUpcoming(store, now)|)
  }

  /** Every upcoming appointment is scheduled, so there are no more upcoming
      than scheduled ones. */
  lemma {:induction false} UpcomingAreScheduled(store: Store, now: DateTime)
    ensures |GetUpcoming(store, now)| <= CountStatus(store, Scheduled.Label())
  {
    UpcomingCount(store, now);
  }

  lemma {:induction false} UpcomingCount(store: Store, now: DateTime)
    ensures |Filter(store, (a: Appointment) => IsUpcoming(a, now))| <= CountStatus(store, Scheduled.Label())
  {
    if |store| > 0 {
      UpcomingCount(store[1..], now);
    }
  }

  /** The four status counts and the count of unknown statuses add up to the
      total, so with only valid statuses the four counts alone do. */
  lemma {:induction false} StatusCountsPartition(store: Store)
    ensures CountStatus(store, Scheduled.Label()) + CountStatus(store, Completed.Label())
            + CountStatus(store, Cancelled.Label()) + CountStatus(store, NoShow.Label())
            + CountInvalidStatus(store) == |store|
  {
    if |store| > 0 {
      StatusCountsPartition(store[1..]);
    }
  }

  /** With every status valid, the four status counts of `get_stats` add up
      to its total. */
  lemma StatsAddUp(store: Store, now: DateTime)
    requires forall i :: 0 <= i < |store| ==> ValidStatus(store[i].status)
    ensures var st := GetStats(store, now);
            st.scheduled + st.completed + st.cancelled + st.noShow == st.total
  {
    StatusCountsPartition(store);
    FilterKeepsNone(store, (a: Appointment) => !ValidStatus(a.status));
  }
}
