/** The sort orders of the appointment list (`list_all`'s key table) and a
    stable sort over them, like Python's `sorted(..., key=...)`. */
module Sorting {
  import opened Text
  import opened Calendar
  import opened Appointments
  import opened Seqs

  /** The keys `list_all` can sort by. */
  datatype SortKey = ByDate | ByClientName | ByStatus | ByTitle {
    /** The name a caller passes for this key. */
    function Name(): string {
      match this
      case ByDate => "date"
      case ByClientName => "client_name"
      case ByStatus => "status"
      case ByTitle => "title"
    }
  }

  /** `key_map.get(sort_by, key_map["date"])`: a known name selects its key,
      anything else falls back to date order. */
  function ParseSortKey(name: string): (k: SortKey)
    ensures k != ByDate ==> k.Name() == name
    ensures (forall k': SortKey :: k'.Name() != name) ==> k == ByDate
  {
    if name == "client_name" then ByClientName
    else if name == "status" then ByStatus
    else if name == "title" then ByTitle
    else ByDate
  }

  /** Every key is selected by its own name. */
  lemma SortKeyNamesRoundTrip(k: SortKey)
    ensures ParseSortKey(k.Name()) == k
  {
  }

  /** `a` may come before `b` under key `k`: the Python comparison of the two
      key values. Date order compares `(date, start_time)` tuples; the
      name and title orders compare lower-cased text; status order compares
      the labels as stored. */
  predicate KeyLe(k: SortKey, a: Appointment, b: Appointment) {
    match k
    case ByDate =>
      DateBefore(a.date, b.date) || (a.date == b.date && MinuteOfDay(a.start) <= MinuteOfDay(b.start))
    case ByClientName => StrLe(Lower(a.clientName), Lower(b.clientName))
    case ByStatus => StrLe(a.status, b.status)
    case ByTitle => StrLe(Lower(a.title), Lower(b.title))
  }

  /** Every key order is a total preorder. */
  lemma KeyLeTotalPreorder(k: SortKey, a: Appointment, b: Appointment, c: Appointment)
    ensures KeyLe(k, a, b) || KeyLe(k, b, a)
    ensures KeyLe(k, a, b) && KeyLe(k, b, c) ==> KeyLe(k, a, c)
  {
    match k
    case ByDate =>
    case ByClientName =>
      StrLeTotal(Lower(a.clientName), Lower(b.clientName));
      if KeyLe(k, a, b) && KeyLe(k, b, c) {
        StrLeTransitive(Lower(a.clientName), Lower(b.clientName), Lower(c.clientName));
      }
    case ByStatus =>
      StrLeTotal(a.status, b.status);
      if KeyLe(k, a, b) && KeyLe(k, b, c) {
        StrLeTransitive(a.status, b.status, c.status);
      }
    case ByTitle =>
      StrLeTotal(Lower(a.title), Lower(b.title));
      if KeyLe(k, a, b) && KeyLe(k, b, c) {
        StrLeTransitive(Lower(a.title), Lower(b.title), Lower(c.title));
      }
  }

  /** Date order is the order of start date-times. */
  lemma DateKeyIsStartOrder(a: Appointment, b: Appointment)
    ensures KeyLe(ByDate, a, b) <==> !Before(StartDateTime(b), StartDateTime(a))
  {
  }

  /** `KeyLe(k, ., .)` as a relation, for the generic sort. */
  function Order(k: SortKey): (Appointment, Appointment) -> bool {
    (a: Appointment, b: Appointment) => KeyLe(k, a, b)
  }

  lemma OrderIsTotalPreorder(k: SortKey)
    ensures TotalPreorder(Order(k))
  {
    forall a, b, c {
      KeyLeTotalPreorder(k, a, b, c);
    }
  }

  /** `sorted(appts, key=k)`: every pair in key order, the same appointments
      as many times each, and appointments that tie kept in their input order. */
  function SortBy(k: SortKey, s: seq<Appointment>): (r: seq<Appointment>)
    ensures forall i, j :: 0 <= i < j < |r| ==> KeyLe(k, r[i], r[j])
    ensures multiset(r) == multiset(s)
    ensures |r| == |s|
  {
    OrderIsTotalPreorder(k);
    Sort(Order(k), s)
  }

  /** Appointments that tie under `k` come out of `SortBy` in their input order. */
  lemma SortByIsStable(k: SortKey, z: Appointment, s: seq<Appointment>)
    ensures Ties(Order(k), z, SortBy(k, s)) == Ties(Order(k), z, s)
  {
    OrderIsTotalPreorder(k);
    SortIsStable(Order(k), z, s);
  }
}
