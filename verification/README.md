# Appointment scheduler core in Dafny

This project models the domain core of a small single-user appointment
scheduler. It has three parts:

- **The appointment entity and its validator.** An appointment has a title, client name, email and phone, a date, start and end times of day, a status from a closed set of four labels, notes, and creation/update timestamps. Duration, start/end date-times and "upcoming"/"past" are derived from it. The record converts to and from its stored form, with dates as `YYYY-MM-DD` and times as `HH:MM`. The validator reports every broken rule, not only the first.
- **The repository.** The JSON file is abstracted as one ordered sequence of appointments (`Repository.Store`). Reads are filtered or sorted views of that sequence; each write replaces it. The repository offers get by id, create, update and delete, plus queries by status, date, date range, upcoming and text search, and dashboard statistics.
- **The controller.** It holds the business rules. `create_appointment` validates, then checks for a time conflict, and only then persists. `update_appointment` validates first, then looks the record up, then checks for a conflict that excludes the record itself. `delete_appointment` only looks the id up and deletes. A conflict is a half-open overlap on the same date with an appointment that is not cancelled and is not the one being edited. Status-only changes skip validation and the conflict check. Listing uses a sort-key table that falls back to date order.

Every operation is a pure function from the store it is given to a reply and the store it leaves. The clock (`datetime.now()`) and the id generator (`generate_id`, a truncated UUID) are parameters: `now` and `freshId`.

Files, leaf first:

| file | module | contents |
|---|---|---|
| `wrappers.dfy` | `Wrappers` | `Option`, `Result` |
| `text.dfy` | `Text` | ASCII `strip`/`lower`, substring search, `split(sep)[-1]`, string order |
| `calendar.dfy` | `Calendar` | dates, times of day, date-times, `HH:MM` and `YYYY-MM-DD` text |
| `appointment.dfy` | `Appointments` | status set, `Appointment`, derived values, stored record |
| `validator.dfy` | `Validator` | `AppointmentValidator.validate` as a table of eight rules |
| `seqs.dfy` | `Seqs` | order-keeping filter, all-or-nothing conversion, stable insertion sort |
| `sorting.dfy` | `Sorting` | `list_all`'s sort keys and the sort over them |
| `repository.dfy` | `Repository` | `AppointmentRepository` |
| `controller.dfy` | `Controller` | `AppointmentController`, the store invariants, and scenarios |

Points a reader might not expect:

- The fourth status label is `"No Show"`, with a space.
- `create` does not check that the id is new. Id uniqueness (`Controller.UniqueIds`) is an invariant that the controller lemmas assume and that `Controller.CreateKeepsUniqueIds` shows is kept when the fresh id is new.
- `update` replaces only the **first** record with the id. `delete` removes **every** record with it.
- The conflict reported is the first conflicting record of the date, in store order. An exclude id that is the empty string excludes nothing, because of `exclude_id and ...`.
- `create_appointment` and `update_appointment` refuse clashes; `update_status` does not check for them, as `Controller.StatusChangeCanReintroduceClash` shows.

## Model

| member | source | states |
|---|---|---|
| Appointments.ParseStatus | models/appointment.py:16-22 | a text names a status exactly when it is one of the four labels, and then it is that status's label |
| Appointments.StatusSetIsClosed | models/appointment.py:16-22 | the valid statuses are exactly "Scheduled", "Completed", "Cancelled", "No Show"; each status's label is valid, parses back to that status, and no two statuses share a label |
| Appointments.WithFields | controllers/appointment_controller.py:146-154 | editing replaces all nine editable fields and keeps the id and both timestamps |
| Appointments.NewAppointment | controllers/appointment_controller.py:96-107 | a new appointment carries the given fields and id, created and updated at `now` |
| Appointments.StartDateTime | models/appointment.py:64-66 | the start date-time falls on the appointment's date at the start's minute of day, on a whole minute, and is a real date-time when the appointment is well formed |
| Appointments.EndDateTime | models/appointment.py:68-70 | the end date-time falls on the appointment's date at the end's minute of day, on a whole minute, and is a real date-time when the appointment is well formed |
| Appointments.DurationMinutes | models/appointment.py:46-52 | the duration is the end's minute of day minus the start's, so it is positive exactly when the end date-time is after the start, zero exactly when they coincide, negative exactly when the end is before the start |
| Appointments.IsUpcoming | models/appointment.py:54-57 | upcoming exactly when scheduled and starting on a later day than `now`, or the same day at a later minute |
| Appointments.IsPast | models/appointment.py:59-62 | past exactly when starting on an earlier day than `now`, or the same day at an earlier minute, or at `now`'s minute once `now` has passed it; status plays no part |
| Appointments.UpcomingAndPastSplitTime | models/appointment.py:54-62 | never both upcoming and past; a scheduled appointment not starting exactly at `now` is one of the two; an appointment that is not scheduled is never upcoming, while past ignores status |
| Appointments.ToRecord | models/appointment.py:72-86 | a stored record always carries notes and both timestamps |
| Appointments.FromRecord | models/appointment.py:88-103 | loading succeeds exactly when the date and both times parse, and the loaded date and times are then valid |
| Appointments.RecordRoundTrip | models/appointment.py:72-103 | loading the stored form of a well-formed appointment gives back the same appointment, every field included |
| Appointments.RecordTextRoundTrip | models/appointment.py:72-103 | a complete record that loads is exactly the stored form of what it loads to |
| Calendar.Combine | models/appointment.py:64-70 | combining keeps the date, places the time at its minute of day with no sub-minute part, and gives a valid date-time from a valid date and time |
| Calendar.BeforeIsStrictTotalOrder | models/appointment.py:55-62 | date-time order is irreflexive, transitive, total and asymmetric |
| Calendar.DateLeIsTotalOrder | models/repository.py:87-88 | date order is total, transitive and antisymmetric |
| Calendar.CombineOrder | models/appointment.py:142-145 | on one date, start before end exactly when the start minute is less than the end minute |
| Calendar.CombineInjective | models/appointment.py:49-52 | on one date, two valid times give the same date-time only if they are equal |
| Calendar.PadDecimal | models/appointment.py:79-81 | zero-padding gives exactly `w` digits |
| Calendar.DecimalValue | models/appointment.py:96-98 | a string of `w` digits denotes a number below 10^w |
| Calendar.DecimalOfPad | models/appointment.py:79-81 | reading a zero-padded number gives the number back |
| Calendar.PadOfDecimal | models/appointment.py:96-98 | zero-padding a digit string's value to its width gives the string back |
| Calendar.FormatTime | models/appointment.py:80-81 | `HH:MM` is five characters with a colon in the middle |
| Calendar.ParseTime | models/appointment.py:97-98 | parsing yields only valid times of day (hour < 24, minute < 60) |
| Calendar.TimeRoundTrip | models/appointment.py:80-81 | parsing a formatted time gives the time back |
| Calendar.TimeTextRoundTrip | models/appointment.py:97-98 | formatting a parsed time gives the text back, so the two are inverses |
| Calendar.FormatDate | models/appointment.py:79 | `YYYY-MM-DD` is ten characters with dashes at positions 4 and 7 |
| Calendar.ParseDate | models/appointment.py:96 | parsing yields only real calendar dates |
| Calendar.DateRoundTrip | models/appointment.py:79-96 | parsing a formatted date gives the date back |
| Calendar.DateTextRoundTrip | models/appointment.py:79-96 | formatting a parsed date gives the text back |
| Text.Strip | models/appointment.py:128 | stripping never lengthens, and what is left neither starts nor ends with white space |
| Text.StripKeepsMiddle | models/appointment.py:128 | stripping keeps a middle slice and removes only white space on either side |
| Text.BlankIffAllSpace | models/appointment.py:128-137 | a text is blank exactly when stripping leaves nothing, and exactly when all its characters are white space |
| Text.Lower | models/repository.py:99-105 | lower-casing keeps the length and maps each character on its own |
| Text.LowerKeepsBlank | models/repository.py:99 | lower-casing changes no blankness |
| Text.LowerCharKeepsSpace | models/repository.py:99 | lower-casing a character neither makes nor removes white space |
| Text.Contains | models/repository.py:102-105 | `q in text` holds exactly when `q` occurs at some position of `text` |
| Text.AfterLast | models/appointment.py:134 | the last piece of `split(sep)` is a suffix free of `sep`, preceded by `sep` when it is not the whole text |
| Text.StrLeTotal | controllers/appointment_controller.py:32-34 | any two strings are comparable |
| Text.StrLeTransitive | controllers/appointment_controller.py:32-34 | string order is transitive |
| Text.StrLeAntisymmetric | controllers/appointment_controller.py:32-34 | string order is antisymmetric |
| Validator.EmailShapeRule | models/appointment.py:134-135 | the email test as written holds exactly when there is an `@` and the text after the last `@` holds a `.` |
| Validator.Checks | models/appointment.py:128-147 | eight rules in source order; the second email rule fires only on a non-blank address that fails the shape test, so the two email rules never fire together; the end-after-start rule fires exactly when the end minute is not after the start minute, and then the minimum-length rule fires too |
| Validator.Reported | models/appointment.py:126-149 | the reported messages are exactly those of the broken rules; none when nothing is broken |
| Validator.ReportedIsFilter | models/appointment.py:126-149 | the reported list is the messages of the broken rules as the order-keeping filter leaves them: one entry per broken rule, in rule order |
| Validator.NothingReported | models/appointment.py:126-149 | eight rules report nothing exactly when none of them is broken |
| Validator.Validate | models/appointment.py:126-149 | no message exactly when title, name and phone are non-blank, the email is non-blank and well-shaped, the status is valid and the appointment lasts at least 15 minutes; at most eight messages |
| Validator.ValidateInRuleOrder | models/appointment.py:126-149 | `validate` returns the messages of the broken rules as the order-keeping filter leaves them (one per broken rule, in rule order), and never the same message twice |
| Validator.RuleReported | models/appointment.py:126-149 | each rule's message is reported exactly when that rule is broken |
| Validator.ValidateReportsFieldRules | models/appointment.py:128-137 | title, name, email-required, email-invalid and phone messages each appear exactly when their rule is broken; email-invalid only for a non-blank address |
| Validator.ValidateReportsStatusAndTimeRules | models/appointment.py:138-147 | the status, end-after-start and 15-minute messages each appear exactly when their rule is broken, and no other message ever appears |
| Validator.ReportedOnce | models/appointment.py:126-149 | a rule whose message is unique is reported exactly when broken |
| Validator.MessagesDistinct | models/appointment.py:128-147 | the eight messages are pairwise different |
| Validator.MessagesDistinctByIndex | models/appointment.py:128-147 | the eight messages, taken by position, are pairwise different |
| Validator.ChecksMessages | models/appointment.py:126-149 | the k-th rule reports the k-th message, and no two rules share a message |
| Validator.EndNotAfterStartBreaksBothTimeRules | models/appointment.py:144-147 | an end not after the start reports both time messages, whatever the other fields |
| Validator.DurationRules | models/appointment.py:46-52 | on a stored appointment, the minimum-length message is reported exactly when `duration_minutes` is under 15, and the end-after-start message exactly when it is not positive |
| Validator.BlankTitleAndBadEmailBothReported | models/appointment.py:128-135 | the rules do not short-circuit: a blank title and a malformed email are both reported |
| Validator.EmailMessagesExclusive | models/appointment.py:132-135 | "email required" and "invalid email" never appear together |
| Seqs.Filter | models/repository.py:81-88 | a filter keeps only elements that satisfy the predicate, and all that do |
| Seqs.FilterAppend | models/repository.py:81-88 | filtering a concatenation is concatenating the filters, so store order is kept |
| Seqs.FilterKeepsAll | models/repository.py:100-106 | a predicate every element satisfies keeps the whole sequence |
| Seqs.FilterKeepsNone | models/repository.py:117-120 | a predicate no element satisfies keeps nothing |
| Seqs.FilterKeepsLength | models/repository.py:73-74 | a filter keeps the length exactly when every element satisfies the predicate |
| Seqs.FilterKeepsPairs | models/repository.py:73-74 | a relation that holds from each element to every later one still holds among the elements a filter keeps |
| Seqs.FilterMultiplicity | models/repository.py:92-94 | a filter keeps every copy of a satisfying element and no copy of any other |
| Seqs.Insert | controllers/appointment_controller.py:36 | insertion adds exactly one copy of the element |
| Seqs.InsertSorted | controllers/appointment_controller.py:36 | inserting into a sorted sequence keeps it sorted |
| Seqs.Sort | controllers/appointment_controller.py:36 | sorting gives a sorted permutation of the input |
| Seqs.InsertTies | controllers/appointment_controller.py:36 | insertion puts an element in front of the elements it ties with, which is what keeps the sort stable |
| Seqs.SortIsStable | controllers/appointment_controller.py:36 | elements that tie keep their input order |
| Seqs.MapAll | models/repository.py:45-47 | converting every element succeeds exactly when each conversion does, and then gives one result per element, in order |
| Sorting.ParseSortKey | controllers/appointment_controller.py:30-36 | a key other than date is chosen only by its own name, and a name no key has falls back to date order |
| Sorting.SortKeyNamesRoundTrip | controllers/appointment_controller.py:30-35 | each key is chosen by its own name |
| Sorting.KeyLeTotalPreorder | controllers/appointment_controller.py:30-35 | `KeyLe`, each key's order (date and start; lower-cased name; raw status; lower-cased title) is total and transitive |
| Sorting.DateKeyIsStartOrder | controllers/appointment_controller.py:31 | date-key order is the order of start date-times |
| Sorting.OrderIsTotalPreorder | controllers/appointment_controller.py:30-35 | every key order is a total preorder |
| Sorting.SortBy | controllers/appointment_controller.py:36 | sorting by a key gives a permutation in key order |
| Sorting.SortByIsStable | controllers/appointment_controller.py:36 | appointments that tie under the key keep their stored order |
| Repository.Save | models/repository.py:39-41 | one stored record per appointment, each the stored form of the appointment at the same position |
| Repository.GetAll | models/repository.py:45-47 | loading succeeds exactly when every record loads, and gives one appointment per record, in file order |
| Repository.GetAllAfterSave | models/repository.py:39-47 | writing a store and reading it back gives the same store |
| Repository.IndexOf | models/repository.py:49-53 | the position of the first record with the id, absent exactly when no record has it |
| Repository.GetById | models/repository.py:49-53 | absent exactly when no record has the id; otherwise the first record with it |
| Repository.Create | models/repository.py:55-59 | the record is appended and every earlier record is unchanged |
| Repository.Update | models/repository.py:61-69 | with the id present, the first record with it is replaced by the new one stamped `now`, and every other position is unchanged; with the id absent, no result and no change |
| Repository.Delete | models/repository.py:71-77 | true exactly when the id was present, which is exactly when the store shrank; afterwards no record has it; every other record keeps its multiplicity and nothing new appears; on false the store is untouched |
| Repository.DeleteKeepsOrder | models/repository.py:71-77 | deleting from a concatenation deletes from each part and keeps the parts in order, so the survivors keep their relative order |
| Repository.DeleteThenGetIsNone | models/repository.py:71-77 | after a delete the id cannot be found |
| Repository.CreateThenGet | models/repository.py:49-59 | a created record can be found unless an older record has its id, which then shadows it |
| Repository.GetByStatus | models/repository.py:81-82 | exactly the stored records with that status |
| Repository.GetByDate | models/repository.py:84-85 | exactly the stored records on that date |
| Repository.GetByDateRange | models/repository.py:87-88 | exactly the stored records between the two dates, both ends included |
| Repository.OneDayRangeIsDate | models/repository.py:84-88 | a one-day range is that day's records in the same order |
| Repository.QueriesKeepOrder | models/repository.py:81-106 | the status, date, date-range and search queries distribute over concatenation, so each keeps store order |
| Repository.GetUpcoming | models/repository.py:90-96 | exactly the scheduled records starting after `now`, each as often as stored, earliest start first |
| Repository.Search | models/repository.py:98-106 | exactly the records whose lower-cased title, name, email or notes contain the lower-cased, stripped query |
| Repository.BlankSearchMatchesAll | models/repository.py:98-106 | a blank query returns the whole store in order |
| Repository.LowerIdempotent | models/repository.py:99 | lower-casing twice is lower-casing once |
| Repository.SearchIgnoresQueryCase | models/repository.py:99 | the query's case does not matter |
| Repository.CountStatus | models/repository.py:117-120 | a status count equals the number of records `filter_by_status` returns for that status, and never exceeds the total |
| Repository.CountInvalidStatus | models/repository.py:117-120 | the count of records with an unknown status never exceeds the total |
| Repository.GetStats | models/repository.py:110-123 | total is the store size; each status count is the size of that status's filter; today counts the records on `now`'s date; upcoming is the length of the upcoming list and never exceeds scheduled |
| Repository.UpcomingAreScheduled | models/repository.py:117-122 | there are never more upcoming records than scheduled ones |
| Repository.UpcomingCount | models/repository.py:90-94 | the upcoming filter keeps no more records than the scheduled filter |
| Repository.StatusCountsPartition | models/repository.py:117-120 | the four status counts plus the unknown-status count add up to the total |
| Repository.StatsAddUp | models/repository.py:115-120 | with every status valid, scheduled + completed + cancelled + no-show = total |
| Controller.ListAll | controllers/appointment_controller.py:27-36 | every stored appointment as often as stored, in the order of the named key, or date order for an unknown name |
| Controller.UnknownSortKeyFallsBackToDate | controllers/appointment_controller.py:36 | an unknown sort name lists in date-and-start order |
| Controller.AppendKeepsTimesValid | models/repository.py:55-59 | appending an appointment with valid times keeps every stored time valid |
| Controller.FirstBlocking | controllers/appointment_controller.py:186-194 | the first candidate that blocks the slot; none exactly when no candidate does |
| Controller.CheckConflict | controllers/appointment_controller.py:177-194 | a conflict is found exactly when some stored record on the date is not excluded, not cancelled and overlaps the half-open slot; a found record is such a record |
| Controller.CheckConflictFindsFirst | controllers/appointment_controller.py:185-194 | the conflict reported is the first conflicting record in store order |
| Controller.BackToBackNeverConflicts | controllers/appointment_controller.py:192 | a slot ending when another starts, or starting when it ends, does not conflict with it |
| Controller.ConflictMessageIsNotValidation | controllers/appointment_controller.py:87-93 | a text starting like the conflict message is none of the validation messages |
| Controller.ConflictMessage | controllers/appointment_controller.py:87-93 | the conflict message names the clashing appointment's title and both `HH:MM` ends of its window, and is never one of the validation messages |
| Controller.CreateAppointment | controllers/appointment_controller.py:61-109 | success exactly when the fields are acceptable and nothing conflicts; valid new times keep the store's times valid; validation errors are returned verbatim with the store unchanged; a conflict gives the one message naming a conflicting record, store unchanged; success appends one record with the fields, the fresh id and both timestamps `now` |
| Controller.UpdateAppointment | controllers/appointment_controller.py:111-157 | validation first, then "Appointment not found.", then a conflict check excluding the record itself; on success the first record with the id gets all nine fields, keeps its id and creation time, is stamped `now`, and no other record changes |
| Controller.DeleteAppointment | controllers/appointment_controller.py:159-163 | success exactly when the id was present, and then the store shrank; otherwise "Appointment not found." and no change; afterwards the id is gone, every other record keeps its multiplicity, and no record appears that was not there |
| Controller.FilterKeepsUniqueIds | models/repository.py:71-77 | dropping records from a store with unique ids leaves the ids unique |
| Controller.FilterKeepsConflictFree | models/repository.py:71-77 | dropping records from a clash-free store leaves it clash-free |
| Controller.DeleteKeepsInvariants | controllers/appointment_controller.py:159-163 | a delete keeps stored times valid, ids unique and the store free of clashes |
| Controller.UpdateStatus | controllers/appointment_controller.py:165-173 | not-found before invalid status; on success only the status and update time of the first record with the id change |
| Controller.CreateKeepsConflictFree | controllers/appointment_controller.py:85-109 | acceptable fields that conflict with nothing are created, and the store stays free of clashing non-cancelled appointments |
| Controller.CreateKeepsUniqueIds | controllers/appointment_controller.py:96-108 | a create with a new id keeps ids unique |
| Controller.ReplaceKeepsInvariants | models/repository.py:61-69 | replacing one record by a same-id record that conflicts with no other keeps ids unique and the store clash-free |
| Controller.UpdateKeepsInvariants | controllers/appointment_controller.py:131-157 | with unique ids, an acceptable, conflict-free update of a present id succeeds and keeps the store clash-free and ids unique |
| Controller.CheckConflictAfterAppend | controllers/appointment_controller.py:185-194 | behind a conflict-free store, a newly appended record is the conflict found exactly when it conflicts |
| Controller.OverlappingSecondCreateFails | controllers/appointment_controller.py:85-94 | after a successful create, an overlapping second create on the same date fails with one message and no change, naming the first when nothing else is in the way |
| Controller.BackToBackCreatesSucceed | controllers/appointment_controller.py:85-109 | two acceptable back-to-back appointments on one date can both be created |
| Controller.StatusChangeCanReintroduceClash | controllers/appointment_controller.py:165-173 | a clash-free store exists in which re-scheduling a cancelled appointment succeeds and leaves two clashing appointments |

## Left out

- Presentation code (`views/`, `appoint_app.py`) and demo seeding (`data/seed.py`) are not part of this model. They hold no domain rules.
- JSON file I/O (`_read`, `_write`, directory creation) is left out. The file is the store sequence itself. `Repository.Save` and `Repository.GetAll` stand for writing and loading its records, and each write is atomic.
- `datetime.now()` and `date.today()` are the parameter `now`. `generate_id` is the parameter `freshId`.
- Controller.CreateAppointment: `create_appointment` reads the clock twice, once for `created_at` and once for `updated_at`. The model stamps both with the one `now`.
- The pass-through reads (`get_by_id`, `get_upcoming`, `get_today`, `search`, `filter_by_status`, `filter_by_date_range` and `get_dashboard_stats` on the controller) add nothing to the repository operations they call. `get_today` is `Repository.GetByDate` at `now`'s date.
- Calendar.ParseTime: accepts only the `HH:MM` form the records are written in. It does not accept the other forms `time.fromisoformat` takes (seconds, fractions, offsets). Times of day are whole minutes.
- Calendar.ParseDate: accepts only `YYYY-MM-DD`, the form the records are written in. It does not accept the other ISO forms newer Pythons accept.
- Appointments.Record: the timestamps are kept as date-time values (date, minute of day, microsecond within the minute). Their ISO text is not modelled.
- Text.Strip: strips ASCII white space only. Python also strips Unicode white space such as U+0085 and U+00A0.
- Text.Lower: lower-cases ASCII letters only. Python lower-cases all of Unicode.
- Text.StrLeTotal: string order is by character code. This matches Python's order on code points, with no locale collation.
- Malformed stored records make Python raise. The model returns `None` from `Appointments.FromRecord` and `Repository.GetAll` instead, and reads over the store assume it loaded.
- Concurrency is not modelled. The check-then-write sequences are not atomic across processes, and the model has a single caller.
- Repository.GetStats: reads one `now`. `get_stats` reads the clock at models/repository.py:112 and again inside `get_upcoming` at models/repository.py:91, so the two instants can differ by the time between the calls.
- Appointments.FromRecord: a record missing `created_at` or `updated_at` gets the one `now` for both. `from_dict` calls `datetime.now()` separately for each default at models/appointment.py:101-102.
- Default arguments are not modelled: `status` and `notes` of `create_appointment`, `notes` of `update_appointment` and `sort_by="date"` of `list_all` are always passed explicitly (`Fields.status`, `Fields.notes`, `sortBy`).
