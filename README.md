# Leave ledger of the High School Holiday Application Manager

The repository is a small tool server for student leave. Its core is the
leave ledger in `main.py`. This is an in-memory table of student records
(`students_db`). Each record holds a balance of leave days (`holidays_left`)
and the list of dates already booked (`holidays_taken`). Four operations
work on the table:

- `find_student` returns the first record with a given `school_id`.
- `request_leave` books the requested dates that are not booked yet. It books
  all of them or none.
- `check_leave_status` reports one record.
- `cancel_leave` removes booked dates one `list.remove` at a time and then
  credits the balance.

The model has three modules.

- `LeaveDates` (`dates.dfy`) holds the list operations on one record's booked
  dates. `NewDates` and `Cancelable` are the two list comprehensions.
  `RemoveFirst` is Python's `list.remove`. `RemoveEach` is the removal loop of
  `cancel_leave`, and it includes the case where a `remove` raises partway
  through.
- `LeaveLedger` (`ledger.dfy`) holds the record type and the outcome types. It
  also holds the functions `Request`, `Cancel` and `StatusOf`, which say what
  each operation does to a table. The class `Ledger` owns the table as its
  field `students`. Its methods `FindStudent`, `RequestLeave`,
  `CheckLeaveStatus` and `CancelLeave` do the work step by step, the way the
  source does, and each one is proved equal to its function. `Seed` is the
  table the process starts with.
- `LedgerProperties` (`properties.dfy`) proves what the operations promise:
  - the approve/deny rule;
  - the cancellation rule, including when it raises;
  - conservation of days;
  - frame conditions;
  - the book-then-cancel round trip;
  - scenarios on the seed table.

A record lookup is modelled as the index of the first matching record. An
update writes that index of `students`. This is how the dictionary that
`find_student` returns, which is shared with the table, gets mutated in place.

Two behaviours of the code a reader might not expect. The model keeps both:

- `holidays_taken` can hold a date twice. `request_leave` only compares the
  requested dates with the booked list, not with each other, so it appends a
  new date once for every time it is requested and charges for each copy
  (main.py:68 and 76-77). `SeedDoubleBooking` shows this.
- `cancel_leave` can fail partway. If a booked date is requested more often
  than it is held, the extra `list.remove` raises `ValueError` (main.py:110
  and 115-118). The removals before it stay made, and the credit never
  happens. The model reports this as the outcome `RemoveFailed(date)`, with
  the partly changed record. `CancelRule` says exactly when it happens and
  what the record then holds, and `SeedRepeatedCancel` shows it.

## Model

| member | source | states |
|---|---|---|
| LeaveDates.NewDates | main.py:68 | each date occurs in the result as often as it is requested if it is not booked, and not at all if it is booked; so repeats of a new date are kept |
| LeaveDates.NewDatesEmpty | main.py:68-71 | no new dates exactly when every requested date is already booked |
| LeaveDates.NewDatesAllNew | main.py:68 | when no requested date is booked, the new dates are the request itself, in input order |
| LeaveDates.NewDatesOrder | main.py:68 | the new dates of a request split in two are the new dates of each part, joined: the filter keeps input order |
| LeaveDates.NewDatesSingle | main.py:68 | one requested date is new exactly when it is not booked |
| LeaveDates.Cancelable | main.py:110 | each date occurs in the result as often as it is requested if it is booked, and not at all otherwise |
| LeaveDates.CancelableEmpty | main.py:110-113 | nothing to cancel exactly when no requested date is booked |
| LeaveDates.CancelableAllBooked | main.py:110 | when every requested date is booked, the dates to cancel are the request itself, in input order |
| LeaveDates.CancelableOrder | main.py:110 | the dates to cancel of a request split in two are those of each part, joined: the filter keeps input order, which fixes the order of the `remove` calls |
| LeaveDates.CancelableSingle | main.py:110 | one requested date is to be cancelled exactly when it is booked |
| LeaveDates.CancelableFits | main.py:110-116 | the dates to cancel fit in the booked list (as multisets) exactly when no booked date is requested more often than it is booked |
| LeaveDates.RemoveFirst | main.py:116 | `list.remove` on a list holding the date makes the list one shorter |
| LeaveDates.RemoveFirstCount | main.py:116 | `list.remove` takes away one occurrence of the date and keeps every other element |
| LeaveDates.RemoveFirstSplit | main.py:116 | `list.remove` drops the first occurrence and keeps what comes before and after it in place |
| LeaveDates.RemoveEach | main.py:115-116 | the removal loop never grows the list; a date that raises is one of the dates removed; a loop that completes shortens the list by exactly the number of dates removed |
| LeaveDates.RemoveEachStops | main.py:115-116 | once a `remove` raises, the loop stops and later dates are never tried |
| LeaveDates.RemoveEachRaises | main.py:115-116 | a loop that raises on a date stopped at a position holding that date; the list it leaves is exactly what the removals of the dates before that position left, and the date is no longer in it |
| LeaveDates.RemoveEachCompletes | main.py:115-116 | the loop completes exactly when every date occurs in the booked list at least as often as it is removed |
| LeaveDates.RemoveEachCount | main.py:115-116 | a loop that completes takes away exactly the removed dates, counted with their repeats |
| LeaveDates.RemoveEachShrinks | main.py:115-116 | when the first date removed is booked, at least one removal happens even if a later one raises |
| LeaveDates.RemoveEachUndoesAppend | main.py:115-116 | removing, in order, dates that were appended to a list that did not hold them gives back the list before the append |
| LeaveLedger.FirstMatch | main.py:52-56 | the first record whose `school_id` is the key, or none when no record has it |
| LeaveLedger.Book | main.py:68-79 | a request on a found record is taken, denied or approved; only approval changes the record; name, id, date of birth and grade are kept, and so is days left plus days booked |
| LeaveLedger.Unbook | main.py:110-123 | a cancel on a found record reports none booked (record unchanged), a raise (balance not credited) or a cancellation (days left plus days booked kept); the booked list never grows and name, id, date of birth and grade are kept |
| LeaveLedger.Request | main.py:60-79 | `request_leave` on a table reports not found exactly when no record has the id; the table keeps its length, every record but the first match is unchanged, and no record's identity fields change |
| LeaveLedger.Cancel | main.py:101-123 | `cancel_leave` on a table reports not found exactly when no record has the id; the table keeps its length, every record but the first match is unchanged, and no record's identity fields change |
| LeaveLedger.Seed | main.py:8-49 | the table starts with five records, and every student has ten days in all (S005: seven left, three booked) |
| LeaveLedger.StatusOf | main.py:83-97 | the error result exactly when no record has the id; otherwise the name, id, grade, balance and booked dates of the first record with that id |
| LeaveLedger.Ledger.constructor | main.py:8 | the ledger holds the given table |
| LeaveLedger.Ledger.FindStudent | main.py:52-56 | the linear scan returns the first match (as `FirstMatch`) and reads the table without changing it |
| LeaveLedger.Ledger.RequestLeave | main.py:60-79 | the extend-then-debit on the found record leaves the outcome and the table that `Request` gives |
| LeaveLedger.Ledger.CheckLeaveStatus | main.py:83-97 | returns `StatusOf` for the table and changes nothing |
| LeaveLedger.Ledger.CancelLeave | main.py:101-123 | the remove loop and the credit leave the outcome and the table that `Cancel` gives, including the partly changed record when a `remove` raises |
| LedgerProperties.UnknownStudent | main.py:64-66 | for an unknown id, request and cancel report "not found" and status returns the error result (also main.py:87-89 and 106-108); the table is unchanged |
| LedgerProperties.RequestRule | main.py:64-79 | all requested dates booked gives "already taken"; too small a balance denies and reports the balance; otherwise the request is approved. Only approval changes the table: the new dates are appended in input order, the balance drops by their count, and that count and the new balance are reported. Only the record's two leave fields change, and days left plus days booked is kept |
| LedgerProperties.RequestCharge | main.py:68-77 | after approval, a booked date's count is unchanged; a new date gains as many copies as it was requested (so it is charged twice when requested twice) |
| LedgerProperties.CancelRule | main.py:106-123 | no requested date booked gives "none booked" and no change. The call raises exactly when some booked date is requested more often than it is booked; then the date reported is a booked one that the record no longer holds, the record holds exactly what the removals of the dates to cancel before it left (one occurrence of each), the balance is not credited and days are lost. Otherwise the requested booked dates are removed, the balance rises by their count, and days left plus days booked is kept. Only the record's two leave fields change |
| LedgerProperties.UnbookRule | main.py:110-123 | the same rule for one record: when it reports "none booked", when it raises and when it credits; after a credit, exactly the dates to cancel are gone; after a raise, the raising date is the first one no longer held and the record holds exactly what the earlier removals left; name, id, date of birth and grade are kept |
| LedgerProperties.DistinctCancelCompletes | main.py:110-118 | cancelling pairwise distinct dates never raises |
| LedgerProperties.Conservation | main.py:76-118 | days left plus days booked is unchanged, for every record, by every request and by every cancel that does not raise |
| LedgerProperties.BookAllNew | main.py:68-79 | a request of unbooked dates within the balance is approved, appends them all and debits their count |
| LedgerProperties.UnbookUndoesBook | main.py:110-123 | cancelling the dates that such a request appended gives back the record as it was |
| LedgerProperties.RequestThenCancel | main.py:68-118 | an approved request of dates none of which was booked, followed by a cancel of the same dates, gives back the whole table: the balance, the booked list in order, and every other record |
| LedgerProperties.SameKeysSameMatch | main.py:52-56 | lookup depends only on the ids, so updates that keep ids keep every lookup |
| LedgerProperties.SeedIdsDistinct | main.py:8-49 | the seed table has no repeated `school_id` |
| LedgerProperties.SeedRequestS005 | main.py:41-79 | S005 (7 left, three dates) asking for 01-10-2025 and 01-01-2025 is approved for one day with 6 left, and gains 01-10-2025 only |
| LedgerProperties.SeedStatusS001 | main.py:91-97 | S001 on the seed table reports Alice Johnson, grade 10, 10 days left, nothing booked |
| LedgerProperties.SeedUnknownS999 | main.py:64-66 | S999 is unknown to request, cancel and status on the seed table |
| LedgerProperties.SeedDoubleBooking | main.py:68-77 | S001 asking for the same new date twice is approved for two days, 8 left, and holds the date twice |
| LedgerProperties.RepeatedRemovalRaises | main.py:115-116 | removing a date held once, twice in a row, takes it out and then raises |
| LedgerProperties.SeedRepeatedRemoval | main.py:115-116 | the removal loop on S005's dates with 01-01-2025 twice removes it once and then raises |
| LedgerProperties.SeedRepeatedCancel | main.py:110-118 | S005 cancelling 01-01-2025 twice fails on the second removal: the date is gone and the balance stays 7 |
| LedgerProperties.SeedSession | main.py:60-108 | on a ledger built from the seed table, S005's request is approved for one day with 6 left, S001's status is unchanged, and a cancel for S999 reports not found |

## Left out

- The FastMCP server: creating it, registering the tools and the greeting resource, and `mcp.run()`. These are host-runtime plumbing.
- `get_greeting`: it is a string template that never touches the ledger.
- The exact wording of the result messages. Outcomes carry the counts and balances that the messages show.
- Date format and calendar validity: the code compares dates only as opaque strings.
- How the host reports the `ValueError` from `list.remove`. The model stops at the outcome `RemoveFailed` and the partly changed record.
- Aliasing of what `check_leave_status` returns: its `holidays_taken` is the record's own list, so a caller that mutates it would mutate the table. The model returns a value.
- Concurrency: the source has none, and every operation runs to completion.
