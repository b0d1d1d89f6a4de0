# Entry repository of the firewall-rule CMDB service

The service keeps firewall rule entries for virtual machines in one
relational table, `entries`. Each row holds a surrogate `id` and six identity
fields: `vmname`, `comment`, `source`, `service`, `action` and `input_source`.
This project models the service's core, found in `api/main.py`:

- the two field validators, `validate_vmname` and `validate_action`;
- the `Entry` record: its defaults, and its decoding from a stored row by
  `from_db_row`;
- the repository functions `db_get_entry_id`, `db_get_entry_by_id`,
  `db_insert_entry`, `db_get_all_entries`, `db_get_entry`,
  `db_get_entries_for_vm` and `db_delete_entry`;
- the logic of the `create_entry`, `delete_entries` and `delete_entry`
  handlers, without HTTP.

Layout:

- `wrappers.dfy`: the `Option`, `Result` and `Outcome` datatypes.
- `entry.dfy`: the validators, `Entry`, `Row` and `FromDbRow`. The
  vmname validator is proved equal to the backtracking meaning of
  `re.match(r"^[a-zA-Z0-9-_]+$", name)`. Python's `$` also matches before
  one final newline, so `"web01\n"` is accepted, and the model keeps this.
- `grouping.dfy`: the listing order of `db_get_all_entries`. Entries are
  grouped by vmname, the groups come in first-seen order, and each group
  keeps store order. The listing is proved to be a permutation of the
  decoded rows, grouped, and stable within each vmname.
- `table.dfy`: the meaning of each query over the table's rows, a
  `seq<Row>` in store order, and the lemmas about those queries.
- `repository.dfy`: class `Store`, holding the table (`rows`) and its id
  sequence (`nextId`). It has one method per repository function and one per
  handler. Each method is proved against the functions of `table.dfy`. Every
  state-changing method preserves `Valid()`: ids are distinct and all below
  `nextId`.

Quirks of the code that the model keeps:

- `db_insert_entry` tests `if entry_id:`. A matching row with id 0 therefore
  counts as absent, and another copy is inserted
  (`InsertAfterZeroIdDuplicates`).
- `from_db_row` goes through the pydantic constructor, which runs both
  validators again. Decoding a stored row can therefore fail; the failure is
  modelled as `Invalid` with the list of failing fields, in field order.
- `delete_entries` turns every failure of the listing into a 404. That
  includes a stored row that fails validation. The model reports
  `NotFound` and deletes nothing.
- `delete_entry` catches only `EntryNotFoundError`. A validation failure of
  the stored row propagates, and the model returns that `Invalid` failure.

## Model

| member | source | states |
|---|---|---|
| EntryModel.ValidateVmName | api/main.py:11-15 | On acceptance, the name is returned unchanged. |
| EntryModel.MatchEndsAtRun | api/main.py:12-13 | Any position where `[a-zA-Z0-9-_]+$` can end is where the greedy run of class characters stops, so the match never needs backtracking. |
| EntryModel.VmNameMatchesPattern | api/main.py:11-15 | The validator accepts exactly when some non-empty prefix of class characters reaches a position where Python's `$` holds (the end, or just before a final newline). |
| EntryModel.VmNameAcceptedIff | api/main.py:11-15 | Closed form, both directions: accepted iff the name is a non-empty run of letters, digits, `-` and `_`, optionally followed by one final newline. |
| EntryModel.TrailingNewlineAccepted | api/main.py:12-13 | `"web01\n"` is accepted and kept with its newline; `"web01\n\n"` is rejected. |
| EntryModel.NonNamesRejected | api/main.py:12-14 | The empty name, a lone newline and a name with a space are rejected. |
| EntryModel.ValidateAction | api/main.py:18-21 | Accepts exactly "allow" and "reject", returning the action unchanged. |
| EntryModel.ActionIsCaseSensitive | api/main.py:19-20 | "Allow", "REJECT" and "allow " are rejected. |
| EntryModel.FieldErrors | api/main.py:24-34 | The error list names vmname iff its validator rejects, names action iff its validator rejects, and has at most two elements. |
| EntryModel.NewEntry | api/main.py:24-34 | Construction succeeds iff both validators accept, with action defaulting to "allow". The entry then carries the given id and fields. On failure it reports every failing field. |
| EntryModel.DefaultsApplied | api/main.py:25-30 | With a valid vmname, an entry built without id and action has no id and action "allow". |
| EntryModel.FromDbRow | api/main.py:37-46 | Column i becomes the i-th field. Decoding succeeds iff both validators accept the stored values, giving the stored id and fields; otherwise it reports the failing fields. |
| EntryModel.RowRoundTrip | api/main.py:37-46 | The row written for a valid entry decodes back to that entry, now with the stored id. |
| Grouping.OfVm | api/main.py:152-154 | The list filed under a vmname is never longer than the entries filed; its contents are stated by OfVmMembers and its order by GroupIsStable. |
| Grouping.OfVmMembers | api/main.py:150-154 | An entry is in the list filed under a vmname iff it is one of the entries and has that vmname; the list is no longer than the entries. |
| Grouping.FirstSeen | api/main.py:152-153 | The dictionary's keys are distinct and are exactly the vmnames that occur. |
| Grouping.FirstSeenOrder | api/main.py:152-153 | The keys come in order of first occurrence: wherever a later key occurs, an earlier key has already occurred before it. |
| Grouping.Concat | api/main.py:155-157 | Concatenating the groups of some keys yields only entries that were filed, and only of those keys. |
| Grouping.Group | api/main.py:155-158 | The listing holds only entries that were filed; GroupIsPermutation, GroupIsStable, GroupIsContiguous and GroupOrder state the rest. |
| Grouping.GroupIsStable | api/main.py:143-158 | The grouped listing, restricted to any vmname, equals the input restricted to it, so store order is kept within each vmname. |
| Grouping.GroupIsPermutation | api/main.py:143-158 | The grouped listing is a permutation of the decoded rows: every row exactly once. |
| Grouping.GroupIsContiguous | api/main.py:150-157 | Entries with the same vmname stand next to each other in the listing. |
| Grouping.GroupOrder | api/main.py:152-157 | The groups appear in the order their vmnames were first seen. |
| Table.FindId | api/main.py:94-111 | None iff no row has the six fields. Otherwise it gives the id of the first such row in store order. |
| Table.RowById | api/main.py:114-118 | None iff no row has the id; otherwise a stored row with that id. |
| Table.Decode | api/main.py:121 | A row decodes to its stored entry iff it validates, else to `Invalid` with the row's failing fields. |
| Table.EntryById | api/main.py:114-123 | NotFound iff no row has the id. A success carries that id and the fields of a stored row. |
| Table.EntryByIdFinds | api/main.py:114-123 | With distinct ids, fetching a stored row's id decodes exactly that row: Success with its entry when it validates, Invalid otherwise. |
| Table.EntryFor | api/main.py:161-172 | NotFound iff no row has the fields. A success carries the id the lookup resolved. |
| Table.EntryForFindsMatch | api/main.py:161-172 | With distinct ids, a valid entry that is found is returned with exactly the fields looked up. |
| Table.Insert | api/main.py:126-140 | The returned id names a row with the fields. When the first matching row has a non-zero id, that id is returned and the table and sequence are unchanged. When there is no match, or the first match has id 0, one row with the next id is appended and that id is returned. |
| Table.InsertKeepsIds | api/main.py:126-140 | An insert keeps ids distinct and below the sequence. |
| Table.InsertIdempotent | api/main.py:127-132 | Inserting the same fields again returns the same id and changes nothing, unless id 0 is involved. |
| Table.InsertTwiceAddsOneRow | api/main.py:126-140 | Starting from a table without the fields and with the sequence not at 0, two inserts add exactly one row and return its id twice. |
| Table.InsertAfterZeroIdDuplicates | api/main.py:131-132 | For every table whose first matching row has id 0, that row counts as absent: two inserts append two more copies, with ids nextId and nextId + 1. |
| Table.CreateReturnsInserted | api/main.py:262-265 | In a table whose ids are distinct and below the sequence, inserting a valid entry and reading it back by its fields returns it with the id the insert returned, unless the first matching row has id 0. |
| Table.CreateAfterZeroIdReadsOld | api/main.py:261-265 | When the first matching row has id 0, the insert hands out a non-zero id, yet the read-back returns the entry with id 0. |
| Table.Remove | api/main.py:187-191 | Keeps exactly the rows whose id is not deleted. |
| Table.RemoveAbsent | api/main.py:187-191 | Deleting ids that no row carries leaves the table unchanged, so db_delete_entry on an absent id is a no-op. |
| Table.RemoveOne | api/main.py:187-191 | With distinct ids, deleting one row's id removes that row only and keeps the order of the others. |
| Table.RemoveTwice | api/main.py:187-191 | Deleting one set of ids and then another equals deleting their union. |
| Table.DeleteThenGet | api/main.py:187-191 | After deleting an id, fetching it is NotFound. |
| Table.RemoveKeepsIds | api/main.py:187-191 | A delete keeps ids distinct and below the sequence. |
| Table.WhereVmName | api/main.py:176-178 | The selection holds exactly the rows of that vmname. |
| Table.OtherVms | api/main.py:286-294 | Holds exactly the rows of the other vmnames. |
| Table.RemoveVm | api/main.py:287-294 | Deleting the ids of the rows of a vmname leaves exactly the rows of the other vmnames, in store order. |
| Table.DecodeAll | api/main.py:181-184 | A successful decode yields one entry per row. |
| Table.DecodeAllMeaning | api/main.py:181-184 | Decoding succeeds iff every row validates, and then yields each row's entry with its stored id, in order. |
| Table.DecodeAllFailsAtFirst | api/main.py:182-183 | A failed decode reports the errors of the first row that does not validate. |
| Table.DecodeAllStops | api/main.py:182-183 | Once a prefix decodes and the next row does not, the whole decode fails with that row's errors. |
| Table.EntriesForVm | api/main.py:175-184 | NotFound iff no row has the vmname. |
| Table.EntriesForVmSucceeds | api/main.py:175-184 | The listing succeeds iff some row has the vmname and every row of that vmname validates. |
| Table.EntriesForVmExact | api/main.py:175-184 | A successful listing holds, position by position, the stored entries of that vmname with their ids. |
| Table.AllEntries | api/main.py:143-149 | NotFound iff the table is empty. |
| Table.AllEntriesListing | api/main.py:143-158 | The listing succeeds iff the table is non-empty and every row validates. The listing is a permutation of the decoded rows, grouped by vmname, with the groups in first-seen order and store order kept within each group. |
| Repository.FileEntry | api/main.py:150-154 | Filing one more entry keeps the dictionary exact. The keys stay in first-seen order, and each key maps to its vmname's entries in order. |
| Repository.File | api/main.py:152-154 | Filing one entry keeps the dictionary exact for the entries filed so far plus that one. |
| Repository.FileRows | api/main.py:146-154 | The filing loop succeeds iff every row decodes, and otherwise fails with the decode errors (those of the first failing row, by DecodeAllFailsAtFirst). On success the keys are the vmnames in first-seen order, and each maps to that vmname's decoded entries in store order. |
| Repository.Flatten | api/main.py:155-157 | Extending a list by the dictionary's lists in key order yields the groups of those keys concatenated in that order. |
| Repository.Store.constructor | api/main.py:79-91 | Opens the store on an existing table whose ids are distinct and below the sequence. |
| Repository.Store.GetEntryId | api/main.py:94-111 | Returns the id FindId gives, and None iff no row has the six fields. |
| Repository.Store.GetEntryById | api/main.py:114-123 | NotFound iff the id is absent. In a valid store, a stored row with the id is decoded: Success with its entry when it validates, Invalid otherwise. |
| Repository.Store.InsertEntry | api/main.py:126-140 | The new table, sequence and returned id are those of Insert, and a row with the returned id and the fields exists. Valid is kept. |
| Repository.Store.GetAllEntries | api/main.py:143-158 | The dictionary loop returns AllEntries: NotFound iff the table is empty, else the grouped listing. |
| Repository.Store.GetEntry | api/main.py:161-172 | Returns EntryFor; NotFound iff no row has the fields. |
| Repository.Store.GetEntriesForVm | api/main.py:175-184 | The decode loop returns EntriesForVm; NotFound iff no row has the vmname. |
| Repository.Store.DeleteEntry | api/main.py:187-191 | The table becomes Remove of the id; Valid is kept. |
| Repository.Store.CreateEntry | api/main.py:261-265 | The table becomes that of Insert, and the result is the read-back. For a valid entry without an id-0 match, the result is the entry with the inserted id. |
| Repository.Store.DeleteEntries | api/main.py:286-294 | On a failed listing: NotFound, with nothing deleted. Otherwise it returns the listing and leaves exactly the rows of the other vmnames. |
| Repository.Store.DeleteEach | api/main.py:290-291 | Deleting the listed entries one by one removes exactly their ids. |
| Repository.Store.DeleteEntryOf | api/main.py:297-307 | Three outcomes: an absent or invalid row fails with that error and changes nothing; a row of another vmname gives Mismatch and changes nothing; otherwise the row is deleted. |

## Left out

- HTTP wiring (FastAPI routes, status codes, response models) is not modelled. So is the
  status endpoint. The handlers' mapping of failures to 404 or 500 is reduced to the
  `Error` value each operation returns.
- The database connection, its environment variables and the cursor are not modelled.
  The table is the in-memory `rows`; the `SERIAL` id sequence is `nextId`.
- Logging is left out, because it has no effect on results.
- The commented-out `pre_data` block is dead code and is not modelled.
- Concurrency is not modelled: every operation runs alone, so two racing inserts cannot
  both pass the duplicate check.
- Store failures are not modelled: connection loss, SQL errors, and a crash between
  `db_delete_entry` calls in `delete_entries`. The bare `except` of `db_insert_entry`
  is therefore modelled as catching only the not-found case.
- Repository.Store.InsertEntry: ids are unbounded integers. The 32-bit overflow of the
  `SERIAL` column is not modelled.
- NULL columns are not modelled: every stored field is a string.
- Pydantic's type coercion is not modelled. Only the two validators and the defaults are.
- SQL without `ORDER BY` has no specified row order. The model fixes it as the order rows
  were inserted, with deletions keeping the others' order.
- The handlers `get_all_entries` and `get_entries` only map any exception to 404 around
  `GetAllEntries` and `GetEntriesForVm`, and are not modelled separately.
