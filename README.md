# Event check-in roster, modelled in Dafny

This project models the storage layer of an event check-in service in both of
its revisions:

- **Guest book** (`app/database.py`). A CSV import *upserts* one document per
  row keyed on `id`. Export writes `id,name,check_in,checked_in_at`. A
  participant can check in once, and a reset applies to one participant or to
  everyone (`"all"`).
- **Extended roster** (`database.py`). A CSV import accepts only the exact
  nine-column header, optionally followed by `check_in,checked_in_at`. It trims
  every cell and *inserts* only the rows whose trimmed `nim` was not stored
  before the import. Export writes all eleven columns.

The MongoDB `entry` collection is the class `Collection.Store`. It holds the
documents as a sequence in insertion order. Each database call the code makes
is one method of that class:

| call | method |
|---|---|
| `find_one` | `FindOne` (over the scan `Locate`) |
| `update_one` | `UpdateOne`, with or without upsert |
| `update_many` | `UpdateMany`, which returns `modified_count` |
| `insert_many` | `InsertMany` |
| `distinct` | `Distinct` |

`FindOne`, `UpdateOne` and `UpdateMany` are proved against functions on the
sequence (`FirstMatch`, `Updated`, `SetAll`, `ChangedCount`). `Locate` and
`Distinct` state their results directly: the first matching position, and the
values some document holds. `InsertMany` states the new sequence and its count.

Files:

- `values.dfy`:
  - field values `VStr | VBool | VNull` and Python truthiness;
  - the text `csv.writer` emits for a value;
  - Python `str.strip()` over the characters `str.isspace()` accepts.
- `collection.dfy`: the collection.
- `guest_book.dfy`: the guest-book revision.
  - `ImportCsv` builds the documents in a loop, then upserts them one by one in a second loop. It is proved to leave the store equal to `UpsertAll`.
  - `CheckIn` and `ResetCheckIn` call the store's methods; the scans are in `Store.Locate` and `Store.UpdateMany`. They are proved equal to `CheckInStep` and `ResetStep`. The lemmas are about those functions.
  - `ExportCsv` is a loop that states each exported row directly.
  - `HasRequiredColumns` is the header test of `import_csv` (`app/database.py:74-75`). `IsCheckedIn` is its `check_in` truthiness test (`app/database.py:155`).
- `roster.dfy`: the extended-roster revision.
  - `ImportCsv` is a loop with `continue` followed by one bulk insert. It is proved to append exactly `Staged(rows, existing)`.
  - `Staged` picks the rows whose trimmed `nim` is new (`NewPositions`, `NewRows`) and trims each of them (`StageRow`).

A few behaviours of the code are modelled exactly as written, because they are what the code does:

- Export writes the stored `False` as the text `False`. A row that has been reset therefore exports as `A1,Alice,False,`, not `A1,Alice,,`.
- The reset-all count is MongoDB's `modified_count`: the documents whose values actually changed, not the number of documents.
- The check-in test is Python truthiness of the stored `check_in`. An imported cell `"False"` therefore counts as already checked in (`GuestBook.ImportedCheckInIsTruthy`).
- The upsert import copies `check_in`/`checked_in_at` cells verbatim. It can store a document that has a check-in time but does not count as checked in (`GuestBook.ImportMayBreakConsistency`). Check-in and reset never do that (`GuestBook.CheckInResetKeepConsistent`).

## Model

| member | source | states |
|---|---|---|
| Collection.Store.Locate | app/database.py:146 | returns the position of the first document whose field equals the key, or None exactly when no document matches |
| Collection.Store.FindOne | app/database.py:183 | returns the first matching document, or None exactly when there is none; the found document matches the query |
| Collection.Store.UpdateOne | app/database.py:92 | a `$set` on the first matching document; with upsert and no match, appends the key merged with the fields; nothing else changes |
| Collection.Store.UpdateMany | app/database.py:200-201 | `$set` on every document, returning how many documents actually changed (`modified_count`) |
| Collection.Store.InsertMany | database.py:106-108 | appends the non-empty batch in order and reports one inserted id per document |
| Collection.Store.Distinct | database.py:78-79 | a value is returned exactly when some stored document holds it in that field |
| Collection.ChangedCountZero | app/database.py:200-201 | the modified count is 0 exactly when the `$set` changes no document |
| Collection.ChangedCountAll | app/database.py:200-201 | the modified count equals the number of documents exactly when the `$set` changes every one |
| Collection.SetAllTwice | app/database.py:200-201 | applying the same `$set` to all twice is applying it once, and the second application modifies nothing |
| Values.Cell | app/database.py:122-127 | an exported cell is empty for a missing field or None, and the string itself for a string value |
| Values.Trim | database.py:86 | `strip()` leaves no whitespace at either end, and yields "" exactly when the text is all whitespace |
| Values.TrimIsInfix | database.py:86 | what `strip()` keeps is the slice between a whitespace prefix and a whitespace suffix |
| Values.TrimOfPadded | database.py:86-101 | stripping whitespace-padded text gives back exactly the text inside the padding |
| Values.TrimIdempotent | database.py:86-101 | stripping twice is stripping once |
| GuestBook.ExtraColumnsAccepted | app/database.py:74-76 | a header containing `id` and `name` is still accepted with any other columns before or after them |
| GuestBook.RowDocument | app/database.py:81-87 | a row's document has exactly the fields id, name, check_in and checked_in_at, with the row's id and name |
| GuestBook.Documents | app/database.py:79-87 | one document per row, in row order |
| GuestBook.UpsertCarries | app/database.py:92 | after one upsert, the first document with the key exists and carries every field of the upserted document |
| GuestBook.UpsertOtherKey | app/database.py:92 | an upsert for one key leaves the first document with any other key where it was and unchanged |
| GuestBook.LastDuplicateWins | app/database.py:79-93 | after the import, the first document with an id carries the fields of the last row with that id |
| GuestBook.UpsertAllOnExisting | app/database.py:91-92 | documents already stored are only updated in place, with the last row of their id; nothing is appended when every id was already present |
| GuestBook.UpsertAllIdempotent | app/database.py:91-92 | upserting the same batch twice leaves the collection as upserting it once |
| GuestBook.ImportedRow | app/database.py:79-93 | for a row not followed by another row with the same id, its id's document holds the row's name, its check_in cell or False, and its checked_in_at cell or None |
| GuestBook.ImportIdempotent | app/database.py:91-92 | importing the same file twice gives the same collection as importing it once |
| GuestBook.ImportIntoEmpty | app/database.py:91-92 | a one-row file imported into an empty collection stores exactly that row's document |
| GuestBook.RequiredColumnsInEveryRow | app/database.py:74-83 | once the header has id and name, every row has both cells |
| GuestBook.ImportCsv | app/database.py:65-93 | blank text fails with "Empty file" and a header without id/name fails with "Missing required columns id and/or name", both leaving the store unchanged; otherwise returns the number of rows, duplicates included, and the store is the upsert of every row in order |
| GuestBook.ExportCsv | app/database.py:116-127 | the fixed header, then exactly one row per stored document in store order, with "" for every missing field |
| GuestBook.CheckInOutcomes | app/database.py:146-162 | an absent id fails with "ID not found" and a truthy check_in fails with "Already checked in", both changing nothing; a present id with a falsy check_in always succeeds with the time; a success returns the time and sets check_in to True and checked_in_at to the time on that document only, leaving every other document and field as it was |
| GuestBook.CheckInAtMostOnce | app/database.py:155-161 | after a successful check-in, a second check-in of the same id fails with "Already checked in" and changes nothing |
| GuestBook.ResetOneOutcomes | app/database.py:180-194 | for an id other than "all": an absent id fails with "ID not found" and changes nothing; otherwise returns 1 and sets False/None on that document only, leaving every other document and field as it was |
| GuestBook.ResetFieldsAbsorbed | app/database.py:200-201 | the reset `$set` leaves a document unchanged exactly when it already holds False and None |
| GuestBook.ResetAllOutcome | app/database.py:197-201 | "all" resets every document and returns at most the number of documents: 0 exactly when all were already reset, all of them exactly when none was; a second reset-all returns 0 |
| GuestBook.ResetAllThenExport | app/database.py:200 | after reset-all every exported row shows `False` and an empty checked_in_at |
| GuestBook.CheckInResetKeepConsistent | app/database.py:159-161 | check-in and reset keep every document checked in exactly when it has a check-in time |
| GuestBook.ImportMayBreakConsistency | app/database.py:84-85 | a row with an empty check_in and a non-empty checked_in_at is stored as a document with a time that is not checked in |
| GuestBook.ImportedCheckInIsTruthy | app/database.py:155-156 | an imported check_in cell refuses the check-in exactly when it is non-empty, "False" included |
| GuestBook.CheckIn | app/database.py:146-162 | the result and new store are those of `CheckInStep`, the function the lemmas above are about |
| GuestBook.ResetCheckIn | app/database.py:180-201 | the result and new store are those of `ResetStep`, the function the lemmas above are about |
| GuestBook.SingleEntryTrace | app/database.py:146-194 | on one document that is not checked in: check-in succeeds, a second check-in fails, a reset returns 1 |
| GuestBook.CheckInSession | app/database.py:79-194 | import `A1,Alice` into an empty store, check in twice, reset, export: returns the time, then "Already checked in", then 1, and exports `A1,Alice,False,` |
| Roster.HeaderAccepted | database.py:70-74 | accepted exactly when the header is the nine columns in order, or those nine followed by check_in, checked_in_at |
| Roster.TrimmedOr | database.py:100-101 | the trimmed cell when it is not blank, otherwise the default; never an empty or unstripped string |
| Roster.StageRow | database.py:86-91 | the staged document's nim is the trimmed nim cell |
| Roster.StagedFields | database.py:90-101 | a staged document has exactly the eleven columns as fields |
| Roster.StagedDocument | database.py:90-101 | the nine roster fields are the trimmed cells; check_in is the trimmed cell or False; checked_in_at is the trimmed cell or None |
| Roster.StagedValuesStripped | database.py:86-101 | no staged string has whitespace at either end; check_in is False or a non-empty string; checked_in_at is None or a non-empty string |
| Roster.NewPositions | database.py:85-88 | the positions of the keys not already present, in increasing order, each one of them |
| Roster.NewRowsExactlyNew | database.py:78-88 | every picked row has a nim not stored before the import, and every row with such a nim is picked |
| Roster.NoNewRows | database.py:85-88 | when every nim is already stored, nothing is staged |
| Roster.AllNewRows | database.py:85-88 | when no nim is stored yet, every row is staged, in order |
| Roster.DuplicateNewRowsBothStaged | database.py:78-102 | two rows with the same new nim in one file are both staged, because the skip set is fixed before the loop |
| Roster.ImportedNimStored | database.py:78-107 | after the import every row's trimmed nim is stored, whether it was skipped or inserted |
| Roster.ImportTwiceStagesNothing | database.py:78-109 | importing the same rows again stages nothing |
| Roster.ImportCsv | database.py:61-109 | blank text fails with "Empty file" and any other header fails with "Invalid file format", both leaving the store unchanged; otherwise returns the number of staged rows, 0 when none, and the store is the old store followed by exactly the staged documents in input order |
| Roster.ImportTwice | database.py:61-109 | the second of two identical imports returns 0 and adds nothing; a refused import is refused again the same way |
| Roster.ExportRow | database.py:139-151 | eleven cells, one per column in order, each the field rendered or "" when it is missing |
| Roster.ExportCsv | database.py:132-151 | the fixed eleven-column header, then exactly one row per stored document in store order |

## Left out

- Routing, content-type checks and the mapping of errors to HTTP status codes (`main.py`, `app/main.py`) are transport, not storage logic.
- `get_database` (environment variables, the connection URL, the client) is configuration and I/O.
- `watch_entries` (`app/database.py:206-229`) streams change events over a WebSocket; it is asynchronous I/O.
- UTF-8 decoding and CSV lexing and quoting are left out. The import takes the raw text (used only for the blank check), the parsed header and the parsed rows. Each row maps exactly the header's columns to cells (`FromHeader`), so short rows and surplus cells (`restkey`) are not modelled. `DictReader` fills the missing cells of a short row with None. The model therefore does not capture two behaviours. The guest-book import stores null in those fields (`app/database.py:82-85`). The roster import raises an uncaught `AttributeError` on `None.strip()` before anything is inserted (`database.py:86-99`).
- Export returns the rows as `seq<seq<string>>`. The quoting `csv.writer` applies to them is not modelled.
- The check-in timestamp (the current time in Asia/Jakarta as ISO text) is the parameter `now`.
- Database failures (the `RuntimeError` wrapping) are not modelled; every call succeeds.
- Concurrent requests are not modelled. The check-in is a non-atomic read followed by a write, and only single-threaded sequences of operations are modelled.
- MongoDB's own `_id` field is not modelled.
- Values other than strings, booleans and None are not modelled. Neither are arrays, nested documents or query matching on them.
- Collection.Store.Distinct: returns the set of stored values of the field. It does not flatten arrays, because the documents this code writes hold no arrays.
- Collection.Store.FindOne: query matching is string equality on the field. A document never written by this code, such as one with a non-string id, never matches.
- GuestBook.CheckIn: the `not entry` test on a found document is always false in the model, because a matched document always holds the id. A found but empty document cannot exist.
- GuestBook.ResetCheckIn: same as above for the single-id reset.
