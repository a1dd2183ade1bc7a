# Phone Number Inspector: history log and inspector state

A Dafny model of the stateful core of the Tkinter "Phone Number Inspector"
(`phone_tracker.py`). The model covers two parts. The first is the
inspection-history log: a CSV file whose first row is the five-column header
and whose later rows are inspection records. The second is the inspector's
display state: the number entry, the four result fields, the admin password
entry, the history tab's lock and the rows shown in the history table.

- `history_log.dfy`, module `HistoryLog`. The file is `Missing` or
  `Present(rows)`, and each row is a sequence of strings. The module gives the
  pure meaning of every file operation: set-up, append, listing, selected
  delete, and clear both as intended and as written. It also holds the lemmas
  about them: order preservation, exact removal including duplicates,
  idempotence, and the append-then-list round trip.
- `inspection.dfy`, module `Inspection`. This is the field defaulting
  (`or "N/A"`), the `", "` join of time zones, the five-field record, and
  `Inspect`, a function that says what one press of INSPECT shows and stores.
- `tracker.dfy`, module `Tracker`. The class `PhoneTracker` holds the file and
  the widget state as fields. Its methods follow the source step by step:
  the table refresh keeps the source's two loops, and field updates stand
  where the source sets `StringVar`s. The loop that collects the selected
  rows' tuples is a set comprehension, `SelectedKeys`.
  Each method's postcondition ties the new state to the functions above.

The numbering-plan lookup is an input of type `Inspection.Lookup`. Its cases
are a parse failure, an invalid number, any other exception, or a region,
carrier and time-zone list that may each be empty. Three other things are
inputs too: the IP location text (for example `"Location fetch error"`), the
flag emoji text, and whether the history append raises. Confirmation dialogs
are modelled by their boolean answer.

The number entry is rejected only when it is exactly empty. Text made only of
whitespace is passed on to the lookup, as `phone_tracker.py:325` does.

## Model

| member | source | states |
|---|---|---|
| `HistoryLog.Setup` | phone_tracker.py:43-48 | A missing file becomes exactly the header row; an existing file is left as it is |
| `HistoryLog.SetupIdempotent` | phone_tracker.py:43-48 | Setting up twice equals setting up once |
| `HistoryLog.Append` | phone_tracker.py:355-357 | Appending gives one more row: the new row is last and every earlier row is unchanged; a missing file is created without a header |
| `HistoryLog.NonEmptyRows` | phone_tracker.py:256-258 | Keeps every non-empty row with its multiplicity and drops every empty row |
| `HistoryLog.NonEmptyRowsConcat` | phone_tracker.py:256-258 | Skipping empty rows distributes over concatenation, so the kept rows stay in file order |
| `HistoryLog.Listing` | phone_tracker.py:248-264 | The listed rows are all non-empty, and a row is listed iff it is non-empty and comes after the first row; a missing or empty file lists nothing |
| `HistoryLog.Survivors` | phone_tracker.py:289 | Every row equal to a key is removed, duplicates included; every other row keeps its multiplicity |
| `HistoryLog.SurvivorsConcat` | phone_tracker.py:289 | The delete filter distributes over concatenation, so survivors keep their relative order |
| `HistoryLog.SurvivorsUnmatched` | phone_tracker.py:289 | A key set that matches no row removes nothing |
| `HistoryLog.NonEmptySurvivorsCommute` | phone_tracker.py:256-289 | Skipping empty rows and removing selected rows can be done in either order |
| `HistoryLog.DeleteRows` | phone_tracker.py:282-295 | A missing file stays missing. Otherwise the new first row is the header, and the rows after it are the old data rows minus exactly the copies of the keys |
| `HistoryLog.DeleteKeepsOrder` | phone_tracker.py:289-295 | The data rows after a delete are the old data rows filtered by the keys, in order |
| `HistoryLog.DeleteUnmatched` | phone_tracker.py:289-295 | Deleting keys that match no data row leaves the data rows unchanged |
| `HistoryLog.DeleteIdempotent` | phone_tracker.py:289-295 | Deleting the same key set twice equals deleting it once |
| `HistoryLog.ListingAfterDelete` | phone_tracker.py:289-298 | The listing after a delete is the listing before it, minus the keys, in order |
| `HistoryLog.Clear` | phone_tracker.py:310-313 | The intended clear leaves exactly the header, so nothing is listed |
| `HistoryLog.ClearAsWritten` | phone_tracker.py:311 | The clear as written leaves an empty file, with no header row |
| `HistoryLog.ListingAfterAppend` | phone_tracker.py:355-357 | Once the file has a first row, a non-empty appended record is listed last, after the old listing |
| `HistoryLog.ListingAppendAll` | phone_tracker.py:253-258 | After records are appended to a header-only file, listing returns exactly those records in insertion order |
| `HistoryLog.ClearThenAppendListed` | phone_tracker.py:310-313 | After the intended clear, the next record appended is the only one listed |
| `HistoryLog.ClearAsWrittenLosesNextRecord` | phone_tracker.py:311-313 | After the clear as written, the next record becomes the first row. It is not listed, and the next delete drops it whatever is selected |
| `Inspection.OrNotAvailable` | phone_tracker.py:334-335 | An empty answer becomes "N/A"; a non-empty one is kept; the result is never empty |
| `Inspection.JoinZones` | phone_tracker.py:336 | The join is empty iff there are no zones or one empty zone; a single zone is itself |
| `Inspection.JoinZonesSnoc` | phone_tracker.py:336 | One more zone is joined after a ", " separator |
| `Inspection.TimeZoneText` | phone_tracker.py:336 | No zones (or one empty zone) gives "N/A"; one zone gives its name; several give their ", " join |
| `Inspection.Record` | phone_tracker.py:334-357 | The record has the header's five fields: the number as typed; the region and the carrier, each kept when non-empty and "N/A" when empty; the time zones joined with ", " or "N/A" when that join is empty; and the IP location |
| `Inspection.Inspect` | phone_tracker.py:321-373 | Empty input does nothing. A record is stored iff the input is non-empty, the lookup resolved and the append did not raise. The stored record and the shown fields agree |
| `Inspection.StoredLocationHasNoFlag` | phone_tracker.py:348-357 | The stored record does not depend on the flag, and the displayed location is the stored location followed by a space and the flag |
| `Inspection.CaliforniaExample` | phone_tracker.py:334-357 | A Californian number with no carrier is stored with "N/A" for the carrier and shown with a trailing space where the flag is empty |
| `Tracker.SelectedKeys` | phone_tracker.py:278-280 | The key set holds exactly the selected rows' tuples, and it is empty iff nothing is selected |
| `Tracker.PhoneTracker.constructor` | phone_tracker.py:134-153 | The window starts with "+91" in the entry, every result field "-- N/A --" and the history locked and empty |
| `Tracker.PhoneTracker.TypeNumber` | phone_tracker.py:134-136 | Typing replaces the number entry's text |
| `Tracker.PhoneTracker.TypePassword` | phone_tracker.py:166-167 | Typing replaces the password entry's text |
| `Tracker.PhoneTracker.SetupCsvFile` | phone_tracker.py:43-48 | The file afterwards is the set-up of the old file: an existing file is unchanged, and the file then exists |
| `Tracker.PhoneTracker.ClearFields` | phone_tracker.py:239-246 | The entry is "+91" and all four result fields are "-- N/A --"; nothing else changes |
| `Tracker.PhoneTracker.ShowError` | phone_tracker.py:365-370 | All four result fields show "-- Error --" |
| `Tracker.PhoneTracker.LoadCsvData` | phone_tracker.py:248-264 | The table shows exactly the file's listing; the file is unchanged |
| `Tracker.PhoneTracker.CheckAdminLogin` | phone_tracker.py:219-230 | The history unlocks iff the entered text equals the admin password exactly. On success the table is loaded; on failure the password entry is cleared |
| `Tracker.PhoneTracker.TrackNumber` | phone_tracker.py:321-373 | With no input, nothing changes. On any failure every field shows the error text and the file is unchanged. On success the fields show the outcome and the file gains exactly that record at the end |
| `Tracker.PhoneTracker.DeleteSelectedHistory` | phone_tracker.py:267-301 | With no selection, no confirmation or a missing file nothing changes. Otherwise the file becomes the delete of the selected tuples, and the table shows the new file's listing, which is the old table minus those tuples when the table was current |
| `Tracker.PhoneTracker.ClearAllHistory` | phone_tracker.py:304-319 | On confirmation the file is exactly the header and the table is empty; otherwise nothing changes |
| `Tracker.PhoneTracker.ClearAllHistoryAsWritten` | phone_tracker.py:304-319 | On confirmation the file is left empty and the table is not refreshed; otherwise nothing changes |

## Findings

| source | as written | input that shows it | evidently intended | confidence | as-written member | corrected member |
|---|---|---|---|---|---|---|
| phone_tracker.py:311 | `clear_all_history` opens the file for writing with the codec name `'utf-T8'`, which Python does not know. The file is created or truncated, and then the codec lookup raises before the header is written at line 313 | Confirm "Clear All History", then inspect any valid number: the file is that one record with no header. The record is not listed, and the next delete drops it | The file holds exactly the header row, and later records are listed | medium (truncation before the codec lookup is CPython's `open` order); not executed | `HistoryLog.ClearAsWrittenLosesNextRecord` | `HistoryLog.ClearThenAppendListed` |

## Left out

- Widgets, styling, the notebook's tab switching, scroll bars and message boxes are left out; only their effect on the modelled state remains. A confirmation dialog is a boolean input.
- Numbering-plan parsing and validation, the geocoder, carrier, time-zone and region-code lookups are foreign library calls. They are the abstract `Lookup` input.
- The IP geolocation request to ipinfo.io is network I/O. Its resulting text is an input, including its `"Location fetch error"` fallback. An exception it does not catch is the `LibraryFault` case of `Lookup`.
- The flag emoji lookup is a foreign call whose failures are swallowed. Its text is an input.
- Speech output is omitted. It never raises to its callers, and it does not change modelled state.
- CSV quoting and escaping and UTF-8 encoding happen inside the `csv` module. Rows are modelled as already-split strings.
- The history table's conversion of numeric-looking strings to integers is toolkit behaviour. The selected rows are taken as given string tuples.
- Tracker.PhoneTracker.DeleteSelectedHistory: does not model a failing rewrite (permissions, a full disk) or a partially written file. Crash atomicity of the truncate-then-write rewrite is file-system behaviour.
- Tracker.PhoneTracker.ClearAllHistory: does not model a failing rewrite, for the same reason.
- Tracker.PhoneTracker.TrackNumber: a failing append is modelled as leaving the file unchanged. A write that fails after appending part of a row is not modelled.
- Tracker.PhoneTracker.LoadCsvData: read errors other than a missing file or an empty file (a decoding error, say) are not modelled. Item identifiers in the table are not modelled either, only the rows it shows in order.
- The administrator password is the fixed string of the source. No hashing or lockout exists to model.
