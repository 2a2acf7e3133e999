# Visitor record store of the Visitor Management System

This project models the `visitors` table of the Visitor Management System
(`vms_app.py`) and proves properties about it. It covers:

- the SQL statements `DatabaseManager` runs against the table;
- the validate-then-dispatch rule `VMSApplication.save_visitor` applies before writing.

The modules:

- `Strings`
  - The text order SQLite uses for TEXT values (BINARY collation). It is the lexicographic order on code points.
  - Python's `str.strip`, with the full `str.isspace` whitespace set.
- `Timestamps`
  - The `"YYYY-MM-DD HH:MM:SS"` shape that `CURRENT_TIMESTAMP` writes.
  - The test behind `BETWEEN from 00:00:00 AND to 23:59:59`.
- `Visitors`
  - The table is a map from id to row.
  - The three read queries are functions of it:
    - `get_visitor_by_id` is `GetVisitorById`;
    - `get_visitors` is `GetVisitors`, i.e. `Where` followed by `Ordered`;
    - `get_stats` is `GetStats`.
  - Lemmas cover what each query returns and how the queries change when a row is inserted, overwritten or deleted.
- `Store`
  - `DatabaseManager` is a class. Its fields are:
    - the rows;
    - the AUTOINCREMENT sequence (the `sqlite_sequence` entry);
    - a ghost set of every id ever handed out.
  - `add_visitor`, `update_visitor` and `delete_visitor` are methods that change those fields.
  - `init_db` on a new database is the constructor.
- `Forms`
  - `save_visitor` is split into two steps:
    - `Validate`: strip every input, and reject a blank name or phone;
    - `Dispatch`: UPDATE for a truthy id, INSERT otherwise.
  - The method `SaveVisitor` runs both steps against a `DatabaseManager`.

The clock is a parameter. `CURRENT_TIMESTAMP` is the `now` argument of `AddVisitor`. `date('now','localtime')` is the `today` argument of `GetStats`.

Two points where the intended behaviour and the code part ways; the model follows the code:

- **Malformed day strings.** The comment at vms_app.py:569 says a malformed day falls back to the unfiltered listing. But `BETWEEN` on text never raises, so a malformed day never reaches the `except` at vms_app.py:568; it is compared as text. That `except` still runs when `get_visitors` raises for another reason, such as a locked or unreadable `vms.db`. See Findings.
- **Ties in the listing.** Listing rows with equal `created_at` by descending id would be a natural requirement, and the code does not meet it: `ORDER BY created_at DESC` has no tie-break, so SQL leaves that order open.
  - The model lists ties by ascending id, which is the order SQLite scans a rowid table.
  - `ListingContents` and `ListingOrder` hold whatever the tie order: each matching row exactly once, and `created_at` non-increasing. The lemmas that compare two listings depend on it (see Left out).

## Model

| member | source | states |
|---|---|---|
| Strings.LexLeReflexive | vms_app.py:110 | Every text value compares equal to itself under BINARY collation |
| Strings.LexLeAntisymmetric | vms_app.py:110 | Two values each no greater than the other are the same string |
| Strings.LexLeTransitive | vms_app.py:110 | The collation order is transitive |
| Strings.LexLeTotal | vms_app.py:110 | Any two values are comparable, so `ORDER BY created_at` is a total preorder |
| Strings.Strip | vms_app.py:466-472 | `.strip()` never lengthens its input; what it returns is `StripSpec` |
| Strings.StripSpec | vms_app.py:466-472 | `.strip()` yields a slice of its input with only whitespace cut from the ends, no whitespace left at its ends, and empty exactly when the input is all whitespace |
| Timestamps.ClockAfterDayStart | vms_app.py:108 | Every clock time sorts at or after the appended `" 00:00:00"` |
| Timestamps.ClockBeforeDayEnd | vms_app.py:108 | Every clock time sorts at or before the appended `" 23:59:59"` |
| Timestamps.WindowIsDayRange | vms_app.py:105-108 | For a clock-made timestamp and well-formed days, the BETWEEN test holds iff the timestamp's day lies in [from, to], both included |
| Visitors.GetVisitorById | vms_app.py:118-124 | A record is returned iff the id is in the table; it carries that id, the row's seven columns and its `created_at` |
| Visitors.Where | vms_app.py:102-108 | Kept rows are table rows, unchanged. With `filters` absent or a day empty, the result is the whole table. On a table of clock-made timestamps with two well-formed days, a row is kept iff its day lies in [from, to], both included |
| Visitors.Ordered | vms_app.py:110-113 | The ordered listing has one entry per row |
| Visitors.OrderedListsTable | vms_app.py:102-113 | Ordering lists every row once, projected to the seven listing columns, each before every row that sorts after it |
| Visitors.ListedNewestFirst | vms_app.py:110 | Later entries never have a larger `created_at`, and no id repeats |
| Visitors.ListingContents | vms_app.py:98-115 | `get_visitors` returns exactly the matching rows, projected (address and purpose dropped); without an applicable filter that is every row |
| Visitors.ListingRows | vms_app.py:102-108 | Every listed entry is a matching row's projection |
| Visitors.ListingCovers | vms_app.py:105-113 | Every matching row is listed |
| Visitors.GetVisitors | vms_app.py:98-115 | The listing has one entry per kept row, never more entries than the table has rows, and every row when no filter applies; its contents and order are `ListingContents` and `ListingOrder` |
| Visitors.ListingOrder | vms_app.py:110 | The listing is non-increasing in `created_at` and has no duplicate id |
| Visitors.ListedIff | vms_app.py:105-113 | A row is listed iff it is in the table and passes the filter |
| Visitors.FilteredIsSubsequence | vms_app.py:105-110 | The filtered listing is the full listing with rows left out, in the same order |
| Visitors.DeleteKeepsOrder | vms_app.py:90-95 | After `delete_visitor`, the listing is an in-order subsequence of the earlier listing, and every other id is listed after the delete iff it was listed before |
| Visitors.SameStampsSameOrder | vms_app.py:110 | Listing order depends only on ids and `created_at` |
| Visitors.WhereSameStamps | vms_app.py:105-108 | The filter reads only `created_at` |
| Visitors.UpdateKeepsOrder | vms_app.py:77-87 | After `update_visitor`, every filtered listing has the same ids in the same order |
| Visitors.FilterIsDayRange | vms_app.py:105-108 | On a table of clock-made timestamps, a row passes a well-formed filter iff its day lies between `from` and `to` |
| Visitors.ListingAgreesWithLookup | vms_app.py:118-124 | Each listed entry agrees with what `get_visitor_by_id` returns for its id |
| Visitors.MalformedDayEmptiesListing | vms_app.py:105-108 | A US-style day matches no row, so the listing is empty while the unfiltered one is not |
| Visitors.DisplayedListing | vms_app.py:562-572 | The intended page listing is never longer than the table, and shows every row when a day is malformed; which rows it shows is `DisplayedListingContents` |
| Visitors.DisplayedListingContents | vms_app.py:562-572 | The intended page listing shows a row iff no filter applies, a day is malformed, or the row's day is in range |
| Visitors.TodayIds | vms_app.py:135-136 | The rows counted as today are table rows. On a table of clock-made timestamps and a well-formed `today`, they are exactly the rows the date filter keeps for the window [today, today] |
| Visitors.GetStats | vms_app.py:127-140 | `total` is the number of rows, `today` the number stamped on `today`, and `today <= total` |
| Visitors.OneDayWindow | vms_app.py:135-136 | The filter window [today, today] holds a row iff `date(created_at) = today` |
| Visitors.TodayIsDayListing | vms_app.py:127-140 | The today count equals the length of the listing filtered to today |
| Visitors.StatsAfterInsert | vms_app.py:65-74 | An insert adds one to `total`, and one to `today` iff the new row is stamped today |
| Visitors.StatsAfterDelete | vms_app.py:90-95 | Deleting an existing row takes one from `total`, and one from `today` iff it was stamped today |
| Visitors.StatsAfterOverwrite | vms_app.py:77-87 | Updating a row keeps both counts |
| Store.DatabaseManager.constructor | vms_app.py:42-62 | `init_db` on a new database: empty table, sequence 0, no id handed out yet |
| Store.DatabaseManager.AddVisitor | vms_app.py:65-74 | The new id is the sequence plus one, above every id ever handed out. The table gains exactly the row (data, `now`) and nothing else changes. The lookup returns it. At the maximal rowid the insert fails and nothing changes |
| Store.DatabaseManager.UpdateVisitor | vms_app.py:77-87 | An existing row gets the seven new columns and keeps its id and `created_at`. Every other row is unchanged. A missing id changes nothing |
| Store.DatabaseManager.DeleteVisitor | vms_app.py:90-95 | Exactly the row with that id is gone (none, if absent); the sequence keeps its value |
| Store.DeleteThenAdd | vms_app.py:48 | AUTOINCREMENT never reuses the id of a deleted row |
| Forms.DataIsStripped | vms_app.py:465-473 | Each column of `data` is its input with the outer whitespace cut off, and none is left |
| Forms.Validate | vms_app.py:476-478 | The form is rejected iff the name or the phone input is all whitespace; otherwise the result is the stripped data, with a non-empty name and phone |
| Forms.Dispatch | vms_app.py:480-488 | Missing data changes nothing. A truthy id means UPDATE: the row with that id, if any, gets the data and keeps its `created_at`; ids and sequence stay. Otherwise INSERT of (data, `now`) under id sequence+1, or SQLITE_FULL with nothing changed |
| Forms.SaveVisitor | vms_app.py:464-488 | On the store, `save_visitor` reports and leaves exactly what validation followed by dispatch gives |
| Forms.ValidatedIsSaved | vms_app.py:465-478 | What validation lets through is clean, with a name and a phone |
| Forms.DispatchTouchesOneRow | vms_app.py:480-488 | A save changes at most the one row being edited; no existing row's `created_at` changes |
| Forms.SaveKeepsRowsSaved | vms_app.py:464-488 | If every row was written through the form, every row still is after a save |
| Forms.StripTrimmed | vms_app.py:466-472 | Stripping a string without outer whitespace returns it unchanged |
| Forms.StripIdempotent | vms_app.py:466-472 | Stripping twice is stripping once |
| Forms.StripNewline | vms_app.py:471-472 | A text without outer whitespace, read back from a text area with its trailing newline, strips to that text |
| Forms.ValidateIdempotent | vms_app.py:464-478 | Re-validating validated data gives the same data |
| Forms.EditUnchangedIsNoOp | vms_app.py:455-462 | The untouched edit form of a saved row validates, and the row the UPDATE would write equals the stored row |
| Forms.EditUnchangedSaveIsNoOp | vms_app.py:455-488 | Saving the untouched edit form of a saved row under a non-zero id leaves the table unchanged |

## Left out

- The Tkinter user interface: theme, buttons, entries, login screen, sidebar, dashboard cards and tree view. It holds no logic beyond the lines modelled here.
- The hard-coded login check and the fixed "Active Now" dashboard value. Both are constants.
- Opening, committing and closing SQLite connections, and the error dialog in `init_db`. These are I/O.
  - A second `init_db` on an existing table (CREATE TABLE IF NOT EXISTS) changes nothing, so it has no method of its own.
- The message boxes shown after saving and deleting. `Outcome` records which message `save_visitor` would show.
- Clock reads are parameters: `CURRENT_TIMESTAMP` is `now`, and `date('now','localtime')` is `today`.
  - The model does not relate the two. `created_at` is stamped in UTC and `today` is a local date.
  - Around midnight, a row can therefore count as "today" on the wrong day.
- The exception path of `load_table_data`. SQLite errors such as a locked or unreadable `vms.db` come from I/O and are not modelled. `DisplayedListing` models what that path's comment intends for a malformed day.
- Visitors.Ordered: ties in `created_at` are listed by ascending id. SQL leaves that order open.
  - `FilteredIsSubsequence`, `DeleteKeepsOrder`, `UpdateKeepsOrder` and `SameStampsSameOrder` compare two listings, and hold because both break ties the same way.
  - SQLite does not promise that: two runs of the query may order equal timestamps differently.
- `SqlDate` gives a day only for strings in the `CURRENT_TIMESTAMP` shape. The store writes no other shape. SQLite's `date()` also accepts other time formats, and those are not modelled.
  - `IsDate` checks only the digit shape, so it accepts impossible days such as "2024-02-30" or "2024-13-01". On those, SQLite's `date()` rolls over to a real day or returns NULL, while `SqlDate` returns the literal day part.
  - `AddVisitor` accepts such a `now`. The clock never produces one.
  - For the same reason, `DisplayedListing` treats only days that fail the `IsDate` shape as malformed. An impossible day such as "2024-13-45" is filtered as text, although the comment at vms_app.py:569 speaks of an invalid date.
- Store.DatabaseManager.AddVisitor:
  - it asks that `now` have the `CURRENT_TIMESTAMP` shape, which every clock reading has;
  - the NOT NULL constraint on `fullname` is not modelled, because every caller passes a string;
  - SQLite's type affinity is not modelled, because every column is written as text.
- Concurrent access to `vms.db` by several processes is not modelled.

## Findings

| source | as written | input that shows it | evidently intended | confidence | as-written member | corrected member |
|---|---|---|---|---|---|---|
| vms_app.py:105-108 | A malformed day typed in the filter bar is compared as text. No error is raised, so `load_table_data` never reaches its "fallback if date is invalid, load all" branch. | from = to = `"01/05/2024"` with one row stamped `"2024-01-05 09:30:00"`: the listing is empty | A malformed day shows every row, as the comment at vms_app.py:569 says | medium, not executed | Visitors.MalformedDayEmptiesListing | Visitors.DisplayedListingContents |
