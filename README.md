# JSON article store: merge, de-duplication and year rotation

This project models `JSONExporter` in `src/json_exporter.py` in Dafny. The class keeps
one cumulative JSON store of collected articles for the current calendar year and
supports two operations:

- **export** merges a batch of article records into the store. It skips records with
  an empty or already-known URL. It drops records dated in another year, but keeps
  records whose date does not parse. It appends normalised entries in input order,
  re-sorts the whole list newest first with a stable sort, and rewrites the document
  with a fresh `meta` block.
- **archive_year** copies the store verbatim to a year-suffixed archive file, then
  resets the store to an empty document for the following year.

Layout:

- `wrappers.dfy` (`Wrappers`): `Option`, used for absent dictionary keys and failed
  parses, and `Result`.
- `text.dfy` (`Text`): Python's code-point order on strings, proved a strict total
  order. Also decimal digits: `str(int)` and the zero-padded fields of a date.
- `iso_date.dfy` (`IsoDate`): the `YYYY-MM-DD` calendar-date parser behind
  `datetime.fromisoformat(s[:10])`. It is characterised exactly: it accepts precisely
  the formatted valid dates.
- `articles.dfy` (`Articles`): input records and stored entries, the year filter, and
  `NewEntries`. `NewEntries` is the specification of what the merge loop appends.
  The file also holds the stable newest-first sort (`SortDesc`) and its properties:
  sorted, a permutation, stable, and unique given those properties.
- `json_exporter.dfy` (`Exporter`): documents, loading, and the class `JsonExporter`.
  The class's state is the visible file system, a map from `Path` to file content;
  the store is the entry at `outputPath`. `Export` keeps the source's loop, with
  invariants tying it to `NewEntries`. `ArchiveYear` performs the two writes in order.
  The lemmas beside them state the store-level properties.
- `scenarios.dfy` (`Scenarios`): concrete cases of the rules. `YearRollover` is a
  client of the class that exports a batch, archives the year and checks the archive
  and the reset store through the method contracts alone.

Notes on the code that the model makes explicit:

- Loading returns whatever the document's `articles` key holds
  (src/json_exporter.py:27). The code does not check that it is a list.
- `archive_year` on a store that is not valid JSON raises `JSONDecodeError`
  (src/json_exporter.py:128). The model returns `Failure(InvalidJson)` and writes
  nothing.
- `export` never re-filters stored entries (src/json_exporter.py:47). After a year
  change without an archive, entries of the old year stay under the new `meta.year`.
  `Exporter.ExportOrder` keeps every loaded entry, whatever its date.

## Model

| member | source | states |
|---|---|---|
| `Exporter.Load` | src/json_exporter.py:21-30 | loading never fails: a missing file, invalid JSON or a document without `articles` gives the empty list; otherwise the result is the document's `articles` value |
| `Exporter.LoadAfterExport` | src/json_exporter.py:91-102 | reading back what export wrote gives the written list, and its length is `total_articles` |
| `Exporter.JsonExporter.constructor` | src/json_exporter.py:16-19 | the exporter starts on the given store path and file system |
| `Exporter.JsonExporter.Export` | src/json_exporter.py:32-108 | the loop over the batch computes `NewEntries` against the loaded URLs; the store and only the store becomes `ExportedDocument` of the loaded entries; the returned path is the store path |
| `Exporter.ExportedDocument` | src/json_exporter.py:44-98 | `meta.year` is the current year, `total_articles` equals the list length, `new_this_run` is the number of appended entries, and the list length is the loaded count plus `new_this_run` |
| `Exporter.ExportOrder` | src/json_exporter.py:47-88 | the written list is a permutation of the loaded entries followed by the new ones; every loaded entry is kept unmodified, whatever its year; the list is newest first and every key's entries keep their relative order |
| `Exporter.ExportUniqueUrls` | src/json_exporter.py:48-88 | if the loaded entries have unique URLs, so does the written list, and its URLs are the loaded ones plus the new ones |
| `Exporter.ExportAgainAddsNothing` | src/json_exporter.py:47-88 | exporting the same batch again in the same year appends nothing and writes the same list |
| `Articles.Get` | src/json_exporter.py:53-77 | definition: `article.get(key, '')`, the field's string, or `''` when absent; the properties are stated by `Articles.ToEntry` |
| `Articles.InYear` | src/json_exporter.py:58-69 | definition of the year filter: kept unless the date to check is non-empty, its first ten characters parse, and the year differs from the current one; characterised by `Articles.YearFilterFailsOpen` and `Articles.YearFilterByDate` |
| `Articles.UrlSet` | src/json_exporter.py:48 | definition: the set of URLs of a list of entries; characterised by `Articles.UrlSetConcat` and `Articles.UrlSetOfPermutation`, and used by `Exporter.ExportUniqueUrls` |
| `Articles.SortKey` | src/json_exporter.py:86 | the sort key `date_collected or publication_date or ''` is the same date the year filter checks for an entry |
| `Text.Less` | src/json_exporter.py:85-88 | definition of Python's `str` order: the first differing code point decides, and a proper prefix comes first; characterised by `Text.LessTotal`, `Text.LessTransitive`, `Text.LessIrreflexive` and `Text.LessAsymmetric` |
| `Exporter.DefaultArchivePath` | src/json_exporter.py:121-122 | definition: `articles_{year}.json` in the store's directory; characterised by `Exporter.DefaultArchivePaths` |
| `Exporter.ArchiveDestination` | src/json_exporter.py:121-124 | definition: the given archive path, or the default one when none is given; used by `Exporter.JsonExporter.ArchiveYear` |
| `Exporter.DefaultArchivePaths` | src/json_exporter.py:121-122 | the default archive `articles_{year}.json` is in the store's directory, differs from a store named `articles.json`, and differs for different years |
| `Exporter.ResetDocument` | src/json_exporter.py:136-144 | the reset store has `year + 1`, zero `total_articles`, zero `new_this_run`, and loads as the empty list |
| `Exporter.JsonExporter.ArchiveYear` | src/json_exporter.py:110-150 | a missing store: nothing changes and the archive path is returned; a store that is not JSON: nothing changes and the call fails; otherwise the archive receives exactly the prior store document, then the store is reset, and a later load gives the empty list |
| `Articles.ToEntry` | src/json_exporter.py:71-78 | an appended entry copies `url`, copies `title`, `source` and `full_text` or uses `''` when absent, sets `date_collected` to `created_at`, and copies `publication_date` |
| `Articles.YearFilterFailsOpen` | src/json_exporter.py:58-69 | a record with both dates empty is kept; a record whose date prefix does not parse is kept; `publication_date` is only consulted when `created_at` is empty |
| `Articles.YearFilterByDate` | src/json_exporter.py:58-67 | a date to check that starts with a valid calendar date, in `created_at` or as the `publication_date` fallback, is kept exactly when its year is the current year |
| `Articles.NewEntries` | src/json_exporter.py:52-82 | what the loop appends is no longer than the batch, has unique URLs, none of them already stored, none empty, and every appended entry passes the year filter |
| `Articles.NewEntriesStep` | src/json_exporter.py:52-82 | one more record is appended exactly when its URL is non-empty and not among the stored or earlier appended URLs, and it passes the year filter; otherwise it is skipped |
| `Articles.NewEntriesInInputOrder` | src/json_exporter.py:52-80 | the appended entries are normalised input records, in input order |
| `Articles.NewEntriesComplete` | src/json_exporter.py:53-82 | every record with a URL that passes the year filter has its URL stored afterwards, from before or from this batch |
| `Articles.NewEntriesAgain` | src/json_exporter.py:48-55 | once a batch's URLs are stored, merging it again appends nothing: a duplicate is skipped and never updates an entry |
| `Articles.SortDesc` | src/json_exporter.py:85-88 | the sorted list is a permutation of its input |
| `Articles.SortDescSorted` | src/json_exporter.py:85-88 | the sorted list is newest first: no key is lexicographically smaller than a later one, with key `date_collected or publication_date or ''` |
| `Articles.SortDescStable` | src/json_exporter.py:85-88 | the sort is stable: the entries with any given key keep their relative order |
| `Articles.SortDescUnique` | src/json_exporter.py:85-88 | any newest-first arrangement that keeps each key's entries in order equals the sort result, so the insertion sort gives exactly what Python's stable sort gives |
| `Articles.SortedSameKeysEqual` | src/json_exporter.py:85-88 | two newest-first lists with the same entries per key, in the same order, are equal |
| `Articles.SortDescOfSorted` | src/json_exporter.py:85-88 | sorting a list that is already newest first leaves it unchanged |
| `Articles.SortDescUniqueUrls` | src/json_exporter.py:85-88 | sorting keeps URLs unique and keeps the same set of URLs |
| `Text.LessTotal` | src/json_exporter.py:85-88 | Python's string order is total: two distinct strings are ordered one way or the other |
| `Text.LessTransitive` | src/json_exporter.py:85-88 | Python's string order is transitive |
| `Text.LessIrreflexive` | src/json_exporter.py:85-88 | no string is less than itself |
| `Text.LessAsymmetric` | src/json_exporter.py:85-88 | two strings are never less than each other both ways |
| `Text.IntToDecimalInjective` | src/json_exporter.py:122 | distinct years print differently in the archive file name |
| `IsoDate.ParseIsoDate` | src/json_exporter.py:65 | every date the parser returns is a date `datetime` can represent |
| `IsoDate.ParseIsoDateSound` | src/json_exporter.py:65 | a parsed date is valid, and the text is exactly its `YYYY-MM-DD` form |
| `IsoDate.ParseIsoDateComplete` | src/json_exporter.py:65 | every valid date written as `YYYY-MM-DD` parses back to itself |
| `IsoDate.ParseIsoDateExact` | src/json_exporter.py:65 | the parser returns `d` for `s` if and only if `d` is valid and `s` is its `YYYY-MM-DD` form |
| `IsoDate.NotADateRejected` | src/json_exporter.py:63-69 | `not-a-date` does not parse, so the year filter keeps such a record |
| `IsoDate.OutOfRangeRejected` | src/json_exporter.py:65-69 | year 0 and 29 February of a common year do not parse |
| `Scenarios.NewestFirstExample` | src/json_exporter.py:84-88 | entries collected on 3, 1 and 2 January come out ordered 3, 2, 1 |
| `Scenarios.UnparseableDateKept` | src/json_exporter.py:63-78 | a record with `created_at = "not-a-date"` is appended |
| `Scenarios.PriorYearExcluded` | src/json_exporter.py:61-67 | a record collected in 2023 is not appended when the current year is 2024 |
| `Scenarios.DuplicateInBatchStoredOnce` | src/json_exporter.py:53-55 | the same record twice in one batch is appended once |

## Left out

- File I/O, directory creation, JSON text formatting (`indent`, `ensure_ascii`) and
  UTF-8 decoding are left out. Files are an in-memory map from path to content, and
  content is either text that is not valid JSON or a document.
- Documents are JSON objects with only the keys `meta` and `articles`. Other keys, and
  JSON values that are not objects (on which `data.get` raises), are not modelled.
  An `articles` value that is neither a list nor `null` is not modelled either.
- Exporter.Load: a document whose `articles` value is `null` is modelled as having
  no `articles` key, so it loads as the empty list and `Export` overwrites the store.
  In the code, `data.get('articles', [])` returns `None` (src/json_exporter.py:27).
  `export` then raises `TypeError` when it builds the URL set
  (src/json_exporter.py:48), and the store is not written.
- Apart from `articles`, an absent key and a JSON `null` are modelled alike, as absent. The code would write
  `null` for a `created_at` of `null`, where the model writes `''`.
- A stored entry that lacks `url` makes the code raise `KeyError`. Stored entries
  always have all six string fields here.
- The clock is left out. The current year and the `last_updated` stamp are
  parameters, independent of each other; the code reads the clock twice.
- Logging is left out; it is observability only.
- Write failures and the non-atomic gap between the archive write and the reset are
  left out. Writes always succeed in the model.
- Concurrent writers are left out. The code has no locking.
- `IsoDate.ParseIsoDate`: accepts only the extended form `YYYY-MM-DD` with ASCII
  digits. Python 3.11 and later also accept the basic form `YYYYMMDD` and week
  dates in `fromisoformat`. Those inputs are modelled as unparseable, and therefore
  kept.
- `Articles.SortDesc`: Python's Timsort is modelled by a stable insertion sort.
  `Articles.SortDescUnique` shows that any stable newest-first sort gives the same
  list. The in-place mutation of the Python list is modelled by reassigning a
  sequence.
