# Video tracker record store, modelled in Dafny

The video tracker keeps video records (id, name, href, post_date, views_count)
in one CSV file. Its core is a flat-file record store with four operations:

- `get_videos`: list the records, optionally sorted;
- `add_video`: insert a record, refusing a duplicate id;
- `update_video`: replace a record by id and rewrite the file;
- `delete_video`: remove a record by id and rewrite the file.

The store is written three times with near-identical code:
`i_django/.../csv_manager.py`, `fastapi-app/csv_manager.py` and
`i_flask/data_manager.py`. The second component is the `post_date`
validator of the serializers and pydantic schemas.

## How the model is organised

- `wrappers.dfy` (`Wrappers`): `Option` and `Result`.
- `decimal.dfy` (`Decimal`): Python's `int(text)` and `str(n)` on decimal text, with the round trip between them.
- `post_date.dfy` (`PostDate`): `validate_post_date` / `validate_date_format`. It checks the regular expression, then runs `strptime`. A lemma shows it accepts exactly the renderings of real Gregorian dates in years 0001..9999.
- `stable_sort.dfy` (`StableSort`): what `list.sort(key=..., reverse=...)` computes. It is a stable sort, shown to give a sorted permutation that keeps the order of equal keys.
- `records.dfy` (`Records`): the data. The file is `Absent | Empty | Present(header, rows)`, each row a sequence of cells. The module also holds:
  - the dict `csv.DictReader` builds for a row (last duplicate column wins; a short row gives `None`; a missing column gives `KeyError`);
  - the decoding of one row;
  - the listing specification `ListSpec`;
  - the rows `csv.DictWriter` writes on a rewrite.
- `store.dfy` (`CsvStore`): class `Store`. It owns the file state and has one method per operation. The methods read the rows in loops, building `videos`, `videos_to_keep` or `updated_rows` with a `found` flag as the source does. Each is proved against the specification functions.
- `store_laws.dfy` (`StoreLaws`) and `store_examples.dfy` (`StoreExamples`): the properties and concrete cases.

The three copies differ in two places. `Store.variant` records which copy a store is:
- `PlainDict` (Django, FastAPI) lists a row without a text cell with a null field in its place, which a short row reaches only when `id` and `views_count` come before that cell (under the header the code writes, a short row empties the listing, see below). `VideoSchema` (Flask) builds a pydantic `Video` per row, so it skips such a row, and one with an invalid `post_date`, instead.
- `update_video` returns the id as an `int` in `PlainDict` and as `str(id)` in `VideoSchema`.

The serializer and schema field types (integer `id` and `views_count`, text
`name`, `href`, `post_date`, no range checks) are the `Records.Video` datatype.

### Behaviour of the code worth knowing

- `add_video` returns only success or failure; the stored record is not returned.
- Ids are matched as text (`row.get("id") == str(id)`), not as integers. A stored `"01"` lists as id 1, but `add`, `update` and `delete` with id 1 do not see it.
- `add_video` ignores the file's own header: it appends its five cells in the order `id,name,href,post_date,views_count`. Under a reordered header the appended row is read with its cells under the wrong columns, so its id is not found and the same id can be stored twice.
- `delete_video` and `update_video` act on every row whose id text matches, which is more than one row when the file holds repeated ids.
- Not every malformed row is skipped, and what a short row does depends on the header's column order. Under the header the code writes (`id,name,href,post_date,views_count`), `views_count` is the last column, so every short row lacks it: `int(None)` raises `TypeError`, no handler in the loop catches it, and the whole listing comes back empty. Under another column order a row without its `views_count` cell still empties the listing. A row without its `id` cell empties it only when `views_count` parses or is not a column; when `views_count` is there and fails `int`, the row is only skipped. A row that lacks a text cell but holds `id` and `views_count` (both earlier columns) lists with a null field in the dict copies.
- No copy checks the range of `views_count`, so it may be negative. The pydantic schemas (Flask, FastAPI) accept an empty `name` or `href` text (an empty `post_date` fails the date pattern); Django REST framework's `CharField` rejects a blank `name` or `href`, which this model does not capture (see "Left out").
- A rewrite truncates the file first. If the writer then raises, the failing row and every row after it are lost, and the call reports failure. This happens when the header lacks one of the five columns (update), or when a kept row is wider than the header (update and delete).

## Model

| member | source | states |
|---|---|---|
| Decimal.ParseInt | i_django/video_tracker/videos/csv_manager.py:37 | `int(text)`: any accepted text starts with a digit or a sign |
| Decimal.ParseIntAccepts | i_django/video_tracker/videos/csv_manager.py:37 | `int(text)` succeeds exactly on an optional sign followed by one or more ASCII digits and is None (ValueError) on any other text; a negative result comes only from a leading '-' |
| Decimal.NonCanonicalText | i_django/video_tracker/videos/csv_manager.py:37 | `int` also reads text `str` never writes: a leading zero or a leading '+' leaves the value unchanged, and a leading '-' negates it |
| Decimal.NonDecimalRejected | i_django/video_tracker/videos/csv_manager.py:37-45 | empty text, a lone sign, "1x", "1.5" and "--1" are refused, as Python's `int` refuses them, so such a row is skipped |
| Decimal.NatToString | fastapi-app/csv_manager.py:162 | `str(n)` for n >= 0 is a non-empty digit string with no leading zero unless n is 0 |
| Decimal.IntToString | fastapi-app/csv_manager.py:166 | `str(n)` is non-empty and starts with '-' exactly when n is negative |
| Decimal.NatToStringValue | fastapi-app/csv_manager.py:38-42 | reading the digits `str(n)` writes gives back n |
| Decimal.IntRoundTrip | fastapi-app/csv_manager.py:161-167 | `int(str(n)) == n` for every integer, so id and views_count survive a write and a read (CPython's 4300-digit limit is not modelled, see Left out) |
| Decimal.IntToStringInjective | i_django/video_tracker/videos/csv_manager.py:82 | distinct ids have distinct texts, so text lookup by `str(id)` never confuses two integers |
| Decimal.LeadingZeroReadsAsOne | i_django/video_tracker/videos/csv_manager.py:37 | `int("01") == 1` while `str(1) == "1"`: text that `int` accepts is not always text `str` writes |
| PostDate.DaysInMonth | flask-app/models.py:24-27 | every month has 28 to 31 days; it has 29 exactly when it is February of a leap year |
| PostDate.MatchesPattern | i_django/video_tracker/videos/serializers.py:28 | text the pattern `^\d{4}-\d{2}-\d{2}$` admits begins with ten characters of that shape and then ends, or holds one more character, a newline, since `$` also matches before a final newline |
| PostDate.StrptimeAccepts | flask-app/models.py:24-27 | `strptime` refuses the trailing newline the pattern lets through, so accepted text has ten characters; 29 February is accepted exactly in a leap year |
| PostDate.ShapeIsRendered | i_fastapi/models.py:21-25 | text of the date shape is the zero-padded rendering of its own year, month and day, so the accepted texts are exactly renderings of dates |
| PostDate.ValidatePostDate | django-app/video_tracker/videos/serializers.py:26-40 | an accepted value is returned unchanged and has the YYYY-MM-DD shape; both failure paths give the one message "post_date must be a valid date in YYYY-MM-DD format" |
| PostDate.ValidatorAcceptsFullDates | i_django/video_tracker/videos/serializers.py:28-38 | the pattern check plus `strptime` accept exactly the zero-padded renderings of real Gregorian dates in years 0001..9999 |
| PostDate.LeapDay | i_fastapi/models.py:24-27 | 29 February of year y is accepted exactly when y is a leap year under the Gregorian rule |
| PostDate.Examples | flask-app/models.py:16-29 | these are rejected: 2025-02-30, 2025-04-31, 2025-13-01, 1900-02-29, 0000-01-01 and "invalid-date". 2025-01-01 followed by a newline passes the pattern but fails `strptime`. 2025-02-28, 2024-02-29 and 2000-02-29 are accepted |
| StableSort.InsertPermutes | i_django/video_tracker/videos/csv_manager.py:57 | inserting one record adds exactly it to the multiset of records |
| StableSort.BeforeIsStrictTotalOrder | i_django/video_tracker/videos/csv_manager.py:49-57 | the key order `sort` uses (integers numerically, text by code point, reversed when descending) is irreflexive, asymmetric, transitive and total |
| StableSort.InsertSorted | i_django/video_tracker/videos/csv_manager.py:57 | inserting one record into an ordered list keeps it ordered |
| StableSort.Sort | i_django/video_tracker/videos/csv_manager.py:57 | `list.sort(key=..., reverse=...)` as a stable insertion sort: each element in turn goes after the equal keys before it; its properties are StableSort.SortPermutes, StableSort.SortIsSorted and StableSort.SortIsStable |
| StableSort.SortPermutes | i_django/video_tracker/videos/csv_manager.py:49-57 | the sorted list is a permutation of the input |
| StableSort.SortIsSorted | fastapi-app/csv_manager.py:58 | the result is ordered by key: non-decreasing, or non-increasing when reversed |
| StableSort.SortIsStable | i_flask/data_manager.py:56 | for every key, the records with that key keep their original relative order, in both directions |
| StableSort.DescendingIsNotReversed | i_django/video_tracker/videos/csv_manager.py:57 | with `reverse=True` two records with equal keys keep file order, so descending is not the reversal of ascending |
| Records.HasContent | i_django/video_tracker/videos/csv_manager.py:14-16 | `_file_exists` is false exactly for a missing file and for a file of zero bytes |
| Records.LastIndex | i_django/video_tracker/videos/csv_manager.py:29 | DictReader's dict keeps the last column of a repeated name: the index holds that name and no later column does |
| Records.Lookup | i_django/video_tracker/videos/csv_manager.py:32-42 | `row[name]` raises KeyError exactly when the header lacks the column |
| Records.LookupCell | i_django/video_tracker/videos/csv_manager.py:32-42 | `row[name]` is None exactly when the column's last position is past the end of a short row, and otherwise the cell at that position |
| Records.DecodeRow | i_django/video_tracker/videos/csv_manager.py:30-45 | a kept row has id and views_count cells that parse with `int` to the record's integers, and the record's text fields are its cells (the Flask copy also needs non-null text fields and a valid post_date). A row aborts the listing exactly when `int(None)` is reached |
| Records.DecodeRowOutcome | i_django/video_tracker/videos/csv_manager.py:30-45 | a row is kept exactly when its id and views_count cells parse with `int` and the name, href and post_date columns exist (in the Flask copy, also non-null text fields and a valid post_date); every row that neither is kept nor aborts is skipped |
| Records.DecodeAll | i_django/video_tracker/videos/csv_manager.py:27-45 | the loop over the rows gives at most one record per row, and only a file with rows can raise an escaping error |
| Records.DecodeAllAborts | i_flask/data_manager.py:27-44 | decoding fails exactly when some row raises an escaping error; otherwise at most one record per row |
| Records.SortFieldOf | i_django/video_tracker/videos/csv_manager.py:47 | a sort field is chosen exactly for sort_by "name", "post_date" or "views_count" |
| Records.IsSortParams | flask-app/models.py:52-56 | every sort_by the Flask `VideosSortParams` schema admits is one the store sorts by, and of its order values only "desc" sorts descending |
| Records.SortKey | i_django/video_tracker/videos/csv_manager.py:49-55 | `sort_key` gives an integer key exactly for views_count, and that key is the record's views_count; name and post_date sort as text |
| Records.KeysDefined | i_django/video_tracker/videos/csv_manager.py:49-57 | sorting raises no error when sorting by views_count, when there are no records, or by post_date when there is one record, whose key is never compared |
| Records.Lower | fastapi-app/csv_manager.py:56 | lowering keeps the length of the text, so a name key is as long as the name |
| Records.LowerIsLowercase | fastapi-app/csv_manager.py:56 | the lowered text has no letter 'A'..'Z' and every other character unchanged |
| Records.LowerIdempotent | fastapi-app/csv_manager.py:56 | lowering an already lowered name changes nothing |
| Records.LowerIgnoresCase | i_django/video_tracker/videos/csv_manager.py:57 | texts differing only in letter case lower to the same text, so "DESC", "Desc" and "desc" select the same order |
| Records.IsDescending | i_django/video_tracker/videos/csv_manager.py:57 | `order.lower() == "desc"` holds only of four-character text, and holds for "desc" and "DESC" |
| Records.SortEntries | fastapi-app/csv_manager.py:58 | the call `videos.sort(key=sort_key, reverse=(order.lower() == "desc"))`: StableSort.Sort keyed by Records.SortKey, descending exactly when Records.IsDescending holds |
| Records.ListSpec | i_django/video_tracker/videos/csv_manager.py:19-63 | what `get_videos` returns; a missing or zero-byte file lists as nothing, whatever the sort |
| Records.Matches | i_django/video_tracker/videos/csv_manager.py:82 | `row.get("id") == str(id)` can hold only when the header has an id column |
| Records.HasId | i_django/video_tracker/videos/csv_manager.py:81-83 | the `found` flag can be set only for a file with at least one row and an id column |
| Records.DeletePlan | i_django/video_tracker/videos/csv_manager.py:74-85 | `videos_to_keep` is never longer than the rows read, and strictly shorter once some row matches (which rows, in which order: StoreLaws.DeletePlanIsUnmatched) |
| Records.UpdatePlan | i_django/video_tracker/videos/csv_manager.py:113-135 | `updated_rows` has one row per row read (their contents: StoreLaws.UpdatePlanAt) |
| Records.Cells | i_django/video_tracker/videos/csv_manager.py:169-175 | an added record is written as five cells under the header id,name,href,post_date,views_count |
| Records.FreshCell | i_django/video_tracker/videos/csv_manager.py:124-132 | the cell DictWriter writes under one header column for `updated_row`: `str(id)`, the new text fields, `str(views_count)`, and restval "" for any other column |
| Records.EncodeRow | i_django/video_tracker/videos/csv_manager.py:140-143 | a row the writer accepts is exactly as wide as the header |
| Records.WriteRows | i_django/video_tracker/videos/csv_manager.py:90-93 | the rewrite is complete exactly when the writer accepts every row, and then writes one row per dict |
| CsvStore.Store.List | i_django/video_tracker/videos/csv_manager.py:19-63 | the method's loop over the rows returns `ListSpec` of the file: the decoded records, sorted or in file order, or empty on any escaping error |
| CsvStore.Store.Add | i_django/video_tracker/videos/csv_manager.py:160-201 | an absent or empty file becomes header plus the row. Otherwise the add succeeds exactly when no stored id text equals `str(id)`: on success the row is appended after all existing rows, and on a duplicate the file is unchanged |
| CsvStore.Store.Delete | fastapi-app/csv_manager.py:67-99 | an absent or empty file, or no matching id text, gives False and leaves the file unchanged. Otherwise the file becomes the same header plus what the writer wrote of the unmatched rows, and the result is whether that write completed |
| CsvStore.Store.Update | i_flask/data_manager.py:101-139 | an absent or empty file, or no match, gives (False, None) with the file unchanged. Otherwise the matched rows are replaced by the new record with the id forced; on a complete write the reply has the new fields and the id as int (dict copies) or as `str(id)` (Flask) |
| StoreLaws.ListAtMostOnePerRow | i_django/video_tracker/videos/csv_manager.py:27-57 | the listing never holds more records than the file has data rows, sorted or not |
| StoreLaws.ListUnsortedKeepsFileOrder | fastapi-app/csv_manager.py:48-60 | without a recognised sort_by the listing is the records of the decoding rows read front to back, or empty when some row reaches `int(None)` |
| StoreLaws.DecodeAllInOrder | i_django/video_tracker/videos/csv_manager.py:27-45 | when no row raises an escaping error, the loop's `videos` list is the records of the decoding rows in file order |
| StoreLaws.ListSortedIsStableSort | i_django/video_tracker/videos/csv_manager.py:47-59 | with a recognised sort_by, when every record has that key, the listing is a permutation of the decoded records. It is ordered by the key (int views_count, raw post_date, lowercased name), non-increasing when `order.lower() == "desc"`, and equal keys stay in file order |
| StoreLaws.PostDateOrderIsChronological | django-app/video_tracker/videos/tests.py:227-230 | for valid dates, comparing post_date as text is comparing the dates in calendar order |
| StoreLaws.CellsDecode | fastapi-app/csv_manager.py:31-46 | the row written for a record reads back as that record (in the Flask copy, when its date is valid) |
| StoreLaws.AddThenList | fastapi-app/csv_manager.py:154-191 | when the file is missing or empty, or has the standard five-column header and no row that aborts the listing, then after a successful add (in the Flask copy, of a record with a valid date) the unsorted listing is the previous listing followed by the added record, with equal field values |
| StoreLaws.AddKeepsIdsUnique | i_django/video_tracker/videos/csv_manager.py:177-183 | under the header `add_video` creates (`id,name,href,post_date,views_count`), an add that passed the duplicate check keeps every id text unique |
| StoreLaws.AddedIdIsDuplicate | django-app/video_tracker/videos/tests.py:91-103 | under the header `add_video` creates (`id,name,href,post_date,views_count`), once a record is added its id is found, so a second add with the same id is refused |
| StoreLaws.MatchedRowListsWithThatId | i_flask/data_manager.py:81 | a row matched by `str(id)` lists, if at all, with exactly that id |
| StoreLaws.KeptRowUnchanged | i_flask/data_manager.py:89-92 | a row as wide as a header without repeated names is rewritten unchanged |
| StoreLaws.DeletePlanIsUnmatched | i_django/video_tracker/videos/csv_manager.py:81-85 | `videos_to_keep` is, position by position, the rows whose id text differs from `str(id)`, in file order |
| StoreLaws.UpdatePlanAt | i_django/video_tracker/videos/csv_manager.py:121-135 | `updated_rows` has one entry per row read: the new record where the id text is `str(id)`, the row as read elsewhere |
| StoreLaws.DeleteOnWellFormedFile | i_django/video_tracker/videos/csv_manager.py:74-94 | on a well-formed file delete writes exactly the non-matching rows, unchanged and in original order, and no remaining row matches |
| StoreLaws.DeleteRemovesExactlyOne | fastapi-app/csv_manager.py:82-86 | with unique ids, deleting the id of row k leaves every row but row k, in order |
| StoreLaws.UpdateOnWellFormedFile | i_django/video_tracker/videos/csv_manager.py:113-143 | on a well-formed file with the five columns, update writes every row, each matching row replaced in place and the others unchanged |
| StoreLaws.UpdateReplacesFully | fastapi-app/csv_manager.py:118-130 | under the header `add_video` creates (`id,name,href,post_date,views_count`), and in the Flask copy for a record with a valid post_date, a replaced row lists as the new record with the id forced to the one looked up and keeps that id's text; other rows are untouched |
| StoreLaws.UpdateKeepsIdsUnique | i_flask/data_manager.py:117-124 | under the header `add_video` creates (`id,name,href,post_date,views_count`), an update keeps every id text unique |
| StoreLaws.LeadingZeroId | i_django/video_tracker/videos/csv_manager.py:37 | a stored "01" lists as id 1, yet no operation on id 1 finds it |
| StoreExamples.BadRowIsSkipped | i_django/video_tracker/videos/csv_manager.py:44-45 | a well-formed row next to a row with a non-integer id lists as exactly the well-formed record |
| StoreExamples.ShortRowEmptiesListing | i_django/video_tracker/videos/csv_manager.py:61-63 | a short row reaching `int(None)` empties the whole listing |
| StoreExamples.InvalidDateOnlyListsInDictCopies | i_flask/data_manager.py:35-44 | the row dated 2025-02-30 lists in the dict copies but is skipped by the Flask copy |
| StoreExamples.MissingNameBreaksNameSort | fastapi-app/csv_manager.py:50-58 | a record with a null name lists unsorted, but sorting by name empties the listing |
| StoreExamples.SortingTestExample | django-app/video_tracker/videos/tests.py:190-230 | with "B Test Video" (100 views, 2025-01-02) added before "A Test Video" (200 views, 2025-01-01): name ascending lists A first, name descending B first, views ascending the 100-view record first, post_date descending the 2025-01-02 record first |
| StoreExamples.UpdateWithoutNameColumnLosesRows | i_flask/data_manager.py:129-132 | with a header lacking "name" the update's rewrite fails at the matched row, leaving no data rows |
| StoreExamples.DeleteWithWideRowLosesRows | i_django/video_tracker/videos/csv_manager.py:90-93 | a kept row wider than the header stops the rewrite, so only the rows before it remain |
| StoreExamples.ReorderedHeaderMissesAddedId | i_django/video_tracker/videos/csv_manager.py:164-195 | under the header `name,id,href,post_date,views_count` the row `add_video` appends reads its name as its id, so the duplicate check does not find the id just added |

## Left out

- The HTTP layers (`app.py`, `views.py`), the request wrappers and the error messages they send are not part of this model.
- Filesystem work is not modelled. This covers the file path, `os.makedirs`, and the Flask copy failing when its data directory is missing. Only absent, empty or present is kept.
- I/O failures (permission, disk full) are not modelled. Nor are the `print` diagnostics.
- CSV quoting and escaping are not modelled; rows are held as cells after parsing. Blank lines, which DictReader skips, are not held. `csv.Error` on malformed text is not modelled. An append to a file whose last line lacks a newline is not modelled.
- Concurrency is not modelled: the source takes no lock.
- Decimal.ParseInt: accepts only ASCII digits after an optional sign. Python's `int` also accepts surrounding whitespace (`int(" 1") == 1`, which the model refuses), `_` separators and Unicode digits.
- Decimal.IntRoundTrip: holds for every integer in the model only. From CPython 3.11 on, `int` and `str` raise `ValueError` on a decimal text of more than 4300 digits (`sys.get_int_max_str_digits`), so a `views_count` that long fails to be written or read back; the model has no such limit.
- Records.Lower: lowercases ASCII letters only, where Python's `str.lower` covers Unicode.
- PostDate.ValidatePostDate: `\d` is taken as ASCII `0`-`9`, while Python's `re` also matches other Unicode digits.
- Input coercion by Django REST framework and pydantic (text to int, trimming) is not modelled. Records reach `add` and `update` already typed.
- Records.Video: the Django serializers' `CharField` rejects an empty or blank `name`, `href` or `post_date` (django-app/video_tracker/videos/serializers.py:21-23, i_django/video_tracker/videos/serializers.py:21-23). The model checks `post_date` only with the date validator, which already refuses empty or blank text; for `name` and `href` the datatype admits any text, as the pydantic schemas do.
- `list.sort` is library code, so it is modelled by its result, a stable insertion sort, not by CPython's algorithm.
