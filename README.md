# QA-Data-Parser, modelled in Dafny

`project2.py` loads QA bug-report spreadsheets into one of two document
collections, `db1` and `db2`. Each row becomes one record. Its fields are named by
the header row, and its `Build #` cell is normalised to `MM/DD/YYYY` by
`fix_date`. The script then queries both collections with an optional `Test Owner`
/ `Build #` equality filter. It keeps only repeatable and/or blocker bugs when
asked to. It drops records whose (`Test Case`, `Test Owner`, `Build #`) key was
already seen, and it removes the store's `_id`. With `--csv`, it decides what the
export writes and reports.

The model is written in the script's own terms:

- `text.dfy` covers Python whitespace, `str.strip()` and `str.split()[0]`.
- `cells.dfy` covers the cell values and the civil calendar.
- `dates.dfy` covers `fix_date`, with hand-written `strftime("%m/%d/%Y")` and
  `strptime(.., "%m/%d/%Y")`.
- `records.dfy` models an insertion-ordered `dict` as a sequence of pairs.
- `ingest.dfy` covers the row-to-record comprehension.
- `store.dfy` has a class `Store` with the two collections and the identity
  counter. Its methods model `delete_many`, `insert_one`, the load loop and the
  fetch loop.
- `query.dfy` covers the search parameters, the attribute tests, the
  filter/deduplication loop as a method, and the export decision.
- `script.dfy` covers one whole run.

The filter/deduplication loop, the load loop and the fetch loop are imperative
methods. Each is proved equal to a specification function: `Select`,
`Tagged(FilesRecords(..))` and `Find`. The lemmas prove what the run promises
about those functions.

Two behaviours of the script are easy to misread:

- When `fix_date` cannot parse a string, it returns the *reassigned* variable:
  the first token, with `-` and `.` replaced by `/`, rather than the original
  input (`Dates.FallbackExample`).
- A later record with a field that the first record lacks makes
  `csv.DictWriter` raise `ValueError` (its default is `extrasaction='raise'`),
  so the summary line is never printed. The model reports this as
  `Rejected(row)`.

## Model

| member | source | states |
|---|---|---|
| Text.Strip | project2.py:68 | `str.strip()`: the result has no whitespace at either end and is no longer than the input (its full meaning is `Text.StripSurrounded`) |
| Text.StripSurrounded | project2.py:68 | whitespace, then a text with no whitespace at either end, then whitespace: stripping gives exactly that text |
| Text.StripIdempotent | project2.py:68 | stripping twice is stripping once |
| Text.FirstToken | project2.py:46 | `split()[0]`: a non-empty, whitespace-free word |
| Text.HasTokenIff | project2.py:46 | `split()[0]` exists exactly when the string is not all whitespace; otherwise the IndexError falls into the `except` |
| Text.FirstTokenOf | project2.py:46 | leading whitespace, then a word, then whitespace or the end: the first token is that word |
| Dates.Strptime | project2.py:47 | a parse succeeds only with a valid day of a valid month, leap years included |
| Dates.CanonicalRoundTrip | project2.py:45-47 | `strptime` reads back the date `strftime("%m/%d/%Y")` wrote, and that text has the canonical shape |
| Dates.FixDate | project2.py:42-49 | a datetime or a string yields a string; any other value is returned unchanged (no exception escapes) |
| Dates.FixDateOfDateTime | project2.py:44-45 | a datetime becomes its zero-padded `MM/DD/YYYY` text, which parses back to its date; the time of day has no effect |
| Dates.FixDateLoose | project2.py:46-47 | leading whitespace, then `M?M<sep>D?D<sep>YYYY` with `-`, `.` or `/` as separators, then anything after whitespace: the result is the zero-padded canonical date |
| Dates.FixDateExampleTime | project2.py:46-47 | `"2/24/2024 10:00"` becomes `"02/24/2024"` |
| Dates.FixDateExampleDash | project2.py:46-47 | `"2-24-2024"` becomes `"02/24/2024"` |
| Dates.FixDateFallbacks | project2.py:46-49 | a non-string is returned unchanged; an all-whitespace string is returned unchanged; an unparsable string yields its re-separated first token |
| Dates.NoMonthThirteen | project2.py:47 | `"13/01/2024"` does not parse |
| Dates.FallbackExample | project2.py:46-49 | `" 13-01-2024 10:00"` yields `"13/01/2024"`, not the original input |
| Dates.FixDateOutcomes | project2.py:42-49 | every result is the input itself, the input's first token with `-` and `.` replaced by `/`, or a canonical date |
| Dates.FixDateIdempotent | project2.py:42-49 | normalising twice is normalising once |
| Records.Get | project2.py:79-80 | a lookup finds a value exactly when the key is present |
| Records.PutGet | project2.py:60 | after `r[k] = v`, `k` holds `v` and every other key keeps its value |
| Records.PutKeys | project2.py:60 | a present key keeps its place, and a new key goes last |
| Records.Remove | project2.py:90 | `pop("_id", None)` removes the key and leaves every other key's value |
| Records.RemoveKeySet | project2.py:90 | the remaining keys are the old ones except the removed one |
| Records.ZipKeySet | project2.py:60 | the comprehension's dict has exactly the header's keys |
| Records.ZipLastWins | project2.py:60 | a repeated header name holds the value of its last column |
| Records.ZipDistinct | project2.py:60 | with distinct header names, the keys are the header in order and each holds its own column's value |
| Ingest.BuildSpec | project2.py:57-60 | a built record is a well-formed dict with exactly the header's keys; each holds its column's cell, passed through `fix_date` only under `Build #` |
| Ingest.BuildDistinct | project2.py:57-60 | with distinct header names, the record's keys are the header in order |
| Ingest.SheetRecordsSpec | project2.py:57-60 | every record of a sheet is a well-formed dict with exactly the header's keys, and each key no later column repeats holds its column's cell, passed through `fix_date` only under `Build #` |
| Ingest.FilesRecordsAppend | project2.py:54-61 | loading files `a + b` yields `a`'s records followed by `b`'s |
| Ingest.FilesRecordsNoId | project2.py:57-61 | no built record has an `_id` of its own |
| Store.Store.DeleteAll | project2.py:53 | the chosen collection is emptied and the other is untouched |
| Store.Store.InsertOne | project2.py:61 | the record is appended under a fresh identity; nothing else changes |
| Store.Store.InsertSheet | project2.py:59-61 | one sheet appends its records, in row order, under consecutive identities |
| Store.Store.Load | project2.py:51-61 | after a load the partition holds exactly the files' records, in file order and then row order, and nothing from before; the other partition is unchanged |
| Store.Reload | project2.py:51-61 | loading a partition twice keeps only the second load's records |
| Store.TaggedBuilt | project2.py:61 | every stored document is one of the inserted records under some identity |
| Store.UntagTagged | project2.py:61 | removing `_id` from a stored document gives back the record that was inserted |
| Store.FindMembers | project2.py:73 | `find` returns exactly the stored documents that match the filter |
| Store.FindAppend | project2.py:73 | `find` keeps stored order |
| Store.FindAll | project2.py:66-73 | the empty filter matches every document |
| Store.Store.Fetch | project2.py:63-73 | the candidates are db1's matches followed by db2's |
| Query.SearchParamsMatch | project2.py:66-70 | a document matches exactly when its `Test Owner` equals the stripped `--user` (if given) and its `Build #` equals `fix_date(--date)` (if given) |
| Query.NoFilterFetchesAll | project2.py:66-73 | with neither option, every document of db1 and then db2 is a candidate |
| Query.AttributeTests | project2.py:79-80 | a test passes exactly when the field is present and holds a string starting with `y` or `Y` |
| Query.MissingAttributeFails | project2.py:79-85 | a record without `Repeatable?` (or `Blocker?`) fails that test, because a missing field counts as `""` |
| Query.FilterMembers | project2.py:79-85 | the records that survive are exactly those that pass the requested tests |
| Query.FilterAppend | project2.py:78-85 | filtering keeps order and works segment by segment |
| Query.StripIdSpec | project2.py:87-90 | a kept record has no `_id`, and its key is unchanged |
| Query.KeepFirstSpec | project2.py:87-91 | the kept records cover exactly the keys of the surviving candidates, no two share a key, and none has `_id` |
| Query.KeepFirstPositions | project2.py:87-91 | the kept records are, in order, the surviving candidates at the first occurrence of each key, with `_id` removed: an order-preserving subsequence where first wins |
| Query.KeepFirstAppend | project2.py:87-91 | deduplicating `a + b` extends deduplicating `a` with records whose keys `a` lacks |
| Query.Db1Wins | project2.py:72-91 | the final list starts with db1's deduplicated survivors; every later record has a key that none of db1's survivors has |
| Query.FilteredOutClaimsNothing | project2.py:82-91 | a candidate that is filtered out does not claim its key: the first surviving candidate with that key is kept |
| Query.FilterDedup | project2.py:75-91 | the loop, with its `continue`s and its `unique_set`, computes exactly the filtered, first-wins deduplicated list |
| Query.ConformingPrefix | project2.py:99-101 | the number of leading records whose fields all lie in the header; the next record has a field outside it |
| Query.Export | project2.py:93-104 | no results gives "no results"; otherwise the header is the first record's keys; the export succeeds with count `len(final_results)` exactly when every record's fields lie in the header, and otherwise it is rejected at the first record that has an extra field |
| Query.NatToString | project2.py:102 | `str(n)` of a count: decimal digits, no leading zero, whose value is `n` |
| Query.Summary | project2.py:102-104 | "No results to export." when nothing was kept; `Exported <count> records to output.csv` after a successful export; no line when the writer raised |
| Query.SummaryExported | project2.py:102 | after a successful export the line gives `len(final_results)` in decimal |
| Query.SummaryNoResults | project2.py:96-104 | "No results to export." is printed exactly when nothing was kept |
| Query.ExportHeader | project2.py:96-99 | the header never contains `_id`, and names each field once when records are well formed |
| Script.Run | project2.py:51-104 | one run: the load happens exactly when both `--files` and `--db` are given; the final results are the selection of db1's matches followed by db2's; the export is decided exactly when `--csv` is given |
| Script.FinalResultsAreBuilt | project2.py:51-91 | whenever every document of db1 and db2 is one of the built records under some identity, however and whenever each was loaded, every final record is one of those records |

## Left out

- Command-line parsing (argparse) is not modelled. The parsed options are the `Script.Args` value. An absent `--files` is the empty sequence, since the option takes one or more names.
- The connection to the database server and its closing are not modelled. The store is the `Store` object, a sequence of documents per collection.
- Opening workbooks is not modelled. Each file is a `Sheet` value given as input: the active sheet's header row and its data rows.
- Writing `output.csv` to disk and the `print` are not modelled. The model decides the `Report` value and the summary line.
- Rows written before a `ValueError` are not modelled: a partial file before a rejected row is not represented.
- The identity `insert_one` assigns is modelled as a counter (`ObjId(n)`). The store's natural order of `find` is taken to be insertion order.
- A header cell named `_id` is ruled out by `Ingest.Loadable`, because `insert_one` would keep that value as the document's identity.
- Header cells are modelled as strings. A numeric or empty header cell (`None`) is not modelled.
- Python `int`, `float` and `bool` cells are all `Num(real)`, whose equality matches Python's numeric equality (`1 == 1.0 == True`). Integer width limits of the store are not modelled.
- Microseconds of a `datetime` cell are not modelled. A `DateTime` keeps the date and the time to the second, and `fix_date` uses only the date.
- Dates.Strptime: it accepts ASCII digits only, whereas Python's `\d` also accepts other Unicode decimal digits.
- Dates.Canonical: `%Y` is always written with four digits. Years below 1000 are unpadded on some platforms.
- Query.IsRepeatable: `.lower()` is modelled for ASCII `Y` only. Whether another character lower-cases to `y` is not modelled.
