# Table transforms of the SEA health-data cleaner

The program turns country-level health and climate CSV extracts into clean tables
for South-East Asian countries. Its logic lives in the `RecordFilter` implementation for
`Vec<StringRecord>` in `src/filters.rs`: seven operators that each take a table (a
sequence of records, each a sequence of string fields) and return a new one. This
project models those operators in Dafny and proves what they do.

| file | module | models |
|---|---|---|
| `tables.dfy` | `Tables` | rows, tables, ranges, `Option`/`Result` |
| `text.dfy` | `Text` | `str::trim`, ASCII `to_uppercase`, `Ord for str`, `i32::to_string` |
| `rename.dfy` | `Rename` | `rename_country`: the alias table, the field loop with its labelled `break`, the sort |
| `sort.dfy` | `StableSort` | the stable `sort_by` on one field: an in-place insertion sort on an `array`, a reference sort, and uniqueness of stable sorts |
| `tooltip.dfy` | `Tooltip` | the tooltip regex `([-.\d]+)\s*\[([-.\d]+)\s*-([-.\d]+)]`, searched leftmost-first, as a hand-written matcher |
| `split.dfy` | `Split` | `split_tool_tip` |
| `columns.dfy` | `Columns` | `keep_values`, `remove`, `select_ranges`, `transpose_years` |
| `csv.dfy` | `Csv` | `to_csv` through a writer object, the record format, and a reader for the round trip |
| `pipeline.dfy` | `Pipeline` | the job chain of `src/main.rs`, used as data for composition lemmas |

Panics become preconditions or error values, as they arise in the code:

- `rename_country` unwraps field `index` only inside the sort comparator. So every row
  must have the field only once the table has two rows (`StableSort.Keyed`). A row
  without the field is copied unchanged by the map stage.
- `keep_values` reads `r[index]` only inside `any` over the allowed values. An empty
  list of values therefore needs no field at all.
- `split_tool_tip` stops at the first row it cannot split. The model returns that row's
  position and one of three reasons. `EmptyRow`: `fields.len() - 1` is evaluated even
  when an index is given, and an empty row fails in any case. `IndexOutOfRange`:
  `split_at`/`fields[t]` fails. `NoTooltip`: the `captures(..).unwrap()` fails.
- `remove`, `select_ranges` and `transpose_years` require the field or range they index.
  `transpose_years` with no year pairs indexes nothing.
- `to_csv`: `csv::Writer` is not flexible. A record whose field count differs from the
  first record's (the header when there is one) makes it fail. `ToCsv` returns that
  error.

The regex is matched by hand. At a start position the value group is the maximal run
of `-`, `.` and digit characters. The low group first takes its whole run, which then
needs whitespace and a `-` after it. Otherwise it backs off to the last `-` inside the
run. So `"-1.5 [-2.0--1.0]"` yields low `"-2.0-"` and high `"1.0"`
(`Tooltip.ParseNegativeHigh`). The model keeps this behaviour.

The matcher is checked against a declarative statement of the pattern. `Tooltip.PatternAt`
says that the concatenation value, whitespace, `[`, low, whitespace, `-`, high, `]` stands
at a position. `Tooltip.MatchAtPattern` and `Tooltip.PatternMatchAt` prove that the matcher
finds such a match wherever one stands, and only there. `Tooltip.ParseSpec` proves that
`Parse` returns the leftmost match, taking the longest low group there.

The alias table has no spelling `"Laos"`. So a row named `"Laos"` keeps its name, and the
jobs' `keep_values` then drops it (`Pipeline.LaosDropped`). `sort_by` is stable, and the
model proves the stable order: rows with equal keys keep their input order.

## Model

| member | source | states |
|---|---|---|
| `Rename.FirstGroup` | src/filters.rs:42-50 | the found group contains the key, no earlier group does, and None means no group does |
| `Rename.Canonical` | src/filters.rs:41-51 | the field becomes the name of the first alias group holding its trimmed upper-cased text, and a field in no group is kept verbatim |
| `Rename.RenameRow` | src/filters.rs:35-54 | the new record has the same field count, every field other than `index` is copied, and field `index` becomes the name of the first alias group holding its trimmed upper-cased value, or stays verbatim |
| `Rename.RenameAll` | src/filters.rs:32-56 | the map stage yields one renamed row per input row, in input order |
| `Rename.RenameCountry` | src/filters.rs:24-58 | the output has the input's length, is sorted by field `index`, is a permutation of the renamed rows, and keeps equal keys in input order (stable) |
| `Rename.RenameAndSort` | src/filters.rs:32-57 | the same, for any alias table |
| `Rename.AliasesNamesFixed` | src/filters.rs:25-31 | each canonical name is found first in its own group |
| `Rename.CanonicalIdempotent` | src/filters.rs:41-51 | renaming a renamed field changes nothing |
| `Rename.RenamedRowIdempotent` | src/filters.rs:37-53 | renaming a renamed row changes nothing |
| `Rename.RenamedTableIdempotent` | src/filters.rs:32-57 | for an alias table whose names are fixed, renaming and sorting twice equals doing it once |
| `Rename.RenameCountryIdempotent` | src/filters.rs:24-58 | `rename_country` applied twice equals applied once |
| `StableSort.InsertionSort` | src/filters.rs:57 | the reference sort keeps the length and the multiset of rows |
| `StableSort.InsertionSortSorted` | src/filters.rs:57 | the reference sort orders rows by field `index` |
| `StableSort.InsertionSortGroups` | src/filters.rs:57 | the reference sort is stable: the rows of each key keep their order |
| `StableSort.SortedUnique` | src/filters.rs:57 | two sorted tables with the same key groups are equal, so every stable sort gives one result |
| `StableSort.SortOfSorted` | src/filters.rs:57 | sorting a sorted table leaves it unchanged |
| `StableSort.SortedPairwise` | src/filters.rs:57 | in a sorted table each key is at most every later key |
| `StableSort.SortByKey` | src/filters.rs:57 | the in-place sort leaves the array equal to the reference sort of its old contents |
| `StableSort.SinkDown` | src/filters.rs:57 | one insertion pass extends the sorted prefix and keeps every key group; row `i` moves to a place `j` after every row with a key no larger, the rows it passed (all with larger keys) move one place right, and the rows before `j` and after `i` stay where they were |
| `Text.Trim` | src/filters.rs:43 | the trimmed text is no longer than the input and has no whitespace at either end |
| `Text.Upper` | src/filters.rs:43-45 | upper-casing keeps the length, leaves no ASCII lower-case letter, and keeps every other character |
| `Text.LessEq` | src/filters.rs:57 | a string orders before every string it is a prefix of |
| `Text.IntToString` | src/filters.rs:149 | a year label is non-empty and starts with `-` exactly when the year is negative |
| `Text.TrimIdempotent` | src/filters.rs:88 | trimming twice is trimming once |
| `Text.TrimStartSpec` | src/filters.rs:43 | `trim_start` cuts only leading whitespace and stops at a non-whitespace character |
| `Text.TrimEndSpec` | src/filters.rs:43 | `trim_end` cuts only trailing whitespace and stops at a non-whitespace character |
| `Text.LessEqTotal` | src/filters.rs:57 | string order is total |
| `Text.LessEqTransitive` | src/filters.rs:57 | string order is transitive |
| `Text.LessEqAntisymmetric` | src/filters.rs:57 | string order is antisymmetric |
| `Text.IntToStringRoundTrip` | src/filters.rs:149 | the year label reads back as the year |
| `Text.IntToStringInjective` | src/filters.rs:149 | distinct years get distinct labels |
| `Tooltip.RunEndSpec` | src/filters.rs:7 | a number token is the maximal run of `-`, `.` and digit characters |
| `Tooltip.LastDashSpec` | src/filters.rs:7 | backing off picks the last `-` of the run, and fails only when there is none |
| `Tooltip.MatchAt` | src/filters.rs:7 | a match at a position has three non-empty groups |
| `Tooltip.MatchBounds` | src/filters.rs:7 | the low and high groups read after `[` are both non-empty |
| `Tooltip.MatchAtValue` | src/filters.rs:7 | the value group is the non-empty run of number characters where the match starts |
| `Tooltip.MatchAtBounds` | src/filters.rs:7 | the low and high groups are non-empty runs of number characters |
| `Tooltip.Search` | src/filters.rs:71-72 | the search returns a start at or after its origin and the match at that start, no match starts before it, and it fails only when no position matches |
| `Tooltip.ParseSound` | src/filters.rs:71-73 | parsing fails exactly when no position of the trimmed field matches, and on success the three captures are non-empty number tokens |
| `Tooltip.Parse` | src/filters.rs:71-73 | a parsed tooltip has three non-empty captures |
| `Tooltip.MatchAtPattern` | src/filters.rs:7 | soundness: what the matcher returns at a position is the pattern standing there |
| `Tooltip.PatternMatchAt` | src/filters.rs:7 | completeness: wherever the pattern stands, the matcher succeeds there, with the same value group and a low group at least as long |
| `Tooltip.PatternUnique` | src/filters.rs:7 | two matches at one position with low groups of one length are the same |
| `Tooltip.LeftmostFirstUnique` | src/filters.rs:71-72 | there is at most one leftmost-first match |
| `Tooltip.ParseSpec` | src/filters.rs:71-73 | parsing fails exactly when the pattern stands nowhere in the trimmed field, and otherwise returns its leftmost-first match |
| `Tooltip.ParseNeedsBracket` | src/filters.rs:7 | a field without `[` is no tooltip |
| `Tooltip.ParseRender` | src/filters.rs:7 | `value ws[low-high]` parses back to its three parts when `high` has no `-` |
| `Tooltip.ParseRenderSpaced` | src/filters.rs:7 | `value ws[low ws-high]` parses back to its three parts for any tokens |
| `Tooltip.ParseExample` | src/filters.rs:7 | `"12.3 [10.1-14.5]"` captures `"12.3"`, `"10.1"`, `"14.5"` |
| `Tooltip.ParseNegativeHigh` | src/filters.rs:7 | `"-1.5 [-2.0--1.0]"` captures low `"-2.0-"` and high `"1.0"` |
| `Tooltip.ParseNegativeHighSpaced` | src/filters.rs:7 | `"-1.5 [-2.0 --1.0]"` captures low `"-2.0"` and high `"-1.0"` |
| `Split.SplitRow` | src/filters.rs:64-80 | a split row has two more fields than the input row |
| `Split.FirstFailure` | src/filters.rs:63-81 | the reported row fails, every earlier row splits, and None means every row splits |
| `Split.SplitRecord` | src/filters.rs:64-80 | the loop body yields the split row or the reason it panics |
| `Split.Splice` | src/filters.rs:67-79 | the new record is the fields before the tooltip, the three captures, then the fields after it |
| `Split.SplitToolTip` | src/filters.rs:61-83 | the loop yields every row split in order, or stops at the first row that cannot be split |
| `Split.SplitRowShape` | src/filters.rs:64-80 | a row splits iff it is non-empty, the index is in range and the trimmed field matches; then the fields before and after are kept and the captures fill positions t, t+1 and t+2 |
| `Split.SplitTable` | src/filters.rs:61-83 | the table splits iff every row does; then the row count and order are kept and every row gains two fields; otherwise the error names the first failing row |
| `Split.SplitRendered` | src/filters.rs:64-80 | a row holding a rendered tooltip at the index, or at the end when no index is given, splits into the row with its three parts |
| `Split.SplitExample` | src/filters.rs:66-79 | `["X", "12.3 [10.1-14.5]"]` splits into `["X", "12.3", "10.1", "14.5"]` |
| `Split.SplitEmptyRow` | src/filters.rs:66 | an empty row fails whether or not an index is given |
| `Columns.KeepValues` | src/filters.rs:85-92 | the output is no longer than the input |
| `Columns.KeepValuesMembers` | src/filters.rs:85-92 | a row is kept iff it is in the input and some allowed value, trimmed, equals its trimmed field |
| `Columns.KeepValuesAppend` | src/filters.rs:86-90 | filtering a concatenation concatenates the filtered parts, so kept rows keep their order |
| `Columns.KeepValuesIdempotent` | src/filters.rs:85-92 | filtering twice is filtering once |
| `Columns.KeepNothing` | src/filters.rs:88 | with no allowed values nothing is kept |
| `Columns.KeepsTrimmed` | src/filters.rs:88 | whitespace around the field does not change the decision |
| `Columns.RemoveField` | src/filters.rs:98-99 | the row loses one field; earlier fields stay and later ones shift left |
| `Columns.RemoveFieldInverse` | src/filters.rs:98-99 | putting the removed field back restores the row |
| `Columns.Remove` | src/filters.rs:94-106 | the row count is kept and every row is its input row without field `index` |
| `Columns.Selected` | src/filters.rs:112-116 | the selected row has the total width of the ranges |
| `Columns.SelectRow` | src/filters.rs:111-118 | the extend loop builds the concatenation of the slices in range order |
| `Columns.SelectedAppend` | src/filters.rs:114-116 | selecting with two range lists in turn is selecting with their concatenation |
| `Columns.SelectedOne` | src/filters.rs:115 | one range selects its slice |
| `Columns.SelectRanges` | src/filters.rs:108-121 | the row count is kept and every row has the sum of the range lengths as its field count |
| `Columns.YearRow` | src/filters.rs:147-150 | a long row has the base width plus two fields |
| `Columns.TransposedRow` | src/filters.rs:144-153 | one input row yields one row per year pair |
| `Columns.TransposeRow` | src/filters.rs:143-154 | the push loop yields the rows for the year pairs in order |
| `Columns.TransposedRowAt` | src/filters.rs:146-152 | the j-th row of one input row is its base fields, year j's label and year j's value field |
| `Columns.Transposed` | src/filters.rs:141-155 | every output row holds the base fields, the year label and the value: two more fields than the base range |
| `Columns.TransposedLength` | src/filters.rs:136-157 | N input rows and K year pairs give N×K rows |
| `Columns.TransposedAppend` | src/filters.rs:141-155 | transposing a concatenation concatenates the transposed parts |
| `Columns.TransposedAt` | src/filters.rs:141-155 | output row i·K+j is input row i read at year pair j, so rows are grouped by input row |
| `Csv.EncodeRecord` | src/filters.rs:127-130 | every written record is non-empty text ending in the terminator |
| `Csv.FirstUnequal` | src/filters.rs:129-131 | the reported record's width differs from the first record's, and all records between agree |
| `Csv.CsvWriter.constructor` | src/filters.rs:125 | a new writer has written nothing and expects no width yet |
| `Csv.CsvWriter.WriteRecord` | src/filters.rs:127-130 | a record with the expected width is appended with its terminator; otherwise the writer refuses it with the record's position and both widths (the crate has by then written the fields, a difference `to_csv` cannot show, as it drops the buffer on error) |
| `Csv.ToCsv` | src/filters.rs:123-134 | the text is the header, if given, then every row, or the error of the first record of a different width |
| `Csv.WriteAll` | src/filters.rs:127-131 | writing succeeds iff every record has the first record's width, and then yields every record's text; the error names a later record and both widths |
| `Csv.EncodeRecords` | src/filters.rs:126-131 | the text of the records is the header record, when there is one, then the rows' records |
| `Csv.CsvText` | src/filters.rs:123-134 | the text starts with the header record iff `headers` is non-empty, then has one record per row in table order |
| `Csv.ReadFieldEncoded` | src/filters.rs:127-130 | reading a written field gives it back |
| `Csv.ReadRecordEncoded` | src/filters.rs:127-130 | reading a written non-empty record gives it back |
| `Csv.ReadAllEncoded` | src/filters.rs:129-131 | reading written non-empty records gives them back in order |
| `Csv.CsvRoundTrip` | src/filters.rs:123-134 | the text of `to_csv` reads back as the header, if given, followed by the rows |
| `Pipeline.WideRowSelected` | src/main.rs:124 | `select_ranges([0..4, 54..62])` turns a row of 62 or more fields into its first four fields and fields 54–61: twelve fields |
| `Pipeline.SelectedRowFits` | src/main.rs:120-125 | every year pair `(4..).zip(2010..=2017)` indexes a field of a selected row |
| `Pipeline.WideTableFits` | src/main.rs:120-125 | after `select_ranges`, `transpose_years(0..4, years)` cannot panic on any row |
| `Pipeline.WideToLong` | src/main.rs:120-126 | N wide rows give 8·N long rows, and row 8i+j holds row i's first four fields, the label of 2010+j and field 54+j |
| `Pipeline.LaoAliasKept` | src/main.rs:53-65 | `"Lao People's Democratic Republic"` is renamed `"Lao PDR"`, which the jobs keep |
| `Pipeline.LaosNotRenamed` | src/filters.rs:25-31 | `"Laos"` is not in the alias table and is left as it is |
| `Pipeline.LaosDropped` | src/main.rs:53-65 | a row named `"Laos"` is dropped by the jobs' filter |

## Left out

- `src/main.rs` is plumbing and is not modelled. `extract_records` reads files through `csv::Reader` and drops malformed rows. `std::fs::write` writes the output. The job list is fixed. Its constants (`SEA_COUNTRIES`, the ranges, the year pairs) are used only as data for the `Pipeline` lemmas.
- The byte format of `csv::Writer` is a library outside this model. `Csv` writes fields in the style of section 2 of RFC 4180: quoting on `,`, `"`, CR and LF, doubled quotes, `"\n"` terminators, and `""` for a record that would be an empty line. It is not claimed to match the crate byte for byte.
- `String::from_utf8` cannot fail on text built from Rust strings. Strings are modelled as `seq<char>`, so no encoding step is modelled.
- The lazily built static `Regex` and the general regex engine are replaced by the hand-written matcher in `Tooltip`. `\d` is read as the ASCII digits, although the `regex` crate also accepts other Unicode decimal digits.
- `to_uppercase` is modelled on ASCII letters only. Full Unicode case mapping, which can change string length, is not modelled. `trim` uses the Unicode White_Space set.
- The `anyhow` error type and `?`: panics are preconditions or `Result` values, as listed above. The text of error messages is not modelled.
- The sort algorithm of `slice::sort_by` is replaced by an insertion sort. `StableSort.SortedUnique` shows that every stable sort gives the same table, so the result is the same.
- Years are `i32` in the source and `int` here. The year pairs in the jobs are 2010 to 2017, so no overflow arises.
- `StringRecord` internals (byte buffer, field bounds, `extend`/`push_field` allocation) are modelled as sequence appends.
- Csv.CsvRoundTrip: requires every row to be non-empty, because an empty record is written as `""`, which reads back as one empty field.
- Tooltip.ParseRender: requires a high bound without `-`, because the regex then splits the low bound at the high bound's sign (`Tooltip.ParseNegativeHigh`).
- Csv.CsvWriter.WriteRecord: checks the field count before it writes, and leaves the output as it was on a refusal. The crate writes the fields first and checks the count when it writes the terminator, so its buffer then holds a partial record. `to_csv` returns the error and drops the buffer, so its result is the same either way.
