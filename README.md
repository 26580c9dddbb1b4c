# Appointment records partitioned by year

A Dafny model of the year-partitioning transform in `process_appointments_data`
(precleaning/precleaning.py). The script reads every CSV file of an input
directory in sorted file-name order. It derives a calendar year from each
row's `posted_date`. For every target year (2013 to 2024) that a file
contains, it appends that file's rows of the year to a per-year list of
chunks. Finally, for each year in ascending order, it concatenates the year's
chunks, sorts them by (`posted_date`, `name`) and writes one output file.

The model has three modules:

- `Ordering` (ordering.dfy): Python's `<=` on strings (`StrLe`, compared code point by
  code point) and `sorted()` over a set of distinct elements (`SortedElements`).
- `Tables` (tables.dfy): the `Record` type and the data-frame operations the script
  uses. These are distinct values of a column (`Unique`), selecting rows by year
  (`Keep`), concatenating frames (`Concat`) and sorting by
  (`posted_date`, `name`) (`SortValues`).
- `Precleaning` (precleaning.dfy): the script itself. `AddFile` is the inner loop over
  one file's distinct years and `Accumulate` the loop over the files; both are
  built on a local `map<int, seq<seq<Record>>>`. `Flush` is the loop over the sorted years,
  and `ProcessAppointments` runs the whole transform. `Buckets` and `Chunks`
  describe declaratively what the dictionary `yearly_data` holds. The lemmas
  prove what that content means.

Inputs and outputs are values. The input directory is a map from file name
to that file's rows. The result is the sorted list of file names and a
sequence of `YearFile(year, records)` values, one per file written. The date
parser `pd.to_datetime(...).dt.year` is a foreign library call, so it is a
parameter `yearOf: string -> int`.

Three points about what the script actually does:

- The code sorts on the raw `posted_date` column, not on the parsed date,
  so the model compares `posted_date` as strings.
- The code does not ask for a stable sort. The model promises a sorted
  permutation and nothing about the order of ties.
- The code fixes the year range at 2013 to 2024 (`range(2013, 2025)`). The
  range is not configurable, so it is modelled as two constants.

## Model

| member | source | states |
|---|---|---|
| Ordering.SortedElements | precleaning/precleaning.py:21 | the result has exactly the elements of the set, each once, in strictly ascending order of the given total order (the Python `sorted()` used on the file names and on the year keys) |
| Ordering.StrLe | precleaning/precleaning.py:21 | Python's `<=` on strings, by which the file names are sorted and `posted_date` and `name` are compared (line 59); a prefix sorts before any extension of it |
| Ordering.StrLeLexicographic | precleaning/precleaning.py:21 | `StrLe` is the lexicographic order: the first string is a prefix of the second, or it has the smaller code point at the first position where they differ |
| Ordering.StrLeIsTotalPreorder | precleaning/precleaning.py:21 | Python string comparison, by which the file names are sorted, is total and transitive |
| Tables.Keep | precleaning/precleaning.py:43 | the boolean-mask selection of the rows whose year is selected: no longer than the frame, and every kept row is a row of the frame with a selected year |
| Tables.KeepAppend | precleaning/precleaning.py:43 | selecting the rows of some years from two frames placed one after the other gives the selection from the first frame followed by the selection from the second |
| Tables.KeepNonEmpty | precleaning/precleaning.py:40-43 | selecting the rows of one year gives a non-empty frame exactly when some row has that year |
| Tables.KeepUnion | precleaning/precleaning.py:40-43 | selecting two disjoint sets of years at once gives, as a multiset, the two selections added together: nothing is lost and nothing is doubled |
| Tables.KeepAgree | precleaning/precleaning.py:27-42 | two year sets that classify every row's year the same way select the same rows |
| Tables.Unique | precleaning/precleaning.py:40 | the distinct years of a column: every value of the column appears once, and nothing else appears |
| Tables.UniqueOrder | precleaning/precleaning.py:40 | `unique()` lists the years in order of first appearance: wherever a later-listed year occurs in the column, every earlier-listed year has already occurred |
| Tables.SumLens | precleaning/precleaning.py:74 | the summed row count of a year's chunks is never negative and at least the length of each chunk |
| Tables.SumLensZero | precleaning/precleaning.py:56-74 | the summed row count is zero exactly when every chunk is empty |
| Tables.Concat | precleaning/precleaning.py:56 | concatenating a year's chunks gives as many rows as the summed chunk lengths, so the count printed at line 74 equals the count printed at line 68 |
| Tables.ConcatAppend | precleaning/precleaning.py:48 | concatenating a list of frames extended by more frames gives the old concatenation followed by the new frames' rows |
| Tables.Insert | precleaning/precleaning.py:59 | inserting a record into a frame sorted by (posted_date, name) keeps the frame sorted and adds exactly that record |
| Tables.SortValues | precleaning/precleaning.py:59 | the sorted frame is non-decreasing by (posted_date, name) and is a permutation of its input |
| Tables.KeyLe | precleaning/precleaning.py:59 | the (posted_date, name) key comparison; records in key order are in `posted_date` order |
| Tables.KeyLeTrans | precleaning/precleaning.py:59 | the (posted_date, name) key comparison is transitive |
| Precleaning.TargetYears | precleaning/precleaning.py:27 | the target years are exactly the years satisfying `InTarget`, 2013 to 2024 inclusive (`range(2013, 2025)`) |
| Precleaning.WithYear | precleaning/precleaning.py:37 | adding the year column keeps every row, gives each row the year of its own `posted_date`, and dropping the column again gives back the file |
| Precleaning.YearRows | precleaning/precleaning.py:43 | the mask `df['year'] == year` keeps exactly the rows whose year column is that year, and no others |
| Precleaning.DropYear | precleaning/precleaning.py:43 | `.drop('year', axis=1)` keeps every row and leaves each record as it was before the column was added |
| Precleaning.ChunkIsFileRows | precleaning/precleaning.py:37-43 | adding the year column, keeping the rows of a year and dropping the column again gives exactly the file's records of that year, unchanged and in file order |
| Precleaning.YearColumnYears | precleaning/precleaning.py:37-40 | a year occurs in a file's year column exactly when a record of the file has that year |
| Precleaning.FileChunk | precleaning/precleaning.py:40-48 | one file adds at most one chunk to a year's list; it is never empty, holds only that file's records of the year, and is missing exactly when no record of the file has the year |
| Precleaning.Chunks | precleaning/precleaning.py:40-48 | a year's list holds at most one chunk per file; no chunk is empty, and every record in a chunk has that year |
| Precleaning.ChunksConcat | precleaning/precleaning.py:21-56 | before the sort, a year's combined rows are all input records of that year in processing order: file after file, each file's rows in their own order |
| Precleaning.Buckets | precleaning/precleaning.py:26-48 | every key of `yearly_data` is a target year whose list, like each chunk in it, is non-empty |
| Precleaning.BucketKeys | precleaning/precleaning.py:27-46 | a year is a key of `yearly_data` exactly when it is a target year and some input record has it; other years are dropped |
| Precleaning.BucketsStep | precleaning/precleaning.py:30-48 | processing one more file turns the dictionary for the earlier files into the dictionary for all of them |
| Precleaning.AddChunksAt | precleaning/precleaning.py:40-48 | appending for a file's distinct years gives each target year among them exactly one new chunk and leaves every other entry of the dictionary as it was |
| Precleaning.AddFile | precleaning/precleaning.py:37-48 | after one file, exactly the target years occurring in it have gained a key or a chunk, each gaining that file's non-empty rows of the year; all other entries are unchanged |
| Precleaning.Accumulate | precleaning/precleaning.py:26-49 | the dictionary built by the nested loops equals `Buckets`: for each target year that occurs, the non-empty chunks of the files that have it, in file order |
| Precleaning.Flush | precleaning/precleaning.py:54-68 | for a dictionary whose every list is non-empty (`pd.concat` of an empty list raises): one output per key, in strictly ascending year order; each output is sorted and is a permutation of the concatenated chunks, with as many rows as the chunk lengths add up to, and is non-empty exactly when some chunk is |
| Precleaning.SortedNames | precleaning/precleaning.py:21 | the input file names, each once, in strictly ascending string order |
| Precleaning.PartitionConserves | precleaning/precleaning.py:49-68 | output files for distinct years, each a rearrangement of its year's input records, together hold each input record of those years exactly once |
| Precleaning.FlushedYears | precleaning/precleaning.py:27-65 | the years that get an output file are exactly the target years occurring in the input |
| Precleaning.FlushedFile | precleaning/precleaning.py:43-59 | a written file is non-empty, every record in it has the file's year, and it is a rearrangement of exactly the input records of that year |
| Precleaning.FlushedTotal | precleaning/precleaning.py:68-74 | the written files together hold each input record of a target year exactly once, so their row count equals the number of such input records |
| Precleaning.ProcessAppointments | precleaning/precleaning.py:5-75 | files are processed in sorted name order; one output per target year present, in ascending order; each output is non-empty, holds only records of its year, is sorted by (posted_date, name) and is a permutation of the input records of that year; all outputs together are exactly the input records of target years |

## Left out

- Directory creation, globbing, `pd.read_csv` and `to_csv` (lines 18, 21, 34, 66) are file I/O. The input directory is a map from CSV file name to rows, and the output is a sequence of (year, rows) values.
- The output file name `appointments_{year}.csv` (line 65) is string formatting for I/O. The model states only that one file is written per key.
- `pd.to_datetime` (line 37) is a foreign library call and is the parameter `yearOf`. Unparseable dates and NaT, which make line 37 or `int(year)` at line 41 raise, are not modelled.
- Tables.SortValues: it does not promise any order among records with equal (`posted_date`, `name`), because `sort_values` makes no such promise.
- Missing values in `posted_date` or `name`, and where `sort_values` puts them, are not modelled: both are plain strings here.
- CSV type inference, the absence of a required `posted_date` or `name` column and `reset_index` (line 62) are pandas internals with no logic of their own.
- Column names are not modelled. The other columns of a record are one positional `payload`, so the model assumes every input file has the same columns in the same order and no column named `year`. Two behaviours of the script fall outside it. An input column already named `year` is overwritten at line 37 and dropped at line 43, so its data never reaches the output. `pd.concat` at line 56 aligns columns by name across files, takes their union and fills the gaps with NaN.
- The progress `print` calls (lines 23, 31, 49, 52, 68, 71-75) are left out. The counts they print appear only as the row-count properties of `Flush` and `ProcessAppointments`.
