/**
 * The year-partitioning transform of `process_appointments_data` in
 * precleaning/precleaning.py (line numbers below refer to that file): input
 * files are read in sorted file-name order, each record gets a year from
 * its `posted_date`, the rows of each target year are appended file by file
 * to a per-year list of chunks, and then, year by year in ascending order,
 * the chunks are concatenated and sorted by (`posted_date`, `name`).
 */
module Precleaning {
  import opened Ordering
  import opened Tables

  /** The target years, 2013 to 2024 inclusive (precleaning/precleaning.py line 27). */
  const MIN_YEAR := 2013
  const MAX_YEAR := 2024

  predicate InTarget(y: int)
  {
    MIN_YEAR <= y <= MAX_YEAR
  }

  function TargetYears(): (r: set<int>)
    ensures forall y :: y in r <==> InTarget(y)
  {
    set y | MIN_YEAR <= y <= MAX_YEAR && InTarget(y)
  }

  /** A data-frame row once the year column is added: the record plus the transient year. */
  datatype Row = Row(rec: Record, year: int)

  /** One written output file: the year it is named after and the rows saved to it. */
  datatype YearFile = YearFile(year: int, records: seq<Record>)

  /**
   * A file's frame with the derived year of each row added as a column
   * (line 37): each row's year is that of its own date, and dropping the
   * column again gives back the file.
   */
  function WithYear(f: seq<Record>, yearOf: YearFn): (r: seq<Row>)
    ensures |r| == |f|
    ensures forall i :: 0 <= i < |r| ==> r[i].year == yearOf(r[i].rec.postedDate)
    ensures DropYear(r) == f
  {
    seq(|f|, i requires 0 <= i < |f| => Row(f[i], yearOf(f[i].postedDate)))
  }

  /** The year column of a frame. */
  function YearColumn(df: seq<Row>): seq<int>
  {
    seq(|df|, i requires 0 <= i < |df| => df[i].year)
  }

  /** The rows of a frame whose year column equals `y`, in order (line 43): all of them and no others. */
  function YearRows(df: seq<Row>, y: int): (r: seq<Row>)
    ensures |r| <= |df|
    ensures forall row :: row in r <==> row in df && row.year == y
  {
    if df == [] then []
    else (if df[0].year == y then [df[0]] else []) + YearRows(df[1..], y)
  }

  /** The rows with the year column removed again (line 43): as many rows, each record as it was. */
  function DropYear(rows: seq<Row>): (r: seq<Record>)
    ensures |r| == |rows|
    ensures forall i :: 0 <= i < |rows| ==> r[i] == rows[i].rec
  {
    seq(|rows|, i requires 0 <= i < |rows| => rows[i].rec)
  }

  lemma DropYearAppend(a: seq<Row>, b: seq<Row>)
    ensures DropYear(a + b) == DropYear(a) + DropYear(b)
  {
  }

  /**
   * The chunk taken from one file for year `y` is exactly that file's
   * records of year `y`, in file order and unchanged: adding the year
   * column and dropping it again leaves every record as it was.
   */
  lemma {:induction false} ChunkIsFileRows(f: seq<Record>, y: int, yearOf: YearFn)
    ensures DropYear(YearRows(WithYear(f, yearOf), y)) == Keep(f, {y}, yearOf)
  {
    if f != [] {
      ChunkIsFileRows(f[1..], y, yearOf);
      var df := WithYear(f, yearOf);
      assert df[1..] == WithYear(f[1..], yearOf);
      var head := if df[0].year == y then [df[0]] else [];
      var tail := YearRows(df[1..], y);
      assert YearRows(df, y) == head + tail;
      DropYearAppend(head, tail);
      assert DropYear(head) == if yearOf(f[0].postedDate) in {y} then [f[0]] else [];
    }
  }

  /** The years `unique()` yields for a file are the years of its records. */
  lemma YearColumnYears(f: seq<Record>, y: int, yearOf: YearFn)
    ensures y in YearColumn(WithYear(f, yearOf)) <==> exists x :: x in f && yearOf(x.postedDate) == y
  {
    var col := YearColumn(WithYear(f, yearOf));
    if y in col {
      var i :| 0 <= i < |col| && col[i] == y;
      assert f[i] in f;
    }
    if x :| x in f && yearOf(x.postedDate) == y {
      var i :| 0 <= i < |f| && f[i] == x;
      assert col[i] == y;
    }
  }

  /**
   * What one file contributes to the list for year `y`: its rows of that
   * year, if it has any. At most one chunk, never an empty one, and none
   * exactly when no record of the file has year `y`.
   */
  function FileChunk(f: seq<Record>, y: int, yearOf: YearFn): (r: seq<seq<Record>>)
    ensures |r| <= 1
    ensures forall c :: c in r ==> c != [] && forall x :: x in c ==> x in f && yearOf(x.postedDate) == y
    ensures r == [] <==> forall x :: x in f ==> yearOf(x.postedDate) != y
  {
    var rows := Keep(f, {y}, yearOf);
    KeepNonEmpty(f, y, yearOf);
    if rows == [] then [] else [rows]
  }

  /**
   * `yearly_data[y]` after the files `files` have been processed, in that
   * order: one chunk per file that has records of year `y`. No chunk is
   * empty and every record in a chunk has year `y`.
   */
  function Chunks(files: seq<seq<Record>>, y: int, yearOf: YearFn): (r: seq<seq<Record>>)
    ensures |r| <= |files|
    ensures forall c :: c in r ==> c != [] && forall x :: x in c ==> yearOf(x.postedDate) == y
  {
    if files == [] then []
    else Chunks(files[..|files| - 1], y, yearOf) + FileChunk(files[|files| - 1], y, yearOf)
  }

  /** The whole dictionary `yearly_data` after processing `files`: a key for each target year with a chunk. */
  function Buckets(files: seq<seq<Record>>, yearOf: YearFn): (r: map<int, seq<seq<Record>>>)
    ensures forall y :: y in r ==> InTarget(y) && r[y] != [] && forall c :: c in r[y] ==> c != []
  {
    map y | y in TargetYears() && Chunks(files, y, yearOf) != [] :: Chunks(files, y, yearOf)
  }

  /**
   * Before sorting, a year's combined rows are the input records of that
   * year in processing order: file after file, each file's rows in their
   * own order.
   */
  lemma {:induction false} ChunksConcat(files: seq<seq<Record>>, y: int, yearOf: YearFn)
    ensures Concat(Chunks(files, y, yearOf)) == Keep(Concat(files), {y}, yearOf)
  {
    if files != [] {
      var front, f := files[..|files| - 1], files[|files| - 1];
      ChunksConcat(front, y, yearOf);
      ConcatAppend(Chunks(front, y, yearOf), FileChunk(f, y, yearOf));
      KeepAppend(Concat(front), f, {y}, yearOf);
      if Keep(f, {y}, yearOf) != [] {
        assert Concat([Keep(f, {y}, yearOf)]) == Concat([]) + Keep(f, {y}, yearOf);
      }
    }
  }

  /**
   * The keys of `yearly_data` are exactly the target years that occur
   * among the input records; every other year is dropped.
   */
  lemma BucketKeys(files: seq<seq<Record>>, y: int, yearOf: YearFn)
    ensures y in Buckets(files, yearOf) <==> InTarget(y) && exists x :: x in Concat(files) && yearOf(x.postedDate) == y
  {
    var chunks := Chunks(files, y, yearOf);
    assert y in Buckets(files, yearOf) <==> InTarget(y) && chunks != [];
    ChunksConcat(files, y, yearOf);
    ConcatNonEmpty(chunks);
    KeepNonEmpty(Concat(files), y, yearOf);
  }

  /**
   * Adding one more file turns the dictionary for the earlier files into
   * the dictionary for all of them.
   */
  lemma BucketsStep(files: seq<seq<Record>>, before: map<int, seq<seq<Record>>>,
                    after: map<int, seq<seq<Record>>>, yearOf: YearFn)
    requires files != []
    requires before == Buckets(files[..|files| - 1], yearOf)
    requires forall y :: y in after <==> y in before || (InTarget(y) && Keep(files[|files| - 1], {y}, yearOf) != [])
    requires forall y :: y in after ==>
      after[y] == (if y in before then before[y] else []) + (if InTarget(y) then FileChunk(files[|files| - 1], y, yearOf) else [])
    ensures after == Buckets(files, yearOf)
  {
    var b := Buckets(files, yearOf);
    forall y ensures (y in after <==> y in b) && (y in after ==> after[y] == b[y]) {
      BucketsStepAt(files, before, after, y, yearOf);
    }
    assert after.Keys == b.Keys;
  }

  lemma BucketsStepAt(files: seq<seq<Record>>, before: map<int, seq<seq<Record>>>,
                      after: map<int, seq<seq<Record>>>, y: int, yearOf: YearFn)
    requires files != []
    requires before == Buckets(files[..|files| - 1], yearOf)
    requires y in after <==> y in before || (InTarget(y) && Keep(files[|files| - 1], {y}, yearOf) != [])
    requires y in after ==>
      after[y] == (if y in before then before[y] else []) + (if InTarget(y) then FileChunk(files[|files| - 1], y, yearOf) else [])
    ensures y in after <==> y in Buckets(files, yearOf)
    ensures y in after ==> after[y] == Buckets(files, yearOf)[y]
  {
    var earlier := Chunks(files[..|files| - 1], y, yearOf);
    assert Chunks(files, y, yearOf) == earlier + FileChunk(files[|files| - 1], y, yearOf);
    assert y in before <==> InTarget(y) && earlier != [];
  }

  /**
   * The body of the loop over the files (lines 37-48) for one file `f`:
   * derive the year column, and for each distinct year of the file that is
   * a target year append the file's rows of that year, without the year
   * column, to `yearly_data[year]`, creating the list on first sight. Only
   * target years that occur in `f` gain a chunk, and that chunk is never
   * empty.
   */
  method AddFile(yearlyData: map<int, seq<seq<Record>>>, f: seq<Record>, yearOf: YearFn)
    returns (updated: map<int, seq<seq<Record>>>)
    ensures forall y :: y in updated <==> y in yearlyData || (InTarget(y) && Keep(f, {y}, yearOf) != [])
    ensures forall y :: y in updated ==>
      updated[y] == (if y in yearlyData then yearlyData[y] else []) + (if InTarget(y) then FileChunk(f, y, yearOf) else [])
  {
    updated := yearlyData;
    var df := WithYear(f, yearOf);
    var years := Unique(YearColumn(df));
    for j := 0 to |years|
      invariant updated == AddChunks(yearlyData, f, years[..j], yearOf)
    {
      var year := years[j];
      ghost var before := updated;
      assert years[..j + 1][..j] == years[..j];
      if InTarget(year) {
        var yearData := DropYear(YearRows(df, year));
        ChunkIsFileRows(f, year, yearOf);
        assert yearData == Keep(f, {year}, yearOf);
        if year !in updated {
          updated := updated[year := []];
        }
        updated := updated[year := updated[year] + [yearData]];
        assert updated == before[year := (if year in before then before[year] else []) + [Keep(f, {year}, yearOf)]];
      }
    }
    assert years[..|years|] == years;
    FileUpdate(yearlyData, f, yearOf);
  }

  /** `yearly_data` after appending the rows of `f` for each target year of `ys`, in that order. */
  function AddChunks(m: map<int, seq<seq<Record>>>, f: seq<Record>, ys: seq<int>, yearOf: YearFn): map<int, seq<seq<Record>>>
  {
    if ys == [] then m
    else
      var before := AddChunks(m, f, ys[..|ys| - 1], yearOf);
      var y := ys[|ys| - 1];
      if InTarget(y) then before[y := (if y in before then before[y] else []) + [Keep(f, {y}, yearOf)]]
      else before
  }

  /**
   * Appending for distinct years touches each of them once: a target year
   * of `ys` gains exactly one chunk, every other entry is left as it was.
   */
  lemma {:induction false} AddChunksAt(m: map<int, seq<seq<Record>>>, f: seq<Record>, ys: seq<int>, yearOf: YearFn)
    requires forall i, j :: 0 <= i < j < |ys| ==> ys[i] != ys[j]
    ensures forall y :: y in AddChunks(m, f, ys, yearOf) <==> y in m || (y in ys && InTarget(y))
    ensures forall y :: y in AddChunks(m, f, ys, yearOf) ==>
      AddChunks(m, f, ys, yearOf)[y] == (if y in m then m[y] else []) + (if y in ys && InTarget(y) then [Keep(f, {y}, yearOf)] else [])
  {
    if ys != [] {
      var front, last := ys[..|ys| - 1], ys[|ys| - 1];
      AddChunksAt(m, f, front, yearOf);
      assert ys == front + [last];
      assert last !in front;
    }
  }

  /** The map after the loop over a file's distinct years, stated per year in terms of that file's chunk. */
  lemma FileUpdate(yearlyData: map<int, seq<seq<Record>>>, f: seq<Record>, yearOf: YearFn)
    ensures var updated := AddChunks(yearlyData, f, Unique(YearColumn(WithYear(f, yearOf))), yearOf);
      && (forall y :: y in updated <==> y in yearlyData || (InTarget(y) && Keep(f, {y}, yearOf) != []))
      && (forall y :: y in updated ==>
            updated[y] == (if y in yearlyData then yearlyData[y] else []) + (if InTarget(y) then FileChunk(f, y, yearOf) else []))
  {
    var years := Unique(YearColumn(WithYear(f, yearOf)));
    var updated := AddChunks(yearlyData, f, years, yearOf);
    AddChunksAt(yearlyData, f, years, yearOf);
    FileYears(f, yearOf);
    forall y | y in updated
      ensures updated[y] == (if y in yearlyData then yearlyData[y] else []) + (if InTarget(y) then FileChunk(f, y, yearOf) else [])
    {
      assert FileChunk(f, y, yearOf) == if y in years then [Keep(f, {y}, yearOf)] else [];
    }
  }

  /** The distinct years `unique()` yields for a file are exactly the years with a non-empty selection. */
  lemma FileYears(f: seq<Record>, yearOf: YearFn)
    ensures forall y :: y in Unique(YearColumn(WithYear(f, yearOf))) <==> Keep(f, {y}, yearOf) != []
  {
    forall y ensures y in Unique(YearColumn(WithYear(f, yearOf))) <==> Keep(f, {y}, yearOf) != [] {
      YearColumnYears(f, y, yearOf);
      KeepNonEmpty(f, y, yearOf);
    }
  }

  /**
   * The accumulation loop (lines 26-49): the files are processed in order,
   * starting from an empty `yearly_data`; afterwards it holds, for each
   * target year, one chunk per file with rows of that year.
   */
  method Accumulate(files: seq<seq<Record>>, yearOf: YearFn) returns (yearlyData: map<int, seq<seq<Record>>>)
    ensures yearlyData == Buckets(files, yearOf)
  {
    yearlyData := map[];
    for i := 0 to |files|
      invariant yearlyData == Buckets(files[..i], yearOf)
    {
      var before := yearlyData;
      yearlyData := AddFile(yearlyData, files[i], yearOf);
      assert files[..i + 1][..i] == files[..i];
      BucketsStep(files[..i + 1], before, yearlyData, yearOf);
    }
    assert files[..|files|] == files;
  }

  /** The order in which the years are flushed (line 54). */
  predicate IntLe(a: int, b: int)
  {
    a <= b
  }

  /**
   * The flush loop (lines 54-68): for each key of `yearly_data` in
   * ascending order, concatenate its chunks in append order, sort the
   * result by (`posted_date`, `name`) and save it as that year's file. The
   * count printed for a year (line 68) equals the sum of its chunk lengths
   * (line 74).
   */
  method Flush(yearlyData: map<int, seq<seq<Record>>>) returns (out: seq<YearFile>)
    requires forall y :: y in yearlyData ==> yearlyData[y] != []
    ensures forall k, l :: 0 <= k < l < |out| ==> out[k].year < out[l].year
    ensures HasFileFor(out) == yearlyData.Keys
    ensures forall k :: 0 <= k < |out| ==>
      && out[k].year in yearlyData
      && Sorted(out[k].records)
      && multiset(out[k].records) == multiset(Concat(yearlyData[out[k].year]))
      && |out[k].records| == SumLens(yearlyData[out[k].year])
      && (out[k].records != [] <==> exists c :: c in yearlyData[out[k].year] && c != [])
  {
    assert IsTotalPreorder(IntLe);
    var years := SortedElements(yearlyData.Keys, IntLe);
    out := [];
    for k := 0 to |years|
      invariant |out| == k
      invariant forall l :: 0 <= l < k ==>
        && out[l].year == years[l]
        && Sorted(out[l].records)
        && multiset(out[l].records) == multiset(Concat(yearlyData[out[l].year]))
    {
      var year := years[k];
      var combinedDf := Concat(yearlyData[year]);
      combinedDf := SortValues(combinedDf);
      out := out + [YearFile(year, combinedDf)];
    }
    OutputYears(years, out, yearlyData.Keys);
    forall k | 0 <= k < |out|
      ensures |out[k].records| == SumLens(yearlyData[out[k].year])
      ensures out[k].records != [] <==> exists c :: c in yearlyData[out[k].year] && c != []
    {
      CombinedRows(yearlyData[out[k].year], out[k].records);
    }
  }

  /** Files written for the sorted keys, in that order, are one per key in ascending year order. */
  lemma OutputYears(years: seq<int>, out: seq<YearFile>, keys: set<int>)
    requires |out| == |years|
    requires forall l :: 0 <= l < |out| ==> out[l].year == years[l]
    requires forall y :: y in years <==> y in keys
    requires forall i, j :: 0 <= i < j < |years| ==> IntLe(years[i], years[j]) && years[i] != years[j]
    ensures forall k, l :: 0 <= k < l < |out| ==> out[k].year < out[l].year
    ensures HasFileFor(out) == keys
  {
    forall y ensures y in HasFileFor(out) <==> y in keys {
      if y in keys {
        var l :| 0 <= l < |years| && years[l] == y;
        assert out[l].year == y;
      }
    }
  }

  /** A rearrangement of a year's combined chunks has their summed length, and is empty only when every chunk is. */
  lemma CombinedRows(chunks: seq<seq<Record>>, records: seq<Record>)
    requires multiset(records) == multiset(Concat(chunks))
    ensures |records| == SumLens(chunks)
    ensures records != [] <==> exists c :: c in chunks && c != []
  {
    assert |multiset(records)| == |Concat(chunks)|;
    SumLensZero(chunks);
  }

  /** The rows of every output file, file after file. */
  function RecordsOf(out: seq<YearFile>): seq<seq<Record>>
  {
    seq(|out|, k requires 0 <= k < |out| => out[k].records)
  }

  /** The years for which a file is written. */
  function HasFileFor(out: seq<YearFile>): (r: set<int>)
    ensures forall y :: y in r <==> exists k :: 0 <= k < |out| && out[k].year == y
  {
    set k | 0 <= k < |out| :: out[k].year
  }

  lemma OutputsSnoc(out: seq<YearFile>)
    requires out != []
    ensures Concat(RecordsOf(out)) == Concat(RecordsOf(out[..|out| - 1])) + out[|out| - 1].records
    ensures HasFileFor(out) == HasFileFor(out[..|out| - 1]) + {out[|out| - 1].year}
  {
    assert RecordsOf(out)[..|out| - 1] == RecordsOf(out[..|out| - 1]);
  }

  /**
   * Output files for distinct years, each holding a rearrangement of the
   * input records of its year, together hold every input record whose year
   * has a file, each exactly once.
   */
  lemma {:induction false} PartitionConserves(s: seq<Record>, out: seq<YearFile>, yearOf: YearFn)
    requires forall k, l :: 0 <= k < l < |out| ==> out[k].year != out[l].year
    requires forall k :: 0 <= k < |out| ==> multiset(out[k].records) == multiset(Keep(s, {out[k].year}, yearOf))
    ensures multiset(Concat(RecordsOf(out))) == multiset(Keep(s, HasFileFor(out), yearOf))
  {
    if out == [] {
      assert HasFileFor(out) == {};
      assert RecordsOf(out) == [];
      KeepNothing(s, yearOf);
    } else {
      var front, last := out[..|out| - 1], out[|out| - 1];
      PartitionConserves(s, front, yearOf);
      OutputsSnoc(out);
      KeepUnion(s, HasFileFor(front), {last.year}, yearOf);
    }
  }

  /** The input files as read in the order of `names`. */
  function Files(dir: map<string, seq<Record>>, names: seq<string>): seq<seq<Record>>
    requires forall n :: n in names ==> n in dir
  {
    seq(|names|, i requires 0 <= i < |names| => dir[names[i]])
  }

  /** The input file names, each once, in ascending string order (line 21). */
  method SortedNames(names: set<string>) returns (r: seq<string>)
    ensures forall n :: n in r <==> n in names
    ensures forall i, j :: 0 <= i < j < |r| ==> StrLe(r[i], r[j]) && r[i] != r[j]
  {
    StrLeIsTotalPreorder();
    r := SortedElements(names, StrLe);
  }

  /**
   * `process_appointments_data` without its I/O: `dir` maps each CSV file
   * name of the input directory to its rows. The files are processed in
   * sorted name order (`csvFiles`); the result lists the files written, one
   * per year that has target-year rows, in ascending year order.
   */
  method ProcessAppointments(dir: map<string, seq<Record>>, yearOf: YearFn)
    returns (csvFiles: seq<string>, out: seq<YearFile>)
    ensures forall n :: n in csvFiles <==> n in dir
    ensures forall i, j :: 0 <= i < j < |csvFiles| ==> StrLe(csvFiles[i], csvFiles[j]) && csvFiles[i] != csvFiles[j]
    ensures forall k, l :: 0 <= k < l < |out| ==> out[k].year < out[l].year
    ensures HasFileFor(out) == PresentTargetYears(Concat(Files(dir, csvFiles)), yearOf)
    ensures forall k :: 0 <= k < |out| ==>
      && out[k].records != []
      && Sorted(out[k].records)
      && multiset(out[k].records) == multiset(Keep(Concat(Files(dir, csvFiles)), {out[k].year}, yearOf))
    ensures forall k, x :: 0 <= k < |out| && x in out[k].records ==>
      InTarget(out[k].year) && yearOf(x.postedDate) == out[k].year
    ensures multiset(Concat(RecordsOf(out))) == multiset(Keep(Concat(Files(dir, csvFiles)), TargetYears(), yearOf))
    ensures |Concat(RecordsOf(out))| == |Keep(Concat(Files(dir, csvFiles)), TargetYears(), yearOf)|
  {
    csvFiles := SortedNames(dir.Keys);
    var files := Files(dir, csvFiles);
    var yearlyData := Accumulate(files, yearOf);
    out := Flush(yearlyData);

    FlushedYears(Files(dir, csvFiles), out, yearOf);
    FlushedFiles(Files(dir, csvFiles), out, yearOf);
    FlushedTotal(Concat(Files(dir, csvFiles)), out, yearOf);
  }

  /** The target years that occur among the records of `input`. */
  function PresentTargetYears(input: seq<Record>, yearOf: YearFn): (r: set<int>)
    ensures forall y :: y in r <==> InTarget(y) && exists x :: x in input && yearOf(x.postedDate) == y
  {
    set x | x in input && InTarget(yearOf(x.postedDate)) :: yearOf(x.postedDate)
  }

  /** The years of the written files are the target years that occur in the input. */
  lemma FlushedYears(files: seq<seq<Record>>, out: seq<YearFile>, yearOf: YearFn)
    requires HasFileFor(out) == Buckets(files, yearOf).Keys
    ensures HasFileFor(out) == PresentTargetYears(Concat(files), yearOf)
  {
    forall y ensures y in Buckets(files, yearOf) <==> y in PresentTargetYears(Concat(files), yearOf) {
      BucketKeys(files, y, yearOf);
    }
  }

  /** Each written file holds, rearranged, exactly the input records of its year, and at least one. */
  lemma FlushedFiles(files: seq<seq<Record>>, out: seq<YearFile>, yearOf: YearFn)
    requires forall k :: 0 <= k < |out| ==>
      && out[k].year in Buckets(files, yearOf)
      && multiset(out[k].records) == multiset(Concat(Buckets(files, yearOf)[out[k].year]))
    ensures forall k :: 0 <= k < |out| ==>
      && out[k].records != []
      && multiset(out[k].records) == multiset(Keep(Concat(files), {out[k].year}, yearOf))
    ensures forall k, x :: 0 <= k < |out| && x in out[k].records ==>
      InTarget(out[k].year) && yearOf(x.postedDate) == out[k].year
  {
    forall k | 0 <= k < |out|
      ensures out[k].records != []
      ensures multiset(out[k].records) == multiset(Keep(Concat(files), {out[k].year}, yearOf))
      ensures forall x :: x in out[k].records ==> InTarget(out[k].year) && yearOf(x.postedDate) == out[k].year
    {
      FlushedFile(files, out[k].year, out[k].records, yearOf);
    }
  }

  lemma FlushedFile(files: seq<seq<Record>>, y: int, records: seq<Record>, yearOf: YearFn)
    requires y in Buckets(files, yearOf)
    requires multiset(records) == multiset(Concat(Buckets(files, yearOf)[y]))
    ensures records != []
    ensures multiset(records) == multiset(Keep(Concat(files), {y}, yearOf))
    ensures forall x :: x in records ==> InTarget(y) && yearOf(x.postedDate) == y
  {
    BucketRows(files, y, yearOf);
    assert |multiset(records)| == |Keep(Concat(files), {y}, yearOf)| > 0;
    forall x | x in records ensures yearOf(x.postedDate) == y {
      assert x in multiset(Keep(Concat(files), {y}, yearOf));
    }
  }

  /** The rows a key of `yearly_data` holds, once its chunks are combined: that year's input records, at least one. */
  lemma BucketRows(files: seq<seq<Record>>, y: int, yearOf: YearFn)
    requires y in Buckets(files, yearOf)
    ensures InTarget(y)
    ensures Concat(Buckets(files, yearOf)[y]) == Keep(Concat(files), {y}, yearOf) != []
  {
    var chunks := Chunks(files, y, yearOf);
    assert Buckets(files, yearOf)[y] == chunks && chunks != [];
    ChunksConcat(files, y, yearOf);
    ConcatNonEmpty(chunks);
  }

  /**
   * No loss and no duplication overall: the written files together hold
   * each input record of a target year exactly once.
   */
  lemma FlushedTotal(input: seq<Record>, out: seq<YearFile>, yearOf: YearFn)
    requires forall k, l :: 0 <= k < l < |out| ==> out[k].year < out[l].year
    requires HasFileFor(out) == PresentTargetYears(input, yearOf)
    requires forall k :: 0 <= k < |out| ==> multiset(out[k].records) == multiset(Keep(input, {out[k].year}, yearOf))
    ensures multiset(Concat(RecordsOf(out))) == multiset(Keep(input, TargetYears(), yearOf))
    ensures |Concat(RecordsOf(out))| == |Keep(input, TargetYears(), yearOf)|
  {
    PartitionConserves(input, out, yearOf);
    assert forall x :: x in input ==> (yearOf(x.postedDate) in HasFileFor(out) <==> yearOf(x.postedDate) in TargetYears());
    KeepAgree(input, HasFileFor(out), TargetYears(), yearOf);
    assert |multiset(Concat(RecordsOf(out)))| == |multiset(Keep(input, TargetYears(), yearOf))|;
  }
}
