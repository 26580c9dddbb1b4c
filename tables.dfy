/**
 * Records of an appointments table and the data-frame operations the
 * partitioning script applies to them: `Series.unique`, row filtering on a
 * year, `pd.concat` of a list of frames and `sort_values` on
 * (`posted_date`, `name`).
 */
module Tables {
  import opened Ordering

  /**
   * One row of an input file. `postedDate` and `name` are the two columns
   * the transform reads; every other column travels in `payload`, in
   * column order, untouched. All files are taken to share one column
   * layout without a `year` column.
   */
  datatype Record = Record(postedDate: string, name: string, payload: seq<string>)

  /** The calendar year pandas derives from a `posted_date` value; supplied by the caller. */
  type YearFn = string -> int

  /**
   * The sort key of the flush step: the raw `posted_date` string, then
   * `name`. Records in key order are in `posted_date` order.
   */
  predicate KeyLe(a: Record, b: Record)
    ensures KeyLe(a, b) ==> StrLe(a.postedDate, b.postedDate)
  {
    if a.postedDate != b.postedDate then StrLe(a.postedDate, b.postedDate)
    else StrLe(a.name, b.name)
  }

  lemma KeyLeTotal(a: Record, b: Record)
    ensures KeyLe(a, b) || KeyLe(b, a)
  {
    StrLeTotal(a.postedDate, b.postedDate);
    StrLeTotal(a.name, b.name);
  }

  lemma KeyLeTrans(a: Record, b: Record, c: Record)
    requires KeyLe(a, b) && KeyLe(b, c)
    ensures KeyLe(a, c)
  {
    if a.postedDate != b.postedDate && b.postedDate != c.postedDate {
      StrLeTrans(a.postedDate, b.postedDate, c.postedDate);
      if a.postedDate == c.postedDate {
        StrLeAntisym(a.postedDate, b.postedDate);
      }
    } else if a.postedDate == b.postedDate && b.postedDate == c.postedDate {
      StrLeTrans(a.name, b.name, c.name);
    }
  }

  /** Non-decreasing by (`posted_date`, `name`). */
  ghost predicate Sorted(s: seq<Record>)
  {
    forall i, j :: 0 <= i < j < |s| ==> KeyLe(s[i], s[j])
  }

  /** Every element of `s` is at least `x` in key order. */
  ghost predicate AllAtLeast(x: Record, s: seq<Record>)
  {
    forall j :: 0 <= j < |s| ==> KeyLe(x, s[j])
  }

  /** A record no greater than every element of a sorted sequence can go in front of it. */
  lemma ConsSorted(h: Record, t: seq<Record>)
    requires Sorted(t) && AllAtLeast(h, t)
    ensures Sorted([h] + t)
  {
    var r := [h] + t;
    forall i, j | 0 <= i < j < |r| ensures KeyLe(r[i], r[j]) {
      if i > 0 {
        assert r[i] == t[i - 1] && r[j] == t[j - 1];
      }
    }
  }

  /** Whatever is at least the head of a sorted sequence is at least all of it. */
  lemma BelowHead(x: Record, s: seq<Record>)
    requires Sorted(s) && s != [] && KeyLe(x, s[0])
    ensures AllAtLeast(x, s)
  {
    forall j | 0 <= j < |s| ensures KeyLe(x, s[j]) {
      if j > 0 {
        KeyLeTrans(x, s[0], s[j]);
      }
    }
  }

  /** A lower bound of `u` and of `x` bounds every rearrangement of `u` with `x` added. */
  lemma BoundOfRearranged(h: Record, u: seq<Record>, x: Record, t: seq<Record>)
    requires AllAtLeast(h, u) && KeyLe(h, x)
    requires multiset(t) == multiset(u) + multiset{x}
    ensures AllAtLeast(h, t)
  {
    forall j | 0 <= j < |t| ensures KeyLe(h, t[j]) {
      assert t[j] in multiset(t);
      if t[j] != x {
        assert t[j] in multiset(u);
        var k :| 0 <= k < |u| && u[k] == t[j];
      }
    }
  }

  /** Inserts `x` into the sorted `s` before the first element it does not exceed. */
  function Insert(x: Record, s: seq<Record>): (r: seq<Record>)
    requires Sorted(s)
    ensures Sorted(r)
    ensures multiset(r) == multiset(s) + multiset{x}
  {
    if s == [] then [x]
    else if KeyLe(x, s[0]) then
      BelowHead(x, s);
      ConsSorted(x, s);
      [x] + s
    else
      assert s == [s[0]] + s[1..];
      var t := Insert(x, s[1..]);
      KeyLeTotal(x, s[0]);
      assert AllAtLeast(s[0], s[1..]) by {
        forall j | 0 <= j < |s| - 1 ensures KeyLe(s[0], s[1..][j]) {
          assert s[1..][j] == s[j + 1];
        }
      }
      BoundOfRearranged(s[0], s[1..], x, t);
      ConsSorted(s[0], t);
      [s[0]] + t
  }

  /**
   * Sorting a frame by `posted_date`, then `name`: the same records, rearranged into
   * non-decreasing key order. Which of two records with equal keys comes
   * first is not specified.
   */
  function SortValues(s: seq<Record>): (r: seq<Record>)
    ensures Sorted(r)
    ensures multiset(r) == multiset(s)
  {
    if s == [] then []
    else
      assert s == [s[0]] + s[1..];
      Insert(s[0], SortValues(s[1..]))
  }

  /** The distinct values of a column, each once, in order of first appearance (`UniqueOrder`). */
  function Unique(s: seq<int>): (r: seq<int>)
    ensures forall x :: x in r <==> x in s
    ensures forall i, j :: 0 <= i < j < |r| ==> r[i] != r[j]
  {
    if s == [] then []
    else
      var u := Unique(s[..|s| - 1]);
      assert s == s[..|s| - 1] + [s[|s| - 1]];
      if s[|s| - 1] in u then u else u + [s[|s| - 1]]
  }

  /**
   * `Unique` lists values in order of first appearance: any occurrence of
   * a later value in the column comes after an occurrence of every
   * earlier one.
   */
  lemma {:induction false} UniqueOrder(s: seq<int>)
    ensures forall i, j, k :: 0 <= i < j < |Unique(s)| && 0 <= k < |s| && s[k] == Unique(s)[j] ==> Unique(s)[i] in s[..k]
  {
    if s != [] {
      var front := s[..|s| - 1];
      UniqueOrder(front);
      forall k | 0 <= k < |front| ensures s[..k] == front[..k] && s[k] == front[k] { }
    }
  }

  /** Total number of rows in a list of frames: no frame is longer. */
  function SumLens<T>(chunks: seq<seq<T>>): (r: int)
    ensures r >= 0
    ensures forall i :: 0 <= i < |chunks| ==> |chunks[i]| <= r
  {
    if chunks == [] then 0
    else SumLens(chunks[..|chunks| - 1]) + |chunks[|chunks| - 1]|
  }

  /** A list of frames holds no rows exactly when every frame in it is empty. */
  lemma {:induction false} SumLensZero<T>(chunks: seq<seq<T>>)
    ensures SumLens(chunks) == 0 <==> forall c :: c in chunks ==> c == []
  {
    if chunks != [] {
      var front := chunks[..|chunks| - 1];
      SumLensZero(front);
      assert chunks == front + [chunks[|chunks| - 1]];
      assert forall c :: c in chunks <==> c in front || c == chunks[|chunks| - 1];
      assert chunks[|chunks| - 1] in chunks;
    }
  }

  /** Concatenation of a list of frames: their rows one after another. */
  function Concat<T>(chunks: seq<seq<T>>): (r: seq<T>)
    ensures |r| == SumLens(chunks)
  {
    if chunks == [] then []
    else Concat(chunks[..|chunks| - 1]) + chunks[|chunks| - 1]
  }

  lemma {:induction false} ConcatAppend<T>(a: seq<seq<T>>, b: seq<seq<T>>)
    ensures Concat(a + b) == Concat(a) + Concat(b)
    decreases |b|
  {
    if b == [] {
      assert a + b == a;
    } else {
      var b' := b[..|b| - 1];
      assert (a + b)[..|a + b| - 1] == a + b';
      ConcatAppend(a, b');
    }
  }

  /** Concatenating non-empty frames gives an empty frame only when there are none. */
  lemma ConcatNonEmpty<T>(chunks: seq<seq<T>>)
    requires forall c :: c in chunks ==> c != []
    ensures Concat(chunks) == [] <==> chunks == []
  {
    if chunks != [] {
      assert chunks[|chunks| - 1] in chunks;
    }
  }

  /**
   * The records of `s`, in their order, whose derived year lies in `ys`:
   * a boolean-mask selection on the year column.
   */
  function Keep(s: seq<Record>, ys: set<int>, yearOf: YearFn): (r: seq<Record>)
    ensures |r| <= |s|
    ensures forall x :: x in r ==> x in s && yearOf(x.postedDate) in ys
  {
    if s == [] then []
    else (if yearOf(s[0].postedDate) in ys then [s[0]] else []) + Keep(s[1..], ys, yearOf)
  }

  /** Selecting no year selects nothing. */
  lemma {:induction false} KeepNothing(s: seq<Record>, yearOf: YearFn)
    ensures Keep(s, {}, yearOf) == []
  {
    if s != [] {
      KeepNothing(s[1..], yearOf);
    }
  }

  /** Selection distributes over concatenation and keeps the order of each part. */
  lemma {:induction false} KeepAppend(a: seq<Record>, b: seq<Record>, ys: set<int>, yearOf: YearFn)
    ensures Keep(a + b, ys, yearOf) == Keep(a, ys, yearOf) + Keep(b, ys, yearOf)
  {
    if a == [] {
      assert a + b == b;
    } else {
      assert (a + b)[0] == a[0] && (a + b)[1..] == a[1..] + b;
      KeepAppend(a[1..], b, ys, yearOf);
    }
  }

  /** The selection for one year is empty exactly when no record has that year. */
  lemma {:induction false} KeepNonEmpty(s: seq<Record>, y: int, yearOf: YearFn)
    ensures Keep(s, {y}, yearOf) != [] <==> exists x :: x in s && yearOf(x.postedDate) == y
  {
    if s != [] {
      KeepNonEmpty(s[1..], y, yearOf);
      assert forall x :: x in s <==> x == s[0] || x in s[1..];
    }
  }

  /** Selecting two disjoint year sets at once loses and duplicates nothing. */
  lemma {:induction false} KeepUnion(s: seq<Record>, a: set<int>, b: set<int>, yearOf: YearFn)
    requires a !! b
    ensures multiset(Keep(s, a + b, yearOf)) == multiset(Keep(s, a, yearOf)) + multiset(Keep(s, b, yearOf))
  {
    if s != [] {
      KeepUnion(s[1..], a, b, yearOf);
    }
  }

  /** Two year sets that agree on every record's year select the same records. */
  lemma {:induction false} KeepAgree(s: seq<Record>, a: set<int>, b: set<int>, yearOf: YearFn)
    requires forall x :: x in s ==> (yearOf(x.postedDate) in a <==> yearOf(x.postedDate) in b)
    ensures Keep(s, a, yearOf) == Keep(s, b, yearOf)
  {
    if s != [] {
      assert s[0] in s;
      assert forall x :: x in s[1..] ==> x in s;
      KeepAgree(s[1..], a, b, yearOf);
    }
  }
}
