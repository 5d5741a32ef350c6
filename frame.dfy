/** The in-memory table that both scripts work on: an ordered list of column names, a
    type tag per column and a sequence of rows, each a map from column name to a cell. */
module Frame {

  datatype Option<T> = None | Some(value: T)

  /** Columns of the cylinder-band dataset that the scripts name. */
  const TimestampColumn := "timestamp"
  const CustomerColumn := "customer"

  datatype CalendarDate = CalendarDate(year: int, month: int, day: int)

  /** A cell. Numbers are exact reals (float64 rounding is not modelled). */
  datatype Cell = Missing | Str(s: string) | Num(x: real) | Bool(b: bool) | Date(date: CalendarDate)

  /** The column types the scripts distinguish: 'object', 'int64', 'float64', numpy 'bool'
      (what pd.read_csv makes of a column of True/False with no empty cell), the nullable
      'Int64' and 'boolean' extension types, and datetime64. */
  datatype ColType = Text | Integer | Float | Boolean | NullableInteger | NullableBoolean | DateTime

  type Row = map<string, Cell>

  datatype Table = Table(columns: seq<string>, types: map<string, ColType>, rows: seq<Row>)

  predicate Distinct<T(==)>(s: seq<T>) {
    forall i, j | 0 <= i < j < |s| :: s[i] != s[j]
  }

  function Names(cols: seq<string>): set<string> {
    set c | c in cols
  }

  /** A well-formed table: column names are unique, every column has a type and every row
      has exactly the table's columns. */
  predicate Valid(t: Table) {
    && Distinct(t.columns)
    && t.types.Keys == Names(t.columns)
    && forall r | r in t.rows :: r.Keys == Names(t.columns)
  }

  /** The cell of row r in column c (Missing when the row has no such column). */
  function At(r: Row, c: string): Cell {
    if c in r then r[c] else Missing
  }

  function ColumnOf(t: Table, c: string): seq<Cell> {
    seq(|t.rows|, i requires 0 <= i < |t.rows| => At(t.rows[i], c))
  }

  /** Keeps the elements satisfying p, in their order. */
  function Filter<T>(s: seq<T>, p: T -> bool): (r: seq<T>)
    ensures |r| <= |s|
    ensures forall i | 0 <= i < |r| :: r[i] in s && p(r[i])
    ensures forall i | 0 <= i < |s| && p(s[i]) :: s[i] in r
  {
    if s == [] then [] else (if p(s[0]) then [s[0]] else []) + Filter(s[1..], p)
  }

  /** Filtering a sequence extended by one element: what a loop that appends does. */
  lemma {:induction false} FilterSnoc<T>(s: seq<T>, x: T, p: T -> bool)
    ensures Filter(s + [x], p) == Filter(s, p) + (if p(x) then [x] else [])
  {
    if s == [] {
      assert s + [x] == [x];
    } else {
      assert (s + [x])[1..] == s[1..] + [x];
      FilterSnoc(s[1..], x, p);
    }
  }

  /** a is obtained from b by deleting elements, without reordering. */
  predicate IsSubsequence<T(==)>(a: seq<T>, b: seq<T>)
    decreases |b|
  {
    if a == [] then true
    else if b == [] then false
    else if a[0] == b[0] then IsSubsequence(a[1..], b[1..])
    else IsSubsequence(a, b[1..])
  }

  lemma {:induction false} FilterIsSubsequence<T>(s: seq<T>, p: T -> bool)
    ensures IsSubsequence(Filter(s, p), s)
  {
    if s != [] {
      FilterIsSubsequence(s[1..], p);
      var r := Filter(s, p);
      if p(s[0]) {
        assert r == [s[0]] + Filter(s[1..], p);
        assert r[1..] == Filter(s[1..], p);
      } else {
        assert r == Filter(s[1..], p);
        assert r == [] || r[0] != s[0] by {
          if r != [] {
            assert p(r[0]);
          }
        }
      }
    }
  }

  lemma DistinctTail<T>(s: seq<T>)
    requires Distinct(s) && s != []
    ensures Distinct(s[1..]) && s[0] !in s[1..]
  {
    forall k | 0 <= k < |s[1..]| ensures s[1..][k] != s[0] {
      assert s[1..][k] == s[k + 1];
    }
  }

  lemma {:induction false} FilterDistinct<T>(s: seq<T>, p: T -> bool)
    requires Distinct(s)
    ensures Distinct(Filter(s, p))
  {
    if s != [] {
      DistinctTail(s);
      FilterDistinct(s[1..], p);
    }
  }

  // ---------------------------------------------------------------------------
  // Keep-first deduplication (pandas drop_duplicates(keep='first'), on a key)
  // ---------------------------------------------------------------------------

  /** Row j is the first row carrying its key. */
  predicate FirstOccurrence<R, K(==)>(rows: seq<R>, key: R -> K, j: nat)
    requires j < |rows|
  {
    forall i | 0 <= i < j :: key(rows[i]) != key(rows[j])
  }

  /** The positions, in increasing order, of the rows that drop_duplicates keeps among the first n. */
  function KeptIndices<R, K(==)>(rows: seq<R>, key: R -> K, n: nat): (idx: seq<nat>)
    requires n <= |rows|
    ensures |idx| <= n
  {
    if n == 0 then []
    else KeptIndices(rows, key, n - 1) + (if FirstOccurrence(rows, key, n - 1) then [n - 1] else [])
  }

  /** The rows that drop_duplicates keeps, in their original order. */
  function KeepFirstBy<R, K(==)>(rows: seq<R>, key: R -> K): (r: seq<R>)
    ensures |r| <= |rows|
  {
    var idx := KeptIndices(rows, key, |rows|);
    seq(|idx|, j requires 0 <= j < |idx| => if idx[j] < |rows| then rows[idx[j]] else rows[0])
  }

  predicate StrictlyIncreasing(s: seq<nat>) {
    forall i, j | 0 <= i < j < |s| :: s[i] < s[j]
  }

  /** The kept positions are increasing and are exactly the first occurrences. */
  lemma {:induction false} KeptIndicesSpec<R, K>(rows: seq<R>, key: R -> K, n: nat)
    requires n <= |rows|
    ensures var idx := KeptIndices(rows, key, n);
      && StrictlyIncreasing(idx)
      && (forall j | 0 <= j < |idx| :: idx[j] < n)
      && (forall i | 0 <= i < n :: i in idx <==> FirstOccurrence(rows, key, i))
  {
    if n > 0 {
      KeptIndicesSpec(rows, key, n - 1);
    }
  }

  /** Every row's key has a first occurrence at or before it. */
  lemma {:induction false} HasFirstOccurrence<R, K>(rows: seq<R>, key: R -> K, i: nat)
    requires i < |rows|
    ensures exists f :: 0 <= f <= i && key(rows[f]) == key(rows[i]) && FirstOccurrence(rows, key, f)
  {
    if !FirstOccurrence(rows, key, i) {
      var e :| 0 <= e < i && key(rows[e]) == key(rows[i]);
      HasFirstOccurrence(rows, key, e);
    }
  }

  /** The kept rows are the rows at the positions KeptIndices lists: increasing, and exactly
      the positions of first occurrences. */
  lemma KeepFirstByIndexed<R, K>(rows: seq<R>, key: R -> K)
    ensures var idx := KeptIndices(rows, key, |rows|);
      var r := KeepFirstBy(rows, key);
      && |r| == |idx| <= |rows|
      && StrictlyIncreasing(idx)
      && (forall j | 0 <= j < |idx| :: idx[j] < |rows| && r[j] == rows[idx[j]])
      && (forall i | 0 <= i < |rows| :: i in idx <==> FirstOccurrence(rows, key, i))
  {
    var idx := KeptIndices(rows, key, |rows|);
    KeptIndicesSpec(rows, key, |rows|);
    IndicesBound(idx, |rows|);
  }

  /** r lists, in source order, exactly the rows of rows that are the first with their key:
      r[j] is the row at the j-th such position. */
  ghost predicate KeepsFirstOccurrences<R, K>(rows: seq<R>, key: R -> K, r: seq<R>) {
    exists idx: seq<nat> :: FirstOccurrencesAt(rows, key, r, idx)
  }

  /** idx, increasing, holds exactly the positions of first occurrences, and r[j] is rows[idx[j]]. */
  ghost predicate FirstOccurrencesAt<R, K>(rows: seq<R>, key: R -> K, r: seq<R>, idx: seq<nat>) {
    && StrictlyIncreasing(idx) && |idx| == |r|
    && (forall j | 0 <= j < |idx| :: idx[j] < |rows| && r[j] == rows[idx[j]])
    && (forall i | 0 <= i < |rows| :: i in idx <==> FirstOccurrence(rows, key, i))
  }

  /** Dedup by key keeps a subsequence with pairwise distinct keys, every key of the input
      and the first row of every key. */
  lemma KeepFirstByShape<R, K>(rows: seq<R>, key: R -> K)
    ensures var r := KeepFirstBy(rows, key);
      && |r| <= |rows|
      && (forall i, j | 0 <= i < j < |r| :: key(r[i]) != key(r[j]))
      && (forall i | 0 <= i < |rows| :: exists j :: 0 <= j < |r| && key(r[j]) == key(rows[i]))
      && (forall i | 0 <= i < |rows| && FirstOccurrence(rows, key, i) :: rows[i] in r)
      && IsSubsequence(r, rows)
  {
    KeepFirstByIndexed(rows, key);
    KeepFirstByKeysDistinct(rows, key);
    KeepFirstByKeepsEveryKey(rows, key);
    var idx := KeptIndices(rows, key, |rows|);
    var r := KeepFirstBy(rows, key);
    forall i | 0 <= i < |rows| && FirstOccurrence(rows, key, i) ensures rows[i] in r {
      var j :| 0 <= j < |idx| && idx[j] == i;
      assert r[j] == rows[i];
    }
    IndexedIsSubsequence(rows, idx, r, 0);
    assert rows[0..] == rows;
  }

  /** drop_duplicates(keep='first'): the result lists, in source order, exactly the rows that
      are the first with their key; no two kept rows share a key and every key survives. */
  lemma KeepFirstBySpec<R, K>(rows: seq<R>, key: R -> K)
    ensures var r := KeepFirstBy(rows, key);
      && KeepsFirstOccurrences(rows, key, r)
      && |r| <= |rows|
      && (forall i, j | 0 <= i < j < |r| :: key(r[i]) != key(r[j]))
      && (forall i | 0 <= i < |rows| :: exists j :: 0 <= j < |r| && key(r[j]) == key(rows[i]))
      && (forall i | 0 <= i < |rows| && FirstOccurrence(rows, key, i) :: rows[i] in r)
      && IsSubsequence(r, rows)
  {
    KeepFirstByShape(rows, key);
    KeepFirstByKeepsFirst(rows, key);
  }

  /** The kept rows are the first occurrences, in source order. */
  lemma KeepFirstByKeepsFirst<R, K>(rows: seq<R>, key: R -> K)
    ensures KeepsFirstOccurrences(rows, key, KeepFirstBy(rows, key))
  {
    KeepFirstByIndexed(rows, key);
    var idx := KeptIndices(rows, key, |rows|);
    assert FirstOccurrencesAt(rows, key, KeepFirstBy(rows, key), idx);
  }

  /** Two increasing sequences with the same elements are equal. */
  lemma {:induction false} IncreasingSameElements(a: seq<nat>, b: seq<nat>)
    requires StrictlyIncreasing(a) && StrictlyIncreasing(b)
    requires forall x :: x in a <==> x in b
    ensures a == b
    decreases |a|
  {
    if |a| + |b| > 0 {
      assert a != [] ==> a[0] in a;
      assert b != [] ==> b[0] in b;
    }
    if a != [] && b != [] {
      assert a[0] in b && b[0] in a;
      assert a[0] == b[0];
      forall x ensures x in a[1..] <==> x in b[1..] {
        if x in a[1..] {
          var k :| 0 <= k < |a[1..]| && a[1..][k] == x;
          assert a[k + 1] == x && x != a[0];
        }
        if x in b[1..] {
          var k :| 0 <= k < |b[1..]| && b[1..][k] == x;
          assert b[k + 1] == x && x != b[0];
        }
        assert x in a ==> x == a[0] || x in a[1..] by { assert a == [a[0]] + a[1..]; }
        assert x in b ==> x == b[0] || x in b[1..] by { assert b == [b[0]] + b[1..]; }
      }
      IncreasingSameElements(a[1..], b[1..]);
      assert a == [a[0]] + a[1..] && b == [b[0]] + b[1..];
    }
  }

  /** Listing the first occurrences in source order determines the result: keep-first
      deduplication is the only answer, so keeping the last row of a key is ruled out. */
  lemma KeepsFirstOccurrencesUnique<R, K>(rows: seq<R>, key: R -> K, r: seq<R>)
    requires KeepsFirstOccurrences(rows, key, r)
    ensures r == KeepFirstBy(rows, key)
  {
    var idx :| FirstOccurrencesAt(rows, key, r, idx);
    var kept := KeptIndices(rows, key, |rows|);
    KeepFirstByIndexed(rows, key);
    forall x ensures x in idx <==> x in kept {
      if x in idx {
        var j :| 0 <= j < |idx| && idx[j] == x;
      }
      if x in kept {
        var j :| 0 <= j < |kept| && kept[j] == x;
      }
    }
    IncreasingSameElements(idx, kept);
  }

  lemma KeepFirstByKeysDistinct<R, K>(rows: seq<R>, key: R -> K)
    ensures var r := KeepFirstBy(rows, key);
      forall i, j | 0 <= i < j < |r| :: key(r[i]) != key(r[j])
  {
    KeepFirstByIndexed(rows, key);
    var idx := KeptIndices(rows, key, |rows|);
    var r := KeepFirstBy(rows, key);
    forall i, j | 0 <= i < j < |r| ensures key(r[i]) != key(r[j]) {
      assert idx[j] in idx;
      assert FirstOccurrence(rows, key, idx[j]);
      assert idx[i] < idx[j];
    }
  }

  lemma KeepFirstByKeepsEveryKey<R, K>(rows: seq<R>, key: R -> K)
    ensures var r := KeepFirstBy(rows, key);
      forall i | 0 <= i < |rows| :: exists j :: 0 <= j < |r| && key(r[j]) == key(rows[i])
  {
    KeepFirstByIndexed(rows, key);
    var idx := KeptIndices(rows, key, |rows|);
    var r := KeepFirstBy(rows, key);
    forall i | 0 <= i < |rows| ensures exists j :: 0 <= j < |r| && key(r[j]) == key(rows[i]) {
      HasFirstOccurrence(rows, key, i);
      var f :| 0 <= f <= i && key(rows[f]) == key(rows[i]) && FirstOccurrence(rows, key, f);
      var j :| 0 <= j < |idx| && idx[j] == f;
      assert key(r[j]) == key(rows[i]);
    }
  }

  /** When no key repeats, every position is kept. */
  lemma {:induction false} KeptIndicesAll<R, K>(rows: seq<R>, key: R -> K, n: nat)
    requires n <= |rows|
    requires forall i, j | 0 <= i < j < n :: key(rows[i]) != key(rows[j])
    ensures KeptIndices(rows, key, n) == seq(n, i requires 0 <= i < n => i)
  {
    if n > 0 {
      KeptIndicesAll(rows, key, n - 1);
      assert FirstOccurrence(rows, key, n - 1);
    }
  }

  /** A position below n that is not a first occurrence makes the kept list shorter than n. */
  lemma {:induction false} KeptIndicesShort<R, K>(rows: seq<R>, key: R -> K, n: nat, m: nat)
    requires m < n <= |rows| && !FirstOccurrence(rows, key, m)
    ensures |KeptIndices(rows, key, n)| < n
  {
    if m < n - 1 {
      KeptIndicesShort(rows, key, n - 1, m);
    }
  }

  /** drop_duplicates removes nothing exactly when no key repeats; otherwise it removes rows. */
  lemma KeepFirstByNoRepeats<R, K>(rows: seq<R>, key: R -> K)
    ensures (forall i, j | 0 <= i < j < |rows| :: key(rows[i]) != key(rows[j])) ==> KeepFirstBy(rows, key) == rows
    ensures (exists i, j :: 0 <= i < j < |rows| && key(rows[i]) == key(rows[j])) ==> |KeepFirstBy(rows, key)| < |rows|
  {
    if forall i, j | 0 <= i < j < |rows| :: key(rows[i]) != key(rows[j]) {
      KeptIndicesAll(rows, key, |rows|);
    }
    if exists i, j :: 0 <= i < j < |rows| && key(rows[i]) == key(rows[j]) {
      var i, j :| 0 <= i < j < |rows| && key(rows[i]) == key(rows[j]);
      KeptIndicesShort(rows, key, |rows|, j);
    }
  }

  /** A strictly increasing sequence of positions below n has at most n entries. */
  lemma {:induction false} IndicesBound(idx: seq<nat>, n: nat)
    requires StrictlyIncreasing(idx) && forall j | 0 <= j < |idx| :: idx[j] < n
    ensures |idx| <= n
  {
    if idx != [] {
      var last := idx[|idx| - 1];
      IndicesBound(idx[..|idx| - 1], last);
    }
  }

  /** A sequence picked out of rows by strictly increasing positions is a subsequence of rows[lo..]. */
  lemma {:induction false} IndexedIsSubsequence<R>(rows: seq<R>, idx: seq<nat>, r: seq<R>, lo: nat)
    requires StrictlyIncreasing(idx) && |r| == |idx| && lo <= |rows|
    requires forall j | 0 <= j < |idx| :: lo <= idx[j] < |rows| && r[j] == rows[idx[j]]
    ensures IsSubsequence(r, rows[lo..])
    decreases |rows| - lo
  {
    if r != [] {
      assert lo <= idx[0] < |rows|;
      assert rows[lo..] != [];
      if idx[0] == lo {
        assert r[0] == rows[lo..][0];
        assert rows[lo..][1..] == rows[lo + 1..];
        IndexedIsSubsequence(rows, idx[1..], r[1..], lo + 1);
      } else {
        assert rows[lo..][1..] == rows[lo + 1..];
        IndexedIsSubsequence(rows, idx, r, lo + 1);
        if r[0] == rows[lo..][0] {
          // the greedy match also works: drop the first element of both
          SubsequenceOfTail(r, rows[lo..]);
        }
      }
    }
  }

  /** If a is a subsequence of b's tail and starts with b's head, a's tail is a subsequence of b's tail. */
  lemma {:induction false} SubsequenceOfTail<T>(a: seq<T>, b: seq<T>)
    requires a != [] && b != [] && a[0] == b[0] && IsSubsequence(a, b[1..])
    ensures IsSubsequence(a[1..], b[1..])
  {
    SubsequenceDropHead(a, b[1..]);
  }

  lemma {:induction false} SubsequenceDropHead<T>(a: seq<T>, b: seq<T>)
    requires a != [] && IsSubsequence(a, b)
    ensures IsSubsequence(a[1..], b)
    decreases |b|, 0
  {
    assert b != [];
    if a[0] == b[0] {
      SubsequenceGrow(a[1..], b[1..], b[0]);
      assert [b[0]] + b[1..] == b;
    } else {
      SubsequenceDropHead(a, b[1..]);
      SubsequenceGrow(a[1..], b[1..], b[0]);
      assert [b[0]] + b[1..] == b;
    }
  }

  lemma {:induction false} SubsequenceGrow<T>(a: seq<T>, b: seq<T>, x: T)
    requires IsSubsequence(a, b)
    ensures IsSubsequence(a, [x] + b)
    decreases |b|, 1
  {
    var b' := [x] + b;
    assert b'[1..] == b;
    if a != [] && a[0] == x {
      SubsequenceDropHead(a, b);
    }
  }

  // ---------------------------------------------------------------------------
  // Cell counts
  // ---------------------------------------------------------------------------

  /** The columns of row r whose cell satisfies p. */
  function KeysWhere(r: Row, p: Cell -> bool): set<string> {
    set k | k in r && p(r[k])
  }

  /** The number of cells of the table satisfying p (pandas (df == x).sum().sum()). */
  function CountCells(rows: seq<Row>, p: Cell -> bool): nat {
    if rows == [] then 0 else CountCells(rows[..|rows| - 1], p) + |KeysWhere(rows[|rows| - 1], p)|
  }

  /** The number of cells of a column that satisfy p. */
  function CountIn(cells: seq<Cell>, p: Cell -> bool): (n: nat)
    ensures n <= |cells|
  {
    if cells == [] then 0 else CountIn(cells[..|cells| - 1], p) + (if p(cells[|cells| - 1]) then 1 else 0)
  }

  /** The distinct non-missing values of a column (pandas nunique(dropna=True) is its size). */
  function DistinctValues(cells: seq<Cell>): set<Cell> {
    set i | 0 <= i < |cells| && cells[i] != Missing :: cells[i]
  }

  // ---------------------------------------------------------------------------
  // Cell-wise rewrites (DataFrame.replace, Series assignment)
  // ---------------------------------------------------------------------------

  /** Rewrites every cell of every row with f; the rows keep their columns. */
  function MapCells(rows: seq<Row>, f: Cell -> Cell): (r: seq<Row>)
    ensures |r| == |rows|
    ensures forall i | 0 <= i < |rows| :: r[i].Keys == rows[i].Keys
    ensures forall i, k | 0 <= i < |rows| && k in rows[i] :: r[i][k] == f(rows[i][k])
  {
    seq(|rows|, i requires 0 <= i < |rows| => map k | k in rows[i] :: f(rows[i][k]))
  }

  /** Rewrites the cells of column c with f and leaves the other columns alone. */
  function MapColumn(rows: seq<Row>, c: string, f: Cell -> Cell): (r: seq<Row>)
    ensures |r| == |rows|
    ensures forall i | 0 <= i < |rows| :: r[i].Keys == rows[i].Keys
    ensures forall i | 0 <= i < |rows| && c in rows[i] :: r[i][c] == f(rows[i][c])
    ensures forall i, k | 0 <= i < |rows| && k in rows[i] && k != c :: r[i][k] == rows[i][k]
  {
    seq(|rows|, i requires 0 <= i < |rows| => if c in rows[i] then rows[i][c := f(rows[i][c])] else rows[i])
  }

  /** A table with the same columns, the same typed names and rows with the same keys as a
      well-formed table is well-formed. */
  lemma SameShapeValid(t: Table, u: Table)
    requires Valid(t)
    requires u.columns == t.columns && u.types.Keys == t.types.Keys && |u.rows| == |t.rows|
    requires forall i | 0 <= i < |t.rows| :: u.rows[i].Keys == t.rows[i].Keys
    ensures Valid(u)
  {
    forall r | r in u.rows ensures r.Keys == Names(u.columns) {
      var i :| 0 <= i < |u.rows| && u.rows[i] == r;
      assert t.rows[i] in t.rows;
    }
  }

  /** Series.replace(mapping) on one cell: a string that is a key of the mapping is replaced
      by its value, looked up once; every other cell is kept. */
  function Replace(mapping: map<string, string>, c: Cell): Cell {
    if c.Str? && c.s in mapping then Str(mapping[c.s]) else c
  }
}
