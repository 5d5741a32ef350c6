/** The loader: a second cleaning pass over the cleaned CSV, the split of its columns into
    string and numeric attributes, and the load of the wide table into an
    entity-attribute-value schema (two attribute dictionaries, one run per row and one fact
    per non-missing cell). */
module Loader {
  import opened Frame

  /** An outcome that Python can abort with a KeyError naming the absent keys. */
  datatype Result<T> = Ok(value: T) | KeyError(keys: seq<string>)

  // ---------------------------------------------------------------------------
  // load_and_clean_csv: rename, dictionary replacements, dedup on a key subset
  // ---------------------------------------------------------------------------

  const HumidityTypo := "humifity"
  const Humidity := "humidity"
  const PaperMillColumn := "paper_mill_location"
  const CylinderColumn := "cylinder_number"

  /** The fixed spelling corrections for customer names. */
  const CustomerMapping: map<string, string> := map[
    "abbey" := "Abbey Press", "abbeypress" := "Abbey Press", "abbypress" := "Abbey Press",
    "best" := "bestprod",
    "hanhouse" := "Hanover House", "hanoverhouse" := "Hanover House", "hanovrhous" := "Hanover House",
    "homeshop" := "Home Shopping", "homeshopping" := "Home Shopping",
    "jcp" := "JCPenney", "jcpenny" := "JCPenney", "penney" := "JCPenney",
    "casualliving" := "Casual Living", "casliving" := "Casual Living",
    "global" := "Global Equipment", "globalequp" := "Global Equipment"]

  /** The names the customer corrections produce. */
  const CanonicalCustomers: set<string> :=
    {"Abbey Press", "bestprod", "Hanover House", "Home Shopping", "JCPenney", "Casual Living", "Global Equipment"}

  const PaperMillMapping: map<string, string> := map["scandanavian" := "scandinavian"]

  /** The columns load_and_clean_csv indexes: the two it rewrites and the dedup subset. */
  const RequiredColumns: seq<string> := [CustomerColumn, PaperMillColumn, TimestampColumn, CylinderColumn]

  function RenameKey(r: Row, from: string, to: string): Row {
    if from in r then (r - {from})[to := r[from]] else r
  }

  /** DataFrame.rename(columns={from: to}): the column keeps its place, type and cells. */
  function RenameColumn(t: Table, from: string, to: string): (u: Table)
    ensures |u.columns| == |t.columns| && |u.rows| == |t.rows|
    ensures forall i | 0 <= i < |t.columns| :: u.columns[i] == if t.columns[i] == from then to else t.columns[i]
    ensures forall i | 0 <= i < |t.rows| && from in t.rows[i] :: to in u.rows[i] && u.rows[i][to] == t.rows[i][from]
    ensures forall i, k | 0 <= i < |t.rows| && k in t.rows[i] && k != from && k != to :: k in u.rows[i] && u.rows[i][k] == t.rows[i][k]
  {
    Table(seq(|t.columns|, i requires 0 <= i < |t.columns| => if t.columns[i] == from then to else t.columns[i]),
          if from in t.types then (t.types - {from})[to := t.types[from]] else t.types,
          seq(|t.rows|, i requires 0 <= i < |t.rows| => RenameKey(t.rows[i], from, to)))
  }

  /** The humidity column's misspelt header is corrected when the table has it. */
  function Renamed(t: Table): Table {
    if HumidityTypo in t.columns then RenameColumn(t, HumidityTypo, Humidity) else t
  }

  /** Series.replace(mapping) assigned back to column c. */
  function ReplaceColumn(t: Table, c: string, mapping: map<string, string>): (u: Table)
    ensures u.columns == t.columns && u.types == t.types
  {
    t.(rows := MapColumn(t.rows, c, x => Replace(mapping, x)))
  }

  /** Both fixed corrections, customer first. */
  function Corrected(t: Table): Table {
    ReplaceColumn(ReplaceColumn(t, CustomerColumn, CustomerMapping), PaperMillColumn, PaperMillMapping)
  }

  /** The dedup key: the pair (timestamp, cylinder_number). */
  function RunKey(r: Row): (Cell, Cell) {
    (At(r, TimestampColumn), At(r, CylinderColumn))
  }

  /** The names of cols that t lacks, in order. */
  function Absent(t: Table, cols: seq<string>): (missing: seq<string>)
    ensures forall c :: c in missing <==> c in cols && c !in t.columns
  {
    Filter(cols, c => c !in t.columns)
  }

  /** What load_and_clean_csv returns for the table read from the CSV: indexing the customer
      or paper-mill column of a table without it, or deduplicating on absent columns, raises. */
  function CleanedCsv(csv: Table): Result<Table> {
    var t1 := Renamed(csv);
    if CustomerColumn !in t1.columns then KeyError([CustomerColumn])
    else
      var t2 := ReplaceColumn(t1, CustomerColumn, CustomerMapping);
      if PaperMillColumn !in t2.columns then KeyError([PaperMillColumn])
      else
        var t3 := ReplaceColumn(t2, PaperMillColumn, PaperMillMapping);
        var missing := Absent(t3, [TimestampColumn, CylinderColumn]);
        if missing != [] then KeyError(missing)
        else Ok(t3.(rows := KeepFirstBy(t3.rows, RunKey)))
  }

  /** load_and_clean_csv on the table that pd.read_csv produced, updating one DataFrame step by step. */
  method LoadAndCleanCsv(csv: Table) returns (result: Result<Table>)
    ensures result == CleanedCsv(csv)
  {
    var df := csv;
    if HumidityTypo in df.columns {
      df := RenameColumn(df, HumidityTypo, Humidity);
    }
    if CustomerColumn !in df.columns {
      return KeyError([CustomerColumn]);
    }
    df := ReplaceColumn(df, CustomerColumn, CustomerMapping);
    if PaperMillColumn !in df.columns {
      return KeyError([PaperMillColumn]);
    }
    df := ReplaceColumn(df, PaperMillColumn, PaperMillMapping);
    var missing := Absent(df, [TimestampColumn, CylinderColumn]);
    if missing != [] {
      return KeyError(missing);
    }
    df := df.(rows := KeepFirstBy(df.rows, RunKey));
    return Ok(df);
  }

  /** The load fails exactly when a required column is absent after the rename, and the
      error names only absent required columns. */
  lemma CleanedCsvFails(csv: Table)
    ensures CleanedCsv(csv).KeyError? <==> exists c :: c in RequiredColumns && c !in Renamed(csv).columns
    ensures CleanedCsv(csv).KeyError? ==>
      var keys := CleanedCsv(csv).keys;
      keys != [] && forall c | c in keys :: c in RequiredColumns && c !in Renamed(csv).columns
  {
    var t1 := Renamed(csv);
    if CustomerColumn in t1.columns && PaperMillColumn in t1.columns {
      var t3 := Corrected(t1);
      var missing := Absent(t3, [TimestampColumn, CylinderColumn]);
      if missing != [] {
        assert missing[0] in missing;
      }
    }
  }

  /** The misspelt humidity header is renamed only if present; the renamed column keeps every
      row's cell and no other column of a well-formed table changes. */
  lemma RenamedSpec(t: Table)
    ensures HumidityTypo !in t.columns ==> Renamed(t) == t
    ensures HumidityTypo in t.columns ==>
      var u := Renamed(t);
      && HumidityTypo !in u.columns && Humidity in u.columns && |u.rows| == |t.rows|
      && (forall i | 0 <= i < |t.rows| && HumidityTypo in t.rows[i] :: u.rows[i][Humidity] == t.rows[i][HumidityTypo])
      && (forall i, k | 0 <= i < |t.rows| && k in t.rows[i] && k != HumidityTypo && k != Humidity :: u.rows[i][k] == t.rows[i][k])
  {
    if HumidityTypo in t.columns {
      var u := Renamed(t);
      var p :| 0 <= p < |t.columns| && t.columns[p] == HumidityTypo;
      assert u.columns[p] == Humidity;
    }
  }

  lemma RenamedNames(t: Table, from: string, to: string)
    requires from in t.columns
    ensures Names(RenameColumn(t, from, to).columns) == (Names(t.columns) - {from}) + {to}
  {
    var u := RenameColumn(t, from, to);
    forall x | x in Names(u.columns) ensures x in (Names(t.columns) - {from}) + {to} {
      var i :| 0 <= i < |u.columns| && u.columns[i] == x;
      assert t.columns[i] in t.columns;
    }
    forall x | x in (Names(t.columns) - {from}) + {to} ensures x in Names(u.columns) {
      var i :| 0 <= i < |t.columns| && t.columns[i] == (if x == to then from else x);
      assert u.columns[i] in u.columns;
    }
  }

  lemma RenameDistinct(t: Table, from: string, to: string)
    requires Distinct(t.columns) && to !in t.columns
    ensures Distinct(RenameColumn(t, from, to).columns)
  {
    var u := RenameColumn(t, from, to);
    forall i, j | 0 <= i < j < |u.columns| ensures u.columns[i] != u.columns[j] {
      assert t.columns[i] in t.columns && t.columns[j] in t.columns;
    }
  }

  /** Renaming a column to a fresh name keeps a table well-formed. */
  lemma RenameValid(t: Table, from: string, to: string)
    requires Valid(t) && from in t.columns && to !in t.columns
    ensures Valid(RenameColumn(t, from, to))
  {
    var u := RenameColumn(t, from, to);
    var names := (Names(t.columns) - {from}) + {to};
    RenamedNames(t, from, to);
    RenameDistinct(t, from, to);
    assert u.types.Keys == names;
    forall r | r in u.rows ensures r.Keys == names {
      var i :| 0 <= i < |u.rows| && u.rows[i] == r;
      assert t.rows[i] in t.rows;
      assert r == RenameKey(t.rows[i], from, to);
    }
  }

  /** On a well-formed table whose columns do not already include the corrected humidity
      name, a successful load yields a well-formed table. */
  lemma CleanedCsvValid(csv: Table)
    requires Valid(csv) && (HumidityTypo in csv.columns ==> Humidity !in csv.columns)
    ensures CleanedCsv(csv).Ok? ==> Valid(CleanedCsv(csv).value)
  {
    var t1 := Renamed(csv);
    if HumidityTypo in csv.columns {
      RenameValid(csv, HumidityTypo, Humidity);
    }
    if CleanedCsv(csv).Ok? {
      var t3 := Corrected(t1);
      SameShapeValid(t1, t3);
      var u := CleanedCsv(csv).value;
      forall r | r in u.rows ensures r.Keys == Names(u.columns) {
        KeepFirstByShape(t3.rows, RunKey);
        KeepFirstByIndexed(t3.rows, RunKey);
        var j :| 0 <= j < |u.rows| && u.rows[j] == r;
        var idx := KeptIndices(t3.rows, RunKey, |t3.rows|);
        assert t3.rows[idx[j]] in t3.rows;
      }
    }
  }

  /** The corrections touch only the customer and paper-mill cells: a mapped name is replaced
      by its correction, every other cell (and the dedup key) is left as it was. */
  lemma CorrectedSpec(t: Table)
    ensures var u := Corrected(t);
      && u.columns == t.columns && u.types == t.types && |u.rows| == |t.rows|
      && (forall i | 0 <= i < |t.rows| :: u.rows[i].Keys == t.rows[i].Keys && RunKey(u.rows[i]) == RunKey(t.rows[i]))
      && (forall i | 0 <= i < |t.rows| && CustomerColumn in t.rows[i] ::
            u.rows[i][CustomerColumn] == Replace(CustomerMapping, t.rows[i][CustomerColumn]))
      && (forall i | 0 <= i < |t.rows| && PaperMillColumn in t.rows[i] ::
            u.rows[i][PaperMillColumn] == Replace(PaperMillMapping, t.rows[i][PaperMillColumn]))
      && (forall i, k | 0 <= i < |t.rows| && k in t.rows[i] && k != CustomerColumn && k != PaperMillColumn ::
            u.rows[i][k] == t.rows[i][k])
  {
  }

  /** Every customer correction yields one of the canonical names, and no canonical name is
      itself corrected, so applying the mapping twice is applying it once. */
  lemma CustomerMappingSettled(c: Cell)
    ensures Replace(CustomerMapping, c) != c ==> Replace(CustomerMapping, c).s in CanonicalCustomers
    ensures Replace(CustomerMapping, Replace(CustomerMapping, c)) == Replace(CustomerMapping, c)
  {
    forall k | k in CustomerMapping ensures CustomerMapping[k] in CanonicalCustomers && CustomerMapping[k] !in CustomerMapping {
    }
  }

  lemma PaperMillMappingSettled(c: Cell)
    ensures Replace(PaperMillMapping, Replace(PaperMillMapping, c)) == Replace(PaperMillMapping, c)
  {
  }

  /** Replacing a column whose every cell the mapping already leaves alone changes nothing. */
  lemma ReplaceColumnSettled(t: Table, c: string, mapping: map<string, string>)
    requires forall i | 0 <= i < |t.rows| && c in t.rows[i] :: Replace(mapping, t.rows[i][c]) == t.rows[i][c]
    ensures ReplaceColumn(t, c, mapping) == t
  {
    var rows := MapColumn(t.rows, c, x => Replace(mapping, x));
    forall i | 0 <= i < |t.rows| ensures rows[i] == t.rows[i] {
    }
  }

  /** The kept rows of a load: the corrected rows that are the first with their
      (timestamp, cylinder_number) pair, in source order, one per pair and every pair kept. */
  lemma CleanedCsvRows(csv: Table)
    requires CleanedCsv(csv).Ok?
    ensures var f := Corrected(Renamed(csv)); var u := CleanedCsv(csv).value;
      && u.columns == Renamed(csv).columns
      && KeepsFirstOccurrences(f.rows, RunKey, u.rows)
      && IsSubsequence(u.rows, f.rows)
      && (forall i, j | 0 <= i < j < |u.rows| :: RunKey(u.rows[i]) != RunKey(u.rows[j]))
      && (forall i | 0 <= i < |f.rows| :: exists j :: 0 <= j < |u.rows| && RunKey(u.rows[j]) == RunKey(f.rows[i]))
      && (forall i | 0 <= i < |f.rows| && FirstOccurrence(f.rows, RunKey, i) :: f.rows[i] in u.rows)
  {
    KeepFirstBySpec(Corrected(Renamed(csv)).rows, RunKey);
  }

  /** Every kept row carries settled customer and paper-mill cells. */
  lemma CleanedCellsSettled(csv: Table)
    requires CleanedCsv(csv).Ok?
    ensures var u := CleanedCsv(csv).value;
      && (forall j | 0 <= j < |u.rows| && CustomerColumn in u.rows[j] ::
            Replace(CustomerMapping, u.rows[j][CustomerColumn]) == u.rows[j][CustomerColumn])
      && (forall j | 0 <= j < |u.rows| && PaperMillColumn in u.rows[j] ::
            Replace(PaperMillMapping, u.rows[j][PaperMillColumn]) == u.rows[j][PaperMillColumn])
  {
    var t1 := Renamed(csv);
    var f := Corrected(t1);
    var u := CleanedCsv(csv).value;
    CorrectedSpec(t1);
    KeepFirstByIndexed(f.rows, RunKey);
    var idx := KeptIndices(f.rows, RunKey, |f.rows|);
    forall j | 0 <= j < |u.rows| && CustomerColumn in u.rows[j]
      ensures Replace(CustomerMapping, u.rows[j][CustomerColumn]) == u.rows[j][CustomerColumn]
    {
      assert u.rows[j] == f.rows[idx[j]];
      CustomerMappingSettled(t1.rows[idx[j]][CustomerColumn]);
    }
    forall j | 0 <= j < |u.rows| && PaperMillColumn in u.rows[j]
      ensures Replace(PaperMillMapping, u.rows[j][PaperMillColumn]) == u.rows[j][PaperMillColumn]
    {
      assert u.rows[j] == f.rows[idx[j]];
      PaperMillMappingSettled(t1.rows[idx[j]][PaperMillColumn]);
    }
  }

  /** Cleaning an already cleaned table gives it back unchanged. */
  lemma CleanedCsvIdempotent(csv: Table)
    requires CleanedCsv(csv).Ok?
    ensures CleanedCsv(CleanedCsv(csv).value) == CleanedCsv(csv)
  {
    var t1 := Renamed(csv);
    var u := CleanedCsv(csv).value;
    assert HumidityTypo !in u.columns by {
      if HumidityTypo in csv.columns {
        RenamedSpec(csv);
      }
    }
    assert Renamed(u) == u;
    CleanedCellsSettled(csv);
    ReplaceColumnSettled(u, CustomerColumn, CustomerMapping);
    ReplaceColumnSettled(u, PaperMillColumn, PaperMillMapping);
    assert Corrected(u) == u;
    KeepFirstByShape(Corrected(t1).rows, RunKey);
    KeepFirstByNoRepeats(u.rows, RunKey);
  }

  // ---------------------------------------------------------------------------
  // categorize_columns
  // ---------------------------------------------------------------------------

  /** Where a column's values are stored: as string facts, as numeric facts, or not as facts. */
  datatype AttrKind = StringAttr | NumericAttr | NotStored

  /** Integer columns that read like booleans and are kept as strings. */
  const BooleanLikeColumns: seq<string> := ["grain_screened", "proof_on_ctd_ink", "direct_steam", "type_on_cylinder"]

  /** Integer columns that are codes rather than quantities and are kept as strings. */
  const CodeColumns: seq<string> := ["job_number", "press", "unit_number", "plating_tank"]

  /** The classification rule for column c of t; timestamp goes to the runs table instead. */
  function KindOf(t: Table, c: string): AttrKind {
    if c == TimestampColumn || c !in t.types then NotStored
    else match t.types[c]
      case Text => StringAttr
      case Integer | Float => if c in BooleanLikeColumns || c in CodeColumns then StringAttr else NumericAttr
      case _ => NotStored
  }

  function StringColumnsIn(t: Table, cols: seq<string>): seq<string> {
    Filter(cols, c => KindOf(t, c) == StringAttr)
  }

  function NumericColumnsIn(t: Table, cols: seq<string>): seq<string> {
    Filter(cols, c => KindOf(t, c) == NumericAttr)
  }

  lemma ClassifySnoc(t: Table, cols: seq<string>, c: string)
    ensures StringColumnsIn(t, cols + [c]) == StringColumnsIn(t, cols) + (if KindOf(t, c) == StringAttr then [c] else [])
    ensures NumericColumnsIn(t, cols + [c]) == NumericColumnsIn(t, cols) + (if KindOf(t, c) == NumericAttr then [c] else [])
  {
    FilterSnoc(cols, c, c => KindOf(t, c) == StringAttr);
    FilterSnoc(cols, c, c => KindOf(t, c) == NumericAttr);
  }

  /** categorize_columns: one pass over the columns in table order, appending each to the
      list its dtype and the override lists select. */
  method CategorizeColumns(t: Table) returns (stringCols: seq<string>, numericCols: seq<string>)
    ensures stringCols == StringColumnsIn(t, t.columns)
    ensures numericCols == NumericColumnsIn(t, t.columns)
  {
    stringCols, numericCols := [], [];
    for k := 0 to |t.columns|
      invariant stringCols == StringColumnsIn(t, t.columns[..k])
      invariant numericCols == NumericColumnsIn(t, t.columns[..k])
    {
      var col := t.columns[k];
      assert t.columns[..k + 1] == t.columns[..k] + [col];
      ClassifySnoc(t, t.columns[..k], col);
      if col == TimestampColumn {
        continue;
      }
      if col in t.types {
        var dtype := t.types[col];
        if dtype == Text {
          assert KindOf(t, col) == StringAttr;
          stringCols := stringCols + [col];
        } else if dtype == Integer || dtype == Float {
          if col in BooleanLikeColumns {
            assert KindOf(t, col) == StringAttr;
            stringCols := stringCols + [col];
          } else if col in CodeColumns {
            assert KindOf(t, col) == StringAttr;
            stringCols := stringCols + [col];
          } else {
            assert KindOf(t, col) == NumericAttr;
            numericCols := numericCols + [col];
          }
        } else {
          assert KindOf(t, col) == NotStored;
        }
      }
    }
    assert t.columns[..|t.columns|] == t.columns;
  }

  /** The classification rules: text columns and overridden int/float columns are strings,
      the other int/float columns are numeric, timestamp and every other type are neither. */
  lemma CategorizeRules(t: Table, c: string)
    ensures c in StringColumnsIn(t, t.columns) <==>
      && c in t.columns && c != TimestampColumn && c in t.types
      && (t.types[c] == Text || ((t.types[c] == Integer || t.types[c] == Float) && (c in BooleanLikeColumns || c in CodeColumns)))
    ensures c in NumericColumnsIn(t, t.columns) <==>
      && c in t.columns && c != TimestampColumn && c in t.types
      && (t.types[c] == Integer || t.types[c] == Float) && c !in BooleanLikeColumns && c !in CodeColumns
  {
    if c in StringColumnsIn(t, t.columns) {
      var i :| 0 <= i < |StringColumnsIn(t, t.columns)| && StringColumnsIn(t, t.columns)[i] == c;
    }
    if c in NumericColumnsIn(t, t.columns) {
      var i :| 0 <= i < |NumericColumnsIn(t, t.columns)| && NumericColumnsIn(t, t.columns)[i] == c;
    }
    if c in t.columns {
      var i :| 0 <= i < |t.columns| && t.columns[i] == c;
    }
  }

  /** The two lists are disjoint, never hold timestamp and keep the table's column order. */
  lemma CategorizePartition(t: Table)
    ensures var s := StringColumnsIn(t, t.columns); var n := NumericColumnsIn(t, t.columns);
      && TimestampColumn !in s && TimestampColumn !in n
      && (forall c | c in s :: c !in n)
      && IsSubsequence(s, t.columns) && IsSubsequence(n, t.columns)
      && (Distinct(t.columns) ==> Distinct(s) && Distinct(n))
  {
    var s := StringColumnsIn(t, t.columns);
    var n := NumericColumnsIn(t, t.columns);
    CategorizeRules(t, TimestampColumn);
    forall c | c in s ensures c !in n {
      CategorizeRules(t, c);
    }
    FilterIsSubsequence(t.columns, c => KindOf(t, c) == StringAttr);
    FilterIsSubsequence(t.columns, c => KindOf(t, c) == NumericAttr);
    if Distinct(t.columns) {
      FilterDistinct(t.columns, c => KindOf(t, c) == StringAttr);
      FilterDistinct(t.columns, c => KindOf(t, c) == NumericAttr);
    }
  }

  // ---------------------------------------------------------------------------
  // populate_metadata_tables: the attribute dictionaries
  // ---------------------------------------------------------------------------

  /** One row of an attribute dictionary (stringcols or numericcols). */
  datatype AttrDef = AttrDef(id: nat, name: string)

  /** An attribute dictionary: its rows in insertion order and its AUTO_INCREMENT counter. */
  datatype Dictionary = Dictionary(entries: seq<AttrDef>, nextId: nat)

  const EmptyDictionary := Dictionary([], 1)

  predicate Registered(d: Dictionary, name: string) {
    exists i | 0 <= i < |d.entries| :: d.entries[i].name == name
  }

  /** Names are unique (the column_name constraint) and ids are handed out in increasing
      order from 1, below the counter. */
  predicate WellFormed(d: Dictionary) {
    && (forall i, j | 0 <= i < j < |d.entries| :: d.entries[i].name != d.entries[j].name && d.entries[i].id < d.entries[j].id)
    && (forall i | 0 <= i < |d.entries| :: 1 <= d.entries[i].id < d.nextId)
    && 1 <= d.nextId
  }

  /** One INSERT of a name: a duplicate violates the unique constraint and the IntegrityError
      is swallowed; otherwise the row gets the next id. */
  function Insert(d: Dictionary, name: string): Dictionary {
    if Registered(d, name) then d
    else Dictionary(d.entries + [AttrDef(d.nextId, name)], d.nextId + 1)
  }

  /** The INSERT loop over a list of names, in order. */
  function InsertAll(d: Dictionary, names: seq<string>): Dictionary
    decreases |names|
  {
    if names == [] then d else Insert(InsertAll(d, names[..|names| - 1]), names[|names| - 1])
  }

  /** The id cache built from SELECT id, column_name: later rows win a clash. */
  function IdsOf(entries: seq<AttrDef>): map<string, nat>
    decreases |entries|
  {
    if entries == [] then map[]
    else IdsOf(entries[..|entries| - 1])[entries[|entries| - 1].name := entries[|entries| - 1].id]
  }

  /** An insert keeps the dictionary well-formed, never changes an existing row, and
      ignores a name already present. */
  lemma InsertSpec(d: Dictionary, name: string)
    requires WellFormed(d)
    ensures var r := Insert(d, name);
      && WellFormed(r) && d.entries <= r.entries
      && (Registered(d, name) ==> r == d)
  {
  }

  /** An insert registers the name and nothing else. */
  lemma InsertRegisters(d: Dictionary, name: string)
    ensures forall n :: Registered(Insert(d, name), n) <==> Registered(d, n) || n == name
  {
    var r := Insert(d, name);
    if !Registered(d, name) {
      assert r.entries[|d.entries|].name == name;
      forall n | Registered(d, n) ensures Registered(r, n) {
        var i :| 0 <= i < |d.entries| && d.entries[i].name == n;
        assert r.entries[i] == d.entries[i];
      }
      forall n | Registered(r, n) && n != name ensures Registered(d, n) {
        var i :| 0 <= i < |r.entries| && r.entries[i].name == n;
        assert d.entries[i] == r.entries[i];
      }
    }
  }

  /** Inserting every name of a list keeps the dictionary well-formed and keeps every
      existing row, so the ids handed out earlier are stable. */
  lemma {:induction false} InsertAllSpec(d: Dictionary, names: seq<string>)
    requires WellFormed(d)
    ensures var r := InsertAll(d, names);
      WellFormed(r) && d.entries <= r.entries
    decreases |names|
  {
    if names != [] {
      InsertAllSpec(d, names[..|names| - 1]);
      InsertSpec(InsertAll(d, names[..|names| - 1]), names[|names| - 1]);
    }
  }

  /** Afterwards exactly the names registered before and the listed names are registered,
      whatever the dictionary held. */
  lemma {:induction false} InsertAllRegisters(d: Dictionary, names: seq<string>)
    ensures forall n :: Registered(InsertAll(d, names), n) <==> Registered(d, n) || n in names
    decreases |names|
  {
    if names != [] {
      var init := names[..|names| - 1];
      var x := names[|names| - 1];
      var r0 := InsertAll(d, init);
      InsertAllRegisters(d, init);
      InsertRegisters(r0, x);
      assert names == init + [x];
      forall n ensures Registered(Insert(r0, x), n) <==> Registered(d, n) || n in names {
        assert Registered(Insert(r0, x), n) <==> Registered(r0, n) || n == x;
        assert Registered(r0, n) <==> Registered(d, n) || n in init;
      }
    }
  }

  /** Running the metadata load a second time with the same names changes nothing. */
  lemma {:induction false} InsertAllIdempotent(d: Dictionary, names: seq<string>)
    ensures InsertAll(InsertAll(d, names), names) == InsertAll(d, names)
  {
    var r := InsertAll(d, names);
    InsertAllRegisters(d, names);
    InsertAllOfRegistered(r, names);
  }

  lemma {:induction false} InsertAllOfRegistered(d: Dictionary, names: seq<string>)
    requires forall n | n in names :: Registered(d, n)
    ensures InsertAll(d, names) == d
    decreases |names|
  {
    if names != [] {
      var init := names[..|names| - 1];
      assert forall n | n in init :: n in names;
      InsertAllOfRegistered(d, init);
    }
  }

  /** The cache has a key for exactly the registered names. */
  lemma {:induction false} IdsOfKeys(entries: seq<AttrDef>)
    ensures forall n :: n in IdsOf(entries) <==> exists i | 0 <= i < |entries| :: entries[i].name == n
    decreases |entries|
  {
    if entries != [] {
      var init := entries[..|entries| - 1];
      IdsOfKeys(init);
      forall n | n in IdsOf(entries) ensures exists i | 0 <= i < |entries| :: entries[i].name == n {
        if n != entries[|entries| - 1].name {
          assert n in IdsOf(init);
          var i :| 0 <= i < |init| && init[i].name == n;
          assert entries[i] == init[i];
        }
      }
      forall n | exists i | 0 <= i < |entries| :: entries[i].name == n ensures n in IdsOf(entries) {
        var i :| 0 <= i < |entries| && entries[i].name == n;
        if i < |init| {
          assert init[i] == entries[i];
        }
      }
    }
  }

  /** With unique names the cache maps every name to the id of its row. */
  lemma {:induction false} IdsOfValues(entries: seq<AttrDef>)
    requires forall i, j | 0 <= i < j < |entries| :: entries[i].name != entries[j].name
    ensures forall i | 0 <= i < |entries| :: entries[i].name in IdsOf(entries) && IdsOf(entries)[entries[i].name] == entries[i].id
    decreases |entries|
  {
    if entries != [] {
      var init := entries[..|entries| - 1];
      IdsOfValues(init);
      forall i | 0 <= i < |entries|
        ensures entries[i].name in IdsOf(entries) && IdsOf(entries)[entries[i].name] == entries[i].id
      {
        if i < |init| {
          assert init[i] == entries[i];
        }
      }
    }
  }

  predicate Injective(ids: map<string, nat>) {
    forall a, b | a in ids && b in ids && a != b :: ids[a] != ids[b]
  }

  /** Ids in well-formed dictionaries are injective: two names never share an id. */
  lemma IdsInjective(d: Dictionary)
    requires WellFormed(d)
    ensures Injective(IdsOf(d.entries))
  {
    var ids := IdsOf(d.entries);
    IdsOfKeys(d.entries);
    IdsOfValues(d.entries);
    forall a, b | a in ids && b in ids && a != b ensures ids[a] != ids[b] {
      var i :| 0 <= i < |d.entries| && d.entries[i].name == a;
      var j :| 0 <= j < |d.entries| && d.entries[j].name == b;
      assert i != j;
    }
  }

  // ---------------------------------------------------------------------------
  // populate_runs_table and the fact loaders
  // ---------------------------------------------------------------------------

  /** A row of the runs table. */
  datatype Run = Run(id: nat, timestamp: Cell)

  /** A row of runid_stringvalues or runid_numericvalues. */
  datatype Fact = Fact(runId: nat, attrId: nat, value: Cell)

  /** The runs the rows produce when the counter stands at first. */
  function RunsFor(rows: seq<Row>, first: nat): (runs: seq<Run>)
    ensures |runs| == |rows|
  {
    seq(|rows|, i requires 0 <= i < |rows| => Run(first + i, At(rows[i], TimestampColumn)))
  }

  /** The facts a loader emits, and the column whose id lookup raised, if any. */
  datatype Emission = Emission(facts: seq<Fact>, missing: Option<string>)

  /** The inner loop over the classified columns of one row with the given run id: a missing
      cell is skipped, an unregistered column stops the load. */
  function EmitRow(runId: nat, row: Row, cols: seq<string>, ids: map<string, nat>): Emission
    decreases |cols|
  {
    if cols == [] then Emission([], None)
    else
      var e := EmitRow(runId, row, cols[..|cols| - 1], ids);
      var c := cols[|cols| - 1];
      if e.missing.Some? || At(row, c) == Missing then e
      else if c !in ids then Emission(e.facts, Some(c))
      else Emission(e.facts + [Fact(runId, ids[c], At(row, c))], None)
  }

  /** The outer loop: row k (1-based) gets run id k. */
  function EmitRows(rows: seq<Row>, cols: seq<string>, ids: map<string, nat>): Emission
    decreases |rows|
  {
    if rows == [] then Emission([], None)
    else
      var e := EmitRows(rows[..|rows| - 1], cols, ids);
      if e.missing.Some? then e
      else
        var r := EmitRow(|rows|, rows[|rows| - 1], cols, ids);
        Emission(e.facts + r.facts, r.missing)
  }

  /** f is the fact that a non-missing cell of row i (0-based) in one of cols yields. */
  predicate FromRow(f: Fact, rows: seq<Row>, i: int, cols: seq<string>, ids: map<string, nat>) {
    && 0 <= i < |rows| && f.runId == i + 1
    && exists c | c in cols && c in ids && At(rows[i], c) != Missing :: f.attrId == ids[c] && f.value == At(rows[i], c)
  }

  predicate InjectiveOn(ids: map<string, nat>, cols: seq<string>) {
    forall a, b | a in cols && b in cols && a in ids && b in ids && a != b :: ids[a] != ids[b]
  }

  /** One row's facts: the row stops exactly at an unregistered column with a value, and
      otherwise yields one fact per non-missing cell and no other. */
  lemma {:induction false} EmitRowSpec(runId: nat, row: Row, cols: seq<string>, ids: map<string, nat>)
    ensures var e := EmitRow(runId, row, cols, ids);
      && (e.missing == None <==> forall c | c in cols && At(row, c) != Missing :: c in ids)
      && (e.missing.Some? ==> e.missing.value in cols && e.missing.value !in ids && At(row, e.missing.value) != Missing)
      && (forall f | f in e.facts :: f.runId == runId &&
            exists c | c in cols && c in ids && At(row, c) != Missing :: f.attrId == ids[c] && f.value == At(row, c))
      && (e.missing == None ==> forall c | c in cols && At(row, c) != Missing :: Fact(runId, ids[c], At(row, c)) in e.facts)
    decreases |cols|
  {
    if cols != [] {
      var init := cols[..|cols| - 1];
      var c := cols[|cols| - 1];
      EmitRowSpec(runId, row, init, ids);
      assert cols == init + [c];
    }
  }

  /** A row stops at the first column, in classified order, whose cell has a value but whose
      name has no id: every earlier column of the row was either missing or registered. */
  lemma {:induction false} EmitRowFirstMiss(runId: nat, row: Row, cols: seq<string>, ids: map<string, nat>)
    ensures var e := EmitRow(runId, row, cols, ids);
      e.missing.Some? ==>
        exists j | 0 <= j < |cols| :: && cols[j] == e.missing.value
          && forall j' | 0 <= j' < j :: At(row, cols[j']) == Missing || cols[j'] in ids
    decreases |cols|
  {
    if cols != [] {
      var init := cols[..|cols| - 1];
      var e0 := EmitRow(runId, row, init, ids);
      EmitRowFirstMiss(runId, row, init, ids);
      if e0.missing.Some? {
        var j :| 0 <= j < |init| && init[j] == e0.missing.value
          && forall j' | 0 <= j' < j :: At(row, init[j']) == Missing || init[j'] in ids;
        assert cols[j] == init[j];
        assert forall j' | 0 <= j' < j :: cols[j'] == init[j'];
      } else {
        EmitRowSpec(runId, row, init, ids);
        forall j' | 0 <= j' < |cols| - 1 ensures At(row, cols[j']) == Missing || cols[j'] in ids {
          assert cols[j'] == init[j'] && init[j'] in init;
        }
      }
    }
  }

  /** Within one row no two facts share an attribute id. */
  lemma {:induction false} EmitRowAttrsDistinct(runId: nat, row: Row, cols: seq<string>, ids: map<string, nat>)
    requires Distinct(cols) && InjectiveOn(ids, cols)
    ensures var fs := EmitRow(runId, row, cols, ids).facts;
      forall p, q | 0 <= p < q < |fs| :: fs[p].attrId != fs[q].attrId
    decreases |cols|
  {
    if cols != [] {
      var init := cols[..|cols| - 1];
      var c := cols[|cols| - 1];
      assert cols == init + [c];
      assert Distinct(init) && c !in init;
      EmitRowAttrsDistinct(runId, row, init, ids);
      EmitRowSpec(runId, row, init, ids);
      var prev := EmitRow(runId, row, init, ids).facts;
      var fs := EmitRow(runId, row, cols, ids).facts;
      forall p, q | 0 <= p < q < |fs| ensures fs[p].attrId != fs[q].attrId {
        if q >= |prev| {
          assert prev[p] in prev;
        }
      }
    }
  }

  lemma {:induction false} EmitRowStops(runId: nat, row: Row, cols: seq<string>, ids: map<string, nat>, k: nat)
    requires k <= |cols| && EmitRow(runId, row, cols[..k], ids).missing.Some?
    ensures EmitRow(runId, row, cols, ids) == EmitRow(runId, row, cols[..k], ids)
    decreases |cols| - k
  {
    if k == |cols| {
      assert cols[..k] == cols;
    } else {
      assert cols[..k + 1][..k] == cols[..k];
      EmitRowStops(runId, row, cols, ids, k + 1);
    }
  }

  lemma {:induction false} EmitRowsStops(rows: seq<Row>, cols: seq<string>, ids: map<string, nat>, k: nat)
    requires k <= |rows| && EmitRows(rows[..k], cols, ids).missing.Some?
    ensures EmitRows(rows, cols, ids) == EmitRows(rows[..k], cols, ids)
    decreases |rows| - k
  {
    if k == |rows| {
      assert rows[..k] == rows;
    } else {
      assert rows[..k + 1][..k] == rows[..k];
      EmitRowsStops(rows, cols, ids, k + 1);
    }
  }

  /** A load stops exactly when some non-missing cell sits in an unregistered column, and
      then names such a column. */
  lemma {:induction false} EmitRowsFailure(rows: seq<Row>, cols: seq<string>, ids: map<string, nat>)
    ensures var e := EmitRows(rows, cols, ids);
      && (e.missing == None <==> forall i, c | 0 <= i < |rows| && c in cols && At(rows[i], c) != Missing :: c in ids)
      && (e.missing.Some? ==> e.missing.value in cols && e.missing.value !in ids)
    decreases |rows|
  {
    if rows != [] {
      var n := |rows| - 1;
      var init := rows[..n];
      EmitRowsFailure(init, cols, ids);
      EmitRowSpec(n + 1, rows[n], cols, ids);
      assert forall i | 0 <= i < n :: init[i] == rows[i];
    }
  }

  /** Every emitted fact comes from a non-missing cell of the row its run id numbers. */
  lemma {:induction false} EmitRowsSound(rows: seq<Row>, cols: seq<string>, ids: map<string, nat>)
    ensures forall f | f in EmitRows(rows, cols, ids).facts :: FromRow(f, rows, f.runId - 1, cols, ids)
    decreases |rows|
  {
    if rows != [] {
      var n := |rows| - 1;
      var init := rows[..n];
      EmitRowsSound(init, cols, ids);
      EmitRowSpec(n + 1, rows[n], cols, ids);
      forall f | f in EmitRows(init, cols, ids).facts ensures FromRow(f, rows, f.runId - 1, cols, ids) {
        assert FromRow(f, init, f.runId - 1, cols, ids);
        assert init[f.runId - 1] == rows[f.runId - 1];
      }
    }
  }

  /** A load that does not stop emits a fact for every non-missing cell. */
  lemma {:induction false} EmitRowsComplete(rows: seq<Row>, cols: seq<string>, ids: map<string, nat>)
    requires EmitRows(rows, cols, ids).missing == None
    ensures forall i, c | 0 <= i < |rows| && c in cols && At(rows[i], c) != Missing ::
      c in ids && Fact(i + 1, ids[c], At(rows[i], c)) in EmitRows(rows, cols, ids).facts
    decreases |rows|
  {
    if rows != [] {
      var n := |rows| - 1;
      var init := rows[..n];
      EmitRowsComplete(init, cols, ids);
      EmitRowSpec(n + 1, rows[n], cols, ids);
      forall i, c | 0 <= i < n && c in cols && At(rows[i], c) != Missing
        ensures c in ids && Fact(i + 1, ids[c], At(rows[i], c)) in EmitRows(rows, cols, ids).facts
      {
        assert init[i] == rows[i];
      }
    }
  }

  /** With distinct columns and injective ids, there is at most one fact per (run, attribute). */
  lemma {:induction false} EmitRowsOneFactPerCell(rows: seq<Row>, cols: seq<string>, ids: map<string, nat>)
    requires Distinct(cols) && InjectiveOn(ids, cols)
    ensures var fs := EmitRows(rows, cols, ids).facts;
      forall p, q | 0 <= p < q < |fs| :: fs[p].runId != fs[q].runId || fs[p].attrId != fs[q].attrId
    decreases |rows|
  {
    if rows != [] {
      var n := |rows| - 1;
      var init := rows[..n];
      EmitRowsOneFactPerCell(init, cols, ids);
      var e := EmitRows(init, cols, ids);
      if e.missing == None {
        EmitRowsSound(init, cols, ids);
        EmitRowSpec(n + 1, rows[n], cols, ids);
        EmitRowAttrsDistinct(n + 1, rows[n], cols, ids);
        var r := EmitRow(n + 1, rows[n], cols, ids).facts;
        var fs := e.facts + r;
        assert EmitRows(rows, cols, ids).facts == fs;
        forall p, q | 0 <= p < q < |fs| ensures fs[p].runId != fs[q].runId || fs[p].attrId != fs[q].attrId {
          if q < |e.facts| {
            assert fs[p] == e.facts[p] && fs[q] == e.facts[q];
            assert 0 <= p < q < |EmitRows(init, cols, ids).facts|;
            assert EmitRows(init, cols, ids).facts[p].runId != EmitRows(init, cols, ids).facts[q].runId || EmitRows(init, cols, ids).facts[p].attrId != EmitRows(init, cols, ids).facts[q].attrId;
          } else if p < |e.facts| {
            assert fs[p] == e.facts[p] && e.facts[p] in e.facts;
            assert FromRow(e.facts[p], init, e.facts[p].runId - 1, cols, ids);
            assert fs[q] == r[q - |e.facts|] && r[q - |e.facts|] in r;
            assert fs[p].runId <= n;
            assert fs[q].runId == n + 1;
          } else {
            assert fs[p] == r[p - |e.facts|] && fs[q] == r[q - |e.facts|];
            assert fs[p].attrId != fs[q].attrId;
          }
        }
      }
    }
  }

  /** Joining a fact to the run with the same id lands on the run of the fact's own row
      exactly when the runs were numbered from 1, as on a freshly created schema. */
  lemma FactsJoinOwnRun(rows: seq<Row>, cols: seq<string>, ids: map<string, nat>, first: nat)
    ensures var runs := RunsFor(rows, first);
      forall f | f in EmitRows(rows, cols, ids).facts ::
        (exists i | 0 <= i < |rows| :: runs[i].id == f.runId && FromRow(f, rows, i, cols, ids)) <==> first == 1
  {
    var runs := RunsFor(rows, first);
    EmitRowsSound(rows, cols, ids);
    forall f | f in EmitRows(rows, cols, ids).facts && first == 1
      ensures exists i | 0 <= i < |rows| :: runs[i].id == f.runId && FromRow(f, rows, i, cols, ids)
    {
      var i := f.runId - 1;
      assert runs[i].id == f.runId && FromRow(f, rows, i, cols, ids);
    }
  }

  /** A second load exposes the numbering: the one run it inserts gets id 2 from the counter,
      while the fact of the same row still carries run id 1, the first load's run. */
  lemma SecondLoadFactMisjoins()
    ensures var rows := [map["press" := Num(1.0)]];
      && RunsFor(rows, 2) == [Run(2, Missing)]
      && EmitRows(rows, ["press"], map["press" := 1]).facts == [Fact(1, 1, Num(1.0))]
  {
    var rows := [map["press" := Num(1.0)]];
    assert rows[..0] == [];
  }

  /** f is the fact a non-missing cell of row in one of cols yields. */
  predicate CellFact(f: Fact, row: Row, cols: seq<string>, ids: map<string, nat>) {
    exists c | c in cols && c in ids && At(row, c) != Missing :: f.attrId == ids[c] && f.value == At(row, c)
  }

  /** The loaders with run ids taken from the runs just inserted: row k (0-based) gets the id
      first + k the runs table gave it, where the scripts use k + 1. */
  function EmitRowsFrom(rows: seq<Row>, cols: seq<string>, ids: map<string, nat>, first: nat): Emission
    decreases |rows|
  {
    if rows == [] then Emission([], None)
    else
      var e := EmitRowsFrom(rows[..|rows| - 1], cols, ids, first);
      if e.missing.Some? then e
      else
        var r := EmitRow(first + |rows| - 1, rows[|rows| - 1], cols, ids);
        Emission(e.facts + r.facts, r.missing)
  }

  /** On a fresh runs table, numbering by the inserted ids is what the scripts do. */
  lemma {:induction false} EmitRowsFromOne(rows: seq<Row>, cols: seq<string>, ids: map<string, nat>)
    ensures EmitRowsFrom(rows, cols, ids, 1) == EmitRows(rows, cols, ids)
    decreases |rows|
  {
    if rows != [] {
      EmitRowsFromOne(rows[..|rows| - 1], cols, ids);
    }
  }

  /** With run ids taken from the inserted runs, every fact joins the run inserted for its own
      row, whatever the counter stood at before the load. */
  lemma {:induction false} FactsJoinInsertedRun(rows: seq<Row>, cols: seq<string>, ids: map<string, nat>, first: nat)
    ensures var runs := RunsFor(rows, first);
      forall f | f in EmitRowsFrom(rows, cols, ids, first).facts ::
        && first <= f.runId < first + |rows|
        && runs[f.runId - first].id == f.runId
        && CellFact(f, rows[f.runId - first], cols, ids)
    decreases |rows|
  {
    if rows != [] {
      var n := |rows| - 1;
      var init := rows[..n];
      FactsJoinInsertedRun(init, cols, ids, first);
      EmitRowSpec(first + n, rows[n], cols, ids);
      forall f | f in EmitRowsFrom(init, cols, ids, first).facts
        ensures first <= f.runId < first + |rows| && CellFact(f, rows[f.runId - first], cols, ids)
      {
        assert init[f.runId - first] == rows[f.runId - first];
      }
    }
  }

  /** The nested loop shared by populate_string_values and populate_numeric_values: row k
      (1-based) gets run id k, missing cells are skipped, and an unregistered column aborts. */
  method CollectFacts(rows: seq<Row>, cols: seq<string>, ids: map<string, nat>)
    returns (facts: seq<Fact>, total: nat, missing: Option<string>)
    ensures Emission(facts, missing) == EmitRows(rows, cols, ids)
    ensures total == |facts|
  {
    facts, total, missing := [], 0, None;
    for i := 0 to |rows|
      invariant EmitRows(rows[..i], cols, ids) == Emission(facts, None)
      invariant total == |facts|
    {
      var runId := i + 1;
      var row := rows[i];
      ghost var before := facts;
      assert rows[..i + 1][..i] == rows[..i];
      for j := 0 to |cols|
        invariant facts == before + EmitRow(runId, row, cols[..j], ids).facts
        invariant EmitRow(runId, row, cols[..j], ids).missing == None
        invariant total == |facts|
      {
        var col := cols[j];
        var value := At(row, col);
        assert cols[..j + 1][..j] == cols[..j];
        if value == Missing {
          continue;
        }
        if col !in ids {
          missing := Some(col);
          EmitRowStops(runId, row, cols, ids, j + 1);
          EmitRowsStops(rows, cols, ids, i + 1);
          return;
        }
        facts := facts + [Fact(runId, ids[col], value)];
        total := total + 1;
      }
      assert cols[..|cols|] == cols;
    }
    assert rows[..|rows|] == rows;
  }

  /** Loading columns right after registering them never hits an unregistered column. */
  lemma RegisteredLoadSucceeds(rows: seq<Row>, cols: seq<string>, d: Dictionary)
    ensures EmitRows(rows, cols, IdsOf(InsertAll(d, cols).entries)).missing == None
  {
    var r := InsertAll(d, cols);
    var ids := IdsOf(r.entries);
    InsertAllRegisters(d, cols);
    IdsOfKeys(r.entries);
    assert forall c | c in cols :: c in ids;
    EmitRowsFailure(rows, cols, ids);
  }

  /** With a well-formed dictionary and duplicate-free columns, registering then loading
      yields at most one fact per (run, attribute). */
  lemma RegisteredLoadOneFactPerCell(rows: seq<Row>, cols: seq<string>, d: Dictionary)
    requires WellFormed(d) && Distinct(cols)
    ensures var fs := EmitRows(rows, cols, IdsOf(InsertAll(d, cols).entries)).facts;
      forall p, q | 0 <= p < q < |fs| :: fs[p].runId != fs[q].runId || fs[p].attrId != fs[q].attrId
  {
    var r := InsertAll(d, cols);
    InsertAllSpec(d, cols);
    var ids := IdsOf(r.entries);
    IdsInjective(r);
    assert InjectiveOn(ids, cols) by {
      forall a, b | a in cols && b in cols && a in ids && b in ids && a != b ensures ids[a] != ids[b] {
      }
    }
    EmitRowsOneFactPerCell(rows, cols, ids);
  }

  // ---------------------------------------------------------------------------
  // The database: dictionaries, runs and the two fact tables
  // ---------------------------------------------------------------------------

  class Database {
    var stringCols: Dictionary
    var numericCols: Dictionary
    var runs: seq<Run>
    var nextRunId: nat
    var stringValues: seq<Fact>
    var numericValues: seq<Fact>

    /** A freshly created schema: every table empty, every counter at 1. */
    constructor ()
      ensures stringCols == EmptyDictionary && numericCols == EmptyDictionary
      ensures runs == [] && nextRunId == 1 && stringValues == [] && numericValues == []
    {
      stringCols, numericCols := EmptyDictionary, EmptyDictionary;
      runs, nextRunId := [], 1;
      stringValues, numericValues := [], [];
    }

    /** populate_metadata_tables: insert every string name, then every numeric name, then
        read back both id caches. */
    method PopulateMetadataTables(stringNames: seq<string>, numericNames: seq<string>)
      returns (stringIds: map<string, nat>, numericIds: map<string, nat>)
      modifies this
      ensures stringCols == InsertAll(old(stringCols), stringNames)
      ensures numericCols == InsertAll(old(numericCols), numericNames)
      ensures stringIds == IdsOf(stringCols.entries) && numericIds == IdsOf(numericCols.entries)
      ensures runs == old(runs) && nextRunId == old(nextRunId)
      ensures stringValues == old(stringValues) && numericValues == old(numericValues)
    {
      for k := 0 to |stringNames|
        invariant stringCols == InsertAll(old(stringCols), stringNames[..k])
        invariant numericCols == old(numericCols)
        invariant runs == old(runs) && nextRunId == old(nextRunId)
        invariant stringValues == old(stringValues) && numericValues == old(numericValues)
      {
        assert stringNames[..k + 1][..k] == stringNames[..k];
        stringCols := Insert(stringCols, stringNames[k]);
      }
      assert stringNames[..|stringNames|] == stringNames;
      for k := 0 to |numericNames|
        invariant numericCols == InsertAll(old(numericCols), numericNames[..k])
        invariant stringCols == InsertAll(old(stringCols), stringNames)
        invariant runs == old(runs) && nextRunId == old(nextRunId)
        invariant stringValues == old(stringValues) && numericValues == old(numericValues)
      {
        assert numericNames[..k + 1][..k] == numericNames[..k];
        numericCols := Insert(numericCols, numericNames[k]);
      }
      assert numericNames[..|numericNames|] == numericNames;
      stringIds := IdsOf(stringCols.entries);
      numericIds := IdsOf(numericCols.entries);
    }

    /** populate_runs_table: one run per row, in row order, numbered by the counter. */
    method PopulateRunsTable(t: Table)
      modifies this
      ensures runs == old(runs) + RunsFor(t.rows, old(nextRunId))
      ensures nextRunId == old(nextRunId) + |t.rows|
      ensures stringCols == old(stringCols) && numericCols == old(numericCols)
      ensures stringValues == old(stringValues) && numericValues == old(numericValues)
    {
      for i := 0 to |t.rows|
        invariant runs == old(runs) + RunsFor(t.rows[..i], old(nextRunId))
        invariant nextRunId == old(nextRunId) + i
        invariant stringCols == old(stringCols) && numericCols == old(numericCols)
        invariant stringValues == old(stringValues) && numericValues == old(numericValues)
      {
        assert RunsFor(t.rows[..i + 1], old(nextRunId)) == RunsFor(t.rows[..i], old(nextRunId)) + [Run(nextRunId, At(t.rows[i], TimestampColumn))];
        runs := runs + [Run(nextRunId, At(t.rows[i], TimestampColumn))];
        nextRunId := nextRunId + 1;
      }
      assert t.rows[..|t.rows|] == t.rows;
    }

    /** populate_string_values: the facts of the string columns, with their count; a column
        missing from the id cache raises after the facts before it were inserted. */
    method PopulateStringValues(t: Table, cols: seq<string>, ids: map<string, nat>)
      returns (total: nat, failure: Option<string>)
      modifies this
      ensures var e := EmitRows(t.rows, cols, ids);
        stringValues == old(stringValues) + e.facts && total == |e.facts| && failure == e.missing
      ensures stringCols == old(stringCols) && numericCols == old(numericCols)
      ensures runs == old(runs) && nextRunId == old(nextRunId) && numericValues == old(numericValues)
    {
      var facts;
      facts, total, failure := CollectFacts(t.rows, cols, ids);
      stringValues := stringValues + facts;
    }

    /** populate_numeric_values: the same loop into the numeric fact table. */
    method PopulateNumericValues(t: Table, cols: seq<string>, ids: map<string, nat>)
      returns (total: nat, failure: Option<string>)
      modifies this
      ensures var e := EmitRows(t.rows, cols, ids);
        numericValues == old(numericValues) + e.facts && total == |e.facts| && failure == e.missing
      ensures stringCols == old(stringCols) && numericCols == old(numericCols)
      ensures runs == old(runs) && nextRunId == old(nextRunId) && stringValues == old(stringValues)
    {
      var facts;
      facts, total, failure := CollectFacts(t.rows, cols, ids);
      numericValues := numericValues + facts;
    }
  }

  /** The load sequence: clean the CSV, classify its columns, register them, insert the
      runs, then the string facts and the numeric facts; a KeyError ends the sequence. On
      success the outcome holds the two fact counts. */
  method LoadCsv(db: Database, csv: Table) returns (outcome: Result<(nat, nat)>)
    modifies db
    ensures CleanedCsv(csv).KeyError? ==> outcome == KeyError(CleanedCsv(csv).keys) && unchanged(db)
    ensures CleanedCsv(csv).Ok? ==>
      var t := CleanedCsv(csv).value;
      var s := StringColumnsIn(t, t.columns);
      var n := NumericColumnsIn(t, t.columns);
      var sd := InsertAll(old(db.stringCols), s);
      var nd := InsertAll(old(db.numericCols), n);
      var es := EmitRows(t.rows, s, IdsOf(sd.entries)).facts;
      var en := EmitRows(t.rows, n, IdsOf(nd.entries)).facts;
      && outcome == Ok((|es|, |en|))
      && db.stringCols == sd && db.numericCols == nd
      && db.runs == old(db.runs) + RunsFor(t.rows, old(db.nextRunId))
      && db.nextRunId == old(db.nextRunId) + |t.rows|
      && db.stringValues == old(db.stringValues) + es
      && db.numericValues == old(db.numericValues) + en
  {
    var cleaned := LoadAndCleanCsv(csv);
    if cleaned.KeyError? {
      return KeyError(cleaned.keys);
    }
    var t := cleaned.value;
    var stringNames, numericNames := CategorizeColumns(t);
    var stringIds, numericIds := db.PopulateMetadataTables(stringNames, numericNames);
    db.PopulateRunsTable(t);
    RegisteredLoadSucceeds(t.rows, stringNames, old(db.stringCols));
    RegisteredLoadSucceeds(t.rows, numericNames, old(db.numericCols));
    var stringTotal, stringFailure := db.PopulateStringValues(t, stringNames, stringIds);
    var numericTotal, numericFailure := db.PopulateNumericValues(t, numericNames, numericIds);
    assert stringFailure == None && numericFailure == None;
    outcome := Ok((stringTotal, numericTotal));
  }

  /** On a freshly created schema the classified columns of a table load without a failed
      lookup, every fact joins by run id the run of its own row, and no (run, attribute)
      pair carries two facts; the classified lists of a well-formed table are duplicate-free. */
  lemma FreshLoadConsistent(rows: seq<Row>, cols: seq<string>)
    requires Distinct(cols)
    ensures var ids := IdsOf(InsertAll(EmptyDictionary, cols).entries);
      var e := EmitRows(rows, cols, ids);
      var runs := RunsFor(rows, 1);
      && e.missing == None
      && (forall f | f in e.facts :: exists i | 0 <= i < |rows| :: runs[i].id == f.runId && FromRow(f, rows, i, cols, ids))
      && (forall p, q | 0 <= p < q < |e.facts| :: e.facts[p].runId != e.facts[q].runId || e.facts[p].attrId != e.facts[q].attrId)
  {
    var ids := IdsOf(InsertAll(EmptyDictionary, cols).entries);
    RegisteredLoadSucceeds(rows, cols, EmptyDictionary);
    RegisteredLoadOneFactPerCell(rows, cols, EmptyDictionary);
    FactsJoinOwnRun(rows, cols, ids, 1);
  }
}
