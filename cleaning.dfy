/** execute_senior_db_cleaning (cleaning.py:5-105): the eight cleaning phases over the table,
    each a function from the table before to the table after plus the report lines it adds,
    and a Cleaner object that runs them in order on one table and one report. */
module Cleaning {
  import opened Text
  import opened Frame
  import opened Fuzzy

  // ---------------------------------------------------------------------------
  // The report
  // ---------------------------------------------------------------------------

  /** One line of the cleaning report. The wording of each line is abstracted into a tag and
      the values the line prints. */
  datatype ReportLine =
    | Title                                 // the report heading
    | Rule(ch: char, width: nat)            // "=" * 70 or "-" * 70
    | InputFile(name: string)
    | InitialRows(n: nat)
    | InitialColumns(n: nat)
    | Blank
    | NullsReplaced(count: nat)             // [NULL_MGT]
    | TimestampConverted                    // [SCHEMA] timestamp -> date
    | ConstantColumnsDropped(cols: seq<string>)
    | TextNormalized                        // [TEXT_NORM]
    | TypoScanStarted                       // [TYPO_CLEAN]
    | TypoFixed(typo: string, canonical: string)
    | PromotedToNumeric(col: string)
    | NarrowedToInteger(col: string)        // [OPTIMIZE]
    | FixedToBoolean(col: string)
    | DuplicatesRemoved(count: nat)         // [CLEANUP]
    | ClosingRule                           // "\n" + "=" * 70
    | FinalSummary
    | FinalRows(n: nat)
    | FinalColumns(n: nat)

  const RuleWidth: nat := 70

  /** What a phase produces: the table after it and the report lines it appends. */
  datatype Step = Step(table: Table, lines: seq<ReportLine>)

  /** The seven lines written before any phase runs (cleaning.py:11-19). */
  function Header(inputFile: string, t: Table): seq<ReportLine> {
    [Title, Rule('=', RuleWidth), InputFile(inputFile), InitialRows(|t.rows|),
     InitialColumns(|t.columns|), Rule('-', RuleWidth), Blank]
  }

  // ---------------------------------------------------------------------------
  // Phase 1: the '?' placeholder becomes a missing value (cleaning.py:22-24)
  // ---------------------------------------------------------------------------

  predicate IsQuestionMark(c: Cell) {
    c == Str("?")
  }

  predicate IsMissing(c: Cell) {
    c == Missing
  }

  function BlankQuestionMark(c: Cell): Cell {
    if IsQuestionMark(c) then Missing else c
  }

  /** (df == '?').sum().sum() */
  function QuestionMarks(t: Table): nat {
    CountCells(t.rows, IsQuestionMark)
  }

  function NullTokenPhase(t: Table): Step {
    Step(t.(rows := MapCells(t.rows, BlankQuestionMark)), [NullsReplaced(QuestionMarks(t))])
  }

  /** In one row, the missing cells after the rewrite are the missing cells and the '?'
      cells before it. */
  lemma BlankRowCounts(r: Row)
    ensures var r' := map k | k in r :: BlankQuestionMark(r[k]);
      && |KeysWhere(r', IsQuestionMark)| == 0
      && |KeysWhere(r', IsMissing)| == |KeysWhere(r, IsMissing)| + |KeysWhere(r, IsQuestionMark)|
  {
    var r' := map k | k in r :: BlankQuestionMark(r[k]);
    assert KeysWhere(r', IsQuestionMark) == {};
    assert KeysWhere(r', IsMissing) == KeysWhere(r, IsMissing) + KeysWhere(r, IsQuestionMark);
    assert KeysWhere(r, IsMissing) !! KeysWhere(r, IsQuestionMark);
  }

  lemma {:induction false} BlankRowsCounts(rows: seq<Row>)
    ensures var after := MapCells(rows, BlankQuestionMark);
      && CountCells(after, IsQuestionMark) == 0
      && CountCells(after, IsMissing) == CountCells(rows, IsMissing) + CountCells(rows, IsQuestionMark)
  {
    if rows != [] {
      var n := |rows| - 1;
      var after := MapCells(rows, BlankQuestionMark);
      assert after[..n] == MapCells(rows[..n], BlankQuestionMark);
      BlankRowsCounts(rows[..n]);
      assert after[n] == map k | k in rows[n] :: BlankQuestionMark(rows[n][k]);
      BlankRowCounts(rows[n]);
    }
  }

  /** After phase 1 no cell is '?', every former '?' is missing, the reported number is the
      number of '?' cells before, and the table keeps its shape. */
  lemma NullTokenPhaseSpec(t: Table)
    ensures var s := NullTokenPhase(t);
      && s.table.columns == t.columns && s.table.types == t.types && |s.table.rows| == |t.rows|
      && CountCells(s.table.rows, IsQuestionMark) == 0
      && CountCells(s.table.rows, IsMissing) == CountCells(t.rows, IsMissing) + QuestionMarks(t)
      && s.lines == [NullsReplaced(CountCells(t.rows, IsQuestionMark))]
      && (forall i, k | 0 <= i < |t.rows| && k in t.rows[i] ::
            k in s.table.rows[i] && s.table.rows[i][k] != Str("?")
            && (t.rows[i][k] != Str("?") ==> s.table.rows[i][k] == t.rows[i][k]))
      && (Valid(t) ==> Valid(s.table))
  {
    BlankRowsCounts(t.rows);
    if Valid(t) {
      SameShapeValid(t, NullTokenPhase(t).table);
    }
  }

  // ---------------------------------------------------------------------------
  // Phase 2: timestamp YYYYMMDD -> date (cleaning.py:27-30)
  // ---------------------------------------------------------------------------

  /** pd.to_datetime(format='%Y%m%d'), left abstract: the date a cell spells, if any. */
  type DateParser = Cell -> Option<CalendarDate>

  /** errors='coerce': a cell that does not parse becomes missing (NaT). */
  function ToDate(parse: DateParser, c: Cell): Cell {
    if c == Missing then Missing
    else match parse(c)
      case Some(d) => Date(d)
      case None => Missing
  }

  function ParseDates(rows: seq<Row>, parse: DateParser): seq<Row> {
    MapColumn(rows, TimestampColumn, c => ToDate(parse, c))
  }

  function TimestampPhase(t: Table, parse: DateParser): Step {
    if TimestampColumn in t.columns then
      Step(Table(t.columns, t.types[TimestampColumn := DateTime], ParseDates(t.rows, parse)),
           [TimestampConverted])
    else Step(t, [])
  }

  /** Phase 2 touches only the timestamp column: each of its cells becomes the date the parser
      reads in it, or missing; missing stays missing; the column is typed as a date. */
  lemma TimestampPhaseSpec(t: Table, parse: DateParser)
    ensures var s := TimestampPhase(t, parse);
      && s.table.columns == t.columns && |s.table.rows| == |t.rows|
      && (TimestampColumn in t.columns <==> s.lines == [TimestampConverted])
      && (TimestampColumn in t.columns ==> s.table.types == t.types[TimestampColumn := DateTime])
      && (TimestampColumn !in t.columns ==> s.table == t)
      && (forall i, k | 0 <= i < |t.rows| && k in t.rows[i] :: k in s.table.rows[i]
            && (k != TimestampColumn ==> s.table.rows[i][k] == t.rows[i][k]))
      && (forall i | 0 <= i < |t.rows| && TimestampColumn in t.columns && TimestampColumn in t.rows[i] ::
            var before, after := t.rows[i][TimestampColumn], s.table.rows[i][TimestampColumn];
            && (after.Missing? || after.Date?)
            && (before == Missing ==> after == Missing)
            && (after.Date? <==> before != Missing && parse(before).Some?)
            && (after.Date? ==> Some(after.date) == parse(before)))
      && (Valid(t) ==> Valid(s.table))
  {
    if Valid(t) && TimestampColumn in t.columns {
      SameShapeValid(t, TimestampPhase(t, parse).table);
    }
  }

  // ---------------------------------------------------------------------------
  // Phase 3: columns with at most one distinct value are dropped (cleaning.py:33-36)
  // ---------------------------------------------------------------------------

  /** df[col].nunique(dropna=True) <= 1 */
  predicate IsConstant(t: Table, c: string) {
    |DistinctValues(ColumnOf(t, c))| <= 1
  }

  function ConstantColumns(t: Table): seq<string> {
    Filter(t.columns, c => IsConstant(t, c))
  }

  function VaryingColumns(t: Table): seq<string> {
    Filter(t.columns, c => !IsConstant(t, c))
  }

  /** df.drop(columns=...): the table restricted to the columns in keep. */
  function Project(t: Table, keep: seq<string>): Table {
    var names := Names(keep);
    Table(keep,
          map c | c in t.types && c in names :: t.types[c],
          seq(|t.rows|, i requires 0 <= i < |t.rows| => map k | k in t.rows[i] && k in names :: t.rows[i][k]))
  }

  function ConstantColumnPhase(t: Table): Step {
    var constant := ConstantColumns(t);
    if constant != [] then Step(Project(t, VaryingColumns(t)), [ConstantColumnsDropped(constant)])
    else Step(t, [])
  }

  lemma FilterMember<T>(s: seq<T>, p: T -> bool, x: T)
    ensures x in Filter(s, p) <==> x in s && p(x)
  {
    if x in Filter(s, p) {
      var i :| 0 <= i < |Filter(s, p)| && Filter(s, p)[i] == x;
    }
    if x in s && p(x) {
      var i :| 0 <= i < |s| && s[i] == x;
    }
  }

  lemma VaryingColumnMember(t: Table, c: string)
    ensures c in VaryingColumns(t) <==> c in t.columns && !IsConstant(t, c)
    ensures c in ConstantColumns(t) <==> c in t.columns && IsConstant(t, c)
  {
    FilterMember(t.columns, c => !IsConstant(t, c), c);
    FilterMember(t.columns, c => IsConstant(t, c), c);
  }

  /** Exactly the columns with more than one distinct non-missing value survive, in their
      order, and the report names the dropped columns, only when there are some. */
  lemma ConstantColumnPhaseColumns(t: Table)
    ensures var s := ConstantColumnPhase(t);
      && IsSubsequence(s.table.columns, t.columns)
      && (forall c :: c in s.table.columns <==> c in t.columns && |DistinctValues(ColumnOf(t, c))| > 1)
      && (s.lines == [] <==> forall c | c in t.columns :: |DistinctValues(ColumnOf(t, c))| > 1)
      && (s.lines != [] ==> s.lines == [ConstantColumnsDropped(ConstantColumns(t))])
  {
    forall c ensures c in VaryingColumns(t) <==> c in t.columns && !IsConstant(t, c)
      ensures c in ConstantColumns(t) <==> c in t.columns && IsConstant(t, c)
    {
      VaryingColumnMember(t, c);
    }
    if ConstantColumns(t) == [] {
      IsSubsequenceReflexive(t.columns);
    } else {
      assert ConstantColumns(t)[0] in ConstantColumns(t);
      FilterIsSubsequence(t.columns, c => !IsConstant(t, c));
    }
  }

  /** The rows keep their number and, in the surviving columns, their cells and types. */
  lemma ConstantColumnPhaseCells(t: Table)
    ensures var s := ConstantColumnPhase(t);
      && |s.table.rows| == |t.rows|
      && (forall i, c | 0 <= i < |t.rows| && c in s.table.columns && c in t.rows[i] ::
            c in s.table.rows[i] && s.table.rows[i][c] == t.rows[i][c])
      && (forall c | c in s.table.columns && c in t.types :: c in s.table.types && s.table.types[c] == t.types[c])
  {
  }

  /** Dropping columns keeps the table well-formed. */
  lemma ConstantColumnPhaseValid(t: Table)
    requires Valid(t)
    ensures Valid(ConstantColumnPhase(t).table)
  {
    if ConstantColumns(t) != [] {
      forall c | c in VaryingColumns(t) ensures c in t.columns {
        VaryingColumnMember(t, c);
      }
      FilterDistinct(t.columns, c => !IsConstant(t, c));
      ProjectValid(t, VaryingColumns(t));
    }
  }

  lemma {:induction false} FilterKeepsAll<T>(s: seq<T>, p: T -> bool)
    requires forall i | 0 <= i < |s| :: p(s[i])
    ensures Filter(s, p) == s
  {
    if s != [] {
      FilterKeepsAll(s[1..], p);
    }
  }

  lemma {:induction false} IsSubsequenceReflexive<T>(s: seq<T>)
    ensures IsSubsequence(s, s)
  {
    if s != [] {
      IsSubsequenceReflexive(s[1..]);
    }
  }

  lemma ProjectValid(t: Table, keep: seq<string>)
    requires Valid(t) && Distinct(keep) && forall c | c in keep :: c in t.columns
    ensures Valid(Project(t, keep))
  {
    var u := Project(t, keep);
    forall r | r in u.rows ensures r.Keys == Names(keep) {
      var i :| 0 <= i < |u.rows| && u.rows[i] == r;
      assert t.rows[i] in t.rows;
    }
  }

  // ---------------------------------------------------------------------------
  // Phase 4: text lower-cased and stripped, 'nan' back to missing (cleaning.py:39-43)
  // ---------------------------------------------------------------------------

  const NanText := "nan"

  /** astype(str).str.lower().str.strip() on one cell of a text column: a missing cell is
      printed as 'nan'. */
  function CanonicalText(c: Cell): Cell {
    match c
    case Missing => Str(NanText)
    case Str(s) => Str(Strip(Lower(s)))
    case _ => c
  }

  function NanToMissing(c: Cell): Cell {
    if c == Str(NanText) then Missing else c
  }

  predicate IsTextColumn(t: Table, c: string) {
    c in t.types && t.types[c] == Text
  }

  /** df.select_dtypes(include=['object']).columns */
  function TextColumns(t: Table): seq<string> {
    Filter(t.columns, c => IsTextColumn(t, c))
  }

  /** The loop of lines 40-41 over the first |cols| text columns. */
  function LowerStripColumns(t: Table, cols: seq<string>): Table
    decreases |cols|
  {
    if cols == [] then t
    else
      var u := LowerStripColumns(t, cols[..|cols| - 1]);
      u.(rows := MapColumn(u.rows, cols[|cols| - 1], CanonicalText))
  }

  function TextPhase(t: Table): Step {
    var u := LowerStripColumns(t, TextColumns(t));
    Step(u.(rows := MapCells(u.rows, NanToMissing)), [TextNormalized])
  }

  lemma CanonicalNan()
    ensures Strip(Lower(NanText)) == NanText
  {
    assert IsLowered(NanText);
    LoweredIsFixed(NanText);
    StripLeftFixed(NanText);
    StripRightFixed(NanText);
  }

  lemma CanonicalTextIdempotentCell(c: Cell)
    ensures CanonicalText(CanonicalText(c)) == CanonicalText(c)
  {
    match c
    case Missing => CanonicalNan();
    case Str(s) => CanonicalTextIdempotent(s);
    case _ =>
  }

  /** Rewriting the text columns in cols leaves the shape alone and maps each cell of those
      columns to its canonical text. */
  lemma {:induction false} LowerStripColumnsSpec(t: Table, cols: seq<string>)
    ensures var u := LowerStripColumns(t, cols);
      && u.columns == t.columns && u.types == t.types && |u.rows| == |t.rows|
      && (forall i | 0 <= i < |t.rows| :: u.rows[i].Keys == t.rows[i].Keys)
      && (forall i, k | 0 <= i < |t.rows| && k in t.rows[i] ::
            u.rows[i][k] == if k in cols then CanonicalText(t.rows[i][k]) else t.rows[i][k])
    decreases |cols|
  {
    if cols != [] {
      var init := cols[..|cols| - 1];
      var last := cols[|cols| - 1];
      LowerStripColumnsSpec(t, init);
      var u := LowerStripColumns(t, cols);
      assert cols == init + [last];
      forall i, k | 0 <= i < |t.rows| && k in t.rows[i]
        ensures u.rows[i][k] == if k in cols then CanonicalText(t.rows[i][k]) else t.rows[i][k]
      {
        if k == last && k in init {
          CanonicalTextIdempotentCell(t.rows[i][k]);
        }
      }
    }
  }

  lemma TextColumnMember(t: Table, c: string)
    ensures c in TextColumns(t) <==> c in t.columns && IsTextColumn(t, c)
  {
    FilterMember(t.columns, c => IsTextColumn(t, c), c);
  }

  /** The cell of phase 4 at row i, column k. */
  lemma TextPhaseCell(t: Table, i: nat, k: string)
    requires i < |t.rows| && k in t.rows[i]
    ensures var s := TextPhase(t);
      && |s.table.rows| == |t.rows| && k in s.table.rows[i]
      && s.table.rows[i][k] == NanToMissing(
           if k in t.columns && IsTextColumn(t, k) then CanonicalText(t.rows[i][k]) else t.rows[i][k])
  {
    LowerStripColumnsSpec(t, TextColumns(t));
    TextColumnMember(t, k);
  }

  /** After phase 4 a missing text cell stays missing, a text cell holds its lower-cased,
      stripped string (missing if that is 'nan'), other columns only lose the literal 'nan',
      no cell anywhere is the string 'nan', and the shape is unchanged. */
  lemma TextPhaseSpec(t: Table)
    ensures var s := TextPhase(t);
      && s.table.columns == t.columns && s.table.types == t.types && |s.table.rows| == |t.rows|
      && s.lines == [TextNormalized]
      && (forall i | 0 <= i < |t.rows| :: s.table.rows[i].Keys == t.rows[i].Keys)
      && (forall i, k | 0 <= i < |t.rows| && k in t.rows[i] :: k in s.table.rows[i]
            && s.table.rows[i][k] != Str(NanText)
            && (k in t.columns && IsTextColumn(t, k) && t.rows[i][k] == Missing ==> s.table.rows[i][k] == Missing)
            && (k in t.columns && IsTextColumn(t, k) && t.rows[i][k].Str? ==>
                  var canon := Strip(Lower(t.rows[i][k].s));
                  s.table.rows[i][k] == if canon == NanText then Missing else Str(canon))
            && (!(k in t.columns && IsTextColumn(t, k)) ==> s.table.rows[i][k] == NanToMissing(t.rows[i][k])))
      && (Valid(t) ==> Valid(s.table))
  {
    var s := TextPhase(t);
    LowerStripColumnsSpec(t, TextColumns(t));
    forall i, k | 0 <= i < |t.rows| && k in t.rows[i]
      ensures k in s.table.rows[i]
        && s.table.rows[i][k] != Str(NanText)
        && (k in t.columns && IsTextColumn(t, k) && t.rows[i][k] == Missing ==> s.table.rows[i][k] == Missing)
        && (k in t.columns && IsTextColumn(t, k) && t.rows[i][k].Str? ==>
              var canon := Strip(Lower(t.rows[i][k].s));
              s.table.rows[i][k] == if canon == NanText then Missing else Str(canon))
        && (!(k in t.columns && IsTextColumn(t, k)) ==> s.table.rows[i][k] == NanToMissing(t.rows[i][k]))
    {
      TextPhaseCellCases(t, i, k);
    }
    if Valid(t) {
      SameShapeValid(t, s.table);
    }
  }

  /** The cases of TextPhaseCell for one cell. */
  lemma TextPhaseCellCases(t: Table, i: nat, k: string)
    requires i < |t.rows| && k in t.rows[i]
    ensures var s := TextPhase(t);
      && |s.table.rows| == |t.rows| && k in s.table.rows[i]
      && s.table.rows[i][k] != Str(NanText)
      && (k in t.columns && IsTextColumn(t, k) && t.rows[i][k] == Missing ==> s.table.rows[i][k] == Missing)
      && (k in t.columns && IsTextColumn(t, k) && t.rows[i][k].Str? ==>
            var canon := Strip(Lower(t.rows[i][k].s));
            s.table.rows[i][k] == if canon == NanText then Missing else Str(canon))
      && (!(k in t.columns && IsTextColumn(t, k)) ==> s.table.rows[i][k] == NanToMissing(t.rows[i][k]))
  {
    TextPhaseCell(t, i, k);
  }

  lemma NanToMissingCanonical(c: Cell)
    ensures NanToMissing(CanonicalText(NanToMissing(CanonicalText(c)))) == NanToMissing(CanonicalText(c))
  {
    CanonicalTextIdempotentCell(c);
    if CanonicalText(c) == Str(NanText) {
      CanonicalNan();
    }
  }

  /** Running phase 4 a second time changes nothing. */
  lemma TextPhaseIdempotent(t: Table)
    ensures TextPhase(TextPhase(t).table).table == TextPhase(t).table
  {
    var u := TextPhase(t).table;
    var w := TextPhase(u).table;
    TextPhaseSpec(t);
    TextPhaseSpec(u);
    forall i | 0 <= i < |t.rows| ensures w.rows[i] == u.rows[i] {
      forall k | k in u.rows[i] ensures w.rows[i][k] == u.rows[i][k] {
        TextPhaseCell(t, i, k);
        TextPhaseCell(u, i, k);
        if k in t.columns && IsTextColumn(t, k) {
          NanToMissingCanonical(t.rows[i][k]);
        }
      }
    }
  }

  // ---------------------------------------------------------------------------
  // Phase 5: typo merge on the customer column (cleaning.py:46-63)
  // ---------------------------------------------------------------------------

  function ApplyReplacements(rows: seq<Row>, replacements: map<string, string>): seq<Row> {
    MapColumn(rows, CustomerColumn, c => Replace(replacements, c))
  }

  /** One "Typo Düzeltildi" line per assignment, in the order the loops make them. */
  function TypoLines(fixes: seq<Fix>): seq<ReportLine> {
    seq(|fixes|, i requires 0 <= i < |fixes| => TypoFixed(fixes[i].typo, fixes[i].canonical))
  }

  /** A value difflib cannot compare: a number, a bool or a date. Missing values never reach
      the scan, since value_counts drops them. */
  predicate IsNonTextValue(c: Cell) {
    c != Missing && !c.Str?
  }

  /** value_counts of the customer column holds a value that is not a string. The scan then
      raises TypeError inside difflib.get_close_matches on its first candidate, before it
      records any fix (cleaning.py:48-56). SequenceMatcher.set_seq2 iterates over the candidate,
      and real_quick_ratio takes len() of every later value. */
  predicate TypoScanRaises(t: Table) {
    CustomerColumn in t.columns && exists c | c in ColumnOf(t, CustomerColumn) :: IsNonTextValue(c)
  }

  /** Phase 5 when the scan does not raise (see TypoScanRaises): the fixes the scan finds are
      applied to the customer column, one report line each. */
  function TypoPhase(t: Table, matched: Matcher): Step {
    if CustomerColumn in t.columns then
      var cells := ColumnOf(t, CustomerColumn);
      var fixes := TypoPlan(cells, RankByFrequency(cells), matched);
      var replacements := Replacements(fixes);
      Step(if replacements != map[] then t.(rows := ApplyReplacements(t.rows, replacements)) else t,
           [TypoScanStarted] + TypoLines(fixes))
    else Step(t, [])
  }

  /** Phase 5 changes only the customer column: the columns, their types, the number of rows
      and every other cell stay as they were. */
  lemma TypoPhaseOnlyCustomer(t: Table, matched: Matcher)
    ensures var s := TypoPhase(t, matched);
      && s.table.columns == t.columns && s.table.types == t.types && |s.table.rows| == |t.rows|
      && (forall i | 0 <= i < |t.rows| :: s.table.rows[i].Keys == t.rows[i].Keys)
      && (forall i, k | 0 <= i < |t.rows| && k in t.rows[i] && k != CustomerColumn ::
            s.table.rows[i][k] == t.rows[i][k])
      && (CustomerColumn !in t.columns ==> s == Step(t, []))
      && (Valid(t) ==> Valid(s.table))
  {
    if Valid(t) {
      SameShapeValid(t, TypoPhase(t, matched).table);
    }
  }

  /** Every customer cell phase 5 changes held a value m and now holds a value v of the same
      column that is counted strictly more often and is similar to m at ratio 0.85 or more. */
  lemma TypoPhaseMergesIntoFrequent(t: Table, matched: Matcher)
    ensures var s := TypoPhase(t, matched);
      var cells := ColumnOf(t, CustomerColumn);
      forall i | 0 <= i < |t.rows| && CustomerColumn in t.rows[i] ::
        var before, after := t.rows[i][CustomerColumn], s.table.rows[i][CustomerColumn];
        after == before
        || (&& before.Str? && after.Str?
            && Str(after.s) in cells
            && Occurrences(cells, after.s) > Occurrences(cells, before.s)
            && CloseEnough(matched, after.s, before.s))
  {
    if CustomerColumn in t.columns {
      var cells := ColumnOf(t, CustomerColumn);
      RankByFrequencyIsRanking(cells);
      ReplacementsSound(cells, RankByFrequency(cells), matched);
    }
  }

  /** Each assignment of the plan pairs two values of the column, the target counted strictly
      more often and similar to the value it replaces. */
  lemma FixSound(cells: seq<Cell>, matched: Matcher, f: Fix)
    requires f in TypoPlan(cells, RankByFrequency(cells), matched)
    ensures Str(f.typo) in cells && Str(f.canonical) in cells
    ensures Occurrences(cells, f.canonical) > Occurrences(cells, f.typo)
    ensures CloseEnough(matched, f.canonical, f.typo)
  {
    var ranked := RankByFrequency(cells);
    RankByFrequencyIsRanking(cells);
    TypoPlanSound(cells, ranked, matched);
    var a, b :| 0 <= a < b < |ranked| && ranked[a] == f.canonical && ranked[b] == f.typo
      && CloseEnough(matched, f.canonical, f.typo) && Occurrences(cells, f.canonical) > Occurrences(cells, f.typo);
    assert ranked[a] in ranked && ranked[b] in ranked;
  }

  /** Each line the scan writes pairs a value with a strictly more frequent, similar value. */
  lemma TypoLinesSound(cells: seq<Cell>, matched: Matcher)
    ensures var ls := TypoLines(TypoPlan(cells, RankByFrequency(cells), matched));
      forall j | 0 <= j < |ls| ::
        && ls[j].TypoFixed?
        && Str(ls[j].typo) in cells && Str(ls[j].canonical) in cells
        && Occurrences(cells, ls[j].canonical) > Occurrences(cells, ls[j].typo)
        && CloseEnough(matched, ls[j].canonical, ls[j].typo)
  {
    var fixes := TypoPlan(cells, RankByFrequency(cells), matched);
    forall j | 0 <= j < |fixes| ensures Str(fixes[j].typo) in cells && Str(fixes[j].canonical) in cells
      && Occurrences(cells, fixes[j].canonical) > Occurrences(cells, fixes[j].typo)
      && CloseEnough(matched, fixes[j].canonical, fixes[j].typo)
    {
      FixSound(cells, matched, fixes[j]);
    }
  }

  /** The report of phase 5 opens with the scan line and then has one line per assignment the
      scan makes, each pairing a value with a strictly more frequent, similar value. */
  lemma TypoPhaseReport(t: Table, matched: Matcher)
    requires CustomerColumn in t.columns
    ensures var s := TypoPhase(t, matched);
      var cells := ColumnOf(t, CustomerColumn);
      && |s.lines| == 1 + |TypoPlan(cells, RankByFrequency(cells), matched)|
      && s.lines[0] == TypoScanStarted
      && forall j | 1 <= j < |s.lines| ::
           && s.lines[j].TypoFixed?
           && Str(s.lines[j].typo) in cells && Str(s.lines[j].canonical) in cells
           && Occurrences(cells, s.lines[j].canonical) > Occurrences(cells, s.lines[j].typo)
           && CloseEnough(matched, s.lines[j].canonical, s.lines[j].typo)
  {
    var lines := TypoPhase(t, matched).lines;
    var cells := ColumnOf(t, CustomerColumn);
    var ls := TypoLines(TypoPlan(cells, RankByFrequency(cells), matched));
    assert lines == [TypoScanStarted] + ls;
    TypoLinesSound(cells, matched);
    forall j | 1 <= j < |lines| ensures lines[j] == ls[j - 1] {
    }
  }

  /** Every assignment of the plan has its line in the report of phase 5. */
  lemma TypoLinesListFixes(t: Table, matched: Matcher, f: Fix)
    requires CustomerColumn in t.columns
    requires f in TypoPlan(ColumnOf(t, CustomerColumn), RankByFrequency(ColumnOf(t, CustomerColumn)), matched)
    ensures TypoFixed(f.typo, f.canonical) in TypoPhase(t, matched).lines
  {
    var cells := ColumnOf(t, CustomerColumn);
    var fixes := TypoPlan(cells, RankByFrequency(cells), matched);
    var k :| 0 <= k < |fixes| && fixes[k] == f;
    var lines := TypoPhase(t, matched).lines;
    assert lines == [TypoScanStarted] + TypoLines(fixes);
    assert lines[k + 1] == TypoFixed(f.typo, f.canonical);
  }

  /** Nothing phase 5 changes goes unreported, and nothing it should merge is missed: every
      value the customer column is rewritten from has a line naming its replacement, and every
      close match strictly rarer than the value scanned before it has a line naming that merge. */
  lemma TypoPhaseReportComplete(t: Table, matched: Matcher)
    requires CustomerColumn in t.columns
    ensures var s := TypoPhase(t, matched);
      var cells := ColumnOf(t, CustomerColumn);
      var ranked := RankByFrequency(cells);
      var r := Replacements(TypoPlan(cells, ranked, matched));
      && (forall m | m in r :: TypoFixed(m, r[m]) in s.lines)
      && (forall j, m | 0 <= j < |ranked| && m in MatchesOf(matched, ranked, j)
            && Occurrences(cells, ranked[j]) > Occurrences(cells, m) ::
            TypoFixed(m, ranked[j]) in s.lines)
  {
    var cells := ColumnOf(t, CustomerColumn);
    var ranked := RankByFrequency(cells);
    var fixes := TypoPlan(cells, ranked, matched);
    var r := Replacements(fixes);
    ReplacementsFromFixes(fixes);
    forall m | m in r ensures TypoFixed(m, r[m]) in TypoPhase(t, matched).lines {
      TypoLinesListFixes(t, matched, Fix(m, r[m]));
    }
    RankByFrequencyIsRanking(cells);
    forall j, m | 0 <= j < |ranked| && m in MatchesOf(matched, ranked, j)
        && Occurrences(cells, ranked[j]) > Occurrences(cells, m)
      ensures TypoFixed(m, ranked[j]) in TypoPhase(t, matched).lines
    {
      TypoPlanComplete(cells, ranked, matched, j, m);
      TypoLinesListFixes(t, matched, Fix(m, ranked[j]));
    }
  }

  // ---------------------------------------------------------------------------
  // Phase 6 A/B: numeric promotion and integer narrowing (cleaning.py:66-79)
  // ---------------------------------------------------------------------------

  /** What pd.to_numeric reads in a string: an integer or a decimal literal. */
  datatype NumLit = IntLit(n: int) | FloatLit(x: real)

  /** pd.to_numeric on one string, left abstract. */
  type NumParser = string -> Option<NumLit>

  function LitValue(l: NumLit): real {
    match l
    case IntLit(n) => n as real
    case FloatLit(x) => x
  }

  /** errors='coerce': a string that does not parse becomes missing. */
  function ToNumber(parse: NumParser, c: Cell): Cell {
    match c
    case Str(s) => (match parse(s) case Some(l) => Num(LitValue(l)) case None => Missing)
    case _ => c
  }

  function Converted(parse: NumParser, cells: seq<Cell>): seq<Cell> {
    seq(|cells|, i requires 0 <= i < |cells| => ToNumber(parse, cells[i]))
  }

  predicate IsPresent(c: Cell) {
    c != Missing
  }

  /** converted.notnull().sum() */
  function ParsedCount(parse: NumParser, cells: seq<Cell>): nat {
    CountIn(Converted(parse, cells), IsPresent)
  }

  /** converted.notnull().sum() / len(df) > 0.5; with no rows the quotient is NaN and the
      comparison is false. */
  predicate MostlyNumeric(parsed: nat, rows: nat) {
    rows > 0 && parsed as real / rows as real > 0.5
  }

  /** The promotion threshold needs no division: more than half the rows parse. */
  lemma MostlyNumericInIntegers(parsed: nat, rows: nat)
    requires parsed <= rows
    ensures MostlyNumeric(parsed, rows) <==> 2 * parsed > rows
  {
    if rows > 0 {
      DivAbove(parsed as real, rows as real, 0.5);
    }
  }

  lemma DivAbove(a: real, t: real, c: real)
    requires t > 0.0
    ensures a / t > c <==> a > c * t
  {
    var q := a / t;
    assert q * t == a;
    if q > c {
      assert q * t > c * t;
    } else {
      assert q * t <= c * t;
    }
  }

  predicate IsIntLiteral(parse: NumParser, c: Cell) {
    c.Str? && parse(c.s).Some? && parse(c.s).value.IntLit?
  }

  /** to_numeric yields int64 when every cell is an integer literal and float64 otherwise. */
  function NumericType(parse: NumParser, cells: seq<Cell>): ColType {
    if forall i | 0 <= i < |cells| :: IsIntLiteral(parse, cells[i]) then Integer else Float
  }

  function PromoteRows(rows: seq<Row>, c: string, parse: NumParser): seq<Row> {
    MapColumn(rows, c, x => ToNumber(parse, x))
  }

  /** Step A for column c. */
  function PromoteStep(parse: NumParser, t: Table, c: string): Step {
    var cells := ColumnOf(t, c);
    if IsTextColumn(t, c) && MostlyNumeric(ParsedCount(parse, cells), |t.rows|) then
      Step(Table(t.columns, t.types[c := NumericType(parse, cells)], PromoteRows(t.rows, c, parse)),
           [PromotedToNumeric(c)])
    else Step(t, [])
  }

  /** float.is_integer() on a number. */
  predicate IsIntegral(c: Cell) {
    c.Num? && c.x.Floor as real == c.x
  }

  /** len(non_null) > 0 and all(x.is_integer() for x in non_null) */
  predicate AllIntegral(cells: seq<Cell>) {
    && (exists i | 0 <= i < |cells| :: cells[i] != Missing)
    && forall i | 0 <= i < |cells| && cells[i] != Missing :: IsIntegral(cells[i])
  }

  /** Step B for column c: astype('Int64') keeps every value and every missing cell. */
  function NarrowStep(t: Table, c: string): Step {
    if c in t.types && t.types[c] == Float && AllIntegral(ColumnOf(t, c)) then
      Step(t.(types := t.types[c := NullableInteger]), [NarrowedToInteger(c)])
    else Step(t, [])
  }

  function NumericStep(parse: NumParser, t: Table, c: string): Step {
    var a := PromoteStep(parse, t, c);
    var b := NarrowStep(a.table, c);
    Step(b.table, a.lines + b.lines)
  }

  /** The loop of line 66 over the columns in cols. */
  function NumericColumns(parse: NumParser, t: Table, cols: seq<string>): Step
    decreases |cols|
  {
    if cols == [] then Step(t, [])
    else
      var s := NumericColumns(parse, t, cols[..|cols| - 1]);
      var u := NumericStep(parse, s.table, cols[|cols| - 1]);
      Step(u.table, s.lines + u.lines)
  }

  function NumericPhase(parse: NumParser, t: Table): Step {
    NumericColumns(parse, t, t.columns)
  }

  lemma ConvertedCell(parse: NumParser, t: Table, c: string, i: nat)
    requires i < |t.rows|
    ensures Converted(parse, ColumnOf(t, c))[i] == ToNumber(parse, At(t.rows[i], c))
  {
  }

  /** Step A promotes a text column exactly when more than half of all rows, missing ones
      included, parse as numbers; then each parsed string becomes its number, each other
      string and each missing cell becomes missing, and the type is int64 only when every
      cell is an integer literal. Nothing else changes. */
  lemma PromoteStepSpec(parse: NumParser, t: Table, c: string)
    ensures var s := PromoteStep(parse, t, c);
      var cells := ColumnOf(t, c);
      && s.table.columns == t.columns && |s.table.rows| == |t.rows|
      && (forall i | 0 <= i < |t.rows| :: s.table.rows[i].Keys == t.rows[i].Keys)
      && (forall i, k | 0 <= i < |t.rows| && k in t.rows[i] && k != c :: s.table.rows[i][k] == t.rows[i][k])
      && s.table.types.Keys == t.types.Keys
      && (forall k | k in t.types && k != c :: s.table.types[k] == t.types[k])
      && ParsedCount(parse, cells) <= |t.rows|
      && (s.lines == [] || s.lines == [PromotedToNumeric(c)])
      && (s.lines != [] <==> IsTextColumn(t, c) && 2 * ParsedCount(parse, cells) > |t.rows|)
      && (s.lines == [] ==> s.table == t)
      && (s.lines != [] ==>
            && s.table.types[c] == (if forall i | 0 <= i < |cells| :: IsIntLiteral(parse, cells[i]) then Integer else Float)
            && forall i | 0 <= i < |t.rows| && c in t.rows[i] ::
                 var before, after := t.rows[i][c], s.table.rows[i][c];
                 && (before == Missing ==> after == Missing)
                 && (before.Str? && parse(before.s).None? ==> after == Missing)
                 && (before.Str? && parse(before.s).Some? ==> after == Num(LitValue(parse(before.s).value))))
  {
    MostlyNumericInIntegers(ParsedCount(parse, ColumnOf(t, c)), |t.rows|);
  }

  /** Step B narrows a float column exactly when it has a non-missing value and every
      non-missing value is integral; every cell keeps its value, so afterwards each cell of the
      column is missing or an integral number. */
  lemma NarrowStepSpec(t: Table, c: string)
    ensures var s := NarrowStep(t, c);
      && s.table.columns == t.columns && s.table.rows == t.rows
      && (s.lines == [] || s.lines == [NarrowedToInteger(c)])
      && (s.lines != [] <==>
            && c in t.types && t.types[c] == Float
            && (exists i | 0 <= i < |t.rows| :: At(t.rows[i], c) != Missing)
            && (forall i | 0 <= i < |t.rows| && At(t.rows[i], c) != Missing :: IsIntegral(At(t.rows[i], c))))
      && (s.lines == [] ==> s.table == t)
      && (s.lines != [] ==>
            && s.table.types == t.types[c := NullableInteger]
            && forall i | 0 <= i < |t.rows| :: At(t.rows[i], c) == Missing || IsIntegral(At(t.rows[i], c)))
  {
    var cells := ColumnOf(t, c);
    assert forall i | 0 <= i < |t.rows| :: cells[i] == At(t.rows[i], c);
    if exists i | 0 <= i < |t.rows| :: At(t.rows[i], c) != Missing {
      var i :| 0 <= i < |t.rows| && At(t.rows[i], c) != Missing;
      assert cells[i] != Missing;
    }
  }

  /** The column loop of phase 6 rewrites only the columns it visits. */
  lemma {:induction false} NumericColumnsShape(parse: NumParser, t: Table, cols: seq<string>)
    ensures var s := NumericColumns(parse, t, cols);
      && s.table.columns == t.columns && |s.table.rows| == |t.rows|
      && (forall i | 0 <= i < |t.rows| :: s.table.rows[i].Keys == t.rows[i].Keys)
      && (forall i, k | 0 <= i < |t.rows| && k in t.rows[i] && k !in cols :: s.table.rows[i][k] == t.rows[i][k])
      && s.table.types.Keys == t.types.Keys
      && (forall k | k in t.types && k !in cols :: s.table.types[k] == t.types[k])
    decreases |cols|
  {
    if cols != [] {
      var init := cols[..|cols| - 1];
      var c := cols[|cols| - 1];
      NumericColumnsShape(parse, t, init);
      var s := NumericColumns(parse, t, init);
      PromoteStepSpec(parse, s.table, c);
      NarrowStepSpec(PromoteStep(parse, s.table, c).table, c);
      assert cols == init + [c];
    }
  }

  lemma NumericPhaseValid(parse: NumParser, t: Table)
    requires Valid(t)
    ensures Valid(NumericPhase(parse, t).table)
  {
    NumericColumnsShape(parse, t, t.columns);
    SameShapeValid(t, NumericPhase(parse, t).table);
  }

  // ---------------------------------------------------------------------------
  // Phase 6 C: yes/no/true/false columns become booleans (cleaning.py:82-87)
  // ---------------------------------------------------------------------------

  /** The keys of binary_map. */
  const BinaryWords: set<Cell> := {Str("yes"), Str("no"), Str("true"), Str("false")}

  /** Series.map(binary_map): a value outside the map (missing included) becomes missing. */
  function BinaryValue(c: Cell): Cell {
    if c == Str("yes") || c == Str("true") then Bool(true)
    else if c == Str("no") || c == Str("false") then Bool(false)
    else Missing
  }

  /** unique_vals.issubset(binary_map.keys()) and len(unique_vals) > 0 */
  predicate IsBinaryColumn(cells: seq<Cell>) {
    var u := DistinctValues(cells);
    u <= BinaryWords && |u| > 0
  }

  function BooleanStep(t: Table, c: string): Step {
    if IsBinaryColumn(ColumnOf(t, c)) then
      Step(Table(t.columns, t.types[c := NullableBoolean], MapColumn(t.rows, c, BinaryValue)), [FixedToBoolean(c)])
    else Step(t, [])
  }

  /** The loop of line 83 over the text columns in cols. */
  function BooleanColumns(t: Table, cols: seq<string>): Step
    decreases |cols|
  {
    if cols == [] then Step(t, [])
    else
      var s := BooleanColumns(t, cols[..|cols| - 1]);
      var u := BooleanStep(s.table, cols[|cols| - 1]);
      Step(u.table, s.lines + u.lines)
  }

  function BooleanPhase(t: Table): Step {
    BooleanColumns(t, TextColumns(t))
  }

  /** The set test of line 85 is a test on the cells: some cell is present and every present
      cell is one of the four words. */
  lemma IsBinaryColumnCells(cells: seq<Cell>)
    ensures IsBinaryColumn(cells) <==>
      && (exists i | 0 <= i < |cells| :: cells[i] != Missing)
      && (forall i | 0 <= i < |cells| && cells[i] != Missing :: cells[i] in BinaryWords)
  {
    var u := DistinctValues(cells);
    if exists i | 0 <= i < |cells| :: cells[i] != Missing {
      var i :| 0 <= i < |cells| && cells[i] != Missing;
      assert cells[i] in u;
    }
    if |u| > 0 {
      var v :| v in u;
    }
  }

  /** Step C converts a column exactly when its present values are all yes/no/true/false and
      there is at least one; then yes and true become true, no and false become false, and
      missing stays missing. Nothing else changes. */
  lemma BooleanStepSpec(t: Table, c: string)
    ensures var s := BooleanStep(t, c);
      var cells := ColumnOf(t, c);
      && s.table.columns == t.columns && |s.table.rows| == |t.rows|
      && (forall i | 0 <= i < |t.rows| :: s.table.rows[i].Keys == t.rows[i].Keys)
      && (forall i, k | 0 <= i < |t.rows| && k in t.rows[i] && k != c :: s.table.rows[i][k] == t.rows[i][k])
      && (forall k | k in t.types && k != c :: k in s.table.types && s.table.types[k] == t.types[k])
      && (s.lines == [] || s.lines == [FixedToBoolean(c)])
      && (s.lines != [] <==>
            && (exists i | 0 <= i < |cells| :: cells[i] != Missing)
            && (forall i | 0 <= i < |cells| && cells[i] != Missing :: cells[i] in BinaryWords))
      && (s.lines == [] ==> s.table == t)
      && (s.lines != [] ==>
            && s.table.types == t.types[c := NullableBoolean]
            && forall i | 0 <= i < |t.rows| && c in t.rows[i] ::
                 var before, after := t.rows[i][c], s.table.rows[i][c];
                 && (before == Str("yes") || before == Str("true") ==> after == Bool(true))
                 && (before == Str("no") || before == Str("false") ==> after == Bool(false))
                 && (before == Missing ==> after == Missing))
  {
    IsBinaryColumnCells(ColumnOf(t, c));
  }

  lemma {:induction false} BooleanColumnsShape(t: Table, cols: seq<string>)
    ensures var s := BooleanColumns(t, cols);
      && s.table.columns == t.columns && |s.table.rows| == |t.rows|
      && (forall i | 0 <= i < |t.rows| :: s.table.rows[i].Keys == t.rows[i].Keys)
      && (forall i, k | 0 <= i < |t.rows| && k in t.rows[i] && k !in cols :: s.table.rows[i][k] == t.rows[i][k])
      && (forall k | k in t.types :: k in s.table.types)
      && (forall k | k in s.table.types :: k in t.types || k in cols)
      && (forall k | k in t.types && k !in cols :: s.table.types[k] == t.types[k])
    decreases |cols|
  {
    if cols != [] {
      var init := cols[..|cols| - 1];
      var c := cols[|cols| - 1];
      BooleanColumnsShape(t, init);
      var s := BooleanColumns(t, init);
      BooleanStepSpec(s.table, c);
      assert cols == init + [c];
    }
  }

  lemma BooleanPhaseValid(t: Table)
    requires Valid(t)
    ensures Valid(BooleanPhase(t).table)
  {
    var cols := TextColumns(t);
    BooleanColumnsShape(t, cols);
    forall k | k in cols ensures k in t.types {
      TextColumnMember(t, k);
    }
    SameShapeValid(t, BooleanPhase(t).table);
  }

  // ---------------------------------------------------------------------------
  // Phase 7: exact duplicate rows are dropped, the first kept (cleaning.py:90-93)
  // ---------------------------------------------------------------------------

  /** drop_duplicates() with no subset compares whole rows. */
  function WholeRow(r: Row): Row {
    r
  }

  function DedupPhase(t: Table): Step {
    var kept := KeepFirstBy(t.rows, WholeRow);
    Step(t.(rows := kept),
         if |kept| != |t.rows| then [DuplicatesRemoved(|t.rows| - |kept|)] else [])
  }

  /** No two rows phase 7 leaves are equal, and every row is still represented. */
  lemma DedupPhaseDistinct(t: Table)
    ensures var s := DedupPhase(t);
      && s.table.columns == t.columns && s.table.types == t.types
      && IsSubsequence(s.table.rows, t.rows)
      && Distinct(s.table.rows)
      && (forall r | r in t.rows :: r in s.table.rows)
  {
    var kept := DedupPhase(t).table.rows;
    KeepFirstByShape(t.rows, WholeRow);
    forall i, j | 0 <= i < j < |kept| ensures kept[i] != kept[j] {
      assert WholeRow(kept[i]) != WholeRow(kept[j]);
    }
    forall r | r in t.rows ensures r in kept {
      var i :| 0 <= i < |t.rows| && t.rows[i] == r;
      var j :| 0 <= j < |kept| && WholeRow(kept[j]) == WholeRow(t.rows[i]);
    }
  }

  /** Phase 7 keeps, in source order, exactly the first of each group of equal rows (so not
      the last, see Frame.KeepsFirstOccurrencesUnique): no two rows left are equal and every
      row is still represented. */
  lemma DedupPhaseRows(t: Table)
    ensures var s := DedupPhase(t);
      && s.table.columns == t.columns && s.table.types == t.types
      && KeepsFirstOccurrences(t.rows, WholeRow, s.table.rows)
      && IsSubsequence(s.table.rows, t.rows)
      && Distinct(s.table.rows)
      && (forall r | r in t.rows :: r in s.table.rows)
  {
    DedupPhaseDistinct(t);
    KeepFirstByKeepsFirst(t.rows, WholeRow);
  }

  /** The report gives the number of rows removed, and only when some were, which happens
      exactly when two rows were equal. */
  lemma DedupPhaseReport(t: Table)
    ensures var s := DedupPhase(t);
      && (Distinct(t.rows) ==> s == Step(t, []))
      && (!Distinct(t.rows) ==>
            |s.table.rows| < |t.rows| && s.lines == [DuplicatesRemoved(|t.rows| - |s.table.rows|)])
  {
    KeepFirstByNoRepeats(t.rows, WholeRow);
    if !Distinct(t.rows) {
      var i, j :| 0 <= i < j < |t.rows| && t.rows[i] == t.rows[j];
      assert WholeRow(t.rows[i]) == WholeRow(t.rows[j]);
    }
  }

  lemma DedupPhaseValid(t: Table)
    requires Valid(t)
    ensures Valid(DedupPhase(t).table)
  {
    var kept := DedupPhase(t).table.rows;
    KeepFirstByIndexed(t.rows, WholeRow);
    forall r | r in kept ensures r.Keys == Names(t.columns) {
      var j :| 0 <= j < |kept| && kept[j] == r;
      assert r in t.rows;
    }
  }

  // ---------------------------------------------------------------------------
  // Phase 8: the closing summary (cleaning.py:97-100)
  // ---------------------------------------------------------------------------

  function Summary(t: Table): seq<ReportLine> {
    [ClosingRule, FinalSummary, FinalRows(|t.rows|), FinalColumns(|t.columns|)]
  }

  // ---------------------------------------------------------------------------
  // The whole run (cleaning.py:5-105)
  // ---------------------------------------------------------------------------

  /** The phases in their order; the report is the header, each phase's lines and the summary. */
  function Clean(inputFile: string, t: Table, parseDate: DateParser, parseNum: NumParser, matched: Matcher): Step {
    var s1 := NullTokenPhase(t);
    var s2 := TimestampPhase(s1.table, parseDate);
    var s3 := ConstantColumnPhase(s2.table);
    var s4 := TextPhase(s3.table);
    var s5 := TypoPhase(s4.table, matched);
    var s6 := NumericPhase(parseNum, s5.table);
    var s7 := BooleanPhase(s6.table);
    var s8 := DedupPhase(s7.table);
    Step(s8.table, Header(inputFile, t) + s1.lines + s2.lines + s3.lines + s4.lines
                   + s5.lines + s6.lines + s7.lines + s8.lines + Summary(s8.table))
  }

  /** How a run ends: both files are written, or the typo scan raised TypeError and nothing
      was written. */
  datatype Outcome = Written(output: Table, report: seq<ReportLine>) | TypeErrorRaised

  /** The table phase 5 scans: the input after phases 1 to 4. */
  function BeforeTypoScan(t: Table, parseDate: DateParser): Table {
    TextPhase(ConstantColumnPhase(TimestampPhase(NullTokenPhase(t).table, parseDate).table).table).table
  }

  /** execute_senior_db_cleaning: TypeError when the typo scan raises, otherwise the table and
      report of Clean. */
  function Run(inputFile: string, t: Table, parseDate: DateParser, parseNum: NumParser, matched: Matcher): Outcome {
    if TypoScanRaises(BeforeTypoScan(t, parseDate)) then TypeErrorRaised
    else
      var s := Clean(inputFile, t, parseDate, parseNum, matched);
      Written(s.table, s.lines)
  }

  /** The DataFrame and the report list of one run; each method performs one phase. */
  class Cleaner {
    var table: Table
    var report: seq<ReportLine>

    /** pd.read_csv has produced `input`; the report starts with its header. */
    constructor (inputFile: string, input: Table)
      ensures table == input && report == Header(inputFile, input)
    {
      table := input;
      report := Header(inputFile, input);
    }

    method ReplaceNullTokens()
      modifies this
      ensures table == NullTokenPhase(old(table)).table
      ensures report == old(report) + NullTokenPhase(old(table)).lines
    {
      var placeholders := QuestionMarks(table);
      table := table.(rows := MapCells(table.rows, BlankQuestionMark));
      report := report + [NullsReplaced(placeholders)];
    }

    method ConvertTimestamp(parse: DateParser)
      modifies this
      ensures table == TimestampPhase(old(table), parse).table
      ensures report == old(report) + TimestampPhase(old(table), parse).lines
    {
      if TimestampColumn in table.columns {
        table := Table(table.columns, table.types[TimestampColumn := DateTime], ParseDates(table.rows, parse));
        report := report + [TimestampConverted];
      }
    }

    method DropConstantColumns()
      modifies this
      ensures table == ConstantColumnPhase(old(table)).table
      ensures report == old(report) + ConstantColumnPhase(old(table)).lines
    {
      var constant := ConstantColumns(table);
      if constant != [] {
        table := Project(table, VaryingColumns(table));
        report := report + [ConstantColumnsDropped(constant)];
      }
    }

    method NormalizeText()
      modifies this
      ensures table == TextPhase(old(table)).table
      ensures report == old(report) + TextPhase(old(table)).lines
    {
      var cols := TextColumns(table);
      var df := table;
      for k := 0 to |cols|
        invariant df == LowerStripColumns(table, cols[..k])
      {
        assert cols[..k + 1][..k] == cols[..k];
        df := df.(rows := MapColumn(df.rows, cols[k], CanonicalText));
      }
      assert cols[..|cols|] == cols;
      table := df.(rows := MapCells(df.rows, NanToMissing));
      report := report + [TextNormalized];
    }

    /** raised: the scan stopped with TypeError after its opening line. */
    method MergeCustomerTypos(matched: Matcher) returns (raised: bool)
      modifies this
      ensures raised == TypoScanRaises(old(table))
      ensures raised ==> table == old(table) && report == old(report) + [TypoScanStarted]
      ensures !raised ==> table == TypoPhase(old(table), matched).table
      ensures !raised ==> report == old(report) + TypoPhase(old(table), matched).lines
    {
      raised := false;
      if CustomerColumn in table.columns {
        report := report + [TypoScanStarted];
        var cells := ColumnOf(table, CustomerColumn);
        if exists c | c in cells :: IsNonTextValue(c) {
          raised := true;
          return;
        }
        var ranked := RankByFrequency(cells);
        var replacements, fixes := PlanTypoFixes(cells, ranked, matched);
        report := report + TypoLines(fixes);
        if replacements != map[] {
          table := table.(rows := ApplyReplacements(table.rows, replacements));
        }
        ConcatAssociative(old(report), [TypoScanStarted], TypoLines(fixes));
      }
    }

    method OptimizeNumericTypes(parse: NumParser)
      modifies this
      ensures table == NumericPhase(parse, old(table)).table
      ensures report == old(report) + NumericPhase(parse, old(table)).lines
    {
      var cols := table.columns;
      ghost var start := table;
      for k := 0 to |cols|
        invariant table == NumericColumns(parse, start, cols[..k]).table
        invariant report == old(report) + NumericColumns(parse, start, cols[..k]).lines
      {
        assert cols[..k + 1][..k] == cols[..k];
        ghost var done := NumericColumns(parse, start, cols[..k]).lines;
        OptimizeColumn(parse, cols[k]);
        ConcatAssociative(old(report), done, NumericStep(parse, NumericColumns(parse, start, cols[..k]).table, cols[k]).lines);
      }
      assert cols[..|cols|] == cols;
    }

    /** One pass of the loop of line 66: step A, then step B on the column as A left it. */
    method OptimizeColumn(parse: NumParser, c: string)
      modifies this
      ensures table == NumericStep(parse, old(table), c).table
      ensures report == old(report) + NumericStep(parse, old(table), c).lines
    {
      ghost var a := PromoteStep(parse, table, c);
      var cells := ColumnOf(table, c);
      if IsTextColumn(table, c) && MostlyNumeric(ParsedCount(parse, cells), |table.rows|) {
        table := Table(table.columns, table.types[c := NumericType(parse, cells)], PromoteRows(table.rows, c, parse));
        report := report + [PromotedToNumeric(c)];
      }
      ghost var b := NarrowStep(table, c);
      if c in table.types && table.types[c] == Float && AllIntegral(ColumnOf(table, c)) {
        table := table.(types := table.types[c := NullableInteger]);
        report := report + [NarrowedToInteger(c)];
      }
      ConcatAssociative(old(report), a.lines, b.lines);
    }

    method CoerceBooleans()
      modifies this
      ensures table == BooleanPhase(old(table)).table
      ensures report == old(report) + BooleanPhase(old(table)).lines
    {
      var cols := TextColumns(table);
      ghost var start := table;
      for k := 0 to |cols|
        invariant table == BooleanColumns(start, cols[..k]).table
        invariant report == old(report) + BooleanColumns(start, cols[..k]).lines
      {
        assert cols[..k + 1][..k] == cols[..k];
        ghost var done := BooleanColumns(start, cols[..k]);
        CoerceColumn(cols[k]);
        ConcatAssociative(old(report), done.lines, BooleanStep(done.table, cols[k]).lines);
      }
      assert cols[..|cols|] == cols;
    }

    /** One pass of the loop of line 83: a column whose values are all binary words becomes boolean. */
    method CoerceColumn(c: string)
      modifies this
      ensures table == BooleanStep(old(table), c).table
      ensures report == old(report) + BooleanStep(old(table), c).lines
    {
      if IsBinaryColumn(ColumnOf(table, c)) {
        table := Table(table.columns, table.types[c := NullableBoolean], MapColumn(table.rows, c, BinaryValue));
        report := report + [FixedToBoolean(c)];
      }
    }

    method DropDuplicates()
      modifies this
      ensures table == DedupPhase(old(table)).table
      ensures report == old(report) + DedupPhase(old(table)).lines
    {
      var initial := |table.rows|;
      table := table.(rows := KeepFirstBy(table.rows, WholeRow));
      if |table.rows| != initial {
        report := report + [DuplicatesRemoved(initial - |table.rows|)];
      }
    }

    method WriteSummary()
      modifies this
      ensures table == old(table)
      ensures report == old(report) + Summary(old(table))
    {
      report := report + [ClosingRule, FinalSummary, FinalRows(|table.rows|), FinalColumns(|table.columns|)];
    }
  }

  /** execute_senior_db_cleaning: the cleaned table (written to output_csv) and the report
      lines (written to report_file). */
  method ExecuteSeniorDbCleaning(inputFile: string, input: Table, parseDate: DateParser,
                                 parseNum: NumParser, matched: Matcher)
    returns (outcome: Outcome)
    ensures outcome == Run(inputFile, input, parseDate, parseNum, matched)
  {
    var cleaner := new Cleaner(inputFile, input);
    cleaner.ReplaceNullTokens();
    cleaner.ConvertTimestamp(parseDate);
    cleaner.DropConstantColumns();
    cleaner.NormalizeText();
    var raised := cleaner.MergeCustomerTypos(matched);
    if raised {
      return TypeErrorRaised;
    }
    cleaner.OptimizeNumericTypes(parseNum);
    cleaner.CoerceBooleans();
    cleaner.DropDuplicates();
    cleaner.WriteSummary();
    outcome := Written(cleaner.table, cleaner.report);
  }

  // ---------------------------------------------------------------------------
  // What the whole run promises
  // ---------------------------------------------------------------------------

  /** No cell of the table is the string 'nan'. */
  predicate NoNanText(t: Table) {
    forall i, k | 0 <= i < |t.rows| && k in t.rows[i] :: t.rows[i][k] != Str(NanText)
  }

  lemma TypoPhaseNoNan(t: Table, matched: Matcher)
    requires NoNanText(t)
    ensures NoNanText(TypoPhase(t, matched).table)
  {
    var u := TypoPhase(t, matched).table;
    var cells := ColumnOf(t, CustomerColumn);
    TypoPhaseOnlyCustomer(t, matched);
    TypoPhaseMergesIntoFrequent(t, matched);
    forall i, k | 0 <= i < |u.rows| && k in u.rows[i] ensures u.rows[i][k] != Str(NanText) {
      var after := u.rows[i][k];
      if k == CustomerColumn && after != t.rows[i][k] {
        var j :| 0 <= j < |cells| && cells[j] == Str(after.s);
        assert At(t.rows[j], CustomerColumn) == Str(after.s);
      }
    }
  }

  lemma NumericStepNoNan(parse: NumParser, t: Table, c: string)
    requires NoNanText(t)
    ensures NoNanText(NumericStep(parse, t, c).table)
  {
    var a := PromoteStep(parse, t, c);
    PromoteStepSpec(parse, t, c);
    NarrowStepSpec(a.table, c);
    forall i, k | 0 <= i < |a.table.rows| && k in a.table.rows[i] ensures a.table.rows[i][k] != Str(NanText) {
      if k == c && a.lines != [] {
        assert a.table.rows[i][k] == ToNumber(parse, t.rows[i][k]);
      }
    }
  }

  lemma {:induction false} NumericColumnsNoNan(parse: NumParser, t: Table, cols: seq<string>)
    requires NoNanText(t)
    ensures NoNanText(NumericColumns(parse, t, cols).table)
    decreases |cols|
  {
    if cols != [] {
      NumericColumnsNoNan(parse, t, cols[..|cols| - 1]);
      NumericStepNoNan(parse, NumericColumns(parse, t, cols[..|cols| - 1]).table, cols[|cols| - 1]);
    }
  }

  lemma BooleanStepNoNan(t: Table, c: string)
    requires NoNanText(t)
    ensures NoNanText(BooleanStep(t, c).table)
  {
    BooleanStepSpec(t, c);
  }

  lemma {:induction false} BooleanColumnsNoNan(t: Table, cols: seq<string>)
    requires NoNanText(t)
    ensures NoNanText(BooleanColumns(t, cols).table)
    decreases |cols|
  {
    if cols != [] {
      BooleanColumnsNoNan(t, cols[..|cols| - 1]);
      BooleanStepNoNan(BooleanColumns(t, cols[..|cols| - 1]).table, cols[|cols| - 1]);
    }
  }

  lemma DedupPhaseNoNan(t: Table)
    requires NoNanText(t)
    ensures NoNanText(DedupPhase(t).table)
  {
    var kept := DedupPhase(t).table.rows;
    KeepFirstByIndexed(t.rows, WholeRow);
    forall j, k | 0 <= j < |kept| && k in kept[j] ensures kept[j][k] != Str(NanText) {
      var idx := KeptIndices(t.rows, WholeRow, |t.rows|);
      assert kept[j] == t.rows[idx[j]];
    }
  }

  /** A well-formed input gives a well-formed output with no more rows, no two of them
      equal, and a subsequence of the input's columns. */
  lemma CleanShape(inputFile: string, t: Table, parseDate: DateParser, parseNum: NumParser, matched: Matcher)
    requires Valid(t)
    ensures var out := Clean(inputFile, t, parseDate, parseNum, matched).table;
      && Valid(out)
      && |out.rows| <= |t.rows|
      && Distinct(out.rows)
      && IsSubsequence(out.columns, t.columns)
  {
    var s1 := NullTokenPhase(t);
    var s2 := TimestampPhase(s1.table, parseDate);
    var s3 := ConstantColumnPhase(s2.table);
    var s4 := TextPhase(s3.table);
    var s5 := TypoPhase(s4.table, matched);
    var s6 := NumericPhase(parseNum, s5.table);
    var s7 := BooleanPhase(s6.table);
    NullTokenPhaseSpec(t);
    TimestampPhaseSpec(s1.table, parseDate);
    ConstantColumnPhaseColumns(s2.table);
    ConstantColumnPhaseCells(s2.table);
    ConstantColumnPhaseValid(s2.table);
    TextPhaseSpec(s3.table);
    TypoPhaseOnlyCustomer(s4.table, matched);
    NumericColumnsShape(parseNum, s5.table, s5.table.columns);
    NumericPhaseValid(parseNum, s5.table);
    BooleanColumnsShape(s6.table, TextColumns(s6.table));
    BooleanPhaseValid(s6.table);
    DedupPhaseRows(s7.table);
    DedupPhaseValid(s7.table);
  }

  /** No cell of the output is the string 'nan': the artefact of phase 4 never comes back. */
  lemma CleanNoNanText(inputFile: string, t: Table, parseDate: DateParser, parseNum: NumParser, matched: Matcher)
    ensures NoNanText(Clean(inputFile, t, parseDate, parseNum, matched).table)
  {
    var s1 := NullTokenPhase(t);
    var s2 := TimestampPhase(s1.table, parseDate);
    var s3 := ConstantColumnPhase(s2.table);
    var s4 := TextPhase(s3.table);
    var s5 := TypoPhase(s4.table, matched);
    var s6 := NumericPhase(parseNum, s5.table);
    var s7 := BooleanPhase(s6.table);
    TextPhaseSpec(s3.table);
    TypoPhaseNoNan(s4.table, matched);
    NumericColumnsNoNan(parseNum, s5.table, s5.table.columns);
    BooleanColumnsNoNan(s6.table, TextColumns(s6.table));
    DedupPhaseNoNan(s7.table);
  }

  lemma PrefixKept<T>(a: seq<T>, b: seq<T>, k: nat)
    requires k <= |a|
    ensures |a + b| >= k && (a + b)[..k] == a[..k]
  {
  }

  /** The layout of a report assembled from a 7-line header, one line, seven more blocks
      and a 4-line closing. */
  lemma AssembledReport<T>(h: seq<T>, l: seq<T>, b2: seq<T>, b3: seq<T>, b4: seq<T>, b5: seq<T>,
                           b6: seq<T>, b7: seq<T>, b8: seq<T>, z: seq<T>)
    requires |h| == 7 && |l| == 1 && |z| == 4
    ensures var x := h + l + b2 + b3 + b4 + b5 + b6 + b7 + b8 + z;
      |x| >= 12 && x[..7] == h && x[7] == l[0] && x[|x| - 4..] == z
  {
    var p := h + l;
    var body := p + b2 + b3 + b4 + b5 + b6 + b7 + b8;
    var x := body + z;
    PrefixKept(p, b2, 8);
    PrefixKept(p + b2, b3, 8);
    PrefixKept(p + b2 + b3, b4, 8);
    PrefixKept(p + b2 + b3 + b4, b5, 8);
    PrefixKept(p + b2 + b3 + b4 + b5, b6, 8);
    PrefixKept(p + b2 + b3 + b4 + b5 + b6, b7, 8);
    PrefixKept(p + b2 + b3 + b4 + b5 + b6 + b7, b8, 8);
    PrefixKept(body, z, 8);
    assert x[..8] == p;
    assert x[..7] == x[..8][..7];
    assert x[|body|..] == z;
  }

  /** The report opens with the header and the '?' count of the input, and closes with the
      summary of the output's size. */
  lemma CleanReport(inputFile: string, t: Table, parseDate: DateParser, parseNum: NumParser, matched: Matcher)
    ensures var s := Clean(inputFile, t, parseDate, parseNum, matched);
      var n := |s.lines|;
      && n >= 12
      && s.lines[..7] == Header(inputFile, t)
      && s.lines[3] == InitialRows(|t.rows|) && s.lines[4] == InitialColumns(|t.columns|)
      && s.lines[7] == NullsReplaced(QuestionMarks(t))
      && s.lines[n - 4..] == [ClosingRule, FinalSummary, FinalRows(|s.table.rows|), FinalColumns(|s.table.columns|)]
  {
    var s1 := NullTokenPhase(t);
    var s2 := TimestampPhase(s1.table, parseDate);
    var s3 := ConstantColumnPhase(s2.table);
    var s4 := TextPhase(s3.table);
    var s5 := TypoPhase(s4.table, matched);
    var s6 := NumericPhase(parseNum, s5.table);
    var s7 := BooleanPhase(s6.table);
    var s8 := DedupPhase(s7.table);
    assert s1.lines == [NullsReplaced(QuestionMarks(t))];
    AssembledReport(Header(inputFile, t), s1.lines, s2.lines, s3.lines, s4.lines, s5.lines, s6.lines,
                    s7.lines, s8.lines, Summary(s8.table));
    var s := Clean(inputFile, t, parseDate, parseNum, matched);
    assert s.lines[..7] == Header(inputFile, t);
    assert s.lines[3] == s.lines[..7][3] && s.lines[4] == s.lines[..7][4];
  }

  /** Phases 1 to 4 keep the rows, and keep the customer column's cells on their side of the
      line between missing or text values and other values, as long as the column survives. */
  lemma NonTextKeptBeforeScan(t: Table, parseDate: DateParser, i: nat)
    requires i < |t.rows|
    requires CustomerColumn in BeforeTypoScan(t, parseDate).columns
    ensures |BeforeTypoScan(t, parseDate).rows| == |t.rows|
    ensures IsNonTextValue(At(BeforeTypoScan(t, parseDate).rows[i], CustomerColumn))
        <==> IsNonTextValue(At(t.rows[i], CustomerColumn))
  {
    var s1 := NullTokenPhase(t).table;
    var s2 := TimestampPhase(s1, parseDate).table;
    var s3 := ConstantColumnPhase(s2).table;
    var s4 := TextPhase(s3).table;
    assert CustomerColumn[0] != TimestampColumn[0];
    var c0 := At(t.rows[i], CustomerColumn);
    assert At(s1.rows[i], CustomerColumn) == BlankQuestionMark(c0);
    TimestampPhaseSpec(s1, parseDate);
    assert At(s2.rows[i], CustomerColumn) == At(s1.rows[i], CustomerColumn);
    ConstantColumnPhaseCells(s2);
    TextPhaseSpec(s3);
    assert CustomerColumn in s3.columns;
    assert At(s3.rows[i], CustomerColumn) == At(s2.rows[i], CustomerColumn);
    var c3 := At(s3.rows[i], CustomerColumn);
    if CustomerColumn in s3.rows[i] {
      TextPhaseCell(s3, i, CustomerColumn);
      assert At(s4.rows[i], CustomerColumn) == NanToMissing(
        if IsTextColumn(s3, CustomerColumn) then CanonicalText(c3) else c3);
    }
  }

  /** The table the scan sees has one row per input row, and each customer cell is a number,
      a bool or a date exactly when the input's cell is. */
  lemma NonTextColumnBeforeScan(t: Table, parseDate: DateParser)
    requires CustomerColumn in BeforeTypoScan(t, parseDate).columns
    ensures var u := BeforeTypoScan(t, parseDate);
      && |u.rows| == |t.rows|
      && forall i | 0 <= i < |t.rows| ::
           IsNonTextValue(At(u.rows[i], CustomerColumn)) <==> IsNonTextValue(At(t.rows[i], CustomerColumn))
  {
    if t.rows != [] {
      NonTextKeptBeforeScan(t, parseDate, 0);
    }
    forall i | 0 <= i < |t.rows|
      ensures IsNonTextValue(At(BeforeTypoScan(t, parseDate).rows[i], CustomerColumn))
          <==> IsNonTextValue(At(t.rows[i], CustomerColumn))
    {
      NonTextKeptBeforeScan(t, parseDate, i);
    }
  }

  /** The scan of u raises exactly when one of rows, cell for cell alike to u's customer
      column, holds a number, a bool or a date. */
  lemma RaisesOnSomeRow(u: Table, rows: seq<Row>)
    requires CustomerColumn in u.columns && |u.rows| == |rows|
    requires forall i | 0 <= i < |rows| ::
      IsNonTextValue(At(u.rows[i], CustomerColumn)) <==> IsNonTextValue(At(rows[i], CustomerColumn))
    ensures TypoScanRaises(u) <==> exists i | 0 <= i < |rows| :: IsNonTextValue(At(rows[i], CustomerColumn))
  {
    var cells := ColumnOf(u, CustomerColumn);
    if exists c | c in cells :: IsNonTextValue(c) {
      var c :| c in cells && IsNonTextValue(c);
      var i :| 0 <= i < |cells| && cells[i] == c;
    }
    if exists i | 0 <= i < |rows| :: IsNonTextValue(At(rows[i], CustomerColumn)) {
      var i :| 0 <= i < |rows| && IsNonTextValue(At(rows[i], CustomerColumn));
      assert cells[i] in cells;
    }
  }

  /** The typo scan raises exactly when the customer column survives phases 1 to 4 and some
      customer cell of the input is a number, a bool or a date. */
  lemma TypoScanRaisesOnInput(t: Table, parseDate: DateParser)
    ensures TypoScanRaises(BeforeTypoScan(t, parseDate)) <==>
      && CustomerColumn in BeforeTypoScan(t, parseDate).columns
      && exists i | 0 <= i < |t.rows| :: IsNonTextValue(At(t.rows[i], CustomerColumn))
  {
    var u := BeforeTypoScan(t, parseDate);
    if CustomerColumn in u.columns {
      NonTextColumnBeforeScan(t, parseDate);
      RaisesOnSomeRow(u, t.rows);
    }
  }

  /** A run whose customer cells are all missing or text writes its files. */
  lemma TextCustomerWritten(inputFile: string, t: Table, parseDate: DateParser, parseNum: NumParser, matched: Matcher)
    requires forall i | 0 <= i < |t.rows| :: !IsNonTextValue(At(t.rows[i], CustomerColumn))
    ensures Run(inputFile, t, parseDate, parseNum, matched).Written?
    ensures Run(inputFile, t, parseDate, parseNum, matched).output == Clean(inputFile, t, parseDate, parseNum, matched).table
  {
    TypoScanRaisesOnInput(t, parseDate);
  }
}
