/**
  The column operations of the cleaning script on a data frame: a list of
  column names and a list of rows of cells. Each operation is a function
  from the old frame to the new one, or to `None` where pandas raises
  (a missing column, a cell of the wrong type); the `Frame` class applies
  them in place.
 */
module Frames {
  import opened Wrappers
  import opened Text
  import opened Cells
  import opened Names
  import opened Parsers
  import opened Ranking
  import opened Ordering

  /** A data frame's contents. */
  datatype Data = Data(columns: seq<string>, rows: seq<seq<Cell>>)

  /** Every row has one cell per column. */
  predicate Rectangular(d: Data)
  {
    forall i | 0 <= i < |d.rows| :: |d.rows[i]| == |d.columns|
  }

  /** The position of the first column called `name`. */
  function IndexOf(columns: seq<string>, name: string): (r: Option<nat>)
    ensures r.Some? ==> r.value < |columns| && columns[r.value] == name
    ensures r.Some? ==> forall k | 0 <= k < r.value :: columns[k] != name
    ensures r.None? <==> name !in columns
  {
    if columns == [] then None
    else if columns[0] == name then Some(0)
    else match IndexOf(columns[1..], name)
      case Some(k) => Some(k + 1)
      case None => None
  }

  /** At most one column is called `name` (`df[name]` is then a single column). */
  predicate Unique(columns: seq<string>, name: string)
  {
    forall i, j | 0 <= i < j < |columns| && columns[i] == name :: columns[j] != name
  }

  /** The cells of column `j`, top to bottom. */
  function ColumnCells(rows: seq<seq<Cell>>, j: nat): (c: seq<Cell>)
    requires forall i | 0 <= i < |rows| :: j < |rows[i]|
    ensures |c| == |rows| && forall i | 0 <= i < |rows| :: c[i] == rows[i][j]
  {
    seq(|rows|, i requires 0 <= i < |rows| => rows[i][j])
  }

  /** The cells of the first column called `name`, or `None` when there is none. */
  function Column(d: Data, name: string): (r: Option<seq<Cell>>)
    requires Rectangular(d)
    ensures r.Some? <==> name in d.columns
    ensures r.Some? ==> |r.value| == |d.rows|
  {
    match IndexOf(d.columns, name)
    case Some(j) => Some(ColumnCells(d.rows, j))
    case None => None
  }

  // ---------------------------------------------------------------------
  // Series.apply on one column

  /**
    A column assigned the `apply` of `f` to itself: every cell of column `j`
    replaced by `f` of it, or `None` when `f` raises on some cell (the frame
    is then left as it was).
   */
  function MapColumn(rows: seq<seq<Cell>>, j: nat, f: Cell -> Option<Cell>): (r: Option<seq<seq<Cell>>>)
    requires forall i | 0 <= i < |rows| :: j < |rows[i]|
    ensures r.None? <==> exists i | 0 <= i < |rows| :: f(rows[i][j]).None?
    ensures r.Some? ==> |r.value| == |rows|
    ensures r.Some? ==> forall i | 0 <= i < |rows| :: r.value[i] == rows[i][j := f(rows[i][j]).value]
  {
    if rows == [] then Some([])
    else
      match f(rows[0][j])
      case None => None
      case Some(c) =>
        match MapColumn(rows[1..], j, f)
        case None =>
          var k :| 0 <= k < |rows| - 1 && f(rows[1..][k][j]).None?;
          assert rows[1..][k] == rows[k + 1];
          None
        case Some(rest) =>
          assert forall i | 1 <= i < |rows| :: rows[i] == rows[1..][i - 1];
          Some([rows[0][j := c]] + rest)
  }

  lemma {:induction false} MapColumnIdentity(rows: seq<seq<Cell>>, j: nat, f: Cell -> Option<Cell>)
    requires forall i | 0 <= i < |rows| :: j < |rows[i]| && f(rows[i][j]) == Some(rows[i][j])
    ensures MapColumn(rows, j, f) == Some(rows)
  {
    if rows != [] {
      MapColumnIdentity(rows[1..], j, f);
      assert rows[0][j := rows[0][j]] == rows[0];
      assert [rows[0]] + rows[1..] == rows;
    }
  }

  /** Applies `f` to the single column called `name`; a missing or repeated name raises. */
  function ApplyToColumn(d: Data, name: string, f: Cell -> Option<Cell>): (r: Option<Data>)
    requires Rectangular(d)
    ensures r.Some? ==> r.value.columns == d.columns && Rectangular(r.value)
  {
    match IndexOf(d.columns, name)
    case None => None
    case Some(j) =>
      if !Unique(d.columns, name) then None
      else match MapColumn(d.rows, j, f)
        case None => None
        case Some(rows) => Some(Data(d.columns, rows))
  }

  /** The new frame of an `apply` on column `name` that does not raise. */
  lemma ApplyToColumnCells(d: Data, name: string, f: Cell -> Option<Cell>)
    requires Rectangular(d) && ApplyToColumn(d, name, f).Some?
    ensures var j := IndexOf(d.columns, name).value;
      var r := ApplyToColumn(d, name, f).value;
      && Unique(d.columns, name) && |r.rows| == |d.rows|
      && forall i | 0 <= i < |d.rows| :: r.rows[i] == d.rows[i][j := f(d.rows[i][j]).value]
  {
  }

  /** An `apply` raises exactly when the column is missing or repeated, or `f` raises on one of its cells. */
  lemma ApplyToColumnFails(d: Data, name: string, f: Cell -> Option<Cell>)
    requires Rectangular(d)
    ensures ApplyToColumn(d, name, f).None? <==>
      name !in d.columns || !Unique(d.columns, name) ||
      exists i | 0 <= i < |d.rows| :: f(d.rows[i][IndexOf(d.columns, name).value]).None?
  {
  }

  // ---------------------------------------------------------------------
  // clean_player_column (data_cleaning.py:16-20)

  /** The clean name of a text cell; a cell that is not text raises. */
  function CleanCell(c: Cell, table: Transliteration): Option<Cell>
  {
    if c.Text? then Some(Text(CleanName(c.s, table))) else None
  }

  /** `clean_player_column` on a frame: a frame without a `Player` column is returned unchanged. */
  function CleanPlayers(d: Data, table: Transliteration): (r: Option<Data>)
    requires Rectangular(d)
    ensures "Player" !in d.columns ==> r == Some(d)
    ensures r.Some? ==> r.value.columns == d.columns && Rectangular(r.value)
    ensures r.Some? ==> |r.value.rows| == |d.rows|
  {
    if "Player" !in d.columns then Some(d)
    else ApplyToColumn(d, "Player", c => CleanCell(c, table))
  }

  /** After cleaning, every `Player` cell holds a clean name and every other cell is as before. */
  lemma CleanPlayersShape(d: Data, table: Transliteration)
    requires Rectangular(d) && AsciiTable(table) && "Player" in d.columns
    requires CleanPlayers(d, table).Some?
    ensures var j := IndexOf(d.columns, "Player").value;
      var r := CleanPlayers(d, table).value;
      && |r.rows| == |d.rows|
      && forall i | 0 <= i < |r.rows| ::
        && d.rows[i][j].Text?
        && r.rows[i][j] == Text(CleanName(d.rows[i][j].s, table))
        && IsClean(r.rows[i][j].s)
        && forall k | 0 <= k < |d.columns| && k != j :: r.rows[i][k] == d.rows[i][k]
  {
    var j := IndexOf(d.columns, "Player").value;
    var f := c => CleanCell(c, table);
    ApplyToColumnCells(d, "Player", f);
    var r := CleanPlayers(d, table).value;
    forall i | 0 <= i < |r.rows| ensures IsClean(r.rows[i][j].s) {
      CleanNameShape(d.rows[i][j].s, table);
    }
  }

  /** Cleaning a cleaned frame again changes nothing. */
  lemma CleanPlayersIdempotent(d: Data, table: Transliteration)
    requires Rectangular(d) && AsciiTable(table) && CleanPlayers(d, table).Some?
    ensures CleanPlayers(CleanPlayers(d, table).value, table) == CleanPlayers(d, table)
  {
    if "Player" in d.columns {
      var j := IndexOf(d.columns, "Player").value;
      var f := c => CleanCell(c, table);
      var r := CleanPlayers(d, table).value;
      CleanPlayersShape(d, table);
      ApplyToColumnCells(d, "Player", f);
      forall i | 0 <= i < |r.rows| ensures f(r.rows[i][j]) == Some(r.rows[i][j]) {
        CleanNameIdempotent(d.rows[i][j].s, table);
      }
      MapColumnIdentity(r.rows, j, f);
      assert IndexOf(r.columns, "Player") == Some(j);
      assert CleanPlayers(r, table) == ApplyToColumn(r, "Player", f);
    }
  }

  // ---------------------------------------------------------------------
  // The first line of each wingspan name (data_cleaning.py:44)

  /** The first line of a text cell; `.str` turns anything else into a missing value. */
  function FirstLineCell(c: Cell): Option<Cell>
  {
    if c.Text? then Some(Text(FirstLine(c.s))) else Some(Missing)
  }

  /**
    The first-line step never raises once the column exists (pandas' `.str`
    would raise on a column holding no text at all, which cannot follow the
    cleaning), and no name keeps a line break.
   */
  lemma FirstLineOfPlayers(d: Data)
    requires Rectangular(d) && "Player" in d.columns && Unique(d.columns, "Player")
    ensures ApplyToColumn(d, "Player", FirstLineCell).Some?
    ensures var j := IndexOf(d.columns, "Player").value;
      var r := ApplyToColumn(d, "Player", FirstLineCell).value;
      forall i | 0 <= i < |r.rows| ::
        (r.rows[i][j].Text? <==> d.rows[i][j].Text?) &&
        (r.rows[i][j].Text? ==> '\n' !in r.rows[i][j].s && r.rows[i][j].s == FirstLine(d.rows[i][j].s))
  {
    var j := IndexOf(d.columns, "Player").value;
    ApplyToColumnCells(d, "Player", FirstLineCell);
    var r := ApplyToColumn(d, "Player", FirstLineCell).value;
    forall i | 0 <= i < |r.rows| ensures r.rows[i][j].Text? ==> '\n' !in r.rows[i][j].s {
      if d.rows[i][j].Text? {
        FirstLineOfSplit(d.rows[i][j].s);
      }
    }
  }

  // ---------------------------------------------------------------------
  // The roster heights and season labels (data_cleaning.py:236-244)

  /** `height_to_inches` on one cell; a cell that is not text raises (it has no `split`). */
  function HeightCell(c: Cell): Option<Cell>
  {
    if c.Text? then
      match HeightToInches(c.s)
      case Some(v) => Some(Int(v))
      case None => None
    else None
  }

  /**
    The season label of one cell (data_cleaning.py:236): the cell's own text,
    a dash, and the last two digits of the year after it. An integer cell is
    written in decimal, a text cell is kept as written and read with `int()`;
    any other cell is an error.
   */
  function SeasonCell(c: Cell): Option<Cell>
  {
    match c
    case Int(y) => Some(Text(SeasonLabel(y)))
    case Text(t) =>
      (match PyInt(t)
       case Some(v) => Some(Text(t + "-" + LastTwo(IntToString(v + 1))))
       case None => None)
    case _ => None
  }

  /** A text cell holding a year is labelled like the integer year. */
  lemma SeasonCellOfYearText(year: nat)
    ensures SeasonCell(Text(NatToString(year))) == SeasonCell(Int(year))
  {
    var t := NatToString(year);
    PyIntOfNatToString(year);
    assert IntToString(year) == t;
    assert SeasonCell(Text(t)) == Some(Text(t + "-" + LastTwo(IntToString(year + 1))));
  }

  // ---------------------------------------------------------------------
  // The combine measures in inches (data_cleaning.py:363-395)

  /**
    A combine height cell in inches. The cell is missing exactly when it is
    not text (`re.match` raises and the handler returns `None`) or when no
    feet-and-inches reading starts its text; otherwise it is the value of
    the reading that does.
   */
  function HeightMeasureCell(c: Cell): (r: Cell)
    ensures c.Text? ==> (r.Missing? <==>
      forall p :: WellFormed(p, OptionalSpace) ==> Assemble(p, HeightClose) != c.s)
    ensures c.Text? && !r.Missing? ==> (r.Real? &&
      exists p :: WellFormed(p, OptionalSpace) && Assemble(p, HeightClose) == c.s && r.x == PiecesValue(p))
    ensures !c.Text? ==> r == Missing
  {
    if c.Text? then
      MatchNoneIff(c.s, OptionalSpace, HeightClose);
      var v := ConvertHeightToInches(c.s);
      if v.Some? then MatchSound(c.s, OptionalSpace, HeightClose, v.value); Real(v.value)
      else Missing
    else Missing
  }

  /** A wingspan cell in inches, likewise with any number of spaces and a double quote. */
  function WingspanMeasureCell(c: Cell): (r: Cell)
    ensures c.Text? ==> (r.Missing? <==>
      forall p :: WellFormed(p, AnySpaces) ==> Assemble(p, WingspanClose) != c.s)
    ensures c.Text? && !r.Missing? ==> (r.Real? &&
      exists p :: WellFormed(p, AnySpaces) && Assemble(p, WingspanClose) == c.s && r.x == PiecesValue(p))
    ensures !c.Text? ==> r == Missing
  {
    if c.Text? then
      MatchNoneIff(c.s, AnySpaces, WingspanClose);
      var v := WingspanToInches(c.s);
      if v.Some? then MatchSound(c.s, AnySpaces, WingspanClose, v.value); Real(v.value)
      else Missing
    else Missing
  }

  // ---------------------------------------------------------------------
  // The position replacements over the whole frame (data_cleaning.py:253-256)

  /** The replacement of one cell: only text cells equal to a key change. */
  function ReplaceCell(c: Cell): Cell
  {
    if c.Text? then Text(ReplacePosition(c.s)) else c
  }

  /** `replace` on every cell of the frame. */
  function ReplacePositions(d: Data): (r: Data)
    ensures r.columns == d.columns && |r.rows| == |d.rows|
    ensures forall i | 0 <= i < |d.rows| :: |r.rows[i]| == |d.rows[i]|
  {
    Data(d.columns, seq(|d.rows|, i requires 0 <= i < |d.rows| =>
      seq(|d.rows[i]|, k requires 0 <= k < |d.rows[i]| => ReplaceCell(d.rows[i][k]))))
  }

  /**
    Replacing twice is replacing once; a cell changes only when it is a
    hybrid position label, and such a cell becomes its first position.
   */
  lemma ReplacePositionsProperties(d: Data)
    ensures ReplacePositions(ReplacePositions(d)) == ReplacePositions(d)
    ensures forall i, k | 0 <= i < |d.rows| && 0 <= k < |d.rows[i]| ::
      ReplacePositions(d).rows[i][k] != d.rows[i][k] ==>
        d.rows[i][k].Text? && d.rows[i][k].s in PositionReplacements
    ensures forall i, k | 0 <= i < |d.rows| && 0 <= k < |d.rows[i]| &&
      d.rows[i][k].Text? && d.rows[i][k].s in PositionReplacements ::
        ReplacePositions(d).rows[i][k] == Text(d.rows[i][k].s[..1])
  {
    var r := ReplacePositions(d);
    var r2 := ReplacePositions(r);
    forall i | 0 <= i < |d.rows| ensures r2.rows[i] == r.rows[i] {
      forall k | 0 <= k < |r.rows[i]| ensures r2.rows[i][k] == r.rows[i][k] {
        if d.rows[i][k].Text? {
          ReplacePositionIdempotent(d.rows[i][k].s);
        }
      }
    }
  }

  // ---------------------------------------------------------------------
  // The positional prefix rename of a team table (data_cleaning.py:135-174)

  /** The positional prefix rename; positions past the last column raise. */
  function PrefixColumns(d: Data, lo: nat, hi: nat, prefix: string): (r: Option<Data>)
    requires Rectangular(d)
    ensures r.Some? ==> r.value.rows == d.rows && Rectangular(r.value)
  {
    match PrefixRange(d.columns, lo, hi, prefix)
    case Some(names) => Some(Data(names, d.rows))
    case None => None
  }

  // ---------------------------------------------------------------------
  // Assigning a whole column

  /**
    A column assignment: overwrite every column called `name` (pandas
    broadcasts the cells to each copy of a repeated name), or add the
    column at the end.
   */
  function SetColumn(d: Data, name: string, cells: seq<Cell>): (r: Data)
    requires Rectangular(d) && |cells| == |d.rows|
    ensures Rectangular(r) && |r.rows| == |d.rows|
    ensures IndexOf(r.columns, name).Some?
    ensures forall i | 0 <= i < |d.rows| :: r.rows[i][IndexOf(r.columns, name).value] == cells[i]
    ensures forall i, k | 0 <= i < |d.rows| && 0 <= k < |r.columns| && r.columns[k] == name ::
      r.rows[i][k] == cells[i]
    ensures name in d.columns ==> r.columns == d.columns
    ensures name !in d.columns ==> r.columns == d.columns + [name]
    ensures forall i, k | 0 <= i < |d.rows| && 0 <= k < |d.columns| && d.columns[k] != name ::
      r.rows[i][k] == d.rows[i][k]
  {
    if name in d.columns then
      Data(d.columns, seq(|d.rows|, i requires 0 <= i < |d.rows| =>
        seq(|d.columns|, k requires 0 <= k < |d.columns| =>
          if d.columns[k] == name then cells[i] else d.rows[i][k])))
    else
      assert IndexOf(d.columns + [name], name) == Some(|d.columns|) by {
        IndexOfAppend(d.columns, name);
      }
      Data(d.columns + [name], seq(|d.rows|, i requires 0 <= i < |d.rows| => d.rows[i] + [cells[i]]))
  }

  lemma {:induction false} IndexOfAppend(columns: seq<string>, name: string)
    requires name !in columns
    ensures IndexOf(columns + [name], name) == Some(|columns|)
  {
    if columns != [] {
      assert (columns + [name])[1..] == columns[1..] + [name];
      IndexOfAppend(columns[1..], name);
    }
  }

  lemma {:induction false} IndexOfExtend(columns: seq<string>, x: string, name: string)
    requires name in columns
    ensures IndexOf(columns + [x], name) == IndexOf(columns, name)
  {
    if columns[0] != name {
      assert (columns + [x])[1..] == columns[1..] + [x];
      IndexOfExtend(columns[1..], x, name);
    }
  }

  /** After a column assignment the column holds the new cells, and every other column is as before. */
  lemma SetColumnColumns(d: Data, name: string, cells: seq<Cell>, other: string)
    requires Rectangular(d) && |cells| == |d.rows|
    ensures Column(SetColumn(d, name, cells), name) == Some(cells)
    ensures other != name ==> Column(SetColumn(d, name, cells), other) == Column(d, other)
  {
    var r := SetColumn(d, name, cells);
    assert ColumnCells(r.rows, IndexOf(r.columns, name).value) == cells;
    if other != name && other in d.columns {
      var j := IndexOf(d.columns, other).value;
      if name !in d.columns {
        IndexOfExtend(d.columns, name, other);
      }
      assert IndexOf(r.columns, other) == Some(j);
      assert ColumnCells(r.rows, j) == ColumnCells(d.rows, j);
    }
  }

  // ---------------------------------------------------------------------
  // The per-season rank columns (data_cleaning.py:110-119)

  /** A metric column can be ranked when no cell of it is text. */
  predicate AllNumeric(cells: seq<Cell>)
  {
    forall i | 0 <= i < |cells| :: IsNumeric(cells[i])
  }

  function Numbers(cells: seq<Cell>): (r: seq<Option<real>>)
    ensures |r| == |cells| && forall i | 0 <= i < |cells| :: r[i] == NumberOf(cells[i])
  {
    seq(|cells|, i requires 0 <= i < |cells| => NumberOf(cells[i]))
  }

  function CellsOf(rs: seq<Option<real>>): (r: seq<Cell>)
    ensures |r| == |rs| && forall i | 0 <= i < |rs| :: r[i] == FromNumber(rs[i])
  {
    seq(|rs|, i requires 0 <= i < |rs| => FromNumber(rs[i]))
  }

  /** The rank cells of metric `col` per season, or `None` where pandas raises. */
  function RankCells(d: Data, col: string, dir: Direction): (r: Option<seq<Cell>>)
    requires Rectangular(d)
    ensures r.Some? ==> |r.value| == |d.rows|
  {
    match (IndexOf(d.columns, "Season"), IndexOf(d.columns, col))
    case (Some(s), Some(c)) =>
      if !Unique(d.columns, "Season") || !Unique(d.columns, col) then None
      else
        var metric := ColumnCells(d.rows, c);
        if !AllNumeric(metric) then None
        else Some(CellsOf(RankColumn(ColumnCells(d.rows, s), Numbers(metric), dir)))
    case _ => None
  }

  /** The rank cells are the rank column of the `Season` and metric columns. */
  lemma RankCellsOf(d: Data, col: string, dir: Direction)
    requires Rectangular(d) && RankCells(d, col, dir).Some?
    ensures Column(d, "Season").Some? && Column(d, col).Some?
    ensures RankCells(d, col, dir).value ==
      CellsOf(RankColumn(Column(d, "Season").value, Numbers(Column(d, col).value), dir))
  {
  }

  /** One ranking step: the rank column of `col` written as `col_rank`. */
  function WithRank(d: Data, col: string, dir: Direction): (r: Option<Data>)
    requires Rectangular(d)
    ensures r.Some? ==> Rectangular(r.value) && |r.value.rows| == |d.rows|
  {
    match RankCells(d, col, dir)
    case Some(cells) => Some(SetColumn(d, col + "_rank", cells))
    case None => None
  }

  /**
    The rank column holds, for every row, the pandas rank of its metric among
    the same season's rows; other columns are untouched.
   */
  lemma WithRankCells(d: Data, col: string, dir: Direction)
    requires Rectangular(d) && WithRank(d, col, dir).Some?
    ensures var r := WithRank(d, col, dir).value;
      var s := IndexOf(d.columns, "Season").value;
      var c := IndexOf(d.columns, col).value;
      var w := IndexOf(r.columns, col + "_rank").value;
      && forall i | 0 <= i < |d.rows| ::
        NumberOf(r.rows[i][w]) == Rank(ColumnCells(d.rows, s), Numbers(ColumnCells(d.rows, c)), dir, i)
  {
  }

  /** The metric names ranked with a higher value first. */
  const HigherIsBetterColumns: seq<string> := ["Deflections", "charges", "contested_shots", "BLK", "STL", "DBPM"]

  /** The metric names ranked with a lower value first. */
  const LowerIsBetterColumns: seq<string> := ["DFGM", "DFG_PCT", "DFG_pct_2pt", "DFG_pct_3pt"]

  /**
    The `for` loop over `cols`: the frame after ranking the first columns of
    `cols` in turn, and whether every step succeeded. A step that raises ends
    the loop and leaves the frame as the earlier steps made it.
   */
  function RankEach(d: Data, cols: seq<string>, dir: Direction): (r: (Data, bool))
    requires Rectangular(d)
    ensures Rectangular(r.0)
    ensures |r.0.rows| == |d.rows|
  {
    if cols == [] then (d, true)
    else RankStep(RankEach(d, cols[..|cols| - 1], dir), cols[|cols| - 1], dir)
  }

  /** One pass of the loop body, skipped once an earlier pass has raised. */
  function RankStep(state: (Data, bool), col: string, dir: Direction): (r: (Data, bool))
    requires Rectangular(state.0)
    ensures Rectangular(r.0) && |r.0.rows| == |state.0.rows|
    ensures !state.1 ==> r == state
  {
    if !state.1 then state
    else match WithRank(state.0, col, dir)
      case Some(next) => (next, true)
      case None => (state.0, false)
  }

  /** The loop invariant carried over one pass: ranking one more column is one more step. */
  lemma RankEachSnoc(d: Data, cols: seq<string>, dir: Direction, i: nat, before: (Data, bool), after: (Data, bool))
    requires Rectangular(d) && i < |cols| && before == RankEach(d, cols[..i], dir)
    requires after == if before.1 then RankStep(before, cols[i], dir) else before
    ensures after == RankEach(d, cols[..i + 1], dir)
  {
    assert cols[..i + 1][..i] == cols[..i];
  }

  /** Column `col + "_rank"` of `r` holds the per-season ranks, in direction `dir`, of column `col` of `d`. */
  predicate RankedFrom(r: Data, d: Data, col: string, dir: Direction)
    requires Rectangular(r) && Rectangular(d)
  {
    && Column(d, "Season").Some? && Column(d, col).Some?
    && Column(r, col + "_rank") ==
         Some(CellsOf(RankColumn(Column(d, "Season").value, Numbers(Column(d, col).value), dir)))
  }

  /** Metric names whose rank columns are all new: distinct, and none already ends in `_rank`. */
  predicate FreshMetrics(cols: seq<string>)
  {
    Distinct(cols) && forall k | 0 <= k < |cols| :: !EndsWith(cols[k], "_rank")
  }

  /** A rank column's name ends in `_rank` and determines its metric. */
  lemma RankNames(a: string, b: string)
    ensures EndsWith(a + "_rank", "_rank")
    ensures a + "_rank" == b + "_rank" ==> a == b
  {
    if a + "_rank" == b + "_rank" {
      assert a == (a + "_rank")[..|a|];
    }
  }

  /** The loop passes leave every column that is not one of their rank columns as it was. */
  lemma {:induction false} RankEachKeeps(d: Data, cols: seq<string>, dir: Direction, name: string)
    requires Rectangular(d)
    requires forall k | 0 <= k < |cols| :: name != cols[k] + "_rank"
    ensures Column(RankEach(d, cols, dir).0, name) == Column(d, name)
  {
    if cols != [] {
      var n := |cols| - 1;
      var front := cols[..n];
      assert forall k | 0 <= k < n :: front[k] == cols[k];
      RankEachKeeps(d, front, dir, name);
      var m := RankEach(d, front, dir);
      if m.1 && RankCells(m.0, cols[n], dir).Some? {
        SetColumnColumns(m.0, cols[n] + "_rank", RankCells(m.0, cols[n], dir).value, name);
      }
    }
  }

  /**
    After a loop in which no pass raised, every `col_rank` column holds the
    per-season ranks of the metric `col` as it was before the loop: a later
    pass neither overwrites an earlier rank column nor changes a metric.
   */
  lemma {:induction false} RankEachColumns(d: Data, cols: seq<string>, dir: Direction)
    requires Rectangular(d) && FreshMetrics(cols) && "Season" !in cols && RankEach(d, cols, dir).1
    ensures forall k | 0 <= k < |cols| :: RankedFrom(RankEach(d, cols, dir).0, d, cols[k], dir)
  {
    if cols != [] {
      var n := |cols| - 1;
      var front := cols[..n];
      var last := cols[n];
      assert forall k | 0 <= k < n :: front[k] == cols[k];
      var m := RankEach(d, front, dir);
      assert m.1;
      RankEachColumns(d, front, dir);
      var cells := RankCells(m.0, last, dir).value;
      var r := RankEach(d, cols, dir).0;
      assert r == SetColumn(m.0, last + "_rank", cells);
      RankCellsOf(m.0, last, dir);
      forall k | 0 <= k < n ensures "Season" != front[k] + "_rank" && last != front[k] + "_rank" {
        RankNames(front[k], front[k]);
        SeasonIsNoRankName();
      }
      RankEachKeeps(d, front, dir, "Season");
      RankEachKeeps(d, front, dir, last);
      forall k | 0 <= k < |cols| ensures RankedFrom(r, d, cols[k], dir) {
        SetColumnColumns(m.0, last + "_rank", cells, cols[k] + "_rank");
        RankNames(cols[k], last);
        if k < n {
          assert RankedFrom(m.0, d, cols[k], dir);
        }
      }
    }
  }

  lemma SeasonIsNoRankName()
    ensures !EndsWith("Season", "_rank")
  {
    assert "Season"[1..] != "_rank";
  }

  /** The two metric lists of data_cleaning.py:110-112 have all-new rank names and share no metric. */
  lemma MetricListsFresh()
    ensures FreshMetrics(HigherIsBetterColumns) && FreshMetrics(LowerIsBetterColumns)
    ensures "Season" !in HigherIsBetterColumns && "Season" !in LowerIsBetterColumns
    ensures forall h, l | 0 <= h < |HigherIsBetterColumns| && 0 <= l < |LowerIsBetterColumns| ::
      HigherIsBetterColumns[h] != LowerIsBetterColumns[l]
  {
    HigherFresh();
    LowerFresh();
  }

  lemma HigherFresh()
    ensures FreshMetrics(HigherIsBetterColumns) && "Season" !in HigherIsBetterColumns
  {
  }

  lemma LowerFresh()
    ensures FreshMetrics(LowerIsBetterColumns) && "Season" !in LowerIsBetterColumns
  {
  }

  /** Both ranking loops in turn, stopping at the first pass that raises. */
  function RankBothLoops(d: Data): (r: (Data, bool))
    requires Rectangular(d)
    ensures Rectangular(r.0) && |r.0.rows| == |d.rows|
  {
    var first := RankEach(d, HigherIsBetterColumns, HigherIsBetter);
    if !first.1 then first else RankEach(first.0, LowerIsBetterColumns, LowerIsBetter)
  }

  /**
    When neither loop raises, each of the ten metrics has its rank column,
    holding the per-season ranks of the metric in its own direction, computed
    from the frame as it was before the loops.
   */
  lemma RankBothLoopsColumns(d: Data)
    requires Rectangular(d) && RankBothLoops(d).1
    ensures forall k | 0 <= k < |HigherIsBetterColumns| ::
      RankedFrom(RankBothLoops(d).0, d, HigherIsBetterColumns[k], HigherIsBetter)
    ensures forall k | 0 <= k < |LowerIsBetterColumns| ::
      RankedFrom(RankBothLoops(d).0, d, LowerIsBetterColumns[k], LowerIsBetter)
  {
    var hs, ls := HigherIsBetterColumns, LowerIsBetterColumns;
    var d1 := RankEach(d, hs, HigherIsBetter).0;
    var d2 := RankBothLoops(d).0;
    MetricListsFresh();
    RankEachColumns(d, hs, HigherIsBetter);
    RankEachColumns(d1, ls, LowerIsBetter);
    forall k | 0 <= k < |hs| ensures RankedFrom(d2, d, hs[k], HigherIsBetter) {
      forall l | 0 <= l < |ls| ensures hs[k] + "_rank" != ls[l] + "_rank" {
        RankNames(hs[k], ls[l]);
      }
      RankEachKeeps(d1, ls, LowerIsBetter, hs[k] + "_rank");
    }
    forall l | 0 <= l < |ls| ensures RankedFrom(d2, d, ls[l], LowerIsBetter) {
      forall k | 0 <= k < |hs| ensures ls[l] != hs[k] + "_rank" && "Season" != hs[k] + "_rank" {
        RankNames(hs[k], hs[k]);
        SeasonIsNoRankName();
      }
      RankEachKeeps(d, hs, HigherIsBetter, "Season");
      RankEachKeeps(d, hs, HigherIsBetter, ls[l]);
    }
  }

  // ---------------------------------------------------------------------
  // The mean of the rank columns (data_cleaning.py:122-126)

  predicate EndsWith(s: string, suffix: string)
  {
    |suffix| <= |s| && s[|s| - |suffix|..] == suffix
  }

  /** A column name the `_rank$` filter keeps: `$` also matches before a final line break. */
  predicate IsRankName(name: string)
  {
    EndsWith(name, "_rank") || EndsWith(name, "_rank\n")
  }

  /** The positions of the columns `filter(regex='_rank$')` keeps, in order. */
  function RankPositions(columns: seq<string>): (ps: seq<nat>)
    ensures forall k | 0 <= k < |ps| :: ps[k] < |columns| && IsRankName(columns[ps[k]])
    ensures forall j | 0 <= j < |columns| && IsRankName(columns[j]) :: j in ps
    ensures forall k, l | 0 <= k < l < |ps| :: ps[k] < ps[l]
  {
    if columns == [] then []
    else
      var n := |columns| - 1;
      var front := RankPositions(columns[..n]);
      assert forall j | 0 <= j < n :: columns[..n][j] == columns[j];
      assert forall k | 0 <= k < |front| :: front[k] < n;
      front + (if IsRankName(columns[n]) then [n] else [])
  }

  /** A row's rank cells. */
  function RankValues(row: seq<Cell>, ps: seq<nat>): (r: seq<Option<real>>)
    requires forall k | 0 <= k < |ps| :: ps[k] < |row|
    ensures |r| == |ps| && forall k | 0 <= k < |ps| :: r[k] == NumberOf(row[ps[k]])
  {
    seq(|ps|, k requires 0 <= k < |ps| => NumberOf(row[ps[k]]))
  }

  /** The row mean raises on a text cell; otherwise each row gets the mean of its rank cells. */
  function WithAverage(d: Data): (r: Option<Data>)
    requires Rectangular(d)
    ensures r.Some? ==> Rectangular(r.value) && |r.value.rows| == |d.rows|
  {
    var ps := RankPositions(d.columns);
    if exists i, k | 0 <= i < |d.rows| && 0 <= k < |ps| :: d.rows[i][ps[k]].Text? then None
    else
      var cells := seq(|d.rows|, i requires 0 <= i < |d.rows| =>
        FromNumber(AverageRank(RankValues(d.rows[i], ps))));
      Some(SetColumn(d, "average_rank", cells))
  }

  /**
    Each row's `average_rank` is the mean of exactly its non-missing rank
    cells: missing when all are missing, and between `lo` and `hi` when
    every present rank is.
   */
  lemma WithAverageCells(d: Data, i: nat, lo: real, hi: real)
    requires Rectangular(d) && WithAverage(d).Some? && i < |d.rows|
    requires forall k | 0 <= k < |d.columns| && IsRankName(d.columns[k]) && NumberOf(d.rows[i][k]).Some? ::
      lo <= NumberOf(d.rows[i][k]).value <= hi
    ensures var r := WithAverage(d).value;
      var ps := RankPositions(d.columns);
      var a := NumberOf(r.rows[i][IndexOf(r.columns, "average_rank").value]);
      && a == AverageRank(RankValues(d.rows[i], ps))
      && (a.None? <==> forall k | 0 <= k < |ps| :: NumberOf(d.rows[i][ps[k]]).None?)
      && (a.Some? ==> lo <= a.value <= hi)
  {
    var ps := RankPositions(d.columns);
    var rs := RankValues(d.rows[i], ps);
    var cells := seq(|d.rows|, i requires 0 <= i < |d.rows| =>
      FromNumber(AverageRank(RankValues(d.rows[i], ps))));
    var r := SetColumn(d, "average_rank", cells);
    assert WithAverage(d).value == r;
    assert r.rows[i][IndexOf(r.columns, "average_rank").value] == FromNumber(AverageRank(rs));
    AverageMissing(rs);
    forall k | 0 <= k < |rs| && rs[k].Some? ensures lo <= rs[k].value <= hi {
      assert ps[k] < |d.columns| && IsRankName(d.columns[ps[k]]);
    }
    AverageBounds(rs, lo, hi);
  }

  // ---------------------------------------------------------------------
  // The final sort (data_cleaning.py:128)

  /** Season labels that the sort can compare: text or missing. */
  predicate ComparableSeasons(rows: seq<seq<Cell>>, s: nat)
    requires forall i | 0 <= i < |rows| :: s < |rows[i]|
  {
    forall i | 0 <= i < |rows| :: rows[i][s].Text? || rows[i][s].Missing?
  }

  /**
    The sorted frame, or `None` where a sort column is missing or repeated
    (pandas refuses a sort label that is not unique) or the seasons cannot
    be compared.
   */
  function SortedRows(d: Data): (r: Option<Data>)
    requires Rectangular(d)
    ensures r.Some? ==> r.value.columns == d.columns && Rectangular(r.value)
    ensures r.Some? ==> |r.value.rows| == |d.rows| && multiset(r.value.rows) == multiset(d.rows)
    ensures !Unique(d.columns, "Season") || !Unique(d.columns, "average_rank") ==> r.None?
  {
    match (IndexOf(d.columns, "Season"), IndexOf(d.columns, "average_rank"))
    case (Some(s), Some(a)) =>
      if !Unique(d.columns, "Season") || !Unique(d.columns, "average_rank") then None
      else if !ComparableSeasons(d.rows, s) then None
      else
        var rows := SortBy(d.rows, row => RowKey(row, s, a));
        assert forall i | 0 <= i < |rows| :: rows[i] in multiset(d.rows);
        Some(Data(d.columns, rows))
    case _ => None
  }

  /**
    The sorted rows are the old rows rearranged, in the required order, and
    rows with the same season and average keep their relative order.
   */
  lemma SortedRowsProperties(d: Data)
    requires Rectangular(d) && SortedRows(d).Some?
    ensures var s := IndexOf(d.columns, "Season").value;
      var a := IndexOf(d.columns, "average_rank").value;
      var key := row => RowKey(row, s, a);
      var r := SortedRows(d).value.rows;
      && multiset(r) == multiset(d.rows)
      && Sorted(r, key)
      && forall k :: WithKey(r, key, k) == WithKey(d.rows, key, k)
  {
    var s := IndexOf(d.columns, "Season").value;
    var a := IndexOf(d.columns, "average_rank").value;
    var key := row => RowKey(row, s, a);
    SortBySorted(d.rows, key);
    forall k ensures WithKey(SortBy(d.rows, key), key, k) == WithKey(d.rows, key, k) {
      SortByStable(d.rows, key, k);
    }
  }

  // ---------------------------------------------------------------------
  // The frame, updated in place

  class Frame {
    var columns: seq<string>
    var rows: seq<seq<Cell>>

    predicate Valid()
      reads this
    {
      Rectangular(Data(columns, rows))
    }

    function Contents(): Data
      reads this
    {
      Data(columns, rows)
    }

    constructor(columns: seq<string>, rows: seq<seq<Cell>>)
      requires Rectangular(Data(columns, rows))
      ensures Valid() && this.columns == columns && this.rows == rows
    {
      this.columns := columns;
      this.rows := rows;
    }

    /** Installs the outcome of a step that either raises or yields the new frame. */
    method Install(r: Option<Data>) returns (ok: bool)
      requires r.Some? ==> Rectangular(r.value)
      modifies this
      ensures ok == r.Some?
      ensures ok ==> Contents() == r.value
      ensures !ok ==> Contents() == old(Contents())
      ensures Valid() == (if ok then true else old(Valid()))
    {
      if r.Some? {
        columns := r.value.columns;
        rows := r.value.rows;
        ok := true;
      } else {
        ok := false;
      }
    }

    /** `clean_player_column` on this frame (data_cleaning.py:16-20). */
    method CleanPlayerColumn(table: Transliteration) returns (ok: bool)
      requires Valid()
      modifies this
      ensures Valid()
      ensures ok == CleanPlayers(old(Contents()), table).Some?
      ensures Contents() == if ok then CleanPlayers(old(Contents()), table).value else old(Contents())
    {
      ok := Install(CleanPlayers(Contents(), table));
    }

    /** Keeps the first line of every `Player` cell (data_cleaning.py:44). */
    method KeepFirstLineOfPlayer() returns (ok: bool)
      requires Valid()
      modifies this
      ensures Valid()
      ensures var r := ApplyToColumn(old(Contents()), "Player", FirstLineCell);
        ok == r.Some? && Contents() == if ok then r.value else old(Contents())
    {
      ok := Install(ApplyToColumn(Contents(), "Player", FirstLineCell));
    }

    /** Relabels every `Season` cell (data_cleaning.py:236). */
    method LabelSeasons() returns (ok: bool)
      requires Valid()
      modifies this
      ensures Valid()
      ensures var r := ApplyToColumn(old(Contents()), "Season", SeasonCell);
        ok == r.Some? && Contents() == if ok then r.value else old(Contents())
    {
      ok := Install(ApplyToColumn(Contents(), "Season", SeasonCell));
    }

    /** Converts every `Height` cell to inches (data_cleaning.py:244). */
    method HeightsToInches() returns (ok: bool)
      requires Valid()
      modifies this
      ensures Valid()
      ensures var r := ApplyToColumn(old(Contents()), "Height", HeightCell);
        ok == r.Some? && Contents() == if ok then r.value else old(Contents())
    {
      ok := Install(ApplyToColumn(Contents(), "Height", HeightCell));
    }

    /** Applies the position replacements to every cell, in place (data_cleaning.py:256). */
    method ReplaceHybridPositions()
      requires Valid()
      modifies this
      ensures Valid()
      ensures Contents() == ReplacePositions(old(Contents()))
    {
      var r := ReplacePositions(Contents());
      columns := r.columns;
      rows := r.rows;
    }

    /** The `opp_` / `tm_` rename of the columns at positions `lo` to `hi - 1`. */
    method PrefixColumnRange(lo: nat, hi: nat, prefix: string) returns (ok: bool)
      requires Valid()
      modifies this
      ensures Valid()
      ensures var r := PrefixColumns(old(Contents()), lo, hi, prefix);
        ok == r.Some? && Contents() == if ok then r.value else old(Contents())
    {
      ok := Install(PrefixColumns(Contents(), lo, hi, prefix));
    }

    /** One pass of a ranking loop: adds the rank column of `col` (data_cleaning.py:116, 119). */
    method AddRankColumn(col: string, dir: Direction) returns (ok: bool)
      requires Valid()
      modifies this
      ensures Valid()
      ensures (Contents(), ok) == RankStep((old(Contents()), true), col, dir)
    {
      ok := Install(WithRank(Contents(), col, dir));
    }

    /** A ranking loop over the metric names `cols` (data_cleaning.py:115-119). */
    method RankColumns(cols: seq<string>, dir: Direction) returns (ok: bool)
      requires Valid()
      modifies this
      ensures Valid()
      ensures (Contents(), ok) == RankEach(old(Contents()), cols, dir)
    {
      ghost var start := Contents();
      ok := true;
      for i := 0 to |cols|
        invariant Valid()
        invariant (Contents(), ok) == RankEach(start, cols[..i], dir)
      {
        ghost var before := (Contents(), ok);
        if ok {
          ok := AddRankColumn(cols[i], dir);
        }
        RankEachSnoc(start, cols, dir, i, before, (Contents(), ok));
      }
      assert cols[..|cols|] == cols;
    }

    /**
      The two ranking loops, the average and the sort (data_cleaning.py:110-128),
      stopping at the first step that raises with what the earlier steps did.
     */
    method RankPlayers() returns (ok: bool)
      requires Valid()
      modifies this
      ensures Valid()
      ensures (Contents(), ok) == RankedPlayers(old(Contents()))
    {
      ghost var start := Contents();
      ok := RankColumns(HigherIsBetterColumns, HigherIsBetter);
      if ok {
        ok := RankColumns(LowerIsBetterColumns, LowerIsBetter);
      }
      assert (Contents(), ok) == RankBothLoops(start);
      if ok {
        var ranked := Contents();
        ok := Install(WithAverage(ranked));
        if ok {
          var averaged := Contents();
          ok := Install(SortedRows(averaged));
        }
      }
    }
  }

  /**
    The whole ranking section as a function of the frame before it: the
    frame it leaves, and whether every step succeeded. A step that raises
    leaves the frame as the steps before it made it.
   */
  function RankedPlayers(d: Data): (r: (Data, bool))
    requires Rectangular(d)
    ensures Rectangular(r.0)
  {
    var ranked := RankBothLoops(d);
    if !ranked.1 then ranked
    else match WithAverage(ranked.0)
      case None => (ranked.0, false)
      case Some(averaged) =>
        match SortedRows(averaged)
        case None => (averaged, false)
        case Some(sorted) => (sorted, true)
  }

}
