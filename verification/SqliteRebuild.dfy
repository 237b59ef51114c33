/** SQLite's table rebuild: create the next table, copy the rows over by name, drop the old
    table and rename the new one. Compared, cell by cell, with altering the table in place. */
module SqliteRebuild {
  import opened Common
  import opened Ddl
  import opened ColumnDiff
  import opened ColumnPhases
  import opened ColumnsReached
  import opened MigrationSql

  datatype Value = Null | Given(text: string)

  type Row = map<string, Value>

  datatype CopyColumn = CopyColumn(newName: string, oldName: string)

  // ----- Which columns are copied, and from where -----

  ghost function CopyOf(prev: seq<Column>, n: Column): seq<CopyColumn> {
    if IsAdded(prev, n) then []
    else
      var i := FindTs(prev, n.tsName);
      [CopyColumn(n.sqlName, if i >= 0 then prev[i].sqlName else n.sqlName)]
  }

  ghost function CopiesOf(prev: seq<Column>, cols: seq<Column>): seq<CopyColumn> {
    if cols == [] then [] else CopiesOf(prev, cols[..|cols| - 1]) + CopyOf(prev, cols[|cols| - 1])
  }

  ghost predicate AddedNames(names: set<string>, prev: seq<Column>, next: seq<Column>) {
    forall n | n in next :: n.sqlName in names <==> IsAdded(prev, n)
  }

  ghost predicate RenamedNames(renames: map<string, string>, prev: seq<Column>, next: seq<Column>) {
    forall n | n in next ::
      && (n.sqlName in renames <==> RenameOf(prev, n) != [])
      && (n.sqlName in renames ==> renames[n.sqlName] == RenameOf(prev, n)[0].from)
  }

  method AddedNameSet(prev: seq<Column>, next: seq<Column>, adds: seq<Column>) returns (names: set<string>)
    requires DistinctSql(next) && adds == AddsOf(prev, next)
    ensures AddedNames(names, prev, next)
  {
    names := {};
    for i := 0 to |adds|
      invariant names == set c | c in adds[..i] :: c.sqlName
    {
      assert adds[..i + 1] == adds[..i] + [adds[i]];
      names := names + {adds[i].sqlName};
    }
    assert adds[..|adds|] == adds && next[..|next|] == next;
    AddsAre(prev, next, |next|);
    forall n | n in next
      ensures n.sqlName in names <==> IsAdded(prev, n)
    {
      if n.sqlName in names {
        var c :| c in adds && c.sqlName == n.sqlName;
        OneSql(next, c, n);
      }
    }
  }

  lemma {:induction false} AddsAre(prev: seq<Column>, next: seq<Column>, k: nat)
    requires k <= |next|
    ensures forall c :: c in AddsOf(prev, next[..k]) <==> c in next[..k] && IsAdded(prev, c)
  {
    hide IsAdded;
    if k > 0 {
      AddsAre(prev, next, k - 1);
      assert next[..k][..k - 1] == next[..k - 1];
      assert next[..k] == next[..k - 1] + [next[k - 1]];
    }
  }

  method RenameMap(prev: seq<Column>, next: seq<Column>, renameColumns: seq<Rename>)
    returns (renames: map<string, string>)
    requires DistinctSql(next) && renameColumns == RenamesOf(prev, next)
    ensures RenamedNames(renames, prev, next)
  {
    renames := map[];
    for i := 0 to |renameColumns|
      invariant renames == ToMap(renameColumns[..i])
    {
      assert renameColumns[..i + 1][..i] == renameColumns[..i];
      renames := renames[renameColumns[i].to := renameColumns[i].from];
    }
    assert renameColumns[..|renameColumns|] == renameColumns && next[..|next|] == next;
    RenameMapIs(prev, next, |next|);
  }

  ghost function ToMap(rs: seq<Rename>): map<string, string> {
    if rs == [] then map[] else ToMap(rs[..|rs| - 1])[rs[|rs| - 1].to := rs[|rs| - 1].from]
  }

  ghost predicate KeysAmong(renames: map<string, string>, cols: seq<Column>) {
    forall name | name in renames :: exists n :: n in cols && n.sqlName == name
  }

  lemma RenameMapStep(renames: map<string, string>, prev: seq<Column>, cols: seq<Column>, n: Column)
    requires RenamedNames(renames, prev, cols) && KeysAmong(renames, cols)
    requires forall m | m in cols :: m.sqlName != n.sqlName
    ensures var step := RenameOf(prev, n);
            var renames' := if step == [] then renames else renames[step[0].to := step[0].from];
            RenamedNames(renames', prev, cols + [n]) && KeysAmong(renames', cols + [n])
  {
    var step := RenameOf(prev, n);
    assert n.sqlName !in renames;
    assert step != [] ==> step[0].to == n.sqlName;
    hide RenameOf;
    var renames' := if step == [] then renames else renames[step[0].to := step[0].from];
    forall name | name in renames'
      ensures exists m :: m in cols + [n] && m.sqlName == name
    {
      if name in renames {
        var m :| m in cols && m.sqlName == name;
        assert m in cols + [n];
      } else {
        assert n in cols + [n];
      }
    }
  }

  lemma {:induction false} RenameMapIs(prev: seq<Column>, next: seq<Column>, k: nat)
    requires DistinctSql(next) && k <= |next|
    ensures RenamedNames(ToMap(RenamesOf(prev, next[..k])), prev, next[..k])
    ensures KeysAmong(ToMap(RenamesOf(prev, next[..k])), next[..k])
  {
    hide RenameOf;
    if k > 0 {
      RenameMapIs(prev, next, k - 1);
      assert next[..k][..k - 1] == next[..k - 1];
      var n := next[k - 1];
      assert next[..k] == next[..k - 1] + [n];
      var rs, step := RenamesOf(prev, next[..k - 1]), RenameOf(prev, n);
      PrefixNames(next, k - 1);
      RenameMapStep(ToMap(rs), prev, next[..k - 1], n);
      hide RenamedNames;
      hide KeysAmong;
      RenameOfShort(prev, n);
      if step == [] {
        assert rs + step == rs;
      } else {
        assert rs + step == rs + [step[0]];
        assert (rs + [step[0]])[..|rs|] == rs;
      }
    }
  }

  lemma RenameOfShort(prev: seq<Column>, n: Column)
    ensures |RenameOf(prev, n)| <= 1
  {
  }

  /** The columns to copy: every next column that is not an added one, from its old name. */
  method RebuildColumnCopyNames(diff: TableDiff, prev: seq<Column>, columns: seq<Column>)
    returns (copyCols: seq<CopyColumn>)
    requires Distinct(prev) && Distinct(columns) && diff == Diff(prev, columns)
    ensures copyCols == CopiesOf(prev, columns)
  {
    var addCols := AddedNameSet(prev, columns, diff.addColumns);
    var renames := RenameMap(prev, columns, diff.renameColumns);
    copyCols := [];
    for k := 0 to |columns|
      invariant copyCols == CopiesOf(prev, columns[..k])
    {
      assert columns[..k + 1][..k] == columns[..k];
      var col := columns[k];
      if col.sqlName in addCols { continue; }
      copyCols := copyCols +
        [CopyColumn(col.sqlName, if col.sqlName in renames then renames[col.sqlName] else col.sqlName)];
    }
    assert columns[..|columns|] == columns;
  }

  // ----- What happens to a row -----

  /** `INSERT INTO new (newNames) SELECT oldNames FROM old`: the named cells are copied, the
      others get the new column's default; an unknown old name is an error. */
  ghost function CopyRow(copies: seq<CopyColumn>, columns: seq<Column>, row: Row, fill: Column -> Value): Option<Row>
    requires DistinctSql(columns)
  {
    if copies == [] then Some(CellsOf(columns, fill))
    else match CopyRow(copies[..|copies| - 1], columns, row, fill)
         case None => None
         case Some(copied) =>
           var copy := copies[|copies| - 1];
           if copy.oldName in row && copy.newName in copied
           then Some(copied[copy.newName := row[copy.oldName]]) else None
  }

  function InPlace(diff: TableDiff): seq<Statement> {
    DropStatements(diff.dropColumns) + RenameStatements(diff.renameColumns) + AddStatements(diff.addColumns)
  }

  /** The SQL name a next column's cells come from: its partner's, or else its own. */
  ghost function OldName(prev: seq<Column>, n: Column): string {
    var i := FindTs(prev, n.tsName);
    if i >= 0 then prev[i].sqlName else n.sqlName
  }

  /** What the rebuild makes of a next column's cell. */
  ghost function RebuiltCell(prev: seq<Column>, row: Row, fill: Column -> Value, n: Column): Value
    requires !IsAdded(prev, n) ==> OldName(prev, n) in row
  {
    if IsAdded(prev, n) then fill(n) else row[OldName(prev, n)]
  }

  /** `row` has a cell for every previous column and no other. */
  ghost predicate RowOf(row: Row, prev: seq<Column>) {
    && (forall p | p in prev :: p.sqlName in row)
    && (forall s | s in row :: exists p :: p in prev && p.sqlName == s)
  }

  lemma OldNameThere(prev: seq<Column>, n: Column, row: Row)
    requires RowOf(row, prev)
    ensures !IsAdded(prev, n) ==> OldName(prev, n) in row
  {
    if FindTs(prev, n.tsName) >= 0 {
      assert prev[FindTs(prev, n.tsName)] in prev;
    } else if FindSql(prev, n.sqlName) >= 0 {
      assert prev[FindSql(prev, n.sqlName)] in prev;
    }
  }

  ghost predicate Copied(copied: Row, prev: seq<Column>, columns: seq<Column>, row: Row, fill: Column -> Value, k: nat)
    requires k <= |columns|
  {
    && (forall s | s in copied :: exists n :: n in columns && n.sqlName == s)
    && (forall i | 0 <= i < |columns| :: columns[i].sqlName in copied)
    && (forall i | 0 <= i < |columns| && (k <= i || IsAdded(prev, columns[i])) ::
          copied[columns[i].sqlName] == fill(columns[i]))
    && (forall i | 0 <= i < k && !IsAdded(prev, columns[i]) ::
          OldName(prev, columns[i]) in row && copied[columns[i].sqlName] == row[OldName(prev, columns[i])])
  }

  lemma CopyStep(copied: Row, prev: seq<Column>, columns: seq<Column>, row: Row, fill: Column -> Value, k: nat)
    requires DistinctSql(columns) && k < |columns| && Copied(copied, prev, columns, row, fill, k)
    requires !IsAdded(prev, columns[k]) ==> OldName(prev, columns[k]) in row
    ensures columns[k].sqlName in copied
    ensures Copied(if IsAdded(prev, columns[k]) then copied
                   else copied[columns[k].sqlName := row[OldName(prev, columns[k])]], prev, columns, row, fill, k + 1)
  {
    hide IsAdded;
    hide OldName;
    assert columns[k] in columns;
  }

  /** The copy never fails, and fills every cell from the column's old name or its default. */
  lemma {:induction false} CopyRuns(prev: seq<Column>, columns: seq<Column>, row: Row, fill: Column -> Value, k: nat)
    returns (copied: Row)
    requires DistinctSql(columns) && RowOf(row, prev) && k <= |columns|
    ensures CopyRow(CopiesOf(prev, columns[..k]), columns, row, fill) == Some(copied)
    ensures Copied(copied, prev, columns, row, fill, k)
  {
    hide IsAdded;
    hide RowOf;
    if k == 0 {
      copied := CellsOf(columns, fill);
    } else {
      copied := CopyRuns(prev, columns, row, fill, k - 1);
      assert columns[..k][..k - 1] == columns[..k - 1];
      var n := columns[k - 1];
      OldNameThere(prev, n, row);
      CopyStep(copied, prev, columns, row, fill, k - 1);
      hide Copied;
      hide DistinctSql;
      var copies := CopiesOf(prev, columns[..k - 1]);
      if IsAdded(prev, n) {
        assert copies + [] == copies;
      } else {
        var copy := CopyColumn(n.sqlName, OldName(prev, n));
        assert (copies + [copy])[..|copies|] == copies;
        copied := copied[n.sqlName := row[OldName(prev, n)]];
      }
    }
  }

  lemma CopyRunsThrough(prev: seq<Column>, columns: seq<Column>, row: Row, fill: Column -> Value) returns (copied: Row)
    requires DistinctSql(columns) && RowOf(row, prev)
    ensures CopyRow(CopiesOf(prev, columns), columns, row, fill) == Some(copied)
    ensures Copied(copied, prev, columns, row, fill, |columns|)
  {
    hide Copied;
    assert columns[..|columns|] == columns;
    copied := CopyRuns(prev, columns, row, fill, |columns|);
  }

  // ----- What altering in place does to the cells -----

  /** No next column without a partner takes a name from a column that was renamed away. */
  ghost predicate NamesNotReused(prev: seq<Column>, next: seq<Column>) {
    forall q, n | q in prev && n in next && q.sqlName == n.sqlName && !IsPaired(prev, n) :: FindTs(next, q.tsName) < 0
  }

  function CellIn(row: Row): Column -> Value {
    (c: Column) => if c.sqlName in row then row[c.sqlName] else Null
  }

  /** A row after drops, renames and adds in place. */
  ghost predicate Placed(cells: Row, prev: seq<Column>, next: seq<Column>, row: Row, fill: Column -> Value) {
    && (forall n | n in next && IsPaired(prev, n) ::
        n.sqlName in cells && cells[n.sqlName] == CellIn(row)(PairOf(prev, n)))
    && (forall n | n in next && IsAdded(prev, n) :: n.sqlName in cells && cells[n.sqlName] == fill(n))
    && (forall p | p in prev && IsLeft(p, next) :: p.sqlName in cells && cells[p.sqlName] == CellIn(row)(p))
    && (forall s | s in cells :: IsAccounted(prev, next, s))
  }

  lemma PlacedFromParts(base: Row, cells: Row, prev: seq<Column>, next: seq<Column>, row: Row, fill: Column -> Value)
    requires Renamed(base, CellIn(row), prev, next)
    requires AfterAdds(cells, base, Cells(fill), prev, next, |next|)
    ensures Placed(cells, prev, next, row, fill)
  {
    hide IsAdded;
    hide IsPaired;
    hide IsLeft;
    assert next[..|next|] == next;
    forall s | s in cells
      ensures IsAccounted(prev, next, s)
    {
      if s in base {
        if n :| n in next && IsPaired(prev, n) && n.sqlName == s {
        } else {
          var p :| p in prev && IsLeft(p, next) && p.sqlName == s;
        }
      } else {
        var n :| n in next && IsAdded(prev, n) && n.sqlName == s;
      }
    }
  }

  lemma PlacedCell(cells: Row, prev: seq<Column>, next: seq<Column>, row: Row, fill: Column -> Value, n: Column)
    requires Placed(cells, prev, next, row, fill) && NamesNotReused(prev, next) && RowOf(row, prev) && n in next
    ensures !IsAdded(prev, n) ==> OldName(prev, n) in row
    ensures n.sqlName in cells && cells[n.sqlName] == RebuiltCell(prev, row, fill, n)
  {
    OldNameThere(prev, n, row);
    if IsPaired(prev, n) {
      assert cells[n.sqlName] == CellIn(row)(PairOf(prev, n));
    } else if !IsAdded(prev, n) {
      var q := prev[FindSql(prev, n.sqlName)];
      assert q in prev && IsLeft(q, next);
    }
  }

  lemma PlacedMeansNotReused(cells: Row, prev: seq<Column>, next: seq<Column>, row: Row, fill: Column -> Value,
                             q: Column, n: Column)
    requires Distinct(prev) && Distinct(next) && Placed(cells, prev, next, row, fill) && n.sqlName in cells
    requires q in prev && n in next && q.sqlName == n.sqlName && !IsPaired(prev, n)
    ensures FindTs(next, q.tsName) < 0
  {
    var s := n.sqlName;
    assert !IsAdded(prev, n);
    forall m | m in next && (IsPaired(prev, m) || IsAdded(prev, m))
      ensures m.sqlName != s
    {
      DifferentSql(next, m, n);
    }
    assert IsAccounted(prev, next, s);
    var p :| p in prev && IsLeft(p, next) && p.sqlName == s;
    OneSql(prev, p, q);
  }

  lemma SameRow(cells: Row, copied: Row, prev: seq<Column>, next: seq<Column>, row: Row, fill: Column -> Value)
    requires Distinct(prev) && Distinct(next) && RowOf(row, prev) && Placed(cells, prev, next, row, fill)
    requires Copied(copied, prev, next, row, fill, |next|)
    ensures cells == copied <==> NamesNotReused(prev, next)
  {
    if cells == copied {
      forall q, n | q in prev && n in next && q.sqlName == n.sqlName && !IsPaired(prev, n)
        ensures FindTs(next, q.tsName) < 0
      {
        assert n.sqlName in cells;
        PlacedMeansNotReused(cells, prev, next, row, fill, q, n);
      }
    }
    if NamesNotReused(prev, next) {
      NotReusedSameRow(cells, copied, prev, next, row, fill);
    }
  }

  lemma PlacedName(cells: Row, prev: seq<Column>, next: seq<Column>, row: Row, fill: Column -> Value, s: string)
    requires Placed(cells, prev, next, row, fill) && s in cells
    ensures exists n :: n in next && n.sqlName == s
  {
    assert IsAccounted(prev, next, s);
    if p :| p in prev && IsLeft(p, next) && p.sqlName == s {
      assert next[FindSql(next, s)] in next;
    }
  }

  lemma NotReusedSameRow(cells: Row, copied: Row, prev: seq<Column>, next: seq<Column>, row: Row, fill: Column -> Value)
    requires Distinct(next) && RowOf(row, prev) && Placed(cells, prev, next, row, fill)
    requires Copied(copied, prev, next, row, fill, |next|) && NamesNotReused(prev, next)
    ensures cells == copied
  {
    forall i | 0 <= i < |next|
      ensures next[i].sqlName in cells && next[i].sqlName in copied
      ensures cells[next[i].sqlName] == copied[next[i].sqlName]
    {
      PlacedCell(cells, prev, next, row, fill, next[i]);
    }
    forall s | s in cells
      ensures s in copied
    {
      PlacedName(cells, prev, next, row, fill, s);
    }
    hide Placed;
    hide NamesNotReused;
    hide RowOf;
    hide Distinct;
    assert cells.Keys == copied.Keys;
  }

  lemma InPlaceRun(diff: TableDiff, cells: Row, r: Reading<Value>)
    ensures Run(InPlace(diff), cells, r) ==
            match Run(DropStatements(diff.dropColumns), cells, r)
            case None => None
            case Some(kept) =>
              match Run(RenameStatements(diff.renameColumns), kept, r)
              case None => None
              case Some(renamed) => Run(AddStatements(diff.addColumns), renamed, r)
  {
    RunConcat(DropStatements(diff.dropColumns) + RenameStatements(diff.renameColumns),
        AddStatements(diff.addColumns), cells, r);
    RunConcat(DropStatements(diff.dropColumns), RenameStatements(diff.renameColumns), cells, r);
  }

  /** What the statements do to a row's cells, SQLite's own refusals aside. */
  lemma CellsPlaced(prev: seq<Column>, next: seq<Column>, row: Row, fill: Column -> Value)
    requires Distinct(prev) && Distinct(next) && RowOf(row, prev)
    ensures var ran := Run(InPlace(Diff(prev, next)), row, Cells(fill));
            && (ran.Some? <==> RenamesOrdered(prev, next))
            && (ran.Some? ==> Placed(ran.value, prev, next, row, fill))
  {
    hide Tracks;
    hide Renamed;
    hide RenamesOrdered;
    hide Placed;
    var value, r := CellIn(row), Cells(fill);
    assert next[..|next|] == next;
    AreCellsOf(row, prev, value);
    InPlaceRun(Diff(prev, next), row, r);
    hide InPlace;
    hide DropStatements;
    hide RenameStatements;
    hide AddStatements;
    hide Run;
    hide RowOf;
    var kept := DropsTrack(r, value, prev, next);
    RenamesTrack(kept, r, value, prev, next, |next|);
    var renames := RenameStatements(RenamesOf(prev, next));
    FitIsOrdered(prev, next);
    if Run(renames, kept, r).Some? {
      var renamed := Run(renames, kept, r).value;
      TracksRenamed(renamed, value, prev, next);
      AddedAreFree(renamed, value, prev, next);
      var cells := AddsRun(renamed, r, prev, next, |next|);
      PlacedFromParts(renamed, cells, prev, next, row, fill);
    }
  }

  // ----- What SQLite refuses -----

  /** A cell of a row in place, and whether its column may not be dropped. */
  datatype Cell = Cell(held: bool, value: Value)

  /** Whether ALTER TABLE refuses the statement on a table with rows: a column of a key, an index or
      a foreign key and the only column cannot be dropped, and a column cannot be added with PRIMARY
      KEY or UNIQUE, with the current time as its default, or as NOT NULL without a default. */
  predicate Refused(stmt: Statement, cells: map<string, Cell>) {
    match stmt
    case DropColumn(c) => (c in cells && cells[c].held) || cells.Keys == {c}
    case AddColumn(n) => n.solePrimary || n.unique || n.defaultNow || (!n.nullable && n.DefaultOf().NoDefault?)
    case _ => false
  }

  function NewCell(fill: Column -> Value): Column -> Cell {
    (n: Column) => Cell(false, fill(n))
  }

  function RunSqlite(stmts: seq<Statement>, cells: map<string, Cell>, fill: Column -> Value):
    Option<map<string, Cell>> {
    if stmts == [] then Some(cells)
    else if Refused(stmts[0], cells) then None
    else match Exec(stmts[0], cells, Cells(NewCell(fill)))
         case None => None
         case Some(cells') => RunSqlite(stmts[1..], cells', fill)
  }

  /** Columns of the previous table that a key holds, or an index or a foreign key (`used`). */
  predicate Held(p: Column, used: set<string>) {
    p.primary || p.unique || p.sqlName in used
  }

  function StartCell(row: Row, used: set<string>): Column -> Cell {
    (p: Column) => Cell(Held(p, used), CellIn(row)(p))
  }

  function Values(cells: map<string, Cell>): Row {
    map c | c in cells :: cells[c].value
  }

  lemma {:induction false} RunSqliteConcat(a: seq<Statement>, b: seq<Statement>, cells: map<string, Cell>,
                                           fill: Column -> Value)
    ensures RunSqlite(a + b, cells, fill) ==
            match RunSqlite(a, cells, fill) case None => None case Some(cells') => RunSqlite(b, cells', fill)
  {
    hide Refused, Exec, NewCell, Cells;
    if a == [] {
      assert a + b == b;
    } else {
      assert (a + b)[1..] == a[1..] + b;
      if !Refused(a[0], cells) && Exec(a[0], cells, Cells(NewCell(fill))).Some? {
        RunSqliteConcat(a[1..], b, Exec(a[0], cells, Cells(NewCell(fill))).value, fill);
      }
    }
  }

  lemma {:induction false} RunSqliteOne(stmt: Statement, cells: map<string, Cell>, fill: Column -> Value)
    ensures RunSqlite([stmt], cells, fill) ==
            if Refused(stmt, cells) then None else Exec(stmt, cells, Cells(NewCell(fill)))
  {
    hide Refused, Exec;
    assert [stmt][1..] == [];
  }

  ghost predicate IsPlacing(stmt: Statement) {
    stmt.DropColumn? || stmt.RenameColumn? || stmt.AddColumn?
  }

  lemma ValuesStep(stmt: Statement, cells: map<string, Cell>, fill: Column -> Value)
    requires IsPlacing(stmt)
    ensures Exec(stmt, Values(cells), Cells(fill)) ==
            match Exec(stmt, cells, Cells(NewCell(fill))) case None => None case Some(cells') => Some(Values(cells'))
  {
    match Exec(stmt, cells, Cells(NewCell(fill)))
    case None =>
    case Some(cells') =>
      assert Exec(stmt, Values(cells), Cells(fill)).value == Values(cells');
  }

  /** The values move as the cells do. */
  lemma {:induction false} ValuesMove(stmts: seq<Statement>, cells: map<string, Cell>, fill: Column -> Value)
    requires forall stmt | stmt in stmts :: IsPlacing(stmt)
    ensures Run(stmts, Values(cells), Cells(fill)) ==
            match Run(stmts, cells, Cells(NewCell(fill))) case None => None case Some(cells') => Some(Values(cells'))
  {
    hide Exec, Cells, NewCell, IsPlacing, Values;
    if stmts != [] {
      assert stmts[0] in stmts;
      ValuesStep(stmts[0], cells, fill);
      if Exec(stmts[0], cells, Cells(NewCell(fill))).Some? {
        ValuesMove(stmts[1..], Exec(stmts[0], cells, Cells(NewCell(fill))).value, fill);
      }
    }
  }

  /** No column that is dropped among the first `k` is held, and each leaves another behind. */
  ghost predicate DropsTaken(prev: seq<Column>, next: seq<Column>, used: set<string>, k: nat)
    requires k <= |prev|
  {
    && (forall p | p in prev[..k] && IsDropped(p, next) :: !p.primary && !p.unique && p.sqlName !in used)
    && ((exists p :: p in prev[..k] && IsDropped(p, next)) ==>
          exists q :: q in prev && !(q in prev[..k] && IsDropped(q, next)))
  }

  lemma {:induction false} DropTaken(cells: map<string, Cell>, prev: seq<Column>, next: seq<Column>, row: Row,
                                     used: set<string>, k: nat)
    requires DistinctSql(prev) && k < |prev| && AfterDrops(cells, StartCell(row, used), prev, next, k)
    requires DropsTaken(prev, next, used, k) && IsDropped(prev[k], next)
    ensures prev[k].sqlName in cells
    ensures Refused(DropColumn(prev[k].sqlName), cells) <==> !DropsTaken(prev, next, used, k + 1)
  {
    hide IsDropped;
    var p := prev[k];
    DropStep(cells, StartCell(row, used), prev, next, k);
    assert prev[..k + 1] == prev[..k] + [p] && p in prev;
    assert cells[p.sqlName].held <==> Held(p, used);
    if q :| q in prev && !(q in prev[..k + 1] && IsDropped(q, next)) {
      DifferentSql(prev, p, q);
      assert q.sqlName in cells;
    } else {
      forall name | name in cells ensures name == p.sqlName {
        var q :| q in prev && q.sqlName == name;
        assert !(q in prev[..k] && IsDropped(q, next)) && q in prev[..k + 1] && IsDropped(q, next);
      }
      assert cells.Keys == {p.sqlName};
    }
  }

  lemma NotDropped(prev: seq<Column>, next: seq<Column>, used: set<string>, k: nat)
    requires k < |prev|
    ensures !IsDropped(prev[k], next) ==> (DropsTaken(prev, next, used, k + 1) <==> DropsTaken(prev, next, used, k))
    ensures DropsTaken(prev, next, used, k + 1) ==> DropsTaken(prev, next, used, k)
  {
    hide IsDropped;
    assert prev[..k + 1] == prev[..k] + [prev[k]];
  }

  lemma {:induction false} DropsRunSqlite(start: map<string, Cell>, prev: seq<Column>, next: seq<Column>, row: Row,
                                          used: set<string>, fill: Column -> Value, k: nat)
    requires DistinctSql(prev) && k <= |prev| && AfterDrops(start, StartCell(row, used), prev, next, 0)
    ensures RunSqlite(DropStatements(DropsOf(prev[..k], next)), start, fill) ==
            if DropsTaken(prev, next, used, k) then
              Run(DropStatements(DropsOf(prev[..k], next)), start, Cells(NewCell(fill)))
            else None
  {
    hide IsDropped, AfterDrops, DropsTaken, Refused, NewCell, StartCell, Cells, Exec;
    if k == 0 {
      NoDropsYet(prev, next, used);
    } else {
      var r := Cells(NewCell(fill));
      DropsRunSqlite(start, prev, next, row, used, fill, k - 1);
      assert prev[..k][..k - 1] == prev[..k - 1];
      var p, names := prev[k - 1], DropsOf(prev[..k - 1], next);
      NotDropped(prev, next, used, k - 1);
      assert names + [] == names;
      if IsDropped(p, next) {
        assert (names + [p.sqlName])[..|names|] == names;
        RunSnoc(DropStatements(names), DropColumn(p.sqlName), start, r);
        RunSqliteConcat(DropStatements(names), [DropColumn(p.sqlName)], start, fill);
        if DropsTaken(prev, next, used, k - 1) {
          var cells := DropsRun(start, r, StartCell(row, used), prev, next, k - 1);
          DropTaken(cells, prev, next, row, used, k - 1);
          RunSqliteOne(DropColumn(p.sqlName), cells, fill);
        }
      }
    }
  }

  lemma NoDropsYet(prev: seq<Column>, next: seq<Column>, used: set<string>)
    ensures DropsTaken(prev, next, used, 0)
  {
  }

  /** No column that is added needs a key, the current time, or a value it has no default for. */
  ghost predicate AddsTaken(prev: seq<Column>, next: seq<Column>, k: nat)
    requires k <= |next|
  {
    forall n | n in next[..k] && IsAdded(prev, n) ::
      !n.solePrimary && !n.unique && !n.defaultNow && (n.nullable || n.defaultValue.Some?)
  }

  lemma {:induction false} AddsRunSqlite(base: map<string, Cell>, prev: seq<Column>, next: seq<Column>,
                                         fill: Column -> Value, k: nat)
    requires DistinctSql(next) && k <= |next|
    requires forall n | n in next && IsAdded(prev, n) :: n.sqlName !in base
    ensures RunSqlite(AddStatements(AddsOf(prev, next[..k])), base, fill) ==
            if AddsTaken(prev, next, k) then Run(AddStatements(AddsOf(prev, next[..k])), base, Cells(NewCell(fill)))
            else None
  {
    hide IsAdded, NewCell, Cells, Exec, AfterAdds;
    if k > 0 {
      var r := Cells(NewCell(fill));
      AddsRunSqlite(base, prev, next, fill, k - 1);
      assert next[..k][..k - 1] == next[..k - 1] && next[..k] == next[..k - 1] + [next[k - 1]];
      var n, adds := next[k - 1], AddsOf(prev, next[..k - 1]);
      assert adds + [] == adds;
      if IsAdded(prev, n) {
        assert (adds + [n])[..|adds|] == adds;
        RunSnoc(AddStatements(adds), AddColumn(n), base, r);
        RunSqliteConcat(AddStatements(adds), [AddColumn(n)], base, fill);
        if AddsTaken(prev, next, k - 1) {
          var cells := AddsRun(base, r, prev, next, k - 1);
          RunSqliteOne(AddColumn(n), cells, fill);
        }
      }
    }
  }

  lemma {:induction false} NeverRefused(stmts: seq<Statement>, cells: map<string, Cell>, fill: Column -> Value)
    requires forall stmt | stmt in stmts :: stmt.RenameColumn?
    ensures RunSqlite(stmts, cells, fill) == Run(stmts, cells, Cells(NewCell(fill)))
  {
    hide Exec, Cells, NewCell;
    if stmts != [] {
      assert stmts[0] in stmts;
      if Exec(stmts[0], cells, Cells(NewCell(fill))).Some? {
        NeverRefused(stmts[1..], Exec(stmts[0], cells, Cells(NewCell(fill))).value, fill);
      }
    }
  }

  lemma PhaseKinds(diff: TableDiff)
    ensures forall stmt | stmt in DropStatements(diff.dropColumns) :: stmt.DropColumn?
    ensures forall stmt | stmt in RenameStatements(diff.renameColumns) :: stmt.RenameColumn?
    ensures forall stmt | stmt in AddStatements(diff.addColumns) :: stmt.AddColumn?
  {
    PhaseStatements(diff);
  }

  /** The statements that ALTER TABLE takes in SQLite, as the source issues them: the renames find
      their names free, and SQLite's own conditions on drops and adds are met. */
  ghost predicate InPlaceWorks(prev: seq<Column>, next: seq<Column>, used: set<string>) {
    RenamesOrdered(prev, next) && DropsTaken(prev, next, used, |prev|) && AddsTaken(prev, next, |next|)
  }

  lemma {:induction false} InPlaceSqlite(prev: seq<Column>, next: seq<Column>, row: Row, used: set<string>,
                                         fill: Column -> Value)
    requires Distinct(prev) && Distinct(next)
    ensures var start, stmts := CellsOf(prev, StartCell(row, used)), InPlace(Diff(prev, next));
            && (RunSqlite(stmts, start, fill).Some? <==> InPlaceWorks(prev, next, used))
            && (InPlaceWorks(prev, next, used) ==>
                  RunSqlite(stmts, start, fill) == Run(stmts, start, Cells(NewCell(fill))))
  {
    var diff, value, r := Diff(prev, next), StartCell(row, used), Cells(NewCell(fill));
    var start := CellsOf(prev, value);
    var drops, renames, adds := DropStatements(diff.dropColumns), RenameStatements(diff.renameColumns),
        AddStatements(diff.addColumns);
    assert AfterDrops(start, value, prev, next, 0);
    PhaseKinds(diff);
    hide AfterDrops, DropStatements, RenameStatements, AddStatements, Run, RunSqlite, CellsOf, StartCell, NewCell,
        Cells, DropsOf, RenamesOf, AddsOf, RenamesOrdered, DropsTaken, AddsTaken, Tracks, Renamed;
    RunSqliteConcat(drops + renames, adds, start, fill);
    RunSqliteConcat(drops, renames, start, fill);
    RunConcat(drops + renames, adds, start, r);
    RunConcat(drops, renames, start, r);
    assert prev[..|prev|] == prev && next[..|next|] == next;
    DropsRunSqlite(start, prev, next, row, used, fill, |prev|);
    var kept := DropsTrack(r, value, prev, next);
    RenamesTrack(kept, r, value, prev, next, |next|);
    FitIsOrdered(prev, next);
    NeverRefused(renames, kept, fill);
    if Run(renames, kept, r).Some? {
      var renamed := Run(renames, kept, r).value;
      TracksRenamed(renamed, value, prev, next);
      AddedAreFree(renamed, value, prev, next);
      AddsRunSqlite(renamed, prev, next, fill, |next|);
      var cells := AddsRun(renamed, r, prev, next, |next|);
    }
  }

  /** Altering a table with rows in place succeeds exactly when the renames are ordered and SQLite
      takes the drops and the adds, and then every cell is in its place. */
  lemma {:induction false} InPlaceOutcome(prev: seq<Column>, next: seq<Column>, row: Row, used: set<string>,
                                          fill: Column -> Value)
    requires Distinct(prev) && Distinct(next) && RowOf(row, prev)
    ensures var ran := RunSqlite(InPlace(Diff(prev, next)), CellsOf(prev, StartCell(row, used)), fill);
            && (ran.Some? <==> InPlaceWorks(prev, next, used))
            && (ran.Some? ==> Placed(Values(ran.value), prev, next, row, fill))
  {
    var start, stmts := CellsOf(prev, StartCell(row, used)), InPlace(Diff(prev, next));
    InPlaceSqlite(prev, next, row, used, fill);
    StatementsPlace(Diff(prev, next));
    StartValues(prev, row, used);
    hide *;
    CellsPlaced(prev, next, row, fill);
    ValuesMove(stmts, start, fill);
  }

  lemma StatementsPlace(diff: TableDiff)
    ensures forall stmt | stmt in InPlace(diff) :: IsPlacing(stmt)
  {
    PhaseKinds(diff);
    hide DropStatements, RenameStatements, AddStatements;
  }

  lemma StartValues(prev: seq<Column>, row: Row, used: set<string>)
    requires DistinctSql(prev) && RowOf(row, prev)
    ensures Values(CellsOf(prev, StartCell(row, used))) == row
  {
    var start := CellsOf(prev, StartCell(row, used));
    forall p | p in prev ensures start[p.sqlName].value == CellIn(row)(p) {
      assert start[p.sqlName] == StartCell(row, used)(p);
    }
    AreCellsOf(row, prev, CellIn(row));
    hide StartCell, CellIn, RowOf;
    AreCellsOf(Values(start), prev, CellIn(row));
  }

  // ----- Rebuilding and altering in place agree -----

  predicate NotNull(n: Column) {
    !n.nullable && !n.solePrimary
  }

  /** One row of the INSERT into the new table, whose NOT NULL columns refuse a NULL. */
  ghost function InsertRow(copies: seq<CopyColumn>, columns: seq<Column>, row: Row, fill: Column -> Value): Option<Row>
    requires DistinctSql(columns)
  {
    match CopyRow(copies, columns, row, fill)
    case None => None
    case Some(copied) =>
      if forall n | n in columns && NotNull(n) :: n.sqlName in copied && copied[n.sqlName].Given? then Some(copied)
      else None
  }

  /** Every NOT NULL column of the next table gets a value from the row or from its default. */
  ghost predicate CellsGiven(prev: seq<Column>, next: seq<Column>, row: Row, fill: Column -> Value)
    requires RowOf(row, prev)
  {
    forall n | n in next && !n.nullable && !n.solePrimary ::
      OldNameThere(prev, n, row);
      RebuiltCell(prev, row, fill, n).Given?
  }

  lemma {:induction false} InsertOutcome(prev: seq<Column>, next: seq<Column>, row: Row, fill: Column -> Value)
    returns (copied: Row)
    requires DistinctSql(next) && RowOf(row, prev)
    ensures Copied(copied, prev, next, row, fill, |next|)
    ensures InsertRow(CopiesOf(prev, next), next, row, fill) ==
            if CellsGiven(prev, next, row, fill) then Some(copied) else None
  {
    copied := CopyRunsThrough(prev, next, row, fill);
    hide CopyRow, CopiesOf, IsAdded, OldName;
    forall n | n in next
      ensures !IsAdded(prev, n) ==> OldName(prev, n) in row
      ensures n.sqlName in copied && copied[n.sqlName] == RebuiltCell(prev, row, fill, n)
    {
      OldNameThere(prev, n, row);
      var i :| 0 <= i < |next| && next[i] == n;
    }
  }

  /** For every row and every pair of tables: the rebuild takes the row exactly when every NOT NULL
      column gets a value; and both ways succeed with the same cells if and only if besides SQLite
      takes the statements in place, renames find their names free, and no new column takes a name
      that was renamed away. */
  lemma {:induction false} RebuildAgrees(prev: seq<Column>, next: seq<Column>, row: Row, used: set<string>,
                                         fill: Column -> Value)
    requires Distinct(prev) && Distinct(next) && RowOf(row, prev)
    ensures var rebuilt := InsertRow(CopiesOf(prev, next), next, row, fill);
            var ran := RunSqlite(InPlace(Diff(prev, next)), CellsOf(prev, StartCell(row, used)), fill);
            && (rebuilt.Some? <==> CellsGiven(prev, next, row, fill))
            && (ran.Some? <==> InPlaceWorks(prev, next, used))
            && (ran.Some? && rebuilt.Some? ==> (Values(ran.value) == rebuilt.value <==> NamesNotReused(prev, next)))
  {
    hide InPlaceWorks, NamesNotReused, Placed, Copied, RunSqlite, InsertRow, CopiesOf, CellsGiven, RowOf, Diff, InPlace,
        DistinctSql, DistinctTs, CellsOf;
    var copied := InsertOutcome(prev, next, row, fill);
    InPlaceOutcome(prev, next, row, used, fill);
    var ran := RunSqlite(InPlace(Diff(prev, next)), CellsOf(prev, StartCell(row, used)), fill);
    if ran.Some? {
      SameRow(Values(ran.value), copied, prev, next, row, fill);
    }
  }

  // ----- All rows of a table -----

  ghost predicate RowsOf(rows: seq<Row>, prev: seq<Column>) {
    forall i | 0 <= i < |rows| :: RowOf(rows[i], prev)
  }

  ghost function InsertRows(copies: seq<CopyColumn>, columns: seq<Column>, rows: seq<Row>,
      fill: Column -> Value): Option<seq<Row>>
    requires DistinctSql(columns)
  {
    if rows == [] then Some([])
    else match (InsertRows(copies, columns, rows[..|rows| - 1], fill),
                InsertRow(copies, columns, rows[|rows| - 1], fill))
         case (Some(done), Some(row)) => Some(done + [row])
         case _ => None
  }

  /** The rows of the new table. With nothing to copy, no rows are inserted at all. */
  ghost function RebuiltRows(prev: seq<Column>, next: seq<Column>, rows: seq<Row>,
      fill: Column -> Value): Option<seq<Row>>
    requires DistinctSql(next)
  {
    if CopiesOf(prev, next) == [] then Some([]) else InsertRows(CopiesOf(prev, next), next, rows, fill)
  }

  /** The rows of a table altered in place. */
  ghost function AlteredRows(prev: seq<Column>, next: seq<Column>, rows: seq<Row>, used: set<string>,
      fill: Column -> Value): Option<seq<Row>>
    requires DistinctSql(prev)
  {
    if rows == [] then Some([])
    else match (AlteredRows(prev, next, rows[..|rows| - 1], used, fill),
                RunSqlite(InPlace(Diff(prev, next)), CellsOf(prev, StartCell(rows[|rows| - 1], used)), fill))
         case (Some(done), Some(cells)) => Some(done + [Values(cells)])
         case _ => None
  }

  ghost predicate AllGiven(prev: seq<Column>, next: seq<Column>, rows: seq<Row>, fill: Column -> Value)
    requires RowsOf(rows, prev)
  {
    forall i | 0 <= i < |rows| :: CellsGiven(prev, next, rows[i], fill)
  }

  lemma {:induction false} RowsAgree(prev: seq<Column>, next: seq<Column>, rows: seq<Row>, used: set<string>,
                                     fill: Column -> Value)
    requires Distinct(prev) && Distinct(next) && RowsOf(rows, prev)
    ensures var inserted := InsertRows(CopiesOf(prev, next), next, rows, fill);
            var altered := AlteredRows(prev, next, rows, used, fill);
            && (inserted.Some? <==> AllGiven(prev, next, rows, fill))
            && (altered.Some? <==> rows == [] || InPlaceWorks(prev, next, used))
            && (inserted.Some? && altered.Some? ==>
                  && |inserted.value| == |altered.value| == |rows|
                  && (inserted.value == altered.value <==> rows == [] || NamesNotReused(prev, next)))
    decreases |rows|
  {
    hide InPlaceWorks, NamesNotReused, RunSqlite, InsertRow, CopiesOf, Diff, InPlace, DistinctSql, DistinctTs, RowOf,
        CellsGiven, CellsOf, StartCell, Values;
    if rows != [] {
      var init, last := rows[..|rows| - 1], rows[|rows| - 1];
      assert rows == init + [last];
      RowsAgree(prev, next, init, used, fill);
      assert RowOf(last, prev);
      RebuildAgrees(prev, next, last, used, fill);
      GivenSnoc(prev, next, init, last, fill);
      hide AllGiven, RowsOf;
      var inserted := InsertRows(CopiesOf(prev, next), next, rows, fill);
      var altered := AlteredRows(prev, next, rows, used, fill);
      if inserted.Some? && altered.Some? {
        SnocSame(InsertRows(CopiesOf(prev, next), next, init, fill).value,
                 InsertRow(CopiesOf(prev, next), next, last, fill).value,
                 AlteredRows(prev, next, init, used, fill).value,
                 Values(RunSqlite(InPlace(Diff(prev, next)), CellsOf(prev, StartCell(last, used)), fill).value));
      }
    }
  }

  lemma SnocSame(a: seq<Row>, x: Row, b: seq<Row>, y: Row)
    requires |a| == |b|
    ensures a + [x] == b + [y] <==> a == b && x == y
  {
    assert (a + [x])[..|a|] == a && (b + [y])[..|b|] == b && (a + [x])[|a|] == x && (b + [y])[|b|] == y;
  }

  lemma GivenSnoc(prev: seq<Column>, next: seq<Column>, init: seq<Row>, last: Row, fill: Column -> Value)
    requires RowsOf(init, prev) && RowOf(last, prev) && RowsOf(init + [last], prev)
    ensures AllGiven(prev, next, init + [last], fill) <==>
            AllGiven(prev, next, init, fill) && CellsGiven(prev, next, last, fill)
  {
    hide CellsGiven, RowOf;
    var rows := init + [last];
    if AllGiven(prev, next, rows, fill) {
      assert CellsGiven(prev, next, rows[|init|], fill);
      forall i | 0 <= i < |init| ensures CellsGiven(prev, next, init[i], fill) {
        assert CellsGiven(prev, next, rows[i], fill);
      }
    }
  }

  /** Main result, for every content of a table that has rows: rebuild and statements in place both
      succeed and end with the same rows if and only if SQLite takes the statements, the renames
      find their names free, no new column takes a name that was renamed away, at least one column
      is copied, and every NOT NULL column of every row gets a value. */
  lemma {:induction false} RebuildAgreesOnTable(prev: seq<Column>, next: seq<Column>, rows: seq<Row>, used: set<string>,
                                                fill: Column -> Value)
    requires Distinct(prev) && Distinct(next) && RowsOf(rows, prev) && rows != []
    ensures var rebuilt, altered := RebuiltRows(prev, next, rows, fill), AlteredRows(prev, next, rows, used, fill);
            rebuilt.Some? && altered.Some? && rebuilt.value == altered.value <==>
            && InPlaceWorks(prev, next, used) && NamesNotReused(prev, next)
            && CopiesOf(prev, next) != [] && AllGiven(prev, next, rows, fill)
  {
    hide InPlaceWorks, NamesNotReused, CopiesOf, Diff, InPlace, DistinctSql, DistinctTs, RowsOf, AllGiven, InsertRows,
        AlteredRows;
    RowsAgree(prev, next, rows, used, fill);
    KeepsRows(prev, next, rows, used, fill);
  }

  lemma {:induction false} KeepsRows(prev: seq<Column>, next: seq<Column>, rows: seq<Row>, used: set<string>,
                                     fill: Column -> Value)
    requires DistinctSql(prev)
    ensures var altered := AlteredRows(prev, next, rows, used, fill); altered.Some? ==> |altered.value| == |rows|
    decreases |rows|
  {
    hide RunSqlite, InPlace, CellsOf, Values;
    if rows != [] {
      KeepsRows(prev, next, rows[..|rows| - 1], used, fill);
    }
  }
}
