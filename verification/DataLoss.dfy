/** Without consent to data loss only a safe subset of the diff is run. Whatever the two
    manifests, it keeps every table, every column up to its rename, and every row. */
module DataLoss {
  import opened Common
  import opened Ddl
  import opened ColumnDiff
  import opened ColumnsReached
  import opened MigrationSql

  // ----- What is to be done to one table -----

  /** A foreign key change: the constraint to drop first, if any, and the definition to add, if any. */
  datatype FkChange = FkChange(drop: Option<string>, add: Option<string>)

  datatype TableWork =
    | CreateTable(name: string, columns: seq<Column>, indexes: seq<string>, fks: seq<string>)
    | DropTable(name: string)
    | AlterTable(name: string, diff: TableDiff, addIndexes: seq<string>, dropIndexes: seq<string>,
                 fkChanges: seq<FkChange>, primaryChanges: nat)

  datatype Operation =
    | CreateEnum(enumType: string)
    | Create(table: string, columns: seq<Column>)
    | Drop(table: string)
    | Alter(table: string, stmt: Statement)
    | CreateIndex(table: string, index: string)
    | DropIndex(index: string)
    | AddForeignKey(table: string, definition: string)
    | DropForeignKey(table: string, constraint: string)

  // ----- The statements for it -----

  function AlterOps(table: string, stmts: seq<Statement>): (ops: seq<Operation>)
    ensures |ops| == |stmts| && forall i | 0 <= i < |ops| :: ops[i] == Alter(table, stmts[i])
  {
    seq(|stmts|, i requires 0 <= i < |stmts| => Alter(table, stmts[i]))
  }

  function FkDrops(table: string, changes: seq<FkChange>): seq<Operation> {
    if changes == [] then []
    else FkDrops(table, changes[..|changes| - 1])
         + match changes[|changes| - 1].drop case None => [] case Some(c) => [DropForeignKey(table, c)]
  }

  function FkAdds(table: string, changes: seq<FkChange>): seq<Operation> {
    if changes == [] then []
    else FkAdds(table, changes[..|changes| - 1])
         + match changes[|changes| - 1].add case None => [] case Some(d) => [AddForeignKey(table, d)]
  }

  function IndexOps(table: string, add: bool, names: seq<string>): (ops: seq<Operation>)
    ensures |ops| == |names|
    ensures forall i | 0 <= i < |ops| :: ops[i] == if add then CreateIndex(table, names[i]) else DropIndex(names[i])
  {
    seq(|names|, i requires 0 <= i < |names| => if add then CreateIndex(table, names[i]) else DropIndex(names[i]))
  }

  function FkOps(table: string, definitions: seq<string>): (ops: seq<Operation>)
    ensures |ops| == |definitions| && forall i | 0 <= i < |ops| :: ops[i] == AddForeignKey(table, definitions[i])
  {
    seq(|definitions|, i requires 0 <= i < |definitions| => AddForeignKey(table, definitions[i]))
  }

  function EnumOps(names: seq<string>): (ops: seq<Operation>)
    ensures |ops| == |names| && forall i | 0 <= i < |ops| :: ops[i] == CreateEnum(names[i])
  {
    seq(|names|, i requires 0 <= i < |names| => CreateEnum(names[i]))
  }

  function Emit(work: TableWork): seq<Operation> {
    match work
    case CreateTable(t, columns, indexes, fks) =>
      [Create(t, columns)] + IndexOps(t, true, indexes) + FkOps(t, fks)
    case DropTable(t) => [Drop(t)]
    case AlterTable(t, diff, addIndexes, dropIndexes, fkChanges, _) =>
      FkDrops(t, fkChanges) + IndexOps(t, false, dropIndexes) + AlterOps(t, Statements(diff))
      + IndexOps(t, true, addIndexes) + FkAdds(t, fkChanges)
  }

  /** All tables' statements: alters, then drops, then creates. */
  function EmitAll(works: seq<TableWork>): seq<Operation> {
    EmitKind(works, (w: TableWork) => w.AlterTable?)
    + EmitKind(works, (w: TableWork) => w.DropTable?)
    + EmitKind(works, (w: TableWork) => w.CreateTable?)
  }

  function EmitKind(works: seq<TableWork>, kind: TableWork -> bool): seq<Operation> {
    if works == [] then []
    else EmitKind(works[..|works| - 1], kind)
         + if kind(works[|works| - 1]) then Emit(works[|works| - 1]) else []
  }

  // ----- What counts as destructive, and the safe subset -----

  predicate IsDestructive(work: TableWork, manual: Manual) {
    match work
    case CreateTable(_, _, _, _) => false
    case DropTable(_) => true
    case AlterTable(_, diff, _, dropIndexes, fkChanges, primaryChanges) =>
      || diff.dropColumns != []
      || (exists a :: a in diff.alterColumns && IsUnsafeTypeChange(a, manual))
      || primaryChanges > 0
      || dropIndexes != []
      || (exists c :: c in fkChanges && c.drop.Some?)
  }

  function SafeAlters(alters: seq<ColumnAlter>, manual: Manual): seq<ColumnAlter> {
    if alters == [] then []
    else SafeAlters(alters[..|alters| - 1], manual)
         + if IsUnsafeTypeChange(alters[|alters| - 1], manual) then [] else [alters[|alters| - 1]]
  }

  function FksWithoutDrop(changes: seq<FkChange>): seq<FkChange> {
    if changes == [] then []
    else FksWithoutDrop(changes[..|changes| - 1])
         + if changes[|changes| - 1].drop.Some? then [] else [changes[|changes| - 1]]
  }

  /** `stripDestructiveFromDiff`: nothing is dropped, and an alter with a manual type change is
      left out whole. None when nothing is left to do. */
  function Strip(work: TableWork, manual: Manual): Option<TableWork> {
    match work
    case DropTable(_) => None
    case CreateTable(_, _, _, _) => Some(work)
    case AlterTable(t, diff, addIndexes, _, fkChanges, primaryChanges) =>
      var alters := SafeAlters(diff.alterColumns, manual);
      var fks := FksWithoutDrop(fkChanges);
      if diff.addColumns == [] && diff.renameColumns == [] && alters == [] && addIndexes == [] && fks == [] then None
      else Some(AlterTable(t, diff.(dropColumns := [], alterColumns := alters), addIndexes, [], fks, primaryChanges))
  }

  function StripAll(works: seq<TableWork>, manual: Manual): seq<TableWork> {
    if works == [] then []
    else StripAll(works[..|works| - 1], manual)
         + match Strip(works[|works| - 1], manual) case None => [] case Some(w) => [w]
  }

  /** What differs between two manifests: the tables' work, the enum types that are new, and
      whether one has changed, which is reported but has no statement. `initial` says that there
      is no previous manifest. */
  datatype SchemaDiff = SchemaDiff(works: seq<TableWork>, newEnums: seq<string>, enumsChanged: bool, initial: bool)
  {
    ghost predicate Valid() {
      initial ==> !enumsChanged && forall w | w in works :: w.CreateTable?
    }
  }

  predicate AnyDestructive(d: SchemaDiff, manual: Manual) {
    d.enumsChanged || exists w :: w in d.works && IsDestructive(w, manual)
  }

  /** What runs without consent. When something is left out, so are the new enum types. */
  function SafeOps(d: SchemaDiff, manual: Manual): seq<Operation> {
    if AnyDestructive(d, manual) && !d.initial then EmitAll(StripAll(d.works, manual))
    else EnumOps(d.newEnums) + EmitAll(d.works)
  }

  // ----- The database -----

  type Row = map<string, string>

  datatype Table = Table(columns: Columns, rows: seq<Row>)

  type Db = map<string, Table>

  function ExecRows(stmt: Statement, rows: seq<Row>, fill: Column -> string): Option<seq<Row>> {
    if rows == [] then Some([])
    else match (ExecRows(stmt, rows[..|rows| - 1], fill), Exec(stmt, rows[|rows| - 1], Cells(fill)))
         case (Some(done), Some(row)) => Some(done + [row])
         case _ => None
  }

  function NewColumns(cols: seq<Column>): Columns {
    if cols == [] then map[] else NewColumns(cols[..|cols| - 1])[cols[|cols| - 1].sqlName := cols[|cols| - 1].Attrs()]
  }

  /** None when the database rejects the statement. */
  function ExecOp(op: Operation, db: Db, fill: Column -> string): Option<Db> {
    match op
    case Create(t, columns) => if t in db then None else Some(db[t := Table(NewColumns(columns), [])])
    case Drop(t) => if t in db then Some(db - {t}) else None
    case Alter(t, stmt) =>
      if t !in db then None
      else (match (ExecColumns(stmt, db[t].columns), ExecRows(stmt, db[t].rows, fill))
            case (Some(columns), Some(rows)) => Some(db[t := Table(columns, rows)])
            case _ => None)
    case _ => Some(db)
  }

  function RunOps(ops: seq<Operation>, db: Db, fill: Column -> string): Option<Db> {
    if ops == [] then Some(db)
    else match ExecOp(ops[0], db, fill)
         case None => None
         case Some(db') => RunOps(ops[1..], db', fill)
  }

  // ----- Only the safe subset is emitted -----

  predicate DropsNothing(op: Operation) {
    !op.Drop? && !(op.Alter? && op.stmt.DropColumn?)
  }

  predicate KeepsTable(work: TableWork) {
    work.CreateTable? || (work.AlterTable? && work.diff.dropColumns == [])
  }

  lemma {:induction false} AltersDropNothing(alters: seq<ColumnAlter>)
    ensures forall s | s in AlterStatements(alters) :: !s.DropColumn?
  {
    if alters != [] {
      AltersDropNothing(alters[..|alters| - 1]);
      EmitDropsNothing(alters[|alters| - 1]);
      hide EmitAlterColumn;
    }
  }

  predicate IsSet(s: Statement, a: ColumnAlter) {
    s.SetNullable? || s.SetDefault? || (s.SetType? && a.setType.Some? && s == SetType(a.sqlName, a.setType.value))
  }

  lemma SetsOnly(a: ColumnAlter)
    ensures forall s | s in SetStatements(a) :: IsSet(s, a)
  {
  }

  lemma ConstraintsOnly(a: ColumnAlter)
    ensures forall s | s in ConstraintStatements(a) :: s.IsOnConstraint()
  {
  }

  lemma EmitDropsNothing(a: ColumnAlter)
    ensures forall s | s in EmitAlterColumn(a) :: !s.DropColumn?
  {
    SetsOnly(a);
    ConstraintsOnly(a);
    hide SetStatements, ConstraintStatements;
  }

  lemma StatementsDropNothing(diff: TableDiff)
    requires diff.dropColumns == []
    ensures forall s | s in Statements(diff) :: !s.DropColumn?
  {
    PhaseStatements(diff);
    AltersDropNothing(diff.alterColumns);
    assert DropStatements(diff.dropColumns) == [];
    hide RenameStatements;
    hide AddStatements;
    hide AlterStatements;
  }

  lemma {:induction false} FkOpsDropNothing(t: string, changes: seq<FkChange>)
    ensures forall op | op in FkDrops(t, changes) :: DropsNothing(op)
    ensures forall op | op in FkAdds(t, changes) :: DropsNothing(op)
  {
    if changes != [] {
      FkOpsDropNothing(t, changes[..|changes| - 1]);
    }
  }

  lemma EmitKeeps(work: TableWork)
    requires KeepsTable(work)
    ensures forall op | op in Emit(work) :: DropsNothing(op)
  {
    match work
    case CreateTable(t, columns, indexes, fks) =>
      assert forall op | op in IndexOps(t, true, indexes) :: DropsNothing(op);
    case AlterTable(t, diff, addIndexes, dropIndexes, fkChanges, _) =>
      StatementsDropNothing(diff);
      FkOpsDropNothing(t, fkChanges);
      hide FkDrops;
      hide FkAdds;
      hide Statements;
      assert forall op | op in AlterOps(t, Statements(diff)) :: DropsNothing(op);
      assert forall op | op in IndexOps(t, true, addIndexes) :: DropsNothing(op);
      assert forall op | op in IndexOps(t, false, dropIndexes) :: DropsNothing(op);
  }

  lemma {:induction false} EmitKindKeeps(works: seq<TableWork>, kind: TableWork -> bool)
    requires forall w | w in works :: KeepsTable(w)
    ensures forall op | op in EmitKind(works, kind) :: DropsNothing(op)
  {
    if works != [] {
      assert works[|works| - 1] in works;
      EmitKindKeeps(works[..|works| - 1], kind);
      EmitKeeps(works[|works| - 1]);
      hide Emit;
      hide DropsNothing;
    }
  }

  lemma EmitAllKeeps(works: seq<TableWork>)
    requires forall w | w in works :: KeepsTable(w)
    ensures forall op | op in EmitAll(works) :: DropsNothing(op)
  {
    hide DropsNothing;
    hide KeepsTable;
    hide EmitKind;
    EmitKindKeeps(works, (w: TableWork) => w.AlterTable?);
    EmitKindKeeps(works, (w: TableWork) => w.DropTable?);
    EmitKindKeeps(works, (w: TableWork) => w.CreateTable?);
  }

  lemma {:induction false} StripKeeps(works: seq<TableWork>, manual: Manual)
    ensures forall w | w in StripAll(works, manual) :: KeepsTable(w)
  {
    if works != [] {
      StripKeeps(works[..|works| - 1], manual);
      hide SafeAlters;
      hide FksWithoutDrop;
      assert forall w | w in StripAll(works, manual) ::
          w in StripAll(works[..|works| - 1], manual) || Strip(works[|works| - 1], manual) == Some(w);
    }
  }

  // ----- Nothing is lost while it runs -----

  /** Where a column of table `t` is after the operations. */
  function Moved(ops: seq<Operation>, t: string, c: string): string {
    if ops == [] then c
    else
      var op := ops[0];
      var renamed := op.Alter? && op.table == t && op.stmt.RenameColumn? && op.stmt.from == c;
      Moved(ops[1..], t, if renamed then op.stmt.to else c)
  }

  /** Every column of `old` is a column of `new`, under its moved name and apart from the
      others, and every row still has all its cells. */
  ghost predicate Preserved(ops: seq<Operation>, t: string, old_: Table, new_: Table) {
    && (forall c | c in old_.columns :: Moved(ops, t, c) in new_.columns)
    && (forall c, d | c in old_.columns && d in old_.columns && c != d :: Moved(ops, t, c) != Moved(ops, t, d))
    && |new_.rows| == |old_.rows|
    && (forall i, c | 0 <= i < |old_.rows| && c in old_.rows[i] ::
          Moved(ops, t, c) in new_.rows[i] && new_.rows[i][Moved(ops, t, c)] == old_.rows[i][c])
  }

  /** One statement that is no drop moves each cell to its name, and keeps names apart. */
  lemma ExecMoves<T>(stmt: Statement, cells: map<string, T>, r: Reading<T>, t: string)
    requires !stmt.DropColumn? && Exec(stmt, cells, r).Some?
    ensures var after := Exec(stmt, cells, r).value;
            && (forall c | c in cells :: Moved([Alter(t, stmt)], t, c) in after)
            && (forall c, d | c in cells && d in cells && c != d ::
                Moved([Alter(t, stmt)], t, c) != Moved([Alter(t, stmt)], t, d))
            && ((forall s, v :: r.update(s, v) == v) ==>
                  forall c | c in cells :: after[Moved([Alter(t, stmt)], t, c)] == cells[c])
  {
    forall c
      ensures Moved([Alter(t, stmt)], t, c) == if stmt.RenameColumn? && stmt.from == c then stmt.to else c
    {
      assert [Alter(t, stmt)][1..] == [];
    }
  }

  ghost predicate RowMoved(stmt: Statement, t: string, before: Row, after: Row) {
    forall c | c in before ::
      Moved([Alter(t, stmt)], t, c) in after && after[Moved([Alter(t, stmt)], t, c)] == before[c]
  }

  lemma {:induction false} ExecRowMoves(stmt: Statement, row: Row, fill: Column -> string, t: string)
    requires !stmt.DropColumn? && Exec(stmt, row, Cells(fill)).Some?
    ensures RowMoved(stmt, t, row, Exec(stmt, row, Cells(fill)).value)
  {
    hide Exec, Moved;
    ExecMoves(stmt, row, Cells(fill), t);
  }

  lemma {:induction false} ExecRowsMove(stmt: Statement, rows: seq<Row>, fill: Column -> string, t: string)
    requires !stmt.DropColumn? && ExecRows(stmt, rows, fill).Some?
    ensures var after := ExecRows(stmt, rows, fill).value;
            |after| == |rows| && forall i | 0 <= i < |rows| :: RowMoved(stmt, t, rows[i], after[i])
  {
    hide Exec, RowMoved;
    if rows != [] {
      ExecRowsMove(stmt, rows[..|rows| - 1], fill, t);
      ExecRowMoves(stmt, rows[|rows| - 1], fill, t);
    }
  }

  lemma OpKeeps(op: Operation, db: Db, fill: Column -> string, t: string)
    requires DropsNothing(op) && t in db && ExecOp(op, db, fill).Some?
    ensures var db' := ExecOp(op, db, fill).value; t in db' && Preserved([op], t, db[t], db'[t])
  {
    if op.Alter? && op.table == t {
      ExecMoves(op.stmt, db[t].columns, Schema(), t);
      ExecRowsMove(op.stmt, db[t].rows, fill, t);
      assert op == Alter(t, op.stmt);
      hide Exec;
      hide ExecRows;
      hide Moved;
    } else {
      assert [op][1..] == [];
      assert forall c :: Moved([op], t, c) == c;
    }
  }

  lemma MovedTwice(ops: seq<Operation>, t: string, c: string)
    requires ops != []
    ensures Moved(ops, t, c) == Moved(ops[1..], t, Moved([ops[0]], t, c))
  {
    assert [ops[0]][1..] == [];
  }

  lemma PreservedTwice(ops: seq<Operation>, t: string, a: Table, b: Table, c: Table)
    requires ops != [] && Preserved([ops[0]], t, a, b) && Preserved(ops[1..], t, b, c)
    ensures Preserved(ops, t, a, c)
  {
    forall x {
      MovedTwice(ops, t, x);
    }
    hide Moved;
  }

  lemma {:induction false} RunKeeps(ops: seq<Operation>, db: Db, fill: Column -> string, t: string)
    requires t in db && RunOps(ops, db, fill).Some?
    requires forall op | op in ops :: DropsNothing(op)
    ensures var db' := RunOps(ops, db, fill).value; t in db' && Preserved(ops, t, db[t], db'[t])
  {
    if ops != [] {
      assert ops[0] in ops;
      OpKeeps(ops[0], db, fill, t);
      var db1 := ExecOp(ops[0], db, fill).value;
      hide ExecOp;
      RunKeeps(ops[1..], db1, fill, t);
      PreservedTwice(ops, t, db[t], db1[t], RunOps(ops, db, fill).value[t]);
    }
  }

  /** Main result: for any pair of manifests, without consent every table, every column up to
      rename and every row of every table survives the migration. */
  lemma NothingIsLost(d: SchemaDiff, manual: Manual, db: Db, fill: Column -> string, t: string)
    requires d.Valid() && t in db && RunOps(SafeOps(d, manual), db, fill).Some?
    ensures var ops := SafeOps(d, manual);
            var db' := RunOps(ops, db, fill).value;
            t in db' && Preserved(ops, t, db[t], db'[t])
  {
    if AnyDestructive(d, manual) && !d.initial {
      StripKeeps(d.works, manual);
      EmitAllKeeps(StripAll(d.works, manual));
    } else {
      assert forall w | w in d.works :: KeepsTable(w);
      EmitAllKeeps(d.works);
      assert forall op | op in EnumOps(d.newEnums) :: DropsNothing(op);
    }
    RunKeeps(SafeOps(d, manual), db, fill, t);
  }

  // ----- No manual type change is emitted either -----

  /** A type change that one of the alters asks for and that is not manual. */
  ghost predicate IsAutomatic(stmt: Statement, alters: seq<ColumnAlter>, manual: Manual) {
    exists a :: a in alters && !IsUnsafeTypeChange(a, manual) && a.setType.Some?
        && stmt == SetType(a.sqlName, a.setType.value)
  }

  lemma {:induction false} AltersAutomatic(alters: seq<ColumnAlter>, manual: Manual)
    requires forall a | a in alters :: !IsUnsafeTypeChange(a, manual)
    ensures forall s | s in AlterStatements(alters) && s.SetType? :: IsAutomatic(s, alters, manual)
  {
    if alters != [] {
      var init, a := alters[..|alters| - 1], alters[|alters| - 1];
      AltersAutomatic(init, manual);
      assert a in alters;
      SetTypeOfAlter(a);
      hide EmitAlterColumn;
      forall s | s in AlterStatements(alters) && s.SetType?
        ensures IsAutomatic(s, alters, manual)
      {
        if s in AlterStatements(init) {
          var b :| b in init && !IsUnsafeTypeChange(b, manual) && b.setType.Some?
              && s == SetType(b.sqlName, b.setType.value);
          assert b in alters;
        }
      }
    }
  }

  lemma SetTypeOfAlter(a: ColumnAlter)
    ensures forall s | s in EmitAlterColumn(a) && s.SetType? ::
        a.setType.Some? && s == SetType(a.sqlName, a.setType.value)
  {
    SetsOnly(a);
    ConstraintsOnly(a);
    hide SetStatements, ConstraintStatements;
  }

  lemma {:induction false} SafeAltersAre(alters: seq<ColumnAlter>, manual: Manual)
    ensures forall a | a in SafeAlters(alters, manual) :: a in alters && !IsUnsafeTypeChange(a, manual)
  {
    if alters != [] {
      SafeAltersAre(alters[..|alters| - 1], manual);
    }
  }

  /** Every type change among the operations is one that a table's alters ask for and that is
      not manual. */
  ghost predicate TypeChangesAutomatic(ops: seq<Operation>, works: seq<TableWork>, manual: Manual) {
    forall op | op in ops && op.Alter? && op.stmt.SetType? ::
      exists w :: w in works && w.AlterTable? && w.name == op.table && IsAutomatic(op.stmt, w.diff.alterColumns, manual)
  }

  predicate AltersSafe(work: TableWork, manual: Manual) {
    work.AlterTable? ==> forall a | a in work.diff.alterColumns :: !IsUnsafeTypeChange(a, manual)
  }

  lemma EmitTypes(work: TableWork, manual: Manual)
    requires AltersSafe(work, manual)
    ensures forall op | op in Emit(work) && op.Alter? && op.stmt.SetType? ::
              work.AlterTable? && work.name == op.table && IsAutomatic(op.stmt, work.diff.alterColumns, manual)
  {
    match work
    case CreateTable(t, columns, indexes, fks) =>
      assert forall op | op in IndexOps(t, true, indexes) :: !op.Alter?;
    case DropTable(_) =>
    case AlterTable(t, diff, addIndexes, dropIndexes, fkChanges, _) =>
      StatementTypes(diff, manual);
      FkOpsAlterNothing(t, fkChanges);
      hide FkDrops;
      hide FkAdds;
      hide Statements;
      hide IsAutomatic;
      assert forall op | op in AlterOps(t, Statements(diff)) && op.Alter? && op.stmt.SetType? ::
          op.table == t && IsAutomatic(op.stmt, diff.alterColumns, manual);
      assert forall op | op in IndexOps(t, true, addIndexes) :: !op.Alter?;
      assert forall op | op in IndexOps(t, false, dropIndexes) :: !op.Alter?;
  }

  lemma StatementTypes(diff: TableDiff, manual: Manual)
    requires forall a | a in diff.alterColumns :: !IsUnsafeTypeChange(a, manual)
    ensures forall s | s in Statements(diff) && s.SetType? :: IsAutomatic(s, diff.alterColumns, manual)
  {
    PhaseStatements(diff);
    AltersAutomatic(diff.alterColumns, manual);
    hide DropStatements;
    hide RenameStatements;
    hide AddStatements;
    hide AlterStatements;
    hide IsAutomatic;
  }

  lemma {:induction false} FkOpsAlterNothing(t: string, changes: seq<FkChange>)
    ensures forall op | op in FkDrops(t, changes) :: !op.Alter?
    ensures forall op | op in FkAdds(t, changes) :: !op.Alter?
  {
    if changes != [] {
      FkOpsAlterNothing(t, changes[..|changes| - 1]);
    }
  }

  lemma {:induction false} EmitKindTypes(works: seq<TableWork>, kind: TableWork -> bool, manual: Manual)
    requires forall w | w in works :: AltersSafe(w, manual)
    ensures TypeChangesAutomatic(EmitKind(works, kind), works, manual)
  {
    if works != [] {
      var init, last := works[..|works| - 1], works[|works| - 1];
      assert last in works;
      EmitKindTypes(init, kind, manual);
      EmitTypes(last, manual);
      hide Emit;
      hide AltersSafe;
      hide IsAutomatic;
      forall op | op in EmitKind(works, kind) && op.Alter? && op.stmt.SetType?
        ensures exists w ::
            w in works && w.AlterTable? && w.name == op.table && IsAutomatic(op.stmt, w.diff.alterColumns, manual)
      {
        if op in EmitKind(init, kind) {
          var w :| w in init && w.AlterTable? && w.name == op.table
              && IsAutomatic(op.stmt, w.diff.alterColumns, manual);
          assert w in works;
        }
      }
    }
  }

  lemma EmitAllTypes(works: seq<TableWork>, manual: Manual)
    requires forall w | w in works :: AltersSafe(w, manual)
    ensures TypeChangesAutomatic(EmitAll(works), works, manual)
  {
    hide AltersSafe;
    hide EmitKind;
    EmitKindTypes(works, (w: TableWork) => w.AlterTable?, manual);
    EmitKindTypes(works, (w: TableWork) => w.DropTable?, manual);
    EmitKindTypes(works, (w: TableWork) => w.CreateTable?, manual);
  }

  lemma {:induction false} StripSafe(works: seq<TableWork>, manual: Manual)
    ensures forall w | w in StripAll(works, manual) ::
              && AltersSafe(w, manual)
              && (w.AlterTable? ==>
                    exists v :: v in works && v.AlterTable? && v.name == w.name
                                && forall a | a in w.diff.alterColumns :: a in v.diff.alterColumns)
  {
    if works != [] {
      var init, last := works[..|works| - 1], works[|works| - 1];
      StripSafe(init, manual);
      assert last in works;
      if last.AlterTable? {
        SafeAltersAre(last.diff.alterColumns, manual);
      }
      forall w | w in StripAll(works, manual)
        ensures AltersSafe(w, manual)
        ensures w.AlterTable? ==>
                  exists v :: v in works && v.AlterTable? && v.name == w.name
                              && forall a | a in w.diff.alterColumns :: a in v.diff.alterColumns
      {
        if w in StripAll(init, manual) {
          if w.AlterTable? {
            var v :| v in init && v.AlterTable? && v.name == w.name
                && forall a | a in w.diff.alterColumns :: a in v.diff.alterColumns;
            assert v in works;
          }
        } else {
          assert Strip(last, manual) == Some(w);
        }
      }
    }
  }

  /** Without consent, every type change that runs is one the database casts by itself. */
  lemma OnlyAutomaticTypeChanges(d: SchemaDiff, manual: Manual)
    requires d.Valid()
    ensures TypeChangesAutomatic(SafeOps(d, manual), d.works, manual)
  {
    if AnyDestructive(d, manual) && !d.initial {
      var safe := StripAll(d.works, manual);
      StripSafe(d.works, manual);
      EmitAllTypes(safe, manual);
      forall op | op in EmitAll(safe) && op.Alter? && op.stmt.SetType?
        ensures exists v ::
            v in d.works && v.AlterTable? && v.name == op.table && IsAutomatic(op.stmt, v.diff.alterColumns, manual)
      {
        var w :| w in safe && w.AlterTable? && w.name == op.table && IsAutomatic(op.stmt, w.diff.alterColumns, manual);
        var v :| v in d.works && v.AlterTable? && v.name == w.name
            && forall a | a in w.diff.alterColumns :: a in v.diff.alterColumns;
      }
    } else {
      EmitAllTypes(d.works, manual);
      assert forall op | op in EnumOps(d.newEnums) :: !op.Alter?;
    }
  }
}
