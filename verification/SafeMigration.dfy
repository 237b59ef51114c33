/** The safe subset is not only safe: it holds every statement that loses nothing, and where it
    runs each table ends as asked, with the columns that nothing replaces still there. */
module SafeMigration {
  import opened Common
  import opened Ddl
  import opened ColumnDiff
  import opened ColumnPhases
  import opened ColumnsReached
  import opened MigrationSql
  import opened DataLoss

  // ----- Exactly the harmless operations are emitted -----

  ghost predicate IsHarmlessStatement(s: Statement, diff: TableDiff, manual: Manual) {
    match s
    case DropColumn(_) => false
    case RenameColumn(from, to) => Rename(from, to) in diff.renameColumns
    case AddColumn(c) => c in diff.addColumns
    case _ => exists a :: a in diff.alterColumns && !IsUnsafeTypeChange(a, manual) && s in EmitAlterColumn(a)
  }

  /** An operation that this work asks for and that neither drops anything nor belongs to a column
      whose type change is manual. */
  ghost predicate IsHarmless(op: Operation, work: TableWork, manual: Manual) {
    match work
    case DropTable(_) => false
    case CreateTable(t, columns, indexes, fks) =>
      || op == Create(t, columns)
      || (op.CreateIndex? && op.table == t && op.index in indexes)
      || (op.AddForeignKey? && op.table == t && op.definition in fks)
    case AlterTable(t, diff, addIndexes, _, fkChanges, _) =>
      || (op.Alter? && op.table == t && IsHarmlessStatement(op.stmt, diff, manual))
      || (op.CreateIndex? && op.table == t && op.index in addIndexes)
      || (op.AddForeignKey? && op.table == t && FkChange(None, Some(op.definition)) in fkChanges)
  }

  lemma {:induction false} EmitKindHas(works: seq<TableWork>, kind: TableWork -> bool, op: Operation)
    ensures op in EmitKind(works, kind) <==> exists w :: w in works && kind(w) && op in Emit(w)
  {
    hide Emit;
    if works != [] {
      var init, last := works[..|works| - 1], works[|works| - 1];
      assert works == init + [last];
      EmitKindHas(init, kind, op);
    }
  }

  lemma EmitAllHas(works: seq<TableWork>, op: Operation)
    ensures op in EmitAll(works) <==> exists w :: w in works && op in Emit(w)
  {
    hide EmitKind, Emit;
    EmitKindHas(works, (w: TableWork) => w.AlterTable?, op);
    EmitKindHas(works, (w: TableWork) => w.DropTable?, op);
    EmitKindHas(works, (w: TableWork) => w.CreateTable?, op);
  }

  lemma {:induction false} StripAllHas(works: seq<TableWork>, manual: Manual, w: TableWork)
    ensures w in StripAll(works, manual) <==> exists v :: v in works && Strip(v, manual) == Some(w)
  {
    hide Strip;
    if works != [] {
      var init, last := works[..|works| - 1], works[|works| - 1];
      assert works == init + [last];
      StripAllHas(init, manual, w);
    }
  }

  lemma {:induction false} FkOpsHave(t: string, changes: seq<FkChange>, op: Operation)
    ensures op in FkAdds(t, changes) <==>
            exists c :: c in changes && c.add.Some? && op == AddForeignKey(t, c.add.value)
  {
    if changes != [] {
      var init, last := changes[..|changes| - 1], changes[|changes| - 1];
      assert changes == init + [last];
      FkOpsHave(t, init, op);
    }
  }

  lemma {:induction false} FksKeptAre(changes: seq<FkChange>, c: FkChange)
    ensures c in FksWithoutDrop(changes) <==> c in changes && c.drop.None?
  {
    if changes != [] {
      FksKeptAre(changes[..|changes| - 1], c);
      assert changes == changes[..|changes| - 1] + [changes[|changes| - 1]];
    }
  }

  lemma {:induction false} NoFkDrops(t: string, changes: seq<FkChange>)
    requires forall c | c in changes :: c.drop.None?
    ensures FkDrops(t, changes) == []
  {
    if changes != [] {
      NoFkDrops(t, changes[..|changes| - 1]);
    }
  }

  lemma {:induction false} SafeAltersHave(alters: seq<ColumnAlter>, manual: Manual, a: ColumnAlter)
    ensures a in SafeAlters(alters, manual) <==> a in alters && !IsUnsafeTypeChange(a, manual)
  {
    if alters != [] {
      SafeAltersHave(alters[..|alters| - 1], manual, a);
      assert alters == alters[..|alters| - 1] + [alters[|alters| - 1]];
    }
  }

  lemma {:induction false} AlterStatementsHave(alters: seq<ColumnAlter>, s: Statement)
    ensures s in AlterStatements(alters) <==> exists a :: a in alters && s in EmitAlterColumn(a)
  {
    hide EmitAlterColumn;
    if alters != [] {
      var init, last := alters[..|alters| - 1], alters[|alters| - 1];
      assert alters == init + [last];
      AlterStatementsHave(init, s);
    }
  }

  lemma {:induction false} RenameStatementsHave(rs: seq<Rename>, s: Statement)
    ensures s in RenameStatements(rs) <==> s.RenameColumn? && Rename(s.from, s.to) in rs
  {
    if rs != [] {
      RenameStatementsHave(rs[..|rs| - 1], s);
      assert rs == rs[..|rs| - 1] + [rs[|rs| - 1]];
    }
  }

  lemma {:induction false} AddStatementsHave(cols: seq<Column>, s: Statement)
    ensures s in AddStatements(cols) <==> s.AddColumn? && s.definition in cols
  {
    if cols != [] {
      AddStatementsHave(cols[..|cols| - 1], s);
      assert cols == cols[..|cols| - 1] + [cols[|cols| - 1]];
    }
  }

  /** What is left of a table's diff. */
  function SafePart(diff: TableDiff, manual: Manual): TableDiff {
    diff.(dropColumns := [], alterColumns := SafeAlters(diff.alterColumns, manual))
  }

  lemma AlterIsNoOther(a: ColumnAlter, s: Statement)
    requires s in EmitAlterColumn(a)
    ensures !s.DropColumn? && !s.RenameColumn? && !s.AddColumn?
  {
    SetsOnly(a);
    ConstraintsOnly(a);
    hide SetStatements, ConstraintStatements;
  }

  /** All statements but the drops. */
  function WithoutDrops(diff: TableDiff): seq<Statement> {
    RenameStatements(diff.renameColumns) + (AddStatements(diff.addColumns) + AlterStatements(diff.alterColumns))
  }

  lemma NoDropsStatements(diff: TableDiff)
    ensures Statements(diff.(dropColumns := [])) == WithoutDrops(diff)
  {
    assert DropStatements([]) == [];
    hide DropStatements, RenameStatements, AddStatements, AlterStatements;
    var a, b, c := RenameStatements(diff.renameColumns), AddStatements(diff.addColumns),
        AlterStatements(diff.alterColumns);
    assert [] + a + b + c == a + (b + c);
  }

  lemma SafeAlterStatements(alters: seq<ColumnAlter>, manual: Manual, s: Statement)
    ensures s in AlterStatements(SafeAlters(alters, manual)) <==>
            exists a :: a in alters && !IsUnsafeTypeChange(a, manual) && s in EmitAlterColumn(a)
  {
    AlterStatementsHave(SafeAlters(alters, manual), s);
    hide AlterStatements, EmitAlterColumn, SafeAlters, IsUnsafeTypeChange;
    forall a ensures a in SafeAlters(alters, manual) <==> a in alters && !IsUnsafeTypeChange(a, manual) {
      SafeAltersHave(alters, manual, a);
    }
  }

  lemma AltersAreNoOther(alters: seq<ColumnAlter>, s: Statement)
    requires s in AlterStatements(alters)
    ensures !s.DropColumn? && !s.RenameColumn? && !s.AddColumn?
  {
    AlterStatementsHave(alters, s);
    hide AlterStatements, EmitAlterColumn;
    var a :| a in alters && s in EmitAlterColumn(a);
    AlterIsNoOther(a, s);
  }

  lemma SafeStatements(diff: TableDiff, manual: Manual, s: Statement)
    ensures s in Statements(SafePart(diff, manual)) <==> IsHarmlessStatement(s, diff, manual)
  {
    var alters := SafeAlters(diff.alterColumns, manual);
    NoDropsStatements(SafePart(diff, manual));
    RenameStatementsHave(diff.renameColumns, s);
    AddStatementsHave(diff.addColumns, s);
    SafeAlterStatements(diff.alterColumns, manual, s);
    hide Statements, RenameStatements, AddStatements, AlterStatements, EmitAlterColumn, SafeAlters, IsUnsafeTypeChange;
    if s in AlterStatements(alters) {
      AltersAreNoOther(alters, s);
    }
    assert SafePart(diff, manual).(dropColumns := []) == SafePart(diff, manual);
  }

  /** The work as far as it is safe, also where nothing of it is left. */
  function SafeWork(work: TableWork, manual: Manual): TableWork
    requires work.AlterTable?
  {
    AlterTable(work.name, SafePart(work.diff, manual), work.addIndexes, [], FksWithoutDrop(work.fkChanges),
               work.primaryChanges)
  }

  lemma StripIs(work: TableWork, manual: Manual)
    requires work.AlterTable?
    ensures match Strip(work, manual)
            case Some(w) => w == SafeWork(work, manual)
            case None => Emit(SafeWork(work, manual)) == [] && Statements(SafePart(work.diff, manual)) == []
  {
    hide SafeAlters, FksWithoutDrop;
    if Strip(work, manual).None? {
      assert FksWithoutDrop(work.fkChanges) == [];
      assert SafeAlters(work.diff.alterColumns, manual) == [];
      assert Statements(SafePart(work.diff, manual)) == [];
    }
  }

  lemma SafeWorkEmits(work: TableWork, manual: Manual, op: Operation)
    requires work.AlterTable?
    ensures op in Emit(SafeWork(work, manual)) <==> IsHarmless(op, work, manual)
  {
    var fks := FksWithoutDrop(work.fkChanges);
    var stmts := Statements(SafePart(work.diff, manual));
    var t := work.name;
    FkOpsHave(t, fks, op);
    forall c ensures c in fks <==> c in work.fkChanges && c.drop.None? {
      FksKeptAre(work.fkChanges, c);
    }
    NoFkDrops(t, fks);
    if op.Alter? {
      SafeStatements(work.diff, manual, op.stmt);
    }
    hide FksWithoutDrop, FkAdds, FkDrops, Statements, IsHarmlessStatement, SafePart;
    assert op in AlterOps(t, stmts) <==> op.Alter? && op.table == t && op.stmt in stmts by {
      if op.Alter? && op.table == t && op.stmt in stmts {
        var i :| 0 <= i < |stmts| && stmts[i] == op.stmt;
        assert AlterOps(t, stmts)[i] == op;
      }
    }
    AddedIndexes(t, work.addIndexes, op);
    assert op in FkAdds(t, fks) <==>
           op.AddForeignKey? && op.table == t && FkChange(None, Some(op.definition)) in work.fkChanges by {
      if op.AddForeignKey? && op.table == t && FkChange(None, Some(op.definition)) in work.fkChanges {
        assert FkChange(None, Some(op.definition)) in fks;
      }
    }
    assert IndexOps(t, false, []) == [];
    hide AlterOps, IndexOps;
  }

  lemma AddedIndexes(t: string, names: seq<string>, op: Operation)
    ensures op in IndexOps(t, true, names) <==> op.CreateIndex? && op.table == t && op.index in names
  {
    if op.CreateIndex? && op.table == t && op.index in names {
      var i :| 0 <= i < |names| && names[i] == op.index;
      assert IndexOps(t, true, names)[i] == op;
    }
  }

  lemma CreatedEmits(work: TableWork, manual: Manual, op: Operation)
    requires work.CreateTable?
    ensures op in Emit(work) <==> IsHarmless(op, work, manual)
  {
    AddedIndexes(work.name, work.indexes, op);
    assert op in FkOps(work.name, work.fks) <==>
           op.AddForeignKey? && op.table == work.name && op.definition in work.fks by {
      if op.AddForeignKey? && op.table == work.name && op.definition in work.fks {
        var i :| 0 <= i < |work.fks| && work.fks[i] == op.definition;
        assert FkOps(work.name, work.fks)[i] == op;
      }
    }
    hide IndexOps, FkOps;
  }

  lemma StrippedEmits(work: TableWork, manual: Manual, op: Operation)
    ensures (Strip(work, manual).Some? && op in Emit(Strip(work, manual).value)) <==> IsHarmless(op, work, manual)
  {
    match work
    case DropTable(_) =>
    case CreateTable(_, _, _, _) => CreatedEmits(work, manual, op);
    case AlterTable(_, _, _, _, _, _) =>
      StripIs(work, manual);
      SafeWorkEmits(work, manual, op);
      hide Emit, Strip, SafeWork, IsHarmless;
  }

  lemma {:induction false} AllAltersSafe(alters: seq<ColumnAlter>, manual: Manual)
    requires forall a | a in alters :: !IsUnsafeTypeChange(a, manual)
    ensures SafeAlters(alters, manual) == alters
  {
    if alters != [] {
      var init, last := alters[..|alters| - 1], alters[|alters| - 1];
      assert last in alters && alters == init + [last];
      AllAltersSafe(init, manual);
    }
  }

  lemma {:induction false} AllFksKept(changes: seq<FkChange>)
    requires forall c | c in changes :: c.drop.None?
    ensures FksWithoutDrop(changes) == changes
  {
    if changes != [] {
      var init, last := changes[..|changes| - 1], changes[|changes| - 1];
      assert last in changes && changes == init + [last];
      AllFksKept(init);
    }
  }

  /** What is not destructive is left as it is. */
  lemma HarmlessIsWhole(work: TableWork, manual: Manual)
    requires !IsDestructive(work, manual)
    ensures Emit(work) == match Strip(work, manual) case None => [] case Some(w) => Emit(w)
  {
    if work.AlterTable? {
      AllAltersSafe(work.diff.alterColumns, manual);
      AllFksKept(work.fkChanges);
      StripIs(work, manual);
      hide Strip, Emit, SafeAlters, FksWithoutDrop;
      assert SafeWork(work, manual) == work;
    }
  }

  lemma {:induction false} KindStripped(works: seq<TableWork>, manual: Manual, kind: TableWork -> bool)
    requires forall w | w in works :: !IsDestructive(w, manual)
    requires forall w | w in works && Strip(w, manual).Some? :: kind(Strip(w, manual).value) == kind(w)
    ensures EmitKind(works, kind) == EmitKind(StripAll(works, manual), kind)
  {
    if works != [] {
      var init, last := works[..|works| - 1], works[|works| - 1];
      assert last in works && works == init + [last];
      KindStripped(init, manual, kind);
      HarmlessIsWhole(last, manual);
      KindSnoc(works, manual, kind);
      hide Strip, StripAll, Emit, IsDestructive;
    }
  }

  /** So the safe subset is the stripped one in any case, new enum types apart. */
  lemma AlwaysStripped(d: SchemaDiff, manual: Manual)
    requires d.Valid()
    ensures SafeOps(d, manual) == (if AnyDestructive(d, manual) then [] else EnumOps(d.newEnums))
                                  + EmitAll(StripAll(d.works, manual))
  {
    if !AnyDestructive(d, manual) {
      hide IsDestructive, EmitKind;
      assert forall w | w in d.works && Strip(w, manual).Some? ::
          Strip(w, manual).value.AlterTable? == w.AlterTable? && Strip(w, manual).value.DropTable? == w.DropTable?;
      hide Strip;
      KindStripped(d.works, manual, (w: TableWork) => w.AlterTable?);
      KindStripped(d.works, manual, (w: TableWork) => w.DropTable?);
      KindStripped(d.works, manual, (w: TableWork) => w.CreateTable?);
    }
  }

  /** Main result: without consent an operation runs if and only if some table's work asks for it
      and it is harmless, or it creates a new enum type and nothing at all is destructive. */
  lemma ExactlyTheHarmless(d: SchemaDiff, manual: Manual, op: Operation)
    requires d.Valid()
    ensures op in SafeOps(d, manual) <==>
            || (op.CreateEnum? && op.enumType in d.newEnums && !AnyDestructive(d, manual))
            || exists w :: w in d.works && IsHarmless(op, w, manual)
  {
    AlwaysStripped(d, manual);
    hide SafeOps, StripAll, EmitAll, Strip, Emit, IsHarmless, AnyDestructive;
    var stripped := StripAll(d.works, manual);
    EmitAllHas(stripped, op);
    forall w {
      StripAllHas(d.works, manual, w);
    }
    forall w {
      StrippedEmits(w, manual, op);
    }
    if w :| w in d.works && IsHarmless(op, w, manual) {
      assert Strip(w, manual).value in stripped;
    }
    if op.CreateEnum? && op.enumType in d.newEnums {
      var i :| 0 <= i < |d.newEnums| && d.newEnums[i] == op.enumType;
      assert EnumOps(d.newEnums)[i] == op;
    }
  }

  // ----- What the operations do to one table -----

  /** The statements among the operations that alter table `t`. */
  function On(ops: seq<Operation>, t: string): seq<Statement> {
    if ops == [] then []
    else (if ops[0].Alter? && ops[0].table == t then [ops[0].stmt] else []) + On(ops[1..], t)
  }

  lemma {:induction false} OnConcat(a: seq<Operation>, b: seq<Operation>, t: string)
    ensures On(a + b, t) == On(a, t) + On(b, t)
  {
    if a == [] {
      assert a + b == b;
    } else {
      assert (a + b)[1..] == a[1..] + b;
      OnConcat(a[1..], b, t);
    }
  }

  lemma {:induction false} OnOthers(ops: seq<Operation>, t: string)
    requires forall op | op in ops && op.Alter? :: op.table != t
    ensures On(ops, t) == []
  {
    if ops != [] {
      assert ops[0] in ops;
      OnOthers(ops[1..], t);
    }
  }

  lemma {:induction false} OnAlters(t: string, stmts: seq<Statement>)
    ensures On(AlterOps(t, stmts), t) == stmts
  {
    if stmts != [] {
      assert AlterOps(t, stmts)[1..] == AlterOps(t, stmts[1..]);
      OnAlters(t, stmts[1..]);
    }
  }

  /** The columns of a table that is not dropped go through the statements that alter it. */
  lemma {:induction false} ColumnsFollow(ops: seq<Operation>, db: Db, fill: Column -> string, t: string)
    requires t in db && RunOps(ops, db, fill).Some?
    requires Operation.Drop(t) !in ops
    ensures var db' := RunOps(ops, db, fill).value;
            t in db' && RunColumns(On(ops, t), db[t].columns) == Some(db'[t].columns)
  {
    if ops != [] {
      var op, db1 := ops[0], ExecOp(ops[0], db, fill).value;
      ColumnsFollow(ops[1..], db1, fill, t);
      var rest := On(ops[1..], t);
      if op.Alter? && op.table == t {
        assert ([op.stmt] + rest)[1..] == rest;
      } else {
        assert [] + rest == rest;
      }
      hide Exec, ExecRows, RunOps;
    }
  }

  ghost predicate Touches(op: Operation, t: string) {
    (op.Create? || op.Drop? || op.Alter?) && op.table == t
  }

  lemma {:induction false} Untouched(ops: seq<Operation>, db: Db, fill: Column -> string, t: string)
    requires RunOps(ops, db, fill).Some? && forall op | op in ops :: !Touches(op, t)
    ensures var db' := RunOps(ops, db, fill).value; (t in db <==> t in db') && (t in db ==> db'[t] == db[t])
  {
    if ops != [] {
      assert ops[0] in ops;
      Untouched(ops[1..], ExecOp(ops[0], db, fill).value, fill, t);
      hide Exec, ExecRows, RunOps;
    }
  }

  /** A table that is only created is there with its columns, and empty. */
  lemma {:induction false} CreatedThere(ops: seq<Operation>, db: Db, fill: Column -> string, t: string,
                                        columns: seq<Column>)
    requires RunOps(ops, db, fill).Some? && Create(t, columns) in ops
    requires forall op | op in ops && Touches(op, t) :: op.Create?
    ensures t !in db
    ensures var db' := RunOps(ops, db, fill).value; t in db' && db'[t] == Table(NewColumns(columns), [])
  {
    var db1 := ExecOp(ops[0], db, fill).value;
    hide Exec, ExecRows;
    if ops[0] == Create(t, columns) {
      if op :| op in ops[1..] && Touches(op, t) {
        NoSecondCreate(ops[1..], db1, fill, t, op);
        assert false;
      }
      Untouched(ops[1..], db1, fill, t);
    } else {
      assert ops[0] in ops && Create(t, columns) in ops[1..];
      CreatedThere(ops[1..], db1, fill, t, columns);
      assert t !in db1;
    }
  }

  lemma {:induction false} NoSecondCreate(ops: seq<Operation>, db: Db, fill: Column -> string, t: string,
                                          op: Operation)
    requires RunOps(ops, db, fill).Some? && t in db && op in ops && op.Create? && op.table == t
    requires forall o | o in ops && Touches(o, t) :: o.Create?
    ensures false
  {
    var db1 := ExecOp(ops[0], db, fill).value;
    hide Exec, ExecRows;
    assert ops[0] in ops;
    if ops[0] != op {
      NoSecondCreate(ops[1..], db1, fill, t, op);
    }
  }

  ghost predicate DistinctTables(works: seq<TableWork>) {
    forall i, j | 0 <= i < j < |works| :: works[i].name != works[j].name
  }

  lemma EmitsOnlyOn(work: TableWork, op: Operation)
    requires op in Emit(work)
    ensures (op.Create? || op.Alter? || op.Drop?) ==> op.table == work.name
    ensures op.Create? ==> work.CreateTable?
    ensures op.Drop? ==> work.DropTable?
    ensures op.Alter? ==> work.AlterTable?
  {
    match work
    case CreateTable(_, _, _, _) => hide IndexOps, FkOps;
    case DropTable(_) =>
    case AlterTable(t, diff, addIndexes, dropIndexes, fkChanges, _) =>
      FkOpsAlterNothing(t, fkChanges);
      FkOpsCreateNothing(t, fkChanges, op);
      hide FkDrops, FkAdds, Statements;
  }

  lemma {:induction false} FkOpsCreateNothing(t: string, changes: seq<FkChange>, op: Operation)
    ensures op in FkDrops(t, changes) || op in FkAdds(t, changes) ==> op.DropForeignKey? || op.AddForeignKey?
  {
    if changes != [] {
      FkOpsCreateNothing(t, changes[..|changes| - 1], op);
    }
  }

  lemma EmitOn(work: TableWork)
    requires work.AlterTable?
    ensures On(Emit(work), work.name) == Statements(work.diff)
  {
    var t := work.name;
    var stmts := Statements(work.diff);
    var before := FkDrops(t, work.fkChanges) + IndexOps(t, false, work.dropIndexes);
    var after := IndexOps(t, true, work.addIndexes) + FkAdds(t, work.fkChanges);
    FkOpsAlterNothing(t, work.fkChanges);
    hide FkDrops, FkAdds, Statements;
    assert Emit(work) == before + AlterOps(t, stmts) + after;
    OnOthers(before, t);
    OnOthers(after, t);
    OnAlters(t, stmts);
    OnConcat(before, AlterOps(t, stmts), t);
    OnConcat(before + AlterOps(t, stmts), after, t);
  }

  lemma EmitOnOther(work: TableWork, t: string)
    requires work.name != t || !work.AlterTable?
    ensures On(Emit(work), t) == []
  {
    forall op | op in Emit(work) && op.Alter? ensures op.table != t {
      EmitsOnlyOn(work, op);
    }
    OnOthers(Emit(work), t);
  }

  lemma {:induction false} StripKeepsName(work: TableWork, manual: Manual)
    ensures match Strip(work, manual)
            case None => !work.CreateTable?
            case Some(w) => w.name == work.name && w.AlterTable? == work.AlterTable? && !w.DropTable?
  {
    hide SafeAlters, FksWithoutDrop;
  }

  lemma {:induction false} KindSnoc(works: seq<TableWork>, manual: Manual, kind: TableWork -> bool)
    requires works != []
    ensures EmitKind(StripAll(works, manual), kind)
            == EmitKind(StripAll(works[..|works| - 1], manual), kind)
               + match Strip(works[|works| - 1], manual)
                 case None => []
                 case Some(w) => if kind(w) then Emit(w) else []
  {
    hide Strip, Emit;
    var rest := StripAll(works[..|works| - 1], manual);
    match Strip(works[|works| - 1], manual)
    case None => assert rest + [] == rest;
    case Some(w) => assert (rest + [w])[..|rest|] == rest;
  }

  lemma {:induction false} NoneOn(works: seq<TableWork>, manual: Manual, kind: TableWork -> bool, t: string)
    requires forall w | w in works :: w.name != t
    ensures On(EmitKind(StripAll(works, manual), kind), t) == []
  {
    if works != [] {
      var init, last := works[..|works| - 1], works[|works| - 1];
      assert last in works;
      NoneOn(init, manual, kind, t);
      KindSnoc(works, manual, kind);
      StripKeepsName(last, manual);
      hide Strip, Emit, StripAll, EmitKind;
      match Strip(last, manual) {
        case None => assert EmitKind(StripAll(init, manual), kind) + [] == EmitKind(StripAll(init, manual), kind);
        case Some(w) =>
          EmitOnOther(w, t);
          OnConcat(EmitKind(StripAll(init, manual), kind), if kind(w) then Emit(w) else [], t);
      }
    }
  }

  lemma SafeWorkOn(work: TableWork, manual: Manual)
    requires work.AlterTable?
    ensures On(match Strip(work, manual) case None => [] case Some(w) => Emit(w), work.name)
            == Statements(SafePart(work.diff, manual))
  {
    StripIs(work, manual);
    hide Strip, Emit, SafePart;
    EmitOn(SafeWork(work, manual));
  }

  lemma {:induction false} AlterPart(works: seq<TableWork>, manual: Manual, kind: TableWork -> bool, k: nat)
    requires DistinctTables(works) && k < |works| && works[k].AlterTable?
    requires forall w :: kind(w) == w.AlterTable?
    ensures On(EmitKind(StripAll(works, manual), kind), works[k].name) == Statements(SafePart(works[k].diff, manual))
  {
    var init, last, t := works[..|works| - 1], works[|works| - 1], works[k].name;
    KindSnoc(works, manual, kind);
    StripKeepsName(last, manual);
    var done := EmitKind(StripAll(init, manual), kind);
    if k == |works| - 1 {
      SafeWorkOn(last, manual);
      NoneOn(init, manual, kind, t);
      hide Strip, Emit, StripAll, EmitKind, SafePart, Statements;
      OnConcat(done, match Strip(last, manual) case None => [] case Some(w) => Emit(w), t);
    } else {
      AlterPart(init, manual, kind, k);
      hide Strip, Emit, StripAll, EmitKind, SafePart, Statements;
      match Strip(last, manual) {
        case None => assert done + [] == done;
        case Some(w) =>
          EmitOnOther(w, t);
          OnConcat(done, if kind(w) then Emit(w) else [], t);
      }
    }
  }

  lemma OtherPart(works: seq<TableWork>, kind: TableWork -> bool, t: string)
    requires forall w :: kind(w) ==> !w.AlterTable?
    ensures On(EmitKind(works, kind), t) == []
  {
    hide Emit, EmitKind;
    forall op | op in EmitKind(works, kind) ensures !op.Alter? {
      EmitKindHas(works, kind, op);
      var w :| w in works && kind(w) && op in Emit(w);
      EmitsOnlyOn(w, op);
    }
    OnOthers(EmitKind(works, kind), t);
  }

  lemma OnParts(a: seq<Operation>, b: seq<Operation>, c: seq<Operation>, d: seq<Operation>, t: string)
    requires On(a, t) == On(c, t) == On(d, t) == []
    ensures On(a + (b + c + d), t) == On(b, t)
  {
    hide On;
    OnConcat(a, b + c + d, t);
    OnConcat(b + c, d, t);
    OnConcat(b, c, t);
  }

  lemma EmitAllOn(works: seq<TableWork>, manual: Manual, enums: seq<Operation>, k: nat)
    requires DistinctTables(works) && k < |works| && works[k].AlterTable?
    requires forall op | op in enums :: op.CreateEnum?
    ensures On(enums + EmitAll(StripAll(works, manual)), works[k].name) == Statements(SafePart(works[k].diff, manual))
  {
    var t, safe := works[k].name, StripAll(works, manual);
    var alters: TableWork -> bool := (w: TableWork) => w.AlterTable?;
    var drops: TableWork -> bool := (w: TableWork) => w.DropTable?;
    var creates: TableWork -> bool := (w: TableWork) => w.CreateTable?;
    hide On, StripAll, EmitKind, SafePart, Statements;
    OnOthers(enums, t);
    AlterPart(works, manual, alters, k);
    OtherPart(safe, drops, t);
    OtherPart(safe, creates, t);
    OnParts(enums, EmitKind(safe, alters), EmitKind(safe, drops), EmitKind(safe, creates), t);
  }

  /** The statements that alter a table without consent are those of the safe part of its diff. */
  lemma SafeOpsOn(d: SchemaDiff, manual: Manual, k: nat)
    requires d.Valid() && DistinctTables(d.works) && k < |d.works| && d.works[k].AlterTable?
    ensures On(SafeOps(d, manual), d.works[k].name) == Statements(SafePart(d.works[k].diff, manual))
  {
    hide *;
    AlwaysStripped(d, manual);
    EmitAllOn(d.works, manual, if AnyDestructive(d, manual) then [] else EnumOps(d.newEnums), k);
  }

  // ----- Where the safe part takes a table's columns -----

  /** This paired column's type change is left to a manual migration. */
  predicate Waits(p: Column, n: Column, manual: Manual) {
    p.sqlType != n.sqlType && manual(p.sqlType, n.sqlType)
  }

  /** What a next column is meant to be for now: its new names, but otherwise what it was. */
  ghost function ForNow(prev: seq<Column>, n: Column, manual: Manual): (c: Column)
    ensures c.tsName == n.tsName && c.sqlName == n.sqlName
  {
    if IsPaired(prev, n) && Waits(PairOf(prev, n), n, manual)
    then PairOf(prev, n).(tsName := n.tsName, sqlName := n.sqlName) else n
  }

  ghost function AllForNow(prev: seq<Column>, next: seq<Column>, manual: Manual): (cols: seq<Column>)
    ensures |cols| == |next| && forall i | 0 <= i < |next| :: cols[i] == ForNow(prev, next[i], manual)
  {
    seq(|next|, i requires 0 <= i < |next| => ForNow(prev, next[i], manual))
  }

  lemma SameNamesDistinct(a: seq<Column>, b: seq<Column>)
    requires |a| == |b| && Distinct(a)
    requires forall i | 0 <= i < |a| :: a[i].tsName == b[i].tsName && a[i].sqlName == b[i].sqlName
    ensures Distinct(b)
  {
  }

  lemma SameNamesFound(a: seq<Column>, b: seq<Column>, name: string)
    requires |a| == |b| && Distinct(a)
    requires forall i | 0 <= i < |a| :: a[i].tsName == b[i].tsName && a[i].sqlName == b[i].sqlName
    ensures FindTs(a, name) == FindTs(b, name) && FindSql(a, name) == FindSql(b, name)
  {
    var i, j, k, l := FindTs(a, name), FindTs(b, name), FindSql(a, name), FindSql(b, name);
    assert i >= 0 && j >= 0 ==> a[i].tsName == a[j].tsName;
    assert k >= 0 && l >= 0 ==> a[k].sqlName == a[l].sqlName;
    assert i >= 0 ==> b[i].tsName == name;
    assert j >= 0 ==> a[j].tsName == name;
    assert k >= 0 ==> b[k].sqlName == name;
    assert l >= 0 ==> a[l].sqlName == name;
  }

  lemma ForNowAlter(prev: seq<Column>, n: Column, manual: Manual)
    ensures AlterOf(prev, ForNow(prev, n, manual)) == SafeAlters(AlterOf(prev, n), manual)
    ensures RenameOf(prev, ForNow(prev, n, manual)) == RenameOf(prev, n)
    ensures IsAdded(prev, ForNow(prev, n, manual)) == IsAdded(prev, n)
    ensures IsAdded(prev, n) ==> ForNow(prev, n, manual) == n
  {
    var step := AlterOf(prev, n);
    if step != [] {
      assert SafeAlters(step, manual) == if IsUnsafeTypeChange(step[0], manual) then [] else step by {
        assert step[..0] == [];
      }
    }
  }

  lemma {:induction false} SafeAltersConcat(a: seq<ColumnAlter>, b: seq<ColumnAlter>, manual: Manual)
    ensures SafeAlters(a + b, manual) == SafeAlters(a, manual) + SafeAlters(b, manual)
  {
    if b == [] {
      assert a + b == a;
    } else {
      assert (a + b)[..|a + b| - 1] == a + b[..|b| - 1];
      SafeAltersConcat(a, b[..|b| - 1], manual);
    }
  }

  lemma {:induction false} ForNowPhases(prev: seq<Column>, next: seq<Column>, manual: Manual)
    ensures AltersOf(prev, AllForNow(prev, next, manual)) == SafeAlters(AltersOf(prev, next), manual)
    ensures RenamesOf(prev, AllForNow(prev, next, manual)) == RenamesOf(prev, next)
    ensures AddsOf(prev, AllForNow(prev, next, manual)) == AddsOf(prev, next)
  {
    hide AlterOf, RenameOf, IsAdded, ForNow;
    if next != [] {
      var init, n := next[..|next| - 1], next[|next| - 1];
      var now := AllForNow(prev, next, manual);
      assert now[..|now| - 1] == AllForNow(prev, init, manual);
      ForNowPhases(prev, init, manual);
      ForNowAlter(prev, n, manual);
      SafeAltersConcat(AltersOf(prev, init), AlterOf(prev, n), manual);
    }
  }

  lemma {:induction false} ForNowDrops(prev: seq<Column>, next: seq<Column>, cols: seq<Column>, manual: Manual)
    requires Distinct(next)
    ensures DropsOf(cols, AllForNow(prev, next, manual)) == DropsOf(cols, next)
  {
    if cols != [] {
      ForNowDrops(prev, next, cols[..|cols| - 1], manual);
      var p := cols[|cols| - 1];
      SameNamesFound(next, AllForNow(prev, next, manual), p.tsName);
      SameNamesFound(next, AllForNow(prev, next, manual), p.sqlName);
      hide FindTs, FindSql, AllForNow;
    }
  }

  /** The safe part of a diff is the diff to the columns as they are meant to be for now, without
      its drops. */
  lemma SafePartIsDiff(prev: seq<Column>, next: seq<Column>, manual: Manual)
    requires Distinct(next)
    ensures SafePart(Diff(prev, next), manual)
            == Diff(prev, AllForNow(prev, next, manual)).(dropColumns := [])
  {
    ForNowPhases(prev, next, manual);
    ForNowDrops(prev, next, prev, manual);
  }

  /** The columns that a statement names. */
  function Mentions(stmt: Statement): set<string> {
    match stmt
    case DropColumn(c) => {c}
    case RenameColumn(from, to) => {from, to}
    case AddColumn(col) => {col.sqlName}
    case SetType(c, _) => {c}
    case SetNullable(c, _) => {c}
    case SetDefault(c, _) => {c}
    case AddUnique(_, c) => {c}
    case AddCheck(_, c, _) => {c}
    case DropConstraint(_) => {}
    case DropConstraintIfExists(_) => {}
  }

  /** Columns that a statement does not name change neither whether it is accepted nor what it does. */
  lemma ExecBeside<T>(stmt: Statement, cells: map<string, T>, extra: map<string, T>, r: Reading<T>)
    requires cells.Keys !! extra.Keys && Mentions(stmt) !! extra.Keys
    ensures match Exec(stmt, cells, r)
            case None => Exec(stmt, cells + extra, r).None?
            case Some(after) => after.Keys !! extra.Keys && Exec(stmt, cells + extra, r) == Some(after + extra)
  {
    match Exec(stmt, cells, r)
    case None =>
    case Some(after) =>
      match stmt {
        case DropColumn(c) => assert (cells + extra) - {c} == after + extra;
        case RenameColumn(from, to) =>
          assert ((cells + extra) - {from})[to := cells[from]] == after + extra;
        case AddColumn(col) => assert (cells + extra)[col.sqlName := r.added(col)] == after + extra;
        case SetType(c, _) => assert (cells + extra)[c := r.update(stmt, cells[c])] == after + extra;
        case SetNullable(c, _) => assert (cells + extra)[c := r.update(stmt, cells[c])] == after + extra;
        case SetDefault(c, _) => assert (cells + extra)[c := r.update(stmt, cells[c])] == after + extra;
        case _ =>
      }
  }

  lemma {:induction false} RunBeside<T>(stmts: seq<Statement>, cells: map<string, T>, extra: map<string, T>,
                                        r: Reading<T>)
    requires cells.Keys !! extra.Keys && forall s | s in stmts :: Mentions(s) !! extra.Keys
    ensures match Run(stmts, cells, r)
            case None => Run(stmts, cells + extra, r).None?
            case Some(after) => after.Keys !! extra.Keys && Run(stmts, cells + extra, r) == Some(after + extra)
  {
    if stmts != [] {
      assert stmts[0] in stmts;
      ExecBeside(stmts[0], cells, extra, r);
      hide Exec, Mentions;
      match Exec(stmts[0], cells, r) {
        case None =>
        case Some(after) => RunBeside(stmts[1..], after, extra, r);
      }
    }
  }

  lemma {:induction false} RenamesFrom(prev: seq<Column>, cols: seq<Column>, r: Rename)
    requires r in RenamesOf(prev, cols)
    ensures exists n :: n in cols && IsPaired(prev, n) && r == Rename(PairOf(prev, n).sqlName, n.sqlName)
  {
    if cols != [] {
      var init, n := cols[..|cols| - 1], cols[|cols| - 1];
      if r in RenamesOf(prev, init) {
        RenamesFrom(prev, init, r);
      } else {
        assert n in cols && r in RenameOf(prev, n);
      }
    }
  }

  lemma {:induction false} AddsFrom(prev: seq<Column>, cols: seq<Column>, c: Column)
    requires c in AddsOf(prev, cols)
    ensures c in cols
  {
    if c !in AddsOf(prev, cols[..|cols| - 1]) {
      assert c == cols[|cols| - 1];
    } else {
      AddsFrom(prev, cols[..|cols| - 1], c);
    }
  }

  lemma {:induction false} AltersFrom(prev: seq<Column>, cols: seq<Column>, a: ColumnAlter)
    requires a in AltersOf(prev, cols)
    ensures exists n :: n in cols && n.sqlName == a.sqlName
  {
    var init, n := cols[..|cols| - 1], cols[|cols| - 1];
    if a in AltersOf(prev, init) {
      AltersFrom(prev, init, a);
    } else {
      assert n in cols && a in AlterOf(prev, n);
    }
  }

  lemma AlterMentions(a: ColumnAlter, s: Statement)
    requires s in EmitAlterColumn(a)
    ensures Mentions(s) <= {a.sqlName}
  {
    var check := match a.setCheck
                 case None => []
                 case Some(c) => [DropConstraintIfExists(CheckOf(a.sqlName))]
                                 + match c case None => [] case Some(e) => [AddCheck(CheckOf(a.sqlName), a.sqlName, e)];
    assert s in SetStatements(a) || s in ConstraintStatements(a);
    if s in SetStatements(a) {
      SetsOnly(a);
      SetMentions(a, s);
    } else {
      assert s in check || s.DropConstraint? || (s.AddUnique? && s.column == a.sqlName);
    }
  }

  lemma SetMentions(a: ColumnAlter, s: Statement)
    requires s in SetStatements(a)
    ensures Mentions(s) <= {a.sqlName}
  {
  }

  lemma DroppedName(prev: seq<Column>, next: seq<Column>, p: Column)
    requires DistinctSql(prev) && p in prev && IsDropped(p, next)
    ensures forall n | n in next :: n.sqlName != p.sqlName
    ensures forall n | n in next && IsPaired(prev, n) :: PairOf(prev, n).sqlName != p.sqlName
  {
    forall n | n in next && IsPaired(prev, n) ensures PairOf(prev, n).sqlName != p.sqlName {
      if PairOf(prev, n).sqlName == p.sqlName {
        OneSql(prev, p, PairOf(prev, n));
      }
    }
  }

  lemma RenameMentions(prev: seq<Column>, next: seq<Column>, s: Statement, p: Column)
    requires DistinctSql(prev) && p in prev && IsDropped(p, next) && s in RenameStatements(RenamesOf(prev, next))
    ensures p.sqlName !in Mentions(s)
  {
    DroppedName(prev, next, p);
    RenameStatementsHave(RenamesOf(prev, next), s);
    hide RenameStatements, RenamesOf, IsDropped, IsPaired, DistinctSql;
    RenamesFrom(prev, next, Rename(s.from, s.to));
  }

  lemma AddMentions(prev: seq<Column>, next: seq<Column>, s: Statement, p: Column)
    requires DistinctSql(prev) && p in prev && IsDropped(p, next) && s in AddStatements(AddsOf(prev, next))
    ensures p.sqlName !in Mentions(s)
  {
    DroppedName(prev, next, p);
    AddStatementsHave(AddsOf(prev, next), s);
    hide AddStatements, AddsOf, IsDropped, IsPaired, DistinctSql;
    AddsFrom(prev, next, s.definition);
  }

  lemma AltersMention(prev: seq<Column>, next: seq<Column>, s: Statement, p: Column)
    requires DistinctSql(prev) && p in prev && IsDropped(p, next) && s in AlterStatements(AltersOf(prev, next))
    ensures p.sqlName !in Mentions(s)
  {
    DroppedName(prev, next, p);
    AlterStatementsHave(AltersOf(prev, next), s);
    hide AlterStatements, AltersOf, EmitAlterColumn, IsDropped, IsPaired, DistinctSql, Mentions;
    var a :| a in AltersOf(prev, next) && s in EmitAlterColumn(a);
    AltersFrom(prev, next, a);
    AlterMentions(a, s);
  }

  lemma RestMentions(prev: seq<Column>, next: seq<Column>, s: Statement, p: Column)
    requires DistinctSql(prev) && p in prev && IsDropped(p, next) && s in WithoutDrops(Diff(prev, next))
    ensures p.sqlName !in Mentions(s)
  {
    hide RenameStatements, AddStatements, AlterStatements, RenamesOf, AddsOf, AltersOf, DropsOf, IsDropped, DistinctSql,
        Mentions;
    if s in RenameStatements(RenamesOf(prev, next)) {
      RenameMentions(prev, next, s, p);
    } else if s in AddStatements(AddsOf(prev, next)) {
      AddMentions(prev, next, s, p);
    } else {
      AltersMention(prev, next, s, p);
    }
  }

  ghost predicate HasNoPartner(p: Column, next: seq<Column>) {
    FindTs(next, p.tsName) < 0
  }

  /** A paired column is there under its next name and looks as asked, or as it did if its type
      change waits; a new column is there. */
  ghost predicate NextLands(cols: Columns, prev: seq<Column>, n: Column, manual: Manual) {
    && (IsPaired(prev, n) ==>
          n.sqlName in cols
          && cols[n.sqlName] == if Waits(PairOf(prev, n), n, manual) then PairOf(prev, n).Attrs() else n.Attrs())
    && (IsAdded(prev, n) ==> n.sqlName in cols && cols[n.sqlName] == n.AddedAttrs())
  }

  ghost predicate Stays(cols: Columns, p: Column) {
    p.sqlName in cols && cols[p.sqlName] == p.Attrs()
  }

  ghost predicate IsMeant(prev: seq<Column>, next: seq<Column>, s: string) {
    || (exists n :: n in next && (IsPaired(prev, n) || IsAdded(prev, n)) && n.sqlName == s)
    || (exists p :: p in prev && HasNoPartner(p, next) && p.sqlName == s)
  }

  /** Every next column has landed, every column that nothing replaces is still there, and there is
      nothing else. */
  ghost predicate LandsSafely(cols: Columns, prev: seq<Column>, next: seq<Column>, manual: Manual) {
    && (forall n | n in next :: NextLands(cols, prev, n, manual))
    && (forall p | p in prev && HasNoPartner(p, next) :: Stays(cols, p))
    && (forall s | s in cols :: IsMeant(prev, next, s))
  }

  lemma ForNowOrdered(prev: seq<Column>, next: seq<Column>, manual: Manual)
    requires Distinct(next)
    ensures RenamesOrdered(prev, AllForNow(prev, next, manual)) <==> RenamesOrdered(prev, next)
  {
    var now := AllForNow(prev, next, manual);
    forall name ensures FindTs(next, name) == FindTs(now, name) {
      SameNamesFound(next, now, name);
    }
    hide FindTs, FindSql;
    if RenamesOrdered(prev, next) {
      forall q, n | q in prev && n in now && q.sqlName == n.sqlName && q.tsName != n.tsName && IsPaired(prev, n)
        ensures 0 <= FindTs(now, q.tsName) < FindTs(now, n.tsName)
      {
        var i :| 0 <= i < |now| && now[i] == n;
        assert next[i] in next && IsPaired(prev, next[i]);
      }
    }
    if RenamesOrdered(prev, now) {
      forall q, n | q in prev && n in next && q.sqlName == n.sqlName && q.tsName != n.tsName && IsPaired(prev, n)
        ensures 0 <= FindTs(next, q.tsName) < FindTs(next, n.tsName)
      {
        var i :| 0 <= i < |next| && next[i] == n;
        assert now[i] in now && IsPaired(prev, now[i]);
      }
    }
  }

  ghost predicate AreDropped(extra: Columns, prev: seq<Column>, next: seq<Column>) {
    && (forall s | s in extra :: exists p :: p in prev && IsDropped(p, next) && p.sqlName == s)
    && (forall p | p in prev && IsDropped(p, next) :: p.sqlName in extra && extra[p.sqlName] == p.Attrs())
  }

  lemma KeptFrom(prev: seq<Column>, next: seq<Column>, kept: Columns, s: string) returns (p: Column)
    requires Tracks(kept, AttrsOf, prev, next, 0) && s in kept
    ensures p in prev && !IsDropped(p, next) && p.sqlName == s && kept[s] == p.Attrs()
  {
    p :| p in prev && Kept(p, next) && Name(next, 0, p) == s;
    assert Name(next, 0, p) == p.sqlName;
  }

  lemma DroppedNotKept(prev: seq<Column>, next: seq<Column>, kept: Columns, p: Column)
    requires DistinctSql(prev) && Tracks(kept, AttrsOf, prev, next, 0) && p in prev && IsDropped(p, next)
    ensures p.sqlName !in kept
  {
    hide *;
    if p.sqlName in kept {
      var q := KeptFrom(prev, next, kept, p.sqlName);
      OneSql(prev, p, q);
    }
  }

  lemma KeptThere(prev: seq<Column>, next: seq<Column>, kept: Columns, p: Column)
    requires Tracks(kept, AttrsOf, prev, next, 0) && p in prev && !IsDropped(p, next)
    ensures p.sqlName in kept
  {
    assert Kept(p, next) && Name(next, 0, p) == p.sqlName;
  }

  lemma SplitMap<T>(start: map<string, T>, kept: map<string, T>) returns (extra: map<string, T>)
    requires forall s | s in kept :: s in start && start[s] == kept[s]
    ensures kept.Keys !! extra.Keys && start == kept + extra
    ensures forall s :: s in extra <==> s in start && s !in kept
  {
    extra := map s | s in start && s !in kept :: start[s];
    assert start.Keys == (kept + extra).Keys;
  }

  /** The previous columns are those that a drop would leave, and the others. */
  lemma KeptAndDropped(prev: seq<Column>, next: seq<Column>, kept: Columns) returns (extra: Columns)
    requires DistinctSql(prev) && Tracks(kept, AttrsOf, prev, next, 0)
    ensures kept.Keys !! extra.Keys && ColumnsOf(prev) == kept + extra && AreDropped(extra, prev, next)
  {
    hide *;
    KeptInStart(prev, next, kept);
    extra := SplitMap(ColumnsOf(prev), kept);
    AreTheDropped(prev, next, kept, extra);
  }

  lemma KeptInStart(prev: seq<Column>, next: seq<Column>, kept: Columns)
    requires DistinctSql(prev) && Tracks(kept, AttrsOf, prev, next, 0)
    ensures forall s | s in kept :: s in ColumnsOf(prev) && ColumnsOf(prev)[s] == kept[s]
  {
    hide Tracks, DistinctSql, IsDropped;
    forall s | s in kept ensures s in ColumnsOf(prev) && ColumnsOf(prev)[s] == kept[s] {
      var p := KeptFrom(prev, next, kept, s);
      assert p.sqlName in ColumnsOf(prev) && ColumnsOf(prev)[p.sqlName] == AttrsOf(p);
    }
  }

  lemma ColumnThere(prev: seq<Column>, p: Column)
    requires DistinctSql(prev) && p in prev
    ensures p.sqlName in ColumnsOf(prev) && ColumnsOf(prev)[p.sqlName] == p.Attrs()
  {
    hide DistinctSql;
  }

  lemma AreTheDropped(prev: seq<Column>, next: seq<Column>, kept: Columns, extra: Columns)
    requires DistinctSql(prev) && Tracks(kept, AttrsOf, prev, next, 0) && kept.Keys !! extra.Keys
    requires ColumnsOf(prev) == kept + extra && forall s :: s in extra <==> s in ColumnsOf(prev) && s !in kept
    ensures AreDropped(extra, prev, next)
  {
    hide Tracks, DistinctSql, IsDropped, ColumnsOf;
    forall p | p in prev && IsDropped(p, next) ensures p.sqlName in extra && extra[p.sqlName] == p.Attrs() {
      DroppedNotKept(prev, next, kept, p);
      ColumnThere(prev, p);
    }
    forall s | s in extra ensures exists p :: p in prev && IsDropped(p, next) && p.sqlName == s {
      var p := ColumnFrom(prev, s);
      if !IsDropped(p, next) {
        KeptThere(prev, next, kept, p);
      }
    }
  }

  lemma ColumnFrom(prev: seq<Column>, s: string) returns (p: Column)
    requires DistinctSql(prev) && s in ColumnsOf(prev)
    ensures p in prev && p.sqlName == s
  {
    p :| p in prev && p.sqlName == s;
  }

  lemma AddedNow(prev: seq<Column>, next: seq<Column>, manual: Manual, n: Column) returns (now: Column)
    requires n in next
    ensures now in AllForNow(prev, next, manual) && now == ForNow(prev, n, manual)
    ensures IsPaired(prev, now) == IsPaired(prev, n) && IsAdded(prev, now) == IsAdded(prev, n)
    ensures IsPaired(prev, n) ==> PairOf(prev, now) == PairOf(prev, n)
    ensures IsAdded(prev, n) ==> now == n
  {
    var i :| 0 <= i < |next| && next[i] == n;
    now := AllForNow(prev, next, manual)[i];
  }

  lemma PairedLands(cols: Columns, prev: seq<Column>, next: seq<Column>, manual: Manual, n: Column)
    requires Final(cols, prev, AllForNow(prev, next, manual), (from, to) => false) && n in next
    ensures NextLands(cols, prev, n, manual)
  {
    var now := AddedNow(prev, next, manual, n);
    if IsPaired(prev, n) {
      ForNowAttrs(prev, n, manual);
    }
    hide IsPaired, IsAdded, Waits, Target, ForNow;
  }

  lemma UnpartneredLands(cols: Columns, extra: Columns, prev: seq<Column>, next: seq<Column>, now: seq<Column>,
                         manual: Manual, p: Column)
    requires Final(cols, prev, now, manual) && AreDropped(extra, prev, now) && cols.Keys !! extra.Keys
    requires FindTs(now, p.tsName) == FindTs(next, p.tsName) && p in prev && HasNoPartner(p, next)
    ensures Stays(cols + extra, p)
  {
    assert IsLeft(p, now) || IsDropped(p, now);
    hide IsLeft, IsDropped;
  }

  lemma NameLands(cols: Columns, prev: seq<Column>, next: seq<Column>, manual: Manual, s: string)
    requires Distinct(next) && Final(cols, prev, AllForNow(prev, next, manual), (from, to) => false) && s in cols
    ensures IsMeant(prev, next, s)
  {
    var all := AllForNow(prev, next, manual);
    assert IsAccounted(prev, all, s);
    if now :| now in all && (IsPaired(prev, now) || IsAdded(prev, now)) && now.sqlName == s {
      var i :| 0 <= i < |all| && all[i] == now;
      var n := next[i];
      assert n in next && now == ForNow(prev, n, manual);
      ForNowAlter(prev, n, manual);
    } else {
      var p :| p in prev && IsLeft(p, all) && p.sqlName == s;
      SameNamesFound(next, all, p.tsName);
    }
  }

  lemma DroppedLands(extra: Columns, prev: seq<Column>, next: seq<Column>, now: seq<Column>, s: string)
    requires AreDropped(extra, prev, now) && s in extra
    requires forall p: Column :: FindTs(now, p.tsName) == FindTs(next, p.tsName)
    ensures IsMeant(prev, next, s)
  {
    var p :| p in prev && IsDropped(p, now) && p.sqlName == s;
  }

  lemma LandsBeside(cols: Columns, extra: Columns, prev: seq<Column>, n: Column, manual: Manual)
    requires cols.Keys !! extra.Keys && NextLands(cols, prev, n, manual)
    ensures NextLands(cols + extra, prev, n, manual)
  {
    hide IsPaired, IsAdded, Waits;
  }

  /** The columns after the whole diff to what is meant for now, with the dropped ones beside them. */
  lemma LandedSafely(cols: Columns, extra: Columns, prev: seq<Column>, next: seq<Column>, manual: Manual)
    requires Distinct(prev) && Distinct(next) && cols.Keys !! extra.Keys
    requires Final(cols, prev, AllForNow(prev, next, manual), (from, to) => false)
    requires AreDropped(extra, prev, AllForNow(prev, next, manual))
    ensures LandsSafely(cols + extra, prev, next, manual)
  {
    var all := AllForNow(prev, next, manual);
    forall p: Column ensures FindTs(all, p.tsName) == FindTs(next, p.tsName) {
      SameNamesFound(next, all, p.tsName);
    }
    hide FindTs, FindSql, AllForNow, Final, AreDropped, HasNoPartner, Stays, IsMeant, Distinct, NextLands;
    forall n | n in next ensures NextLands(cols + extra, prev, n, manual) {
      PairedLands(cols, prev, next, manual, n);
      LandsBeside(cols, extra, prev, n, manual);
    }
    forall p | p in prev && HasNoPartner(p, next) ensures Stays(cols + extra, p) {
      UnpartneredLands(cols, extra, prev, next, all, (from, to) => false, p);
    }
    forall s | s in cols + extra ensures IsMeant(prev, next, s) {
      if s in cols {
        NameLands(cols, prev, next, manual, s);
      } else {
        DroppedLands(extra, prev, next, all, s);
      }
    }
  }

  lemma ForNowAttrs(prev: seq<Column>, n: Column, manual: Manual)
    requires IsPaired(prev, n)
    ensures var p := PairOf(prev, n);
            Target(p, ForNow(prev, n, manual), (from, to) => false).sqlType
            == if Waits(p, n, manual) then p.sqlType else n.sqlType
    ensures var p := PairOf(prev, n);
            Target(p, ForNow(prev, n, manual), (from, to) => false)
            == if Waits(p, n, manual) then p.Attrs() else n.Attrs()
  {
  }

  lemma RestBeside(prev: seq<Column>, next: seq<Column>, kept: Columns, extra: Columns)
    requires DistinctSql(prev) && kept.Keys !! extra.Keys && AreDropped(extra, prev, next)
    ensures var stmts := WithoutDrops(Diff(prev, next));
            match RunColumns(stmts, kept)
            case None => RunColumns(stmts, kept + extra).None?
            case Some(after) => after.Keys !! extra.Keys && RunColumns(stmts, kept + extra) == Some(after + extra)
  {
    var stmts := WithoutDrops(Diff(prev, next));
    hide WithoutDrops, Mentions, Diff, IsDropped;
    forall s | s in stmts ensures Mentions(s) !! extra.Keys {
      forall name | name in extra ensures name !in Mentions(s) {
        var p :| p in prev && IsDropped(p, next) && p.sqlName == name;
        RestMentions(prev, next, s, p);
      }
    }
    RunBeside(stmts, kept, extra, Schema());
  }

  /** Leaving the drops out of a diff changes neither whether it runs nor the other columns. */
  lemma WithoutDropsRuns(prev: seq<Column>, next: seq<Column>) returns (extra: Columns)
    requires Distinct(prev) && Distinct(next)
    ensures AreDropped(extra, prev, next)
    ensures match RunColumns(Statements(Diff(prev, next)), ColumnsOf(prev))
            case None => RunColumns(WithoutDrops(Diff(prev, next)), ColumnsOf(prev)).None?
            case Some(after) =>
              after.Keys !! extra.Keys
              && RunColumns(WithoutDrops(Diff(prev, next)), ColumnsOf(prev)) == Some(after + extra)
  {
    var diff := Diff(prev, next);
    var kept := DropsTrack(Schema(), AttrsOf, prev, next);
    hide Tracks, DropStatements, RenameStatements, AddStatements, AlterStatements, DropsOf, RenamesOf, AddsOf, AltersOf;
    extra := KeptAndDropped(prev, next, kept);
    StatementsRun(diff, ColumnsOf(prev));
    RunConcat(RenameStatements(diff.renameColumns),
              AddStatements(diff.addColumns) + AlterStatements(diff.alterColumns), kept, Schema());
    hide Run, Statements;
    RestBeside(prev, next, kept, extra);
  }

  lemma SafeStatementsAre(prev: seq<Column>, next: seq<Column>, manual: Manual)
    requires Distinct(next)
    ensures Statements(SafePart(Diff(prev, next), manual)) == WithoutDrops(Diff(prev, AllForNow(prev, next, manual)))
  {
    hide *;
    SafePartIsDiff(prev, next, manual);
    NoDropsStatements(Diff(prev, AllForNow(prev, next, manual)));
  }

  /** The safe part of a diff runs exactly when the whole diff does, the renames being ordered, for
      a column that stays because it may not be dropped is in nobody's way. */
  lemma SafePartLands(prev: seq<Column>, next: seq<Column>, manual: Manual)
    requires Distinct(prev) && Distinct(next)
    ensures var r := RunColumns(Statements(SafePart(Diff(prev, next), manual)), ColumnsOf(prev));
            && (r.Some? <==> RenamesOrdered(prev, next))
            && (r.Some? ==> LandsSafely(r.value, prev, next, manual))
  {
    var never: Manual := (from, to) => false;
    var now := AllForNow(prev, next, manual);
    SameNamesDistinct(next, now);
    assert StatementsUnder(prev, now, never) == Statements(Diff(prev, now)) by {
      NothingManual(prev, now);
      hide Statements;
    }
    hide AllForNow, StatementsUnder, Statements, Diff, SafePart, WithoutDrops, RunColumns, RenamesOrdered, LandsSafely,
        FinalFrom, Final, AreDropped, Distinct;
    SafeStatementsAre(prev, next, manual);
    ForNowOrdered(prev, next, manual);
    ResolvedRuns(prev, now, never, AttrsOf);
    var extra := WithoutDropsRuns(prev, now);
    var full := RunColumns(Statements(Diff(prev, now)), ColumnsOf(prev));
    if full.Some? {
      FinalFromPrevious(full.value, prev, now, never);
      LandedSafely(full.value, extra, prev, next, manual);
    }
  }

  // ----- The whole migration -----

  /** What a table's work comes to. */
  ghost predicate TakesEffect(work: TableWork, db: Db, db': Db, manual: Manual) {
    match work
    case DropTable(_) => true
    case CreateTable(t, columns, _, _) =>
      t !in db && t in db' && db'[t].rows == [] && (DistinctSql(columns) ==> db'[t].columns == ColumnsOf(columns))
    case AlterTable(t, diff, _, _, _, _) =>
      forall prev, next {:trigger Diff(prev, next)} | Distinct(prev) && Distinct(next) && diff == Diff(prev, next) ::
        t in db && db[t].columns == ColumnsOf(prev) ==>
          RenamesOrdered(prev, next) && t in db' && LandsSafely(db'[t].columns, prev, next, manual)
  }

  lemma OneWork(works: seq<TableWork>, i: nat, j: nat)
    requires DistinctTables(works) && i < |works| && j < |works| && works[i].name == works[j].name
    ensures i == j
  {
  }

  lemma OnlyItsWork(d: SchemaDiff, manual: Manual, k: nat, op: Operation)
    requires d.Valid() && DistinctTables(d.works) && k < |d.works|
    requires op in SafeOps(d, manual) && Touches(op, d.works[k].name)
    ensures IsHarmless(op, d.works[k], manual)
  {
    ExactlyTheHarmless(d, manual, op);
    var w :| w in d.works && IsHarmless(op, w, manual);
    var i :| 0 <= i < |d.works| && d.works[i] == w;
    OneWork(d.works, i, k);
  }

  /** Main result: wherever the safe subset runs, every table to be created is there and empty, and
      every altered table ends with exactly the columns asked for, those waiting for a manual type
      change as they were, and those that may not be dropped. */
  lemma SafeTakesEffect(d: SchemaDiff, manual: Manual, db: Db, fill: Column -> string, k: nat)
    requires d.Valid() && DistinctTables(d.works) && k < |d.works|
    requires RunOps(SafeOps(d, manual), db, fill).Some?
    ensures TakesEffect(d.works[k], db, RunOps(SafeOps(d, manual), db, fill).value, manual)
  {
    match d.works[k]
    case DropTable(_) =>
    case CreateTable(_, _, _, _) => CreateTakesEffect(d, manual, db, fill, k);
    case AlterTable(_, _, _, _, _, _) => AlterTakesEffect(d, manual, db, fill, k);
  }

  lemma CreateTakesEffect(d: SchemaDiff, manual: Manual, db: Db, fill: Column -> string, k: nat)
    requires d.Valid() && DistinctTables(d.works) && k < |d.works| && d.works[k].CreateTable?
    requires RunOps(SafeOps(d, manual), db, fill).Some?
    ensures TakesEffect(d.works[k], db, RunOps(SafeOps(d, manual), db, fill).value, manual)
  {
    var work, ops := d.works[k], SafeOps(d, manual);
    var create := Create(work.name, work.columns);
    assert work in d.works && IsHarmless(create, work, manual);
    ExactlyTheHarmless(d, manual, create);
    hide SafeOps, RunOps, AnyDestructive;
    forall op | op in ops && Touches(op, work.name) ensures op.Create? {
      OnlyItsWork(d, manual, k, op);
    }
    CreatedThere(ops, db, fill, work.name, work.columns);
    if DistinctSql(work.columns) {
      NewColumnsAre(work.columns);
    }
  }

  lemma {:induction false} NewColumnHas(cols: seq<Column>, c: Column)
    requires DistinctSql(cols) && c in cols
    ensures c.sqlName in NewColumns(cols) && NewColumns(cols)[c.sqlName] == c.Attrs()
  {
    var init, last := cols[..|cols| - 1], cols[|cols| - 1];
    if c != last {
      DifferentSql(cols, c, last);
      assert cols == init + [last];
      NewColumnHas(init, c);
    }
  }

  lemma {:induction false} NewColumnFrom(cols: seq<Column>, s: string)
    requires s in NewColumns(cols)
    ensures exists c :: c in cols && c.sqlName == s
  {
    var init, last := cols[..|cols| - 1], cols[|cols| - 1];
    assert last in cols && forall c | c in init :: c in cols;
    if s != last.sqlName {
      NewColumnFrom(init, s);
    }
  }

  /** A new table has exactly its columns. */
  lemma {:induction false} NewColumnsAre(cols: seq<Column>)
    requires DistinctSql(cols)
    ensures NewColumns(cols) == ColumnsOf(cols)
  {
    hide NewColumns, DistinctSql;
    forall c | c in cols {
      NewColumnHas(cols, c);
    }
    forall s | s in NewColumns(cols) {
      NewColumnFrom(cols, s);
    }
    AreCellsOf(NewColumns(cols), cols, AttrsOf);
  }

  lemma AlterTakesEffect(d: SchemaDiff, manual: Manual, db: Db, fill: Column -> string, k: nat)
    requires d.Valid() && DistinctTables(d.works) && k < |d.works| && d.works[k].AlterTable?
    requires RunOps(SafeOps(d, manual), db, fill).Some?
    ensures TakesEffect(d.works[k], db, RunOps(SafeOps(d, manual), db, fill).value, manual)
  {
    var work, ops := d.works[k], SafeOps(d, manual);
    var t := work.name;
    if Operation.Drop(t) in ops {
      OnlyItsWork(d, manual, k, Operation.Drop(t));
      assert false;
    }
    SafeOpsOn(d, manual, k);
    hide SafeOps, RunOps, RunColumns, Statements, SafePart, Diff, ColumnsOf, LandsSafely, RenamesOrdered, Distinct,
        DistinctTables;
    if t in db {
      ColumnsFollow(ops, db, fill, t);
      forall prev, next | Distinct(prev) && Distinct(next) && work.diff == Diff(prev, next)
          && db[t].columns == ColumnsOf(prev)
        ensures RenamesOrdered(prev, next) && LandsSafely(RunOps(ops, db, fill).value[t].columns, prev, next, manual)
      {
        SafePartLands(prev, next, manual);
      }
    }
  }

  // ----- When it runs -----

  ghost predicate IsRegular(t: Table) {
    forall i | 0 <= i < |t.rows| :: t.rows[i].Keys == t.columns.Keys
  }

  /** Every row has a cell for each column of its table. */
  ghost predicate AllRegular(db: Db) {
    forall t | t in db :: IsRegular(db[t])
  }

  /** Whether a statement is accepted depends on the columns' names only. */
  lemma ExecByName<A, B>(stmt: Statement, a: map<string, A>, b: map<string, B>, ra: Reading<A>, rb: Reading<B>)
    requires a.Keys == b.Keys
    ensures Exec(stmt, a, ra).Some? <==> Exec(stmt, b, rb).Some?
    ensures Exec(stmt, a, ra).Some? ==> Exec(stmt, a, ra).value.Keys == Exec(stmt, b, rb).value.Keys
  {
    assert forall s :: s in a <==> s in b by {
      assert forall s :: s in a.Keys <==> s in b.Keys;
    }
  }

  lemma {:induction false} RowsByName(stmt: Statement, rows: seq<Row>, cols: Columns, fill: Column -> string)
    requires forall i | 0 <= i < |rows| :: rows[i].Keys == cols.Keys
    requires ExecColumns(stmt, cols).Some?
    ensures ExecRows(stmt, rows, fill).Some?
    ensures var after := ExecRows(stmt, rows, fill).value;
            forall i | 0 <= i < |after| :: after[i].Keys == ExecColumns(stmt, cols).value.Keys
  {
    if rows != [] {
      RowsByName(stmt, rows[..|rows| - 1], cols, fill);
      ExecByName(stmt, cols, rows[|rows| - 1], Schema(), Cells(fill));
      hide Exec;
    }
  }

  /** When an operation that drops no table is accepted. */
  lemma OpRuns(op: Operation, db: Db, fill: Column -> string)
    requires AllRegular(db) && !op.Drop?
    ensures ExecOp(op, db, fill).Some? <==>
            && (op.Create? ==> op.table !in db)
            && (op.Alter? ==> op.table in db && ExecColumns(op.stmt, db[op.table].columns).Some?)
    ensures ExecOp(op, db, fill).Some? ==> AllRegular(ExecOp(op, db, fill).value)
  {
    if op.Alter? && op.table in db && ExecColumns(op.stmt, db[op.table].columns).Some? {
      assert IsRegular(db[op.table]);
      RowsByName(op.stmt, db[op.table].rows, db[op.table].columns, fill);
    }
    hide ExecColumns, ExecRows;
  }

  function Created(ops: seq<Operation>, t: string): nat {
    if ops == [] then 0 else (if ops[0].Create? && ops[0].table == t then 1 else 0) + Created(ops[1..], t)
  }

  lemma {:induction false} CreatedConcat(a: seq<Operation>, b: seq<Operation>, t: string)
    ensures Created(a + b, t) == Created(a, t) + Created(b, t)
  {
    if a == [] {
      assert a + b == b;
    } else {
      assert (a + b)[1..] == a[1..] + b;
      CreatedConcat(a[1..], b, t);
    }
  }

  lemma {:induction false} CreatedElsewhere(ops: seq<Operation>, t: string)
    requires forall op | op in ops && op.Create? :: op.table != t
    ensures Created(ops, t) == 0
  {
    if ops != [] {
      assert ops[0] in ops;
      CreatedElsewhere(ops[1..], t);
    }
  }

  /** Operations without drops that alter only tables there and create each other one once run
      exactly when each table takes the statements that alter it. */
  lemma {:induction false} RunsExactly(ops: seq<Operation>, db: Db, fill: Column -> string)
    requires AllRegular(db) && forall op | op in ops :: !op.Drop? && (op.Alter? ==> op.table in db)
    requires forall t :: Created(ops, t) <= if t in db then 0 else 1
    ensures RunOps(ops, db, fill).Some? <==> forall t | t in db :: RunColumns(On(ops, t), db[t].columns).Some?
  {
    if ops == [] {
      forall t | t in db ensures RunColumns(On(ops, t), db[t].columns).Some? {
        assert On(ops, t) == [];
      }
    } else {
      var op, rest := ops[0], ops[1..];
      assert op in ops && forall o | o in rest :: o in ops;
      OpRuns(op, db, fill);
      forall t ensures Created(ops, t) == (if op.Create? && op.table == t then 1 else 0) + Created(rest, t) {
      }
      if op.Create? {
        assert Created(ops, op.table) >= 1;
      }
      if ExecOp(op, db, fill).Some? {
        var db1 := ExecOp(op, db, fill).value;
        forall t ensures Created(rest, t) <= if t in db1 then 0 else 1 {
          StillThere(op, db, fill, t);
        }
        forall t {
          StillThere(op, db, fill, t);
        }
        hide ExecOp, Created, AllRegular;
        RunsExactly(rest, db1, fill);
        forall t ensures (t in db ==> RunColumns(On(ops, t), db[t].columns).Some?)
                         <==> (t in db1 ==> RunColumns(On(rest, t), db1[t].columns).Some?) {
          OneOpOn(ops, db, fill, t);
        }
      } else {
        var t := op.table;
        assert On(ops, t) == [op.stmt] + On(rest, t);
        assert ([op.stmt] + On(rest, t))[0] == op.stmt;
      }
    }
  }

  lemma StillThere(op: Operation, db: Db, fill: Column -> string, t: string)
    requires !op.Drop? && ExecOp(op, db, fill).Some?
    ensures t in ExecOp(op, db, fill).value <==> t in db || (op.Create? && op.table == t)
  {
    hide Exec, ExecRows;
  }

  lemma OneOpOn(ops: seq<Operation>, db: Db, fill: Column -> string, t: string)
    requires ops != [] && !ops[0].Drop? && ExecOp(ops[0], db, fill).Some?
    requires forall op | op in ops && op.Alter? :: op.table in db
    ensures var db1 := ExecOp(ops[0], db, fill).value;
            (t in db ==> RunColumns(On(ops, t), db[t].columns).Some?)
            <==> (t in db1 ==> RunColumns(On(ops[1..], t), db1[t].columns).Some?)
  {
    var op, rest := ops[0], On(ops[1..], t);
    assert op in ops;
    hide Exec, ExecRows, NewColumns;
    if op.Alter? && op.table == t {
      assert ([op.stmt] + rest)[1..] == rest;
    } else {
      assert [] + rest == rest;
      if op.Create? && op.table == t && t !in db {
        assert forall o | o in ops[1..] :: o in ops;
        OnOthers(ops[1..], t);
      }
    }
  }

  lemma {:induction false} NoneCreated(works: seq<TableWork>, manual: Manual, kind: TableWork -> bool, t: string)
    requires forall w | w in works :: w.name != t
    ensures Created(EmitKind(StripAll(works, manual), kind), t) == 0
  {
    hide Emit, EmitKind, StripAll, Strip;
    var safe := StripAll(works, manual);
    forall op | op in EmitKind(safe, kind) && op.Create? ensures op.table != t {
      EmitKindHas(safe, kind, op);
      var w :| w in safe && kind(w) && op in Emit(w);
      EmitsOnlyOn(w, op);
      StripAllHas(works, manual, w);
      var v :| v in works && Strip(v, manual) == Some(w);
      StripKeepsName(v, manual);
    }
    CreatedElsewhere(EmitKind(safe, kind), t);
  }

  lemma CreatedByOne(work: TableWork, t: string)
    ensures Created(Emit(work), t) <= if work.CreateTable? && work.name == t then 1 else 0
  {
    if work.CreateTable? {
      var rest := IndexOps(work.name, true, work.indexes) + FkOps(work.name, work.fks);
      assert Emit(work) == [Create(work.name, work.columns)] + rest;
      assert ([Create(work.name, work.columns)] + rest)[1..] == rest;
      CreatedElsewhere(rest, t);
    } else {
      forall op | op in Emit(work) ensures !op.Create? {
        EmitsOnlyOn(work, op);
      }
      CreatedElsewhere(Emit(work), t);
    }
  }

  lemma LastApart(works: seq<TableWork>, t: string)
    requires DistinctTables(works) && works != []
    ensures DistinctTables(works[..|works| - 1])
    ensures works[|works| - 1].name == t ==> forall w | w in works[..|works| - 1] :: w.name != t
  {
  }

  /** What the last work adds to the tables created. */
  lemma LastCreates(works: seq<TableWork>, manual: Manual, kind: TableWork -> bool, t: string)
    requires works != []
    ensures var last := works[|works| - 1];
            Created(EmitKind(StripAll(works, manual), kind), t)
            <= Created(EmitKind(StripAll(works[..|works| - 1], manual), kind), t)
               + if last.CreateTable? && kind(last) && last.name == t then 1 else 0
  {
    var init, last := works[..|works| - 1], works[|works| - 1];
    KindSnoc(works, manual, kind);
    StripKeepsName(last, manual);
    CreateIsWhole(last, manual);
    hide Strip, Emit, StripAll, EmitKind, Created;
    var done := EmitKind(StripAll(init, manual), kind);
    match Strip(last, manual) {
      case None => assert done + [] == done;
      case Some(w) =>
        CreatedConcat(done, if kind(w) then Emit(w) else [], t);
        CreatedByOne(w, t);
        CreatedElsewhere([], t);
    }
  }

  lemma {:induction false} KindCreates(works: seq<TableWork>, manual: Manual, kind: TableWork -> bool, t: string)
    requires DistinctTables(works)
    ensures Created(EmitKind(StripAll(works, manual), kind), t) <= 1
    ensures Created(EmitKind(StripAll(works, manual), kind), t) > 0 ==>
              exists w :: w in works && w.CreateTable? && kind(w) && w.name == t
  {
    if works != [] {
      hide *;
      var init, last := works[..|works| - 1], works[|works| - 1];
      assert last in works && forall w | w in init :: w in works;
      LastApart(works, t);
      LastCreates(works, manual, kind, t);
      if last.name == t {
        NoneCreated(init, manual, kind, t);
      } else {
        KindCreates(init, manual, kind, t);
      }
    }
  }

  lemma CreateIsWhole(work: TableWork, manual: Manual)
    ensures match Strip(work, manual)
            case None => true
            case Some(w) => w.CreateTable? == work.CreateTable? && (w.CreateTable? ==> w == work)
  {
    hide SafeAlters, FksWithoutDrop;
  }

  lemma NeverCreated(works: seq<TableWork>, manual: Manual, kind: TableWork -> bool, t: string)
    requires DistinctTables(works) && forall w :: kind(w) ==> !w.CreateTable?
    ensures Created(EmitKind(StripAll(works, manual), kind), t) == 0
  {
    KindCreates(works, manual, kind, t);
    hide EmitKind, StripAll;
  }

  lemma CreatedParts(a: seq<Operation>, b: seq<Operation>, c: seq<Operation>, d: seq<Operation>, t: string)
    requires Created(a, t) == Created(b, t) == Created(c, t) == 0
    ensures Created(a + (b + c + d), t) == Created(d, t)
  {
    hide Created;
    CreatedConcat(a, b + c + d, t);
    CreatedConcat(b + c, d, t);
    CreatedConcat(b, c, t);
  }

  /** A table is created at most once, and only if some work asks for it. */
  lemma CreatedOnce(d: SchemaDiff, manual: Manual, t: string)
    requires d.Valid() && DistinctTables(d.works)
    ensures Created(SafeOps(d, manual), t) <= 1
    ensures Created(SafeOps(d, manual), t) > 0 ==> exists w :: w in d.works && w.CreateTable? && w.name == t
  {
    AlwaysStripped(d, manual);
    var safe := StripAll(d.works, manual);
    var enums := if AnyDestructive(d, manual) then [] else EnumOps(d.newEnums);
    var alters: TableWork -> bool := (w: TableWork) => w.AlterTable?;
    var drops: TableWork -> bool := (w: TableWork) => w.DropTable?;
    var creates: TableWork -> bool := (w: TableWork) => w.CreateTable?;
    hide SafeOps, StripAll, EmitKind, Created, AnyDestructive, EnumOps;
    CreatedElsewhere(enums, t);
    NeverCreated(d.works, manual, alters, t);
    NeverCreated(d.works, manual, drops, t);
    KindCreates(d.works, manual, creates, t);
    CreatedParts(enums, EmitKind(safe, alters), EmitKind(safe, drops), EmitKind(safe, creates), t);
  }

  /** The database and the works agree on which tables are there, and each altered one goes from
      `prev` to `next`. */
  ghost predicate Describes(d: SchemaDiff, db: Db, prev: string -> seq<Column>, next: string -> seq<Column>) {
    forall w | w in d.works ::
      match w
      case CreateTable(t, _, _, _) => t !in db
      case DropTable(_) => true
      case AlterTable(t, diff, _, _, _, _) =>
        && Distinct(prev(t)) && Distinct(next(t)) && diff == Diff(prev(t), next(t))
        && t in db && db[t].columns == ColumnsOf(prev(t))
  }

  lemma TableRuns(d: SchemaDiff, manual: Manual, db: Db, prev: string -> seq<Column>, next: string -> seq<Column>,
                  t: string)
    requires d.Valid() && DistinctTables(d.works) && Describes(d, db, prev, next) && t in db
    ensures RunColumns(On(SafeOps(d, manual), t), db[t].columns).Some? <==>
            forall w | w in d.works && w.AlterTable? && w.name == t :: RenamesOrdered(prev(t), next(t))
  {
    if w :| w in d.works && w.AlterTable? && w.name == t {
      var k :| 0 <= k < |d.works| && d.works[k] == w;
      SafeOpsOn(d, manual, k);
      SafePartLands(prev(t), next(t), manual);
      hide SafeOps, On, Statements, SafePart, Diff, RunColumns, RenamesOrdered, LandsSafely, ColumnsOf, Distinct,
          DistinctTables;
    } else {
      forall op | op in SafeOps(d, manual) && op.Alter? ensures op.table != t {
        ExactlyTheHarmless(d, manual, op);
      }
      hide SafeOps;
      OnOthers(SafeOps(d, manual), t);
    }
  }

  /** Main result: the safe subset of a whole schema runs exactly when every altered table's renames
      are ordered, whatever is dropped in the full diff. */
  lemma SafeSubsetRuns(d: SchemaDiff, manual: Manual, db: Db, fill: Column -> string, prev: string -> seq<Column>,
                       next: string -> seq<Column>)
    requires d.Valid() && DistinctTables(d.works) && AllRegular(db) && Describes(d, db, prev, next)
    ensures RunOps(SafeOps(d, manual), db, fill).Some? <==>
            forall w | w in d.works && w.AlterTable? :: RenamesOrdered(prev(w.name), next(w.name))
  {
    var ops := SafeOps(d, manual);
    forall op | op in ops ensures !op.Drop? && (op.Alter? ==> op.table in db) {
      ExactlyTheHarmless(d, manual, op);
    }
    forall t ensures Created(ops, t) <= if t in db then 0 else 1 {
      CreatedOnce(d, manual, t);
    }
    forall t | t in db {
      TableRuns(d, manual, db, prev, next, t);
    }
    hide SafeOps, On, RunOps, RunColumns, RenamesOrdered, Created, AllRegular, DistinctTables, IsHarmless;
    RunsExactly(ops, db, fill);
  }

  /** Without consent, a migration that drops something and brings a new enum type with a table
      that uses it creates the table and not the type. */
  lemma NewEnumIsForgotten(manual: Manual, mood: Column)
    requires mood.sqlType == "mood"
    ensures var d := SchemaDiff([DropTable("logs"), CreateTable("diary", [mood], [], [])], ["mood"], false, false);
            && d.Valid()
            && Create("diary", [mood]) in SafeOps(d, manual) && CreateEnum("mood") !in SafeOps(d, manual)
  {
    var d := SchemaDiff([DropTable("logs"), CreateTable("diary", [mood], [], [])], ["mood"], false, false);
    assert d.works[0] in d.works && d.works[1] in d.works;
    assert IsDestructive(d.works[0], manual) && IsHarmless(Create("diary", [mood]), d.works[1], manual);
    ExactlyTheHarmless(d, manual, Create("diary", [mood]));
    ExactlyTheHarmless(d, manual, CreateEnum("mood"));
  }

  /** `resolveMigrationSql` without consent: exactly what is harmless, wherever it runs nothing is
      lost and everything harmless has happened, and no type change in it is manual. */
  method ResolveSafely(d: SchemaDiff, manual: Manual) returns (ops: seq<Operation>)
    requires d.Valid() && DistinctTables(d.works)
    ensures forall op :: op in ops <==>
              || (op.CreateEnum? && op.enumType in d.newEnums && !AnyDestructive(d, manual))
              || exists w :: w in d.works && IsHarmless(op, w, manual)
    ensures forall db, fill | RunOps(ops, db, fill).Some? ::
              var db' := RunOps(ops, db, fill).value;
              && (forall t | t in db :: t in db' && Preserved(ops, t, db[t], db'[t]))
              && (forall w | w in d.works :: TakesEffect(w, db, db', manual))
    ensures TypeChangesAutomatic(ops, d.works, manual)
  {
    hide IsDestructive, Strip, EmitAll;
    if (!d.enumsChanged && forall w | w in d.works :: !IsDestructive(w, manual)) || d.initial {
      ops := EnumOps(d.newEnums) + EmitAll(d.works);
    } else {
      var safe: seq<TableWork> := [];
      for i := 0 to |d.works|
        invariant safe == StripAll(d.works[..i], manual)
      {
        assert d.works[..i + 1][..i] == d.works[..i];
        var stripped := Strip(d.works[i], manual);
        if stripped.Some? {
          safe := safe + [stripped.value];
        }
      }
      assert d.works[..|d.works|] == d.works;
      ops := EmitAll(safe);
    }
    assert ops == SafeOps(d, manual);
    ResolvedSafely(d, manual);
  }

  lemma ResolvedSafely(d: SchemaDiff, manual: Manual)
    requires d.Valid() && DistinctTables(d.works)
    ensures forall op :: op in SafeOps(d, manual) <==>
              || (op.CreateEnum? && op.enumType in d.newEnums && !AnyDestructive(d, manual))
              || exists w :: w in d.works && IsHarmless(op, w, manual)
    ensures forall db, fill | RunOps(SafeOps(d, manual), db, fill).Some? ::
              var db' := RunOps(SafeOps(d, manual), db, fill).value;
              && (forall t | t in db :: t in db' && Preserved(SafeOps(d, manual), t, db[t], db'[t]))
              && (forall w | w in d.works :: TakesEffect(w, db, db', manual))
    ensures TypeChangesAutomatic(SafeOps(d, manual), d.works, manual)
  {
    hide *;
    forall op {
      ExactlyTheHarmless(d, manual, op);
    }
    forall db, fill, t | RunOps(SafeOps(d, manual), db, fill).Some? && t in db
      ensures var db' := RunOps(SafeOps(d, manual), db, fill).value;
              t in db' && Preserved(SafeOps(d, manual), t, db[t], db'[t])
    {
      NothingIsLost(d, manual, db, fill, t);
    }
    forall db, fill, w | RunOps(SafeOps(d, manual), db, fill).Some? && w in d.works
      ensures TakesEffect(w, db, RunOps(SafeOps(d, manual), db, fill).value, manual)
    {
      var k :| 0 <= k < |d.works| && d.works[k] == w;
      SafeTakesEffect(d, manual, db, fill, k);
    }
    OnlyAutomaticTypeChanges(d, manual);
  }
}
