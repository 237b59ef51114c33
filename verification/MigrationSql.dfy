/** Which of the differ's statements are run: with consent to data loss all but the manual type
    changes, without it only the safe subset. */
module MigrationSql {
  import opened Common
  import opened Ddl
  import opened ColumnDiff
  import opened ColumnPhases
  import opened ColumnsReached

  // ----- With consent: manual type changes are filtered out -----

  predicate IsUnsafeTypeChange(a: ColumnAlter, manual: Manual) {
    a.setType.Some? && a.fromSqlType.Some? && manual(a.fromSqlType.value, a.setType.value)
  }

  function Blocked(alters: seq<ColumnAlter>, manual: Manual): set<Statement> {
    set a | a in alters && IsUnsafeTypeChange(a, manual) :: SetType(a.sqlName, a.setType.value)
  }

  function Without(stmts: seq<Statement>, blocked: set<Statement>): seq<Statement> {
    if stmts == [] then []
    else Without(stmts[..|stmts| - 1], blocked)
         + if stmts[|stmts| - 1] in blocked then [] else [stmts[|stmts| - 1]]
  }

  /** `resolveMigrationSql` with data loss accepted, for one altered table. */
  method ResolveAccepting(diff: TableDiff, manual: Manual) returns (stmts: seq<Statement>)
    ensures stmts == Without(Statements(diff), Blocked(diff.alterColumns, manual))
  {
    var sql := EmitAlterTable(diff);
    var blocked := Blocked(diff.alterColumns, manual);
    stmts := [];
    for i := 0 to |sql|
      invariant stmts == Without(sql[..i], blocked)
    {
      assert sql[..i + 1][..i] == sql[..i];
      if sql[i] !in blocked {
        stmts := stmts + [sql[i]];
      }
    }
    assert sql[..|sql|] == sql;
  }

  lemma {:induction false} WithoutConcat(a: seq<Statement>, b: seq<Statement>, blocked: set<Statement>)
    ensures Without(a + b, blocked) == Without(a, blocked) + Without(b, blocked)
  {
    if b == [] {
      assert a + b == a;
    } else {
      assert (a + b)[..|a + b| - 1] == a + b[..|b| - 1];
      WithoutConcat(a, b[..|b| - 1], blocked);
    }
  }

  lemma {:induction false} WithoutNone(stmts: seq<Statement>, blocked: set<Statement>)
    requires forall s | s in stmts :: s !in blocked
    ensures Without(stmts, blocked) == stmts
  {
    if stmts != [] {
      var init := stmts[..|stmts| - 1];
      assert stmts == init + [stmts[|stmts| - 1]];
      WithoutNone(init, blocked);
    }
  }

  lemma {:induction false} PhaseStatements(diff: TableDiff)
    ensures forall s | s in DropStatements(diff.dropColumns) :: s.DropColumn?
    ensures forall s | s in RenameStatements(diff.renameColumns) :: s.RenameColumn?
    ensures forall s | s in AddStatements(diff.addColumns) :: s.AddColumn?
    decreases |diff.dropColumns| + |diff.renameColumns| + |diff.addColumns|
  {
    var drops, renames, adds := diff.dropColumns, diff.renameColumns, diff.addColumns;
    if drops != [] {
      PhaseStatements(diff.(dropColumns := drops[..|drops| - 1]));
    }
    if renames != [] {
      PhaseStatements(diff.(renameColumns := renames[..|renames| - 1]));
    }
    if adds != [] {
      PhaseStatements(diff.(addColumns := adds[..|adds| - 1]));
    }
  }

  lemma ConstraintsSetNothing(a: ColumnAlter, blocked: set<Statement>)
    requires forall s | s in blocked :: s.SetType?
    ensures Without(ConstraintStatements(a), blocked) == ConstraintStatements(a)
  {
    assert forall s: Statement | s in ConstraintStatements(a) :: !s.SetType?;
    WithoutNone(ConstraintStatements(a), blocked);
  }

  function TypeStatement(a: ColumnAlter): seq<Statement> {
    if a.setType.Some? then [SetType(a.sqlName, a.setType.value)] else []
  }

  function OtherSets(a: ColumnAlter): seq<Statement> {
    (if a.setNullable.Some? then [SetNullable(a.sqlName, a.setNullable.value)] else [])
    + (if a.setDefault.Some? then [SetDefault(a.sqlName, a.setDefault.value)] else [])
  }

  lemma SetsAre(a: ColumnAlter)
    ensures SetStatements(a) == TypeStatement(a) + OtherSets(a)
    ensures forall s | s in OtherSets(a) :: !s.SetType?
  {
  }

  lemma {:induction false} WithoutType(a: ColumnAlter, manual: Manual, blocked: set<Statement>)
    requires a.setType.Some? ==> (SetType(a.sqlName, a.setType.value) in blocked <==> IsUnsafeTypeChange(a, manual))
    ensures Without(TypeStatement(a), blocked) == TypeStatement(WithoutManual(a, manual))
  {
    if a.setType.Some? {
      var stmt := SetType(a.sqlName, a.setType.value);
      assert [stmt][..0] == [];
      assert Without([stmt], blocked) == [] + if stmt in blocked then [] else [stmt];
    }
  }

  lemma {:induction false} WithoutSets(a: ColumnAlter, manual: Manual, blocked: set<Statement>)
    requires forall s | s in blocked :: s.SetType?
    requires a.setType.Some? ==> (SetType(a.sqlName, a.setType.value) in blocked <==> IsUnsafeTypeChange(a, manual))
    ensures Without(SetStatements(a), blocked) == SetStatements(WithoutManual(a, manual))
  {
    assert OtherSets(WithoutManual(a, manual)) == OtherSets(a);
    SetsAre(a);
    SetsAre(WithoutManual(a, manual));
    WithoutType(a, manual, blocked);
    hide SetStatements, TypeStatement, OtherSets, WithoutManual, Without;
    WithoutConcat(TypeStatement(a), OtherSets(a), blocked);
    WithoutNone(OtherSets(a), blocked);
  }

  /** Filtering one alter's statements leaves its type change out exactly when it is manual. */
  lemma WithoutOne(a: ColumnAlter, manual: Manual, blocked: set<Statement>)
    requires forall s | s in blocked :: s.SetType?
    requires a.setType.Some? ==> (SetType(a.sqlName, a.setType.value) in blocked <==> IsUnsafeTypeChange(a, manual))
    ensures Without(EmitAlterColumn(a), blocked) == EmitAlterColumn(WithoutManual(a, manual))
  {
    assert ConstraintStatements(WithoutManual(a, manual)) == ConstraintStatements(a);
    hide SetStatements;
    hide ConstraintStatements;
    hide WithoutManual;
    WithoutConcat(SetStatements(a), ConstraintStatements(a), blocked);
    WithoutSets(a, manual, blocked);
    ConstraintsSetNothing(a, blocked);
  }

  ghost predicate BlocksRight(blocked: set<Statement>, prev: seq<Column>, cols: seq<Column>, manual: Manual) {
    && (forall s | s in blocked :: s.SetType?)
    && forall n | n in cols && AlterOf(prev, n) != [] ::
         var a := AlterOf(prev, n)[0];
         a.setType.Some? ==> (SetType(a.sqlName, a.setType.value) in blocked <==> IsUnsafeTypeChange(a, manual))
  }

  lemma {:induction false} WithoutAlters(prev: seq<Column>, cols: seq<Column>, manual: Manual, blocked: set<Statement>)
    requires BlocksRight(blocked, prev, cols, manual)
    ensures Without(AlterStatements(AltersOf(prev, cols)), blocked) == AlterStatements(AltersUnder(prev, cols, manual))
  {
    hide AlterOf;
    hide EmitAlterColumn;
    if cols != [] {
      var init, n := cols[..|cols| - 1], cols[|cols| - 1];
      WithoutAlters(prev, init, manual, blocked);
      AlterOfShort(prev, n);
      var step := AlterOf(prev, n);
      var all, under := AltersOf(prev, init), AltersUnder(prev, init, manual);
      if step == [] {
        assert all + step == all && under + [] == under;
      } else {
        var a := step[0];
        assert all + step == all + [a];
        assert (all + [a])[..|all|] == all && (under + [WithoutManual(a, manual)])[..|under|] == under;
        WithoutConcat(AlterStatements(all), EmitAlterColumn(a), blocked);
        assert n in cols;
        WithoutOne(a, manual, blocked);
      }
    }
  }

  lemma {:induction false} AltersComeFrom(prev: seq<Column>, cols: seq<Column>)
    ensures forall a | a in AltersOf(prev, cols) :: exists n :: n in cols && AlterOf(prev, n) == [a]
    ensures forall n | n in cols && AlterOf(prev, n) != [] :: AlterOf(prev, n)[0] in AltersOf(prev, cols)
  {
    hide AlterOf;
    if cols != [] {
      var init, n := cols[..|cols| - 1], cols[|cols| - 1];
      AltersComeFrom(prev, init);
      AlterOfShort(prev, n);
      assert cols == init + [n];
      forall a | a in AltersOf(prev, cols)
        ensures exists n :: n in cols && AlterOf(prev, n) == [a]
      {
        if a in AltersOf(prev, init) {
          var m :| m in init && AlterOf(prev, m) == [a];
          assert m in cols;
        } else {
          assert AlterOf(prev, n) == [a];
        }
      }
    }
  }

  lemma AlterName(prev: seq<Column>, n: Column)
    ensures AlterOf(prev, n) != [] ==> AlterOf(prev, n)[0].sqlName == n.sqlName
  {
  }

  lemma BlockedIsRight(prev: seq<Column>, next: seq<Column>, manual: Manual)
    requires DistinctSql(next)
    ensures BlocksRight(Blocked(AltersOf(prev, next), manual), prev, next, manual)
  {
    hide AlterOf;
    hide AltersOf;
    var alters := AltersOf(prev, next);
    AltersComeFrom(prev, next);
    forall n | n in next && AlterOf(prev, n) != [] && AlterOf(prev, n)[0].setType.Some?
      ensures var a := AlterOf(prev, n)[0];
              SetType(a.sqlName, a.setType.value) in Blocked(alters, manual) <==> IsUnsafeTypeChange(a, manual)
    {
      var a := AlterOf(prev, n)[0];
      AlterName(prev, n);
      if SetType(a.sqlName, a.setType.value) in Blocked(alters, manual) {
        var b :| b in alters && IsUnsafeTypeChange(b, manual)
            && SetType(b.sqlName, b.setType.value) == SetType(a.sqlName, a.setType.value);
        var m :| m in next && AlterOf(prev, m) == [b];
        AlterName(prev, m);
        OneSql(next, m, n);
      }
    }
  }

  /** The filter leaves exactly the statements without the manual type changes. */
  lemma FilterIsUnder(prev: seq<Column>, next: seq<Column>, manual: Manual)
    requires DistinctSql(next)
    ensures Without(Statements(Diff(prev, next)), Blocked(AltersOf(prev, next), manual))
        == StatementsUnder(prev, next, manual)
  {
    var diff := Diff(prev, next);
    var blocked := Blocked(diff.alterColumns, manual);
    BlockedIsRight(prev, next, manual);
    var d, r, a := DropStatements(diff.dropColumns), RenameStatements(diff.renameColumns),
        AddStatements(diff.addColumns);
    PhaseStatements(diff);
    WithoutConcat(d + r + a, AlterStatements(diff.alterColumns), blocked);
    assert forall s: Statement | s in d + r + a :: !s.SetType?;
    WithoutNone(d + r + a, blocked);
    WithoutAlters(prev, next, manual, blocked);
  }

  /** The statements that are run when data loss is accepted; a down migration is built this way
      with the tables exchanged. */
  ghost function AcceptedSql(prev: seq<Column>, next: seq<Column>, manual: Manual): seq<Statement> {
    Without(Statements(Diff(prev, next)), Blocked(AltersOf(prev, next), manual))
  }

  /** With data loss accepted, the statements that are run bring the previous columns to the
      next ones if and only if the tables are reconcilable and no type change is manual. */
  lemma AcceptedReachesNext(prev: seq<Column>, next: seq<Column>, manual: Manual)
    requires Distinct(prev) && Distinct(next)
    ensures RunColumns(AcceptedSql(prev, next, manual), ColumnsOf(prev)) == Some(ColumnsOf(next))
            <==> Reconcilable(prev, next) && NoManual(prev, next, manual)
  {
    FilterIsUnder(prev, next, manual);
    ResolvedReachesNext(prev, next, manual);
  }

  /** A SQL name that both tables use belongs to the same TypeScript name in both. */
  ghost predicate NamesAgree(prev: seq<Column>, next: seq<Column>) {
    forall p, n | p in prev && n in next && p.sqlName == n.sqlName :: p.tsName == n.tsName
  }

  lemma AgreeingIsReconcilable(prev: seq<Column>, next: seq<Column>)
    requires NamesAgree(prev, next) && AddsExact(prev, next)
    ensures Reconcilable(prev, next)
  {
    forall q, n | q in prev && n in next && q.sqlName == n.sqlName
      ensures IsPaired(prev, n)
    {
    }
  }

  lemma {:induction false} AgreeingOrders(prev: seq<Column>, next: seq<Column>)
    requires NamesAgree(prev, next)
    ensures RenamesOrdered(prev, next)
    ensures forall n | n in next && !IsPaired(prev, n) :: IsAdded(prev, n)
    ensures forall p | p in prev :: !IsLeft(p, next)
  {
  }

  // ----- Up and down again -----

  /** A type change that is run either has a way back that is run too, or none is needed. */
  predicate TypeComesBack(p: Column, n: Column, manual: Manual) {
    p.sqlType == n.sqlType || manual(p.sqlType, n.sqlType) || !manual(n.sqlType, p.sqlType)
  }

  ghost predicate TypesComeBack(prev: seq<Column>, next: seq<Column>, manual: Manual) {
    forall n | n in next && IsPaired(prev, n) :: TypeComesBack(PairOf(prev, n), n, manual)
  }

  function ValueIn(cols: Columns): Column -> Attributes {
    (c: Column) => if c.sqlName in cols then cols[c.sqlName] else c.Attrs()
  }

  lemma {:induction false} OneComesBack(p: Column, n: Column, manual: Manual)
    ensures var up := Target(p, n, manual);
            var down := BuildColumnAlter(n, p, p.sqlName);
            (if down.None? then up else Altered(WithoutManual(down.value, manual), up)) == p.Attrs() <==>
            TypeComesBack(p, n, manual)
  {
  }

  lemma {:induction false} PairComesBack(prev: seq<Column>, next: seq<Column>, p: Column, manual: Manual)
    requires Distinct(prev) && Distinct(next) && p in prev && IsPaired(next, p)
    ensures var n := PairOf(next, p);
            && n in next && IsPaired(prev, n) && PairOf(prev, n) == p
            && (Landed(next, p, manual, Target(p, n, manual)) == p.Attrs() <==> TypeComesBack(p, n, manual))
  {
    var n := PairOf(next, p);
    SameTs(prev, n, FindTs(prev, n.tsName));
    OneTs(prev, p, PairOf(prev, n));
    OneComesBack(p, n, manual);
    hide BuildColumnAlter, WithoutManual, Altered, Target, TypeComesBack;
  }

  lemma {:induction false} FinalCells(cols: Columns, prev: seq<Column>, next: seq<Column>, manual: Manual)
    requires DistinctSql(next) && NamesAgree(prev, next) && Final(cols, prev, next, manual)
    ensures cols == CellsOf(next, ValueIn(cols))
  {
    AgreeingOrders(prev, next);
    hide IsPaired, IsAdded, IsLeft, NamesAgree, DistinctSql;
    forall n | n in next ensures n.sqlName in cols {
      assert IsPaired(prev, n) || IsAdded(prev, n);
    }
    forall s | s in cols ensures exists n :: n in next && n.sqlName == s {
      assert IsAccounted(prev, next, s);
    }
    hide Final, ValueIn;
    ValuesAre(cols, next);
    AreCellsOf(cols, next, ValueIn(cols));
  }

  lemma ValuesAre(cols: Columns, next: seq<Column>)
    ensures forall n | n in next && n.sqlName in cols :: ValueIn(cols)(n) == cols[n.sqlName]
  {
  }

  /** What the down migration must restore, column by column. */
  ghost predicate Restored(prev: seq<Column>, next: seq<Column>, manual: Manual, p: Column) {
    if IsPaired(next, p) then TypeComesBack(p, PairOf(next, p), manual) else p.AddedAttrs() == p.Attrs()
  }

  lemma {:induction false} DownCell(up: Columns, down: Columns, prev: seq<Column>, next: seq<Column>, manual: Manual,
                                    p: Column)
    requires Distinct(prev) && Distinct(next) && Final(up, prev, next, manual) && p in prev
    requires FinalFrom(down, ValueIn(up), next, prev, manual) && (IsPaired(next, p) || IsAdded(next, p))
    ensures p.sqlName in down && (down[p.sqlName] == p.Attrs() <==> Restored(prev, next, manual, p))
  {
    if IsPaired(next, p) {
      PairComesBack(prev, next, p, manual);
      hide Landed, Target, TypeComesBack, IsPaired;
      ValuesAre(up, next);
    }
  }

  lemma {:induction false} DownName(up: Columns, down: Columns, prev: seq<Column>, next: seq<Column>, manual: Manual,
                                    s: string)
    requires FinalFrom(down, ValueIn(up), next, prev, manual) && s in down
    requires forall q | q in next :: !IsLeft(q, prev)
    ensures exists p :: p in prev && p.sqlName == s
  {
    hide IsPaired, IsAdded, IsLeft;
    assert IsAccounted(next, prev, s);
  }

  lemma {:induction false} RestoredAll(prev: seq<Column>, next: seq<Column>, manual: Manual)
    requires Distinct(prev) && Distinct(next)
    requires forall p | p in prev && !IsPaired(next, p) :: IsAdded(next, p)
    ensures (forall p | p in prev :: Restored(prev, next, manual, p)) <==>
            AddsExact(next, prev) && TypesComeBack(prev, next, manual)
  {
    TypesByPrevious(prev, next, manual);
    AddedIsUnpaired(next, prev);
    hide IsPaired, IsAdded, TypeComesBack, Distinct, TypesComeBack;
  }

  lemma {:induction false} DownIsPrevious(up: Columns, down: Columns, prev: seq<Column>, next: seq<Column>,
                                          manual: Manual)
    requires Distinct(prev) && Distinct(next) && NamesAgree(prev, next) && Final(up, prev, next, manual)
    requires FinalFrom(down, ValueIn(up), next, prev, manual)
    ensures down == ColumnsOf(prev) <==> AddsExact(next, prev) && TypesComeBack(prev, next, manual)
  {
    AgreeingOrders(next, prev);
    hide Final, FinalFrom, NamesAgree, DistinctTs, IsPaired, IsAdded, IsLeft, AddsExact, TypesComeBack, Restored,
        ColumnsOf;
    forall p | p in prev
      ensures p.sqlName in down && (down[p.sqlName] == p.Attrs() <==> Restored(prev, next, manual, p))
    {
      DownCell(up, down, prev, next, manual, p);
    }
    forall s | s in down ensures exists p :: p in prev && p.sqlName == s {
      DownName(up, down, prev, next, manual, s);
    }
    CellsDecide(down, prev);
    RestoredAll(prev, next, manual);
  }

  lemma CellsDecide(cols: Columns, prev: seq<Column>)
    requires DistinctSql(prev) && (forall p | p in prev :: p.sqlName in cols)
    requires forall s | s in cols :: exists p :: p in prev && p.sqlName == s
    ensures cols == ColumnsOf(prev) <==> forall p | p in prev :: cols[p.sqlName] == p.Attrs()
  {
    if forall p | p in prev :: cols[p.sqlName] == p.Attrs() {
      AreCellsOf(cols, prev, AttrsOf);
    }
  }

  lemma AddedIsUnpaired(prev: seq<Column>, next: seq<Column>)
    ensures forall n | n in next && IsAdded(prev, n) :: !IsPaired(prev, n)
  {
  }

  lemma {:induction false} TypesByPrevious(prev: seq<Column>, next: seq<Column>, manual: Manual)
    requires Distinct(prev) && Distinct(next)
    ensures TypesComeBack(prev, next, manual) <==>
            forall p | p in prev && IsPaired(next, p) :: TypeComesBack(p, PairOf(next, p), manual)
  {
    forall p | p in prev && IsPaired(next, p)
      ensures PairOf(next, p) in next && IsPaired(prev, PairOf(next, p)) && PairOf(prev, PairOf(next, p)) == p
    {
      PairComesBack(prev, next, p, manual);
    }
    forall n | n in next && IsPaired(prev, n)
      ensures PairOf(prev, n) in prev && IsPaired(next, PairOf(prev, n)) && PairOf(next, PairOf(prev, n)) == n
    {
      PairComesBack(next, prev, n, manual);
    }
    hide IsPaired, TypeComesBack;
  }

  /** Migrating up and then down, each without its manual type changes: where a SQL name on both
      sides has one TypeScript name both always run, and the previous columns are back if and only
      if no type change that is run has a manual way back, and the previous table declares its
      dropped columns as ADD COLUMN makes them. */
  lemma {:induction false} UpThenDown(prev: seq<Column>, next: seq<Column>, manual: Manual)
    requires Distinct(prev) && Distinct(next) && NamesAgree(prev, next)
    ensures var up := RunColumns(AcceptedSql(prev, next, manual), ColumnsOf(prev));
            && up.Some?
            && var down := RunColumns(AcceptedSql(next, prev, manual), up.value);
               && down.Some?
               && (down.value == ColumnsOf(prev) <==> AddsExact(next, prev) && TypesComeBack(prev, next, manual))
  {
    assert NamesAgree(next, prev);
    AgreeingOrders(prev, next);
    AgreeingOrders(next, prev);
    hide *;
    ResolvedRuns(prev, next, manual, AttrsOf);
    assert ColumnsOf(prev) == CellsOf(prev, AttrsOf) by { ColumnsAreCells(prev); }
    AcceptedIsUnder(prev, next, manual);
    AcceptedIsUnder(next, prev, manual);
    var up := RunColumns(AcceptedSql(prev, next, manual), ColumnsOf(prev)).value;
    FinalFromPrevious(up, prev, next, manual);
    FinalCells(up, prev, next, manual);
    ResolvedRuns(next, prev, manual, ValueIn(up));
    DownIsPrevious(up, RunColumns(AcceptedSql(next, prev, manual), up).value, prev, next, manual);
  }

  lemma ColumnsAreCells(cols: seq<Column>)
    requires DistinctSql(cols)
    ensures ColumnsOf(cols) == CellsOf(cols, AttrsOf)
  {
  }

  lemma AcceptedIsUnder(prev: seq<Column>, next: seq<Column>, manual: Manual)
    requires DistinctSql(next)
    ensures AcceptedSql(prev, next, manual) == StatementsUnder(prev, next, manual)
  {
    FilterIsUnder(prev, next, manual);
  }
}
