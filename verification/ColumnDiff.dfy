/** The column differ: it pairs columns by their TypeScript name and emits drops, renames,
    adds and alters, in that order. Running what it emits on the previous columns is compared
    with the columns the next manifest asks for. */
module ColumnDiff {
  import opened Common
  import opened Ddl

  datatype Rename = Rename(from: string, to: string)

  datatype ColumnAlter = ColumnAlter(
    sqlName: string,
    setType: Option<string>, fromSqlType: Option<string>, setNullable: Option<bool>, setDefault: Option<Default>,
    dropUnique: Option<ConstraintName>, setUnique: bool,
    setCheck: Option<Option<string>>)

  datatype TableDiff = TableDiff(
    addColumns: seq<Column>, dropColumns: seq<string>,
    renameColumns: seq<Rename>, alterColumns: seq<ColumnAlter>)

  /** Where the column with this TypeScript name stands, or -1. */
  ghost function FindTs(cols: seq<Column>, ts: string): (i: int)
    ensures -1 <= i < |cols|
    ensures i >= 0 ==> cols[i].tsName == ts
    ensures i < 0 ==> forall k | 0 <= k < |cols| :: cols[k].tsName != ts
  {
    if exists i :: 0 <= i < |cols| && cols[i].tsName == ts
    then var i :| 0 <= i < |cols| && cols[i].tsName == ts; i
    else -1
  }

  /** Where the column with this SQL name stands, or -1. */
  ghost function FindSql(cols: seq<Column>, name: string): (i: int)
    ensures -1 <= i < |cols|
    ensures i >= 0 ==> cols[i].sqlName == name
    ensures i < 0 ==> forall k | 0 <= k < |cols| :: cols[k].sqlName != name
  {
    if exists i :: 0 <= i < |cols| && cols[i].sqlName == name
    then var i :| 0 <= i < |cols| && cols[i].sqlName == name; i
    else -1
  }

  // ----- What the differ decides, column by column -----

  ghost function RenameOf(prev: seq<Column>, n: Column): seq<Rename> {
    var i := FindTs(prev, n.tsName);
    if i >= 0 && prev[i].sqlName != n.sqlName then [Rename(prev[i].sqlName, n.sqlName)] else []
  }

  ghost predicate IsAdded(prev: seq<Column>, n: Column) {
    FindTs(prev, n.tsName) < 0 && FindSql(prev, n.sqlName) < 0
  }

  ghost predicate IsDropped(p: Column, next: seq<Column>) {
    FindTs(next, p.tsName) < 0 && FindSql(next, p.sqlName) < 0
  }

  function UniqueNameOf(p: Column): ConstraintName {
    match p.uniqueName case Some(name) => Recorded(name) case None => UniqueOf(p.sqlName)
  }

  /** The changes that turn column `p` into column `n`, for a column now called `name`. */
  function BuildColumnAlter(p: Column, n: Column, name: string): Option<ColumnAlter> {
    var defaultsEqual := p.defaultNow == n.defaultNow && p.defaultValue == n.defaultValue;
    if p.sqlType == n.sqlType && p.EffectiveNullable() == n.EffectiveNullable() && defaultsEqual
       && p.unique == n.unique && p.primary == n.primary && p.check == n.check
    then None
    else Some(ColumnAlter(
      name,
      if p.sqlType != n.sqlType then Some(n.sqlType) else None,
      if p.sqlType != n.sqlType then Some(p.sqlType) else None,
      if p.EffectiveNullable() != n.EffectiveNullable() then Some(n.EffectiveNullable()) else None,
      if defaultsEqual then None else Some(n.DefaultOf()),
      if p.unique && !n.unique then Some(UniqueNameOf(p)) else None,
      !p.unique && n.unique,
      if p.check != n.check then Some(n.check) else None))
  }

  ghost function AlterOf(prev: seq<Column>, n: Column): seq<ColumnAlter> {
    var i := FindTs(prev, n.tsName);
    if i < 0 then []
    else match BuildColumnAlter(prev[i], n, n.sqlName) case None => [] case Some(alter) => [alter]
  }

  ghost function RenamesOf(prev: seq<Column>, cols: seq<Column>): seq<Rename> {
    if cols == [] then [] else RenamesOf(prev, cols[..|cols| - 1]) + RenameOf(prev, cols[|cols| - 1])
  }

  ghost function AddsOf(prev: seq<Column>, cols: seq<Column>): seq<Column> {
    if cols == [] then []
    else AddsOf(prev, cols[..|cols| - 1]) + if IsAdded(prev, cols[|cols| - 1]) then [cols[|cols| - 1]] else []
  }

  ghost function DropsOf(cols: seq<Column>, next: seq<Column>): seq<string> {
    if cols == [] then []
    else DropsOf(cols[..|cols| - 1], next)
         + if IsDropped(cols[|cols| - 1], next) then [cols[|cols| - 1].sqlName] else []
  }

  ghost function AltersOf(prev: seq<Column>, cols: seq<Column>): seq<ColumnAlter> {
    if cols == [] then [] else AltersOf(prev, cols[..|cols| - 1]) + AlterOf(prev, cols[|cols| - 1])
  }

  ghost function Diff(prev: seq<Column>, next: seq<Column>): TableDiff {
    TableDiff(AddsOf(prev, next), DropsOf(prev, next), RenamesOf(prev, next), AltersOf(prev, next))
  }

  // ----- The differ as the loops that run -----

  ghost predicate IndexesByTs(m: map<string, Column>, cols: seq<Column>) {
    && (forall c | c in cols :: c.tsName in m && m[c.tsName] == c)
    && (forall ts | ts in m :: exists c :: c in cols && c.tsName == ts)
  }

  ghost predicate IndexesBySql(m: map<string, Column>, cols: seq<Column>) {
    && (forall c | c in cols :: c.sqlName in m && m[c.sqlName] == c)
    && (forall name | name in m :: exists c :: c in cols && c.sqlName == name)
  }

  method IndexColumns(cols: seq<Column>) returns (byTs: map<string, Column>, bySql: map<string, Column>)
    requires Distinct(cols)
    ensures IndexesByTs(byTs, cols) && IndexesBySql(bySql, cols)
  {
    byTs, bySql := map[], map[];
    for i := 0 to |cols|
      invariant IndexesByTs(byTs, cols[..i]) && IndexesBySql(bySql, cols[..i])
    {
      assert cols[..i + 1] == cols[..i] + [cols[i]];
      byTs := byTs[cols[i].tsName := cols[i]];
      bySql := bySql[cols[i].sqlName := cols[i]];
    }
    assert cols[..|cols|] == cols;
  }

  /** Neither side of a rename is a column that is added or dropped. */
  lemma RenamedIsPaired(prev: seq<Column>, next: seq<Column>, p: Column, n: Column)
    requires Distinct(prev) && Distinct(next) && p in prev && n in next && p.tsName == n.tsName
    ensures FindTs(prev, n.tsName) >= 0 && prev[FindTs(prev, n.tsName)] == p
    ensures forall q | q in prev && q.sqlName == p.sqlName :: !IsDropped(q, next)
    ensures forall m | m in next && m.sqlName == n.sqlName :: !IsAdded(prev, m)
  {
    forall q | q in prev && q.sqlName == p.sqlName ensures q == p {
      var i, j :| 0 <= i < |prev| && 0 <= j < |prev| && prev[i] == p && prev[j] == q;
    }
    forall m | m in next && m.sqlName == n.sqlName ensures m == n {
      var i, j :| 0 <= i < |next| && 0 <= j < |next| && next[i] == n && next[j] == m;
    }
    var i :| 0 <= i < |prev| && prev[i] == p;
  }

  method CollectRenames(prev: seq<Column>, next: seq<Column>, prevByTs: map<string, Column>)
    returns (renames: seq<Rename>, renameFrom: set<string>, renameTo: set<string>)
    requires Distinct(prev) && Distinct(next) && IndexesByTs(prevByTs, prev)
    ensures renames == RenamesOf(prev, next)
    ensures forall p | p in prev && p.sqlName in renameFrom :: !IsDropped(p, next)
    ensures forall n | n in next && n.sqlName in renameTo :: !IsAdded(prev, n)
  {
    hide IsDropped, IsAdded, Distinct;
    renames, renameFrom, renameTo := [], {}, {};
    for k := 0 to |next|
      invariant renames == RenamesOf(prev, next[..k])
      invariant forall p | p in prev && p.sqlName in renameFrom :: !IsDropped(p, next)
      invariant forall n | n in next && n.sqlName in renameTo :: !IsAdded(prev, n)
    {
      assert next[..k + 1][..k] == next[..k];
      var n := next[k];
      if n.tsName in prevByTs && prevByTs[n.tsName].sqlName != n.sqlName {
        var p := prevByTs[n.tsName];
        RenamedIsPaired(prev, next, p, n);
        renames := renames + [Rename(p.sqlName, n.sqlName)];
        renameFrom := renameFrom + {p.sqlName};
        renameTo := renameTo + {n.sqlName};
      }
    }
    assert next[..|next|] == next;
  }

  method CollectAlters(prev: seq<Column>, next: seq<Column>, prevByTs: map<string, Column>)
    returns (alters: seq<ColumnAlter>)
    requires Distinct(prev) && Distinct(next) && IndexesByTs(prevByTs, prev)
    ensures alters == AltersOf(prev, next)
  {
    hide BuildColumnAlter;
    alters := [];
    for k := 0 to |next|
      invariant alters == AltersOf(prev, next[..k])
    {
      assert next[..k + 1][..k] == next[..k];
      var n := next[k];
      if n.tsName !in prevByTs { continue; }
      var p := prevByTs[n.tsName];
      var name := if p.sqlName != n.sqlName then n.sqlName else p.sqlName;
      var alter := BuildColumnAlter(p, n, name);
      if alter.Some? {
        alters := alters + [alter.value];
      }
    }
    assert next[..|next|] == next;
  }

  method CollectAdds(prev: seq<Column>, next: seq<Column>, prevByTs: map<string, Column>,
                     prevBySql: map<string, Column>, renameTo: set<string>)
    returns (adds: seq<Column>)
    requires IndexesByTs(prevByTs, prev) && IndexesBySql(prevBySql, prev)
    requires forall n | n in next && n.sqlName in renameTo :: !IsAdded(prev, n)
    ensures adds == AddsOf(prev, next)
  {
    adds := [];
    for k := 0 to |next|
      invariant adds == AddsOf(prev, next[..k])
    {
      assert next[..k + 1][..k] == next[..k];
      var n := next[k];
      if n.sqlName in renameTo { continue; }
      if n.sqlName in prevBySql { continue; }
      if n.tsName in prevByTs { continue; }
      adds := adds + [n];
    }
    assert next[..|next|] == next;
  }

  method CollectDrops(prev: seq<Column>, next: seq<Column>, nextByTs: map<string, Column>,
                      nextBySql: map<string, Column>, renameFrom: set<string>)
    returns (drops: seq<string>)
    requires IndexesByTs(nextByTs, next) && IndexesBySql(nextBySql, next)
    requires forall p | p in prev && p.sqlName in renameFrom :: !IsDropped(p, next)
    ensures drops == DropsOf(prev, next)
  {
    drops := [];
    for k := 0 to |prev|
      invariant drops == DropsOf(prev[..k], next)
    {
      assert prev[..k + 1][..k] == prev[..k];
      var p := prev[k];
      if p.sqlName in renameFrom { continue; }
      if p.sqlName in nextBySql { continue; }
      if p.tsName in nextByTs { continue; }
      drops := drops + [p.sqlName];
    }
    assert prev[..|prev|] == prev;
  }

  method DiffColumns(prev: seq<Column>, next: seq<Column>) returns (diff: TableDiff)
    requires Distinct(prev) && Distinct(next)
    ensures diff == Diff(prev, next)
  {
    var prevByTs, prevBySql := IndexColumns(prev);
    var nextByTs, nextBySql := IndexColumns(next);
    var renameColumns, renameFrom, renameTo := CollectRenames(prev, next, prevByTs);
    var addColumns := CollectAdds(prev, next, prevByTs, prevBySql, renameTo);
    var dropColumns := CollectDrops(prev, next, nextByTs, nextBySql, renameFrom);
    var alterColumns := CollectAlters(prev, next, prevByTs);
    diff := TableDiff(addColumns, dropColumns, renameColumns, alterColumns);
  }

  // ----- The statements -----

  function SetStatements(a: ColumnAlter): seq<Statement> {
    (if a.setType.Some? then [SetType(a.sqlName, a.setType.value)] else [])
    + (if a.setNullable.Some? then [SetNullable(a.sqlName, a.setNullable.value)] else [])
    + (if a.setDefault.Some? then [SetDefault(a.sqlName, a.setDefault.value)] else [])
  }

  function ConstraintStatements(a: ColumnAlter): seq<Statement> {
    (if a.dropUnique.Some? then [DropConstraint(a.dropUnique.value)] else [])
    + (if a.setUnique then [AddUnique(UniqueOf(a.sqlName), a.sqlName)] else [])
    + (match a.setCheck
       case None => []
       case Some(check) =>
         [DropConstraintIfExists(CheckOf(a.sqlName))]
         + match check
           case None => []
           case Some(e) => [AddCheck(CheckOf(a.sqlName), a.sqlName, e)])
  }

  function EmitAlterColumn(a: ColumnAlter): seq<Statement> {
    SetStatements(a) + ConstraintStatements(a)
  }

  function DropStatements(names: seq<string>): seq<Statement> {
    if names == [] then [] else DropStatements(names[..|names| - 1]) + [DropColumn(names[|names| - 1])]
  }

  function RenameStatements(rs: seq<Rename>): seq<Statement> {
    if rs == [] then []
    else RenameStatements(rs[..|rs| - 1]) + [RenameColumn(rs[|rs| - 1].from, rs[|rs| - 1].to)]
  }

  function AddStatements(cols: seq<Column>): seq<Statement> {
    if cols == [] then [] else AddStatements(cols[..|cols| - 1]) + [AddColumn(cols[|cols| - 1])]
  }

  function AlterStatements(alters: seq<ColumnAlter>): seq<Statement> {
    if alters == [] then []
    else AlterStatements(alters[..|alters| - 1]) + EmitAlterColumn(alters[|alters| - 1])
  }

  /** The column part of PostgreSQL's ALTER TABLE statements: drops, renames, adds, alters. */
  function Statements(diff: TableDiff): seq<Statement> {
    DropStatements(diff.dropColumns) + RenameStatements(diff.renameColumns)
    + AddStatements(diff.addColumns) + AlterStatements(diff.alterColumns)
  }

  method EmitAlterTable(diff: TableDiff) returns (stmts: seq<Statement>)
    ensures stmts == Statements(diff)
  {
    hide EmitAlterColumn;
    stmts := [];
    var drops := diff.dropColumns;
    for i := 0 to |drops|
      invariant stmts == DropStatements(drops[..i])
    {
      assert drops[..i + 1][..i] == drops[..i];
      stmts := stmts + [DropColumn(drops[i])];
    }
    assert drops[..|drops|] == drops;
    ghost var done := stmts;
    var renames := diff.renameColumns;
    for i := 0 to |renames|
      invariant stmts == done + RenameStatements(renames[..i])
    {
      assert renames[..i + 1][..i] == renames[..i];
      stmts := stmts + [RenameColumn(renames[i].from, renames[i].to)];
    }
    assert renames[..|renames|] == renames;
    done := stmts;
    var adds := diff.addColumns;
    for i := 0 to |adds|
      invariant stmts == done + AddStatements(adds[..i])
    {
      assert adds[..i + 1][..i] == adds[..i];
      stmts := stmts + [AddColumn(adds[i])];
    }
    assert adds[..|adds|] == adds;
    done := stmts;
    var alters := diff.alterColumns;
    for i := 0 to |alters|
      invariant stmts == done + AlterStatements(alters[..i])
    {
      assert alters[..i + 1][..i] == alters[..i];
      stmts := stmts + EmitAlterColumn(alters[i]);
    }
    assert alters[..|alters|] == alters;
  }
}
