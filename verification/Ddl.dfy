/** Columns, the ALTER TABLE statements the differ emits, and what the statements do to the
    columns of a table. */
module Ddl {
  import opened Common

  datatype Default = NoDefault | Now | Literal(json: string)

  /** The parts of a manifest column that a migration acts on. `sqlType` is the dialect's type
      for the column; `solePrimary` says that the column alone is its table's primary key. */
  datatype Column = Column(
    tsName: string, sqlName: string, sqlType: string,
    nullable: bool, primary: bool, solePrimary: bool,
    defaultNow: bool, defaultValue: Option<string>,
    unique: bool, uniqueName: Option<string>, check: Option<string>)
  {
    function EffectiveNullable(): bool {
      if primary then false else nullable
    }

    function DefaultOf(): Default {
      if defaultNow then Now
      else match defaultValue case None => NoDefault case Some(v) => Literal(v)
    }

    /** What the column should look like in the database. */
    function Attrs(): Attributes {
      Attributes(sqlType, EffectiveNullable(), DefaultOf())
    }

    /** What a column definition in ADD COLUMN makes of it. */
    function AddedAttrs(): Attributes {
      Attributes(sqlType, nullable && !solePrimary, DefaultOf())
    }
  }

  datatype Attributes = Attributes(sqlType: string, nullable: bool, default: Default)

  /** How a statement comes by the name of a constraint: from the table's and the column's name,
      or from the manifest, which recorded it. */
  datatype ConstraintName = UniqueOf(column: string) | CheckOf(column: string) | Recorded(name: string)

  datatype Statement =
    | DropColumn(column: string)
    | RenameColumn(from: string, to: string)
    | AddColumn(definition: Column)
    | SetType(column: string, sqlType: string)
    | SetNullable(column: string, nullable: bool)
    | SetDefault(column: string, default: Default)
    | AddUnique(name: ConstraintName, column: string)
    | AddCheck(name: ConstraintName, column: string, expression: string)
    | DropConstraint(name: ConstraintName)
    | DropConstraintIfExists(name: ConstraintName)
  {
    predicate IsOnConstraint() {
      AddUnique? || AddCheck? || DropConstraint? || DropConstraintIfExists?
    }
  }

  ghost predicate DistinctTs(cols: seq<Column>) {
    forall i, j | 0 <= i < j < |cols| :: cols[i].tsName != cols[j].tsName
  }

  ghost predicate DistinctSql(cols: seq<Column>) {
    forall i, j | 0 <= i < j < |cols| :: cols[i].sqlName != cols[j].sqlName
  }

  /** Column names are distinct within a table, on both sides of the mapping. */
  ghost predicate Distinct(cols: seq<Column>) {
    DistinctTs(cols) && DistinctSql(cols)
  }

  // ----- Effect on what is stored per column -----

  /** Statements act alike on everything a table keeps per column: its attributes, or one row's
      cells. A reading says what a new column starts with and what a change of type,
      nullability or default does. */
  datatype Reading<!T> = Reading(added: Column -> T, update: (Statement, T) -> T)

  /** The cells after a statement, or None when the database rejects it. */
  function Exec<T>(stmt: Statement, cells: map<string, T>, r: Reading<T>): Option<map<string, T>> {
    match stmt
    case DropColumn(c) => if c in cells then Some(cells - {c}) else None
    case RenameColumn(from, to) =>
      if from in cells && to !in cells then Some((cells - {from})[to := cells[from]]) else None
    case AddColumn(col) => if col.sqlName in cells then None else Some(cells[col.sqlName := r.added(col)])
    case SetType(c, _) => if c in cells then Some(cells[c := r.update(stmt, cells[c])]) else None
    case SetNullable(c, _) => if c in cells then Some(cells[c := r.update(stmt, cells[c])]) else None
    case SetDefault(c, _) => if c in cells then Some(cells[c := r.update(stmt, cells[c])]) else None
    case AddUnique(_, c) => if c in cells then Some(cells) else None
    case AddCheck(_, c, _) => if c in cells then Some(cells) else None
    case DropConstraint(_) => Some(cells)
    case DropConstraintIfExists(_) => Some(cells)
  }

  function Run<T>(stmts: seq<Statement>, cells: map<string, T>, r: Reading<T>): Option<map<string, T>> {
    if stmts == [] then Some(cells)
    else match Exec(stmts[0], cells, r)
         case None => None
         case Some(cells') => Run(stmts[1..], cells', r)
  }

  lemma {:induction false} RunConcat<T>(a: seq<Statement>, b: seq<Statement>, cells: map<string, T>, r: Reading<T>)
    ensures Run(a + b, cells, r) ==
            match Run(a, cells, r) case None => None case Some(cells') => Run(b, cells', r)
  {
    if a == [] {
      assert a + b == b;
    } else {
      assert (a + b)[1..] == a[1..] + b;
      match Exec(a[0], cells, r)
      case None =>
      case Some(cells') => RunConcat(a[1..], b, cells', r);
    }
  }

  /** One more statement at the end. */
  lemma RunSnoc<T>(a: seq<Statement>, stmt: Statement, cells: map<string, T>, r: Reading<T>)
    ensures Run(a + [stmt], cells, r) ==
            match Run(a, cells, r) case None => None case Some(cells') => Exec(stmt, cells', r)
  {
    RunConcat(a, [stmt], cells, r);
  }

  ghost function CellsOf<T>(cols: seq<Column>, value: Column -> T): (m: map<string, T>)
    requires DistinctSql(cols)
    ensures forall c | c in cols :: c.sqlName in m && m[c.sqlName] == value(c)
    ensures forall s | s in m :: exists c :: c in cols && c.sqlName == s
  {
    map c | c in cols :: c.sqlName := value(c)
  }

  /** A table whose cells are those of `cols`, and no others. */
  lemma AreCellsOf<T>(m: map<string, T>, cols: seq<Column>, value: Column -> T)
    requires DistinctSql(cols)
    requires forall c | c in cols :: c.sqlName in m && m[c.sqlName] == value(c)
    requires forall s | s in m :: exists c :: c in cols && c.sqlName == s
    ensures m == CellsOf(cols, value)
  {
    assert m.Keys == CellsOf(cols, value).Keys;
  }

  /** Cells that keep their value under every statement but a drop; `fill` gives the cell of an
      added column. */
  function Cells<T>(fill: Column -> T): Reading<T> {
    Reading(fill, (s, v) => v)
  }

  // ----- The columns' attributes -----

  type Columns = map<string, Attributes>

  function AttrsOf(c: Column): Attributes {
    c.Attrs()
  }

  function AddedAttrsOf(c: Column): Attributes {
    c.AddedAttrs()
  }

  function UpdateAttrs(stmt: Statement, a: Attributes): Attributes {
    match stmt
    case SetType(_, t) => a.(sqlType := t)
    case SetNullable(_, b) => a.(nullable := b)
    case SetDefault(_, d) => a.(default := d)
    case _ => a
  }

  function Schema(): Reading<Attributes> {
    Reading(AddedAttrsOf, UpdateAttrs)
  }

  function ExecColumns(stmt: Statement, cols: Columns): Option<Columns> {
    Exec(stmt, cols, Schema())
  }

  function RunColumns(stmts: seq<Statement>, cols: Columns): Option<Columns> {
    Run(stmts, cols, Schema())
  }

  ghost function ColumnsOf(cols: seq<Column>): Columns
    requires DistinctSql(cols)
  {
    CellsOf(cols, AttrsOf)
  }
}
