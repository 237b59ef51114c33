/** The UNIQUE and CHECK constraints of a table through the whole diff, each under the name it has
    in the database. The source derives names from the table's and the column's, or takes a
    recorded one; the database keeps whatever name a constraint got, also when its column is
    renamed. */
module ConstraintDiff {
  import opened Common
  import opened Ddl
  import opened ColumnDiff
  import opened ColumnPhases
  import opened ColumnsReached
  import opened MigrationSql

  // ----- Tables and their constraints -----

  type Row = map<string, string>

  /** Renaming a column rewrites the text of a check and keeps the rows that the check lets in. */
  datatype Constraint = Unique | Check(lets: iset<Row>)

  type Own = map<string, Constraint>

  /** The constraints that a column's definition asks for, by column and name, and the names of
      all other constraints with the columns those are over. */
  datatype Table = Table(cols: map<string, Own>, wide: map<string, set<string>>)

  /** The table's name, the names that the database picks for the constraints of ADD COLUMN, and
      the rows that the text of a column's check lets in. */
  datatype Setting = Setting(
    table: string, uniquePick: Column -> string, checkPick: Column -> string, lets: (string, string) -> iset<Row>)

  function NameIn(table: string, name: ConstraintName): string {
    match name
    case UniqueOf(c) => table + "_" + c + "_key"
    case CheckOf(c) => table + "_" + c + "_check"
    case Recorded(recorded) => recorded
  }

  /** A sole primary key column gets PRIMARY KEY and no UNIQUE. */
  ghost function OwnAdded(n: Column, s: Setting): Own {
    (if n.unique && !n.solePrimary then map[s.uniquePick(n) := Unique] else map[])
    + match n.check case None => map[] case Some(e) => map[s.checkPick(n) := Check(s.lets(n.sqlName, e))]
  }

  ghost function AddedIn(s: Setting): Column -> Own {
    n => OwnAdded(n, s)
  }

  ghost predicate Taken(t: Table, name: string) {
    name in t.wide || exists c :: c in t.cols && name in t.cols[c]
  }

  ghost function Remove(t: Table, name: string): Table {
    Table(map c | c in t.cols :: t.cols[c] - {name}, t.wide - {name})
  }

  /** The other constraints after a statement on columns: a dropped column takes those over it. */
  function WideAfter(stmt: Statement, wide: map<string, set<string>>): map<string, set<string>> {
    match stmt
    case DropColumn(c) => map x | x in wide && c !in wide[x] :: wide[x]
    case RenameColumn(from, to) =>
      map x | x in wide :: if from in wide[x] then wide[x] - {from} + {to} else wide[x]
    case _ => wide
  }

  ghost function With(t: Table, column: string, own: Own): Table {
    t.(cols := t.cols[column := own])
  }

  /** The constraints after a statement, or None when PostgreSQL rejects it. */
  ghost function ExecTable(stmt: Statement, t: Table, s: Setting): Option<Table> {
    match stmt
    case AddUnique(name, c) =>
      if c !in t.cols || Taken(t, NameIn(s.table, name)) then None
      else Some(With(t, c, t.cols[c][NameIn(s.table, name) := Unique]))
    case AddCheck(name, c, e) =>
      if c !in t.cols || Taken(t, NameIn(s.table, name)) then None
      else Some(With(t, c, t.cols[c][NameIn(s.table, name) := Check(s.lets(c, e))]))
    case DropConstraint(name) =>
      if Taken(t, NameIn(s.table, name)) then Some(Remove(t, NameIn(s.table, name))) else None
    case DropConstraintIfExists(name) => Some(Remove(t, NameIn(s.table, name)))
    case _ =>
      match Exec(stmt, t.cols, Cells(AddedIn(s)))
      case None => None
      case Some(cols) => Some(Table(cols, WideAfter(stmt, t.wide)))
  }

  ghost function RunTable(stmts: seq<Statement>, t: Table, s: Setting): Option<Table> {
    if stmts == [] then Some(t)
    else match ExecTable(stmts[0], t, s)
         case None => None
         case Some(t') => RunTable(stmts[1..], t', s)
  }

  // ----- What a manifest asks for -----

  ghost predicate HasUnique(own: Own) {
    exists name :: name in own && own[name].Unique?
  }

  ghost predicate LetsIn(own: Own, row: Row) {
    forall name | name in own && own[name].Check? :: row in own[name].lets
  }

  ghost predicate Asks(n: Column, lets: (string, string) -> iset<Row>, row: Row) {
    n.check.Some? ==> row in lets(n.sqlName, n.check.value)
  }

  ghost predicate UniqueAsAsked(own: Own, n: Column) {
    n.solePrimary || (HasUnique(own) <==> n.unique)
  }

  ghost predicate ChecksAsAsked(own: Own, n: Column, lets: (string, string) -> iset<Row>) {
    forall row :: LetsIn(own, row) <==> Asks(n, lets, row)
  }

  /** The column is held to what its manifest entry asks for, and to nothing else, whatever its
      constraints are called and however many checks say it together. */
  ghost predicate AsAsked(own: Own, n: Column, lets: (string, string) -> iset<Row>) {
    UniqueAsAsked(own, n) && ChecksAsAsked(own, n, lets)
  }

  ghost predicate AllAsAsked(t: Table, cols: seq<Column>, lets: (string, string) -> iset<Row>) {
    && (forall n | n in cols :: n.sqlName in t.cols && AsAsked(t.cols[n.sqlName], n, lets))
    && (forall c | c in t.cols :: exists n :: n in cols && n.sqlName == c)
  }

  // ----- Names -----

  predicate Loses(p: Column, n: Column) {
    p.unique && !n.unique
  }

  predicate Gains(p: Column, n: Column) {
    !p.unique && n.unique
  }

  predicate Rechecked(p: Column, n: Column) {
    p.check != n.check
  }

  function DropName(s: Setting, p: Column): string {
    NameIn(s.table, UniqueNameOf(p))
  }

  function KeyName(s: Setting, n: Column): string {
    NameIn(s.table, UniqueOf(n.sqlName))
  }

  function CheckName(s: Setting, n: Column): string {
    NameIn(s.table, CheckOf(n.sqlName))
  }

  lemma InnerText(a: string, b: string, c: string)
    ensures (a + b + c)[|a|..|a| + |b|] == b
  {
  }

  /** Derived names differ whenever their columns or their kinds do. */
  lemma DerivedApart(s: Setting, m: Column, n: Column)
    ensures KeyName(s, m) != CheckName(s, n)
    ensures m.sqlName != n.sqlName ==> KeyName(s, m) != KeyName(s, n) && CheckName(s, m) != CheckName(s, n)
  {
    var key, check := KeyName(s, m), CheckName(s, n);
    assert key[|key| - 1] == 'y' && check[|check| - 1] == 'k';
    InnerText(s.table + "_", m.sqlName, "_key");
    InnerText(s.table + "_", n.sqlName, "_key");
    InnerText(s.table + "_", m.sqlName, "_check");
    InnerText(s.table + "_", n.sqlName, "_check");
  }

  // ----- Runs -----

  lemma {:induction false} RunTableConcat(a: seq<Statement>, b: seq<Statement>, t: Table, s: Setting)
    ensures RunTable(a + b, t, s) == match RunTable(a, t, s) case None => None case Some(t') => RunTable(b, t', s)
  {
    hide ExecTable;
    if a == [] {
      assert a + b == b;
    } else {
      assert (a + b)[1..] == a[1..] + b;
      match ExecTable(a[0], t, s)
      case None =>
      case Some(t') => RunTableConcat(a[1..], b, t', s);
    }
  }

  lemma {:induction false} RunOne(stmt: Statement, t: Table, s: Setting)
    ensures RunTable([stmt], t, s) == ExecTable(stmt, t, s)
  {
    hide ExecTable;
    assert [stmt][1..] == [];
  }

  function RunWide(stmts: seq<Statement>, wide: map<string, set<string>>): map<string, set<string>> {
    if stmts == [] then wide else RunWide(stmts[1..], WideAfter(stmts[0], wide))
  }

  /** Statements on columns act on constraints as on everything a table keeps per column. */
  lemma {:induction false} RunOnColumns(stmts: seq<Statement>, t: Table, s: Setting)
    requires forall stmt | stmt in stmts :: !stmt.IsOnConstraint()
    ensures RunTable(stmts, t, s) ==
            match Run(stmts, t.cols, Cells(AddedIn(s)))
            case None => None
            case Some(cols) => Some(Table(cols, RunWide(stmts, t.wide)))
  {
    hide Exec, WideAfter, AddedIn, Cells;
    if stmts != [] {
      assert stmts[0] in stmts;
      match Exec(stmts[0], t.cols, Cells(AddedIn(s)))
      case None =>
      case Some(cols) => RunOnColumns(stmts[1..], Table(cols, WideAfter(stmts[0], t.wide)), s);
    }
  }

  lemma {:induction false} RunWideConcat(a: seq<Statement>, b: seq<Statement>, wide: map<string, set<string>>)
    ensures RunWide(a + b, wide) == RunWide(b, RunWide(a, wide))
  {
    hide WideAfter;
    if a == [] {
      assert a + b == b;
    } else {
      assert (a + b)[1..] == a[1..] + b;
      RunWideConcat(a[1..], b, WideAfter(a[0], wide));
    }
  }

  // ----- One paired column -----

  function UniqueStatements(p: Column, n: Column): seq<Statement> {
    (if Loses(p, n) then [DropConstraint(UniqueNameOf(p))] else [])
    + (if Gains(p, n) then [AddUnique(UniqueOf(n.sqlName), n.sqlName)] else [])
  }

  function CheckStatements(p: Column, n: Column): seq<Statement> {
    if !Rechecked(p, n) then []
    else [DropConstraintIfExists(CheckOf(n.sqlName))]
         + match n.check case None => [] case Some(e) => [AddCheck(CheckOf(n.sqlName), n.sqlName, e)]
  }

  lemma {:induction false} StatementsAre(p: Column, n: Column)
    ensures match BuildColumnAlter(p, n, n.sqlName)
            case None => UniqueStatements(p, n) + CheckStatements(p, n) == []
            case Some(a) => ConstraintStatements(a) == UniqueStatements(p, n) + CheckStatements(p, n)
  {
  }

  ghost function AfterUnique(own: Own, p: Column, n: Column, s: Setting): Own {
    if Loses(p, n) then own - {DropName(s, p)}
    else if Gains(p, n) then own[KeyName(s, n) := Unique]
    else own
  }

  ghost function AfterCheck(own: Own, p: Column, n: Column, s: Setting): Own {
    if !Rechecked(p, n) then own
    else match n.check
         case None => own - {CheckName(s, n)}
         case Some(e) => (own - {CheckName(s, n)})[CheckName(s, n) := Check(s.lets(n.sqlName, e))]
  }

  ghost function After(own: Own, p: Column, n: Column, s: Setting): Own {
    AfterCheck(AfterUnique(own, p, n, s), p, n, s)
  }

  /** Nothing outside this column's constraints is called this. */
  ghost predicate Alone(t: Table, column: string, name: string) {
    name !in t.wide && forall c | c in t.cols && c != column :: name !in t.cols[c]
  }

  lemma {:induction false} RemoveOwn(t: Table, column: string, name: string)
    requires column in t.cols && Alone(t, column, name)
    ensures Remove(t, name) == With(t, column, t.cols[column] - {name})
    ensures Taken(t, name) <==> name in t.cols[column]
    ensures Alone(With(t, column, t.cols[column] - {name}), column, name)
  {
    forall c | c in t.cols && c != column ensures t.cols[c] - {name} == t.cols[c] {
      assert name !in t.cols[c];
    }
    assert t.wide - {name} == t.wide;
    assert Remove(t, name).cols == With(t, column, t.cols[column] - {name}).cols;
  }

  ghost predicate UniqueAccepted(t: Table, p: Column, n: Column, s: Setting)
    requires n.sqlName in t.cols
  {
    (Loses(p, n) ==> DropName(s, p) in t.cols[n.sqlName]) && (Gains(p, n) ==> !Taken(t, KeyName(s, n)))
  }

  lemma {:induction false} UniqueRuns(t: Table, p: Column, n: Column, s: Setting)
    requires n.sqlName in t.cols && (Loses(p, n) ==> Alone(t, n.sqlName, DropName(s, p)))
    ensures RunTable(UniqueStatements(p, n), t, s) ==
            if UniqueAccepted(t, p, n, s) then Some(With(t, n.sqlName, AfterUnique(t.cols[n.sqlName], p, n, s)))
            else None
  {
    hide Remove, Taken, Alone;
    if Loses(p, n) {
      var drop := DropConstraint(UniqueNameOf(p));
      assert UniqueStatements(p, n) == [drop];
      RemoveOwn(t, n.sqlName, DropName(s, p));
      RunOne(drop, t, s);
    } else if Gains(p, n) {
      var add := AddUnique(UniqueOf(n.sqlName), n.sqlName);
      assert UniqueStatements(p, n) == [add];
      RunOne(add, t, s);
    } else {
      assert UniqueStatements(p, n) == [];
      assert t.cols[n.sqlName := t.cols[n.sqlName]] == t.cols;
    }
  }

  lemma {:induction false} CheckRuns(t: Table, p: Column, n: Column, s: Setting)
    requires n.sqlName in t.cols && (Rechecked(p, n) ==> Alone(t, n.sqlName, CheckName(s, n)))
    ensures RunTable(CheckStatements(p, n), t, s) == Some(With(t, n.sqlName, AfterCheck(t.cols[n.sqlName], p, n, s)))
  {
    hide Remove, Taken, Alone;
    var own := t.cols[n.sqlName];
    if !Rechecked(p, n) {
      assert t.cols[n.sqlName := own] == t.cols;
    } else {
      var name := CheckName(s, n);
      var drop := DropConstraintIfExists(CheckOf(n.sqlName));
      var dropped := With(t, n.sqlName, own - {name});
      RemoveOwn(t, n.sqlName, name);
      RunOne(drop, t, s);
      if n.check.Some? {
        var add := AddCheck(CheckOf(n.sqlName), n.sqlName, n.check.value);
        RemoveOwn(dropped, n.sqlName, name);
        RunOne(add, dropped, s);
        RunTableConcat([drop], [add], t, s);
        assert With(dropped, n.sqlName, AfterCheck(own, p, n, s)) == With(t, n.sqlName, AfterCheck(own, p, n, s));
      }
    }
  }

  lemma {:induction false} StillAlone(t: Table, column: string, name: string, own: Own)
    requires column in t.cols && Alone(t, column, name)
    ensures Alone(With(t, column, own), column, name)
  {
  }

  /** The alter of a paired column is accepted exactly when the unique constraint it drops is
      there under that name and the one it adds finds its name free, whatever the column's
      constraints are called; then it changes that column's constraints and no others. */
  lemma {:induction false} AlterRuns(t: Table, p: Column, n: Column, s: Setting)
    requires n.sqlName in t.cols && (Loses(p, n) ==> Alone(t, n.sqlName, DropName(s, p)))
    requires Rechecked(p, n) ==> Alone(t, n.sqlName, CheckName(s, n))
    ensures RunTable(UniqueStatements(p, n) + CheckStatements(p, n), t, s) ==
            if UniqueAccepted(t, p, n, s) then Some(With(t, n.sqlName, After(t.cols[n.sqlName], p, n, s))) else None
  {
    hide UniqueStatements, CheckStatements, AfterUnique, AfterCheck, Alone, UniqueAccepted;
    UniqueRuns(t, p, n, s);
    RunTableConcat(UniqueStatements(p, n), CheckStatements(p, n), t, s);
    if UniqueAccepted(t, p, n, s) {
      var middle := With(t, n.sqlName, AfterUnique(t.cols[n.sqlName], p, n, s));
      if Rechecked(p, n) {
        StillAlone(t, n.sqlName, CheckName(s, n), AfterUnique(t.cols[n.sqlName], p, n, s));
      }
      CheckRuns(middle, p, n, s);
      assert With(middle, n.sqlName, After(t.cols[n.sqlName], p, n, s))
          == With(t, n.sqlName, After(t.cols[n.sqlName], p, n, s));
    }
  }

  // ----- What the column is held to afterwards -----

  /** Whether the uniqueness comes out as asked: the column keeps or gets a UNIQUE constraint, or
      the one that is dropped was its only one. */
  ghost predicate UniqueRight(own: Own, p: Column, n: Column, s: Setting) {
    || n.solePrimary
    || if n.unique then Gains(p, n) || HasUnique(own)
       else forall name | name in own && own[name].Unique? :: Loses(p, n) && name == DropName(s, p)
  }

  ghost predicate OthersLet(own: Own, n: Column, s: Setting, row: Row) {
    forall name | name in own && own[name].Check? && name != CheckName(s, n) :: row in own[name].lets
  }

  /** Whether the checks come out as asked: an unchanged text lets in what it did, and with a
      changed one every check that stands under another name than the derived one follows from
      the new one. */
  ghost predicate CheckRight(own: Own, p: Column, n: Column, s: Setting, was: (string, string) -> iset<Row>) {
    if !Rechecked(p, n) then p.check.Some? ==> was(p.sqlName, p.check.value) == s.lets(n.sqlName, p.check.value)
    else forall row | Asks(n, s.lets, row) :: OthersLet(own, n, s, row)
  }

  /** A constraint of the column that its alter drops is of the kind that is meant. */
  ghost predicate KindsMeant(own: Own, p: Column, n: Column, s: Setting) {
    && (Loses(p, n) && DropName(s, p) in own ==> own[DropName(s, p)].Unique?)
    && (Rechecked(p, n) && CheckName(s, n) in own ==> own[CheckName(s, n)].Check?)
  }

  lemma {:induction false} UniqueAfter(own: Own, p: Column, n: Column, s: Setting)
    requires KindsMeant(own, p, n, s)
    requires (Loses(p, n) ==> DropName(s, p) in own) && (Gains(p, n) ==> KeyName(s, n) !in own)
    ensures UniqueAsAsked(After(own, p, n, s), n) <==> UniqueRight(own, p, n, s)
  {
    DerivedApart(s, n, n);
    var after := After(own, p, n, s);
    if Gains(p, n) {
      assert KeyName(s, n) in after && after[KeyName(s, n)].Unique?;
    } else {
      forall name | name in own && own[name].Unique? && !(Loses(p, n) && name == DropName(s, p))
        ensures name in after && after[name].Unique?
      {
      }
      forall name | name in after && after[name].Unique?
        ensures name in own && own[name].Unique? && !(Loses(p, n) && name == DropName(s, p))
      {
      }
    }
  }

  lemma {:induction false} CheckKept(own: Own, p: Column, n: Column, s: Setting, name: string)
    requires KindsMeant(own, p, n, s) && (Gains(p, n) ==> KeyName(s, n) !in own)
    requires Rechecked(p, n) ==> name != CheckName(s, n)
    ensures var after := After(own, p, n, s);
            name in after && after[name].Check? <==> name in own && own[name].Check?
    ensures name in own && own[name].Check? ==> After(own, p, n, s)[name] == own[name]
  {
  }

  lemma {:induction false} ChecksAfter(own: Own, p: Column, n: Column, s: Setting, row: Row)
    requires KindsMeant(own, p, n, s) && (Gains(p, n) ==> KeyName(s, n) !in own)
    ensures LetsIn(After(own, p, n, s), row) <==>
            if !Rechecked(p, n) then LetsIn(own, row)
            else Asks(n, s.lets, row) && OthersLet(own, n, s, row)
  {
    var after, mine := After(own, p, n, s), CheckName(s, n);
    forall name | !Rechecked(p, n) || name != mine
      ensures name in after && after[name].Check? <==> name in own && own[name].Check?
      ensures name in own && own[name].Check? ==> after[name] == own[name]
    {
      CheckKept(own, p, n, s, name);
    }
    if Rechecked(p, n) {
      assert n.check.None? ==> mine !in after;
      assert n.check.Some? ==> mine in after && after[mine] == Check(s.lets(n.sqlName, n.check.value));
    }
  }

  /** A paired column's constraints end as asked exactly when its alter hits the right ones. */
  lemma {:induction false} AfterIsAsAsked(own: Own, p: Column, n: Column, s: Setting,
                                          was: (string, string) -> iset<Row>)
    requires AsAsked(own, p, was) && KindsMeant(own, p, n, s)
    requires (Loses(p, n) ==> DropName(s, p) in own) && (Gains(p, n) ==> KeyName(s, n) !in own)
    ensures UniqueAsAsked(After(own, p, n, s), n) <==> UniqueRight(own, p, n, s)
    ensures ChecksAsAsked(After(own, p, n, s), n, s.lets) <==> CheckRight(own, p, n, s, was)
  {
    UniqueAfter(own, p, n, s);
    hide After, UniqueAsAsked, UniqueRight, LetsIn, KindsMeant, OthersLet;
    forall row ensures LetsIn(After(own, p, n, s), row) <==>
            if !Rechecked(p, n) then LetsIn(own, row)
            else Asks(n, s.lets, row) && OthersLet(own, n, s, row)
    {
      ChecksAfter(own, p, n, s, row);
    }
    if !Rechecked(p, n) {
      forall row ensures LetsIn(own, row) <==> Asks(p, was, row) {}
      if p.check.Some? {
        var before, after := was(p.sqlName, p.check.value), s.lets(n.sqlName, p.check.value);
        if ChecksAsAsked(After(own, p, n, s), n, s.lets) {
          forall row ensures row in before <==> row in after {
            assert LetsIn(own, row) <==> Asks(p, was, row);
            assert LetsIn(After(own, p, n, s), row) <==> Asks(n, s.lets, row);
          }
          assert before == after;
        }
      }
    }
  }

  lemma {:induction false} AddedIsAsAsked(n: Column, s: Setting)
    requires s.uniquePick(n) != s.checkPick(n)
    ensures AsAsked(OwnAdded(n, s), n, s.lets)
  {
    var own := OwnAdded(n, s);
    if n.unique && !n.solePrimary {
      assert s.uniquePick(n) in own && own[s.uniquePick(n)].Unique?;
    }
    forall row ensures LetsIn(own, row) <==> Asks(n, s.lets, row) {
      if n.check.Some? {
        assert s.checkPick(n) in own && own[s.checkPick(n)] == Check(s.lets(n.sqlName, n.check.value));
      }
    }
  }

  // ----- The whole table -----

  function OwnIn(t: Table): Column -> Own {
    (p: Column) => if p.sqlName in t.cols then t.cols[p.sqlName] else map[]
  }

  /** What stands on a next column once drops, renames and adds are done, and after its alter. */
  ghost function Standing(start: Table, prev: seq<Column>, n: Column, s: Setting, altered: bool): Own {
    if !IsPaired(prev, n) then OwnAdded(n, s)
    else if altered then After(OwnIn(start)(PairOf(prev, n)), PairOf(prev, n), n, s)
    else OwnIn(start)(PairOf(prev, n))
  }

  /** The names of the other constraints over columns that are kept. */
  ghost function WideLeft(start: Table, prev: seq<Column>, next: seq<Column>): set<string> {
    set x | x in start.wide && forall p | p in prev && IsDropped(p, next) :: p.sqlName !in start.wide[x]
  }

  /** A name that the alter of a next column adds. */
  ghost predicate Gets(prev: seq<Column>, n: Column, s: Setting, name: string) {
    && IsPaired(prev, n)
    && (|| (Gains(PairOf(prev, n), n) && name == KeyName(s, n))
        || (Rechecked(PairOf(prev, n), n) && name == CheckName(s, n)))
  }

  /** No constraint of another column, and none over several, is called this; nor has an earlier
      alter added one that is. */
  ghost predicate OwnName(start: Table, prev: seq<Column>, next: seq<Column>, s: Setting, k: nat, name: string)
    requires k < |next|
  {
    && name !in WideLeft(start, prev, next)
    && (forall j | 0 <= j < |next| && j != k :: name !in Standing(start, prev, next[j], s, false))
    && (forall j | 0 <= j < k :: !Gets(prev, next[j], s, name))
  }

  /** What an alter drops by name is its own column's and of the kind that is meant, or not there. */
  ghost predicate DropsOwn(start: Table, prev: seq<Column>, next: seq<Column>, s: Setting, k: nat)
    requires k < |next|
  {
    IsPaired(prev, next[k]) ==>
      var n := next[k];
      var p := PairOf(prev, n);
      && KindsMeant(OwnIn(start)(p), p, n, s)
      && (Loses(p, n) ==> OwnName(start, prev, next, s, k, DropName(s, p)))
      && (Rechecked(p, n) ==> OwnName(start, prev, next, s, k, CheckName(s, n)))
  }

  ghost predicate AllDropOwn(start: Table, prev: seq<Column>, next: seq<Column>, s: Setting) {
    forall k | 0 <= k < |next| :: DropsOwn(start, prev, next, s, k)
  }

  /** Column `j` has a unique constraint of this name and gives it up. */
  ghost predicate GivesUp(prev: seq<Column>, n: Column, s: Setting, name: string) {
    IsPaired(prev, n) && Loses(PairOf(prev, n), n) && DropName(s, PairOf(prev, n)) == name
  }

  /** The name derived for a next column's unique constraint is free when its turn comes: nothing
      has it, or a column that comes earlier in the next table gives it up. */
  ghost predicate KeyFits(start: Table, prev: seq<Column>, next: seq<Column>, s: Setting, k: nat)
    requires k < |next|
  {
    && KeyName(s, next[k]) !in WideLeft(start, prev, next)
    && forall j | 0 <= j < |next| && KeyName(s, next[k]) in Standing(start, prev, next[j], s, false) ::
         j < k && GivesUp(prev, next[j], s, KeyName(s, next[k]))
  }

  ghost predicate Accepted(start: Table, prev: seq<Column>, next: seq<Column>, s: Setting, k: nat)
    requires k < |next|
  {
    IsPaired(prev, next[k]) ==>
      var n := next[k];
      var p := PairOf(prev, n);
      (Loses(p, n) ==> DropName(s, p) in OwnIn(start)(p)) && (Gains(p, n) ==> KeyFits(start, prev, next, s, k))
  }

  ghost predicate AllAccepted(start: Table, prev: seq<Column>, next: seq<Column>, s: Setting, k: nat)
    requires k <= |next|
  {
    forall i | 0 <= i < k :: Accepted(start, prev, next, s, i)
  }

  /** The first `k` next columns have had their alter, the others not yet. */
  ghost predicate Reached(t: Table, start: Table, prev: seq<Column>, next: seq<Column>, s: Setting, k: nat) {
    && (forall i | 0 <= i < |next| ::
          next[i].sqlName in t.cols && t.cols[next[i].sqlName] == Standing(start, prev, next[i], s, i < k))
    && (forall c | c in t.cols :: exists i :: 0 <= i < |next| && next[i].sqlName == c)
    && t.wide.Keys == WideLeft(start, prev, next)
  }

  lemma {:induction false} AfterNames(own: Own, p: Column, n: Column, s: Setting, name: string)
    ensures name in After(own, p, n, s) ==>
              || name in own
              || (Gains(p, n) && name == KeyName(s, n))
              || (Rechecked(p, n) && name == CheckName(s, n))
    ensures name in own && name != CheckName(s, n) && !(Loses(p, n) && name == DropName(s, p)) ==>
              name in After(own, p, n, s)
    ensures Loses(p, n) && name == DropName(s, p) && name != CheckName(s, n) ==> name !in After(own, p, n, s)
  {
  }

  /** What is called so before or after a column's alter. */
  lemma {:induction false} StandingNames(start: Table, prev: seq<Column>, n: Column, s: Setting, altered: bool,
                                         name: string)
    ensures name in Standing(start, prev, n, s, altered) ==>
              name in Standing(start, prev, n, s, false) || (altered && Gets(prev, n, s, name))
    ensures name != CheckName(s, n) && !(altered && GivesUp(prev, n, s, name)) ==>
              (name in Standing(start, prev, n, s, false) ==> name in Standing(start, prev, n, s, altered))
    ensures altered && GivesUp(prev, n, s, name) && name != CheckName(s, n) ==>
              name !in Standing(start, prev, n, s, altered)
  {
    hide After, OwnIn;
    if IsPaired(prev, n) {
      AfterNames(OwnIn(start)(PairOf(prev, n)), PairOf(prev, n), n, s, name);
    }
  }

  lemma {:induction false} OwnNameAlone(t: Table, start: Table, prev: seq<Column>, next: seq<Column>, s: Setting,
                                        k: nat, name: string)
    requires k < |next| && Reached(t, start, prev, next, s, k) && OwnName(start, prev, next, s, k, name)
    ensures Alone(t, next[k].sqlName, name)
  {
    hide Standing, Gets, WideLeft;
    forall c | c in t.cols && c != next[k].sqlName ensures name !in t.cols[c] {
      var i :| 0 <= i < |next| && next[i].sqlName == c;
      assert t.cols[c] == Standing(start, prev, next[i], s, i < k);
      StandingNames(start, prev, next[i], s, i < k, name);
    }
  }

  /** A next column's derived name is taken by another before or after that one's alter. */
  lemma {:induction false} KeyAt(start: Table, prev: seq<Column>, next: seq<Column>, s: Setting, k: nat, i: nat)
    requires DistinctSql(next) && k < |next| && i < |next|
    ensures KeyName(s, next[k]) in Standing(start, prev, next[i], s, i < k) <==>
            && KeyName(s, next[k]) in Standing(start, prev, next[i], s, false)
            && !(i < k && GivesUp(prev, next[i], s, KeyName(s, next[k])))
  {
    hide Standing, KeyName, CheckName;
    DerivedApart(s, next[k], next[i]);
    StandingNames(start, prev, next[i], s, i < k, KeyName(s, next[k]));
  }

  lemma {:induction false} KeyTaken(t: Table, start: Table, prev: seq<Column>, next: seq<Column>, s: Setting, k: nat)
    requires DistinctSql(next) && k < |next| && Reached(t, start, prev, next, s, k)
    ensures Taken(t, KeyName(s, next[k])) <==> !KeyFits(start, prev, next, s, k)
  {
    hide Standing, WideLeft, GivesUp, KeyName;
    var key := KeyName(s, next[k]);
    forall i | 0 <= i < |next|
      ensures key in t.cols[next[i].sqlName] <==>
              key in Standing(start, prev, next[i], s, false) && !(i < k && GivesUp(prev, next[i], s, key))
    {
      KeyAt(start, prev, next, s, k, i);
    }
    if Taken(t, key) && key !in t.wide {
      var c :| c in t.cols && key in t.cols[c];
      var i :| 0 <= i < |next| && next[i].sqlName == c;
    }
  }

  // ----- The alters, one next column after the other -----

  lemma {:induction false} SetsKeep(a: ColumnAlter, t: Table, s: Setting)
    requires a.sqlName in t.cols
    ensures RunTable(SetStatements(a), t, s) == Some(t)
  {
    var x := if a.setType.Some? then [SetType(a.sqlName, a.setType.value)] else [];
    var y := if a.setNullable.Some? then [SetNullable(a.sqlName, a.setNullable.value)] else [];
    var z := if a.setDefault.Some? then [SetDefault(a.sqlName, a.setDefault.value)] else [];
    assert t.cols[a.sqlName := t.cols[a.sqlName]] == t.cols;
    if a.setType.Some? { RunOne(x[0], t, s); }
    if a.setNullable.Some? { RunOne(y[0], t, s); }
    if a.setDefault.Some? { RunOne(z[0], t, s); }
    hide ExecTable;
    RunTableConcat(x, y, t, s);
    RunTableConcat(x + y, z, t, s);
  }

  /** The statements emitted for one next column. */
  function StepStatements(step: seq<ColumnAlter>): seq<Statement>
    requires |step| <= 1
  {
    if step == [] then [] else EmitAlterColumn(step[0])
  }

  lemma AlterIsNamed(p: Column, n: Column)
    ensures var step := BuildColumnAlter(p, n, n.sqlName); step.Some? ==> step.value.sqlName == n.sqlName
  {
  }

  lemma {:induction false} PairAlterRuns(t: Table, p: Column, n: Column, s: Setting)
    requires n.sqlName in t.cols
    ensures var step := BuildColumnAlter(p, n, n.sqlName);
            RunTable(if step.None? then [] else EmitAlterColumn(step.value), t, s)
            == RunTable(UniqueStatements(p, n) + CheckStatements(p, n), t, s)
  {
    StatementsAre(p, n);
    hide UniqueStatements, CheckStatements, SetStatements, ConstraintStatements;
    var step := BuildColumnAlter(p, n, n.sqlName);
    if step.Some? {
      AlterIsNamed(p, n);
      hide BuildColumnAlter;
      SetsKeep(step.value, t, s);
      RunTableConcat(SetStatements(step.value), ConstraintStatements(step.value), t, s);
    }
  }

  lemma ReachedAt(t: Table, start: Table, prev: seq<Column>, next: seq<Column>, s: Setting, k: nat)
    requires Reached(t, start, prev, next, s, k) && k < |next|
    ensures next[k].sqlName in t.cols && t.cols[next[k].sqlName] == Standing(start, prev, next[k], s, false)
  {
  }

  lemma {:induction false} ReachedNext(t: Table, start: Table, prev: seq<Column>, next: seq<Column>, s: Setting, k: nat)
    requires Reached(t, start, prev, next, s, k) && DistinctSql(next) && k < |next|
    ensures Reached(With(t, next[k].sqlName, Standing(start, prev, next[k], s, true)), start, prev, next, s, k + 1)
  {
    hide Standing, WideLeft;
  }

  lemma {:induction false} AlterOfRuns(t: Table, start: Table, prev: seq<Column>, next: seq<Column>, s: Setting, k: nat)
    requires Reached(t, start, prev, next, s, k) && DistinctSql(next) && k < |next|
    requires DropsOwn(start, prev, next, s, k)
    ensures var n := next[k];
            n.sqlName in t.cols && |AlterOf(prev, n)| <= 1 && RunTable(StepStatements(AlterOf(prev, n)), t, s) ==
            if Accepted(start, prev, next, s, k) then Some(With(t, n.sqlName, Standing(start, prev, n, s, true)))
            else None
  {
    var n := next[k];
    ReachedAt(t, start, prev, next, s, k);
    KeyTaken(t, start, prev, next, s, k);
    if IsPaired(prev, n) {
      var p := PairOf(prev, n);
      if Loses(p, n) { OwnNameAlone(t, start, prev, next, s, k, DropName(s, p)); }
      if Rechecked(p, n) { OwnNameAlone(t, start, prev, next, s, k, CheckName(s, n)); }
      hide Reached, KeyFits, OwnName, After, BuildColumnAlter, UniqueStatements, CheckStatements, OwnIn, Alone, Taken,
          KeyName, DropName, CheckName, KindsMeant, EmitAlterColumn;
      AlterRuns(t, p, n, s);
      PairAlterRuns(t, p, n, s);
    } else {
      hide Reached, KeyFits;
      assert t.cols[n.sqlName := t.cols[n.sqlName]] == t.cols;
    }
  }

  lemma {:induction false} AltersSnoc(t: Table, prev: seq<Column>, next: seq<Column>, s: Setting, k: nat)
    requires k < |next| && |AlterOf(prev, next[k])| <= 1
    ensures RunTable(AlterStatements(AltersOf(prev, next[..k + 1])), t, s) ==
            match RunTable(AlterStatements(AltersOf(prev, next[..k])), t, s)
            case None => None
            case Some(before) => RunTable(StepStatements(AlterOf(prev, next[k])), before, s)
  {
    hide AlterOf, EmitAlterColumn;
    assert next[..k + 1][..k] == next[..k];
    var alters, step := AltersOf(prev, next[..k]), AlterOf(prev, next[k]);
    if step == [] {
      assert alters + step == alters;
    } else {
      assert step == [step[0]] && (alters + step)[..|alters|] == alters;
      RunTableConcat(AlterStatements(alters), EmitAlterColumn(step[0]), t, s);
    }
  }

  lemma AcceptedSnoc(start: Table, prev: seq<Column>, next: seq<Column>, s: Setting, k: nat)
    requires k < |next|
    ensures AllAccepted(start, prev, next, s, k + 1) <==>
            AllAccepted(start, prev, next, s, k) && Accepted(start, prev, next, s, k)
  {
    hide Accepted;
  }

  /** The alters are accepted exactly when each is, and then every column has had its own. */
  lemma {:induction false} AltersRun(t: Table, start: Table, prev: seq<Column>, next: seq<Column>, s: Setting, k: nat)
    requires Reached(t, start, prev, next, s, 0) && DistinctSql(next) && AllDropOwn(start, prev, next, s)
    requires k <= |next|
    ensures var r := RunTable(AlterStatements(AltersOf(prev, next[..k])), t, s);
            && (r.Some? <==> AllAccepted(start, prev, next, s, k))
            && (r.Some? ==> Reached(r.value, start, prev, next, s, k))
  {
    hide Reached, DropsOwn, Accepted, Standing, StepStatements, AlterOf;
    if k > 0 {
      AltersRun(t, start, prev, next, s, k - 1);
      AlterOfShort(prev, next[k - 1]);
      AltersSnoc(t, prev, next, s, k - 1);
      AcceptedSnoc(start, prev, next, s, k - 1);
      hide AllAccepted, RunTable;
      var r := RunTable(AlterStatements(AltersOf(prev, next[..k - 1])), t, s);
      if r.Some? {
        AlterOfRuns(r.value, start, prev, next, s, k - 1);
        ReachedNext(r.value, start, prev, next, s, k - 1);
      }
    }
  }

  // ----- Drops, renames and adds -----

  lemma {:induction false} CellReached(renamed: map<string, Own>, cols: map<string, Own>, start: Table,
                                       prev: seq<Column>, next: seq<Column>, s: Setting, n: Column)
    requires Renamed(renamed, OwnIn(start), prev, next) && n in next && (IsPaired(prev, n) || IsAdded(prev, n))
    requires AfterAdds(cols, renamed, Cells(AddedIn(s)), prev, next, |next|)
    ensures n.sqlName in cols && cols[n.sqlName] == Standing(start, prev, n, s, false)
  {
    hide IsAdded, IsPaired, IsLeft, OwnIn, OwnAdded, After;
    assert next[..|next|] == next;
    if IsPaired(prev, n) {
      assert n.sqlName in renamed;
    }
  }

  lemma {:induction false} NameReached(renamed: map<string, Own>, cols: map<string, Own>, start: Table,
                                       prev: seq<Column>, next: seq<Column>, s: Setting, c: string)
    requires Renamed(renamed, OwnIn(start), prev, next) && c in cols && forall p | p in prev :: !IsLeft(p, next)
    requires AfterAdds(cols, renamed, Cells(AddedIn(s)), prev, next, |next|)
    ensures exists n :: n in next && n.sqlName == c
  {
    hide IsAdded, IsPaired, IsLeft, OwnIn, OwnAdded;
    assert next[..|next|] == next;
    assert c in renamed || exists n :: n in next[..|next|] && IsAdded(prev, n) && n.sqlName == c;
  }

  lemma {:induction false} PhasesReach(renamed: map<string, Own>, t: Table, start: Table, prev: seq<Column>,
                                       next: seq<Column>, s: Setting)
    requires NamesAgree(prev, next) && Renamed(renamed, OwnIn(start), prev, next)
    requires AfterAdds(t.cols, renamed, Cells(AddedIn(s)), prev, next, |next|)
    requires t.wide.Keys == WideLeft(start, prev, next)
    ensures Reached(t, start, prev, next, s, 0)
  {
    AgreeingOrders(prev, next);
    hide NamesAgree, IsAdded, IsPaired, IsLeft, Standing, Renamed, AfterAdds, WideLeft;
    forall i | 0 <= i < |next|
      ensures next[i].sqlName in t.cols && t.cols[next[i].sqlName] == Standing(start, prev, next[i], s, false)
    {
      CellReached(renamed, t.cols, start, prev, next, s, next[i]);
    }
    forall c | c in t.cols ensures exists i :: 0 <= i < |next| && next[i].sqlName == c {
      NameReached(renamed, t.cols, start, prev, next, s, c);
      var n :| n in next && n.sqlName == c;
      var i :| 0 <= i < |next| && next[i] == n;
    }
  }

  lemma {:induction false} WideDrops(names: seq<string>, wide: map<string, set<string>>)
    ensures var left := RunWide(DropStatements(names), wide);
            left == map x | x in wide && (forall c | c in names :: c !in wide[x]) :: wide[x]
  {
    if names != [] {
      var init, last := names[..|names| - 1], names[|names| - 1];
      assert names == init + [last];
      WideDrops(init, wide);
      RunWideConcat(DropStatements(init), [DropColumn(last)], wide);
      var left := RunWide(DropStatements(init), wide);
      assert [DropColumn(last)][1..] == [];
      assert RunWide([DropColumn(last)], left) == WideAfter(DropColumn(last), left);
    }
  }

  lemma {:induction false} WideKept(stmts: seq<Statement>, wide: map<string, set<string>>)
    requires forall stmt | stmt in stmts :: !stmt.DropColumn?
    ensures RunWide(stmts, wide).Keys == wide.Keys
  {
    if stmts != [] {
      assert stmts[0] in stmts && WideAfter(stmts[0], wide).Keys == wide.Keys;
      hide WideAfter;
      WideKept(stmts[1..], WideAfter(stmts[0], wide));
    }
  }

  lemma {:induction false} DroppedNames(cols: seq<Column>, next: seq<Column>, c: string)
    ensures c in DropsOf(cols, next) <==> exists p :: p in cols && IsDropped(p, next) && p.sqlName == c
  {
    hide IsDropped;
    if cols != [] {
      var init, last := cols[..|cols| - 1], cols[|cols| - 1];
      assert cols == init + [last];
      DroppedNames(init, next, c);
    }
  }

  /** After drops, renames and adds, the wide constraints left are those over no dropped column. */
  lemma {:induction false} PhasesLeaveWide(start: Table, prev: seq<Column>, next: seq<Column>,
                                           others: seq<Statement>)
    requires forall stmt | stmt in others :: !stmt.DropColumn?
    ensures RunWide(DropStatements(DropsOf(prev, next)) + others, start.wide).Keys == WideLeft(start, prev, next)
  {
    var drops := DropsOf(prev, next);
    RunWideConcat(DropStatements(drops), others, start.wide);
    WideDrops(drops, start.wide);
    WideKept(others, RunWide(DropStatements(drops), start.wide));
    forall x | x in start.wide
      ensures (forall c | c in drops :: c !in start.wide[x]) <==>
              forall p | p in prev && IsDropped(p, next) :: p.sqlName !in start.wide[x]
    {
      forall c ensures c in drops <==> exists p :: p in prev && IsDropped(p, next) && p.sqlName == c {
        DroppedNames(prev, next, c);
      }
    }
  }

  ghost predicate ColumnsMatch(t: Table, cols: seq<Column>) {
    && (forall p | p in cols :: p.sqlName in t.cols)
    && (forall c | c in t.cols :: exists p :: p in cols && p.sqlName == c)
  }

  function PhasesOf(diff: TableDiff): seq<Statement> {
    DropStatements(diff.dropColumns) + RenameStatements(diff.renameColumns) + AddStatements(diff.addColumns)
  }

  lemma {:induction false} CellsCarried(start: map<string, Own>, r: Reading<Own>, value: Column -> Own,
                                        prev: seq<Column>, next: seq<Column>)
    returns (renamed: map<string, Own>, cols: map<string, Own>)
    requires Distinct(prev) && Distinct(next) && NamesAgree(prev, next) && start == CellsOf(prev, value)
    ensures Run(PhasesOf(Diff(prev, next)), start, r) == Some(cols)
    ensures Renamed(renamed, value, prev, next) && AfterAdds(cols, renamed, r, prev, next, |next|)
  {
    var diff := Diff(prev, next);
    var drops, renames, adds := DropStatements(diff.dropColumns), RenameStatements(diff.renameColumns),
        AddStatements(diff.addColumns);
    RunConcat(drops + renames, adds, start, r);
    RunConcat(drops, renames, start, r);
    hide Tracks, Renamed, AfterAdds, RenamesOrdered, DropStatements, RenameStatements, AddStatements, Run, DropsOf,
        RenamesOf, AddsOf, CellsOf;
    var kept := DropsTrack(r, value, prev, next);
    assert next[..|next|] == next;
    RenamesTrack(kept, r, value, prev, next, |next|);
    AgreeingOrders(prev, next);
    FitIsOrdered(prev, next);
    renamed := Run(renames, kept, r).value;
    TracksRenamed(renamed, value, prev, next);
    AddedAreFree(renamed, value, prev, next);
    cols := AddsRun(renamed, r, prev, next, |next|);
  }

  lemma {:induction false} PhasesOnColumns(start: Table, prev: seq<Column>, next: seq<Column>, s: Setting)
    ensures var phases := PhasesOf(Diff(prev, next));
            && RunTable(phases, start, s) ==
               (match Run(phases, start.cols, Cells(AddedIn(s)))
                case None => None
                case Some(cols) => Some(Table(cols, RunWide(phases, start.wide))))
            && RunWide(phases, start.wide).Keys == WideLeft(start, prev, next)
  {
    var diff := Diff(prev, next);
    var drops, renames, adds := DropStatements(diff.dropColumns), RenameStatements(diff.renameColumns),
        AddStatements(diff.addColumns);
    PhaseStatements(diff);
    hide DropStatements, RenameStatements, AddStatements, DropsOf, RenamesOf, AddsOf, AltersOf, RunWide, WideLeft, Run,
        RunTable;
    assert drops + renames + adds == drops + (renames + adds);
    RunOnColumns(drops + renames + adds, start, s);
    PhasesLeaveWide(start, prev, next, renames + adds);
  }

  lemma StartCells(start: Table, prev: seq<Column>)
    requires DistinctSql(prev) && ColumnsMatch(start, prev)
    ensures start.cols == CellsOf(prev, OwnIn(start))
  {
    AreCellsOf(start.cols, prev, OwnIn(start));
  }

  /** Drops, renames and adds always run, and carry each column's constraints to its new name. */
  lemma {:induction false} PhasesRun(start: Table, prev: seq<Column>, next: seq<Column>, s: Setting) returns (t: Table)
    requires Distinct(prev) && Distinct(next) && NamesAgree(prev, next) && ColumnsMatch(start, prev)
    ensures RunTable(PhasesOf(Diff(prev, next)), start, s) == Some(t)
    ensures Reached(t, start, prev, next, s, 0)
  {
    PhasesOnColumns(start, prev, next, s);
    StartCells(start, prev);
    hide *;
    var renamed, cols := CellsCarried(start.cols, Cells(AddedIn(s)), OwnIn(start), prev, next);
    t := Table(cols, RunWide(PhasesOf(Diff(prev, next)), start.wide));
    PhasesReach(renamed, t, start, prev, next, s);
  }

  // ----- Main result -----

  /** The database gives the UNIQUE and the CHECK of one added column two names. */
  ghost predicate PicksApart(next: seq<Column>, s: Setting) {
    forall n | n in next :: s.uniquePick(n) != s.checkPick(n)
  }

  /** The alter of this column, if it has one, is accepted and hits the right constraints. */
  ghost predicate AlterRight(start: Table, prev: seq<Column>, next: seq<Column>, s: Setting,
                             was: (string, string) -> iset<Row>, k: nat)
    requires k < |next|
  {
    IsPaired(prev, next[k]) ==>
      var n := next[k];
      var p := PairOf(prev, n);
      && Accepted(start, prev, next, s, k)
      && UniqueRight(OwnIn(start)(p), p, n, s) && CheckRight(OwnIn(start)(p), p, n, s, was)
  }

  ghost predicate AllRight(start: Table, prev: seq<Column>, next: seq<Column>, s: Setting,
                           was: (string, string) -> iset<Row>) {
    forall k | 0 <= k < |next| :: AlterRight(start, prev, next, s, was, k)
  }

  lemma {:induction false} StandingIsAsAsked(start: Table, prev: seq<Column>, next: seq<Column>, s: Setting,
                                             was: (string, string) -> iset<Row>, k: nat)
    requires k < |next| && AllAsAsked(start, prev, was) && PicksApart(next, s)
    requires DropsOwn(start, prev, next, s, k) && Accepted(start, prev, next, s, k)
    ensures AsAsked(Standing(start, prev, next[k], s, true), next[k], s.lets) <==>
            AlterRight(start, prev, next, s, was, k)
  {
    hide After, OwnAdded, UniqueAsAsked, ChecksAsAsked, UniqueRight, CheckRight, OwnName, KindsMeant;
    var n := next[k];
    if IsPaired(prev, n) {
      AfterIsAsAsked(OwnIn(start)(PairOf(prev, n)), PairOf(prev, n), n, s, was);
    } else {
      AddedIsAsAsked(n, s);
    }
  }

  lemma {:induction false} ReachedIsAsAsked(t: Table, start: Table, prev: seq<Column>, next: seq<Column>, s: Setting,
                                            was: (string, string) -> iset<Row>)
    requires AllAsAsked(start, prev, was) && PicksApart(next, s) && AllDropOwn(start, prev, next, s)
    requires AllAccepted(start, prev, next, s, |next|) && Reached(t, start, prev, next, s, |next|)
    ensures AllAsAsked(t, next, s.lets) <==> AllRight(start, prev, next, s, was)
  {
    forall k | 0 <= k < |next|
      ensures next[k].sqlName in t.cols
      ensures AsAsked(t.cols[next[k].sqlName], next[k], s.lets) <==> AlterRight(start, prev, next, s, was, k)
    {
      hide Standing, AsAsked, Accepted, DropsOwn, AlterRight, AllAsAsked;
      StandingIsAsAsked(start, prev, next, s, was, k);
    }
    hide Standing, AsAsked, Accepted, DropsOwn, AlterRight;
    forall c | c in t.cols ensures exists n :: n in next && n.sqlName == c {
      var i :| 0 <= i < |next| && next[i].sqlName == c;
      assert next[i] in next;
    }
    forall n | n in next ensures exists k :: 0 <= k < |next| && next[k] == n {}
  }

  lemma RightIsAccepted(start: Table, prev: seq<Column>, next: seq<Column>, s: Setting,
                        was: (string, string) -> iset<Row>)
    requires AllRight(start, prev, next, s, was)
    ensures AllAccepted(start, prev, next, s, |next|)
  {
    hide UniqueRight, CheckRight, KeyFits;
    forall k | 0 <= k < |next| ensures Accepted(start, prev, next, s, k) {
      assert AlterRight(start, prev, next, s, was, k);
    }
  }

  lemma AskedMatches(t: Table, cols: seq<Column>, lets: (string, string) -> iset<Row>)
    requires AllAsAsked(t, cols, lets)
    ensures ColumnsMatch(t, cols)
  {
  }

  /** From any table that is held to the previous definitions, under whatever names, the diff is
      accepted exactly when every alter finds the name it drops and the name it adds free; and it
      leaves a table held to exactly the next definitions if and only if besides each dropped
      UNIQUE was its column's only one and, where a check changes, every check of the column that
      stands under another name than the derived one follows from the new one. The table it then
      leaves is one that the next migration can start from. */
  lemma {:induction false} ConstraintsReached(start: Table, prev: seq<Column>, next: seq<Column>, s: Setting,
                                              was: (string, string) -> iset<Row>)
    requires Distinct(prev) && Distinct(next) && NamesAgree(prev, next) && PicksApart(next, s)
    requires AllAsAsked(start, prev, was) && AllDropOwn(start, prev, next, s)
    ensures var r := RunTable(Statements(Diff(prev, next)), start, s);
            && (r.Some? <==> AllAccepted(start, prev, next, s, |next|))
            && (r.Some? && AllAsAsked(r.value, next, s.lets) <==> AllRight(start, prev, next, s, was))
  {
    hide Reached, AllDropOwn, NamesAgree, AllAccepted, ColumnsMatch, PicksApart, DropStatements, RenameStatements,
        AddStatements, DropsOf, RenamesOf, AddsOf;
    AskedMatches(start, prev, was);
    hide AllAsAsked;
    var diff := Diff(prev, next);
    var t := PhasesRun(start, prev, next, s);
    assert next[..|next|] == next;
    AltersRun(t, start, prev, next, s, |next|);
    RunTableConcat(PhasesOf(diff), AlterStatements(diff.alterColumns), start, s);
    var r := RunTable(AlterStatements(diff.alterColumns), t, s);
    if r.Some? {
      ReachedIsAsAsked(r.value, start, prev, next, s, was);
    } else if AllRight(start, prev, next, s, was) {
      RightIsAccepted(start, prev, next, s, was);
    }
  }

  // ----- A name that is another column's -----

  /** A statement of an alter that puts no UNIQUE on this column. */
  predicate AddsNoUnique(stmt: Statement, column: string) {
    !stmt.DropColumn? && !stmt.RenameColumn? && !stmt.AddColumn? && !(stmt.AddUnique? && stmt.column == column)
  }

  /** Once dropped, a column's unique constraint comes back only by an ADD CONSTRAINT on it. */
  lemma {:induction false} UniqueStaysAway(stmts: seq<Statement>, t: Table, s: Setting, column: string,
                                           dropped: Option<ConstraintName>)
    requires column in t.cols && RunTable(stmts, t, s).Some?
    requires forall stmt | stmt in stmts :: AddsNoUnique(stmt, column)
    requires dropped.Some? ==> DropConstraint(dropped.value) in stmts
    ensures var after := RunTable(stmts, t, s).value;
            && column in after.cols
            && (forall name | name in after.cols[column] && after.cols[column][name].Unique? ::
                  && name in t.cols[column] && t.cols[column][name].Unique?
                  && (dropped.Some? ==> name != NameIn(s.table, dropped.value)))
  {
    if stmts != [] {
      var t' := ExecTable(stmts[0], t, s).value;
      assert stmts[0] in stmts;
      UniqueStep(stmts[0], t, s, column);
      hide ExecTable;
      if dropped.Some? && stmts[0] != DropConstraint(dropped.value) {
        UniqueStaysAway(stmts[1..], t', s, column, dropped);
      } else {
        UniqueStaysAway(stmts[1..], t', s, column, None);
      }
    }
  }

  lemma UniqueStep(stmt: Statement, t: Table, s: Setting, column: string)
    requires column in t.cols && ExecTable(stmt, t, s).Some?
    requires AddsNoUnique(stmt, column)
    ensures var after := ExecTable(stmt, t, s).value;
            && column in after.cols
            && (forall name | name in after.cols[column] && after.cols[column][name].Unique? ::
                  && name in t.cols[column] && t.cols[column][name].Unique?
                  && (stmt.DropConstraint? ==> name != NameIn(s.table, stmt.name)))
  {
  }

  lemma {:induction false} AlterStatementsAre(alters: seq<ColumnAlter>)
    ensures forall stmt | stmt in AlterStatements(alters) :: exists a :: a in alters && stmt in EmitAlterColumn(a)
    ensures forall a, stmt | a in alters && stmt in EmitAlterColumn(a) :: stmt in AlterStatements(alters)
  {
    hide EmitAlterColumn;
    if alters != [] {
      var init, last := alters[..|alters| - 1], alters[|alters| - 1];
      assert alters == init + [last];
      AlterStatementsAre(init);
    }
  }

  lemma ConstraintKinds(a: ColumnAlter, stmt: Statement)
    requires stmt in ConstraintStatements(a)
    ensures stmt.DropConstraint? || stmt.DropConstraintIfExists?
            || (stmt.AddUnique? && a.setUnique && stmt.column == a.sqlName)
            || (stmt.AddCheck? && a.setCheck.Some? && stmt.column == a.sqlName)
  {
    var drop := if a.dropUnique.Some? then [DropConstraint(a.dropUnique.value)] else [];
    var add := if a.setUnique then [AddUnique(UniqueOf(a.sqlName), a.sqlName)] else [];
    var check := ConstraintStatements(a)[|drop + add|..];
    assert ConstraintStatements(a) == drop + add + check;
    if stmt !in drop && stmt !in add {
      assert stmt in check;
    }
  }

  lemma StatementKinds(a: ColumnAlter, stmt: Statement)
    requires stmt in EmitAlterColumn(a)
    ensures !stmt.DropColumn? && !stmt.RenameColumn? && !stmt.AddColumn?
    ensures stmt.AddUnique? ==> a.setUnique && stmt.column == a.sqlName
    ensures stmt.AddCheck? ==> a.setCheck.Some? && stmt.column == a.sqlName
  {
    hide SetStatements, ConstraintStatements;
    if stmt in SetStatements(a) {
      SetsAre(a);
    } else {
      ConstraintKinds(a, stmt);
    }
  }

  lemma LosingDrops(p: Column, n: Column)
    requires Loses(p, n)
    ensures var a := BuildColumnAlter(p, n, n.sqlName);
            a.Some? && DropConstraint(UniqueNameOf(p)) in EmitAlterColumn(a.value)
  {
    var a := BuildColumnAlter(p, n, n.sqlName).value;
    assert ConstraintStatements(a)[0] == DropConstraint(UniqueNameOf(p));
    assert ConstraintStatements(a)[0] in SetStatements(a) + ConstraintStatements(a);
  }

  lemma {:induction false} NoUniqueAdded(prev: seq<Column>, next: seq<Column>, j: nat, stmt: Statement)
    requires Distinct(next) && j < |next| && IsPaired(prev, next[j]) && !Gains(PairOf(prev, next[j]), next[j])
    requires stmt in AlterStatements(AltersOf(prev, next))
    ensures AddsNoUnique(stmt, next[j].sqlName)
  {
    AlterStatementsAre(AltersOf(prev, next));
    AltersComeFrom(prev, next);
    hide AltersOf, AlterStatements, EmitAlterColumn;
    var a :| a in AltersOf(prev, next) && stmt in EmitAlterColumn(a);
    var n :| n in next && AlterOf(prev, n) == [a];
    StatementKinds(a, stmt);
    AlterName(prev, n);
    if n.sqlName == next[j].sqlName {
      OneSql(next, n, next[j]);
    }
  }

  lemma {:induction false} DropIsEmitted(prev: seq<Column>, next: seq<Column>, k: nat)
    requires k < |next| && IsPaired(prev, next[k]) && Loses(PairOf(prev, next[k]), next[k])
    ensures DropConstraint(UniqueNameOf(PairOf(prev, next[k]))) in AlterStatements(AltersOf(prev, next))
  {
    AlterStatementsAre(AltersOf(prev, next));
    AltersComeFrom(prev, next);
    LosingDrops(PairOf(prev, next[k]), next[k]);
    hide AltersOf, AlterStatements, EmitAlterColumn, BuildColumnAlter;
    var a := AlterOf(prev, next[k])[0];
    assert AlterOf(prev, next[k]) != [];
  }

  /** When the name derived for a column that loses its UNIQUE is the name of another column's
      only one, as after renames that let a new column take an old column's name, the migration
      takes that one away, and never ends as asked. */
  lemma {:induction false} DropsAnothers(start: Table, prev: seq<Column>, next: seq<Column>, s: Setting, k: nat, j: nat)
    requires Distinct(prev) && Distinct(next) && NamesAgree(prev, next) && ColumnsMatch(start, prev)
    requires k < |next| && IsPaired(prev, next[k]) && Loses(PairOf(prev, next[k]), next[k])
    requires j < |next| && IsPaired(prev, next[j]) && next[j].unique && !next[j].solePrimary
    requires PairOf(prev, next[j]).unique
    requires var own := OwnIn(start)(PairOf(prev, next[j]));
             forall name | name in own && own[name].Unique? :: name == DropName(s, PairOf(prev, next[k]))
    ensures var r := RunTable(Statements(Diff(prev, next)), start, s);
            r.Some? ==> !AllAsAsked(r.value, next, s.lets)
  {
    var diff := Diff(prev, next);
    var alters := AlterStatements(diff.alterColumns);
    var t := PhasesRun(start, prev, next, s);
    ReachedAtFirst(t, start, prev, next, s, j);
    RunTableConcat(PhasesOf(diff), alters, start, s);
    hide RunTable, Reached, AltersOf, AlterStatements, OwnIn, ColumnsMatch, NamesAgree, PhasesOf, DropStatements,
        RenameStatements, AddStatements, DropsOf, RenamesOf, AddsOf;
    forall stmt | stmt in alters
      ensures AddsNoUnique(stmt, next[j].sqlName)
    {
      NoUniqueAdded(prev, next, j, stmt);
    }
    DropIsEmitted(prev, next, k);
    if RunTable(alters, t, s).Some? {
      UniqueStaysAway(alters, t, s, next[j].sqlName, Some(UniqueNameOf(PairOf(prev, next[k]))));
      assert next[j] in next;
    }
  }

  /** A statement of an alter that puts no CHECK on this column. */
  predicate AddsNoCheck(stmt: Statement, column: string) {
    !stmt.DropColumn? && !stmt.RenameColumn? && !stmt.AddColumn? && !(stmt.AddCheck? && stmt.column == column)
  }

  lemma CheckStep(stmt: Statement, t: Table, s: Setting, column: string)
    requires column in t.cols && ExecTable(stmt, t, s).Some? && AddsNoCheck(stmt, column)
    ensures var after := ExecTable(stmt, t, s).value;
            && column in after.cols
            && (forall name | name in after.cols[column] && after.cols[column][name].Check? ::
                  && name in t.cols[column] && t.cols[column][name] == after.cols[column][name]
                  && (stmt.DropConstraintIfExists? ==> name != NameIn(s.table, stmt.name)))
  {
  }

  lemma {:induction false} CheckStaysAway(stmts: seq<Statement>, t: Table, s: Setting, column: string,
                                          dropped: Option<ConstraintName>)
    requires column in t.cols && RunTable(stmts, t, s).Some?
    requires forall stmt | stmt in stmts :: AddsNoCheck(stmt, column)
    requires dropped.Some? ==> DropConstraintIfExists(dropped.value) in stmts
    ensures var after := RunTable(stmts, t, s).value;
            && column in after.cols
            && (forall name | name in after.cols[column] && after.cols[column][name].Check? ::
                  && name in t.cols[column] && t.cols[column][name] == after.cols[column][name]
                  && (dropped.Some? ==> name != NameIn(s.table, dropped.value)))
  {
    if stmts != [] {
      var t' := ExecTable(stmts[0], t, s).value;
      assert stmts[0] in stmts;
      CheckStep(stmts[0], t, s, column);
      hide ExecTable;
      if dropped.Some? && stmts[0] != DropConstraintIfExists(dropped.value) {
        CheckStaysAway(stmts[1..], t', s, column, dropped);
      } else {
        CheckStaysAway(stmts[1..], t', s, column, None);
      }
    }
  }

  lemma {:induction false} NoCheckAdded(prev: seq<Column>, next: seq<Column>, j: nat, stmt: Statement)
    requires Distinct(next) && j < |next| && IsPaired(prev, next[j]) && !Rechecked(PairOf(prev, next[j]), next[j])
    requires stmt in AlterStatements(AltersOf(prev, next))
    ensures AddsNoCheck(stmt, next[j].sqlName)
  {
    AlterStatementsAre(AltersOf(prev, next));
    AltersComeFrom(prev, next);
    hide AltersOf, AlterStatements, EmitAlterColumn;
    var a :| a in AltersOf(prev, next) && stmt in EmitAlterColumn(a);
    var n :| n in next && AlterOf(prev, n) == [a];
    StatementKinds(a, stmt);
    AlterName(prev, n);
    if n.sqlName == next[j].sqlName {
      OneSql(next, n, next[j]);
    }
  }

  lemma RecheckingDrops(p: Column, n: Column)
    requires Rechecked(p, n)
    ensures var a := BuildColumnAlter(p, n, n.sqlName);
            a.Some? && DropConstraintIfExists(CheckOf(n.sqlName)) in EmitAlterColumn(a.value)
  {
    var a := BuildColumnAlter(p, n, n.sqlName).value;
    var drop := DropConstraintIfExists(CheckOf(n.sqlName));
    StatementsAre(p, n);
    assert CheckStatements(p, n)[0] == drop;
    assert drop in UniqueStatements(p, n) + CheckStatements(p, n);
    hide UniqueStatements, CheckStatements, SetStatements, ConstraintStatements;
    assert drop in SetStatements(a) + ConstraintStatements(a);
  }

  lemma {:induction false} CheckDropIsEmitted(prev: seq<Column>, next: seq<Column>, k: nat)
    requires k < |next| && IsPaired(prev, next[k]) && Rechecked(PairOf(prev, next[k]), next[k])
    ensures DropConstraintIfExists(CheckOf(next[k].sqlName)) in AlterStatements(AltersOf(prev, next))
  {
    AlterStatementsAre(AltersOf(prev, next));
    AltersComeFrom(prev, next);
    RecheckingDrops(PairOf(prev, next[k]), next[k]);
    hide AltersOf, AlterStatements, EmitAlterColumn, BuildColumnAlter;
    assert AlterOf(prev, next[k]) != [];
  }

  lemma StillLetsIn(own: Own, after: Own, gone: string, row: Row)
    requires forall name | name in after && after[name].Check? ::
               name in own && own[name] == after[name] && name != gone
    requires LetsIn(own - {gone}, row)
    ensures LetsIn(after, row)
  {
    forall name | name in after && after[name].Check? ensures row in after[name].lets {
      assert name in own - {gone} && (own - {gone})[name] == after[name];
    }
  }

  lemma LetsInTooMuch(t: Table, next: seq<Column>, j: nat, lets: (string, string) -> iset<Row>, row: Row)
    requires j < |next| && next[j].sqlName in t.cols && LetsIn(t.cols[next[j].sqlName], row)
    requires !Asks(next[j], lets, row)
    ensures !AllAsAsked(t, next, lets)
  {
    hide LetsIn, Asks;
    assert next[j] in next;
  }

  /** Likewise for checks: when the name derived for a changed check is that of a check of another
      column, whose text stays and whose other checks let in a row that it does not, the migration
      never ends as asked. */
  lemma {:induction false} DropsAnothersCheck(start: Table, prev: seq<Column>, next: seq<Column>, s: Setting, k: nat,
                                              j: nat, row: Row)
    requires Distinct(prev) && Distinct(next) && NamesAgree(prev, next) && ColumnsMatch(start, prev)
    requires k < |next| && IsPaired(prev, next[k]) && Rechecked(PairOf(prev, next[k]), next[k])
    requires j < |next| && IsPaired(prev, next[j]) && !Rechecked(PairOf(prev, next[j]), next[j])
    requires LetsIn(OwnIn(start)(PairOf(prev, next[j])) - {CheckName(s, next[k])}, row)
    requires !Asks(next[j], s.lets, row)
    ensures var r := RunTable(Statements(Diff(prev, next)), start, s);
            r.Some? ==> !AllAsAsked(r.value, next, s.lets)
  {
    var diff := Diff(prev, next);
    var alters := AlterStatements(diff.alterColumns);
    var t := PhasesRun(start, prev, next, s);
    ReachedAtFirst(t, start, prev, next, s, j);
    RunTableConcat(PhasesOf(diff), alters, start, s);
    assert CheckName(s, next[k]) == NameIn(s.table, CheckOf(next[k].sqlName));
    assert Statements(diff) == PhasesOf(diff) + alters && diff.alterColumns == AltersOf(prev, next);
    hide *;
    forall stmt | stmt in alters ensures AddsNoCheck(stmt, next[j].sqlName) {
      NoCheckAdded(prev, next, j, stmt);
    }
    CheckDropIsEmitted(prev, next, k);
    if RunTable(alters, t, s).Some? {
      CheckStaysAway(alters, t, s, next[j].sqlName, Some(CheckOf(next[k].sqlName)));
      var after := RunTable(alters, t, s).value;
      StillLetsIn(t.cols[next[j].sqlName], after.cols[next[j].sqlName], CheckName(s, next[k]), row);
      LetsInTooMuch(after, next, j, s.lets, row);
    }
  }

  lemma ReachedAtFirst(t: Table, start: Table, prev: seq<Column>, next: seq<Column>, s: Setting, j: nat)
    requires Reached(t, start, prev, next, s, 0) && j < |next| && IsPaired(prev, next[j])
    ensures next[j].sqlName in t.cols && t.cols[next[j].sqlName] == OwnIn(start)(PairOf(prev, next[j]))
  {
  }

  // ----- Later migrations -----

  ghost predicate OnlyUnique(own: Own, name: string) {
    HasUnique(own) && forall x | x in own && own[x].Unique? :: x == name
  }

  /** What the UNIQUE of this column is called by the manifest's record, or as PostgreSQL calls it
      by itself. */
  function OnRecord(table: string, p: Column): string {
    match p.uniqueName
    case Some(recorded) => recorded
    case None => table + "_" + p.sqlName + "_key"
  }

  /** A column that is to lose its UNIQUE has the one on record dropped, and loses it exactly when
      its only one is called so. */
  lemma DropsWhatIsOnRecord(own: Own, prev: seq<Column>, next: seq<Column>, s: Setting, k: nat, standing: string)
    requires k < |next| && IsPaired(prev, next[k]) && Loses(PairOf(prev, next[k]), next[k]) && !next[k].solePrimary
    requires OnlyUnique(own, standing)
    ensures var p := PairOf(prev, next[k]);
            && (exists stmt :: stmt in AlterStatements(AltersOf(prev, next)) && stmt.DropConstraint?
                               && NameIn(s.table, stmt.name) == OnRecord(s.table, p))
            && (DropName(s, p) in own && UniqueRight(own, p, next[k], s) <==> standing == OnRecord(s.table, p))
  {
    var p := PairOf(prev, next[k]);
    DropIsEmitted(prev, next, k);
    hide AlterStatements, AltersOf, IsPaired;
    assert NameIn(s.table, DropConstraint(UniqueNameOf(p)).name) == OnRecord(s.table, p);
    var there :| there in own && own[there].Unique?;
  }

  /** After a migration that leaves a column unique, a later one that makes it non-unique finds
      the right constraint exactly when the only one there is called what the column's definition
      then derives or records: with derived names, exactly when the column was not renamed. */
  lemma {:induction false} UniqueDropAfterwards(own: Own, p: Column, n: Column, m: Column, s: Setting)
    requires p.unique && n.unique && !m.unique && !m.solePrimary && HasUnique(own) && KindsMeant(own, p, n, s)
    ensures var after := After(own, p, n, s);
            && (DropName(s, n) in after && UniqueRight(after, n, m, s) <==> OnlyUnique(own, DropName(s, n)))
            && (p.uniqueName.None? && n.uniqueName.None? && OnlyUnique(own, DropName(s, p)) ==>
                  (OnlyUnique(own, DropName(s, n)) <==> p.sqlName == n.sqlName))
  {
    var after := After(own, p, n, s);
    DerivedApart(s, p, n);
    forall name ensures name in after && after[name].Unique? <==> name in own && own[name].Unique? {
    }
    var there :| there in own && own[there].Unique?;
    assert there in after && after[there].Unique?;
  }

  /** Up and down again: a check that stands under its derived name comes back as it was exactly
      when the column keeps its name, or both checks let in the same rows. */
  lemma {:induction false} CheckComesBack(own: Own, p: Column, n: Column, up: Setting, down: Setting)
    requires up.table == down.table && AsAsked(own, p, down.lets)
    requires KindsMeant(own, p, n, up) && (Gains(p, n) ==> KeyName(up, n) !in own)
    requires forall name | name in own && own[name].Check? :: name == CheckName(up, p)
    ensures CheckRight(own, p, n, up, down.lets) && CheckRight(After(own, p, n, up), n, p, down, up.lets) <==>
            || (Rechecked(p, n) && p.sqlName == n.sqlName)
            || forall row :: Asks(p, down.lets, row) <==> Asks(n, up.lets, row)
  {
    var after := After(own, p, n, up);
    DerivedApart(up, p, n);
    if Rechecked(p, n) {
      forall row ensures OthersLet(own, n, up, row) <==> p.sqlName == n.sqlName || Asks(p, down.lets, row) {
        assert LetsIn(own, row) <==> Asks(p, down.lets, row);
      }
      forall row ensures OthersLet(after, p, down, row) <==> p.sqlName == n.sqlName || Asks(n, up.lets, row) {
        OthersAfter(own, p, n, up, down, row);
      }
    } else if p.check.Some? {
      SameRows(p, n, up, down);
    }
  }

  lemma {:induction false} OthersAfter(own: Own, p: Column, n: Column, up: Setting, down: Setting, row: Row)
    requires up.table == down.table && Rechecked(p, n) && KindsMeant(own, p, n, up)
    requires Gains(p, n) ==> KeyName(up, n) !in own
    requires forall name | name in own && own[name].Check? :: name == CheckName(up, p)
    ensures OthersLet(After(own, p, n, up), p, down, row) <==> p.sqlName == n.sqlName || Asks(n, up.lets, row)
  {
    var after, mine := After(own, p, n, up), CheckName(up, n);
    DerivedApart(up, p, n);
    forall name | name in after && after[name].Check? && name != CheckName(up, p) ensures name == mine {
      if name != mine {
        CheckKept(own, p, n, up, name);
      }
    }
    if n.check.Some? {
      assert mine in after && after[mine] == Check(up.lets(n.sqlName, n.check.value));
    }
  }

  lemma SameRows(p: Column, n: Column, up: Setting, down: Setting)
    requires p.check == n.check && p.check.Some?
    ensures down.lets(p.sqlName, p.check.value) == up.lets(n.sqlName, n.check.value) <==>
            forall row :: Asks(p, down.lets, row) <==> Asks(n, up.lets, row)
  {
    var before, now := down.lets(p.sqlName, p.check.value), up.lets(n.sqlName, n.check.value);
    if forall row :: Asks(p, down.lets, row) <==> Asks(n, up.lets, row) {
      forall row ensures row in before <==> row in now {
        assert Asks(p, down.lets, row) <==> Asks(n, up.lets, row);
      }
      assert before == now;
    }
  }
}
