/** Where the whole diff takes the columns of a table. */
module ColumnsReached {
  import opened Common
  import opened Ddl
  import opened ColumnDiff
  import opened ColumnPhases

  /** Which type changes are left to a manual migration, from the old and the new type. */
  type Manual = (string, string) -> bool

  /** An alter whose type change is left out when that change is manual. */
  function WithoutManual(a: ColumnAlter, manual: Manual): ColumnAlter {
    if a.setType.Some? && a.fromSqlType.Some? && manual(a.fromSqlType.value, a.setType.value)
    then a.(setType := None, fromSqlType := None) else a
  }

  ghost function AlterUnder(prev: seq<Column>, n: Column, manual: Manual): seq<ColumnAlter> {
    var step := AlterOf(prev, n);
    if step == [] then [] else [WithoutManual(step[0], manual)]
  }

  ghost function AltersUnder(prev: seq<Column>, cols: seq<Column>, manual: Manual): seq<ColumnAlter> {
    if cols == [] then []
    else AltersUnder(prev, cols[..|cols| - 1], manual) + AlterUnder(prev, cols[|cols| - 1], manual)
  }

  /** What a paired column becomes: the next column, except that a manual type change waits. */
  function Target(p: Column, n: Column, manual: Manual): Attributes {
    if p.sqlType != n.sqlType && manual(p.sqlType, n.sqlType) then n.Attrs().(sqlType := p.sqlType) else n.Attrs()
  }

  // ----- One column's alter -----

  /** An optional statement on one column amounts to an update of that column. */
  lemma RunOptional(stmt: Option<Statement>, cols: Columns, c: string, a: Attributes)
    requires c in cols
    requires match stmt
             case None => a == cols[c]
             case Some(s) => ExecColumns(s, cols) == Some(cols[c := a])
    ensures RunColumns(if stmt.Some? then [stmt.value] else [], cols) == Some(cols[c := a])
  {
    if stmt.None? {
      assert cols[c := a] == cols;
    } else {
      assert RunColumns([stmt.value][1..], cols[c := a]) == Some(cols[c := a]);
    }
  }

  lemma ConstraintsLeaveColumns(stmts: seq<Statement>, c: string, cols: Columns)
    requires c in cols
    requires forall s | s in stmts ::
               s.DropConstraint? || s.DropConstraintIfExists? || ((s.AddUnique? || s.AddCheck?) && s.column == c)
    ensures RunColumns(stmts, cols) == Some(cols)
  {
    if stmts != [] {
      assert stmts[0] in stmts;
      ConstraintsLeaveColumns(stmts[1..], c, cols);
    }
  }

  lemma AlterLeavesColumns(a: ColumnAlter, cols: Columns)
    requires a.sqlName in cols
    ensures RunColumns(ConstraintStatements(a), cols) == Some(cols)
  {
    ConstraintsLeaveColumns(ConstraintStatements(a), a.sqlName, cols);
  }

  function Altered(a: ColumnAlter, was: Attributes): Attributes {
    Attributes(if a.setType.Some? then a.setType.value else was.sqlType,
               if a.setNullable.Some? then a.setNullable.value else was.nullable,
               if a.setDefault.Some? then a.setDefault.value else was.default)
  }

  lemma SetsLand(a: ColumnAlter, cols: Columns)
    requires a.sqlName in cols
    ensures RunColumns(SetStatements(a), cols) == Some(cols[a.sqlName := Altered(a, cols[a.sqlName])])
  {
    var c := a.sqlName;
    var t := if a.setType.Some? then Some(SetType(c, a.setType.value)) else None;
    var u := if a.setNullable.Some? then Some(SetNullable(c, a.setNullable.value)) else None;
    var d := if a.setDefault.Some? then Some(SetDefault(c, a.setDefault.value)) else None;
    var a1 := if t.Some? then cols[c].(sqlType := a.setType.value) else cols[c];
    var a2 := if u.Some? then a1.(nullable := a.setNullable.value) else a1;
    var a3 := if d.Some? then a2.(default := a.setDefault.value) else a2;
    RunOptional(t, cols, c, a1);
    var cols1 := cols[c := a1];
    assert cols1[c := a2] == cols[c := a2];
    RunOptional(u, cols1, c, a2);
    var cols2 := cols[c := a2];
    assert cols2[c := a3] == cols[c := a3];
    RunOptional(d, cols2, c, a3);
    var ts := if t.Some? then [t.value] else [];
    var us := if u.Some? then [u.value] else [];
    var ds := if d.Some? then [d.value] else [];
    RunConcat(ts + us, ds, cols, Schema());
    RunConcat(ts, us, cols, Schema());
    assert SetStatements(a) == ts + us + ds;
  }

  lemma AlterTarget(p: Column, n: Column, manual: Manual)
    ensures match BuildColumnAlter(p, n, n.sqlName)
            case None => p.Attrs() == Target(p, n, manual)
            case Some(full) =>
                full.sqlName == n.sqlName && Altered(WithoutManual(full, manual), p.Attrs()) == Target(p, n, manual)
  {
  }

  /** What a column that looked like `was` looks like once it has had its alter. */
  ghost function Landed(prev: seq<Column>, n: Column, manual: Manual, was: Attributes): Attributes {
    var step := AlterUnder(prev, n, manual);
    if step == [] then was else Altered(step[0], was)
  }

  /** An alter lands on exactly that column. */
  lemma AlterLands(a: ColumnAlter, cols: Columns)
    requires a.sqlName in cols
    ensures RunColumns(EmitAlterColumn(a), cols) == Some(cols[a.sqlName := Altered(a, cols[a.sqlName])])
  {
    hide Altered, ConstraintStatements, SetStatements;
    SetsLand(a, cols);
    RunConcat(SetStatements(a), ConstraintStatements(a), cols, Schema());
    AlterLeavesColumns(a, cols[a.sqlName := Altered(a, cols[a.sqlName])]);
  }

  lemma LandsOnTarget(prev: seq<Column>, n: Column, manual: Manual)
    requires IsPaired(prev, n)
    ensures Landed(prev, n, manual, PairOf(prev, n).Attrs()) == Target(PairOf(prev, n), n, manual)
  {
    AlterTarget(PairOf(prev, n), n, manual);
    hide BuildColumnAlter, WithoutManual, Altered, Target;
  }

  // ----- All the alters -----

  ghost predicate BaseForAlters(base: Columns, prev: seq<Column>, next: seq<Column>) {
    forall n | n in next && IsPaired(prev, n) :: n.sqlName in base
  }

  ghost predicate IsAlteredName(prev: seq<Column>, cols: seq<Column>, s: string) {
    exists n :: n in cols && IsPaired(prev, n) && n.sqlName == s
  }

  /** `base` with the paired columns among `done` brought up to date. */
  ghost predicate UpToDate(cols: Columns, base: Columns, prev: seq<Column>, done: seq<Column>, manual: Manual) {
    && cols.Keys == base.Keys
    && (forall n | n in done && IsPaired(prev, n) ::
        n.sqlName in cols && cols[n.sqlName] == Landed(prev, n, manual, base[n.sqlName]))
    && (forall s | s in cols && !IsAlteredName(prev, done, s) :: cols[s] == base[s])
  }

  ghost predicate AfterAlters(cols: Columns, base: Columns, prev: seq<Column>, next: seq<Column>, manual: Manual,
      k: nat)
    requires k <= |next|
  {
    UpToDate(cols, base, prev, next[..k], manual)
  }

  lemma PrefixNames(cols: seq<Column>, k: nat)
    requires DistinctSql(cols) && k < |cols|
    ensures forall m | m in cols[..k] :: m.sqlName != cols[k].sqlName
  {
  }

  lemma AlteredNameSnoc(prev: seq<Column>, cols: seq<Column>, n: Column, s: string)
    ensures IsAlteredName(prev, cols + [n], s) <==>
            IsAlteredName(prev, cols, s) || (IsPaired(prev, n) && n.sqlName == s)
  {
    hide IsPaired;
    if m :| m in cols && IsPaired(prev, m) && m.sqlName == s {
      assert m in cols + [n];
    }
    assert n in cols + [n];
  }

  lemma NotAltered(cols: Columns, base: Columns, prev: seq<Column>, done: seq<Column>, n: Column, manual: Manual)
    requires UpToDate(cols, base, prev, done, manual) && n.sqlName in base
    requires forall m | m in done :: m.sqlName != n.sqlName
    ensures n.sqlName in cols && cols[n.sqlName] == base[n.sqlName]
  {
    hide IsPaired, Landed;
    assert !IsAlteredName(prev, done, n.sqlName);
  }

  lemma AlteredSkip(cols: Columns, base: Columns, prev: seq<Column>, done: seq<Column>, n: Column, manual: Manual)
    requires UpToDate(cols, base, prev, done, manual) && !IsPaired(prev, n)
    ensures UpToDate(cols, base, prev, done + [n], manual)
  {
    hide IsPaired, Landed;
    forall s ensures IsAlteredName(prev, done + [n], s) <==> IsAlteredName(prev, done, s) {
      AlteredNameSnoc(prev, done, n, s);
    }
    hide IsAlteredName;
  }

  lemma AlteredNext(cols: Columns, base: Columns, prev: seq<Column>, done: seq<Column>, n: Column, manual: Manual)
    requires UpToDate(cols, base, prev, done, manual) && IsPaired(prev, n) && n.sqlName in base
    requires forall m | m in done :: m.sqlName != n.sqlName
    ensures UpToDate(cols[n.sqlName := Landed(prev, n, manual, base[n.sqlName])], base, prev, done + [n], manual)
  {
    hide IsPaired, Landed;
    var after := cols[n.sqlName := Landed(prev, n, manual, base[n.sqlName])];
    forall m | m in done + [n] && IsPaired(prev, m)
      ensures m.sqlName in after && after[m.sqlName] == Landed(prev, m, manual, base[m.sqlName])
    {
      assert m in done || m == n;
    }
    forall s | s in after && !IsAlteredName(prev, done + [n], s)
      ensures after[s] == base[s]
    {
      AlteredNameSnoc(prev, done, n, s);
    }
    hide IsAlteredName;
    assert after.Keys == base.Keys;
  }

  lemma AlterStep(cols: Columns, base: Columns, prev: seq<Column>, next: seq<Column>, manual: Manual, k: nat)
    requires k < |next| && AfterAlters(cols, base, prev, next, manual, k)
    requires forall m | m in next[..k] :: m.sqlName != next[k].sqlName
    requires IsPaired(prev, next[k]) ==> next[k].sqlName in base
    ensures IsPaired(prev, next[k]) ==> next[k].sqlName in cols && cols[next[k].sqlName] == base[next[k].sqlName]
    ensures AfterAlters(if IsPaired(prev, next[k])
                        then cols[next[k].sqlName := Landed(prev, next[k], manual, base[next[k].sqlName])]
                        else cols, base, prev, next, manual, k + 1)
  {
    hide UpToDate, IsPaired, Landed;
    assert next[..k + 1] == next[..k] + [next[k]];
    if IsPaired(prev, next[k]) {
      NotAltered(cols, base, prev, next[..k], next[k], manual);
      AlteredNext(cols, base, prev, next[..k], next[k], manual);
    } else {
      AlteredSkip(cols, base, prev, next[..k], next[k], manual);
    }
  }

  lemma AltersSnoc(cols: Columns, prev: seq<Column>, next: seq<Column>, manual: Manual, k: nat)
    requires k < |next|
    ensures var r := RunColumns(AlterStatements(AltersUnder(prev, next[..k], manual)), cols);
            var step := AlterUnder(prev, next[k], manual);
            RunColumns(AlterStatements(AltersUnder(prev, next[..k + 1], manual)), cols) ==
            if r.None? || step == [] then r else RunColumns(EmitAlterColumn(step[0]), r.value)
  {
    hide BuildColumnAlter;
    hide EmitAlterColumn;
    assert next[..k + 1][..k] == next[..k];
    var alters := AltersUnder(prev, next[..k], manual);
    var step := AlterUnder(prev, next[k], manual);
    if step == [] {
      assert alters + step == alters;
    } else {
      assert (alters + step)[..|alters|] == alters;
      RunConcat(AlterStatements(alters), EmitAlterColumn(step[0]), cols, Schema());
    }
  }

  lemma AlterUnderLands(cols: Columns, prev: seq<Column>, n: Column, manual: Manual)
    requires IsPaired(prev, n) ==> n.sqlName in cols
    ensures var step := AlterUnder(prev, n, manual);
            (if step == [] then Some(cols) else RunColumns(EmitAlterColumn(step[0]), cols)) ==
            Some(if IsPaired(prev, n) then cols[n.sqlName := Landed(prev, n, manual, cols[n.sqlName])] else cols)
  {
    AlterUnderName(prev, n, manual);
    hide AlterUnder, EmitAlterColumn;
    var step := AlterUnder(prev, n, manual);
    if IsPaired(prev, n) {
      if step == [] {
        assert cols[n.sqlName := cols[n.sqlName]] == cols;
      } else {
        AlterLands(step[0], cols);
      }
    }
  }

  lemma AlterUnderName(prev: seq<Column>, n: Column, manual: Manual)
    ensures AlterUnder(prev, n, manual) != [] ==>
              IsPaired(prev, n) && AlterUnder(prev, n, manual)[0].sqlName == n.sqlName
  {
  }

  lemma {:induction false} AltersRun(base: Columns, prev: seq<Column>, next: seq<Column>, manual: Manual, k: nat)
    returns (cols: Columns)
    requires DistinctSql(next) && k <= |next| && BaseForAlters(base, prev, next)
    ensures RunColumns(AlterStatements(AltersUnder(prev, next[..k], manual)), base) == Some(cols)
    ensures AfterAlters(cols, base, prev, next, manual, k)
  {
    hide AlterUnder;
    hide IsPaired;
    if k == 0 {
      cols := base;
    } else {
      cols := AltersRun(base, prev, next, manual, k - 1);
      assert next[k - 1] in next;
      PrefixNames(next, k - 1);
      AlterStep(cols, base, prev, next, manual, k - 1);
      hide AfterAlters;
      AltersSnoc(base, prev, next, manual, k - 1);
      AlterUnderLands(cols, prev, next[k - 1], manual);
      if IsPaired(prev, next[k - 1]) {
        cols := cols[next[k - 1].sqlName := Landed(prev, next[k - 1], manual, base[next[k - 1].sqlName])];
      }
    }
  }

  // ----- Main result -----

  /** When a column is renamed to a name that a previous column has, that column was renamed
      away by an earlier column of the next table. */
  ghost predicate RenamesOrdered(prev: seq<Column>, next: seq<Column>) {
    forall q, n | q in prev && n in next && q.sqlName == n.sqlName && q.tsName != n.tsName && IsPaired(prev, n) ::
      0 <= FindTs(next, q.tsName) < FindTs(next, n.tsName)
  }

  /** When a next column without a partner has the SQL name of a previous one, only the
      TypeScript name has changed: that column has no partner either and looks the same. */
  ghost predicate LeftsMatch(prev: seq<Column>, next: seq<Column>) {
    forall q, n | q in prev && n in next && q.sqlName == n.sqlName && !IsPaired(prev, n) ::
      FindTs(next, q.tsName) < 0 && q.Attrs() == n.Attrs()
  }

  /** No added column belongs to a composite primary key while declared nullable. */
  ghost predicate AddsExact(prev: seq<Column>, next: seq<Column>) {
    forall n | n in next && IsAdded(prev, n) :: n.AddedAttrs() == n.Attrs()
  }

  ghost predicate Reconcilable(prev: seq<Column>, next: seq<Column>) {
    RenamesOrdered(prev, next) && LeftsMatch(prev, next) && AddsExact(prev, next)
  }

  /** No column's type change is left to a manual migration. */
  ghost predicate NoManual(prev: seq<Column>, next: seq<Column>, manual: Manual) {
    forall n | n in next && IsPaired(prev, n) :: Target(PairOf(prev, n), n, manual) == n.Attrs()
  }

  lemma FitMeansOrdered(prev: seq<Column>, next: seq<Column>)
    requires Distinct(prev) && Distinct(next) && AllRenamesFit(prev, next, |next|)
    ensures RenamesOrdered(prev, next)
  {
    forall q, n | q in prev && n in next && q.sqlName == n.sqlName && q.tsName != n.tsName && IsPaired(prev, n)
      ensures 0 <= FindTs(next, q.tsName) < FindTs(next, n.tsName)
    {
      var j := FindTs(next, n.tsName);
      OneTs(next, n, next[j]);
      assert RenameFits(prev, next, j);
      DifferentSql(prev, q, PairOf(prev, n));
    }
  }

  lemma OrderedMeansFit(prev: seq<Column>, next: seq<Column>, j: nat)
    requires Distinct(prev) && Distinct(next) && RenamesOrdered(prev, next) && j < |next|
    ensures RenameFits(prev, next, j)
  {
    var n := next[j];
    if IsPaired(prev, n) && PairOf(prev, n).sqlName != n.sqlName {
      SameTs(next, n, j);
      forall q | q in prev && q.sqlName == n.sqlName
        ensures 0 <= FindTs(next, q.tsName) < j
      {
        if q.tsName == n.tsName { OneTs(prev, q, PairOf(prev, n)); }
      }
    }
  }

  lemma FitIsOrdered(prev: seq<Column>, next: seq<Column>)
    requires Distinct(prev) && Distinct(next)
    ensures AllRenamesFit(prev, next, |next|) <==> RenamesOrdered(prev, next)
  {
    if AllRenamesFit(prev, next, |next|) {
      FitMeansOrdered(prev, next);
    } else if RenamesOrdered(prev, next) {
      forall j | 0 <= j < |next| {
        OrderedMeansFit(prev, next, j);
      }
      assert false;
    }
  }

  /** Why the column of this name is in the table once everything has run. */
  ghost predicate IsAccounted(prev: seq<Column>, next: seq<Column>, s: string) {
    || (exists n :: n in next && (IsPaired(prev, n) || IsAdded(prev, n)) && n.sqlName == s)
    || (exists p :: p in prev && IsLeft(p, next) && p.sqlName == s)
  }

  /** What the columns are once everything has run, from what they were. */
  ghost predicate FinalFrom(cols: Columns, value: Column -> Attributes, prev: seq<Column>, next: seq<Column>,
      manual: Manual) {
    && (forall n | n in next && IsPaired(prev, n) ::
          n.sqlName in cols && cols[n.sqlName] == Landed(prev, n, manual, value(PairOf(prev, n))))
    && (forall n | n in next && IsAdded(prev, n) :: n.sqlName in cols && cols[n.sqlName] == n.AddedAttrs())
    && (forall p | p in prev && IsLeft(p, next) :: p.sqlName in cols && cols[p.sqlName] == value(p))
    && (forall s | s in cols :: IsAccounted(prev, next, s))
  }

  /** What they are when they were the previous ones. */
  ghost predicate Final(cols: Columns, prev: seq<Column>, next: seq<Column>, manual: Manual) {
    && (forall n | n in next && IsPaired(prev, n) ::
          n.sqlName in cols && cols[n.sqlName] == Target(PairOf(prev, n), n, manual))
    && (forall n | n in next && IsAdded(prev, n) :: n.sqlName in cols && cols[n.sqlName] == n.AddedAttrs())
    && (forall p | p in prev && IsLeft(p, next) :: p.sqlName in cols && cols[p.sqlName] == p.Attrs())
    && (forall s | s in cols :: IsAccounted(prev, next, s))
  }

  lemma FinalFromPrevious(cols: Columns, prev: seq<Column>, next: seq<Column>, manual: Manual)
    requires FinalFrom(cols, AttrsOf, prev, next, manual)
    ensures Final(cols, prev, next, manual)
  {
    hide IsPaired, IsAdded, IsLeft, IsAccounted, Landed, Target;
    forall n | n in next && IsPaired(prev, n)
      ensures n.sqlName in cols && cols[n.sqlName] == Target(PairOf(prev, n), n, manual)
    {
      LandsOnTarget(prev, n, manual);
    }
  }

  ghost predicate AddedApart(prev: seq<Column>, next: seq<Column>) {
    forall n, m | n in next && m in next && IsAdded(prev, n) && IsPaired(prev, m) :: n.sqlName != m.sqlName
  }

  lemma AddedIsApart(prev: seq<Column>, next: seq<Column>)
    requires DistinctSql(next)
    ensures AddedApart(prev, next)
  {
    forall n, m | n in next && m in next && IsAdded(prev, n) && IsPaired(prev, m)
      ensures n.sqlName != m.sqlName
    {
      DifferentSql(next, n, m);
    }
  }

  lemma AddedIsFinal(base: Columns, added: Columns, cols: Columns, prev: seq<Column>, next: seq<Column>,
      manual: Manual, n: Column)
    requires AddedApart(prev, next) && n in next && IsAdded(prev, n)
    requires AfterAdds(added, base, Schema(), prev, next, |next|) && UpToDate(cols, added, prev, next, manual)
    ensures n.sqlName in cols && cols[n.sqlName] == n.AddedAttrs()
  {
    hide IsAdded, IsPaired, Landed;
    assert next[..|next|] == next;
    assert !IsAlteredName(prev, next, n.sqlName);
  }

  lemma LeftIsFinal(base: Columns, added: Columns, cols: Columns, value: Column -> Attributes, prev: seq<Column>,
      next: seq<Column>, manual: Manual, p: Column)
    requires Renamed(base, value, prev, next) && p in prev && IsLeft(p, next)
    requires AfterAdds(added, base, Schema(), prev, next, |next|) && UpToDate(cols, added, prev, next, manual)
    ensures p.sqlName in cols && cols[p.sqlName] == value(p)
  {
    hide IsAdded, IsPaired, IsLeft, Landed;
    assert !IsAlteredName(prev, next, p.sqlName);
  }

  lemma NameIsAccounted(base: Columns, added: Columns, value: Column -> Attributes, prev: seq<Column>,
      next: seq<Column>, s: string)
    requires Renamed(base, value, prev, next) && AfterAdds(added, base, Schema(), prev, next, |next|) && s in added
    ensures IsAccounted(prev, next, s)
  {
    hide IsAdded, IsPaired, IsLeft;
    assert next[..|next|] == next;
    if s in base {
      if n :| n in next && IsPaired(prev, n) && n.sqlName == s {
      } else {
        var p :| p in prev && IsLeft(p, next) && p.sqlName == s;
      }
    } else {
      var n :| n in next && IsAdded(prev, n) && n.sqlName == s;
    }
  }

  lemma PairedIsFinal(base: Columns, added: Columns, cols: Columns, value: Column -> Attributes, prev: seq<Column>,
      next: seq<Column>, manual: Manual, n: Column)
    requires Renamed(base, value, prev, next) && n in next && IsPaired(prev, n)
    requires AfterAdds(added, base, Schema(), prev, next, |next|) && UpToDate(cols, added, prev, next, manual)
    ensures n.sqlName in cols && cols[n.sqlName] == Landed(prev, n, manual, value(PairOf(prev, n)))
  {
    hide IsAdded, IsPaired, IsLeft, Landed, IsAlteredName;
    assert n.sqlName in base;
  }

  lemma FinalFromParts(base: Columns, added: Columns, cols: Columns, value: Column -> Attributes, prev: seq<Column>,
      next: seq<Column>, manual: Manual)
    requires AddedApart(prev, next) && Renamed(base, value, prev, next)
    requires AfterAdds(added, base, Schema(), prev, next, |next|)
        && AfterAlters(cols, added, prev, next, manual, |next|)
    ensures FinalFrom(cols, value, prev, next, manual)
  {
    hide IsAdded, IsPaired, IsLeft, IsAccounted, Renamed, AfterAdds, Landed;
    assert next[..|next|] == next;
    assert UpToDate(cols, added, prev, next, manual);
    assert cols.Keys == added.Keys;
    hide UpToDate;
    forall n | n in next && IsPaired(prev, n)
      ensures n.sqlName in cols && cols[n.sqlName] == Landed(prev, n, manual, value(PairOf(prev, n)))
    {
      PairedIsFinal(base, added, cols, value, prev, next, manual, n);
    }
    forall n | n in next && IsAdded(prev, n)
      ensures n.sqlName in cols && cols[n.sqlName] == n.AddedAttrs()
    {
      AddedIsFinal(base, added, cols, prev, next, manual, n);
    }
    forall p | p in prev && IsLeft(p, next)
      ensures p.sqlName in cols && cols[p.sqlName] == value(p)
    {
      LeftIsFinal(base, added, cols, value, prev, next, manual, p);
    }
    forall s | s in cols
      ensures IsAccounted(prev, next, s)
    {
      NameIsAccounted(base, added, value, prev, next, s);
    }
  }

  lemma FinishRun(base: Columns, value: Column -> Attributes, prev: seq<Column>, next: seq<Column>, manual: Manual)
    returns (cols: Columns)
    requires Distinct(prev) && Distinct(next) && Renamed(base, value, prev, next)
    ensures RunColumns(AddStatements(AddsOf(prev, next)) + AlterStatements(AltersUnder(prev, next, manual)), base)
        == Some(cols)
    ensures FinalFrom(cols, value, prev, next, manual)
  {
    hide IsAdded;
    hide IsPaired;
    hide FinalFrom;
    assert next[..|next|] == next;
    AddedIsApart(prev, next);
    var added := AddsRun(base, Schema(), prev, next, |next|);
    assert BaseForAlters(added, prev, next);
    cols := AltersRun(added, prev, next, manual, |next|);
    FinalFromParts(base, added, cols, value, prev, next, manual);
    RunConcat(AddStatements(AddsOf(prev, next)), AlterStatements(AltersUnder(prev, next, manual)), base, Schema());
  }

  lemma LeftsMatchAtEnd(cols: Columns, prev: seq<Column>, next: seq<Column>, manual: Manual, q: Column, n: Column)
    requires Distinct(prev) && Distinct(next) && Final(cols, prev, next, manual)
    requires n.sqlName in cols && cols[n.sqlName] == n.Attrs()
    requires q in prev && n in next && q.sqlName == n.sqlName && !IsPaired(prev, n)
    ensures FindTs(next, q.tsName) < 0 && q.Attrs() == n.Attrs()
  {
    var s := n.sqlName;
    assert !IsAdded(prev, n);
    forall m | m in next && (IsPaired(prev, m) || IsAdded(prev, m))
      ensures m.sqlName != s
    {
      DifferentSql(next, m, n);
    }
    assert IsAccounted(prev, next, s);
    var p :| p in prev && IsLeft(p, next) && p.sqlName == s;
    OneSql(prev, p, q);
  }

  lemma LeftPartner(prev: seq<Column>, next: seq<Column>, n: Column) returns (q: Column)
    requires LeftsMatch(prev, next) && n in next && !IsPaired(prev, n) && !IsAdded(prev, n)
    ensures q in prev && q.sqlName == n.sqlName && IsLeft(q, next) && q.Attrs() == n.Attrs()
  {
    q := prev[FindSql(prev, n.sqlName)];
  }

  lemma NextIsReached(cols: Columns, prev: seq<Column>, next: seq<Column>, manual: Manual, n: Column)
    requires Final(cols, prev, next, manual) && LeftsMatch(prev, next) && AddsExact(prev, next)
        && NoManual(prev, next, manual) && n in next
    ensures n.sqlName in cols && cols[n.sqlName] == n.Attrs()
  {
    hide IsPaired;
    hide IsAdded;
    hide IsLeft;
    hide LeftsMatch;
    if !IsPaired(prev, n) && !IsAdded(prev, n) {
      var q := LeftPartner(prev, next, n);
    }
  }

  lemma NothingElse(cols: Columns, prev: seq<Column>, next: seq<Column>, manual: Manual, s: string)
    requires Final(cols, prev, next, manual) && s in cols
    ensures exists n :: n in next && n.sqlName == s
  {
    assert IsAccounted(prev, next, s);
    if p :| p in prev && IsLeft(p, next) && p.sqlName == s {
      assert next[FindSql(next, s)] in next;
    }
  }

  lemma FinalIsNext(cols: Columns, prev: seq<Column>, next: seq<Column>, manual: Manual)
    requires Distinct(prev) && Distinct(next) && Final(cols, prev, next, manual)
    ensures cols == ColumnsOf(next) <==> LeftsMatch(prev, next) && AddsExact(prev, next) && NoManual(prev, next, manual)
  {
    if cols == ColumnsOf(next) {
      forall n | n in next
        ensures n.sqlName in cols && cols[n.sqlName] == n.Attrs()
      {
      }
      forall q, n | q in prev && n in next && q.sqlName == n.sqlName && !IsPaired(prev, n)
        ensures FindTs(next, q.tsName) < 0 && q.Attrs() == n.Attrs()
      {
        LeftsMatchAtEnd(cols, prev, next, manual, q, n);
      }
    }
    if LeftsMatch(prev, next) && AddsExact(prev, next) && NoManual(prev, next, manual) {
      SameAsNext(cols, prev, next, manual);
    }
  }

  lemma SameAsNext(cols: Columns, prev: seq<Column>, next: seq<Column>, manual: Manual)
    requires Distinct(prev) && Distinct(next) && Final(cols, prev, next, manual)
    requires LeftsMatch(prev, next) && AddsExact(prev, next) && NoManual(prev, next, manual)
    ensures cols == ColumnsOf(next)
  {
    hide LeftsMatch;
    hide AddsExact;
    forall n | n in next
      ensures n.sqlName in cols && cols[n.sqlName] == n.Attrs()
    {
      NextIsReached(cols, prev, next, manual, n);
    }
    forall s | s in cols
      ensures exists n :: n in next && n.sqlName == s
    {
      NothingElse(cols, prev, next, manual, s);
    }
    hide Final;
    hide DistinctTs;
    AreCellsOf(cols, next, AttrsOf);
  }

  /** The emitted statements without the manual type changes. */
  ghost function StatementsUnder(prev: seq<Column>, next: seq<Column>, manual: Manual): seq<Statement> {
    Statements(Diff(prev, next).(alterColumns := AltersUnder(prev, next, manual)))
  }

  lemma StatementsRun(diff: TableDiff, cols: Columns)
    ensures var rest := AddStatements(diff.addColumns) + AlterStatements(diff.alterColumns);
            RunColumns(Statements(diff), cols) ==
            match RunColumns(DropStatements(diff.dropColumns), cols)
            case None => None
            case Some(kept) =>
              match RunColumns(RenameStatements(diff.renameColumns), kept)
              case None => None
              case Some(renamed) => RunColumns(rest, renamed)
  {
    var drops, renames := DropStatements(diff.dropColumns), RenameStatements(diff.renameColumns);
    var rest := AddStatements(diff.addColumns) + AlterStatements(diff.alterColumns);
    assert Statements(diff) == drops + (renames + rest);
    RunConcat(drops, renames + rest, cols, Schema());
    if RunColumns(drops, cols).Some? {
      RunConcat(renames, rest, RunColumns(drops, cols).value, Schema());
    }
  }

  /** The emitted statements, manual type changes left out, run on any table with the previous
      columns' names exactly when the renames are ordered, and then every column ends as its alter
      makes it of what it was. */
  lemma ResolvedRuns(prev: seq<Column>, next: seq<Column>, manual: Manual, value: Column -> Attributes)
    requires Distinct(prev) && Distinct(next)
    ensures var r := RunColumns(StatementsUnder(prev, next, manual), CellsOf(prev, value));
            && (r.Some? <==> RenamesOrdered(prev, next))
            && (r.Some? ==> FinalFrom(r.value, value, prev, next, manual))
  {
    var start := CellsOf(prev, value);
    StatementsRun(Diff(prev, next).(alterColumns := AltersUnder(prev, next, manual)), start);
    hide Tracks, Renamed, FinalFrom, RenamesOrdered, Statements, RunColumns, DropStatements, RenameStatements,
        AddStatements, AlterStatements, DropsOf, RenamesOf, AddsOf, AltersUnder;
    var kept := DropsTrack(Schema(), value, prev, next);
    assert next[..|next|] == next;
    RenamesTrack(kept, Schema(), value, prev, next, |next|);
    var renames := RenameStatements(RenamesOf(prev, next));
    FitIsOrdered(prev, next);
    if RunColumns(renames, kept).Some? {
      var renamed := RunColumns(renames, kept).value;
      TracksRenamed(renamed, value, prev, next);
      var cols := FinishRun(renamed, value, prev, next, manual);
    }
  }

  /** Main result: running the emitted statements, manual type changes left out, succeeds on
      the previous columns and gives exactly the next ones, types, nullability and defaults
      included, if and only if the two tables are reconcilable and no type change is manual. */
  lemma ResolvedReachesNext(prev: seq<Column>, next: seq<Column>, manual: Manual)
    requires Distinct(prev) && Distinct(next)
    ensures RunColumns(StatementsUnder(prev, next, manual), ColumnsOf(prev)) == Some(ColumnsOf(next))
            <==> Reconcilable(prev, next) && NoManual(prev, next, manual)
  {
    hide Final, FinalFrom, RenamesOrdered, LeftsMatch, AddsExact, NoManual, StatementsUnder, RunColumns;
    ResolvedRuns(prev, next, manual, AttrsOf);
    var r := RunColumns(StatementsUnder(prev, next, manual), ColumnsOf(prev));
    if r.Some? {
      FinalFromPrevious(r.value, prev, next, manual);
      FinalIsNext(r.value, prev, next, manual);
    }
  }

  lemma {:induction false} NothingManual(prev: seq<Column>, cols: seq<Column>)
    ensures AltersUnder(prev, cols, (from, to) => false) == AltersOf(prev, cols)
  {
    hide AlterOf;
    if cols != [] {
      NothingManual(prev, cols[..|cols| - 1]);
      AlterOfShort(prev, cols[|cols| - 1]);
    }
  }

  lemma AlterOfShort(prev: seq<Column>, n: Column)
    ensures |AlterOf(prev, n)| <= 1
  {
  }

  /** The whole diff, nothing left out. */
  lemma DiffReachesNext(prev: seq<Column>, next: seq<Column>)
    requires Distinct(prev) && Distinct(next)
    ensures RunColumns(Statements(Diff(prev, next)), ColumnsOf(prev)) == Some(ColumnsOf(next))
        <==> Reconcilable(prev, next)
  {
    hide Reconcilable;
    NothingManual(prev, next);
    ResolvedReachesNext(prev, next, (from, to) => false);
  }

  /** Where the tables are reconcilable every column ends as the manifest declares it: a member of
      the primary key takes no NULL, and a default of the current time goes before a value. */
  lemma LooksAsDeclared(prev: seq<Column>, next: seq<Column>, n: Column)
    requires Distinct(prev) && Distinct(next) && Reconcilable(prev, next) && n in next
    ensures var r := RunColumns(Statements(Diff(prev, next)), ColumnsOf(prev));
            && r.Some? && n.sqlName in r.value
            && r.value[n.sqlName].sqlType == n.sqlType
            && (r.value[n.sqlName].nullable <==> n.nullable && !n.primary)
            && r.value[n.sqlName].default ==
               if n.defaultNow then Now else if n.defaultValue.Some? then Literal(n.defaultValue.value) else NoDefault
  {
    hide Reconcilable, RunColumns, Statements, Diff, DistinctTs, DistinctSql;
    DiffReachesNext(prev, next);
  }

  /** Adding a column makes of it what is declared unless it is a nullable member of a key with
      other members. */
  lemma AddsExactly(prev: seq<Column>, next: seq<Column>)
    requires forall n | n in next :: n.solePrimary ==> n.primary
    ensures AddsExact(prev, next) <==>
            forall n | n in next && IsAdded(prev, n) :: !(n.nullable && n.primary && !n.solePrimary)
  {
    hide IsAdded;
    forall n | n in next && IsAdded(prev, n)
      ensures n.AddedAttrs() == n.Attrs() <==> !(n.nullable && n.primary && !n.solePrimary)
    {
    }
  }

  /** The differ and the emitter together: the statements they produce for a table take its previous
      columns to exactly the next ones if and only if the two are reconcilable. */
  method AlterTable(prev: seq<Column>, next: seq<Column>) returns (stmts: seq<Statement>)
    requires Distinct(prev) && Distinct(next)
    ensures stmts == Statements(Diff(prev, next))
    ensures RunColumns(stmts, ColumnsOf(prev)) == Some(ColumnsOf(next)) <==> Reconcilable(prev, next)
  {
    hide Statements, Reconcilable, RunColumns, ColumnsOf, Diff;
    var diff := DiffColumns(prev, next);
    stmts := EmitAlterTable(diff);
    DiffReachesNext(prev, next);
  }
}
