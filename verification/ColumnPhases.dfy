/** Drops, renames and adds, followed over whatever a table keeps per column: each previous
    column's cell ends up under its new name, each new column gets a fresh one. */
module ColumnPhases {
  import opened Common
  import opened Ddl
  import opened ColumnDiff

  // ----- Where every column is while the statements run -----

  ghost predicate Kept(p: Column, next: seq<Column>) {
    !IsDropped(p, next)
  }

  /** What a kept previous column is called once the first `k` next columns have had their rename. */
  ghost function Name(next: seq<Column>, k: nat, p: Column): string {
    var j := FindTs(next, p.tsName);
    if 0 <= j < k then next[j].sqlName else p.sqlName
  }

  /** The columns of the table are exactly the kept previous ones under their current names. */
  ghost predicate Tracks<T>(cols: map<string, T>, value: Column -> T, prev: seq<Column>, next: seq<Column>, k: nat) {
    && (forall p | p in prev && Kept(p, next) :: Name(next, k, p) in cols && cols[Name(next, k, p)] == value(p))
    && (forall s | s in cols :: exists p :: p in prev && Kept(p, next) && Name(next, k, p) == s)
    && (forall p, q | p in prev && q in prev && Kept(p, next) && Kept(q, next) && p != q ::
          Name(next, k, p) != Name(next, k, q))
  }

  lemma SameTs(cols: seq<Column>, c: Column, i: nat)
    requires DistinctTs(cols) && i < |cols| && cols[i].tsName == c.tsName
    ensures FindTs(cols, c.tsName) == i
    ensures c in cols ==> c == cols[i]
  {
  }

  lemma SameSql(cols: seq<Column>, c: Column, i: nat)
    requires DistinctSql(cols) && i < |cols| && cols[i].sqlName == c.sqlName
    ensures FindSql(cols, c.sqlName) == i
    ensures c in cols ==> c == cols[i]
  {
  }

  /** The columns after the drops among the first `k` previous columns. */
  ghost predicate AfterDrops<T>(cols: map<string, T>, value: Column -> T, prev: seq<Column>, next: seq<Column>, k: nat)
    requires k <= |prev|
  {
    && (forall p | p in prev :: p.sqlName in cols <==> !(p in prev[..k] && IsDropped(p, next)))
    && (forall p | p in prev && p.sqlName in cols :: cols[p.sqlName] == value(p))
    && (forall s | s in cols :: exists p :: p in prev && p.sqlName == s)
  }

  lemma DropStep<T>(cols: map<string, T>, value: Column -> T, prev: seq<Column>, next: seq<Column>, k: nat)
    requires DistinctSql(prev) && k < |prev| && AfterDrops(cols, value, prev, next, k)
    ensures prev[k].sqlName in cols
    ensures AfterDrops(if IsDropped(prev[k], next) then cols - {prev[k].sqlName} else cols, value, prev, next, k + 1)
  {
    hide IsDropped;
    var p := prev[k];
    assert prev[..k + 1] == prev[..k] + [p];
    forall q | q in prev && q.sqlName == p.sqlName
      ensures q == p && q !in prev[..k]
    {
      var i :| 0 <= i < |prev| && prev[i] == q;
    }
  }

  lemma {:induction false} DropsRun<T>(start: map<string, T>, r: Reading<T>, value: Column -> T, prev: seq<Column>,
      next: seq<Column>, k: nat) returns (cols: map<string, T>)
    requires DistinctSql(prev) && k <= |prev| && AfterDrops(start, value, prev, next, 0)
    ensures Run(DropStatements(DropsOf(prev[..k], next)), start, r) == Some(cols)
    ensures AfterDrops(cols, value, prev, next, k)
  {
    hide IsDropped;
    hide AfterDrops;
    if k == 0 {
      cols := start;
    } else {
      cols := DropsRun(start, r, value, prev, next, k - 1);
      DropStep(cols, value, prev, next, k - 1);
      assert prev[..k][..k - 1] == prev[..k - 1];
      var p := prev[k - 1];
      var names := DropsOf(prev[..k - 1], next);
      assert names + [] == names;
      if IsDropped(p, next) {
        assert (names + [p.sqlName])[..|names|] == names;
        RunSnoc(DropStatements(names), DropColumn(p.sqlName), start, r);
        cols := cols - {p.sqlName};
      }
    }
  }

  lemma DroppedTracks<T>(cols: map<string, T>, value: Column -> T, prev: seq<Column>, next: seq<Column>)
    requires DistinctSql(prev) && AfterDrops(cols, value, prev, next, |prev|)
    ensures Tracks(cols, value, prev, next, 0)
  {
    hide IsDropped;
    assert prev[..|prev|] == prev;
    forall p, q | p in prev && q in prev && p != q
      ensures p.sqlName != q.sqlName
    {
      var i, j :| 0 <= i < |prev| && 0 <= j < |prev| && prev[i] == p && prev[j] == q;
    }
  }

  /** Dropping always succeeds and leaves exactly the kept columns, under their own names. */
  lemma DropsTrack<T>(r: Reading<T>, value: Column -> T, prev: seq<Column>, next: seq<Column>)
    returns (cols: map<string, T>)
    requires DistinctSql(prev)
    ensures Run(DropStatements(DropsOf(prev, next)), CellsOf(prev, value), r) == Some(cols)
    ensures Tracks(cols, value, prev, next, 0)
  {
    hide Tracks;
    assert prev[..|prev|] == prev;
    assert AfterDrops(CellsOf(prev, value), value, prev, next, 0);
    hide AfterDrops;
    cols := DropsRun(CellsOf(prev, value), r, value, prev, next, |prev|);
    DroppedTracks(cols, value, prev, next);
  }

  /** The rename of `next[j]`, if it has one, finds its new name free: the previous column of
      that name, if any, has been renamed away before. */
  ghost predicate RenameFits(prev: seq<Column>, next: seq<Column>, j: nat)
    requires j < |next|
  {
    var i := FindTs(prev, next[j].tsName);
    i >= 0 && prev[i].sqlName != next[j].sqlName ==>
      forall q | q in prev && q.sqlName == next[j].sqlName :: 0 <= FindTs(next, q.tsName) < j
  }

  /** One rename: it is accepted exactly when it fits, and then the columns stay tracked. */
  lemma RenameStep<T>(cols: map<string, T>, r: Reading<T>, value: Column -> T, prev: seq<Column>, next: seq<Column>,
      k: nat)
    requires Distinct(prev) && Distinct(next) && k < |next| && Tracks(cols, value, prev, next, k)
    requires RenameOf(prev, next[k]) != []
    ensures var rename := RenameOf(prev, next[k])[0];
            var after := Exec(RenameColumn(rename.from, rename.to), cols, r);
            && (after.Some? <==> RenameFits(prev, next, k))
            && (after.Some? ==> Tracks(after.value, value, prev, next, k + 1))
  {
    var n := next[k];
    var p := prev[FindTs(prev, n.tsName)];
    SameTs(next, p, k);
    assert p in prev && Kept(p, next) && Name(next, k, p) == p.sqlName;
    forall q | q in prev && Kept(q, next)
      ensures Name(next, k, q) == n.sqlName <==> q.sqlName == n.sqlName && !(0 <= FindTs(next, q.tsName) < k)
    {
    }
    if RenameFits(prev, next, k) {
      assert n.sqlName !in cols;
      RenameKeepsTrack(cols, value, prev, next, k, p);
    } else {
      var q :| q in prev && q.sqlName == n.sqlName && !(0 <= FindTs(next, q.tsName) < k);
      SameSql(next, q, k);
      assert Kept(q, next) && Name(next, k, q) == n.sqlName;
    }
  }

  lemma OthersStay(prev: seq<Column>, next: seq<Column>, k: nat, p: Column, q: Column)
    requires DistinctTs(prev) && k < |next| && p in prev && p.tsName == next[k].tsName && q in prev && q != p
    ensures Name(next, k + 1, q) == Name(next, k, q)
  {
    if q.tsName == p.tsName {
      OneTs(prev, p, q);
    }
  }

  lemma RenameKeepsTrack<T>(cols: map<string, T>, value: Column -> T, prev: seq<Column>, next: seq<Column>, k: nat,
      p: Column)
    requires Distinct(prev) && Distinct(next) && k < |next| && Tracks(cols, value, prev, next, k)
    requires p in prev && p.tsName == next[k].tsName && Kept(p, next)
    requires p.sqlName in cols && next[k].sqlName !in cols
    ensures Tracks((cols - {p.sqlName})[next[k].sqlName := cols[p.sqlName]], value, prev, next, k + 1)
  {
    var n := next[k];
    var cols' := (cols - {p.sqlName})[n.sqlName := cols[p.sqlName]];
    SameTs(next, p, k);
    assert Name(next, k, p) == p.sqlName && Name(next, k + 1, p) == n.sqlName;
    forall q | q in prev && Kept(q, next) && q != p
      ensures Name(next, k + 1, q) == Name(next, k, q)
      ensures Name(next, k, q) != p.sqlName
    {
      OthersStay(prev, next, k, p, q);
    }
    hide Name, Kept, DistinctTs, DistinctSql;
    forall s | s in cols'
      ensures exists q :: q in prev && Kept(q, next) && Name(next, k + 1, q) == s
    {
      if s != n.sqlName {
        var q :| q in prev && Kept(q, next) && Name(next, k, q) == s;
        assert Name(next, k + 1, q) == s;
      }
    }
  }

  lemma NoRenameKeepsTrack<T>(cols: map<string, T>, value: Column -> T, prev: seq<Column>, next: seq<Column>, k: nat)
    requires Distinct(prev) && Distinct(next) && k < |next| && Tracks(cols, value, prev, next, k)
    requires RenameOf(prev, next[k]) == []
    ensures Tracks(cols, value, prev, next, k + 1) && RenameFits(prev, next, k)
  {
    forall q | q in prev && Kept(q, next)
      ensures Name(next, k + 1, q) == Name(next, k, q)
    {
      if FindTs(next, q.tsName) == k {
        SameTs(prev, q, FindTs(prev, next[k].tsName));
      }
    }
  }

  lemma RenamesSnoc<T>(cols: map<string, T>, r: Reading<T>, prev: seq<Column>, next: seq<Column>, k: nat)
    requires k < |next|
    ensures var ran := Run(RenameStatements(RenamesOf(prev, next[..k])), cols, r);
            var step := RenameOf(prev, next[k]);
            Run(RenameStatements(RenamesOf(prev, next[..k + 1])), cols, r) ==
            if ran.None? || step == [] then ran else Exec(RenameColumn(step[0].from, step[0].to), ran.value, r)
  {
    assert next[..k + 1][..k] == next[..k];
    var rs := RenamesOf(prev, next[..k]);
    var step := RenameOf(prev, next[k]);
    if step == [] {
      assert rs + step == rs;
    } else {
      assert (rs + step)[..|rs|] == rs;
      RunSnoc(RenameStatements(rs), RenameColumn(step[0].from, step[0].to), cols, r);
    }
  }

  ghost predicate AllRenamesFit(prev: seq<Column>, next: seq<Column>, k: nat)
    requires k <= |next|
  {
    forall j | 0 <= j < k :: RenameFits(prev, next, j)
  }

  lemma FitSnoc(prev: seq<Column>, next: seq<Column>, k: nat)
    requires k < |next|
    ensures AllRenamesFit(prev, next, k + 1) <==> AllRenamesFit(prev, next, k) && RenameFits(prev, next, k)
  {
    hide RenameFits;
  }

  /** The renames are accepted exactly when each fits, and then every kept column ends up
      under its new name with its cell. */
  lemma {:induction false} RenamesTrack<T>(cols: map<string, T>, r: Reading<T>, value: Column -> T,
                                           prev: seq<Column>, next: seq<Column>, k: nat)
    requires Distinct(prev) && Distinct(next) && k <= |next| && Tracks(cols, value, prev, next, 0)
    ensures var ran := Run(RenameStatements(RenamesOf(prev, next[..k])), cols, r);
            && (ran.Some? <==> AllRenamesFit(prev, next, k))
            && (ran.Some? ==> Tracks(ran.value, value, prev, next, k))
  {
    hide Tracks;
    hide RenameFits;
    if k > 0 {
      RenamesTrack(cols, r, value, prev, next, k - 1);
      RenamesSnoc(cols, r, prev, next, k - 1);
      hide RenamesOf;
      hide RenameStatements;
      hide Run;
      FitSnoc(prev, next, k - 1);
      hide AllRenamesFit;
      var ran := Run(RenameStatements(RenamesOf(prev, next[..k - 1])), cols, r);
      if ran.Some? {
        if RenameOf(prev, next[k - 1]) == [] {
          NoRenameKeepsTrack(ran.value, value, prev, next, k - 1);
        } else {
          RenameStep(ran.value, r, value, prev, next, k - 1);
        }
      }
    }
  }

  // ----- After the renames: adds and alters -----

  lemma OneSql(cols: seq<Column>, a: Column, b: Column)
    requires DistinctSql(cols) && a in cols && b in cols && a.sqlName == b.sqlName
    ensures a == b
  {
    var i, j :| 0 <= i < |cols| && 0 <= j < |cols| && cols[i] == a && cols[j] == b;
  }

  lemma DifferentSql(cols: seq<Column>, a: Column, b: Column)
    requires DistinctSql(cols) && a in cols && b in cols && a != b
    ensures a.sqlName != b.sqlName
  {
    var i, j :| 0 <= i < |cols| && 0 <= j < |cols| && cols[i] == a && cols[j] == b;
  }

  lemma OneTs(cols: seq<Column>, a: Column, b: Column)
    requires DistinctTs(cols) && a in cols && b in cols && a.tsName == b.tsName
    ensures a == b
  {
    var i, j :| 0 <= i < |cols| && 0 <= j < |cols| && cols[i] == a && cols[j] == b;
  }

  ghost predicate IsPaired(prev: seq<Column>, n: Column) {
    FindTs(prev, n.tsName) >= 0
  }

  ghost function PairOf(prev: seq<Column>, n: Column): (p: Column)
    requires IsPaired(prev, n)
    ensures p in prev && p.tsName == n.tsName
  {
    prev[FindTs(prev, n.tsName)]
  }

  /** A previous column that no next column is paired with, but whose SQL name is still used. */
  ghost predicate IsLeft(p: Column, next: seq<Column>) {
    FindTs(next, p.tsName) < 0 && FindSql(next, p.sqlName) >= 0
  }

  /** The columns once all renames are done, seen from the next table. */
  ghost predicate Renamed<T>(cols: map<string, T>, value: Column -> T, prev: seq<Column>, next: seq<Column>) {
    && (forall n | n in next && IsPaired(prev, n) :: n.sqlName in cols && cols[n.sqlName] == value(PairOf(prev, n)))
    && (forall p | p in prev && IsLeft(p, next) :: p.sqlName in cols && cols[p.sqlName] == value(p))
    && (forall n | n in next && IsAdded(prev, n) :: n.sqlName !in cols)
    && (forall p, n | p in prev && IsLeft(p, next) && n in next && IsPaired(prev, n) :: p.sqlName != n.sqlName)
    && (forall s | s in cols ::
          || (exists n :: n in next && IsPaired(prev, n) && n.sqlName == s)
          || (exists p :: p in prev && IsLeft(p, next) && p.sqlName == s))
  }

  lemma PairedName(prev: seq<Column>, next: seq<Column>, n: Column)
    requires DistinctTs(next) && n in next && IsPaired(prev, n)
    ensures var p := PairOf(prev, n); Kept(p, next) && Name(next, |next|, p) == n.sqlName
  {
    OneTs(next, n, next[FindTs(next, n.tsName)]);
  }

  lemma LeftName(prev: seq<Column>, next: seq<Column>, p: Column)
    requires p in prev && IsLeft(p, next)
    ensures Kept(p, next) && Name(next, |next|, p) == p.sqlName
  {
  }

  lemma AddedName(prev: seq<Column>, next: seq<Column>, p: Column, n: Column)
    requires DistinctSql(next) && p in prev && Kept(p, next) && n in next && IsAdded(prev, n)
    ensures Name(next, |next|, p) != n.sqlName
  {
    var j := FindTs(next, p.tsName);
    if j >= 0 {
      DifferentSql(next, next[j], n);
    }
  }

  lemma KeptIs(prev: seq<Column>, next: seq<Column>, p: Column)
    requires p in prev && Kept(p, next)
    ensures (exists n :: n in next && IsPaired(prev, n) && n.sqlName == Name(next, |next|, p)) || IsLeft(p, next)
  {
    var j := FindTs(next, p.tsName);
    if j >= 0 {
      assert next[j] in next && IsPaired(prev, next[j]);
    }
  }

  lemma LeftApart<T>(cols: map<string, T>, value: Column -> T, prev: seq<Column>, next: seq<Column>, p: Column,
      n: Column)
    requires DistinctTs(next) && Tracks(cols, value, prev, next, |next|)
    requires p in prev && IsLeft(p, next) && n in next && IsPaired(prev, n)
    ensures p.sqlName != n.sqlName
  {
    PairedName(prev, next, n);
    LeftName(prev, next, p);
    assert p != PairOf(prev, n);
    hide IsLeft, IsPaired, PairOf, Name;
    assert Name(next, |next|, p) != Name(next, |next|, PairOf(prev, n));
  }

  lemma TracksRenamed<T>(cols: map<string, T>, value: Column -> T, prev: seq<Column>, next: seq<Column>)
    requires Distinct(prev) && Distinct(next) && Tracks(cols, value, prev, next, |next|)
    ensures Renamed(cols, value, prev, next)
  {
    hide IsLeft, IsPaired, IsAdded, Kept, Name, DistinctTs, DistinctSql;
    forall n | n in next && IsPaired(prev, n)
      ensures n.sqlName in cols && cols[n.sqlName] == value(PairOf(prev, n))
    {
      PairedName(prev, next, n);
    }
    forall p | p in prev && IsLeft(p, next)
      ensures p.sqlName in cols && cols[p.sqlName] == value(p)
    {
      LeftName(prev, next, p);
    }
    forall n | n in next && IsAdded(prev, n)
      ensures n.sqlName !in cols
    {
      forall p | p in prev && Kept(p, next) ensures Name(next, |next|, p) != n.sqlName {
        AddedName(prev, next, p, n);
      }
    }
    forall p, n | p in prev && IsLeft(p, next) && n in next && IsPaired(prev, n)
      ensures p.sqlName != n.sqlName
    {
      LeftApart(cols, value, prev, next, p, n);
    }
    forall s | s in cols
      ensures || (exists n :: n in next && IsPaired(prev, n) && n.sqlName == s)
              || (exists p :: p in prev && IsLeft(p, next) && p.sqlName == s)
    {
      var p :| p in prev && Kept(p, next) && Name(next, |next|, p) == s;
      KeptIs(prev, next, p);
      if IsLeft(p, next) {
        LeftName(prev, next, p);
      }
    }
  }

  lemma AddedAreFree<T>(cols: map<string, T>, value: Column -> T, prev: seq<Column>, next: seq<Column>)
    requires Renamed(cols, value, prev, next)
    ensures forall n | n in next && IsAdded(prev, n) :: n.sqlName !in cols
  {
  }

  /** `base` with the added columns among the first `k` next ones. */
  ghost predicate AfterAdds<T>(cols: map<string, T>, base: map<string, T>, r: Reading<T>, prev: seq<Column>,
      next: seq<Column>, k: nat)
    requires k <= |next|
  {
    && (forall s | s in base :: s in cols && cols[s] == base[s])
    && (forall n | n in next[..k] && IsAdded(prev, n) :: n.sqlName in cols && cols[n.sqlName] == r.added(n))
    && (forall s | s in cols && s !in base :: exists n :: n in next[..k] && IsAdded(prev, n) && n.sqlName == s)
  }

  lemma AddStep<T>(cols: map<string, T>, base: map<string, T>, r: Reading<T>, prev: seq<Column>, next: seq<Column>,
      k: nat)
    requires DistinctSql(next) && k < |next| && AfterAdds(cols, base, r, prev, next, k)
    requires IsAdded(prev, next[k]) ==> next[k].sqlName !in base
    ensures IsAdded(prev, next[k]) ==> next[k].sqlName !in cols
    ensures AfterAdds(if IsAdded(prev, next[k]) then cols[next[k].sqlName := r.added(next[k])] else cols,
                      base, r, prev, next, k + 1)
  {
    hide IsAdded;
    var n := next[k];
    assert next[..k + 1] == next[..k] + [n];
    forall m | m in next[..k]
      ensures m.sqlName != n.sqlName
    {
    }
    if IsAdded(prev, n) {
      assert n in next[..k + 1];
    }
  }

  lemma {:induction false} AddsRun<T>(base: map<string, T>, r: Reading<T>, prev: seq<Column>, next: seq<Column>,
      k: nat) returns (cols: map<string, T>)
    requires DistinctSql(next) && k <= |next|
    requires forall n | n in next && IsAdded(prev, n) :: n.sqlName !in base
    ensures Run(AddStatements(AddsOf(prev, next[..k])), base, r) == Some(cols)
    ensures AfterAdds(cols, base, r, prev, next, k)
  {
    hide IsAdded;
    if k == 0 {
      cols := base;
    } else {
      cols := AddsRun(base, r, prev, next, k - 1);
      AddStep(cols, base, r, prev, next, k - 1);
      hide AfterAdds;
      assert next[..k][..k - 1] == next[..k - 1];
      var n := next[k - 1];
      var adds := AddsOf(prev, next[..k - 1]);
      assert adds + [] == adds;
      if IsAdded(prev, n) {
        assert (adds + [n])[..|adds|] == adds;
        RunSnoc(AddStatements(adds), AddColumn(n), base, r);
        cols := cols[n.sqlName := r.added(n)];
      }
    }
  }
}
