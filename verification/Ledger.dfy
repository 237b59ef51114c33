/** The migration ledger: deploying the folders on disk, rolling back the latest migrations, and
    what every history of both keeps. */
module Ledger {
  import opened Common
  import opened MigrationNames

  /** A migration folder. A checksum stands for the text it was taken from. */
  datatype Folder<S> = Folder(up: string, down: Option<string>, before: Option<S>)

  type Disk<S> = map<string, Folder<S>>

  datatype Entry = Entry(name: string, checksum: Option<string>, downChecksum: Option<string>)

  /** The committed database: its ledger in id order, and everything else in it. */
  datatype State<D> = State(ledger: seq<Entry>, data: D)

  /** What the database does with a migration file, and whether the file would create a table
      that is already there. */
  datatype Database<!D> = Database(run: (string, D) -> Option<D>, collides: (string, D) -> bool)

  function Names(ledger: seq<Entry>): seq<string> {
    if ledger == [] then [] else Names(ledger[..|ledger| - 1]) + [ledger[|ledger| - 1].name]
  }

  lemma {:induction false} NamesAt(ledger: seq<Entry>)
    ensures |Names(ledger)| == |ledger| && forall i | 0 <= i < |ledger| :: Names(ledger)[i] == ledger[i].name
  {
    if ledger != [] {
      NamesAt(ledger[..|ledger| - 1]);
    }
  }

  // ----- Deploying -----

  /** The names on disk that were not applied, in order. */
  function Pending(names: seq<string>, applied: seq<string>): seq<string> {
    if names == [] then []
    else Pending(names[..|names| - 1], applied)
         + if names[|names| - 1] in applied then [] else [names[|names| - 1]]
  }

  function Latest(names: seq<string>): string
    requires names != []
  {
    if |names| == 1 then names[0]
    else
      var rest := Latest(names[..|names| - 1]);
      if Before(rest, names[|names| - 1]) then names[|names| - 1] else rest
  }

  ghost predicate Verified<S>(ledger: seq<Entry>, disk: Disk<S>) {
    forall e | e in ledger :: e.name in disk && e.checksum == Some(disk[e.name].up)
  }

  ghost predicate InOrder(applied: seq<string>, pending: seq<string>) {
    applied != [] ==> forall p | p in pending :: !Before(p, Latest(applied))
  }

  function EntryFor<S>(name: string, folder: Folder<S>): Entry {
    Entry(name, Some(folder.up), folder.down)
  }

  function Apply<D, S>(st: State<D>, name: string, folder: Folder<S>, db: Database<D>): Option<State<D>> {
    match db.run(folder.up, st.data)
    case None => None
    case Some(data) => Some(State(st.ledger + [EntryFor(name, folder)], data))
  }

  function ApplyAll<D, S>(st: State<D>, names: seq<string>, disk: Disk<S>, db: Database<D>): Option<State<D>>
    requires forall n | n in names :: n in disk
  {
    if names == [] then Some(st)
    else match ApplyAll(st, names[..|names| - 1], disk, db)
         case None => None
         case Some(before) => Apply(before, names[|names| - 1], disk[names[|names| - 1]], db)
  }

  lemma {:induction false} PendingAre(names: seq<string>, applied: seq<string>)
    ensures forall n :: n in Pending(names, applied) <==> n in names && n !in applied
  {
    if names != [] {
      PendingAre(names[..|names| - 1], applied);
      assert names == names[..|names| - 1] + [names[|names| - 1]];
    }
  }

  ghost function PendingOn<S>(ledger: seq<Entry>, disk: Disk<S>): (names: seq<string>)
    ensures forall n | n in names :: n in disk
  {
    SortedIsSorted(disk.Keys);
    PendingAre(Sorted(disk.Keys), Names(ledger));
    Pending(Sorted(disk.Keys), Names(ledger))
  }

  /** Whether a deploy gets as far as running migrations. */
  ghost predicate MayDeploy<D, S>(st: State<D>, disk: Disk<S>, db: Database<D>) {
    var pending := PendingOn(st.ledger, disk);
    && Verified(st.ledger, disk)
    && InOrder(Names(st.ledger), pending)
    && forall n | n in pending :: !db.collides(disk[n].up, st.data)
  }

  /** What a deploy commits, or None if it fails. */
  ghost function Deployed<D, S>(st: State<D>, disk: Disk<S>, db: Database<D>): Option<State<D>> {
    if MayDeploy(st, disk, db) then ApplyAll(st, PendingOn(st.ledger, disk), disk, db) else None
  }

  // ----- A successful deploy records exactly what is on disk -----

  lemma {:induction false} LatestIsLast(names: seq<string>)
    requires names != []
    ensures Latest(names) in names && forall n | n in names :: n == Latest(names) || Before(n, Latest(names))
  {
    hide Before;
    if |names| > 1 {
      var rest, last := names[..|names| - 1], names[|names| - 1];
      LatestIsLast(rest);
      assert names == rest + [last];
      BeforeTotal(Latest(rest), last);
      forall n | n in names ensures n == Latest(names) || Before(n, Latest(names)) {
        if n in rest && n != Latest(rest) && Before(Latest(rest), last) {
          BeforeTransitive(n, Latest(rest), last);
        }
      }
    }
  }

  lemma {:induction false} PendingAscend(names: seq<string>, applied: seq<string>)
    requires Ascending(names)
    ensures Ascending(Pending(names, applied))
  {
    hide Before;
    if names != [] {
      var rest, last := names[..|names| - 1], names[|names| - 1];
      PendingAscend(rest, applied);
      PendingAre(rest, applied);
      forall n | n in Pending(rest, applied) ensures Before(n, last) {
      }
      AscendingOne(last);
      AscendingConcat(Pending(rest, applied), [last]);
    }
  }

  lemma {:induction false} AppliedBeforePending(applied: seq<string>, pending: seq<string>)
    requires InOrder(applied, pending) && forall p | p in pending :: p !in applied
    ensures forall a, p | a in applied && p in pending :: Before(a, p)
  {
    hide Before, Latest;
    forall a, p | a in applied && p in pending ensures Before(a, p) {
      LatestIsLast(applied);
      BeforeTotal(Latest(applied), p);
      if a != Latest(applied) {
        BeforeTransitive(a, Latest(applied), p);
      }
    }
  }

  lemma {:induction false} EntryAdded<S>(ledger: seq<Entry>, name: string, disk: Disk<S>)
    requires name in disk
    ensures var after := ledger + [EntryFor(name, disk[name])];
            && Names(after) == Names(ledger) + [name]
            && (Verified(ledger, disk) ==> Verified(after, disk))
  {
    var after := ledger + [EntryFor(name, disk[name])];
    assert after[..|after| - 1] == ledger;
  }

  lemma {:induction false} AppliedNames<D, S>(st: State<D>, names: seq<string>, disk: Disk<S>, db: Database<D>)
    requires forall n | n in names :: n in disk
    requires ApplyAll(st, names, disk, db).Some?
    ensures Names(ApplyAll(st, names, disk, db).value.ledger) == Names(st.ledger) + names
    ensures Verified(st.ledger, disk) ==> Verified(ApplyAll(st, names, disk, db).value.ledger, disk)
  {
    hide Names, Verified;
    if names == [] {
      assert Names(st.ledger) + [] == Names(st.ledger);
    } else {
      var rest, last := names[..|names| - 1], names[|names| - 1];
      AppliedNames(st, rest, disk, db);
      EntryAdded(ApplyAll(st, rest, disk, db).value.ledger, last, disk);
      assert Names(st.ledger) + rest + [last] == Names(st.ledger) + names;
    }
  }

  lemma {:induction false} AppliedOnDisk<S>(ledger: seq<Entry>, disk: Disk<S>)
    requires Verified(ledger, disk)
    ensures forall n | n in Names(ledger) :: n in disk
  {
    NamesAt(ledger);
    hide Names;
    forall n | n in Names(ledger) ensures n in disk {
      var i :| 0 <= i < |ledger| && Names(ledger)[i] == n;
      assert ledger[i] in ledger;
    }
  }

  /** After a successful deploy the ledger lists exactly the folders on disk, in order. */
  lemma {:induction false} DeployedListsDisk<D, S>(st: State<D>, disk: Disk<S>, db: Database<D>)
    requires Ascending(Names(st.ledger)) && Deployed(st, disk, db).Some?
    ensures var after := Deployed(st, disk, db).value;
            && Names(after.ledger) == Sorted(disk.Keys) && Ascending(Names(after.ledger))
            && Verified(after.ledger, disk) && st.ledger <= after.ledger
  {
    var applied, pending := Names(st.ledger), PendingOn(st.ledger, disk);
    AppliedNames(st, pending, disk, db);
    LedgerGrows(st, pending, disk, db);
    AppliedOnDisk(st.ledger, disk);
    hide Before, Ascending, ApplyAll, Apply, Names, Verified, Pending, Sorted;
    SortedIsSorted(disk.Keys);
    PendingAre(Sorted(disk.Keys), applied);
    PendingAscend(Sorted(disk.Keys), applied);
    AppliedBeforePending(applied, pending);
    AscendingConcat(applied, pending);
    SortedIs(disk.Keys, applied + pending);
  }

  lemma {:induction false} LedgerGrows<D, S>(st: State<D>, names: seq<string>, disk: Disk<S>, db: Database<D>)
    requires forall n | n in names :: n in disk
    requires ApplyAll(st, names, disk, db).Some?
    ensures st.ledger <= ApplyAll(st, names, disk, db).value.ledger
  {
    if names != [] {
      LedgerGrows(st, names[..|names| - 1], disk, db);
    }
  }

  lemma {:induction false} ApplyStops<D, S>(st: State<D>, names: seq<string>, n: nat, disk: Disk<S>, db: Database<D>)
    requires n <= |names| && forall x | x in names :: x in disk
    requires ApplyAll(st, names[..n], disk, db).None?
    ensures ApplyAll(st, names, disk, db).None?
    decreases |names|
  {
    if n < |names| {
      assert names[..|names| - 1][..n] == names[..n];
      ApplyStops(st, names[..|names| - 1], n, disk, db);
    } else {
      assert names[..n] == names;
    }
  }

  // ----- Rolling back -----

  ghost predicate CanRevert<S>(e: Entry, disk: Disk<S>) {
    e.name in disk && disk[e.name].down.Some? && e.downChecksum == disk[e.name].down
  }

  function Without(ledger: seq<Entry>, name: string): seq<Entry> {
    if ledger == [] then []
    else Without(ledger[..|ledger| - 1], name)
         + if ledger[|ledger| - 1].name == name then [] else [ledger[|ledger| - 1]]
  }

  /** The first entry with this name. */
  function Find(ledger: seq<Entry>, name: string): (e: Option<Entry>)
    ensures e.Some? ==> e.value in ledger && e.value.name == name
    ensures e.None? ==> forall x | x in ledger :: x.name != name
  {
    if ledger == [] then None
    else match Find(ledger[..|ledger| - 1], name)
         case Some(e) => Some(e)
         case None => if ledger[|ledger| - 1].name == name then Some(ledger[|ledger| - 1]) else None
  }

  /** Undoing one migration: refused unless it is applied and its down file is the recorded one. */
  ghost function Reverted<D, S>(st: State<D>, name: string, disk: Disk<S>, db: Database<D>): Option<State<D>> {
    var entry := Find(st.ledger, name);
    if entry.Some? && CanRevert(entry.value, disk) then
      match db.run(disk[name].down.value, st.data)
      case None => None
      case Some(data) => Some(State(Without(st.ledger, name), data))
    else None
  }

  /** Undoing several, stopping at the first that fails; with how many were undone. */
  ghost function RevertAll<D, S>(st: State<D>, names: seq<string>, disk: Disk<S>, db: Database<D>): (State<D>, nat)
    decreases |names|
  {
    if names == [] then (st, 0)
    else match Reverted(st, names[0], disk, db)
         case None => (st, 0)
         case Some(st') => var (last, n) := RevertAll(st', names[1..], disk, db); (last, n + 1)
  }

  datatype Outcome<D, S> = Outcome(state: State<D>, snapshot: S, done: bool)

  /** The last `steps` names, latest first. */
  function ToRevert(names: seq<string>, steps: nat): seq<string>
    requires steps <= |names|
  {
    Reverse(names[|names| - steps..])
  }

  ghost function Down<D, S>(st: State<D>, snapshot: S, disk: Disk<S>, db: Database<D>, steps: nat): Outcome<D, S> {
    if steps < 1 || steps > |st.ledger| then Outcome(st, snapshot, false)
    else
      NamesAt(st.ledger);
      var names := ToRevert(Names(st.ledger), steps);
      if exists n :: n in names && (n !in disk || disk[n].down.None?) then Outcome(st, snapshot, false)
      else
        var (after, reverted) := RevertAll(st, names, disk, db);
        var oldest := st.ledger[|st.ledger| - steps].name;
        if reverted < steps || oldest !in disk || disk[oldest].before.None? then Outcome(after, snapshot, false)
        else Outcome(after, disk[oldest].before.value, true)
  }

  // ----- The database that a ledger stands for -----

  /** The data after running these migrations, first to last, on `data`. */
  function Ups<D, S>(data: D, names: seq<string>, disk: Disk<S>, db: Database<D>): Option<D> {
    if names == [] then Some(data)
    else match Ups(data, names[..|names| - 1], disk, db)
         case None => None
         case Some(d) => if names[|names| - 1] in disk then db.run(disk[names[|names| - 1]].up, d) else None
  }

  ghost predicate StandsFor<D, S>(st: State<D>, empty: D, disk: Disk<S>, db: Database<D>) {
    Ups(empty, Names(st.ledger), disk, db) == Some(st.data)
  }

  /** Where the down file runs at all, it takes the database back to before the migration. */
  ghost predicate Inverts<D(!new), S>(f: Folder<S>, db: Database<D>) {
    f.down.Some? ==>
      forall d: D :: db.run(f.up, d).Some? && db.run(f.down.value, db.run(f.up, d).value).Some? ==>
                       db.run(f.down.value, db.run(f.up, d).value).value == d
  }

  ghost predicate AllInvert<D(!new), S>(disk: Disk<S>, db: Database<D>) {
    forall n | n in disk :: Inverts(disk[n], db)
  }

  /** What every history keeps. */
  ghost predicate Kept<D, S>(st: State<D>, empty: D, disk: Disk<S>, db: Database<D>) {
    Ascending(Names(st.ledger)) && Verified(st.ledger, disk) && StandsFor(st, empty, disk, db)
  }

  lemma {:induction false} UpsConcat<D, S>(data: D, a: seq<string>, b: seq<string>, disk: Disk<S>, db: Database<D>)
    ensures Ups(data, a + b, disk, db)
            == match Ups(data, a, disk, db) case None => None case Some(d) => Ups(d, b, disk, db)
    decreases |b|
  {
    if b == [] {
      assert a + b == a;
    } else {
      assert (a + b)[..|a + b| - 1] == a + b[..|b| - 1];
      UpsConcat(data, a, b[..|b| - 1], disk, db);
    }
  }

  lemma {:induction false} ApplyRunsUps<D, S>(st: State<D>, names: seq<string>, disk: Disk<S>, db: Database<D>)
    requires forall n | n in names :: n in disk
    ensures ApplyAll(st, names, disk, db).Some? <==> Ups(st.data, names, disk, db).Some?
    ensures ApplyAll(st, names, disk, db).Some? ==>
              Ups(st.data, names, disk, db) == Some(ApplyAll(st, names, disk, db).value.data)
  {
    if names != [] {
      ApplyRunsUps(st, names[..|names| - 1], disk, db);
    }
  }

  /** A deploy that starts from what a ledger stands for ends there too. */
  lemma {:induction false} DeployKeeps<D, S>(st: State<D>, empty: D, disk: Disk<S>, db: Database<D>)
    requires Kept(st, empty, disk, db) && Deployed(st, disk, db).Some?
    ensures Kept(Deployed(st, disk, db).value, empty, disk, db)
  {
    var pending := PendingOn(st.ledger, disk);
    DeployedListsDisk(st, disk, db);
    AppliedNames(st, pending, disk, db);
    hide Ascending, Verified, ApplyAll, Ups, Names;
    ApplyRunsUps(st, pending, disk, db);
    UpsConcat(empty, Names(st.ledger), pending, disk, db);
  }

  lemma {:induction false} LastNameIsNew(ledger: seq<Entry>)
    requires ledger != [] && Ascending(Names(ledger))
    ensures forall i | 0 <= i < |ledger| - 1 :: ledger[i].name != ledger[|ledger| - 1].name
  {
    hide Before;
    var n := |ledger| - 1;
    NamesAt(ledger);
    NotBeforeItself(ledger[n].name);
    forall i | 0 <= i < n ensures ledger[i].name != ledger[n].name {
      assert Before(Names(ledger)[i], Names(ledger)[n]);
    }
  }

  lemma {:induction false} LastWithout(ledger: seq<Entry>)
    requires ledger != [] && Ascending(Names(ledger))
    ensures Without(ledger, ledger[|ledger| - 1].name) == ledger[..|ledger| - 1]
  {
    LastNameIsNew(ledger);
    NoneWithout(ledger[..|ledger| - 1], ledger[|ledger| - 1].name);
  }

  lemma {:induction false} NoneWithout(ledger: seq<Entry>, name: string)
    requires forall i | 0 <= i < |ledger| :: ledger[i].name != name
    ensures Without(ledger, name) == ledger
  {
    if ledger != [] {
      NoneWithout(ledger[..|ledger| - 1], name);
    }
  }

  /** Undoing the latest migration leaves the ledger and the database before it. */
  lemma {:induction false} RevertLast<D(!new), S>(st: State<D>, empty: D, disk: Disk<S>, db: Database<D>)
    requires Kept(st, empty, disk, db) && AllInvert(disk, db) && st.ledger != []
    requires Reverted(st, st.ledger[|st.ledger| - 1].name, disk, db).Some?
    ensures var after := Reverted(st, st.ledger[|st.ledger| - 1].name, disk, db).value;
            after.ledger == st.ledger[..|st.ledger| - 1] && Kept(after, empty, disk, db)
  {
    hide Before, Inverts, Ups;
    var n := |st.ledger| - 1;
    var name := st.ledger[n].name;
    LastWithout(st.ledger);
    var d := BeforeLast(st, empty, disk, db);
    InvertsAt(disk[name], db, d);
    var names := Names(st.ledger);
    assert names[..|names| - 1] == Names(st.ledger[..n]);
    assert forall e | e in st.ledger[..n] :: e in st.ledger;
  }

  lemma {:induction false} InvertsAt<D(!new), S>(f: Folder<S>, db: Database<D>, d: D)
    requires Inverts(f, db) && f.down.Some? && db.run(f.up, d).Some?
    ensures var d' := db.run(f.up, d).value; db.run(f.down.value, d').Some? ==> db.run(f.down.value, d').value == d
  {
  }

  lemma {:induction false} LatestFirst(ledger: seq<Entry>, steps: nat)
    requires 1 <= steps <= |ledger|
    ensures |Names(ledger)| == |ledger| && |Names(ledger[..|ledger| - 1])| == |ledger| - 1
    ensures var todo := ToRevert(Names(ledger), steps);
            && todo != [] && todo[0] == ledger[|ledger| - 1].name
            && todo[1..] == ToRevert(Names(ledger[..|ledger| - 1]), steps - 1)
  {
    NamesAt(ledger);
    NamesAt(ledger[..|ledger| - 1]);
    var names, last := Names(ledger), |ledger| - 1;
    assert names[|names| - steps..][..steps - 1] == names[..last][last - (steps - 1)..];
  }

  /** Undoing the last migrations one after the other, however many of them succeed, leaves a
      prefix of the ledger and the database that this prefix stands for. */
  lemma {:induction false} RevertsToPrefix<D(!new), S>(st: State<D>, empty: D, disk: Disk<S>, db: Database<D>,
      steps: nat)
    requires Kept(st, empty, disk, db) && AllInvert(disk, db)
    requires steps <= |st.ledger| == |Names(st.ledger)|
    ensures var (after, n) := RevertAll(st, ToRevert(Names(st.ledger), steps), disk, db);
            && n <= steps && after.ledger == st.ledger[..|st.ledger| - n] && Kept(after, empty, disk, db)
    decreases steps
  {
    hide Kept, AllInvert, ToRevert, Reverted, Names;
    if steps == 0 {
      NothingToRevert(Names(st.ledger));
    } else {
      var last := |st.ledger| - 1;
      LatestFirst(st.ledger, steps);
      if Reverted(st, st.ledger[last].name, disk, db).Some? {
        RevertLast(st, empty, disk, db);
        var next := Reverted(st, st.ledger[last].name, disk, db).value;
        RevertsToPrefix(next, empty, disk, db, steps - 1);
      }
    }
  }

  lemma NothingToRevert(names: seq<string>)
    ensures ToRevert(names, 0) == []
  {
    assert names[|names|..] == [];
  }

  /** Rolling back leaves a prefix of the ledger with the database it stands for, even when it
      stops part-way. When it finishes, the prefix is `steps` shorter and the snapshot is the one
      stored before the oldest migration undone; otherwise the snapshot is left alone. */
  lemma {:induction false} DownLeavesPrefix<D(!new), S>(st: State<D>, empty: D, snapshot: S, disk: Disk<S>,
                                                        db: Database<D>, steps: nat)
    returns (n: nat)
    requires Kept(st, empty, disk, db) && AllInvert(disk, db)
    ensures n <= |st.ledger|
    ensures var o := Down(st, snapshot, disk, db, steps);
            && o.state.ledger == st.ledger[..|st.ledger| - n] && Kept(o.state, empty, disk, db)
            && (if o.done then 1 <= n == steps && st.ledger[|st.ledger| - n].name in disk
                               && disk[st.ledger[|st.ledger| - n].name].before == Some(o.snapshot)
                else o.snapshot == snapshot)
  {
    hide Kept, AllInvert, RevertAll, ToRevert, Names;
    n := 0;
    NamesAt(st.ledger);
    assert st.ledger[..|st.ledger|] == st.ledger;
    if 1 <= steps <= |st.ledger| {
      var names := ToRevert(Names(st.ledger), steps);
      if !(exists m :: m in names && (m !in disk || disk[m].down.None?)) {
        RevertsToPrefix(st, empty, disk, db, steps);
        n := RevertAll(st, names, disk, db).1;
      }
    }
  }

  /** The folder can take back whatever its migration did. */
  ghost predicate Undoes<D(!new), S>(f: Folder<S>, db: Database<D>) {
    && f.down.Some? && f.before.Some?
    && forall d: D :: db.run(f.up, d).Some? ==> db.run(f.down.value, db.run(f.up, d).value) == Some(d)
  }

  ghost predicate AllUndo<D(!new), S>(st: State<D>, disk: Disk<S>, db: Database<D>) {
    forall e | e in st.ledger :: CanRevert(e, disk) && Undoes(disk[e.name], db)
  }

  lemma {:induction false} FindLast(ledger: seq<Entry>)
    requires ledger != [] && Ascending(Names(ledger))
    ensures Find(ledger, ledger[|ledger| - 1].name) == Some(ledger[|ledger| - 1])
  {
    hide Find;
    LastNameIsNew(ledger);
    assert ledger[|ledger| - 1] in ledger;
    assert Find(ledger, ledger[|ledger| - 1].name).Some?;
  }

  lemma UndoesAt<D(!new), S>(f: Folder<S>, db: Database<D>, d: D)
    requires Undoes(f, db) && db.run(f.up, d).Some?
    ensures f.down.Some? && db.run(f.down.value, db.run(f.up, d).value) == Some(d)
  {
  }

  lemma {:induction false} LastReverts<D(!new), S>(st: State<D>, empty: D, disk: Disk<S>, db: Database<D>)
    requires Kept(st, empty, disk, db) && AllUndo(st, disk, db) && st.ledger != []
    ensures Reverted(st, st.ledger[|st.ledger| - 1].name, disk, db).Some?
  {
    hide Ascending, CanRevert, Undoes, Verified;
    var n := |st.ledger| - 1;
    var e := st.ledger[n];
    assert e in st.ledger && CanRevert(e, disk) && Undoes(disk[e.name], db);
    var d := BeforeLast(st, empty, disk, db);
    FindLast(st.ledger);
    UndoesAt(disk[e.name], db, d);
  }

  /** The data before the latest migration, which ran on it. */
  lemma {:induction false} BeforeLast<D, S>(st: State<D>, empty: D, disk: Disk<S>, db: Database<D>) returns (d: D)
    requires StandsFor(st, empty, disk, db) && st.ledger != []
    ensures var n := |st.ledger| - 1;
            && st.ledger[n].name in disk && Ups(empty, Names(st.ledger[..n]), disk, db) == Some(d)
            && db.run(disk[st.ledger[n].name].up, d) == Some(st.data)
  {
    var names, n := Names(st.ledger), |st.ledger| - 1;
    assert names[..|names| - 1] == Names(st.ledger[..n]) && names[|names| - 1] == st.ledger[n].name;
    d := Ups(empty, Names(st.ledger[..n]), disk, db).value;
  }

  lemma {:induction false} AllRevert<D(!new), S>(st: State<D>, empty: D, disk: Disk<S>, db: Database<D>, steps: nat)
    requires Kept(st, empty, disk, db) && AllInvert(disk, db) && AllUndo(st, disk, db)
    requires steps <= |st.ledger| == |Names(st.ledger)|
    ensures RevertAll(st, ToRevert(Names(st.ledger), steps), disk, db).1 == steps
    decreases steps
  {
    hide Kept, AllInvert, CanRevert, Undoes, Reverted, ToRevert, Names;
    if steps == 0 {
      NothingToRevert(Names(st.ledger));
    } else {
      LatestFirst(st.ledger, steps);
      LastReverts(st, empty, disk, db);
      RevertLast(st, empty, disk, db);
      var next := Reverted(st, st.ledger[|st.ledger| - 1].name, disk, db).value;
      assert forall e | e in next.ledger :: e in st.ledger;
      AllRevert(next, empty, disk, db, steps - 1);
    }
  }

  lemma {:induction false} DownFilesThere<S>(ledger: seq<Entry>, disk: Disk<S>, steps: nat)
    requires forall e | e in ledger :: CanRevert(e, disk)
    requires steps <= |ledger| == |Names(ledger)|
    ensures forall n | n in ToRevert(Names(ledger), steps) :: n in disk && disk[n].down.Some?
    decreases steps
  {
    hide ToRevert, Names;
    if steps == 0 {
      NothingToRevert(Names(ledger));
    } else {
      LatestFirst(ledger, steps);
      var last := |ledger| - 1;
      var todo := ToRevert(Names(ledger), steps);
      assert CanRevert(ledger[last], disk);
      DownFilesThere(ledger[..last], disk, steps - 1);
      assert todo == [todo[0]] + todo[1..];
    }
  }

  lemma EntriesCanRevert<D(!new), S>(st: State<D>, disk: Disk<S>, db: Database<D>)
    requires AllUndo(st, disk, db)
    ensures forall e | e in st.ledger :: CanRevert(e, disk)
  {
    hide Undoes, CanRevert;
  }

  lemma FolderBefore<D(!new), S>(st: State<D>, disk: Disk<S>, db: Database<D>, i: nat)
    requires AllUndo(st, disk, db) && i < |st.ledger|
    ensures st.ledger[i].name in disk && disk[st.ledger[i].name].before.Some?
  {
    assert st.ledger[i] in st.ledger;
  }

  /** When every applied migration can be undone, rolling back by `steps` finishes. */
  lemma {:induction false} DownFinishes<D(!new), S>(st: State<D>, empty: D, snapshot: S, disk: Disk<S>,
                                                    db: Database<D>, steps: nat)
    requires Kept(st, empty, disk, db) && AllInvert(disk, db) && AllUndo(st, disk, db)
    requires 1 <= steps <= |st.ledger|
    ensures Down(st, snapshot, disk, db, steps).done
  {
    hide Kept, AllInvert, AllUndo, RevertAll, ToRevert, Names, CanRevert;
    NamesAt(st.ledger);
    AllRevert(st, empty, disk, db, steps);
    EntriesCanRevert(st, disk, db);
    DownFilesThere(st.ledger, disk, steps);
    FolderBefore(st, disk, db, |st.ledger| - steps);
  }

  // ----- Deploying and rolling back again -----

  ghost predicate EachUndoes<D(!new), S>(names: seq<string>, disk: Disk<S>, db: Database<D>) {
    forall n | n in names :: n in disk && Undoes(disk[n], db)
  }

  /** A migration just applied is undone: its entry carries the checksum of its down file. */
  lemma {:induction false} AppliedReverts<D(!new), S>(st: State<D>, name: string, disk: Disk<S>, db: Database<D>)
    requires name in disk && Undoes(disk[name], db) && Apply(st, name, disk[name], db).Some?
    requires name !in Names(st.ledger)
    ensures Reverted(Apply(st, name, disk[name], db).value, name, disk, db) == Some(st)
  {
    NameIsNew(st.ledger, EntryFor(name, disk[name]));
    UndoesAt(disk[name], db, st.data);
    hide Find, Without, Names, Undoes;
  }

  lemma {:induction false} NameIsNew(ledger: seq<Entry>, e: Entry)
    requires e.name !in Names(ledger)
    ensures Find(ledger + [e], e.name) == Some(e) && Without(ledger + [e], e.name) == ledger
  {
    NamesAt(ledger);
    assert forall i | 0 <= i < |ledger| :: Names(ledger)[i] in Names(ledger);
    NoneWithout(ledger, e.name);
    var after := ledger + [e];
    assert after[..|after| - 1] == ledger;
  }

  lemma {:induction false} AppliedAllRevert<D(!new), S>(st: State<D>, names: seq<string>, disk: Disk<S>,
                                                        db: Database<D>)
    requires EachUndoes(names, disk, db) && Ascending(Names(st.ledger) + names)
    requires (forall n | n in names :: n in disk) && ApplyAll(st, names, disk, db).Some?
    ensures RevertAll(ApplyAll(st, names, disk, db).value, Reverse(names), disk, db) == (st, |names|)
  {
    hide Before, Apply, Reverted, Undoes, Names;
    if names != [] {
      var init, last := names[..|names| - 1], names[|names| - 1];
      var before := ApplyAll(st, init, disk, db).value;
      assert last in names && forall n | n in init :: n in names;
      assert Names(st.ledger) + names == Names(st.ledger) + init + [last];
      AscendingInit(Names(st.ledger) + init, last);
      AppliedNames(st, init, disk, db);
      AppliedAllRevert(st, init, disk, db);
      AppliedReverts(before, last, disk, db);
      ReverseLast(init, last);
      assert names == init + [last];
      assert ([last] + Reverse(init))[1..] == Reverse(init);
    }
  }

  lemma {:induction false} AscendingInit(names: seq<string>, last: string)
    requires Ascending(names + [last])
    ensures Ascending(names) && last !in names
  {
    hide Before;
    NotBeforeItself(last);
    var all := names + [last];
    forall i, j | 0 <= i < j < |names| ensures Before(names[i], names[j]) {
      assert Before(all[i], all[j]);
    }
    forall i | 0 <= i < |names| ensures names[i] != last {
      assert Before(all[i], all[|names|]);
    }
  }

  lemma {:induction false} ReverseLast<T>(s: seq<T>, x: T)
    ensures Reverse(s + [x]) == [x] + Reverse(s)
  {
  }

  lemma {:induction false} TheseAreReverted<D, S>(st: State<D>, names: seq<string>, disk: Disk<S>, db: Database<D>)
    requires (forall n | n in names :: n in disk) && ApplyAll(st, names, disk, db).Some? && names != []
    ensures var ledger := ApplyAll(st, names, disk, db).value.ledger;
            && |Names(ledger)| == |ledger| == |st.ledger| + |names|
            && ToRevert(Names(ledger), |names|) == Reverse(names) && ledger[|st.ledger|].name == names[0]
  {
    var ledger := ApplyAll(st, names, disk, db).value.ledger;
    AppliedNames(st, names, disk, db);
    NamesAt(st.ledger);
    NamesAt(ledger);
    hide Names, ApplyAll, Reverse;
    assert Names(ledger)[|st.ledger|..] == names;
    assert Names(ledger)[|st.ledger|] == names[0];
  }

  lemma {:induction false} DownOfApplied<D(!new), S>(st: State<D>, names: seq<string>, snapshot: S, disk: Disk<S>,
                                                     db: Database<D>)
    requires names != [] && EachUndoes(names, disk, db) && Ascending(Names(st.ledger) + names)
    requires (forall n | n in names :: n in disk) && ApplyAll(st, names, disk, db).Some?
    ensures Down(ApplyAll(st, names, disk, db).value, snapshot, disk, db, |names|)
            == Outcome(st, disk[names[0]].before.value, true)
  {
    var after := ApplyAll(st, names, disk, db).value;
    AppliedAllRevert(st, names, disk, db);
    TheseAreReverted(st, names, disk, db);
    hide Names, ApplyAll, RevertAll, ToRevert, Ascending, Undoes;
    FolderUndoes(names, disk, db, 0);
    forall n | n in Reverse(names) ensures n in disk && disk[n].down.Some? {
      var i :| 0 <= i < |names| && names[i] == n;
      FolderUndoes(names, disk, db, i);
    }
  }

  lemma FolderUndoes<D(!new), S>(names: seq<string>, disk: Disk<S>, db: Database<D>, i: nat)
    requires EachUndoes(names, disk, db) && i < |names|
    ensures names[i] in disk && disk[names[i]].down.Some? && disk[names[i]].before.Some?
  {
    assert names[i] in names;
  }

  /** Deploying and then rolling back as many migrations as were pending is the identity on the
      database and its ledger, and the snapshot is the one before the oldest of them. That the
      roll-back is accepted is what the deploy recorded for it. */
  lemma {:induction false} DeployThenDown<D(!new), S>(st: State<D>, snapshot: S, disk: Disk<S>, db: Database<D>)
    requires Ascending(Names(st.ledger)) && Deployed(st, disk, db).Some?
    requires var pending := PendingOn(st.ledger, disk); pending != [] && EachUndoes(pending, disk, db)
    ensures var after := Deployed(st, disk, db).value;
            && Names(after.ledger) == Names(st.ledger) + PendingOn(st.ledger, disk)
            && Down(after, snapshot, disk, db, |PendingOn(st.ledger, disk)|)
               == Outcome(st, disk[PendingOn(st.ledger, disk)[0]].before.value, true)
  {
    var pending := PendingOn(st.ledger, disk);
    var after := Deployed(st, disk, db).value;
    DeployedListsDisk(st, disk, db);
    AppliedNames(st, pending, disk, db);
    NamesAt(st.ledger);
    NamesAt(after.ledger);
    hide Names, Ascending, Pending, Sorted, ApplyAll, Down, EachUndoes;
    DownOfApplied(st, pending, snapshot, disk, db);
  }

  lemma {:induction false} AppliedEntry<D, S>(st: State<D>, names: seq<string>, disk: Disk<S>, db: Database<D>,
                                              name: string)
    requires (forall n | n in names :: n in disk) && ApplyAll(st, names, disk, db).Some?
    requires Ascending(Names(st.ledger) + names) && name in names
    ensures Find(ApplyAll(st, names, disk, db).value.ledger, name)
            == Some(Entry(name, Some(disk[name].up), disk[name].down))
  {
    hide Before, Names, Ascending;
    var init, last := names[..|names| - 1], names[|names| - 1];
    var before := ApplyAll(st, init, disk, db).value;
    assert names == init + [last] && last in names && forall n | n in init :: n in names;
    assert Names(st.ledger) + names == Names(st.ledger) + init + [last];
    AscendingInit(Names(st.ledger) + init, last);
    AppliedNames(st, init, disk, db);
    var e := EntryFor(last, disk[last]);
    NameIsNew(before.ledger, e);
    if name != last {
      AppliedEntry(st, init, disk, db, name);
      assert (before.ledger + [e])[..|before.ledger + [e]| - 1] == before.ledger;
    }
  }

  /** A deployed migration is rolled back with the very down file it was deployed with or not at
      all, whatever has happened to its folder since. */
  lemma {:induction false} OnlyRecordedDown<D, S>(st: State<D>, disk: Disk<S>, db: Database<D>, name: string,
                                                  later: State<D>, disk': Disk<S>)
    requires Ascending(Names(st.ledger)) && Deployed(st, disk, db).Some? && name in PendingOn(st.ledger, disk)
    requires later.ledger == Deployed(st, disk, db).value.ledger
    ensures name in disk
    ensures Reverted(later, name, disk', db).Some? <==>
            && disk[name].down.Some? && name in disk' && disk'[name].down == disk[name].down
            && db.run(disk[name].down.value, later.data).Some?
  {
    DeployedEntry(st, disk, db, name);
    hide Find, Without, Deployed, Names, Ascending;
  }

  lemma {:induction false} DeployedEntry<D, S>(st: State<D>, disk: Disk<S>, db: Database<D>, name: string)
    requires Ascending(Names(st.ledger)) && Deployed(st, disk, db).Some? && name in PendingOn(st.ledger, disk)
    ensures name in disk
    ensures Find(Deployed(st, disk, db).value.ledger, name) == Some(Entry(name, Some(disk[name].up), disk[name].down))
  {
    var pending := PendingOn(st.ledger, disk);
    DeployedListsDisk(st, disk, db);
    AppliedNames(st, pending, disk, db);
    hide Names, Ascending, Pending, Sorted, ApplyAll, Find;
    AppliedEntry(st, pending, disk, db, name);
  }

  /** Once deployed, a migration whose file was edited or removed stops every later deploy. */
  lemma {:induction false} EditedStopsDeploy<D, S>(st: State<D>, disk: Disk<S>, db: Database<D>, name: string,
                                                   later: State<D>, disk': Disk<S>)
    requires Ascending(Names(st.ledger)) && Deployed(st, disk, db).Some? && name in PendingOn(st.ledger, disk)
    requires later.ledger == Deployed(st, disk, db).value.ledger
    requires Deployed(later, disk', db).Some?
    ensures name in disk && name in disk' && disk'[name].up == disk[name].up
  {
    DeployedEntry(st, disk, db, name);
    hide Find, Names, Ascending, ApplyAll;
    assert Find(later.ledger, name).value in later.ledger;
  }

  // ----- Histories -----

  datatype Event<S> = AddFolder(name: string, folder: Folder<S>) | DeployAll | RollBack(steps: nat)

  datatype World<D, S> = World(state: State<D>, disk: Disk<S>, snapshot: S)

  ghost function Happen<D, S>(w: World<D, S>, event: Event<S>, db: Database<D>): World<D, S> {
    match event
    case AddFolder(name, folder) => if name in w.disk then w else w.(disk := w.disk[name := folder])
    case DeployAll => (match Deployed(w.state, w.disk, db) case None => w case Some(st) => w.(state := st))
    case RollBack(steps) =>
      var o := Down(w.state, w.snapshot, w.disk, db, steps);
      w.(state := o.state, snapshot := o.snapshot)
  }

  ghost function History<D, S>(w: World<D, S>, events: seq<Event<S>>, db: Database<D>): World<D, S> {
    if events == [] then w else Happen(History(w, events[..|events| - 1], db), events[|events| - 1], db)
  }

  lemma {:induction false} UpsOnMoreDisk<D, S>(data: D, names: seq<string>, disk: Disk<S>, disk': Disk<S>,
      db: Database<D>)
    requires forall n | n in names :: n in disk && n in disk' && disk'[n] == disk[n]
    ensures Ups(data, names, disk', db) == Ups(data, names, disk, db)
  {
    if names != [] {
      UpsOnMoreDisk(data, names[..|names| - 1], disk, disk', db);
      assert names[|names| - 1] in names;
    }
  }

  lemma {:induction false} FolderAdded<D, S>(st: State<D>, empty: D, disk: Disk<S>, db: Database<D>,
                                             name: string, folder: Folder<S>)
    requires Kept(st, empty, disk, db) && name !in disk
    ensures Kept(st, empty, disk[name := folder], db)
  {
    AppliedOnDisk(st.ledger, disk);
    hide Ascending, Names;
    UpsOnMoreDisk(empty, Names(st.ledger), disk, disk[name := folder], db);
  }

  /** A first folder is deployed with its checksums, and rolled back to where nothing was. */
  lemma {:induction false} FirstFolder<D(!new), S>(w: World<D, S>, empty: D, name: string, folder: Folder<S>,
                                                   db: Database<D>)
    requires w.state == State([], empty) && w.disk == map[]
    requires Undoes(folder, db) && db.run(folder.up, empty).Some? && !db.collides(folder.up, empty)
    ensures History(w, [AddFolder(name, folder), DeployAll], db)
            == World(State([Entry(name, Some(folder.up), folder.down)], db.run(folder.up, empty).value),
                     map[name := folder], w.snapshot)
    ensures History(w, [AddFolder(name, folder), DeployAll, RollBack(1)], db)
            == World(State([], empty), map[name := folder], folder.before.value)
  {
    var add, all: seq<Event<S>> := AddFolder(name, folder), [AddFolder(name, folder), DeployAll];
    assert [add][..0] == [] && all[..1] == [add] && (all + [RollBack(1)])[..2] == all;
    assert [AddFolder(name, folder), DeployAll, RollBack(1)] == all + [RollBack(1)];
    var disk := map[name := folder];
    assert w.disk[name := folder] == disk;
    assert History(w, [add], db) == w.(disk := disk);
    OneFolder(empty, name, folder, db);
    DeployThenDown(State([], empty), w.snapshot, disk, db);
    hide Deployed, Down;
  }

  lemma {:induction false} OneFolder<D(!new), S>(empty: D, name: string, folder: Folder<S>, db: Database<D>)
    requires Undoes(folder, db) && db.run(folder.up, empty).Some? && !db.collides(folder.up, empty)
    ensures var disk := map[name := folder];
            && PendingOn([], disk) == [name] && EachUndoes([name], disk, db)
            && Ascending(Names([]))
            && Deployed(State([], empty), disk, db)
               == Some(State([Entry(name, Some(folder.up), folder.down)], db.run(folder.up, empty).value))
  {
    var disk := map[name := folder];
    AscendingOne(name);
    SortedIs(disk.Keys, [name]);
    assert Names([]) == [];
    assert [name][..0] == [];
    assert Pending([], []) == [];
    assert Pending([name], []) == [name];
    hide Before, Sorted, Undoes;
    assert ApplyAll(State([], empty), [], disk, db) == Some(State([], empty));
    assert [] + [EntryFor(name, folder)] == [EntryFor(name, folder)];
  }

  /** However deploys, roll-backs and new folders follow each other, the ledger stays strictly
      ascending, its entries stay those of their folders, and the database stays the one that
      running the ledger's migrations in order would give. */
  lemma {:induction false} EveryHistoryKeeps<D(!new), S>(w: World<D, S>, empty: D, events: seq<Event<S>>,
      db: Database<D>)
    requires w.state == State([], empty) && w.disk == map[]
    requires forall e | e in events :: e.AddFolder? ==> Inverts(e.folder, db)
    ensures var now := History(w, events, db); Kept(now.state, empty, now.disk, db) && AllInvert(now.disk, db)
  {
    hide Inverts, Deployed, Down;
    if events == [] {
      assert Names([]) == [];
    } else {
      var before, last := History(w, events[..|events| - 1], db), events[|events| - 1];
      EveryHistoryKeeps(w, empty, events[..|events| - 1], db);
      hide Kept;
      match last {
        case AddFolder(name, folder) =>
          assert last in events;
          if name !in before.disk {
            FolderAdded(before.state, empty, before.disk, db, name, folder);
          }
        case DeployAll =>
          if Deployed(before.state, before.disk, db).Some? {
            DeployKeeps(before.state, empty, before.disk, db);
          }
        case RollBack(steps) =>
          var n := DownLeavesPrefix(before.state, empty, before.snapshot, before.disk, db, steps);
      }
    }
  }
}
