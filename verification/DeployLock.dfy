/** Several deployers under the deploy lock, as interleaved steps. Each works in its own
    transaction and holds the lock until it commits or rolls back; folders may appear meanwhile. */
module DeployLock {
  import opened Common
  import opened MigrationNames
  import opened Ledger

  /** A deployer that holds the lock has listed the disk and applied the names `done` so far. */
  datatype Phase<D, S> = Idle | Working(listed: Disk<S>, done: seq<string>, todo: seq<string>, tx: State<D>)

  datatype System<D, S> = System(committed: State<D>, disk: Disk<S>, holder: Option<int>, phase: map<int, Phase<D, S>>)

  datatype Step<S> =
    | NewFolder(name: string, folder: Folder<S>)
    | Start(p: int)
    | ApplyNext(p: int)
    | Commit(p: int)
    | Abort(p: int)

  ghost predicate IsWorking<D, S>(s: System<D, S>, p: int) {
    p in s.phase && s.phase[p].Working?
  }

  ghost predicate Enabled<D, S>(s: System<D, S>, step: Step<S>, db: Database<D>) {
    match step
    case NewFolder(name, _) => name !in s.disk
    case Start(p) => p in s.phase && s.phase[p].Idle? && s.holder.None?
    case ApplyNext(p) => IsWorking(s, p) && s.phase[p].todo != [] && s.phase[p].todo[0] in s.disk
    case Commit(p) => IsWorking(s, p) && s.phase[p].todo == []
    case Abort(p) => IsWorking(s, p)
  }

  ghost function Released<D, S>(s: System<D, S>, p: int): System<D, S> {
    s.(holder := None, phase := s.phase[p := Idle])
  }

  /** Whoever may not deploy gives the lock back at once; a migration that fails rolls back. */
  ghost function Take<D, S>(s: System<D, S>, step: Step<S>, db: Database<D>): System<D, S>
    requires Enabled(s, step, db)
  {
    match step
    case NewFolder(name, folder) => s.(disk := s.disk[name := folder])
    case Start(p) =>
      if MayDeploy(s.committed, s.disk, db) then
        s.(holder := Some(p),
           phase := s.phase[p := Working(s.disk, [], PendingOn(s.committed.ledger, s.disk), s.committed)])
      else s
    case ApplyNext(p) =>
      var w := s.phase[p];
      (match Apply(w.tx, w.todo[0], s.disk[w.todo[0]], db)
       case None => Released(s, p)
       case Some(tx) => s.(phase := s.phase[p := Working(w.listed, w.done + [w.todo[0]], w.todo[1..], tx)]))
    case Commit(p) => Released(s, p).(committed := s.phase[p].tx)
    case Abort(p) => Released(s, p)
  }

  ghost predicate Within<S>(small: Disk<S>, disk: Disk<S>) {
    forall n | n in small :: n in disk && disk[n] == small[n]
  }

  /** The holder's transaction is the committed state with the names done so far applied to it,
      out of those that were pending when it listed the disk. */
  ghost predicate Progress<D, S>(w: Phase<D, S>, committed: State<D>, disk: Disk<S>, db: Database<D>) {
    w.Working? ==>
      && Within(w.listed, disk) && MayDeploy(committed, w.listed, db)
      && w.done + w.todo == PendingOn(committed.ledger, w.listed)
      && (forall n | n in w.done :: n in w.listed)
      && ApplyAll(committed, w.done, w.listed, db) == Some(w.tx)
  }

  ghost predicate Invariant<D, S>(s: System<D, S>, empty: D, db: Database<D>) {
    && Kept(s.committed, empty, s.disk, db)
    && (forall p | IsWorking(s, p) :: s.holder == Some(p))
    && (s.holder.Some? ==> IsWorking(s, s.holder.value))
    && (forall p | p in s.phase :: Progress(s.phase[p], s.committed, s.disk, db))
  }

  ghost predicate IsRun<D, S>(run: seq<System<D, S>>, steps: seq<Step<S>>, db: Database<D>) {
    && |run| == |steps| + 1
    && forall i | 0 <= i < |steps| :: Enabled(run[i], steps[i], db) && run[i + 1] == Take(run[i], steps[i], db)
  }

  lemma {:induction false} MoreDisk<D, S>(st: State<D>, empty: D, small: Disk<S>, disk: Disk<S>, db: Database<D>)
    requires Within(small, disk) && Verified(st.ledger, small)
    ensures Kept(st, empty, small, db) <==> Kept(st, empty, disk, db)
  {
    AppliedOnDisk(st.ledger, small);
    hide Ascending, Names;
    UpsOnMoreDisk(empty, Names(st.ledger), small, disk, db);
  }

  lemma {:induction false} ProgressOnMoreDisk<D, S>(w: Phase<D, S>, st: State<D>, disk: Disk<S>, db: Database<D>,
                                                    name: string, folder: Folder<S>)
    requires Progress(w, st, disk, db) && name !in disk
    ensures Progress(w, st, disk[name := folder], db)
  {
    hide MayDeploy, ApplyAll;
  }

  lemma {:induction false} StartProgress<D, S>(st: State<D>, disk: Disk<S>, db: Database<D>)
    requires MayDeploy(st, disk, db)
    ensures Progress(Working(disk, [], PendingOn(st.ledger, disk), st), st, disk, db)
  {
    hide MayDeploy, PendingOn;
    assert [] + PendingOn(st.ledger, disk) == PendingOn(st.ledger, disk);
  }

  lemma {:induction false} ApplyProgress<D, S>(w: Phase<D, S>, st: State<D>, disk: Disk<S>, db: Database<D>)
    requires w.Working? && Progress(w, st, disk, db) && w.todo != []
    ensures w.todo[0] in w.listed && w.todo[0] in disk
    ensures match Apply(w.tx, w.todo[0], disk[w.todo[0]], db)
            case None => true
            case Some(tx) => Progress(Working(w.listed, w.done + [w.todo[0]], w.todo[1..], tx), st, disk, db)
  {
    hide MayDeploy, PendingOn, Apply;
    var n := w.todo[0];
    assert (w.done + w.todo)[|w.done|] == n;
    assert n in w.done + w.todo;
    assert w.done + [n] + w.todo[1..] == w.done + w.todo;
    assert (w.done + [n])[..|w.done|] == w.done;
  }

  /** What is committed is what one deploy alone would commit, on the folders it had listed. */
  lemma {:induction false} CommitIsDeploy<D, S>(s: System<D, S>, p: int, empty: D, db: Database<D>)
    requires Invariant(s, empty, db) && Enabled(s, Commit(p), db)
    ensures Deployed(s.committed, s.phase[p].listed, db) == Some(Take(s, Commit(p), db).committed)
    ensures Names(Take(s, Commit(p), db).committed.ledger) == Sorted(s.phase[p].listed.Keys)
    ensures Kept(Take(s, Commit(p), db).committed, empty, s.disk, db)
  {
    hide Kept, Apply, MayDeploy;
    var w := s.phase[p];
    assert Progress(w, s.committed, s.disk, db);
    assert w.done + w.todo == w.done;
    assert Deployed(s.committed, w.listed, db) == Some(w.tx);
    VerifiedOnListed(s.committed, w.listed, db);
    MoreDisk(s.committed, empty, w.listed, s.disk, db);
    KeptAscends(s.committed, empty, s.disk, db);
    DeployedListsDisk(s.committed, w.listed, db);
    DeployKeeps(s.committed, empty, w.listed, db);
    MoreDisk(w.tx, empty, w.listed, s.disk, db);
  }

  lemma VerifiedOnListed<D, S>(st: State<D>, disk: Disk<S>, db: Database<D>)
    requires MayDeploy(st, disk, db)
    ensures Verified(st.ledger, disk)
  {
  }

  lemma KeptAscends<D, S>(st: State<D>, empty: D, disk: Disk<S>, db: Database<D>)
    requires Kept(st, empty, disk, db)
    ensures Ascending(Names(st.ledger))
  {
  }

  lemma {:induction false} StepKeeps<D, S>(s: System<D, S>, step: Step<S>, empty: D, db: Database<D>)
    requires Invariant(s, empty, db) && Enabled(s, step, db)
    ensures Invariant(Take(s, step, db), empty, db)
  {
    hide Kept, Progress, MayDeploy, Apply, PendingOn;
    match step
    case NewFolder(name, folder) =>
      FolderAdded(s.committed, empty, s.disk, db, name, folder);
      forall p | p in s.phase ensures Progress(s.phase[p], s.committed, s.disk[name := folder], db) {
        ProgressOnMoreDisk(s.phase[p], s.committed, s.disk, db, name, folder);
      }
    case Start(p) =>
      if MayDeploy(s.committed, s.disk, db) {
        StartProgress(s.committed, s.disk, db);
      }
    case ApplyNext(p) =>
      ApplyProgress(s.phase[p], s.committed, s.disk, db);
      IdleProgress<D, S>(s.committed, s.disk, db);
    case Commit(p) =>
      CommitIsDeploy(s, p, empty, db);
      var after := Take(s, step, db);
      forall q | q in after.phase ensures Progress(after.phase[q], after.committed, s.disk, db) {
        assert q != p ==> !IsWorking(s, q);
        IdleProgress<D, S>(after.committed, s.disk, db);
      }
    case Abort(p) =>
      IdleProgress<D, S>(s.committed, s.disk, db);
  }

  lemma IdleProgress<D, S>(committed: State<D>, disk: Disk<S>, db: Database<D>)
    ensures Progress<D, S>(Idle, committed, disk, db)
  {
  }

  ghost predicate Initial<D, S>(s: System<D, S>, empty: D, db: Database<D>) {
    s.holder.None? && (forall p | p in s.phase :: s.phase[p].Idle?) && Kept(s.committed, empty, s.disk, db)
  }

  /** In every interleaving, at every moment: one deployer at most is at work, and the committed
      ledger is strictly ascending and stands for the committed data. */
  lemma {:induction false} EveryRunKeeps<D, S>(run: seq<System<D, S>>, steps: seq<Step<S>>, empty: D,
                                               db: Database<D>, i: nat)
    requires IsRun(run, steps, db) && Initial(run[0], empty, db) && i < |run|
    ensures Invariant(run[i], empty, db)
  {
    hide Kept, Take, Enabled, Progress;
    if i == 0 {
      forall p | p in run[0].phase ensures Progress(run[0].phase[p], run[0].committed, run[0].disk, db) {
        IdleProgress<D, S>(run[0].committed, run[0].disk, db);
      }
    } else {
      EveryRunKeeps(run, steps, empty, db, i - 1);
      assert Enabled(run[i - 1], steps[i - 1], db);
      StepKeeps(run[i - 1], steps[i - 1], empty, db);
    }
  }

  /** Only a commit changes what is committed, and it changes it as one whole deploy, run alone,
      would have; a deployer that fails or gives up leaves ledger and data as they were. */
  lemma {:induction false} RunsAreDeploys<D, S>(run: seq<System<D, S>>, steps: seq<Step<S>>, empty: D,
                                                db: Database<D>, i: nat)
    requires IsRun(run, steps, db) && Initial(run[0], empty, db) && i < |steps|
    ensures steps[i].Commit? ==>
              && IsWorking(run[i], steps[i].p)
              && Deployed(run[i].committed, run[i].phase[steps[i].p].listed, db) == Some(run[i + 1].committed)
              && Names(run[i + 1].committed.ledger) == Sorted(run[i].phase[steps[i].p].listed.Keys)
    ensures !steps[i].Commit? ==> run[i + 1].committed == run[i].committed
  {
    EveryRunKeeps(run, steps, empty, db, i);
    hide Invariant;
    assert Enabled(run[i], steps[i], db);
    if steps[i].Commit? {
      CommitIsDeploy(run[i], steps[i].p, empty, db);
    }
  }

  // ----- Every deployer can get its turn -----

  /** A run of any length from `first` to `last`. */
  ghost predicate Leads<D(!new), S(!new)>(first: System<D, S>, last: System<D, S>, db: Database<D>) {
    exists run, steps :: IsRun(run, steps, db) && run[0] == first && run[|run| - 1] == last
  }

  lemma {:induction false} LeadsOn<D(!new), S(!new)>(first: System<D, S>, s: System<D, S>, step: Step<S>,
                                                     db: Database<D>)
    requires Leads(first, s, db) && Enabled(s, step, db)
    ensures Leads(first, Take(s, step, db), db)
  {
    var run, steps :| IsRun(run, steps, db) && run[0] == first && run[|run| - 1] == s;
    var next := Take(s, step, db);
    hide Enabled, Take;
    assert IsRun(run + [next], steps + [step], db);
    assert (run + [next])[0] == first && (run + [next])[|run + [next]| - 1] == next;
  }

  lemma LeadsToItself<D(!new), S(!new)>(s: System<D, S>, db: Database<D>)
    ensures Leads(s, s, db)
  {
    var steps: seq<Step<S>> := [];
    assert IsRun([s], steps, db) && [s][0] == s && [s][|[s]| - 1] == s;
  }

  /** Whoever holds the lock can give it up, which changes nothing that is committed. */
  lemma {:induction false} LockComesFree<D(!new), S(!new)>(s: System<D, S>, empty: D, db: Database<D>)
    returns (free: System<D, S>)
    requires Invariant(s, empty, db)
    ensures Leads(s, free, db) && Invariant(free, empty, db)
    ensures free.holder.None? && free.committed == s.committed && free.disk == s.disk && free.phase.Keys == s.phase.Keys
  {
    LeadsToItself(s, db);
    free := s;
    if s.holder.Some? {
      var p := s.holder.value;
      LeadsOn(s, s, Abort(p), db);
      StepKeeps(s, Abort(p), empty, db);
      hide Leads, Kept, Progress;
      free := Take(s, Abort(p), db);
    }
  }

  lemma {:induction false} NextApplies<D, S>(st: State<D>, w: Phase<D, S>, disk: Disk<S>, db: Database<D>)
    requires w.Working? && w.todo != [] && forall n | n in w.done + w.todo :: n in disk
    requires ApplyAll(st, w.done + w.todo, disk, db).Some? && ApplyAll(st, w.done, disk, db) == Some(w.tx)
    ensures w.todo[0] in disk && Apply(w.tx, w.todo[0], disk[w.todo[0]], db).Some?
    ensures ApplyAll(st, w.done + [w.todo[0]], disk, db) == Apply(w.tx, w.todo[0], disk[w.todo[0]], db)
  {
    hide Apply;
    var all, k := w.done + w.todo, |w.done| + 1;
    assert all[k - 1] == w.todo[0] && w.todo[0] in all;
    assert all[..k] == w.done + [w.todo[0]];
    assert (w.done + [w.todo[0]])[..|w.done|] == w.done;
    if ApplyAll(st, all[..k], disk, db).None? {
      ApplyStops(st, all, k, disk, db);
    }
  }

  lemma {:induction false} CanFinish<D(!new), S(!new)>(first: System<D, S>, s: System<D, S>, p: int, db: Database<D>)
    requires Leads(first, s, db) && p in s.phase && s.phase[p].Working?
    requires var w := s.phase[p];
             && (forall n | n in w.done + w.todo :: n in s.disk)
             && ApplyAll(s.committed, w.done + w.todo, s.disk, db).Some?
             && ApplyAll(s.committed, w.done, s.disk, db) == Some(w.tx)
    ensures var w := s.phase[p];
            Leads(first, s.(committed := ApplyAll(s.committed, w.done + w.todo, s.disk, db).value, holder := None,
                            phase := s.phase[p := Idle]), db)
    decreases |s.phase[p].todo|
  {
    var w := s.phase[p];
    hide Leads, Apply, ApplyAll;
    if w.todo == [] {
      assert w.done + w.todo == w.done;
      LeadsOn(first, s, Commit(p), db);
    } else {
      NextApplies(s.committed, w, s.disk, db);
      LeadsOn(first, s, ApplyNext(p), db);
      var next := Take(s, ApplyNext(p), db);
      assert w.done + [w.todo[0]] + w.todo[1..] == w.done + w.todo;
      CanFinish(first, next, p, db);
      assert next.phase[p := Idle] == s.phase[p := Idle];
    }
  }

  /** In a sound state with the lock free, every deployer can deploy all that is pending by itself,
      whenever the migrations run, and leaves everything else as it found it. */
  lemma {:induction false} AnyoneCanDeploy<D(!new), S(!new)>(s: System<D, S>, p: int, empty: D, db: Database<D>)
    requires Invariant(s, empty, db) && s.holder.None? && p in s.phase && Deployed(s.committed, s.disk, db).Some?
    ensures Leads(s, s.(committed := Deployed(s.committed, s.disk, db).value), db)
  {
    hide MayDeploy, PendingOn, Progress, Kept, ApplyAll, Apply;
    var pending := PendingOn(s.committed.ledger, s.disk);
    assert !IsWorking(s, p);
    LeadsToItself(s, db);
    LeadsOn(s, s, Start(p), db);
    var next := Take(s, Start(p), db);
    assert [] + pending == pending;
    NothingApplied(s.committed, s.disk, db);
    hide Leads;
    CanFinish(s, next, p, db);
    assert next.phase[p := Idle] == s.phase;
  }

  lemma NothingApplied<D, S>(st: State<D>, disk: Disk<S>, db: Database<D>)
    ensures ApplyAll(st, [], disk, db) == Some(st)
  {
  }
}
