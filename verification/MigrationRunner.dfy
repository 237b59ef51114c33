/** Deploy and roll-back as the runner carries them out, step by step on the database. */
module MigrationRunner {
  import opened Common
  import opened MigrationNames
  import opened Ledger

  class Runner<D(!new), S> {
    var state: State<D>
    var snapshot: S
    const disk: Disk<S>
    const db: Database<D>

    constructor (state: State<D>, snapshot: S, disk: Disk<S>, db: Database<D>)
      ensures this.state == state && this.snapshot == snapshot && this.disk == disk && this.db == db
    {
      this.state, this.snapshot, this.disk, this.db := state, snapshot, disk, db;
    }

    method ListMigrationsOnDisk() returns (names: seq<string>)
      ensures names == Sorted(disk.Keys)
    {
      hide Insert, Before;
      names := [];
      var left := disk.Keys;
      while left != {}
        invariant left <= disk.Keys && Ascending(names)
        invariant forall n :: n in names <==> n in disk.Keys && n !in left
      {
        var name :| name in left;
        InsertKeeps(names, name);
        names, left := Insert(names, name), left - {name};
      }
      SortedIs(disk.Keys, names);
    }

    method ListPendingMigrations(applied: seq<string>) returns (pending: seq<string>)
      ensures pending == Pending(Sorted(disk.Keys), applied)
    {
      var names := ListMigrationsOnDisk();
      pending := [];
      for i := 0 to |names|
        invariant pending == Pending(names[..i], applied)
      {
        assert names[..i + 1][..i] == names[..i];
        if names[i] !in applied {
          pending := pending + [names[i]];
        }
      }
      assert names[..|names|] == names;
    }

    method VerifyAppliedMigrationChecksums(applied: seq<Entry>) returns (ok: bool)
      ensures ok <==> Verified(applied, disk)
    {
      for i := 0 to |applied|
        invariant forall k | 0 <= k < i ::
            applied[k].name in disk && applied[k].checksum == Some(disk[applied[k].name].up)
      {
        var record := applied[i];
        if record.name !in disk { return false; }
        if record.checksum.None? { return false; }
        if record.checksum.value != disk[record.name].up { return false; }
      }
      return true;
    }

    method MigrationsInOrder(applied: seq<string>, pending: seq<string>) returns (ok: bool)
      ensures ok <==> InOrder(applied, pending)
    {
      if applied == [] { return true; }
      for i := 0 to |pending|
        invariant forall k | 0 <= k < i :: !Before(pending[k], Latest(applied))
      {
        if Before(pending[i], Latest(applied)) { return false; }
      }
      return true;
    }

    method PendingCreateCollision(pending: seq<string>) returns (found: bool)
      requires forall n | n in pending :: n in disk
      ensures found <==> exists n :: n in pending && db.collides(disk[n].up, state.data)
    {
      for i := 0 to |pending|
        invariant forall k | 0 <= k < i :: !db.collides(disk[pending[k]].up, state.data)
      {
        if db.collides(disk[pending[i]].up, state.data) { return true; }
      }
      return false;
    }

    /** One migration in its own savepoint: its statements and its ledger row, or nothing. */
    method ApplyMigration(name: string) returns (ok: bool)
      requires name in disk
      modifies this`state
      ensures match Apply(old(state), name, disk[name], db)
              case None => !ok && state == old(state)
              case Some(st) => ok && state == st
    {
      var ran := db.run(disk[name].up, state.data);
      if ran.None? { return false; }
      state := State(state.ledger + [EntryFor(name, disk[name])], ran.value);
      return true;
    }

    method ApplyPending(pending: seq<string>) returns (ok: bool)
      requires forall n | n in pending :: n in disk
      modifies this`state
      ensures match ApplyAll(old(state), pending, disk, db)
              case None => !ok
              case Some(st) => ok && state == st
    {
      hide Apply;
      ghost var begun := state;
      for i := 0 to |pending|
        invariant ApplyAll(begun, pending[..i], disk, db) == Some(state)
      {
        assert pending[..i + 1][..i] == pending[..i];
        ok := ApplyMigration(pending[i]);
        if !ok {
          ApplyStops(begun, pending, i + 1, disk, db);
          return;
        }
      }
      assert pending[..|pending|] == pending;
      ok := true;
    }

    /** Everything happens in one transaction under the deploy lock: a failure anywhere leaves the
        database as it was. */
    method MigrateDeploy() returns (applied: Option<seq<string>>)
      modifies this`state
      ensures match Deployed(old(state), disk, db)
              case None => applied.None? && state == old(state)
              case Some(st) => applied == Some(PendingOn(old(state).ledger, disk)) && state == st
      ensures applied.Some? && Ascending(Names(old(state).ledger)) ==>
                Names(state.ledger) == Sorted(disk.Keys) && Ascending(Names(state.ledger))
      ensures applied.Some? && Ascending(Names(old(state).ledger)) ==>
                forall n | n in applied.value ::
                  n in disk && Find(state.ledger, n) == Some(Entry(n, Some(disk[n].up), disk[n].down))
    {
      hide Verified, InOrder, Apply, ApplyAll, Pending, Names, Ascending, Sorted, Find;
      var begun := state;
      var verified := VerifyAppliedMigrationChecksums(state.ledger);
      if !verified { return None; }
      var pending := ListPendingMigrations(Names(state.ledger));
      assert pending == PendingOn(state.ledger, disk);
      var ordered := MigrationsInOrder(Names(state.ledger), pending);
      if !ordered { return None; }
      var collision := PendingCreateCollision(pending);
      if collision { return None; }
      var ok := ApplyPending(pending);
      if !ok {
        state := begun;
        return None;
      }
      if Ascending(Names(begun.ledger)) {
        DeployedListsDisk(begun, disk, db);
        forall n | n in pending
          ensures n in disk && Find(state.ledger, n) == Some(Entry(n, Some(disk[n].up), disk[n].down))
        {
          DeployedEntry(begun, disk, db, n);
        }
      }
      return Some(pending);
    }

    /** One roll-back in its own transaction. */
    method RevertMigration(name: string) returns (ok: bool)
      modifies this`state
      ensures match Reverted(old(state), name, disk, db)
              case None => !ok && state == old(state)
              case Some(st) => ok && state == st
    {
      if name !in disk || disk[name].down.None? { return false; }
      var found := Find(state.ledger, name);
      if found.None? { return false; }
      if found.value.downChecksum != disk[name].down {
        return false;
      }
      var ran := db.run(disk[name].down.value, state.data);
      if ran.None? { return false; }
      state := State(Without(state.ledger, name), ran.value);
      return true;
    }

    method DownFilesExist(names: seq<string>) returns (ok: bool)
      ensures ok <==> !exists n :: n in names && (n !in disk || disk[n].down.None?)
    {
      for i := 0 to |names|
        invariant forall k | 0 <= k < i :: names[k] in disk && disk[names[k]].down.Some?
      {
        if names[i] !in disk || disk[names[i]].down.None? { return false; }
      }
      return true;
    }

    method RevertEach(names: seq<string>) returns (reverted: nat)
      modifies this`state
      ensures (state, reverted) == RevertAll(old(state), names, disk, db)
    {
      hide Reverted;
      reverted := 0;
      while reverted < |names|
        invariant 0 <= reverted <= |names|
        invariant var (after, n) := RevertAll(state, names[reverted..], disk, db);
                  RevertAll(old(state), names, disk, db) == (after, n + reverted)
      {
        assert names[reverted..][1..] == names[reverted + 1..];
        var ok := RevertMigration(names[reverted]);
        if !ok { return; }
        reverted := reverted + 1;
      }
    }

    /** Undoes the last migrations, each in its own transaction; the snapshot is written at the end. */
    method MigrateDown(steps: nat) returns (done: bool)
      modifies this
      ensures Down(old(state), old(snapshot), disk, db, steps) == Outcome(state, snapshot, done)
    {
      hide RevertAll, ToRevert, Names;
      if steps < 1 || steps > |state.ledger| { return false; }
      NamesAt(state.ledger);
      var oldest := state.ledger[|state.ledger| - steps].name;
      var toRevert := ToRevert(Names(state.ledger), steps);
      var there := DownFilesExist(toRevert);
      if !there { return false; }
      var reverted := RevertEach(toRevert);
      if reverted < steps { return false; }
      if oldest !in disk || disk[oldest].before.None? { return false; }
      snapshot := disk[oldest].before.value;
      return true;
    }
  }
}
