/** The lock file of `migrate dev`, as interleaved steps of any number of acquirers. */
module DevLock {
  import opened Common

  /** The lock file: who created it, and whether its content has been written. */
  datatype File = File(owner: int, written: bool)

  datatype Phase =
    | Trying     // about to create the file exclusively
    | Creating   // created it, not yet written
    | Failing    // the write failed; about to remove the file
    | Holding
    | Releasing  // about to read the file and compare its content
    | Checked    // found its own content; about to remove the file
    | Looking    // the file exists; about to inspect its holder and age
    | Judged     // found the holder dead or the file stale; about to remove it
    | Waiting
    | Done       // released, timed out or failed
    | Crashed    // killed while its file may be there

  datatype State = State(file: Option<File>, phase: map<int, Phase>)

  datatype Step =
    | TryOpen(p: int)
    | Write(p: int)
    | FailWrite(p: int)
    | CleanUp(p: int)
    | Release(p: int)
    | ReadBack(p: int)
    | Remove(p: int)
    | FindGone(p: int)
    | FindFresh(p: int)
    | JudgeStale(p: int)
    | RemoveStale(p: int)
    | Poll(p: int)
    | TimeOut(p: int)
    | Crash(p: int)

  predicate Enabled(s: State, step: Step) {
    && step.p in s.phase
    && var now := s.phase[step.p];
       match step
       case TryOpen(_) => now == Trying
       case Write(_) => now == Creating
       case FailWrite(_) => now == Creating
       case CleanUp(_) => now == Failing
       case Release(_) => now == Holding
       case ReadBack(_) => now == Releasing
       case Remove(_) => now == Checked
       case FindGone(_) => now == Looking && s.file.None?
       case FindFresh(_) => now == Looking
       case JudgeStale(_) => now == Looking
       case RemoveStale(_) => now == Judged
       case Poll(_) => now == Waiting
       case TimeOut(_) => now == Waiting
       case Crash(_) => now != Done
  }

  function At(s: State, p: int, phase: Phase): State {
    s.(phase := s.phase[p := phase])
  }

  /** Removing the file removes whatever stands at its path; writing goes to the file created. */
  function Take(s: State, step: Step): State
    requires Enabled(s, step)
  {
    match step
    case TryOpen(p) =>
      if s.file.None? then At(s.(file := Some(File(p, false))), p, Creating) else At(s, p, Looking)
    case Write(p) =>
      At(if s.file.Some? && s.file.value.owner == p then s.(file := Some(File(p, true))) else s, p, Holding)
    case FailWrite(p) => At(s, p, Failing)
    case CleanUp(p) => At(s.(file := None), p, Done)
    case Release(p) => At(s, p, Releasing)
    case ReadBack(p) => At(s, p, if s.file == Some(File(p, true)) then Checked else Done)
    case Remove(p) => At(s.(file := None), p, Done)
    case FindGone(p) => At(s, p, Trying)
    case FindFresh(p) => At(s, p, Waiting)
    case JudgeStale(p) => At(s, p, Judged)
    case RemoveStale(p) => At(s.(file := None), p, Trying)
    case Poll(p) => At(s, p, Trying)
    case TimeOut(p) => At(s, p, Done)
    case Crash(p) => At(s, p, Crashed)
  }

  /** Between creating the file and removing it. */
  predicate IsBusy(phase: Phase) {
    phase in {Creating, Failing, Holding, Releasing, Checked}
  }

  predicate HasWritten(phase: Phase) {
    phase in {Holding, Releasing, Checked}
  }

  /** The file is there while someone is busy with it, and belongs to the one that is. */
  ghost predicate Invariant(s: State) {
    && (forall p | p in s.phase && IsBusy(s.phase[p]) ::
          s.file.Some? && s.file.value.owner == p && (HasWritten(s.phase[p]) ==> s.file.value.written))
    && (s.file.Some? ==>
          var owner := s.file.value.owner;
          owner in s.phase && (IsBusy(s.phase[owner]) || s.phase[owner] == Crashed))
  }

  /** The one dangerous step: removing as stale a file that its owner is still busy with. */
  predicate RemovesLive(s: State, step: Step) {
    && step.RemoveStale? && s.file.Some?
    && s.file.value.owner in s.phase && IsBusy(s.phase[s.file.value.owner])
  }

  /** A step keeps the lock sound exactly when it does not remove a live file as stale. */
  lemma {:induction false} StepKeepsExactly(s: State, step: Step)
    requires Invariant(s) && Enabled(s, step)
    ensures Invariant(Take(s, step)) <==> !RemovesLive(s, step)
  {
    if RemovesLive(s, step) {
      var owner := s.file.value.owner;
      var after := Take(s, step);
      assert owner in after.phase && IsBusy(after.phase[owner]) && after.file.None?;
    }
  }

  /** Whoever removes the file on releasing or after a failed write removes its own. */
  lemma {:induction false} RemovesOnlyItsOwn(s: State, step: Step)
    requires Invariant(s) && Enabled(s, step) && (step.Remove? || step.CleanUp?)
    ensures s.file.Some? && s.file.value.owner == step.p
  {
  }

  ghost predicate IsRun(run: seq<State>, steps: seq<Step>) {
    && |run| == |steps| + 1
    && forall i | 0 <= i < |steps| :: Enabled(run[i], steps[i]) && run[i + 1] == Take(run[i], steps[i])
  }

  ghost predicate Starts(s: State) {
    s.file.None? && forall p | p in s.phase :: s.phase[p] == Trying
  }

  ghost predicate AtMostOneBusy(s: State) {
    forall p, q | p in s.phase && q in s.phase && IsBusy(s.phase[p]) && IsBusy(s.phase[q]) :: p == q
  }

  ghost predicate FileWhileBusy(s: State) {
    s.file.Some? <==> exists p :: p in s.phase && IsBusy(s.phase[p])
  }

  lemma {:induction false} InvariantMeans(s: State)
    requires Invariant(s)
    ensures AtMostOneBusy(s)
    ensures (forall p | p in s.phase :: s.phase[p] != Crashed) ==> FileWhileBusy(s)
  {
  }

  /** While no acquirer removes a live file as stale, one process at most is creating, holding or
      releasing the lock, and nobody removes a file that is not its own. */
  lemma {:induction false} EveryRunKeeps(run: seq<State>, steps: seq<Step>, i: nat)
    requires IsRun(run, steps) && Starts(run[0]) && i < |run|
    requires forall k | 0 <= k < |steps| :: !RemovesLive(run[k], steps[k])
    ensures Invariant(run[i]) && AtMostOneBusy(run[i])
    ensures i < |steps| && (steps[i].Remove? || steps[i].CleanUp?) ==>
              run[i].file.Some? && run[i].file.value.owner == steps[i].p
  {
    hide Take, RemovesLive;
    if i > 0 {
      EveryRunKeeps(run, steps, i - 1);
      assert run[i] == Take(run[i - 1], steps[i - 1]);
      StepKeepsExactly(run[i - 1], steps[i - 1]);
    }
    InvariantMeans(run[i]);
    if i < |steps| && (steps[i].Remove? || steps[i].CleanUp?) {
      assert Enabled(run[i], steps[i]);
      RemovesOnlyItsOwn(run[i], steps[i]);
    }
  }

  // ----- In every run, live removals included -----

  /** Removing whatever stands at the path. */
  predicate Removes(step: Step) {
    step.CleanUp? || step.Remove? || step.RemoveStale?
  }

  /** The file that stands at step `i` was created at step `j`. */
  ghost predicate CreatedAt(run: seq<State>, steps: seq<Step>, i: nat, j: nat)
    requires i < |run| && i <= |steps| && j < i && j < |run|
  {
    && run[i].file.Some? && steps[j] == TryOpen(run[i].file.value.owner) && run[j].file.None?
    && forall k | j < k < i :: !Removes(steps[k])
  }

  /** Between two removals only its creator's write changes the file. */
  lemma {:induction false} FileStep(s: State, step: Step)
    requires Enabled(s, step)
    ensures var after := Take(s, step);
            if Removes(step) then after.file.None?
            else if s.file.None? then after.file == if step.TryOpen? then Some(File(step.p, false)) else None
            else after.file == if step == Write(s.file.value.owner) then Some(File(step.p, true)) else s.file
  {
  }

  /** Whatever the run, a file that stands was created by its owner and not removed since, and it is
      written exactly when its owner has written since. */
  lemma {:induction false} WhoseFile(run: seq<State>, steps: seq<Step>, i: nat) returns (j: nat)
    requires IsRun(run, steps) && Starts(run[0]) && i < |run| && run[i].file.Some?
    ensures j < i && CreatedAt(run, steps, i, j)
    ensures run[i].file.value.written <==> exists k :: j < k < i && steps[k] == Write(run[i].file.value.owner)
  {
    hide Take, Enabled;
    var step := steps[i - 1];
    assert Enabled(run[i - 1], step) && run[i] == Take(run[i - 1], step);
    FileStep(run[i - 1], step);
    if run[i - 1].file.None? {
      j := i - 1;
    } else {
      j := WhoseFile(run, steps, i - 1);
      var owner := run[i].file.value.owner;
      assert owner == run[i - 1].file.value.owner;
    }
  }

  /** The steps between `i` and `j` that are none of this process's. */
  ghost predicate Away(steps: seq<Step>, p: int, i: nat, j: nat)
    requires j <= |steps|
  {
    forall k | i < k < j :: steps[k].p != p
  }

  lemma {:induction false} SinceReadBack(run: seq<State>, steps: seq<Step>, p: int, i: nat, j: nat)
    requires IsRun(run, steps) && i < j < |run| && j <= |steps|
    requires steps[i] == ReadBack(p) && Away(steps, p, i, j) && p in run[j].phase && run[j].phase[p] == Checked
    ensures p in run[i + 1].phase && run[i + 1].phase[p] == Checked
    ensures run[j].file == Some(File(p, true)) <==> forall k | i < k < j :: !Removes(steps[k])
    decreases j
  {
    var step := steps[j - 1];
    assert Enabled(run[j - 1], step) && run[j] == Take(run[j - 1], step);
    if j > i + 1 {
      assert step.p != p;
      SinceReadBack(run, steps, p, i, j - 1);
      FileStep(run[j - 1], step);
    }
  }

  /** On releasing, in any run at all, the file removed is the process's own written one if and only
      if nobody has removed a file since it read its content back: what another process created is
      removed only by way of that window. */
  lemma {:induction false} ReleaseRemovesItsOwn(run: seq<State>, steps: seq<Step>, p: int, i: nat, j: nat)
    requires IsRun(run, steps) && i < j < |steps|
    requires steps[i] == ReadBack(p) && steps[j] == Remove(p) && Away(steps, p, i, j)
    ensures run[j].file == Some(File(p, true)) <==> forall k | i < k < j :: !Removes(steps[k])
    ensures j == i + 1 ==> run[i].file == Some(File(p, true))
  {
    assert Enabled(run[j], steps[j]);
    SinceReadBack(run, steps, p, i, j);
    assert Enabled(run[i], steps[i]) && run[i + 1] == Take(run[i], steps[i]);
  }

  /** The steps between `i` and `j` by this process are at most its failed write. */
  ghost predicate OnlyFails(steps: seq<Step>, p: int, i: nat, j: nat)
    requires j <= |steps|
  {
    forall k | i < k < j && steps[k].p == p :: steps[k].FailWrite?
  }

  lemma {:induction false} SinceCreated(run: seq<State>, steps: seq<Step>, p: int, i: nat, j: nat)
    requires IsRun(run, steps) && i < j < |run| && j <= |steps|
    requires steps[i] == TryOpen(p) && run[i].file.None? && OnlyFails(steps, p, i, j)
    ensures p in run[j].phase && run[j].phase[p] in {Creating, Failing}
    ensures run[j].file == Some(File(p, false)) <==> forall k | i < k < j :: !Removes(steps[k])
    decreases j
  {
    var step := steps[j - 1];
    assert Enabled(run[j - 1], step) && run[j] == Take(run[j - 1], step);
    if j > i + 1 {
      SinceCreated(run, steps, p, i, j - 1);
      FileStep(run[j - 1], step);
    }
  }

  /** Nor is the clean-up after a failed write safe by itself: the file it removes is its own, not
      yet written, if and only if nobody has removed a file since it was created. */
  lemma {:induction false} CleanUpRemovesItsOwn(run: seq<State>, steps: seq<Step>, p: int, i: nat, j: nat)
    requires IsRun(run, steps) && i < j < |steps|
    requires steps[i] == TryOpen(p) && run[i].file.None? && steps[j] == CleanUp(p) && OnlyFails(steps, p, i, j)
    ensures run[j].file == Some(File(p, false)) <==> forall k | i < k < j :: !Removes(steps[k])
  {
    SinceCreated(run, steps, p, i, j);
  }

  /** A releasing process goes on to remove the file exactly when the one it reads is its own; a
      file that another process has put there since stays. */
  lemma {:induction false} ReleaseLeavesOthers(s: State, p: int)
    requires Enabled(s, ReadBack(p))
    ensures Take(s, ReadBack(p)).file == s.file
    ensures Enabled(Take(s, ReadBack(p)), Remove(p)) <==> s.file == Some(File(p, true))
  {
  }

  /** The branches for a dead holder or an old file are never taken, and nobody is killed. */
  ghost predicate IsPlain(steps: seq<Step>) {
    forall k | 0 <= k < |steps| :: !steps[k].JudgeStale? && !steps[k].Crash?
  }

  lemma {:induction false} NobodyJudges(run: seq<State>, steps: seq<Step>, i: nat)
    requires IsRun(run, steps) && Starts(run[0]) && IsPlain(steps) && i < |run|
    ensures forall p | p in run[i].phase :: run[i].phase[p] != Judged && run[i].phase[p] != Crashed
  {
    if i > 0 {
      NobodyJudges(run, steps, i - 1);
      assert Enabled(run[i - 1], steps[i - 1]) && run[i] == Take(run[i - 1], steps[i - 1]);
    }
  }

  /** Then, in every interleaving, the file is there exactly while someone is creating, holding or
      releasing the lock, and never more than one. */
  lemma {:induction false} PlainRunsExclude(run: seq<State>, steps: seq<Step>, i: nat)
    requires IsRun(run, steps) && Starts(run[0]) && IsPlain(steps) && i < |run|
    ensures AtMostOneBusy(run[i]) && FileWhileBusy(run[i])
  {
    hide Take, Invariant, AtMostOneBusy, FileWhileBusy;
    forall k | 0 <= k < |steps| ensures !RemovesLive(run[k], steps[k]) {
      NobodyJudges(run, steps, k);
      assert Enabled(run[k], steps[k]);
    }
    EveryRunKeeps(run, steps, i);
    NobodyJudges(run, steps, i);
    InvariantMeans(run[i]);
  }

  /** Nobody is stuck: every process that has not ended can take a step of its own other than being
      killed, and one that waits can both look again and give up. */
  lemma {:induction false} NobodyStuck(s: State, p: int)
    requires p in s.phase && s.phase[p] != Done && s.phase[p] != Crashed
    ensures exists step: Step :: step.p == p && !step.Crash? && Enabled(s, step)
    ensures s.phase[p] == Waiting ==> Enabled(s, Poll(p)) && Enabled(s, TimeOut(p))
    ensures s.phase[p] == Looking ==> Enabled(s, FindFresh(p)) && Enabled(s, JudgeStale(p))
  {
    match s.phase[p]
    case Trying => assert Enabled(s, TryOpen(p));
    case Creating => assert Enabled(s, Write(p));
    case Failing => assert Enabled(s, CleanUp(p));
    case Holding => assert Enabled(s, Release(p));
    case Releasing => assert Enabled(s, ReadBack(p));
    case Checked => assert Enabled(s, Remove(p));
    case Looking => assert Enabled(s, FindFresh(p));
    case Judged => assert Enabled(s, RemoveStale(p));
    case Waiting => assert Enabled(s, Poll(p));
  }

  // ----- What removing a live file leads to -----

  /** A run of any length from `first` to `last`. */
  ghost predicate Leads(first: State, last: State) {
    exists run, steps :: IsRun(run, steps) && run[0] == first && run[|run| - 1] == last
  }

  lemma {:induction false} LeadsOn(first: State, s: State, step: Step, next: State)
    requires Leads(first, s) && Enabled(s, step) && Take(s, step) == next
    ensures Leads(first, next)
  {
    hide Enabled, Take;
    var run, steps :| IsRun(run, steps) && run[0] == first && run[|run| - 1] == s;
    assert IsRun(run + [next], steps + [step]);
    assert (run + [next])[0] == first && (run + [next])[|run + [next]| - 1] == next;
  }

  lemma LeadsToItself(s: State)
    ensures Leads(s, s)
  {
    assert IsRun([s], []) && [s][0] == s && [s][|[s]| - 1] == s;
  }

  /** Where no file stands a process can take the lock, and having it leave no file behind. */
  lemma {:induction false} TakesAndReleases(s: State, p: int)
    requires s.file.None? && p in s.phase && s.phase[p] == Trying
    ensures Leads(s, State(Some(File(p, true)), s.phase[p := Holding]))
    ensures Leads(s, State(None, s.phase[p := Done]))
  {
    hide Leads;
    LeadsToItself(s);
    var created := State(Some(File(p, false)), s.phase[p := Creating]);
    LeadsOn(s, s, TryOpen(p), created);
    var held := State(Some(File(p, true)), s.phase[p := Holding]);
    assert created.phase[p := Holding] == held.phase;
    LeadsOn(s, created, Write(p), held);
    var releasing := State(Some(File(p, true)), s.phase[p := Releasing]);
    assert held.phase[p := Releasing] == releasing.phase;
    LeadsOn(s, held, Release(p), releasing);
    var checked := State(Some(File(p, true)), s.phase[p := Checked]);
    assert releasing.phase[p := Checked] == checked.phase;
    LeadsOn(s, releasing, ReadBack(p), checked);
    assert checked.phase[p := Done] == s.phase[p := Done];
    LeadsOn(s, checked, Remove(p), State(None, s.phase[p := Done]));
  }

  function Three(a: Phase, b: Phase, c: Phase): map<int, Phase> {
    map[0 := a, 1 := b, 2 := c]
  }

  lemma {:induction false} OneHolds(first: State)
    requires first == State(None, Three(Trying, Trying, Trying))
    ensures Leads(first, State(Some(File(0, true)), Three(Holding, Trying, Trying)))
  {
    hide Leads;
    LeadsToItself(first);
    var created := State(Some(File(0, false)), Three(Creating, Trying, Trying));
    LeadsOn(first, first, TryOpen(0), created);
    LeadsOn(first, created, Write(0), State(Some(File(0, true)), Three(Holding, Trying, Trying)));
  }

  lemma {:induction false} KilledHolder(first: State)
    requires first == State(None, Three(Trying, Trying, Trying))
    ensures Leads(first, State(Some(File(0, true)), Three(Crashed, Looking, Looking)))
  {
    hide Leads;
    OneHolds(first);
    var held := State(Some(File(0, true)), Three(Holding, Trying, Trying));
    var one := State(Some(File(0, true)), Three(Holding, Looking, Trying));
    LeadsOn(first, held, TryOpen(1), one);
    var two := State(Some(File(0, true)), Three(Holding, Looking, Looking));
    LeadsOn(first, one, TryOpen(2), two);
    LeadsOn(first, two, Crash(0), State(Some(File(0, true)), Three(Crashed, Looking, Looking)));
  }

  lemma {:induction false} BothJudge(first: State, s: State)
    requires Leads(first, s) && s == State(Some(File(0, true)), Three(Crashed, Looking, Looking))
    ensures Leads(first, State(Some(File(0, true)), Three(Crashed, Judged, Judged)))
  {
    hide Leads;
    var judged := State(Some(File(0, true)), Three(Crashed, Judged, Looking));
    LeadsOn(first, s, JudgeStale(1), judged);
    LeadsOn(first, judged, JudgeStale(2), State(Some(File(0, true)), Three(Crashed, Judged, Judged)));
  }

  lemma {:induction false} FirstTakesOver(first: State, s: State)
    requires Leads(first, s) && s == State(Some(File(0, true)), Three(Crashed, Judged, Judged))
    ensures Leads(first, State(Some(File(1, true)), Three(Crashed, Holding, Judged)))
  {
    hide Leads;
    var gone := State(None, Three(Crashed, Trying, Judged));
    LeadsOn(first, s, RemoveStale(1), gone);
    var created := State(Some(File(1, false)), Three(Crashed, Creating, Judged));
    LeadsOn(first, gone, TryOpen(1), created);
    LeadsOn(first, created, Write(1), State(Some(File(1, true)), Three(Crashed, Holding, Judged)));
  }

  lemma {:induction false} SecondTakesOver(first: State, s: State)
    requires Leads(first, s) && s == State(Some(File(1, true)), Three(Crashed, Holding, Judged))
    ensures RemovesLive(s, RemoveStale(2))
    ensures Leads(first, State(Some(File(2, true)), Three(Crashed, Holding, Holding)))
  {
    hide Leads;
    var gone := State(None, Three(Crashed, Holding, Trying));
    LeadsOn(first, s, RemoveStale(2), gone);
    var created := State(Some(File(2, false)), Three(Crashed, Holding, Creating));
    LeadsOn(first, gone, TryOpen(2), created);
    LeadsOn(first, created, Write(2), State(Some(File(2, true)), Three(Crashed, Holding, Holding)));
  }

  /** Two acquirers judge the file of a killed holder; the slower one removes the file that the
      faster one has created since, and both hold the lock. */
  lemma {:induction false} RaceGivesTwoHolders(first: State)
    requires first == State(None, Three(Trying, Trying, Trying))
    ensures Starts(first)
    ensures exists last :: Leads(first, last) && 1 in last.phase && 2 in last.phase
                           && last.phase[1] == Holding && last.phase[2] == Holding
  {
    hide Leads;
    KilledHolder(first);
    BothJudge(first, State(Some(File(0, true)), Three(Crashed, Looking, Looking)));
    FirstTakesOver(first, State(Some(File(0, true)), Three(Crashed, Judged, Judged)));
    SecondTakesOver(first, State(Some(File(1, true)), Three(Crashed, Holding, Judged)));
    var last := State(Some(File(2, true)), Three(Crashed, Holding, Holding));
    assert Leads(first, last);
  }
}
