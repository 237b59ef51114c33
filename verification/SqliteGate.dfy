/** The promise chain that serialises all outer work on the single SQLite connection.

    Each job waits for the gate promise that was current when it was enqueued and installs
    its own gate promise as the current one. Microtasks may run in any order; the steps below
    are everything that can happen. */
module SqliteGate {

  datatype Kind = OneQuery | Transaction

  datatype Statement = Alone | Begin | Inner | End

  datatype Phase = Fresh | InTransaction | Finished

  datatype Status = Waiting | Running(phase: Phase) | Settled(fulfilled: bool)

  /** `waitsFor` is the job whose gate promise this one was chained on, or -1 for the
      already resolved promise the gate starts with. */
  datatype Job = Job(kind: Kind, waitsFor: int, status: Status, gateResolved: bool)

  datatype Entry = Entry(job: nat, statement: Statement)

  /** `gate` names the job that owns the current gate promise (-1: the initial one);
      `log` is what the connection has executed. */
  datatype State = State(jobs: seq<Job>, gate: int, log: seq<Entry>)

  const Initial := State([], -1, [])

  predicate GateOpen(s: State, owner: int) {
    owner == -1 || (0 <= owner < |s.jobs| && s.jobs[owner].gateResolved)
  }

  // ----- Steps -----

  /** `run = gate.then(work, work); gate = run.then(...)`. */
  predicate Enqueue(s: State, s': State, kind: Kind) {
    s' == State(s.jobs + [Job(kind, s.gate, Waiting, false)], |s.jobs|, s.log)
  }

  predicate Start(s: State, s': State, i: nat) {
    && i < |s.jobs| && s.jobs[i].status.Waiting? && GateOpen(s, s.jobs[i].waitsFor)
    && s' == s.(jobs := s.jobs[i := s.jobs[i].(status := Running(Fresh))])
  }

  /** The phase after executing a statement, when the job may execute it there: a query runs
      its one statement, a transaction runs BEGIN, then inner statements, then COMMIT or
      ROLLBACK. */
  function After(kind: Kind, phase: Phase, statement: Statement): (next: Phase)
    requires MayIssue(kind, phase, statement)
  {
    if statement.Alone? || statement.End? then Finished else InTransaction
  }

  predicate MayIssue(kind: Kind, phase: Phase, statement: Statement) {
    match statement
    case Alone => kind.OneQuery? && phase.Fresh?
    case Begin => kind.Transaction? && phase.Fresh?
    case Inner => phase.InTransaction?
    case End => phase.InTransaction?
  }

  predicate Issue(s: State, s': State, i: nat, statement: Statement) {
    && i < |s.jobs| && s.jobs[i].status.Running?
    && var job := s.jobs[i];
    && MayIssue(job.kind, job.status.phase, statement)
    && s' == State(s.jobs[i := job.(status := Running(After(job.kind, job.status.phase, statement)))],
                   s.gate, s.log + [Entry(i, statement)])
  }

  /** The work function returns after its last statement, or throws at any point (also with
      its transaction still open, when the final ROLLBACK fails). */
  predicate Settle(s: State, s': State, i: nat, fulfilled: bool) {
    && i < |s.jobs| && s.jobs[i].status.Running?
    && (fulfilled ==> s.jobs[i].status.phase.Finished?)
    && s' == s.(jobs := s.jobs[i := s.jobs[i].(status := Settled(fulfilled))])
  }

  /** The job's gate promise resolves, whichever way the job itself settled. */
  predicate ResolveGate(s: State, s': State, i: nat) {
    && i < |s.jobs| && s.jobs[i].status.Settled? && !s.jobs[i].gateResolved
    && s' == s.(jobs := s.jobs[i := s.jobs[i].(gateResolved := true)])
  }

  ghost predicate Works(s: State, s': State, i: nat) {
    || Start(s, s', i)
    || (exists statement :: Issue(s, s', i, statement))
    || (exists fulfilled :: Settle(s, s', i, fulfilled))
    || ResolveGate(s, s', i)
  }

  ghost predicate Next(s: State, s': State) {
    (exists kind :: Enqueue(s, s', kind)) || (exists i: nat :: Works(s, s', i))
  }

  ghost predicate IsRun(run: seq<State>) {
    && run != [] && run[0] == Initial
    && forall k | 0 <= k < |run| - 1 :: Next(run[k], run[k + 1])
  }

  // ----- What every step keeps -----

  /** Work on job `i` has begun only after every earlier gate promise resolved. */
  predicate Ordered(s: State) {
    && s.gate == |s.jobs| - 1
    && (forall i | 0 <= i < |s.jobs| :: s.jobs[i].waitsFor == i - 1)
    && (forall i | 0 <= i < |s.jobs| :: s.jobs[i].gateResolved ==> s.jobs[i].status.Settled?)
    && (forall i, j | 0 <= i < j < |s.jobs| :: !s.jobs[j].status.Waiting? ==> s.jobs[i].gateResolved)
  }

  /** The connection executed the jobs one after the other, in arrival order. */
  predicate InArrivalOrder(s: State) {
    && (forall a | 0 <= a < |s.log| :: s.log[a].job < |s.jobs| && !s.jobs[s.log[a].job].status.Waiting?)
    && (forall a, b | 0 <= a < b < |s.log| :: s.log[a].job <= s.log[b].job)
  }

  predicate Inv(s: State) {
    Ordered(s) && InArrivalOrder(s)
  }

  lemma StartKeeps(s: State, s': State, i: nat)
    requires Inv(s) && Start(s, s', i)
    ensures Inv(s')
  {
    forall k, j | 0 <= k < j < |s'.jobs| && !s'.jobs[j].status.Waiting?
      ensures s'.jobs[k].gateResolved
    {
      if j == i && k < i - 1 {
        assert s.jobs[i - 1].status.Settled?;
      }
    }
  }

  lemma IssueKeeps(s: State, s': State, i: nat, statement: Statement)
    requires Inv(s) && Issue(s, s', i, statement)
    ensures Inv(s')
  {
    assert forall j | i < j < |s.jobs| :: s.jobs[j].status.Waiting?;
  }

  lemma StepKeeps(s: State, s': State)
    requires Inv(s) && Next(s, s')
    ensures Inv(s')
  {
    if kind :| Enqueue(s, s', kind) {
    } else {
      var i: nat :| Works(s, s', i);
      if Start(s, s', i) {
        StartKeeps(s, s', i);
      } else if statement :| Issue(s, s', i, statement) {
        IssueKeeps(s, s', i, statement);
      }
    }
  }

  lemma {:induction false} EveryRunKeeps(run: seq<State>, k: nat)
    requires IsRun(run) && k < |run|
    ensures Inv(run[k])
  {
    if k > 0 {
      EveryRunKeeps(run, k - 1);
      StepKeeps(run[k - 1], run[k]);
    }
  }

  // ----- Main results -----

  /** At most one job is between its start and its settling. */
  lemma OneAtATime(run: seq<State>, k: nat, i: nat, j: nat)
    requires IsRun(run) && k < |run|
    requires i < |run[k].jobs| && j < |run[k].jobs|
    requires run[k].jobs[i].status.Running? && run[k].jobs[j].status.Running?
    ensures i == j
  {
    EveryRunKeeps(run, k);
    assert forall x | 0 <= x < |run[k].jobs| && run[k].jobs[x].status.Running? :: !run[k].jobs[x].gateResolved;
  }

  /** Between two statements of one job, in particular between a transaction's BEGIN and its
      COMMIT or ROLLBACK, no other job executes anything; and jobs execute in the order in
      which they were enqueued. */
  lemma NothingInBetween(run: seq<State>, k: nat, a: nat, b: nat, c: nat)
    requires IsRun(run) && k < |run|
    requires a <= b <= c < |run[k].log|
    ensures run[k].log[a].job <= run[k].log[b].job <= run[k].log[c].job
    ensures run[k].log[a].job == run[k].log[c].job ==> run[k].log[b].job == run[k].log[a].job
  {
    EveryRunKeeps(run, k);
  }

  // ----- Every job gets its turn -----

  ghost predicate IsPath(path: seq<State>, s: State) {
    && path != [] && path[0] == s
    && forall k | 0 <= k < |path| - 1 :: Next(path[k], path[k + 1])
  }

  function Last(path: seq<State>): State
    requires path != []
  {
    path[|path| - 1]
  }

  /** How many steps job `i` still needs at most. */
  function StepsLeft(job: Job): nat {
    if job.gateResolved then 0
    else match job.status
         case Waiting => 5
         case Running(Fresh) => 4
         case Running(InTransaction) => 3
         case Running(Finished) => 2
         case Settled(_) => 1
  }

  /** How a job ends that is let run without a failure. */
  function Ended(job: Job): Job {
    job.(status := if job.status.Settled? then job.status else Settled(true), gateResolved := true)
  }

  /** The job's next step, when every gate promise before it has resolved. */
  lemma NextStep(s: State, i: nat) returns (s': State)
    requires Inv(s) && i < |s.jobs| && !s.jobs[i].gateResolved
    requires forall j | 0 <= j < i :: s.jobs[j].gateResolved
    ensures Next(s, s') && Inv(s') && |s'.jobs| == |s.jobs|
    ensures forall j | 0 <= j < |s.jobs| && j != i :: s'.jobs[j] == s.jobs[j]
    ensures StepsLeft(s'.jobs[i]) < StepsLeft(s.jobs[i]) && Ended(s'.jobs[i]) == Ended(s.jobs[i])
  {
    var job := s.jobs[i];
    match job.status {
      case Waiting =>
        assert i > 0 ==> s.jobs[i - 1].gateResolved;
        s' := s.(jobs := s.jobs[i := job.(status := Running(Fresh))]);
        assert Start(s, s', i);
      case Running(Finished) =>
        s' := s.(jobs := s.jobs[i := job.(status := Settled(true))]);
        assert Settle(s, s', i, true);
      case Running(phase) =>
        var statement := if phase.InTransaction? then End else if job.kind.OneQuery? then Alone else Begin;
        s' := State(s.jobs[i := job.(status := Running(After(job.kind, phase, statement)))], s.gate,
                    s.log + [Entry(i, statement)]);
        assert Issue(s, s', i, statement);
      case Settled(_) =>
        s' := s.(jobs := s.jobs[i := job.(gateResolved := true)]);
        assert ResolveGate(s, s', i);
    }
    assert Works(s, s', i);
    StepKeeps(s, s');
  }

  lemma {:induction false} FinishJob(s: State, i: nat) returns (path: seq<State>)
    requires Inv(s) && i < |s.jobs| && forall j | 0 <= j < i :: s.jobs[j].gateResolved
    ensures IsPath(path, s) && Inv(Last(path)) && |Last(path).jobs| == |s.jobs|
    ensures forall j | 0 <= j < |s.jobs| && j != i :: Last(path).jobs[j] == s.jobs[j]
    ensures Last(path).jobs[i] == Ended(s.jobs[i])
    decreases StepsLeft(s.jobs[i])
  {
    hide Inv, Next;
    if s.jobs[i].gateResolved {
      ResolvedIsSettled(s, i);
      path := [s];
    } else {
      var s' := NextStep(s, i);
      var rest := FinishJob(s', i);
      path := [s] + rest;
    }
  }

  lemma ResolvedIsSettled(s: State, i: nat)
    requires Inv(s) && i < |s.jobs| && s.jobs[i].gateResolved
    ensures Ended(s.jobs[i]) == s.jobs[i]
  {
  }

  lemma {:induction false} FinishJobs(s: State, n: nat) returns (path: seq<State>)
    requires Inv(s) && n <= |s.jobs|
    ensures IsPath(path, s) && Inv(Last(path)) && |Last(path).jobs| == |s.jobs|
    ensures forall j | 0 <= j < |s.jobs| :: Last(path).jobs[j] == if j < n then Ended(s.jobs[j]) else s.jobs[j]
  {
    hide Inv, Next;
    if n == 0 {
      path := [s];
    } else {
      var before := FinishJobs(s, n - 1);
      var more := FinishJob(Last(before), n - 1);
      path := before + more[1..];
      Joined(before, more, s);
    }
  }

  lemma Joined(before: seq<State>, more: seq<State>, s: State)
    requires IsPath(before, s) && IsPath(more, Last(before))
    ensures IsPath(before + more[1..], s) && Last(before + more[1..]) == Last(more)
  {
    hide Next;
    var path, n := before + more[1..], |before|;
    forall k | 0 <= k < |path| - 1 ensures Next(path[k], path[k + 1]) {
      if k >= n - 1 {
        assert path[k] == more[k - n + 1] && path[k + 1] == more[k - n + 2];
      }
    }
  }

  /** A rejected job stops nobody: from every state of every run, whatever settled before and how,
      the run can go on until every job has had its turn, and those that had not settled yet all
      end fulfilled. */
  lemma {:induction false} NeverStuck(run: seq<State>, k: nat) returns (longer: seq<State>)
    requires IsRun(run) && k < |run|
    ensures IsRun(longer) && run[..k + 1] <= longer && |Last(longer).jobs| == |run[k].jobs|
    ensures forall i | 0 <= i < |run[k].jobs| :: Last(longer).jobs[i] == Ended(run[k].jobs[i])
  {
    EveryRunKeeps(run, k);
    hide Inv, Next;
    var path := FinishJobs(run[k], |run[k].jobs|);
    var before := run[..k + 1];
    assert IsPath(before, Initial) && Last(before) == run[k];
    longer := before + path[1..];
    Joined(before, path, Initial);
  }

  // ----- What each job executes -----

  /** The statements that job `i` has executed, in order. */
  function Of(log: seq<Entry>, i: nat): seq<Statement> {
    if log == [] then []
    else Of(log[..|log| - 1], i) + if log[|log| - 1].job == i then [log[|log| - 1].statement] else []
  }

  predicate AllInner(stmts: seq<Statement>) {
    forall x | x in stmts :: x == Inner
  }

  predicate IsOpen(stmts: seq<Statement>) {
    stmts != [] && stmts[0] == Begin && AllInner(stmts[1..])
  }

  /** All that a job of this kind does when it comes to its end. */
  predicate IsWhole(kind: Kind, stmts: seq<Statement>) {
    match kind
    case OneQuery => stmts == [Alone]
    case Transaction => |stmts| >= 2 && stmts[|stmts| - 1] == End && IsOpen(stmts[..|stmts| - 1])
  }

  predicate IsPart(kind: Kind, stmts: seq<Statement>) {
    stmts == [] || (kind.Transaction? && IsOpen(stmts)) || IsWhole(kind, stmts)
  }

  predicate Fits(job: Job, stmts: seq<Statement>) {
    match job.status
    case Waiting => stmts == []
    case Running(Fresh) => stmts == []
    case Running(InTransaction) => job.kind.Transaction? && IsOpen(stmts)
    case Running(Finished) => IsWhole(job.kind, stmts)
    case Settled(fulfilled) => if fulfilled then IsWhole(job.kind, stmts) else IsPart(job.kind, stmts)
  }

  ghost predicate AllFit(s: State) {
    && (forall a | 0 <= a < |s.log| :: s.log[a].job < |s.jobs|)
    && (forall i | 0 <= i < |s.jobs| :: Fits(s.jobs[i], Of(s.log, i)))
  }

  lemma OfSnoc(log: seq<Entry>, e: Entry, i: nat)
    ensures Of(log + [e], i) == Of(log, i) + if e.job == i then [e.statement] else []
  {
    assert (log + [e])[..|log|] == log;
  }

  lemma {:induction false} OfNobody(log: seq<Entry>, i: nat)
    requires forall a | 0 <= a < |log| :: log[a].job < i
    ensures Of(log, i) == []
  {
    if log != [] {
      OfNobody(log[..|log| - 1], i);
    }
  }

  lemma IssueFits(job: Job, stmts: seq<Statement>, statement: Statement)
    requires job.status.Running? && Fits(job, stmts) && MayIssue(job.kind, job.status.phase, statement)
    ensures Fits(job.(status := Running(After(job.kind, job.status.phase, statement))), stmts + [statement])
  {
    var all := stmts + [statement];
    assert all[..|all| - 1] == stmts;
    if stmts != [] {
      assert all[1..] == stmts[1..] + [statement];
    } else {
      assert all[1..] == [];
    }
  }

  lemma IssueKeepsFit(s: State, s': State, i: nat, statement: Statement)
    requires AllFit(s) && Issue(s, s', i, statement)
    ensures AllFit(s')
  {
    hide Fits, Of, MayIssue, After;
    IssueFits(s.jobs[i], Of(s.log, i), statement);
    forall j | 0 <= j < |s'.jobs| ensures Fits(s'.jobs[j], Of(s'.log, j)) {
      OfSnoc(s.log, Entry(i, statement), j);
      assert Of(s.log, j) + [] == Of(s.log, j);
    }
  }

  lemma SettleFits(job: Job, stmts: seq<Statement>, fulfilled: bool)
    requires job.status.Running? && Fits(job, stmts) && (fulfilled ==> job.status.phase.Finished?)
    ensures Fits(job.(status := Settled(fulfilled)), stmts)
  {
  }

  lemma StepKeepsFit(s: State, s': State)
    requires AllFit(s) && Next(s, s')
    ensures AllFit(s')
  {
    if kind :| Enqueue(s, s', kind) {
      OfNobody(s.log, |s.jobs|);
    } else {
      var i: nat :| Works(s, s', i);
      if statement :| Issue(s, s', i, statement) {
        IssueKeepsFit(s, s', i, statement);
      } else if fulfilled :| Settle(s, s', i, fulfilled) {
        SettleFits(s.jobs[i], Of(s.log, i), fulfilled);
        hide Of, IsWhole, IsPart, IsOpen;
      } else {
        hide Of, IsWhole, IsPart, IsOpen;
      }
    }
  }

  /** In every run a job that is fulfilled has executed all of its work and nothing else: its one
      query, or BEGIN, inner statements and the statement that closes the transaction. One that has
      not come so far has executed a beginning of that. */
  lemma {:induction false} JobsAreWhole(run: seq<State>, k: nat, i: nat)
    requires IsRun(run) && k < |run| && i < |run[k].jobs|
    ensures var job, stmts := run[k].jobs[i], Of(run[k].log, i);
            && IsPart(job.kind, stmts)
            && (job.status == Settled(true) ==> IsWhole(job.kind, stmts))
  {
    RunsFit(run, k);
  }

  lemma {:induction false} RunsFit(run: seq<State>, k: nat)
    requires IsRun(run) && k < |run|
    ensures AllFit(run[k])
  {
    hide Fits;
    if k > 0 {
      RunsFit(run, k - 1);
      StepKeepsFit(run[k - 1], run[k]);
    }
  }

  /** A transaction that has begun may execute as many statements as it likes before it ends, and
      the way it ends is up to it. */
  lemma {:induction false} AnyNumberInside(s: State, i: nat, n: nat) returns (path: seq<State>)
    requires Inv(s) && i < |s.jobs| && s.jobs[i].status == Running(InTransaction)
    ensures IsPath(path, s) && Inv(Last(path)) && |path| == n + 1
    ensures Last(path).jobs == s.jobs && Last(path).log == s.log + seq(n, j => Entry(i, Inner))
  {
    hide Inv, Next;
    if n == 0 {
      path := [s];
    } else {
      var init := AnyNumberInside(s, i, n - 1);
      var last := Last(init);
      var next := InnerStep(last, i);
      path := init + [next];
      forall k | 0 <= k < |path| - 1 ensures Next(path[k], path[k + 1]) {
      }
    }
  }

  lemma InnerStep(s: State, i: nat) returns (s': State)
    requires Inv(s) && i < |s.jobs| && s.jobs[i].status == Running(InTransaction)
    ensures Next(s, s') && Inv(s') && s'.jobs == s.jobs && s'.log == s.log + [Entry(i, Inner)]
  {
    s' := s.(log := s.log + [Entry(i, Inner)]);
    assert s.jobs[i := s.jobs[i].(status := Running(InTransaction))] == s.jobs;
    assert Issue(s, s', i, Inner);
    assert Works(s, s', i);
    StepKeeps(s, s');
  }
}
