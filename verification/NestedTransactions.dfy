/** Nested transactions over savepoints.

    A database session answers statements; any statement may fail and then changes nothing.
    User code is an arbitrary program of queries, throws, catches and nested transactions.
    Running it through savepoints is compared with a reference in which there are no
    savepoints at all: a nested block that fails contributes no updates, one that succeeds
    contributes its own. */
module NestedTransactions {

  type Db = map<string, string>
  type Update = Db -> Db

  // ----- The database session -----

  datatype Savepoint = Savepoint(id: nat, snapshot: Db)

  datatype Command =
    | Begin | Commit | Rollback
    | SetSavepoint(id: nat)
    | Release(id: nat)
    | RollbackTo(id: nat)
    | Run(update: Update)

  datatype SessionState = SessionState(committed: Db, working: Db, stack: seq<Savepoint>, open: bool)

  datatype Answer = Done(state: SessionState) | Refused

  /** Position of the savepoint with this id, or -1. */
  function Find(stack: seq<Savepoint>, id: nat): (i: int)
    ensures -1 <= i < |stack|
    ensures i >= 0 ==> stack[i].id == id
    ensures i < 0 ==> forall k | 0 <= k < |stack| :: stack[k].id != id
  {
    if stack == [] then -1
    else if stack[|stack| - 1].id == id then |stack| - 1
    else Find(stack[..|stack| - 1], id)
  }

  /** What a statement does when the database accepts it (savepoints: sections 16.4, 16.5
      and 16.7 of ISO/IEC 9075-2:2003). `RELEASE` also drops every later savepoint,
      `ROLLBACK TO` keeps the one it names. */
  function Effect(cmd: Command, s: SessionState): Answer {
    match cmd
    case Begin => if s.open then Refused else Done(SessionState(s.committed, s.committed, [], true))
    case Commit => if s.open then Done(SessionState(s.working, s.working, [], false)) else Refused
    case Rollback => if s.open then Done(SessionState(s.committed, s.committed, [], false)) else Refused
    case SetSavepoint(id) =>
      if !s.open then Refused
      else
        var i := Find(s.stack, id);
        var others := if i < 0 then s.stack else s.stack[..i] + s.stack[i + 1..];
        Done(s.(stack := others + [Savepoint(id, s.working)]))
    case Release(id) =>
      var i := Find(s.stack, id);
      if i < 0 then Refused else Done(s.(stack := s.stack[..i]))
    case RollbackTo(id) =>
      var i := Find(s.stack, id);
      if i < 0 then Refused else Done(s.(stack := s.stack[..i + 1], working := s.stack[i].snapshot))
    case Run(update) =>
      if s.open then Done(s.(working := update(s.working)))
      else Done(s.(committed := update(s.committed), working := update(s.committed)))
  }

  ghost predicate Increasing(stack: seq<Savepoint>) {
    forall i, j | 0 <= i < j < |stack| :: stack[i].id < stack[j].id
  }

  ghost predicate Below(stack: seq<Savepoint>, bound: nat) {
    forall i | 0 <= i < |stack| :: stack[i].id < bound
  }

  lemma {:induction false} FindIncreasing(stack: seq<Savepoint>, k: nat)
    requires Increasing(stack) && k < |stack|
    ensures Find(stack, stack[k].id) == k
  {
  }

  class Session {
    var state: SessionState
    var clock: nat                       // statements issued so far
    const fails: nat -> bool             // which of them the environment makes fail
    ghost var issued: seq<Command>       // them, in order
    ghost var commitDepths: seq<nat>     // savepoints on the stack at each COMMIT issued

    constructor (db: Db, fails: nat -> bool)
      ensures state == SessionState(db, db, [], false) && clock == 0 && issued == [] && commitDepths == []
      ensures this.fails == fails
    {
      state := SessionState(db, db, [], false);
      clock := 0;
      this.fails := fails;
      issued := [];
      commitDepths := [];
    }

    ghost predicate Valid()
      reads this
    {
      && |issued| == clock
      && (!state.open ==> state.stack == [] && state.working == state.committed)
      && forall i | 0 <= i < |commitDepths| :: commitDepths[i] == 0
    }

    method Exec(cmd: Command) returns (ok: bool)
      modifies this
      ensures clock == old(clock) + 1 && issued == old(issued) + [cmd]
      ensures var answer := Effect(cmd, old(state));
              && ok == (!fails(old(clock)) && answer.Done?)
              && state == if ok then answer.state else old(state)
      ensures commitDepths == if cmd.Commit? then old(commitDepths) + [|old(state).stack|] else old(commitDepths)
    {
      if cmd.Commit? {
        commitDepths := commitDepths + [|state.stack|];
      }
      var answer := Effect(cmd, state);
      ok := !fails(clock) && answer.Done?;
      if ok {
        state := answer.state;
      }
      issued := issued + [cmd];
      clock := clock + 1;
    }
  }

  // ----- User code and its reference meaning -----

  datatype Program =
    | Skip
    | Query(update: Update)
    | Then(first: Program, second: Program)
    | Throw
    | Catch(body: Program, handler: Program)
    | Nested(body: Program)

  datatype Outcome = Returned | Threw

  /** What a run amounts to: the updates that count, the statements used up, whether the
      whole transaction can no longer commit, and how the run ended. */
  datatype Summary = Summary(kept: seq<Update>, clock: nat, doomed: bool, outcome: Outcome)

  /** The reference. A nested block that fails never happened: it keeps nothing. When even
      undoing it fails, the transaction is doomed and every later statement throws. */
  function Reference(p: Program, clock: nat, doomed: bool, fails: nat -> bool): Summary {
    match p
    case Skip => Summary([], clock, doomed, Returned)
    case Throw => Summary([], clock, doomed, Threw)
    case Query(update) =>
      if doomed then Summary([], clock, true, Threw)
      else if fails(clock) then Summary([], clock + 1, false, Threw)
      else Summary([update], clock + 1, false, Returned)
    case Then(p1, p2) =>
      var r1 := Reference(p1, clock, doomed, fails);
      if r1.outcome.Threw? then r1
      else
        var r2 := Reference(p2, r1.clock, r1.doomed, fails);
        r2.(kept := r1.kept + r2.kept)
    case Catch(body, handler) =>
      var r1 := Reference(body, clock, doomed, fails);
      if r1.outcome.Returned? then r1
      else
        var r2 := Reference(handler, r1.clock, r1.doomed, fails);
        r2.(kept := r1.kept + r2.kept)
    case Nested(body) =>
      if doomed then Summary([], clock, true, Threw)
      else if fails(clock) then Summary([], clock + 1, false, Threw)
      else
        Settle(Reference(body, clock + 1, false, fails), fails)
  }

  /** How a nested block ends once its body has: kept whole, or undone whole. */
  function Settle(r: Summary, fails: nat -> bool): Summary {
    if r.outcome.Returned? && !fails(r.clock) then r.(clock := r.clock + 1)
    else
      var t := if r.outcome.Returned? then r.clock + 1 else r.clock;
      if fails(t) then Summary([], t + 1, true, Threw)
      else Summary([], t + 2, r.doomed || fails(t + 1), Threw)
  }

  /** Nothing brings a doomed transaction back, and nothing in it counts any more. */
  lemma {:induction false} DoomedStays(p: Program, clock: nat, fails: nat -> bool)
    ensures var r := Reference(p, clock, true, fails); r.doomed && r.kept == [] && r.clock == clock
  {
    match p
    case Then(p1, p2) =>
      DoomedStays(p1, clock, fails);
      DoomedStays(p2, clock, fails);
    case Catch(body, handler) =>
      DoomedStays(body, clock, fails);
      DoomedStays(handler, clock, fails);
    case _ =>
  }

  /** Exceptions and atomic blocks alone, with no statement numbers and no failing statements. */
  function PlainMeaning(p: Program): (seq<Update>, Outcome) {
    match p
    case Skip => ([], Returned)
    case Throw => ([], Threw)
    case Query(update) => ([update], Returned)
    case Then(p1, p2) =>
      var (k1, o1) := PlainMeaning(p1);
      if o1.Threw? then (k1, o1) else var (k2, o2) := PlainMeaning(p2); (k1 + k2, o2)
    case Catch(body, handler) =>
      var (k1, o1) := PlainMeaning(body);
      if o1.Returned? then (k1, o1) else var (k2, o2) := PlainMeaning(handler); (k1 + k2, o2)
    case Nested(body) =>
      var (k, o) := PlainMeaning(body);
      if o.Threw? then ([], Threw) else (k, Returned)
  }

  /** When no statement fails, the reference is that plain meaning: only user throws undo
      blocks, and no transaction is ever doomed. */
  lemma {:induction false} WithoutFailures(p: Program, clock: nat, fails: nat -> bool)
    requires forall t :: !fails(t)
    ensures var r := Reference(p, clock, false, fails); !r.doomed && (r.kept, r.outcome) == PlainMeaning(p)
  {
    match p
    case Then(p1, p2) =>
      WithoutFailures(p1, clock, fails);
      WithoutFailures(p2, Reference(p1, clock, false, fails).clock, fails);
    case Catch(body, handler) =>
      WithoutFailures(body, clock, fails);
      WithoutFailures(handler, Reference(body, clock, false, fails).clock, fails);
    case Nested(body) =>
      WithoutFailures(body, clock + 1, fails);
    case _ =>
  }

  function ApplyAll(updates: seq<Update>, db: Db): Db {
    if updates == [] then db else ApplyAll(updates[1..], updates[0](db))
  }

  lemma {:induction false} ApplyConcat(a: seq<Update>, b: seq<Update>, db: Db)
    ensures ApplyAll(a + b, db) == ApplyAll(b, ApplyAll(a, db))
  {
    if a == [] {
      assert a + b == b;
    } else {
      assert (a + b)[1..] == a[1..] + b;
      ApplyConcat(a[1..], b, a[0](db));
    }
  }

  // ----- The client inside a transaction -----

  class TxClient {
    const session: Session
    var savepointCounter: nat
    var poisoned: bool

    constructor (session: Session)
      ensures this.session == session && savepointCounter == 0 && !poisoned
    {
      this.session := session;
      savepointCounter := 0;
      poisoned := false;
    }

    /** Savepoints on the stack carry increasing ids that were handed out already. */
    ghost predicate Valid()
      reads this, session
    {
      && session.Valid()
      && Increasing(session.state.stack)
      && Below(session.state.stack, savepointCounter + 1)
    }

    /** The run of `p` that ended with `outcome` matches the reference: same statements used,
        same ending; while the transaction can still commit, the working state is exactly the
        kept updates and the savepoint stack is as before. */
    twostate predicate Refines(p: Program, outcome: Outcome)
      reads this, session
    {
      var r := Reference(p, old(session.clock), old(poisoned), session.fails);
      && outcome == r.outcome
      && session.clock == r.clock
      && poisoned == r.doomed
      && old(savepointCounter) <= savepointCounter
      && session.state.open
      && session.state.committed == old(session.state.committed)
      && session.commitDepths == old(session.commitDepths)
      && old(session.state.stack) <= session.state.stack
      && (!poisoned ==>
            && session.state.stack == old(session.state.stack)
            && session.state.working == ApplyAll(r.kept, old(session.state.working)))
    }

    method RunProgram(p: Program) returns (outcome: Outcome)
      requires Valid() && session.state.open
      modifies this, session
      ensures Valid() && Refines(p, outcome)
      decreases p, 1
    {
      match p
      case Skip => outcome := Returned;
      case Throw => outcome := Threw;
      case Query(update) =>
        if poisoned { return Threw; }
        var ok := session.Exec(Run(update));
        outcome := if ok then Returned else Threw;
      case Then(first, second) =>
        ghost var r1 := Reference(first, session.clock, poisoned, session.fails);
        ghost var start := session.state.working;
        outcome := RunProgram(first);
        if outcome.Returned? {
          ghost var r2 := Reference(second, session.clock, poisoned, session.fails);
          if poisoned { DoomedStays(second, session.clock, session.fails); }
          outcome := RunProgram(second);
          ApplyConcat(r1.kept, r2.kept, start);
        }
      case Catch(body, handler) =>
        ghost var r1 := Reference(body, session.clock, poisoned, session.fails);
        ghost var start := session.state.working;
        outcome := RunProgram(body);
        if outcome.Threw? {
          ghost var r2 := Reference(handler, session.clock, poisoned, session.fails);
          if poisoned { DoomedStays(handler, session.clock, session.fails); }
          outcome := RunProgram(handler);
          ApplyConcat(r1.kept, r2.kept, start);
        }
      case Nested(body) =>
        if poisoned { return Threw; }
        savepointCounter := savepointCounter + 1;
        outcome := RunInSavepoint(savepointCounter, p);
    }

    method RunInSavepoint(id: nat, p: Program) returns (outcome: Outcome)
      requires p.Nested?
      requires Valid() && session.state.open && !poisoned && id == savepointCounter
      requires Below(session.state.stack, id)
      modifies this, session
      ensures Valid() && Refines(p, outcome)
      decreases p, 0
    {
      ghost var before := session.state;
      var ok := OpenSavepoint(id);
      if !ok { return Threw; }
      ghost var r := Reference(p.body, session.clock, false, session.fails);
      outcome := RunProgram(p.body);
      assert session.state.stack[..|before.stack|] == before.stack;
      assert session.state.stack[|before.stack|] == Savepoint(id, before.working);
      outcome := CloseSavepoint(id, outcome, |before.stack|, r.kept);
    }

    /** After the body: release, or else undo and pop. */
    method CloseSavepoint(id: nat, bodyOutcome: Outcome, ghost k: nat, ghost kept: seq<Update>)
      returns (outcome: Outcome)
      requires Valid() && session.state.open
      requires k < |session.state.stack| && session.state.stack[k].id == id
      modifies this, session
      ensures Valid() && savepointCounter == old(savepointCounter)
      ensures var r := Settle(Summary(kept, old(session.clock), old(poisoned), bodyOutcome), session.fails);
              outcome == r.outcome && session.clock == r.clock && poisoned == r.doomed
      ensures session.state.open && session.state.committed == old(session.state.committed)
      ensures session.commitDepths == old(session.commitDepths)
      ensures old(session.state.stack)[..k] <= session.state.stack
      ensures !poisoned ==>
                && session.state.stack == old(session.state.stack)[..k]
                && session.state.working == if outcome.Returned? then old(session.state.working)
                                            else old(session.state.stack)[k].snapshot
    {
      if bodyOutcome.Returned? {
        var ok := ReleaseSavepoint(id, k);
        if ok { return Returned; }
      }
      var clean := RollbackAndRelease(id, k);
      if !clean {
        poisoned := true;
      }
      return Threw;
    }

    method OpenSavepoint(id: nat) returns (ok: bool)
      requires session.state.open && Increasing(session.state.stack) && Below(session.state.stack, id)
      modifies session
      ensures session.commitDepths == old(session.commitDepths) && session.clock == old(session.clock) + 1
      ensures |session.issued| == old(|session.issued|) + 1
      ensures ok == !session.fails(old(session.clock))
      ensures var s := old(session.state);
              session.state == if ok then s.(stack := s.stack + [Savepoint(id, s.working)]) else s
      ensures Increasing(session.state.stack) && Below(session.state.stack, id + 1)
    {
      ok := session.Exec(SetSavepoint(id));
    }

    method ReleaseSavepoint(id: nat, ghost k: nat) returns (ok: bool)
      requires Increasing(session.state.stack)
      requires k < |session.state.stack| && session.state.stack[k].id == id
      modifies session
      ensures session.commitDepths == old(session.commitDepths) && session.clock == old(session.clock) + 1
      ensures |session.issued| == old(|session.issued|) + 1
      ensures ok == !session.fails(old(session.clock))
      ensures session.state ==
              if ok then old(session.state).(stack := old(session.state).stack[..k]) else old(session.state)
    {
      FindIncreasing(session.state.stack, k);
      ok := session.Exec(Release(id));
    }

    /** Undo to the savepoint, then pop it; both steps must succeed for a clean stack. */
    method RollbackAndRelease(id: nat, ghost k: nat) returns (clean: bool)
      requires Increasing(session.state.stack)
      requires k < |session.state.stack| && session.state.stack[k].id == id
      modifies session
      ensures session.commitDepths == old(session.commitDepths)
      ensures |session.issued| - session.clock == old(|session.issued| - session.clock)
      ensures var t := old(session.clock);
              && session.clock == (if session.fails(t) then t + 1 else t + 2)
              && clean == (!session.fails(t) && !session.fails(t + 1))
      ensures session.state.committed == old(session.state.committed) && session.state.open == old(session.state.open)
      ensures session.state.stack == old(session.state.stack)
              || session.state.stack == old(session.state.stack)[..k + 1]
              || session.state.stack == old(session.state.stack)[..k]
      ensures clean ==> session.state.working == old(session.state.stack)[k].snapshot
                        && session.state.stack == old(session.state.stack)[..k]
    {
      FindIncreasing(session.state.stack, k);
      var ok := session.Exec(RollbackTo(id));
      if !ok { return false; }
      assert session.state.stack[k].id == id;
      clean := ReleaseSavepoint(id, k);
      assert old(session.state.stack)[..k + 1][..k] == old(session.state.stack)[..k];
    }
  }

  // ----- The outer transaction -----

  /** When an outer transaction commits, `start` being the statement number of its BEGIN. */
  predicate Commits(body: Program, start: nat, fails: nat -> bool) {
    var r := Reference(body, start + 1, false, fails);
    !fails(start) && r.outcome.Returned? && !r.doomed && !fails(r.clock)
  }

  /** One transaction: either it commits exactly the updates of the reference run, or it
      throws and the committed state is untouched. It returns exactly when BEGIN and COMMIT
      were accepted, the body returned, and no savepoint was left behind. */
  ghost predicate CommitsOrNothing(body: Program, outcome: Outcome, before: SessionState, start: nat,
                                   fails: nat -> bool, after: SessionState)
  {
    && (outcome.Returned? <==> !before.open && Commits(body, start, fails))
    && (outcome.Returned? ==>
          && !after.open
          && after.committed == ApplyAll(Reference(body, start + 1, false, fails).kept, before.committed))
    && (outcome.Threw? ==> after.committed == before.committed)
  }

  /** The statement number after a transaction whose BEGIN was accepted: behind its body, a COMMIT
      if the body allows one, and a ROLLBACK unless that COMMIT was accepted. */
  function EndsAt(body: Program, start: nat, fails: nat -> bool): nat {
    var r := Reference(body, start + 1, false, fails);
    r.clock + (if r.outcome.Returned? && !r.doomed then 1 else 0) + if Commits(body, start, fails) then 0 else 1
  }

  /** How a transaction leaves its connection once BEGIN was accepted. Its last statement is the
      COMMIT that was accepted or else a ROLLBACK, and the connection stays inside the transaction
      exactly when that ROLLBACK failed. */
  ghost predicate LeavesClosed(outcome: Outcome, session: Session)
    reads session
  {
    && session.issued != [] && |session.issued| == session.clock
    && session.issued[session.clock - 1] == (if outcome.Returned? then Commit else Rollback)
    && (session.state.open <==> outcome.Threw? && session.fails(session.clock - 1))
    && (!session.state.open ==> session.state.working == session.state.committed && session.state.stack == [])
  }

  /** The body of an outer transaction and its COMMIT, once BEGIN was accepted. */
  method RunAndCommit(client: TxClient, body: Program) returns (done: bool)
    requires client.Valid() && !client.poisoned
    requires var s := client.session.state; s.open && s.stack == [] && s.working == s.committed
    modifies client, client.session
    ensures client.Valid()
    ensures var r := Reference(body, old(client.session.clock), false, client.session.fails);
            && done == (r.outcome.Returned? && !r.doomed && !client.session.fails(r.clock))
            && (done ==> client.session.state.committed == ApplyAll(r.kept, old(client.session.state.committed)))
            && client.session.clock == r.clock + if r.outcome.Returned? && !r.doomed then 1 else 0
    ensures done ==> client.session.issued != [] && client.session.issued[client.session.clock - 1] == Commit
    ensures done == !client.session.state.open
    ensures !done ==> client.session.state.committed == old(client.session.state.committed)
  {
    hide Reference, ApplyAll;
    var outcome := client.RunProgram(body);
    if outcome.Returned? && !client.poisoned {
      done := client.session.Exec(Commit);
      return;
    }
    return false;
  }

  /** The SQLite client's outer transaction, on the one connection it always uses. A BEGIN
      that fails is not followed by a ROLLBACK: the connection may be inside a transaction
      that an earlier ROLLBACK failed to close, and then nothing changes at all. */
  method SqliteTransaction(client: TxClient, body: Program) returns (outcome: Outcome)
    requires client.Valid()
    modifies client, client.session
    ensures client.Valid()
    ensures CommitsOrNothing(body, outcome, old(client.session.state), old(client.session.clock),
                             client.session.fails, client.session.state)
    ensures if old(client.session.state).open || client.session.fails(old(client.session.clock)) then
              && client.session.state == old(client.session.state)
              && client.session.clock == old(client.session.clock) + 1
            else
              && LeavesClosed(outcome, client.session)
              && client.session.clock == EndsAt(body, old(client.session.clock), client.session.fails)
    ensures var s := old(client.session.state);
            After(body, s.open, s.committed, old(client.session.clock), client.session.fails)
            == Left(outcome, client.session.state.open, client.session.state.committed, client.session.clock)
  {
    hide Reference, ApplyAll;
    client.poisoned := false;
    var ok := client.session.Exec(Begin);
    if !ok { return Threw; }
    var done := RunAndCommit(client, body);
    if done { return Returned; }
    ok := client.session.Exec(Rollback);
    return Threw;
  }

  /** The PostgreSQL client's outer transaction, on a connection fresh from the pool: its
      BEGIN is inside the guarded part, so a failed BEGIN is followed by a ROLLBACK. */
  method PgTransaction(session: Session, body: Program) returns (outcome: Outcome)
    requires session.Valid() && !session.state.open
    modifies session
    ensures session.Valid()
    ensures CommitsOrNothing(body, outcome, old(session.state), old(session.clock), session.fails, session.state)
    ensures if session.fails(old(session.clock)) then
              && session.state == old(session.state)
              && session.issued == old(session.issued) + [Begin, Rollback]
            else
              && LeavesClosed(outcome, session)
              && session.clock == EndsAt(body, old(session.clock), session.fails)
  {
    hide Reference, ApplyAll;
    var client := new TxClient(session);
    var ok := session.Exec(Begin);
    if ok {
      var done := RunAndCommit(client, body);
      if done { return Returned; }
    }
    ok := session.Exec(Rollback);
    return Threw;
  }

  // ----- One transaction after another on the same connection -----

  /** What a transaction leaves behind: how it ended, whether the connection is still inside it,
      the committed state, and the number of the next statement. */
  datatype Left = Left(outcome: Outcome, open: bool, committed: Db, clock: nat)

  /** A transaction as the contract of `SqliteTransaction` has it. */
  ghost function After(body: Program, open: bool, committed: Db, clock: nat, fails: nat -> bool): Left {
    if open || fails(clock) then Left(Threw, open, committed, clock + 1)
    else
      var next := EndsAt(body, clock, fails);
      if Commits(body, clock, fails) then
        Left(Returned, false, ApplyAll(Reference(body, clock + 1, false, fails).kept, committed), next)
      else Left(Threw, fails(next - 1), committed, next)
  }

  /** Transactions one after the other, from where the last one left the connection. */
  ghost function Series(bodies: seq<Program>, from: Left, fails: nat -> bool): Left {
    if bodies == [] then from
    else
      var before := Series(bodies[..|bodies| - 1], from, fails);
      After(bodies[|bodies| - 1], before.open, before.committed, before.clock, fails)
  }

  /** The ROLLBACK of each transaction that began and threw was accepted. */
  ghost predicate RollbacksAccepted(bodies: seq<Program>, from: Left, fails: nat -> bool) {
    forall i | 0 <= i < |bodies| ::
      var before := Series(bodies[..i], from, fails);
      !before.open && !fails(before.clock) && !Commits(bodies[i], before.clock, fails) ==>
        !fails(EndsAt(bodies[i], before.clock, fails) - 1)
  }

  /** As long as every ROLLBACK is accepted, each transaction finds the connection closed, so that
      it commits whenever its own statements let it. */
  lemma {:induction false} EachCanBegin(bodies: seq<Program>, from: Left, fails: nat -> bool, i: nat)
    requires !from.open && RollbacksAccepted(bodies, from, fails) && i <= |bodies|
    ensures !Series(bodies[..i], from, fails).open
    ensures i > 0 ==>
              (Series(bodies[..i], from, fails).outcome.Returned? <==>
               Commits(bodies[i - 1], Series(bodies[..i - 1], from, fails).clock, fails))
  {
    hide EndsAt, ApplyAll, Reference;
    if i > 0 {
      EachCanBegin(bodies, from, fails, i - 1);
      assert bodies[..i][..i - 1] == bodies[..i - 1] && bodies[..i][i - 1] == bodies[i - 1];
    }
  }

  /** A connection whose ROLLBACK failed stays inside that transaction: every later one throws and
      nothing is committed any more. */
  lemma {:induction false} StaysInside(bodies: seq<Program>, from: Left, fails: nat -> bool)
    requires from.open && bodies != []
    ensures var after := Series(bodies, from, fails);
            after.open && after.outcome == Threw && after.committed == from.committed
            && after.clock == from.clock + |bodies|
  {
    hide Commits, EndsAt, ApplyAll, Reference;
    var init := bodies[..|bodies| - 1];
    if init != [] {
      StaysInside(init, from, fails);
    }
  }

  /** The updates of those bodies that return, one body after the other. */
  function PlainSeries(bodies: seq<Program>): seq<Update> {
    if bodies == [] then []
    else
      var (kept, outcome) := PlainMeaning(bodies[|bodies| - 1]);
      PlainSeries(bodies[..|bodies| - 1]) + if outcome.Returned? then kept else []
  }

  /** When no statement fails, transactions in a row on a closed connection are atomic blocks in a
      row: exactly the bodies that return are committed, whatever the others did. */
  lemma {:induction false} SeriesIsAtomic(bodies: seq<Program>, from: Left, fails: nat -> bool)
    requires !from.open && forall t :: !fails(t)
    ensures var after := Series(bodies, from, fails);
            !after.open && after.committed == ApplyAll(PlainSeries(bodies), from.committed)
  {
    hide Reference, PlainMeaning, ApplyAll;
    if bodies == [] {
      NothingApplied(from.committed);
    } else {
      var init, last := bodies[..|bodies| - 1], bodies[|bodies| - 1];
      SeriesIsAtomic(init, from, fails);
      var before := Series(init, from, fails);
      WithoutFailures(last, before.clock + 1, fails);
      var (kept, outcome) := PlainMeaning(last);
      ApplyConcat(PlainSeries(init), if outcome.Returned? then kept else [], from.committed);
      NothingApplied(before.committed);
    }
  }

  lemma NothingApplied(db: Db)
    ensures ApplyAll([], db) == db
  {
  }
}
