/** Where objects: how a parsed predicate is rendered as one, and how one is compiled to SQL. */
module IndexWhere {
  import opened Common
  import opened IndexAtoms
  import opened IndexPredicate

  // ----- Where objects and their meaning -----

  datatype Check = Check(op: Op, value: Value)

  /** The filter of one column: operators with their values, under one mode. */
  datatype Filter = Filter(checks: seq<Check>, insensitive: bool)

  datatype Entry =
    | Field(column: string, filter: Filter)
    | AndOf(items: Bodies)
    | OrOf(items: Bodies)
    | NotOf(body: Body)

  datatype Body = Empty | Body(head: Entry, tail: Body)

  datatype Bodies = NoBodies | Bodies(head: Body, tail: Bodies)

  /** Whether the mode changes what the operator compares. */
  predicate CaseMatters(c: Check) {
    IndexAtoms.CaseMatters(c.op, c.value)
  }

  function TestOf(column: string, c: Check, insensitive: bool): Test {
    Test(column, c.op, c.value, insensitive && CaseMatters(c))
  }

  function EvalChecks(column: string, checks: seq<Check>, insensitive: bool, row: Row): Truth {
    if checks == [] then True
    else EvalChecks(column, checks[..|checks| - 1], insensitive, row)
         .And(row.test(TestOf(column, checks[|checks| - 1], insensitive)))
  }

  function EvalFilter(column: string, f: Filter, row: Row): Truth {
    EvalChecks(column, f.checks, f.insensitive, row)
  }

  function EvalEntry(e: Entry, row: Row): Truth {
    match e
    case Field(column, filter) => EvalFilter(column, filter, row)
    case AndOf(items) => EvalAllBodies(items, row)
    case OrOf(items) => EvalAnyBody(items, row)
    case NotOf(body) => EvalBody(body, row).Not()
  }

  function EvalBody(b: Body, row: Row): Truth {
    match b case Empty => True case Body(e, rest) => EvalEntry(e, row).And(EvalBody(rest, row))
  }

  function EvalAllBodies(bs: Bodies, row: Row): Truth {
    match bs case NoBodies => True case Bodies(b, rest) => EvalBody(b, row).And(EvalAllBodies(rest, row))
  }

  function EvalAnyBody(bs: Bodies, row: Row): Truth {
    match bs case NoBodies => False case Bodies(b, rest) => EvalBody(b, row).Or(EvalAnyBody(rest, row))
  }

  // ----- Rendering a parsed predicate -----

  datatype Slot = Slot(column: string, filter: Filter)

  function CheckOf(test: Test): Check {
    Check(test.op, test.value)
  }

  function FilterOf(test: Test): Filter {
    Filter([CheckOf(test)], test.insensitive)
  }

  predicate HasOp(checks: seq<Check>, op: Op) {
    exists i | 0 <= i < |checks| :: checks[i].op == op
  }

  /** A filter with one more test, or None if that would give an operator or the mode twice. */
  function Merge(f: Filter, test: Test): Option<Filter> {
    if HasOp(f.checks, test.op) || (f.insensitive && test.insensitive) then None
    else Some(Filter(f.checks + [CheckOf(test)], f.insensitive || test.insensitive))
  }

  function IndexOfColumn(pending: seq<Slot>, column: string): (i: int)
    ensures -1 <= i < |pending|
    ensures i >= 0 ==> pending[i].column == column
    ensures i < 0 ==> forall k | 0 <= k < |pending| :: pending[k].column != column
  {
    if pending == [] then -1
    else if pending[|pending| - 1].column == column then |pending| - 1
    else IndexOfColumn(pending[..|pending| - 1], column)
  }

  function AddTest(pending: seq<Slot>, test: Test): Option<seq<Slot>> {
    var i := IndexOfColumn(pending, test.column);
    if i < 0 then Some(pending + [Slot(test.column, FilterOf(test))])
    else match Merge(pending[i].filter, test)
         case None => None
         case Some(f) => Some(pending[i := Slot(test.column, f)])
  }

  function BodyOf(pending: seq<Slot>): Body {
    if pending == [] then Empty else Body(Field(pending[0].column, pending[0].filter), BodyOf(pending[1..]))
  }

  function Flush(pending: seq<Slot>, later: Bodies): Bodies {
    if pending == [] then later else Bodies(BodyOf(pending), later)
  }

  /** An AND level as where-object bodies: runs of column tests share a body. */
  function Group(ps: Parseds, pending: seq<Slot>): Option<Bodies>
    decreases ps
  {
    match ps
    case NoParseds => Some(Flush(pending, NoBodies))
    case Parseds(p, rest) =>
      if p.Column? then
        match AddTest(pending, p.test)
        case None => None
        case Some(pending') => Group(rest, pending')
      else
        match Render(p)
        case None => None
        case Some(body) =>
          match Group(rest, [])
          case None => None
          case Some(later) => Some(Flush(pending, Bodies(body, later)))
  }

  function Single(e: Entry): Body {
    Body(e, Empty)
  }

  function Render(p: Parsed): Option<Body>
    decreases p
  {
    match p
    case AllOf(items) =>
      (match Group(items, [])
       case None => None
       case Some(bodies) =>
         if bodies.Bodies? && bodies.tail.NoBodies? then Some(bodies.head) else Some(Single(AndOf(bodies))))
    case AnyOf(items) =>
      (match Elements(items) case None => None case Some(bodies) => Some(Single(OrOf(bodies))))
    case Negation(item) =>
      (match Render(item) case None => None case Some(body) => Some(Single(NotOf(body))))
    case Column(test) => Some(Single(Field(test.column, FilterOf(test))))
  }

  function Concat(a: Bodies, b: Bodies): Bodies {
    match a case NoBodies => b case Bodies(x, rest) => Bodies(x, Concat(rest, b))
  }

  /** The elements of an OR. All the bodies of an AND branch become elements of their own. */
  function Elements(ps: Parseds): Option<Bodies>
    decreases ps
  {
    match ps
    case NoParseds => Some(NoBodies)
    case Parseds(p, rest) =>
      var first := if p.AllOf? then Group(p.items, [])
                   else match Render(p) case None => None case Some(body) => Some(Bodies(body, NoBodies));
      match first
      case None => None
      case Some(bodies) =>
        match Elements(rest) case None => None case Some(later) => Some(Concat(bodies, later))
  }

  // ----- When a predicate is rendered, and as what -----

  /** The same operator twice on one column, or two tests under LOWER: no filter holds both. */
  predicate ClashesWith(t: Test, u: Test) {
    t.column == u.column && (t.op == u.op || (t.insensitive && u.insensitive))
  }

  /** No two tests that stand side by side in an AND clash, at any depth. */
  predicate Renderable(p: Parsed) {
    match p
    case AllOf(items) => NoClash(items, [])
    case AnyOf(items) => AllRenderable(items)
    case Negation(item) => Renderable(item)
    case Column(_) => true
  }

  predicate AllRenderable(ps: Parseds) {
    match ps case NoParseds => true case Parseds(p, rest) => Renderable(p) && AllRenderable(rest)
  }

  /** `seen` are the tests since the last part of the AND that is no test. */
  predicate NoClash(ps: Parseds, seen: seq<Test>)
    decreases ps
  {
    match ps
    case NoParseds => true
    case Parseds(p, rest) =>
      if p.Column? then (forall t | t in seen :: !ClashesWith(p.test, t)) && NoClash(rest, seen + [p.test])
      else Renderable(p) && NoClash(rest, [])
  }

  /** The slot of this column says which operators and which mode its tests have had. */
  ghost predicate RecordsAt(pending: seq<Slot>, seen: seq<Test>, column: string) {
    var i := IndexOfColumn(pending, column);
    if i < 0 then forall t | t in seen :: t.column != column
    else
      var f := pending[i].filter;
      && (forall op :: HasOp(f.checks, op) <==> exists t :: t in seen && t.column == column && t.op == op)
      && (f.insensitive <==> exists t :: t in seen && t.column == column && t.insensitive)
  }

  ghost predicate Records(pending: seq<Slot>, seen: seq<Test>) {
    forall column :: RecordsAt(pending, seen, column)
  }

  lemma {:induction false} IndexUpdated(pending: seq<Slot>, i: nat, slot: Slot, column: string)
    requires i < |pending| && pending[i].column == slot.column
    ensures IndexOfColumn(pending[i := slot], column) == IndexOfColumn(pending, column)
    decreases |pending|
  {
    var n := |pending| - 1;
    var after := pending[i := slot];
    if i == n {
      assert after[..n] == pending[..n];
    } else {
      assert after[..n] == pending[..n][i := slot];
      IndexUpdated(pending[..n], i, slot, column);
    }
  }

  lemma HasOpSnoc(checks: seq<Check>, c: Check, op: Op)
    ensures HasOp(checks + [c], op) <==> HasOp(checks, op) || c.op == op
  {
    var all := checks + [c];
    if HasOp(checks, op) {
      var i :| 0 <= i < |checks| && checks[i].op == op;
      assert all[i].op == op;
    }
    assert all[|checks|] == c;
  }

  /** A test is refused exactly when it clashes with one before it. */
  lemma AddTestFails(pending: seq<Slot>, seen: seq<Test>, test: Test)
    requires RecordsAt(pending, seen, test.column)
    ensures AddTest(pending, test).None? <==> exists t :: t in seen && ClashesWith(test, t)
  {
    hide HasOp;
  }

  lemma RecordsOther(pending: seq<Slot>, after: seq<Slot>, seen: seq<Test>, test: Test, column: string)
    requires RecordsAt(pending, seen, column) && column != test.column
    requires var i := IndexOfColumn(pending, column);
             IndexOfColumn(after, column) == i && (i >= 0 ==> after[i] == pending[i])
    ensures RecordsAt(after, seen + [test], column)
  {
    hide HasOp;
    forall t: Test | t.column == column ensures t in seen + [test] <==> t in seen {
    }
  }

  lemma RecordsFirst(pending: seq<Slot>, seen: seq<Test>, test: Test)
    requires RecordsAt(pending, seen, test.column) && IndexOfColumn(pending, test.column) < 0
    ensures RecordsAt(pending + [Slot(test.column, FilterOf(test))], seen + [test], test.column)
  {
    var checks := [CheckOf(test)];
    forall op ensures HasOp(checks, op) <==> test.op == op {
      HasOpSnoc([], CheckOf(test), op);
      assert [] + checks == checks;
    }
    hide HasOp;
    forall t: Test | t.column == test.column ensures t in seen + [test] <==> t == test {
    }
  }

  lemma RecordsNext(pending: seq<Slot>, seen: seq<Test>, test: Test)
    requires RecordsAt(pending, seen, test.column) && IndexOfColumn(pending, test.column) >= 0
    requires Merge(pending[IndexOfColumn(pending, test.column)].filter, test).Some?
    ensures var i := IndexOfColumn(pending, test.column);
            RecordsAt(pending[i := Slot(test.column, Merge(pending[i].filter, test).value)], seen + [test], test.column)
  {
    var i := IndexOfColumn(pending, test.column);
    var f := pending[i].filter;
    IndexUpdated(pending, i, Slot(test.column, Merge(f, test).value), test.column);
    forall op ensures HasOp(f.checks + [CheckOf(test)], op) <==> HasOp(f.checks, op) || test.op == op {
      HasOpSnoc(f.checks, CheckOf(test), op);
    }
    hide HasOp, IndexOfColumn;
    forall t ensures t in seen + [test] <==> t in seen || t == test {
    }
  }

  lemma RecordsMore(pending: seq<Slot>, seen: seq<Test>, test: Test)
    requires Records(pending, seen) && AddTest(pending, test).Some?
    ensures Records(AddTest(pending, test).value, seen + [test])
  {
    var after := AddTest(pending, test).value;
    var i := IndexOfColumn(pending, test.column);
    assert RecordsAt(pending, seen, test.column);
    forall column ensures RecordsAt(after, seen + [test], column) {
      assert RecordsAt(pending, seen, column);
      if column != test.column {
        if i >= 0 {
          IndexUpdated(pending, i, after[i], column);
        } else {
          assert after[..|pending|] == pending;
        }
        RecordsOther(pending, after, seen, test, column);
      } else if i < 0 {
        RecordsFirst(pending, seen, test);
      } else {
        RecordsNext(pending, seen, test);
      }
    }
  }

  lemma NothingRecorded()
    ensures Records([], [])
  {
  }

  /** A predicate comes out as a where object exactly when no two tests side by side in an AND
      clash. */
  lemma {:induction false} RendersExactly(p: Parsed)
    ensures Render(p).Some? <==> Renderable(p)
    decreases p, 1
  {
    match p
    case AllOf(items) =>
      NothingRecorded();
      GroupsExactly(items, [], []);
    case AnyOf(items) => ElementsExactly(items);
    case Negation(item) => RendersExactly(item);
    case Column(_) =>
  }

  lemma {:induction false} GroupsExactly(ps: Parseds, pending: seq<Slot>, seen: seq<Test>)
    requires Records(pending, seen)
    ensures Group(ps, pending).Some? <==> NoClash(ps, seen)
    decreases ps, 0
  {
    hide Records, AddTest;
    match ps
    case NoParseds =>
    case Parseds(p, rest) =>
      if p.Column? {
        assert RecordsAt(pending, seen, p.test.column) by { Recorded(pending, seen, p.test.column); }
        AddTestFails(pending, seen, p.test);
        if AddTest(pending, p.test).Some? {
          RecordsMore(pending, seen, p.test);
          GroupsExactly(rest, AddTest(pending, p.test).value, seen + [p.test]);
        }
      } else {
        RendersExactly(p);
        NothingRecorded();
        GroupsExactly(rest, [], []);
      }
  }

  lemma Recorded(pending: seq<Slot>, seen: seq<Test>, column: string)
    requires Records(pending, seen)
    ensures RecordsAt(pending, seen, column)
  {
  }

  lemma {:induction false} ElementsExactly(ps: Parseds)
    ensures Elements(ps).Some? <==> AllRenderable(ps)
    decreases ps, 0
  {
    match ps
    case NoParseds =>
    case Parseds(p, rest) =>
      if p.AllOf? {
        NothingRecorded();
        GroupsExactly(p.items, [], []);
      } else {
        RendersExactly(p);
      }
      ElementsExactly(rest);
  }

  // ----- A where object has no key twice -----

  predicate SameKey(a: Entry, b: Entry) {
    match a
    case Field(column, _) => b.Field? && b.column == column
    case AndOf(_) => b.AndOf?
    case OrOf(_) => b.OrOf?
    case NotOf(_) => b.NotOf?
  }

  predicate HasKey(b: Body, e: Entry) {
    match b case Empty => false case Body(first, rest) => SameKey(first, e) || HasKey(rest, e)
  }

  predicate DistinctOps(checks: seq<Check>) {
    forall i, j | 0 <= i < j < |checks| :: checks[i].op != checks[j].op
  }

  predicate IsObject(b: Body) {
    match b case Empty => true case Body(e, rest) => IsEntry(e) && !HasKey(rest, e) && IsObject(rest)
  }

  predicate IsEntry(e: Entry) {
    match e
    case Field(_, filter) => filter.checks != [] && DistinctOps(filter.checks)
    case AndOf(items) => AreObjects(items)
    case OrOf(items) => AreObjects(items)
    case NotOf(body) => IsObject(body)
  }

  predicate AreObjects(bs: Bodies) {
    match bs case NoBodies => true case Bodies(b, rest) => IsObject(b) && AreObjects(rest)
  }

  ghost predicate AreSlots(pending: seq<Slot>) {
    && (forall i | 0 <= i < |pending| :: pending[i].filter.checks != [] && DistinctOps(pending[i].filter.checks))
    && (forall i, j | 0 <= i < j < |pending| :: pending[i].column != pending[j].column)
  }

  lemma {:induction false} BodyHasKey(pending: seq<Slot>, e: Entry)
    ensures HasKey(BodyOf(pending), e) ==> exists i :: 0 <= i < |pending| && e.Field? && e.column == pending[i].column
  {
    if pending != [] {
      BodyHasKey(pending[1..], e);
      if HasKey(BodyOf(pending[1..]), e) {
        var i :| 0 <= i < |pending[1..]| && e.Field? && e.column == pending[1..][i].column;
        assert pending[i + 1].column == e.column;
      }
    }
  }

  lemma {:induction false} BodyIsObject(pending: seq<Slot>)
    requires AreSlots(pending)
    ensures IsObject(BodyOf(pending))
  {
    if pending != [] {
      BodyIsObject(pending[1..]);
      BodyHasKey(pending[1..], Field(pending[0].column, pending[0].filter));
      hide DistinctOps;
    }
  }

  lemma SlotsStay(pending: seq<Slot>, test: Test)
    requires AreSlots(pending) && AddTest(pending, test).Some?
    ensures AreSlots(AddTest(pending, test).value)
  {
    var i := IndexOfColumn(pending, test.column);
    if i >= 0 {
      var checks := pending[i].filter.checks;
      assert forall k | 0 <= k < |checks| :: checks[k].op != test.op;
    }
  }

  /** Whatever is rendered is a where object: no column and no combinator twice in one body, no
      operator twice on one column, and no filter without an operator. */
  lemma {:induction false} RendersObjects(p: Parsed)
    requires Render(p).Some?
    ensures IsObject(Render(p).value)
    decreases p, 1
  {
    match p
    case AllOf(items) => GroupsAreObjects(items, []);
    case AnyOf(items) => ElementsAreObjects(items);
    case Negation(item) => RendersObjects(item);
    case Column(_) =>
  }

  lemma {:induction false} GroupsAreObjects(ps: Parseds, pending: seq<Slot>)
    requires AreSlots(pending) && Group(ps, pending).Some?
    ensures AreObjects(Group(ps, pending).value)
    decreases ps, 0
  {
    hide AreSlots, AddTest;
    if pending != [] {
      BodyIsObject(pending);
    }
    match ps
    case NoParseds =>
    case Parseds(p, rest) =>
      if p.Column? {
        SlotsStay(pending, p.test);
        GroupsAreObjects(rest, AddTest(pending, p.test).value);
      } else {
        RendersObjects(p);
        NoSlotsAreSlots();
        GroupsAreObjects(rest, []);
      }
  }

  lemma NoSlotsAreSlots()
    ensures AreSlots([])
  {
  }

  lemma {:induction false} ConcatObjects(a: Bodies, b: Bodies)
    requires AreObjects(a) && AreObjects(b)
    ensures AreObjects(Concat(a, b))
  {
    match a case NoBodies => case Bodies(_, rest) => ConcatObjects(rest, b);
  }

  lemma {:induction false} ElementsAreObjects(ps: Parseds)
    requires Elements(ps).Some?
    ensures AreObjects(Elements(ps).value)
    decreases ps, 0
  {
    match ps
    case NoParseds =>
    case Parseds(p, rest) =>
      ElementsAreObjects(rest);
      if p.AllOf? {
        NoSlotsAreSlots();
        GroupsAreObjects(p.items, []);
        ConcatObjects(Group(p.items, []).value, Elements(rest).value);
      } else {
        RendersObjects(p);
        ConcatObjects(Bodies(Render(p).value, NoBodies), Elements(rest).value);
      }
  }

  // ----- When rendering keeps the meaning -----

  /** LOWER stands only around operators whose outcome depends on case. */
  predicate IsTest(test: Test) {
    test.insensitive ==> CaseMatters(CheckOf(test))
  }

  /** Under the shared mode, every operator still compares as it did under its own. */
  predicate SharesMode(f: Filter, test: Test) {
    || f.insensitive == test.insensitive
    || (f.insensitive && !CaseMatters(CheckOf(test)))
    || (test.insensitive && forall c | c in f.checks :: !CaseMatters(c))
  }

  predicate Mergeable(pending: seq<Slot>, test: Test) {
    var i := IndexOfColumn(pending, test.column);
    i >= 0 ==> SharesMode(pending[i].filter, test)
  }

  /** Each AND level gives no operator another's mode, and each AND under an OR is one body. */
  predicate Faithful(p: Parsed) {
    match p
    case AllOf(items) => GroupsFaithfully(items, [])
    case AnyOf(items) => AllFaithful(items)
    case Negation(item) => Faithful(item)
    case Column(test) => IsTest(test)
  }

  predicate AllFaithful(ps: Parseds) {
    match ps
    case NoParseds => true
    case Parseds(p, rest) => Faithful(p) && (p.AllOf? ==> InOneBody(p.items)) && AllFaithful(rest)
  }

  predicate InOneBody(items: Parseds) {
    var bodies := Group(items, []);
    bodies.Some? ==> bodies.value.Bodies? && bodies.value.tail.NoBodies?
  }

  predicate GroupsFaithfully(ps: Parseds, pending: seq<Slot>)
    decreases ps
  {
    match ps
    case NoParseds => true
    case Parseds(p, rest) =>
      if p.Column? then
        IsTest(p.test) && Mergeable(pending, p.test)
        && (AddTest(pending, p.test).Some? ==> GroupsFaithfully(rest, AddTest(pending, p.test).value))
      else Faithful(p) && GroupsFaithfully(rest, [])
  }

  lemma AndLaws(a: Truth, b: Truth, c: Truth)
    ensures a.And(b).And(c) == a.And(b.And(c)) && a.And(b) == b.And(a) && a.And(True) == a == True.And(a)
  {
  }

  lemma OrLaws(a: Truth, b: Truth, c: Truth)
    ensures a.Or(b).Or(c) == a.Or(b.Or(c)) && a.Or(False) == a == False.Or(a)
  {
  }

  lemma {:induction false} ModeOfChecks(column: string, checks: seq<Check>, row: Row)
    requires forall c | c in checks :: !CaseMatters(c)
    ensures EvalChecks(column, checks, true, row) == EvalChecks(column, checks, false, row)
  {
    if checks != [] {
      ModeOfChecks(column, checks[..|checks| - 1], row);
      assert checks[|checks| - 1] in checks;
    }
  }

  lemma {:induction false} MergedChecks(column: string, checks: seq<Check>, c: Check, insensitive: bool, row: Row)
    ensures EvalChecks(column, checks + [c], insensitive, row)
            == EvalChecks(column, checks, insensitive, row).And(row.test(TestOf(column, c, insensitive)))
  {
    assert (checks + [c])[..|checks|] == checks;
  }

  /** A merge that shares the mode rightly is the conjunction of filter and test. */
  lemma {:induction false} MergeMeans(f: Filter, test: Test, row: Row)
    requires IsTest(test) && SharesMode(f, test) && Merge(f, test).Some?
    ensures EvalFilter(test.column, Merge(f, test).value, row) == EvalFilter(test.column, f, row).And(row.test(test))
  {
    var mode := f.insensitive || test.insensitive;
    MergedChecks(test.column, f.checks, CheckOf(test), mode, row);
    if test.insensitive && !f.insensitive {
      ModeOfChecks(test.column, f.checks, row);
    }
  }

  function EvalSlots(pending: seq<Slot>, row: Row): Truth {
    if pending == [] then True
    else EvalSlots(pending[..|pending| - 1], row)
         .And(EvalFilter(pending[|pending| - 1].column, pending[|pending| - 1].filter, row))
  }

  lemma {:induction false} SlotChanged(pending: seq<Slot>, i: nat, slot: Slot, t: Truth, row: Row)
    requires i < |pending|
    requires EvalFilter(slot.column, slot.filter, row)
             == EvalFilter(pending[i].column, pending[i].filter, row).And(t)
    ensures EvalSlots(pending[i := slot], row) == EvalSlots(pending, row).And(t)
    decreases |pending|
  {
    hide EvalFilter;
    var n := |pending| - 1;
    var before := EvalSlots(pending[..n], row);
    var last := EvalFilter(pending[n].column, pending[n].filter, row);
    if i == n {
      assert pending[i := slot][..n] == pending[..n];
      AndLaws(before, last, t);
    } else {
      assert pending[i := slot][..n] == pending[..n][i := slot];
      SlotChanged(pending[..n], i, slot, t, row);
      AndLaws(before, t, last);
      AndLaws(before, last, t);
      AndLaws(t, last, True);
    }
  }

  lemma {:induction false} TestAdded(pending: seq<Slot>, test: Test, row: Row)
    requires IsTest(test) && Mergeable(pending, test) && AddTest(pending, test).Some?
    ensures EvalSlots(AddTest(pending, test).value, row) == EvalSlots(pending, row).And(row.test(test))
  {
    hide Merge, SharesMode, EvalChecks;
    var i := IndexOfColumn(pending, test.column);
    if i < 0 {
      assert (pending + [Slot(test.column, FilterOf(test))])[..|pending|] == pending;
      OneCheck(test, row);
    } else {
      MergeMeans(pending[i].filter, test, row);
      SlotChanged(pending, i, Slot(test.column, Merge(pending[i].filter, test).value), row.test(test), row);
    }
  }

  lemma {:induction false} OneCheck(test: Test, row: Row)
    requires IsTest(test)
    ensures EvalFilter(test.column, FilterOf(test), row) == row.test(test)
  {
    MergedChecks(test.column, [], CheckOf(test), test.insensitive, row);
    assert [] + [CheckOf(test)] == [CheckOf(test)];
  }

  lemma {:induction false} SlotsFirst(pending: seq<Slot>, row: Row)
    requires pending != []
    ensures EvalSlots(pending, row)
            == EvalFilter(pending[0].column, pending[0].filter, row).And(EvalSlots(pending[1..], row))
    decreases |pending|
  {
    hide EvalFilter;
    var n := |pending| - 1;
    if n == 0 {
      assert pending[..0] == [] && pending[1..] == [];
    } else {
      SlotsFirst(pending[..n], row);
      assert pending[..n][1..] == pending[1..][..n - 1];
      AndLaws(EvalFilter(pending[0].column, pending[0].filter, row), EvalSlots(pending[1..][..n - 1], row),
              EvalFilter(pending[n].column, pending[n].filter, row));
    }
  }

  lemma {:induction false} BodyOfMeans(pending: seq<Slot>, row: Row)
    ensures EvalBody(BodyOf(pending), row) == EvalSlots(pending, row)
    decreases |pending|
  {
    hide EvalFilter;
    if pending != [] {
      SlotsFirst(pending, row);
      BodyOfMeans(pending[1..], row);
    }
  }

  lemma {:induction false} FlushMeans(pending: seq<Slot>, later: Bodies, row: Row)
    ensures EvalAllBodies(Flush(pending, later), row) == EvalSlots(pending, row).And(EvalAllBodies(later, row))
  {
    BodyOfMeans(pending, row);
  }

  lemma {:induction false} GroupMeans(ps: Parseds, pending: seq<Slot>, row: Row)
    requires GroupsFaithfully(ps, pending) && Group(ps, pending).Some?
    ensures EvalAllBodies(Group(ps, pending).value, row) == EvalSlots(pending, row).And(EvalAllParsed(ps, row))
    decreases ps
  {
    hide EvalSlots, AddTest, Flush, Mergeable, IsTest;
    match ps
    case NoParseds => FlushMeans(pending, NoBodies, row);
    case Parseds(p, rest) =>
      if p.Column? {
        var pending' := AddTest(pending, p.test).value;
        TestAdded(pending, p.test, row);
        GroupMeans(rest, pending', row);
        AndLaws(EvalSlots(pending, row), row.test(p.test), EvalAllParsed(rest, row));
      } else {
        RenderMeans(p, row);
        GroupMeans(rest, [], row);
        NoSlots(row);
        FlushMeans(pending, Bodies(Render(p).value, Group(rest, []).value), row);
        AndLaws(True, EvalAllParsed(rest, row), True);
      }
  }

  lemma NoSlots(row: Row)
    ensures EvalSlots([], row) == True
  {
  }

  /** Whatever where object is rendered from a faithful predicate decides every row alike. */
  lemma {:induction false} RenderMeans(p: Parsed, row: Row)
    requires Faithful(p) && Render(p).Some?
    ensures EvalBody(Render(p).value, row) == EvalParsed(p, row)
    decreases p
  {
    hide Group, GroupsFaithfully, EvalFilter;
    match p
    case AllOf(items) =>
      GroupMeans(items, [], row);
      NoSlots(row);
      var bodies := Group(items, []).value;
      AndLaws(EvalAllBodies(bodies, row), True, True);
      AndLaws(EvalAllParsed(items, row), True, True);
      if bodies.Bodies? && bodies.tail.NoBodies? {
        AndLaws(EvalBody(bodies.head, row), True, True);
      }
    case AnyOf(items) =>
      ElementsMean(items, row);
      AndLaws(EvalAnyParsed(items, row), True, True);
    case Negation(item) =>
      RenderMeans(item, row);
    case Column(test) =>
      OneCheck(test, row);
  }

  lemma {:induction false} AnyOfConcat(a: Bodies, b: Bodies, row: Row)
    ensures EvalAnyBody(Concat(a, b), row) == EvalAnyBody(a, row).Or(EvalAnyBody(b, row))
  {
    match a
    case NoBodies =>
    case Bodies(x, rest) =>
      AnyOfConcat(rest, b, row);
      OrLaws(EvalBody(x, row), EvalAnyBody(rest, row), EvalAnyBody(b, row));
  }

  lemma {:induction false} ElementsMean(ps: Parseds, row: Row)
    requires AllFaithful(ps) && Elements(ps).Some?
    ensures EvalAnyBody(Elements(ps).value, row) == EvalAnyParsed(ps, row)
    decreases ps
  {
    hide Group, GroupsFaithfully, Render;
    match ps
    case NoParseds =>
    case Parseds(p, rest) =>
      ElementsMean(rest, row);
      if p.AllOf? {
        GroupMeans(p.items, [], row);
        NoSlots(row);
        AnyOfConcat(Group(p.items, []).value, Elements(rest).value, row);
      } else {
        RenderMeans(p, row);
        AnyOfConcat(Bodies(Render(p).value, NoBodies), Elements(rest).value, row);
      }
  }

  // ----- Exactly when a merge and a spread keep the meaning -----

  ghost predicate MergeKeepsMeaning(f: Filter, test: Test)
    requires Merge(f, test).Some?
  {
    forall row: Row :: EvalFilter(test.column, Merge(f, test).value, row)
                       == EvalFilter(test.column, f, row).And(row.test(test))
  }

  function AllTrueBut(test: Test): Row {
    Row(t => if t == test then False else True, a => True)
  }

  lemma {:induction false} TrueChecks(column: string, checks: seq<Check>, insensitive: bool, but: Test)
    requires forall c | c in checks :: TestOf(column, c, insensitive) != but
    ensures EvalChecks(column, checks, insensitive, AllTrueBut(but)) == True
  {
    if checks != [] {
      TrueChecks(column, checks[..|checks| - 1], insensitive, but);
      assert checks[|checks| - 1] in checks;
    }
  }

  lemma {:induction false} FalseChecks(column: string, checks: seq<Check>, insensitive: bool, c: Check)
    requires c in checks
    ensures EvalChecks(column, checks, insensitive, AllTrueBut(TestOf(column, c, insensitive))) == False
  {
    var n := |checks| - 1;
    if checks[n] != c {
      assert checks == checks[..n] + [checks[n]];
      FalseChecks(column, checks[..n], insensitive, c);
    }
  }

  /** A row that tells the merged filter from the two it was merged from. */
  lemma {:induction false} WrongMode(f: Filter, test: Test)
    requires IsTest(test) && Merge(f, test).Some? && !SharesMode(f, test)
    ensures !MergeKeepsMeaning(f, test)
  {
    var c := CheckOf(test);
    if f.insensitive {
      var row := AllTrueBut(test);
      forall c' | c' in f.checks + [c] ensures TestOf(test.column, c', true) != test {
      }
      TrueChecks(test.column, f.checks + [c], true, test);
      assert EvalFilter(test.column, Merge(f, test).value, row) == True;
    } else {
      var c0 :| c0 in f.checks && CaseMatters(c0);
      var t0 := TestOf(test.column, c0, false);
      FalseChecks(test.column, f.checks, false, c0);
      TrueChecks(test.column, f.checks + [c], true, t0);
      assert EvalFilter(test.column, Merge(f, test).value, AllTrueBut(t0)) == True;
    }
  }

  /** Merging an operator into a column's filter keeps the meaning on every row exactly when the
      two may share a mode. */
  lemma {:induction false} MergeExactly(f: Filter, test: Test)
    requires IsTest(test) && Merge(f, test).Some?
    ensures MergeKeepsMeaning(f, test) <==> SharesMode(f, test)
  {
    if SharesMode(f, test) {
      forall row: Row ensures EvalFilter(test.column, Merge(f, test).value, row)
                              == EvalFilter(test.column, f, row).And(row.test(test)) {
        MergeMeans(f, test, row);
      }
    } else {
      WrongMode(f, test);
    }
  }

  predicate AtMost(a: Truth, b: Truth) {
    a.Or(b) == b
  }

  predicate EachAtMost(bs: Bodies, t: Truth, row: Row) {
    match bs case NoBodies => true case Bodies(b, rest) => AtMost(EvalBody(b, row), t) && EachAtMost(rest, t, row)
  }

  predicate EachIs(bs: Bodies, t: Truth, row: Row) {
    match bs case NoBodies => true case Bodies(b, rest) => EvalBody(b, row) == t && EachIs(rest, t, row)
  }

  lemma {:induction false} AnyIsHighest(bs: Bodies, t: Truth, row: Row)
    ensures EachAtMost(bs, t, row) <==> AtMost(EvalAnyBody(bs, row), t)
  {
    match bs case NoBodies => case Bodies(_, rest) => AnyIsHighest(rest, t, row);
  }

  lemma {:induction false} AllAlike(bs: Bodies, row: Row)
    requires bs.Bodies?
    ensures EachIs(bs, EvalBody(bs.head, row), row) <==> EvalAnyBody(bs, row) == EvalAllBodies(bs, row)
    ensures AtMost(EvalAllBodies(bs, row), EvalAnyBody(bs, row))
  {
    if bs.tail.Bodies? {
      AllAlike(bs.tail, row);
      AllOrAny(bs.tail, EvalBody(bs.head, row), row);
    }
  }

  lemma {:induction false} AllOrAny(bs: Bodies, t: Truth, row: Row)
    requires bs.Bodies?
    ensures EachIs(bs, t, row) <==> EvalAnyBody(bs, row) == t && EvalAllBodies(bs, row) == t
    ensures AtMost(EvalAllBodies(bs, row), EvalAnyBody(bs, row))
  {
    if bs.tail.Bodies? {
      AllOrAny(bs.tail, t, row);
    }
  }

  lemma {:induction false} SpreadRenders(items: Parseds, others: Parseds)
    requires Group(items, []).Some? && Elements(others).Some?
    ensures Render(AnyOf(Parseds(AllOf(items), others)))
            == Some(Single(OrOf(Concat(Group(items, []).value, Elements(others).value))))
  {
    hide Group, Concat;
    var ps := Parseds(AllOf(items), others);
    assert Elements(ps) == Some(Concat(Group(items, []).value, Elements(others).value));
  }

  lemma {:induction false} SingleMeans(e: Entry, row: Row)
    ensures EvalBody(Single(e), row) == EvalEntry(e, row)
  {
    AndLaws(EvalEntry(e, row), True, True);
    assert EvalBody(Empty, row) == True;
  }

  lemma {:induction false} SpreadMeans(items: Parseds, others: Parseds, row: Row)
    ensures EvalParsed(AnyOf(Parseds(AllOf(items), others)), row)
            == EvalAllParsed(items, row).Or(EvalAnyParsed(others, row))
  {
    assert EvalParsed(AllOf(items), row) == EvalAllParsed(items, row);
  }

  /** An OR whose first branch is an AND, spread into elements, decides a row rightly exactly when
      the rest of the OR is as true as each element, or the elements agree on the row. */
  lemma {:induction false} SpreadExactly(items: Parseds, others: Parseds, row: Row)
    requires GroupsFaithfully(items, []) && AllFaithful(others)
    requires Group(items, []).Some? && Group(items, []).value.Bodies? && Elements(others).Some?
    ensures var p := AnyOf(Parseds(AllOf(items), others));
            var bodies, rest := Group(items, []).value, EvalAnyParsed(others, row);
            && Render(p).Some?
            && (EvalBody(Render(p).value, row) == EvalParsed(p, row)
                <==> EachAtMost(bodies, rest, row) || EachIs(bodies, EvalBody(bodies.head, row), row))
  {
    hide Group, GroupsFaithfully, AllFaithful, Elements, Render, EachAtMost, EachIs, AtMost;
    var bodies, rest := Group(items, []).value, EvalAnyParsed(others, row);
    SpreadRenders(items, others);
    GroupMeans(items, [], row);
    NoSlots(row);
    ElementsMean(others, row);
    AnyOfConcat(bodies, Elements(others).value, row);
    var any, all := EvalAnyBody(bodies, row), EvalAllBodies(bodies, row);
    SingleMeans(OrOf(Concat(bodies, Elements(others).value)), row);
    SpreadMeans(items, others, row);
    AndLaws(EvalAllParsed(items, row), True, True);
    AnyIsHighest(bodies, rest, row);
    AllAlike(bodies, row);
    SpreadOfTwo(any, all, rest);
  }

  lemma SpreadOfTwo(any: Truth, all: Truth, rest: Truth)
    requires AtMost(all, any)
    ensures any.Or(rest) == all.Or(rest) <==> AtMost(any, rest) || any == all
  {
  }

  /** `a AND NOT b OR c` comes back as `a OR NOT b OR c`, which a row with a and b true and c
      false tells apart. */
  lemma {:induction false} SpreadIsWrong(a: Test, b: Test, c: Test)
    requires a != b && a != c && b != c && !a.insensitive && !b.insensitive && !c.insensitive
    ensures var p := AnyOf(Parseds(AllOf(Parseds(Column(a), Parseds(Negation(Column(b)), NoParseds))),
                           Parseds(Column(c), NoParseds)));
            var row := Row(t => if t == a || t == b then True else False, x => False);
            && Render(p).Some? && !Faithful(p)
            && EvalParsed(p, row) == False && EvalBody(Render(p).value, row) == True
  {
    var items := Parseds(Column(a), Parseds(Negation(Column(b)), NoParseds));
    var row := Row(t => if t == a || t == b then True else False, x => False);
    var others := Parseds(Column(c), NoParseds);
    GroupOfTwo(a, b);
    OneElement(c);
    hide Group, Elements, Render, EvalFilter, EvalChecks;
    SpreadRenders(items, others);
    OneCheck(a, row);
    var bodies := Group(items, []).value;
    SingleMeans(bodies.head.head, row);
    AnyOfConcat(bodies, Elements(others).value, row);
    assert EvalAnyBody(bodies, row) == True;
    SingleMeans(OrOf(Concat(bodies, Elements(others).value)), row);
    SpreadMeans(items, others, row);
    assert EvalParsed(Negation(Column(b)), row) == False;
    assert EvalAllParsed(Parseds(Negation(Column(b)), NoParseds), row) == False;
    assert EvalAllParsed(items, row) == False;
    assert EvalParsed(Column(c), row) == False && EvalAnyParsed(others, row) == False;
    assert !InOneBody(items);
  }

  lemma {:induction false} OneElement(c: Test)
    ensures Elements(Parseds(Column(c), NoParseds)) == Some(Bodies(Single(Field(c.column, FilterOf(c))), NoBodies))
  {
    assert Elements(NoParseds) == Some(NoBodies);
    assert Render(Column(c)) == Some(Single(Field(c.column, FilterOf(c))));
    assert Concat(Bodies(Single(Field(c.column, FilterOf(c))), NoBodies), NoBodies)
           == Bodies(Single(Field(c.column, FilterOf(c))), NoBodies);
  }

  lemma {:induction false} GroupOfTwo(a: Test, b: Test)
    ensures Group(Parseds(Column(a), Parseds(Negation(Column(b)), NoParseds)), [])
            == Some(Bodies(Single(Field(a.column, FilterOf(a))),
                    Bodies(Single(NotOf(Single(Field(b.column, FilterOf(b))))), NoBodies)))
  {
    var slots := [Slot(a.column, FilterOf(a))];
    assert AddTest([], a) == Some([] + slots) && [] + slots == slots;
    assert BodyOf(slots) == Single(Field(a.column, FilterOf(a))) by {
      assert slots[1..] == [];
    }
    var rest := Parseds(Negation(Column(b)), NoParseds);
    assert Group(NoParseds, []) == Some(NoBodies);
    assert Render(Negation(Column(b))) == Some(Single(NotOf(Single(Field(b.column, FilterOf(b))))));
    assert Group(rest, slots) == Some(Flush(slots, Bodies(Single(NotOf(Single(Field(b.column, FilterOf(b))))),
        NoBodies)));
  }

  // ----- The renderer as it runs -----

  function Append(bodies: seq<Body>, later: Bodies): Bodies {
    if bodies == [] then later else Append(bodies[..|bodies| - 1], Bodies(bodies[|bodies| - 1], later))
  }

  function Behind(bodies: seq<Body>, r: Option<Bodies>): Option<Bodies> {
    match r case None => None case Some(later) => Some(Append(bodies, later))
  }

  lemma {:induction false} OneMore(bodies: seq<Body>, b: Body, later: Bodies)
    ensures Append(bodies + [b], later) == Append(bodies, Bodies(b, later))
  {
    assert (bodies + [b])[..|bodies|] == bodies;
  }

  /** The pending filters in the order their columns came. */
  function SlotsOf(order: seq<string>, pending: map<string, Filter>): seq<Slot>
    requires forall c | c in order :: c in pending
  {
    if order == [] then []
    else SlotsOf(order[..|order| - 1], pending) + [Slot(order[|order| - 1], pending[order[|order| - 1]])]
  }

  ghost predicate IsPending(order: seq<string>, pending: map<string, Filter>) {
    && (forall c :: c in order <==> c in pending)
    && (forall i, j | 0 <= i < j < |order| :: order[i] != order[j])
  }

  lemma {:induction false} SlotsAt(order: seq<string>, pending: map<string, Filter>)
    requires forall c | c in order :: c in pending
    ensures |SlotsOf(order, pending)| == |order|
    ensures forall i | 0 <= i < |order| :: SlotsOf(order, pending)[i] == Slot(order[i], pending[order[i]])
  {
    if order != [] {
      SlotsAt(order[..|order| - 1], pending);
    }
  }

  lemma {:induction false} OtherFilter(order: seq<string>, pending: map<string, Filter>, column: string, f: Filter)
    requires (forall c | c in order :: c in pending) && column !in order
    ensures SlotsOf(order, pending[column := f]) == SlotsOf(order, pending)
  {
    if order != [] {
      OtherFilter(order[..|order| - 1], pending, column, f);
    }
  }

  lemma {:induction false} NoSuchSlot(slots: seq<Slot>, order: seq<string>, column: string)
    requires |slots| == |order| && column !in order
    requires forall i | 0 <= i < |order| :: slots[i].column == order[i]
    ensures IndexOfColumn(slots, column) == -1
  {
    hide IndexOfColumn;
    assert forall k | 0 <= k < |slots| :: slots[k].column == order[k] && order[k] in order;
  }

  lemma {:induction false} FirstTest(order: seq<string>, pending: map<string, Filter>, test: Test)
    requires IsPending(order, pending) && test.column !in pending
    ensures var pending' := pending[test.column := FilterOf(test)];
            && IsPending(order + [test.column], pending')
            && AddTest(SlotsOf(order, pending), test) == Some(SlotsOf(order + [test.column], pending'))
  {
    hide FilterOf, IndexOfColumn;
    var pending' := pending[test.column := FilterOf(test)];
    assert test.column !in order;
    PendingGrows(order, pending, test.column, FilterOf(test));
    SlotsAt(order, pending);
    NoSuchSlot(SlotsOf(order, pending), order, test.column);
    OtherFilter(order, pending, test.column, FilterOf(test));
    assert (order + [test.column])[..|order|] == order;
  }

  lemma {:induction false} PendingGrows(order: seq<string>, pending: map<string, Filter>, column: string, f: Filter)
    requires IsPending(order, pending) && column !in order
    ensures IsPending(order + [column], pending[column := f])
  {
  }

  lemma {:induction false} SlotUpdated(order: seq<string>, pending: map<string, Filter>, k: nat, f: Filter)
    requires IsPending(order, pending) && k < |order|
    ensures |SlotsOf(order, pending)| == |order|
    ensures SlotsOf(order, pending[order[k] := f]) == SlotsOf(order, pending)[k := Slot(order[k], f)]
  {
    hide SlotsOf;
    SlotsAt(order, pending);
    SlotsAt(order, pending[order[k] := f]);
  }

  lemma {:induction false} SlotFound(order: seq<string>, pending: map<string, Filter>, column: string) returns (k: nat)
    requires IsPending(order, pending) && column in pending
    ensures k < |order| && order[k] == column && |SlotsOf(order, pending)| == |order|
    ensures IndexOfColumn(SlotsOf(order, pending), column) == k
    ensures SlotsOf(order, pending)[k].filter == pending[column]
  {
    hide SlotsOf, IndexOfColumn;
    SlotsAt(order, pending);
    k :| k < |order| && order[k] == column;
    assert SlotsOf(order, pending)[k].column == column;
  }

  lemma {:induction false} NextTest(order: seq<string>, pending: map<string, Filter>, test: Test)
    requires IsPending(order, pending) && test.column in pending
    ensures match Merge(pending[test.column], test)
            case None => AddTest(SlotsOf(order, pending), test) == None
            case Some(f) =>
              && IsPending(order, pending[test.column := f])
              && AddTest(SlotsOf(order, pending), test) == Some(SlotsOf(order, pending[test.column := f]))
  {
    hide Merge, SlotsOf, IndexOfColumn;
    var k := SlotFound(order, pending, test.column);
    if Merge(pending[test.column], test).Some? {
      SlotUpdated(order, pending, k, Merge(pending[test.column], test).value);
    }
  }

  function Size(p: Parsed): nat {
    match p
    case AllOf(items) => 1 + SizeOf(items)
    case AnyOf(items) => 1 + SizeOf(items)
    case Negation(item) => 1 + Size(item)
    case Column(_) => 1
  }

  function SizeOf(ps: Parseds): nat {
    match ps case NoParseds => 1 case Parseds(p, rest) => 1 + Size(p) + SizeOf(rest)
  }

  method ConjunctBodies(items: Parseds) returns (r: Option<Bodies>)
    ensures r == Group(items, [])
    decreases SizeOf(items)
  {
    hide Render, AddTest, Merge, FilterOf;
    var bodies: seq<Body>, pending: map<string, Filter>, order: seq<string> := [], map[], [];
    var rest := items;
    while rest.Parseds?
      invariant IsPending(order, pending) && SizeOf(rest) <= SizeOf(items)
      invariant Group(items, []) == Behind(bodies, Group(rest, SlotsOf(order, pending)))
      decreases rest
    {
      var item := rest.head;
      if item.Column? {
        var test := item.test;
        if test.column !in pending {
          FirstTest(order, pending, test);
          pending := pending[test.column := FilterOf(test)];
          order := order + [test.column];
        } else {
          NextTest(order, pending, test);
          var merged := Merge(pending[test.column], test);
          if merged.None? { return None; }
          pending := pending[test.column := merged.value];
        }
      } else {
        ghost var slots, before := SlotsOf(order, pending), bodies;
        SlotsAt(order, pending);
        if order != [] {
          bodies := bodies + [BodyOf(SlotsOf(order, pending))];
          pending, order := map[], [];
        }
        var rendered := RenderIndexPredicate(item);
        if rendered.None? { return None; }
        bodies := bodies + [rendered.value];
        Flushed(before, slots, rendered.value, Group(rest.tail, []));
      }
      rest := rest.tail;
    }
    SlotsAt(order, pending);
    if order != [] {
      OneMore(bodies, BodyOf(SlotsOf(order, pending)), NoBodies);
      bodies := bodies + [BodyOf(SlotsOf(order, pending))];
    }
    return Some(Append(bodies, NoBodies));
  }

  lemma {:induction false} Flushed(bodies: seq<Body>, slots: seq<Slot>, body: Body, r: Option<Bodies>)
    ensures r.Some? ==>
              Append(bodies, Flush(slots, Bodies(body, r.value)))
              == Append((if slots == [] then bodies else bodies + [BodyOf(slots)]) + [body], r.value)
  {
    hide BodyOf;
    if r.Some? {
      OneMore(bodies, body, r.value);
      OneMore(bodies, BodyOf(slots), Bodies(body, r.value));
      OneMore(bodies + [BodyOf(slots)], body, r.value);
    }
  }

  /** Renders a predicate as a where object. Whatever comes out decides every row as the predicate
      does, if each AND level gives no operator another's mode and each AND under an OR is one
      body. */
  method RenderIndexPredicate(node: Parsed) returns (r: Option<Body>)
    ensures r == Render(node)
    ensures r.Some? && Faithful(node) ==> forall row :: EvalBody(r.value, row) == EvalParsed(node, row)
    decreases Size(node)
  {
    match node {
      case AllOf(items) =>
        var bodies := ConjunctBodies(items);
        if bodies.None? {
          r := None;
        } else if bodies.value.Bodies? && bodies.value.tail.NoBodies? {
          r := Some(bodies.value.head);
        } else {
          r := Some(Single(AndOf(bodies.value)));
        }
      case AnyOf(items) =>
        var elements := RenderElements(items);
        r := if elements.None? then None else Some(Single(OrOf(elements.value)));
      case Negation(item) =>
        var inner := RenderIndexPredicate(item);
        r := if inner.None? then None else Some(Single(NotOf(inner.value)));
      case Column(test) =>
        r := Some(Single(Field(test.column, FilterOf(test))));
    }
    assert r == Render(node);
    hide *;
    if r.Some? && Faithful(node) {
      forall row ensures EvalBody(r.value, row) == EvalParsed(node, row) {
        RenderMeans(node, row);
      }
    }
  }

  method RenderElements(items: Parseds) returns (r: Option<Bodies>)
    ensures r == Elements(items)
    decreases SizeOf(items)
  {
    hide Group, Render;
    if items.NoParseds? { return Some(NoBodies); }
    var first: Bodies;
    if items.head.AllOf? {
      assert SizeOf(items) > Size(items.head) > SizeOf(items.head.items);
      var bodies := ConjunctBodies(items.head.items);
      if bodies.None? { return None; }
      first := bodies.value;
    } else {
      var inner := RenderIndexPredicate(items.head);
      if inner.None? { return None; }
      first := Bodies(inner.value, NoBodies);
    }
    var later := RenderElements(items.tail);
    if later.None? { return None; }
    return Some(Concat(first, later.value));
  }

  // ----- From the database's text to a where object -----

  lemma {:induction false} SomeBody(ps: Parseds, pending: seq<Slot>)
    requires (ps.Parseds? || pending != []) && Group(ps, pending).Some?
    ensures Group(ps, pending).value.Bodies?
    decreases ps
  {
    hide Render, AddTest;
    if ps.Parseds? && ps.head.Column? {
      NeverEmpty(pending, ps.head.test);
      SomeBody(ps.tail, AddTest(pending, ps.head.test).value);
    }
  }

  lemma NeverEmpty(pending: seq<Slot>, test: Test)
    ensures AddTest(pending, test).Some? ==> AddTest(pending, test).value != []
  {
  }

  /** A where object for a predicate, or None. Whenever there is one, every comparison was
      recognised; and if the reading is faithful and each is read rightly, the object decides every
      row of the database as the predicate does. */
  method ParseIndexWhere(tokens: seq<Token>) returns (where: Option<Body>)
    ensures where == match Parse(tokens)
                     case None => None
                     case Some(p) => if p.AllOf? && p.items.NoParseds? then None else Render(p)
    ensures forall e: Expr | WellFormed(e, OrLevel) && Print(e) == tokens && where.Some? ::
              Readable(e) && Parse(tokens).Some?
    ensures forall e: Expr, cells, numeric | WellFormed(e, OrLevel) && Print(e) == tokens && where.Some?
              && Sane(cells, numeric) && AllReadRightly(e, numeric) && Faithful(Parse(tokens).value) ::
              EvalBody(where.value, RowOf(cells, numeric)) == Eval(e, RowOf(cells, numeric))
  {
    hide Render, Group, Faithful, Parse, Print, AllReadRightly, Sane, Expected, Readable, RowOf;
    var parsed := ParseIndexConjunction(tokens);
    if parsed.None? { return None; }
    var p := parsed.value;
    if p.AllOf? {
      var bodies := ConjunctBodies(p.items);
      RenderAll(p.items);
      if bodies.None? || bodies.value.NoBodies? { return None; }
      where := Some(if bodies.value.tail.NoBodies? then bodies.value.head else Single(AndOf(bodies.value)));
    } else {
      where := RenderIndexPredicate(p);
    }
    forall e: Expr, cells, numeric | WellFormed(e, OrLevel) && Print(e) == tokens && where.Some?
      && Sane(cells, numeric) && AllReadRightly(e, numeric) && Faithful(p)
      ensures EvalBody(where.value, RowOf(cells, numeric)) == Eval(e, RowOf(cells, numeric))
    {
      ParserKeepsMeaning(e, cells, numeric);
      RenderMeans(p, RowOf(cells, numeric));
    }
  }

  /** The top of an AND level, which the renderer would treat alike. */
  lemma {:induction false} RenderAll(items: Parseds)
    ensures match Group(items, [])
            case None => Render(AllOf(items)).None?
            case Some(bodies) =>
              && (bodies.NoBodies? <==> items.NoParseds?)
              && (bodies.Bodies? ==>
                    Render(AllOf(items)) == Some(if bodies.tail.NoBodies? then bodies.head else Single(AndOf(bodies))))
  {
    if items.Parseds? && Group(items, []).Some? {
      SomeBody(items, []);
    }
  }
}
