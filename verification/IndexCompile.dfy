/** Compiling a where object to a SQL predicate, and the way back through the parser. */
module IndexCompile {
  import opened Common
  import opened IndexAtoms
  import opened IndexPredicate
  import opened IndexWhere

  function ToExprs(es: seq<Expr>): Exprs {
    if es == [] then NoExprs else Exprs(es[0], ToExprs(es[1..]))
  }

  function JoinAnd(parts: seq<Expr>): Expr
    requires parts != []
  {
    if |parts| == 1 then parts[0] else And(ToExprs(parts))
  }

  function JoinOr(parts: seq<Expr>): Expr
    requires parts != []
  {
    if |parts| == 1 then parts[0] else Or(ToExprs(parts))
  }

  /** None where the compiler throws: the value is not one that the operator takes. */
  function CompileCheck(column: string, c: Check, insensitive: bool, numeric: bool): Option<Expr> {
    match CompileOp(column, c.op, c.value, insensitive, numeric)
    case None => None
    case Some(atom) => Some(Leaf(atom))
  }

  function CompileChecks(column: string, checks: seq<Check>, insensitive: bool, numeric: bool): Option<seq<Expr>> {
    if checks == [] then Some([])
    else match CompileChecks(column, checks[..|checks| - 1], insensitive, numeric)
         case None => None
         case Some(parts) =>
           match CompileCheck(column, checks[|checks| - 1], insensitive, numeric)
           case None => None
           case Some(part) => Some(parts + [part])
  }

  /** A filter needs an operator, and the insensitive mode one that takes strings. */
  ghost predicate IsUsable(f: Filter) {
    f.checks != [] && (f.insensitive ==> exists c :: c in f.checks && IsStringOp(c.op))
  }

  ghost function CompileFilter(column: string, f: Filter, numeric: bool): Option<seq<Expr>> {
    if IsUsable(f) then CompileChecks(column, f.checks, f.insensitive, numeric) else None
  }

  function Follow(a: Option<seq<Expr>>, b: Option<seq<Expr>>): Option<seq<Expr>> {
    if a.None? || b.None? then None else Some(a.value + b.value)
  }

  ghost function CompileEntry(e: Entry, numeric: bool): Option<seq<Expr>> {
    match e
    case Field(column, filter) => CompileFilter(column, filter, numeric)
    case AndOf(items) =>
      var branches := CompileBranches(items, numeric);
      if branches.None? || branches.value == [] then None else Some([Paren(JoinAnd(branches.value))])
    case OrOf(items) =>
      var branches := CompileBranches(items, numeric);
      if branches.None? || branches.value == [] then None else Some([Paren(JoinOr(branches.value))])
    case NotOf(body) =>
      var parts := CompileBody(body, numeric);
      if parts.None? || parts.value == [] then None else Some([Not(Paren(JoinAnd(parts.value)))])
  }

  ghost function CompileBody(b: Body, numeric: bool): Option<seq<Expr>> {
    match b case Empty => Some([]) case Body(e, rest) => Follow(CompileEntry(e, numeric), CompileBody(rest, numeric))
  }

  ghost function CompileBranches(bs: Bodies, numeric: bool): Option<seq<Expr>> {
    match bs
    case NoBodies => Some([])
    case Bodies(b, rest) =>
      var parts := CompileBody(b, numeric);
      if parts.None? || parts.value == [] then None
      else Follow(Some([Paren(JoinAnd(parts.value))]), CompileBranches(rest, numeric))
  }

  // ----- What was compiled means what the object means -----

  /** The parts stand next to AND, and hold together like `t`. */
  ghost predicate MeansAll(parts: seq<Expr>, t: Truth, row: Row) {
    EvalAll(ToExprs(parts), row) == t && forall e | e in parts :: WellFormed(e, NotLevel)
  }

  ghost predicate MeansAny(parts: seq<Expr>, t: Truth, row: Row) {
    EvalAny(ToExprs(parts), row) == t && forall e | e in parts :: WellFormed(e, NotLevel)
  }

  lemma {:induction false} EvalConcat(a: seq<Expr>, b: seq<Expr>, row: Row)
    ensures EvalAll(ToExprs(a + b), row) == EvalAll(ToExprs(a), row).And(EvalAll(ToExprs(b), row))
    ensures EvalAny(ToExprs(a + b), row) == EvalAny(ToExprs(a), row).Or(EvalAny(ToExprs(b), row))
    decreases |a|
  {
    if a == [] {
      assert a + b == b;
      AndLaws(EvalAll(ToExprs(b), row), True, True);
      OrLaws(EvalAny(ToExprs(b), row), False, False);
    } else {
      assert (a + b)[1..] == a[1..] + b;
      EvalConcat(a[1..], b, row);
      AndLaws(Eval(a[0], row), EvalAll(ToExprs(a[1..]), row), EvalAll(ToExprs(b), row));
      OrLaws(Eval(a[0], row), EvalAny(ToExprs(a[1..]), row), EvalAny(ToExprs(b), row));
    }
  }

  lemma {:induction false} EvalOne(e: Expr, row: Row)
    ensures EvalAll(ToExprs([e]), row) == Eval(e, row) == EvalAny(ToExprs([e]), row)
  {
    assert [e][1..] == [];
    AndLaws(Eval(e, row), True, True);
    OrLaws(Eval(e, row), False, False);
    assert EvalAll(NoExprs, row) == True && EvalAny(NoExprs, row) == False;
  }

  lemma {:induction false} AllPartsWellFormed(parts: seq<Expr>, level: Level)
    requires forall e | e in parts :: WellFormed(e, NotLevel)
    ensures AllWellFormed(ToExprs(parts), level)
    decreases |parts|
  {
    if parts != [] {
      WellFormedBelow(parts[0], level);
      assert forall e | e in parts[1..] :: e in parts;
      AllPartsWellFormed(parts[1..], level);
    }
  }

  lemma {:induction false} WellFormedBelow(e: Expr, level: Level)
    requires WellFormed(e, NotLevel)
    ensures WellFormed(e, level)
  {
  }

  /** A conjunction of such parts is an expression that may stand in parentheses. */
  lemma {:induction false} JoinAndMeans(parts: seq<Expr>, t: Truth, row: Row)
    requires parts != [] && MeansAll(parts, t, row)
    ensures var e := JoinAnd(parts); Eval(e, row) == t && WellFormed(e, OrLevel)
  {
    if |parts| == 1 {
      assert parts == [parts[0]];
      EvalOne(parts[0], row);
      WellFormedBelow(parts[0], OrLevel);
    } else {
      AllPartsWellFormed(parts, NotLevel);
      assert ToExprs(parts).tail.Exprs?;
    }
  }

  lemma {:induction false} JoinOrMeans(parts: seq<Expr>, t: Truth, row: Row)
    requires parts != [] && MeansAny(parts, t, row)
    ensures var e := JoinOr(parts); Eval(e, row) == t && WellFormed(e, OrLevel)
  {
    if |parts| == 1 {
      assert parts == [parts[0]];
      EvalOne(parts[0], row);
      WellFormedBelow(parts[0], OrLevel);
    } else {
      AllPartsWellFormed(parts, AndLevel);
      assert ToExprs(parts).tail.Exprs?;
    }
  }

  lemma {:induction false} OnePart(e: Expr, t: Truth, row: Row)
    requires Eval(e, row) == t && WellFormed(e, NotLevel)
    ensures MeansAll([e], t, row) && MeansAny([e], t, row)
  {
    EvalOne(e, row);
  }

  lemma {:induction false} ConcatMeans(a: seq<Expr>, b: seq<Expr>, t: Truth, u: Truth, row: Row)
    ensures MeansAll(a, t, row) && MeansAll(b, u, row) ==> MeansAll(a + b, t.And(u), row)
    ensures MeansAny(a, t, row) && MeansAny(b, u, row) ==> MeansAny(a + b, t.Or(u), row)
  {
    hide WellFormed;
    EvalConcat(a, b, row);
  }

  lemma {:induction false} CheckMeans(column: string, c: Check, insensitive: bool, cells: Cells, numeric: bool)
    requires Sane(cells, numeric) && CompileCheck(column, c, insensitive, numeric).Some?
    ensures var row := RowOf(cells, numeric);
            MeansAll([CompileCheck(column, c, insensitive, numeric).value],
                     row.test(TestOf(column, c, insensitive)), row)
  {
    hide Sane, MeansAll, EvalSql, EvalTest, CompileOp;
    CompileMeans(column, c.op, c.value, insensitive, numeric, cells);
    var row, part := RowOf(cells, numeric), CompileCheck(column, c, insensitive, numeric).value;
    OnePart(part, row.test(TestOf(column, c, insensitive)), row);
  }

  lemma {:induction false} ChecksMean(column: string, checks: seq<Check>, insensitive: bool, cells: Cells,
                                      numeric: bool)
    requires Sane(cells, numeric) && CompileChecks(column, checks, insensitive, numeric).Some?
    ensures var row := RowOf(cells, numeric);
            MeansAll(CompileChecks(column, checks, insensitive, numeric).value,
                     EvalChecks(column, checks, insensitive, row), row)
    decreases |checks|
  {
    hide Sane, RowOf, CompileCheck;
    if checks != [] {
      var n, row := |checks| - 1, RowOf(cells, numeric);
      ChecksMean(column, checks[..n], insensitive, cells, numeric);
      CheckMeans(column, checks[n], insensitive, cells, numeric);
      hide MeansAll;
      ConcatMeans(CompileChecks(column, checks[..n], insensitive, numeric).value,
                  [CompileCheck(column, checks[n], insensitive, numeric).value],
                  EvalChecks(column, checks[..n], insensitive, row),
                  row.test(TestOf(column, checks[n], insensitive)), row);
    }
  }

  lemma {:induction false} EntryMeans(e: Entry, cells: Cells, numeric: bool)
    requires Sane(cells, numeric) && CompileEntry(e, numeric).Some?
    ensures MeansAll(CompileEntry(e, numeric).value, EvalEntry(e, RowOf(cells, numeric)), RowOf(cells, numeric))
  {
    hide Sane, RowOf, MeansAll, MeansAny, JoinAnd, JoinOr;
    var row := RowOf(cells, numeric);
    match e
    case Field(column, filter) =>
      ChecksMean(column, filter.checks, filter.insensitive, cells, numeric);
    case AndOf(items) =>
      BranchesMean(items, cells, numeric);
      JoinAndMeans(CompileBranches(items, numeric).value, EvalAllBodies(items, row), row);
      OnePart(CompileEntry(e, numeric).value[0], EvalEntry(e, row), row);
    case OrOf(items) =>
      BranchesMean(items, cells, numeric);
      JoinOrMeans(CompileBranches(items, numeric).value, EvalAnyBody(items, row), row);
      OnePart(CompileEntry(e, numeric).value[0], EvalEntry(e, row), row);
    case NotOf(body) =>
      BodyMeans(body, cells, numeric);
      JoinAndMeans(CompileBody(body, numeric).value, EvalBody(body, row), row);
      var inner := Paren(JoinAnd(CompileBody(body, numeric).value));
      assert Eval(inner, row) == EvalBody(body, row);
      OnePart(Not(inner), EvalEntry(e, row), row);
  }

  /** The predicate compiled from a where object decides every row as the object does. */
  lemma {:induction false} BodyMeans(b: Body, cells: Cells, numeric: bool)
    requires Sane(cells, numeric) && CompileBody(b, numeric).Some?
    ensures MeansAll(CompileBody(b, numeric).value, EvalBody(b, RowOf(cells, numeric)), RowOf(cells, numeric))
  {
    hide Sane, RowOf;
    match b
    case Empty =>
    case Body(e, rest) =>
      hide MeansAll;
      EntryMeans(e, cells, numeric);
      BodyMeans(rest, cells, numeric);
      var row := RowOf(cells, numeric);
      ConcatMeans(CompileEntry(e, numeric).value, CompileBody(rest, numeric).value, EvalEntry(e, row),
                  EvalBody(rest, row), row);
  }

  lemma {:induction false} BranchesMean(bs: Bodies, cells: Cells, numeric: bool)
    requires Sane(cells, numeric) && CompileBranches(bs, numeric).Some?
    ensures MeansAll(CompileBranches(bs, numeric).value, EvalAllBodies(bs, RowOf(cells, numeric)),
                     RowOf(cells, numeric))
    ensures MeansAny(CompileBranches(bs, numeric).value, EvalAnyBody(bs, RowOf(cells, numeric)),
                     RowOf(cells, numeric))
  {
    hide Sane, RowOf;
    match bs
    case NoBodies =>
    case Bodies(b, rest) =>
      hide MeansAll, MeansAny, JoinAnd;
      BodyMeans(b, cells, numeric);
      var row, parts := RowOf(cells, numeric), CompileBody(b, numeric).value;
      JoinAndMeans(parts, EvalBody(b, row), row);
      var branch, others := Paren(JoinAnd(parts)), CompileBranches(rest, numeric).value;
      OnePart(branch, EvalBody(b, row), row);
      BranchesMean(rest, cells, numeric);
      ConcatMeans([branch], others, EvalBody(b, row), EvalAllBodies(rest, row), row);
      ConcatMeans([branch], others, EvalBody(b, row), EvalAnyBody(rest, row), row);
  }

  // ----- Which objects come back -----

  predicate FilterReadsBack(f: Filter, numeric: bool) {
    forall c | c in f.checks :: ReadsBack(c.op, c.value, f.insensitive, numeric)
  }

  predicate FilterComesRight(f: Filter, numeric: bool) {
    forall c | c in f.checks :: ComesBackRightly(c.op, c.value, f.insensitive, numeric)
  }

  /** Every operator of the object, at any depth, prints as something the reader recognises. */
  predicate EntryReadsBack(e: Entry, numeric: bool) {
    match e
    case Field(_, filter) => FilterReadsBack(filter, numeric)
    case AndOf(items) => BodiesReadBack(items, numeric)
    case OrOf(items) => BodiesReadBack(items, numeric)
    case NotOf(body) => BodyReadsBack(body, numeric)
  }

  predicate BodyReadsBack(b: Body, numeric: bool) {
    match b case Empty => true case Body(e, rest) => EntryReadsBack(e, numeric) && BodyReadsBack(rest, numeric)
  }

  predicate BodiesReadBack(bs: Bodies, numeric: bool) {
    match bs case NoBodies => true case Bodies(b, rest) => BodyReadsBack(b, numeric) && BodiesReadBack(rest, numeric)
  }

  /** And the reader takes it for what it says. */
  predicate EntryComesRight(e: Entry, numeric: bool) {
    match e
    case Field(_, filter) => FilterComesRight(filter, numeric)
    case AndOf(items) => BodiesComeRight(items, numeric)
    case OrOf(items) => BodiesComeRight(items, numeric)
    case NotOf(body) => BodyComesRight(body, numeric)
  }

  predicate BodyComesRight(b: Body, numeric: bool) {
    match b case Empty => true case Body(e, rest) => EntryComesRight(e, numeric) && BodyComesRight(rest, numeric)
  }

  predicate BodiesComeRight(bs: Bodies, numeric: bool) {
    match bs case NoBodies => true case Bodies(b, rest) => BodyComesRight(b, numeric) && BodiesComeRight(rest, numeric)
  }

  /** Whether all the parts are read, and whether rightly. */
  ghost predicate Read(parts: seq<Expr>, readable: bool, right: bool, numeric: bool) {
    && ((forall e | e in parts :: Readable(e)) <==> readable)
    && ((forall e | e in parts :: AllReadRightly(e, numeric)) <==> right)
  }

  lemma {:induction false} ReadConcat(a: seq<Expr>, b: seq<Expr>, r: bool, w: bool, r': bool, w': bool, numeric: bool)
    requires Read(a, r, w, numeric) && Read(b, r', w', numeric)
    ensures Read(a + b, r && r', w && w', numeric)
  {
    hide Readable, AllReadRightly;
    forall e ensures e in a + b <==> e in a || e in b {
    }
  }

  lemma {:induction false} ReadJoined(parts: seq<Expr>, r: bool, w: bool, numeric: bool)
    requires Read(parts, r, w, numeric)
    ensures (AllReadable(ToExprs(parts)) <==> r) && (EachReadRightly(ToExprs(parts), numeric) <==> w)
    decreases |parts|
  {
    hide Readable, AllReadRightly;
    if parts != [] {
      var rest := parts[1..];
      assert parts == [parts[0]] + rest;
      var r', w' := (forall e | e in rest :: Readable(e)), (forall e | e in rest :: AllReadRightly(e, numeric));
      ReadJoined(rest, r', w', numeric);
    }
  }

  lemma ReadOne(e: Expr, r: bool, w: bool, numeric: bool)
    requires (Readable(e) <==> r) && (AllReadRightly(e, numeric) <==> w)
    ensures Read([e], r, w, numeric)
  {
    hide Readable, AllReadRightly;
    assert e in [e] && forall x | x in [e] :: x == e;
  }

  lemma OneRead(e: Expr, r: bool, w: bool, numeric: bool)
    requires Read([e], r, w, numeric)
    ensures (Readable(e) <==> r) && (AllReadRightly(e, numeric) <==> w)
  {
    hide Readable, AllReadRightly;
    assert e in [e];
  }

  lemma {:induction false} ReadJoins(parts: seq<Expr>, r: bool, w: bool, numeric: bool)
    requires parts != [] && Read(parts, r, w, numeric)
    ensures (Readable(JoinAnd(parts)) <==> r) && (AllReadRightly(JoinAnd(parts), numeric) <==> w)
    ensures (Readable(JoinOr(parts)) <==> r) && (AllReadRightly(JoinOr(parts), numeric) <==> w)
  {
    if |parts| == 1 {
      assert parts == [parts[0]];
      OneRead(parts[0], r, w, numeric);
    } else {
      ReadJoined(parts, r, w, numeric);
    }
  }

  /** A join of parts in parentheses is read as the parts are. */
  lemma {:induction false} ReadParens(parts: seq<Expr>, r: bool, w: bool, numeric: bool)
    requires parts != [] && Read(parts, r, w, numeric)
    ensures Read([JoinAnd(parts)], r, w, numeric)
    ensures Read([Paren(JoinAnd(parts))], r, w, numeric) && Read([Paren(JoinOr(parts))], r, w, numeric)
    ensures Read([Not(Paren(JoinAnd(parts)))], r, w, numeric)
  {
    hide Read, JoinAnd, JoinOr;
    ReadJoins(parts, r, w, numeric);
    ReadOne(JoinAnd(parts), r, w, numeric);
    ReadOne(Paren(JoinAnd(parts)), r, w, numeric);
    ReadOne(Paren(JoinOr(parts)), r, w, numeric);
    ReadOne(Not(Paren(JoinAnd(parts))), r, w, numeric);
  }

  lemma {:induction false} CheckReads(column: string, c: Check, insensitive: bool, numeric: bool)
    requires CompileCheck(column, c, insensitive, numeric).Some?
    ensures Read([CompileCheck(column, c, insensitive, numeric).value], ReadsBack(c.op, c.value, insensitive, numeric),
                 ComesBackRightly(c.op, c.value, insensitive, numeric), numeric)
  {
    hide CompileOp, ReadsBack, ComesBackRightly, ReadAtom, ReadsRightly;
    CompiledReadsBack(column, c.op, c.value, insensitive, numeric);
    CompiledReadsRightly(column, c.op, c.value, insensitive, numeric);
    ReadOne(CompileCheck(column, c, insensitive, numeric).value, ReadsBack(c.op, c.value, insensitive, numeric),
            ComesBackRightly(c.op, c.value, insensitive, numeric), numeric);
  }

  lemma {:induction false} ChecksRead(column: string, checks: seq<Check>, insensitive: bool, numeric: bool)
    requires CompileChecks(column, checks, insensitive, numeric).Some?
    ensures Read(CompileChecks(column, checks, insensitive, numeric).value,
                 forall c | c in checks :: ReadsBack(c.op, c.value, insensitive, numeric),
                 forall c | c in checks :: ComesBackRightly(c.op, c.value, insensitive, numeric), numeric)
    decreases |checks|
  {
    hide ReadsBack, ComesBackRightly, CompileCheck;
    if checks != [] {
      var init, last := checks[..|checks| - 1], checks[|checks| - 1];
      assert checks == init + [last];
      ChecksRead(column, init, insensitive, numeric);
      CheckReads(column, last, insensitive, numeric);
      hide Read;
      ReadConcat(CompileChecks(column, init, insensitive, numeric).value,
                 [CompileCheck(column, last, insensitive, numeric).value],
                 forall c | c in init :: ReadsBack(c.op, c.value, insensitive, numeric),
                 forall c | c in init :: ComesBackRightly(c.op, c.value, insensitive, numeric),
                 ReadsBack(last.op, last.value, insensitive, numeric),
                 ComesBackRightly(last.op, last.value, insensitive, numeric), numeric);
    }
  }

  lemma {:induction false} EntryReads(e: Entry, numeric: bool)
    requires CompileEntry(e, numeric).Some?
    ensures Read(CompileEntry(e, numeric).value, EntryReadsBack(e, numeric), EntryComesRight(e, numeric), numeric)
  {
    hide Read, JoinAnd, JoinOr;
    match e
    case Field(column, filter) =>
      ChecksRead(column, filter.checks, filter.insensitive, numeric);
    case AndOf(items) =>
      BranchesRead(items, numeric);
      ReadParens(CompileBranches(items, numeric).value, BodiesReadBack(items, numeric), BodiesComeRight(items, numeric),
                 numeric);
    case OrOf(items) =>
      BranchesRead(items, numeric);
      ReadParens(CompileBranches(items, numeric).value, BodiesReadBack(items, numeric), BodiesComeRight(items, numeric),
                 numeric);
    case NotOf(body) =>
      BodyReads(body, numeric);
      ReadParens(CompileBody(body, numeric).value, BodyReadsBack(body, numeric), BodyComesRight(body, numeric),
                 numeric);
  }

  /** What a where object compiles to is read, and read rightly, exactly when its values allow it. */
  lemma {:induction false} BodyReads(b: Body, numeric: bool)
    requires CompileBody(b, numeric).Some?
    ensures Read(CompileBody(b, numeric).value, BodyReadsBack(b, numeric), BodyComesRight(b, numeric), numeric)
  {
    match b
    case Empty =>
    case Body(e, rest) =>
      hide Read;
      EntryReads(e, numeric);
      BodyReads(rest, numeric);
      ReadConcat(CompileEntry(e, numeric).value, CompileBody(rest, numeric).value, EntryReadsBack(e, numeric),
                 EntryComesRight(e, numeric), BodyReadsBack(rest, numeric), BodyComesRight(rest, numeric), numeric);
  }

  lemma {:induction false} BranchesRead(bs: Bodies, numeric: bool)
    requires CompileBranches(bs, numeric).Some?
    ensures Read(CompileBranches(bs, numeric).value, BodiesReadBack(bs, numeric), BodiesComeRight(bs, numeric), numeric)
  {
    match bs
    case NoBodies =>
    case Bodies(b, rest) =>
      hide Read, JoinAnd;
      BodyReads(b, numeric);
      var parts := CompileBody(b, numeric).value;
      ReadParens(parts, BodyReadsBack(b, numeric), BodyComesRight(b, numeric), numeric);
      BranchesRead(rest, numeric);
      ReadConcat([Paren(JoinAnd(parts))], CompileBranches(rest, numeric).value, BodyReadsBack(b, numeric),
                 BodyComesRight(b, numeric), BodiesReadBack(rest, numeric), BodiesComeRight(rest, numeric), numeric);
  }

  lemma {:induction false} CompiledStands(b: Body, cells: Cells, numeric: bool)
    requires Sane(cells, numeric) && CompileBody(b, numeric).Some? && CompileBody(b, numeric).value != []
    ensures var e := JoinAnd(CompileBody(b, numeric).value);
            && WellFormed(e, OrLevel) && Eval(e, RowOf(cells, numeric)) == EvalBody(b, RowOf(cells, numeric))
            && (Readable(e) <==> BodyReadsBack(b, numeric))
            && (AllReadRightly(e, numeric) <==> BodyComesRight(b, numeric))
  {
    BodyMeans(b, cells, numeric);
    BodyReads(b, numeric);
    var parts, row := CompileBody(b, numeric).value, RowOf(cells, numeric);
    ReadParens(parts, BodyReadsBack(b, numeric), BodyComesRight(b, numeric), numeric);
    OneRead(JoinAnd(parts), BodyReadsBack(b, numeric), BodyComesRight(b, numeric), numeric);
    hide *;
    JoinAndMeans(parts, EvalBody(b, row), row);
  }

  /** What was compiled is read again exactly when no pattern's text has a percent sign, no list a 1
      or a 0, and every number is a plain decimal. If besides no number 1 or 0 is asked for where
      booleans print as words, what is read decides every row as the where object did, and so does
      the object rendered from a faithful reading. */
  lemma CompiledComesBack(b: Body, cells: Cells, numeric: bool)
    requires Sane(cells, numeric) && CompileBody(b, numeric).Some? && CompileBody(b, numeric).value != []
    ensures var p, row := Parse(Print(JoinAnd(CompileBody(b, numeric).value))), RowOf(cells, numeric);
            && (p.Some? <==> BodyReadsBack(b, numeric))
            && (p.Some? && BodyComesRight(b, numeric) ==>
                  && EvalParsed(p.value, row) == EvalBody(b, row)
                  && (Faithful(p.value) && Render(p.value).Some? ==>
                        EvalBody(Render(p.value).value, row) == EvalBody(b, row)))
  {
    hide *;
    CompiledStands(b, cells, numeric);
    var e := JoinAnd(CompileBody(b, numeric).value);
    ParserKeepsMeaning(e, cells, numeric);
    var p := Parse(Print(e));
    if p.Some? && Faithful(p.value) && Render(p.value).Some? {
      RenderMeans(p.value, RowOf(cells, numeric));
    }
  }

  function OneCheckOn(column: string, c: Check): Body {
    Single(Field(column, Filter([c], false)))
  }

  lemma {:induction false} OneCheckCompiles(column: string, c: Check, numeric: bool)
    requires CompileCheck(column, c, false, numeric).Some?
    ensures CompileBody(OneCheckOn(column, c), numeric) == Some([CompileCheck(column, c, false, numeric).value])
  {
    hide CompileCheck;
    assert [c][..0] == [] && CompileChecks(column, [], false, numeric) == Some([]);
    var part := CompileCheck(column, c, false, numeric).value;
    assert CompileChecks(column, [c], false, numeric) == Some([] + [part]);
    assert [] + [part] == [part] && [part] + [] == [part];
    assert CompileBody(Empty, numeric) == Some([]);
  }

  lemma OneCompiles(column: string)
    ensures var c, atom := Check(Equals, One(Number("1"))), Compares(column, Eq, Digits("1"));
            && CompileCheck(column, c, false, false) == Some(Leaf(atom))
            && ParseAtom(atom) == Some(Column(Test(column, Equals, One(Bool(true)), false)))
            && Print(JoinAnd([Leaf(atom)])) == [AtomText(atom)]
            && ReadLiteral(Digits("1")) == Some(Number("1"))
  {
    BitsAreDecimal();
    hide IsDecimal;
  }

  lemma OneIsMisread(column: string) returns (cells: Cells)
    ensures Sane(cells, false)
    ensures EvalTest(Test(column, Equals, One(Bool(true)), false), cells, false)
            != EvalSql(Compares(column, Eq, Digits("1")), cells)
  {
    OneCompiles(column);
    cells := MisreadComparison(column, Eq, Digits("1"), false);
    hide EvalTest, EvalSql;
  }

  /** Where booleans print as words, asking for the number 1 comes back as asking for true, which
      some row of the database tells apart. */
  lemma {:induction false} OneComesBackAsTrue(column: string) returns (cells: Cells)
    ensures Sane(cells, false)
    ensures var b := OneCheckOn(column, Check(Equals, One(Number("1"))));
            var row := RowOf(cells, false);
            && CompileBody(b, false).Some? && CompileBody(b, false).value != []
            && var p := Parse(Print(JoinAnd(CompileBody(b, false).value)));
               && p == Some(Column(Test(column, Equals, One(Bool(true)), false)))
               && EvalParsed(p.value, row) != EvalBody(b, row)
  {
    var c, atom := Check(Equals, One(Number("1"))), Compares(column, Eq, Digits("1"));
    cells := OneIsMisread(column);
    OneCompiles(column);
    OneCheckCompiles(column, c, false);
    ParseLeaf(atom);
    hide Sane, CompileBody, CompileCheck, OneCheckOn, Parse, ParseAtom, EvalBody, EvalTest, EvalSql, JoinAnd, Print;
    CompiledStands(OneCheckOn(column, c), cells, false);
    JoinOne(Leaf(atom));
    LeafMeans(atom, cells, false);
  }

  lemma JoinOne(e: Expr)
    ensures JoinAnd([e]) == e
  {
  }

  // ----- The compiler as it runs -----

  /** The comparisons of one column, none where the compiler throws; together they decide every row
      as the filter does. */
  method CompileIndexColumnFilter(column: string, f: Filter, numeric: bool) returns (parts: Option<seq<Expr>>)
    ensures parts == CompileFilter(column, f, numeric)
    ensures parts.Some? ==> forall cells | Sane(cells, numeric) ::
              MeansAll(parts.value, EvalFilter(column, f, RowOf(cells, numeric)), RowOf(cells, numeric))
  {
    if f.checks == [] { return None; }
    if f.insensitive && !(exists c | c in f.checks :: IsStringOp(c.op)) { return None; }
    hide CompileCheck, MeansAll, Sane, RowOf, EvalChecks;
    var done: seq<Expr> := [];
    for i := 0 to |f.checks|
      invariant CompileChecks(column, f.checks[..i], f.insensitive, numeric) == Some(done)
    {
      assert f.checks[..i + 1][..i] == f.checks[..i];
      var part := CompileCheck(column, f.checks[i], f.insensitive, numeric);
      if part.None? {
        CompileFails(column, f.checks, i + 1, f.insensitive, numeric);
        return None;
      }
      done := done + [part.value];
    }
    assert f.checks[..|f.checks|] == f.checks;
    forall cells | Sane(cells, numeric)
      ensures MeansAll(done, EvalFilter(column, f, RowOf(cells, numeric)), RowOf(cells, numeric))
    {
      ChecksMean(column, f.checks, f.insensitive, cells, numeric);
    }
    return Some(done);
  }

  lemma {:induction false} CompileFails(column: string, checks: seq<Check>, n: nat, insensitive: bool, numeric: bool)
    requires n <= |checks| && CompileChecks(column, checks[..n], insensitive, numeric).None?
    ensures CompileChecks(column, checks, insensitive, numeric).None?
    decreases |checks|
  {
    if n < |checks| {
      assert checks[..|checks| - 1][..n] == checks[..n];
      CompileFails(column, checks[..|checks| - 1], n, insensitive, numeric);
    } else {
      assert checks[..n] == checks;
    }
  }

  lemma FollowAll(done: seq<Expr>, a: Option<seq<Expr>>, b: Option<seq<Expr>>)
    ensures Follow(Some(done), Follow(a, b)) == if a.None? then None else Follow(Some(done + a.value), b)
  {
    if a.Some? && b.Some? {
      assert done + (a.value + b.value) == done + a.value + b.value;
    }
  }

  /** The conjuncts of a where object; together they decide every row as the object does. */
  method CompileIndexWhereNode(where: Body, numeric: bool) returns (parts: Option<seq<Expr>>)
    ensures parts == CompileBody(where, numeric)
    ensures parts.Some? ==> forall cells | Sane(cells, numeric) ::
              MeansAll(parts.value, EvalBody(where, RowOf(cells, numeric)), RowOf(cells, numeric))
    decreases BodySize(where), 0
  {
    hide CompileEntry, MeansAll, Sane, RowOf;
    var done: seq<Expr>, rest := [], where;
    if CompileBody(where, numeric).Some? {
      assert [] + CompileBody(where, numeric).value == CompileBody(where, numeric).value;
    }
    while rest.Body?
      invariant CompileBody(where, numeric) == Follow(Some(done), CompileBody(rest, numeric))
      invariant BodySize(rest) <= BodySize(where)
      decreases rest
    {
      var part := CompileIndexEntry(rest.head, numeric);
      FollowAll(done, CompileEntry(rest.head, numeric), CompileBody(rest.tail, numeric));
      if part.None? { return None; }
      done := done + part.value;
      rest := rest.tail;
    }
    assert done + [] == done;
    forall cells | Sane(cells, numeric)
      ensures MeansAll(done, EvalBody(where, RowOf(cells, numeric)), RowOf(cells, numeric))
    {
      BodyMeans(where, cells, numeric);
    }
    return Some(done);
  }

  method CompileIndexEntry(e: Entry, numeric: bool) returns (parts: Option<seq<Expr>>)
    ensures parts == CompileEntry(e, numeric)
    decreases EntrySize(e), 0
  {
    hide MeansAll, MeansAny, Sane, RowOf;
    match e
    case Field(column, filter) =>
      parts := CompileIndexColumnFilter(column, filter, numeric);
    case AndOf(items) =>
      var branches := CompileIndexCombinator(items, numeric);
      return if branches.None? || branches.value == [] then None else Some([Paren(JoinAnd(branches.value))]);
    case OrOf(items) =>
      var branches := CompileIndexCombinator(items, numeric);
      return if branches.None? || branches.value == [] then None else Some([Paren(JoinOr(branches.value))]);
    case NotOf(body) =>
      var inner := CompileIndexWhereNode(body, numeric);
      return if inner.None? || inner.value == [] then None else Some([Not(Paren(JoinAnd(inner.value)))]);
  }

  /** One parenthesised branch per object, none for an empty one; the branches decide every row as
      the objects do, under AND and under OR. */
  method CompileIndexCombinator(items: Bodies, numeric: bool) returns (branches: Option<seq<Expr>>)
    ensures branches == CompileBranches(items, numeric)
    ensures branches.Some? ==> forall cells | Sane(cells, numeric) ::
              var row := RowOf(cells, numeric);
              MeansAll(branches.value, EvalAllBodies(items, row), row)
              && MeansAny(branches.value, EvalAnyBody(items, row), row)
    decreases BodiesSize(items), 0
  {
    hide CompileBody, JoinAnd, MeansAll, MeansAny, Sane, RowOf;
    var done: seq<Expr>, rest := [], items;
    if CompileBranches(items, numeric).Some? {
      assert [] + CompileBranches(items, numeric).value == CompileBranches(items, numeric).value;
    }
    while rest.Bodies?
      invariant CompileBranches(items, numeric) == Follow(Some(done), CompileBranches(rest, numeric))
      invariant BodiesSize(rest) <= BodiesSize(items)
      decreases rest
    {
      var sql := CompileIndexWhereNode(rest.head, numeric);
      if sql.None? || sql.value == [] { return None; }
      FollowAll(done, Some([Paren(JoinAnd(sql.value))]), CompileBranches(rest.tail, numeric));
      done := done + [Paren(JoinAnd(sql.value))];
      rest := rest.tail;
    }
    assert done + [] == done;
    forall cells | Sane(cells, numeric)
      ensures var row := RowOf(cells, numeric);
              MeansAll(done, EvalAllBodies(items, row), row) && MeansAny(done, EvalAnyBody(items, row), row)
    {
      BranchesMean(items, cells, numeric);
    }
    return Some(done);
  }

  function EntrySize(e: Entry): nat {
    match e
    case Field(_, _) => 1
    case AndOf(items) => 1 + BodiesSize(items)
    case OrOf(items) => 1 + BodiesSize(items)
    case NotOf(body) => 1 + BodySize(body)
  }

  function BodySize(b: Body): nat {
    match b case Empty => 0 case Body(e, rest) => 1 + EntrySize(e) + BodySize(rest)
  }

  function BodiesSize(bs: Bodies): nat {
    match bs case NoBodies => 0 case Bodies(b, rest) => 1 + BodySize(b) + BodiesSize(rest)
  }

  /** The predicate for a where object, or None where the compiler throws. It stands as the database
      would print it, decides every row as the object does, and can be read again exactly when the
      object's values allow it. */
  method CompileIndexWhere(where: Body, numeric: bool) returns (sql: Option<Expr>)
    ensures sql.None? <==> CompileBody(where, numeric).None? || CompileBody(where, numeric).value == []
    ensures sql.Some? ==> WellFormed(sql.value, OrLevel)
    ensures sql.Some? ==> (Readable(sql.value) <==> BodyReadsBack(where, numeric))
    ensures sql.Some? ==> forall cells | Sane(cells, numeric) ::
              Eval(sql.value, RowOf(cells, numeric)) == EvalBody(where, RowOf(cells, numeric))
  {
    hide *;
    var parts := CompileIndexWhereNode(where, numeric);
    if parts.None? || parts.value == [] { return None; }
    sql := Some(JoinAnd(parts.value));
    forall cells | Sane(cells, numeric)
      ensures Eval(sql.value, RowOf(cells, numeric)) == EvalBody(where, RowOf(cells, numeric))
    {
      CompiledStands(where, cells, numeric);
    }
    var anyRow := SomeCells(numeric);
    CompiledStands(where, anyRow, numeric);
  }

  lemma SomeCells(numeric: bool) returns (cells: Cells)
    ensures Sane(cells, numeric)
  {
    cells := CellsWhere("", (l: Literal) => false);
  }
}
