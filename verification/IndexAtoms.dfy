/** The comparisons a partial-index predicate is made of: how a filter's operator prints as SQL, how
    SQL reads as an operator, and what both say about a row's cells. */
module IndexAtoms {
  import opened Common
  import Decimals
  import LikePattern

  // ----- Filters and SQL -----

  datatype Truth = False | Unknown | True
  {
    function And(other: Truth): Truth {
      if False? || other.False? then False
      else if True? && other.True? then True
      else Unknown
    }

    function Or(other: Truth): Truth {
      if True? || other.True? then True
      else if False? && other.False? then False
      else Unknown
    }

    function Not(): Truth {
      match this case False => True case Unknown => Unknown case True => False
    }
  }

  datatype Op =
    | Equals | Gt | Gte | Lt | Lte | In | NotIn | Contains | StartsWith | EndsWith | Search | IsNull | IsNotNull

  /** A finite number and a valid date are given by the text they print as. */
  datatype Scalar = Bool(value: bool) | Number(text: string) | Text(text: string) | Date(text: string)

  datatype Value = Null | One(scalar: Scalar) | Many(scalars: seq<Scalar>)

  /** One operator on one column; `insensitive` compares under LOWER. */
  datatype Test = Test(column: string, op: Op, value: Value, insensitive: bool)

  datatype Literal = Word(value: bool) | Digits(text: string) | Quoted(text: string) | Identifier(name: string)

  datatype Comparison = Eq | Ne | More | MoreEq | Less | LessEq

  datatype Atom =
    | NullTest(column: string, negated: bool)
    | Compares(column: string, rel: Comparison, literal: Literal)
    | LowerEquals(column: string, literal: Literal)
    | Member(column: string, negated: bool, items: seq<Literal>)
    | LikeText(column: string, pattern: string, lower: bool)
    | Matches(column: string, pattern: string, insensitive: bool)
    | Other(text: string)

  // ----- Printing -----

  predicate IsStringOp(op: Op) {
    op in {Equals, Contains, StartsWith, EndsWith, Search}
  }

  /** Booleans print as words, or as digits for SQLite and MySQL (`numeric`). */
  function PrintScalar(s: Scalar, numeric: bool): Literal {
    match s
    case Bool(b) => if numeric then Digits(if b then "1" else "0") else Word(b)
    case Number(text) => Digits(text)
    case Text(text) => Quoted(text)
    case Date(text) => Quoted(text)
  }

  function PrintAll(ss: seq<Scalar>, numeric: bool): (r: seq<Literal>)
    ensures |r| == |ss| && forall i | 0 <= i < |ss| :: r[i] == PrintScalar(ss[i], numeric)
  {
    if ss == [] then [] else PrintAll(ss[..|ss| - 1], numeric) + [PrintScalar(ss[|ss| - 1], numeric)]
  }

  function CompileEquals(column: string, value: Value, insensitive: bool, numeric: bool): Option<Atom> {
    match value
    case Null => Some(NullTest(column, false))
    case Many(_) => None
    case One(s) =>
      if !insensitive then Some(Compares(column, Eq, PrintScalar(s, numeric)))
      else if s.Text? || s.Number? then Some(LowerEquals(column, Quoted(s.text)))
      else None
  }

  function CompileComparison(column: string, rel: Comparison, value: Value, numeric: bool): Option<Atom> {
    if value.One? then Some(Compares(column, rel, PrintScalar(value.scalar, numeric))) else None
  }

  function CompileIn(column: string, negated: bool, value: Value, numeric: bool): Option<Atom> {
    if value.Many? && value.scalars != [] then Some(Member(column, negated, PrintAll(value.scalars, numeric)))
    else None
  }

  function CompilePattern(column: string, op: LikePattern.Op, value: Value, insensitive: bool): Option<Atom> {
    if value.One? && (value.scalar.Text? || value.scalar.Number?) then
      Some(LikeText(column, LikePattern.Pattern(op, value.scalar.text), insensitive))
    else None
  }

  function CompileSearch(column: string, value: Value, insensitive: bool): Option<Atom> {
    if value.One? && value.scalar.Text? then Some(Matches(column, value.scalar.text, insensitive)) else None
  }

  function CompileNullTest(column: string, negated: bool, value: Value): Option<Atom> {
    if value == One(Bool(true)) then Some(NullTest(column, negated)) else None
  }

  /** The SQL of one operator, or None where the compiler throws. */
  function CompileOp(column: string, op: Op, value: Value, insensitive: bool, numeric: bool): Option<Atom> {
    match op
    case Equals => CompileEquals(column, value, insensitive, numeric)
    case Gt => CompileComparison(column, More, value, numeric)
    case Gte => CompileComparison(column, MoreEq, value, numeric)
    case Lt => CompileComparison(column, Less, value, numeric)
    case Lte => CompileComparison(column, LessEq, value, numeric)
    case In => CompileIn(column, false, value, numeric)
    case NotIn => CompileIn(column, true, value, numeric)
    case Contains => CompilePattern(column, LikePattern.Contains, value, insensitive)
    case StartsWith => CompilePattern(column, LikePattern.StartsWith, value, insensitive)
    case EndsWith => CompilePattern(column, LikePattern.EndsWith, value, insensitive)
    case Search => CompileSearch(column, value, insensitive)
    case IsNull => CompileNullTest(column, false, value)
    case IsNotNull => CompileNullTest(column, true, value)
  }

  // ----- Reading -----

  predicate AllDigits(s: string) {
    s != [] && forall c | c in s :: Decimals.IsDigit(c)
  }

  predicate IsFraction(t: string) {
    exists i | 0 <= i < |t| :: t[i] == '.' && AllDigits(t[..i]) && AllDigits(t[i + 1..])
  }

  /** Digits, after a sign and before a fraction that may both be missing. */
  predicate IsDecimal(s: string) {
    var t := if s != [] && s[0] == '-' then s[1..] else s;
    AllDigits(t) || IsFraction(t)
  }

  /** A numeral behind its sign. */
  function Unsigned(whole: string, fraction: Option<string>): string {
    match fraction case None => whole case Some(f) => whole + "." + f
  }

  ghost predicate IsNumeral(s: string, minus: bool, whole: string, fraction: Option<string>) {
    && s == (if minus then "-" + Unsigned(whole, fraction) else Unsigned(whole, fraction))
    && whole != [] && (forall c | c in whole :: Decimals.IsDigit(c))
    && (fraction.Some? ==> fraction.value != [] && forall c | c in fraction.value :: Decimals.IsDigit(c))
  }

  lemma UnsignedIs(whole: string, fraction: Option<string>)
    requires AllDigits(whole) && (fraction.Some? ==> AllDigits(fraction.value))
    ensures var t := Unsigned(whole, fraction);
            && t != [] && t[0] != '-'
            && (AllDigits(t) || IsFraction(t))
  {
    assert whole[0] in whole;
    if fraction.Some? {
      var t := Unsigned(whole, fraction);
      hide AllDigits;
      assert t[|whole|] == '.' && t[..|whole|] == whole && t[|whole| + 1..] == fraction.value;
    }
  }

  lemma NumeralIs(s: string, minus: bool, whole: string, fraction: Option<string>)
    requires IsNumeral(s, minus, whole, fraction)
    ensures IsDecimal(s)
  {
    var t := Unsigned(whole, fraction);
    UnsignedIs(whole, fraction);
    hide AllDigits, Unsigned, IsFraction;
    var u := if s != [] && s[0] == '-' then s[1..] else s;
    assert u == t by {
      if minus {
        assert s[1..] == t && s[0] == '-';
      }
    }
  }

  lemma UnsignedParts(t: string) returns (whole: string, fraction: Option<string>)
    requires AllDigits(t) || IsFraction(t)
    ensures t == Unsigned(whole, fraction) && AllDigits(whole) && (fraction.Some? ==> AllDigits(fraction.value))
  {
    hide AllDigits;
    if AllDigits(t) {
      whole, fraction := t, None;
    } else {
      var i :| 0 <= i < |t| && t[i] == '.' && AllDigits(t[..i]) && AllDigits(t[i + 1..]);
      whole, fraction := t[..i], Some(t[i + 1..]);
      assert t == t[..i] + "." + t[i + 1..];
    }
  }

  /** What the reader takes for a number is a numeral: digits, after a minus sign and before a point
      and further digits, both of which may be missing. */
  lemma {:induction false} DecimalIs(s: string)
    ensures IsDecimal(s) <==> exists minus, whole, fraction :: IsNumeral(s, minus, whole, fraction)
  {
    if IsDecimal(s) {
      var minus := s != [] && s[0] == '-';
      var t := if minus then s[1..] else s;
      var whole, fraction := UnsignedParts(t);
      assert minus ==> s == "-" + t;
      hide IsDecimal, Unsigned;
      assert IsNumeral(s, minus, whole, fraction);
    } else {
      hide IsDecimal, IsNumeral;
      forall minus, whole, fraction | IsNumeral(s, minus, whole, fraction) ensures false {
        NumeralIs(s, minus, whole, fraction);
      }
    }
  }

  /** A quoted name is taken for a string. */
  function ReadLiteral(l: Literal): Option<Scalar> {
    match l
    case Word(b) => Some(Bool(b))
    case Digits(text) => if IsDecimal(text) then Some(Number(text)) else None
    case Quoted(text) => Some(Text(text))
    case Identifier(name) => Some(Text(name))
  }

  predicate IsBit(s: Scalar) {
    s == Number("0") || s == Number("1")
  }

  function ReadList(items: seq<Literal>): Option<seq<Scalar>> {
    if items == [] then Some([])
    else match (ReadList(items[..|items| - 1]), ReadLiteral(items[|items| - 1]))
         case (Some(before), Some(s)) => if IsBit(s) then None else Some(before + [s])
         case _ => None
  }

  /** Equality with 1 or 0 is taken for a boolean. */
  function BitAsBool(s: Scalar): Scalar {
    if s == Number("1") then Bool(true) else if s == Number("0") then Bool(false) else s
  }

  function OpOfLike(op: LikePattern.Op): Op {
    match op case Contains => Contains case StartsWith => StartsWith case EndsWith => EndsWith
  }

  function OpOfComparison(rel: Comparison): Op {
    match rel case More => Gt case MoreEq => Gte case Less => Lt case LessEq => Lte case _ => Equals
  }

  datatype Reading = Reading(test: Test, negated: bool)

  function ReadComparison(column: string, rel: Comparison, s: Scalar): Reading {
    match rel
    case Eq => Reading(Test(column, Equals, One(BitAsBool(s)), false), false)
    case Ne => Reading(Test(column, Equals, One(s), false), true)
    case _ => Reading(Test(column, OpOfComparison(rel), One(s), false), false)
  }

  /** The operator that a comparison stands for, when the reader recognises it. */
  function ReadAtom(a: Atom): Option<Reading> {
    match a
    case NullTest(c, negated) =>
      Some(Reading(if negated then Test(c, IsNotNull, One(Bool(true)), false) else Test(c, Equals, Null, false), false))
    case Compares(c, rel, l) =>
      (match ReadLiteral(l) case None => None case Some(s) => Some(ReadComparison(c, rel, s)))
    case LowerEquals(c, l) =>
      (match ReadLiteral(l) case None => None case Some(s) => Some(Reading(Test(c, Equals, One(s), true), false)))
    case Member(c, negated, items) =>
      (match ReadList(items)
       case None => None
       case Some(ss) =>
         if ss == [] then None else Some(Reading(Test(c, if negated then NotIn else In, Many(ss), false), false)))
    case LikeText(c, pattern, lower) =>
      (match LikePattern.OpOf(pattern)
       case None => None
       case Some((op, v)) => Some(Reading(Test(c, OpOfLike(op), One(Text(v)), lower), false)))
    case Matches(c, pattern, insensitive) =>
      Some(Reading(Test(c, Search, One(Text(pattern)), insensitive), false))
    case Other(_) => None
  }

  // ----- What they say about a row -----

  /** A row as the database sees it: which cells are NULL, their texts, how the database lowers a
      character, compares a cell with a literal, and matches a regular expression. */
  datatype Cells = Cells(
    isNull: string -> bool, text: string -> string, lower: char -> char,
    compare: (string, Comparison, Literal) -> bool, matches: (string, string, bool) -> bool, other: string -> Truth)
  {
    function Lower(s: string): (r: string)
      ensures |r| == |s| && forall i | 0 <= i < |s| :: r[i] == lower(s[i])
    {
      if s == [] then [] else [lower(s[0])] + Lower(s[1..])
    }

    function Cased(s: string, insensitive: bool): string {
      if insensitive then Lower(s) else s
    }
  }

  /** LOWER leaves wildcards alone and makes none; where booleans are digits, words mean them. */
  ghost predicate Sane(cells: Cells, numeric: bool) {
    && (forall c :: LikePattern.IsSpecial(c) ==> cells.lower(c) == c)
    && (forall c :: !LikePattern.IsSpecial(c) ==> !LikePattern.IsSpecial(cells.lower(c)))
    && (numeric ==> forall column, rel, b ::
          cells.compare(column, rel, Word(b)) == cells.compare(column, rel, Digits(if b then "1" else "0")))
  }

  function Of(b: bool): Truth {
    if b then True else False
  }

  predicate NullOperand(l: Literal, cells: Cells) {
    l.Identifier? && cells.isNull(l.name)
  }

  function OperandText(l: Literal, cells: Cells): string {
    match l
    case Word(b) => if b then "true" else "false"
    case Digits(text) => text
    case Quoted(text) => text
    case Identifier(name) => cells.text(name)
  }

  function EvalCompares(column: string, rel: Comparison, l: Literal, cells: Cells): Truth {
    if cells.isNull(column) || NullOperand(l, cells) then Unknown
    else if rel == Ne then Of(!cells.compare(column, Eq, l))
    else Of(cells.compare(column, rel, l))
  }

  function EvalMember(column: string, items: seq<Literal>, cells: Cells): Truth {
    if items == [] then False
    else EvalMember(column, items[..|items| - 1], cells).Or(EvalCompares(column, Eq, items[|items| - 1], cells))
  }

  function Negated(t: Truth, negated: bool): Truth {
    if negated then t.Not() else t
  }

  ghost function EvalSql(a: Atom, cells: Cells): Truth {
    match a
    case NullTest(c, negated) => Of(cells.isNull(c) != negated)
    case Compares(c, rel, l) => EvalCompares(c, rel, l, cells)
    case LowerEquals(c, l) =>
      if cells.isNull(c) || NullOperand(l, cells) then Unknown
      else Of(cells.Lower(cells.text(c)) == cells.Lower(OperandText(l, cells)))
    case Member(c, negated, items) => Negated(EvalMember(c, items, cells), negated)
    case LikeText(c, pattern, lower) =>
      if cells.isNull(c) then Unknown
      else Of(LikePattern.Like(cells.Cased(pattern, lower), cells.Cased(cells.text(c), lower)))
    case Matches(c, pattern, insensitive) =>
      if cells.isNull(c) then Unknown else Of(cells.matches(c, pattern, insensitive))
    case Other(text) => cells.other(text)
  }

  /** What an operator with a single value asks of a cell that is not NULL. */
  ghost predicate Meets(t: Test, s: Scalar, cells: Cells, numeric: bool) {
    var text := cells.Cased(cells.text(t.column), t.insensitive);
    match t.op
    case Equals =>
      if t.insensitive then text == cells.Lower(OperandText(PrintScalar(s, false), cells))
      else cells.compare(t.column, Eq, PrintScalar(s, numeric))
    case Contains => !s.Bool? && LikePattern.Accepts(LikePattern.Contains, cells.Cased(s.text, t.insensitive), text)
    case StartsWith => !s.Bool? && LikePattern.Accepts(LikePattern.StartsWith, cells.Cased(s.text, t.insensitive), text)
    case EndsWith => !s.Bool? && LikePattern.Accepts(LikePattern.EndsWith, cells.Cased(s.text, t.insensitive), text)
    case Search => !s.Bool? && cells.matches(t.column, s.text, t.insensitive)
    case Gt => cells.compare(t.column, More, PrintScalar(s, numeric))
    case Gte => cells.compare(t.column, MoreEq, PrintScalar(s, numeric))
    case Lt => cells.compare(t.column, Less, PrintScalar(s, numeric))
    case Lte => cells.compare(t.column, LessEq, PrintScalar(s, numeric))
    case _ => false
  }

  ghost predicate Among(column: string, ss: seq<Scalar>, cells: Cells, numeric: bool) {
    exists s :: s in ss && cells.compare(column, Eq, PrintScalar(s, numeric))
  }

  /** What a filter's operator says about a row. */
  ghost function EvalTest(t: Test, cells: Cells, numeric: bool): Truth {
    if t.op == IsNull || (t.op == Equals && t.value.Null?) then Of(cells.isNull(t.column))
    else if t.op == IsNotNull then Of(!cells.isNull(t.column))
    else if cells.isNull(t.column) then Unknown
    else match t.value
         case Null => False
         case One(s) => Of(Meets(t, s, cells, numeric))
         case Many(ss) =>
           if t.op == NotIn then Of(!Among(t.column, ss, cells, numeric)) else Of(Among(t.column, ss, cells, numeric))
  }

  ghost function EvalReading(r: Reading, cells: Cells, numeric: bool): Truth {
    Negated(EvalTest(r.test, cells, numeric), r.negated)
  }

  // ----- Lists -----

  lemma AmongSnoc(column: string, init: seq<Scalar>, last: Scalar, cells: Cells, numeric: bool)
    ensures Among(column, init + [last], cells, numeric) <==>
            Among(column, init, cells, numeric) || cells.compare(column, Eq, PrintScalar(last, numeric))
  {
    hide PrintScalar;
    if s :| s in init + [last] && cells.compare(column, Eq, PrintScalar(s, numeric)) {
      assert s in init || s == last;
    }
    assert last in init + [last];
    assert forall s | s in init :: s in init + [last];
  }

  lemma PrintedIsNoName(s: Scalar, numeric: bool)
    ensures !PrintScalar(s, numeric).Identifier?
  {
  }

  lemma MemberSnoc(column: string, items: seq<Literal>, l: Literal, cells: Cells)
    ensures EvalMember(column, items + [l], cells)
            == EvalMember(column, items, cells).Or(EvalCompares(column, Eq, l, cells))
  {
    hide EvalCompares;
    assert (items + [l])[..|items|] == items;
  }

  lemma PrintSnoc(init: seq<Scalar>, last: Scalar, numeric: bool)
    ensures PrintAll(init + [last], numeric) == PrintAll(init, numeric) + [PrintScalar(last, numeric)]
  {
    hide PrintScalar;
    assert (init + [last])[..|init|] == init;
  }

  lemma ComparesPrinted(column: string, s: Scalar, cells: Cells, numeric: bool)
    requires !cells.isNull(column)
    ensures EvalCompares(column, Eq, PrintScalar(s, numeric), cells)
            == Of(cells.compare(column, Eq, PrintScalar(s, numeric)))
  {
    PrintedIsNoName(s, numeric);
    hide PrintScalar;
  }

  lemma {:induction false} MemberIsAmong(column: string, ss: seq<Scalar>, cells: Cells, numeric: bool)
    requires !cells.isNull(column)
    ensures EvalMember(column, PrintAll(ss, numeric), cells) == Of(Among(column, ss, cells, numeric))
  {
    if ss == [] {
      NoneAmong(column, cells, numeric);
    } else {
      hide Among, PrintScalar, PrintAll, EvalMember, EvalCompares;
      var init, last := ss[..|ss| - 1], ss[|ss| - 1];
      MemberIsAmong(column, init, cells, numeric);
      assert ss == init + [last];
      PrintSnoc(init, last, numeric);
      MemberSnoc(column, PrintAll(init, numeric), PrintScalar(last, numeric), cells);
      AmongSnoc(column, init, last, cells, numeric);
      ComparesPrinted(column, last, cells, numeric);
    }
  }

  lemma NoneAmong(column: string, cells: Cells, numeric: bool)
    ensures !Among(column, [], cells, numeric)
  {
  }

  lemma {:induction false} NullMember(column: string, items: seq<Literal>, cells: Cells)
    requires cells.isNull(column) && items != []
    ensures EvalMember(column, items, cells) == Unknown
  {
    if |items| > 1 {
      NullMember(column, items[..|items| - 1], cells);
    } else {
      assert items[..0] == [];
    }
  }

  // ----- LOWER and patterns -----

  lemma {:induction false} LowerConcat(a: string, b: string, cells: Cells)
    ensures cells.Lower(a + b) == cells.Lower(a) + cells.Lower(b)
  {
  }

  lemma {:induction false} LowerEscape(v: string, cells: Cells, numeric: bool)
    requires Sane(cells, numeric)
    ensures LikePattern.EscapeOnce(cells.Lower(v)) == cells.Lower(LikePattern.EscapeOnce(v))
  {
    if v != [] {
      LowerEscape(v[1..], cells, numeric);
      assert cells.Lower(v)[1..] == cells.Lower(v[1..]);
      var first := if LikePattern.IsSpecial(v[0]) then ['\\', v[0]] else [v[0]];
      assert LikePattern.EscapeOnce(v) == first + LikePattern.EscapeOnce(v[1..]);
      LowerConcat(first, LikePattern.EscapeOnce(v[1..]), cells);
      assert LikePattern.IsSpecial('\\');
    }
  }

  /** A printed pattern under LOWER is the pattern of the lowered value. */
  lemma {:induction false} LowerPattern(op: LikePattern.Op, v: string, cells: Cells, numeric: bool)
    requires Sane(cells, numeric)
    ensures LikePattern.Pattern(op, cells.Lower(v)) == cells.Lower(LikePattern.Pattern(op, v))
  {
    LikePattern.EscapeIsOnePass(v);
    LikePattern.EscapeIsOnePass(cells.Lower(v));
    LowerEscape(v, cells, numeric);
    hide LikePattern.EscapeLikePattern, LikePattern.EscapeOnce;
    var e := LikePattern.EscapeOnce(v);
    assert LikePattern.IsSpecial('%') && cells.Lower("%") == "%";
    LowerConcat("%", e, cells);
    LowerConcat("%" + e, "%", cells);
    LowerConcat(e, "%", cells);
  }

  lemma {:induction false} LowerUnescape(p: string, cells: Cells, numeric: bool)
    requires Sane(cells, numeric)
    ensures LikePattern.Unescape(cells.Lower(p)) ==
            match LikePattern.Unescape(p) case None => None case Some(v) => Some(cells.Lower(v))
    decreases |p|
  {
    if p != [] {
      var q := cells.Lower(p);
      assert LikePattern.IsSpecial('\\') && LikePattern.IsSpecial('%') && LikePattern.IsSpecial('_');
      if p[0] == '\\' {
        if |p| > 1 && LikePattern.IsSpecial(p[1]) {
          LowerUnescape(p[2..], cells, numeric);
          assert q[2..] == cells.Lower(p[2..]);
          LowerPrepend(p[1], LikePattern.Unescape(p[2..]), cells);
        }
      } else if p[0] != '%' && p[0] != '_' {
        LowerUnescape(p[1..], cells, numeric);
        assert q[1..] == cells.Lower(p[1..]);
        LowerPrepend(p[0], LikePattern.Unescape(p[1..]), cells);
      }
    }
  }

  lemma LowerPrepend(c: char, v: Option<string>, cells: Cells)
    ensures LikePattern.Prepend(cells.lower(c), if v.Some? then Some(cells.Lower(v.value)) else None) ==
            if v.Some? then Some(cells.Lower([c] + v.value)) else None
  {
    if v.Some? {
      LowerConcat([c], v.value, cells);
    }
  }

  lemma {:induction false} LowerInner(p: string, cells: Cells, numeric: bool)
    requires Sane(cells, numeric)
    ensures var q := cells.Lower(p);
            && LikePattern.OpensFree(q) == LikePattern.OpensFree(p)
            && LikePattern.EndsFree(q) == LikePattern.EndsFree(p)
            && LikePattern.Inner(q) == cells.Lower(LikePattern.Inner(p))
            && ('%' in cells.Lower(LikePattern.Inner(p)) ==> '%' in LikePattern.Inner(p))
  {
    LowerPercent(cells, numeric);
    hide Sane;
    var q, inner := cells.Lower(p), LikePattern.Inner(p);
    assert LikePattern.Inner(q) == cells.Lower(inner);
    if '%' in cells.Lower(inner) {
      var i :| 0 <= i < |inner| && cells.Lower(inner)[i] == '%';
      assert inner[i] == '%';
    }
  }

  lemma LowerPercent(cells: Cells, numeric: bool)
    requires Sane(cells, numeric)
    ensures forall c :: cells.lower(c) == '%' <==> c == '%'
  {
    assert LikePattern.IsSpecial('%');
  }

  /** A pattern under LOWER reads as the lowered text, by the same operator. */
  lemma {:induction false} LowerRead(p: string, cells: Cells, numeric: bool)
    requires Sane(cells, numeric) && LikePattern.OpOf(p).Some?
    ensures LikePattern.OpOf(cells.Lower(p)) ==
            Some((LikePattern.OpOf(p).value.0, cells.Lower(LikePattern.OpOf(p).value.1)))
  {
    LowerInner(p, cells, numeric);
    LowerUnescape(LikePattern.Inner(p), cells, numeric);
    hide LikePattern.Unescape, LikePattern.Inner, LikePattern.OpensFree, LikePattern.EndsFree, Sane;
  }

  // ----- Printing keeps the meaning -----

  /** Whether the mode changes what the operator compares. */
  predicate CaseMatters(op: Op, value: Value) {
    IsStringOp(op) && value != Null
  }

  lemma {:induction false} PatternMeans(column: string, op: LikePattern.Op, v: string, lower: bool, cells: Cells,
                                        numeric: bool)
    requires Sane(cells, numeric)
    ensures EvalSql(LikeText(column, LikePattern.Pattern(op, v), lower), cells) ==
            if cells.isNull(column) then Unknown
            else Of(LikePattern.Accepts(op, cells.Cased(v, lower), cells.Cased(cells.text(column), lower)))
  {
    hide LikePattern.Like, LikePattern.Accepts, LikePattern.Pattern;
    LowerPattern(op, v, cells, numeric);
    LikePattern.PrinterIsSound(op, cells.Cased(v, lower), cells.Cased(cells.text(column), lower));
  }

  /** What an operator compiles to says about every row what the operator says. */
  lemma {:induction false} CompileMeans(column: string, op: Op, value: Value, insensitive: bool, numeric: bool,
                                        cells: Cells)
    requires Sane(cells, numeric) && CompileOp(column, op, value, insensitive, numeric).Some?
    ensures EvalSql(CompileOp(column, op, value, insensitive, numeric).value, cells) ==
            EvalTest(Test(column, op, value, insensitive && CaseMatters(op, value)), cells, numeric)
  {
    hide LikePattern.Like, LikePattern.Accepts, LikePattern.Pattern, Sane, EvalMember, Among;
    match op
    case Contains => PatternMeans(column, LikePattern.Contains, value.scalar.text, insensitive, cells, numeric);
    case StartsWith => PatternMeans(column, LikePattern.StartsWith, value.scalar.text, insensitive, cells, numeric);
    case EndsWith => PatternMeans(column, LikePattern.EndsWith, value.scalar.text, insensitive, cells, numeric);
    case In => InMeans(column, value.scalars, cells, numeric);
    case NotIn => InMeans(column, value.scalars, cells, numeric);
    case _ =>
  }

  lemma {:induction false} InMeans(column: string, ss: seq<Scalar>, cells: Cells, numeric: bool)
    requires ss != []
    ensures EvalMember(column, PrintAll(ss, numeric), cells) ==
            if cells.isNull(column) then Unknown else Of(Among(column, ss, cells, numeric))
  {
    hide Among, EvalMember;
    if cells.isNull(column) {
      NullMember(column, PrintAll(ss, numeric), cells);
    } else {
      MemberIsAmong(column, ss, cells, numeric);
    }
  }

  /** The values that an operator takes. */
  predicate Suits(op: Op, value: Value, insensitive: bool) {
    match value
    case Null => op == Equals
    case Many(ss) => (op == In || op == NotIn) && ss != []
    case One(Bool(b)) =>
      op in {Gt, Gte, Lt, Lte} || (op == Equals && !insensitive) || (op in {IsNull, IsNotNull} && b)
    case One(Number(_)) => op in {Equals, Gt, Gte, Lt, Lte, Contains, StartsWith, EndsWith}
    case One(Text(_)) => op in {Equals, Gt, Gte, Lt, Lte, Contains, StartsWith, EndsWith, Search}
    case One(Date(_)) => op in {Gt, Gte, Lt, Lte} || (op == Equals && !insensitive)
  }

  /** The compiler throws exactly where the operator does not take the value. */
  lemma {:induction false} CompilesExactly(column: string, op: Op, value: Value, insensitive: bool, numeric: bool)
    ensures CompileOp(column, op, value, insensitive, numeric).Some? <==> Suits(op, value, insensitive)
  {
    hide LikePattern.Pattern, PrintAll;
  }

  // ----- Reading keeps the meaning -----

  /** The literal is no quoted name, which the reader takes for a string. */
  predicate IsNoName(l: Literal) {
    !l.Identifier?
  }

  /** Nor is it the 1 or 0 that equality takes for a boolean, unless booleans print so. */
  predicate ReadsRightly(a: Atom, numeric: bool) {
    match a
    case Compares(_, rel, l) => IsNoName(l) && (rel == Eq && (l == Digits("0") || l == Digits("1")) ==> numeric)
    case LowerEquals(_, l) => IsNoName(l)
    case Member(_, _, items) => forall l | l in items :: IsNoName(l)
    case _ => true
  }

  lemma ReadLiteralMeans(column: string, rel: Comparison, l: Literal, cells: Cells, numeric: bool)
    requires Sane(cells, numeric) && IsNoName(l) && ReadLiteral(l).Some?
    ensures cells.compare(column, rel, PrintScalar(ReadLiteral(l).value, numeric)) == cells.compare(column, rel, l)
  {
  }

  lemma {:induction false} ReadListMeans(column: string, items: seq<Literal>, cells: Cells, numeric: bool)
    requires Sane(cells, numeric) && ReadList(items).Some? && forall l | l in items :: IsNoName(l)
    requires !cells.isNull(column)
    ensures EvalMember(column, items, cells) == Of(Among(column, ReadList(items).value, cells, numeric))
    ensures |ReadList(items).value| == |items|
  {
    hide Among, PrintScalar, ReadLiteral;
    if items == [] {
      NoneAmong(column, cells, numeric);
    } else {
      var init, last := items[..|items| - 1], items[|items| - 1];
      assert items == init + [last];
      ReadListMeans(column, init, cells, numeric);
      ReadLiteralMeans(column, Eq, last, cells, numeric);
      AmongSnoc(column, ReadList(init).value, ReadLiteral(last).value, cells, numeric);
    }
  }

  lemma {:induction false} ReadPatternMeans(column: string, pattern: string, lower: bool, cells: Cells, numeric: bool)
    requires Sane(cells, numeric) && LikePattern.OpOf(pattern).Some?
    ensures var (op, v) := LikePattern.OpOf(pattern).value;
            EvalSql(LikeText(column, pattern, lower), cells) ==
            if cells.isNull(column) then Unknown
            else Of(LikePattern.Accepts(op, cells.Cased(v, lower), cells.Cased(cells.text(column), lower)))
  {
    hide LikePattern.Like, LikePattern.Accepts, LikePattern.OpOf;
    LowerRead(pattern, cells, numeric);
    LikePattern.ReaderIsSound(cells.Cased(pattern, lower), cells.Cased(cells.text(column), lower));
  }

  lemma {:induction false} ReadLikeMeans(column: string, pattern: string, lower: bool, cells: Cells, numeric: bool)
    requires Sane(cells, numeric) && LikePattern.OpOf(pattern).Some?
    ensures EvalReading(ReadAtom(LikeText(column, pattern, lower)).value, cells, numeric) ==
            EvalSql(LikeText(column, pattern, lower), cells)
  {
    ReadPatternMeans(column, pattern, lower, cells, numeric);
    hide LikePattern.Like, LikePattern.Accepts, LikePattern.OpOf, Sane, EvalSql;
  }

  lemma {:induction false} ReadMemberMeans(column: string, negated: bool, items: seq<Literal>, cells: Cells,
                                           numeric: bool)
    requires Sane(cells, numeric) && ReadAtom(Member(column, negated, items)).Some?
    requires forall l | l in items :: IsNoName(l)
    ensures EvalReading(ReadAtom(Member(column, negated, items)).value, cells, numeric) ==
            EvalSql(Member(column, negated, items), cells)
  {
    hide Sane, EvalMember, ReadList, Among;
    if cells.isNull(column) {
      SomeItem(items);
      NullMember(column, items, cells);
    } else {
      ReadListMeans(column, items, cells, numeric);
    }
  }

  /** What is read says about every row what the SQL says, if it is read rightly. */
  lemma {:induction false} ReadMeans(a: Atom, cells: Cells, numeric: bool)
    requires Sane(cells, numeric) && ReadAtom(a).Some? && ReadsRightly(a, numeric)
    ensures EvalReading(ReadAtom(a).value, cells, numeric) == EvalSql(a, cells)
  {
    match a
    case Compares(c, rel, l) => ReadComparisonMeans(c, rel, l, cells, numeric);
    case Member(c, negated, items) => ReadMemberMeans(c, negated, items, cells, numeric);
    case LikeText(c, pattern, lower) => ReadLikeMeans(c, pattern, lower, cells, numeric);
    case LowerEquals(_, _) => hide LikePattern.Accepts, Among;
    case NullTest(_, _) => hide LikePattern.Accepts, Among;
    case Matches(_, _, _) => hide LikePattern.Accepts, Among;
  }

  lemma SomeItem(items: seq<Literal>)
    requires ReadList(items).Some? && ReadList(items).value != []
    ensures items != []
  {
  }

  lemma ReadComparisonMeans(column: string, rel: Comparison, l: Literal, cells: Cells, numeric: bool)
    requires Sane(cells, numeric) && ReadLiteral(l).Some? && ReadsRightly(Compares(column, rel, l), numeric)
    ensures EvalReading(ReadComparison(column, rel, ReadLiteral(l).value), cells, numeric) ==
            EvalSql(Compares(column, rel, l), cells)
  {
    ReadLiteralMeans(column, rel, l, cells, numeric);
    ReadLiteralMeans(column, Eq, l, cells, numeric);
    hide Sane;
  }

  function CellsWhere(text: string, holds: Literal -> bool): Cells {
    Cells(c => false, c => text, c => c, (c: string, rel: Comparison, l: Literal) => holds(l),
          (c: string, p: string, i: bool) => false, t => False)
  }

  lemma {:induction false} ItemHolds(column: string, items: seq<Literal>, cells: Cells, l: Literal)
    requires l in items && cells.compare(column, Eq, l) && forall c :: !cells.isNull(c)
    ensures EvalMember(column, items, cells) == True
  {
    var init, last := items[..|items| - 1], items[|items| - 1];
    assert items == init + [last];
    if l in init {
      ItemHolds(column, init, cells, l);
    }
  }

  lemma MisreadComparison(column: string, rel: Comparison, l: Literal, numeric: bool) returns (cells: Cells)
    requires ReadLiteral(l).Some? && !ReadsRightly(Compares(column, rel, l), numeric)
    ensures Sane(cells, numeric)
    ensures EvalReading(ReadComparison(column, rel, ReadLiteral(l).value), cells, numeric)
            != EvalSql(Compares(column, rel, l), cells)
  {
    cells := CellsWhere("", if l.Identifier? then (k: Literal) => k.Identifier? else (k: Literal) => k.Digits?);
  }

  lemma MisreadLower(column: string, l: Literal, numeric: bool) returns (cells: Cells)
    requires l.Identifier?
    ensures Sane(cells, numeric)
    ensures EvalTest(Test(column, Equals, One(ReadLiteral(l).value), true), cells, numeric)
            != EvalSql(LowerEquals(column, l), cells)
  {
    cells := CellsWhere(l.name + "x", (k: Literal) => false);
    SameLower(cells, l.name);
  }

  lemma NoneHolds(column: string, ss: seq<Scalar>, text: string, numeric: bool)
    ensures !Among(column, ss, CellsWhere(text, (k: Literal) => k.Identifier?), numeric)
  {
  }

  lemma MisreadList(column: string, items: seq<Literal>, l: Literal, numeric: bool) returns (cells: Cells)
    requires ReadList(items).Some? && l in items && l.Identifier?
    ensures Sane(cells, numeric) && !cells.isNull(column)
    ensures EvalMember(column, items, cells) == True && !Among(column, ReadList(items).value, cells, numeric)
  {
    cells := CellsWhere("", (k: Literal) => k.Identifier?);
    ItemHolds(column, items, cells, l);
    NoneHolds(column, ReadList(items).value, "", numeric);
  }

  /** An equality with a bit, or a comparison with a name, misread: a row that tells. */
  lemma {:induction false} Misread(a: Atom, numeric: bool) returns (cells: Cells)
    requires ReadAtom(a).Some? && !ReadsRightly(a, numeric)
    ensures Sane(cells, numeric) && EvalReading(ReadAtom(a).value, cells, numeric) != EvalSql(a, cells)
  {
    hide EvalMember, Among, Sane;
    match a
    case Compares(c, rel, l) =>
      cells := MisreadComparison(c, rel, l, numeric);
    case LowerEquals(c, l) =>
      cells := MisreadLower(c, l, numeric);
    case Member(c, negated, items) =>
      var l :| l in items && l.Identifier?;
      cells := MisreadList(c, items, l, numeric);
  }

  lemma SameLower(cells: Cells, s: string)
    requires forall c :: cells.lower(c) == c
    ensures cells.Lower(s) == s && cells.Lower(s + "x") == s + "x"
  {
  }

  /** An atom that is read keeps its meaning on every row if and only if it compares with no quoted
      name and, where booleans print as words, equates nothing with 1 or 0. */
  lemma ReadsExactly(a: Atom, numeric: bool)
    requires ReadAtom(a).Some?
    ensures (forall cells | Sane(cells, numeric) ::
               EvalReading(ReadAtom(a).value, cells, numeric) == EvalSql(a, cells)) <==>
            ReadsRightly(a, numeric)
  {
    hide ReadAtom, Sane, EvalSql, EvalReading, ReadsRightly;
    if ReadsRightly(a, numeric) {
      forall cells | Sane(cells, numeric)
        ensures EvalReading(ReadAtom(a).value, cells, numeric) == EvalSql(a, cells)
      {
        ReadMeans(a, cells, numeric);
      }
    } else {
      var cells := Misread(a, numeric);
    }
  }

  // ----- Reading and compiling again -----

  /** What is read is an operator that the compiler takes, unless a truth value stood under LOWER. */
  lemma {:induction false} ReadIsTaken(a: Atom)
    requires ReadAtom(a).Some?
    ensures var t := ReadAtom(a).value.test;
            && (t.insensitive ==> IsStringOp(t.op))
            && (Suits(t.op, t.value, t.insensitive) <==> !(a.LowerEquals? && a.literal.Word?))
  {
    hide LikePattern.OpOf, IsDecimal;
    if a.Member? {
      assert ReadList(a.items).value != [];
    }
  }

  /** Pulling a comparison and compiling it again gives one that says the same about every row,
      negated where the reader says so, whenever it was read rightly. */
  lemma {:induction false} PulledCompilesAgain(a: Atom, numeric: bool, cells: Cells)
    requires ReadAtom(a).Some? && ReadsRightly(a, numeric) && !(a.LowerEquals? && a.literal.Word?)
    requires Sane(cells, numeric)
    ensures var r := ReadAtom(a).value;
            var again := CompileOp(r.test.column, r.test.op, r.test.value, r.test.insensitive, numeric);
            again.Some? && Negated(EvalSql(again.value, cells), r.negated) == EvalSql(a, cells)
  {
    var t := ReadAtom(a).value.test;
    ReadIsTaken(a);
    ReadMeans(a, cells, numeric);
    ReadKeepsCase(a);
    hide ReadAtom, ReadsRightly, Sane, EvalSql, EvalTest, Suits;
    CompilesExactly(t.column, t.op, t.value, t.insensitive, numeric);
    CompileMeans(t.column, t.op, t.value, t.insensitive, numeric, cells);
    assert Test(t.column, t.op, t.value, t.insensitive && CaseMatters(t.op, t.value)) == t;
  }

  lemma {:induction false} ReadKeepsCase(a: Atom)
    requires ReadAtom(a).Some?
    ensures var t := ReadAtom(a).value.test; t.insensitive ==> CaseMatters(t.op, t.value)
  {
    hide LikePattern.OpOf, IsDecimal, ReadList;
  }

  // ----- Reading what was printed -----

  predicate NumberReads(s: Scalar) {
    s.Number? ==> IsDecimal(s.text)
  }

  predicate ItemReads(s: Scalar, numeric: bool) {
    NumberReads(s) && !IsBit(s) && !(numeric && s.Bool?)
  }

  /** Whether the reader recognises what the operator prints as: no percent sign in a pattern's
      text, no 1 or 0 in a list, also as booleans, and plain decimals only. */
  predicate ReadsBack(op: Op, value: Value, insensitive: bool, numeric: bool) {
    match value
    case Null => true
    case Many(ss) => forall s | s in ss :: ItemReads(s, numeric)
    case One(s) =>
      if op in {Contains, StartsWith, EndsWith} then s.Bool? || '%' !in s.text
      else op == Search || op == IsNull || op == IsNotNull || (insensitive && op == Equals) || NumberReads(s)
  }

  lemma BitsAreDecimal()
    ensures IsDecimal("0") && IsDecimal("1")
  {
    assert AllDigits("0") && AllDigits("1");
  }

  lemma ScalarReadsBack(s: Scalar, numeric: bool)
    ensures ReadLiteral(PrintScalar(s, numeric)).Some? <==> NumberReads(s)
    ensures NumberReads(s) ==>
              (!IsBit(ReadLiteral(PrintScalar(s, numeric)).value) <==> !IsBit(s) && !(numeric && s.Bool?))
  {
    BitsAreDecimal();
    hide IsDecimal;
  }

  /** A printed value comes back as it was, except that a date comes back as its text and, where
      booleans print as digits, a boolean as the number. */
  lemma ScalarComesBack(s: Scalar, numeric: bool)
    requires NumberReads(s)
    ensures ReadLiteral(PrintScalar(s, numeric)) ==
            match s
            case Bool(b) => Some(if !numeric then s else if b then Number("1") else Number("0"))
            case Number(_) => Some(s)
            case Text(_) => Some(s)
            case Date(text) => Some(Text(text))
  {
    BitsAreDecimal();
    hide IsDecimal;
  }

  lemma {:induction false} ListReadsBack(ss: seq<Scalar>, numeric: bool)
    ensures ReadList(PrintAll(ss, numeric)).Some? <==> forall s | s in ss :: ItemReads(s, numeric)
    ensures ReadList(PrintAll(ss, numeric)).Some? ==> |ReadList(PrintAll(ss, numeric)).value| == |ss|
  {
    hide IsBit, ReadLiteral, PrintScalar, NumberReads;
    if ss != [] {
      var init, last := ss[..|ss| - 1], ss[|ss| - 1];
      assert ss == init + [last];
      ListReadsBack(init, numeric);
      ScalarReadsBack(last, numeric);
      var printed := PrintAll(ss, numeric);
      assert printed[..|printed| - 1] == PrintAll(init, numeric);
      assert printed[|printed| - 1] == PrintScalar(last, numeric);
      assert (forall s | s in ss :: ItemReads(s, numeric)) <==>
             (forall s | s in init :: ItemReads(s, numeric)) && ItemReads(last, numeric);
    }
  }

  lemma {:induction false} PatternReadsBack(column: string, op: LikePattern.Op, v: string, lower: bool)
    ensures ReadAtom(LikeText(column, LikePattern.Pattern(op, v), lower)).Some? <==> '%' !in v
  {
    hide LikePattern.OpOf, LikePattern.Pattern;
    LikePattern.ReadBack(op, v);
  }

  lemma {:induction false} ListAtomReadsBack(column: string, negated: bool, ss: seq<Scalar>, numeric: bool)
    requires ss != []
    ensures ReadAtom(Member(column, negated, PrintAll(ss, numeric))).Some? <==>
            forall s | s in ss :: ItemReads(s, numeric)
  {
    hide PrintAll, ReadList, ItemReads;
    ListReadsBack(ss, numeric);
  }

  /** What an operator compiles to is recognised exactly when its values allow it. */
  lemma {:induction false} CompiledReadsBack(column: string, op: Op, value: Value, insensitive: bool, numeric: bool)
    requires CompileOp(column, op, value, insensitive, numeric).Some?
    ensures ReadAtom(CompileOp(column, op, value, insensitive, numeric).value).Some? <==>
            ReadsBack(op, value, insensitive, numeric)
  {
    if value.One? { ScalarReadsBack(value.scalar, numeric); }
    hide NumberReads, ItemReads, PrintScalar, PrintAll, ReadList, LikePattern.OpOf, LikePattern.Pattern, IsDecimal;
    match op
    case Contains => PatternReadsBack(column, LikePattern.Contains, value.scalar.text, insensitive);
    case StartsWith => PatternReadsBack(column, LikePattern.StartsWith, value.scalar.text, insensitive);
    case EndsWith => PatternReadsBack(column, LikePattern.EndsWith, value.scalar.text, insensitive);
    case In => ListAtomReadsBack(column, false, value.scalars, numeric);
    case NotIn => ListAtomReadsBack(column, true, value.scalars, numeric);
    case _ =>
  }

  /** Nothing is misread but a case-sensitive equality with the number 1 or 0 where booleans print
      as words. */
  predicate ComesBackRightly(op: Op, value: Value, insensitive: bool, numeric: bool) {
    op == Equals && !insensitive && value.One? && IsBit(value.scalar) ==> numeric
  }

  lemma {:induction false} CompiledReadsRightly(column: string, op: Op, value: Value, insensitive: bool, numeric: bool)
    requires CompileOp(column, op, value, insensitive, numeric).Some?
    ensures ReadsRightly(CompileOp(column, op, value, insensitive, numeric).value, numeric) <==>
            ComesBackRightly(op, value, insensitive, numeric)
  {
  }
}
