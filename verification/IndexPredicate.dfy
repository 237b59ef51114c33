/** Partial-index predicates as the database reports them, and the parser that reads them. A row
    gives each comparison a truth value of SQL's three-valued logic. */
module IndexPredicate {
  import opened Common
  import opened IndexAtoms

  // ----- Predicates and their meaning -----

  /** A truth value for every operator that a filter can have and for every comparison in SQL. */
  datatype Row = Row(test: Test -> Truth, atom: Atom -> Truth)

  /** The truth values of a row of the database. */
  ghost function RowOf(cells: Cells, numeric: bool): Row {
    Row(t => EvalTest(t, cells, numeric), a => EvalSql(a, cells))
  }

  datatype Expr = Or(items: Exprs) | And(items: Exprs) | Not(item: Expr) | Paren(item: Expr) | Leaf(atom: Atom)

  datatype Exprs = NoExprs | Exprs(head: Expr, tail: Exprs)

  function Eval(e: Expr, row: Row): Truth {
    match e
    case Or(items) => EvalAny(items, row)
    case And(items) => EvalAll(items, row)
    case Not(item) => Eval(item, row).Not()
    case Paren(item) => Eval(item, row)
    case Leaf(atom) => row.atom(atom)
  }

  function EvalAny(es: Exprs, row: Row): Truth {
    match es case NoExprs => False case Exprs(e, rest) => Eval(e, row).Or(EvalAny(rest, row))
  }

  function EvalAll(es: Exprs, row: Row): Truth {
    match es case NoExprs => True case Exprs(e, rest) => Eval(e, row).And(EvalAll(rest, row))
  }

  // ----- Predicates as tokens -----

  datatype Token = Open | Close | AndWord | OrWord | NotWord | AtomText(atom: Atom)

  function Print(e: Expr): seq<Token> {
    match e
    case Or(items) => PrintList(items, OrWord)
    case And(items) => PrintList(items, AndWord)
    case Not(item) => [NotWord] + Print(item)
    case Paren(item) => [Open] + Print(item) + [Close]
    case Leaf(atom) => [AtomText(atom)]
  }

  function PrintList(es: Exprs, word: Token): seq<Token> {
    match es
    case NoExprs => []
    case Exprs(e, rest) => if rest.NoExprs? then Print(e) else Print(e) + [word] + PrintList(rest, word)
  }

  /** How tightly an expression binds: OR, then AND, then NOT and everything else. */
  datatype Level = OrLevel | AndLevel | NotLevel

  predicate WellFormed(e: Expr, level: Level) {
    match e
    case Or(items) => level.OrLevel? && items.Exprs? && items.tail.Exprs? && AllWellFormed(items, AndLevel)
    case And(items) => !level.NotLevel? && items.Exprs? && items.tail.Exprs? && AllWellFormed(items, NotLevel)
    case Not(item) => WellFormed(item, NotLevel)
    case Paren(item) => WellFormed(item, OrLevel)
    case Leaf(_) => true
  }

  predicate AllWellFormed(es: Exprs, level: Level) {
    match es case NoExprs => true case Exprs(e, rest) => WellFormed(e, level) && AllWellFormed(rest, level)
  }

  // ----- Stripping parentheses, splitting at a word -----

  function Rise(t: Token): int {
    match t case Open => 1 case Close => -1 case _ => 0
  }

  function Depth(ts: seq<Token>): int {
    if ts == [] then 0 else Depth(ts[..|ts| - 1]) + Rise(ts[|ts| - 1])
  }

  /** The first parenthesis closes only at the last token. */
  ghost predicate Enclosed(ts: seq<Token>) {
    && |ts| > 1 && ts[0] == Open && ts[|ts| - 1] == Close && Depth(ts) == 0
    && forall i | 0 < i < |ts| :: Depth(ts[..i]) > 0
  }

  ghost function Strip(ts: seq<Token>): (r: seq<Token>)
    ensures |r| <= |ts|
  {
    if Enclosed(ts) then Strip(ts[1..|ts| - 1]) else ts
  }

  /** `first` put in front of the first part. */
  function Onto(first: seq<Token>, parts: seq<seq<Token>>): (r: seq<seq<Token>>)
    requires parts != []
    ensures |r| == |parts| && r[0] == first + parts[0] && r[1..] == parts[1..]
  {
    [first + parts[0]] + parts[1..]
  }

  lemma {:induction false} OntoOnto(a: seq<Token>, b: seq<Token>, parts: seq<seq<Token>>)
    requires parts != []
    ensures Onto(a, Onto(b, parts)) == Onto(a + b, parts)
  {
    assert a + (b + parts[0]) == a + b + parts[0];
  }

  /** The stretches between the occurrences of `word` outside parentheses. */
  function Parts(ts: seq<Token>, depth: int, word: Token): (r: seq<seq<Token>>)
    ensures r != [] && forall p | p in r :: |p| + |r| <= |ts| + 1
  {
    if ts == [] then [[]]
    else if depth == 0 && ts[0] == word then [[]] + Parts(ts[1..], depth, word)
    else
      var rest := Parts(ts[1..], depth + Rise(ts[0]), word);
      assert forall p | p in rest[1..] :: p in rest;
      Onto([ts[0]], rest)
  }

  function Split(ts: seq<Token>, word: Token): (r: Option<seq<seq<Token>>>)
    ensures r.Some? ==> forall p | p in r.value :: |p| < |ts|
  {
    var parts := Parts(ts, 0, word);
    if Depth(ts) != 0 || |parts| <= 1 then None else Some(parts)
  }

  lemma {:induction false} DepthNext(ts: seq<Token>, i: nat)
    requires i < |ts|
    ensures Depth(ts[..i + 1]) == Depth(ts[..i]) + Rise(ts[i])
  {
    assert ts[..i + 1][..i] == ts[..i];
  }

  method StripOuterParens(tokens: seq<Token>) returns (text: seq<Token>)
    ensures text == Strip(tokens)
  {
    text := tokens;
    while true
      invariant Strip(text) == Strip(tokens)
      decreases |text|
    {
      if text == [] || text[0] != Open || text[|text| - 1] != Close { return; }
      var balanced := IsBalanced(text);
      if !balanced { return; }
      text := text[1..|text| - 1];
    }
  }

  method IsBalanced(text: seq<Token>) returns (balanced: bool)
    requires text != [] && text[0] == Open && text[|text| - 1] == Close
    ensures balanced <==> Enclosed(text)
  {
    var depth := 0;
    for i := 0 to |text|
      invariant depth == Depth(text[..i])
      invariant forall k | 0 < k <= i && k < |text| :: Depth(text[..k]) > 0
    {
      DepthNext(text, i);
      if text[i] == Open {
        depth := depth + 1;
      } else if text[i] == Close {
        depth := depth - 1;
        if depth == 0 && i != |text| - 1 {
          return false;
        }
      }
    }
    assert text[..|text|] == text;
    return depth == 0;
  }

  /** The parts once `current` was read since the last word. */
  function PartsFrom(current: seq<Token>, rest: seq<Token>, depth: int, word: Token): seq<seq<Token>> {
    Onto(current, Parts(rest, depth, word))
  }

  lemma {:induction false} OntoNothing(parts: seq<seq<Token>>)
    requires parts != []
    ensures Onto([], parts) == parts && [] + Onto([], parts) == parts
  {
    assert [] + parts[0] == parts[0];
  }

  lemma {:induction false} PartsStart(ts: seq<Token>, word: Token)
    ensures [] + PartsFrom([], ts, 0, word) == Parts(ts, 0, word)
  {
    hide Parts, Onto;
    OntoNothing(Parts(ts, 0, word));
  }

  lemma {:induction false} OntoEmpty(current: seq<Token>, later: seq<seq<Token>>)
    requires later != []
    ensures Onto(current, [[]] + later) == [current] + Onto([], later)
  {
    OntoNothing(later);
    assert current + [] == current;
  }

  lemma {:induction false} PartsWord(current: seq<Token>, rest: seq<Token>, word: Token)
    requires rest != [] && rest[0] == word
    ensures PartsFrom(current, rest, 0, word) == [current] + PartsFrom([], rest[1..], 0, word)
  {
    hide Onto;
    OntoEmpty(current, Parts(rest[1..], 0, word));
  }

  lemma {:induction false} PartsTake(current: seq<Token>, rest: seq<Token>, depth: int, word: Token)
    requires rest != [] && !(depth == 0 && rest[0] == word)
    ensures PartsFrom(current, rest, depth, word) == PartsFrom(current + [rest[0]], rest[1..], depth + Rise(rest[0]),
        word)
  {
    hide Onto;
    OntoOnto(current, [rest[0]], Parts(rest[1..], depth + Rise(rest[0]), word));
  }

  lemma {:induction false} PartsEnd(current: seq<Token>, depth: int, word: Token)
    ensures PartsFrom(current, [], depth, word) == [current]
  {
    assert current + [] == current;
  }

  method SplitTopLevel(tokens: seq<Token>, word: Token) returns (r: Option<seq<seq<Token>>>)
    requires word == AndWord || word == OrWord
    ensures r == Split(tokens, word)
  {
    hide PartsFrom, Parts;
    var parts: seq<seq<Token>>, depth, current: seq<Token> := [], 0, [];
    PartsStart(tokens, word);
    assert tokens[0..] == tokens;
    for i := 0 to |tokens|
      invariant depth == Depth(tokens[..i])
      invariant Parts(tokens, 0, word) == parts + PartsFrom(current, tokens[i..], depth, word)
    {
      DepthNext(tokens, i);
      assert tokens[i..][1..] == tokens[i + 1..];
      if depth == 0 && tokens[i] == word {
        PartsWord(current, tokens[i..], word);
        parts := parts + [current];
        current := [];
      } else {
        PartsTake(current, tokens[i..], depth, word);
        current := current + [tokens[i]];
        depth := depth + Rise(tokens[i]);
      }
    }
    assert tokens[..|tokens|] == tokens;
    PartsEnd(current, depth, word);
    parts := parts + [current];
    if depth != 0 || |parts| <= 1 {
      return None;
    }
    return Some(parts);
  }

  // ----- The parser -----

  datatype Parsed = AllOf(items: Parseds) | AnyOf(items: Parseds) | Negation(item: Parsed) | Column(test: Test)

  datatype Parseds = NoParseds | Parseds(head: Parsed, tail: Parseds)

  function ParseAtom(a: Atom): Option<Parsed> {
    match ReadAtom(a)
    case None => None
    case Some(r) => Some(if r.negated then Negation(Column(r.test)) else Column(r.test))
  }

  /** Stripped text is never enclosed, so stripping an atom once more would change nothing. */
  ghost function Parse(ts: seq<Token>): Option<Parsed>
    decreases |ts|, 1, 0
  {
    var text := Strip(ts);
    match Split(text, OrWord)
    case Some(parts) => MapAnyOf(ParseEach(parts, |text|))
    case None =>
      match Split(text, AndWord)
      case Some(parts) => MapAllOf(ParseEach(parts, |text|))
      case None =>
        if |text| > 1 && text[0] == NotWord then MapNegation(Parse(text[1..]))
        else if |text| == 1 && text[0].AtomText? then ParseAtom(text[0].atom)
        else None
  }

  ghost function ParseEach(parts: seq<seq<Token>>, n: nat): Option<Parseds>
    requires forall p | p in parts :: |p| < n
    decreases n, 0, |parts|
  {
    if parts == [] then Some(NoParseds)
    else match Parse(parts[0])
         case None => None
         case Some(head) =>
           match ParseEach(parts[1..], n)
           case None => None
           case Some(tail) => Some(Parseds(head, tail))
  }

  function MapAnyOf(r: Option<Parseds>): Option<Parsed> {
    match r case None => None case Some(items) => Some(AnyOf(items))
  }

  function MapAllOf(r: Option<Parseds>): Option<Parsed> {
    match r case None => None case Some(items) => Some(AllOf(items))
  }

  function MapNegation(r: Option<Parsed>): Option<Parsed> {
    match r case None => None case Some(item) => Some(Negation(item))
  }

  /** Reads a predicate. Whatever well-formed expression the tokens print, the structure read is the
      expression's own; it is read exactly when every comparison is recognised, and when each is
      read rightly the result says about every row what the expression says. */
  method ParseIndexConjunction(tokens: seq<Token>) returns (r: Option<Parsed>)
    ensures r == Parse(tokens)
    ensures forall e: Expr | WellFormed(e, OrLevel) && Print(e) == tokens ::
              r == Expected(e) && (r.Some? <==> Readable(e))
    ensures forall e: Expr, cells, numeric | WellFormed(e, OrLevel) && Print(e) == tokens && r.Some?
              && Sane(cells, numeric) && AllReadRightly(e, numeric) ::
              EvalParsed(r.value, RowOf(cells, numeric)) == Eval(e, RowOf(cells, numeric))
    decreases |tokens|, 1, 0
  {
    hide Split;
    var text := StripOuterParens(tokens);
    var orBranches := SplitTopLevel(text, OrWord);
    if orBranches.Some? {
      var items := ParseBranches(orBranches.value, |text|);
      r := MapAnyOf(items);
    } else {
      var andBranches := SplitTopLevel(text, AndWord);
      if andBranches.Some? {
        var items := ParseBranches(andBranches.value, |text|);
        r := MapAllOf(items);
      } else if |text| > 1 && text[0] == NotWord {
        var inner := ParseIndexConjunction(text[1..]);
        r := MapNegation(inner);
      } else if |text| == 1 && text[0].AtomText? {
        r := ParseAtom(text[0].atom);
      } else {
        r := None;
      }
    }
    assert r == Parse(tokens);
    hide *;
    forall e: Expr | WellFormed(e, OrLevel) && Print(e) == tokens
      ensures r == Expected(e) && (r.Some? <==> Readable(e))
    {
      ParsePrint(e, OrLevel);
      ReadableIsExpected(e);
    }
    forall e: Expr, cells, numeric | WellFormed(e, OrLevel) && Print(e) == tokens && r.Some?
      && Sane(cells, numeric) && AllReadRightly(e, numeric)
      ensures EvalParsed(r.value, RowOf(cells, numeric)) == Eval(e, RowOf(cells, numeric))
    {
      ParserKeepsMeaning(e, cells, numeric);
    }
  }

  method ParseBranches(parts: seq<seq<Token>>, n: nat) returns (items: Option<Parseds>)
    requires forall p | p in parts :: |p| < n
    ensures items == ParseEach(parts, n)
    decreases n, 0, |parts|
  {
    if parts == [] { return Some(NoParseds); }
    var head := ParseIndexConjunction(parts[0]);
    if head.None? { return None; }
    var tail := ParseBranches(parts[1..], n);
    if tail.None? { return None; }
    return Some(Parseds(head.value, tail.value));
  }

  // ----- Printed predicates, taken apart -----

  lemma {:induction false} DepthConcat(a: seq<Token>, b: seq<Token>)
    ensures Depth(a + b) == Depth(a) + Depth(b)
    decreases |b|
  {
    if b == [] {
      assert a + b == a;
    } else {
      assert (a + b)[..|a + b| - 1] == a + b[..|b| - 1];
      DepthConcat(a, b[..|b| - 1]);
    }
  }

  lemma {:induction false} DepthOne(t: Token)
    ensures Depth([t]) == Rise(t)
  {
    assert [t][..0] == [];
  }

  ghost predicate Balanced(ts: seq<Token>) {
    Depth(ts) == 0 && forall i | 0 <= i <= |ts| :: Depth(ts[..i]) >= 0
  }

  lemma {:induction false} BalancedConcat(a: seq<Token>, b: seq<Token>)
    requires Balanced(a) && Balanced(b)
    ensures Balanced(a + b)
  {
    hide Depth;
    DepthConcat(a, b);
    forall i | 0 <= i <= |a + b| ensures Depth((a + b)[..i]) >= 0 {
      if i <= |a| {
        assert (a + b)[..i] == a[..i];
      } else {
        assert (a + b)[..i] == a + b[..i - |a|];
        DepthConcat(a, b[..i - |a|]);
      }
    }
  }

  lemma {:induction false} BalancedOne(t: Token)
    requires Rise(t) == 0
    ensures Balanced([t])
  {
    DepthOne(t);
    assert [t][..1] == [t] && [t][..0] == [];
  }

  lemma {:induction false} DepthInParens(ts: seq<Token>, i: nat)
    requires 0 < i <= |ts| + 1
    ensures Depth(([Open] + ts + [Close])[..i]) == 1 + Depth(ts[..i - 1])
  {
    DepthOne(Open);
    assert ([Open] + ts + [Close])[..i] == [Open] + ts[..i - 1];
    DepthConcat([Open], ts[..i - 1]);
  }

  lemma {:induction false} InParens(ts: seq<Token>)
    requires Balanced(ts)
    ensures var p := [Open] + ts + [Close]; Enclosed(p) && Balanced(p)
  {
    var p := [Open] + ts + [Close];
    DepthOne(Close);
    hide Depth;
    assert ts[..|ts|] == ts;
    DepthInParens(ts, |ts| + 1);
    assert p[..|ts| + 1] + [Close] == p;
    DepthConcat(p[..|ts| + 1], [Close]);
    forall i | 0 < i < |p| ensures Depth(p[..i]) > 0 {
      DepthInParens(ts, i);
      assert Depth(ts[..i - 1]) >= 0;
    }
    assert p[..|p|] == p;
    assert p[..0] == [] && ts[..0] == [];
    DepthConcat([], []);
  }

  lemma {:induction false} PrintIsBalanced(e: Expr)
    ensures Balanced(Print(e))
  {
    hide Balanced;
    match e
    case Or(items) => PrintListIsBalanced(items, OrWord);
    case And(items) => PrintListIsBalanced(items, AndWord);
    case Not(item) =>
      PrintIsBalanced(item);
      BalancedOne(NotWord);
      BalancedConcat([NotWord], Print(item));
    case Paren(item) =>
      PrintIsBalanced(item);
      InParens(Print(item));
    case Leaf(atom) => BalancedOne(AtomText(atom));
  }

  lemma {:induction false} PrintListIsBalanced(es: Exprs, word: Token)
    requires word == AndWord || word == OrWord
    ensures Balanced(PrintList(es, word))
  {
    match es
    case NoExprs =>
    case Exprs(e, rest) =>
      hide Balanced;
      PrintIsBalanced(e);
      PrintListIsBalanced(rest, word);
      BalancedOne(word);
      BalancedConcat(Print(e), [word]);
      BalancedConcat(Print(e) + [word], PrintList(rest, word));
  }

  lemma {:induction false} PrintIsNotEmpty(e: Expr, level: Level)
    requires WellFormed(e, level)
    ensures Print(e) != []
  {
    match e
    case Or(items) => assert Print(e) == Print(items.head) + [OrWord] + PrintList(items.tail, OrWord);
    case And(items) => assert Print(e) == Print(items.head) + [AndWord] + PrintList(items.tail, AndWord);
    case _ =>
  }

  // ----- Where printed predicates split -----

  predicate IsWord(t: Token) {
    t == AndWord || t == OrWord
  }

  /** Reading the tokens from this depth, the splitter cuts nowhere. */
  predicate NoCut(ts: seq<Token>, depth: int, word: Token) {
    ts == [] || (!(depth == 0 && ts[0] == word) && NoCut(ts[1..], depth + Rise(ts[0]), word))
  }

  lemma {:induction false} DepthFirst(ts: seq<Token>)
    requires ts != []
    ensures Depth(ts) == Rise(ts[0]) + Depth(ts[1..])
  {
    assert ts == [ts[0]] + ts[1..];
    DepthOne(ts[0]);
    DepthConcat([ts[0]], ts[1..]);
  }

  /** Tokens without a cut join the part being read. */
  lemma {:induction false} NoCutRead(current: seq<Token>, a: seq<Token>, b: seq<Token>, depth: int, word: Token)
    requires NoCut(a, depth, word)
    ensures PartsFrom(current, a + b, depth, word) == PartsFrom(current + a, b, depth + Depth(a), word)
    decreases |a|
  {
    hide PartsFrom;
    if a == [] {
      assert a + b == b && current + a == current;
    } else {
      assert (a + b)[1..] == a[1..] + b;
      PartsTake(current, a + b, depth, word);
      DepthFirst(a);
      NoCutRead(current + [a[0]], a[1..], b, depth + Rise(a[0]), word);
      assert current + [a[0]] + a[1..] == current + a;
    }
  }

  lemma {:induction false} NoCutConcat(a: seq<Token>, b: seq<Token>, depth: int, word: Token)
    requires NoCut(a, depth, word) && NoCut(b, depth + Depth(a), word)
    ensures NoCut(a + b, depth, word)
    decreases |a|
  {
    if a == [] {
      assert a + b == b;
    } else {
      DepthFirst(a);
      assert (a + b)[1..] == a[1..] + b;
      NoCutConcat(a[1..], b, depth + Rise(a[0]), word);
    }
  }

  /** Nothing is cut while the depth stays positive. */
  lemma {:induction false} DeepHasNoCut(ts: seq<Token>, depth: int, word: Token)
    requires forall i | 0 <= i < |ts| :: depth + Depth(ts[..i]) > 0
    ensures NoCut(ts, depth, word)
    decreases |ts|
  {
    if ts != [] {
      assert ts[..0] == [];
      forall i | 0 <= i < |ts| - 1 ensures depth + Rise(ts[0]) + Depth(ts[1..][..i]) > 0 {
        assert ts[..i + 1][1..] == ts[1..][..i];
        DepthFirst(ts[..i + 1]);
      }
      DeepHasNoCut(ts[1..], depth + Rise(ts[0]), word);
    }
  }

  lemma {:induction false} ParensHaveNoCut(ts: seq<Token>, word: Token)
    requires Balanced(ts) && IsWord(word)
    ensures NoCut([Open] + ts + [Close], 0, word)
  {
    var p := [Open] + ts + [Close];
    var inner := p[1..];
    InParens(ts);
    forall i | 0 <= i < |inner| ensures 1 + Depth(inner[..i]) > 0 {
      assert p[..i + 1][1..] == inner[..i];
      DepthFirst(p[..i + 1]);
    }
    hide Depth;
    DeepHasNoCut(inner, 1, word);
  }

  /** The level below which an expression shows no `word` outside parentheses. */
  predicate Hides(level: Level, word: Token) {
    (word == AndWord && level.NotLevel?) || (word == OrWord && !level.OrLevel?)
  }

  lemma {:induction false} PrintHasNoCut(e: Expr, level: Level, word: Token)
    requires WellFormed(e, level) && Hides(level, word)
    ensures NoCut(Print(e), 0, word)
  {
    match e
    case And(items) => PrintListHasNoCut(items, word);
    case Not(item) =>
      PrintHasNoCut(item, NotLevel, word);
      DepthOne(NotWord);
      NoCutConcat([NotWord], Print(item), 0, word);
    case Paren(item) =>
      PrintIsBalanced(item);
      ParensHaveNoCut(Print(item), word);
    case Leaf(_) =>
  }

  lemma {:induction false} PrintListHasNoCut(es: Exprs, word: Token)
    requires AllWellFormed(es, NotLevel) && word == OrWord
    ensures NoCut(PrintList(es, AndWord), 0, word)
  {
    match es
    case NoExprs =>
    case Exprs(e, rest) =>
      PrintHasNoCut(e, NotLevel, word);
      PrintListHasNoCut(rest, word);
      PrintIsBalanced(e);
      DepthOne(AndWord);
      NoCutConcat([AndWord], PrintList(rest, AndWord), 0, word);
      NoCutConcat(Print(e), [AndWord] + PrintList(rest, AndWord), 0, word);
      assert Print(e) + ([AndWord] + PrintList(rest, AndWord)) == Print(e) + [AndWord] + PrintList(rest, AndWord);
  }

  function Prints(es: Exprs): seq<seq<Token>> {
    match es case NoExprs => [] case Exprs(e, rest) => [Print(e)] + Prints(rest)
  }

  lemma {:induction false} NoCutIsOnePart(ts: seq<Token>, word: Token)
    requires NoCut(ts, 0, word)
    ensures Parts(ts, 0, word) == [ts]
  {
    hide Parts;
    PartsStart(ts, word);
    assert ts + [] == ts && [] + ts == ts;
    NoCutRead([], ts, [], 0, word);
    PartsEnd(ts, Depth(ts), word);
  }

  lemma {:induction false} CutHere(a: seq<Token>, b: seq<Token>, word: Token)
    requires NoCut(a, 0, word) && Depth(a) == 0
    ensures Parts(a + [word] + b, 0, word) == [a] + Parts(b, 0, word)
  {
    hide Parts, PartsFrom, NoCut, Depth;
    assert a + [word] + b == a + ([word] + b);
    PartsStart(a + ([word] + b), word);
    NoCutRead([], a, [word] + b, 0, word);
    assert [] + a == a && ([word] + b)[1..] == b;
    PartsWord(a, [word] + b, word);
    PartsStart(b, word);
  }

  lemma {:induction false} ListSplits(es: Exprs, level: Level, word: Token)
    requires es.Exprs? && AllWellFormed(es, level) && Hides(level, word)
    ensures Parts(PrintList(es, word), 0, word) == Prints(es)
  {
    hide Parts, PartsFrom, NoCut, Print;
    PrintHasNoCut(es.head, level, word);
    PrintIsBalanced(es.head);
    if es.tail.NoExprs? {
      NoCutIsOnePart(Print(es.head), word);
    } else {
      ListSplits(es.tail, level, word);
      CutHere(Print(es.head), PrintList(es.tail, word), word);
    }
  }

  // ----- The parser on printed predicates -----

  /** The tree the parser should see in an expression, or None if an atom cannot be read. */
  function Expected(e: Expr): Option<Parsed> {
    match e
    case Or(items) => MapAnyOf(ExpectedAll(items))
    case And(items) => MapAllOf(ExpectedAll(items))
    case Not(item) => MapNegation(Expected(item))
    case Paren(item) => Expected(item)
    case Leaf(atom) => ParseAtom(atom)
  }

  function ExpectedAll(es: Exprs): Option<Parseds> {
    match es
    case NoExprs => Some(NoParseds)
    case Exprs(e, rest) =>
      match Expected(e)
      case None => None
      case Some(head) =>
        match ExpectedAll(rest) case None => None case Some(tail) => Some(Parseds(head, tail))
  }

  predicate Readable(e: Expr) {
    match e
    case Or(items) => AllReadable(items)
    case And(items) => AllReadable(items)
    case Not(item) => Readable(item)
    case Paren(item) => Readable(item)
    case Leaf(atom) => ReadAtom(atom).Some?
  }

  predicate AllReadable(es: Exprs) {
    match es case NoExprs => true case Exprs(e, rest) => Readable(e) && AllReadable(rest)
  }

  lemma {:induction false} StripParens(ts: seq<Token>)
    requires Balanced(ts)
    ensures Strip([Open] + ts + [Close]) == Strip(ts)
  {
    InParens(ts);
    hide Enclosed;
    var p := [Open] + ts + [Close];
    assert p[1..|p| - 1] == ts;
  }

  /** A list of two or more is not enclosed: the depth is back at zero after the first item. */
  lemma {:induction false} StripList(es: Exprs, level: Level, word: Token)
    requires es.Exprs? && es.tail.Exprs? && AllWellFormed(es, level) && IsWord(word)
    ensures Strip(PrintList(es, word)) == PrintList(es, word)
  {
    var first, ts := Print(es.head), PrintList(es, word);
    PrintIsNotEmpty(es.head, level);
    PrintIsBalanced(es.head);
    hide Depth;
    assert ts == first + [word] + PrintList(es.tail, word);
    assert ts[..|first|] == first;
    assert 0 < |first| < |ts| && Depth(ts[..|first|]) == 0;
    assert !Enclosed(ts);
  }

  lemma {:induction false} NoSplit(ts: seq<Token>, word: Token)
    requires NoCut(ts, 0, word)
    ensures Split(ts, word).None?
  {
    NoCutIsOnePart(ts, word);
  }

  lemma {:induction false} ListSplit(es: Exprs, level: Level, word: Token)
    requires es.Exprs? && es.tail.Exprs? && AllWellFormed(es, level) && Hides(level, word)
    ensures Split(PrintList(es, word), word) == Some(Prints(es))
  {
    hide Parts, Depth;
    ListSplits(es, level, word);
    PrintListIsBalanced(es, word);
  }

  lemma {:induction false} ParseEachPrints(es: Exprs, level: Level, n: nat)
    requires AllWellFormed(es, level) && forall p | p in Prints(es) :: |p| < n
    ensures ParseEach(Prints(es), n) == ExpectedAll(es)
    decreases es
  {
    hide Parse, Print;
    match es
    case NoExprs =>
    case Exprs(e, rest) =>
      ParsePrint(e, level);
      assert Prints(es)[1..] == Prints(rest);
      ParseEachPrints(rest, level, n);
  }

  lemma {:induction false} SameText(a: seq<Token>, b: seq<Token>)
    requires Strip(a) == Strip(b)
    ensures Parse(a) == Parse(b)
  {
    hide Strip, Split;
  }

  lemma {:induction false} ParseList(es: Exprs, word: Token)
    requires var ts := PrintList(es, word); Strip(ts) == ts && Split(ts, word) == Some(Prints(es))
    requires word == OrWord || (word == AndWord && Split(PrintList(es, word), OrWord).None?)
    ensures forall p | p in Prints(es) :: |p| < |PrintList(es, word)|
    ensures Parse(PrintList(es, word)) ==
            if word == OrWord then MapAnyOf(ParseEach(Prints(es), |PrintList(es, word)|))
            else MapAllOf(ParseEach(Prints(es), |PrintList(es, word)|))
  {
    hide ParseEach, Split, Strip, PrintList, Prints;
  }

  lemma {:induction false} ParseNot(ts: seq<Token>)
    requires ts != [] && NoCut([NotWord] + ts, 0, AndWord) && NoCut([NotWord] + ts, 0, OrWord)
    ensures Parse([NotWord] + ts) == MapNegation(Parse(ts))
  {
    hide Split;
    NoSplit([NotWord] + ts, AndWord);
    NoSplit([NotWord] + ts, OrWord);
    assert ([NotWord] + ts)[1..] == ts;
  }

  /** Parsing what an expression prints as sees the expression's own structure. */
  lemma {:induction false} ParsePrint(e: Expr, level: Level)
    requires WellFormed(e, level)
    ensures Parse(Print(e)) == Expected(e)
    decreases e
  {
    hide Parse, ParseEach, Split, Strip;
    match e
    case Or(items) =>
      StripList(items, AndLevel, OrWord);
      ListSplit(items, AndLevel, OrWord);
      ParseList(items, OrWord);
      ParseEachPrints(items, AndLevel, |PrintList(items, OrWord)|);
    case And(items) =>
      StripList(items, NotLevel, AndWord);
      ListSplit(items, NotLevel, AndWord);
      PrintListHasNoCut(items, OrWord);
      NoSplit(PrintList(items, AndWord), OrWord);
      ParseList(items, AndWord);
      ParseEachPrints(items, NotLevel, |PrintList(items, AndWord)|);
    case Not(item) =>
      PrintHasNoCut(e, NotLevel, AndWord);
      PrintHasNoCut(e, NotLevel, OrWord);
      PrintIsNotEmpty(item, NotLevel);
      ParseNot(Print(item));
      ParsePrint(item, NotLevel);
    case Paren(item) =>
      PrintIsBalanced(item);
      StripParens(Print(item));
      SameText(Print(e), Print(item));
      ParsePrint(item, OrLevel);
    case Leaf(atom) => ParseLeaf(atom);
  }

  lemma {:induction false} ParseLeaf(atom: Atom)
    ensures Parse([AtomText(atom)]) == ParseAtom(atom)
  {
    hide Split;
    NoSplit([AtomText(atom)], AndWord);
    NoSplit([AtomText(atom)], OrWord);
  }

  // ----- The meaning of what was parsed -----

  function EvalParsed(p: Parsed, row: Row): Truth {
    match p
    case AllOf(items) => EvalAllParsed(items, row)
    case AnyOf(items) => EvalAnyParsed(items, row)
    case Negation(item) => EvalParsed(item, row).Not()
    case Column(test) => row.test(test)
  }

  function EvalAllParsed(ps: Parseds, row: Row): Truth {
    match ps case NoParseds => True case Parseds(p, rest) => EvalParsed(p, row).And(EvalAllParsed(rest, row))
  }

  function EvalAnyParsed(ps: Parseds, row: Row): Truth {
    match ps case NoParseds => False case Parseds(p, rest) => EvalParsed(p, row).Or(EvalAnyParsed(rest, row))
  }

  lemma {:induction false} ReadableIsExpected(e: Expr)
    ensures Expected(e).Some? <==> Readable(e)
  {
    match e
    case Or(items) => ReadableAreExpected(items);
    case And(items) => ReadableAreExpected(items);
    case Not(item) => ReadableIsExpected(item);
    case Paren(item) => ReadableIsExpected(item);
    case Leaf(_) =>
  }

  lemma {:induction false} ReadableAreExpected(es: Exprs)
    ensures ExpectedAll(es).Some? <==> AllReadable(es)
  {
    match es
    case NoExprs =>
    case Exprs(e, rest) =>
      ReadableIsExpected(e);
      ReadableAreExpected(rest);
  }

  /** Every comparison is one that the reader takes rightly. */
  predicate AllReadRightly(e: Expr, numeric: bool) {
    match e
    case Or(items) => EachReadRightly(items, numeric)
    case And(items) => EachReadRightly(items, numeric)
    case Not(item) => AllReadRightly(item, numeric)
    case Paren(item) => AllReadRightly(item, numeric)
    case Leaf(atom) => ReadsRightly(atom, numeric)
  }

  predicate EachReadRightly(es: Exprs, numeric: bool) {
    match es case NoExprs => true case Exprs(e, rest) => AllReadRightly(e, numeric) && EachReadRightly(rest, numeric)
  }

  lemma AtomMeans(atom: Atom, cells: Cells, numeric: bool)
    requires ReadAtom(atom).Some? && ReadsRightly(atom, numeric) && Sane(cells, numeric)
    ensures EvalParsed(ParseAtom(atom).value, RowOf(cells, numeric)) == EvalSql(atom, cells)
  {
    hide ReadAtom, ReadsRightly, Sane, EvalSql, EvalTest;
    ReadMeans(atom, cells, numeric);
  }

  lemma {:induction false} ExpectedMeans(e: Expr, cells: Cells, numeric: bool)
    requires Readable(e) && AllReadRightly(e, numeric) && Sane(cells, numeric)
    ensures Expected(e).Some?
    ensures EvalParsed(Expected(e).value, RowOf(cells, numeric)) == Eval(e, RowOf(cells, numeric))
  {
    hide Sane, ReadAtom, ReadsRightly, EvalSql, EvalTest, RowOf;
    match e
    case Or(items) => ExpectedAllMeans(items, cells, numeric);
    case And(items) => ExpectedAllMeans(items, cells, numeric);
    case Not(item) => ExpectedMeans(item, cells, numeric);
    case Paren(item) => ExpectedMeans(item, cells, numeric);
    case Leaf(atom) =>
      AtomMeans(atom, cells, numeric);
      LeafMeans(atom, cells, numeric);
  }

  lemma LeafMeans(atom: Atom, cells: Cells, numeric: bool)
    ensures Eval(Leaf(atom), RowOf(cells, numeric)) == EvalSql(atom, cells)
  {
  }

  lemma {:induction false} ExpectedAllMeans(es: Exprs, cells: Cells, numeric: bool)
    requires AllReadable(es) && EachReadRightly(es, numeric) && Sane(cells, numeric)
    ensures ExpectedAll(es).Some?
    ensures EvalAllParsed(ExpectedAll(es).value, RowOf(cells, numeric)) == EvalAll(es, RowOf(cells, numeric))
    ensures EvalAnyParsed(ExpectedAll(es).value, RowOf(cells, numeric)) == EvalAny(es, RowOf(cells, numeric))
  {
    hide Sane, ReadAtom, ReadsRightly, EvalSql, EvalTest, RowOf;
    match es
    case NoExprs =>
    case Exprs(e, rest) =>
      ExpectedMeans(e, cells, numeric);
      ExpectedAllMeans(rest, cells, numeric);
  }

  /** The parser reads a predicate exactly when it recognises every comparison, and what it reads
      says about every row what the predicate says when each is read rightly. */
  lemma ParserKeepsMeaning(e: Expr, cells: Cells, numeric: bool)
    requires WellFormed(e, OrLevel) && Sane(cells, numeric)
    ensures Parse(Print(e)).Some? <==> Readable(e)
    ensures Readable(e) && AllReadRightly(e, numeric) ==>
              EvalParsed(Parse(Print(e)).value, RowOf(cells, numeric)) == Eval(e, RowOf(cells, numeric))
  {
    hide Parse, Expected, Readable, AllReadRightly, Sane, RowOf;
    ParsePrint(e, OrLevel);
    ReadableIsExpected(e);
    if Readable(e) && AllReadRightly(e, numeric) {
      ExpectedMeans(e, cells, numeric);
    }
  }
}
