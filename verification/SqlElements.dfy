/** SQL statements built from their lexical elements. Whatever is printed from them is closed for
    the splitter, so it comes back from a migration file unchanged. */
module SqlElements {
  import opened SqlScan
  import opened SplitStatements

  datatype Item = Letter(c: char) | Doubled | Escaped(c: char)

  datatype Element =
    | Character(c: char)
    | Quotation(quote: char, items: seq<Item>)
    | Line(body: string)
    | Block(body: string)

  function PrintItem(item: Item, quote: char): string {
    match item
    case Letter(c) => [c]
    case Doubled => [quote, quote]
    case Escaped(c) => ['\\', c]
  }

  function PrintItems(items: seq<Item>, quote: char): string {
    if items == [] then [] else PrintItem(items[0], quote) + PrintItems(items[1..], quote)
  }

  function Print(e: Element): string {
    match e
    case Character(c) => [c]
    case Quotation(quote, items) => [quote] + PrintItems(items, quote) + [quote]
    case Line(body) => "--" + body + "\n"
    case Block(body) => "/*" + body + "*/"
  }

  function PrintAll(es: seq<Element>): string {
    if es == [] then [] else Print(es[0]) + PrintAll(es[1..])
  }

  predicate ValidItem(item: Item, quote: char, backslash: bool) {
    match item
    case Letter(c) => c != quote && (backslash ==> c != '\\')
    case Doubled => true
    case Escaped(_) => backslash
  }

  /** Whether the element stands for itself in front of the text `after`. A character must not
      open a quotation or comment, nor end the statement. */
  predicate Valid(e: Element, after: string, backslash: bool) {
    match e
    case Character(c) =>
      !IsQuote(c) && c != ';' && !StartsWith([c] + after, '-', '-') && !StartsWith([c] + after, '/', '*')
    case Quotation(quote, items) =>
      IsQuote(quote) && (after == [] || after[0] != quote)
      && forall item | item in items :: ValidItem(item, quote, backslash)
    case Line(body) => '\n' !in body
    case Block(body) => forall i | 0 <= i < |body| - 1 :: !(body[i] == '*' && body[i + 1] == '/')
  }

  predicate AllValid(es: seq<Element>, after: string, backslash: bool) {
    es != [] ==>
      Valid(es[0], PrintAll(es[1..]) + after, backslash) && AllValid(es[1..], after, backslash)
  }

  /** The scanner takes the star that opens a block comment for one that may close it. */
  predicate OpensWithSlash(e: Element) {
    e.Block? && e.body != [] && e.body[0] == '/'
  }

  // ----- The scanner skips an element -----

  lemma {:induction false} LaterLater(k: int, n: nat, m: nat)
    requires k >= -1
    ensures Later(Later(k, n), m) == Later(k, n + m)
  {
  }

  lemma {:induction false} SkipStep(mode: Mode, text: string, backslash: bool)
    requires text != [] && !(mode.Plain? && text[0] == ';')
    ensures var (n, next) := Step(mode, text, backslash);
            FirstCut(text, mode, backslash) == Later(FirstCut(text[n..], next, backslash), n)
  {
  }

  lemma {:induction false} SkipItem(item: Item, quote: char, after: string, backslash: bool)
    requires IsQuote(quote) && ValidItem(item, quote, backslash) && after != []
    ensures var text := PrintItem(item, quote);
            FirstCut(text + after, Quoted(quote), backslash)
            == Later(FirstCut(after, Quoted(quote), backslash), |text|)
  {
    hide FirstCut;
    var text := PrintItem(item, quote);
    assert (text + after)[|text|..] == after;
    SkipStep(Quoted(quote), text + after, backslash);
  }

  lemma {:induction false} SkipItems(items: seq<Item>, quote: char, after: string, backslash: bool)
    requires IsQuote(quote) && (after == [] || after[0] != quote)
    requires forall item | item in items :: ValidItem(item, quote, backslash)
    ensures var text := PrintItems(items, quote) + [quote];
            FirstCut(text + after, Quoted(quote), backslash) == Later(FirstCut(after, Plain, backslash), |text|)
    decreases |items|
  {
    hide FirstCut, ValidItem, PrintItem;
    if items == [] {
      assert [] + [quote] + after == [quote] + after;
      SkipStep(Quoted(quote), [quote] + after, backslash);
    } else {
      var first, rest := PrintItem(items[0], quote), PrintItems(items[1..], quote) + [quote];
      SkipItem(items[0], quote, rest + after, backslash);
      SkipItems(items[1..], quote, after, backslash);
      assert PrintItems(items, quote) + [quote] + after == first + (rest + after);
      LaterLater(FirstCut(after, Plain, backslash), |rest|, |first|);
    }
  }

  lemma {:induction false} SkipLine(body: string, after: string, backslash: bool)
    requires '\n' !in body
    ensures FirstCut(body + ['\n'] + after, LineComment, backslash)
            == Later(FirstCut(after, Plain, backslash), |body| + 1)
    decreases |body|
  {
    hide FirstCut;
    var text := body + ['\n'] + after;
    SkipStep(LineComment, text, backslash);
    if body == [] {
      assert text[1..] == after;
    } else {
      assert text[1..] == body[1..] + ['\n'] + after;
      SkipLine(body[1..], after, backslash);
      LaterLater(FirstCut(after, Plain, backslash), |body|, 1);
    }
  }

  lemma {:induction false} SkipBlock(body: string, after: string, backslash: bool)
    requires forall i | 0 <= i < |body| - 1 :: !(body[i] == '*' && body[i + 1] == '/')
    ensures FirstCut(body + "*/" + after, BlockComment, backslash)
            == Later(FirstCut(after, Plain, backslash), |body| + 2)
    decreases |body|
  {
    hide FirstCut;
    var text := body + "*/" + after;
    SkipStep(BlockComment, text, backslash);
    if body == [] {
      assert text[2..] == after;
    } else {
      assert !StartsWith(text, '*', '/');
      assert text[1..] == body[1..] + "*/" + after;
      SkipBlock(body[1..], after, backslash);
      LaterLater(FirstCut(after, Plain, backslash), |body| + 1, 1);
    }
  }

  function ModeInside(e: Element): Mode {
    match e
    case Character(_) => Plain
    case Quotation(quote, _) => Quoted(quote)
    case Line(_) => LineComment
    case Block(_) => BlockComment
  }

  /** What the scanner does with the rest of an element after its first character. */
  lemma {:induction false} SkipRest(e: Element, after: string, backslash: bool)
    requires Valid(e, after, backslash) && !OpensWithSlash(e)
    ensures Print(e) != []
    ensures FirstCut(Print(e)[1..] + after, ModeInside(e), backslash)
            == Later(FirstCut(after, Plain, backslash), |Print(e)| - 1)
  {
    hide FirstCut, PrintItems, ValidItem, Later;
    match e {
      case Character(c) =>
        assert [c][1..] + after == after;
        NotLater(FirstCut(after, Plain, backslash));
      case Quotation(quote, items) =>
        assert Print(e)[1..] == PrintItems(items, quote) + [quote];
        SkipItems(items, quote, after, backslash);
      case Line(body) =>
        assert Print(e)[1..] == (['-'] + body) + ['\n'];
        SkipLine(['-'] + body, after, backslash);
      case Block(body) =>
        BlockRest(body, after, backslash);
    }
  }

  lemma NotLater(k: int)
    requires k >= -1
    ensures Later(k, 0) == k
  {
  }

  lemma {:induction false} BlockRest(body: string, after: string, backslash: bool)
    requires Valid(Block(body), after, backslash) && !OpensWithSlash(Block(body))
    ensures FirstCut(Print(Block(body))[1..] + after, BlockComment, backslash)
            == Later(FirstCut(after, Plain, backslash), |body| + 3)
  {
    hide FirstCut, Later;
    assert Print(Block(body))[1..] == (['*'] + body) + "*/";
    SkipBlock(['*'] + body, after, backslash);
  }

  lemma {:induction false} FirstStep(e: Element, after: string, backslash: bool)
    requires Valid(e, after, backslash)
    ensures Print(e) != [] && Print(e)[0] != ';'
    ensures Step(Plain, Print(e) + after, backslash) == (1, ModeInside(e))
  {
    hide PrintItems, ValidItem;
  }

  lemma {:induction false} SkipElement(e: Element, after: string, backslash: bool)
    requires Valid(e, after, backslash) && !OpensWithSlash(e)
    ensures FirstCut(Print(e) + after, Plain, backslash) == Later(FirstCut(after, Plain, backslash), |Print(e)|)
  {
    hide FirstCut, Valid, Step, Print, ModeInside;
    FirstStep(e, after, backslash);
    SkipRest(e, after, backslash);
    assert (Print(e) + after)[1..] == Print(e)[1..] + after;
    SkipStep(Plain, Print(e) + after, backslash);
    LaterLater(FirstCut(after, Plain, backslash), |Print(e)| - 1, 1);
  }

  lemma {:induction false} SkipAll(es: seq<Element>, after: string, backslash: bool)
    requires AllValid(es, after, backslash) && forall e | e in es :: !OpensWithSlash(e)
    ensures FirstCut(PrintAll(es) + after, Plain, backslash) == Later(FirstCut(after, Plain, backslash), |PrintAll(es)|)
    decreases |es|
  {
    hide FirstCut, Valid, Print;
    if es == [] {
      assert [] + after == after;
    } else {
      var rest := PrintAll(es[1..]);
      SkipElement(es[0], rest + after, backslash);
      SkipAll(es[1..], after, backslash);
      assert PrintAll(es) + after == Print(es[0]) + (rest + after);
      LaterLater(FirstCut(after, Plain, backslash), |rest|, |Print(es[0])|);
    }
  }

  /** Whatever is built from SQL's lexical elements is one statement to the splitter, in both
      backslash modes, as long as no block comment opens with a slash. */
  lemma ElementsAreClosed(es: seq<Element>, backslash: bool)
    requires AllValid(es, [';'], backslash) && forall e | e in es :: !OpensWithSlash(e)
    ensures IsClosed(PrintAll(es), backslash)
  {
    SkipAll(es, [';'], backslash);
  }

  // ----- Comments that open with a slash -----

  /** The scanner ends such a comment at once, and reads the rest of it as SQL. */
  lemma {:induction false} EndsAtSecondSlash(rest: string, after: string, backslash: bool)
    ensures FirstCut(Print(Block("/" + rest)) + after, Plain, backslash)
            == Later(FirstCut(rest + "*/" + after, Plain, backslash), 3)
  {
    hide FirstCut, Later;
    var text := Print(Block("/" + rest)) + after;
    assert text == "/*/" + (rest + "*/" + after);
    assert StartsWith(text, '/', '*') && Step(Plain, text, backslash) == (1, BlockComment);
    SkipStep(Plain, text, backslash);
    assert StartsWith(text[1..], '*', '/') && Step(BlockComment, text[1..], backslash) == (2, Plain);
    SkipStep(BlockComment, text[1..], backslash);
    assert text[1..][2..] == rest + "*/" + after;
    LaterLater(FirstCut(rest + "*/" + after, Plain, backslash), 2, 1);
  }

  lemma {:induction false} PrintAllConcat(a: seq<Element>, b: seq<Element>)
    ensures PrintAll(a + b) == PrintAll(a) + PrintAll(b)
    decreases |a|
  {
    hide Print;
    if a == [] {
      assert a + b == b;
    } else {
      assert (a + b)[1..] == a[1..] + b;
      PrintAllConcat(a[1..], b);
    }
  }

  lemma {:induction false} ValidBefore(a: seq<Element>, b: seq<Element>, after: string, backslash: bool)
    requires AllValid(a + b, after, backslash)
    ensures AllValid(a, PrintAll(b) + after, backslash)
    decreases |a|
  {
    hide Valid, Print;
    if a != [] {
      assert (a + b)[1..] == a[1..] + b;
      PrintAllConcat(a[1..], b);
      assert PrintAll(a[1..]) + PrintAll(b) + after == PrintAll(a[1..]) + (PrintAll(b) + after);
      ValidBefore(a[1..], b, after, backslash);
    }
  }

  /** Exactly when a statement with such a comment is closed: the comment's text after its first
      slash, its end and all that follows would have to be a closed statement by themselves. */
  lemma {:induction false} ClosedAfterSlash(before: seq<Element>, rest: string, behind: seq<Element>, backslash: bool)
    requires AllValid(before + ([Block("/" + rest)] + behind), [';'], backslash)
    requires forall e | e in before :: !OpensWithSlash(e)
    ensures IsClosed(PrintAll(before + ([Block("/" + rest)] + behind)), backslash) <==>
            IsClosed(rest + "*/" + PrintAll(behind), backslash)
  {
    hide FirstCut, Valid, Print, AllValid;
    var comment := Block("/" + rest);
    var tail := [comment] + behind;
    var left := rest + "*/" + PrintAll(behind);
    PrintAllConcat(before, tail);
    assert tail[1..] == behind;
    ValidBefore(before, tail, [';'], backslash);
    SkipAll(before, PrintAll(tail) + [';'], backslash);
    EndsAtSecondSlash(rest, PrintAll(behind) + [';'], backslash);
    assert PrintAll(tail) + [';'] == Print(comment) + (PrintAll(behind) + [';']);
    assert rest + "*/" + (PrintAll(behind) + [';']) == left + [';'];
    assert PrintAll(before + tail) + [';'] == PrintAll(before) + (PrintAll(tail) + [';']);
    SlashLength(rest);
    assert |PrintAll(before + tail)| == |PrintAll(before)| + 3 + |left|;
    CutMoves(FirstCut(left + [';'], Plain, backslash), |PrintAll(before)|, |left|);
  }

  lemma SlashLength(rest: string)
    ensures |Print(Block("/" + rest))| == 3 + |rest| + 2
  {
  }

  lemma CutMoves(k: int, n: nat, m: nat)
    requires k >= -1
    ensures Later(Later(k, 3), n) == n + 3 + m <==> k == m
  {
  }

  /** Text in which nothing opens a quotation or a comment, up to its end. */
  predicate OpensNothing(text: string) {
    forall i | 0 <= i < |text| ::
      !IsQuote(text[i]) && !StartsWith(text[i..], '-', '-') && !StartsWith(text[i..], '/', '*')
  }

  lemma OpensNothingThen(text: string, backslash: bool)
    requires text != [] && OpensNothing(text)
    ensures OpensNothing(text[1..]) && Step(Plain, text, backslash) == (1, Plain)
  {
    hide IsQuote, StartsWith;
    assert text[0..] == text;
    forall i | 0 <= i < |text| - 1 ensures text[1..][i..] == text[i + 1..] && text[1..][i] == text[i + 1] {}
  }

  lemma {:induction false} CutOfPlain(text: string, backslash: bool)
    requires OpensNothing(text)
    ensures FirstCut(text, Plain, backslash) >= 0 <==> ';' in text
    ensures ';' in text ==> ';' !in text[..FirstCut(text, Plain, backslash)]
  {
    if text == [] {
    } else if text[0] == ';' {
      assert FirstCut(text, Plain, backslash) == 0 && text[..0] == [];
    } else {
      OpensNothingThen(text, backslash);
      hide OpensNothing, Step;
      SkipStep(Plain, text, backslash);
      hide FirstCut;
      CutOfPlain(text[1..], backslash);
      FoundLater(text, FirstCut(text[1..], Plain, backslash));
    }
  }

  lemma FoundLater(text: string, k: int)
    requires text != [] && text[0] != ';' && -1 <= k < |text| - 1
    requires (k >= 0 <==> ';' in text[1..]) && (k >= 0 ==> ';' !in text[1..][..k])
    ensures k >= 0 <==> ';' in text
    ensures k >= 0 ==> ';' !in text[..k + 1]
  {
    assert text == [text[0]] + text[1..];
    if k >= 0 {
      assert text[..k + 1] == [text[0]] + text[1..][..k];
    }
  }

  /** Such a comment, alone and of plain text, is closed exactly when there is no semicolon in it:
      the empty comment of two slashes is, and the next one is not. */
  lemma {:induction false} SlashComment(rest: string, backslash: bool)
    requires Valid(Block("/" + rest), [';'], backslash) && OpensNothing(rest + "*/;")
    ensures IsClosed(PrintAll([Block("/" + rest)]), backslash) <==> ';' !in rest
  {
    hide FirstCut, Print, OpensNothing;
    var comment := Block("/" + rest);
    assert [comment][1..] == [] && [comment] + [] == [comment] && [] + [comment] == [comment];
    assert PrintAll([]) + [';'] == [';'] && PrintAll([]) == [];
    assert AllValid([comment], [';'], backslash);
    ClosedAfterSlash([], rest, [], backslash);
    var text := rest + "*/";
    assert text + [] == text && text + [';'] == rest + "*/;";
    CutOfPlain(text + [';'], backslash);
    var k := FirstCut(text + [';'], Plain, backslash);
    assert ';' in text + [';'];
    if k == |text| {
      assert (text + [';'])[..k] == text;
    } else {
      assert (text + [';'])[k] == text[k] == ';';
      assert k < |rest|;
    }
  }

  // ----- Files -----

  /** Files of such statements, each with its semicolon, split back into what was written. */
  lemma {:induction false} WrittenFilesComeBack(programs: seq<seq<Element>>, texts: seq<string>, backslash: bool)
    requires programs != [] && |texts| == |programs|
    requires forall i | 0 <= i < |programs| ::
               && texts[i] == PrintAll(programs[i]) + [';'] && IsTrimmed(PrintAll(programs[i]))
               && AllValid(programs[i], [';'], backslash) && forall e | e in programs[i] :: !OpensWithSlash(e)
    ensures Split(Joined(texts), backslash) == Bares(texts)
    ensures forall i | 0 <= i < |programs| :: Bares(texts)[i] == PrintAll(programs[i])
  {
    hide IsTrimmed, IsClosed, AllValid, PrintAll, Split;
    forall i | 0 <= i < |programs|
      ensures IsTerminated(texts[i], backslash) && Bare(texts[i]) == PrintAll(programs[i])
    {
      ElementsAreClosed(programs[i], backslash);
    }
    EachTerminated(texts, backslash);
    SplitUndoesWrite(texts, backslash);
  }

  lemma {:induction false} EachTerminated(texts: seq<string>, backslash: bool)
    requires forall i | 0 <= i < |texts| :: IsTerminated(texts[i], backslash)
    ensures AllTerminated(texts, backslash)
    decreases |texts|
  {
    hide IsTerminated;
    if |texts| > 1 {
      forall i | 0 <= i < |texts| - 1 ensures texts[1..][i] == texts[i + 1] {}
      EachTerminated(texts[1..], backslash);
    }
  }

  lemma SemicolonIsPlain()
    ensures Valid(Block("/;"), [';'], false) && Valid(Block("/;"), [';'], true)
    ensures "/" + ";" == "/;" && PrintAll([Block("/;")]) == "/*/;*/"
    ensures OpensNothing(";" + "*/;")
  {
    assert "/*" + "/;" + "*/" + [] == "/*/;*/";
    assert ";" + "*/;" == ";*/;";
  }

  lemma OneBlockValid(body: string, after: string, backslash: bool)
    requires Valid(Block(body), after, backslash)
    ensures AllValid([Block(body)], after, backslash)
  {
    assert [Block(body)][1..] == [] && PrintAll([]) + after == after;
  }

  lemma SlashFile()
    ensures var text := "/*/;*/;";
            EndsInSemicolon(text) && Bare(text) == "/*/;*/" && !IsVacant(text)
  {
    var text := "/*/;*/;";
    assert text[0] in text;
  }

  /** The comment written slash star slash semicolon star slash is one comment, and yet the
      scanner cuts at the semicolon inside. */
  lemma SlashInCommentSplits(backslash: bool)
    ensures AllValid([Block("/;")], [';'], backslash) && PrintAll([Block("/;")]) == "/*/;*/"
    ensures !IsClosed("/*/;*/", backslash)
    ensures Split(Joined(["/*/;*/;"]), backslash) != Bares(["/*/;*/;"])
  {
    SemicolonIsPlain();
    SlashFile();
    hide FirstCut, Split, OpensNothing, IsVacant, PrintAll, Valid, Bare, EndsInSemicolon, Joined;
    OneBlockValid("/;", [';'], backslash);
    SlashComment(";", backslash);
    SplitUndoesWrite(["/*/;*/;"], backslash);
  }
}
