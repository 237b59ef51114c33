/** The converter from numbered to positional placeholders. Reading the converted statement with
    one bound value per question mark gives the statement that binding the numbers directly gives. */
module Placeholders {
  import opened Common
  import opened Decimals
  import opened SqlScan

  // ----- Dollar quotes -----

  predicate IsTagChar(c: char) {
    'A' <= c <= 'Z' || 'a' <= c <= 'z' || c == '_'
  }

  /** Where `w` first occurs in `s`, or -1. */
  function IndexOf(s: string, w: string): (k: int)
    ensures k >= 0 ==> k + |w| <= |s| && IsPrefix(w, s[k..])
  {
    if IsPrefix(w, s) then 0
    else if s == [] then -1
    else var k := IndexOf(s[1..], w); if k < 0 then -1 else k + 1
  }

  function Delimiter(tag: string): string {
    ['$'] + tag + ['$']
  }

  /** The tag of a dollar quote that opens at the start of the text, when there is one. */
  function Tag(text: string): Option<string>
    requires text != [] && text[0] == '$'
  {
    var k := IndexOf(text[1..], "$");
    if k < 0 then None
    else if forall c | c in text[1..1 + k] :: IsTagChar(c) then Some(text[1..1 + k])
    else None
  }

  /** The end of a dollar-quoted region that opens at the start of the text, or -1. */
  function DollarEnd(text: string): (e: int)
    requires text != [] && text[0] == '$'
    ensures e == -1 || 2 <= e <= |text|
  {
    match Tag(text)
    case None => -1
    case Some(tag) =>
      var k := IndexOf(text[|tag| + 2..], Delimiter(tag));
      if k < 0 then -1 else |tag| + 2 + k + |tag| + 2
  }

  // ----- Tokens -----

  /** A quoted, commented or plain stretch of text, a bare question mark, or a placeholder. */
  datatype Token = Text(s: string) | Mark | Param(index: nat)

  function Digits(text: string): (n: nat)
    ensures n <= |text|
    ensures forall i | 0 <= i < n :: IsDigit(text[i])
    ensures n < |text| ==> !IsDigit(text[n])
  {
    if text != [] && IsDigit(text[0]) then 1 + Digits(text[1..]) else 0
  }

  predicate IsParam(text: string) {
    |text| > 1 && text[0] == '$' && IsDigit(text[1])
  }

  /** The next token, its length and the mode after it. */
  function Next(text: string, mode: Mode): (r: (Token, nat, Mode))
    requires text != []
    ensures 1 <= r.1 <= |text|
  {
    if mode.Plain? && text[0] == '$' && DollarEnd(text) >= 0 then (Text(text[..DollarEnd(text)]), DollarEnd(text),
        Plain)
    else if mode.Plain? && IsParam(text) then
      var n := Digits(text[1..]);
      (Param(Number(text[1..1 + n])), n + 1, Plain)
    else if mode.Plain? && text[0] == '?' then (Mark, 1, Plain)
    else
      var (n, next) := Step(mode, text, false);
      (Text(text[..n]), n, next)
  }

  function Lex(text: string, mode: Mode): seq<Token>
    decreases |text|
  {
    if text == [] then []
    else
      var (token, n, next) := Next(text, mode);
      [token] + Lex(text[n..], next)
  }

  function Show(token: Token): string {
    match token
    case Text(s) => s
    case Mark => "?"
    case Param(_) => "?"
  }

  /** The text the converter writes: question marks for placeholders, all else as it stood. */
  function Out(tokens: seq<Token>): string {
    if tokens == [] then [] else Show(tokens[0]) + Out(tokens[1..])
  }

  function Slots(tokens: seq<Token>): seq<nat> {
    if tokens == [] then []
    else (match tokens[0] case Param(index) => [index] case _ => []) + Slots(tokens[1..])
  }

  function MarkOf(token: Token): Token {
    match token case Param(_) => Mark case _ => token
  }

  function Marked(tokens: seq<Token>): seq<Token> {
    if tokens == [] then []
    else [MarkOf(tokens[0])] + Marked(tokens[1..])
  }

  // ----- What a placeholder's number is -----

  /** A statement as a list of words and placeholders. */
  datatype Piece = Word(s: string) | Numbered(n: nat)

  predicate IsOrdinary(c: char) {
    !IsQuote(c) && c != '$' && c != '?' && c != '-' && c != '/'
  }

  /** Words without special characters, and none that continues a number. */
  ghost predicate IsWritten(pieces: seq<Piece>) {
    && (forall p | p in pieces && p.Word? :: p.s != [] && forall c | c in p.s :: IsOrdinary(c))
    && (forall i | 0 <= i < |pieces| - 1 && pieces[i].Numbered? && pieces[i + 1].Word? :: !IsDigit(pieces[i + 1].s[0]))
  }

  function Numerals(pieces: seq<Piece>): string {
    if pieces == [] then []
    else (match pieces[0] case Word(s) => s case Numbered(n) => "$" + Decimal(n)) + Numerals(pieces[1..])
  }

  function QuestionMarks(pieces: seq<Piece>): string {
    if pieces == [] then []
    else (match pieces[0] case Word(s) => s case Numbered(_) => "?") + QuestionMarks(pieces[1..])
  }

  function Numbers(pieces: seq<Piece>): seq<nat> {
    if pieces == [] then []
    else (match pieces[0] case Word(_) => [] case Numbered(n) => [n]) + Numbers(pieces[1..])
  }

  lemma {:induction false} DigitsOf(digits: string, rest: string)
    requires forall c | c in digits :: IsDigit(c)
    requires rest == [] || !IsDigit(rest[0])
    ensures Digits(digits + rest) == |digits|
  {
    if digits == [] {
      assert digits + rest == rest;
    } else {
      assert (digits + rest)[1..] == digits[1..] + rest;
      DigitsOf(digits[1..], rest);
    }
  }

  /** A dollar sign before a digit opens no dollar quote. */
  lemma NumberOpensNothing(text: string)
    requires IsParam(text)
    ensures DollarEnd(text) == -1
  {
    var k := IndexOf(text[1..], "$");
    if k >= 0 {
      assert IsPrefix("$", text[1..][k..]);
      assert text[1..][k..][..1] == "$";
      assert text[1..][k] == '$';
      assert k > 0;
      assert text[1] in text[1..1 + k] && !IsTagChar(text[1]);
    }
  }

  lemma {:induction false} NumeralRead(n: nat, rest: string)
    requires rest == [] || !IsDigit(rest[0])
    ensures Next("$" + Decimal(n) + rest, Plain) == (Param(n), 1 + |Decimal(n)|, Plain)
  {
    var text := "$" + Decimal(n) + rest;
    var digits := Decimal(n);
    assert text[1..] == digits + rest;
    assert text[1] == digits[0] && digits[0] in digits;
    NumberOpensNothing(text);
    DigitsOf(digits, rest);
    assert text[1..1 + |digits|] == digits;
    NumberOfDecimal(n);
    hide DollarEnd, Decimal, Digits, Number;
  }

  lemma OrdinaryRead(c: char, rest: string)
    requires IsOrdinary(c)
    ensures Next([c] + rest, Plain) == (Text([c]), 1, Plain)
  {
    assert ([c] + rest)[..1] == [c];
    hide DollarEnd, Digits, Number;
  }

  lemma Lexed(text: string, token: Token, n: nat)
    requires text != [] && Next(text, Plain) == (token, n, Plain)
    ensures Out(Lex(text, Plain)) == Show(token) + Out(Lex(text[n..], Plain))
    ensures Slots(Lex(text, Plain)) == (if token.Param? then [token.index] else []) + Slots(Lex(text[n..], Plain))
  {
    hide Next;
    var tail := Lex(text[n..], Plain);
    assert ([token] + tail)[1..] == tail;
  }

  lemma {:induction false} WordRead(s: string, rest: string)
    requires forall c | c in s :: IsOrdinary(c)
    ensures Out(Lex(s + rest, Plain)) == s + Out(Lex(rest, Plain))
    ensures Slots(Lex(s + rest, Plain)) == Slots(Lex(rest, Plain))
  {
    hide Next, IsOrdinary, Lex, Out, Slots;
    if s == [] {
      assert s + rest == rest;
    } else {
      var behind := s[1..] + rest;
      assert s + rest == [s[0]] + behind && s[0] in s;
      WordRead(s[1..], rest);
      OrdinaryRead(s[0], behind);
      Lexed([s[0]] + behind, Text([s[0]]), 1);
      assert ([s[0]] + behind)[1..] == behind;
      assert s == [s[0]] + s[1..];
    }
  }

  lemma FirstIsNoDigit(pieces: seq<Piece>)
    requires IsWritten(pieces) && pieces != [] && pieces[0].Numbered?
    ensures var rest := Numerals(pieces[1..]); rest == [] || !IsDigit(rest[0])
  {
    if |pieces| > 1 && pieces[1].Word? {
      assert pieces[1] in pieces;
    }
  }

  lemma WrittenRest(pieces: seq<Piece>)
    requires IsWritten(pieces) && pieces != []
    ensures IsWritten(pieces[1..])
  {
    var rest := pieces[1..];
    forall i | 0 <= i < |rest| - 1 && rest[i].Numbered? && rest[i + 1].Word? ensures !IsDigit(rest[i + 1].s[0]) {
      assert rest[i] == pieces[i + 1] && rest[i + 1] == pieces[i + 2] && pieces[i + 2] in pieces;
      assert pieces[i + 1].Numbered?;
    }
  }

  /** A statement with numerals for its placeholders is read as what was written: the slots are the
      very numbers, in order, and each numeral as a whole becomes one question mark. */
  lemma {:induction false} NumbersAreRead(pieces: seq<Piece>)
    requires IsWritten(pieces)
    ensures Slots(Lex(Numerals(pieces), Plain)) == Numbers(pieces)
    ensures Out(Lex(Numerals(pieces), Plain)) == QuestionMarks(pieces)
  {
    hide Next, Decimal, IsOrdinary;
    if pieces != [] {
      var rest := Numerals(pieces[1..]);
      WrittenRest(pieces);
      NumbersAreRead(pieces[1..]);
      match pieces[0] {
        case Word(s) =>
          assert pieces[0] in pieces;
          WordRead(s, rest);
        case Numbered(n) =>
          FirstIsNoDigit(pieces);
          NumeralRead(n, rest);
          var text := "$" + Decimal(n) + rest;
          assert text[1 + |Decimal(n)|..] == rest;
          Lexed(text, Param(n), 1 + |Decimal(n)|);
      }
    }
  }

  // ----- Reading the converted text again -----

  /** `o` is `t` with some stretches of `t` replaced by a question mark. */
  ghost predicate Abridges(o: string, t: string)
    decreases |o|
  {
    if o == [] then t == []
    else
      || (t != [] && o[0] == t[0] && Abridges(o[1..], t[1..]))
      || (o[0] == '?' && exists n :: 1 <= n <= |t| && Abridges(o[1..], t[n..]))
  }

  lemma {:induction false} AbridgesBehind(s: string, o: string, t: string)
    requires Abridges(o, t)
    ensures Abridges(s + o, s + t)
    decreases |s|
  {
    if s == [] {
      assert s + o == o && s + t == t;
    } else {
      AbridgesBehind(s[1..], o, t);
      assert (s + o)[1..] == s[1..] + o && (s + t)[1..] == s[1..] + t;
    }
  }

  /** Text without question marks in the abridged version stood in the full one. */
  lemma {:induction false} PrefixStood(w: string, o: string, t: string)
    requires Abridges(o, t) && IsPrefix(w, o) && '?' !in w
    ensures IsPrefix(w, t) && Abridges(o[|w|..], t[|w|..])
    decreases |w|
  {
    if w == [] {
      assert o[0..] == o && t[0..] == t;
    } else {
      assert w[0] == o[0] && w[0] in w;
      assert IsPrefix(w[1..], o[1..]) by {
        assert o[1..][..|w| - 1] == o[..|w|][1..];
      }
      PrefixStood(w[1..], o[1..], t[1..]);
      assert t[..|w|] == [t[0]] + t[1..][..|w| - 1];
      assert o[|w|..] == o[1..][|w| - 1..] && t[|w|..] == t[1..][|w| - 1..];
    }
  }

  ghost predicate Occurs(w: string, s: string) {
    exists i :: 0 <= i <= |s| && IsPrefix(w, s[i..])
  }

  lemma {:induction false} OccursLater(w: string, s: string, n: nat)
    requires n <= |s| && Occurs(w, s[n..])
    ensures Occurs(w, s)
  {
    var i :| 0 <= i <= |s[n..]| && IsPrefix(w, s[n..][i..]);
    assert s[n..][i..] == s[n + i..];
  }

  lemma {:induction false} OccursFromStart(w: string, s: string)
    requires IsPrefix(w, s)
    ensures Occurs(w, s)
  {
    assert s[0..] == s;
  }

  lemma {:induction false} OccurrenceStood(w: string, o: string, t: string)
    requires Abridges(o, t) && Occurs(w, o) && '?' !in w
    ensures Occurs(w, t)
    decreases |o|
  {
    var i :| 0 <= i <= |o| && IsPrefix(w, o[i..]);
    if i == 0 {
      assert o[0..] == o;
      PrefixStood(w, o, t);
      OccursFromStart(w, t);
    } else {
      assert o[i..] == o[1..][i - 1..];
      assert Occurs(w, o[1..]);
      if t != [] && o[0] == t[0] && Abridges(o[1..], t[1..]) {
        OccurrenceStood(w, o[1..], t[1..]);
        OccursLater(w, t, 1);
      } else {
        var n :| 1 <= n <= |t| && Abridges(o[1..], t[n..]);
        OccurrenceStood(w, o[1..], t[n..]);
        OccursLater(w, t, n);
      }
    }
  }

  lemma {:induction false} IndexOfFinds(s: string, w: string)
    ensures IndexOf(s, w) >= 0 <==> Occurs(w, s)
  {
    if IsPrefix(w, s) {
      OccursFromStart(w, s);
    } else if s != [] {
      IndexOfFinds(s[1..], w);
      if Occurs(w, s[1..]) {
        OccursLater(w, s, 1);
      }
      if Occurs(w, s) {
        var i :| 0 <= i <= |s| && IsPrefix(w, s[i..]);
        assert s[0..] == s;
        assert s[i..] == s[1..][i - 1..];
      }
    }
  }

  lemma {:induction false} OutAbridges(text: string, mode: Mode)
    ensures Abridges(Out(Lex(text, mode)), text)
    decreases |text|
  {
    if text != [] {
      var (token, n, next) := Next(text, mode);
      var rest := Lex(text[n..], next);
      OutAbridges(text[n..], next);
      assert Lex(text, mode)[1..] == rest;
      ShowAbridges(text, mode, Out(rest));
    }
  }

  lemma {:induction false} MarkAbridges(o: string, t: string, n: nat)
    requires 1 <= n <= |t| && Abridges(o, t[n..])
    ensures Abridges("?" + o, t)
  {
    assert ("?" + o)[1..] == o;
  }

  lemma {:induction false} ShowAbridges(text: string, mode: Mode, o: string)
    requires text != [] && var r := Next(text, mode); Abridges(o, text[r.1..])
    ensures Abridges(Show(Next(text, mode).0) + o, text)
  {
    hide Next, Abridges;
    var (token, n, next) := Next(text, mode);
    if token.Text? {
      NextIsVerbatim(text, mode);
      AbridgesBehind(token.s, o, text[n..]);
      assert text == token.s + text[n..];
    } else {
      MarkAbridges(o, text, n);
    }
  }

  lemma {:induction false} NextIsVerbatim(text: string, mode: Mode)
    requires text != []
    ensures var r := Next(text, mode); r.0.Text? ==> r.0.s == text[..r.1]
  {
    hide Step, DollarEnd;
  }

  /** A dollar-quoted region ends where it does whatever follows it. */
  lemma SamePrefix(w: string, s: string, t: string)
    requires |w| <= |s| && |w| <= |t| && s[..|w|] == t[..|w|]
    ensures IsPrefix(w, s) <==> IsPrefix(w, t)
  {
  }

  lemma {:induction false} FirstOccurrenceStays(s: string, w: string, u: string)
    requires w != [] && IndexOf(s, w) >= 0
    ensures IndexOf(s[..IndexOf(s, w) + |w|] + u, w) == IndexOf(s, w)
    decreases |s|
  {
    hide IsPrefix;
    var k := IndexOf(s, w);
    var t := s[..k + |w|] + u;
    assert t[..|w|] == s[..|w|];
    SamePrefix(w, s, t);
    if !IsPrefix(w, s) {
      FirstOccurrenceStays(s[1..], w, u);
      assert t[1..] == s[1..][..k - 1 + |w|] + u;
    }
  }

  ghost predicate OpensWith(o: string, tag: string) {
    && IndexOf(o, "$") == |tag| && |tag| < |o| && o[..|tag|] == tag && o[|tag|] == '$'
    && forall c | c in tag :: IsTagChar(c)
  }

  lemma {:induction false} TagMeans(o: string, tag: string)
    ensures Tag(['$'] + o) == Some(tag) <==> OpensWith(o, tag)
  {
    assert (['$'] + o)[1..] == o;
    var k := IndexOf(o, "$");
    if k >= 0 {
      assert (['$'] + o)[1..1 + k] == o[..k];
      assert o[k..][..1] == "$";
      assert o[k..][0] == o[k];
    }
  }

  lemma {:induction false} OpeningStays(o: string, n: nat, u: string, tag: string)
    requires OpensWith(o, tag) && |tag| + 1 <= n <= |o|
    ensures OpensWith(o[..n] + u, tag)
  {
    var m := |tag| + 1;
    FirstOccurrenceStays(o, "$", o[m..n] + u);
    hide IndexOf;
    assert o[..n] + u == o[..m] + (o[m..n] + u);
    assert (o[..n] + u)[..|tag|] == o[..|tag|];
  }

  lemma {:induction false} TagStays(text: string, n: nat, u: string)
    requires text != [] && text[0] == '$' && Tag(text).Some? && |Tag(text).value| + 2 <= n <= |text|
    ensures n > 0 && Tag(text[..n] + u) == Tag(text)
  {
    hide Tag, OpensWith;
    var tag, o := Tag(text).value, text[1..];
    assert text == ['$'] + o;
    TagMeans(o, tag);
    OpeningStays(o, n - 1, u, tag);
    TagMeans(o[..n - 1] + u, tag);
    assert ['$'] + (o[..n - 1] + u) == text[..n] + u;
  }

  lemma {:induction false} RegionStays(text: string, u: string)
    requires text != [] && text[0] == '$' && DollarEnd(text) >= 0
    ensures DollarEnd(text[..DollarEnd(text)] + u) == DollarEnd(text)
  {
    hide Tag, IndexOf;
    var e := DollarEnd(text);
    var tag := Tag(text).value;
    var n := |tag| + 2;
    TagStays(text, e, u);
    FirstOccurrenceStays(text[n..], Delimiter(tag), u);
    assert (text[..e] + u)[n..] == text[n..][..e - n] + u;
  }

  lemma {:induction false} OpeningStood(o: string, t: string, tag: string)
    requires Abridges(o, t) && OpensWith(o, tag)
    ensures OpensWith(t, tag) && Abridges(o[|tag| + 1..], t[|tag| + 1..])
  {
    hide Abridges, IndexOf;
    var n := |tag| + 1;
    assert o[..n] == tag + ['$'];
    assert '?' !in o[..n] by {
      assert '?' in tag ==> IsTagChar('?');
    }
    PrefixStood(o[..n], o, t);
    FirstOccurrenceStays(o, "$", t[n..]);
    assert t == o[..n] + t[n..];
    assert t[..|tag|] == t[..n][..|tag|] == tag && t[|tag|] == t[..n][|tag|];
  }

  /** Replacing placeholders behind a plain dollar sign opens no dollar quote. */
  lemma {:induction false} NoNewRegion(o: string, t: string)
    requires Abridges(o, t) && DollarEnd(['$'] + t) < 0
    ensures DollarEnd(['$'] + o) < 0
  {
    if Tag(['$'] + o).Some? {
      var tag := Tag(['$'] + o).value;
      TagMeans(o, tag);
      OpeningStood(o, t, tag);
      TagMeans(t, tag);
      assert '?' !in Delimiter(tag) by {
        assert '?' in tag ==> IsTagChar('?');
      }
      hide Tag, IndexOf, Delimiter, Abridges;
      var n := |tag| + 1;
      assert (['$'] + o)[n + 1..] == o[n..] && (['$'] + t)[n + 1..] == t[n..];
      IndexOfFinds(o[n..], Delimiter(tag));
      IndexOfFinds(t[n..], Delimiter(tag));
      if Occurs(Delimiter(tag), o[n..]) {
        OccurrenceStood(Delimiter(tag), o[n..], t[n..]);
      }
    }
  }

  predicate IsMode(mode: Mode) {
    mode.Quoted? ==> IsQuote(mode.quote)
  }

  /** The two texts start alike, except that a question mark may stand for a dollar sign. */
  predicate LooksLike(o: string, t: string) {
    if o == [] then t == []
    else t != [] && (o[0] == t[0] || (o[0] == '?' && t[0] == '$'))
  }

  lemma {:induction false} OutLooksLike(text: string, mode: Mode)
    ensures LooksLike(Out(Lex(text, mode)), text)
  {
    if text != [] {
      hide Step, DollarEnd;
      var (token, n, next) := Next(text, mode);
      assert Lex(text, mode)[0] == token;
    }
  }

  lemma {:induction false} StepAgain(mode: Mode, text: string, o: string)
    requires IsMode(mode) && text != [] && LooksLike(o, text[Step(mode, text, false).0..])
    ensures var r := Step(mode, text, false); Step(mode, text[..r.0] + o, false) == r && IsMode(r.1)
  {
  }

  /** Reading what was written for a token gives the token back, as a mark if it was a number. */
  lemma {:induction false} NextAgain(text: string, mode: Mode, o: string)
    requires IsMode(mode) && text != []
    requires var n := Next(text, mode).1; LooksLike(o, text[n..]) && Abridges(o, text[n..])
    ensures var (token, n, next) := Next(text, mode);
            IsMode(next) && Next(Show(token) + o, mode) == (MarkOf(token), |Show(token)|, next)
  {
    hide DollarEnd, Abridges;
    var (token, n, next) := Next(text, mode);
    if mode.Plain? && text[0] == '$' && DollarEnd(text) >= 0 {
      RegionStays(text, o);
      assert (text[..n] + o)[..n] == text[..n];
    } else if mode.Plain? && IsParam(text) {
      assert token.Param?;
    } else if mode.Plain? && text[0] == '?' {
    } else {
      StepAgain(mode, text, o);
      var written := text[..n] + o;
      assert written[..n] == text[..n];
      if mode.Plain? && text[0] == '$' {
        assert text == ['$'] + text[1..] && written == ['$'] + o;
        NoNewRegion(o, text[1..]);
      }
    }
  }

  /** Reading the converted text gives the same tokens, with a mark for every placeholder. */
  lemma {:induction false} ReadBack(text: string, mode: Mode)
    requires IsMode(mode)
    ensures Lex(Out(Lex(text, mode)), mode) == Marked(Lex(text, mode))
    decreases |text|
  {
    hide Next, Abridges, Step, LooksLike;
    if text != [] {
      var (token, n, next) := Next(text, mode);
      var rest := Lex(text[n..], next);
      assert Lex(text, mode)[1..] == rest;
      OutAbridges(text[n..], next);
      OutLooksLike(text[n..], next);
      NextAgain(text, mode, Out(rest));
      ReadBack(text[n..], next);
      NextIsVerbatim(text, mode);
      assert (Show(token) + Out(rest))[|Show(token)|..] == Out(rest);
      assert Show(token) != [];
    }
  }

  // ----- Binding -----

  datatype Bound<+V> = Chars(s: string) | Value(v: V)

  /** The statement with its numbered placeholders bound, or None if a number is out of range. */
  function BindNumbers<V>(tokens: seq<Token>, params: seq<V>): Option<seq<Bound<V>>> {
    if tokens == [] then Some([])
    else match BindNumbers(tokens[1..], params)
         case None => None
         case Some(rest) =>
           match tokens[0]
           case Text(s) => Some([Chars(s)] + rest)
           case Mark => Some([Chars("?")] + rest)
           case Param(i) => if 1 <= i <= |params| then Some([Value(params[i - 1])] + rest) else None
  }

  /** The statement with its question marks bound in order, or None if they are not as many. */
  function BindMarks<V>(tokens: seq<Token>, values: seq<V>): Option<seq<Bound<V>>> {
    if tokens == [] then if values == [] then Some([]) else None
    else if tokens[0].Mark? && values == [] then None
    else match BindMarks(tokens[1..], if tokens[0].Mark? then values[1..] else values)
         case None => None
         case Some(rest) =>
           match tokens[0]
           case Text(s) => Some([Chars(s)] + rest)
           case Mark => Some([Value(values[0])] + rest)
           case Param(_) => None
  }

  /** The parameters a plan passes on, one for each slot, or None if a slot is out of range. */
  function Apply<V>(slots: seq<nat>, params: seq<V>): Option<seq<V>> {
    if slots == [] then Some([])
    else if !(1 <= slots[0] <= |params|) then None
    else match Apply(slots[1..], params)
         case None => None
         case Some(rest) => Some([params[slots[0] - 1]] + rest)
  }

  lemma {:induction false} ApplyFails<V>(tokens: seq<Token>, params: seq<V>)
    ensures Apply(Slots(tokens), params).None? <==> BindNumbers(tokens, params).None?
    ensures Apply(Slots(tokens), params).None? <==> exists t | t in tokens :: t.Param? && !(1 <= t.index <= |params|)
    decreases |tokens|
  {
    if tokens != [] {
      ApplyFails(tokens[1..], params);
      assert forall t :: t in tokens <==> t == tokens[0] || t in tokens[1..];
      if tokens[0].Param? {
        assert Slots(tokens)[1..] == Slots(tokens[1..]);
      } else {
        assert Slots(tokens) == Slots(tokens[1..]);
      }
    }
  }

  function CountMarks(tokens: seq<Token>): nat {
    if tokens == [] then 0 else (if tokens[0].Mark? then 1 else 0) + CountMarks(tokens[1..])
  }

  lemma {:induction false} AsManyValuesAsMarks<V>(tokens: seq<Token>, values: seq<V>)
    requires BindMarks(tokens, values).Some?
    ensures |values| == CountMarks(tokens)
    decreases |tokens|
  {
    if tokens != [] {
      AsManyValuesAsMarks(tokens[1..], if tokens[0].Mark? then values[1..] else values);
    }
  }

  lemma {:induction false} MarksAndSlots<V>(tokens: seq<Token>, params: seq<V>)
    requires Apply(Slots(tokens), params).Some?
    ensures |Apply(Slots(tokens), params).value| == |Slots(tokens)|
    ensures CountMarks(Marked(tokens)) == |Slots(tokens)| + CountMarks(tokens)
    ensures CountMarks(tokens) == 0 <==> Mark !in tokens
    decreases |tokens|
  {
    if tokens != [] {
      assert Marked(tokens)[1..] == Marked(tokens[1..]);
      if tokens[0].Param? {
        assert Slots(tokens)[1..] == Slots(tokens[1..]);
      } else {
        assert Slots(tokens) == Slots(tokens[1..]);
      }
      MarksAndSlots(tokens[1..], params);
      assert forall t :: t in tokens <==> t == tokens[0] || t in tokens[1..];
    }
  }

  lemma {:induction false} MarkBinds<V>(tokens: seq<Token>, v: V, values: seq<V>)
    ensures BindMarks([Mark] + tokens, [v] + values)
            == match BindMarks(tokens, values) case None => None case Some(rest) => Some([Value(v)] + rest)
  {
    assert ([Mark] + tokens)[1..] == tokens && ([v] + values)[1..] == values;
  }

  lemma {:induction false} TextBinds<V>(s: string, tokens: seq<Token>, values: seq<V>)
    ensures BindMarks([Text(s)] + tokens, values)
            == match BindMarks(tokens, values) case None => None case Some(rest) => Some([Chars(s)] + rest)
  {
    assert ([Text(s)] + tokens)[1..] == tokens;
  }

  lemma {:induction false} BindingsAgree<V>(tokens: seq<Token>, params: seq<V>)
    requires Apply(Slots(tokens), params).Some? && Mark !in tokens
    ensures BindMarks(Marked(tokens), Apply(Slots(tokens), params).value) == BindNumbers(tokens, params)
    decreases |tokens|
  {
    hide BindMarks;
    if tokens == [] {
      NothingBinds<V>();
    } else {
      var rest := tokens[1..];
      if tokens[0].Param? {
        assert Slots(tokens) == [tokens[0].index] + Slots(rest);
        assert Slots(tokens)[1..] == Slots(rest);
        MarkBinds(Marked(rest), params[tokens[0].index - 1], Apply(Slots(rest), params).value);
      } else {
        assert Slots(tokens) == [] + Slots(rest) == Slots(rest);
        assert tokens[0].Text?;
        TextBinds(tokens[0].s, Marked(rest), Apply(Slots(rest), params).value);
      }
      BindingsAgree(rest, params);
    }
  }

  lemma NothingBinds<V>()
    ensures BindMarks<V>([], []) == Some([])
  {
  }

  /** Conversion fails exactly when a placeholder in the statement has no value. Otherwise the
      converted statement with its parameters reads as the numbered one with its own, exactly
      when the statement had no bare question mark. */
  lemma ConversionKeepsMeaning<V>(sql: string, params: seq<V>)
    ensures var tokens := Lex(sql, Plain);
            && (Apply(Slots(tokens), params).None?
                <==> exists t | t in tokens :: t.Param? && !(1 <= t.index <= |params|))
            && (Apply(Slots(tokens), params).None? <==> BindNumbers(tokens, params).None?)
            && (Apply(Slots(tokens), params).Some? ==>
                  var values := Apply(Slots(tokens), params).value;
                  BindMarks(Lex(Out(tokens), Plain), values) == BindNumbers(tokens, params) <==> Mark !in tokens)
  {
    hide Lex;
    var tokens := Lex(sql, Plain);
    ApplyFails(tokens, params);
    ReadBack(sql, Plain);
    if Apply(Slots(tokens), params).Some? {
      var values := Apply(Slots(tokens), params).value;
      MarksAndSlots(tokens, params);
      if Mark !in tokens {
        BindingsAgree(tokens, params);
      } else if BindMarks(Marked(tokens), values).Some? {
        AsManyValuesAsMarks(Marked(tokens), values);
      }
    }
  }

  // ----- The converter as it runs -----

  datatype Plan = Plan(sql: string, slots: seq<nat>)

  ghost predicate HasNumbered(sql: string) {
    exists i :: 0 <= i <= |sql| && IsParam(sql[i..])
  }

  ghost function PlanOf(sql: string): Plan {
    Plan(Out(Lex(sql, Plain)), Slots(Lex(sql, Plain)))
  }

  lemma {:induction false} Took(text: string, mode: Mode, out: string, slots: seq<nat>)
    requires text != []
    ensures var (token, n, next) := Next(text, mode);
            && out + Out(Lex(text, mode)) == out + Show(token) + Out(Lex(text[n..], next))
            && slots + Slots(Lex(text, mode))
               == slots + (if token.Param? then [token.index] else []) + Slots(Lex(text[n..], next))
  {
    hide Next, Show;
    var (token, n, next) := Next(text, mode);
    assert Lex(text, mode)[1..] == Lex(text[n..], next);
  }

  method ScanDollarQuoted(sql: string, start: nat) returns (end: int)
    requires start < |sql| && sql[start] == '$'
    ensures end == if DollarEnd(sql[start..]) < 0 then -1 else start + DollarEnd(sql[start..])
  {
    hide IndexOf;
    var k := IndexOf(sql[start + 1..], "$");
    assert sql[start..][1..] == sql[start + 1..];
    if k < 0 { return -1; }
    var tagEnd := start + 1 + k;
    var tag := sql[start + 1..tagEnd];
    assert sql[start..][1..1 + k] == tag;
    if !(forall c | c in tag :: IsTagChar(c)) { return -1; }
    var closing := IndexOf(sql[tagEnd + 1..], Delimiter(tag));
    assert sql[start..][|tag| + 2..] == sql[tagEnd + 1..];
    if closing < 0 { return -1; }
    return tagEnd + 1 + closing + |tag| + 2;
  }

  method HasPlaceholder(sql: string) returns (found: bool)
    ensures found <==> HasNumbered(sql)
  {
    for i := 0 to |sql|
      invariant forall k | 0 <= k < i :: !IsParam(sql[k..])
    {
      if sql[i] == '$' && i + 1 < |sql| && IsDigit(sql[i + 1]) {
        assert IsParam(sql[i..]);
        return true;
      }
    }
    return false;
  }

  method TakeDigits(sql: string, i: nat) returns (j: nat)
    requires i <= |sql|
    ensures i <= j <= |sql| && j == i + Digits(sql[i..])
  {
    j := i;
    while j < |sql| && IsDigit(sql[j])
      invariant i <= j <= |sql|
      invariant i + Digits(sql[i..]) == j + Digits(sql[j..])
    {
      assert sql[j..][1..] == sql[j + 1..];
      j := j + 1;
    }
  }

  /** The plan so far, when the loop stands at `i`. */
  ghost predicate Planned(sql: string, i: nat, mode: Mode, out: string, slots: seq<nat>)
    requires i <= |sql|
  {
    PlanOf(sql) == Plan(out + Out(Lex(sql[i..], mode)), slots + Slots(Lex(sql[i..], mode)))
  }

  /** What one turn of the loop has to take. */
  ghost predicate IsTurn(sql: string, i: nat, mode: Mode, n: nat, after: Mode, converted: bool)
    requires i < |sql|
  {
    var text := sql[i..];
    if mode.Plain? && text[0] == '$' && DollarEnd(text) >= 0 then n == DollarEnd(text) && after == Plain && !converted
    else if mode.Plain? && IsParam(text) then n == Digits(text[1..]) + 1 && after == Plain && converted
    else (n, after) == Step(mode, text, false) && !converted
  }

  lemma {:induction false} TurnIsNext(sql: string, i: nat, mode: Mode, n: nat, after: Mode, converted: bool)
    requires i < |sql| && i + n <= |sql| && IsTurn(sql, i, mode, n, after, converted)
    ensures n >= 1 && (converted ==> forall c | c in sql[i + 1..i + n] :: IsDigit(c))
    ensures var r := Next(sql[i..], mode);
            && r.1 == n && r.2 == after && r.0.Param? == converted
            && (converted ==> r.0.index == Number(sql[i + 1..i + n]))
            && Show(r.0) == (if converted then "?" else sql[i..i + n])
  {
    hide DollarEnd;
    var text := sql[i..];
    assert text[..n] == sql[i..i + n];
    if converted {
      assert text[1..1 + Digits(text[1..])] == sql[i + 1..i + n];
    }
    assert text[..1] == [text[0]];
  }

  lemma {:induction false} Turned(sql: string, i: nat, mode: Mode, n: nat, after: Mode, converted: bool,
                                  out: string, slots: seq<nat>)
    requires i < |sql| && i + n <= |sql| && IsTurn(sql, i, mode, n, after, converted)
    requires Planned(sql, i, mode, out, slots)
    ensures n >= 1 && (converted ==> forall c | c in sql[i + 1..i + n] :: IsDigit(c))
    ensures Planned(sql, i + n, after,
                    out + (if converted then "?" else sql[i..i + n]),
                    slots + if converted then [Number(sql[i + 1..i + n])] else [])
  {
    TurnIsNext(sql, i, mode, n, after, converted);
    hide Next, Show, IsTurn, Lex, PlanOf, Out, Slots;
    Took(sql[i..], mode, out, slots);
    assert sql[i..][n..] == sql[i + n..];
  }

  lemma {:induction false} PlanBegins(sql: string)
    ensures Planned(sql, 0, Plain, [], [])
  {
    assert sql[0..] == sql;
  }

  lemma {:induction false} PlanDone(sql: string, mode: Mode, out: string, slots: seq<nat>)
    requires Planned(sql, |sql|, mode, out, slots)
    ensures PlanOf(sql) == Plan(out, slots)
  {
    assert out + [] == out && slots + [] == slots;
  }

  method PlanNumberedToPositional(sql: string) returns (plan: Option<Plan>)
    ensures plan == if HasNumbered(sql) then Some(PlanOf(sql)) else None
  {
    hide DollarEnd, Planned, PlanOf, Number;
    var found := HasPlaceholder(sql);
    if !found { return None; }
    PlanBegins(sql);
    var out: string, slots: seq<nat> := "", [];
    var inSingle, inDouble, inBacktick, inLineComment, inBlockComment := false, false, false, false, false;
    var i := 0;
    while i < |sql|
      invariant 0 <= i <= |sql|
      invariant AtMostOne(inSingle, inDouble, inBacktick, inLineComment, inBlockComment)
      invariant Planned(sql, i, ModeOf(inSingle, inDouble, inBacktick, inLineComment, inBlockComment), out, slots)
    {
      var ch := sql[i];
      ghost var mode := ModeOf(inSingle, inDouble, inBacktick, inLineComment, inBlockComment);
      var n, converted := 1, false;
      if inLineComment {
        inLineComment := ch != '\n';
      } else if inBlockComment {
        if ch == '*' && i + 1 < |sql| && sql[i + 1] == '/' {
          n, inBlockComment := 2, false;
        }
      } else if inSingle {
        n, inSingle := TakeQuoted(sql, i, '\'', false);
      } else if inDouble {
        n, inDouble := TakeQuoted(sql, i, '"', false);
      } else if inBacktick {
        n, inBacktick := TakeQuoted(sql, i, '`', false);
      } else if ch == '-' && i + 1 < |sql| && sql[i + 1] == '-' {
        inLineComment := true;
      } else if ch == '/' && i + 1 < |sql| && sql[i + 1] == '*' {
        inBlockComment := true;
      } else if ch == '\'' {
        inSingle := true;
      } else if ch == '"' {
        inDouble := true;
      } else if ch == '`' {
        inBacktick := true;
      } else if ch == '$' {
        var end := ScanDollarQuoted(sql, i);
        if end != -1 {
          n := end - i;
        } else if i + 1 < |sql| && IsDigit(sql[i + 1]) {
          var j := TakeDigits(sql, i + 1);
          n, converted := j - i, true;
        }
      }
      ghost var after := ModeOf(inSingle, inDouble, inBacktick, inLineComment, inBlockComment);
      assert i + 1 < |sql| ==> sql[i..][1] == sql[i + 1];
      assert sql[i..][1..] == sql[i + 1..];
      assert IsTurn(sql, i, mode, n, after, converted);
      Turned(sql, i, mode, n, after, converted, out, slots);
      if converted {
        out, slots := out + "?", slots + [Number(sql[i + 1..i + n])];
      } else {
        out := out + sql[i..i + n];
      }
      assert slots + [] == slots;
      i := i + n;
    }
    PlanDone(sql, ModeOf(inSingle, inDouble, inBacktick, inLineComment, inBlockComment), out, slots);
    plan := Some(Plan(out, slots));
  }

  lemma {:induction false} NoneInRest(text: string, n: nat)
    requires n <= |text| && !HasNumbered(text)
    ensures !HasNumbered(text[n..])
  {
    forall i | 0 <= i <= |text| - n ensures !IsParam(text[n..][i..]) {
      assert text[n..][i..] == text[n + i..];
    }
  }

  lemma {:induction false} NextIsNoParam(text: string, mode: Mode)
    requires text != [] && !HasNumbered(text)
    ensures !Next(text, mode).0.Param? && Show(Next(text, mode).0) == text[..Next(text, mode).1]
  {
    hide Step, DollarEnd;
    assert text[0..] == text;
    assert !IsParam(text);
    assert text[..1] == [text[0]];
  }

  lemma {:induction false} NothingToConvert(text: string, mode: Mode)
    requires !HasNumbered(text)
    ensures Out(Lex(text, mode)) == text && Slots(Lex(text, mode)) == []
    decreases |text|
  {
    hide Next, HasNumbered;
    if text != [] {
      var (token, n, next) := Next(text, mode);
      NextIsNoParam(text, mode);
      NoneInRest(text, n);
      NothingToConvert(text[n..], next);
      assert Lex(text, mode)[1..] == Lex(text[n..], next);
      assert text == text[..n] + text[n..];
    }
  }

  /** What a conversion has to give, cache or no cache: the converted statement and its
      parameters, or None for a placeholder without a value. */
  ghost function Conversion<V>(sql: string, params: seq<V>): Option<(string, seq<V>)> {
    if !HasNumbered(sql) then Some((sql, params))
    else match Apply(PlanOf(sql).slots, params)
         case None => None
         case Some(values) => Some((PlanOf(sql).sql, values))
  }

  lemma {:induction false} ApplyAt<V>(slots: seq<nat>, params: seq<V>)
    ensures match Apply(slots, params)
            case None => exists i :: 0 <= i < |slots| && !(1 <= slots[i] <= |params|)
            case Some(values) =>
              && |values| == |slots|
              && forall i | 0 <= i < |slots| :: 1 <= slots[i] <= |params| && values[i] == params[slots[i] - 1]
  {
    if slots != [] {
      ApplyAt(slots[1..], params);
      if Apply(slots[1..], params).None? && 1 <= slots[0] <= |params| {
        var i :| 0 <= i < |slots[1..]| && !(1 <= slots[1..][i] <= |params|);
        assert slots[i + 1] == slots[1..][i];
      }
    }
  }

  /** A written statement is converted to the same words with question marks, each of them bound to
      the parameter whose number stood there, and refused exactly when there is no such parameter. */
  lemma {:induction false} NumeralsConvert<V>(pieces: seq<Piece>, params: seq<V>)
    requires IsWritten(pieces) && Numbers(pieces) != []
    ensures var numbers := Numbers(pieces);
            match Conversion(Numerals(pieces), params)
            case None => exists i :: 0 <= i < |numbers| && !(1 <= numbers[i] <= |params|)
            case Some((sql, values)) =>
              && sql == QuestionMarks(pieces) && |values| == |numbers|
              && forall i | 0 <= i < |numbers| :: 1 <= numbers[i] <= |params| && values[i] == params[numbers[i] - 1]
  {
    hide Lex, HasNumbered;
    NumbersAreRead(pieces);
    if !HasNumbered(Numerals(pieces)) {
      NothingToConvert(Numerals(pieces), Plain);
    }
    ApplyAt(Numbers(pieces), params);
  }

  /** Without a placeholder the scan would write the statement as it stands and fill no slot. The
      shortcut around the scan passes the parameters on, so it agrees when there are none. */
  lemma {:induction false} ShortcutIsScan<V>(sql: string, params: seq<V>)
    requires !HasNumbered(sql)
    ensures PlanOf(sql) == Plan(sql, [])
    ensures Conversion(sql, params) == Some((PlanOf(sql).sql, [])) <==> params == []
  {
    NothingToConvert(sql, Plain);
  }

  /** The plan cache: a map that forgets its oldest key when it is full. */
  class PlanCache {
    var plans: map<string, Plan>
    var order: seq<string>
    const maxSize := 1000

    ghost predicate Valid()
      reads this
    {
      && |order| <= maxSize
      && (forall sql | sql in plans :: sql in order && HasNumbered(sql) && plans[sql] == PlanOf(sql))
      && (forall sql | sql in order :: sql in plans)
      && (forall i, j | 0 <= i < j < |order| :: order[i] != order[j])
    }

    constructor ()
      ensures Valid() && plans == map[]
    {
      plans, order := map[], [];
    }

    method Set(sql: string, plan: Plan)
      requires Valid() && HasNumbered(sql) && plan == PlanOf(sql)
      modifies this
      ensures Valid() && sql in plans && plans[sql] == plan
      ensures forall s | s in plans :: s == sql || (s in old(plans) && plans[s] == old(plans[s]))
      ensures forall s | s in old(plans) && s !in plans ::
                sql !in old(plans) && |old(order)| == maxSize && s == old(order[0])
    {
      hide HasNumbered, PlanOf;
      if sql !in plans && |order| >= maxSize {
        plans, order := plans - {order[0]}, order[1..];
      }
      if sql !in plans {
        order := order + [sql];
      }
      plans := plans[sql := plan];
    }

    method Get(sql: string) returns (plan: Option<Plan>)
      requires Valid()
      modifies this
      ensures Valid()
      ensures plan == if HasNumbered(sql) then Some(PlanOf(sql)) else None
    {
      hide HasNumbered, PlanOf;
      var found := HasPlaceholder(sql);
      if !found { return None; }
      if sql in plans { return Some(plans[sql]); }
      plan := PlanNumberedToPositional(sql);
      if plan.Some? {
        Set(sql, plan.value);
      }
    }

    /** Whatever the cache holds, the conversion is the one without a cache. */
    method ConvertNumberedToPositional<V>(sql: string, params: seq<V>) returns (r: Option<(string, seq<V>)>)
      requires Valid()
      modifies this
      ensures Valid() && r == Conversion(sql, params)
    {
      hide HasNumbered, PlanOf;
      var plan := Get(sql);
      match plan
      case None => r := Some((sql, params));
      case Some(p) =>
        var values := Apply(p.slots, params);
        match values
        case None => r := None;
        case Some(v) => r := Some((p.sql, v));
    }
  }
}
