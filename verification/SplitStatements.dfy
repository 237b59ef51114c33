/** The splitter that cuts a SQL script at its top-level semicolons, and which written migration
    files it takes apart again. */
module SplitStatements {
  import opened SqlScan

  // ----- Where the scanner cuts -----

  /** A position further along, when there is one. */
  function Later(k: int, n: nat): int {
    if k < 0 then -1 else k + n
  }

  /** Where the first semicolon outside quotes and comments stands, or -1. */
  function FirstCut(text: string, mode: Mode, backslash: bool): (k: int)
    ensures -1 <= k < |text|
    ensures k >= 0 ==> text[k] == ';'
    decreases |text|
  {
    if text == [] then -1
    else if mode.Plain? && text[0] == ';' then 0
    else
      var (n, next) := Step(mode, text, backslash);
      Later(FirstCut(text[n..], next, backslash), n)
  }

  /** The white space that trimming removes in ECMAScript. */
  predicate IsSpace(c: char) {
    || '\t' <= c <= '\r' || c == ' ' || c == '\U{00A0}' || c == '\U{1680}' || '\U{2000}' <= c <= '\U{200A}'
    || c == '\U{2028}' || c == '\U{2029}' || c == '\U{202F}' || c == '\U{205F}' || c == '\U{3000}' || c == '\U{FEFF}'
  }

  function TrimStart(s: string): string {
    if s != [] && IsSpace(s[0]) then TrimStart(s[1..]) else s
  }

  function TrimEnd(s: string): (t: string)
    ensures |t| <= |s| && t == s[..|t|]
    ensures forall k | |t| <= k < |s| :: IsSpace(s[k])
    ensures t != [] ==> !IsSpace(t[|t| - 1])
  {
    if s != [] && IsSpace(s[|s| - 1]) then TrimEnd(s[..|s| - 1]) else s
  }

  function Trim(s: string): string {
    TrimEnd(TrimStart(s))
  }

  predicate IsTrimmed(s: string) {
    s != [] && !IsSpace(s[0]) && !IsSpace(s[|s| - 1])
  }

  /** A segment between two cuts is kept trimmed, unless it is blank. */
  function Keep(segment: string): seq<string> {
    if |Trim(segment)| > 0 then [Trim(segment)] else []
  }

  /** What becomes of a script of which `current` was read since the last cut. */
  function PiecesFrom(current: string, mode: Mode, rest: string, backslash: bool): seq<string>
    decreases |rest|, 1
  {
    PiecesWithCut(current, FirstCut(rest, mode, backslash), rest, backslash)
  }

  function PiecesWithCut(current: string, k: int, rest: string, backslash: bool): seq<string>
    requires k < |rest|
    decreases |rest|, 0
  {
    if k < 0 then Keep(current + rest)
    else Keep(current + rest[..k]) + PiecesFrom([], Plain, rest[k + 1..], backslash)
  }

  function Pieces(script: string, backslash: bool): seq<string> {
    PiecesFrom([], Plain, script, backslash)
  }

  function Split(script: string, backslash: bool): seq<string> {
    var pieces := Pieces(script, backslash);
    if |pieces| > 0 then pieces else [script]
  }

  // ----- The scanner as the loop that runs -----

  lemma {:induction false} TakenFirst(current: string, read: string, left: string, k: int, backslash: bool)
    requires -1 <= k < |left|
    ensures PiecesWithCut(current, Later(k, |read|), read + left, backslash)
            == PiecesWithCut(current + read, k, left, backslash)
  {
    hide Keep, PiecesFrom;
    if k < 0 {
      assert current + (read + left) == current + read + left;
    } else {
      assert (read + left)[..k + |read|] == read + left[..k];
      assert current + (read + left[..k]) == current + read + left[..k];
      assert (read + left)[k + |read| + 1..] == left[k + 1..];
    }
  }

  lemma {:induction false} Take(current: string, mode: Mode, rest: string, backslash: bool)
    requires rest != [] && !(mode.Plain? && rest[0] == ';')
    ensures var (n, next) := Step(mode, rest, backslash);
            PiecesFrom(current, mode, rest, backslash)
            == PiecesFrom(current + rest[..n], next, rest[n..], backslash)
  {
    hide Step, Keep, PiecesWithCut;
    var (n, next) := Step(mode, rest, backslash);
    assert rest == rest[..n] + rest[n..];
    TakenFirst(current, rest[..n], rest[n..], FirstCut(rest[n..], next, backslash), backslash);
  }

  lemma {:induction false} Cut(current: string, rest: string, backslash: bool)
    requires rest != [] && rest[0] == ';'
    ensures PiecesFrom(current, Plain, rest, backslash) == Keep(current) + PiecesFrom([], Plain, rest[1..], backslash)
  {
    hide Keep;
    assert current + rest[..0] == current;
  }

  lemma {:induction false} AtEnd(current: string, mode: Mode, backslash: bool)
    ensures PiecesFrom(current, mode, [], backslash) == Keep(current)
  {
    hide Keep;
    assert current + [] == current;
  }

  /** What the loop has found when it stands at `i`. */
  ghost predicate Found(sql: string, i: nat, mode: Mode, current: string, statements: seq<string>, backslash: bool)
    requires i <= |sql|
  {
    Pieces(sql, backslash) == statements + PiecesFrom(current, mode, sql[i..], backslash)
  }

  lemma {:induction false} FoundNothing(sql: string, backslash: bool)
    ensures Found(sql, 0, Plain, [], [], backslash)
  {
    hide PiecesFrom;
    assert sql[0..] == sql;
  }

  lemma {:induction false} FoundOn(sql: string, i: nat, mode: Mode, n: nat, next: Mode, current: string,
                                   statements: seq<string>, backslash: bool)
    requires i < |sql| && Found(sql, i, mode, current, statements, backslash)
    requires !(mode.Plain? && sql[i] == ';') && Step(mode, sql[i..], backslash) == (n, next)
    ensures i + n <= |sql| && Found(sql, i + n, next, current + sql[i..i + n], statements, backslash)
  {
    hide PiecesFrom, Step;
    Take(current, mode, sql[i..], backslash);
    assert sql[i..][..n] == sql[i..i + n] && sql[i..][n..] == sql[i + n..];
  }

  lemma {:induction false} FoundPiece(sql: string, i: nat, current: string, statements: seq<string>, backslash: bool)
    requires i < |sql| && sql[i] == ';' && Found(sql, i, Plain, current, statements, backslash)
    ensures Found(sql, i + 1, Plain, [], statements + Keep(current), backslash)
  {
    hide PiecesFrom, Keep;
    Cut(current, sql[i..], backslash);
    assert sql[i..][1..] == sql[i + 1..];
    var later := PiecesFrom([], Plain, sql[i + 1..], backslash);
    assert statements + (Keep(current) + later) == statements + Keep(current) + later;
  }

  lemma {:induction false} FoundAll(sql: string, mode: Mode, current: string, statements: seq<string>, backslash: bool)
    requires Found(sql, |sql|, mode, current, statements, backslash)
    ensures Pieces(sql, backslash) == statements + Keep(current)
  {
    hide PiecesFrom, Keep;
    assert sql[|sql|..] == [];
    AtEnd(current, mode, backslash);
  }

  method SplitStatements(sql: string, backslash: bool) returns (statements: seq<string>)
    ensures statements == Split(sql, backslash)
  {
    hide Trim, Pieces, Found;
    FoundNothing(sql, backslash);
    statements := [];
    var current := "";
    var inSingle, inDouble, inBacktick, inLineComment, inBlockComment := false, false, false, false, false;
    var i := 0;
    while i < |sql|
      invariant 0 <= i <= |sql|
      invariant AtMostOne(inSingle, inDouble, inBacktick, inLineComment, inBlockComment)
      invariant Found(sql, i, ModeOf(inSingle, inDouble, inBacktick, inLineComment, inBlockComment),
                      current, statements, backslash)
    {
      var ch := sql[i];
      ghost var mode := ModeOf(inSingle, inDouble, inBacktick, inLineComment, inBlockComment);
      var n := 1;
      if inLineComment {
        inLineComment := ch != '\n';
      } else if inBlockComment {
        if ch == '*' && i + 1 < |sql| && sql[i + 1] == '/' {
          n, inBlockComment := 2, false;
        }
      } else if inSingle {
        n, inSingle := TakeQuoted(sql, i, '\'', backslash);
      } else if inDouble {
        n, inDouble := TakeQuoted(sql, i, '"', backslash);
      } else if inBacktick {
        n, inBacktick := TakeQuoted(sql, i, '`', backslash);
      } else if ch == '-' && i + 1 < |sql| && sql[i + 1] == '-' {
        inLineComment := true;
      } else if ch == '/' && i + 1 < |sql| && sql[i + 1] == '*' {
        inBlockComment := true;
      } else if ch == '\'' {
        inSingle := true;
      } else if ch == '"' {
        inDouble := true;
      } else if ch == '`' {
        inBacktick := true;
      } else if ch == ';' {
        FoundPiece(sql, i, current, statements, backslash);
        assert statements + [] == statements;
        if |Trim(current)| > 0 {
          statements := statements + [Trim(current)];
        }
        current := "";
        i := i + 1;
        continue;
      }
      assert i + 1 < |sql| ==> sql[i..][1] == sql[i + 1];
      FoundOn(sql, i, mode, n, ModeOf(inSingle, inDouble, inBacktick, inLineComment, inBlockComment),
              current, statements, backslash);
      current := current + sql[i..i + n];
      i := i + n;
    }
    FoundAll(sql, ModeOf(inSingle, inDouble, inBacktick, inLineComment, inBlockComment), current, statements,
        backslash);
    assert statements + [] == statements;
    if |Trim(current)| > 0 {
      statements := statements + [Trim(current)];
    }
    if |statements| == 0 {
      statements := [sql];
    }
  }

  // ----- The splitter undoes the migration file writer -----

  /** The file that holds these texts, as they were emitted, with blank lines between them. */
  function Joined(texts: seq<string>): string {
    if texts == [] then []
    else if |texts| == 1 then texts[0]
    else texts[0] + "\n\n" + Joined(texts[1..])
  }

  predicate EndsInSemicolon(text: string) {
    text != [] && text[|text| - 1] == ';'
  }

  /** A text without the semicolon at its end, if it has one there. */
  function Bare(text: string): string {
    if EndsInSemicolon(text) then text[..|text| - 1] else text
  }

  function Bares(texts: seq<string>): (r: seq<string>)
    ensures |r| == |texts| && forall i | 0 <= i < |r| :: r[i] == Bare(texts[i])
  {
    if texts == [] then [] else [Bare(texts[0])] + Bares(texts[1..])
  }

  /** The scanner first cuts right after the statement, at the semicolon that ends it. */
  predicate IsClosed(s: string, backslash: bool) {
    FirstCut(s + [';'], Plain, backslash) == |s|
  }

  predicate IsStatement(s: string, backslash: bool) {
    IsTrimmed(s) && IsClosed(s, backslash)
  }

  /** A statement with the one semicolon of its top level at its end. */
  predicate IsTerminated(text: string, backslash: bool) {
    EndsInSemicolon(text) && IsStatement(Bare(text), backslash)
  }

  /** A statement without any semicolon at its top level or at its end. */
  predicate IsUnterminated(text: string, backslash: bool) {
    !EndsInSemicolon(text) && IsTrimmed(text) && FirstCut(text, Plain, backslash) == -1
  }

  /** Each text is a statement with its semicolon; the last may do without. */
  predicate AllTerminated(texts: seq<string>, backslash: bool) {
    if texts == [] then true
    else if |texts| == 1 then IsTerminated(texts[0], backslash) || IsUnterminated(texts[0], backslash)
    else IsTerminated(texts[0], backslash) && AllTerminated(texts[1..], backslash)
  }

  lemma {:induction false} StepInPrefix(mode: Mode, t: string, u: string, backslash: bool)
    requires |t| > 1
    ensures Step(mode, t + u, backslash) == Step(mode, t, backslash)
  {
  }

  /** A cut depends on nothing after it. */
  lemma {:induction false} CutInPrefix(t: string, u: string, mode: Mode, backslash: bool, k: nat)
    requires k < |t|
    ensures FirstCut(t + u, mode, backslash) == k <==> FirstCut(t, mode, backslash) == k
    decreases |t|
  {
    hide Step;
    if mode.Plain? && t[0] == ';' {
    } else if |t| > 1 {
      StepInPrefix(mode, t, u, backslash);
      var (n, next) := Step(mode, t, backslash);
      assert (t + u)[n..] == t[n..] + u;
      if k >= n {
        CutInPrefix(t[n..], u, next, backslash, k - n);
      }
      LaterIs(FirstCut(t[n..], next, backslash), n, k);
      LaterIs(FirstCut(t[n..] + u, next, backslash), n, k);
    }
  }

  lemma LaterIs(k: int, n: nat, m: nat)
    requires k >= -1
    ensures Later(k, n) == m <==> m >= n && k == m - n
  {
  }

  lemma {:induction false} TrimStartAt(s: string) returns (j: nat)
    ensures j <= |s| && TrimStart(s) == s[j..]
    ensures forall i | 0 <= i < j :: IsSpace(s[i])
    ensures j < |s| ==> !IsSpace(s[j])
  {
    hide IsSpace;
    j := 0;
    if s != [] && IsSpace(s[0]) {
      var i := TrimStartAt(s[1..]);
      j := i + 1;
      assert s[1..][i..] == s[j..];
    }
  }

  lemma {:induction false} TrimIsTrimmed(s: string)
    ensures Trim(s) != [] ==> IsTrimmed(Trim(s))
  {
    hide IsSpace;
    var j := TrimStartAt(s);
    if Trim(s) != [] {
      assert Trim(s)[0] == TrimStart(s)[0];
    }
  }

  /** Trimming text that does not start blank only takes blanks off its end. */
  lemma {:induction false} TrimOfTight(s: string)
    requires s != [] && !IsSpace(s[0])
    ensures Trim(s) == TrimEnd(s) && Trim(s) != []
  {
    hide IsSpace;
  }

  lemma {:induction false} PiecesAt(text: string, backslash: bool)
    ensures var k := FirstCut(text, Plain, backslash);
            Pieces(text, backslash)
            == if k < 0 then Keep(text) else Keep(text[..k]) + Pieces(text[k + 1..], backslash)
  {
    hide Keep, FirstCut;
    var k := FirstCut(text, Plain, backslash);
    assert Pieces(text, backslash) == PiecesWithCut([], k, text, backslash);
    hide PiecesFrom;
    if k < 0 {
      assert [] + text == text;
    } else {
      assert [] + text[..k] == text[..k];
    }
  }

  lemma {:induction false} KeepAfterBlank(c: char, s: string)
    requires IsSpace(c)
    ensures Keep([c] + s) == Keep(s)
  {
    hide IsSpace, TrimEnd;
    assert ([c] + s)[1..] == s;
    assert TrimStart([c] + s) == TrimStart(s);
  }

  /** A blank in front of a script changes nothing. */
  lemma {:induction false} LeadingBlank(c: char, t: string, backslash: bool)
    requires IsSpace(c)
    ensures Pieces([c] + t, backslash) == Pieces(t, backslash)
  {
    assert Step(Plain, [c] + t, backslash) == (1, Plain) && c != ';';
    Take([], Plain, [c] + t, backslash);
    hide IsSpace, FirstCut, Keep, Step;
    assert [] + ([c] + t)[..1] == [c] && ([c] + t)[1..] == t;
    var k := FirstCut(t, Plain, backslash);
    KeepAfterBlank(c, if k < 0 then t else t[..k]);
    PiecesAt(t, backslash);
  }

  /** No piece is blank at either end, and none begins with a semicolon. */
  ghost predicate IsPiece(p: string) {
    IsTrimmed(p) && p[0] != ';'
  }

  lemma {:induction false} CutAfterBlanks(t: string, j: nat, backslash: bool)
    requires j < |t| && t[j] == ';' && forall i | 0 <= i < j :: IsSpace(t[i])
    ensures FirstCut(t, Plain, backslash) == j
  {
    if j > 0 {
      assert IsSpace(t[0]);
      CutAfterBlanks(t[1..], j - 1, backslash);
    }
  }

  lemma {:induction false} SegmentIsPiece(rest: string, k: nat, backslash: bool)
    requires k <= |rest| && (FirstCut(rest, Plain, backslash) == if k < |rest| then k else -1)
    ensures Trim(rest[..k]) != [] ==> IsPiece(Trim(rest[..k]))
  {
    hide IsSpace, FirstCut, TrimEnd;
    var segment := rest[..k];
    var j := TrimStartAt(segment);
    TrimIsTrimmed(segment);
    if Trim(segment) != [] {
      assert Trim(segment)[0] == segment[j] == rest[j];
      if rest[j] == ';' {
        CutAfterBlanks(rest, j, backslash);
      }
    }
  }

  lemma {:induction false} AllPieces(rest: string, backslash: bool)
    ensures forall p | p in Pieces(rest, backslash) :: IsPiece(p)
    decreases |rest|
  {
    hide IsPiece, FirstCut, Trim, Pieces;
    var k := FirstCut(rest, Plain, backslash);
    PiecesAt(rest, backslash);
    if k < 0 {
      assert rest[..|rest|] == rest;
      SegmentIsPiece(rest, |rest|, backslash);
    } else {
      SegmentIsPiece(rest, k, backslash);
      AllPieces(rest[k + 1..], backslash);
    }
  }

  /** A closed statement in front of anything is the first piece. */
  lemma {:induction false} StatementFirst(s: string, u: string, backslash: bool)
    requires IsStatement(s, backslash)
    ensures Pieces(s + [';'] + u, backslash) == [s] + Pieces(u, backslash)
  {
    CutInPrefix(s + [';'], u, Plain, backslash, |s|);
    hide FirstCut, IsSpace, Pieces;
    var text := s + [';'] + u;
    PiecesAt(text, backslash);
    assert text[..|s|] == s && text[|s| + 1..] == u;
    TrimOfTight(s);
    assert TrimEnd(s) == s;
  }

  /** The first piece of a text that starts neither blank nor with a semicolon. */
  lemma {:induction false} FirstPiece(text: string, backslash: bool) returns (k: nat)
    requires text != [] && !IsSpace(text[0]) && text[0] != ';'
    ensures 0 < k <= |text| && (FirstCut(text, Plain, backslash) == if k < |text| then k else -1)
    ensures Pieces(text, backslash) != [] && Pieces(text, backslash)[0] == TrimEnd(text[..k])
  {
    hide FirstCut, IsSpace, TrimEnd, PiecesFrom;
    var cut := FirstCut(text, Plain, backslash);
    k := if cut < 0 then |text| else cut;
    assert text[..|text|] == text;
    PiecesAt(text, backslash);
    TrimOfTight(text[..k]);
    assert Keep(text[..k]) == [TrimEnd(text[..k])];
  }

  lemma {:induction false} BlanksCutOff(text: string, k: nat, n: nat)
    requires n < |text| && text[n] == ';' && k <= |text|
    requires TrimEnd(text[..k]) == text[..n]
    ensures k == n
  {
    assert !IsSpace(text[n]);
  }

  /** When the first piece is the text before a semicolon, the scanner cut at that semicolon. */
  lemma {:induction false} FirstPieceCloses(s: string, u: string, backslash: bool)
    requires var pieces := Pieces(s + [';'] + u, backslash); pieces != [] && pieces[0] == s
    ensures IsStatement(s, backslash)
  {
    hide PiecesFrom, FirstCut, IsSpace, TrimEnd;
    var text := s + [';'] + u;
    AllPieces(text, backslash);
    assert IsPiece(s);
    assert text[0] == s[0];
    var k := FirstPiece(text, backslash);
    assert text[..|s|] == s;
    BlanksCutOff(text, k, |s|);
    CutInPrefix(s + [';'], u, Plain, backslash, |s|);
  }

  lemma {:induction false} BlankLine(u: string, backslash: bool)
    ensures Pieces("\n\n" + u, backslash) == Pieces(u, backslash)
  {
    hide PiecesFrom;
    LeadingBlank('\n', u, backslash);
    LeadingBlank('\n', ['\n'] + u, backslash);
    assert "\n\n" + u == ['\n'] + (['\n'] + u);
  }

  lemma {:induction false} PiecesOfBlank(backslash: bool)
    ensures Pieces([], backslash) == []
  {
    AtEnd([], Plain, backslash);
    assert Keep([]) == [];
  }

  /** A text that ends in a semicolon is the first piece exactly when that is its only one. */
  lemma {:induction false} TerminatedFirst(text: string, u: string, backslash: bool)
    requires EndsInSemicolon(text)
    ensures IsTerminated(text, backslash) ==> Pieces(text + u, backslash) == [Bare(text)] + Pieces(u, backslash)
    ensures var pieces := Pieces(text + u, backslash);
            pieces != [] && pieces[0] == Bare(text) ==> IsTerminated(text, backslash)
  {
    hide PiecesFrom, IsStatement, Pieces;
    var s := Bare(text);
    assert text == s + [';'];
    if IsStatement(s, backslash) {
      StatementFirst(s, u, backslash);
    }
    var pieces := Pieces(text + u, backslash);
    if pieces != [] && pieces[0] == s {
      FirstPieceCloses(s, u, backslash);
    }
  }

  lemma {:induction false} ShortPieces(rest: string, backslash: bool)
    ensures forall p | p in Pieces(rest, backslash) :: |p| <= |rest|
    decreases |rest|
  {
    hide FirstCut, Pieces, IsSpace;
    var k := FirstCut(rest, Plain, backslash);
    PiecesAt(rest, backslash);
    var first := if k < 0 then rest else rest[..k];
    var j := TrimStartAt(first);
    if k >= 0 {
      ShortPieces(rest[k + 1..], backslash);
    }
  }

  lemma {:induction false} TrimmedStays(text: string)
    ensures Trim(text) == text && text != [] <==> IsTrimmed(text)
  {
    hide IsSpace;
    if Trim(text) == text && text != [] {
      TrimIsTrimmed(text);
    }
    if IsTrimmed(text) {
      TrimOfTight(text);
    }
  }

  /** The last text is the one piece left exactly when nothing in it is cut. */
  lemma {:induction false} UnterminatedLast(text: string, backslash: bool)
    requires !EndsInSemicolon(text)
    ensures Pieces(text, backslash) == [text] <==> IsUnterminated(text, backslash)
  {
    hide FirstCut, Pieces, IsSpace, Trim;
    var k := FirstCut(text, Plain, backslash);
    PiecesAt(text, backslash);
    TrimmedStays(text);
    if k >= 0 && Pieces(text, backslash) == [text] {
      assert text in Keep(text[..k]) + Pieces(text[k + 1..], backslash);
      ShortPieces(text[k + 1..], backslash);
      TrimShort(text[..k]);
      assert false;
    }
  }

  lemma TrimShort(s: string)
    ensures |Trim(s)| <= |s|
  {
    var j := TrimStartAt(s);
  }

  /** Without its semicolon, a text is never the first piece before another one. */
  lemma {:induction false} MergesWithNext(text: string, next: string, u: string, backslash: bool)
    requires !EndsInSemicolon(text) && IsPiece(text) && IsPiece(Bare(next))
    ensures var pieces := Pieces(text + "\n\n" + (next + u), backslash); pieces != [] && pieces[0] != text
  {
    hide FirstCut, Pieces, TrimEnd;
    var script := text + "\n\n" + (next + u);
    assert script[0] == text[0];
    var k := FirstPiece(script, backslash);
    var n := |text|;
    assert script[n] == '\n' && script[n + 1] == '\n' && script[n + 2] == next[0];
    assert next[0] == Bare(next)[0];
  }

  lemma {:induction false} JoinedFirst(texts: seq<string>) returns (u: string)
    requires texts != []
    ensures Joined(texts) == texts[0] + u
    ensures |texts| > 1 ==> u == "\n\n" + Joined(texts[1..])
    ensures |texts| == 1 ==> u == []
  {
    u := if |texts| == 1 then [] else "\n\n" + Joined(texts[1..]);
  }

  lemma {:induction false} MergedRest(texts: seq<string>, backslash: bool)
    requires |texts| > 1 && !EndsInSemicolon(texts[0])
    ensures Pieces(Joined(texts), backslash) != Bares(texts)
  {
    hide Pieces, IsPiece;
    var script, bares := Joined(texts), Bares(texts);
    if Pieces(script, backslash) == bares {
      AllPieces(script, backslash);
      assert bares[0] == texts[0] && bares[0] in bares && bares[1] == Bare(texts[1]) && bares[1] in bares;
      var u := JoinedFirst(texts[1..]);
      MergesWithNext(texts[0], texts[1], u, backslash);
      assert false;
    }
  }

  lemma {:induction false} PiecesOfJoined(texts: seq<string>, backslash: bool)
    requires texts != []
    ensures Pieces(Joined(texts), backslash) == Bares(texts) <==> AllTerminated(texts, backslash)
    decreases |texts|
  {
    hide Pieces, IsTerminated, IsUnterminated, EndsInSemicolon, Bare;
    var text, script := texts[0], Joined(texts);
    var u := JoinedFirst(texts);
    assert Bares(texts) == [Bare(text)] + Bares(texts[1..]);
    TerminatedNeedsSemicolon(text, backslash);
    if EndsInSemicolon(text) {
      TerminatedFirst(text, u, backslash);
      if |texts| == 1 {
        PiecesOfBlank(backslash);
        assert [Bare(text)] + [] == [Bare(text)];
      } else {
        BlankLine(Joined(texts[1..]), backslash);
        PiecesOfJoined(texts[1..], backslash);
        var rest := Pieces(Joined(texts[1..]), backslash);
        assert ([Bare(text)] + rest)[1..] == rest && ([Bare(text)] + Bares(texts[1..]))[1..] == Bares(texts[1..]);
      }
    } else if |texts| == 1 {
      UnterminatedLast(text, backslash);
      assert script == text && Bares(texts) == [text] by { BareOf(text); }
    } else {
      MergedRest(texts, backslash);
    }
  }

  lemma BareOf(text: string)
    ensures !EndsInSemicolon(text) ==> Bare(text) == text
  {
  }

  lemma TerminatedNeedsSemicolon(text: string, backslash: bool)
    ensures IsTerminated(text, backslash) ==> EndsInSemicolon(text)
    ensures IsUnterminated(text, backslash) ==> !EndsInSemicolon(text)
  {
  }

  // ----- Scripts with nothing in them -----

  predicate IsVacant(text: string) {
    forall c | c in text :: IsSpace(c) || c == ';'
  }

  lemma {:induction false} TrimOfBlank(s: string)
    ensures Trim(s) == [] <==> forall c | c in s :: IsSpace(c)
  {
    hide IsSpace;
    var j := TrimStartAt(s);
    if j < |s| {
      assert s[j] in s && TrimStart(s)[0] == s[j];
    } else {
      assert s[j..] == [];
    }
  }

  lemma KeepsNothing(s: string)
    ensures Keep(s) == [] <==> forall c | c in s :: IsSpace(c)
  {
    hide IsSpace, Trim;
    TrimOfBlank(s);
  }

  /** No piece comes out exactly when there are only blanks and semicolons. */
  lemma {:induction false} NothingKept(text: string, backslash: bool)
    ensures Pieces(text, backslash) == [] <==> IsVacant(text)
    decreases |text|
  {
    hide Pieces, IsSpace, Keep;
    var k := FirstCut(text, Plain, backslash);
    PiecesAt(text, backslash);
    hide FirstCut;
    if k < 0 {
      KeepsNothing(text);
      if IsVacant(text) {
        NoCutNoSemicolon(text, backslash);
      }
    } else {
      KeepsNothing(text[..k]);
      NothingKept(text[k + 1..], backslash);
      assert text == text[..k] + [';'] + text[k + 1..];
      if IsVacant(text) {
        VacantFirst(text, backslash, k);
      }
    }
  }

  lemma {:induction false} FirstSemicolon(text: string) returns (j: nat)
    ensures j <= |text| && (forall i | 0 <= i < j :: text[i] != ';') && (j < |text| ==> text[j] == ';')
  {
    j := 0;
    if text != [] && text[0] != ';' {
      var i := FirstSemicolon(text[1..]);
      j := i + 1;
    }
  }

  lemma {:induction false} NoCutNoSemicolon(text: string, backslash: bool)
    requires IsVacant(text) && FirstCut(text, Plain, backslash) == -1
    ensures ';' !in text
  {
    hide FirstCut, IsSpace;
    var j := FirstSemicolon(text);
    if j < |text| {
      assert forall i | 0 <= i < j :: text[i] in text;
      CutAfterBlanks(text, j, backslash);
    }
  }

  lemma {:induction false} VacantFirst(text: string, backslash: bool, k: nat)
    requires IsVacant(text) && FirstCut(text, Plain, backslash) == k
    ensures k < |text| && forall c | c in text[..k] :: IsSpace(c)
  {
    hide FirstCut, IsSpace;
    var j := FirstSemicolon(text);
    assert forall i | 0 <= i < j :: text[i] in text;
    if j < |text| {
      CutAfterBlanks(text, j, backslash);
    }
  }

  /** Reading back a written migration file gives every text without its final semicolon exactly
      when each text is a trimmed statement whose only top-level semicolon stands at its end, which
      the last one may lack; or there is but one text, and nothing in it. */
  lemma {:induction false} SplitUndoesWrite(texts: seq<string>, backslash: bool)
    requires texts != []
    ensures Split(Joined(texts), backslash) == Bares(texts) <==>
            || AllTerminated(texts, backslash)
            || (|texts| == 1 && IsVacant(texts[0]) && !EndsInSemicolon(texts[0]))
  {
    hide Pieces, AllTerminated, IsVacant;
    PiecesOfJoined(texts, backslash);
    NothingKept(Joined(texts), backslash);
    if Pieces(Joined(texts), backslash) == [] {
      assert [Joined(texts)] == Bares(texts) <==> |texts| == 1 && texts[0] == Bare(texts[0]);
    } else if |texts| == 1 {
      assert !IsVacant(texts[0]);
    }
  }

  predicate IsFlat(c: char) {
    !IsQuote(c) && c != ';' && c != '-' && c != '/'
  }

  lemma {:induction false} FlatSkipped(t: string, u: string, backslash: bool)
    requires forall c | c in t :: IsFlat(c)
    ensures FirstCut(t + u, Plain, backslash) == Later(FirstCut(u, Plain, backslash), |t|)
    decreases |t|
  {
    if t == [] {
      assert t + u == u;
    } else {
      assert (t + u)[1..] == t[1..] + u && IsFlat(t[0]);
      FlatSkipped(t[1..], u, backslash);
    }
  }

  predicate IsFlatText(text: string) {
    text != [] && !IsSpace(text[0]) && forall c | c in text :: IsFlat(c)
  }

  /** Flat text without a blank at its start goes with the statement after it. */
  lemma {:induction false} FlatFront(front: string, s: string, backslash: bool)
    requires IsFlatText(front) && IsStatement(s, backslash)
    ensures IsStatement(front + s, backslash)
  {
    FlatSkipped(front, s + [';'], backslash);
    hide FirstCut, IsSpace, IsFlat;
    assert front + s + [';'] == front + (s + [';']);
  }

  lemma FlatWithBlankLine(text: string)
    requires IsFlatText(text)
    ensures IsFlatText(text + "\n\n") && !EndsInSemicolon(text)
  {
    hide IsSpace;
    assert text[|text| - 1] in text;
  }

  /** A flat text has no semicolon: with the statement after it, it comes back as one. */
  lemma {:induction false} MergesWithStatement(texts: seq<string>, backslash: bool)
    requires |texts| > 1 && IsFlatText(texts[0]) && IsTerminated(texts[1], backslash)
    ensures Split(Joined(texts), backslash) != Bares(texts)
    ensures Split(Joined(texts), backslash)[0] == texts[0] + "\n\n" + Bare(texts[1])
  {
    var front, create := texts[0] + "\n\n", Bare(texts[1]);
    TerminatedIs(texts[1], backslash);
    SplitFirst(Joined(texts), backslash);
    hide *;
    var rest := JoinedFirst(texts);
    var u := JoinedFirst(texts[1..]);
    FlatWithBlankLine(texts[0]);
    MergedRest(texts, backslash);
    FlatFront(front, create, backslash);
    StatementFirst(front + create, u, backslash);
    Regroup(texts[0], "\n\n", create, [';'], u);
  }

  lemma Regroup(a: string, b: string, c: string, d: string, e: string)
    ensures a + (b + (c + d + e)) == a + b + c + d + e
  {
  }

  lemma TerminatedIs(text: string, backslash: bool)
    requires IsTerminated(text, backslash)
    ensures text == Bare(text) + [';'] && IsStatement(Bare(text), backslash)
  {
    hide IsStatement;
  }

  lemma SplitFirst(script: string, backslash: bool)
    ensures Pieces(script, backslash) != [] ==> Split(script, backslash) == Pieces(script, backslash)
  {
    hide Pieces;
  }

  lemma FlatConcat(a: string, b: string)
    requires IsFlatText(a) && forall c | c in b :: IsFlat(c)
    ensures IsFlatText(a + b)
  {
    hide IsFlat, IsSpace;
  }

  lemma PragmaIsFlat()
    ensures IsFlatText("PRAGMA foreign_keys = OFF")
  {
    FlatConcat("PRAGMA foreign", "_keys = OFF");
    assert "PRAGMA foreign" + "_keys = OFF" == "PRAGMA foreign_keys = OFF";
  }

  /** The file of a SQLite rebuild does not come back: its first text, a pragma, has no semicolon,
      and the splitter takes it and the CREATE TABLE after it for one statement. */
  lemma PragmaMerges(texts: seq<string>, backslash: bool)
    requires |texts| > 1 && texts[0] == "PRAGMA foreign_keys = OFF" && IsTerminated(texts[1], backslash)
    ensures Split(Joined(texts), backslash) != Bares(texts)
    ensures Split(Joined(texts), backslash)[0] == texts[0] + "\n\n" + Bare(texts[1])
  {
    hide *;
    PragmaIsFlat();
    MergesWithStatement(texts, backslash);
  }
}
