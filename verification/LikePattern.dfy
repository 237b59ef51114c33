/** LIKE patterns with backslash as the escape character: the printer of contains, startsWith and
    endsWith filters, and the reader that recognises them again in a pulled index. */
module LikePattern {
  import opened Common

  datatype Op = Contains | StartsWith | EndsWith

  // ----- What patterns and filters accept -----

  ghost predicate Like(pattern: string, s: string)
    decreases |pattern| + |s|
  {
    if pattern == [] then s == []
    else if pattern[0] == '%' then Like(pattern[1..], s) || (s != [] && Like(pattern, s[1..]))
    else if pattern[0] == '_' then s != [] && Like(pattern[1..], s[1..])
    else if pattern[0] == '\\' then
      |pattern| > 1 && s != [] && s[0] == pattern[1] && Like(pattern[2..], s[1..])
    else s != [] && s[0] == pattern[0] && Like(pattern[1..], s[1..])
  }

  ghost predicate Accepts(op: Op, v: string, s: string) {
    match op
    case Contains => exists i :: 0 <= i <= |s| && IsPrefix(v, s[i..])
    case StartsWith => IsPrefix(v, s)
    case EndsWith => |v| <= |s| && s[|s| - |v|..] == v
  }

  // ----- Reading -----

  predicate IsSpecial(c: char) {
    c == '%' || c == '_' || c == '\\'
  }

  /** The text a pattern without wildcards stands for, or None if it has one or a stray backslash. */
  function Unescape(pattern: string): Option<string> {
    if pattern == [] then Some([])
    else if pattern[0] == '\\' then
      if |pattern| > 1 && IsSpecial(pattern[1]) then Prepend(pattern[1], Unescape(pattern[2..])) else None
    else if pattern[0] == '%' || pattern[0] == '_' then None
    else Prepend(pattern[0], Unescape(pattern[1..]))
  }

  function Prepend(c: char, v: Option<string>): Option<string> {
    match v case None => None case Some(s) => Some([c] + s)
  }

  function Append(out: string, v: Option<string>): Option<string> {
    match v case None => None case Some(s) => Some(out + s)
  }

  lemma AppendPrepend(out: string, c: char, v: Option<string>)
    ensures Append(out, Prepend(c, v)) == Append(out + [c], v)
  {
    if v.Some? {
      assert out + ([c] + v.value) == out + [c] + v.value;
    }
  }

  method UnescapeLikePattern(pattern: string) returns (text: Option<string>)
    ensures text == Unescape(pattern)
  {
    var out := "";
    var i := 0;
    assert pattern[0..] == pattern && forall v: string :: [] + v == v;
    while i < |pattern|
      invariant 0 <= i <= |pattern|
      invariant Unescape(pattern) == Append(out, Unescape(pattern[i..]))
    {
      var ch := pattern[i];
      if ch == '\\' {
        if i + 1 < |pattern| && IsSpecial(pattern[i + 1]) {
          AppendPrepend(out, pattern[i + 1], Unescape(pattern[i + 2..]));
          assert pattern[i..][2..] == pattern[i + 2..];
          out := out + [pattern[i + 1]];
          i := i + 2;
          continue;
        }
        return None;
      }
      if ch == '%' || ch == '_' { return None; }
      AppendPrepend(out, ch, Unescape(pattern[i + 1..]));
      assert pattern[i..][1..] == pattern[i + 1..];
      out := out + [ch];
      i := i + 1;
    }
    assert out + [] == out;
    return Some(out);
  }

  predicate OpensFree(pattern: string) {
    pattern != [] && pattern[0] == '%'
  }

  predicate EndsFree(pattern: string) {
    pattern != [] && pattern[|pattern| - 1] == '%'
  }

  /** The pattern without the percent signs at its ends. */
  function Inner(pattern: string): string {
    var from := if OpensFree(pattern) then 1 else 0;
    var to := if EndsFree(pattern) then |pattern| - 1 else |pattern|;
    if from <= to then pattern[from..to] else []
  }

  /** The filter that a pattern stands for, when the reader recognises one. */
  function OpOf(pattern: string): Option<(Op, string)> {
    var starts, ends, inner := OpensFree(pattern), EndsFree(pattern), Inner(pattern);
    if '%' in inner then None
    else match Unescape(inner)
         case None => None
         case Some(v) =>
           if starts && ends then Some((Contains, v))
           else if ends then Some((StartsWith, v))
           else if starts then Some((EndsWith, v))
           else None
  }

  // ----- The reader is right about every pattern it recognises -----

  /** A pattern without wildcards takes its text off the front. */
  lemma {:induction false} LiteralFirst(inner: string, v: string, rest: string, s: string)
    requires Unescape(inner) == Some(v)
    ensures Like(inner + rest, s) <==> IsPrefix(v, s) && Like(rest, s[|v|..])
    decreases |inner|
  {
    if inner == [] {
      assert inner + rest == rest;
      assert s[0..] == s;
    } else {
      var n := if inner[0] == '\\' then 2 else 1;
      assert (inner + rest)[n..] == inner[n..] + rest;
      assert v != [] && Unescape(inner[n..]) == Some(v[1..]);
      if s != [] {
        LiteralFirst(inner[n..], v[1..], rest, s[1..]);
        assert IsPrefix(v, s) <==> s[0] == v[0] && IsPrefix(v[1..], s[1..]) by {
          PrefixStep(v, s);
        }
        if IsPrefix(v, s) {
          assert s[|v|..] == s[1..][|v| - 1..];
        }
      }
    }
  }

  lemma PrefixStep(v: string, s: string)
    requires v != [] && s != []
    ensures IsPrefix(v, s) <==> s[0] == v[0] && IsPrefix(v[1..], s[1..])
  {
    if |v| <= |s| {
      assert s[..|v|] == [s[0]] + s[1..][..|v| - 1];
      assert v == [v[0]] + v[1..];
    }
  }

  lemma {:induction false} PercentTakesAll(s: string)
    ensures Like("%", s)
    decreases |s|
  {
    if s != [] {
      PercentTakesAll(s[1..]);
    }
  }

  ghost predicate SomeSuffix(p: string, s: string) {
    exists i :: 0 <= i <= |s| && Like(p, s[i..])
  }

  lemma {:induction false} PercentTakesAny(p: string, s: string)
    ensures Like(['%'] + p, s) <==> SomeSuffix(p, s)
    decreases |s|
  {
    assert (['%'] + p)[1..] == p;
    assert s[0..] == s;
    if s != [] {
      PercentTakesAny(p, s[1..]);
      if SomeSuffix(p, s[1..]) {
        var i :| 0 <= i <= |s[1..]| && Like(p, s[1..][i..]);
        assert s[1..][i..] == s[i + 1..];
      }
      if SomeSuffix(p, s) {
        var i :| 0 <= i <= |s| && Like(p, s[i..]);
        if i > 0 {
          assert s[i..] == s[1..][i - 1..];
        }
      }
    }
  }

  lemma {:induction false} PrefixPattern(inner: string, v: string, s: string)
    requires Unescape(inner) == Some(v)
    ensures Like(inner + "%", s) <==> IsPrefix(v, s)
  {
    LiteralFirst(inner, v, "%", s);
    if IsPrefix(v, s) {
      PercentTakesAll(s[|v|..]);
    }
  }

  lemma {:induction false} ContainsPattern(inner: string, v: string, s: string)
    requires Unescape(inner) == Some(v)
    ensures Like(['%'] + inner + "%", s) <==> Accepts(Contains, v, s)
  {
    hide Like, Unescape, IsPrefix;
    assert ['%'] + inner + "%" == ['%'] + (inner + "%");
    PercentTakesAny(inner + "%", s);
    forall i | 0 <= i <= |s| ensures Like(inner + "%", s[i..]) <==> IsPrefix(v, s[i..]) {
      PrefixPattern(inner, v, s[i..]);
    }
  }

  lemma {:induction false} SuffixPattern(inner: string, v: string, s: string)
    requires Unescape(inner) == Some(v)
    ensures Like(['%'] + inner, s) <==> Accepts(EndsWith, v, s)
  {
    PercentTakesAny(inner, s);
    forall i | 0 <= i <= |s| ensures Like(inner, s[i..]) <==> s[i..] == v {
      LiteralFirst(inner, v, [], s[i..]);
      assert inner + [] == inner;
    }
    hide Like, Unescape;
    if |v| <= |s| && s[|s| - |v|..] == v {
      assert Like(inner, s[|s| - |v|..]);
    }
  }

  lemma PatternParts(pattern: string)
    ensures pattern != "%" ==>
              var first, last := if OpensFree(pattern) then "%" else "", if EndsFree(pattern) then "%" else "";
              pattern == first + Inner(pattern) + last
    ensures Inner("%") == [] && OpensFree("%") && EndsFree("%")
  {
  }

  /** Whenever the reader recognises a pattern, pattern and filter accept the same strings. */
  lemma {:induction false} ReaderIsSound(pattern: string, s: string)
    requires OpOf(pattern).Some?
    ensures var (op, v) := OpOf(pattern).value; Like(pattern, s) <==> Accepts(op, v, s)
  {
    PatternParts(pattern);
    hide Like, OpensFree, EndsFree, Inner;
    var (op, v) := OpOf(pattern).value;
    var inner := Inner(pattern);
    if pattern == "%" {
      PercentTakesAll(s);
      assert IsPrefix(v, s[0..]);
    } else if op == Contains {
      assert pattern == "%" + inner + "%";
      hide Accepts, Unescape;
      ContainsPattern(inner, v, s);
    } else if op == StartsWith {
      assert pattern == inner + "%";
      hide Accepts, Unescape;
      PrefixPattern(inner, v, s);
    } else {
      assert pattern == "%" + inner;
      hide Accepts, Unescape;
      SuffixPattern(inner, v, s);
    }
  }

  method LikePatternToOp(pattern: string) returns (r: Option<(Op, string)>)
    ensures r == OpOf(pattern)
    ensures r.Some? ==> forall s :: Like(pattern, s) <==> Accepts(r.value.0, r.value.1, s)
  {
    hide Like, Accepts, Unescape;
    if OpOf(pattern).Some? {
      forall s ensures Like(pattern, s) <==> Accepts(OpOf(pattern).value.0, OpOf(pattern).value.1, s) {
        ReaderIsSound(pattern, s);
      }
    }
    var starts := pattern != [] && pattern[0] == '%';
    var ends := pattern != [] && pattern[|pattern| - 1] == '%';
    var from := if starts then 1 else 0;
    var to := if ends then |pattern| - 1 else |pattern|;
    var inner := if from <= to then pattern[from..to] else [];
    if '%' in inner { return None; }
    var value := UnescapeLikePattern(inner);
    if value.None? { return None; }
    if starts && ends { return Some((Contains, value.value)); }
    if ends { return Some((StartsWith, value.value)); }
    if starts { return Some((EndsWith, value.value)); }
    return None;
  }

  // ----- The printer -----

  /** Puts a backslash in front of every `c`. */
  function Guard(s: string, c: char): string {
    if s == [] then [] else (if s[0] == c then ['\\', c] else [s[0]]) + Guard(s[1..], c)
  }

  function EscapeLikePattern(v: string): string {
    Guard(Guard(Guard(v, '\\'), '%'), '_')
  }

  function Pattern(op: Op, v: string): string {
    match op
    case Contains => "%" + EscapeLikePattern(v) + "%"
    case StartsWith => EscapeLikePattern(v) + "%"
    case EndsWith => "%" + EscapeLikePattern(v)
  }

  /** The same escape in one pass. */
  function EscapeOnce(v: string): string {
    if v == [] then [] else (if IsSpecial(v[0]) then ['\\', v[0]] else [v[0]]) + EscapeOnce(v[1..])
  }

  lemma {:induction false} GuardTwo(c: char, d: char, s: string, w: char)
    requires c != w
    ensures Guard([c] + s, w) == [c] + Guard(s, w)
    ensures Guard([c, d] + s, w) == [c] + Guard([d] + s, w)
  {
    assert ([c] + s)[1..] == s;
    assert ([c, d] + s)[1..] == [d] + s;
  }

  lemma {:induction false} GuardHit(s: string, c: char)
    ensures Guard([c] + s, c) == ['\\', c] + Guard(s, c)
  {
    assert ([c] + s)[1..] == s;
  }

  /** The three replacements do not escape each other's backslashes. */
  lemma {:induction false} EscapeIsOnePass(v: string)
    ensures EscapeLikePattern(v) == EscapeOnce(v)
  {
    if v != [] {
      EscapeIsOnePass(v[1..]);
      var c, r1 := v[0], Guard(v[1..], '\\');
      var r2 := Guard(r1, '%');
      assert v == [c] + v[1..];
      hide Guard;
      if c == '\\' {
        GuardHit(v[1..], '\\');
        GuardTwo('\\', '\\', r1, '%');
        GuardTwo('\\', '\\', r2, '_');
      } else {
        GuardTwo(c, c, v[1..], '\\');
        if c == '%' {
          GuardHit(r1, '%');
          GuardTwo('\\', '%', r2, '_');
          GuardTwo('%', '%', r2, '_');
        } else {
          GuardTwo(c, c, r1, '%');
          if c == '_' {
            GuardHit(r2, '_');
          } else {
            GuardTwo(c, c, r2, '_');
          }
        }
      }
    }
  }

  lemma {:induction false} UnescapeUndoesEscape(v: string)
    ensures Unescape(EscapeOnce(v)) == Some(v)
    ensures '%' in EscapeOnce(v) <==> '%' in v
    ensures v != [] ==> EscapeOnce(v) != [] && EscapeOnce(v)[0] != '%'
    ensures v != [] ==> (EscapeOnce(v)[|EscapeOnce(v)| - 1] == '%' <==> v[|v| - 1] == '%')
    decreases |v|
  {
    if v != [] {
      UnescapeUndoesEscape(v[1..]);
      var first := if IsSpecial(v[0]) then ['\\', v[0]] else [v[0]];
      assert EscapeOnce(v)[|first|..] == EscapeOnce(v[1..]);
      assert '%' in first <==> v[0] == '%';
      assert v == [v[0]] + v[1..];
    }
  }

  /** What the printer writes accepts what the filter accepts, for every value. */
  lemma {:induction false} PrinterIsSound(op: Op, v: string, s: string)
    ensures Like(Pattern(op, v), s) <==> Accepts(op, v, s)
  {
    hide Like, EscapeOnce, EscapeLikePattern, Unescape;
    EscapeIsOnePass(v);
    UnescapeUndoesEscape(v);
    match op
    case Contains => ContainsPattern(EscapeOnce(v), v, s);
    case StartsWith => PrefixPattern(EscapeOnce(v), v, s);
    case EndsWith => SuffixPattern(EscapeOnce(v), v, s);
  }

  /** The parts of a printed pattern: the reader finds the operator's percent signs, and takes one
      that ends the escaped text for another. */
  lemma {:induction false} PrintedParts(e: string)
    requires e != [] ==> e[0] != '%'
    ensures OpensFree("%" + e + "%") && EndsFree("%" + e + "%") && Inner("%" + e + "%") == e
    ensures EndsFree(e + "%") && (OpensFree(e + "%") <==> e == []) && Inner(e + "%") == e
    ensures OpensFree("%" + e) && (EndsFree("%" + e) <==> e == [] || EndsFree(e))
    ensures Inner("%" + e) == if EndsFree(e) then e[..|e| - 1] else e
  {
    var both, after, before := "%" + e + "%", e + "%", "%" + e;
    assert both[1..|both| - 1] == e && after[..|after| - 1] == e && before[1..] == e;
    if EndsFree(e) {
      assert before[1..|before| - 1] == e[..|e| - 1];
    }
  }

  /** The reader gives back what was printed exactly when the value has no percent sign, except
      that an empty value always comes back as "contains nothing". */
  lemma {:induction false} ReadBack(op: Op, v: string)
    ensures OpOf(Pattern(op, v))
            == if '%' in v then None else Some((if v == [] then Contains else op, v))
  {
    EscapeIsOnePass(v);
    UnescapeUndoesEscape(v);
    EmptyEscape();
    var e := EscapeOnce(v);
    PrintedParts(e);
    if EndsFree(e) {
      EndsInPercent(v);
    }
    hide EscapeOnce, EscapeLikePattern, Unescape, OpensFree, Inner;
    match op
    case Contains =>
    case StartsWith =>
    case EndsWith => assert EndsFree(e) ==> '%' in v;
  }

  lemma EmptyEscape()
    ensures EscapeOnce([]) == [] && Unescape([]) == Some([])
  {
  }

  /** Cut short of its last percent sign, an escaped text ends in a stray backslash. */
  lemma {:induction false} EndsInPercent(v: string)
    requires v != [] && v[|v| - 1] == '%'
    ensures var e := EscapeOnce(v); e != [] && ('%' in e[..|e| - 1] || Unescape(e[..|e| - 1]) == None)
    decreases |v|
  {
    var e := EscapeOnce(v);
    var first := if IsSpecial(v[0]) then ['\\', v[0]] else [v[0]];
    if |v| == 1 {
      assert v[1..] == [];
      assert e == first + [];
      assert e[..|e| - 1] == ['\\'];
    } else {
      EndsInPercent(v[1..]);
      var e' := EscapeOnce(v[1..]);
      var cut := e[..|e| - 1];
      assert cut == first + e'[..|e'| - 1];
      assert cut[|first|..] == e'[..|e'| - 1];
    }
  }

  // ----- The string literal around a pattern -----

  /** The body of a SQL string literal: quotes are doubled. */
  function Double(s: string): string {
    if s == [] then [] else (if s[0] == '\'' then ['\'', '\''] else [s[0]]) + Double(s[1..])
  }

  function Undouble(s: string): string {
    if |s| > 1 && s[0] == '\'' && s[1] == '\'' then ['\''] + Undouble(s[2..])
    else if s == [] then []
    else [s[0]] + Undouble(s[1..])
  }

  lemma {:induction false} UndoubleUndoesDouble(s: string)
    ensures Undouble(Double(s)) == s
  {
    if s != [] {
      UndoubleUndoesDouble(s[1..]);
      if s[0] == '\'' {
        assert Double(s)[2..] == Double(s[1..]);
      } else {
        assert Double(s)[1..] == Double(s[1..]);
      }
    }
  }
}
