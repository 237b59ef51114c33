/** The guard in front of SQLite's REGEXP: one left-to-right pass with an explicit
    stack of open groups decides whether a pattern nests unbounded quantifiers.

    The pass is compared with a recursive definition on syntax trees: a pattern nests
    when some unbounded quantifier is applied to something that itself contains one. */
module RegexGuard {

  // ----- Syntax trees of patterns (section 22.2.1 of ECMA-262) -----

  datatype Repeat =
    | Star | Plus | Opt
    | AtLeast(min: string)
    | Exactly(count: string)
    | Between(min: string, max: string)
  {
    predicate Unbounded() {
      Star? || Plus? || AtLeast?
    }

    predicate Valid() {
      match this
      case AtLeast(n) => IsDigits(n)
      case Exactly(n) => IsDigits(n)
      case Between(n, m) => IsDigits(n) && IsDigits(m)
      case _ => true
    }

    function Print(): string {
      match this
      case Star => "*"
      case Plus => "+"
      case Opt => "?"
      case AtLeast(n) => "{" + n + ",}"
      case Exactly(n) => "{" + n + "}"
      case Between(n, m) => "{" + n + ("," + m + "}")
    }
  }

  datatype ClassItem = Plain(c: char) | Escaped(c: char)

  datatype Regex =
    | Empty
    | Literal(c: char)
    | Escape(c: char)
    | Class(negated: bool, items: seq<ClassItem>)
    | Group(prefix: string, body: Regex)      // the prefix is "", "?:", "?=", "?<name>", ...
    | Concat(left: Regex, right: Regex)
    | Alt(left: Regex, right: Regex)
    | Quantified(inner: Regex, repeat: Repeat, lazily: bool)
  {
    /** The grammar's side conditions. Beyond the grammar, an unbounded quantifier may also
        stand directly on another one, as in `a+*`, which the guard documents that it flags. */
    predicate Valid() {
      match this
      case Empty => true
      case Literal(c) => Ordinary(c) && c != '?' && c != '|'
      case Escape(_) => true
      case Class(negated, items) => ValidItems(items) && (!negated && items != [] ==> items[0] != Plain('^'))
      case Group(prefix, body) => AllOrdinary(prefix) && body.Valid()
      case Concat(l, r) => l.Valid() && r.Valid()
      case Alt(l, r) => l.Valid() && r.Valid()
      case Quantified(r, q, _) =>
        && r.Valid() && q.Valid()
        && match r
           case Literal(_) | Escape(_) | Class(_, _) | Group(_, _) => true
           case Quantified(_, q', _) => q'.Unbounded() && q.Unbounded()
           case _ => false
    }

    function Print(): string {
      match this
      case Empty => ""
      case Literal(c) => [c]
      case Escape(c) => ['\\', c]
      case Class(negated, items) => "[" + (if negated then "^" else "") + PrintItems(items) + "]"
      case Group(prefix, body) => "(" + prefix + body.Print() + ")"
      case Concat(l, r) => l.Print() + r.Print()
      case Alt(l, r) => l.Print() + "|" + r.Print()
      case Quantified(r, q, lazily) => r.Print() + PrintRepeat(q, lazily)
    }

    /** An unbounded quantifier occurs somewhere in the pattern. */
    predicate HasUnbounded() {
      match this
      case Group(_, body) => body.HasUnbounded()
      case Concat(l, r) => l.HasUnbounded() || r.HasUnbounded()
      case Alt(l, r) => l.HasUnbounded() || r.HasUnbounded()
      case Quantified(r, q, _) => r.HasUnbounded() || q.Unbounded()
      case _ => false
    }

    /** Some unbounded quantifier is applied to something containing an unbounded quantifier. */
    predicate NestsUnbounded() {
      match this
      case Group(_, body) => body.NestsUnbounded()
      case Concat(l, r) => l.NestsUnbounded() || r.NestsUnbounded()
      case Alt(l, r) => l.NestsUnbounded() || r.NestsUnbounded()
      case Quantified(r, q, _) => r.NestsUnbounded() || (q.Unbounded() && r.HasUnbounded())
      case _ => false
    }

    /** No class is `[]` or `[^]`, which are legal in ECMA-262 but misread by the guard. */
    predicate NoEmptyClass() {
      match this
      case Class(_, items) => items != []
      case Group(_, body) => body.NoEmptyClass()
      case Concat(l, r) => l.NoEmptyClass() && r.NoEmptyClass()
      case Alt(l, r) => l.NoEmptyClass() && r.NoEmptyClass()
      case Quantified(r, _, _) => r.NoEmptyClass()
      case _ => true
    }

    predicate NoClass() {
      match this
      case Class(_, _) => false
      case Escape(c) => c != ']'
      case Literal(c) => c != ']'
      case Group(prefix, body) => ']' !in prefix && body.NoClass()
      case Concat(l, r) => l.NoClass() && r.NoClass()
      case Alt(l, r) => l.NoClass() && r.NoClass()
      case Quantified(r, _, _) => r.NoClass()
      case _ => true
    }
  }

  predicate IsDigits(s: string) {
    s != "" && forall i | 0 <= i < |s| :: '0' <= s[i] <= '9'
  }

  /** Characters to which the scanner reacts in no way of its own. */
  predicate Ordinary(c: char) {
    c !in {'\\', '[', '(', ')', '*', '+', '{'}
  }

  predicate AllOrdinary(s: string) {
    forall i | 0 <= i < |s| :: Ordinary(s[i])
  }

  predicate ValidItems(items: seq<ClassItem>) {
    forall i | 0 <= i < |items| :: items[i].Plain? ==> items[i].c != ']' && items[i].c != '\\'
  }

  function PrintItems(items: seq<ClassItem>): string {
    if items == [] then ""
    else (match items[0] case Plain(c) => [c] case Escaped(c) => ['\\', c]) + PrintItems(items[1..])
  }

  function PrintRepeat(q: Repeat, lazily: bool): string {
    q.Print() + if lazily then "?" else ""
  }

  // ----- The scanner as a function of what is left to read -----

  /** What is left of `s` after `n` characters: empty when there are fewer. */
  function Drop(s: string, n: nat): (r: string)
    ensures |r| == if n <= |s| then |s| - n else 0
    ensures n == 0 ==> r == s
    ensures n == 1 && s != "" ==> r == s[1..]
  {
    if n == 0 || s == "" then s else Drop(s[1..], n - 1)
  }

  function DigitRun(s: string): (n: nat)
    ensures n <= |s|
  {
    if s != "" && '0' <= s[0] <= '9' then 1 + DigitRun(s[1..]) else 0
  }

  /** Length of `{n,}` or `{n,}?` at the start of `s`, or 0. */
  function OpenEndedLength(s: string): (n: nat)
    requires s != ""
    ensures n <= |s|
  {
    var k := DigitRun(s[1..]);
    var tail := s[1 + k..];
    if k > 0 && |tail| >= 2 && tail[0] == ',' && tail[1] == '}'
    then if |tail| > 2 && tail[2] == '?' then k + 4 else k + 3
    else 0
  }

  /** Length of the unbounded quantifier at the start of `s`, or 0. */
  function UnboundedLength(s: string): (n: nat)
    ensures n <= |s|
  {
    if s == "" then 0
    else if s[0] == '*' || s[0] == '+' then (if |s| > 1 && s[1] == '?' then 2 else 1)
    else if s[0] == '{' then OpenEndedLength(s)
    else 0
  }

  /** The text starts with an opening brace, a number, a comma and a closing brace. */
  ghost predicate StartsOpenEnded(s: string, digits: string) {
    && IsDigits(digits)
    && |s| >= |digits| + 3 && s[..|digits| + 3] == "{" + digits + ",}"
  }

  lemma {:induction false} DigitRunHas(s: string)
    ensures forall c | c in s[..DigitRun(s)] :: '0' <= c <= '9'
  {
    if s != "" && '0' <= s[0] <= '9' {
      DigitRunHas(s[1..]);
      assert s[..DigitRun(s)] == [s[0]] + s[1..][..DigitRun(s[1..])];
    }
  }

  /** Whatever the text, an unbounded quantifier is found at its start exactly when a star, a plus or
      an open-ended repeat with a number stands there. */
  lemma {:induction false} UnboundedThere(s: string)
    ensures UnboundedLength(s) > 0 <==>
            s != "" && (s[0] == '*' || s[0] == '+' || exists digits :: StartsOpenEnded(s, digits))
  {
    if s != "" && s[0] == '{' {
      var k := DigitRun(s[1..]);
      if OpenEndedLength(s) > 0 {
        DigitRunHas(s[1..]);
        var digits := s[1..1 + k];
        assert digits == s[1..][..k];
        assert s[..k + 3] == "{" + digits + ",}";
        assert forall i | 0 <= i < |digits| :: digits[i] in s[1..][..k];
        assert StartsOpenEnded(s, digits);
      }
      if digits :| StartsOpenEnded(s, digits) {
        var rest := s[|digits| + 1..];
        assert s[..|digits| + 3][1..|digits| + 1] == digits;
        assert s[1..] == digits + rest;
        assert rest[0] == s[..|digits| + 3][|digits| + 1] == ',';
        assert rest[1] == s[..|digits| + 3][|digits| + 2] == '}';
        DigitRunExact(digits, rest);
      }
    }
  }

  /** What is left from the bracket that closes a class, `s` being inside its body. */
  function ToClassEnd(s: string): (r: string)
    ensures |r| <= |s|
    decreases |s|
  {
    if s == "" || s[0] == ']' then s
    else if s[0] == '\\' then ToClassEnd(Drop(s, 2))
    else ToClassEnd(s[1..])
  }

  function SkipChar(s: string, c: char): (r: string)
    ensures |r| <= |s|
  {
    if s != "" && s[0] == c then s[1..] else s
  }

  /** What is left after a class, `s` starting just after its `[`. */
  function AfterClass(s: string): (r: string)
    ensures |r| <= |s|
  {
    Drop(ToClassEnd(SkipChar(SkipChar(s, '^'), ']')), 1)
  }

  function MarkTop(frames: seq<bool>, mark: bool): (r: seq<bool>)
    requires frames != []
    ensures |r| == |frames|
  {
    if mark then frames[|frames| - 1 := true] else frames
  }

  /** The verdict on what is left to read, given the open groups (innermost last, each with
      whether an unbounded quantifier was seen in it) and whether the last atom was
      unbounded-quantified. */
  predicate Scan(s: string, frames: seq<bool>, prevQuantified: bool)
    requires frames != []
    decreases |s|, 1
  {
    if s == "" then false
    else if s[0] == '\\' then Scan(Drop(s, 2), frames, false)
    else if s[0] == '[' then Scan(AfterClass(Drop(s, 1)), frames, false)
    else if s[0] == '(' then Scan(Drop(s, 1), frames + [false], false)
    else if s[0] == ')' then
      if |frames| == 1 then Scan(Drop(s, 1), frames, false)
      else ScanClose(s, frames)
    else
      var n := UnboundedLength(s);
      if n > 0 then prevQuantified || Scan(Drop(s, n), MarkTop(frames, true), true)
      else Scan(Drop(s, 1), frames, false)
  }

  /** A `)` closes a group: the quantifier after it, if any, applies to the group's whole body. */
  predicate ScanClose(s: string, frames: seq<bool>)
    requires s != "" && |frames| > 1
    decreases |s|, 0
  {
    var body := frames[|frames| - 1];
    var n := UnboundedLength(Drop(s, 1));
    (body && n > 0) || Scan(Drop(s, 1 + n), MarkTop(frames[..|frames| - 1], body || n > 0), n > 0)
  }

  // ----- The scanner as the loop the driver runs -----

  lemma {:induction false} DropDrop(s: string, i: nat, n: nat)
    ensures Drop(Drop(s, i), n) == Drop(s, i + n)
  {
    if i > 0 && s != "" {
      DropDrop(s[1..], i - 1, n);
    }
  }

  lemma {:induction false} DropHead(s: string, i: nat)
    requires i < |s|
    ensures Drop(s, i) != "" && Drop(s, i)[0] == s[i]
  {
    if i > 0 {
      DropHead(s[1..], i - 1);
    }
  }

  lemma {:induction false} DropText(text: string, rest: string)
    ensures Drop(text + rest, |text|) == rest
  {
    if text == "" {
      assert text + rest == rest;
    } else {
      assert (text + rest)[1..] == text[1..] + rest;
      DropText(text[1..], rest);
    }
  }

  lemma {:induction false} SkipCharAt(s: string, i: nat, c: char)
    ensures SkipChar(Drop(s, i), c) == Drop(s, if i < |s| && s[i] == c then i + 1 else i)
  {
    if i < |s| {
      DropHead(s, i);
      DropDrop(s, i, 1);
    }
  }

  lemma {:induction false} ToClassEndAt(s: string, i: nat)
    ensures i >= |s| || s[i] == ']' ==> ToClassEnd(Drop(s, i)) == Drop(s, i)
    ensures i < |s| && s[i] != ']' ==>
              ToClassEnd(Drop(s, i)) == ToClassEnd(Drop(s, if s[i] == '\\' then i + 2 else i + 1))
  {
    if i < |s| {
      DropHead(s, i);
      DropDrop(s, i, 1);
      DropDrop(s, i, 2);
    }
  }

  /** Skips a class, `start` being just after its `[`. */
  method SkipClass(pattern: string, start: nat) returns (i: nat)
    ensures start < i
    ensures Drop(pattern, i) == AfterClass(Drop(pattern, start))
  {
    hide Drop, ToClassEnd, SkipChar;
    i := start;
    SkipCharAt(pattern, i, '^');
    if i < |pattern| && pattern[i] == '^' { i := i + 1; }
    SkipCharAt(pattern, i, ']');
    if i < |pattern| && pattern[i] == ']' { i := i + 1; }
    ghost var body := i;
    while i < |pattern| && pattern[i] != ']'
      invariant start <= i
      invariant ToClassEnd(Drop(pattern, i)) == ToClassEnd(Drop(pattern, body))
      decreases |pattern| - i
    {
      ToClassEndAt(pattern, i);
      if pattern[i] == '\\' { i := i + 1; }
      i := i + 1;
    }
    ToClassEndAt(pattern, i);
    DropDrop(pattern, i, 1);
    i := i + 1;
  }

  // One character of the pattern, and what is left to scan after it.

  lemma {:induction false} AtEscape(pattern: string, i: nat, frames: seq<bool>, prev: bool)
    requires frames != [] && i < |pattern| && pattern[i] == '\\'
    ensures Scan(Drop(pattern, i), frames, prev) == Scan(Drop(pattern, i + 2), frames, false)
  {
    DropHead(pattern, i);
    DropDrop(pattern, i, 2);
  }

  lemma {:induction false} AtClass(pattern: string, i: nat, frames: seq<bool>, prev: bool)
    requires frames != [] && i < |pattern| && pattern[i] == '['
    ensures Scan(Drop(pattern, i), frames, prev) == Scan(AfterClass(Drop(pattern, i + 1)), frames, false)
  {
    hide AfterClass;
    DropHead(pattern, i);
    DropDrop(pattern, i, 1);
  }

  lemma {:induction false} AtOpen(pattern: string, i: nat, frames: seq<bool>, prev: bool)
    requires frames != [] && i < |pattern| && pattern[i] == '('
    ensures Scan(Drop(pattern, i), frames, prev) == Scan(Drop(pattern, i + 1), frames + [false], false)
  {
    DropHead(pattern, i);
    DropDrop(pattern, i, 1);
  }

  lemma {:induction false} AtClose(pattern: string, i: nat, frames: seq<bool>, prev: bool)
    requires frames != [] && i < |pattern| && pattern[i] == ')'
    ensures |frames| == 1 ==> Scan(Drop(pattern, i), frames, prev) == Scan(Drop(pattern, i + 1), frames, false)
    ensures |frames| > 1 ==>
              var body, n := frames[|frames| - 1], UnboundedLength(Drop(pattern, i + 1));
              Scan(Drop(pattern, i), frames, prev)
              == ((body && n > 0)
                  || Scan(Drop(pattern, i + 1 + n), MarkTop(frames[..|frames| - 1], body || n > 0), n > 0))
  {
    hide UnboundedLength;
    DropHead(pattern, i);
    DropDrop(pattern, i, 1);
    DropDrop(pattern, i, 1 + UnboundedLength(Drop(pattern, i + 1)));
  }

  lemma {:induction false} AtOther(pattern: string, i: nat, frames: seq<bool>, prev: bool)
    requires frames != [] && i < |pattern| && pattern[i] !in {'\\', '[', '(', ')'}
    ensures var n := UnboundedLength(Drop(pattern, i));
            Scan(Drop(pattern, i), frames, prev)
            == if n > 0 then prev || Scan(Drop(pattern, i + n), MarkTop(frames, true), true)
               else Scan(Drop(pattern, i + 1), frames, false)
  {
    hide UnboundedLength;
    DropHead(pattern, i);
    DropDrop(pattern, i, 1);
    DropDrop(pattern, i, UnboundedLength(Drop(pattern, i)));
  }

  /** Decides exactly whether the pattern nests unbounded quantifiers, for every pattern
      the grammar generates without an empty class. */
  method HasCatastrophicBacktracking(pattern: string) returns (flagged: bool)
    ensures flagged == Scan(pattern, [false], false)
    ensures forall r: Regex :: r.Valid() && r.NoEmptyClass() && r.Print() == pattern ==> flagged == r.NestsUnbounded()
  {
    flagged := RunScanner(pattern);
    GuardIsExactFor(pattern);
  }

  method RunScanner(pattern: string) returns (flagged: bool)
    ensures flagged == Scan(pattern, [false], false)
  {
    hide Scan, ScanClose, Drop, UnboundedLength, AfterClass;
    var frames := [false];
    var prevQuantifiedAtom := false;
    var i := 0;
    while i < |pattern|
      invariant 0 <= i
      invariant frames != []
      invariant Scan(Drop(pattern, i), frames, prevQuantifiedAtom) == Scan(pattern, [false], false)
      decreases |pattern| - i
    {
      var ch := pattern[i];
      if ch == '\\' {
        AtEscape(pattern, i, frames, prevQuantifiedAtom);
        i := i + 2;
        prevQuantifiedAtom := false;
        continue;
      }
      if ch == '[' {
        AtClass(pattern, i, frames, prevQuantifiedAtom);
        i := SkipClass(pattern, i + 1);
        prevQuantifiedAtom := false;
        continue;
      }
      if ch == '(' {
        AtOpen(pattern, i, frames, prevQuantifiedAtom);
        frames := frames + [false];
        prevQuantifiedAtom := false;
        i := i + 1;
        continue;
      }
      if ch == ')' {
        AtClose(pattern, i, frames, prevQuantifiedAtom);
        if |frames| == 1 {
          prevQuantifiedAtom := false;
          i := i + 1;
          continue;
        }
        var bodyHasQuantifier := frames[|frames| - 1];
        frames := frames[..|frames| - 1];
        var quantifier := UnboundedLength(Drop(pattern, i + 1));
        if bodyHasQuantifier && quantifier > 0 {
          return true;
        }
        if quantifier > 0 {
          i := i + quantifier;
          prevQuantifiedAtom := true;
        } else {
          prevQuantifiedAtom := false;
        }
        if bodyHasQuantifier || quantifier > 0 {
          frames := frames[|frames| - 1 := true];
        }
        i := i + 1;
        continue;
      }
      AtOther(pattern, i, frames, prevQuantifiedAtom);
      var quantifier := UnboundedLength(Drop(pattern, i));
      if quantifier > 0 {
        if prevQuantifiedAtom {
          return true;
        }
        i := i + quantifier - 1;
        frames := frames[|frames| - 1 := true];
        prevQuantifiedAtom := true;
        i := i + 1;
        continue;
      }
      prevQuantifiedAtom := false;
      i := i + 1;
    }
    NothingLeft(pattern, i, frames, prevQuantifiedAtom);
    return false;
  }

  lemma NothingLeft(pattern: string, i: nat, frames: seq<bool>, prev: bool)
    requires frames != [] && i >= |pattern|
    ensures !Scan(Drop(pattern, i), frames, prev)
  {
  }

  // ----- What the scanner does on printed patterns -----

  predicate StartsQuantifier(s: string) {
    s != "" && s[0] in {'?', '*', '+', '{'}
  }

  predicate StartsWith(s: string, c: char) {
    s != "" && s[0] == c
  }

  function PrevAfter(r: Regex, prev: bool): bool {
    match r
    case Empty => prev
    case Concat(a, b) => PrevAfter(b, PrevAfter(a, prev))
    case Alt(a, b) => PrevAfter(b, false)
    case Quantified(_, q, _) => q.Unbounded()
    case _ => false
  }

  lemma {:induction false} PrintHead(r: Regex)
    requires r.Valid()
    ensures !StartsQuantifier(r.Print())
  {
    match r
    case Concat(a, b) => PrintHead(a); PrintHead(b);
    case Alt(a, b) => PrintHead(a);
    case Quantified(a, _, _) => PrintHead(a); PrintNonempty(a);
    case _ =>
  }

  lemma {:induction false} PrintNonempty(r: Regex)
    requires r.Valid() && !r.Empty? && !r.Concat? && !r.Alt?
    ensures r.Print() != ""
  {
    match r
    case Quantified(a, _, _) => PrintNonempty(a);
    case _ =>
  }

  /** Ordinary characters are passed over one by one. */
  lemma {:induction false} ScanOrdinary(text: string, rest: string, frames: seq<bool>, prev: bool)
    requires frames != []
    requires AllOrdinary(text)
    ensures Scan(text + rest, frames, prev) == Scan(rest, frames, if text == "" then prev else false)
  {
    if text == "" {
      assert text + rest == rest;
    } else {
      assert (text + rest)[1..] == text[1..] + rest;
      ScanOrdinary(text[1..], rest, frames, false);
    }
  }

  lemma {:induction false} ClassEnd(items: seq<ClassItem>, rest: string)
    requires ValidItems(items)
    ensures ToClassEnd(PrintItems(items) + "]" + rest) == "]" + rest
  {
    var s := PrintItems(items) + "]" + rest;
    if items == [] {
      assert s == "]" + rest;
    } else {
      var tail := PrintItems(items[1..]) + "]" + rest;
      match items[0] {
        case Plain(c) => assert s[1..] == tail;
        case Escaped(c) =>
          assert s == ['\\', c] + tail;
          DropText(['\\', c], tail);
      }
      ClassEnd(items[1..], rest);
    }
  }

  /** A literal, an escape or a nonempty class is consumed whole, whatever follows. */
  lemma {:induction false} ScanAtom(r: Regex, rest: string, frames: seq<bool>, prev: bool)
    requires frames != [] && r.Valid() && r.NoEmptyClass()
    requires r.Literal? || r.Escape? || r.Class?
    ensures Scan(r.Print() + rest, frames, prev) == Scan(rest, frames, false)
  {
    var s := r.Print() + rest;
    match r
    case Literal(c) => assert s[1..] == rest;
    case Escape(c) => DropText(['\\', c], rest);
    case Class(negated, items) =>
      var body := PrintItems(items) + "]" + rest;
      assert s[1..] == (if negated then "^" else "") + body;
      assert body[0] == match items[0] case Plain(c) => c case Escaped(_) => '\\';
      assert SkipChar(SkipChar(s[1..], '^'), ']') == body;
      ClassEnd(items, rest);
      assert Drop("]" + rest, 1) == rest;
  }

  lemma {:induction false} DigitRunExact(digits: string, rest: string)
    requires forall i | 0 <= i < |digits| :: '0' <= digits[i] <= '9'
    requires rest != "" && !('0' <= rest[0] <= '9')
    ensures DigitRun(digits + rest) == |digits|
  {
    if digits == "" {
      assert digits + rest == rest;
    } else {
      assert (digits + rest)[1..] == digits[1..] + rest;
      DigitRunExact(digits[1..], rest);
    }
  }

  lemma {:induction false} Regroup(a: string, b: string, c: string, d: string)
    ensures a + b + c + d == a + (b + c + d)
    ensures b + c + d == b + (c + d)
  {
  }

  /** A brace that opens `{n` and goes on with `tail`. */
  lemma {:induction false} BraceLength(n: string, tail: string)
    requires IsDigits(n) && tail != "" && !('0' <= tail[0] <= '9')
    ensures var s := "{" + n + tail;
            UnboundedLength(s) == if |tail| >= 2 && tail[0] == ',' && tail[1] == '}'
                                  then |n| + (if |tail| > 2 && tail[2] == '?' then 4 else 3)
                                  else 0
  {
    var s := "{" + n + tail;
    assert s[1..] == n + tail;
    DigitRunExact(n, tail);
    assert s[1 + |n|..] == tail;
  }

  /** A printed unbounded quantifier is measured exactly, its lazy mark included. */
  lemma {:induction false} UnboundedLengthExact(q: Repeat, lazily: bool, rest: string)
    requires q.Valid() && q.Unbounded() && !StartsWith(rest, '?')
    ensures UnboundedLength(PrintRepeat(q, lazily) + rest) == |PrintRepeat(q, lazily)| > 0
  {
    if q.AtLeast? {
      var tail := (if lazily then ",}?" else ",}") + rest;
      assert PrintRepeat(q, lazily) + rest == "{" + q.min + tail;
      BraceLength(q.min, tail);
    }
  }

  /** A printed bounded quantifier is not an unbounded one. */
  lemma {:induction false} BoundedLength(q: Repeat, lazily: bool, rest: string)
    requires q.Valid() && !q.Unbounded()
    ensures UnboundedLength(PrintRepeat(q, lazily) + rest) == 0
  {
    var mark := if lazily then "?" else "";
    match q
    case Opt =>
    case Exactly(n) =>
      Regroup("{" + n, "}", mark, rest);
      BraceLength(n, "}" + mark + rest);
    case Between(n, m) =>
      var tail := ("," + m + "}") + mark + rest;
      assert tail[1] == m[0];
      Regroup("{" + n, "," + m + "}", mark, rest);
      BraceLength(n, tail);
  }

  /** After its first character, a bounded quantifier is all characters the scanner passes over. */
  lemma {:induction false} BoundedIsOrdinary(q: Repeat, lazily: bool)
    requires q.Valid() && !q.Unbounded()
    ensures var text := PrintRepeat(q, lazily);
            text != "" && (text[0] == '{' || text[0] == '?') && AllOrdinary(text[1..])
  {
  }

  lemma {:induction false} ScanPlainHead(s: string, frames: seq<bool>, prev: bool)
    requires frames != [] && s != "" && (s[0] == '{' || s[0] == '?') && UnboundedLength(s) == 0
    ensures Scan(s, frames, prev) == Scan(s[1..], frames, false)
  {
    hide UnboundedLength;
  }

  /** A bounded quantifier is passed over character by character. */
  lemma {:induction false} ScanBounded(q: Repeat, lazily: bool, rest: string, frames: seq<bool>, prev: bool)
    requires frames != [] && q.Valid() && !q.Unbounded()
    ensures Scan(PrintRepeat(q, lazily) + rest, frames, prev) == Scan(rest, frames, false)
  {
    hide Scan, PrintRepeat, UnboundedLength, AllOrdinary;
    var text := PrintRepeat(q, lazily);
    BoundedLength(q, lazily, rest);
    BoundedIsOrdinary(q, lazily);
    assert (text + rest)[1..] == text[1..] + rest;
    ScanPlainHead(text + rest, frames, prev);
    ScanOrdinary(text[1..], rest, frames, false);
  }

  lemma {:induction false} ScanOpen(s: string, frames: seq<bool>, prev: bool)
    requires frames != [] && s != "" && s[0] == '('
    ensures Scan(s, frames, prev) == Scan(s[1..], frames + [false], false)
  {
  }

  lemma {:induction false} ScanClosed(rest: string, frames: seq<bool>, body: bool, prev: bool)
    requires frames != []
    ensures var n := UnboundedLength(rest);
            Scan(")" + rest, frames + [body], prev)
            == ((body && n > 0) || Scan(Drop(rest, n), MarkTop(frames, body || n > 0), n > 0))
  {
    hide UnboundedLength;
    var s, fs := ")" + rest, frames + [body];
    assert s[1..] == rest && fs[..|fs| - 1] == frames;
    DropDrop(s, 1, UnboundedLength(rest));
  }

  /** A group: its body is scanned in a frame of its own, which is then folded into the parent. */
  lemma {:induction false} ScanGroup(r: Regex, rest: string, frames: seq<bool>, prev: bool)
    requires frames != [] && r.Valid() && r.NoEmptyClass() && r.Group?
    ensures var n := UnboundedLength(rest);
            Scan(r.Print() + rest, frames, prev) ==
            (r.NestsUnbounded() || (r.HasUnbounded() && n > 0)
             || Scan(Drop(rest, n), MarkTop(frames, r.HasUnbounded() || n > 0), n > 0))
    decreases r, 0
  {
    hide Scan, UnboundedLength, Drop;
    var s := r.Print() + rest;
    var inner := r.body.Print() + (")" + rest);
    assert s[1..] == r.prefix + inner;
    var fs := frames + [false];
    ScanOpen(s, frames, prev);
    ScanOrdinary(r.prefix, inner, fs, false);
    ScanRegex(r.body, ")" + rest, fs, false);
    assert MarkTop(fs, r.body.HasUnbounded()) == frames + [r.body.HasUnbounded()];
    ScanClosed(rest, frames, r.body.HasUnbounded(), PrevAfter(r.body, false));
  }

  /** An unbounded quantifier standing on an atom or a group. */
  lemma {:induction false} ScanUnboundedOnBase(r: Regex, rest: string, frames: seq<bool>, prev: bool)
    requires frames != [] && r.Valid() && r.NoEmptyClass() && r.Quantified? && !r.inner.Quantified?
    requires r.repeat.Unbounded() && !StartsWith(rest, '?')
    ensures Scan(r.inner.Print() + (PrintRepeat(r.repeat, r.lazily) + rest), frames, prev) ==
            (r.NestsUnbounded() || Scan(rest, MarkTop(frames, true), true))
    decreases r, 0
  {
    var quantifier := PrintRepeat(r.repeat, r.lazily);
    UnboundedLengthExact(r.repeat, r.lazily, rest);
    DropText(quantifier, rest);
    if r.inner.Group? {
      hide UnboundedLength, PrintRepeat, Drop, Scan;
      ScanGroup(r.inner, quantifier + rest, frames, prev);
    } else {
      ScanAtom(r.inner, quantifier + rest, frames, prev);
      ScanQuantifier(r.repeat, r.lazily, rest, frames);
      hide UnboundedLength, PrintRepeat, Drop, Scan;
    }
  }

  /** An unbounded quantifier after an atom is read whole. */
  lemma ScanQuantifier(q: Repeat, lazily: bool, rest: string, frames: seq<bool>)
    requires frames != [] && q.Valid() && q.Unbounded() && !StartsWith(rest, '?')
    ensures Scan(PrintRepeat(q, lazily) + rest, frames, false) == Scan(rest, MarkTop(frames, true), true)
  {
    UnboundedLengthExact(q, lazily, rest);
    DropText(PrintRepeat(q, lazily), rest);
    QuantifierHead(q, lazily);
    hide UnboundedLength, PrintRepeat, Drop;
  }

  lemma QuantifierHead(q: Repeat, lazily: bool)
    requires q.Unbounded()
    ensures var text := PrintRepeat(q, lazily); text != "" && text[0] in {'*', '+', '{'}
  {
  }

  /** A bounded quantifier standing on an atom or a group. */
  lemma {:induction false} ScanBoundedOnBase(r: Regex, rest: string, frames: seq<bool>, prev: bool)
    requires frames != [] && r.Valid() && r.NoEmptyClass() && r.Quantified?
    requires !r.repeat.Unbounded()
    ensures Scan(r.inner.Print() + (PrintRepeat(r.repeat, r.lazily) + rest), frames, prev) ==
            (r.NestsUnbounded() || Scan(rest, MarkTop(frames, r.HasUnbounded()), false))
    decreases r, 0
  {
    hide PrintRepeat;
    hide UnboundedLength;
    var tail := PrintRepeat(r.repeat, r.lazily) + rest;
    if r.inner.Group? {
      ScanGroup(r.inner, tail, frames, prev);
      BoundedLength(r.repeat, r.lazily, rest);
      ScanBounded(r.repeat, r.lazily, rest, MarkTop(frames, r.inner.HasUnbounded()), false);
    } else {
      assert !r.inner.HasUnbounded() && !r.inner.NestsUnbounded();
      ScanAtom(r.inner, tail, frames, prev);
      ScanBounded(r.repeat, r.lazily, rest, frames, false);
    }
  }

  /** An unbounded quantifier right after a quantified atom is caught. */
  lemma {:induction false} SecondQuantifier(q: Repeat, lazily: bool, rest: string, frames: seq<bool>)
    requires frames != [] && q.Valid() && q.Unbounded() && !StartsWith(rest, '?')
    ensures !StartsWith(PrintRepeat(q, lazily) + rest, '?')
    ensures Scan(PrintRepeat(q, lazily) + rest, frames, true)
  {
    UnboundedLengthExact(q, lazily, rest);
    assert (PrintRepeat(q, lazily) + rest)[0] == PrintRepeat(q, lazily)[0];
  }

  /** A quantifier and what it stands on. */
  lemma {:induction false} ScanQuantified(r: Regex, rest: string, frames: seq<bool>, prev: bool)
    requires frames != [] && r.Valid() && r.NoEmptyClass() && r.Quantified?
    requires !StartsWith(rest, '?')
    ensures Scan(r.Print() + rest, frames, prev) ==
            (r.NestsUnbounded() || Scan(rest, MarkTop(frames, r.HasUnbounded()), r.repeat.Unbounded()))
    decreases r, 1
  {
    hide PrintRepeat;
    hide UnboundedLength;
    var tail := PrintRepeat(r.repeat, r.lazily) + rest;
    assert r.Print() + rest == r.inner.Print() + tail;
    if !r.repeat.Unbounded() {
      ScanBoundedOnBase(r, rest, frames, prev);
    } else if r.inner.Quantified? {
      SecondQuantifier(r.repeat, r.lazily, rest, MarkTop(frames, true));
      ScanQuantified(r.inner, tail, frames, prev);
    } else {
      ScanUnboundedOnBase(r, rest, frames, prev);
    }
  }

  lemma {:induction false} MarkTwice(frames: seq<bool>, a: bool, b: bool)
    requires frames != []
    ensures MarkTop(MarkTop(frames, a), b) == MarkTop(frames, a || b)
  {
  }

  lemma {:induction false} ScanConcat(a: Regex, b: Regex, rest: string, frames: seq<bool>, prev: bool)
    requires var r := Concat(a, b); frames != [] && r.Valid() && r.NoEmptyClass()
    requires !StartsQuantifier(rest)
    ensures Scan(a.Print() + (b.Print() + rest), frames, prev) ==
            (a.NestsUnbounded() || b.NestsUnbounded() ||
             Scan(rest, MarkTop(frames, a.HasUnbounded() || b.HasUnbounded()), PrevAfter(b, PrevAfter(a, prev))))
    decreases Concat(a, b), 0
  {
    PrintHead(b);
    ScanRegex(a, b.Print() + rest, frames, prev);
    ScanRegex(b, rest, MarkTop(frames, a.HasUnbounded()), PrevAfter(a, prev));
    MarkTwice(frames, a.HasUnbounded(), b.HasUnbounded());
  }

  lemma {:induction false} ScanAlt(a: Regex, b: Regex, rest: string, frames: seq<bool>, prev: bool)
    requires var r := Alt(a, b); frames != [] && r.Valid() && r.NoEmptyClass()
    requires !StartsQuantifier(rest)
    ensures Scan(a.Print() + ("|" + (b.Print() + rest)), frames, prev) ==
            (a.NestsUnbounded() || b.NestsUnbounded() ||
             Scan(rest, MarkTop(frames, a.HasUnbounded() || b.HasUnbounded()), PrevAfter(b, false)))
    decreases Alt(a, b), 0
  {
    var tail := "|" + (b.Print() + rest);
    ScanRegex(a, tail, frames, prev);
    ScanOrdinary("|", b.Print() + rest, MarkTop(frames, a.HasUnbounded()), PrevAfter(a, prev));
    ScanRegex(b, rest, MarkTop(frames, a.HasUnbounded()), false);
    MarkTwice(frames, a.HasUnbounded(), b.HasUnbounded());
  }

  /** Scanning a printed pattern finds its nesting, or else records what it contains in the
      innermost open group and goes on with what follows. */
  lemma {:induction false} ScanRegex(r: Regex, rest: string, frames: seq<bool>, prev: bool)
    requires frames != [] && r.Valid() && r.NoEmptyClass()
    requires !StartsQuantifier(rest)
    ensures Scan(r.Print() + rest, frames, prev) ==
            (r.NestsUnbounded() || Scan(rest, MarkTop(frames, r.HasUnbounded()), PrevAfter(r, prev)))
    decreases r, 2
  {
    match r
    case Empty => assert r.Print() + rest == rest;
    case Literal(_) => ScanAtom(r, rest, frames, prev);
    case Escape(_) => ScanAtom(r, rest, frames, prev);
    case Class(_, _) => ScanAtom(r, rest, frames, prev);
    case Group(_, _) => ScanGroup(r, rest, frames, prev);
    case Quantified(_, _, _) => ScanQuantified(r, rest, frames, prev);
    case Concat(a, b) =>
      assert r.Print() + rest == a.Print() + (b.Print() + rest);
      ScanConcat(a, b, rest, frames, prev);
    case Alt(a, b) =>
      Regroup(a.Print(), "|", b.Print(), rest);
      ScanAlt(a, b, rest, frames, prev);
  }

  /** Main result: on every printed pattern without an empty class the verdict is exact. */
  lemma {:induction false} GuardIsExact(r: Regex)
    requires r.Valid() && r.NoEmptyClass()
    ensures Scan(r.Print(), [false], false) == r.NestsUnbounded()
  {
    assert r.Print() + "" == r.Print();
    ScanRegex(r, "", [false], false);
  }

  lemma {:induction false} GuardIsExactFor(pattern: string)
    ensures forall r: Regex :: r.Valid() && r.NoEmptyClass() && r.Print() == pattern ==>
              Scan(pattern, [false], false) == r.NestsUnbounded()
  {
    forall r: Regex | r.Valid() && r.NoEmptyClass() && r.Print() == pattern
      ensures Scan(pattern, [false], false) == r.NestsUnbounded()
    {
      GuardIsExact(r);
    }
  }

  // ----- Where the verdict is not exact: an empty class -----

  predicate NeverCloses(text: string) {
    forall i | 0 <= i < |text| :: text[i] != ']' && text[i] != '\\'
  }

  lemma {:induction false} NoBracket(text: string, rest: string)
    requires NeverCloses(text)
    ensures ToClassEnd(text + rest) == ToClassEnd(rest)
  {
    if text == "" {
      assert text + rest == rest;
    } else {
      assert (text + rest)[1..] == text[1..] + rest;
      NoBracket(text[1..], rest);
    }
  }

  /** Inside a class body everything up to the next unescaped `]` is passed over. */
  lemma {:induction false} NothingCloses(r: Regex, rest: string)
    requires r.Valid() && r.NoClass()
    ensures ToClassEnd(r.Print() + rest) == ToClassEnd(rest)
  {
    hide PrintRepeat;
    match r
    case Empty => assert r.Print() + rest == rest;
    case Literal(c) => NoBracket([c], rest);
    case Escape(c) => DropText(['\\', c], rest);
    case Group(prefix, body) =>
      Regroup("(" + prefix, body.Print(), ")", rest);
      assert NeverCloses("(" + prefix);
      NoBracket("(" + prefix, body.Print() + (")" + rest));
      NothingCloses(body, ")" + rest);
      NoBracket(")", rest);
    case Concat(a, b) =>
      assert r.Print() + rest == a.Print() + (b.Print() + rest);
      NothingCloses(a, b.Print() + rest);
      NothingCloses(b, rest);
    case Alt(a, b) =>
      Regroup(a.Print(), "|", b.Print(), rest);
      NothingCloses(a, "|" + (b.Print() + rest));
      NoBracket("|", b.Print() + rest);
      NothingCloses(b, rest);
    case Quantified(a, q, lazily) =>
      assert r.Print() + rest == a.Print() + (PrintRepeat(q, lazily) + rest);
      NothingCloses(a, PrintRepeat(q, lazily) + rest);
      RepeatHasNoBracket(q, lazily);
      NoBracket(PrintRepeat(q, lazily), rest);
  }

  lemma {:induction false} RepeatHasNoBracket(q: Repeat, lazily: bool)
    requires q.Valid()
    ensures NeverCloses(PrintRepeat(q, lazily))
  {
  }

  /** A group that is open, and what was read in it: its prefix and a pattern. */
  datatype Level = Level(prefix: string, before: Regex)
  {
    predicate Valid() {
      AllOrdinary(prefix) && before.Valid() && before.NoEmptyClass()
    }

    function Print(): string {
      "(" + prefix + before.Print()
    }
  }

  /** The text of `top` and of the groups left open after it, innermost last. */
  function Opened(top: Regex, levels: seq<Level>): string {
    if levels == [] then top.Print() else Opened(top, levels[..|levels| - 1]) + levels[|levels| - 1].Print()
  }

  function FramesOf(top: Regex, levels: seq<Level>): (r: seq<bool>)
    ensures r != []
  {
    if levels == [] then [top.HasUnbounded()]
    else FramesOf(top, levels[..|levels| - 1]) + [levels[|levels| - 1].before.HasUnbounded()]
  }

  predicate AnyNests(top: Regex, levels: seq<Level>) {
    top.NestsUnbounded() || exists l :: l in levels && l.before.NestsUnbounded()
  }

  predicate AllValid(top: Regex, levels: seq<Level>) {
    top.Valid() && top.NoEmptyClass() && forall l | l in levels :: l.Valid()
  }

  function LastPrev(top: Regex, levels: seq<Level>): bool {
    PrevAfter(if levels == [] then top else levels[|levels| - 1].before, false)
  }

  /** A group that opens and is not closed yet. */
  lemma {:induction false} ScanLevel(l: Level, rest: string, frames: seq<bool>, prev: bool)
    requires frames != [] && l.Valid() && !StartsQuantifier(rest)
    ensures Scan(l.Print() + rest, frames, prev) ==
            (l.before.NestsUnbounded()
             || Scan(rest, frames + [l.before.HasUnbounded()], PrevAfter(l.before, false)))
  {
    hide Scan, AllOrdinary, StartsQuantifier;
    var inner, s, fs := l.before.Print() + rest, l.Print() + rest, frames + [false];
    assert s[1..] == l.prefix + inner;
    ScanOpen(s, frames, prev);
    ScanOrdinary(l.prefix, inner, fs, false);
    ScanRegex(l.before, rest, fs, false);
    assert MarkTop(fs, l.before.HasUnbounded()) == frames + [l.before.HasUnbounded()];
  }

  lemma OpenedSnoc(top: Regex, init: seq<Level>, l: Level)
    ensures Opened(top, init + [l]) == Opened(top, init) + l.Print()
    ensures FramesOf(top, init + [l]) == FramesOf(top, init) + [l.before.HasUnbounded()]
    ensures AnyNests(top, init + [l]) <==> AnyNests(top, init) || l.before.NestsUnbounded()
    ensures AllValid(top, init + [l]) <==> AllValid(top, init) && l.Valid()
    ensures LastPrev(top, init + [l]) == PrevAfter(l.before, false)
  {
    var levels := init + [l];
    assert levels[..|levels| - 1] == init && levels[|levels| - 1] == l;
    assert forall x :: x in levels <==> x in init || x == l;
  }

  /** Scanning up to any point inside open groups. */
  lemma {:induction false} ScanOpened(top: Regex, levels: seq<Level>, rest: string)
    requires AllValid(top, levels) && !StartsQuantifier(rest)
    ensures Scan(Opened(top, levels) + rest, [false], false) ==
            (AnyNests(top, levels) || Scan(rest, FramesOf(top, levels), LastPrev(top, levels)))
    decreases |levels|
  {
    hide Scan;
    if levels == [] {
      ScanRegex(top, rest, [false], false);
      assert MarkTop([false], top.HasUnbounded()) == [top.HasUnbounded()];
    } else {
      var init, l := levels[..|levels| - 1], levels[|levels| - 1];
      assert levels == init + [l];
      OpenedSnoc(top, init, l);
      hide Opened, FramesOf, AnyNests, AllValid, LastPrev;
      assert Opened(top, levels) + rest == Opened(top, init) + (l.Print() + rest);
      assert (l.Print() + rest)[0] == '(';
      ScanOpened(top, init, l.Print() + rest);
      ScanLevel(l, rest, FramesOf(top, init), LastPrev(top, init));
    }
  }

  /** An empty class is taken to go on to the next unescaped bracket, whatever stands between. */
  lemma {:induction false} ScanEmptyClass(negated: bool, rest: string, frames: seq<bool>, prev: bool)
    requires frames != []
    ensures Scan(Class(negated, []).Print() + rest, frames, prev) == Scan(Drop(ToClassEnd(rest), 1), frames, false)
  {
    var s := Class(negated, []).Print() + rest;
    var body := (if negated then "^]" else "]") + rest;
    assert Class(negated, []).Print() == "[" + (if negated then "^]" else "]");
    assert s == "[" + body;
    assert s[1..] == body;
    assert SkipChar(SkipChar(body, '^'), ']') == rest;
  }

  /** The verdict on a pattern from its first empty class on: it is flagged exactly when something
      in front of the class nests, or the scan goes on to flag what follows the next unescaped
      bracket, in the groups that were open at the class. */
  lemma {:induction false} EmptyClassVerdict(top: Regex, levels: seq<Level>, negated: bool, rest: string)
    requires AllValid(top, levels)
    ensures Scan(Opened(top, levels) + (Class(negated, []).Print() + rest), [false], false) ==
            (AnyNests(top, levels) || Scan(Drop(ToClassEnd(rest), 1), FramesOf(top, levels), false))
  {
    hide Scan;
    assert Class(negated, []).Print()[0] == '[';
    ScanOpened(top, levels, Class(negated, []).Print() + rest);
    ScanEmptyClass(negated, rest, FramesOf(top, levels), LastPrev(top, levels));
  }

  lemma {:induction false} OpenedAfter(first: string, a: Regex, b: Regex, levels: seq<Level>)
    requires a.Print() == first + b.Print()
    ensures Opened(a, levels) == first + Opened(b, levels)
    decreases |levels|
  {
    if levels != [] {
      OpenedAfter(first, a, b, levels[..|levels| - 1]);
    }
  }

  lemma {:induction false} OpenedInGroup(l: Level, levels: seq<Level>)
    ensures Opened(Empty, [l] + levels) == "(" + l.prefix + Opened(l.before, levels)
    decreases |levels|
  {
    if levels == [] {
      assert [l] + levels == [l] && [l][..0] == [];
      assert Opened(Empty, [l]) == "" + l.Print();
    } else {
      var init, last := levels[..|levels| - 1], levels[|levels| - 1];
      assert ([l] + levels)[..|levels|] == [l] + init && ([l] + levels)[|levels|] == last;
      OpenedInGroup(l, init);
    }
  }

  /** The pattern's first empty class comes after these open groups and before `rest`; what nests
      in front of it nests in the pattern. */
  ghost predicate FirstEmptyAt(r: Regex, top: Regex, levels: seq<Level>, negated: bool, rest: string) {
    && AllValid(top, levels) && r.Print() == Opened(top, levels) + (Class(negated, []).Print() + rest)
    && (AnyNests(top, levels) ==> r.NestsUnbounded())
  }

  lemma {:induction false} EmptyHere(negated: bool)
    ensures FirstEmptyAt(Class(negated, []), Empty, [], negated, "")
  {
    assert Class(negated, []).Print() == "" + (Class(negated, []).Print() + "");
  }

  lemma {:induction false} EmptyInGroup(prefix: string, body: Regex, top: Regex, levels: seq<Level>, negated: bool,
                                        rest: string)
    requires AllOrdinary(prefix) && FirstEmptyAt(body, top, levels, negated, rest)
    ensures FirstEmptyAt(Group(prefix, body), Empty, [Level(prefix, top)] + levels, negated, rest + ")")
  {
    OpenedInGroup(Level(prefix, top), levels);
    Close("(" + prefix, Opened(top, levels), Class(negated, []).Print(), rest, ")");
    hide AllOrdinary, Opened;
    var all := [Level(prefix, top)] + levels;
    assert forall l | l in all :: l == Level(prefix, top) || l in levels;
  }

  lemma {:induction false} EmptyInFront(r: Regex, a: Regex, tail: string, top: Regex, levels: seq<Level>,
                                        negated: bool, rest: string)
    requires FirstEmptyAt(a, top, levels, negated, rest) && r.Print() == a.Print() + tail
    requires a.NestsUnbounded() ==> r.NestsUnbounded()
    ensures FirstEmptyAt(r, top, levels, negated, rest + tail)
  {
    hide AllValid, Opened, AnyNests;
    Close("", Opened(top, levels), Class(negated, []).Print(), rest, tail);
    assert "" + Opened(top, levels) == Opened(top, levels);
    assert "" + (Opened(top, levels) + (Class(negated, []).Print() + rest)) == a.Print();
  }

  lemma {:induction false} EmptyBehind(r: Regex, first: string, b: Regex, top: Regex, top': Regex, levels: seq<Level>,
                                       negated: bool, rest: string)
    requires FirstEmptyAt(b, top, levels, negated, rest) && r.Print() == first + b.Print()
    requires top'.Print() == first + top.Print() && top'.Valid() && top'.NoEmptyClass()
    requires b.NestsUnbounded() ==> r.NestsUnbounded()
    requires top'.NestsUnbounded() ==> r.NestsUnbounded() || top.NestsUnbounded()
    ensures FirstEmptyAt(r, top', levels, negated, rest)
  {
    OpenedAfter(first, top', top, levels);
    SameLevels(top, top', levels);
    hide Opened, AllValid, AnyNests;
    Close(first, Opened(top, levels), Class(negated, []).Print(), rest, "");
    assert first + (Opened(top, levels) + (Class(negated, []).Print() + rest)) + "" == r.Print();
    assert rest + "" == rest;
  }

  lemma SameLevels(top: Regex, top': Regex, levels: seq<Level>)
    requires AllValid(top, levels) && top'.Valid() && top'.NoEmptyClass()
    ensures AllValid(top', levels)
    ensures AnyNests(top', levels) ==> top'.NestsUnbounded() || AnyNests(top, levels)
    ensures top.NestsUnbounded() ==> AnyNests(top, levels)
  {
  }

  /** Where a pattern first has an empty class: the patterns in front of it, level by level. */
  lemma {:induction false} FirstEmptyClass(r: Regex)
    returns (top: Regex, levels: seq<Level>, negated: bool, rest: string)
    requires r.Valid() && !r.NoEmptyClass()
    ensures FirstEmptyAt(r, top, levels, negated, rest)
  {
    hide AllOrdinary, ValidItems, FirstEmptyAt, PrintRepeat;
    match r
    case Class(n, items) =>
      top, levels, negated, rest := Empty, [], n, "";
      EmptyHere(n);
    case Group(prefix, body) =>
      var inner, ls, after;
      inner, ls, negated, after := FirstEmptyClass(body);
      EmptyInGroup(prefix, body, inner, ls, negated, after);
      top, levels, rest := Empty, [Level(prefix, inner)] + ls, after + ")";
    case Concat(a, b) =>
      if !a.NoEmptyClass() {
        var after;
        top, levels, negated, after := FirstEmptyClass(a);
        EmptyInFront(r, a, b.Print(), top, levels, negated, after);
        rest := after + b.Print();
      } else {
        var later;
        later, levels, negated, rest := FirstEmptyClass(b);
        top := Concat(a, later);
        TopIsValid(b, later, levels, negated, rest);
        EmptyBehind(r, a.Print(), b, later, top, levels, negated, rest);
      }
    case Alt(a, b) =>
      if !a.NoEmptyClass() {
        var after;
        top, levels, negated, after := FirstEmptyClass(a);
        assert r.Print() == a.Print() + ("|" + b.Print());
        EmptyInFront(r, a, "|" + b.Print(), top, levels, negated, after);
        rest := after + ("|" + b.Print());
      } else {
        var later;
        later, levels, negated, rest := FirstEmptyClass(b);
        top := Alt(a, later);
        TopIsValid(b, later, levels, negated, rest);
        EmptyBehind(r, a.Print() + "|", b, later, top, levels, negated, rest);
      }
    case Quantified(a, q, lazily) =>
      var after;
      top, levels, negated, after := FirstEmptyClass(a);
      EmptyInFront(r, a, PrintRepeat(q, lazily), top, levels, negated, after);
      rest := after + PrintRepeat(q, lazily);
  }

  lemma TopIsValid(b: Regex, top: Regex, levels: seq<Level>, negated: bool, rest: string)
    requires FirstEmptyAt(b, top, levels, negated, rest)
    ensures top.Valid() && top.NoEmptyClass() && (top.NestsUnbounded() ==> b.NestsUnbounded())
  {
    hide Opened;
  }

  lemma Close(a: string, b: string, c: string, d: string, e: string)
    ensures a + (b + (c + d)) + e == (a + b) + (c + (d + e))
  {
  }

  /** Exactly when the guard is right about a pattern with an empty class and no unescaped bracket
      after its first one: something in front of the class nests, or nothing in the pattern does.
      In general the verdict is what `EmptyClassVerdict` says. */
  lemma {:induction false} EmptyClassHidesTheRest(r: Regex)
    returns (top: Regex, levels: seq<Level>, negated: bool, rest: string)
    requires r.Valid() && !r.NoEmptyClass()
    ensures FirstEmptyAt(r, top, levels, negated, rest)
    ensures Scan(r.Print(), [false], false) ==
            (AnyNests(top, levels) || Scan(Drop(ToClassEnd(rest), 1), FramesOf(top, levels), false))
    ensures ToClassEnd(rest) == "" ==>
              (Scan(r.Print(), [false], false) == r.NestsUnbounded() <==>
                 AnyNests(top, levels) || !r.NestsUnbounded())
  {
    top, levels, negated, rest := FirstEmptyClass(r);
    hide Opened, AllValid, AnyNests, ToClassEnd, FramesOf;
    EmptyClassVerdict(top, levels, negated, rest);
  }

  lemma ThreeInSequence(a: Regex, b: Regex, c: Regex)
    requires a.Valid() && b.Valid() && c.Valid()
    ensures var r := Concat(a, Concat(b, c));
            && r.Valid() && r.Print() == a.Print() + (b.Print() + c.Print())
            && r.NestsUnbounded() == (a.NestsUnbounded() || b.NestsUnbounded() || c.NestsUnbounded())
  {
    assert Concat(b, c).Valid() && Concat(b, c).Print() == b.Print() + c.Print();
  }

  lemma EmptyClassIsValid(negated: bool)
    ensures Class(negated, []).Valid() && !Class(negated, []).NestsUnbounded()
  {
  }

  /** In a sequence, with no class after it: the guard is right exactly when something in front of
      the empty class nests, or nothing behind it does. */
  lemma {:induction false} NothingBehindIsSeen(a: Regex, negated: bool, k: Regex)
    requires a.Valid() && a.NoEmptyClass() && k.Valid() && k.NoClass()
    ensures var r := Concat(a, Concat(Class(negated, []), k));
            var verdict := Scan(r.Print(), [false], false);
            && r.Valid() && verdict == a.NestsUnbounded()
            && (verdict == r.NestsUnbounded() <==> a.NestsUnbounded() || !k.NestsUnbounded())
  {
    EmptyClassIsValid(negated);
    ThreeInSequence(a, Class(negated, []), k);
    assert Opened(a, []) == a.Print() && FramesOf(a, []) == [a.HasUnbounded()];
    assert AnyNests(a, []) == a.NestsUnbounded() && k.Print() + "" == k.Print();
    NothingLeft("", 0, [a.HasUnbounded()], false);
    hide Scan, Opened, FramesOf, AnyNests;
    NothingCloses(k, "");
    EmptyClassVerdict(a, [], negated, k.Print());
  }

  /** In a sequence, with a later class: the scan resumes behind that one, so the guard is right
      exactly when what stands between the two does not nest, or something outside does. */
  lemma {:induction false} ScanningResumes(a: Regex, negated: bool, between: Regex, negated': bool,
                                           items: seq<ClassItem>, k: Regex)
    requires a.Valid() && a.NoEmptyClass() && between.Valid() && between.NoClass()
    requires Class(negated', items).Valid() && k.Valid() && k.NoEmptyClass()
    ensures var r := Concat(a, Concat(Class(negated, []), Concat(between, Concat(Class(negated', items), k))));
            var verdict := Scan(r.Print(), [false], false);
            && r.Valid() && verdict == (a.NestsUnbounded() || k.NestsUnbounded())
            && (verdict == r.NestsUnbounded() <==>
                  a.NestsUnbounded() || k.NestsUnbounded() || !between.NestsUnbounded())
  {
    var tail := Concat(between, Concat(Class(negated', items), k));
    assert Opened(a, []) == a.Print() && FramesOf(a, []) == [a.HasUnbounded()];
    assert AnyNests(a, []) == a.NestsUnbounded();
    ResumesBehind(between, negated', items, k);
    EmptyClassIsValid(negated);
    ThreeInSequence(between, Class(negated', items), k);
    ThreeInSequence(a, Class(negated, []), tail);
    assert !Class(negated', items).NestsUnbounded();
    hide Scan, ToClassEnd, ValidItems, Opened, FramesOf, AnyNests;
    EmptyClassVerdict(a, [], negated, tail.Print());
    ScanToEnd(k, [a.HasUnbounded()]);
  }

  lemma {:induction false} ResumesBehind(between: Regex, negated: bool, items: seq<ClassItem>, k: Regex)
    requires between.Valid() && between.NoClass() && ValidItems(items)
    ensures Drop(ToClassEnd(Concat(between, Concat(Class(negated, items), k)).Print()), 1) == k.Print()
  {
    var last := Class(negated, items);
    hide ToClassEnd, ValidItems;
    assert Concat(between, Concat(last, k)).Print() == between.Print() + (last.Print() + k.Print());
    NothingCloses(between, last.Print() + k.Print());
    ClassCloses(negated, items, k.Print());
    DropText("]", k.Print());
  }

  lemma {:induction false} ScanToEnd(k: Regex, frames: seq<bool>)
    requires k.Valid() && k.NoEmptyClass() && frames != []
    ensures Scan(k.Print(), frames, false) == k.NestsUnbounded()
  {
    assert k.Print() + "" == k.Print();
    NothingLeft("", 0, MarkTop(frames, k.HasUnbounded()), PrevAfter(k, false));
    hide Scan;
    ScanRegex(k, "", frames, false);
  }

  lemma {:induction false} ClassCloses(negated: bool, items: seq<ClassItem>, rest: string)
    requires ValidItems(items)
    ensures ToClassEnd(Class(negated, items).Print() + rest) == "]" + rest
  {
    var open := "[" + if negated then "^" else "";
    var s := PrintItems(items) + "]" + rest;
    assert Class(negated, items).Print() + rest == open + s;
    NoBracket(open, s);
    ClassEnd(items, rest);
  }

  lemma {:induction false} NestedPlus()
    ensures var a := Quantified(Literal('a'), Plus, false);
            var k := Quantified(Group("", a), Plus, false);
            && k.Valid() && k.NestsUnbounded() && k.NoClass() && k.Print() == "(a+)+"
  {
    var a := Quantified(Literal('a'), Plus, false);
    assert a.Valid() && a.HasUnbounded() && a.NoClass() && a.Print() == "a+";
    assert Group("", a).Valid() && Group("", a).HasUnbounded() && Group("", a).Print() == "(a+)";
  }

  /** `[](a+)+` nests, and the guard lets it through. */
  lemma {:induction false} EmptyClassCounterexample()
    ensures var k := Quantified(Group("", Quantified(Literal('a'), Plus, false)), Plus, false);
            var r := Concat(Empty, Concat(Class(false, []), k));
            r.Valid() && r.Print() == "[](a+)+" && r.NestsUnbounded() && !Scan(r.Print(), [false], false)
  {
    var k := Quantified(Group("", Quantified(Literal('a'), Plus, false)), Plus, false);
    NestedPlus();
    assert Class(false, []).Print() == "[]" && "" + ("[]" + "(a+)+") == "[](a+)+";
    hide Scan;
    NothingBehindIsSeen(Empty, false, k);
  }
}
