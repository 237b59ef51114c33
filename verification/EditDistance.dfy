/** The edit distance behind "did you mean" hints. The dynamic-programming matrix is compared
    with scripts of single-character edits: one of the returned length exists, none is shorter. */
module EditDistance {
  import opened Common

  /** One edit of a string, at a position in the string as it then stands. */
  datatype Edit = Insert(at: nat, c: char) | Delete(at: nat) | Substitute(at: nat, c: char)

  function Apply(e: Edit, s: string): Option<string> {
    match e
    case Insert(i, c) => if i <= |s| then Some(s[..i] + [c] + s[i..]) else None
    case Delete(i) => if i < |s| then Some(s[..i] + s[i + 1..]) else None
    case Substitute(i, c) => if i < |s| then Some(s[..i] + [c] + s[i + 1..]) else None
  }

  function ApplyAll(script: seq<Edit>, s: string): Option<string> {
    if script == [] then Some(s)
    else match ApplyAll(script[..|script| - 1], s)
         case None => None
         case Some(t) => Apply(script[|script| - 1], t)
  }

  ghost predicate Turns(script: seq<Edit>, a: string, b: string) {
    ApplyAll(script, a) == Some(b)
  }

  ghost predicate IsDistance(a: string, b: string, d: nat) {
    && (exists script :: Turns(script, a, b) && |script| == d)
    && (forall script | Turns(script, a, b) :: d <= |script|)
  }

  function Min(x: nat, y: nat): nat {
    if x < y then x else y
  }

  function Cost(a: string, b: string): nat
    requires a != [] && b != []
  {
    if a[|a| - 1] == b[|b| - 1] then 0 else 1
  }

  function Init(s: string): string
    requires s != []
  {
    s[..|s| - 1]
  }

  /** What a cell of the matrix holds, as a function of the two prefixes it stands for. */
  function Cell(a: string, b: string): nat
    decreases |a| + |b|
  {
    if a == [] then |b|
    else if b == [] then |a|
    else Min(Min(Cell(a, Init(b)) + 1, Cell(Init(a), b) + 1), Cell(Init(a), Init(b)) + Cost(a, b))
  }

  // ----- No script is shorter -----

  lemma {:induction false} GrowFirst(a: string, x: char, b: string)
    ensures Cell(a + [x], b) <= Cell(a, b) + 1
  {
    assert Init(a + [x]) == a;
  }

  lemma {:induction false} GrowSecond(a: string, b: string, y: char)
    ensures Cell(a, b + [y]) <= Cell(a, b) + 1
  {
    assert Init(b + [y]) == b;
  }

  /** Dropping the last character of the second string costs at most one. */
  lemma {:induction false} ShrinkSecond(a: string, b: string, y: char)
    ensures Cell(a, b) <= Cell(a, b + [y]) + 1
  {
    assert Init(b + [y]) == b;
    if a != [] {
      assert Init(a) + [a[|a| - 1]] == a;
      ShrinkSecond(Init(a), b, y);
      GrowFirst(Init(a), a[|a| - 1], b);
    }
  }

  lemma {:induction false} SubstituteLast(a: string, b: string, x: char, y: char)
    ensures Cell(a, b + [y]) <= Cell(a, b + [x]) + 1
  {
    assert Init(b + [x]) == b && Init(b + [y]) == b;
    if a != [] {
      SubstituteLast(Init(a), b, x, y);
    }
  }

  ghost predicate AtMostOneMore(b: string, c: string) {
    forall a :: Cell(a, c) <= Cell(a, b) + 1
  }

  /** What holds of two strings holds of both with the same character appended. */
  lemma {:induction false} SameLast(a: string, b: string, c: string, y: char)
    requires AtMostOneMore(b, c)
    ensures Cell(a, c + [y]) <= Cell(a, b + [y]) + 1
  {
    assert Init(b + [y]) == b && Init(c + [y]) == c;
    if a == [] {
      assert Cell([], c) <= Cell([], b) + 1;
    } else {
      SameLast(Init(a), b, c, y);
      assert Cell(a, c) <= Cell(a, b) + 1;
      assert Cell(Init(a), c) <= Cell(Init(a), b) + 1;
    }
  }

  /** An edit before the last character leaves that character alone. */
  lemma EditBeforeLast(e: Edit, b: string, y: char)
    requires Apply(e, b).Some?
    ensures Apply(e, b + [y]) == Some(Apply(e, b).value + [y])
  {
    match e
    case Insert(i, x) =>
      assert (b + [y])[..i] + [x] + (b + [y])[i..] == b[..i] + [x] + b[i..] + [y];
    case Delete(i) =>
      assert (b + [y])[..i] + (b + [y])[i + 1..] == b[..i] + b[i + 1..] + [y];
    case Substitute(i, x) =>
      assert (b + [y])[..i] + [x] + (b + [y])[i + 1..] == b[..i] + [x] + b[i + 1..] + [y];
  }

  /** An edit that does not fit the string without its last character acts on the end. */
  lemma EditAtEnd(e: Edit, b: string, y: char)
    requires Apply(e, b + [y]).Some? && Apply(e, b).None?
    ensures match e
            case Insert(i, x) => Apply(e, b + [y]).value == b + [y] + [x]
            case Delete(i) => Apply(e, b + [y]).value == b
            case Substitute(i, x) => Apply(e, b + [y]).value == b + [x]
  {
  }

  /** One edit changes the value of a cell by at most one. */
  lemma {:induction false} OneEdit(e: Edit, b: string)
    requires Apply(e, b).Some?
    ensures AtMostOneMore(b, Apply(e, b).value)
    decreases |b|
  {
    if b == [] {
      assert Apply(e, b).value == b + [e.c];
      forall a ensures Cell(a, Apply(e, b).value) <= Cell(a, b) + 1 {
        GrowSecond(a, b, e.c);
      }
    } else {
      var b0, y := Init(b), b[|b| - 1];
      assert b == b0 + [y];
      if Apply(e, b0).Some? {
        OneEdit(e, b0);
        EditBeforeLast(e, b0, y);
        forall a ensures Cell(a, Apply(e, b).value) <= Cell(a, b) + 1 {
          SameLast(a, b0, Apply(e, b0).value, y);
        }
      } else {
        EditAtEnd(e, b0, y);
        forall a ensures Cell(a, Apply(e, b).value) <= Cell(a, b) + 1 {
          match e
          case Insert(_, x) => GrowSecond(a, b, x);
          case Delete(_) => ShrinkSecond(a, b0, y);
          case Substitute(_, x) => SubstituteLast(a, b0, y, x);
        }
      }
    }
  }

  lemma {:induction false} CellOfSame(a: string)
    ensures Cell(a, a) == 0
  {
    if a != [] {
      CellOfSame(Init(a));
    }
  }

  lemma {:induction false} NoneShorter(script: seq<Edit>, a: string, b: string)
    requires Turns(script, a, b)
    ensures Cell(a, b) <= |script|
    decreases |script|
  {
    if script == [] {
      CellOfSame(a);
    } else {
      var before := script[..|script| - 1];
      var c := ApplyAll(before, a).value;
      NoneShorter(before, a, c);
      OneEdit(script[|script| - 1], c);
      assert Cell(a, b) <= Cell(a, c) + 1;
    }
  }

  // ----- A script of that length exists -----

  lemma {:induction false} Then(script: seq<Edit>, e: Edit, a: string, b: string)
    requires Turns(script, a, b)
    ensures ApplyAll(script + [e], a) == Apply(e, b)
  {
    assert (script + [e])[..|script|] == script;
  }

  lemma {:induction false} First(e: Edit, script: seq<Edit>, a: string, c: string)
    requires Apply(e, a) == Some(c)
    ensures ApplyAll([e] + script, a) == ApplyAll(script, c)
    decreases |script|
  {
    if script == [] {
      assert [e] + script == [e];
      assert ApplyAll([e][..0], a) == Some(a);
    } else {
      First(e, script[..|script| - 1], a, c);
      assert ([e] + script)[..|script|] == [e] + script[..|script| - 1];
    }
  }

  lemma {:induction false} InFrontOf(script: seq<Edit>, a: string, b: string, y: char)
    requires Turns(script, a, b)
    ensures Turns(script, a + [y], b + [y])
    decreases |script|
  {
    if script != [] {
      var before := script[..|script| - 1];
      var c := ApplyAll(before, a).value;
      InFrontOf(before, a, c, y);
      EditBeforeLast(script[|script| - 1], c, y);
    }
  }

  lemma {:induction false} InsertLast(script: seq<Edit>, a: string, b: string)
    requires b != [] && Turns(script, a, Init(b))
    ensures Turns(script + [Insert(|b| - 1, b[|b| - 1])], a, b)
  {
    Then(script, Insert(|b| - 1, b[|b| - 1]), a, Init(b));
    assert Init(b)[..|b| - 1] + [b[|b| - 1]] + Init(b)[|b| - 1..] == b;
  }

  lemma {:induction false} DeleteLast(script: seq<Edit>, a: string, b: string)
    requires a != [] && Turns(script, Init(a), b)
    ensures Turns([Delete(|a| - 1)] + script, a, b)
  {
    assert a[..|a| - 1] + a[|a| - 1 + 1..] == Init(a);
    First(Delete(|a| - 1), script, a, Init(a));
  }

  lemma {:induction false} ReplaceLast(script: seq<Edit>, a: string, b: string)
    requires a != [] && b != [] && Turns(script, Init(a), Init(b))
    ensures Cost(a, b) == 0 ==> Turns(script, a, b)
    ensures Turns([Substitute(|a| - 1, b[|b| - 1])] + script, a, b)
  {
    var y := b[|b| - 1];
    InFrontOf(script, Init(a), Init(b), y);
    assert Init(b) + [y] == b;
    assert Cost(a, b) == 0 ==> Init(a) + [y] == a;
    assert a[..|a| - 1] + [y] + a[|a| - 1 + 1..] == Init(a) + [y];
    First(Substitute(|a| - 1, y), script, a, Init(a) + [y]);
  }

  lemma {:induction false} ScriptExists(a: string, b: string) returns (script: seq<Edit>)
    ensures Turns(script, a, b) && |script| == Cell(a, b)
    decreases |a| + |b|
  {
    if a == [] && b == [] {
      script := [];
    } else if a == [] || (b != [] && Cell(a, b) == Cell(a, Init(b)) + 1) {
      script := ScriptExists(a, Init(b));
      InsertLast(script, a, b);
      script := script + [Insert(|b| - 1, b[|b| - 1])];
    } else if b == [] || Cell(a, b) == Cell(Init(a), b) + 1 {
      script := ScriptExists(Init(a), b);
      DeleteLast(script, a, b);
      script := [Delete(|a| - 1)] + script;
    } else {
      script := ScriptExists(Init(a), Init(b));
      ReplaceLast(script, a, b);
      if Cost(a, b) == 1 {
        script := [Substitute(|a| - 1, b[|b| - 1])] + script;
      }
    }
  }

  /** The recurrence of the matrix computes the length of a shortest edit script. */
  lemma CellIsDistance(a: string, b: string)
    ensures IsDistance(a, b, Cell(a, b))
  {
    var script := ScriptExists(a, b);
    forall other | Turns(other, a, b) ensures Cell(a, b) <= |other| {
      NoneShorter(other, a, b);
    }
  }

  // ----- The matrix, filled in place -----

  ghost predicate FirstColumn(matrix: array2<nat>)
    requires matrix.Length1 > 0
    reads matrix
  {
    forall r | 0 <= r < matrix.Length0 :: matrix[r, 0] == r
  }

  /** The cells of row `i` before column `n`. */
  ghost predicate Row(matrix: array2<nat>, i: nat, n: nat, a: string, b: string)
    requires matrix.Length0 == |b| + 1 && matrix.Length1 == |a| + 1
    requires i <= |b| && n <= |a| + 1
    reads matrix
  {
    forall k | 0 <= k < n :: matrix[i, k] == Cell(a[..k], b[..i])
  }

  method NewMatrix(a: string, b: string) returns (matrix: array2<nat>)
    ensures fresh(matrix) && matrix.Length0 == |b| + 1 && matrix.Length1 == |a| + 1
    ensures FirstColumn(matrix) && Row(matrix, 0, |a| + 1, a, b)
  {
    matrix := new nat[|b| + 1, |a| + 1];
    for i := 0 to |b| + 1
      invariant forall r | 0 <= r < i :: matrix[r, 0] == r
    {
      matrix[i, 0] := i;
    }
    for j := 0 to |a| + 1
      invariant FirstColumn(matrix) && Row(matrix, 0, j, a, b)
    {
      matrix[0, j] := j;
    }
  }

  lemma {:induction false} NextCell(x: string, y: string)
    requires x != [] && y != []
    ensures Cell(x, y) == Min(Min(Cell(x, Init(y)) + 1, Cell(Init(x), y) + 1), Cell(Init(x), Init(y)) + Cost(x, y))
  {
  }

  lemma FirstCell(b: string, i: nat)
    requires i <= |b|
    ensures Cell([], b[..i]) == i
  {
  }

  method FillRow(matrix: array2<nat>, i: nat, a: string, b: string)
    requires matrix.Length0 == |b| + 1 && matrix.Length1 == |a| + 1
    requires 1 <= i <= |b|
    requires FirstColumn(matrix) && Row(matrix, i - 1, |a| + 1, a, b)
    modifies matrix
    ensures FirstColumn(matrix) && Row(matrix, i, |a| + 1, a, b)
  {
    hide Cell, Min;
    FirstCell(b, i);
    assert a[..0] == [];
    for j := 1 to |a| + 1
      invariant FirstColumn(matrix)
      invariant Row(matrix, i - 1, |a| + 1, a, b) && Row(matrix, i, j, a, b)
    {
      var cost := if a[j - 1] == b[i - 1] then 0 else 1;
      var up, left, diag := matrix[i - 1, j], matrix[i, j - 1], matrix[i - 1, j - 1];
      NextCell(a[..j], b[..i]);
      assert Init(a[..j]) == a[..j - 1] && Init(b[..i]) == b[..i - 1];
      matrix[i, j] := Min(Min(up + 1, left + 1), diag + cost);
    }
  }

  method Levenshtein(a: string, b: string) returns (distance: nat)
    ensures IsDistance(a, b, distance)
  {
    CellIsDistance(a, b);
    if a == b {
      CellOfSame(a);
      return 0;
    }
    if |a| == 0 { return |b|; }
    if |b| == 0 { return |a|; }
    distance := FillMatrix(a, b);
  }

  method FillMatrix(a: string, b: string) returns (distance: nat)
    ensures distance == Cell(a, b)
  {
    hide Cell, FirstColumn;
    var matrix := NewMatrix(a, b);
    for i := 1 to |b| + 1
      invariant FirstColumn(matrix) && Row(matrix, i - 1, |a| + 1, a, b)
    {
      FillRow(matrix, i, a, b);
    }
    assert a[..|a|] == a && b[..|b|] == b;
    distance := matrix[|b|, |a|];
  }
}
