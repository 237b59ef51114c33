/** Migration folder names in the order JavaScript sorts strings, and the sorted list of a set. */
module MigrationNames {
  import opened Decimals

  predicate Before(a: string, b: string) {
    b != [] && (a == [] || a[0] < b[0] || (a[0] == b[0] && Before(a[1..], b[1..])))
  }

  lemma {:induction false} NotBeforeItself(a: string)
    ensures !Before(a, a)
  {
    if a != [] {
      NotBeforeItself(a[1..]);
    }
  }

  lemma {:induction false} BeforeTransitive(a: string, b: string, c: string)
    requires Before(a, b) && Before(b, c)
    ensures Before(a, c)
  {
    if a != [] && a[0] == b[0] == c[0] {
      BeforeTransitive(a[1..], b[1..], c[1..]);
    }
  }

  lemma {:induction false} BeforeTotal(a: string, b: string)
    ensures a == b || Before(a, b) || Before(b, a)
  {
    if a != [] && b != [] {
      BeforeTotal(a[1..], b[1..]);
      assert a == [a[0]] + a[1..] && b == [b[0]] + b[1..];
    }
  }

  lemma NotBoth(a: string, b: string)
    ensures !(Before(a, b) && Before(b, a))
  {
    if Before(a, b) && Before(b, a) {
      BeforeTransitive(a, b, a);
      NotBeforeItself(a);
    }
  }

  /** Up to position `k` the names agree, and there `a` ends first or has the smaller character. */
  ghost predicate DifferAt(a: string, b: string, k: nat) {
    k <= |a| && k < |b| && a[..k] == b[..k] && (k == |a| || a[k] < b[k])
  }

  /** The order of names is that of their first difference. */
  lemma {:induction false} BeforeIs(a: string, b: string)
    ensures Before(a, b) <==> exists k: nat :: DifferAt(a, b, k)
  {
    if b != [] && (a == [] || a[0] < b[0]) {
      assert DifferAt(a, b, 0);
    } else if a != [] && b != [] && a[0] == b[0] {
      BeforeIs(a[1..], b[1..]);
      if k: nat :| DifferAt(a[1..], b[1..], k) {
        assert a[..k + 1] == [a[0]] + a[1..][..k] && b[..k + 1] == [b[0]] + b[1..][..k];
        assert DifferAt(a, b, k + 1);
      }
      if k: nat :| DifferAt(a, b, k) {
        assert k > 0;
        assert a[1..][..k - 1] == a[..k][1..] && b[1..][..k - 1] == b[..k][1..];
        assert DifferAt(a[1..], b[1..], k - 1);
      }
    }
  }

  ghost predicate AreDigits(s: string) {
    forall c | c in s :: IsDigit(c)
  }

  /** Names that begin with time stamps of the same width sort by time, and by what follows when
      the stamps are equal. */
  lemma {:induction false} StampsDecide(a: string, b: string, x: string, y: string)
    requires |a| == |b| && AreDigits(a) && AreDigits(b)
    ensures Number(a) == Number(b) <==> a == b
    ensures Before(a + x, b + y) <==> Number(a) < Number(b) || (a == b && Before(x, y))
  {
    hide Before;
    if a == [] {
      assert a + x == x && b + y == y;
    } else {
      var i, j, c, d := a[..|a| - 1], b[..|b| - 1], a[|a| - 1], b[|b| - 1];
      assert a == i + [c] && b == j + [d] && c in a && d in b;
      StampsDecide(i, j, [c] + x, [d] + y);
      assert i + ([c] + x) == a + x && j + ([d] + y) == b + y;
      NumberSnoc(i, c);
      NumberSnoc(j, d);
      BehindOne(c, d, x, y);
    }
  }

  lemma BehindOne(c: char, d: char, x: string, y: string)
    ensures Before([c] + x, [d] + y) <==> c < d || (c == d && Before(x, y))
  {
    assert ([c] + x)[1..] == x && ([d] + y)[1..] == y;
  }

  ghost predicate Ascending(names: seq<string>) {
    forall i, j | 0 <= i < j < |names| :: Before(names[i], names[j])
  }

  lemma {:induction false} AscendingTail(names: seq<string>)
    requires Ascending(names) && names != []
    ensures Ascending(names[1..]) && names[0] !in names[1..]
  {
    hide Before;
    NotBeforeItself(names[0]);
  }

  /** An ascending list is determined by its elements. */
  lemma {:induction false} SameElementsSameList(a: seq<string>, b: seq<string>)
    requires Ascending(a) && Ascending(b) && (forall x :: x in a <==> x in b)
    ensures a == b
    decreases |a|
  {
    hide Before;
    assert b != [] ==> b[0] in b && b[0] in a;
    if a != [] {
      assert a[0] in a && a[0] in b;
      var i :| 0 <= i < |b| && b[i] == a[0];
      var j :| 0 <= j < |a| && a[j] == b[0];
      NotBoth(a[0], b[0]);
      assert a[0] == b[0];
      AscendingTail(a);
      AscendingTail(b);
      assert a == [a[0]] + a[1..] && b == [b[0]] + b[1..];
      forall x ensures x in a[1..] <==> x in b[1..] {
        assert x in a <==> x == a[0] || x in a[1..];
        assert x in b <==> x == b[0] || x in b[1..];
      }
      SameElementsSameList(a[1..], b[1..]);
    }
  }

  lemma {:induction false} AscendingConcat(a: seq<string>, b: seq<string>)
    requires Ascending(a) && Ascending(b)
    requires forall x, y | x in a && y in b :: Before(x, y)
    ensures Ascending(a + b)
  {
    hide Before;
    forall i, j | 0 <= i < j < |a + b| ensures Before((a + b)[i], (a + b)[j]) {
      if i < |a| <= j {
        assert (a + b)[i] in a && (a + b)[j] in b;
      }
    }
  }

  /** Where a name goes in an ascending list. */
  function Insert(names: seq<string>, x: string): seq<string> {
    if names == [] || Before(x, names[0]) then [x] + names else [names[0]] + Insert(names[1..], x)
  }

  lemma {:induction false} InsertKeeps(names: seq<string>, x: string)
    requires Ascending(names) && x !in names
    ensures Ascending(Insert(names, x)) && forall y :: y in Insert(names, x) <==> y == x || y in names
  {
    hide Before;
    if names == [] {
    } else if Before(x, names[0]) {
      forall k | 0 <= k < |names| ensures Before(x, names[k]) {
        if k > 0 {
          BeforeTransitive(x, names[0], names[k]);
        }
      }
    } else {
      BeforeTotal(x, names[0]);
      AscendingTail(names);
      InsertKeeps(names[1..], x);
      var tail := Insert(names[1..], x);
      forall y | y in tail ensures Before(names[0], y) {
      }
      AscendingOne(names[0]);
      AscendingConcat([names[0]], tail);
      assert names == [names[0]] + names[1..];
    }
  }

  lemma AscendingOne(x: string)
    ensures Ascending([x])
  {
  }

  /** The names in sorted order. */
  ghost function Sorted(names: set<string>): seq<string> {
    if names == {} then [] else var x :| x in names; Insert(Sorted(names - {x}), x)
  }

  lemma {:induction false} SortedIsSorted(names: set<string>)
    ensures Ascending(Sorted(names)) && forall x :: x in Sorted(names) <==> x in names
  {
    hide Before, Ascending, Insert;
    if names == {} {
      EmptyIsAscending();
    } else {
      var x :| x in names && Sorted(names) == Insert(Sorted(names - {x}), x);
      SortedIsSorted(names - {x});
      InsertKeeps(Sorted(names - {x}), x);
    }
  }

  lemma EmptyIsAscending()
    ensures Ascending([])
  {
  }

  lemma {:induction false} SortedIs(names: set<string>, list: seq<string>)
    requires Ascending(list) && forall x :: x in list <==> x in names
    ensures list == Sorted(names)
  {
    SortedIsSorted(names);
    SameElementsSameList(list, Sorted(names));
  }
}
