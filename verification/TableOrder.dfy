/** Ordering tables by their foreign keys: a depth-first search that must cope with cycles,
    self-references and references out of the set. */
module TableOrder {
  import opened Common

  /** `fkColumns` and `foreignKeys` are the SQL names of the tables that the column-level and
      the table-level foreign keys point at, in declaration order. */
  datatype Table = Table(sqlName: string, fkColumns: seq<string>, foreignKeys: seq<string>)
  {
    predicate References(name: string) {
      name in fkColumns || name in foreignKeys
    }
  }

  datatype Mode = ParentsFirst | ChildrenFirst

  ghost function Names(tables: seq<Table>): set<string> {
    set t | t in tables :: t.sqlName
  }

  ghost predicate DistinctNames(tables: seq<Table>) {
    forall i, j | 0 <= i < j < |tables| :: tables[i].sqlName != tables[j].sqlName
  }

  // ----- Specification -----

  /** `rank` strictly decreases along every reference inside the set, self-references aside. */
  ghost predicate IsRanking(tables: seq<Table>, rank: string -> nat) {
    forall t, p | t in tables && t.References(p) && p != t.sqlName && p in Names(tables) ::
      rank(p) < rank(t.sqlName)
  }

  ghost predicate Acyclic(tables: seq<Table>) {
    exists rank :: IsRanking(tables, rank)
  }

  /** Every referenced table of the set, the table itself aside, is somewhere before `bound`. */
  ghost predicate HasParentsBefore(order: seq<Table>, names: set<string>, bound: nat, t: Table)
    requires bound <= |order|
  {
    forall p | t.References(p) && p != t.sqlName && p in names ::
      exists j :: 0 <= j < bound && order[j].sqlName == p
  }

  /** Creating the tables in this order, each reference is to a table that already exists. */
  ghost predicate CreatesInOrder(order: seq<Table>, names: set<string>) {
    forall i | 0 <= i < |order| :: HasParentsBefore(order, names, i, order[i])
  }

  /** Dropping the tables in this order, no drop leaves a table that references the dropped one. */
  ghost predicate DropsInOrder(order: seq<Table>) {
    forall i, k | 0 <= i < k < |order| :: !order[k].References(order[i].sqlName)
  }

  lemma AppendKeepsOrder(order: seq<Table>, names: set<string>, t: Table)
    requires CreatesInOrder(order, names)
    requires forall p | t.References(p) && p != t.sqlName && p in names :: p in Names(order)
    ensures CreatesInOrder(order + [t], names)
  {
    var order' := order + [t];
    forall i | 0 <= i < |order'|
      ensures HasParentsBefore(order', names, i, order'[i])
    {
      forall p | order'[i].References(p) && p != order'[i].sqlName && p in names
        ensures exists j :: 0 <= j < i && order'[j].sqlName == p
      {
        if i < |order| {
          assert HasParentsBefore(order, names, i, order[i]);
          var j :| 0 <= j < i && order[j].sqlName == p;
          assert order'[j].sqlName == p;
        } else {
          var u :| u in order && u.sqlName == p;
          var j :| 0 <= j < |order| && order[j] == u;
          assert order'[j].sqlName == p;
        }
      }
    }
  }

  // ----- The search -----

  class Search {
    const bySql: map<string, Table>
    var visiting: set<string>
    var done: set<string>
    var ordered: seq<Table>
    ghost const tables: seq<Table>
    ghost const rank: string -> nat      // a ranking when the set is acyclic

    ghost predicate Fixed() {
      && bySql.Keys == Names(tables)
      && (forall n | n in bySql :: bySql[n].sqlName == n && bySql[n] in tables)
      && (Acyclic(tables) ==> IsRanking(tables, rank))
    }

    ghost predicate Valid()
      reads this
    {
      && Fixed()
      && visiting !! done && visiting <= bySql.Keys
      && done == Names(ordered) && DistinctNames(ordered)
      && (forall t | t in ordered :: t in tables)
      && (Acyclic(tables) ==> CreatesInOrder(ordered, bySql.Keys))
    }

    constructor (bySql: map<string, Table>, ghost tables: seq<Table>)
      requires bySql.Keys == Names(tables)
      requires forall n | n in bySql :: bySql[n].sqlName == n && bySql[n] in tables
      ensures Valid() && visiting == {} && ordered == []
      ensures this.bySql == bySql && this.tables == tables
    {
      this.bySql := bySql;
      visiting, done, ordered := {}, {}, [];
      this.tables := tables;
      ghost var r: string -> nat := _ => 0;
      if Acyclic(tables) {
        r :| IsRanking(tables, r);
      }
      rank := r;
    }

    method Visit(table: Table)
      requires Valid() && table in tables
      requires Acyclic(tables) && table.sqlName !in visiting ==>
                 forall v | v in visiting :: rank(table.sqlName) < rank(v)
      modifies this
      ensures Valid() && visiting == old(visiting) && old(done) <= done
      ensures table.sqlName in done || table.sqlName in visiting
      decreases bySql.Keys - visiting - done, 0
    {
      if table.sqlName in done { return; }
      if table.sqlName in visiting { return; }
      assert table.sqlName in bySql.Keys;
      visiting := visiting + {table.sqlName};
      assert table.sqlName in old(bySql.Keys - visiting - done);
      assert bySql.Keys - visiting - done < old(bySql.Keys - visiting - done);
      VisitParents(table, table.fkColumns);
      VisitParents(table, table.foreignKeys);
      if Acyclic(tables) {
        AppendKeepsOrder(ordered, bySql.Keys, table);
      }
      visiting := visiting - {table.sqlName};
      done := done + {table.sqlName};
      ordered := ordered + [table];
    }

    /** One of the two loops over the parents of `table`, whose name is in `visiting`. */
    method VisitParents(table: Table, parents: seq<string>)
      requires Valid() && table in tables && table.sqlName in visiting
      requires forall p | p in parents :: table.References(p)
      requires Acyclic(tables) ==> forall v | v in visiting && v != table.sqlName :: rank(table.sqlName) < rank(v)
      modifies this
      ensures Valid() && visiting == old(visiting) && old(done) <= done
      ensures forall p | p in parents && p in bySql :: p in done || p in visiting
      decreases bySql.Keys - visiting - done, 1
    {
      for i := 0 to |parents|
        invariant Valid() && visiting == old(visiting) && old(done) <= done
        invariant forall k | 0 <= k < i && parents[k] in bySql :: parents[k] in done || parents[k] in visiting
      {
        if parents[i] in bySql {
          Visit(bySql[parents[i]]);
        }
      }
    }
  }

  // ----- The order -----

  /** Orders the tables. Whatever the references, cyclic ones included, the search ends and
      every name comes out once; with distinct names the result is a permutation. Parents come
      first exactly when the references have no cycle but self-references, and in the
      children-first order no drop leaves a reference to a dropped table. */
  method OrderTablesByForeignKeys(tables: seq<Table>, mode: Mode) returns (result: seq<Table>)
    ensures Names(result) == Names(tables) && DistinctNames(result)
    ensures forall t | t in result :: t in tables
    ensures DistinctNames(tables) ==> multiset(result) == multiset(tables)
    ensures mode.ParentsFirst? && Acyclic(tables) ==> CreatesInOrder(result, Names(tables))
    ensures mode.ParentsFirst? && DistinctNames(tables) && CreatesInOrder(result, Names(tables)) ==> Acyclic(tables)
    ensures mode.ChildrenFirst? && Acyclic(tables) ==> DropsInOrder(result)
    ensures mode.ChildrenFirst? && DistinctNames(tables) && DropsInOrder(result) ==> Acyclic(tables)
  {
    var bySql: map<string, Table> := map[];
    for i := 0 to |tables|
      invariant bySql.Keys == Names(tables[..i])
      invariant forall n | n in bySql :: bySql[n].sqlName == n && bySql[n] in tables
    {
      assert tables[..i + 1] == tables[..i] + [tables[i]];
      bySql := bySql[tables[i].sqlName := tables[i]];
    }
    assert tables[..|tables|] == tables;
    var search := new Search(bySql, tables);
    for i := 0 to |tables|
      invariant search.Valid() && search.visiting == {} && search.tables == tables && search.bySql == bySql
      invariant forall k | 0 <= k < i :: tables[k].sqlName in search.done
    {
      search.Visit(tables[i]);
    }
    var ordered := search.ordered;
    assert Names(ordered) == Names(tables);
    PermutationOf(ordered, tables);
    if CreatesInOrder(ordered, Names(tables)) {
      OrderGivesRanking(ordered, tables);
      ReversedDropsInOrder(ordered, Names(tables));
    }
    if DropsInOrder(Reverse(ordered)) {
      DropsGiveCreates(ordered);
      OrderGivesRanking(ordered, tables);
    }
    if mode.ParentsFirst? {
      return ordered;
    }
    ReverseKeeps(ordered);
    return Reverse(ordered);
  }

  // ----- Lemmas about orders -----

  lemma {:induction false} MultiplicityOne(s: seq<Table>, x: Table)
    requires DistinctNames(s)
    ensures multiset(s)[x] == if x in s then 1 else 0
  {
    if s != [] {
      assert s == [s[0]] + s[1..];
      MultiplicityOne(s[1..], x);
    }
  }

  /** The same names, each once, taken from the same tables: a permutation. */
  lemma PermutationOf(order: seq<Table>, tables: seq<Table>)
    requires Names(order) == Names(tables) && DistinctNames(order)
    requires forall t | t in order :: t in tables
    ensures DistinctNames(tables) ==> multiset(order) == multiset(tables)
  {
    if DistinctNames(tables) {
      forall x: Table
        ensures multiset(order)[x] == multiset(tables)[x]
      {
        MultiplicityOne(order, x);
        MultiplicityOne(tables, x);
        if x in tables {
          assert x.sqlName in Names(order);
        }
      }
    }
  }

  /** An order in which every parent comes first rules out cycles. */
  lemma OrderGivesRanking(order: seq<Table>, tables: seq<Table>)
    requires Names(order) == Names(tables) && DistinctNames(order) && forall t | t in order :: t in tables
    requires CreatesInOrder(order, Names(tables))
    ensures DistinctNames(tables) ==> Acyclic(tables)
  {
    if DistinctNames(tables) {
      var rank: string -> nat := n => if exists i :: 0 <= i < |order| && order[i].sqlName == n
                                      then (var i: nat :| i < |order| && order[i].sqlName == n; i) else 0;
      forall t, p | t in tables && t.References(p) && p != t.sqlName && p in Names(tables)
        ensures rank(p) < rank(t.sqlName)
      {
        assert t.sqlName in Names(order);
        var i :| 0 <= i < |order| && order[i].sqlName == t.sqlName;
        assert order[i] == t;
        assert HasParentsBefore(order, Names(tables), i, order[i]);
      }
      assert IsRanking(tables, rank);
    }
  }

  lemma ReversedDropsInOrder(order: seq<Table>, names: set<string>)
    requires CreatesInOrder(order, names) && DistinctNames(order) && Names(order) == names
    ensures DropsInOrder(Reverse(order))
  {
    var dropped := Reverse(order);
    forall i, k | 0 <= i < k < |dropped|
      ensures !dropped[k].References(dropped[i].sqlName)
    {
      var later, earlier := |order| - 1 - i, |order| - 1 - k;
      assert dropped[i] == order[later] && dropped[k] == order[earlier];
      assert HasParentsBefore(order, names, earlier, order[earlier]);
      assert order[later].sqlName in names;
    }
  }

  lemma DropsGiveCreates(order: seq<Table>)
    requires DropsInOrder(Reverse(order)) && DistinctNames(order)
    ensures CreatesInOrder(order, Names(order))
  {
    forall i | 0 <= i < |order|
      ensures HasParentsBefore(order, Names(order), i, order[i])
    {
      forall p | order[i].References(p) && p != order[i].sqlName && p in Names(order)
        ensures exists j :: 0 <= j < i && order[j].sqlName == p
      {
        var t :| t in order && t.sqlName == p;
        var j :| 0 <= j < |order| && order[j] == t;
        var dropped := Reverse(order);
        assert dropped[|order| - 1 - j] == order[j] && dropped[|order| - 1 - i] == order[i];
      }
    }
  }

  lemma ReverseKeeps(s: seq<Table>)
    ensures multiset(Reverse(s)) == multiset(s)
    ensures Names(Reverse(s)) == Names(s)
    ensures DistinctNames(s) ==> DistinctNames(Reverse(s))
    ensures forall t | t in Reverse(s) :: t in s
  {
    ReverseMultiset(s);
    forall t | t in s
      ensures t in Reverse(s)
    {
      assert t in multiset(Reverse(s));
    }
  }

  lemma {:induction false} ReverseMultiset(s: seq<Table>)
    ensures multiset(Reverse(s)) == multiset(s)
  {
    if s != [] {
      ReverseMultiset(s[1..]);
      assert s == [s[0]] + s[1..];
    }
  }
}
