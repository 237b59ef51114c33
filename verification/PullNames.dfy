/** Relation names for a pulled schema. Every name picked for a table is reserved on it, so that
    later ones stay apart from it and from the table's columns. */
module PullNames {
  import opened Common
  import opened Decimals

  // ----- Suffixes -----

  lemma SuffixesDiffer(base: string, m: nat, n: nat)
    requires base + Decimal(m) == base + Decimal(n)
    ensures m == n
  {
    assert (base + Decimal(m))[|base|..] == Decimal(m) && (base + Decimal(n))[|base|..] == Decimal(n);
    NumberOfDecimal(m);
    NumberOfDecimal(n);
  }

  ghost predicate IsFirstFree(base: string, used: set<string>, k: nat) {
    k >= 2 && base + Decimal(k) !in used && forall j | 2 <= j < k :: base + Decimal(j) in used
  }

  /** The names tried in vain are all different and all used, so they are no more than the used. */
  ghost predicate TriedInVain(base: string, used: set<string>, k: nat, tried: set<string>) {
    && tried <= used && |tried| == k - 2
    && (forall t | t in tried :: exists j :: 2 <= j < k && t == base + Decimal(j))
    && (forall j | 2 <= j < k :: base + Decimal(j) in used)
  }

  lemma {:induction false} OneMoreTried(base: string, used: set<string>, k: nat, tried: set<string>)
    requires k >= 2 && TriedInVain(base, used, k, tried) && base + Decimal(k) in used
    ensures TriedInVain(base, used, k + 1, tried + {base + Decimal(k)}) && k - 1 <= |used|
  {
    hide Decimal;
    var name := base + Decimal(k);
    if name in tried {
      var j :| 2 <= j < k && name == base + Decimal(j);
      SuffixesDiffer(base, j, k);
    }
    Fewer(tried + {name}, used);
  }

  lemma {:induction false} Fewer(a: set<string>, b: set<string>)
    requires a <= b
    ensures |a| <= |b|
  {
    if a != {} {
      var x :| x in a;
      Fewer(a - {x}, b - {x});
    }
  }

  lemma {:induction false} FirstFreeExists(base: string, used: set<string>)
    ensures exists k :: IsFirstFree(base, used, k)
  {
    hide Decimal;
    var k, tried := 2, {};
    while base + Decimal(k) in used
      invariant k >= 2 && TriedInVain(base, used, k, tried)
      decreases |used| + 1 - k
    {
      OneMoreTried(base, used, k, tried);
      k, tried := k + 1, tried + {base + Decimal(k)};
    }
    assert IsFirstFree(base, used, k);
  }

  /** The base itself, or its first unused variant base2, base3, … */
  ghost function WithSuffix(base: string, used: set<string>): (name: string)
    ensures name !in used
  {
    if base !in used then base
    else
      FirstFreeExists(base, used);
      var k :| IsFirstFree(base, used, k);
      base + Decimal(k)
  }

  lemma {:induction false} FirstFreeIsOne(base: string, used: set<string>, j: nat, k: nat)
    requires IsFirstFree(base, used, j) && IsFirstFree(base, used, k)
    ensures j == k
  {
    hide Decimal;
  }

  method PickWithSuffix(base: string, used: set<string>) returns (name: string)
    ensures name == WithSuffix(base, used)
  {
    hide Decimal;
    if base !in used { return base; }
    var index := 2;
    ghost var tried: set<string> := {};
    while base + Decimal(index) in used
      invariant index >= 2 && TriedInVain(base, used, index, tried)
      decreases |used| + 1 - index
    {
      OneMoreTried(base, used, index, tried);
      tried := tried + {base + Decimal(index)};
      index := index + 1;
    }
    name := base + Decimal(index);
    ghost var k :| IsFirstFree(base, used, k) && WithSuffix(base, used) == base + Decimal(k);
    FirstFreeIsOne(base, used, index, k);
  }

  // ----- What is emitted -----

  /** How names are derived: dropping an Id suffix, and the singular of an accessor. */
  datatype Words = Words(infer: string -> string, singular: string -> string)

  /** A foreign key as it is emitted. `target` is the accessor it resolves to, empty if none;
      `known` says that the manifest has that table. */
  datatype Key =
    | ColumnKey(table: string, tsName: string, fkAs: string, unique: bool, target: string, known: bool,
        fkInverse: string)
    | CompositeKey(table: string, firstLocal: string, accessor: Option<string>, targetTable: string)

  type NamesByTable = map<string, set<string>>

  /** The tracker: the columns of each table, and the relation names picked for it so far. */
  datatype Names = Names(columns: NamesByTable, picked: NamesByTable)
  {
    function On(table: string): set<string> {
      (if table in columns then columns[table] else {}) + (if table in picked then picked[table] else {})
    }

    function Reserve(table: string, name: string): Names {
      this.(picked := picked[table := (if table in picked then picked[table] else {}) + {name}])
    }
  }

  /** A name picked for a table; `stored` marks an inverse name copied from the manifest. */
  datatype Pick = Pick(table: string, name: string, stored: bool)

  function StoredOrInferred(k: Key, words: Words): string
    requires k.ColumnKey?
  {
    if k.fkAs != "" then k.fkAs else words.infer(k.tsName)
  }

  /** What a forward name falls back to when the preferred one is taken. */
  function ForwardBase(k: Key, words: Words): string {
    match k
    case ColumnKey(_, tsName, _, _, target, _, _) =>
      var stored := StoredOrInferred(k, words);
      if stored != tsName then stored
      else if target != "" then words.singular(target)
      else words.infer(tsName) + "Relation"
    case CompositeKey(_, firstLocal, target, _) =>
      var asName := words.infer(firstLocal);
      if asName == firstLocal && target.Some? && target.value != "" && words.singular(target.value) != ""
      then words.singular(target.value)
      else asName
  }

  function Preferred(k: Key, words: Words): string {
    if k.ColumnKey? then StoredOrInferred(k, words) else words.infer(k.firstLocal)
  }

  ghost function Forward(k: Key, names: Names, words: Words): (name: string)
    ensures name !in names.On(k.table)
  {
    var used := names.On(k.table);
    if Preferred(k, words) !in used then Preferred(k, words) else WithSuffix(ForwardBase(k, words), used)
  }

  function DefaultInverse(k: Key, words: Words): string {
    if k.ColumnKey? && k.unique then words.singular(k.table) else k.table
  }

  predicate HasStoredInverse(k: Key, words: Words) {
    k.ColumnKey? && k.fkInverse != "" && k.fkInverse != DefaultInverse(k, words)
  }

  /** The table an inverse name is picked on, if one is. */
  function InverseOn(k: Key): Option<string> {
    match k
    case ColumnKey(_, _, _, _, target, known, _) => if known then Some(target) else None
    case CompositeKey(_, _, target, targetTable) =>
      var key := if target.Some? then target.value else targetTable;
      if key != "" then Some(key) else None
  }

  ghost function Emit(k: Key, names: Names, words: Words): (seq<Pick>, Names) {
    var forward := Forward(k, names, words);
    var after := names.Reserve(k.table, forward);
    var first := Pick(k.table, forward, false);
    if HasStoredInverse(k, words) then ([first, Pick(k.target, k.fkInverse, true)], after)
    else match InverseOn(k)
         case None => ([first], after)
         case Some(target) =>
           var inverse := WithSuffix(DefaultInverse(k, words), after.On(target));
           ([first, Pick(target, inverse, false)], after.Reserve(target, inverse))
  }

  ghost function EmitAll(keys: seq<Key>, names: Names, words: Words): (seq<Pick>, Names) {
    if keys == [] then ([], names)
    else
      var (before, middle) := EmitAll(keys[..|keys| - 1], names, words);
      var (picks, after) := Emit(keys[|keys| - 1], middle, words);
      (before + picks, after)
  }

  // ----- Picked names stay apart -----

  ghost predicate IsColumn(names: Names, table: string, name: string) {
    table in names.columns && name in names.columns[table]
  }

  /** Every name the resolver picked is unlike the table's columns and unlike every other it picked
      for that table; and it is reserved there. */
  ghost predicate Apart(picks: seq<Pick>, names: Names) {
    && (forall i | 0 <= i < |picks| && !picks[i].stored ::
          !IsColumn(names, picks[i].table, picks[i].name)
          && picks[i].table in names.picked && picks[i].name in names.picked[picks[i].table])
    && (forall i, j | 0 <= i < j < |picks| && !picks[i].stored && !picks[j].stored
        && picks[i].table == picks[j].table ::
          picks[i].name != picks[j].name)
  }

  lemma {:induction false} FreshPick(picks: seq<Pick>, names: Names, table: string, name: string)
    requires Apart(picks, names) && name !in names.On(table)
    ensures Apart(picks + [Pick(table, name, false)], names.Reserve(table, name))
  {
  }

  lemma {:induction false} StoredPick(picks: seq<Pick>, names: Names, table: string, name: string)
    requires Apart(picks, names)
    ensures Apart(picks + [Pick(table, name, true)], names)
  {
  }

  lemma {:induction false} EmitKeepsApart(picks: seq<Pick>, k: Key, names: Names, words: Words)
    requires Apart(picks, names)
    ensures var (more, after) := Emit(k, names, words); Apart(picks + more, after)
  {
    hide Apart, WithSuffix;
    var forward := Forward(k, names, words);
    var after := names.Reserve(k.table, forward);
    FreshPick(picks, names, k.table, forward);
    var first := Pick(k.table, forward, false);
    if HasStoredInverse(k, words) {
      StoredPick(picks + [first], after, k.target, k.fkInverse);
      assert picks + [first] + [Pick(k.target, k.fkInverse, true)]
          == picks + [first, Pick(k.target, k.fkInverse, true)];
    } else if InverseOn(k).Some? {
      var target := InverseOn(k).value;
      var inverse := WithSuffix(DefaultInverse(k, words), after.On(target));
      FreshPick(picks + [first], after, target, inverse);
      assert picks + [first] + [Pick(target, inverse, false)] == picks + [first, Pick(target, inverse, false)];
    }
  }

  lemma {:induction false} EmissionKeepsApart(keys: seq<Key>, names: Names, words: Words)
    requires names.picked == map[]
    ensures var (picks, after) := EmitAll(keys, names, words); Apart(picks, after) && after.columns == names.columns
  {
    hide Apart;
    if keys == [] {
      NothingPicked(names);
    } else {
      var before := EmitAll(keys[..|keys| - 1], names, words);
      EmissionKeepsApart(keys[..|keys| - 1], names, words);
      EmitKeepsApart(before.0, keys[|keys| - 1], before.1, words);
    }
  }

  lemma NothingPicked(names: Names)
    ensures Apart([], names)
  {
  }

  lemma {:induction false} NothingStored(keys: seq<Key>, names: Names, words: Words)
    requires forall k | k in keys :: !HasStoredInverse(k, words)
    ensures forall p | p in EmitAll(keys, names, words).0 :: !p.stored
  {
    hide WithSuffix;
    if keys != [] {
      var last := keys[|keys| - 1];
      assert last in keys;
      NothingStored(keys[..|keys| - 1], names, words);
    }
  }

  /** Each name is unlike the columns of its table and unlike every other name picked for it. */
  ghost predicate AllApart(picks: seq<Pick>, names: Names) {
    && (forall i | 0 <= i < |picks| :: !IsColumn(names, picks[i].table, picks[i].name))
    && (forall i, j | 0 <= i < j < |picks| && picks[i].table == picks[j].table :: picks[i].name != picks[j].name)
  }

  /** Each stored name is unlike the columns of its table and every other name there. */
  ghost predicate StoredApart(picks: seq<Pick>, names: Names) {
    forall i | 0 <= i < |picks| && picks[i].stored ::
      && !IsColumn(names, picks[i].table, picks[i].name)
      && forall j | 0 <= j < |picks| && j != i && picks[j].table == picks[i].table :: picks[j].name != picks[i].name
  }

  lemma SplitByStored(picks: seq<Pick>, names: Names, after: Names)
    requires Apart(picks, after) && after.columns == names.columns
    ensures AllApart(picks, names) <==> StoredApart(picks, names)
  {
    if StoredApart(picks, names) {
      forall i, j | 0 <= i < j < |picks| && picks[i].table == picks[j].table ensures picks[i].name != picks[j].name {
        if picks[i].stored {
          assert picks[j].name != picks[i].name;
        }
      }
    }
  }

  /** Over any emission, all names stay apart exactly when the stored inverse names do: from the
      columns of the table they land on and from every other name there. */
  lemma {:induction false} ApartExactly(keys: seq<Key>, names: Names, words: Words)
    requires names.picked == map[]
    ensures var picks := EmitAll(keys, names, words).0; AllApart(picks, names) <==> StoredApart(picks, names)
  {
    hide EmitAll, Apart, AllApart, StoredApart;
    EmissionKeepsApart(keys, names, words);
    SplitByStored(EmitAll(keys, names, words).0, names, EmitAll(keys, names, words).1);
  }

  /** Over the whole emission of a manifest without stored inverse names, every forward and inverse
      name picked for a table differs from all others on it and from its columns. */
  lemma {:induction false} EveryNameIsItsOwn(keys: seq<Key>, names: Names, words: Words)
    requires names.picked == map[] && forall k | k in keys :: !HasStoredInverse(k, words)
    ensures var picks := EmitAll(keys, names, words).0;
            && (forall i | 0 <= i < |picks| :: !IsColumn(names, picks[i].table, picks[i].name))
            && (forall i, j | 0 <= i < j < |picks| && picks[i].table == picks[j].table ::
                picks[i].name != picks[j].name)
  {
    hide EmitAll, HasStoredInverse;
    EmissionKeepsApart(keys, names, words);
    NothingStored(keys, names, words);
    var picks := EmitAll(keys, names, words).0;
    forall i | 0 <= i < |picks| ensures !picks[i].stored {
      assert picks[i] in picks;
    }
  }

  /** A stored inverse name is copied without a look at the target table: two keys that store the
      same one put it there twice. */
  lemma {:induction false} StoredInversesClash(a: Key, b: Key, names: Names, words: Words)
    requires HasStoredInverse(a, words) && HasStoredInverse(b, words)
    requires a.target == b.target && a.fkInverse == b.fkInverse
    ensures var picks := EmitAll([a, b], names, words).0;
            && |picks| == 4 && picks[1].table == picks[3].table && picks[1].name == picks[3].name
  {
    hide WithSuffix, Forward;
    assert [a, b][..1] == [a] && [a][..0] == [];
    assert EmitAll([], names, words) == ([], names);
    var first := Emit(a, names, words);
    assert EmitAll([a], names, words) == ([] + first.0, first.1);
  }

  // ----- Which names are picked -----

  ghost predicate IsFree(names: Names, table: string, name: string) {
    !IsColumn(names, table, name) && !(table in names.picked && name in names.picked[table])
  }

  /** Where nothing is in the way, a foreign key column is called as stored or else as inferred from
      its own name, and its inverse as stored or else after the table it stands in, in the singular
      if it is unique. */
  lemma {:induction false} FirstChoice(k: Key, names: Names, words: Words)
    requires k.ColumnKey? && k.table != k.target
    requires IsFree(names, k.table, if k.fkAs == "" then words.infer(k.tsName) else k.fkAs)
    requires IsFree(names, k.target, if k.unique then words.singular(k.table) else k.table)
    ensures var forward := if k.fkAs == "" then words.infer(k.tsName) else k.fkAs;
            var default := if k.unique then words.singular(k.table) else k.table;
            var first := Pick(k.table, forward, false);
            Emit(k, names, words).0 ==
            if k.fkInverse != "" && k.fkInverse != default then [first, Pick(k.target, k.fkInverse, true)]
            else if k.known then [first, Pick(k.target, default, false)]
            else [first]
  {
  }

  /** A foreign key column without an Id suffix cannot give its relation its own name, which is that
      of the column: the relation is called after the target, in the singular, or with the first
      number that makes that free. */
  lemma {:induction false} NamedAfterTarget(k: Key, names: Names, words: Words)
    requires k.ColumnKey? && IsColumn(names, k.table, k.tsName) && words.infer(k.tsName) == k.tsName
    requires k.fkAs == "" || k.fkAs == k.tsName
    ensures var base := if k.target == "" then k.tsName + "Relation" else words.singular(k.target);
            Forward(k, names, words) == WithSuffix(base, names.On(k.table))
  {
  }

  /** Another name that is taken gets the first number that makes it free. */
  lemma {:induction false} NumberedName(k: Key, names: Names, words: Words)
    requires k.ColumnKey?
    ensures var name := if k.fkAs == "" then words.infer(k.tsName) else k.fkAs;
            name != k.tsName ==> Forward(k, names, words) == WithSuffix(name, names.On(k.table))
  {
  }

  /** A composite key whose first column has no Id suffix is called after its target likewise, and
      its inverse there after its own table. */
  lemma {:induction false} CompositeAfterTarget(k: Key, names: Names, words: Words)
    requires k.CompositeKey? && IsColumn(names, k.table, k.firstLocal) && words.infer(k.firstLocal) == k.firstLocal
    requires k.accessor.Some? && k.accessor.value != "" && words.singular(k.accessor.value) != ""
    requires k.table != k.accessor.value
    ensures var target := k.accessor.value;
            Emit(k, names, words).0 ==
            [Pick(k.table, WithSuffix(words.singular(target), names.On(k.table)), false),
             Pick(target, WithSuffix(k.table, names.On(target)), false)]
  {
    hide WithSuffix;
    var after := names.Reserve(k.table, Forward(k, names, words));
    assert after.On(k.accessor.value) == names.On(k.accessor.value);
  }

  /** One into a table that the manifest does not have is called after its first column, and its
      inverse after its own table. */
  lemma {:induction false} CompositeNames(k: Key, names: Names, words: Words)
    requires k.CompositeKey? && k.table != k.targetTable && k.accessor == None
    ensures var asName := words.infer(k.firstLocal);
            var forward := Forward(k, names, words);
            && forward == WithSuffix(asName, names.On(k.table))
            && Emit(k, names, words).0 ==
               [Pick(k.table, forward, false)]
               + if k.targetTable == "" then []
                 else [Pick(k.targetTable, WithSuffix(k.table, names.On(k.targetTable)), false)]
  {
    hide WithSuffix;
    var after := names.Reserve(k.table, Forward(k, names, words));
    assert after.On(k.targetTable) == names.On(k.targetTable);
    assert words.infer(k.firstLocal) !in names.On(k.table) ==>
        WithSuffix(words.infer(k.firstLocal), names.On(k.table)) == words.infer(k.firstLocal) by {
      SuffixIsNotNeeded(words.infer(k.firstLocal), names.On(k.table));
    }
  }

  lemma SuffixIsNotNeeded(base: string, used: set<string>)
    ensures base !in used ==> WithSuffix(base, used) == base
  {
  }

  // ----- Pulling again -----

  /** The key once the names picked for it are stored. */
  function Stored(k: Key, picks: seq<Pick>): Key
    requires k.ColumnKey? && picks != []
  {
    k.(fkAs := picks[0].name, fkInverse := if |picks| > 1 then picks[1].name else k.fkInverse)
  }

  ghost predicate SameNames(a: seq<Pick>, b: seq<Pick>) {
    |a| == |b| && forall i | 0 <= i < |a| :: a[i].table == b[i].table && a[i].name == b[i].name
  }

  ghost predicate AllNamed(picks: seq<Pick>) {
    forall p | p in picks :: p.name != ""
  }

  /** All that is used in `less` is used in `more`. */
  ghost predicate UsesLess(less: Names, more: Names) {
    less.columns == more.columns && forall t :: less.On(t) <= more.On(t)
  }

  lemma EmitShape(k: Key, names: Names, words: Words)
    requires k.ColumnKey?
    ensures var picks := Emit(k, names, words).0;
            1 <= |picks| <= 2 && picks[0] == Pick(k.table, Forward(k, names, words), false)
  {
    hide Forward;
  }

  lemma ReserveOn(names: Names, table: string, name: string, t: string)
    ensures names.Reserve(table, name).On(t) == names.On(t) + if t == table then {name} else {}
  {
  }

  lemma ReservedFewer(less: Names, more: Names, table: string, name: string)
    requires UsesLess(less, more)
    ensures UsesLess(less.Reserve(table, name), more.Reserve(table, name))
    ensures UsesLess(less, more.Reserve(table, name))
  {
    forall t
      ensures less.Reserve(table, name).On(t) <= more.Reserve(table, name).On(t)
      ensures less.On(t) <= more.Reserve(table, name).On(t)
    {
      ReserveOn(less, table, name, t);
      ReserveOn(more, table, name, t);
    }
  }

  lemma {:induction false} ForwardAgain(k: Key, names: Names, less: Names, words: Words)
    requires k.ColumnKey? && UsesLess(less, names) && Forward(k, names, words) != ""
    ensures Forward(k.(fkAs := Forward(k, names, words)), less, words) == Forward(k, names, words)
  {
    var name := Forward(k, names, words);
    assert name !in names.On(k.table);
    hide WithSuffix;
  }

  lemma {:induction false} EmitAgain(k: Key, names: Names, less: Names, words: Words)
    requires k.ColumnKey? && UsesLess(less, names) && AllNamed(Emit(k, names, words).0)
    ensures var (picks, after) := Emit(k, names, words);
            picks != [] &&
            var (again, lessAfter) := Emit(Stored(k, picks), less, words);
            SameNames(again, picks) && UsesLess(lessAfter, after)
  {
    var (picks, after) := Emit(k, names, words);
    EmitShape(k, names, words);
    assert picks[0] in picks;
    ForwardAgain(k, names, less, words);
    var forward := Forward(k, names, words);
    var k' := Stored(k, picks);
    assert Forward(k', less, words) == Forward(k.(fkAs := forward), less, words);
    hide Forward, UsesLess;
    ReservedFewer(less, names, k.table, forward);
    if !HasStoredInverse(k, words) && InverseOn(k).Some? {
      assert picks[1] in picks;
      InverseAgain(k, k', names.Reserve(k.table, forward), less.Reserve(k.table, forward), words);
    }
  }

  lemma {:induction false} InverseAgain(k: Key, k': Key, names: Names, less: Names, words: Words)
    requires k.ColumnKey? && UsesLess(less, names) && InverseOn(k).Some?
    requires var name := WithSuffix(DefaultInverse(k, words), names.On(k.target));
             name != "" && k'.ColumnKey? && k' == k.(fkAs := k'.fkAs, fkInverse := name)
    ensures var default := DefaultInverse(k, words);
            var name := WithSuffix(default, names.On(k.target));
            && DefaultInverse(k', words) == default && InverseOn(k') == InverseOn(k) == Some(k.target)
            && HasStoredInverse(k', words) == (name != default)
            && (name == default ==> WithSuffix(default, less.On(k.target)) == default)
            && UsesLess(less, names.Reserve(k.target, name))
            && UsesLess(less.Reserve(k.target, name), names.Reserve(k.target, name))
  {
    var default := DefaultInverse(k, words);
    var name := WithSuffix(default, names.On(k.target));
    ReservedFewer(less, names, k.target, name);
    if name == default {
      assert default !in less.On(k.target);
      SuffixIsNotNeeded(default, less.On(k.target));
    }
    hide WithSuffix;
  }

  /** The manifest's keys with the names that an emission picked for them. */
  ghost function AllStored(keys: seq<Key>, names: Names, words: Words): seq<Key>
    requires forall k | k in keys :: k.ColumnKey?
  {
    if keys == [] then []
    else
      var init, last := keys[..|keys| - 1], keys[|keys| - 1];
      assert last in keys;
      EmitShape(last, EmitAll(init, names, words).1, words);
      AllStored(init, names, words) + [Stored(last, Emit(last, EmitAll(init, names, words).1, words).0)]
  }

  /** A schema that is pulled once more keeps every relation name: with the picked names stored, an
      emission of foreign key columns picks the same ones again. */
  lemma {:induction false} PullingAgain(keys: seq<Key>, names: Names, words: Words)
    requires (forall k | k in keys :: k.ColumnKey?) && AllNamed(EmitAll(keys, names, words).0)
    ensures var again := EmitAll(AllStored(keys, names, words), names, words);
            SameNames(again.0, EmitAll(keys, names, words).0) && UsesLess(again.1, EmitAll(keys, names, words).1)
  {
    hide Emit;
    if keys != [] {
      var init, last := keys[..|keys| - 1], keys[|keys| - 1];
      var (before, middle) := EmitAll(init, names, words);
      assert last in keys;
      NamedParts(before, Emit(last, middle, words).0);
      hide AllNamed, SameNames, UsesLess;
      PullingAgain(init, names, words);
      var stored := AllStored(init, names, words);
      EmitAgain(last, middle, EmitAll(stored, names, words).1, words);
      EmitShape(last, middle, words);
      var key := Stored(last, Emit(last, middle, words).0);
      assert AllStored(keys, names, words) == stored + [key];
      assert (stored + [key])[..|stored + [key]| - 1] == stored;
      var (again, less) := EmitAll(stored, names, words);
      SameParts(again, before, Emit(key, less, words).0, Emit(last, middle, words).0);
    } else {
      SameItself(names);
    }
  }

  lemma NamedParts(a: seq<Pick>, b: seq<Pick>)
    requires AllNamed(a + b)
    ensures AllNamed(a) && AllNamed(b)
  {
    assert forall p :: p in a || p in b ==> p in a + b;
  }

  lemma SameParts(a: seq<Pick>, b: seq<Pick>, c: seq<Pick>, d: seq<Pick>)
    requires SameNames(a, b) && SameNames(c, d)
    ensures SameNames(a + c, b + d)
  {
  }

  lemma SameItself(names: Names)
    ensures SameNames([], []) && UsesLess(names, names)
  {
  }

  const POSTS_AND_USERS: Names := Names(map["users" := {"posts"}, "posts" := {"userId"}], map[])

  const AUTHOR: Key := ColumnKey("posts", "userId", "", false, "users", true, "")

  const TAGS: Key := CompositeKey("users", "posts2", Some("tags"), "tags")

  lemma SecondOfTwo(base: string, used: set<string>)
    requires base in used && base + "2" !in used
    ensures WithSuffix(base, used) == base + "2"
  {
    assert Decimal(2) == "2";
    assert IsFirstFree(base, used, 2);
    var k :| IsFirstFree(base, used, k) && WithSuffix(base, used) == base + Decimal(k);
    FirstFreeIsOne(base, used, 2, k);
  }

  lemma TwoEmitted(a: Key, b: Key, names: Names, words: Words)
    ensures var (picks, middle) := Emit(a, names, words);
            EmitAll([a, b], names, words).0 == picks + Emit(b, middle, words).0
  {
    hide Emit;
    assert [a, b][..1] == [a] && [a][..0] == [];
    assert EmitAll([], names, words) == ([], names);
    assert [] + Emit(a, names, words).0 == Emit(a, names, words).0;
    assert EmitAll([a], names, words) == Emit(a, names, words);
  }

  lemma PulledOnce(words: Words)
    requires words.infer("userId") == "user" && words.infer("posts2") == "posts2" && words.singular("tags") == "tag"
    ensures Emit(AUTHOR, POSTS_AND_USERS, words).0 == [Pick("posts", "user", false), Pick("users", "posts2", false)]
    ensures Pick("users", "tag", false) in EmitAll([AUTHOR, TAGS], POSTS_AND_USERS, words).0
  {
    var names := POSTS_AND_USERS;
    hide WithSuffix;
    TwoEmitted(AUTHOR, TAGS, names, words);
    hide EmitAll;
    assert Forward(AUTHOR, names, words) == "user";
    var after := names.Reserve("posts", "user");
    assert after.On("users") == {"posts"};
    assert "posts" + "2" == "posts2" && "posts2" != "posts";
    SecondOfTwo("posts", {"posts"});
    var middle := after.Reserve("users", "posts2");
    assert Emit(AUTHOR, names, words).1 == middle;
    assert middle.On("users") == {"posts", "posts2"};
    SuffixIsNotNeeded("tag", {"posts", "posts2"});
    assert Forward(TAGS, middle, words) == "tag";
  }

  lemma PulledTwice(words: Words)
    requires words.infer("userId") == "user" && words.infer("posts2") == "posts2" && words.singular("tags") == "tag"
    ensures var stored := AUTHOR.(fkAs := "user", fkInverse := "posts2");
            var picks := EmitAll([stored, TAGS], POSTS_AND_USERS, words).0;
            Pick("users", "posts2", true) in picks && Pick("users", "posts2", false) in picks
  {
    var names := POSTS_AND_USERS;
    var stored := AUTHOR.(fkAs := "user", fkInverse := "posts2");
    hide WithSuffix;
    TwoEmitted(stored, TAGS, names, words);
    hide EmitAll;
    assert Forward(stored, names, words) == "user";
    var middle := names.Reserve("posts", "user");
    assert "posts2" != "posts";
    assert Emit(stored, names, words) == ([Pick("posts", "user", false), Pick("users", "posts2", true)], middle);
    assert middle.On("users") == {"posts"};
    assert Forward(TAGS, middle, words) == "posts2";
  }

  /** Beside a composite key, whose names are not stored, pulling again can rename: the inverse that
      kept the composite key from its first choice is not reserved once it is stored, and the
      composite key takes the very same name. */
  lemma PullingAgainRenames(words: Words)
    requires words.infer("userId") == "user" && words.infer("posts2") == "posts2" && words.singular("tags") == "tag"
    ensures var once := Emit(AUTHOR, POSTS_AND_USERS, words).0;
            && once != []
            && Pick("users", "tag", false) in EmitAll([AUTHOR, TAGS], POSTS_AND_USERS, words).0
            && var twice := EmitAll([Stored(AUTHOR, once), TAGS], POSTS_AND_USERS, words).0;
               Pick("users", "posts2", true) in twice && Pick("users", "posts2", false) in twice
  {
    PulledOnce(words);
    PulledTwice(words);
    hide Emit, EmitAll;
  }

  // ----- The tracker as it is used -----

  class PullNameTracker {
    var columns: NamesByTable
    var picked: NamesByTable
    const words: Words

    constructor (columns: NamesByTable, words: Words)
      ensures this.columns == columns && this.picked == map[] && this.words == words
    {
      this.columns, this.picked, this.words := columns, map[], words;
    }

    function State(): Names
      reads this
    {
      Names(columns, picked)
    }

    method ReservedNamesOnTable(table: string) returns (used: set<string>)
      ensures used == State().On(table)
    {
      used := if table in columns then columns[table] else {};
      if table in picked {
        used := used + picked[table];
      }
    }

    method ReserveRelationName(table: string, name: string)
      modifies this`picked
      ensures State() == old(State()).Reserve(table, name)
    {
      var extra := if table in picked then picked[table] else {};
      picked := picked[table := extra + {name}];
    }

    method PickForward(k: Key) returns (name: string)
      modifies this`picked
      ensures name == Forward(k, old(State()), words)
      ensures State() == old(State()).Reserve(k.table, name)
    {
      hide WithSuffix;
      var used := ReservedNamesOnTable(k.table);
      name := Preferred(k, words);
      if name in used {
        name := PickWithSuffix(ForwardBase(k, words), used);
      }
      ReserveRelationName(k.table, name);
    }

    method PickInverse(k: Key, target: string) returns (name: string)
      modifies this`picked
      ensures name == WithSuffix(DefaultInverse(k, words), old(State()).On(target))
      ensures State() == old(State()).Reserve(target, name)
    {
      var used := ReservedNamesOnTable(target);
      name := PickWithSuffix(DefaultInverse(k, words), used);
      ReserveRelationName(target, name);
    }

    method EmitKey(k: Key) returns (picks: seq<Pick>)
      modifies this`picked
      ensures (picks, State()) == Emit(k, old(State()), words)
    {
      hide Forward, WithSuffix;
      var forward := PickForward(k);
      picks := [Pick(k.table, forward, false)];
      if HasStoredInverse(k, words) {
        return [Pick(k.table, forward, false), Pick(k.target, k.fkInverse, true)];
      }
      var on := InverseOn(k);
      if on.Some? {
        var inverse := PickInverse(k, on.value);
        return [Pick(k.table, forward, false), Pick(on.value, inverse, false)];
      }
    }

    method EmitSchema(keys: seq<Key>) returns (picks: seq<Pick>)
      modifies this`picked
      ensures (picks, State()) == EmitAll(keys, old(State()), words)
      ensures old(picked) == map[] ==> (AllApart(picks, old(State())) <==> StoredApart(picks, old(State())))
      ensures old(picked) == map[] && (forall k | k in keys :: !HasStoredInverse(k, words)) ==>
                AllApart(picks, old(State()))
    {
      hide Emit;
      picks := [];
      for i := 0 to |keys|
        invariant (picks, State()) == EmitAll(keys[..i], old(State()), words)
      {
        assert keys[..i + 1][..i] == keys[..i];
        var more := EmitKey(keys[i]);
        picks := picks + more;
      }
      assert keys[..|keys|] == keys;
      if old(picked) == map[] {
        ApartExactly(keys, old(State()), words);
        assert EmitAll(keys, old(State()), words).0 == picks;
      }
      if old(picked) == map[] && forall k | k in keys :: !HasStoredInverse(k, words) {
        EveryNameIsItsOwn(keys, old(State()), words);
        assert EmitAll(keys, old(State()), words).0 == picks;
      }
    }
  }
}
