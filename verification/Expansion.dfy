/** Schemas expanded from a physical source: one record per object it holds, kept in step by refreshes
    that neither bring back what was dropped on purpose nor record a second spelling of a name. */
module Expansion {
  import opened Names
  import opened PolicyRows
  import opened RecordStore
  import opened UndoRules
  import opened Rollback
  import opened PolicyStoreObjects

  /** What recording an object probes from the source: its definition, the rest of the record, its facts. */
  datatype Probe = Probe(def: Definition, rest: string, facts: Rows)

  type Source = Name -> Probe

  ghost predicate Probes(source: Source) {
    forall n :: ProbedFor(source(n).facts, n)
  }

  function Child(schema: Name, leaf: string): Name {
    Name(schema.vcat, schema.path + [leaf])
  }

  /** The name differs only by case from a stored one, or the policy spells a part of it several ways. */
  ghost predicate IsSibling(names: set<Path>, key: Path) {
    !Spell(names, key, true).Spelled?
  }

  function RecordOp(schema: Name, origin: string, source: Source, leaf: string): Op {
    var p := source(Child(schema, leaf));
    Register(Child(schema, leaf), p.def, Some(origin), p.rest, p.facts, false)
  }

  predicate Recorded(rows: Rows, n: Name) {
    exists r :: r in rows && r.Record? && r.name == n
  }

  /** The objects a pass over the source records, in order: neither siblings of a name held so far, nor
      recorded already, nor - for a refresh - marked as dropped. */
  ghost function Additions(rows: Rows, stored: set<Path>, schema: Name, leaves: seq<string>, refreshing: bool): seq<string>
    decreases |leaves|
  {
    if leaves == [] then [] else
    var n := Child(schema, leaves[0]);
    if IsSibling(stored, n.path) || Recorded(rows, n) || (refreshing && Mark(n) in rows)
    then Additions(rows, stored, schema, leaves[1..], refreshing)
    else [leaves[0]] + Additions(rows, stored + {n.path}, schema, leaves[1..], refreshing)
  }

  function RegisterAll(rows: Rows, schema: Name, origin: string, source: Source, leaves: seq<string>): Rows {
    if leaves == [] then rows
    else Registered(RegisterAll(rows, schema, origin, source, leaves[..|leaves| - 1]), RecordOp(schema, origin, source, leaves[|leaves| - 1]))
  }

  /** A record this expansion produced whose object the source no longer holds. */
  predicate IsStale(rows: Rows, schema: Name, origin: string, leaves: seq<string>, n: Name) {
    && n.vcat == schema.vcat && |n.path| == |schema.path| + 1 && n.path[..|schema.path|] == schema.path
    && n.path[|schema.path|] !in leaves
    && exists r :: r in rows && r.Record? && r.name == n && r.origin == Some(origin)
  }

  predicate PrunedWith(r: Row, n: Name) {
    (r.Record? || (r.Fact? && r.table != GrantColumns)) && r.name == n
  }

  function Pruned(work: Rows, rows: Rows, schema: Name, origin: string, leaves: seq<string>): Rows {
    set r | r in work && !((r.Record? || (r.Fact? && r.table != GrantColumns)) && IsStale(rows, schema, origin, leaves, r.name))
  }

  ghost function Refreshed(st: Store, schema: Name, origin: string, source: Source, leaves: seq<string>, prune: bool): Rows {
    var added := RegisterAll(st.rows, schema, origin, source, Additions(st.rows, NamesIn(st, schema.vcat), schema, leaves, true));
    if prune then Pruned(added, st.rows, schema, origin, leaves) else added
  }

  ghost function Expanded(st: Store, schema: Name, origin: string, source: Source, leaves: seq<string>): Rows {
    set r | r in RegisterAll(st.rows, schema, origin, source, Additions(st.rows, NamesIn(st, schema.vcat), schema, leaves, false))
            && !(r.Mark? && r.name.vcat == schema.vcat && r.name.path != [] && r.name.path[..|r.name.path| - 1] == schema.path)
  }

  // --- what a pass records -------------------------------------------------------------------------

  // What one more recording leaves as it was.
  lemma RegisterOneRows(mid: Rows, schema: Name, origin: string, source: Source, last: string)
    requires Probes(source)
    ensures var done := Registered(mid, RecordOp(schema, origin, source, last));
            && (forall r: Row :: r.Mark? || r.Ref? || r.RefColumn? ==> (r in done <==> r in mid))
            && (forall r: Row :: r.Fact? && r.table == ObjectCaps ==> (r in done <==> r in mid))
            && (forall r: Row :: r.Record? && r.name != Child(schema, last) ==> (r in done <==> r in mid))
            && Recorded(done, Child(schema, last))
  {
    var op := RecordOp(schema, origin, source, last);
    assert Record(op.name, op.def, op.origin, op.rest) in Registered(mid, op);
  }

  lemma {:induction false} RegisterAllRows(rows: Rows, schema: Name, origin: string, source: Source, leaves: seq<string>)
    requires Probes(source)
    ensures var done := RegisterAll(rows, schema, origin, source, leaves);
            && (forall r: Row :: r.Mark? || r.Ref? || r.RefColumn? ==> (r in done <==> r in rows))
            && (forall r: Row :: r.Fact? && r.table == ObjectCaps ==> (r in done <==> r in rows))
            && (forall r: Row :: r.Record? && !(exists l :: l in leaves && r.name == Child(schema, l)) ==> (r in done <==> r in rows))
            && (forall l :: l in leaves ==> Recorded(done, Child(schema, l)))
  {
    if leaves != [] {
      var rest, last := leaves[..|leaves| - 1], leaves[|leaves| - 1];
      assert leaves == rest + [last];
      RegisterAllRows(rows, schema, origin, source, rest);
      var mid := RegisterAll(rows, schema, origin, source, rest);
      RegisterOneRows(mid, schema, origin, source, last);
      forall l | l in rest && l != last ensures Recorded(Registered(mid, RecordOp(schema, origin, source, last)), Child(schema, l)) {
        var r :| r in mid && r.Record? && r.name == Child(schema, l);
        assert Child(schema, l).path[|schema.path|] == l && Child(schema, last).path[|schema.path|] == last;
      }
    }
  }

  /** Recording a child of a stored schema that is no sibling keeps one spelling per name. */
  lemma ChildKeepsOneSpelling(names: set<Path>, schema: Path, leaf: string)
    requires OneSpelling(names) && schema in names && !IsSibling(names, schema + [leaf])
    ensures OneSpelling(names + {schema + [leaf]})
  {
    var v := schema + [leaf];
    SpellingKeepsOneSpelling(names, v, true);
    assert !CaseSibling(names, v);
    forall a, k: nat | a in names && k < |v| && SamePrefix(a, v, k + 1) ensures a[k] == v[k] {
      ChildSpelledAsStored(names, schema, leaf, a, k);
    }
    OneMoreSpelling(names, v);
  }

  lemma ChildSpelledAsStored(names: set<Path>, schema: Path, leaf: string, a: Path, k: nat)
    requires OneSpelling(names) && schema in names && !CaseSibling(names, schema + [leaf])
    requires a in names && k <= |schema| && SamePrefix(a, schema + [leaf], k + 1)
    ensures a[k] == (schema + [leaf])[k]
  {
    if k < |schema| {
      assert forall j :: 0 <= j <= k ==> (schema + [leaf])[j] == schema[j];
      assert SamePrefix(a, schema, k + 1);
    }
  }

  lemma OneMoreSpelling(names: set<Path>, v: Path)
    requires OneSpelling(names)
    requires forall a, k: nat :: a in names && k < |v| && SamePrefix(a, v, k + 1) ==> a[k] == v[k]
    ensures OneSpelling(names + {v})
  {
    forall a, b, k: nat | a in names + {v} && b in names + {v} && k < |a| && SamePrefix(a, b, k + 1) ensures a[k] == b[k] {
      assert SamePrefix(b, a, k + 1);
    }
  }

  function ChildPaths(schema: Name, leaves: seq<string>): set<Path> {
    set l | l in leaves :: schema.path + [l]
  }

  lemma {:induction false} AdditionsSound(rows: Rows, stored: set<Path>, schema: Name, leaves: seq<string>, refreshing: bool)
    requires OneSpelling(stored) && schema.path in stored
    ensures var added := Additions(rows, stored, schema, leaves, refreshing);
            && OneSpelling(stored + ChildPaths(schema, added))
            && (forall l :: l in added ==> l in leaves && !Recorded(rows, Child(schema, l)) && (refreshing ==> Mark(Child(schema, l)) !in rows))
            && (forall l :: l in leaves && l !in added ==>
                  || Recorded(rows, Child(schema, l)) || (refreshing && Mark(Child(schema, l)) in rows)
                  || CaseSibling(stored + ChildPaths(schema, added), schema.path + [l]))
    decreases |leaves|
  {
    var added := Additions(rows, stored, schema, leaves, refreshing);
    if leaves == [] {
      assert stored + ChildPaths(schema, added) == stored;
    } else {
      var n := Child(schema, leaves[0]);
      SpellingKeepsOneSpelling(stored, n.path, true);
      assert forall l :: l in leaves <==> l == leaves[0] || l in leaves[1..];
      if IsSibling(stored, n.path) || Recorded(rows, n) || (refreshing && Mark(n) in rows) {
        AdditionsSound(rows, stored, schema, leaves[1..], refreshing);
        if IsSibling(stored, n.path) {
          SiblingsStay(stored, stored + ChildPaths(schema, added), n.path);
        }
      } else {
        ChildKeepsOneSpelling(stored, schema.path, leaves[0]);
        AdditionsSound(rows, stored + {n.path}, schema, leaves[1..], refreshing);
        var rest := Additions(rows, stored + {n.path}, schema, leaves[1..], refreshing);
        assert added == [leaves[0]] + rest;
        assert forall l :: l in added <==> l == leaves[0] || l in rest;
        assert stored + ChildPaths(schema, added) == stored + {n.path} + ChildPaths(schema, rest);
      }
    }
  }

  lemma SiblingsStay(names: set<Path>, more: set<Path>, key: Path)
    requires names <= more && CaseSibling(names, key)
    ensures CaseSibling(more, key)
  {
  }

  function WithRows(st: Store, rows: Rows): Store {
    st.(rows := rows, version := st.version + 1)
  }

  ghost predicate Holds(st: Store, schema: Name) {
    SpelledOnce(st) && schema.path in NamesIn(st, schema.vcat)
  }

  // The names after a pass: some of those before, and the children recorded.
  lemma NamesAfterPass(st: Store, schema: Name, origin: string, source: Source, added: seq<string>, rows: Rows, v: string)
    requires Probes(source)
    requires rows <= RegisterAll(st.rows, schema, origin, source, added)
    ensures NamesIn(WithRows(st, rows), v) <= NamesIn(st, v) + (if v == schema.vcat then ChildPaths(schema, added) else {})
  {
    RegisterAllRows(st.rows, schema, origin, source, added);
  }

  lemma PassSpelledOnce(st: Store, schema: Name, origin: string, source: Source, leaves: seq<string>, refreshing: bool, rows: Rows)
    requires Probes(source) && Holds(st, schema)
    requires rows <= RegisterAll(st.rows, schema, origin, source, Additions(st.rows, NamesIn(st, schema.vcat), schema, leaves, refreshing))
    ensures SpelledOnce(WithRows(st, rows))
  {
    var added := Additions(st.rows, NamesIn(st, schema.vcat), schema, leaves, refreshing);
    AdditionsSound(st.rows, NamesIn(st, schema.vcat), schema, leaves, refreshing);
    forall v ensures OneSpelling(NamesIn(WithRows(st, rows), v)) {
      NamesAfterPass(st, schema, origin, source, added, rows, v);
      assert NamesIn(st, v) + {} == NamesIn(st, v);
      FewerNames(NamesIn(st, v) + (if v == schema.vcat then ChildPaths(schema, added) else {}), NamesIn(WithRows(st, rows), v));
    }
  }

  /** Neither an expansion nor a refresh records two spellings of a name. */
  lemma PassKeepsOneSpelling(st: Store, schema: Name, origin: string, source: Source, leaves: seq<string>, prune: bool)
    requires Probes(source) && Holds(st, schema)
    ensures SpelledOnce(WithRows(st, Refreshed(st, schema, origin, source, leaves, prune)))
    ensures SpelledOnce(WithRows(st, Expanded(st, schema, origin, source, leaves)))
  {
    PassSpelledOnce(st, schema, origin, source, leaves, true, Refreshed(st, schema, origin, source, leaves, prune));
    PassSpelledOnce(st, schema, origin, source, leaves, false, Expanded(st, schema, origin, source, leaves));
  }

  /** A refresh leaves every mark, and gives a marked name no record it did not have. */
  lemma RefreshRespectsMarks(st: Store, schema: Name, origin: string, source: Source, leaves: seq<string>, prune: bool)
    requires Probes(source) && Holds(st, schema)
    ensures var rows := Refreshed(st, schema, origin, source, leaves, prune);
            forall n :: Mark(n) in st.rows ==> Mark(n) in rows && (Recorded(rows, n) ==> Recorded(st.rows, n))
  {
    var added := Additions(st.rows, NamesIn(st, schema.vcat), schema, leaves, true);
    AdditionsSound(st.rows, NamesIn(st, schema.vcat), schema, leaves, true);
    RegisterAllRows(st.rows, schema, origin, source, added);
  }

  // What a refresh adds is recorded after it.
  lemma AddedAreRecorded(st: Store, schema: Name, origin: string, source: Source, leaves: seq<string>, prune: bool)
    requires Probes(source) && Holds(st, schema)
    ensures var st' := WithRows(st, Refreshed(st, schema, origin, source, leaves, prune));
            forall a :: a in Additions(st.rows, NamesIn(st, schema.vcat), schema, leaves, true) ==>
              Recorded(st'.rows, Child(schema, a)) && Child(schema, a).path in NamesIn(st', schema.vcat)
  {
    var st' := WithRows(st, Refreshed(st, schema, origin, source, leaves, prune));
    var names := NamesIn(st, schema.vcat);
    var added := Additions(st.rows, names, schema, leaves, true);
    AdditionsSound(st.rows, names, schema, leaves, true);
    RegisterAllRows(st.rows, schema, origin, source, added);
    assert forall a :: a in added ==> Child(schema, a).path[|schema.path|] == a;
    forall a | a in added ensures Recorded(st'.rows, Child(schema, a)) && Child(schema, a).path in NamesIn(st', schema.vcat) {
      var r :| r in RegisterAll(st.rows, schema, origin, source, added) && r.Record? && r.name == Child(schema, a);
      assert r in st'.rows;
    }
  }

  lemma RecordedStays(st: Store, schema: Name, origin: string, source: Source, leaves: seq<string>, prune: bool, l: string)
    requires Probes(source) && Holds(st, schema) && l in leaves
    requires l !in Additions(st.rows, NamesIn(st, schema.vcat), schema, leaves, true)
    ensures var st' := WithRows(st, Refreshed(st, schema, origin, source, leaves, prune));
            && (Recorded(st.rows, Child(schema, l)) ==> Recorded(st'.rows, Child(schema, l)))
            && (Mark(Child(schema, l)) in st.rows ==> Mark(Child(schema, l)) in st'.rows)
  {
    var st' := WithRows(st, Refreshed(st, schema, origin, source, leaves, prune));
    var added := Additions(st.rows, NamesIn(st, schema.vcat), schema, leaves, true);
    RegisterAllRows(st.rows, schema, origin, source, added);
    assert Child(schema, l).path[|schema.path|] == l;
    assert forall a :: a in added ==> Child(schema, a).path[|schema.path|] == a;
    if Recorded(st.rows, Child(schema, l)) {
      var r :| r in st.rows && r.Record? && r.name == Child(schema, l);
      assert r in st'.rows;
    }
  }

  lemma {:induction false} NothingToAdd(rows: Rows, stored: set<Path>, schema: Name, leaves: seq<string>)
    requires OneSpelling(stored)
    requires forall l :: l in leaves ==> Recorded(rows, Child(schema, l)) || Mark(Child(schema, l)) in rows || CaseSibling(stored, schema.path + [l])
    ensures Additions(rows, stored, schema, leaves, true) == []
    decreases |leaves|
  {
    if leaves != [] {
      SpellingKeepsOneSpelling(stored, schema.path + [leaves[0]], true);
      assert leaves[0] in leaves;
      NothingToAdd(rows, stored, schema, leaves[1..]);
    }
  }

  // An object that differs only by case from a name held is never added.
  lemma {:induction false} SiblingNeverAdded(rows: Rows, stored: set<Path>, schema: Name, leaves: seq<string>, refreshing: bool, a: string)
    requires OneSpelling(stored) && schema.path in stored && CaseSibling(stored, schema.path + [a])
    ensures a !in Additions(rows, stored, schema, leaves, refreshing)
    decreases |leaves|
  {
    if leaves != [] {
      var n := Child(schema, leaves[0]);
      SpellingKeepsOneSpelling(stored, n.path, true);
      if IsSibling(stored, n.path) || Recorded(rows, n) || (refreshing && Mark(n) in rows) {
        SiblingNeverAdded(rows, stored, schema, leaves[1..], refreshing, a);
      } else {
        ChildKeepsOneSpelling(stored, schema.path, leaves[0]);
        SiblingsStay(stored, stored + {n.path}, schema.path + [a]);
        SiblingNeverAdded(rows, stored + {n.path}, schema, leaves[1..], refreshing, a);
      }
    }
  }

  /** The names a refresh's prune leaves: of the store before it, all but the stale ones nothing else holds. */
  function LeftNames(st: Store, schema: Name, origin: string, leaves: seq<string>, prune: bool): set<Path> {
    NamesIn(if prune then WithRows(st, Pruned(st.rows, st.rows, schema, origin, leaves)) else st, schema.vcat)
  }

  // A name the prune does not leave is of a vanished object.
  lemma OnlyVanishedGo(st: Store, schema: Name, origin: string, leaves: seq<string>, prune: bool, n: Path)
    requires n in NamesIn(st, schema.vcat) && n !in LeftNames(st, schema, origin, leaves, prune)
    ensures |n| == |schema.path| + 1 && n[..|schema.path|] == schema.path && n[|schema.path|] !in leaves
  {
    var r: Row :| r in st.rows && (r.Record? || (r.Fact? && r.table == ObjectCaps)) && r.name == Name(schema.vcat, n);
    assert IsStale(st.rows, schema, origin, leaves, r.name);
  }

  // A name held before a refresh and left by its prune is held after it.
  lemma LeftIsHeld(st: Store, schema: Name, origin: string, source: Source, leaves: seq<string>, prune: bool, n: Path)
    requires Probes(source) && Holds(st, schema) && n in LeftNames(st, schema, origin, leaves, prune)
    ensures n in NamesIn(WithRows(st, Refreshed(st, schema, origin, source, leaves, prune)), schema.vcat)
  {
    var added := Additions(st.rows, NamesIn(st, schema.vcat), schema, leaves, true);
    var rows := Refreshed(st, schema, origin, source, leaves, prune);
    RegisterAllRows(st.rows, schema, origin, source, added);
    AddedAreRecorded(st, schema, origin, source, leaves, prune);
    var left := if prune then Pruned(st.rows, st.rows, schema, origin, leaves) else st.rows;
    if r :| r in left && (r.Record? || (r.Fact? && r.table == ObjectCaps)) && r.name == Name(schema.vcat, n) {
      if r.Record? && exists l :: l in added && r.name == Child(schema, l) {
        var l :| l in added && r.name == Child(schema, l);
      } else {
        assert r in rows;
      }
    }
  }

  // What is held after a refresh: what its prune left, and what it added.
  lemma HeldAfterRefresh(st: Store, schema: Name, origin: string, source: Source, leaves: seq<string>, prune: bool)
    requires Probes(source) && Holds(st, schema)
    ensures NamesIn(WithRows(st, Refreshed(st, schema, origin, source, leaves, prune)), schema.vcat)
         == LeftNames(st, schema, origin, leaves, prune)
            + ChildPaths(schema, Additions(st.rows, NamesIn(st, schema.vcat), schema, leaves, true))
  {
    var added := Additions(st.rows, NamesIn(st, schema.vcat), schema, leaves, true);
    var rows := Refreshed(st, schema, origin, source, leaves, prune);
    RegisterAllRows(st.rows, schema, origin, source, added);
    AddedAreRecorded(st, schema, origin, source, leaves, prune);
    forall n | n in LeftNames(st, schema, origin, leaves, prune) ensures n in NamesIn(WithRows(st, rows), schema.vcat) {
      LeftIsHeld(st, schema, origin, source, leaves, prune, n);
    }
    forall n | n in NamesIn(WithRows(st, rows), schema.vcat) && n !in ChildPaths(schema, added)
      ensures n in LeftNames(st, schema, origin, leaves, prune)
    {
      if r :| r in rows && (r.Record? || (r.Fact? && r.table == ObjectCaps)) && r.name == Name(schema.vcat, n) {
        assert r in st.rows;
        assert prune ==> r in Pruned(st.rows, st.rows, schema, origin, leaves);
      }
    }
  }

  /** Whether the object would be recorded but for a name that differs from it only by case. */
  ghost predicate HeldBack(st: Store, schema: Name, l: string) {
    && !Recorded(st.rows, Child(schema, l)) && Mark(Child(schema, l)) !in st.rows
    && CaseSibling(NamesIn(st, schema.vcat), schema.path + [l])
  }

  /** Every object held back by a name differing only by case still is by the names the prune leaves. */
  ghost predicate SiblingsSurvive(st: Store, schema: Name, origin: string, leaves: seq<string>, prune: bool) {
    forall l :: l in leaves && HeldBack(st, schema, l) ==>
      CaseSibling(LeftNames(st, schema, origin, leaves, prune), schema.path + [l])
  }

  // Each object is accounted for after a pass: recorded, marked, or in another case than one that stays.
  lemma AccountedFor(st: Store, schema: Name, origin: string, source: Source, leaves: seq<string>, prune: bool, l: string)
    requires Probes(source) && Holds(st, schema) && l in leaves
    requires SiblingsSurvive(st, schema, origin, leaves, prune)
    ensures var st' := WithRows(st, Refreshed(st, schema, origin, source, leaves, prune));
            || Recorded(st'.rows, Child(schema, l)) || Mark(Child(schema, l)) in st'.rows
            || CaseSibling(NamesIn(st', schema.vcat), schema.path + [l])
  {
    var names := NamesIn(st, schema.vcat);
    var added := Additions(st.rows, names, schema, leaves, true);
    AddedAreRecorded(st, schema, origin, source, leaves, prune);
    if l !in added {
      RecordedStays(st, schema, origin, source, leaves, prune, l);
      AdditionsSound(st.rows, names, schema, leaves, true);
      HeldAfterRefresh(st, schema, origin, source, leaves, prune);
      var key := schema.path + [l];
      if HeldBack(st, schema, l) {
        SiblingsStay(LeftNames(st, schema, origin, leaves, prune), LeftNames(st, schema, origin, leaves, prune) + ChildPaths(schema, added), key);
      } else if !Recorded(st.rows, Child(schema, l)) && Mark(Child(schema, l)) !in st.rows {
        var n :| n in names + ChildPaths(schema, added) && 0 < |key| <= |n| && SamePrefix(n, key, |key|) && n[|key| - 1] != key[|key| - 1];
        assert n in names ==> CaseSibling(names, key);
      }
    }
  }

  lemma AddedIsNoSibling(rows: Rows, stored: set<Path>, schema: Name, leaves: seq<string>, refreshing: bool, a: string)
    requires OneSpelling(stored) && schema.path in stored && a in Additions(rows, stored, schema, leaves, refreshing)
    ensures !CaseSibling(stored, schema.path + [a])
  {
    if CaseSibling(stored, schema.path + [a]) {
      SiblingNeverAdded(rows, stored, schema, leaves, refreshing, a);
    }
  }

  // Two children of a schema in other cases of a third are in other cases of each other.
  lemma SiblingsAlike(names: set<Path>, schema: Path, held: Path, l: string, a: string)
    requires held in names && |held| == |schema| + 1 && held[..|schema|] == schema && held[|schema|] != a
    requires SamePrefix(held, schema + [l], |schema| + 1)
    ensures SamePrefix(schema + [a], schema + [l], |schema| + 1) ==> CaseSibling(names, schema + [a])
  {
    var other, key := schema + [a], schema + [l];
    assert forall j :: 0 <= j < |schema| ==> held[j] == held[..|schema|][j] == other[j];
    assert SameName(held[|schema|], key[|schema|]);
    assert SamePrefix(other, key, |schema| + 1) ==> SameName(other[|schema|], key[|schema|]);
    assert SamePrefix(other, key, |schema| + 1) ==> SamePrefix(held, other, |other|);
  }

  // An object held back, whose case sibling the prune takes, has no sibling after the refresh.
  lemma FreedByThePrune(st: Store, schema: Name, origin: string, source: Source, leaves: seq<string>, prune: bool, l: string)
    requires Probes(source) && Holds(st, schema) && l in leaves && HeldBack(st, schema, l)
    requires !CaseSibling(LeftNames(st, schema, origin, leaves, prune), schema.path + [l])
    ensures var st' := WithRows(st, Refreshed(st, schema, origin, source, leaves, prune));
            !CaseSibling(NamesIn(st', schema.vcat), schema.path + [l])
  {
    var names := NamesIn(st, schema.vcat);
    var added := Additions(st.rows, names, schema, leaves, true);
    var key := schema.path + [l];
    HeldAfterRefresh(st, schema, origin, source, leaves, prune);
    AdditionsSound(st.rows, names, schema, leaves, true);
    var held :| held in names && 0 < |key| <= |held| && SamePrefix(held, key, |key|) && held[|key| - 1] != key[|key| - 1];
    OnlyVanishedGo(st, schema, origin, leaves, prune, held);
    forall a | a in added ensures !SamePrefix(schema.path + [a], key, |key|) {
      AddedIsNoSibling(st.rows, names, schema, leaves, true, a);
      SiblingsAlike(names, schema.path, held, l, a);
    }
  }

  lemma FirstIsIn(s: seq<string>)
    ensures s != [] ==> s[0] in s
  {
  }

  // A refresh that records something new changes the rows.
  lemma SecondAddsNothing(st: Store, schema: Name, origin: string, source: Source, leaves: seq<string>, prune: bool)
    requires Probes(source) && Holds(st, schema)
    requires Refreshed(st, schema, origin, source, leaves, prune) == st.rows
    ensures Additions(st.rows, NamesIn(st, schema.vcat), schema, leaves, true) == []
  {
    var added := Additions(st.rows, NamesIn(st, schema.vcat), schema, leaves, true);
    FirstIsIn(added);
    AdditionsSound(st.rows, NamesIn(st, schema.vcat), schema, leaves, true);
    AddedAreRecorded(st, schema, origin, source, leaves, prune);
  }

  lemma HeldBackStays(st: Store, schema: Name, origin: string, source: Source, leaves: seq<string>, prune: bool, l: string)
    requires Probes(source) && Holds(st, schema) && HeldBack(st, schema, l)
    ensures var rows := Refreshed(st, schema, origin, source, leaves, prune);
            !Recorded(rows, Child(schema, l)) && Mark(Child(schema, l)) !in rows
  {
    var added := Additions(st.rows, NamesIn(st, schema.vcat), schema, leaves, true);
    RegisterAllRows(st.rows, schema, origin, source, added);
    SiblingNeverAdded(st.rows, NamesIn(st, schema.vcat), schema, leaves, true, l);
    assert forall a :: Child(schema, a).path[|schema.path|] == a;
  }

  lemma SchemaStays(st: Store, schema: Name, origin: string, source: Source, leaves: seq<string>, prune: bool)
    requires Probes(source) && Holds(st, schema)
    ensures Holds(WithRows(st, Refreshed(st, schema, origin, source, leaves, prune)), schema)
  {
    PassKeepsOneSpelling(st, schema, origin, source, leaves, prune);
    HeldAfterRefresh(st, schema, origin, source, leaves, prune);
    if schema.path !in LeftNames(st, schema, origin, leaves, prune) {
      OnlyVanishedGo(st, schema, origin, leaves, prune, schema.path);
    }
  }

  /** A second refresh over the same source changes nothing exactly when every object held back by a name
      that differs from it only by case still is, by the names the first one's prune leaves. */
  lemma RefreshTwiceIsOnce(st: Store, schema: Name, origin: string, source: Source, leaves: seq<string>, prune: bool)
    requires Probes(source) && Holds(st, schema)
    ensures var st' := WithRows(st, Refreshed(st, schema, origin, source, leaves, prune));
            Refreshed(st', schema, origin, source, leaves, prune) == st'.rows <==> SiblingsSurvive(st, schema, origin, leaves, prune)
  {
    var st' := WithRows(st, Refreshed(st, schema, origin, source, leaves, prune));
    PassKeepsOneSpelling(st, schema, origin, source, leaves, prune);
    SchemaStays(st, schema, origin, source, leaves, prune);
    if SiblingsSurvive(st, schema, origin, leaves, prune) {
      NothingMore(st, schema, origin, source, leaves, prune);
    }
    if Refreshed(st', schema, origin, source, leaves, prune) == st'.rows {
      SecondAddsNothing(st', schema, origin, source, leaves, prune);
      AdditionsSound(st'.rows, NamesIn(st', schema.vcat), schema, leaves, true);
      assert NamesIn(st', schema.vcat) + ChildPaths(schema, []) == NamesIn(st', schema.vcat);
      forall l | l in leaves && HeldBack(st, schema, l)
        ensures CaseSibling(LeftNames(st, schema, origin, leaves, prune), schema.path + [l])
      {
        HeldBackStays(st, schema, origin, source, leaves, prune, l);
        if !CaseSibling(LeftNames(st, schema, origin, leaves, prune), schema.path + [l]) {
          FreedByThePrune(st, schema, origin, source, leaves, prune, l);
        }
      }
    }
  }

  lemma NothingMore(st: Store, schema: Name, origin: string, source: Source, leaves: seq<string>, prune: bool)
    requires Probes(source) && Holds(st, schema) && SiblingsSurvive(st, schema, origin, leaves, prune)
    ensures var st' := WithRows(st, Refreshed(st, schema, origin, source, leaves, prune));
            Refreshed(st', schema, origin, source, leaves, prune) == st'.rows
  {
    var st' := WithRows(st, Refreshed(st, schema, origin, source, leaves, prune));
    PassKeepsOneSpelling(st, schema, origin, source, leaves, prune);
    forall l | l in leaves
      ensures Recorded(st'.rows, Child(schema, l)) || Mark(Child(schema, l)) in st'.rows || CaseSibling(NamesIn(st', schema.vcat), schema.path + [l]) {
      AccountedFor(st, schema, origin, source, leaves, prune, l);
    }
    NothingToAdd(st'.rows, NamesIn(st', schema.vcat), schema, leaves);
    if prune {
      forall n ensures !IsStale(st'.rows, schema, origin, leaves, n) {
        if IsStale(st'.rows, schema, origin, leaves, n) {
          NoneStaleAfter(st, schema, origin, source, leaves, n);
        }
      }
    }
  }

  lemma NoneStaleAfter(st: Store, schema: Name, origin: string, source: Source, leaves: seq<string>, n: Name)
    requires Probes(source) && Holds(st, schema)
    ensures !IsStale(Refreshed(st, schema, origin, source, leaves, true), schema, origin, leaves, n)
  {
    var added := Additions(st.rows, NamesIn(st, schema.vcat), schema, leaves, true);
    AdditionsSound(st.rows, NamesIn(st, schema.vcat), schema, leaves, true);
    RegisterAllRows(st.rows, schema, origin, source, added);
    assert forall l :: Child(schema, l).path[|schema.path|] == l;
  }

  /** The record of an object the source now spells in another case, and nothing else in its name. */
  ghost predicate HeldInAnotherCase(st: Store, schema: Name, origin: string, held: string, renamed: string) {
    && held != renamed && SameName(held, renamed)
    && (exists r :: r in st.rows && r.Record? && r.name == Child(schema, held) && r.origin == Some(origin))
    && !Recorded(st.rows, Child(schema, renamed)) && Mark(Child(schema, renamed)) !in st.rows
    && (forall n :: n in NamesIn(st, schema.vcat) && SamePrefix(n, schema.path + [renamed], |schema.path| + 1) ==> n == schema.path + [held])
    && Child(schema, held) !in st.functions + st.others
    && (forall r :: r in st.rows && r.Fact? && r.table == ObjectCaps ==> r.name != Child(schema, held))
  }

  lemma NothingAddedBeside(st: Store, schema: Name, origin: string, held: string, renamed: string)
    requires Holds(st, schema) && HeldInAnotherCase(st, schema, origin, held, renamed)
    ensures Additions(st.rows, NamesIn(st, schema.vcat), schema, [renamed], true) == []
  {
    var names := NamesIn(st, schema.vcat);
    var key := schema.path + [renamed];
    var r :| r in st.rows && r.Record? && r.name == Child(schema, held) && r.origin == Some(origin);
    assert r.name.path in names && SamePrefix(r.name.path, key, |key|);
    assert CaseSibling(names, key);
    SpellingKeepsOneSpelling(names, key, true);
    assert [renamed][1..] == [];
  }

  lemma OldCasePruned(st: Store, schema: Name, origin: string, source: Source, held: string, renamed: string)
    requires Probes(source) && Holds(st, schema) && HeldInAnotherCase(st, schema, origin, held, renamed)
    ensures var rows := Refreshed(st, schema, origin, source, [renamed], true);
            && rows == Pruned(st.rows, st.rows, schema, origin, [renamed])
            && !Recorded(rows, Child(schema, held))
            && schema.path + [held] !in NamesIn(WithRows(st, rows), schema.vcat)
  {
    NothingAddedBeside(st, schema, origin, held, renamed);
    assert IsStale(st.rows, schema, origin, [renamed], Child(schema, held));
  }

  lemma FreeNameRecorded(st: Store, schema: Name, origin: string, source: Source, leaf: string)
    requires Probes(source) && SpelledOnce(st)
    requires !Recorded(st.rows, Child(schema, leaf)) && Mark(Child(schema, leaf)) !in st.rows
    requires forall n :: n in NamesIn(st, schema.vcat) ==> !SamePrefix(n, schema.path + [leaf], |schema.path| + 1)
    ensures Recorded(Refreshed(st, schema, origin, source, [leaf], true), Child(schema, leaf))
  {
    var names := NamesIn(st, schema.vcat);
    SpellingKeepsOneSpelling(names, schema.path + [leaf], true);
    assert [leaf][1..] == [];
    assert Additions(st.rows, names + {schema.path + [leaf]}, schema, [], true) == [];
    assert Additions(st.rows, names, schema, [leaf], true) == [leaf];
    RegisterAllRows(st.rows, schema, origin, source, [leaf]);
    var r :| r in RegisterAll(st.rows, schema, origin, source, [leaf]) && r.Record? && r.name == Child(schema, leaf);
    assert !IsStale(st.rows, schema, origin, [leaf], r.name);
    assert r in Refreshed(st, schema, origin, source, [leaf], true);
  }

  /** Why the pruning refresh needs that: an object renamed in the source by case alone is skipped while
      its old spelling is held, the old spelling is pruned, and the next refresh records the new one. */
  lemma CaseRenameTakesTwoPasses(st: Store, schema: Name, origin: string, source: Source, held: string, renamed: string)
    requires Probes(source) && Holds(st, schema) && HeldInAnotherCase(st, schema, origin, held, renamed)
    ensures var st' := WithRows(st, Refreshed(st, schema, origin, source, [renamed], true));
            && !Recorded(st'.rows, Child(schema, held)) && !Recorded(st'.rows, Child(schema, renamed))
            && Recorded(Refreshed(st', schema, origin, source, [renamed], true), Child(schema, renamed))
  {
    var st' := WithRows(st, Refreshed(st, schema, origin, source, [renamed], true));
    OldCasePruned(st, schema, origin, source, held, renamed);
    PassKeepsOneSpelling(st, schema, origin, source, [renamed], true);
    assert NamesIn(st', schema.vcat) <= NamesIn(st, schema.vcat);
    FreeNameRecorded(st', schema, origin, source, renamed);
  }

  // --- over a whole run ----------------------------------------------------------------------------

  /** What may happen to a store: passes over a source, and record writes. */
  datatype Act =
    | Refresh(schema: Name, origin: string, source: Source, leaves: seq<string>, prune: bool)
    | Expand(schema: Name, origin: string, source: Source, leaves: seq<string>)
    | Write(op: Op)

  ghost predicate Happens(st: Store, act: Act, st': Store) {
    match act
    case Refresh(schema, origin, source, leaves, prune) =>
      && Probes(source) && schema.path in NamesIn(st, schema.vcat)
      && st' == WithRows(st, Refreshed(st, schema, origin, source, leaves, prune))
    case Expand(schema, origin, source, leaves) =>
      && Probes(source) && schema.path in NamesIn(st, schema.vcat)
      && st' == WithRows(st, Expanded(st, schema, origin, source, leaves))
    case Write(op) => Writes(st, op) && st' == AfterWrite(st, op).value
  }

  /** The acts that make a name dropped on purpose current again. */
  ghost predicate MakesCurrent(act: Act, n: Name) {
    match act
    case Refresh(_, _, _, _, _) => false
    case Expand(schema, _, _, _) => n.vcat == schema.vcat && n.path != [] && n.path[..|n.path| - 1] == schema.path
    case Write(op) => (op.Register? && op.name == n) || (op.Rename? && op.to == n)
  }

  /** Whatever happens, every name stays spelled one way. */
  lemma StaysSpelledOnce(st: Store, act: Act, st': Store)
    requires SpelledOnce(st) && Happens(st, act, st')
    ensures SpelledOnce(st')
  {
    match act
    case Refresh(schema, origin, source, leaves, prune) => PassKeepsOneSpelling(st, schema, origin, source, leaves, prune);
    case Expand(schema, origin, source, leaves) => PassKeepsOneSpelling(st, schema, origin, source, leaves, false);
    case Write(op) => WriteSpelledOnce(st, op);
  }

  lemma MarkStays(st: Store, act: Act, st': Store, n: Name)
    requires SpelledOnce(st) && Happens(st, act, st') && !MakesCurrent(act, n)
    requires Mark(n) in st.rows && !Recorded(st.rows, n)
    ensures Mark(n) in st'.rows && !Recorded(st'.rows, n)
  {
    match act
    case Refresh(schema, origin, source, leaves, prune) => RefreshRespectsMarks(st, schema, origin, source, leaves, prune);
    case Expand(schema, origin, source, leaves) =>
      RegisterAllRows(st.rows, schema, origin, source, Additions(st.rows, NamesIn(st, schema.vcat), schema, leaves, false));
      assert forall l :: Child(schema, l).path[..|schema.path|] == schema.path;
    case Write(op) =>
      if op.Rename? {
        assert forall r :: r in MovedRows(st.rows, op) ==> !r.Mark? && r.name == op.to;
      }
  }

  /** Over every run of passes and record writes: every name stays spelled one way. */
  lemma {:induction false} RunStaysSpelledOnce(stores: seq<Store>, acts: seq<Act>, n: nat)
    requires |stores| == |acts| + 1 && n < |stores| && SpelledOnce(stores[0])
    requires forall i :: 0 <= i < |acts| ==> Happens(stores[i], acts[i], stores[i + 1])
    ensures SpelledOnce(stores[n])
  {
    if n > 0 {
      RunStaysSpelledOnce(stores, acts, n - 1);
      StaysSpelledOnce(stores[n - 1], acts[n - 1], stores[n]);
    }
  }

  /** Over every run: a name marked as dropped stays marked and unrecorded through any number of
      refreshes, until it is created again, renamed to, or its schema expanded again. */
  lemma {:induction false} DroppedStaysDropped(stores: seq<Store>, acts: seq<Act>, n: Name, k: nat)
    requires |stores| == |acts| + 1 && k < |stores| && SpelledOnce(stores[0])
    requires forall i :: 0 <= i < |acts| ==> Happens(stores[i], acts[i], stores[i + 1])
    requires forall i :: 0 <= i < k ==> !MakesCurrent(acts[i], n)
    requires Mark(n) in stores[0].rows && !Recorded(stores[0].rows, n)
    ensures Mark(n) in stores[k].rows && !Recorded(stores[k].rows, n)
  {
    if k > 0 {
      DroppedStaysDropped(stores, acts, n, k - 1);
      RunStaysSpelledOnce(stores, acts, k - 1);
      MarkStays(stores[k - 1], acts[k - 1], stores[k], n);
    }
  }

  // --- the passes as the writers run them ----------------------------------------------------------

  // What is still to come, after the additions so far, makes up the whole.
  lemma NextAddition(rows: Rows, stored: set<Path>, schema: Name, leaves: seq<string>, refreshing: bool, i: nat, added: seq<string>)
    requires i < |leaves|
    ensures var n := Child(schema, leaves[i]);
            (added + Additions(rows, stored, schema, leaves[i..], refreshing)
             == if IsSibling(stored, n.path) || Recorded(rows, n) || (refreshing && Mark(n) in rows)
                then added + Additions(rows, stored, schema, leaves[i + 1..], refreshing)
                else (added + [leaves[i]]) + Additions(rows, stored + {n.path}, schema, leaves[i + 1..], refreshing))
  {
    assert leaves[i..][0] == leaves[i] && leaves[i..][1..] == leaves[i + 1..];
    var rest := Additions(rows, stored + {Child(schema, leaves[i]).path}, schema, leaves[i + 1..], refreshing);
    assert added + ([leaves[i]] + rest) == (added + [leaves[i]]) + rest;
  }

  method FindAdditions(store: PolicyStore, schema: Name, leaves: seq<string>, refreshing: bool) returns (added: seq<string>)
    ensures added == Additions(store.rows, NamesIn(store.View(), schema.vcat), schema, leaves, refreshing)
  {
    var stored := ListNames(NamesIn(store.View(), schema.vcat));
    ghost var all := Additions(store.rows, Stored(stored), schema, leaves, refreshing);
    added := [];
    assert leaves[0..] == leaves && leaves[|leaves|..] == [];
    for i := 0 to |leaves|
      invariant all == added + Additions(store.rows, Stored(stored), schema, leaves[i..], refreshing)
    {
      NextAddition(store.rows, Stored(stored), schema, leaves, refreshing, i, added);
      var n := Child(schema, leaves[i]);
      var spelling := FindSpelling(n.path, stored, true);
      if spelling.Spelled? && !Recorded(store.rows, n) && !(refreshing && Mark(n) in store.rows) {
        StoredOneMore(stored, n.path);
        added := added + [leaves[i]];
        stored := stored + [n.path];
      }
    }
  }

  method RecordAll(rows: Rows, schema: Name, origin: string, source: Source, added: seq<string>) returns (work: Rows)
    ensures work == RegisterAll(rows, schema, origin, source, added)
  {
    work := rows;
    for i := 0 to |added|
      invariant work == RegisterAll(rows, schema, origin, source, added[..i])
    {
      assert added[..i + 1][..i] == added[..i];
      work := Registered(work, RecordOp(schema, origin, source, added[i]));
    }
    assert added[..|added|] == added;
  }

  function StaleNames(rows: Rows, schema: Name, origin: string, leaves: seq<string>): set<Name> {
    set r | r in rows && r.Record? && IsStale(rows, schema, origin, leaves, r.name) :: r.name
  }

  // Prunes the stale names one after the other.
  method PruneEach(rows: Rows, stale: set<Name>) returns (work: Rows, pruned: nat)
    ensures work == set r | r in rows && !(exists n :: n in stale && PrunedWith(r, n))
    ensures pruned == |stale|
  {
    work, pruned := rows, 0;
    var left := stale;
    while left != {}
      invariant left <= stale && pruned + |left| == |stale|
      invariant work == set r | r in rows && !(exists n :: n in stale - left && PrunedWith(r, n))
    {
      var n :| n in left;
      ghost var before := left;
      work := set r | r in work && !PrunedWith(r, n);
      left := left - {n};
      assert stale - left == (stale - before) + {n};
      pruned := pruned + 1;
    }
    assert stale - left == stale;
  }

  /** A refresh: the source's new objects recorded, with `prune` the vanished ones' records taken; the
      answer counts both. */
  method RefreshSchemaObjects(store: PolicyStore, schema: Name, origin: string, source: Source, leaves: seq<string>, prune: bool) returns (changed: nat)
    modifies store
    ensures store.View() == WithRows(old(store.View()), Refreshed(old(store.View()), schema, origin, source, leaves, prune))
    ensures store.known == old(store.known)
    ensures changed == |Additions(old(store.rows), NamesIn(old(store.View()), schema.vcat), schema, leaves, true)|
                     + (if prune then |StaleNames(old(store.rows), schema, origin, leaves)| else 0)
  {
    var rows := store.rows;
    var added := FindAdditions(store, schema, leaves, true);
    changed := |added|;
    var work := RecordAll(rows, schema, origin, source, added);
    if prune {
      ghost var all := work;
      var stale := StaleNames(rows, schema, origin, leaves);
      var pruned;
      work, pruned := PruneEach(work, stale);
      changed := changed + pruned;
      assert forall n :: n in stale <==> IsStale(rows, schema, origin, leaves, n);
      assert work == Pruned(all, rows, schema, origin, leaves);
    }
    store.rows := work;
    store.version := store.version + 1;
  }

  method ExpandSchema(store: PolicyStore, schema: Name, origin: string, source: Source, leaves: seq<string>)
    modifies store
    ensures store.View() == WithRows(old(store.View()), Expanded(old(store.View()), schema, origin, source, leaves))
    ensures store.known == old(store.known)
  {
    var added := FindAdditions(store, schema, leaves, false);
    var work := RecordAll(store.rows, schema, origin, source, added);
    store.rows := set r | r in work && !(r.Mark? && r.name.vcat == schema.vcat && r.name.path != [] && r.name.path[..|r.name.path| - 1] == schema.path);
    store.version := store.version + 1;
  }
}
