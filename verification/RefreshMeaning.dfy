/** What a refresh and an expansion keep, take and bring, row by row. */
module RefreshMeaning {
  import opened Names
  import opened PolicyRows
  import opened RecordStore
  import opened UndoRules
  import opened Rollback
  import opened Expansion

  ghost predicate HasRecordOf(rows: Rows, n: Name) {
    exists d, origin, rest :: Record(n, d, origin, rest) in rows
  }

  ghost predicate CameFrom(rows: Rows, n: Name, origin: string) {
    exists d, rest :: Record(n, d, Some(origin), rest) in rows
  }

  /** A direct child of the schema whose object the source no longer holds. */
  ghost predicate Vanished(schema: Name, leaves: seq<string>, n: Name) {
    exists leaf :: n == Child(schema, leaf) && leaf !in leaves
  }

  ghost predicate Listed(schema: Name, leaves: seq<string>, n: Name) {
    exists leaf :: leaf in leaves && n == Child(schema, leaf)
  }

  lemma RecordedOnRows(rows: Rows, n: Name)
    ensures Recorded(rows, n) <==> HasRecordOf(rows, n)
  {
    if r :| r in rows && r.Record? && r.name == n {
      assert r == Record(n, r.def, r.origin, r.rest);
    }
  }

  lemma StaleOnRows(rows: Rows, schema: Name, origin: string, leaves: seq<string>, n: Name)
    ensures IsStale(rows, schema, origin, leaves, n) <==> Vanished(schema, leaves, n) && CameFrom(rows, n, origin)
  {
    if IsStale(rows, schema, origin, leaves, n) {
      var r :| r in rows && r.Record? && r.name == n && r.origin == Some(origin);
      assert r == Record(n, r.def, Some(origin), r.rest);
      assert n == Child(schema, n.path[|schema.path|]);
    }
    if d, rest, leaf :| Record(n, d, Some(origin), rest) in rows && n == Child(schema, leaf) && leaf !in leaves {
      assert n.path[|schema.path|] == leaf && n.path[..|schema.path|] == schema.path;
    }
  }

  // What registering a list of children leaves alone, and where what it brings comes from.
  lemma {:induction false} RegisterAllOnRows(rows: Rows, schema: Name, origin: string, source: Source, leaves: seq<string>, r: Row)
    requires Probes(source)
    ensures var done := RegisterAll(rows, schema, origin, source, leaves);
            && ((forall l :: l in leaves ==> !Named(r, Child(schema, l))) || Unrecorded(r) ==> (r in done <==> r in rows))
            && (r in done && r !in rows ==> exists l :: l in leaves && FromSource(schema, origin, source, l, r))
  {
    if leaves != [] {
      var before, last := leaves[..|leaves| - 1], leaves[|leaves| - 1];
      assert leaves == before + [last];
      RegisterAllOnRows(rows, schema, origin, source, before, r);
      if r in RegisterAll(rows, schema, origin, source, before) && r !in rows {
        var l :| l in before && FromSource(schema, origin, source, l, r);
        assert l in leaves;
      }
      assert last in leaves;
    }
  }

  /** What recording an object never writes: marks, comments, capabilities and column grants. */
  predicate Unrecorded(r: Row) {
    r.Mark? || (r.Fact? && (r.table == ColumnComments || r.table == ObjectCaps || r.table == GrantColumns))
  }

  /** The record and the facts the source gives for one of its objects. */
  predicate FromSource(schema: Name, origin: string, source: Source, leaf: string, r: Row) {
    var n := Child(schema, leaf);
    r == Record(n, source(n).def, Some(origin), source(n).rest) || r in source(n).facts
  }

  /** A row of a name the refresh has no business with: not one it prunes, nor one it records. */
  ghost predicate NotItsOwn(st: Store, schema: Name, origin: string, leaves: seq<string>, prune: bool, r: Row) {
    (r.Record? || (r.Fact? && r.table != GrantColumns)) ==>
      && (prune ==> !(Vanished(schema, leaves, r.name) && CameFrom(st.rows, r.name, origin)))
      && (Listed(schema, leaves, r.name) && !Unrecorded(r) ==> HasRecordOf(st.rows, r.name))
  }

  /** A refresh leaves every row of a name whose record is of another origin - an admin's own -, or that is
      no direct child of the schema, or that the source still holds; marks, references and column grants
      stay whatever they are of. */
  lemma RefreshKeeps(st: Store, schema: Name, origin: string, source: Source, leaves: seq<string>, prune: bool, r: Row)
    requires Probes(source) && Holds(st, schema) && NotItsOwn(st, schema, origin, leaves, prune, r)
    ensures r in st.rows ==> r in Refreshed(st, schema, origin, source, leaves, prune)
  {
    var added := Additions(st.rows, NamesIn(st, schema.vcat), schema, leaves, true);
    AdditionsSound(st.rows, NamesIn(st, schema.vcat), schema, leaves, true);
    forall l | l in added && Named(r, Child(schema, l)) ensures Unrecorded(r) {
      RecordedOnRows(st.rows, Child(schema, l));
    }
    RegisterAllOnRows(st.rows, schema, origin, source, added, r);
    if r.Record? || r.Fact? {
      StaleOnRows(st.rows, schema, origin, leaves, r.name);
    }
  }

  /** What a refresh brings is what the source gives of an object it lists that had neither a record nor a
      mark, and is no case sibling of a stored name. */
  lemma RefreshBrings(st: Store, schema: Name, origin: string, source: Source, leaves: seq<string>, prune: bool, r: Row)
    requires Probes(source) && Holds(st, schema)
    requires r !in st.rows && r in Refreshed(st, schema, origin, source, leaves, prune)
    ensures exists l :: l in leaves && FromSource(schema, origin, source, l, r)
                        && !HasRecordOf(st.rows, Child(schema, l)) && Mark(Child(schema, l)) !in st.rows
                        && !CaseSibling(NamesIn(st, schema.vcat), schema.path + [l])
  {
    var names := NamesIn(st, schema.vcat);
    var added := Additions(st.rows, names, schema, leaves, true);
    AdditionsSound(st.rows, names, schema, leaves, true);
    RegisterAllOnRows(st.rows, schema, origin, source, added, r);
    var l :| l in added && FromSource(schema, origin, source, l, r);
    AddedIsNoSibling(st.rows, names, schema, leaves, true, l);
    RecordedOnRows(st.rows, Child(schema, l));
  }

  /** With prune, nothing is left of a record of this expansion whose object vanished but its column
      grants. */
  lemma RefreshTakes(st: Store, schema: Name, origin: string, source: Source, leaves: seq<string>, n: Name)
    requires Probes(source) && Holds(st, schema) && Vanished(schema, leaves, n)
    ensures var rows := Refreshed(st, schema, origin, source, leaves, true);
            && !CameFrom(rows, n, origin)
            && (CameFrom(st.rows, n, origin) ==> !HasRecordOf(rows, n))
            && (CameFrom(st.rows, n, origin) ==>
                  forall t, key, data :: Fact(t, n, key, data) in rows ==> t == GrantColumns && Fact(t, n, key, data) in st.rows)
  {
    var rows := Refreshed(st, schema, origin, source, leaves, true);
    StaleOnRows(st.rows, schema, origin, leaves, n);
    assert forall l :: Child(schema, l).path[|schema.path|] == l;
    forall r: Row | r in rows && Named(r, n) ensures r in st.rows {
      if r !in st.rows {
        RefreshBrings(st, schema, origin, source, leaves, true, r);
      }
    }
  }

  /** An expansion forgets exactly the marks of its schema's own children. */
  lemma ExpansionForgets(st: Store, schema: Name, origin: string, source: Source, leaves: seq<string>, n: Name)
    requires Probes(source)
    ensures Mark(n) in Expanded(st, schema, origin, source, leaves) <==> Mark(n) in st.rows && !(exists leaf :: n == Child(schema, leaf))
  {
    RegisterAllOnRows(st.rows, schema, origin, source, Additions(st.rows, NamesIn(st, schema.vcat), schema, leaves, false), Mark(n));
    if n.vcat == schema.vcat && n.path != [] && n.path[..|n.path| - 1] == schema.path {
      assert n == Child(schema, n.path[|n.path| - 1]);
    }
    if leaf :| n == Child(schema, leaf) {
      assert n.path[..|n.path| - 1] == schema.path;
    }
  }

  /** An expansion takes no row but those marks, and brings what the source gives of objects that had no
      record. */
  lemma ExpansionAdds(st: Store, schema: Name, origin: string, source: Source, leaves: seq<string>, r: Row)
    requires Probes(source) && Holds(st, schema) && !r.Mark?
    ensures var rows := Expanded(st, schema, origin, source, leaves);
            && (r in st.rows && NotItsOwn(st, schema, origin, leaves, false, r) ==> r in rows)
            && (r in rows && r !in st.rows ==> exists l :: l in leaves && FromSource(schema, origin, source, l, r) && !HasRecordOf(st.rows, Child(schema, l)))
  {
    var added := Additions(st.rows, NamesIn(st, schema.vcat), schema, leaves, false);
    AdditionsSound(st.rows, NamesIn(st, schema.vcat), schema, leaves, false);
    forall l | l in added ensures !HasRecordOf(st.rows, Child(schema, l)) {
      RecordedOnRows(st.rows, Child(schema, l));
    }
    RegisterAllOnRows(st.rows, schema, origin, source, added, r);
  }
}
