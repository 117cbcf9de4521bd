/** What each record write leaves, row by row. */
module WriteMeaning {
  import opened Names
  import opened PolicyRows
  import opened RecordStore
  import opened UndoRules

  // --- a rename ------------------------------------------------------------------------------------

  /** The definition a rename leaves: the physical name is the one given, if any; form and body stay. */
  predicate Carried(d: Definition, d': Definition, phys: Option<string>) {
    d'.form == d.form && d'.viewSql == d.viewSql && d'.phys == (if phys.Some? then phys.value else d.phys)
  }

  /** The facts that go along with a renamed record. */
  predicate FollowsRecord(t: FactTable) {
    t == RelationTypes || t == ObjectColumns || t == ColumnComments
  }

  lemma MovesWith(op: Op, r: Row)
    requires op.Rename?
    ensures RenameMoves(op, r) <==> (r.Record? && r.name == op.name) || (r.Fact? && FollowsRecord(r.table) && r.name == op.name)
  {
  }

  lemma RecordMoved(rows: Rows, op: Op, d': Definition, origin: Option<string>, rest: string)
    requires op.Rename? && op.name != op.to && forall r: Row :: r in rows && r.Record? ==> r.name != op.to
    ensures Record(op.to, d', origin, rest) in Renamed(rows, op)
            <==> exists d :: Record(op.name, d, origin, rest) in rows && Carried(d, d', op.phys)
  {
    var there := Record(op.to, d', origin, rest);
    if there in Renamed(rows, op) {
      assert there in MovedRows(rows, op);
      var r :| r in rows && RenameMoves(op, r) && Moved(op, r) == there;
      assert r.Record? && r == Record(op.name, r.def, origin, rest) && Carried(r.def, d', op.phys);
    }
    if d :| Record(op.name, d, origin, rest) in rows && Carried(d, d', op.phys) {
      var r := Record(op.name, d, origin, rest);
      MovesWith(op, r);
      assert Moved(op, r) == there;
    }
  }

  lemma FactMoved(rows: Rows, op: Op, t: FactTable, key: string, data: string)
    requires op.Rename? && op.name != op.to && FollowsRecord(t)
    ensures Fact(t, op.to, key, data) in Renamed(rows, op)
            <==> Fact(t, op.name, key, data) in rows || Fact(t, op.to, key, data) in rows
  {
    var was, there := Fact(t, op.name, key, data), Fact(t, op.to, key, data);
    MovesWith(op, was);
    MovesWith(op, there);
    assert Moved(op, was) == there;
    if there in Renamed(rows, op) && there !in rows {
      var r :| r in rows && RenameMoves(op, r) && Moved(op, r) == there;
      assert r == was;
    }
    if was in rows {
      assert there in MovedRows(rows, op);
    }
  }

  predicate Follows(r: Row) {
    r.Record? || (r.Fact? && FollowsRecord(r.table))
  }

  lemma OthersUnmoved(rows: Rows, op: Op, r: Row)
    requires op.Rename? && op.name != op.to
    ensures Follows(r) && r.name == op.name ==> r !in Renamed(rows, op)
    ensures !(Follows(r) && (r.name == op.name || r.name == op.to)) && !(r == Mark(op.to) && |op.to.path| > 1) ==>
              (r in Renamed(rows, op) <==> r in rows)
    ensures |op.to.path| > 1 ==> Mark(op.to) !in Renamed(rows, op)
  {
    assert forall x: Row :: x in MovedRows(rows, op) ==> Follows(x) && x.name == op.to;
    MovesWith(op, r);
  }

  /** A rename of a record, row by row: the record and the facts that follow it are under the new name as
      they were under the old, the physical name the one given, if any; every other row is untouched but
      the new name's mark. */
  lemma RenameRowByRow(rows: Rows, op: Op)
    requires Consistent(rows) && op.Rename? && op.name != op.to
    requires RecordOf(Image(rows, op.name)) != {} && !Collides(StayingRows(rows, op), MovedRows(rows, op))
    ensures var rows' := Renamed(rows, op);
            && (forall d', origin, rest :: Record(op.to, d', origin, rest) in rows' <==>
                  exists d :: Record(op.name, d, origin, rest) in rows && Carried(d, d', op.phys))
            && (forall t, key, data :: FollowsRecord(t) ==>
                  (Fact(t, op.to, key, data) in rows' <==> Fact(t, op.name, key, data) in rows || Fact(t, op.to, key, data) in rows))
            && (forall r :: Follows(r) && r.name == op.name ==> r !in rows')
            && (forall r :: !(Follows(r) && (r.name == op.name || r.name == op.to)) && r != Mark(op.to) ==> (r in rows' <==> r in rows))
            && (Mark(op.to) in rows' <==> Mark(op.to) in rows && |op.to.path| <= 1)
  {
    var rows' := Renamed(rows, op);
    RenameWrites(rows, op);
    RecordShown(Image(rows, op.to));
    assert forall r: Row :: r in rows && r.Record? && r.name == op.to ==> r in Image(rows, op.to);
    forall d', origin, rest
      ensures Record(op.to, d', origin, rest) in rows' <==> exists d :: Record(op.name, d, origin, rest) in rows && Carried(d, d', op.phys) {
      RecordMoved(rows, op, d', origin, rest);
    }
    forall t, key, data | FollowsRecord(t)
      ensures Fact(t, op.to, key, data) in rows' <==> Fact(t, op.name, key, data) in rows || Fact(t, op.to, key, data) in rows {
      FactMoved(rows, op, t, key, data);
    }
    forall r ensures Follows(r) && r.name == op.name ==> r !in rows'
             ensures !(Follows(r) && (r.name == op.name || r.name == op.to)) && r != Mark(op.to) ==> (r in rows' <==> r in rows) {
      OthersUnmoved(rows, op, r);
    }
    OthersUnmoved(rows, op, Mark(op.to));
  }

  /** The columns of a function of the old name are under the new one, with their kind, key and data. */
  lemma RenameColumnByColumn(st: Store, op: Op, st': Store)
    requires op.Rename? && op.name != op.to && RecordOf(Image(st.rows, op.name)) != {} && AfterWrite(st, op) == Some(st')
    ensures forall kind, key, data :: FunctionColumn(op.to, kind, key, data) in st'.functionColumns
              <==> FunctionColumn(op.name, kind, key, data) in st.functionColumns || FunctionColumn(op.to, kind, key, data) in st.functionColumns
    ensures forall c: FunctionColumn :: c in st'.functionColumns ==> c.name != op.name
    ensures forall c: FunctionColumn :: c.name != op.name && c.name != op.to ==> (c in st'.functionColumns <==> c in st.functionColumns)
  {
    forall kind, key, data
      ensures FunctionColumn(op.to, kind, key, data) in MovedColumns(st, op) <==> FunctionColumn(op.name, kind, key, data) in st.functionColumns {
      var was := FunctionColumn(op.name, kind, key, data);
      assert was.(name := op.to) == FunctionColumn(op.to, kind, key, data);
      if c :| c in st.functionColumns && c.name == op.name && c.(name := op.to) == FunctionColumn(op.to, kind, key, data) {
        assert c == was;
      }
    }
  }

  /** A row or a column that moves would meet one already under the new name. */
  ghost predicate MeetsAnother(st: Store, op: Op)
    requires op.Rename?
  {
    || (exists d, origin, rest :: Record(op.to, d, origin, rest) in st.rows)
    || (exists t, key, data, data' :: FollowsRecord(t) && Fact(t, op.name, key, data) in st.rows && Fact(t, op.to, key, data') in st.rows)
    || (exists kind, key, data, data' :: FunctionColumn(op.name, kind, key, data) in st.functionColumns
                                         && FunctionColumn(op.to, kind, key, data') in st.functionColumns)
  }

  lemma MovedKey(op: Op, r: Row, s: Row)
    requires op.Rename? && RenameMoves(op, r)
    ensures KeyOf(Moved(op, r)) == KeyOf(s) <==>
              && TableOf(s) == TableOf(r)
              && (r.Record? ==> s.Record? && s.name == op.to)
              && (r.Fact? ==> s.Fact? && s.table == r.table && s.name == op.to && s.key == r.key)
  {
  }

  lemma RowsMeet(st: Store, op: Op)
    requires Consistent(st.rows) && op.Rename? && op.name != op.to && RecordOf(Image(st.rows, op.name)) != {}
    ensures Collides(StayingRows(st.rows, op), MovedRows(st.rows, op)) <==>
              || (exists d, origin, rest :: Record(op.to, d, origin, rest) in st.rows)
              || (exists t, key, data, data' :: FollowsRecord(t) && Fact(t, op.name, key, data) in st.rows && Fact(t, op.to, key, data') in st.rows)
  {
    var kept, moved := StayingRows(st.rows, op), MovedRows(st.rows, op);
    MovedApart(st.rows, op);
    if x, s :| x in moved && s in kept && KeyOf(x) == KeyOf(s) {
      var r :| r in st.rows && RenameMoves(op, r) && Moved(op, r) == x;
      MovedKey(op, r, s);
      if r.Record? {
        assert s == Record(op.to, s.def, s.origin, s.rest);
      } else {
        assert r == Fact(r.table, op.name, r.key, r.data) && s == Fact(r.table, op.to, r.key, s.data);
      }
    }
    if d, origin, rest :| Record(op.to, d, origin, rest) in st.rows {
      var there := RecordMoves(st.rows, op);
      var s := Record(op.to, d, origin, rest);
      assert s in kept && KeyOf(there) == KeyOf(s);
    }
    if t, key, data, data' :| FollowsRecord(t) && Fact(t, op.name, key, data) in st.rows && Fact(t, op.to, key, data') in st.rows {
      var r, s := Fact(t, op.name, key, data), Fact(t, op.to, key, data');
      assert RenameMoves(op, r) && Moved(op, r) in moved && s in kept;
      assert KeyOf(Moved(op, r)) == KeyOf(s);
    }
  }

  lemma MovedApart(rows: Rows, op: Op)
    requires Consistent(rows) && op.Rename?
    ensures forall x, y :: x in MovedRows(rows, op) && y in MovedRows(rows, op) && x != y ==> KeyOf(x) != KeyOf(y)
  {
    forall x, y | x in MovedRows(rows, op) && y in MovedRows(rows, op) && x != y ensures KeyOf(x) != KeyOf(y) {
      var r :| r in rows && RenameMoves(op, r) && Moved(op, r) == x;
      var s :| s in rows && RenameMoves(op, s) && Moved(op, s) == y;
      assert KeyOf(x) == KeyOf(y) ==> KeyOf(r) == KeyOf(s);
    }
  }

  lemma ColumnsMeet(st: Store, op: Op)
    requires op.Rename? && op.name != op.to
    ensures ColumnsCollide(st, op) <==>
              exists kind, key, data, data' :: FunctionColumn(op.name, kind, key, data) in st.functionColumns
                                               && FunctionColumn(op.to, kind, key, data') in st.functionColumns
  {
    if c, d :| c in MovedColumns(st, op) && d in st.functionColumns && d.name != op.name && c.name == d.name && c.kind == d.kind && c.key == d.key {
      var was :| was in st.functionColumns && was.name == op.name && was.(name := op.to) == c;
      assert was == FunctionColumn(op.name, c.kind, c.key, was.data) && d == FunctionColumn(op.to, c.kind, c.key, d.data);
    }
    if kind, key, data, data' :| FunctionColumn(op.name, kind, key, data) in st.functionColumns
                                 && FunctionColumn(op.to, kind, key, data') in st.functionColumns {
      var was := FunctionColumn(op.name, kind, key, data);
      assert was.(name := op.to) in MovedColumns(st, op);
    }
  }

  /** When a write fails and leaves the store alone: a registration that probed another name's facts, a
      drop of no record, a rename of a record onto rows of the new name with its keys. */
  lemma WriteFailsExactly(st: Store, op: Op)
    requires Consistent(st.rows) && (op.Rename? ==> op.name != op.to)
    ensures AfterWrite(st, op).None? <==>
              match op
              case Register(_, _, _, _, _, _) => !ProbedFor(op.facts, op.name)
              case Drop(n) => forall d, origin, rest :: Record(n, d, origin, rest) !in st.rows
              case Rename(n, _, _) => (exists d, origin, rest :: Record(n, d, origin, rest) in st.rows) && MeetsAnother(st, op)
  {
    RecordShownOnRows(st.rows, op.name);
    if op.Rename? {
      ColumnsMeet(st, op);
      if RecordOf(Image(st.rows, op.name)) != {} {
        RowsMeet(st, op);
      }
    }
  }

  lemma RecordShownOnRows(rows: Rows, n: Name)
    ensures RecordOf(Image(rows, n)) != {} <==> exists d, origin, rest :: Record(n, d, origin, rest) in rows
  {
    RecordShown(Image(rows, n));
    if r :| r in Image(rows, n) && r.Record? {
      assert r == Record(n, r.def, r.origin, r.rest);
    }
    if d, origin, rest :| Record(n, d, origin, rest) in rows {
      assert Record(n, d, origin, rest) in Image(rows, n);
    }
  }

  // --- a registration ------------------------------------------------------------------------------

  /** A registration, row by row: the record is the one given, the probed facts are those found, the
      declared columns and the key are gone, and the name's other rows - a mark kept or cleared - and every
      other name's are as they were. */
  lemma RegisterRowByRow(rows: Rows, op: Op)
    requires op.Register? && ProbedFor(op.facts, op.name)
    ensures var n := op.name; var rows' := Registered(rows, op);
            && (forall d, origin, rest :: Record(n, d, origin, rest) in rows' <==> d == op.def && origin == op.origin && rest == op.rest)
            && (forall t, key, data :: t == ObjectColumns || t == RelationTypes ==>
                  (Fact(t, n, key, data) in rows' <==> Fact(t, n, key, data) in op.facts))
            && (forall t, key, data :: t == RelationColumns || t == Keys ==> Fact(t, n, key, data) !in rows')
            && (forall t, key, data :: t == ColumnComments || t == ObjectCaps || t == GrantColumns ==>
                  (Fact(t, n, key, data) in rows' <==> Fact(t, n, key, data) in rows))
            && (Mark(n) in rows' <==> Mark(n) in rows && !(op.clearsMark && |n.path| > 1))
            && (forall r :: !Named(r, n) ==> (r in rows' <==> r in rows))
  {
  }

  // --- a drop --------------------------------------------------------------------------------------

  /** The row is one of the relation's: under its name, or of a reference from it or to it - not to the
      function of the same name. */
  ghost predicate Concerns(rows: Rows, r: Row, n: Name) {
    match r
    case Record(m, _, _, _) => m == n
    case Fact(_, m, _, _) => m == n
    case Mark(m) => m == n
    case Ref(v, _, from, to, toFunction, _) => v == n.vcat && (from == n.path || (to == n.path && !toFunction))
    case RefColumn(v, id, _, _) =>
      exists from, to, toFunction, data :: Ref(v, id, from, to, toFunction, data) in rows
        && v == n.vcat && (from == n.path || (to == n.path && !toFunction))
  }

  /** The grants a function of the same name shares. */
  predicate SharedGrant(st: Store, n: Name, r: Row) {
    r.Fact? && (r.table == ObjectCaps || r.table == GrantColumns) && n in st.functions
  }

  /** A drop, row by row: every row of the name goes but the grants a function of the same name shares; the name is
      marked exactly if it was or its record came of an expansion of a schema. */
  lemma DropRowByRow(st: Store, n: Name)
    ensures forall r: Row :: !r.Mark? ==> (r in Dropped(st, n) <==> r in st.rows && (Concerns(st.rows, r, n) ==> SharedGrant(st, n, r)))
    ensures forall m :: Mark(m) in Dropped(st, n) <==>
              Mark(m) in st.rows
              || (m == n && |n.path| > 1 && exists d, origin, rest :: Record(n, d, Some(origin), rest) in st.rows)
  {
    forall r: Row | !r.Mark? ensures r in Dropped(st, n) <==> r in st.rows && (Concerns(st.rows, r, n) ==> SharedGrant(st, n, r)) {
      DropTakesRow(st, n, r);
    }
    if r :| r in st.rows && r.Record? && r.name == n && r.origin.Some? {
      assert r == Record(n, r.def, Some(r.origin.value), r.rest);
    }
  }

  lemma BelongsConcerns(rows: Rows, r: Row, n: Name)
    ensures BelongsTo(rows, r, n) <==> Concerns(rows, r, n)
  {
    if r.RefColumn? {
      if f :| f in rows && f.Ref? && f.vcat == r.vcat && f.id == r.id && EndsAt(f, n) {
        assert f == Ref(r.vcat, r.id, f.from, f.to, f.toFunction, f.data);
      }
    }
  }

  lemma DropTakesRow(st: Store, n: Name, r: Row)
    requires !r.Mark?
    ensures DropTakes(st, n, r) <==> Concerns(st.rows, r, n) && !SharedGrant(st, n, r)
  {
    BelongsConcerns(st.rows, r, n);
  }
}
