/** The store and the transaction's undo as objects: the writers run their statements table by table,
    the rollback its loops. Each is proved against the functions the theorems are about. */
module PolicyStoreObjects {
  import opened Names
  import opened PolicyRows
  import opened RecordStore
  import opened UndoRules
  import opened UndoSafety
  import opened Rollback
  import opened Lineage

  // --- statements over one name's tables -----------------------------------------------------------

  // The rows once the tables before position `i` are cleared of `n` and refilled.
  ghost function RewrittenUpTo(rows: Rows, n: Name, before: Rows, clears: set<Table>, puts: set<Table>, i: nat): Rows {
    (set r | r in rows && !(BelongsTo(rows, r, n) && TableOf(r) in clears && Position(TableOf(r)) < i))
    + (set r | r in before && TableOf(r) in puts && Position(TableOf(r)) < i)
  }

  ghost predicate CollidesBefore(rows: Rows, n: Name, before: Rows, clears: set<Table>, puts: set<Table>, i: nat) {
    Collides((set r | r in rows && !(BelongsTo(rows, r, n) && TableOf(r) in clears)),
             (set r | r in before && TableOf(r) in puts && Position(TableOf(r)) < i))
  }

  // Clearing a table reads the references as they were: they are cleared after their columns.
  lemma TableAsFound(rows: Rows, n: Name, before: Rows, clears: set<Table>, puts: set<Table>, i: nat)
    requires i < |TABLES|
    ensures var work := RewrittenUpTo(rows, n, before, clears, puts, i);
            forall r :: TableOf(r) == TABLES[i] ==> (r in work <==> r in rows) && BelongsTo(work, r, n) == BelongsTo(rows, r, n)
  {
    var work := RewrittenUpTo(rows, n, before, clears, puts, i);
    forall r | TableOf(r) == TABLES[i] ensures (r in work <==> r in rows) && BelongsTo(work, r, n) == BelongsTo(rows, r, n) {
      assert Position(TableOf(r)) == i;
      if r.RefColumn? {
        assert forall f: Row :: f.Ref? ==> Position(TableOf(f)) > i && (f in work <==> f in rows);
      }
    }
  }

  function ClearedAt(work: Rows, n: Name, clears: set<Table>, t: Table): Rows {
    if t in clears then set r | r in work && !(TableOf(r) == t && BelongsTo(work, r, n)) else work
  }

  function PutAt(before: Rows, puts: set<Table>, t: Table): Rows {
    if t in puts then OfTable(before, t) else {}
  }

  lemma RewritesTable(rows: Rows, n: Name, before: Rows, clears: set<Table>, puts: set<Table>, i: nat)
    requires i < |TABLES|
    ensures var work := RewrittenUpTo(rows, n, before, clears, puts, i);
            RewrittenUpTo(rows, n, before, clears, puts, i + 1) == ClearedAt(work, n, clears, TABLES[i]) + PutAt(before, puts, TABLES[i])
  {
    TableAsFound(rows, n, before, clears, puts, i);
    assert forall r :: TableOf(r) == TABLES[i] <==> Position(TableOf(r)) == i;
  }

  lemma CollidesAtTable(rows: Rows, n: Name, before: Rows, clears: set<Table>, puts: set<Table>, i: nat)
    requires i < |TABLES|
    ensures var work := RewrittenUpTo(rows, n, before, clears, puts, i);
            CollidesBefore(rows, n, before, clears, puts, i + 1)
            <==> CollidesBefore(rows, n, before, clears, puts, i) || Collides(ClearedAt(work, n, clears, TABLES[i]), PutAt(before, puts, TABLES[i]))
  {
    TableAsFound(rows, n, before, clears, puts, i);
    var t := TABLES[i];
    var work := RewrittenUpTo(rows, n, before, clears, puts, i);
    assert forall r :: TableOf(r) == t <==> Position(TableOf(r)) == i;
    var all := set r | r in rows && !(BelongsTo(rows, r, n) && TableOf(r) in clears);
    var others := set r | r in before && TableOf(r) in puts && Position(TableOf(r)) < i;
    CollisionsByTable(all, ClearedAt(work, n, clears, t), others, PutAt(before, puts, t), t);
    assert (set r | r in before && TableOf(r) in puts && Position(TableOf(r)) < i + 1) == others + PutAt(before, puts, t);
  }

  lemma CollisionsByTable(all: Rows, kept: Rows, others: Rows, inserted: Rows, t: Table)
    requires forall r :: TableOf(r) == t ==> (r in kept <==> r in all)
    requires forall r :: r in inserted ==> TableOf(r) == t
    requires forall r :: r in others ==> TableOf(r) != t
    ensures Collides(all, others + inserted) <==> Collides(all, others) || Collides(kept, inserted)
  {
    assert forall r, s :: KeyOf(r) == KeyOf(s) ==> TableOf(r) == TableOf(s);
    if x, s :| x in inserted && s in all && KeyOf(x) == KeyOf(s) {
      assert s in kept;
    }
  }

  /** The statements of an undo over one name: table by table in the drop's order, its rows deleted,
      then the image's inserted. */
  method RewriteTables(rows: Rows, n: Name, before: Rows, clears: set<Table>, puts: set<Table>) returns (r: Judged)
    ensures r == Replace((set x | x in rows && !(BelongsTo(rows, x, n) && TableOf(x) in clears)),
                         (set x | x in before && TableOf(x) in puts))
  {
    var work := rows;
    assert work == RewrittenUpTo(rows, n, before, clears, puts, 0);
    for i := 0 to |TABLES|
      invariant work == RewrittenUpTo(rows, n, before, clears, puts, i)
      invariant !CollidesBefore(rows, n, before, clears, puts, i)
    {
      RewritesTable(rows, n, before, clears, puts, i);
      CollidesAtTable(rows, n, before, clears, puts, i);
      if TABLES[i] in clears {
        work := set x | x in work && !(TableOf(x) == TABLES[i] && BelongsTo(work, x, n));
      }
      if TABLES[i] in puts {
        var inserted := OfTable(before, TABLES[i]);
        if Collides(work, inserted) {
          CollisionsStay(rows, n, before, clears, puts, i + 1);
          return Refused(Failed);
        }
        work := work + inserted;
      }
    }
    assert (set x | x in rows && !(BelongsTo(rows, x, n) && TableOf(x) in clears && Position(TableOf(x)) < |TABLES|))
        == (set x | x in rows && !(BelongsTo(rows, x, n) && TableOf(x) in clears));
    assert (set x | x in before && TableOf(x) in puts && Position(TableOf(x)) < |TABLES|) == (set x | x in before && TableOf(x) in puts);
    r := Rewrites(work);
  }

  lemma CollisionsStay(rows: Rows, n: Name, before: Rows, clears: set<Table>, puts: set<Table>, i: nat)
    requires CollidesBefore(rows, n, before, clears, puts, i)
    ensures Collides((set x | x in rows && !(BelongsTo(rows, x, n) && TableOf(x) in clears)), (set x | x in before && TableOf(x) in puts))
  {
  }

  lemma EveryTable()
    ensures forall t: Table :: t in TABLES
  {
    forall t: Table ensures t in TABLES {
      assert TABLES[Position(t)] == t;
    }
  }

  lemma DropsByTable(st: Store, n: Name, clears: set<Table>)
    requires clears == set t | t in TABLES && t != SchemaDropped && !(IsGrants(t) && n in st.functions)
    ensures Replace((set x | x in st.rows && !(BelongsTo(st.rows, x, n) && TableOf(x) in clears)), (set x: Row | x in {} && TableOf(x) in {}))
         == Rewrites(set r | r in st.rows && !DropTakes(st, n, r))
  {
    EveryTable();
    assert (set x | x in st.rows && !(BelongsTo(st.rows, x, n) && TableOf(x) in clears)) == (set r | r in st.rows && !DropTakes(st, n, r));
    assert (set x: Row | x in {} && TableOf(x) in {}) == {};
  }

  // --- a rename's statements -----------------------------------------------------------------------

  /** The tables a rename updates, in its order. */
  const RENAMED: seq<Table> := [Relations, Facts(RelationTypes), Facts(ObjectColumns), Facts(ColumnComments)]

  function RenamePosition(t: Table): (p: nat)
    ensures t in RENAMED <==> p < |RENAMED|
    ensures p < |RENAMED| ==> RENAMED[p] == t
  {
    if t == RENAMED[0] then 0 else if t == RENAMED[1] then 1 else if t == RENAMED[2] then 2 else if t == RENAMED[3] then 3 else 4
  }

  // The rows moved by the first `i` updates, where they were and where they are.
  function MovedFrom(rows: Rows, op: Op, i: nat): Rows
    requires op.Rename?
  {
    set r | r in rows && RenameMoves(op, r) && RenamePosition(TableOf(r)) < i
  }

  function MovedTo(rows: Rows, op: Op, i: nat): Rows
    requires op.Rename?
  {
    set r | r in MovedFrom(rows, op, i) :: Moved(op, r)
  }

  function MovedUpTo(rows: Rows, op: Op, i: nat): Rows
    requires op.Rename?
  {
    (rows - MovedFrom(rows, op, i)) + MovedTo(rows, op, i)
  }

  function TableRows(rows: Rows, op: Op, t: Table): Rows
    requires op.Rename?
  {
    set r | r in rows && RenameMoves(op, r) && TableOf(r) == t
  }

  function TableMoved(rows: Rows, op: Op, t: Table): Rows
    requires op.Rename?
  {
    set r | r in TableRows(rows, op, t) :: Moved(op, r)
  }

  lemma MovedStaysInTable(op: Op, r: Row)
    requires op.Rename? && RenameMoves(op, r)
    ensures TableOf(Moved(op, r)) == TableOf(r) && RenamePosition(TableOf(r)) < |RENAMED|
  {
  }

  // The rows of a table not yet updated are as they were found.
  lemma UpdateAsFound(rows: Rows, op: Op, i: nat)
    requires op.Rename? && i < |RENAMED|
    ensures forall r :: TableOf(r) == RENAMED[i] ==> (r in MovedUpTo(rows, op, i) <==> r in rows)
    ensures TableRows(MovedUpTo(rows, op, i), op, RENAMED[i]) == TableRows(rows, op, RENAMED[i])
  {
    forall r | r in MovedFrom(rows, op, i) ensures TableOf(Moved(op, r)) != RENAMED[i] {
      MovedStaysInTable(op, r);
    }
  }

  lemma MovedOneMore(rows: Rows, op: Op, i: nat)
    requires op.Rename? && i < |RENAMED|
    ensures MovedFrom(rows, op, i + 1) == MovedFrom(rows, op, i) + TableRows(rows, op, RENAMED[i])
    ensures MovedTo(rows, op, i + 1) == MovedTo(rows, op, i) + TableMoved(rows, op, RENAMED[i])
  {
    assert forall r :: RenamePosition(TableOf(r)) == i <==> TableOf(r) == RENAMED[i];
    var more := MovedFrom(rows, op, i + 1);
    assert more == MovedFrom(rows, op, i) + TableRows(rows, op, RENAMED[i]);
    forall x | x in MovedTo(rows, op, i) + TableMoved(rows, op, RENAMED[i]) ensures x in MovedTo(rows, op, i + 1) {
      var r :| r in more && Moved(op, r) == x;
    }
  }

  // One update: the table's rows move, or one meets a key that is taken there.
  lemma UpdateMoves(rows: Rows, op: Op, i: nat)
    requires op.Rename? && i < |RENAMED|
    ensures var work := MovedUpTo(rows, op, i);
            var moving := TableRows(work, op, RENAMED[i]);
            && (work - moving) + TableMoved(work, op, RENAMED[i]) == MovedUpTo(rows, op, i + 1)
            && (Collides(StayingRows(rows, op), MovedTo(rows, op, i + 1))
                <==> Collides(StayingRows(rows, op), MovedTo(rows, op, i)) || Collides(work - moving, TableMoved(work, op, RENAMED[i])))
  {
    var work := MovedUpTo(rows, op, i);
    var moving := TableRows(work, op, RENAMED[i]);
    UpdateAsFound(rows, op, i);
    MovedOneMore(rows, op, i);
    forall x | x in MovedTo(rows, op, i) ensures TableOf(x) != RENAMED[i] && x !in moving {
      var r :| r in MovedFrom(rows, op, i) && Moved(op, r) == x;
      MovedStaysInTable(op, r);
    }
    forall x | x in TableMoved(work, op, RENAMED[i]) ensures TableOf(x) == RENAMED[i] {
      var r :| r in moving && Moved(op, r) == x;
      MovedStaysInTable(op, r);
    }
    CollisionsByTable(StayingRows(rows, op), work - moving, MovedTo(rows, op, i), TableMoved(work, op, RENAMED[i]), RENAMED[i]);
  }

  lemma AllMoved(rows: Rows, op: Op)
    requires op.Rename?
    ensures MovedTo(rows, op, |RENAMED|) == MovedRows(rows, op)
    ensures MovedUpTo(rows, op, |RENAMED|) == StayingRows(rows, op) + MovedRows(rows, op)
  {
    forall r | RenameMoves(op, r) ensures RenamePosition(TableOf(r)) < |RENAMED| {
      MovedStaysInTable(op, r);
    }
    assert MovedFrom(rows, op, |RENAMED|) == set r | r in rows && RenameMoves(op, r);
  }

  lemma {:induction false} MovesCollide(rows: Rows, op: Op, i: nat)
    requires op.Rename? && i <= |RENAMED| && Collides(StayingRows(rows, op), MovedTo(rows, op, i))
    ensures Collides(StayingRows(rows, op), MovedTo(rows, op, |RENAMED|))
    decreases |RENAMED| - i
  {
    if i < |RENAMED| {
      UpdateMoves(rows, op, i);
      MovesCollide(rows, op, i + 1);
    }
  }

  /** A rename's updates, table by table: they end where moving every row at once would, and one fails
      exactly when that would. */
  method UpdateTables(rows: Rows, op: Op) returns (r: Judged)
    requires op.Rename?
    ensures r == if Collides(StayingRows(rows, op), MovedRows(rows, op)) then Refused(Failed)
                 else Rewrites(StayingRows(rows, op) + MovedRows(rows, op))
  {
    AllMoved(rows, op);
    var work := rows;
    assert MovedFrom(rows, op, 0) == {} && MovedTo(rows, op, 0) == {};
    for i := 0 to |RENAMED|
      invariant work == MovedUpTo(rows, op, i)
      invariant !Collides(StayingRows(rows, op), MovedTo(rows, op, i))
    {
      UpdateMoves(rows, op, i);
      var moving := TableRows(work, op, RENAMED[i]);
      var moved := TableMoved(work, op, RENAMED[i]);
      if Collides(work - moving, moved) {
        MovesCollide(rows, op, i + 1);
        return Refused(Failed);
      }
      work := (work - moving) + moved;
    }
    r := Rewrites(work);
  }

  /** A registration's statements, in their order. */
  method RegisterRows(rows: Rows, op: Op) returns (work: Rows)
    requires op.Register? && ProbedFor(op.facts, op.name)
    ensures work == Registered(rows, op)
  {
    var n := op.name;
    work := set r | r in rows && !(r.Record? && r.name == n);
    work := set r | r in work && !(r.Fact? && r.name == n && r.table == RelationColumns);
    work := work + {Record(n, op.def, op.origin, op.rest)};
    work := set r | r in work && !(r.Fact? && r.name == n && r.table == RelationTypes);
    work := work + OfTable(op.facts, Facts(RelationTypes));
    work := set r | r in work && !(r.Fact? && r.name == n && r.table == ObjectColumns);
    work := work + OfTable(op.facts, Facts(ObjectColumns));
    work := set r | r in work && !(r.Fact? && r.name == n && r.table == Keys);
    if op.clearsMark && |n.path| > 1 {
      work := work - {Mark(n)};
    }
  }

  /** A drop's deletes, table by table; a function of the name keeps the grants. */
  method DropRows(st: Store, n: Name) returns (left: Rows)
    ensures left == set r | r in st.rows && !DropTakes(st, n, r)
  {
    var clears := set t | t in TABLES && t != SchemaDropped && !(IsGrants(t) && n in st.functions);
    var taken := RewriteTables(st.rows, n, {}, clears, {});
    DropsByTable(st, n, clears);
    left := taken.rows;
  }

  // --- the store -----------------------------------------------------------------------------------

  class PolicyStore {
    const id: string
    var version: int
    var rows: Rows
    var functionColumns: set<FunctionColumn>
    var functions: set<Name>
    var others: set<Name>
    /** The names the lineage listener was last told exist. */
    var known: set<Name>

    constructor (id: string, version: int, rows: Rows, functionColumns: set<FunctionColumn>, functions: set<Name>, others: set<Name>, known: set<Name>)
      ensures View() == Store(id, version, rows, functionColumns, functions, others)
      ensures this.known == known
    {
      this.id, this.version, this.rows, this.functionColumns := id, version, rows, functionColumns;
      this.functions, this.others, this.known := functions, others, known;
    }

    function View(): Store
      reads this
    {
      Store(id, version, rows, functionColumns, functions, others)
    }

    /** A registration's statements, in their order; nothing is told to lineage. */
    method Register(op: Op) returns (write: Option<RecordWrite>)
      requires op.Register?
      modifies this
      ensures known == old(known)
      ensures write.None? ==> AfterWrite(old(View()), op) == None && View() == old(View())
      ensures write.Some? ==> AfterWrite(old(View()), op) == Some(View()) && write.value == WriteOf(old(View()), op, View())
    {
      var n := op.name;
      if !ProbedFor(op.facts, n) {
        return None;
      }
      var before := Image(rows, n);
      var work := RegisterRows(rows, op);
      rows := work;
      version := version + 1;
      write := Some(RecordWrite(id, version, [(n, Change(before, Image(rows, n)))]));
      assert write.value.names == WriteOf(old(View()), op, View()).names;
    }

    /** A drop clears the tracked tables one after the other, a function's share of the grants apart,
        and marks a record an expansion produced. */
    method DropRelation(n: Name) returns (write: Option<RecordWrite>)
      modifies this
      ensures write.None? ==> AfterWrite(old(View()), Drop(n)) == None && View() == old(View()) && known == old(known)
      ensures write.Some? ==> AfterWrite(old(View()), Drop(n)) == Some(View()) && write.value == WriteOf(old(View()), Drop(n), View())
      ensures write.Some? ==> known == Told(old(known), old(View()), Drop(n))
    {
      if RecordOf(Image(rows, n)) == {} {
        return None;
      }
      var before := Image(rows, n);
      ghost var st := View();
      var left := DropRows(View(), n);
      rows := left + DropMarks(rows, n);
      version := version + 1;
      known := known - {n};
      write := Some(RecordWrite(id, version, [(n, Change(before, Image(rows, n)))]));
      assert rows == Dropped(st, n);
      assert write.value.names == WriteOf(st, Drop(n), View()).names;
    }

    /** A rename moves the record and three of its tables to the new name, and unmarks that. */
    method RenameRelation(op: Op) returns (write: Option<RecordWrite>)
      requires op.Rename?
      modifies this
      ensures write.None? ==> AfterWrite(old(View()), op) == None && View() == old(View()) && known == old(known)
      ensures write.Some? ==> AfterWrite(old(View()), op) == Some(View()) && write.value == WriteOf(old(View()), op, View())
      ensures write.Some? ==> known == Told(old(known), old(View()), op)
    {
      ghost var st := View();
      RecordsShown(st, op.name);
      var before := Image(rows, op.name);
      var beforeTo := Image(rows, op.to);
      var hadRecord := RecordOf(before) != {};
      if hadRecord {
        var updated := UpdateTables(rows, op);
        if updated.Refused? || ColumnsCollide(View(), op) {
          return None;
        }
        var work := updated.rows;
        if |op.to.path| > 1 {
          work := work - {Mark(op.to)};
        }
        assert work == Renamed(rows, op);
        rows := work;
        functionColumns := (set c | c in functionColumns && c.name != op.name) + MovedColumns(View(), op);
      }
      version := version + 1;
      known := known - {op.name};
      if hadRecord {
        known := known + {op.to};
      }
      write := Some(RecordWrite(id, version, [(op.name, Change(before, Image(rows, op.name))), (op.to, Change(beforeTo, Image(rows, op.to)))]));
      assert write.value.names == WriteOf(st, op, View()).names;
    }

    method TakeNameRows(work: Rows, n: Name, c: Change) returns (r: Judged)
      ensures r == TakeName(View(), work, n, c)
    {
      EveryTable();
      var clears := set t | t in TABLES && !Spared(View(), n, t);
      var puts := set t | t in TABLES && !Spared(View(), n, t) && Changed(c, t);
      r := RewriteTables(work, n, c.before, clears, puts);
      assert (set x | x in work && !(BelongsTo(work, x, n) && TableOf(x) in clears)) == (set x | x in work && !Takes(View(), work, n, x));
      assert (set x | x in c.before && TableOf(x) in puts)
          == (set x | x in c.before && !Spared(View(), n, TableOf(x)) && Changed(c, TableOf(x)));
    }

    static method PutBackRows(work: Rows, n: Name, c: Change) returns (r: Judged)
      ensures r == PutBack(work, n, c)
    {
      EveryTable();
      var changed := set t | t in TABLES && Changed(c, t);
      r := RewriteTables(work, n, c.before, changed, changed);
      assert (set x | x in work && !(BelongsTo(work, x, n) && TableOf(x) in changed))
          == (set x | x in work && !(BelongsTo(work, x, n) && Changed(c, TableOf(x))));
      assert (set x | x in c.before && TableOf(x) in changed) == (set x | x in c.before && Changed(c, TableOf(x)));
    }

    /** The undo's judgement and its statements. */
    method UndoStatements(write: RecordWrite, own: seq<int>, takesCreated: bool) returns (r: Judged)
      requires write.names != []
      ensures r == UndoRows(View(), write, own, takesCreated)
    {
      var (n, c) := write.names[0];
      if |write.names| == 1 && RecordOf(c.before) == {} && RecordOf(c.after) != {} {
        if !SameRecord(Image(rows, n), c.after) {
          return Refused(ChangedSince);
        }
        r := TakeNameRows(rows, n, c);
        return;
      }
      if takesCreated && |write.names| == 2 {
        var (to, moved) := write.names[1];
        if !SameRecord(Image(rows, to), moved.after) {
          return Refused(ChangedSince);
        }
        r := TakeNameRows(rows, to, moved);
        if r.Rewrites? && RecordOf(Image(rows, n)) == {} {
          r := PutBackRows(r.rows, n, c);
        }
        return;
      }
      if |write.names| == 1 && RecordOf(c.before) != {} && RecordOf(c.after) == {} {
        var ours := 0;
        for i := 0 to |own|
          invariant ours == CountOwn(own[..i], write.version, version)
        {
          assert own[..i + 1][..i] == own[..i];
          if write.version < own[i] <= version {
            ours := ours + 1;
          }
        }
        assert own[..|own|] == own;
        if version - write.version != ours {
          return Refused(WrittenSince);
        }
      }
      assert !IsCreate(write);
      for i := 0 to |write.names|
        invariant forall j :: 0 <= j < i ==> Image(rows, write.names[j].0) == write.names[j].1.after
      {
        if Image(rows, write.names[i].0) != write.names[i].1.after {
          return Refused(ChangedSince);
        }
      }
      r := Rewrites(rows);
      var i := 0;
      assert write.names[0..] == write.names;
      while i < |write.names|
        invariant i <= |write.names| && r.Rewrites?
        invariant PutBackAll(rows, write.names) == PutBackAll(r.rows, write.names[i..])
      {
        assert write.names[i..][0] == write.names[i] && write.names[i..][1..] == write.names[i + 1..];
        r := PutBackRows(r.rows, write.names[i].0, write.names[i].1);
        if r.Refused? {
          return;
        }
        i := i + 1;
      }
    }

    /** One record write taken back in one write of the store, or refused and nothing written. */
    method UndoRecordWrite(write: RecordWrite, own: seq<int>, takesCreated: bool) returns (own': seq<int>, outcome: Outcome)
      modifies this
      ensures known == old(known)
      ensures (View(), own', outcome) == UndoWrite(old(View()), write, own, takesCreated)
    {
      if id != write.store {
        return own, OtherStore;
      }
      if !ChangedAnything(write) {
        return own, Undone;
      }
      var judged := UndoStatements(write, own, takesCreated);
      if judged.Refused? {
        return own, judged.why;
      }
      rows := judged.rows;
      version := version + 1;
      return own + [version], Undone;
    }

    /** Looks a name up among the stored names of its catalog. */
    method SpellName(n: Name, creating: bool) returns (r: Spelling)
      ensures r == Spell(NamesIn(View(), n.vcat), n.path, creating)
    {
      var listed := ListNames(NamesIn(View(), n.vcat));
      r := FindSpelling(n.path, listed, creating);
    }

    /** The listener is told what the store holds of a name when that is not what it was last told. */
    method NoteIfChanged(n: Name, announced: bool)
      modifies this`known
      ensures known == Corrected(old(known), map[n := announced], View())
    {
      var held := n in Records(View());
      if held != announced {
        known := if held then known + {n} else known - {n};
      }
    }
  }

  // --- the transaction's undo ----------------------------------------------------------------------

  lemma CorrectedOneByOne(known: set<Name>, done: map<Name, bool>, n: Name, value: bool, st: Store)
    requires n !in done
    ensures Corrected(Corrected(known, done, st), map[n := value], st) == Corrected(known, done[n := value], st)
  {
  }

  /** What is still to undo, after the outcomes so far, makes up the whole. */
  ghost predicate IsRest(rest: (Store, seq<int>, seq<Outcome>), outcomes: seq<Outcome>, all: (Store, seq<int>, seq<Outcome>)) {
    all == (rest.0, rest.1, outcomes + rest.2)
  }

  lemma UndoAllNext(st: Store, undo: seq<Step>, i: nat, versions: seq<int>, outcomes: seq<Outcome>, all: (Store, seq<int>, seq<Outcome>))
    requires i < |undo| && IsRest(UndoAll(st, undo[..i + 1], versions), outcomes, all)
    ensures var (st', versions', outcome) := UndoStep(st, undo[i], versions);
            IsRest(UndoAll(st', undo[..i], versions'), outcomes + [outcome], all)
  {
    assert undo[..i + 1][..i] == undo[..i];
    var (st', versions', outcome) := UndoStep(st, undo[i], versions);
    var rest := UndoAll(st', undo[..i], versions');
    assert outcomes + ([outcome] + rest.2) == outcomes + [outcome] + rest.2;
  }

  class RecordUndo {
    var steps: seq<Step>
    var own: seq<int>
    var created: set<Name>

    constructor ()
      ensures View() == NOTHING
    {
      steps, own, created := [], [], {};
    }

    function View(): Pending
      reads this
    {
      Pending(steps, own, created)
    }

    /** A record write joins the transaction: its version, its step, and where a created record is now. */
    method Wrote(write: RecordWrite, rename: bool)
      modifies this
      ensures View() == Rollback.Wrote(old(View()), write, rename)
    {
      own := own + [write.version];
      if write.names == [] {
        return;
      }
      var takesCreated := false;
      var (n, c) := write.names[0];
      if rename && |write.names| == 2 {
        takesCreated := n in created;
        created := created - {n};
        if takesCreated && RecordOf(write.names[1].1.after) != {} {
          created := created + {write.names[1].0};
        }
      } else if RecordOf(c.before) == {} && RecordOf(c.after) != {} {
        created := created + {n};
      } else if RecordOf(c.after) == {} {
        created := created - {n};
      }
      steps := steps + [Step(write, rename, takesCreated)];
    }

    method Clear()
      modifies this
      ensures View() == NOTHING
    {
      steps, own, created := [], [], {};
    }

    /** One step: skipped when a name its rows go back to is spelled another way since. */
    method Undo(store: PolicyStore, step: Step, versions: seq<int>) returns (versions': seq<int>, outcome: Outcome)
      modifies store
      ensures store.known == old(store.known)
      ensures (store.View(), versions', outcome) == UndoStep(old(store.View()), step, versions)
    {
      for i := 0 to |step.write.names|
        invariant forall j :: 0 <= j < i && RecordOf(step.write.names[j].1.before) != {} && RecordOf(step.write.names[j].1.after) == {}
                    ==> Spell(NamesIn(store.View(), step.write.names[j].0.vcat), step.write.names[j].0.path, true).Spelled?
        invariant store.View() == old(store.View()) && store.known == old(store.known)
      {
        var (n, c) := step.write.names[i];
        if RecordOf(c.before) != {} && RecordOf(c.after) == {} {
          var spelling := store.SpellName(n, true);
          if !spelling.Spelled? {
            return versions, NameTaken;
          }
        }
      }
      versions', outcome := store.UndoRecordWrite(step.write, versions, step.takesCreated);
    }

    static method Announce(steps: seq<Step>) returns (announced: map<Name, bool>)
      ensures announced == Announced(steps)
    {
      announced := map[];
      for i := 0 to |steps|
        invariant announced == Announced(steps[..i])
      {
        assert steps[..i + 1][..i] == steps[..i];
        var step := steps[i];
        var names := step.write.names;
        ghost var m := announced;
        for j := 0 to |names|
          invariant announced == EmplaceFound(m, names[..j])
        {
          assert names[..j + 1][..j] == names[..j];
          if names[j].0 !in announced {
            announced := announced[names[j].0 := RecordOf(names[j].1.before) != {}];
          }
        }
        assert names[..|names|] == names;
        if names != [] {
          var (n, c) := names[0];
          if step.rename {
            if RecordOf(c.before) != {} && |names| > 1 {
              announced := announced[n := false];
              announced := announced[names[1].0 := true];
            }
          } else if RecordOf(c.before) != {} && RecordOf(c.after) == {} {
            announced := announced[n := false];
          }
        }
      }
      assert steps[..|steps|] == steps;
    }

    /** Every step undone or passed over, newest first. */
    method UndoEach(store: PolicyStore, undo: seq<Step>, versions0: seq<int>) returns (outcomes: seq<Outcome>)
      modifies store
      ensures store.known == old(store.known)
      ensures (store.View(), outcomes) == var (done, _, all) := UndoAll(old(store.View()), undo, versions0); (done, all)
    {
      var versions := versions0;
      outcomes := [];
      var i := |undo|;
      ghost var all := UndoAll(store.View(), undo, versions0);
      assert undo[..i] == undo && outcomes + all.2 == all.2;
      while i > 0
        invariant i <= |undo| && store.known == old(store.known)
        invariant IsRest(UndoAll(store.View(), undo[..i], versions), outcomes, all)
      {
        i := i - 1;
        UndoAllNext(store.View(), undo, i, versions, outcomes, all);
        var outcome;
        versions, outcome := Undo(store, undo[i], versions);
        outcomes := outcomes + [outcome];
      }
      assert undo[..0] == [] && outcomes + [] == outcomes;
    }

    /** Each touched name is told, where the store holds something else than was told last. */
    static method Correct(store: PolicyStore, announced: map<Name, bool>)
      modifies store`known
      ensures store.known == Corrected(old(store.known), announced, store.View())
    {
      var left := announced.Keys;
      ghost var done: map<Name, bool> := map[];
      assert Corrected(store.known, done, store.View()) == store.known;
      while left != {}
        invariant left <= announced.Keys && done == announced - left
        invariant store.View() == old(store.View())
        invariant store.known == Corrected(old(store.known), done, store.View())
      {
        var n :| n in left;
        left := left - {n};
        CorrectedOneByOne(old(store.known), done, n, announced[n], store.View());
        store.NoteIfChanged(n, announced[n]);
        done := done[n := announced[n]];
        assert done == announced - left;
      }
      assert announced - left == announced;
    }

    /** The rollback: every step undone or passed over, newest first; then each touched name told. */
    method TransactionRollback(store: PolicyStore) returns (outcomes: seq<Outcome>)
      modifies this, store
      ensures View() == NOTHING
      ensures (store.View(), outcomes) == var (done, _, all) := UndoAll(old(store.View()), old(steps), old(own)); (done, all)
      ensures store.known == Corrected(old(store.known), Announced(old(steps)), store.View())
    {
      var undo, versions := steps, own;
      Clear();
      var announced := Announce(undo);
      outcomes := UndoEach(store, undo, versions);
      Correct(store, announced);
    }
  }
}
