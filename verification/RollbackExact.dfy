/** When a rollback brings every row back: exactly when each write of the transaction was restorable. A
    row an undo loses stays lost, or some step before it is refused. */
module RollbackExact {
  import opened Names
  import opened PolicyRows
  import opened RecordStore
  import opened UndoRules
  import opened UndoSafety
  import opened Rollback
  import opened Interleaving

  /** The tables whose rows a rename takes along. */
  predicate GoesAlong(t: Table) {
    t in {Relations, Facts(RelationTypes), Facts(ObjectColumns), Facts(ColumnComments)}
  }

  /** A row of `n` the transaction left in the store is gone from `rows` - and no undo of an earlier step
      has it to put back: the name has no record, or one the transaction created, which the row did not
      come with. */
  ghost predicate Missing(tx: Tx, rows: Rows, r: Row, n: Name) {
    && r in tx.store.rows && r !in rows && BelongsTo(tx.store.rows, r, n)
    && (RecordOf(Image(tx.store.rows, n)) == {} || (n in tx.pending.created && !GoesAlong(TableOf(r))))
  }

  // --- what an undo puts back ----------------------------------------------------------------------

  ghost predicate FromAnImage(names: seq<(Name, Change)>, r: Row) {
    exists i :: 0 <= i < |names| && r in names[i].1.before && Changed(names[i].1, TableOf(r))
  }

  lemma {:induction false} PutBackAllPutsBack(rows: Rows, names: seq<(Name, Change)>, done: Rows, r: Row)
    requires PutBackAll(rows, names) == Rewrites(done) && r in done && r !in rows
    ensures FromAnImage(names, r)
    decreases |names|
  {
    if names != [] {
      var first := PutBack(rows, names[0].0, names[0].1);
      if r in first.rows {
        assert r in names[0].1.before && Changed(names[0].1, TableOf(r));
      } else {
        PutBackAllPutsBack(first.rows, names[1..], done, r);
        var i :| 0 <= i < |names[1..]| && r in names[1..][i].1.before && Changed(names[1..][i].1, TableOf(r));
        assert names[i + 1] == names[1..][i];
      }
    }
  }

  /** A row an undo brings is of a before-image, in a table its write changed. */
  lemma BroughtFromImages(st: Store, w: RecordWrite, own: seq<int>, takesCreated: bool, r: Row)
    requires r !in st.rows && r in UndoWrite(st, w, own, takesCreated).0.rows
    ensures FromAnImage(w.names, r)
  {
    assert w.names != [];
    var judged := UndoRows(st, w, own, takesCreated);
    if IsCreate(w) {
      assert r in w.names[0].1.before && Changed(w.names[0].1, TableOf(r));
    } else if takesCreated && |w.names| == 2 {
      var taken := TakeName(st, st.rows, w.names[1].0, w.names[1].1);
      assert r in taken.rows ==> r in w.names[1].1.before && Changed(w.names[1].1, TableOf(r));
      assert r !in taken.rows ==> r in w.names[0].1.before && Changed(w.names[0].1, TableOf(r));
    } else {
      PutBackAllPutsBack(st.rows, w.names, judged.rows, r);
    }
  }

  // --- what a write leaves of a row it found -------------------------------------------------------

  /** A row both before and after a write belongs to the same of its names. */
  lemma BelongsAlike(st: Store, op: Op, st': Store, r: Row, n: Name)
    requires AfterWrite(st, op) == Some(st') && r in st.rows && r in st'.rows
    ensures BelongsTo(st.rows, r, n) && n in OpNames(op) ==> BelongsTo(st'.rows, r, n)
    ensures BelongsTo(st'.rows, r, n) ==> BelongsTo(st.rows, r, n)
  {
    SameReferencesKept(st, op, st');
    if op.Drop? && r.RefColumn? && n == op.name && BelongsTo(st.rows, r, n) {
      assert DropTakes(st, n, r);
    }
  }

  lemma SameReferencesKept(st: Store, op: Op, st': Store)
    requires AfterWrite(st, op) == Some(st')
    ensures forall f: Row :: f.Ref? && f in st'.rows ==> f in st.rows
    ensures !op.Drop? ==> forall f: Row :: f.Ref? || f.RefColumn? ==> (f in st.rows <==> f in st'.rows)
  {
    if op.Rename? && RecordOf(Image(st.rows, op.name)) != {} {
      assert forall f :: f in MovedRows(st.rows, op) ==> !f.Ref? && !f.RefColumn?;
      assert forall f: Row :: f.Ref? || f.RefColumn? ==> !RenameMoves(op, f);
    }
  }

  /** A row a write brought is of the name it takes and came with its record - or is a drop's mark. */
  lemma BroughtByWrite(st: Store, op: Op, st': Store, r: Row)
    requires AfterWrite(st, op) == Some(st') && r in st'.rows && r !in st.rows
    ensures Named(r, TakenName(op))
    ensures op.Drop? || GoesAlong(TableOf(r))
    ensures op.Rename? ==> RecordOf(Image(st.rows, op.name)) != {}
  {
    if op.Rename? {
      assert r in MovedRows(st.rows, op);
    }
  }

  lemma ChangedReferences(st: Store, op: Op, st': Store, m: Name, t: Table)
    requires Consistent(st.rows) && AfterWrite(st, op) == Some(st') && !op.Drop? && m in OpNames(op)
    requires op.Rename? ==> op.name != op.to
    requires t == References || t == ReferenceColumns
    ensures !Changed(ChangeOf(st.rows, st'.rows, m), t)
  {
    SameReferencesKept(st, op, st');
    assert forall r: Row :: TableOf(r) == t ==> (r in Image(st.rows, m) <==> r in Image(st'.rows, m));
  }

  /** A row a registration or a rename found and left, in a table it changed for the row's name: the name
      is the one it takes, and the table one that goes along with a record. */
  lemma LeftInAChangedTable(st: Store, op: Op, st': Store, m: Name, r: Row)
    requires Consistent(st.rows) && AfterWrite(st, op) == Some(st') && !op.Drop? && m in OpNames(op)
    requires op.Rename? ==> op.name != op.to
    requires r in Image(st.rows, m) && r in st'.rows && Changed(ChangeOf(st.rows, st'.rows, m), TableOf(r))
    ensures Named(r, m) && m == TakenName(op) && GoesAlong(TableOf(r))
  {
    if r.Ref? || r.RefColumn? {
      ChangedReferences(st, op, st', m, TableOf(r));
    } else if r.Mark? {
      MarksAlike(st, st', m);
    } else if op.Register? {
      assert RegisterRewrites(op, r) ==> GoesAlong(TableOf(r));
      if !RegisterRewrites(op, r) {
        TableUntouched(st, op, st', m, TableOf(r));
      }
    } else {
      RenameLeft(st, op, st', m, r);
    }
  }

  lemma MarksAlike(st: Store, st': Store, m: Name)
    requires Mark(m) in st.rows && Mark(m) in st'.rows
    ensures !Changed(ChangeOf(st.rows, st'.rows, m), SchemaDropped)
  {
    assert OfTable(Image(st.rows, m), SchemaDropped) == {Mark(m)} == OfTable(Image(st'.rows, m), SchemaDropped);
  }

  // A table of facts a registration does not write.
  lemma TableUntouched(st: Store, op: Op, st': Store, m: Name, t: Table)
    requires op.Register? && AfterWrite(st, op) == Some(st') && m == op.name
    requires t.Facts? && t.of !in {ObjectColumns, RelationColumns, RelationTypes, Keys}
    ensures !Changed(ChangeOf(st.rows, st'.rows, m), t)
  {
    assert OfTable(Image(st.rows, m), t) == OfTable(Image(st'.rows, m), t);
  }

  lemma RenameKeepsFacts(st: Store, op: Op, st': Store, m: Name, t: FactTable)
    requires op.Rename? && AfterWrite(st, op) == Some(st')
    ensures !GoesAlong(Facts(t)) ==> !Changed(ChangeOf(st.rows, st'.rows, m), Facts(t))
  {
    assert forall x: Row :: x in MovedRows(st.rows, op) ==> GoesAlong(TableOf(x));
    assert !GoesAlong(Facts(t)) ==> OfTable(Image(st.rows, m), Facts(t)) == OfTable(Image(st'.rows, m), Facts(t));
  }

  lemma RenameLeft(st: Store, op: Op, st': Store, m: Name, r: Row)
    requires op.Rename? && op.name != op.to && AfterWrite(st, op) == Some(st') && m in OpNames(op)
    requires (r.Record? || r.Fact?) && r.name == m && r in st.rows && r in st'.rows
    requires Changed(ChangeOf(st.rows, st'.rows, m), TableOf(r))
    ensures m == op.to && GoesAlong(TableOf(r))
  {
    if r.Fact? {
      RenameKeepsFacts(st, op, st', m, r.table);
    }
    assert forall x: Row :: x in MovedRows(st.rows, op) ==> (x.Record? || x.Fact?) && x.name == op.to;
    assert m == op.name && GoesAlong(TableOf(r)) ==> RenameMoves(op, r);
  }

  // --- a missing row stays missing -----------------------------------------------------------------

  /** The names the transaction created have a record. */
  ghost predicate CreatedExist(tx: Tx) {
    forall n :: n in tx.pending.created ==> RecordOf(Image(tx.store.rows, n)) != {}
  }

  // Whether the record under `n` is a created one, after a write.
  ghost predicate CreatedNow(created: set<Name>, st: Store, op: Op, n: Name) {
    match op
    case Register(m, _, _, _, _, _) => n in created || (n == m && RecordOf(Image(st.rows, m)) == {})
    case Drop(m) => n != m && n in created
    case Rename(m, to, _) =>
      if RecordOf(Image(st.rows, m)) == {} then n in created
      else if n == to then m in created
      else n != m && n in created
  }

  lemma CreatedByOne(tx: Tx, op: Op, n: Name)
    requires Consistent(tx.store.rows) && Writes(tx.store, op) && !op.Rename?
    ensures n in Exec(tx, op).pending.created <==> CreatedNow(tx.pending.created, tx.store, op, n)
  {
    var st' := AfterWrite(tx.store, op).value;
    WriteImages(tx.store, op, st');
    if op.Register? {
      RegisterWrites(tx.store.rows, op);
    } else {
      DropWrites(tx.store, op.name);
    }
  }

  lemma CreatedByRename(tx: Tx, op: Op, n: Name)
    requires Consistent(tx.store.rows) && CreatedExist(tx) && Writes(tx.store, op) && op.Rename?
    ensures n in Exec(tx, op).pending.created <==> CreatedNow(tx.pending.created, tx.store, op, n)
  {
    var st' := AfterWrite(tx.store, op).value;
    WriteImages(tx.store, op, st');
    if RecordOf(Image(tx.store.rows, op.name)) != {} {
      RenameWrites(tx.store.rows, op);
    }
  }

  lemma CreatedStep(tx: Tx, op: Op, n: Name)
    requires Consistent(tx.store.rows) && CreatedExist(tx) && Writes(tx.store, op)
    ensures n in Exec(tx, op).pending.created <==> CreatedNow(tx.pending.created, tx.store, op, n)
  {
    if op.Rename? {
      CreatedByRename(tx, op, n);
    } else {
      CreatedByOne(tx, op, n);
    }
  }

  lemma OtherRecords(st: Store, op: Op, st': Store, n: Name)
    requires Consistent(st.rows) && AfterWrite(st, op) == Some(st') && n !in OpNames(op)
    ensures RecordOf(Image(st.rows, n)) == RecordOf(Image(st'.rows, n))
  {
    forall r: Row | r.Record? && r.name == n ensures r in st.rows <==> r in st'.rows {
      if op.Rename? && RecordOf(Image(st.rows, op.name)) != {} {
        assert forall x :: x in MovedRows(st.rows, op) ==> x.name == op.to;
      }
    }
    assert forall d :: d in RecordOf(Image(st.rows, n)) ==> d in RecordOf(Image(st'.rows, n)) by {
      forall d | d in RecordOf(Image(st.rows, n)) ensures d in RecordOf(Image(st'.rows, n)) {
        var r :| r in Image(st.rows, n) && r.Record? && r.def == d;
        assert r in Image(st'.rows, n);
      }
    }
    forall d | d in RecordOf(Image(st'.rows, n)) ensures d in RecordOf(Image(st.rows, n)) {
      var r :| r in Image(st'.rows, n) && r.Record? && r.def == d;
      assert r in Image(st.rows, n);
    }
  }

  lemma CreatedStillExist(base: Store, tx: Tx, op: Op)
    requires Rollback.Sound(base, tx) && CreatedExist(tx)
    ensures CreatedExist(Exec(tx, op))
  {
    if Writes(tx.store, op) {
      var st' := AfterWrite(tx.store, op).value;
      forall n | n in Exec(tx, op).pending.created ensures RecordOf(Image(st'.rows, n)) != {} {
        CreatedStep(tx, op, n);
        if n !in OpNames(op) {
          OtherRecords(tx.store, op, st', n);
        } else if op.Register? {
          RegisterWrites(tx.store.rows, op);
        } else if op.Rename? && RecordOf(Image(tx.store.rows, op.name)) != {} {
          RenameWrites(tx.store.rows, op);
        }
      }
    }
  }

  lemma {:induction false} RunCreatedExist(tx: Tx, ops: seq<Op>)
    requires tx.pending == NOTHING && Consistent(tx.store.rows) && SpelledOnce(tx.store)
    ensures CreatedExist(ExecAll(tx, ops))
  {
    if ops != [] {
      RunCreatedExist(tx, ops[..|ops| - 1]);
      ExecAllSound(tx, ops[..|ops| - 1]);
      CreatedStillExist(tx.store, ExecAll(tx, ops[..|ops| - 1]), ops[|ops| - 1]);
    }
  }

  /** The record under the name is one the run created, wherever it was renamed to since. */
  ghost predicate CreatedByRun(tx: Tx, ops: seq<Op>, n: Name) {
    ops != [] &&
    var before, op := ExecAll(tx, ops[..|ops| - 1]), ops[|ops| - 1];
    if !Writes(before.store, op) then CreatedByRun(tx, ops[..|ops| - 1], n) else
    match op
    case Register(m, _, _, _, _, _) =>
      CreatedByRun(tx, ops[..|ops| - 1], n) || (n == m && RecordOf(Image(before.store.rows, m)) == {})
    case Drop(m) => n != m && CreatedByRun(tx, ops[..|ops| - 1], n)
    case Rename(m, to, _) =>
      if RecordOf(Image(before.store.rows, m)) == {} then CreatedByRun(tx, ops[..|ops| - 1], n)
      else if n == to then CreatedByRun(tx, ops[..|ops| - 1], m)
      else n != m && CreatedByRun(tx, ops[..|ops| - 1], n)
  }

  /** Over every run: the names a transaction takes for its own are those whose record it created. */
  lemma {:induction false} CreatedExactly(tx: Tx, ops: seq<Op>, n: Name)
    requires tx.pending == NOTHING && Consistent(tx.store.rows) && SpelledOnce(tx.store)
    ensures n in ExecAll(tx, ops).pending.created <==> CreatedByRun(tx, ops, n)
  {
    if ops != [] {
      var before, op := ExecAll(tx, ops[..|ops| - 1]), ops[|ops| - 1];
      CreatedExactly(tx, ops[..|ops| - 1], n);
      CreatedExactly(tx, ops[..|ops| - 1], op.name);
      if Writes(before.store, op) {
        ExecAllSound(tx, ops[..|ops| - 1]);
        RunCreatedExist(tx, ops[..|ops| - 1]);
        CreatedStep(before, op, n);
      }
    }
  }

  /** An undo judged by images found every row its names had after the write. */
  lemma ImagesSeen(st: Store, op: Op, st': Store, later: Store, own: seq<int>, takesCreated: bool, r: Row, m: Name)
    requires AfterWrite(st, op) == Some(st') && !TakesWhole(st, op, takesCreated) && (takesCreated ==> op.Rename?)
    requires UndoWrite(later, WriteOf(st, op, st'), own, takesCreated).2 == Undone
    requires ChangedAnything(WriteOf(st, op, st'))
    requires m in OpNames(op) && r in st'.rows && BelongsTo(st'.rows, r, m)
    ensures r in later.rows
  {
    var w := WriteOf(st, op, st');
    WriteImages(st, op, st');
    SuccessByImages(later, w, own, takesCreated);
    var i :| 0 <= i < |w.names| && w.names[i].0 == m;
    assert r in Image(st'.rows, m);
  }

  // A write that changed nothing of its names left every row.
  lemma NothingChanged(st: Store, op: Op, st': Store)
    requires Consistent(st.rows) && AfterWrite(st, op) == Some(st') && !ChangedAnything(WriteOf(st, op, st'))
    requires op.Rename? ==> op.name != op.to
    ensures st'.rows == st.rows && !op.Drop? && (op.Rename? ==> RecordOf(Image(st.rows, op.name)) == {})
  {
    var w := WriteOf(st, op, st');
    WriteImages(st, op, st');
    assert w.names[0].1.before == w.names[0].1.after;
    match op
    case Register(n, _, _, _, _, _) =>
      RegisterWrites(st.rows, op);
      SameImageSameRows(st.rows, st'.rows, n);
    case Drop(n) =>
      DropWrites(st, n);
    case Rename(n, to, _) =>
      if RecordOf(Image(st.rows, n)) != {} {
        RenameWrites(st.rows, op);
      }
  }

  lemma TakenHasRecord(st: Store, op: Op, st': Store)
    requires Consistent(st.rows) && AfterWrite(st, op) == Some(st') && !op.Drop?
    requires op.Rename? ==> op.name != op.to && RecordOf(Image(st.rows, op.name)) != {}
    ensures RecordOf(Image(st'.rows, TakenName(op))) != {}
    ensures op.Rename? ==> RecordOf(Image(st.rows, op.to)) == {} && RecordOf(Image(st'.rows, op.name)) == {}
  {
    if op.Register? {
      RegisterWrites(st.rows, op);
    } else {
      RenameWrites(st.rows, op);
    }
  }

  // Where the row is found before the step: the write did not bring it.
  lemma MissingWasThere(tx: Tx, op: Op, rows: Rows, r: Row, n: Name, sees: bool)
    requires Consistent(tx.store.rows) && Writes(tx.store, op)
    requires Missing(Exec(tx, op), rows, r, n)
    requires sees ==> n !in OpNames(op)
    requires op.Drop? ==> sees
    ensures r in tx.store.rows && BelongsTo(tx.store.rows, r, n)
  {
    var st, st' := tx.store, AfterWrite(tx.store, op).value;
    if r !in st.rows {
      BroughtByWrite(st, op, st', r);
      TakenHasRecord(st, op, st');
    }
    BelongsAlike(st, op, st', r, n);
  }

  /** The row is not put back: no before-image of the step holds it in a table the step changed. */
  lemma MissingNotBrought(tx: Tx, op: Op, r: Row, n: Name, m: Name, rows: Rows, sees: bool)
    requires Consistent(tx.store.rows) && Writes(tx.store, op)
    requires Missing(Exec(tx, op), rows, r, n) && r in tx.store.rows && m in OpNames(op)
    requires sees ==> !BelongsTo(Exec(tx, op).store.rows, r, m)
    requires op.Drop? ==> sees
    requires op.Rename? && RecordOf(Image(tx.store.rows, op.name)) == {} ==> Exec(tx, op).store.rows == tx.store.rows
    ensures r in Image(tx.store.rows, m) ==> !Changed(ChangeOf(tx.store.rows, Exec(tx, op).store.rows, m), TableOf(r))
  {
    var st, st' := tx.store, AfterWrite(tx.store, op).value;
    BelongsAlike(st, op, st', r, m);
    if !sees && r in Image(st.rows, m) && Changed(ChangeOf(st.rows, st'.rows, m), TableOf(r)) {
      LeftInAChangedTable(st, op, st', m, r);
      TakenHasRecord(st, op, st');
    }
  }

  lemma MovedAlong(rows: Rows, op: Op)
    requires op.Rename? && op.name != op.to
    ensures forall x: Row :: x in Renamed(rows, op) && Named(x, op.name) ==> !GoesAlong(TableOf(x))
  {
    assert forall x: Row :: x in MovedRows(rows, op) ==> x.name == op.to;
    assert forall x: Row :: Named(x, op.name) && GoesAlong(TableOf(x)) ==> RenameMoves(op, x);
  }

  // The name still has no record, or one the transaction created, before the step.
  lemma MissingNameBefore(base: Store, tx: Tx, op: Op, rows: Rows, r: Row, n: Name)
    requires Rollback.Sound(base, tx) && CreatedExist(tx) && Writes(tx.store, op)
    requires Missing(Exec(tx, op), rows, r, n) && r in tx.store.rows
    requires n in OpNames(op) ==> TakesWhole(tx.store, op, TakesCreated(tx, op)) || (Exec(tx, op).store.rows == tx.store.rows && !op.Drop?)
    ensures RecordOf(Image(tx.store.rows, n)) == {} || (n in tx.pending.created && !GoesAlong(TableOf(r)))
  {
    var st, st' := tx.store, AfterWrite(tx.store, op).value;
    CreatedStep(tx, op, n);
    if n !in OpNames(op) {
      OtherRecords(st, op, st', n);
    } else if TakesWhole(st, op, TakesCreated(tx, op)) {
      TakenHasRecord(st, op, st');
      if op.Rename? && n == op.name {
        MovedAlong(st.rows, op);
        assert GoesAlong(TableOf(r)) ==> Named(r, n);
      }
    }
  }

  /** A row missing after a step is missing after the step's undo - when that is not refused. */
  lemma StaysMissing(base: Store, tx: Tx, op: Op, later: Store, own: seq<int>, r: Row, n: Name)
    requires Rollback.Sound(base, tx) && CreatedExist(tx) && Writes(tx.store, op)
    requires Missing(Exec(tx, op), later.rows, r, n)
    requires var st' := AfterWrite(tx.store, op).value;
             UndoStep(later, Step(WriteOf(tx.store, op, st'), op.Rename?, TakesCreated(tx, op)), own).2 == Undone
    ensures var st' := AfterWrite(tx.store, op).value;
            Missing(tx, UndoStep(later, Step(WriteOf(tx.store, op, st'), op.Rename?, TakesCreated(tx, op)), own).0.rows, r, n)
  {
    var st, st' := tx.store, AfterWrite(tx.store, op).value;
    var w := WriteOf(st, op, st');
    var takes := TakesCreated(tx, op);
    var done := UndoWrite(later, w, own, takes).0;
    WriteImages(st, op, st');
    if !ChangedAnything(w) {
      NothingChanged(st, op, st');
      MissingNameBefore(base, tx, op, later.rows, r, n);
    } else {
      var sees := !TakesWhole(st, op, takes);
      forall m | sees && m in OpNames(op) ensures !BelongsTo(st'.rows, r, m) {
        if BelongsTo(st'.rows, r, m) {
          ImagesSeen(st, op, st', later, own, takes, r, m);
        }
      }
      MissingWasThere(tx, op, later.rows, r, n, sees);
      forall m | m in OpNames(op) ensures r in Image(st.rows, m) ==> !Changed(ChangeOf(st.rows, st'.rows, m), TableOf(r)) {
        MissingNotBrought(tx, op, r, n, m, later.rows, sees);
      }
      if r in done.rows {
        BroughtFromImages(later, w, own, takes, r);
      }
      MissingNameBefore(base, tx, op, later.rows, r, n);
    }
  }

  /** A row missing of what a run left is missing in the end, whatever its rollback then brings back - or a
      step is refused. */
  lemma {:induction false} MissingIsLost(tx: Tx, ops: seq<Op>, later: Store, own: seq<int>, r: Row, n: Name)
    requires tx.pending == NOTHING && Consistent(tx.store.rows) && SpelledOnce(tx.store)
    requires Missing(ExecAll(tx, ops), later.rows, r, n)
    ensures var (done, _, outcomes) := UndoAll(later, ExecAll(tx, ops).pending.steps, own);
            done.rows != tx.store.rows || exists i :: 0 <= i < |outcomes| && outcomes[i] != Undone
  {
    if ops != [] {
      var before := ExecAll(tx, ops[..|ops| - 1]);
      var op := ops[|ops| - 1];
      if !Writes(before.store, op) {
        MissingIsLost(tx, ops[..|ops| - 1], later, own, r, n);
      } else {
        ExecAllSound(tx, ops[..|ops| - 1]);
        RunCreatedExist(tx, ops[..|ops| - 1]);
        ExecAddsStep(before, op);
        var steps := ExecAll(tx, ops).pending.steps;
        assert steps[..|steps| - 1] == before.pending.steps;
        var (done, own', outcome) := UndoStep(later, steps[|steps| - 1], own);
        var outcomes := UndoAll(later, steps, own).2;
        if outcome != Undone {
          assert outcomes[0] == outcome;
        } else {
          StaysMissing(tx.store, before, op, later, own, r, n);
          MissingIsLost(tx, ops[..|ops| - 1], done, own', r, n);
          var rest := UndoAll(done, before.pending.steps, own').2;
          assert outcomes == [outcome] + rest;
          assert forall i :: 0 <= i < |rest| ==> outcomes[i + 1] == rest[i];
        }
      }
    }
  }

  // --- when every row comes back -------------------------------------------------------------------

  lemma TakenRenameLoses(st: Store, op: Op, st': Store, later: Store, own: seq<int>, r: Row)
    requires Consistent(st.rows) && op.Rename? && op.name != op.to && AfterWrite(st, op) == Some(st')
    requires RecordOf(Image(st.rows, op.name)) != {} && later.rows == st'.rows && later.functions == st'.functions
    requires r in Image(st.rows, op.to) && LeftAlone(st, op.to, ChangeOf(st.rows, st'.rows, op.to), TableOf(r))
    requires UndoWrite(later, WriteOf(st, op, st'), own, true).2 == Undone
    ensures r !in UndoWrite(later, WriteOf(st, op, st'), own, true).0.rows
  {
    var w := WriteOf(st, op, st');
    var was, c := ChangeOf(st.rows, st'.rows, op.name), ChangeOf(st.rows, st'.rows, op.to);
    WriteImages(st, op, st');
    RenameWrites(st.rows, op);
    UndoCreatedRename(later, w, op.name, was, op.to, c, own);
    TakeByFunctions(st, later, st'.rows, op.to, c);
    TakeLoses(st, st.rows, st'.rows, op.to, r);
    RenameLoses(st.rows, op, r, TakeName(st, st'.rows, op.to, c).rows);
  }

  lemma CreateLoses(st: Store, op: Op, st': Store, later: Store, own: seq<int>, r: Row)
    requires Consistent(st.rows) && CreatesRecord(st, op) && AfterWrite(st, op) == Some(st')
    requires later.rows == st'.rows && later.functions == st'.functions
    requires r in Image(st.rows, op.name) && LeftAlone(st, op.name, ChangeOf(st.rows, st'.rows, op.name), TableOf(r))
    requires UndoWrite(later, WriteOf(st, op, st'), own, false).2 == Undone
    ensures r !in UndoWrite(later, WriteOf(st, op, st'), own, false).0.rows
  {
    var c := ChangeOf(st.rows, st'.rows, op.name);
    WriteImages(st, op, st');
    RegisterWrites(st.rows, op);
    UndoCreate(later, WriteOf(st, op, st'), op.name, c, own);
    TakeByFunctions(st, later, st'.rows, op.name, c);
    TakeLoses(st, st.rows, st'.rows, op.name, r);
  }

  /** The undo of a write that is not restorable loses a row the write found - of a name that had no
      record. */
  lemma UndoLoses(tx: Tx, op: Op, later: Store, own: seq<int>) returns (r: Row)
    requires Consistent(tx.store.rows) && Writes(tx.store, op)
    requires var st' := AfterWrite(tx.store, op).value;
             && later.rows == st'.rows && later.functions == st'.functions
             && !Restorable(tx.store, op, st', TakesCreated(tx, op))
             && UndoWrite(later, WriteOf(tx.store, op, st'), own, TakesCreated(tx, op)).2 == Undone
    ensures var st' := AfterWrite(tx.store, op).value;
            Missing(tx, UndoWrite(later, WriteOf(tx.store, op, st'), own, TakesCreated(tx, op)).0.rows, r, TakenName(op))
  {
    var st, st' := tx.store, AfterWrite(tx.store, op).value;
    var c := ChangeOf(st.rows, st'.rows, TakenName(op));
    var t :| LeftAlone(st, TakenName(op), c, t);
    r :| r in OfTable(c.before, t);
    if op.Rename? {
      TakenHasRecord(st, op, st');
      TakenRenameLoses(st, op, st', later, own, r);
    } else {
      CreateLoses(st, op, st', later, own, r);
    }
  }

  /** Undoing the steps newest first, nobody else writing: some row is not back, or some step is refused,
      when a write of the run was not restorable. */
  lemma {:induction false} OnlyRestorableComesBack(tx: Tx, ops: seq<Op>, later: Store, own: seq<int>)
    requires tx.pending == NOTHING && Consistent(tx.store.rows) && SpelledOnce(tx.store)
    requires Meets(tx.store, ExecAll(tx, ops).store, later, own) && !AllRestorable(tx, ops)
    ensures var (done, _, outcomes) := UndoAll(later, ExecAll(tx, ops).pending.steps, own);
            done.rows != tx.store.rows || exists i :: 0 <= i < |outcomes| && outcomes[i] != Undone
  {
    var before := ExecAll(tx, ops[..|ops| - 1]);
    var op := ops[|ops| - 1];
    if !Writes(before.store, op) {
      OnlyRestorableComesBack(tx, ops[..|ops| - 1], later, own);
    } else {
      ExecAllSound(tx, ops[..|ops| - 1]);
      ExecAddsStep(before, op);
      var steps := ExecAll(tx, ops).pending.steps;
      assert steps[..|steps| - 1] == before.pending.steps;
      var (done, own', outcome) := UndoStep(later, steps[|steps| - 1], own);
      var outcomes := UndoAll(later, steps, own).2;
      var rest := UndoAll(done, before.pending.steps, own').2;
      assert outcomes == [outcome] + rest;
      assert forall i :: 0 <= i < |rest| ==> outcomes[i + 1] == rest[i];
      if outcome != Undone {
        assert outcomes[0] == outcome;
      } else if Restorable(before.store, op, AfterWrite(before.store, op).value, TakesCreated(before, op)) {
        UndoStepRestores(tx.store, before, op, later, own);
        OnlyRestorableComesBack(tx, ops[..|ops| - 1], done, own');
      } else {
        var r := UndoLoses(before, op, later, own);
        MissingIsLost(tx, ops[..|ops| - 1], done, own', r, TakenName(op));
      }
    }
  }

  /** For every sequence of creates, replaces, drops and renames of one transaction, nobody else
      writing: the rollback undoes every step and leaves every tracked row as it was exactly when each
      write found nothing of the name it creates, or moves a created record to, in the tables it left
      alone. */
  lemma RollbackRestoresExactly(tx: Tx, ops: seq<Op>)
    requires tx.pending == NOTHING && Consistent(tx.store.rows) && SpelledOnce(tx.store)
    ensures var after := ExecAll(tx, ops);
            var (done, _, outcomes) := UndoAll(after.store, after.pending.steps, after.pending.own);
            done.rows == tx.store.rows && (forall i :: 0 <= i < |outcomes| ==> outcomes[i] == Undone)
            <==> AllRestorable(tx, ops)
  {
    ExecAllSound(tx, ops);
    if AllRestorable(tx, ops) {
      RollbackRestores(tx, ops);
    } else {
      OnlyRestorableComesBack(tx, ops, ExecAll(tx, ops).store, ExecAll(tx, ops).pending.own);
    }
  }

  // --- a renamed-away name taken in the same transaction --------------------------------------------

  // No undo brings a row of the renamed name back once its image is not what the rename left.
  lemma RenameRefused(st: Store, op: Op, st': Store, later: Store, own: seq<int>, r: Row)
    requires Consistent(st.rows) && op.Rename? && op.name != op.to && AfterWrite(st, op) == Some(st')
    requires RecordOf(Image(st.rows, op.name)) != {}
    requires r in st'.rows && BelongsTo(st'.rows, r, op.name) && r !in later.rows
    ensures UndoStep(later, Step(WriteOf(st, op, st'), true, false), own).2 != Undone
    ensures UndoStep(later, Step(WriteOf(st, op, st'), true, false), own).0 == later
  {
    var w := WriteOf(st, op, st');
    WriteImages(st, op, st');
    RenameWrites(st.rows, op);
    assert w.names[0].1.before != w.names[0].1.after;
    if UndoWrite(later, w, own, false).2 == Undone {
      ImagesSeen(st, op, st', later, own, false, r, op.name);
    }
    RefusedChangesNothing(later, w, own, false);
  }

  // The newest step's undo is not refused, and leaves nothing the step did not find.
  lemma NewestUndone(base: Store, tx: Tx, op: Op)
    requires Sound(base, tx) && Writes(tx.store, op)
    ensures var steps := Exec(tx, op).pending.steps;
            && steps != [] && steps[..|steps| - 1] == tx.pending.steps
            && var (done, _, outcome) := UndoStep(Exec(tx, op).store, steps[|steps| - 1], Exec(tx, op).pending.own);
            outcome == Undone && done.rows <= tx.store.rows
  {
    var st, st' := tx.store, AfterWrite(tx.store, op).value;
    ExecAddsStep(tx, op);
    ExecSound(base, tx, op);
    NameNotTaken(st, op, st');
    OwnCounted(Exec(tx, op).pending.own, base.version, st'.version, st'.version);
    UndoRightAfter(st, op, st', st', Exec(tx, op).pending.own, TakesCreated(tx, op));
  }

  /** A record renamed away, and another created under - or created before and renamed onto - its old
      name, which still held rows the rename had left: the newer undo loses those rows, the rename's undo
      then finds them gone and is refused, and the old name stays without a record. */
  lemma RenamedThenTaken(base: Store, tx: Tx, rename: Op, taking: Op)
    requires Sound(base, tx) && rename.Rename? && Writes(tx.store, rename)
    requires RecordOf(Image(tx.store.rows, rename.name)) != {} && rename.name !in tx.pending.created
    requires var between := Exec(tx, rename);
             && Writes(between.store, taking) && TakenName(taking) == rename.name
             && !Restorable(between.store, taking, AfterWrite(between.store, taking).value, TakesCreated(between, taking))
    ensures var after := Exec(Exec(tx, rename), taking);
            var (done, _, outcomes) := UndoAll(after.store, after.pending.steps[|tx.pending.steps|..], after.pending.own);
            && |outcomes| == 2 && outcomes[0] == Undone && outcomes[1] != Undone
            && (forall d: Row :: d in done.rows && d.Record? ==> d.name != rename.name)
            && exists r :: r in tx.store.rows && r in Exec(tx, rename).store.rows
                           && BelongsTo(tx.store.rows, r, rename.name) && r !in done.rows
  {
    var between := Exec(tx, rename);
    var after := Exec(between, taking);
    ExecAddsStep(tx, rename);
    ExecAddsStep(between, taking);
    ExecSound(base, tx, rename);
    NewestUndone(base, between, taking);
    var first := Step(WriteOf(tx.store, rename, between.store), true, false);
    var second := Step(WriteOf(between.store, taking, after.store), taking.Rename?, TakesCreated(between, taking));
    assert after.pending.steps == tx.pending.steps + [first] + [second];
    assert after.pending.steps[|tx.pending.steps|..] == [first, second];
    var (mid, own, _) := UndoStep(after.store, second, after.pending.own);
    var r := UndoLoses(between, taking, after.store, after.pending.own);
    RenameWrites(tx.store.rows, rename);
    RenameRefused(tx.store, rename, between.store, mid, own, r);
    TwoSteps(after.store, first, second, after.pending.own);
    RenameFound(tx.store, rename, between.store, r);
  }

  // What a rename left of its old name, it found.
  lemma RenameFound(st: Store, op: Op, st': Store, r: Row)
    requires op.Rename? && op.name != op.to && AfterWrite(st, op) == Some(st')
    requires r in st'.rows && BelongsTo(st'.rows, r, op.name)
    ensures r in st.rows && BelongsTo(st.rows, r, op.name)
  {
    if r !in st.rows {
      BroughtByWrite(st, op, st', r);
    }
    BelongsAlike(st, op, st', r, op.name);
  }

  /** A catalog of one granted table. */
  ghost predicate OneGrantedTable(st: Store, was: Name, record: Row, grant: Row) {
    && record.Record? && record.name == was && grant.Fact? && grant.table == ObjectCaps && grant.name == was
    && st.rows == {record, grant} && st.functionColumns == {} && st.functions == {} && st.others == {}
  }

  ghost predicate TwoNames(was: Name, now: Name) {
    was.vcat == now.vcat && |was.path| == |now.path| == 1 && !SameName(was.path[0], now.path[0])
  }

  lemma BothSpelledOnce(was: Name, now: Name)
    requires TwoNames(was, now)
    ensures OneSpelling({was.path, now.path})
    ensures Spell({was.path}, now.path, true) == Spelled(now.path)
  {
    forall a, b, k: nat | a in {was.path, now.path} && b in {was.path, now.path} && k < |a| && SamePrefix(a, b, k + 1) ensures a[k] == b[k] {
      assert SameName(a[0], b[0]);
    }
    assert !SamePrefix(was.path, now.path, 1);
    assert SpellingsOf({was.path}, now.path, 0) == {};
  }

  lemma RowsMoved(st: Store, was: Name, now: Name, record: Row, grant: Row)
    requires TwoNames(was, now) && OneGrantedTable(st, was, record, grant)
    ensures var op := Rename(was, now, None);
            && RenameMoves(op, record) && MovedRows(st.rows, op) == {Moved(op, record)} && StayingRows(st.rows, op) == {grant}
            && Renamed(st.rows, op) == {grant, Moved(op, record)}
    ensures RecordOf(Image(st.rows, was)) != {}
  {
    var op := Rename(was, now, None);
    assert record in Image(st.rows, was) && record.def in RecordOf(Image(st.rows, was));
    assert StayingRows(st.rows, op) == {grant};
  }

  lemma StartsSound(st: Store, was: Name, record: Row, grant: Row)
    requires OneGrantedTable(st, was, record, grant)
    ensures Sound(st, Tx(st, NOTHING)) && NamesIn(st, was.vcat) == {was.path}
  {
    assert grant in st.rows && was.path in NamesIn(st, was.vcat);
    forall v ensures OneSpelling(NamesIn(st, v)) {
      assert forall a :: a in NamesIn(st, v) ==> a == was.path;
    }
  }

  lemma NothingCollides(st: Store, op: Op, record: Row, grant: Row)
    requires op.Rename? && OneGrantedTable(st, op.name, record, grant) && RecordOf(Image(st.rows, op.name)) != {}
    requires RenameMoves(op, record) && MovedRows(st.rows, op) == {Moved(op, record)} && StayingRows(st.rows, op) == {grant}
    ensures AfterWrite(st, op).Some? && AfterWrite(st, op).value.rows == Renamed(st.rows, op)
    ensures AfterWrite(st, op).value.functions == {}
  {
    assert KeyOf(Moved(op, record)).table != KeyOf(grant).table;
    assert !Collides({grant}, {Moved(op, record)});
    assert MovedColumns(st, op) == {};
    assert !ColumnsCollide(st, op);
  }

  lemma Renames(st: Store, was: Name, now: Name, record: Row, grant: Row)
    requires TwoNames(was, now) && OneGrantedTable(st, was, record, grant)
    ensures var op := Rename(was, now, None);
            && Writes(st, op) && AfterWrite(st, op).value.rows == {grant, Moved(op, record)}
            && AfterWrite(st, op).value.functions == {} && NamesIn(AfterWrite(st, op).value, was.vcat) <= {was.path, now.path}
  {
    var op := Rename(was, now, None);
    BothSpelledOnce(was, now);
    StartsSound(st, was, record, grant);
    RowsMoved(st, was, now, record, grant);
    assert Admitted(st, op);
    NothingCollides(st, op, record, grant);
    NamesAfter(st, op, was.vcat);
  }

  lemma SpelledAgain(st: Store, create: Op, grant: Row, names: set<Path>)
    requires create.Register? && create.facts == {} && OneSpelling(names) && NamesIn(st, create.name.vcat) <= names
    requires grant in st.rows && grant.Fact? && grant.table == ObjectCaps && grant.name == create.name
    ensures Writes(st, create)
  {
    var n := create.name;
    assert n.path in NamesIn(st, n.vcat);
    SpelledStays(names, NamesIn(st, n.vcat), n.path, true);
  }

  lemma GrantLeftAlone(st: Store, st': Store, grant: Row)
    requires grant.Fact? && grant.table == ObjectCaps && grant in st.rows && grant in st'.rows
    requires grant.name !in st.functions
    requires forall r: Row :: r.Fact? && (r in st.rows || r in st'.rows) ==> r == grant
    ensures LeftAlone(st, grant.name, ChangeOf(st.rows, st'.rows, grant.name), Facts(ObjectCaps))
  {
    var c := ChangeOf(st.rows, st'.rows, grant.name);
    assert grant in OfTable(c.before, Facts(ObjectCaps));
    assert OfTable(c.before, Facts(ObjectCaps)) == {grant} == OfTable(c.after, Facts(ObjectCaps));
  }

  lemma CreatesAgain(st: Store, create: Op, record: Row, grant: Row)
    requires create.Register? && create.facts == {} && Writes(st, create) && st.functions == {}
    requires grant.Fact? && grant.table == ObjectCaps && grant.name == create.name
    requires record.Record? && record.name != create.name && st.rows == {grant, record}
    ensures !Restorable(st, create, AfterWrite(st, create).value, false)
  {
    RecordShown(Image(st.rows, create.name));
    var st' := AfterWrite(st, create).value;
    assert grant in st'.rows;
    GrantLeftAlone(st, st', grant);
    assert TakesWhole(st, create, false);
    assert LeftAlone(st, TakenName(create), ChangeOf(st.rows, st'.rows, TakenName(create)), Facts(ObjectCaps));
  }

  /** A granted table renamed and another created under its old name, in one transaction rolled back:
      the grant is lost and the table does not get its name back. */
  lemma RenameThenCreateLosesTheGrant(st: Store, was: Name, now: Name, record: Row, grant: Row, def: Definition)
    requires TwoNames(was, now) && OneGrantedTable(st, was, record, grant)
    ensures var after := ExecAll(Tx(st, NOTHING), [Rename(was, now, None), Register(was, def, None, "", {}, true)]);
            var (done, _, outcomes) := UndoAll(after.store, after.pending.steps, after.pending.own);
            && |outcomes| == 2 && outcomes[0] == Undone && outcomes[1] != Undone
            && grant !in done.rows && forall d: Row :: d in done.rows && d.Record? ==> d.name != was
  {
    var rename, create := Rename(was, now, None), Register(was, def, None, "", {}, true);
    StartsSound(st, was, record, grant);
    RowsMoved(st, was, now, record, grant);
    Renames(st, was, now, record, grant);
    BothSpelledOnce(was, now);
    var tx := Tx(st, NOTHING);
    var between := Exec(tx, rename);
    SpelledAgain(between.store, create, grant, {was.path, now.path});
    CreatesAgain(between.store, create, Moved(rename, record), grant);
    RenamedThenTaken(st, tx, rename, create);
    RunOfTwo(tx, rename, create);
    var after := Exec(between, create);
    assert after.pending.steps[|tx.pending.steps|..] == after.pending.steps;
    OnlyTheGrantStayed(st, rename, between.store.rows, record, grant);
  }

  lemma OnlyTheGrantStayed(st: Store, op: Op, rows: Rows, record: Row, grant: Row)
    requires op.Rename? && op.name != op.to && OneGrantedTable(st, op.name, record, grant)
    requires RenameMoves(op, record) && rows == {grant, Moved(op, record)}
    ensures forall r :: r in st.rows && r in rows ==> r == grant
  {
  }

  lemma RunOfTwo(tx: Tx, first: Op, second: Op)
    ensures ExecAll(tx, [first, second]) == Exec(Exec(tx, first), second)
  {
    assert [first, second][..1] == [first] && [first][..0] == [];
    assert ExecAll(tx, []) == tx;
    assert ExecAll(tx, [first]) == Exec(tx, first);
  }
}
