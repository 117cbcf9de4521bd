/** What taking one record write back does to the store. */
module UndoRules {
  import opened Names
  import opened PolicyRows
  import opened RecordStore

  // --- what a write leaves alone -------------------------------------------------------------------

  /** Two stores differ in rows of `n` only. */
  ghost predicate SameElsewhere(rows: Rows, rows': Rows, n: Name) {
    forall r :: (r in rows && !BelongsTo(rows, r, n)) <==> (r in rows' && !BelongsTo(rows', r, n))
  }

  lemma InChangedTable(c: Change, r: Row)
    ensures !Changed(c, TableOf(r)) ==> (r in c.before <==> r in c.after)
  {
    assert r in OfTable(c.before, TableOf(r)) <==> r in c.before;
    assert r in OfTable(c.after, TableOf(r)) <==> r in c.after;
  }

  lemma ChangedTables(c: Change)
    ensures forall r :: !Changed(c, TableOf(r)) ==> (r in c.before <==> r in c.after)
  {
    forall r | !Changed(c, TableOf(r)) ensures r in c.before <==> r in c.after {
      InChangedTable(c, r);
    }
  }

  lemma RowsDoNotCollide(rows: Rows, kept: Rows, inserted: Rows)
    requires Consistent(rows) && kept <= rows && inserted <= rows && kept !! inserted
    ensures !Collides(kept, inserted)
  {
  }

  /** Putting a name back restores the store a write of that name found. */
  lemma PutBackRestores(rows: Rows, rows': Rows, n: Name)
    requires Consistent(rows) && SameElsewhere(rows, rows', n)
    ensures PutBack(rows', n, ChangeOf(rows, rows', n)) == Rewrites(rows)
  {
    var c := ChangeOf(rows, rows', n);
    ChangedTables(c);
    var kept := set r | r in rows' && !(BelongsTo(rows', r, n) && Changed(c, TableOf(r)));
    var inserted := set r | r in c.before && Changed(c, TableOf(r));
    forall r | r in kept ensures r in rows {
      if BelongsTo(rows', r, n) { assert r in c.after; }
    }
    forall r | r in rows ensures r in kept + inserted {
      if BelongsTo(rows, r, n) { assert r in c.before; }
    }
    assert kept + inserted == rows;
    RowsDoNotCollide(rows, kept, inserted);
  }

  /** A table of `n` the undo clears without putting anything back, though the write left rows there. */
  ghost predicate LeftAlone(st: Store, n: Name, c: Change, t: Table) {
    !Spared(st, n, t) && !Changed(c, t) && OfTable(c.before, t) != {}
  }

  /** The tables the write left alone held no rows of `n`. */
  ghost predicate HeldNothingElse(st: Store, n: Name, c: Change) {
    forall t :: !LeftAlone(st, n, c, t)
  }

  /** Taking a name whole restores the store a write of that name found exactly when the tables the
      write left alone held no rows of it. */
  lemma TakeRestores(st: Store, rows: Rows, rows': Rows, n: Name)
    requires Consistent(rows) && SameElsewhere(rows, rows', n)
    requires forall t :: Spared(st, n, t) ==> !Changed(ChangeOf(rows, rows', n), t)
    ensures TakeName(st, rows', n, ChangeOf(rows, rows', n)).Rewrites?
    ensures TakeName(st, rows', n, ChangeOf(rows, rows', n)).rows
         == set r | r in rows && !(BelongsTo(rows, r, n) && LeftAlone(st, n, ChangeOf(rows, rows', n), TableOf(r)))
    ensures TakeName(st, rows', n, ChangeOf(rows, rows', n)).rows == rows
            <==> HeldNothingElse(st, n, ChangeOf(rows, rows', n))
  {
    var c := ChangeOf(rows, rows', n);
    ChangedTables(c);
    var kept := set r | r in rows' && !Takes(st, rows', n, r);
    var inserted := set r | r in c.before && !Spared(st, n, TableOf(r)) && Changed(c, TableOf(r));
    var result := set r | r in rows && !(BelongsTo(rows, r, n) && LeftAlone(st, n, c, TableOf(r)));
    forall r | r in kept ensures r in rows && r in result {
      if BelongsTo(rows', r, n) { assert r in c.after; }
    }
    forall r | r in result ensures r in kept + inserted {
      if BelongsTo(rows, r, n) {
        assert r in c.before;
        assert r in OfTable(c.before, TableOf(r));
      }
    }
    assert kept + inserted == result;
    RowsDoNotCollide(rows, kept, inserted);
    if t :| LeftAlone(st, n, c, t) {
      var r :| r in OfTable(c.before, t);
      assert r in rows && r !in result;
    }
  }

  // --- the state a write leaves --------------------------------------------------------------------

  predicate Named(r: Row, n: Name) {
    (r.Record? || r.Fact? || r.Mark?) && r.name == n
  }

  /** The rows of `rows'` with `n`'s own (its references apart) as they are in `rows`. */
  function WithNamed(rows': Rows, rows: Rows, n: Name): Rows {
    (set r | r in rows' && !Named(r, n)) + (set r | r in rows && Named(r, n))
  }

  lemma RegisterWrites(rows: Rows, op: Op)
    requires Consistent(rows) && op.Register? && ProbedFor(op.facts, op.name)
    ensures Consistent(Registered(rows, op)) && SameElsewhere(rows, Registered(rows, op), op.name)
    ensures RecordOf(Image(Registered(rows, op), op.name)) == {op.def}
    ensures forall t :: IsGrants(t) || t == References || t == ReferenceColumns ==> !Changed(ChangeOf(rows, Registered(rows, op), op.name), t)
  {
    var rows' := Registered(rows, op);
    var record := Record(op.name, op.def, op.origin, op.rest);
    assert forall r: Row :: r.Ref? || r.RefColumn? ==> (r in rows <==> r in rows');
    assert forall r, n :: BelongsTo(rows, r, n) <==> BelongsTo(rows', r, n);
    assert record in Image(rows', op.name);
    forall t | IsGrants(t) || t == References || t == ReferenceColumns
      ensures OfTable(Image(rows, op.name), t) == OfTable(Image(rows', op.name), t) {
    }
  }

  lemma DropWrites(st: Store, n: Name)
    requires Consistent(st.rows) && RecordOf(Image(st.rows, n)) != {}
    ensures Consistent(Dropped(st, n)) && SameElsewhere(st.rows, Dropped(st, n), n)
    ensures RecordOf(Image(Dropped(st, n), n)) == {}
  {
    var rows, rows' := st.rows, Dropped(st, n);
    assert forall r :: !BelongsTo(rows, r, n) ==> (r in rows <==> r in rows');
    assert forall r: Row :: r in rows' && !r.Mark? ==> r in rows;
    forall r | r in rows' ensures BelongsTo(rows, r, n) <==> BelongsTo(rows', r, n) {
    }
    forall c | c in rows' && c.RefColumn? ensures HasReference(rows', c) {
      var f :| f in rows && f.Ref? && f.vcat == c.vcat && f.id == c.id;
      assert !BelongsTo(rows, c, n);
      assert !EndsAt(f, n);
      assert f in rows';
    }
  }

  lemma RenameKeepsKeys(rows: Rows, op: Op)
    requires Consistent(rows) && op.Rename? && !Collides(StayingRows(rows, op), MovedRows(rows, op))
    ensures forall r, s :: r in Renamed(rows, op) && s in Renamed(rows, op) && KeyOf(r) == KeyOf(s) ==> r == s
  {
    var moved := MovedRows(rows, op);
    forall r, s | r in Renamed(rows, op) && s in Renamed(rows, op) && KeyOf(r) == KeyOf(s) ensures r == s {
      if r in moved && s in moved {
        var r0 :| r0 in rows && RenameMoves(op, r0) && Moved(op, r0) == r;
        var s0 :| s0 in rows && RenameMoves(op, s0) && Moved(op, s0) == s;
        assert KeyOf(r0) == KeyOf(s0);
      }
    }
  }

  /** A rename that moved a record writes rows of its two names only, and no reference. */
  lemma RenameWrites(rows: Rows, op: Op)
    requires Consistent(rows) && op.Rename? && op.name != op.to
    requires RecordOf(Image(rows, op.name)) != {}
    requires !Collides(StayingRows(rows, op), MovedRows(rows, op))
    ensures Consistent(Renamed(rows, op))
    ensures forall r: Row :: !Named(r, op.name) && !Named(r, op.to) ==> (r in rows <==> r in Renamed(rows, op))
    ensures forall r: Row :: r in Renamed(rows, op) && r.Record? ==> r.name != op.name
    ensures RecordOf(Image(Renamed(rows, op), op.name)) == {}
    ensures RecordOf(Image(Renamed(rows, op), op.to)) != {}
    ensures RecordOf(Image(rows, op.to)) == {}
  {
    var rows' := Renamed(rows, op);
    var kept, moved := StayingRows(rows, op), MovedRows(rows, op);
    RenameKeepsKeys(rows, op);
    assert forall r: Row :: r.Ref? || r.RefColumn? ==> (r in rows <==> r in rows');
    var there := RecordMoves(rows, op);
    assert there in Image(rows', op.to) && there.def in RecordOf(Image(rows', op.to));
    assert forall o: Row :: o in rows && o.Record? && o.name == op.to ==> o in kept && KeyOf(o) == KeyOf(there);
  }

  lemma RecordMoves(rows: Rows, op: Op) returns (there: Row)
    requires op.Rename? && RecordOf(Image(rows, op.name)) != {}
    ensures there in MovedRows(rows, op) && there.Record? && there.name == op.to
  {
    var d :| d in RecordOf(Image(rows, op.name));
    var record :| record in Image(rows, op.name) && record.Record? && record.def == d;
    there := Moved(op, record);
  }

  lemma SameReferences(rows: Rows, rows': Rows)
    requires forall r: Row :: r.Ref? || r.RefColumn? ==> (r in rows <==> r in rows')
    ensures forall r, m :: BelongsTo(rows, r, m) == BelongsTo(rows', r, m)
  {
    forall r, m ensures BelongsTo(rows, r, m) == BelongsTo(rows', r, m) {
      if r.RefColumn? {
        assert forall f: Row :: f.Ref? ==> (f in rows <==> f in rows');
      }
    }
  }

  /** Between the two halves of a rename's undo: one name's rows as they were, the other's as they are.
      The rename's change to each name is the change to or from this state. */
  lemma RenameMiddle(rows: Rows, rows': Rows, n: Name, other: Name)
    requires Consistent(rows) && Consistent(rows') && n != other
    requires forall r: Row :: !Named(r, n) && !Named(r, other) ==> (r in rows <==> r in rows')
    ensures var mid := WithNamed(rows', rows, n);
            && Consistent(mid)
            && SameElsewhere(mid, rows', n) && ChangeOf(mid, rows', n) == ChangeOf(rows, rows', n)
            && SameElsewhere(rows, mid, other) && ChangeOf(rows, mid, other) == ChangeOf(rows, rows', other)
  {
    var mid := WithNamed(rows', rows, n);
    SameReferences(rows, mid);
    SameReferences(rows, rows');
    assert Image(mid, n) == Image(rows, n);
    assert Image(mid, other) == Image(rows', other);
  }

  lemma RenamePutBack(rows: Rows, op: Op)
    requires Consistent(rows) && op.Rename? && op.name != op.to
    requires RecordOf(Image(rows, op.name)) != {}
    requires !Collides(StayingRows(rows, op), MovedRows(rows, op))
    ensures var rows' := Renamed(rows, op);
            PutBackAll(rows', [(op.name, ChangeOf(rows, rows', op.name)), (op.to, ChangeOf(rows, rows', op.to))]) == Rewrites(rows)
  {
    var rows' := Renamed(rows, op);
    RenameWrites(rows, op);
    RenameMiddle(rows, rows', op.name, op.to);
    var mid := WithNamed(rows', rows, op.name);
    PutBackRestores(mid, rows', op.name);
    PutBackRestores(rows, mid, op.to);
    PutBackTwo(rows', mid, rows, op.name, ChangeOf(rows, rows', op.name), op.to, ChangeOf(rows, rows', op.to));
  }

  lemma PutBackTwo(rows: Rows, mid: Rows, done: Rows, n: Name, c: Change, m: Name, d: Change)
    requires PutBack(rows, n, c) == Rewrites(mid) && PutBack(mid, m, d) == Rewrites(done)
    ensures PutBackAll(rows, [(n, c), (m, d)]) == Rewrites(done)
  {
    var names := [(n, c), (m, d)];
    assert names[1..] == [(m, d)];
    assert names[1..][1..] == [];
    assert PutBackAll(mid, names[1..]) == PutBackAll(done, []);
  }

  lemma PutBackFewer(rows: Rows, some: Rows, n: Name, c: Change)
    requires some <= rows && PutBack(rows, n, c).Rewrites?
    requires !Changed(c, References) && !Changed(c, ReferenceColumns)
    ensures PutBack(some, n, c).Rewrites? && PutBack(some, n, c).rows <= PutBack(rows, n, c).rows
  {
    var kept := set r | r in rows && !(BelongsTo(rows, r, n) && Changed(c, TableOf(r)));
    var fewer := set r | r in some && !(BelongsTo(some, r, n) && Changed(c, TableOf(r)));
    assert fewer <= kept;
  }

  /** A renamed created record is taken where it is and goes back to its old name: the store is as the
      rename found it exactly when the new name held nothing in the tables the rename left alone. */
  lemma RenameTaken(st: Store, op: Op)
    requires Consistent(st.rows) && op.Rename? && op.name != op.to
    requires RecordOf(Image(st.rows, op.name)) != {}
    requires !Collides(StayingRows(st.rows, op), MovedRows(st.rows, op))
    ensures var rows' := Renamed(st.rows, op);
            var c := ChangeOf(st.rows, rows', op.to);
            var taken := TakeName(st, rows', op.to, c);
            && taken.Rewrites?
            && var back := PutBack(taken.rows, op.name, ChangeOf(st.rows, rows', op.name));
            && back.Rewrites? && back.rows <= st.rows
            && (back.rows == st.rows <==> HeldNothingElse(st, op.to, c))
  {
    var rows := st.rows;
    var rows' := Renamed(rows, op);
    RenameWrites(rows, op);
    RenameMiddle(rows, rows', op.to, op.name);
    var mid := WithNamed(rows', rows, op.to);
    var c := ChangeOf(rows, rows', op.to);
    forall t | Spared(st, op.to, t) ensures !Changed(c, t) {
      RenameKeepsTable(rows, op, op.to, t);
    }
    TakeRestores(st, mid, rows', op.to);
    PutBackRestores(rows, mid, op.name);
    RenameKeepsTable(rows, op, op.name, References);
    RenameKeepsTable(rows, op, op.name, ReferenceColumns);
    PutBackFewer(mid, TakeName(st, rows', op.to, c).rows, op.name, ChangeOf(rows, rows', op.name));
    if t :| LeftAlone(st, op.to, c, t) {
      var r :| r in OfTable(c.before, t);
      TakeLoses(st, rows, rows', op.to, r);
      RenameLoses(rows, op, r, TakeName(st, rows', op.to, c).rows);
    }
  }

  lemma RenameKeepsTable(rows: Rows, op: Op, n: Name, t: Table)
    requires Consistent(rows) && op.Rename? && op.name != op.to
    requires RecordOf(Image(rows, op.name)) != {}
    requires !Collides(StayingRows(rows, op), MovedRows(rows, op))
    requires IsGrants(t) || t == References || t == ReferenceColumns
    ensures !Changed(ChangeOf(rows, Renamed(rows, op), n), t)
  {
    var rows' := Renamed(rows, op);
    RenameWrites(rows, op);
    SameReferences(rows, rows');
    assert forall r :: r in MovedRows(rows, op) ==> !IsGrants(TableOf(r));
    assert OfTable(Image(rows, n), t) == OfTable(Image(rows', n), t);
  }

  /** A row in a table the write left alone is taken with the name and not put back. */
  lemma TakeLoses(st: Store, rows: Rows, rows': Rows, n: Name, r: Row)
    requires r in Image(rows, n) && LeftAlone(st, n, ChangeOf(rows, rows', n), TableOf(r))
    ensures var taken := TakeName(st, rows', n, ChangeOf(rows, rows', n)); taken.Rewrites? ==> r !in taken.rows
  {
    InChangedTable(ChangeOf(rows, rows', n), r);
  }

  // A row of the new name that was taken is not in the old name's image either.
  lemma RenameLoses(rows: Rows, op: Op, r: Row, taken: Rows)
    requires Consistent(rows) && op.Rename? && op.name != op.to
    requires RecordOf(Image(rows, op.name)) != {}
    requires !Collides(StayingRows(rows, op), MovedRows(rows, op))
    requires r in Image(rows, op.to) && r !in taken
    ensures var back := PutBack(taken, op.name, ChangeOf(rows, Renamed(rows, op), op.name)); back.Rewrites? ==> r !in back.rows
  {
    if r.Ref? || r.RefColumn? {
      RenameKeepsTable(rows, op, op.name, TableOf(r));
    }
  }

  // --- a step undone where its write left the store ------------------------------------------------

  ghost predicate CreatesRecord(st: Store, op: Op) {
    op.Register? && RecordOf(Image(st.rows, op.name)) == {}
  }

  /** The name whose rows the undo of a write takes whole, if it takes one. */
  ghost predicate TakesWhole(st: Store, op: Op, takesCreated: bool) {
    CreatesRecord(st, op) || (takesCreated && op.Rename? && RecordOf(Image(st.rows, op.name)) != {})
  }

  function TakenName(op: Op): Name {
    if op.Rename? then op.to else op.name
  }

  /** The one thing an undo does not bring back: rows the taken name held in the tables its write left
      alone. */
  ghost predicate Restorable(st: Store, op: Op, st': Store, takesCreated: bool) {
    TakesWhole(st, op, takesCreated) ==>
      HeldNothingElse(st, TakenName(op), ChangeOf(st.rows, st'.rows, TakenName(op)))
  }

  /** The store a step's undo meets when every later step is undone and nobody else wrote. */
  ghost predicate MetBy(st: Store, st': Store, later: Store, own: seq<int>) {
    && later.id == st.id && later.rows == st'.rows && later.functions == st.functions
    && later.version - st'.version == CountOwn(own, st'.version, later.version)
  }

  lemma WriteImages(st: Store, op: Op, st': Store)
    ensures var w := WriteOf(st, op, st');
            && w.names == (if op.Rename? then [(op.name, ChangeOf(st.rows, st'.rows, op.name)), (op.to, ChangeOf(st.rows, st'.rows, op.to))]
                           else [(op.name, ChangeOf(st.rows, st'.rows, op.name))])
            && ImagesMatch(st'.rows, w)
  {
  }

  lemma OnePutBack(rows: Rows, n: Name, c: Change, done: Rows)
    requires PutBack(rows, n, c) == Rewrites(done)
    ensures PutBackAll(rows, [(n, c)]) == Rewrites(done)
  {
    assert [(n, c)][1..] == [];
    assert PutBackAll(done, [(n, c)][1..]) == Rewrites(done);
  }

  lemma SameImageSameRows(rows: Rows, rows': Rows, n: Name)
    requires SameElsewhere(rows, rows', n) && Image(rows, n) == Image(rows', n)
    ensures rows == rows'
  {
    forall r ensures r in rows <==> r in rows' {
      assert r in Image(rows, n) <==> r in Image(rows', n);
    }
  }

  // What a take clears depends on the store through the names of its functions alone.
  lemma TakeByFunctions(st: Store, later: Store, rows: Rows, n: Name, c: Change)
    requires st.functions == later.functions
    ensures TakeName(st, rows, n, c) == TakeName(later, rows, n, c)
  {
    assert forall t :: Spared(st, n, t) == Spared(later, n, t);
  }

  lemma ImageShowsItself(rows: Rows, n: Name, c: Change)
    requires Image(rows, n) == c.after && RecordOf(c.after) != {}
    ensures SameRecord(Image(rows, n), c.after)
  {
  }

  lemma UndoCreate(st: Store, w: RecordWrite, n: Name, c: Change, own: seq<int>)
    requires st.id == w.store && w.names == [(n, c)] && Image(st.rows, n) == c.after
    requires RecordOf(c.before) == {} && RecordOf(c.after) != {}
    ensures ChangedAnything(w) && UndoRows(st, w, own, false) == TakeName(st, st.rows, n, c)
  {
    assert w.names[0] == (n, c);
    ImageShowsItself(st.rows, n, c);
  }

  lemma UndoCreatedRename(st: Store, w: RecordWrite, from: Name, was: Change, n: Name, c: Change, own: seq<int>)
    requires st.id == w.store && w.names == [(from, was), (n, c)] && Image(st.rows, n) == c.after
    requires RecordOf(c.before) == {} && RecordOf(c.after) != {} && RecordOf(Image(st.rows, from)) == {}
    ensures ChangedAnything(w)
    ensures UndoRows(st, w, own, true)
         == var taken := TakeName(st, st.rows, n, c); if taken.Refused? then taken else PutBack(taken.rows, from, was)
  {
    assert w.names[1] == (n, c);
    ImageShowsItself(st.rows, n, c);
  }

  lemma UndoByImages(st: Store, w: RecordWrite, own: seq<int>)
    requires w.names != [] && ImagesMatch(st.rows, w) && !IsCreate(w)
    requires IsDrop(w) ==> st.version - w.version == CountOwn(own, w.version, st.version)
    ensures UndoRows(st, w, own, false) == PutBackAll(st.rows, w.names)
  {
  }

  lemma UndoRegister(st: Store, op: Op, st': Store, later: Store, own: seq<int>)
    requires Consistent(st.rows) && op.Register? && AfterWrite(st, op) == Some(st') && MetBy(st, st', later, own)
    ensures var (done, _, outcome) := UndoWrite(later, WriteOf(st, op, st'), own, false);
            outcome == Undone && done.rows <= st.rows && (done.rows == st.rows <==> Restorable(st, op, st', false))
  {
    var w := WriteOf(st, op, st');
    var c := ChangeOf(st.rows, st'.rows, op.name);
    WriteImages(st, op, st');
    RegisterWrites(st.rows, op);
    if CreatesRecord(st, op) {
      UndoCreate(later, w, op.name, c, own);
      TakeByFunctions(later, st, st'.rows, op.name, c);
      TakeRestores(st, st.rows, st'.rows, op.name);
    } else {
      UndoUnlessNothing(st, op, st', later, own);
    }
  }

  // A replaced record - and a write that changed nothing is not written again.
  lemma UndoUnlessNothing(st: Store, op: Op, st': Store, later: Store, own: seq<int>)
    requires Consistent(st.rows) && op.Register? && AfterWrite(st, op) == Some(st') && MetBy(st, st', later, own)
    requires !CreatesRecord(st, op)
    ensures var (done, _, outcome) := UndoWrite(later, WriteOf(st, op, st'), own, false);
            outcome == Undone && done.rows == st.rows
  {
    var w := WriteOf(st, op, st');
    var c := ChangeOf(st.rows, st'.rows, op.name);
    WriteImages(st, op, st');
    RegisterWrites(st.rows, op);
    if !ChangedAnything(w) {
      assert w.names[0].1 == c;
      SameImageSameRows(st.rows, st'.rows, op.name);
    } else {
      UndoByImages(later, w, own);
      PutBackRestores(st.rows, st'.rows, op.name);
      OnePutBack(st'.rows, op.name, c, st.rows);
    }
  }

  lemma UndoDrop(st: Store, op: Op, st': Store, later: Store, own: seq<int>)
    requires Consistent(st.rows) && op.Drop? && AfterWrite(st, op) == Some(st') && MetBy(st, st', later, own)
    ensures var (done, _, outcome) := UndoWrite(later, WriteOf(st, op, st'), own, false);
            outcome == Undone && done.rows == st.rows
  {
    var c := ChangeOf(st.rows, st'.rows, op.name);
    WriteImages(st, op, st');
    DropWrites(st, op.name);
    PutBackRestores(st.rows, st'.rows, op.name);
    OnePutBack(st'.rows, op.name, c, st.rows);
  }

  lemma UndoPlainRename(st: Store, op: Op, st': Store, later: Store, own: seq<int>)
    requires Consistent(st.rows) && op.Rename? && op.name != op.to && AfterWrite(st, op) == Some(st')
    requires MetBy(st, st', later, own) && RecordOf(Image(st.rows, op.name)) != {}
    ensures var (done, _, outcome) := UndoWrite(later, WriteOf(st, op, st'), own, false);
            outcome == Undone && done.rows == st.rows
  {
    var w := WriteOf(st, op, st');
    WriteImages(st, op, st');
    RenameWrites(st.rows, op);
    RenamePutBack(st.rows, op);
    UndoByImages(later, w, own);
    assert w.names[0].1.before != w.names[0].1.after;
  }

  lemma UndoTakenRename(st: Store, op: Op, st': Store, later: Store, own: seq<int>)
    requires Consistent(st.rows) && op.Rename? && op.name != op.to && AfterWrite(st, op) == Some(st')
    requires MetBy(st, st', later, own) && RecordOf(Image(st.rows, op.name)) != {}
    ensures var (done, _, outcome) := UndoWrite(later, WriteOf(st, op, st'), own, true);
            && outcome == Undone && done.rows <= st.rows
            && (done.rows == st.rows <==> HeldNothingElse(st, op.to, ChangeOf(st.rows, st'.rows, op.to)))
  {
    var w := WriteOf(st, op, st');
    var was, c := ChangeOf(st.rows, st'.rows, op.name), ChangeOf(st.rows, st'.rows, op.to);
    WriteImages(st, op, st');
    RenameWrites(st.rows, op);
    RenameTaken(st, op);
    UndoCreatedRename(later, w, op.name, was, op.to, c, own);
    TakeByFunctions(st, later, st'.rows, op.to, c);
  }

  lemma UndoRename(st: Store, op: Op, st': Store, later: Store, own: seq<int>, takesCreated: bool)
    requires Consistent(st.rows) && op.Rename? && op.name != op.to && AfterWrite(st, op) == Some(st')
    requires MetBy(st, st', later, own)
    ensures var (done, _, outcome) := UndoWrite(later, WriteOf(st, op, st'), own, takesCreated);
            && outcome == Undone && done.rows <= st.rows
            && (done.rows == st.rows <==> Restorable(st, op, st', takesCreated))
  {
    if RecordOf(Image(st.rows, op.name)) == {} {
      assert !ChangedAnything(WriteOf(st, op, st'));
    } else if takesCreated {
      UndoTakenRename(st, op, st', later, own);
    } else {
      UndoPlainRename(st, op, st', later, own);
    }
  }

  /** Undoing a write where it left the store - nobody else having written since - is never refused and
      brings nothing new; it restores every row exactly when the write is restorable. */
  lemma UndoRightAfter(st: Store, op: Op, st': Store, later: Store, own: seq<int>, takesCreated: bool)
    requires Consistent(st.rows) && AfterWrite(st, op) == Some(st')
    requires op.Rename? ==> op.name != op.to
    requires takesCreated ==> op.Rename?
    requires MetBy(st, st', later, own)
    ensures var (done, _, outcome) := UndoWrite(later, WriteOf(st, op, st'), own, takesCreated);
            && outcome == Undone && done.rows <= st.rows
            && (done.rows == st.rows <==> Restorable(st, op, st', takesCreated))
  {
    match op
    case Register(_, _, _, _, _, _) => UndoRegister(st, op, st', later, own);
    case Drop(_) => UndoDrop(st, op, st', later, own);
    case Rename(_, _, _) => UndoRename(st, op, st', later, own, takesCreated);
  }
}
