/** When a creation is taken back, read off the rows: only while its record is still the one the write
    left, whoever wrote since. */
module UndoMeaning {
  import opened Names
  import opened PolicyRows
  import opened RecordStore
  import opened UndoRules
  import opened UndoSafety
  import opened WriteMeaning

  /** In `now` the name has a record, of the form, physical name and body it has in `left`, and the columns
      and types probed from its source are exactly those of `left`. */
  ghost predicate StillTheRecord(now: Rows, left: Rows, n: Name) {
    && (exists d, origin, rest, origin', rest' :: Record(n, d, origin, rest) in now && Record(n, d, origin', rest') in left)
    && (forall key, data :: Fact(ObjectColumns, n, key, data) in now <==> Fact(ObjectColumns, n, key, data) in left)
    && (forall key, data :: Fact(RelationTypes, n, key, data) in now <==> Fact(RelationTypes, n, key, data) in left)
  }

  lemma OneRecord(rows: Rows, n: Name, d: Definition, origin: Option<string>, rest: string)
    requires Consistent(rows) && Record(n, d, origin, rest) in rows
    ensures RecordOf(Image(rows, n)) == {d}
  {
    var r := Record(n, d, origin, rest);
    assert r in Image(rows, n);
    forall s | s in Image(rows, n) && s.Record? ensures s.def == d {
      assert KeyOf(r) == KeyOf(s);
    }
  }

  lemma RecordIn(rows: Rows, n: Name) returns (d: Definition, origin: Option<string>, rest: string)
    requires RecordOf(Image(rows, n)) != {}
    ensures Record(n, d, origin, rest) in rows
  {
    d :| d in RecordOf(Image(rows, n));
    var r :| r in Image(rows, n) && r.Record? && r.def == d;
    origin, rest := r.origin, r.rest;
  }

  lemma SameFacts(now: Rows, left: Rows, n: Name, t: FactTable)
    ensures OfTable(Image(now, n), Facts(t)) == OfTable(Image(left, n), Facts(t))
            <==> forall key, data :: Fact(t, n, key, data) in now <==> Fact(t, n, key, data) in left
  {
    var a, b := OfTable(Image(now, n), Facts(t)), OfTable(Image(left, n), Facts(t));
    forall key, data ensures Fact(t, n, key, data) in a <==> Fact(t, n, key, data) in now
                     ensures Fact(t, n, key, data) in b <==> Fact(t, n, key, data) in left {
    }
    if forall key, data :: Fact(t, n, key, data) in now <==> Fact(t, n, key, data) in left {
      forall r ensures r in a <==> r in b {
        assert r in a || r in b ==> r == Fact(t, n, r.key, r.data);
      }
    }
  }

  lemma SameRecordOnRows(now: Rows, left: Rows, n: Name)
    requires Consistent(now) && Consistent(left)
    ensures SameRecord(Image(now, n), Image(left, n)) <==> StillTheRecord(now, left, n)
  {
    SameFacts(now, left, n, ObjectColumns);
    SameFacts(now, left, n, RelationTypes);
    if d, origin, rest, origin', rest' :| Record(n, d, origin, rest) in now && Record(n, d, origin', rest') in left {
      OneRecord(now, n, d, origin, rest);
      OneRecord(left, n, d, origin', rest');
    }
    if RecordOf(Image(now, n)) != {} && RecordOf(Image(now, n)) == RecordOf(Image(left, n)) {
      var d, origin, rest := RecordIn(now, n);
      var d', origin', rest' := RecordIn(left, n);
      OneRecord(now, n, d, origin, rest);
      OneRecord(left, n, d', origin', rest');
    }
  }

  lemma WriteConsistent(st: Store, op: Op, st': Store)
    requires Consistent(st.rows) && AfterWrite(st, op) == Some(st') && (op.Rename? ==> op.name != op.to)
    ensures Consistent(st'.rows)
  {
    match op
    case Register(_, _, _, _, _, _) => RegisterWrites(st.rows, op);
    case Drop(n) => DropWrites(st, n);
    case Rename(n, _, _) => if RecordOf(Image(st.rows, n)) != {} { RenameWrites(st.rows, op); }
  }

  // What a take or a put back inserts meets no key it leaves: it cleared the name's rows of those tables.
  lemma NamedDoNotCollide(kept: Rows, inserted: Rows, source: Rows, n: Name)
    requires Consistent(source) && inserted <= source
    requires forall r :: r in inserted ==> Named(r, n)
    requires forall r, s :: r in inserted && s in kept && Named(s, n) ==> TableOf(r) != TableOf(s)
    ensures !Collides(kept, inserted)
  {
    assert forall r: Row :: KeyOf(r).table == TableOf(r);
  }

  lemma TakesWithoutCollision(st: Store, rows: Rows, n: Name, c: Change, source: Rows)
    requires Consistent(source) && c.before == Image(source, n) && NoReferenceChanged(c)
    ensures TakeName(st, rows, n, c).Rewrites?
  {
    var kept := set r | r in rows && !Takes(st, rows, n, r);
    var inserted := set r | r in c.before && !Spared(st, n, TableOf(r)) && Changed(c, TableOf(r));
    NamedDoNotCollide(kept, inserted, source, n);
  }

  lemma PutsBackWithoutCollision(rows: Rows, n: Name, c: Change, source: Rows)
    requires Consistent(source) && c.before == Image(source, n) && NoReferenceChanged(c)
    ensures PutBack(rows, n, c).Rewrites?
  {
    var kept := set r | r in rows && !(BelongsTo(rows, r, n) && Changed(c, TableOf(r)));
    var inserted := set r | r in c.before && Changed(c, TableOf(r));
    NamedDoNotCollide(kept, inserted, source, n);
  }

  lemma CreateJudged(st: Store, op: Op, st': Store, later: Store, own: seq<int>)
    requires Consistent(st.rows) && CreatesRecord(st, op) && AfterWrite(st, op) == Some(st')
    requires Consistent(later.rows) && later.id == st.id
    ensures UndoWrite(later, WriteOf(st, op, st'), own, false).2
            == if StillTheRecord(later.rows, st'.rows, op.name) then Undone else ChangedSince
  {
    var w := WriteOf(st, op, st');
    var c := ChangeOf(st.rows, st'.rows, op.name);
    WriteImages(st, op, st');
    WriteConsistent(st, op, st');
    RegisterWrites(st.rows, op);
    assert w.names[0] == (op.name, c);
    assert w.names[0].1.before != w.names[0].1.after;
    SameRecordOnRows(later.rows, st'.rows, op.name);
    TakesWithoutCollision(later, later.rows, op.name, c, st.rows);
  }

  lemma RenameChangesNoReference(st: Store, op: Op, st': Store, n: Name)
    requires Consistent(st.rows) && op.Rename? && op.name != op.to && AfterWrite(st, op) == Some(st')
    requires RecordOf(Image(st.rows, op.name)) != {}
    ensures NoReferenceChanged(ChangeOf(st.rows, st'.rows, n))
  {
    RenameKeepsTable(st.rows, op, n, References);
    RenameKeepsTable(st.rows, op, n, ReferenceColumns);
  }

  lemma MovedRecordJudged(st: Store, op: Op, st': Store, later: Store, own: seq<int>)
    requires Consistent(st.rows) && op.Rename? && op.name != op.to && AfterWrite(st, op) == Some(st')
    requires RecordOf(Image(st.rows, op.name)) != {} && Consistent(later.rows) && later.id == st.id
    ensures UndoWrite(later, WriteOf(st, op, st'), own, true).2
            == if StillTheRecord(later.rows, st'.rows, op.to) then Undone else ChangedSince
  {
    var w := WriteOf(st, op, st');
    var was, c := ChangeOf(st.rows, st'.rows, op.name), ChangeOf(st.rows, st'.rows, op.to);
    WriteImages(st, op, st');
    WriteConsistent(st, op, st');
    RenameWrites(st.rows, op);
    assert w.names[0] == (op.name, was) && w.names[1] == (op.to, c);
    assert w.names[1].1.before != w.names[1].1.after;
    SameRecordOnRows(later.rows, st'.rows, op.to);
    RenameChangesNoReference(st, op, st', op.name);
    RenameChangesNoReference(st, op, st', op.to);
    TakesWithoutCollision(later, later.rows, op.to, c, st.rows);
    PutsBackWithoutCollision(TakeName(later, later.rows, op.to, c).rows, op.name, was, st.rows);
  }

  /** In any store of the write's own, whoever wrote it since: a creation - or a created record's rename -
      is undone exactly while the record under the name it took is still the one the write left, and
      otherwise refused for having been changed, the store left alone. */
  lemma CreationUndoneExactly(st: Store, op: Op, st': Store, later: Store, own: seq<int>, takesCreated: bool)
    requires Consistent(st.rows) && AfterWrite(st, op) == Some(st') && (op.Rename? ==> op.name != op.to)
    requires TakesWhole(st, op, takesCreated) && (takesCreated ==> op.Rename?)
    requires Consistent(later.rows) && later.id == st.id
    ensures var (done, own', outcome) := UndoWrite(later, WriteOf(st, op, st'), own, takesCreated);
            && outcome == (if StillTheRecord(later.rows, st'.rows, TakenName(op)) then Undone else ChangedSince)
            && (outcome != Undone ==> done == later && own' == own)
  {
    if op.Rename? {
      MovedRecordJudged(st, op, st', later, own);
    } else {
      CreateJudged(st, op, st', later, own);
    }
    RefusedChangesNothing(later, WriteOf(st, op, st'), own, takesCreated);
  }

  /** Where a created record's rename is undone: with a record somebody put under the old name since, every
      row not the new name's stays; without one, the old name's record is the one the rename found. */
  lemma OldNameAfterwards(st: Store, op: Op, st': Store, later: Store, own: seq<int>)
    requires Consistent(st.rows) && op.Rename? && op.name != op.to && AfterWrite(st, op) == Some(st')
    requires RecordOf(Image(st.rows, op.name)) != {} && Consistent(later.rows)
    requires UndoWrite(later, WriteOf(st, op, st'), own, true).2 == Undone
    ensures var done := UndoWrite(later, WriteOf(st, op, st'), own, true).0;
            if exists d, origin, rest :: Record(op.name, d, origin, rest) in later.rows
            then forall r :: r in later.rows && !BelongsTo(later.rows, r, op.to) ==> r in done.rows
            else forall d, origin, rest :: Record(op.name, d, origin, rest) in done.rows <==> Record(op.name, d, origin, rest) in st.rows
  {
    var was, c := ChangeOf(st.rows, st'.rows, op.name), ChangeOf(st.rows, st'.rows, op.to);
    var done := UndoWrite(later, WriteOf(st, op, st'), own, true).0;
    MovedRecordRows(st, op, st', later, own);
    var taken := TakeName(later, later.rows, op.to, c);
    if d, origin, rest :| Record(op.name, d, origin, rest) in later.rows {
      OneRecord(later.rows, op.name, d, origin, rest);
      assert done.rows == taken.rows;
    } else {
      RecordShown(Image(later.rows, op.name));
      RenameWrites(st.rows, op);
      RecordTableChanged(st.rows, st'.rows, op.name);
      RecordsPutBack(taken.rows, op.name, was, st.rows);
    }
  }

  lemma MovedRecordRows(st: Store, op: Op, st': Store, later: Store, own: seq<int>)
    requires Consistent(st.rows) && op.Rename? && op.name != op.to && AfterWrite(st, op) == Some(st')
    requires RecordOf(Image(st.rows, op.name)) != {}
    requires UndoWrite(later, WriteOf(st, op, st'), own, true).2 == Undone
    ensures var was, c := ChangeOf(st.rows, st'.rows, op.name), ChangeOf(st.rows, st'.rows, op.to);
            var done := UndoWrite(later, WriteOf(st, op, st'), own, true).0;
            var taken := TakeName(later, later.rows, op.to, c);
            && taken.Rewrites?
            && (RecordOf(Image(later.rows, op.name)) != {} ==> done.rows == taken.rows)
            && (RecordOf(Image(later.rows, op.name)) == {} ==> PutBack(taken.rows, op.name, was) == Rewrites(done.rows))
  {
    var w := WriteOf(st, op, st');
    WriteImages(st, op, st');
    RenameWrites(st.rows, op);
    assert w.names[0].1.before != w.names[0].1.after;
  }

  lemma RecordsPutBack(rows: Rows, n: Name, c: Change, source: Rows)
    requires c.before == Image(source, n) && Changed(c, Relations) && PutBack(rows, n, c).Rewrites?
    ensures forall d, origin, rest :: Record(n, d, origin, rest) in PutBack(rows, n, c).rows <==> Record(n, d, origin, rest) in source
  {
    forall d, origin, rest ensures Record(n, d, origin, rest) in source <==> Record(n, d, origin, rest) in c.before {
    }
  }

  lemma RecordTableChanged(rows: Rows, rows': Rows, n: Name)
    requires RecordOf(Image(rows, n)) != {} && RecordOf(Image(rows', n)) == {}
    ensures Changed(ChangeOf(rows, rows', n), Relations)
  {
    var d, origin, rest := RecordIn(rows, n);
    assert Record(n, d, origin, rest) in OfTable(Image(rows, n), Relations);
    RecordShown(Image(rows', n));
  }

  // --- everything that is not taken ----------------------------------------------------------------

  /** Every row that concerns the name is in `now` exactly if the write left it. */
  ghost predicate LeftAsWritten(now: Rows, left: Rows, n: Name) {
    forall r :: r in now && Concerns(now, r, n) <==> r in left && Concerns(left, r, n)
  }

  lemma ImageOnRows(rows: Rows, n: Name)
    ensures forall r :: r in Image(rows, n) <==> r in rows && Concerns(rows, r, n)
  {
    forall r ensures BelongsTo(rows, r, n) <==> Concerns(rows, r, n) {
      BelongsConcerns(rows, r, n);
    }
  }

  lemma SameImageOnRows(now: Rows, left: Rows, n: Name)
    ensures Image(now, n) == Image(left, n) <==> LeftAsWritten(now, left, n)
  {
    ImageOnRows(now, n);
    ImageOnRows(left, n);
    assert Image(now, n) == Image(left, n) <==> forall r :: r in Image(now, n) <==> r in Image(left, n);
  }

  lemma MatchOnRows(st: Store, op: Op, st': Store, now: Rows)
    requires AfterWrite(st, op) == Some(st')
    ensures ImagesMatch(now, WriteOf(st, op, st')) <==> forall m :: m in OpNames(op) ==> LeftAsWritten(now, st'.rows, m)
  {
    var w := WriteOf(st, op, st');
    assert forall i :: 0 <= i < |w.names| ==> w.names[i].0 == OpNames(op)[i] && w.names[i].1.after == Image(st'.rows, OpNames(op)[i]);
    forall m ensures Image(now, m) == Image(st'.rows, m) <==> LeftAsWritten(now, st'.rows, m) {
      SameImageOnRows(now, st'.rows, m);
    }
    forall i | 0 <= i < |w.names| ensures Image(now, w.names[i].0) == w.names[i].1.after <==> LeftAsWritten(now, st'.rows, OpNames(op)[i]) {
      assert OpNames(op)[i] in OpNames(op);
    }
  }

  lemma DropShows(st: Store, op: Op, st': Store)
    requires Consistent(st.rows) && AfterWrite(st, op) == Some(st') && !CreatesRecord(st, op)
    ensures !IsCreate(WriteOf(st, op, st')) && (IsDrop(WriteOf(st, op, st')) <==> op.Drop?)
  {
    WriteImages(st, op, st');
    match op
    case Register(_, _, _, _, _, _) => RegisterWrites(st.rows, op);
    case Drop(n) => DropWrites(st, n);
    case Rename(_, _, _) =>
  }

  /** In any store of the write's own, whoever wrote it since: a drop is refused for the versions written
      since exactly when not all are the transaction's own; a replace, a drop or an ordinary rename is
      refused for having been changed exactly when some row of its names is not as the write left it. */
  lemma RewriteRefusedExactly(st: Store, op: Op, st': Store, later: Store, own: seq<int>, takesCreated: bool)
    requires Consistent(st.rows) && AfterWrite(st, op) == Some(st') && (op.Rename? ==> op.name != op.to)
    requires !TakesWhole(st, op, takesCreated) && (takesCreated ==> op.Rename?)
    requires ChangedAnything(WriteOf(st, op, st')) && later.id == st.id
    ensures var outcome := UndoWrite(later, WriteOf(st, op, st'), own, takesCreated).2;
            && (outcome == WrittenSince <==> op.Drop? && later.version - st'.version != CountOwn(own, st'.version, later.version))
            && (outcome == ChangedSince <==>
                  outcome != WrittenSince && exists m :: m in OpNames(op) && !LeftAsWritten(later.rows, st'.rows, m))
            && outcome in {Undone, ChangedSince, WrittenSince, Failed}
  {
    var w := WriteOf(st, op, st');
    WriteImages(st, op, st');
    DropShows(st, op, st');
    MatchOnRows(st, op, st', later.rows);
    if takesCreated {
      NothingMoved(st, op, st');
    }
  }

  // A rename that moved no record changed nothing.
  lemma NothingMoved(st: Store, op: Op, st': Store)
    requires op.Rename? && AfterWrite(st, op) == Some(st') && RecordOf(Image(st.rows, op.name)) == {}
    ensures !ChangedAnything(WriteOf(st, op, st'))
  {
    WriteImages(st, op, st');
  }

  /** An undo is refused for the store exactly when the write was another store's. */
  lemma OtherStoreExactly(st: Store, op: Op, st': Store, later: Store, own: seq<int>, takesCreated: bool)
    requires AfterWrite(st, op) == Some(st')
    ensures UndoWrite(later, WriteOf(st, op, st'), own, takesCreated).2 == OtherStore <==> later.id != st.id
  {
  }
}
