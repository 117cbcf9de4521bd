/** What an undo does in any store it may meet - whoever wrote it since - and the counting argument
    that guards a dropped record's return. */
module UndoSafety {
  import opened Names
  import opened PolicyRows
  import opened RecordStore
  import opened UndoRules
  import opened Sequences

  /** An image of a consistent store: a reference's columns come with the reference. */
  ghost predicate IsImage(image: Rows, n: Name) {
    forall r :: r in image ==> BelongsTo(image, r, n)
  }

  lemma ImageIsImage(rows: Rows, n: Name)
    ensures IsImage(Image(rows, n), n)
  {
    forall r | r in Image(rows, n) ensures BelongsTo(Image(rows, n), r, n) {
      if r.RefColumn? {
        var f :| f in rows && f.Ref? && f.vcat == r.vcat && f.id == r.id && EndsAt(f, n);
        assert f in Image(rows, n);
      }
    }
  }

  // A reference's columns found through a reference that came back were found before too.
  lemma ColumnsOf(kept: Rows, inserted: Rows, rows: Rows, n: Name, r: Row)
    requires Consistent(rows) && kept <= rows && !Collides(kept, inserted)
    requires forall s :: s in rows && s !in kept ==> BelongsTo(rows, s, n)
    requires r in kept && BelongsTo(kept + inserted, r, n)
    ensures BelongsTo(rows, r, n)
  {
    if r.RefColumn? {
      var f :| f in kept + inserted && f.Ref? && f.vcat == r.vcat && f.id == r.id && EndsAt(f, n);
      assert HasReference(rows, r);
      var g :| g in rows && g.Ref? && g.vcat == r.vcat && g.id == r.id;
      assert KeyOf(f) == KeyOf(g);
    }
  }

  /** A name put back while its rows are the after-image ends with its before-image; no other row moves. */
  lemma PutBackImage(rows: Rows, n: Name, c: Change, done: Rows)
    requires Consistent(rows) && Image(rows, n) == c.after && IsImage(c.before, n)
    requires PutBack(rows, n, c) == Rewrites(done)
    ensures Image(done, n) == c.before && SameElsewhere(rows, done, n)
  {
    ChangedTables(c);
    var kept := set r | r in rows && !(BelongsTo(rows, r, n) && Changed(c, TableOf(r)));
    var inserted := set r | r in c.before && Changed(c, TableOf(r));
    assert done == kept + inserted && !Collides(kept, inserted);
    forall r | r in c.before ensures r in done && BelongsTo(done, r, n) {
      assert r in c.after ==> r in rows;
      if r.RefColumn? {
        var f :| f in c.before && f.Ref? && f.vcat == r.vcat && f.id == r.id && EndsAt(f, n);
        assert f in c.after ==> f in rows;
        assert f in done;
      }
    }
    forall r | r in done && BelongsTo(done, r, n) ensures r in c.before {
      if r in kept {
        ColumnsOf(kept, inserted, rows, n, r);
        assert r in c.after;
      }
    }
    forall r | r in rows && !BelongsTo(rows, r, n) ensures !BelongsTo(done, r, n) {
      if BelongsTo(done, r, n) {
        ColumnsOf(kept, inserted, rows, n, r);
      }
    }
    forall r | r in done && !BelongsTo(done, r, n) ensures r in rows && !BelongsTo(rows, r, n) {
      assert r !in c.before;
      assert r in kept;
      assert r in c.after <==> BelongsTo(rows, r, n);
    }
  }

  lemma PutBackConsistent(rows: Rows, n: Name, c: Change, done: Rows)
    requires Consistent(rows) && Image(rows, n) == c.after && IsImage(c.before, n)
    requires PutBack(rows, n, c) == Rewrites(done)
    ensures Consistent(done)
  {
    ChangedTables(c);
    PutBackImage(rows, n, c, done);
    forall r | r in done && r.RefColumn? ensures HasReference(done, r) {
      if r in c.before {
        var f :| f in c.before && f.Ref? && f.vcat == r.vcat && f.id == r.id && EndsAt(f, n);
        assert f in done;
      } else {
        assert r in rows && HasReference(rows, r);
        var g :| g in rows && g.Ref? && g.vcat == r.vcat && g.id == r.id;
        assert !BelongsTo(rows, r, n);
        assert !BelongsTo(rows, g, n);
      }
    }
  }

  lemma OtherImage(rows: Rows, done: Rows, n: Name, m: Name)
    requires n != m && SameElsewhere(rows, done, n)
    requires forall r: Row :: r.Ref? || r.RefColumn? ==> (r in rows <==> r in done)
    ensures Image(rows, m) == Image(done, m)
  {
    SameReferences(rows, done);
    forall r ensures r in Image(rows, m) <==> r in Image(done, m) {
    }
  }

  // Nothing of the references' two tables changed.
  predicate NoReferenceChanged(c: Change) {
    !Changed(c, References) && !Changed(c, ReferenceColumns)
  }

  lemma PutBackKeepsReferences(rows: Rows, n: Name, c: Change, done: Rows)
    requires PutBack(rows, n, c) == Rewrites(done) && NoReferenceChanged(c)
    ensures forall r: Row :: r.Ref? || r.RefColumn? ==> (r in rows <==> r in done)
  {
  }

  lemma LastPutBack(rows: Rows, n: Name, c: Change)
    ensures PutBackAll(rows, [(n, c)]) == PutBack(rows, n, c)
  {
    if PutBack(rows, n, c).Rewrites? {
      OnePutBack(rows, n, c, PutBack(rows, n, c).rows);
    }
  }

  /** Both names of a rename put back, the second over the first. */
  lemma PutBackBoth(rows: Rows, n: Name, c: Change, m: Name, d: Change, done: Rows)
    requires Consistent(rows) && n != m && NoReferenceChanged(c) && NoReferenceChanged(d)
    requires Image(rows, n) == c.after && IsImage(c.before, n) && Image(rows, m) == d.after && IsImage(d.before, m)
    requires PutBackAll(rows, [(n, c), (m, d)]) == Rewrites(done)
    ensures Image(done, n) == c.before && Image(done, m) == d.before
    ensures forall r: Row :: !Named(r, n) && !Named(r, m) ==> (r in rows <==> r in done)
  {
    var names := [(n, c), (m, d)];
    assert names[1..] == [(m, d)] && names[1..][1..] == [];
    var mid := PutBack(rows, n, c).rows;
    assert PutBackAll(mid, [(m, d)]) == Rewrites(done);
    LastPutBack(mid, m, d);
    PutBackImage(rows, n, c, mid);
    PutBackConsistent(rows, n, c, mid);
    PutBackKeepsReferences(rows, n, c, mid);
    OtherImage(rows, mid, n, m);
    PutBackImage(mid, m, d, done);
    PutBackKeepsReferences(mid, m, d, done);
    OtherImage(mid, done, m, n);
  }

  /** The name the undo put back, and nothing else of the store moved. */
  ghost predicate PutBackOnly(rows: Rows, done: Rows, names: seq<(Name, Change)>) {
    && (forall i :: 0 <= i < |names| ==> Image(done, names[i].0) == names[i].1.before)
    && (forall r :: (forall i :: 0 <= i < |names| ==> !BelongsTo(rows, r, names[i].0)) ==> r in rows ==> r in done)
    && (forall r :: (forall i :: 0 <= i < |names| ==> !BelongsTo(done, r, names[i].0)) ==> r in done ==> r in rows)
  }

  /** In any store: an undo that is refused changes neither the rows nor the version. */
  lemma RefusedChangesNothing(st: Store, w: RecordWrite, own: seq<int>, takesCreated: bool)
    ensures var (done, own', outcome) := UndoWrite(st, w, own, takesCreated);
            && (outcome != Undone ==> done == st && own' == own)
            && (outcome == Undone && ChangedAnything(w) ==> done.version == st.version + 1 && own' == own + [done.version])
            && done.(version := st.version, rows := st.rows) == st
  {
  }

  lemma SuccessByImages(st: Store, w: RecordWrite, own: seq<int>, takesCreated: bool)
    requires w.names != [] && !IsCreate(w) && !(takesCreated && |w.names| == 2) && ChangedAnything(w)
    requires UndoWrite(st, w, own, takesCreated).2 == Undone
    ensures ImagesMatch(st.rows, w)
    ensures PutBackAll(st.rows, w.names) == Rewrites(UndoWrite(st, w, own, takesCreated).0.rows)
    ensures IsDrop(w) ==> st.version - w.version == CountOwn(own, w.version, st.version)
  {
  }

  lemma SuccessOfRename(st0: Store, op: Op, st0': Store, st: Store, own: seq<int>, takesCreated: bool)
    requires Consistent(st0.rows) && AfterWrite(st0, op) == Some(st0') && op.Rename? && op.name != op.to
    requires Consistent(st.rows) && !TakesWhole(st0, op, takesCreated)
    requires UndoWrite(st, WriteOf(st0, op, st0'), own, takesCreated).2 == Undone
    requires ChangedAnything(WriteOf(st0, op, st0'))
    ensures ImagesMatch(st.rows, WriteOf(st0, op, st0'))
    ensures PutBackOnly(st.rows, UndoWrite(st, WriteOf(st0, op, st0'), own, takesCreated).0.rows, WriteOf(st0, op, st0').names)
  {
    var w := WriteOf(st0, op, st0');
    var c, d := ChangeOf(st0.rows, st0'.rows, op.name), ChangeOf(st0.rows, st0'.rows, op.to);
    WriteImages(st0, op, st0');
    assert w.names == [(op.name, c), (op.to, d)];
    assert w.names[0] == (op.name, c) && w.names[1] == (op.to, d);
    SuccessByImages(st, w, own, takesCreated);
    ImageIsImage(st0.rows, op.name);
    ImageIsImage(st0.rows, op.to);
    RenameKeepsTable(st0.rows, op, op.name, References);
    RenameKeepsTable(st0.rows, op, op.name, ReferenceColumns);
    RenameKeepsTable(st0.rows, op, op.to, References);
    RenameKeepsTable(st0.rows, op, op.to, ReferenceColumns);
    PutBackBoth(st.rows, op.name, c, op.to, d, UndoWrite(st, w, own, takesCreated).0.rows);
  }

  lemma SuccessOfOneName(st0: Store, op: Op, st0': Store, st: Store, own: seq<int>)
    requires Consistent(st0.rows) && AfterWrite(st0, op) == Some(st0') && !op.Rename?
    requires Consistent(st.rows) && !CreatesRecord(st0, op)
    requires UndoWrite(st, WriteOf(st0, op, st0'), own, false).2 == Undone
    requires ChangedAnything(WriteOf(st0, op, st0'))
    ensures ImagesMatch(st.rows, WriteOf(st0, op, st0'))
    ensures PutBackOnly(st.rows, UndoWrite(st, WriteOf(st0, op, st0'), own, false).0.rows, WriteOf(st0, op, st0').names)
  {
    var w := WriteOf(st0, op, st0');
    var c := ChangeOf(st0.rows, st0'.rows, op.name);
    WriteImages(st0, op, st0');
    assert w.names == [(op.name, c)];
    assert w.names[0] == (op.name, c);
    SuccessByImages(st, w, own, false);
    ImageIsImage(st0.rows, op.name);
    LastPutBack(st.rows, op.name, c);
    PutBackImage(st.rows, op.name, c, UndoWrite(st, w, own, false).0.rows);
  }

  /** In any store, whoever wrote since: the undo of a replace, a drop or an ordinary rename that
      succeeds found every tracked row of its names as the write left them, and leaves them as the
      write found them - no row of another name moves. */
  lemma SuccessPutsImagesBack(st0: Store, op: Op, st0': Store, st: Store, own: seq<int>, takesCreated: bool)
    requires Consistent(st0.rows) && AfterWrite(st0, op) == Some(st0') && (op.Rename? ==> op.name != op.to)
    requires takesCreated ==> op.Rename?
    requires Consistent(st.rows) && !TakesWhole(st0, op, takesCreated)
    requires UndoWrite(st, WriteOf(st0, op, st0'), own, takesCreated).2 == Undone
    requires ChangedAnything(WriteOf(st0, op, st0'))
    ensures ImagesMatch(st.rows, WriteOf(st0, op, st0'))
    ensures PutBackOnly(st.rows, UndoWrite(st, WriteOf(st0, op, st0'), own, takesCreated).0.rows, WriteOf(st0, op, st0').names)
  {
    if op.Rename? {
      SuccessOfRename(st0, op, st0', st, own, takesCreated);
    } else {
      SuccessOfOneName(st0, op, st0', st, own);
    }
  }

  /** A taken name keeps the rows a same-named function shares and the rows the write found in the
      tables it changed - whatever else was written on the record meanwhile goes, and no row of another
      name does. */
  lemma TakeLeavesNothingNew(st: Store, rows: Rows, n: Name, c: Change, done: Rows)
    requires NoReferenceChanged(c) && TakeName(st, rows, n, c) == Rewrites(done)
    ensures forall r :: r in done && BelongsTo(done, r, n) ==> Spared(st, n, TableOf(r)) || (r in c.before && Changed(c, TableOf(r)))
    ensures RecordOf(c.before) == {} ==> RecordOf(Image(done, n)) == {}
    ensures forall r :: r in rows && !BelongsTo(rows, r, n) ==> r in done
    ensures forall r :: r in done && r !in rows ==> r in c.before && Changed(c, TableOf(r))
  {
    forall r | r in done && BelongsTo(done, r, n) && r.RefColumn? ensures BelongsTo(rows, r, n) {
      var f :| f in done && f.Ref? && f.vcat == r.vcat && f.id == r.id && EndsAt(f, n);
      assert f in rows;
    }
    RecordShown(c.before);
    RecordShown(Image(done, n));
  }

  // --- the counting argument -----------------------------------------------------------------------

  ghost predicate Increasing(own: seq<int>) {
    forall i, j :: 0 <= i < j < |own| ==> own[i] < own[j]
  }

  function OwnIn(own: seq<int>, after: int, upTo: int): set<int> {
    set v | v in own && after < v <= upTo
  }

  lemma OwnInOneMore(own: seq<int>, last: int, after: int, upTo: int)
    ensures OwnIn(own + [last], after, upTo) == OwnIn(own, after, upTo) + (if after < last <= upTo then {last} else {})
  {
  }

  lemma {:induction false} CountsOwn(own: seq<int>, after: int, upTo: int)
    requires Increasing(own)
    ensures CountOwn(own, after, upTo) == |OwnIn(own, after, upTo)|
  {
    if own == [] {
      assert OwnIn(own, after, upTo) == {};
    } else {
      var rest, last := own[..|own| - 1], own[|own| - 1];
      assert own == rest + [last];
      CountsOwn(rest, after, upTo);
      OwnInOneMore(rest, last, after, upTo);
      assert last !in OwnIn(rest, after, upTo);
    }
  }

  function Between(after: int, upTo: int): (all: set<int>)
    requires after <= upTo
    ensures forall v :: v in all <==> after < v <= upTo
    ensures |all| == upTo - after
    decreases upTo - after
  {
    if after == upTo then {} else Between(after, upTo - 1) + {upTo}
  }

  /** The number of the transaction's own versions in an interval is the interval's length exactly when
      every version in it is the transaction's own. */
  lemma CountIsExact(own: seq<int>, after: int, upTo: int)
    requires Increasing(own) && after <= upTo
    ensures CountOwn(own, after, upTo) <= upTo - after
    ensures upTo - after == CountOwn(own, after, upTo) <==> forall v :: after < v <= upTo ==> v in own
  {
    CountsOwn(own, after, upTo);
    var all := Between(after, upTo);
    SubsetIsSmaller(OwnIn(own, after, upTo), all);
    if |OwnIn(own, after, upTo)| == |all| {
      SubsetOfSameSize(OwnIn(own, after, upTo), all);
      forall v | after < v <= upTo ensures v in own {
        assert v in OwnIn(own, after, upTo);
      }
    }
    assert (forall v :: after < v <= upTo ==> v in own) ==> OwnIn(own, after, upTo) == all;
  }
}
