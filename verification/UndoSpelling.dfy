/** Whether an undo keeps every name spelled one way. Before a step the name to come back is looked up, and
    the step is passed over when the policy spells its last part another way - but not when it is an outer
    part that is spelled another way since. */
module UndoSpelling {
  import opened Names
  import opened PolicyRows
  import opened RecordStore
  import opened UndoRules
  import opened UndoSafety
  import opened Rollback
  import opened RollbackExact
  import opened WriteMeaning
  import opened UndoMeaning

  predicate GivesName(r: Row) {
    r.Record? || (r.Fact? && r.table == ObjectCaps)
  }

  /** The record the write was of leaves its name: the undo brings it back. */
  ghost predicate ComesBack(st: Store, op: Op) {
    op.Drop? || (op.Rename? && RecordOf(Image(st.rows, op.name)) != {})
  }

  // The rows that give the new name of a rename to the catalog and go with its undo.
  predicate GoesWithUndo(later: Store, op: Op, takesCreated: bool, r: Row) {
    op.Rename? && GivesName(r) && r.name == op.to && (r.Record? || (takesCreated && op.to !in later.functions))
  }

  /** The names that stay through the undo. */
  ghost function Staying(later: Store, op: Op, takesCreated: bool, v: string): set<Path> {
    NamesIn(later.(rows := set r | r in later.rows && !GoesWithUndo(later, op, takesCreated, r)), v)
  }

  ghost function After(st: Store, op: Op, st': Store, later: Store, own: seq<int>, takesCreated: bool): Store {
    UndoWrite(later, WriteOf(st, op, st'), own, takesCreated).0
  }

  ghost predicate Undoes(st: Store, op: Op, st': Store, later: Store, own: seq<int>, takesCreated: bool) {
    && Consistent(st.rows) && AfterWrite(st, op) == Some(st') && (op.Rename? ==> op.name != op.to)
    && (takesCreated ==> op.Rename?)
    && UndoWrite(later, WriteOf(st, op, st'), own, takesCreated).2 == Undone && ChangedAnything(WriteOf(st, op, st'))
  }

  // --- what names an undo brings -------------------------------------------------------------------

  lemma CapsUnchanged(st: Store, op: Op, st': Store, n: Name)
    requires Consistent(st.rows) && AfterWrite(st, op) == Some(st') && !op.Drop? && (op.Rename? ==> op.name != op.to)
    requires n in OpNames(op) && ChangedAnything(WriteOf(st, op, st'))
    ensures !Changed(ChangeOf(st.rows, st'.rows, n), Facts(ObjectCaps))
  {
    if op.Register? {
      RegisterWrites(st.rows, op);
    } else {
      if RecordOf(Image(st.rows, op.name)) == {} {
        NothingMoved(st, op, st');
      }
      RenameKeepsTable(st.rows, op, n, Facts(ObjectCaps));
    }
  }

  // A row that names something and that the undo brings is of the name that comes back - or of one held.
  lemma BringsOneName(st: Store, op: Op, st': Store, later: Store, own: seq<int>, takesCreated: bool, r: Row)
    requires Undoes(st, op, st', later, own, takesCreated) && GivesName(r)
    requires r !in later.rows && r in After(st, op, st', later, own, takesCreated).rows
    ensures r.name == op.name && RecordOf(Image(st.rows, op.name)) != {}
    ensures !op.Drop? ==> r.Record?
  {
    var w := WriteOf(st, op, st');
    WriteImages(st, op, st');
    BroughtFromImages(later, w, own, takesCreated, r);
    var i :| 0 <= i < |w.names| && r in w.names[i].1.before && Changed(w.names[i].1, TableOf(r));
    var n := w.names[i].0;
    assert n in OpNames(op) && r.name == n && w.names[i].1 == ChangeOf(st.rows, st'.rows, n);
    if !op.Drop? {
      CapsUnchanged(st, op, st', n);
      assert r.Record? && r.def in RecordOf(Image(st.rows, n));
      if op.Rename? {
        if RecordOf(Image(st.rows, op.name)) == {} {
          NothingMoved(st, op, st');
        }
        RenameWrites(st.rows, op);
      }
    }
  }

  // A replaced record's name is held while it may be undone.
  lemma ReplacedIsHeld(st: Store, op: Op, st': Store, later: Store, own: seq<int>)
    requires Undoes(st, op, st', later, own, false) && op.Register? && !CreatesRecord(st, op)
    ensures op.name.path in NamesIn(later, op.name.vcat)
  {
    var w := WriteOf(st, op, st');
    WriteImages(st, op, st');
    DropShows(st, op, st');
    RegisterWrites(st.rows, op);
    SuccessByImages(later, w, own, false);
    assert w.names[0].0 == op.name && Image(later.rows, op.name) == Image(st'.rows, op.name);
    var d, origin, rest := RecordIn(later.rows, op.name);
  }

  /** The undo of a registration brings no name. */
  lemma RegistrationBringsNoName(st: Store, op: Op, st': Store, later: Store, own: seq<int>, v: string)
    requires Undoes(st, op, st', later, own, false) && op.Register?
    ensures NamesIn(After(st, op, st', later, own, false), v) <= NamesIn(later, v)
  {
    var done := After(st, op, st', later, own, false);
    RefusedChangesNothing(later, WriteOf(st, op, st'), own, false);
    forall r: Row | r in done.rows && r !in later.rows && GivesName(r) && r.name.vcat == v ensures r.name.path in NamesIn(later, v) {
      BringsOneName(st, op, st', later, own, false, r);
      ReplacedIsHeld(st, op, st', later, own);
    }
  }

  // --- what names are left -------------------------------------------------------------------------

  /** Of the rows that name something, an undo that brings a name back leaves those of other names alone,
      but for those that go with it. */
  ghost predicate OthersStay(later: Store, op: Op, takesCreated: bool, done: Store) {
    && (forall r: Row :: GivesName(r) && r.name != op.name ==> (r in done.rows <==> r in later.rows && !GoesWithUndo(later, op, takesCreated, r)))
    && (exists d, origin, rest :: Record(op.name, d, origin, rest) in done.rows)
  }

  lemma ImageRows(rows: Rows, rows': Rows, n: Name, t: Table)
    requires OfTable(Image(rows, n), t) == OfTable(Image(rows', n), t)
    ensures forall r :: TableOf(r) == t && Named(r, n) ==> (r in rows <==> r in rows')
  {
    forall r | TableOf(r) == t && Named(r, n) ensures r in rows <==> r in rows' {
      assert r in rows <==> r in OfTable(Image(rows, n), t);
      assert r in rows' <==> r in OfTable(Image(rows', n), t);
    }
  }

  // The new name of a rename: its record goes, its capabilities stay.
  lemma NewNameLeft(st: Store, op: Op, st': Store, later: Rows, done: Rows, r: Row)
    requires Consistent(st.rows) && op.Rename? && op.name != op.to && AfterWrite(st, op) == Some(st')
    requires RecordOf(Image(st.rows, op.name)) != {}
    requires Image(later, op.to) == Image(st'.rows, op.to) && Image(done, op.to) == Image(st.rows, op.to)
    requires GivesName(r) && r.name == op.to
    ensures r in done <==> r in later && !r.Record?
  {
    var to := op.to;
    RenameWrites(st.rows, op);
    RecordShown(Image(st.rows, to));
    assert forall x :: x in done && BelongsTo(done, x, to) ==> x in Image(done, to);
    if !r.Record? {
      RenameKeepsTable(st.rows, op, op.to, Facts(ObjectCaps));
      ImageRows(later, done, op.to, Facts(ObjectCaps));
    }
  }

  lemma PutBackLeaves(st: Store, op: Op, st': Store, later: Store, own: seq<int>, takesCreated: bool)
    requires Undoes(st, op, st', later, own, takesCreated) && Consistent(later.rows)
    requires ComesBack(st, op) && !TakesWhole(st, op, takesCreated)
    ensures OthersStay(later, op, takesCreated, After(st, op, st', later, own, takesCreated))
  {
    var w := WriteOf(st, op, st');
    var done := After(st, op, st', later, own, takesCreated);
    WriteImages(st, op, st');
    SuccessPutsImagesBack(st, op, st', later, own, takesCreated);
    assert w.names[0] == (op.name, ChangeOf(st.rows, st'.rows, op.name));
    assert Image(done.rows, op.name) == Image(st.rows, op.name);
    var d, origin, rest := RecordIn(done.rows, op.name);
    forall r: Row | GivesName(r) && r.name != op.name
      ensures r in done.rows <==> r in later.rows && !GoesWithUndo(later, op, takesCreated, r) {
      if op.Rename? && r.name == op.to {
        assert w.names[1] == (op.to, ChangeOf(st.rows, st'.rows, op.to));
        NewNameLeft(st, op, st', later.rows, done.rows, r);
      } else {
        assert forall i :: 0 <= i < |w.names| ==> !BelongsTo(later.rows, r, w.names[i].0) && !BelongsTo(done.rows, r, w.names[i].0);
      }
    }
  }

  lemma TakenNameLeft(st: Store, rows: Rows, rows': Rows, later: Rows, n: Name, r: Row)
    requires GivesName(r) && RecordOf(Image(rows, n)) == {} && !Changed(ChangeOf(rows, rows', n), Facts(ObjectCaps))
    requires TakeName(st, later, n, ChangeOf(rows, rows', n)).Rewrites?
    ensures r in TakeName(st, later, n, ChangeOf(rows, rows', n)).rows
            <==> r in later && !(r.name == n && (r.Record? || n !in st.functions))
  {
    RecordShown(Image(rows, n));
  }

  lemma PutBackOfOther(rows: Rows, n: Name, c: Change, source: Rows, r: Row)
    requires c.before == Image(source, n) && PutBack(rows, n, c).Rewrites? && GivesName(r) && r.name != n
    ensures r in PutBack(rows, n, c).rows <==> r in rows
  {
  }

  lemma TakenLeaves(st: Store, op: Op, st': Store, later: Store, own: seq<int>)
    requires Undoes(st, op, st', later, own, true) && Consistent(later.rows) && RecordOf(Image(st.rows, op.name)) != {}
    ensures OthersStay(later, op, true, After(st, op, st', later, own, true))
  {
    var done := After(st, op, st', later, own, true);
    var was, c := ChangeOf(st.rows, st'.rows, op.name), ChangeOf(st.rows, st'.rows, op.to);
    RenameWrites(st.rows, op);
    RenameKeepsTable(st.rows, op, op.to, Facts(ObjectCaps));
    MovedRecordRows(st, op, st', later, own);
    OldNameAfterwards(st, op, st', later, own);
    var taken := TakeName(later, later.rows, op.to, c);
    forall r: Row | GivesName(r) && r.name != op.name
      ensures r in done.rows <==> r in later.rows && !GoesWithUndo(later, op, true, r) {
      TakenNameLeft(later, st.rows, st'.rows, later.rows, op.to, r);
      if RecordOf(Image(later.rows, op.name)) == {} {
        PutBackOfOther(taken.rows, op.name, was, st.rows, r);
      }
    }
    if d, origin, rest :| Record(op.name, d, origin, rest) in later.rows {
      assert Record(op.name, d, origin, rest) in done.rows;
    } else {
      var d, origin, rest := RecordIn(st.rows, op.name);
      assert Record(op.name, d, origin, rest) in done.rows;
    }
  }

  lemma NamesLeft(later: Store, op: Op, takesCreated: bool, done: Store, v: string)
    requires OthersStay(later, op, takesCreated, done) && done.(version := later.version, rows := later.rows) == later
    ensures v == op.name.vcat ==> NamesIn(done, v) == Staying(later, op, takesCreated, v) + {op.name.path}
    ensures v != op.name.vcat ==> NamesIn(done, v) == Staying(later, op, takesCreated, v)
  {
    var d, origin, rest :| Record(op.name, d, origin, rest) in done.rows;
    var stayed := later.(rows := set r | r in later.rows && !GoesWithUndo(later, op, takesCreated, r));
    forall r: Row | GivesName(r) && r.name != op.name ensures r in done.rows <==> r in stayed.rows {
    }
    forall p ensures p in NamesIn(done, v) && Name(v, p) != op.name ==> p in NamesIn(stayed, v)
             ensures p in NamesIn(stayed, v) && Name(v, p) != op.name ==> p in NamesIn(done, v) {
      NamedBy(done, v, p);
      NamedBy(stayed, v, p);
    }
    NamedBy(done, op.name.vcat, op.name.path);
  }

  lemma NamedBy(st: Store, v: string, p: Path)
    ensures p in NamesIn(st, v) <==> Name(v, p) in st.functions + st.others || exists r :: r in st.rows && GivesName(r) && r.name == Name(v, p)
  {
  }

  // --- when one spelling is kept -------------------------------------------------------------------

  /** Every stored name that has the outer parts of `q` up to case has them exactly. */
  ghost predicate OuterPartsFit(names: set<Path>, q: Path) {
    forall n, k: nat :: n in names && k + 1 < |q| && SamePrefix(n, q, k + 1) ==> n[k] == q[k]
  }

  lemma OneMoreName(names: set<Path>, q: Path)
    requires OneSpelling(names)
    ensures OneSpelling(names + {q}) <==> Fits(names, q)
  {
    if Fits(names, q) {
      forall a, b, k: nat | a in names + {q} && b in names + {q} && k < |a| && SamePrefix(a, b, k + 1) ensures a[k] == b[k] {
        assert SamePrefix(b, a, k + 1);
      }
    }
    if OneSpelling(names + {q}) {
      forall n, k: nat | n in names && k < |q| && SamePrefix(n, q, k + 1) ensures n[k] == q[k] {
        assert n in names + {q} && q in names + {q};
      }
    }
  }

  lemma LastPartFits(names: set<Path>, some: set<Path>, q: Path)
    requires OneSpelling(names) && some <= names && Spell(names, q, true).Spelled?
    ensures Fits(some, q) <==> OuterPartsFit(some, q)
  {
    SpellingKeepsOneSpelling(names, q, true);
    if OuterPartsFit(some, q) {
      forall n, k: nat | n in some && k < |q| && SamePrefix(n, q, k + 1) ensures n[k] == q[k] {
        if k + 1 == |q| {
          assert !CaseSibling(names, q);
        }
      }
    }
  }

  lemma StayingIsLess(later: Store, op: Op, takesCreated: bool, v: string)
    ensures Staying(later, op, takesCreated, v) <= NamesIn(later, v)
  {
  }

  // The name that comes back was looked up and found spelled no other way in its last part.
  lemma LookedUp(st: Store, op: Op, st': Store, later: Store)
    requires Consistent(st.rows) && AfterWrite(st, op) == Some(st') && (op.Rename? ==> op.name != op.to) && ComesBack(st, op)
    requires !NameIsTaken(later, WriteOf(st, op, st'))
    ensures Spell(NamesIn(later, op.name.vcat), op.name.path, true).Spelled?
  {
    var w := WriteOf(st, op, st');
    WriteImages(st, op, st');
    if op.Drop? {
      DropWrites(st, op.name);
    } else {
      RenameWrites(st.rows, op);
    }
    assert w.names[0] == (op.name, ChangeOf(st.rows, st'.rows, op.name));
    assert RecordOf(w.names[0].1.before) != {} && RecordOf(w.names[0].1.after) == {};
  }

  lemma BroughtBackExactly(st: Store, op: Op, st': Store, later: Store, own: seq<int>, takesCreated: bool)
    requires Undoes(st, op, st', later, own, takesCreated) && ComesBack(st, op)
    requires Consistent(later.rows) && SpelledOnce(later) && !NameIsTaken(later, WriteOf(st, op, st'))
    ensures SpelledOnce(After(st, op, st', later, own, takesCreated))
            <==> OuterPartsFit(Staying(later, op, takesCreated, op.name.vcat), op.name.path)
  {
    var done := After(st, op, st', later, own, takesCreated);
    var v, q := op.name.vcat, op.name.path;
    if takesCreated {
      TakenLeaves(st, op, st', later, own);
    } else {
      PutBackLeaves(st, op, st', later, own, false);
    }
    RefusedChangesNothing(later, WriteOf(st, op, st'), own, takesCreated);
    LookedUp(st, op, st', later);
    forall u ensures Staying(later, op, takesCreated, u) <= NamesIn(later, u) && OneSpelling(Staying(later, op, takesCreated, u))
             ensures u != v ==> NamesIn(done, u) == Staying(later, op, takesCreated, u) {
      StayingIsLess(later, op, takesCreated, u);
      FewerNames(NamesIn(later, u), Staying(later, op, takesCreated, u));
      NamesLeft(later, op, takesCreated, done, u);
    }
    NamesLeft(later, op, takesCreated, done, v);
    OneMoreName(Staying(later, op, takesCreated, v), q);
    LastPartFits(NamesIn(later, v), Staying(later, op, takesCreated, v), q);
  }

  /** In any store of one spelling, whoever wrote it since: a step's undo keeps every name spelled one way
      exactly when it brings no name back, or the stored names that stay spell the outer parts of the name
      it brings as it does. */
  lemma UndoKeepsOneSpellingExactly(st: Store, op: Op, st': Store, later: Store, own: seq<int>, takesCreated: bool)
    requires Consistent(st.rows) && AfterWrite(st, op) == Some(st') && (op.Rename? ==> op.name != op.to)
    requires (takesCreated ==> op.Rename?) && Consistent(later.rows) && SpelledOnce(later)
    ensures var (done, _, outcome) := UndoStep(later, Step(WriteOf(st, op, st'), op.Rename?, takesCreated), own);
            SpelledOnce(done) <==>
              outcome == Undone && ComesBack(st, op) ==>
                OuterPartsFit(Staying(later, op, takesCreated, op.name.vcat), op.name.path)
  {
    var w := WriteOf(st, op, st');
    RefusedChangesNothing(later, w, own, takesCreated);
    if NameIsTaken(later, w) || UndoWrite(later, w, own, takesCreated).2 != Undone {
    } else if !ChangedAnything(w) {
      NothingChanged(st, op, st');
    } else if ComesBack(st, op) {
      BroughtBackExactly(st, op, st', later, own, takesCreated);
    } else if op.Register? {
      var done := After(st, op, st', later, own, false);
      forall v ensures OneSpelling(NamesIn(done, v)) {
        RegistrationBringsNoName(st, op, st', later, own, v);
        FewerNames(NamesIn(later, v), NamesIn(done, v));
      }
    } else {
      NothingMoved(st, op, st');
    }
  }

  /** So it does whenever looking the name up answers it as it is. */
  lemma SpelledAsItIsKeepsOneSpelling(st: Store, op: Op, st': Store, later: Store, own: seq<int>, takesCreated: bool)
    requires Consistent(st.rows) && AfterWrite(st, op) == Some(st') && (op.Rename? ==> op.name != op.to)
    requires (takesCreated ==> op.Rename?) && Consistent(later.rows) && SpelledOnce(later)
    requires Spell(NamesIn(later, op.name.vcat), op.name.path, true) == Spelled(op.name.path)
    ensures SpelledOnce(UndoStep(later, Step(WriteOf(st, op, st'), op.Rename?, takesCreated), own).0)
  {
    var names := NamesIn(later, op.name.vcat);
    SpellFromSound(names, op.name.path, 0, true);
    StayingIsLess(later, op, takesCreated, op.name.vcat);
    UndoKeepsOneSpellingExactly(st, op, st', later, own, takesCreated);
  }

  // --- a second spelling ---------------------------------------------------------------------------

  /** One record is renamed to another schema, and somebody else records an object under the old schema's
      name in another case. */
  ghost predicate SchemaRespelled(st: Store, op: Op, record: Row, other: Row) {
    && op.Rename? && op.phys.None? && record.Record? && record.name == op.name && other.Record?
    && st.rows == {record} && st.functionColumns == {} && st.functions == {} && st.others == {}
    && op.name.vcat == op.to.vcat == other.name.vcat && |op.name.path| == |op.to.path| == |other.name.path| == 2
    && SameName(other.name.path[0], op.name.path[0]) && other.name.path[0] != op.name.path[0]
    && !SameName(op.to.path[0], op.name.path[0]) && !SameName(other.name.path[1], op.name.path[1])
  }

  lemma RenamedAlone(st: Store, op: Op, record: Row, other: Row)
    requires SchemaRespelled(st, op, record, other)
    ensures Consistent(st.rows) && RecordOf(Image(st.rows, op.name)) != {}
    ensures RenameMoves(op, record) && Moved(op, record).Record? && Moved(op, record).name == op.to
    ensures AfterWrite(st, op).Some? && AfterWrite(st, op).value.rows == {Moved(op, record)}
    ensures AfterWrite(st, op).value.functions == {} == AfterWrite(st, op).value.others && AfterWrite(st, op).value.id == st.id
  {
    assert record in Image(st.rows, op.name) && record.def in RecordOf(Image(st.rows, op.name));
    assert MovedRows(st.rows, op) == {Moved(op, record)} && StayingRows(st.rows, op) == {};
    assert Renamed(st.rows, op) == {Moved(op, record)};
    assert MovedColumns(st, op) == {};
  }

  lemma TwoSpelledOnce(names: set<Path>, a: Path, b: Path)
    requires |a| == |b| == 2 && !SameName(a[0], b[0]) && forall n :: n in names ==> n == a || n == b
    ensures OneSpelling(names)
  {
    forall x, y, k: nat | x in names && y in names && k < |x| && SamePrefix(x, y, k + 1) ensures x[k] == y[k] {
      assert SameName(x[0], y[0]);
    }
  }

  lemma LaterNames(later: Store, moved: Row, other: Row, v: string)
    requires moved.Record? && other.Record? && later.rows == {moved, other} && later.functions == {} == later.others
    ensures forall n :: n in NamesIn(later, v) ==> n == moved.name.path || n == other.name.path
  {
  }

  lemma NoneSibling(names: set<Path>, q: Path)
    requires OneSpelling(names) && forall n :: n in names ==> !SamePrefix(n, q, |q|)
    ensures Spell(names, q, true).Spelled?
  {
    SpellingKeepsOneSpelling(names, q, true);
  }

  lemma Differs(n: Path, q: Path, k: nat)
    requires k < |n| && k < |q| && !SameName(n[k], q[k])
    ensures !SamePrefix(n, q, |q|)
  {
  }

  // Looked up, the old name is answered under the schema's new spelling - no refusal.
  lemma OldNameLookedUp(names: set<Path>, q: Path, to: Path, other: Path)
    requires |q| == |to| == |other| == 2 && !SameName(to[0], q[0]) && !SameName(other[1], q[1])
    requires OneSpelling(names) && forall n :: n in names ==> n == to || n == other
    ensures Spell(names, q, true).Spelled?
  {
    Differs(to, q, 0);
    Differs(other, q, 1);
    NoneSibling(names, q);
  }

  lemma BothPutBack(st: Store, op: Op, st': Store, later: Store, own: seq<int>)
    requires Consistent(st.rows) && op.Rename? && op.name != op.to && AfterWrite(st, op) == Some(st')
    requires RecordOf(Image(st.rows, op.name)) != {} && later.id == st.id
    requires forall m :: m in OpNames(op) ==> LeftAsWritten(later.rows, st'.rows, m)
    ensures UndoWrite(later, WriteOf(st, op, st'), own, false).2 == Undone && ChangedAnything(WriteOf(st, op, st'))
  {
    var w := WriteOf(st, op, st');
    var was, c := ChangeOf(st.rows, st'.rows, op.name), ChangeOf(st.rows, st'.rows, op.to);
    WriteImages(st, op, st');
    RenameWrites(st.rows, op);
    assert w.names[0].1.before != w.names[0].1.after;
    RewriteRefusedExactly(st, op, st', later, own, false);
    RenameChangesNoReference(st, op, st', op.name);
    RenameChangesNoReference(st, op, st', op.to);
    PutsBackWithoutCollision(later.rows, op.name, was, st.rows);
    var mid := PutBack(later.rows, op.name, was).rows;
    PutsBackWithoutCollision(mid, op.to, c, st.rows);
    PutBackTwo(later.rows, mid, PutBack(mid, op.to, c).rows, op.name, was, op.to, c);
  }

  /** The store once the other object is recorded. */
  function Later(st': Store, other: Row): Store {
    st'.(version := st'.version + 1, rows := st'.rows + {other})
  }

  lemma LaterConsistent(later: Store, moved: Row, other: Row)
    requires moved.Record? && other.Record? && later.rows == {moved, other} && moved.name != other.name
    ensures Consistent(later.rows)
  {
  }

  lemma LaterSpelledOnce(later: Store, moved: Row, other: Row, q: Path)
    requires moved.Record? && other.Record? && later.rows == {moved, other} && later.functions == {} == later.others
    requires |q| == |moved.name.path| == |other.name.path| == 2 && !SameName(moved.name.path[0], other.name.path[0])
    requires !SameName(moved.name.path[0], q[0]) && !SameName(other.name.path[1], q[1])
    ensures SpelledOnce(later) && Spell(NamesIn(later, moved.name.vcat), q, true).Spelled?
  {
    forall v ensures OneSpelling(NamesIn(later, v)) {
      LaterNames(later, moved, other, v);
      TwoSpelledOnce(NamesIn(later, v), moved.name.path, other.name.path);
    }
    LaterNames(later, moved, other, moved.name.vcat);
    OldNameLookedUp(NamesIn(later, moved.name.vcat), q, moved.name.path, other.name.path);
  }

  lemma LaterSound(st: Store, op: Op, record: Row, other: Row)
    requires SchemaRespelled(st, op, record, other)
    ensures AfterWrite(st, op).Some?
    ensures var later := Later(AfterWrite(st, op).value, other);
            && Consistent(later.rows) && SpelledOnce(later)
            && Spell(NamesIn(later, op.name.vcat), op.name.path, true).Spelled?
  {
    RenamedAlone(st, op, record, other);
    var moved := Moved(op, record);
    var later := Later(AfterWrite(st, op).value, other);
    LaterConsistent(later, moved, other);
    LaterSpelledOnce(later, moved, other, op.name.path);
  }

  lemma NamesUntouched(st: Store, op: Op, record: Row, other: Row)
    requires SchemaRespelled(st, op, record, other)
    ensures AfterWrite(st, op).Some?
    ensures var st' := AfterWrite(st, op).value;
            forall m :: m in OpNames(op) ==> LeftAsWritten(Later(st', other).rows, st'.rows, m)
  {
    RenamedAlone(st, op, record, other);
    assert other.name != op.name && other.name != op.to;
  }

  /** Rolling the rename back then brings the old name back beside the new spelling of its schema. */
  lemma SecondSpellingAfterRollback(st: Store, op: Op, record: Row, other: Row, own: seq<int>)
    requires SchemaRespelled(st, op, record, other)
    ensures AfterWrite(st, op).Some?
    ensures var st' := AfterWrite(st, op).value;
            var later := Later(st', other);
            var (done, _, outcome) := UndoStep(later, Step(WriteOf(st, op, st'), true, false), own);
            SpelledOnce(later) && outcome == Undone && !SpelledOnce(done)
  {
    RenamedAlone(st, op, record, other);
    LaterSound(st, op, record, other);
    NamesUntouched(st, op, record, other);
    var st' := AfterWrite(st, op).value;
    var later := Later(st', other);
    RenameWrites(st.rows, op);
    BothPutBack(st, op, st', later, own);
    NoOneTook(st, op, st', later);
    UndoKeepsOneSpellingExactly(st, op, st', later, own, false);
    OtherStays(later, op, other);
  }

  lemma OtherStays(later: Store, op: Op, other: Row)
    requires op.Rename? && other.Record? && other in later.rows && other.name != op.to && other.name.vcat == op.name.vcat
    requires |op.name.path| == |other.name.path| == 2 && SameName(other.name.path[0], op.name.path[0]) && other.name.path[0] != op.name.path[0]
    ensures !OuterPartsFit(Staying(later, op, false, op.name.vcat), op.name.path)
  {
    assert !GoesWithUndo(later, op, false, other);
    assert other.name.path in Staying(later, op, false, op.name.vcat);
    assert SamePrefix(other.name.path, op.name.path, 1);
  }

  lemma NoOneTook(st: Store, op: Op, st': Store, later: Store)
    requires op.Rename? && AfterWrite(st, op) == Some(st') && RecordOf(Image(st.rows, op.to)) == {}
    requires Spell(NamesIn(later, op.name.vcat), op.name.path, true).Spelled?
    ensures !NameIsTaken(later, WriteOf(st, op, st'))
  {
    WriteImages(st, op, st');
  }
}
