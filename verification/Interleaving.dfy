/** Rollback among other writers: operators and other sessions write the store between a transaction's
    writes, and between its undos. */
module Interleaving {
  import opened Names
  import opened PolicyRows
  import opened RecordStore
  import opened UndoRules
  import opened UndoSafety
  import opened Rollback

  /** The store and what the transaction keeps; `log[i]` says whether version `first + 1 + i` was
      committed by the transaction - a record write or an undo of one. */
  datatype World = World(store: Store, first: int, log: seq<bool>, pending: Pending)

  ghost predicate Started(w: World) {
    w.log == [] && w.store.version == w.first && w.pending == NOTHING
  }

  ghost predicate WritesRecord(w: World, w': World, op: Op) {
    && AfterWrite(w.store, op).Some?
    && var st' := AfterWrite(w.store, op).value;
       w' == World(st', w.first, w.log + [true], Wrote(w.pending, WriteOf(w.store, op, st'), op.Rename?))
  }

  // Anything another writer may do: one version of the same store.
  ghost predicate SomeoneWrites(w: World, w': World) {
    && w'.store.id == w.store.id && w'.store.version == w.store.version + 1
    && w' == World(w'.store, w.first, w.log + [false], w.pending)
  }

  /** The rollback takes up its newest step. */
  ghost predicate UndoesNewest(w: World, w': World) {
    && w.pending.steps != []
    && var steps := w.pending.steps;
       var (st', own', _) := UndoStep(w.store, steps[|steps| - 1], w.pending.own);
       w' == World(st', w.first, w.log + (if |own'| > |w.pending.own| then [true] else []),
                   Pending(steps[..|steps| - 1], own', w.pending.created))
  }

  // A step whose write kept conflicting, or that the store refused, is passed over.
  ghost predicate GivesUp(w: World, w': World) {
    && w.pending.steps != []
    && w' == w.(pending := w.pending.(steps := w.pending.steps[..|w.pending.steps| - 1]))
  }

  ghost predicate Next(w: World, w': World) {
    (exists op :: WritesRecord(w, w', op)) || SomeoneWrites(w, w') || UndoesNewest(w, w') || GivesUp(w, w')
  }

  ghost predicate IsRun(run: seq<World>) {
    && run != []
    && Started(run[0])
    && forall i :: 0 <= i < |run| - 1 ==> Next(run[i], run[i + 1])
  }

  ghost predicate Mine(first: int, log: seq<bool>, v: int) {
    first < v <= first + |log| && log[v - first - 1]
  }

  /** `own` is exactly the versions the transaction committed, in order. */
  ghost predicate Chain(first: int, log: seq<bool>, version: int, own: seq<int>) {
    && version == first + |log|
    && Increasing(own)
    && forall v :: v in own <==> Mine(first, log, v)
  }

  ghost predicate Chained(w: World) {
    && Chain(w.first, w.log, w.store.version, w.pending.own)
    && (forall i :: 0 <= i < |w.pending.steps| ==> w.first < w.pending.steps[i].write.version <= w.store.version)
  }

  lemma MineOneMore(first: int, log: seq<bool>, mine: bool)
    ensures forall v :: Mine(first, log + [mine], v) <==> Mine(first, log, v) || (mine && v == first + |log| + 1)
  {
  }

  lemma OwnOneMore(own: seq<int>, last: int)
    requires Increasing(own) && forall v :: v in own ==> v < last
    ensures Increasing(own + [last])
    ensures forall v :: v in own + [last] <==> v in own || v == last
  {
    assert forall i :: 0 <= i < |own| ==> own[i] in own;
  }

  lemma OneMoreVersion(first: int, log: seq<bool>, version: int, own: seq<int>, mine: bool)
    requires Chain(first, log, version, own)
    ensures Chain(first, log + [mine], version + 1, if mine then own + [version + 1] else own)
  {
    MineOneMore(first, log, mine);
    if mine {
      OwnOneMore(own, version + 1);
    }
  }

  lemma StepsWithin(steps: seq<Step>, steps': seq<Step>, first: int, version: int)
    requires forall i :: 0 <= i < |steps| ==> first < steps[i].write.version <= version
    requires steps' == steps
             || (|steps'| == |steps| + 1 && steps'[..|steps|] == steps && steps'[|steps|].write.version == version + 1)
    requires first <= version
    ensures forall i :: 0 <= i < |steps'| ==> first < steps'[i].write.version <= version + 1
  {
    if steps' != steps {
      assert steps' == steps + [steps'[|steps|]];
    }
  }

  lemma KeptChained(w: World, st': Store, write: RecordWrite, rename: bool)
    requires Chained(w) && write.version == st'.version == w.store.version + 1
    ensures Chained(World(st', w.first, w.log + [true], Wrote(w.pending, write, rename)))
  {
    OneMoreVersion(w.first, w.log, w.store.version, w.pending.own, true);
    WroteKeeps(w.pending, write, rename);
    StepsWithin(w.pending.steps, Wrote(w.pending, write, rename).steps, w.first, w.store.version);
  }

  lemma WriteChained(w: World, w': World, op: Op)
    requires Chained(w) && WritesRecord(w, w', op)
    ensures Chained(w')
  {
    KeptChained(w, w'.store, WriteOf(w.store, op, w'.store), op.Rename?);
  }

  lemma UndoChained(w: World, w': World)
    requires Chained(w) && UndoesNewest(w, w')
    ensures Chained(w')
  {
    var steps := w.pending.steps;
    OneMoreVersion(w.first, w.log, w.store.version, w.pending.own, true);
    UndoCommitsAtMostOne(w.store, steps[|steps| - 1], w.pending.own);
    assert w.log + [] == w.log;
  }

  lemma NextChained(w: World, w': World)
    requires Chained(w) && Next(w, w')
    ensures Chained(w')
  {
    if op :| WritesRecord(w, w', op) {
      WriteChained(w, w', op);
    } else if UndoesNewest(w, w') {
      UndoChained(w, w');
    } else {
      OneMoreVersion(w.first, w.log, w.store.version, w.pending.own, false);
    }
  }

  lemma WroteKeeps(p: Pending, write: RecordWrite, rename: bool)
    ensures Wrote(p, write, rename).own == p.own + [write.version]
    ensures var steps := Wrote(p, write, rename).steps;
            steps == p.steps || (|steps| == |p.steps| + 1 && steps[..|p.steps|] == p.steps && steps[|p.steps|].write == write)
  {
  }

  lemma UndoCommitsAtMostOne(st: Store, step: Step, own: seq<int>)
    ensures var (st', own', _) := UndoStep(st, step, own);
            || (st' == st && own' == own)
            || (st'.version == st.version + 1 && own' == own + [st'.version])
  {
    RefusedChangesNothing(st, step.write, own, step.takesCreated);
  }

  /** Over every run: the versions the transaction keeps are exactly the versions it committed. */
  lemma {:induction false} RunChained(run: seq<World>)
    requires IsRun(run)
    ensures Chained(run[|run| - 1])
  {
    if |run| > 1 {
      var before := run[..|run| - 1];
      assert IsRun(before);
      RunChained(before);
      NextChained(run[|run| - 2], run[|run| - 1]);
    }
  }

  /** Over every run: a dropped record is refused for having been written since exactly when some
      version after its drop is another writer's - so one that comes back came back to a store nobody
      else wrote in between, and found its name as the drop left it. */
  lemma DropReturnsOnlyAlone(run: seq<World>)
    requires IsRun(run)
    requires var w := run[|run| - 1]; w.pending.steps != [] && IsDrop(w.pending.steps[|w.pending.steps| - 1].write)
    ensures var w := run[|run| - 1];
            var step := w.pending.steps[|w.pending.steps| - 1];
            var outcome := UndoStep(w.store, step, w.pending.own).2;
            && (outcome == WrittenSince <==>
                  !NameIsTaken(w.store, step.write) && w.store.id == step.write.store
                  && exists v :: step.write.version < v <= w.store.version && !Mine(w.first, w.log, v))
            && (outcome == Undone ==>
                  ImagesMatch(w.store.rows, step.write)
                  && forall v :: step.write.version < v <= w.store.version ==> Mine(w.first, w.log, v))
  {
    var w := run[|run| - 1];
    RunChained(run);
    var step := w.pending.steps[|w.pending.steps| - 1];
    CountIsExact(w.pending.own, step.write.version, w.store.version);
    assert ChangedAnything(step.write) by {
      assert step.write.names[0].1.before != step.write.names[0].1.after;
    }
    assert |step.write.names| == 1;
  }

  // --- what the rollback does not bring back -------------------------------------------------------

  lemma MarkLeftAlone(st: Store, st': Store, n: Name)
    requires Mark(n) in st.rows && forall x: Row :: x.Mark? ==> (x in st.rows <==> x in st'.rows)
    ensures var c := ChangeOf(st.rows, st'.rows, n);
            Mark(n) in OfTable(c.before, SchemaDropped) && LeftAlone(st, n, c, SchemaDropped)
  {
    var c := ChangeOf(st.rows, st'.rows, n);
    assert OfTable(c.before, SchemaDropped) == OfTable(c.after, SchemaDropped);
  }

  /** The undo of a view registered over a dropped name takes the mark the drop left. */
  lemma ViewUndoTakesMark(st: Store, view: Op, st': Store, own: seq<int>)
    requires Consistent(st.rows) && view.Register? && !view.clearsMark && CreatesRecord(st, view)
    requires Mark(view.name) in st.rows && AfterWrite(st, view) == Some(st')
    ensures var (done, own', outcome) := UndoWrite(st', WriteOf(st, view, st'), own, false);
            && outcome == Undone && done.id == st.id
            && Mark(view.name) !in done.rows
            && forall r :: r in done.rows && r.Record? ==> r.name != view.name
  {
    var n := view.name;
    var c := ChangeOf(st.rows, st'.rows, n);
    RegisterWrites(st.rows, view);
    WriteImages(st, view, st');
    UndoCreate(st', WriteOf(st, view, st'), n, c, own);
    TakeByFunctions(st, st', st'.rows, n, c);
    TakeRestores(st, st.rows, st'.rows, n);
    MarkLeftAlone(st, st', n);
    RecordShown(Image(st.rows, n));
  }

  // Without the mark the drop left, its undo is refused.
  lemma DropRefused(st: Store, n: Name, later: Store, own: seq<int>)
    requires Consistent(st.rows) && RecordOf(Image(st.rows, n)) != {}
    requires Mark(n) in Dropped(st, n) && Mark(n) !in later.rows
    ensures var w := WriteOf(st, Drop(n), AfterWrite(st, Drop(n)).value);
            var (done, _, outcome) := UndoStep(later, Step(w, false, false), own);
            outcome != Undone && done == later
  {
    var w := WriteOf(st, Drop(n), AfterWrite(st, Drop(n)).value);
    WriteImages(st, Drop(n), AfterWrite(st, Drop(n)).value);
    DropWrites(st, n);
    assert Mark(n) in w.names[0].1.after && Mark(n) !in Image(later.rows, n);
    assert w.names[0].1.before != w.names[0].1.after;
    assert !ImagesMatch(later.rows, w);
    RefusedChangesNothing(later, w, own, false);
  }

  /** A record of an expansion dropped, and a view created in its place: the view's undo takes the mark
      the drop left, the drop's undo then finds its after-image gone and refuses. The record stays
      dropped, and its mark with it is lost. */
  lemma ViewOverDroppedExpansion(st: Store, n: Name, view: Op)
    requires Consistent(st.rows) && SpelledOnce(st)
    requires |n.path| > 1 && exists r :: r in st.rows && r.Record? && r.name == n && r.origin.Some?
    requires view.Register? && view.name == n && !view.clearsMark
    requires Writes(Exec(Tx(st, NOTHING), Drop(n)).store, view)
    ensures var tx := Exec(Exec(Tx(st, NOTHING), Drop(n)), view);
            var (done, _, outcomes) := UndoAll(tx.store, tx.pending.steps, tx.pending.own);
            && |outcomes| == 2 && outcomes[0] == Undone && outcomes[1] != Undone
            && Mark(n) !in done.rows
            && forall r :: r in done.rows && r.Record? ==> r.name != n
  {
    var tx0 := Tx(st, NOTHING);
    var r :| r in st.rows && r.Record? && r.name == n && r.origin.Some?;
    assert r in Image(st.rows, n) && r.def in RecordOf(Image(st.rows, n));
    var tx1 := Exec(tx0, Drop(n));
    var tx2 := Exec(tx1, view);
    ExecAddsStep(tx0, Drop(n));
    ExecAddsStep(tx1, view);
    DropWrites(st, n);
    var first := Step(WriteOf(st, Drop(n), tx1.store), false, false);
    var second := Step(WriteOf(tx1.store, view, tx2.store), false, false);
    assert tx2.pending.steps == [first, second];
    ViewUndoTakesMark(tx1.store, view, tx2.store, tx2.pending.own);
    NoNameToFree(tx1.store, view, tx2.store);
    var (mid, own, _) := UndoStep(tx2.store, second, tx2.pending.own);
    DropRefused(st, n, mid, own);
    TwoSteps(tx2.store, first, second, tx2.pending.own);
  }

  // A creation left no name to come back.
  lemma NoNameToFree(st: Store, op: Op, st': Store)
    requires CreatesRecord(st, op) && AfterWrite(st, op) == Some(st')
    ensures !NameIsTaken(st', WriteOf(st, op, st'))
  {
    WriteImages(st, op, st');
  }

  lemma TwoSteps(st: Store, first: Step, second: Step, own: seq<int>)
    ensures var (st', own', newest) := UndoStep(st, second, own);
            var (done, own'', oldest) := UndoStep(st', first, own');
            UndoAll(st, [first, second], own) == (done, own'', [newest, oldest])
  {
    assert [first, second][..1] == [first] && [first][..0] == [];
    var (st', own', newest) := UndoStep(st, second, own);
    var (done, own'', oldest) := UndoStep(st', first, own');
    assert UndoAll(done, [], own'') == (done, own'', []);
    assert [oldest] + [] == [oldest];
    assert UndoAll(st', [first], own') == (done, own'', [oldest]);
    assert [newest] + [oldest] == [newest, oldest];
  }

  /** A rename moves the columns of a function of the old name with the record, and its undo does not
      bring them back: they are where they were exactly when the function had none. */
  lemma RenameTakesFunctionColumns(st: Store, op: Op, st': Store, later: Store, own: seq<int>, takesCreated: bool)
    requires op.Rename? && op.name != op.to && RecordOf(Image(st.rows, op.name)) != {} && AfterWrite(st, op) == Some(st')
    requires later.functionColumns == st'.functionColumns
    ensures var done := UndoWrite(later, WriteOf(st, op, st'), own, takesCreated).0;
            done.functionColumns == st.functionColumns <==> forall c :: c in st.functionColumns ==> c.name != op.name
  {
    RefusedChangesNothing(later, WriteOf(st, op, st'), own, takesCreated);
    if c :| c in st.functionColumns && c.name == op.name {
      assert c !in st'.functionColumns;
    }
  }
}
