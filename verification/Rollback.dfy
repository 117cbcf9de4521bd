/** One transaction's record writes and their rollback, newest first. */
module Rollback {
  import opened Names
  import opened PolicyRows
  import opened RecordStore
  import opened UndoRules
  import opened UndoSafety

  datatype Step = Step(write: RecordWrite, rename: bool, takesCreated: bool)

  /** What a transaction keeps: its steps, the versions it committed, and the names whose record it
      created, where that is now. */
  datatype Pending = Pending(steps: seq<Step>, own: seq<int>, created: set<Name>)

  const NOTHING := Pending([], [], {})

  function Wrote(p: Pending, write: RecordWrite, rename: bool): Pending {
    var own := p.own + [write.version];
    if write.names == [] then p.(own := own) else
    var (n, c) := write.names[0];
    if rename && |write.names| == 2 then
      var takes := n in p.created;
      var there := if takes && RecordOf(write.names[1].1.after) != {} then {write.names[1].0} else {};
      Pending(p.steps + [Step(write, rename, takes)], own, p.created - {n} + there)
    else
      Pending(p.steps + [Step(write, rename, false)], own,
              if RecordOf(c.before) == {} && RecordOf(c.after) != {} then p.created + {n}
              else if RecordOf(c.after) == {} then p.created - {n}
              else p.created)
  }

  /** A name the rows would go back to is spelled another way since. */
  ghost predicate NameIsTaken(st: Store, write: RecordWrite) {
    exists i :: 0 <= i < |write.names|
      && RecordOf(write.names[i].1.before) != {} && RecordOf(write.names[i].1.after) == {}
      && !Spell(NamesIn(st, write.names[i].0.vcat), write.names[i].0.path, true).Spelled?
  }

  ghost function UndoStep(st: Store, step: Step, own: seq<int>): (Store, seq<int>, Outcome) {
    if NameIsTaken(st, step.write) then (st, own, NameTaken)
    else UndoWrite(st, step.write, own, step.takesCreated)
  }

  /** The rollback's loop: every step, newest first, whatever the ones before it came to. */
  ghost function UndoAll(st: Store, steps: seq<Step>, own: seq<int>): (Store, seq<int>, seq<Outcome>)
    decreases |steps|
  {
    if steps == [] then (st, own, []) else
    var (st', own', outcome) := UndoStep(st, steps[|steps| - 1], own);
    var (done, versions, outcomes) := UndoAll(st', steps[..|steps| - 1], own');
    (done, versions, [outcome] + outcomes)
  }

  // --- a transaction alone with the store ----------------------------------------------------------

  datatype Tx = Tx(store: Store, pending: Pending)

  /** The name is spelled as the policy spells it, and new where it must be. */
  ghost predicate Admitted(st: Store, op: Op) {
    match op
    case Register(n, _, _, _, _, _) => Spell(NamesIn(st, n.vcat), n.path, true) == Spelled(n.path)
    case Drop(_) => true
    case Rename(n, to, _) =>
      n.vcat == to.vcat && n != to && Spell(NamesIn(st, to.vcat), to.path, true) == Spelled(to.path)
  }

  ghost predicate Writes(st: Store, op: Op) {
    Admitted(st, op) && AfterWrite(st, op).Some?
  }

  ghost function Exec(tx: Tx, op: Op): Tx {
    if !Writes(tx.store, op) then tx else
    var st' := AfterWrite(tx.store, op).value;
    Tx(st', Wrote(tx.pending, WriteOf(tx.store, op, st'), op.Rename?))
  }

  ghost function ExecAll(tx: Tx, ops: seq<Op>): Tx {
    if ops == [] then tx else Exec(ExecAll(tx, ops[..|ops| - 1]), ops[|ops| - 1])
  }

  ghost predicate TakesCreated(tx: Tx, op: Op) {
    op.Rename? && op.name in tx.pending.created
  }

  /** Each write of the run found nothing of the name it creates or moves a created record to in the
      tables it left alone. */
  ghost predicate AllRestorable(tx: Tx, ops: seq<Op>) {
    ops == [] ||
    var before := ExecAll(tx, ops[..|ops| - 1]);
    var op := ops[|ops| - 1];
    AllRestorable(tx, ops[..|ops| - 1])
    && (Writes(before.store, op) ==> Restorable(before.store, op, AfterWrite(before.store, op).value, TakesCreated(before, op)))
  }

  ghost predicate SpelledOnce(st: Store) {
    forall v :: OneSpelling(NamesIn(st, v))
  }

  /** The versions since `first` are the transaction's own, one after the other. */
  ghost predicate AllOwn(own: seq<int>, first: int, version: int) {
    version == first + |own| && forall i :: 0 <= i < |own| ==> own[i] == first + 1 + i
  }

  ghost predicate Sound(base: Store, tx: Tx) {
    && Consistent(tx.store.rows) && SpelledOnce(tx.store)
    && AllOwn(tx.pending.own, base.version, tx.store.version)
    && tx.store.id == base.id && tx.store.functions == base.functions && tx.store.others == base.others
  }

  /** The names of a catalog before and after a write. */
  ghost function NamesAround(st: Store, op: Op, v: string): set<Path> {
    NamesIn(st, v) + (if TakenName(op).vcat == v && !op.Drop? then {TakenName(op).path} else {})
  }

  // A row that gives its name to the catalog after a write was there, or is of the name the write takes.
  lemma NamingRowsAfter(st: Store, op: Op, r: Row)
    requires Writes(st, op) && r in AfterWrite(st, op).value.rows && r !in st.rows
    requires r.Record? || (r.Fact? && r.table == ObjectCaps)
    ensures !op.Drop? && r.name == TakenName(op)
  {
    if op.Rename? {
      assert r in MovedRows(st.rows, op);
    }
  }

  lemma NamesAfter(st: Store, op: Op, v: string)
    requires Writes(st, op)
    ensures NamesIn(AfterWrite(st, op).value, v) <= NamesAround(st, op, v)
  {
    var st' := AfterWrite(st, op).value;
    forall r: Row | r in st'.rows && r !in st.rows && (r.Record? || (r.Fact? && r.table == ObjectCaps))
      ensures !op.Drop? && r.name == TakenName(op)
    {
      NamingRowsAfter(st, op, r);
    }
  }

  lemma AroundSpelledOnce(st: Store, op: Op, v: string)
    requires Writes(st, op) && SpelledOnce(st)
    ensures OneSpelling(NamesAround(st, op, v))
  {
    SpellingKeepsOneSpelling(NamesIn(st, v), TakenName(op).path, true);
  }

  lemma FewerNames(names: set<Path>, some: set<Path>)
    requires OneSpelling(names) && some <= names
    ensures OneSpelling(some)
  {
  }

  /** A record write keeps every name spelled one way. */
  lemma WriteSpelledOnce(st: Store, op: Op)
    requires Writes(st, op) && SpelledOnce(st)
    ensures SpelledOnce(AfterWrite(st, op).value)
  {
    var st' := AfterWrite(st, op).value;
    forall v ensures OneSpelling(NamesIn(st', v)) {
      NamesAfter(st, op, v);
      AroundSpelledOnce(st, op, v);
      FewerNames(NamesAround(st, op, v), NamesIn(st', v));
    }
  }

  /** A record write keeps the store consistent and every name spelled one way. */
  lemma ExecSound(base: Store, tx: Tx, op: Op)
    requires Sound(base, tx)
    ensures Sound(base, Exec(tx, op))
  {
    if Writes(tx.store, op) {
      var st := tx.store;
      var st' := AfterWrite(st, op).value;
      match op {
        case Register(_, _, _, _, _, _) => RegisterWrites(st.rows, op);
        case Drop(n) => DropWrites(st, n);
        case Rename(n, _, _) => if RecordOf(Image(st.rows, n)) != {} { RenameWrites(st.rows, op); }
      }
      WriteSpelledOnce(st, op);
    }
  }

  lemma {:induction false} ExecAllSound(tx: Tx, ops: seq<Op>)
    requires tx.pending == NOTHING && Consistent(tx.store.rows) && SpelledOnce(tx.store)
    ensures Sound(tx.store, ExecAll(tx, ops))
  {
    if ops != [] {
      ExecAllSound(tx, ops[..|ops| - 1]);
      ExecSound(tx.store, ExecAll(tx, ops[..|ops| - 1]), ops[|ops| - 1]);
    }
  }

  // --- last in, first out --------------------------------------------------------------------------

  /** The store a step's undo meets while its own transaction alone wrote it. */
  ghost predicate Meets(base: Store, after: Store, later: Store, own: seq<int>) {
    && later.rows == after.rows && later.id == after.id
    && later.functions == after.functions && later.others == after.others
    && after.version <= later.version && AllOwn(own, base.version, later.version)
  }

  lemma OwnCounted(own: seq<int>, first: int, version: int, from: int)
    requires AllOwn(own, first, version) && first <= from <= version
    ensures version - from == CountOwn(own, from, version)
  {
    forall v | from < v <= version ensures v in own {
      assert own[v - first - 1] == v;
    }
    CountIsExact(own, from, version);
  }

  // The name a drop or a rename left is still free of other spellings when it is to come back.
  lemma NameNotTaken(st: Store, op: Op, later: Store)
    requires SpelledOnce(st) && Consistent(st.rows) && Writes(st, op)
    requires var st' := AfterWrite(st, op).value;
             later.rows == st'.rows && later.functions == st'.functions && later.others == st'.others
    ensures !NameIsTaken(later, WriteOf(st, op, AfterWrite(st, op).value))
  {
    var st' := AfterWrite(st, op).value;
    var w := WriteOf(st, op, st');
    WriteImages(st, op, st');
    forall i | 0 <= i < |w.names| && RecordOf(w.names[i].1.before) != {}
      ensures Spell(NamesIn(later, w.names[i].0.vcat), w.names[i].0.path, true).Spelled? {
      NameFree(st, op, later, w.names[i].0);
    }
  }

  lemma NameFree(st: Store, op: Op, later: Store, n: Name)
    requires SpelledOnce(st) && Writes(st, op) && RecordOf(Image(st.rows, n)) != {}
    requires var st' := AfterWrite(st, op).value;
             later.rows == st'.rows && later.functions == st'.functions && later.others == st'.others
    ensures Spell(NamesIn(later, n.vcat), n.path, true).Spelled?
  {
    var d :| d in RecordOf(Image(st.rows, n));
    var r :| r in Image(st.rows, n) && r.Record? && r.def == d;
    assert n.path in NamesIn(st, n.vcat);
    NamesAfter(st, op, n.vcat);
    AroundSpelledOnce(st, op, n.vcat);
    SpelledStays(NamesAround(st, op, n.vcat), NamesIn(later, n.vcat), n.path, true);
  }

  lemma UndoStepRestores(base: Store, tx: Tx, op: Op, later: Store, own: seq<int>)
    requires Sound(base, tx) && Writes(tx.store, op)
    requires Meets(base, AfterWrite(tx.store, op).value, later, own)
    requires Restorable(tx.store, op, AfterWrite(tx.store, op).value, TakesCreated(tx, op))
    ensures var st' := AfterWrite(tx.store, op).value;
            var step := Step(WriteOf(tx.store, op, st'), op.Rename?, TakesCreated(tx, op));
            var (done, own', outcome) := UndoStep(later, step, own);
            outcome == Undone && Meets(base, tx.store, done, own')
  {
    var st, st' := tx.store, AfterWrite(tx.store, op).value;
    var w := WriteOf(st, op, st');
    NameNotTaken(st, op, later);
    OwnCounted(own, base.version, later.version, st'.version);
    UndoRightAfter(st, op, st', later, own, TakesCreated(tx, op));
    RefusedChangesNothing(later, w, own, TakesCreated(tx, op));
  }

  lemma ExecAddsStep(tx: Tx, op: Op)
    requires Writes(tx.store, op)
    ensures var st' := AfterWrite(tx.store, op).value;
            && Exec(tx, op).store == st'
            && Exec(tx, op).pending.steps == tx.pending.steps + [Step(WriteOf(tx.store, op, st'), op.Rename?, TakesCreated(tx, op))]
  {
    WriteImages(tx.store, op, AfterWrite(tx.store, op).value);
  }

  /** Undoing the steps newest first, from any store that has the rows the run left and was written
      by this transaction alone: every step is undone and every row is back. */
  lemma {:induction false} LastInFirstOut(tx: Tx, ops: seq<Op>, later: Store, own: seq<int>)
    requires tx.pending == NOTHING && Consistent(tx.store.rows) && SpelledOnce(tx.store)
    requires AllRestorable(tx, ops)
    requires Meets(tx.store, ExecAll(tx, ops).store, later, own)
    ensures var (done, _, outcomes) := UndoAll(later, ExecAll(tx, ops).pending.steps, own);
            && done.rows == tx.store.rows
            && forall i :: 0 <= i < |outcomes| ==> outcomes[i] == Undone
  {
    if ops != [] {
      var before := ExecAll(tx, ops[..|ops| - 1]);
      var op := ops[|ops| - 1];
      if Writes(before.store, op) {
        ExecAllSound(tx, ops[..|ops| - 1]);
        ExecAddsStep(before, op);
        UndoStepRestores(tx.store, before, op, later, own);
        var steps := ExecAll(tx, ops).pending.steps;
        assert steps[..|steps| - 1] == before.pending.steps;
        var (done, own', _) := UndoStep(later, steps[|steps| - 1], own);
        LastInFirstOut(tx, ops[..|ops| - 1], done, own');
      } else {
        LastInFirstOut(tx, ops[..|ops| - 1], later, own);
      }
    }
  }

  /** For every sequence of creates, replaces, drops and renames of one transaction, nobody else
      writing: the rollback undoes every step and leaves every tracked row of the store as it was. */
  lemma RollbackRestores(tx: Tx, ops: seq<Op>)
    requires tx.pending == NOTHING && Consistent(tx.store.rows) && SpelledOnce(tx.store)
    requires AllRestorable(tx, ops)
    ensures var after := ExecAll(tx, ops);
            var (done, _, outcomes) := UndoAll(after.store, after.pending.steps, after.pending.own);
            && done.rows == tx.store.rows
            && forall i :: 0 <= i < |outcomes| ==> outcomes[i] == Undone
  {
    ExecAllSound(tx, ops);
    LastInFirstOut(tx, ops, ExecAll(tx, ops).store, ExecAll(tx, ops).pending.own);
  }
}
