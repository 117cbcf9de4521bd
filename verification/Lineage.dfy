/** What the lineage listener is told of a transaction's names, and what it is told after a rollback. */
module Lineage {
  import opened Names
  import opened PolicyRows
  import opened RecordStore
  import opened UndoRules
  import opened Rollback

  /** The names that have a record. */
  function Records(st: Store): set<Name> {
    set r | r in st.rows && r.Record? :: r.name
  }

  predicate Exists(st: Store, n: Name) {
    n in Records(st)
  }

  lemma RecordsShown(st: Store, n: Name)
    ensures Exists(st, n) <==> RecordOf(Image(st.rows, n)) != {}
  {
    RecordShown(Image(st.rows, n));
    if r :| r in st.rows && r.Record? && r.name == n {
      assert r in Image(st.rows, n);
    }
  }

  /** The names the listener was last told exist, after a record write: a registration tells nothing, a
      drop its DROP, a rename its DROP and - when a record moved - its CREATE. */
  function Told(known: set<Name>, st: Store, op: Op): set<Name> {
    match op
    case Register(_, _, _, _, _, _) => known
    case Drop(n) => known - {n}
    case Rename(n, to, _) => known - {n} + (if Exists(st, n) then {to} else {})
  }

  ghost function ToldAll(known: set<Name>, tx: Tx, ops: seq<Op>): set<Name> {
    if ops == [] then known else
    var before := ExecAll(tx, ops[..|ops| - 1]);
    var told := ToldAll(known, tx, ops[..|ops| - 1]);
    if Writes(before.store, ops[|ops| - 1]) then Told(told, before.store, ops[|ops| - 1]) else told
  }

  function Emplace(m: map<Name, bool>, n: Name, value: bool): map<Name, bool> {
    if n in m then m else m[n := value]
  }

  function EmplaceFound(m: map<Name, bool>, names: seq<(Name, Change)>): map<Name, bool> {
    if names == [] then m
    else Emplace(EmplaceFound(m, names[..|names| - 1]), names[|names| - 1].0, RecordOf(names[|names| - 1].1.before) != {})
  }

  /** What lineage was told by one step, on top of the steps before it. */
  function AnnounceStep(m: map<Name, bool>, step: Step): map<Name, bool> {
    if step.write.names == [] then m else
    var found := EmplaceFound(m, step.write.names);
    var (n, c) := step.write.names[0];
    if step.rename then
      if RecordOf(c.before) != {} && |step.write.names| > 1 then found[n := false][step.write.names[1].0 := true] else found
    else if RecordOf(c.before) != {} && RecordOf(c.after) == {} then found[n := false]
    else found
  }

  function Announced(steps: seq<Step>): map<Name, bool> {
    if steps == [] then map[] else AnnounceStep(Announced(steps[..|steps| - 1]), steps[|steps| - 1])
  }

  /** After the rollback each touched name is told what the store holds where that differs. */
  function Corrected(known: set<Name>, announced: map<Name, bool>, st: Store): set<Name> {
    known - (set n | n in announced && announced[n] && !Exists(st, n)) + (set n | n in announced && !announced[n] && Exists(st, n))
  }

  /** `announced` is what the listener was last told of each touched name; of the others it was told
      nothing, and their records are where they were. */
  ghost predicate InStep(base: set<Name>, known0: set<Name>, records: set<Name>, known: set<Name>, announced: map<Name, bool>) {
    && (forall n :: n in announced ==> (announced[n] <==> n in known))
    && (forall n :: n !in announced ==> (n in known <==> n in known0) && (n in records <==> n in base))
    && known <= records
  }

  lemma OneFound(m: map<Name, bool>, n: Name, c: Change)
    ensures EmplaceFound(m, [(n, c)]) == Emplace(m, n, RecordOf(c.before) != {})
  {
    assert [(n, c)][..0] == [];
    assert EmplaceFound(m, [(n, c)][..0]) == m;
  }

  lemma TwoFound(m: map<Name, bool>, n: Name, c: Change, o: Name, d: Change)
    ensures EmplaceFound(m, [(n, c), (o, d)])
         == Emplace(Emplace(m, n, RecordOf(c.before) != {}), o, RecordOf(d.before) != {})
  {
    assert [(n, c), (o, d)][..1] == [(n, c)];
    OneFound(m, n, c);
  }

  /** What a write does to the names that have a record. */
  lemma RecordsAfter(st: Store, op: Op)
    requires Consistent(st.rows) && AfterWrite(st, op).Some? && (op.Rename? ==> op.name != op.to)
    ensures Records(AfterWrite(st, op).value)
         == match op
            case Register(n, _, _, _, _, _) => Records(st) + {n}
            case Drop(n) => Records(st) - {n}
            case Rename(n, to, _) => if Exists(st, n) then Records(st) - {n} + {to} else Records(st)
    ensures op.Rename? && Exists(st, op.name) ==> !Exists(st, op.to)
  {
    var st' := AfterWrite(st, op).value;
    RecordsShown(st, op.name);
    match op
    case Register(n, def, origin, rest, _, _) =>
      assert Record(n, def, origin, rest) in st'.rows;
      forall r: Row | r in st.rows && r.Record? && r.name != n ensures r.name in Records(st') {
        assert r in st'.rows;
      }
    case Drop(n) =>
      forall r: Row | r in st.rows && r.Record? && r.name != n ensures r.name in Records(st') {
        assert r in st'.rows;
      }
    case Rename(n, to, _) =>
      RecordsShown(st, to);
      if Exists(st, n) {
        RenameWrites(st.rows, op);
        RecordsShown(st', to);
        forall r: Row | r.Record? && r.name != n && r.name != to ensures r in st.rows <==> r in st'.rows {
        }
        RenamedRecords(st, st', n, to);
      }
  }

  lemma RenamedRecords(st: Store, st': Store, n: Name, to: Name)
    requires n != to && Exists(st', to) && !Exists(st, to)
    requires forall r: Row :: r.Record? && r.name != n && r.name != to ==> (r in st.rows <==> r in st'.rows)
    requires forall r: Row :: r in st'.rows && r.Record? ==> r.name != n
    ensures Records(st') == Records(st) - {n} + {to}
  {
    forall m | m in Records(st') ensures m in Records(st) - {n} + {to} {
      var r :| r in st'.rows && r.Record? && r.name == m;
      assert m == to || r in st.rows;
    }
    forall m | m in Records(st) - {n} ensures m in Records(st') {
      var r :| r in st.rows && r.Record? && r.name == m;
      assert m != to;
      assert r in st'.rows;
    }
  }

  lemma AnnounceNext(tx: Tx, op: Op)
    requires Writes(tx.store, op)
    ensures var st' := AfterWrite(tx.store, op).value;
            var step := Step(WriteOf(tx.store, op, st'), op.Rename?, TakesCreated(tx, op));
            Announced(Exec(tx, op).pending.steps) == AnnounceStep(Announced(tx.pending.steps), step)
  {
    ExecAddsStep(tx, op);
    var steps := Exec(tx, op).pending.steps;
    assert steps[..|steps| - 1] == tx.pending.steps;
  }

  lemma AnnounceOne(tx: Tx, op: Op)
    requires Consistent(tx.store.rows) && Writes(tx.store, op) && !op.Rename?
    ensures Announced(Exec(tx, op).pending.steps)
         == (var m := Emplace(Announced(tx.pending.steps), op.name, Exists(tx.store, op.name));
             if op.Drop? then m[op.name := false] else m)
  {
    var st, st' := tx.store, Exec(tx, op).store;
    AnnounceNext(tx, op);
    WriteImages(st, op, st');
    OneFound(Announced(tx.pending.steps), op.name, ChangeOf(st.rows, st'.rows, op.name));
    RecordsShown(st, op.name);
    if op.Register? {
      RegisterWrites(st.rows, op);
    } else {
      DropWrites(st, op.name);
    }
  }

  lemma AnnounceRename(tx: Tx, op: Op)
    requires Consistent(tx.store.rows) && Writes(tx.store, op) && op.Rename?
    ensures Announced(Exec(tx, op).pending.steps)
         == (var m := Emplace(Emplace(Announced(tx.pending.steps), op.name, Exists(tx.store, op.name)), op.to, Exists(tx.store, op.to));
             if Exists(tx.store, op.name) then m[op.name := false][op.to := true] else m)
  {
    var st, st' := tx.store, Exec(tx, op).store;
    AnnounceNext(tx, op);
    WriteImages(st, op, st');
    TwoFound(Announced(tx.pending.steps), op.name, ChangeOf(st.rows, st'.rows, op.name), op.to, ChangeOf(st.rows, st'.rows, op.to));
    RecordsShown(st, op.name);
    RecordsShown(st, op.to);
  }

  // One name's record comes or goes, told so or not.
  lemma OneInStep(base: set<Name>, records: set<Name>, known: set<Name>, m: map<Name, bool>, n: Name)
    requires InStep(base, base, records, known, m)
    ensures var found := Emplace(m, n, n in records);
            && InStep(base, base, records, known, found)
            && InStep(base, base, records + {n}, known, found)
            && InStep(base, base, records - {n}, known - {n}, found[n := false])
  {
  }

  lemma MoveInStep(base: set<Name>, records: set<Name>, known: set<Name>, m: map<Name, bool>, n: Name, to: Name)
    requires InStep(base, base, records, known, m) && n != to && n in m && to in m
    ensures InStep(base, base, records - {n} + {to}, known - {n} + {to}, m[n := false][to := true])
  {
  }

  lemma StepStaysInStep(base: Store, tx: Tx, op: Op, known: set<Name>)
    requires Sound(base, tx) && Writes(tx.store, op)
    requires InStep(Records(base), Records(base), Records(tx.store), known, Announced(tx.pending.steps))
    ensures InStep(Records(base), Records(base), Records(Exec(tx, op).store), Told(known, tx.store, op), Announced(Exec(tx, op).pending.steps))
  {
    var all, records, m := Records(base), Records(tx.store), Announced(tx.pending.steps);
    RecordsAfter(tx.store, op);
    OneInStep(all, records, known, m, op.name);
    if op.Rename? {
      AnnounceRename(tx, op);
      var found := Emplace(m, op.name, op.name in records);
      OneInStep(all, records, known, found, op.to);
      MoveInStep(all, records, known, Emplace(found, op.to, op.to in records), op.name, op.to);
      if op.name !in records {
        assert known - {op.name} == known;
        assert Told(known, tx.store, op) == known;
      }
    } else {
      AnnounceOne(tx, op);
    }
  }

  lemma {:induction false} RunStaysInStep(tx: Tx, ops: seq<Op>, known0: set<Name>)
    requires tx.pending == NOTHING && Consistent(tx.store.rows) && SpelledOnce(tx.store) && Records(tx.store) == known0
    ensures InStep(Records(tx.store), known0, Records(ExecAll(tx, ops).store), ToldAll(known0, tx, ops), Announced(ExecAll(tx, ops).pending.steps))
  {
    if ops != [] {
      RunStaysInStep(tx, ops[..|ops| - 1], known0);
      ExecAllSound(tx, ops[..|ops| - 1]);
      var before := ExecAll(tx, ops[..|ops| - 1]);
      if Writes(before.store, ops[|ops| - 1]) {
        StepStaysInStep(tx.store, before, ops[|ops| - 1], ToldAll(known0, tx, ops[..|ops| - 1]));
      }
    }
  }

  /** With no other writer while the transaction wrote, and whatever store `done` its undos leave -
      whichever of them were refused: what the listener was last told of each touched name is whether
      its record exists, and it was told nothing of any other name. */
  lemma LineageFollowsRollback(tx: Tx, ops: seq<Op>, known: set<Name>, done: Store)
    requires tx.pending == NOTHING && Consistent(tx.store.rows) && SpelledOnce(tx.store) && Records(tx.store) == known
    ensures var announced := Announced(ExecAll(tx, ops).pending.steps);
            var told := Corrected(ToldAll(known, tx, ops), announced, done);
            && (forall n :: n in announced ==> (n in told <==> Exists(done, n)))
            && (forall n :: n !in announced ==> (n in told <==> n in known))
  {
    RunStaysInStep(tx, ops, known);
  }
}
