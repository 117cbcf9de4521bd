/** The policy store as the record writers see it, what each writer does to it, and how one record
    write is taken back. */
module RecordStore {
  import opened Names
  import opened PolicyRows

  /** An `object_columns` row of a function: not a relation's, but a rename moves it with the name. */
  datatype FunctionColumn = FunctionColumn(name: Name, kind: string, key: string, data: string)

  /** `functions` are the names with a function, `others` the names schemas and schema grants hold. */
  datatype Store = Store(
    id: string, version: int, rows: Rows,
    functionColumns: set<FunctionColumn>, functions: set<Name>, others: set<Name>)

  /** Every stored name of a catalog: what a new name is spelled against. */
  function NamesIn(st: Store, vcat: string): set<Path> {
    (set r | r in st.rows && (r.Record? || (r.Fact? && r.table == ObjectCaps)) && r.name.vcat == vcat :: r.name.path)
    + (set n | n in st.functions + st.others && n.vcat == vcat :: n.path)
  }

  // Grant rows stay with a function of the same name.
  predicate Spared(st: Store, n: Name, t: Table) {
    IsGrants(t) && n in st.functions
  }

  // --- the writers ---------------------------------------------------------------------------------

  /** A record write a principal's DDL performs. `facts` are what the registration's probes found. */
  datatype Op =
    | Register(name: Name, def: Definition, origin: Option<string>, rest: string, facts: Rows, clearsMark: bool)
    | Drop(name: Name)
    | Rename(name: Name, to: Name, phys: Option<string>)

  function OpNames(op: Op): seq<Name> {
    if op.Rename? then [op.name, op.to] else [op.name]
  }

  predicate ProbedFor(facts: Rows, n: Name) {
    && (forall f :: f in facts ==> f.Fact? && f.name == n && IsOwn(Facts(f.table)))
    && (forall f, g :: f in facts && g in facts && KeyOf(f) == KeyOf(g) ==> f == g)
  }

  /** The rows a registration rewrites: the record, its columns and facts, its key - and, for a created
      table, the mark that the name was dropped on purpose. */
  predicate RegisterRewrites(op: Op, r: Row)
    requires op.Register?
  {
    match r
    case Record(m, _, _, _) => m == op.name
    case Fact(t, m, _, _) => m == op.name && t in {ObjectColumns, RelationColumns, RelationTypes, Keys}
    case Mark(m) => m == op.name && op.clearsMark && |op.name.path| > 1
    case _ => false
  }

  function Registered(rows: Rows, op: Op): Rows
    requires op.Register?
  {
    (set r | r in rows && !RegisterRewrites(op, r)) + {Record(op.name, op.def, op.origin, op.rest)} + op.facts
  }

  predicate DropTakes(st: Store, n: Name, r: Row) {
    BelongsTo(st.rows, r, n) && TableOf(r) != SchemaDropped && !Spared(st, n, TableOf(r))
  }

  // A dropped record of an expansion is remembered, so that a refresh does not bring it back.
  function DropMarks(rows: Rows, n: Name): Rows {
    if |n.path| > 1 && exists r :: r in rows && r.Record? && r.name == n && r.origin.Some? then {Mark(n)} else {}
  }

  function Dropped(st: Store, n: Name): Rows {
    (set r | r in st.rows && !DropTakes(st, n, r)) + DropMarks(st.rows, n)
  }

  predicate RenameMoves(op: Op, r: Row)
    requires op.Rename?
  {
    (r.Record? || (r.Fact? && r.table in {RelationTypes, ObjectColumns, ColumnComments})) && r.name == op.name
  }

  function Moved(op: Op, r: Row): Row
    requires op.Rename? && RenameMoves(op, r)
  {
    match r
    case Record(_, def, origin, rest) =>
      Record(op.to, if op.phys.Some? then def.(phys := op.phys.value) else def, origin, rest)
    case Fact(t, _, k, data) => Fact(t, op.to, k, data)
    case _ => r
  }

  function MovedRows(rows: Rows, op: Op): Rows
    requires op.Rename?
  {
    set r | r in rows && RenameMoves(op, r) :: Moved(op, r)
  }

  function StayingRows(rows: Rows, op: Op): Rows
    requires op.Rename?
  {
    set r | r in rows && !RenameMoves(op, r)
  }

  function Renamed(rows: Rows, op: Op): Rows
    requires op.Rename?
  {
    (set r | r in StayingRows(rows, op) && !(r == Mark(op.to) && |op.to.path| > 1)) + MovedRows(rows, op)
  }

  /** Some row of `inserted` meets the primary key of another: the statement, so the write, fails. */
  predicate Collides(kept: Rows, inserted: Rows) {
    || (exists i, s :: i in inserted && s in kept && KeyOf(i) == KeyOf(s))
    || (exists i, j :: i in inserted && j in inserted && i != j && KeyOf(i) == KeyOf(j))
  }

  function MovedColumns(st: Store, op: Op): set<FunctionColumn>
    requires op.Rename?
  {
    set c | c in st.functionColumns && c.name == op.name :: c.(name := op.to)
  }

  predicate ColumnsCollide(st: Store, op: Op)
    requires op.Rename?
  {
    exists c, d :: c in MovedColumns(st, op) && d in st.functionColumns && d.name != op.name
                   && c.name == d.name && c.kind == d.kind && c.key == d.key
  }

  /** The store after a record write, or None when the write throws and leaves it alone. */
  function AfterWrite(st: Store, op: Op): Option<Store> {
    match op
    case Register(_, _, _, _, facts, _) =>
      if !ProbedFor(facts, op.name) then None
      else Some(st.(version := st.version + 1, rows := Registered(st.rows, op)))
    case Drop(n) =>
      if RecordOf(Image(st.rows, n)) == {} then None
      else Some(st.(version := st.version + 1, rows := Dropped(st, n)))
    case Rename(n, to, _) =>
      if RecordOf(Image(st.rows, n)) == {} then Some(st.(version := st.version + 1))
      else if Collides(StayingRows(st.rows, op), MovedRows(st.rows, op)) || ColumnsCollide(st, op) then None
      else Some(st.(
        version := st.version + 1,
        rows := Renamed(st.rows, op),
        functionColumns := (set c | c in st.functionColumns && c.name != op.name) + MovedColumns(st, op)))
  }

  /** What a record write keeps for its undo: the store it wrote, the version it committed, and the
      images of its names (a rename: the old, then the new). */
  datatype RecordWrite = RecordWrite(store: string, version: int, names: seq<(Name, Change)>)

  function WriteOf(st: Store, op: Op, st': Store): RecordWrite {
    RecordWrite(st.id, st'.version,
                seq(|OpNames(op)|, i requires 0 <= i < |OpNames(op)| => (OpNames(op)[i], ChangeOf(st.rows, st'.rows, OpNames(op)[i]))))
  }

  // --- the undo ------------------------------------------------------------------------------------

  datatype Outcome = Undone | ChangedSince | WrittenSince | OtherStore | Failed | NameTaken

  datatype Judged = Refused(why: Outcome) | Rewrites(rows: Rows)

  predicate ChangedAnything(write: RecordWrite) {
    exists i :: 0 <= i < |write.names| && write.names[i].1.before != write.names[i].1.after
  }

  /** The record `now` is still the one an image shows, with the facts probed from its source. */
  predicate SameRecord(now: Rows, image: Rows) {
    && RecordOf(now) != {}
    && RecordOf(now) == RecordOf(image)
    && OfTable(now, Facts(ObjectColumns)) == OfTable(image, Facts(ObjectColumns))
    && OfTable(now, Facts(RelationTypes)) == OfTable(image, Facts(RelationTypes))
  }

  function Replace(kept: Rows, inserted: Rows): Judged {
    if Collides(kept, inserted) then Refused(Failed) else Rewrites(kept + inserted)
  }

  predicate Takes(st: Store, rows: Rows, n: Name, r: Row) {
    BelongsTo(rows, r, n) && !Spared(st, n, TableOf(r))
  }

  /** A name's rows taken as a drop takes them, then the tables the change wrote as it found them. */
  function TakeName(st: Store, rows: Rows, n: Name, c: Change): Judged {
    Replace(set r | r in rows && !Takes(st, rows, n, r),
            set r | r in c.before && !Spared(st, n, TableOf(r)) && Changed(c, TableOf(r)))
  }

  /** A name's tables the change wrote, put back as they were before it. */
  function PutBack(rows: Rows, n: Name, c: Change): Judged {
    Replace(set r | r in rows && !(BelongsTo(rows, r, n) && Changed(c, TableOf(r))),
            set r | r in c.before && Changed(c, TableOf(r)))
  }

  predicate IsCreate(write: RecordWrite) {
    |write.names| == 1 && RecordOf(write.names[0].1.before) == {} && RecordOf(write.names[0].1.after) != {}
  }

  predicate IsDrop(write: RecordWrite) {
    |write.names| == 1 && RecordOf(write.names[0].1.before) != {} && RecordOf(write.names[0].1.after) == {}
  }

  /** How many of the transaction's own versions lie in (after, upTo]. */
  function CountOwn(own: seq<int>, after: int, upTo: int): nat {
    if own == [] then 0
    else CountOwn(own[..|own| - 1], after, upTo) + (if after < own[|own| - 1] <= upTo then 1 else 0)
  }

  predicate ImagesMatch(rows: Rows, write: RecordWrite) {
    forall i :: 0 <= i < |write.names| ==> Image(rows, write.names[i].0) == write.names[i].1.after
  }

  function PutBackAll(rows: Rows, names: seq<(Name, Change)>): (r: Judged)
    ensures r.Refused? ==> r.why == Failed
    decreases |names|
  {
    if names == [] then Rewrites(rows) else
    var first := PutBack(rows, names[0].0, names[0].1);
    if first.Refused? then first else PutBackAll(first.rows, names[1..])
  }

  /** The undo of one record write, judged inside its own transaction. */
  function UndoRows(st: Store, write: RecordWrite, own: seq<int>, takesCreated: bool): Judged
    requires write.names != []
  {
    var rows := st.rows;
    if IsCreate(write) then
      var (n, c) := write.names[0];
      if !SameRecord(Image(rows, n), c.after) then Refused(ChangedSince) else TakeName(st, rows, n, c)
    else if takesCreated && |write.names| == 2 then
      var (from, was) := write.names[0];
      var (n, c) := write.names[1];
      if !SameRecord(Image(rows, n), c.after) then Refused(ChangedSince) else
      var taken := TakeName(st, rows, n, c);
      if taken.Refused? || RecordOf(Image(rows, from)) != {} then taken else PutBack(taken.rows, from, was)
    else if IsDrop(write) && st.version - write.version != CountOwn(own, write.version, st.version) then
      Refused(WrittenSince)
    else if !ImagesMatch(rows, write) then Refused(ChangedSince)
    else PutBackAll(rows, write.names)
  }

  /** One record write taken back: the store, the transaction's own versions and the outcome. */
  function UndoWrite(st: Store, write: RecordWrite, own: seq<int>, takesCreated: bool): (Store, seq<int>, Outcome) {
    if st.id != write.store then (st, own, OtherStore)
    else if !ChangedAnything(write) then (st, own, Undone)
    else match UndoRows(st, write, own, takesCreated)
      case Refused(why) => (st, own, why)
      case Rewrites(rows) => (st.(rows := rows, version := st.version + 1), own + [st.version + 1], Undone)
  }
}
