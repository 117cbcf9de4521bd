/** The rows of the policy store that belong to one relation name, table by table, and the images a
    record write keeps of them. */
module PolicyRows {
  import opened Names

  datatype Option<+T> = None | Some(value: T)

  /** A name of a virtual catalog. */
  datatype Name = Name(vcat: string, path: Path)

  /** The tables whose rows hang on a relation by its name alone. */
  datatype FactTable = ObjectColumns | RelationColumns | RelationTypes | ColumnComments | Keys | ObjectCaps | GrantColumns

  datatype Table = Relations | Facts(of: FactTable) | ReferenceColumns | References | SchemaDropped

  /** The tracked tables, in the order a drop clears them: a reference's columns are found through the
      reference, so they go first. */
  const TABLES: seq<Table> := [
    Relations, Facts(ObjectColumns), Facts(RelationColumns), Facts(RelationTypes), Facts(ColumnComments),
    Facts(Keys), Facts(ObjectCaps), Facts(GrantColumns), ReferenceColumns, References, SchemaDropped]

  function Position(t: Table): (p: nat)
    ensures p < |TABLES| && TABLES[p] == t
  {
    match t
    case Relations => 0
    case Facts(ObjectColumns) => 1
    case Facts(RelationColumns) => 2
    case Facts(RelationTypes) => 3
    case Facts(ColumnComments) => 4
    case Facts(Keys) => 5
    case Facts(ObjectCaps) => 6
    case Facts(GrantColumns) => 7
    case ReferenceColumns => 8
    case References => 9
    case SchemaDropped => 10
  }

  // A same-named function shares the rows of these two tables.
  predicate IsGrants(t: Table) {
    t == Facts(ObjectCaps) || t == Facts(GrantColumns)
  }

  // The facts a write of the record probes from its source.
  predicate IsOwn(t: Table) {
    t == Facts(ObjectColumns) || t == Facts(RelationTypes)
  }

  /** A record's form, physical name and body. */
  datatype Definition = Definition(form: string, phys: string, viewSql: string)

  /** One stored row. `key` is what tells rows of one name apart in their table's primary key. The
      `object_columns` and `keys` rows here are those of kind 'relation'. */
  datatype Row =
    | Record(name: Name, def: Definition, origin: Option<string>, rest: string)
    | Fact(table: FactTable, name: Name, key: string, data: string)
    | RefColumn(vcat: string, id: string, key: string, data: string)
    | Ref(vcat: string, id: string, from: Path, to: Path, toFunction: bool, data: string)
    | Mark(name: Name)

  type Rows = set<Row>

  function TableOf(r: Row): Table {
    match r
    case Record(_, _, _, _) => Relations
    case Fact(t, _, _, _) => Facts(t)
    case RefColumn(_, _, _, _) => ReferenceColumns
    case Ref(_, _, _, _, _, _) => References
    case Mark(_) => SchemaDropped
  }

  /** The primary key of a row, with its table. */
  datatype RowKey = RowKey(table: Table, vcat: string, path: Path, id: string, key: string)

  function KeyOf(r: Row): RowKey {
    match r
    case Record(n, _, _, _) => RowKey(Relations, n.vcat, n.path, "", "")
    case Fact(t, n, k, _) => RowKey(Facts(t), n.vcat, n.path, "", k)
    case RefColumn(v, id, k, _) => RowKey(ReferenceColumns, v, [], id, k)
    case Ref(v, id, _, _, _, _) => RowKey(References, v, [], id, "")
    case Mark(n) => RowKey(SchemaDropped, n.vcat, n.path, "", "")
  }

  /** Primary keys are unique, and a reference's columns have their reference. */
  ghost predicate Consistent(rows: Rows) {
    && (forall r, s :: r in rows && s in rows && KeyOf(r) == KeyOf(s) ==> r == s)
    && (forall c :: c in rows && c.RefColumn? ==> HasReference(rows, c))
  }

  ghost predicate HasReference(rows: Rows, c: Row)
    requires c.RefColumn?
  {
    exists f :: f in rows && f.Ref? && f.vcat == c.vcat && f.id == c.id
  }

  // A reference's end at a function of the same name is the function's.
  predicate EndsAt(f: Row, n: Name)
    requires f.Ref?
  {
    f.vcat == n.vcat && (f.from == n.path || (f.to == n.path && !f.toFunction))
  }

  /** The row is one of `n`'s, where `rows` is the whole store: the columns of a reference are a name's
      through the reference. */
  predicate BelongsTo(rows: Rows, r: Row, n: Name) {
    match r
    case Record(m, _, _, _) => m == n
    case Fact(_, m, _, _) => m == n
    case Mark(m) => m == n
    case Ref(_, _, _, _, _, _) => EndsAt(r, n)
    case RefColumn(v, id, _, _) => exists f :: f in rows && f.Ref? && f.vcat == v && f.id == id && EndsAt(f, n)
  }

  /** The rows of `n` - an image. */
  function Image(rows: Rows, n: Name): Rows {
    set r | r in rows && BelongsTo(rows, r, n)
  }

  function OfTable(rows: Rows, t: Table): Rows {
    set r | r in rows && TableOf(r) == t
  }

  /** The record an image shows - empty when the name has none. */
  function RecordOf(image: Rows): set<Definition> {
    set r | r in image && r.Record? :: r.def
  }

  ghost predicate HasRecord(image: Rows) {
    exists r :: r in image && r.Record?
  }

  /** What one record write did to a name: its rows before and after. */
  datatype Change = Change(before: Rows, after: Rows)

  predicate Changed(c: Change, t: Table) {
    OfTable(c.before, t) != OfTable(c.after, t)
  }

  function ChangeOf(rows: Rows, rows': Rows, n: Name): Change {
    Change(Image(rows, n), Image(rows', n))
  }

  lemma RecordShown(image: Rows)
    ensures RecordOf(image) == {} <==> !HasRecord(image)
  {
    if r :| r in image && r.Record? {
      assert r.def in RecordOf(image);
    }
  }
}
