/** An edit of the identity tables as statements: what is gone is deleted, what is new is inserted, and a
    changed row is both. */
module IdentityWrite {
  import opened PolicyRows

  datatype IdentityTable = Mappings | Clients | Issuers

  /** A row: the key its statement names, and all its values. */
  datatype IdRow = IdRow(table: IdentityTable, key: string, values: string)

  type Db = set<IdRow>

  datatype Statement = Delete(table: IdentityTable, key: string) | Insert(row: IdRow)

  predicate SameKey(a: IdRow, b: IdRow) {
    a.table == b.table && a.key == b.key
  }

  /** A statement's effect; an insert that meets its key fails. */
  ghost function Exec(db: Db, st: Statement): Option<Db> {
    match st
    case Delete(table, key) => Some(set r | r in db && !(r.table == table && r.key == key))
    case Insert(row) => if exists r :: r in db && SameKey(r, row) then None else Some(db + {row})
  }

  ghost function ExecEach(db: Db, sts: seq<Statement>): Option<Db> {
    if sts == [] then Some(db) else
    match ExecEach(db, sts[..|sts| - 1])
    case None => None
    case Some(before) => Exec(before, sts[|sts| - 1])
  }

  function RowsOf(rows: seq<IdRow>): Db {
    set r | r in rows
  }

  predicate HasValues(rows: seq<IdRow>, values: string) {
    exists i :: 0 <= i < |rows| && rows[i].values == values
  }

  function Gone(oldRows: seq<IdRow>, newRows: seq<IdRow>): seq<Statement> {
    if oldRows == [] then [] else
    var r := oldRows[|oldRows| - 1];
    Gone(oldRows[..|oldRows| - 1], newRows) + if HasValues(newRows, r.values) then [] else [Delete(r.table, r.key)]
  }

  function Fresh(oldRows: seq<IdRow>, newRows: seq<IdRow>): seq<Statement> {
    if newRows == [] then [] else
    var r := newRows[|newRows| - 1];
    Fresh(oldRows, newRows[..|newRows| - 1]) + if HasValues(oldRows, r.values) then [] else [Insert(r)]
  }

  lemma GoneOneMore(oldRows: seq<IdRow>, newRows: seq<IdRow>, i: nat)
    requires i < |oldRows|
    ensures Gone(oldRows[..i + 1], newRows)
         == Gone(oldRows[..i], newRows) + if HasValues(newRows, oldRows[i].values) then [] else [Delete(oldRows[i].table, oldRows[i].key)]
  {
    assert oldRows[..i + 1][..i] == oldRows[..i];
  }

  lemma FreshOneMore(oldRows: seq<IdRow>, newRows: seq<IdRow>, i: nat)
    requires i < |newRows|
    ensures Fresh(oldRows, newRows[..i + 1])
         == Fresh(oldRows, newRows[..i]) + if HasValues(oldRows, newRows[i].values) then [] else [Insert(newRows[i])]
  {
    assert newRows[..i + 1][..i] == newRows[..i];
  }

  // The values of a table's rows, to look a row up by.
  method ValuesOf(rows: seq<IdRow>) returns (values: multiset<string>)
    ensures forall v :: v in values <==> HasValues(rows, v)
  {
    values := multiset{};
    for i := 0 to |rows|
      invariant forall v :: v in values <==> HasValues(rows[..i], v)
    {
      assert rows[..i + 1] == rows[..i] + [rows[i]];
      OneMore(rows[..i], rows[i]);
      values := values + multiset{rows[i].values};
    }
    assert rows[..|rows|] == rows;
  }

  /** One table's difference, appended to the statements so far. */
  method DiffRows(oldRows: seq<IdRow>, newRows: seq<IdRow>, deletes: seq<Statement>, inserts: seq<Statement>)
    returns (deletes': seq<Statement>, inserts': seq<Statement>)
    ensures deletes' == deletes + Gone(oldRows, newRows)
    ensures inserts' == inserts + Fresh(oldRows, newRows)
  {
    var had := ValuesOf(oldRows);
    var kept := ValuesOf(newRows);
    deletes', inserts' := deletes, inserts;
    assert oldRows[..|oldRows|] == oldRows && newRows[..|newRows|] == newRows;
    for i := 0 to |oldRows|
      invariant deletes' == deletes + Gone(oldRows[..i], newRows)
    {
      GoneOneMore(oldRows, newRows, i);
      if oldRows[i].values !in kept {
        deletes' := deletes' + [Delete(oldRows[i].table, oldRows[i].key)];
      }
    }
    for i := 0 to |newRows|
      invariant inserts' == inserts + Fresh(oldRows, newRows[..i])
    {
      FreshOneMore(oldRows, newRows, i);
      if newRows[i].values !in had {
        inserts' := inserts' + [Insert(newRows[i])];
      }
    }
  }

  lemma OneMore(rows: seq<IdRow>, r: IdRow)
    ensures forall v :: HasValues(rows + [r], v) <==> HasValues(rows, v) || r.values == v
  {
    forall v | HasValues(rows, v) || r.values == v ensures HasValues(rows + [r], v) {
      if HasValues(rows, v) {
        var i :| 0 <= i < |rows| && rows[i].values == v;
        assert (rows + [r])[i].values == v;
      } else {
        assert (rows + [r])[|rows|].values == v;
      }
    }
  }

  datatype Contents = Contents(mappings: seq<IdRow>, clients: seq<IdRow>, issuers: seq<IdRow>)

  function All(c: Contents): seq<IdRow> {
    c.mappings + c.clients + c.issuers
  }

  lemma NothingBefore(sts: seq<Statement>)
    ensures [] + sts == sts
  {
  }

  /** Every delete before any insert. */
  method EditStatements(before: Contents, after: Contents) returns (sts: seq<Statement>)
    ensures sts == Deletes(before, after) + Inserts(before, after)
  {
    var deletes, inserts := [], [];
    NothingBefore(Gone(before.mappings, after.mappings));
    NothingBefore(Fresh(before.mappings, after.mappings));
    deletes, inserts := DiffRows(before.mappings, after.mappings, deletes, inserts);
    deletes, inserts := DiffRows(before.clients, after.clients, deletes, inserts);
    deletes, inserts := DiffRows(before.issuers, after.issuers, deletes, inserts);
    sts := deletes + inserts;
  }

  function Deletes(before: Contents, after: Contents): seq<Statement> {
    Gone(before.mappings, after.mappings) + Gone(before.clients, after.clients) + Gone(before.issuers, after.issuers)
  }

  function Inserts(before: Contents, after: Contents): seq<Statement> {
    Fresh(before.mappings, after.mappings) + Fresh(before.clients, after.clients) + Fresh(before.issuers, after.issuers)
  }

  /** The rows of one table, each key once, under a primary key that is part of the values. */
  ghost predicate TableRows(rows: seq<IdRow>, table: IdentityTable) {
    && (forall i :: 0 <= i < |rows| ==> rows[i].table == table)
    && (forall i, j :: 0 <= i < j < |rows| ==> rows[i].key != rows[j].key)
  }

  ghost predicate KeyInValues(a: seq<IdRow>, b: seq<IdRow>) {
    forall x, y :: x in a && y in b && x.values == y.values ==> x.key == y.key
  }

  ghost predicate Proper(c: Contents) {
    TableRows(c.mappings, Mappings) && TableRows(c.clients, Clients) && TableRows(c.issuers, Issuers)
  }

  ghost predicate Comparable(a: Contents, b: Contents) {
    KeyInValues(a.mappings, b.mappings) && KeyInValues(a.clients, b.clients) && KeyInValues(a.issuers, b.issuers)
  }

  lemma {:induction false} GoneMeaning(oldRows: seq<IdRow>, newRows: seq<IdRow>, st: Statement)
    ensures st in Gone(oldRows, newRows) <==> exists r :: r in oldRows && !HasValues(newRows, r.values) && st == Delete(r.table, r.key)
  {
    if oldRows != [] {
      var n := |oldRows| - 1;
      GoneMeaning(oldRows[..n], newRows, st);
      assert oldRows == oldRows[..n] + [oldRows[n]];
    }
  }

  lemma {:induction false} FreshMeaning(oldRows: seq<IdRow>, newRows: seq<IdRow>, st: Statement)
    ensures st in Fresh(oldRows, newRows) <==> exists r :: r in newRows && !HasValues(oldRows, r.values) && st == Insert(r)
  {
    if newRows != [] {
      var n := |newRows| - 1;
      FreshMeaning(oldRows, newRows[..n], st);
      assert newRows == newRows[..n] + [newRows[n]];
    }
  }

  ghost predicate AllDeletes(sts: seq<Statement>) {
    forall i :: 0 <= i < |sts| ==> sts[i].Delete?
  }

  ghost function Surviving(db: Db, sts: seq<Statement>): Db {
    set r | r in db && Delete(r.table, r.key) !in sts
  }

  lemma {:induction false} DeletesRun(db: Db, sts: seq<Statement>)
    requires AllDeletes(sts)
    ensures ExecEach(db, sts) == Some(Surviving(db, sts))
  {
    if sts == [] {
      assert Surviving(db, sts) == db;
    } else {
      var n := |sts| - 1;
      DeletesRun(db, sts[..n]);
      assert sts == sts[..n] + [sts[n]];
      assert Exec(Surviving(db, sts[..n]), sts[n]).value == Surviving(db, sts);
    }
  }

  /** Inserts whose keys are new to the table and to each other. */
  ghost predicate NewKeys(db: Db, sts: seq<Statement>) {
    && (forall i :: 0 <= i < |sts| ==> sts[i].Insert?)
    && (forall i, r :: 0 <= i < |sts| && r in db ==> !SameKey(r, sts[i].row))
    && (forall i, j :: 0 <= i < j < |sts| ==> !SameKey(sts[i].row, sts[j].row))
  }

  ghost function Inserted(sts: seq<Statement>): Db {
    set st | st in sts && st.Insert? :: st.row
  }

  lemma InsertedOneMore(sts: seq<Statement>)
    requires sts != [] && sts[|sts| - 1].Insert?
    ensures Inserted(sts) == Inserted(sts[..|sts| - 1]) + {sts[|sts| - 1].row}
  {
    assert sts == sts[..|sts| - 1] + [sts[|sts| - 1]];
  }

  // The last of the inserts meets no key of the rows before it.
  lemma MeetsNoKey(db: Db, first: seq<Statement>, last: Statement)
    requires last.Insert? && NewKeys(db, first + [last])
    ensures forall r :: r in db + Inserted(first) ==> !SameKey(r, last.row)
  {
    var sts := first + [last];
    assert sts[|first|] == last;
    forall r | r in Inserted(first) ensures !SameKey(r, last.row) {
      var st :| st in first && st.Insert? && st.row == r;
      var i :| 0 <= i < |first| && first[i] == st;
      assert sts[i] == st;
    }
  }

  lemma {:induction false} InsertsRun(db: Db, sts: seq<Statement>)
    requires NewKeys(db, sts)
    ensures ExecEach(db, sts) == Some(db + Inserted(sts))
  {
    if sts == [] {
      assert db + Inserted(sts) == db;
    } else {
      var n := |sts| - 1;
      assert forall i :: 0 <= i < n ==> sts[..n][i] == sts[i];
      InsertsRun(db, sts[..n]);
      assert sts == sts[..n] + [sts[n]];
      MeetsNoKey(db, sts[..n], sts[n]);
      InsertedOneMore(sts);
      assert db + Inserted(sts[..n]) + {sts[n].row} == db + Inserted(sts);
    }
  }

  lemma {:induction false} ExecConcat(db: Db, a: seq<Statement>, b: seq<Statement>)
    ensures ExecEach(db, a + b) == match ExecEach(db, a) case None => None case Some(mid) => ExecEach(mid, b)
    decreases |b|
  {
    if b == [] {
      assert a + b == a;
    } else {
      assert (a + b)[..|a + b| - 1] == a + b[..|b| - 1];
      ExecConcat(db, a, b[..|b| - 1]);
    }
  }

  // One table of a contents.
  function Rows(c: Contents, table: IdentityTable): seq<IdRow> {
    match table case Mappings => c.mappings case Clients => c.clients case Issuers => c.issuers
  }

  lemma GoneOfTable(oldRows: seq<IdRow>, newRows: seq<IdRow>, table: IdentityTable, r: IdRow)
    requires TableRows(oldRows, table)
    ensures r.table != table ==> Delete(r.table, r.key) !in Gone(oldRows, newRows)
    ensures r in oldRows ==> (Delete(r.table, r.key) in Gone(oldRows, newRows) <==> !HasValues(newRows, r.values))
  {
    GoneMeaning(oldRows, newRows, Delete(r.table, r.key));
  }

  lemma DeletesMeaning(before: Contents, after: Contents, r: IdRow)
    requires Proper(before) && r in All(before)
    ensures Delete(r.table, r.key) in Deletes(before, after) <==> !HasValues(Rows(after, r.table), r.values)
  {
    OneRowPerKey(before, r);
    GoneOfTable(before.mappings, after.mappings, Mappings, r);
    GoneOfTable(before.clients, after.clients, Clients, r);
    GoneOfTable(before.issuers, after.issuers, Issuers, r);
  }

  lemma OneRowPerKey(c: Contents, r: IdRow)
    requires Proper(c) && r in All(c)
    ensures r in Rows(c, r.table)
    ensures forall s :: s in All(c) && SameKey(s, r) ==> s == r
  {
  }

  lemma OnlyDeletes(before: Contents, after: Contents)
    ensures AllDeletes(Deletes(before, after))
  {
    forall i | 0 <= i < |Deletes(before, after)| ensures Deletes(before, after)[i].Delete? {
      var st := Deletes(before, after)[i];
      assert st in Deletes(before, after);
      GoneMeaning(before.mappings, after.mappings, st);
      GoneMeaning(before.clients, after.clients, st);
      GoneMeaning(before.issuers, after.issuers, st);
    }
  }

  lemma InsertsMeaning(before: Contents, after: Contents, st: Statement)
    requires Proper(after)
    ensures st in Inserts(before, after) <==>
              st.Insert? && st.row in All(after) && !HasValues(Rows(before, st.row.table), st.row.values)
  {
    FreshMeaning(before.mappings, after.mappings, st);
    FreshMeaning(before.clients, after.clients, st);
    FreshMeaning(before.issuers, after.issuers, st);
  }

  // The inserts of one table keep its keys apart.
  ghost predicate InsertsOf(sts: seq<Statement>, rows: seq<IdRow>, table: IdentityTable) {
    && (forall i :: 0 <= i < |sts| ==> sts[i].Insert? && sts[i].row in rows && sts[i].row.table == table)
    && (forall i, j :: 0 <= i < j < |sts| ==> !SameKey(sts[i].row, sts[j].row))
  }

  lemma {:induction false} FreshKeysApart(oldRows: seq<IdRow>, newRows: seq<IdRow>, table: IdentityTable)
    requires TableRows(newRows, table)
    ensures InsertsOf(Fresh(oldRows, newRows), newRows, table)
  {
    if newRows != [] {
      var n := |newRows| - 1;
      FreshKeysApart(oldRows, newRows[..n], table);
      var before := Fresh(oldRows, newRows[..n]);
      forall i | 0 <= i < |before| ensures before[i].row in newRows && !SameKey(before[i].row, newRows[n]) {
        var k :| 0 <= k < n && newRows[..n][k] == before[i].row;
        assert newRows[k] == before[i].row;
      }
    }
  }

  lemma InsertsApart(before: Contents, after: Contents)
    requires Proper(after)
    ensures var sts := Inserts(before, after);
            && (forall i :: 0 <= i < |sts| ==> sts[i].Insert?)
            && (forall i, j :: 0 <= i < j < |sts| ==> !SameKey(sts[i].row, sts[j].row))
  {
    FreshKeysApart(before.mappings, after.mappings, Mappings);
    FreshKeysApart(before.clients, after.clients, Clients);
    FreshKeysApart(before.issuers, after.issuers, Issuers);
  }

  ghost function Remaining(before: Contents, after: Contents): Db {
    Surviving(RowsOf(All(before)), Deletes(before, after))
  }

  // A row left after the deletes is one the new contents keep as it is.
  lemma RemainingAreKept(before: Contents, after: Contents, r: IdRow)
    requires Proper(before) && Proper(after) && Comparable(before, after)
    ensures r in Remaining(before, after) <==> r in All(before) && r in All(after)
  {
    if r in All(before) {
      DeletesMeaning(before, after, r);
      OneRowPerKey(before, r);
      if HasValues(Rows(after, r.table), r.values) {
        var i :| 0 <= i < |Rows(after, r.table)| && Rows(after, r.table)[i].values == r.values;
        var s := Rows(after, r.table)[i];
        assert s in Rows(after, r.table) && s.key == r.key && s == r;
      }
      if r in All(after) {
        OneRowPerKey(after, r);
        var i :| 0 <= i < |Rows(after, r.table)| && Rows(after, r.table)[i] == r;
      }
    }
  }

  lemma InsertedAreNew(before: Contents, after: Contents, r: IdRow)
    requires Proper(before) && Proper(after) && Comparable(before, after)
    ensures Insert(r) in Inserts(before, after) <==> r in All(after) && r !in All(before)
  {
    InsertsMeaning(before, after, Insert(r));
    if r in All(after) {
      OneRowPerKey(after, r);
      if HasValues(Rows(before, r.table), r.values) {
        var i :| 0 <= i < |Rows(before, r.table)| && Rows(before, r.table)[i].values == r.values;
        var s := Rows(before, r.table)[i];
        assert s in Rows(before, r.table) && s.key == r.key && s == r;
      }
      if r in All(before) {
        OneRowPerKey(before, r);
        var i :| 0 <= i < |Rows(before, r.table)| && Rows(before, r.table)[i] == r;
      }
    }
  }

  lemma InsertsAreNewKeys(before: Contents, after: Contents)
    requires Proper(before) && Proper(after) && Comparable(before, after)
    ensures NewKeys(Remaining(before, after), Inserts(before, after))
  {
    var sts := Inserts(before, after);
    InsertsApart(before, after);
    forall i, r | 0 <= i < |sts| && r in Remaining(before, after) ensures !SameKey(r, sts[i].row) {
      assert sts[i] in sts && sts[i] == Insert(sts[i].row);
      InsertedAreNew(before, after, sts[i].row);
      RemainingAreKept(before, after, r);
      OneRowPerKey(after, r);
    }
  }

  /** The statements never meet a key that is taken, and leave exactly the new rows - whatever was edited. */
  lemma EditYieldsTheNewRows(before: Contents, after: Contents)
    requires Proper(before) && Proper(after) && Comparable(before, after)
    ensures ExecEach(RowsOf(All(before)), Deletes(before, after) + Inserts(before, after)) == Some(RowsOf(All(after)))
  {
    var db := RowsOf(All(before));
    var sts := Inserts(before, after);
    OnlyDeletes(before, after);
    ExecConcat(db, Deletes(before, after), sts);
    DeletesRun(db, Deletes(before, after));
    InsertsAreNewKeys(before, after);
    InsertsRun(Remaining(before, after), sts);
    forall r ensures r in RowsOf(All(after)) <==> r in Remaining(before, after) || Insert(r) in sts {
      RemainingAreKept(before, after, r);
      InsertedAreNew(before, after, r);
    }
    forall r ensures r in Inserted(sts) <==> Insert(r) in sts {
      if Insert(r) in sts {
        assert Insert(r).row == r;
      }
    }
    assert Remaining(before, after) + Inserted(sts) == RowsOf(All(after));
  }

  /** The order matters: an insert of a changed row before its delete meets its own old key. */
  lemma InsertFirstCollides(before: Contents, after: Contents, r: IdRow)
    requires r in All(before) && exists s :: s in All(after) && SameKey(s, r) && s != r && Insert(s) in Inserts(before, after)
    ensures ExecEach(RowsOf(All(before)), Inserts(before, after) + Deletes(before, after)) == None
  {
    var s :| s in All(after) && SameKey(s, r) && s != r && Insert(s) in Inserts(before, after);
    var sts := Inserts(before, after);
    var i :| 0 <= i < |sts| && sts[i] == Insert(s);
    OnlyInserts(before, after);
    TakenKeyFails(RowsOf(All(before)), sts, i, r);
    ExecConcat(RowsOf(All(before)), sts, Deletes(before, after));
  }

  lemma OnlyInserts(before: Contents, after: Contents)
    ensures forall i :: 0 <= i < |Inserts(before, after)| ==> Inserts(before, after)[i].Insert?
  {
    forall i | 0 <= i < |Inserts(before, after)| ensures Inserts(before, after)[i].Insert? {
      var st := Inserts(before, after)[i];
      assert st in Inserts(before, after);
      FreshMeaning(before.mappings, after.mappings, st);
      FreshMeaning(before.clients, after.clients, st);
      FreshMeaning(before.issuers, after.issuers, st);
    }
  }

  lemma {:induction false} InsertsKeep(db: Db, sts: seq<Statement>, r: IdRow)
    requires r in db && forall i :: 0 <= i < |sts| ==> sts[i].Insert?
    ensures ExecEach(db, sts).Some? ==> r in ExecEach(db, sts).value
  {
    if sts != [] {
      InsertsKeep(db, sts[..|sts| - 1], r);
    }
  }

  lemma {:induction false} TakenKeyFails(db: Db, sts: seq<Statement>, i: nat, r: IdRow)
    requires i < |sts| && r in db && (forall j :: 0 <= j < |sts| ==> sts[j].Insert?) && SameKey(r, sts[i].row)
    ensures ExecEach(db, sts) == None
  {
    var n := |sts| - 1;
    InsertsKeep(db, sts[..n], r);
    if i < n {
      TakenKeyFails(db, sts[..n], i, r);
    }
  }
}
