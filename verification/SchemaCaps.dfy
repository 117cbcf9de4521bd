/** Schema capabilities: explicit grants on schemas, and the inherited rows materialised below them -
    each schema's from the nearest ancestor that states capabilities. */
module SchemaCaps {
  import opened Names

  type Key = string

  /** What a schema grant carries down: capabilities, where the role creates, and whether it only registers. */
  datatype Payload = Payload(caps: string, into: string, virtualOnly: bool)

  datatype Grant = Grant(payload: Payload, inherited: bool, comment: string)

  /** The rows of schema grants, by their primary key. */
  type Grants = map<(string, Key), Grant>

  /** `a` is a proper ancestor of `q`: its key and a dot begin `q`'s. */
  predicate IsAncestor(a: Key, q: Key) {
    |q| > |a| + 1 && q[..|a| + 1] == a + "."
  }

  // A path prefix compares in any case; the empty path is the whole catalog.
  predicate InSubtree(path: Key, q: Key) {
    path == "" || q == path || (|q| >= |path| + 1 && Fold(q[..|path| + 1]) == Fold(path + "."))
  }

  lemma AncestorsAreInSubtree(path: Key, q: Key)
    requires IsAncestor(path, q)
    ensures InSubtree(path, q)
  {
  }

  function Explicit(rows: Grants): Grants {
    map k | k in rows && !rows[k].inherited :: rows[k]
  }

  /** The nearest proper ancestor of `q` that states capabilities for the role. */
  ghost predicate IsNearest(explicit: Grants, role: string, q: Key, p: Key) {
    && (role, p) in explicit && IsAncestor(p, q)
    && forall o :: (role, o) in explicit && IsAncestor(o, q) ==> |o| <= |p|
  }

  ghost predicate Inherits(explicit: Grants, role: string, q: Key) {
    (role, q) !in explicit && exists p :: IsNearest(explicit, role, q, p)
  }

  ghost function InheritedGrant(explicit: Grants, role: string, q: Key): Grant
    requires Inherits(explicit, role, q)
  {
    var p :| IsNearest(explicit, role, q, p);
    Grant(explicit[(role, p)].payload, true, "")
  }

  lemma NearestIsUnique(explicit: Grants, role: string, q: Key, p: Key, o: Key)
    requires IsNearest(explicit, role, q, p) && IsNearest(explicit, role, q, o)
    ensures p == o
  {
    assert p == (p + ".")[..|p|] == q[..|p| + 1][..|p|] == q[..|p|];
    assert o == (o + ".")[..|o|] == q[..|o| + 1][..|o|] == q[..|o|];
  }

  /** Each (role, schema) has its own explicit grant, or a row equal to its nearest explicit proper
      ancestor's, or none - and nothing else is stored. */
  ghost predicate Materialised(schemas: set<Key>, rows: Grants) {
    && (forall role, q :: (role, q) in rows && rows[(role, q)].inherited ==>
          q in schemas && Inherits(Explicit(rows), role, q) && rows[(role, q)] == InheritedGrant(Explicit(rows), role, q))
    && (forall role, q :: q in schemas && Inherits(Explicit(rows), role, q) ==> (role, q) in rows)
  }

  /** No rebuild of a subtree that holds `q` is still to come. */
  ghost predicate Settled(pending: set<Key>, q: Key) {
    forall p :: p in pending ==> !InSubtree(p, q)
  }

  /** The rows are right for every schema outside the subtrees still to be rebuilt. */
  ghost predicate MaterialisedBut(schemas: set<Key>, rows: Grants, pending: set<Key>) {
    && (forall role, q :: Settled(pending, q) && (role, q) in rows && rows[(role, q)].inherited ==>
          q in schemas && Inherits(Explicit(rows), role, q) && rows[(role, q)] == InheritedGrant(Explicit(rows), role, q))
    && (forall role, q :: Settled(pending, q) && q in schemas && Inherits(Explicit(rows), role, q) ==> (role, q) in rows)
  }

  /** The rows after a subtree is rebuilt: its inherited rows dropped and recomputed. */
  ghost predicate IsRebuilt(schemas: set<Key>, rows: Grants, path: Key, rows': Grants) {
    && Explicit(rows') == Explicit(rows)
    && (forall role, q :: !InSubtree(path, q) ==> ((role, q) in rows' <==> (role, q) in rows))
    && (forall role, q :: !InSubtree(path, q) && (role, q) in rows ==> rows'[(role, q)] == rows[(role, q)])
    && (forall role, q :: InSubtree(path, q) && (role, q) in rows' && rows'[(role, q)].inherited ==>
          q in schemas && Inherits(Explicit(rows), role, q) && rows'[(role, q)] == InheritedGrant(Explicit(rows), role, q))
    && (forall role, q :: InSubtree(path, q) && q in schemas && Inherits(Explicit(rows), role, q) ==> (role, q) in rows')
  }

  /** Rebuilding a subtree settles it, whatever else is still to be rebuilt. */
  lemma RebuildSettles(schemas: set<Key>, rows: Grants, pending: set<Key>, path: Key, rows': Grants)
    requires MaterialisedBut(schemas, rows, pending) && IsRebuilt(schemas, rows, path, rows')
    ensures MaterialisedBut(schemas, rows', pending - {path})
  {
    assert forall q :: Settled(pending - {path}, q) && !InSubtree(path, q) ==> Settled(pending, q);
  }

  /** A local rebuild makes the whole catalog right when it was right outside the subtree. */
  lemma LocalRebuildSuffices(schemas: set<Key>, rows: Grants, path: Key, rows': Grants)
    requires MaterialisedBut(schemas, rows, {path}) && IsRebuilt(schemas, rows, path, rows')
    ensures Materialised(schemas, rows')
  {
    RebuildSettles(schemas, rows, {path}, path, rows');
    NothingPending(schemas, rows');
  }

  lemma NothingPending(schemas: set<Key>, rows: Grants)
    ensures MaterialisedBut(schemas, rows, {}) <==> Materialised(schemas, rows)
  {
    assert forall q :: Settled({}, q);
  }

  /** There is one materialisation of a set of explicit grants: a local rebuild that makes the catalog
      right is a full one, and rebuilding any subtree again changes nothing. */
  lemma MaterialisationIsUnique(schemas: set<Key>, rows: Grants, rows': Grants)
    requires Materialised(schemas, rows) && Materialised(schemas, rows') && Explicit(rows) == Explicit(rows')
    ensures rows == rows'
  {
    forall k ensures (k in rows <==> k in rows') && (k in rows ==> rows[k] == rows'[k]) {
      assert k == (k.0, k.1);
      assert k in Explicit(rows) <==> k in Explicit(rows');
      if k in Explicit(rows) {
        assert rows[k] == Explicit(rows)[k] == Explicit(rows')[k] == rows'[k];
      }
    }
  }

  /** Read off the rows of a right catalog: a schema has an inherited row for a role exactly when it exists,
      the role has no grant of its own there and has one on some schema above; the row then carries the
      capabilities, the place to create in and the kind of the lowest such grant, and no comment. */
  lemma InheritedRows(schemas: set<Key>, rows: Grants, role: string, q: Key)
    requires Materialised(schemas, rows)
    ensures (role, q) in rows && rows[(role, q)].inherited <==>
              && q in schemas && !((role, q) in rows && !rows[(role, q)].inherited)
              && exists p :: (role, p) in rows && !rows[(role, p)].inherited && IsAncestor(p, q)
    ensures (role, q) in rows && rows[(role, q)].inherited ==>
              exists p :: (role, p) in rows && !rows[(role, p)].inherited && IsAncestor(p, q)
                && rows[(role, q)] == Grant(Payload(rows[(role, p)].payload.caps, rows[(role, p)].payload.into, rows[(role, p)].payload.virtualOnly), true, "")
                && forall o :: (role, o) in rows && !rows[(role, o)].inherited && IsAncestor(o, q) ==> |o| <= |p|
  {
    var explicit := Explicit(rows);
    if p :| (role, p) in explicit && IsAncestor(p, q) {
      NearestExists(explicit, role, q, p);
    }
    if Inherits(explicit, role, q) {
      var p :| IsNearest(explicit, role, q, p) && InheritedGrant(explicit, role, q) == Grant(explicit[(role, p)].payload, true, "");
      assert explicit[(role, p)] == rows[(role, p)];
    }
  }

  lemma NearestExists(explicit: Grants, role: string, q: Key, above: Key)
    requires (role, above) in explicit && IsAncestor(above, q)
    ensures exists p :: IsNearest(explicit, role, q, p)
  {
    var paths := set k | k in explicit && k.0 == role && IsAncestor(k.1, q) :: k.1;
    assert (role, above).0 == role && above in paths;
    LongestExists(paths);
    var p :| Longest(paths, p);
    forall o | (role, o) in explicit && IsAncestor(o, q) ensures |o| <= |p| {
      assert (role, o).0 == role && o in paths;
    }
    assert IsNearest(explicit, role, q, p);
  }

  lemma RebuildIsIdempotent(schemas: set<Key>, rows: Grants, path: Key, rows': Grants)
    requires Materialised(schemas, rows) && IsRebuilt(schemas, rows, path, rows')
    ensures rows' == rows
  {
    assert MaterialisedBut(schemas, rows, {path});
    LocalRebuildSuffices(schemas, rows, path, rows');
    MaterialisationIsUnique(schemas, rows, rows');
  }

  /** A whole-catalog rebuild repairs any rows: it needs nothing of the inherited ones. */
  lemma FullRebuildRepairs(schemas: set<Key>, rows: Grants, rows': Grants)
    requires IsRebuilt(schemas, rows, "", rows')
    ensures Materialised(schemas, rows')
  {
    assert forall q: Key :: InSubtree("", q);
  }

  // --- what a change of one grant or schema leaves alone -------------------------------------------

  // Explicit grants that differ at (role, path) alone inherit alike outside the subtree of path.
  lemma InheritsAlike(explicit: Grants, explicit': Grants, role: string, path: Key, r: string, q: Key)
    requires forall k :: k != (role, path) ==> (k in explicit <==> k in explicit') && (k in explicit ==> explicit[k] == explicit'[k])
    requires !InSubtree(path, q)
    ensures forall p :: IsNearest(explicit, r, q, p) <==> IsNearest(explicit', r, q, p)
    ensures Inherits(explicit, r, q) <==> Inherits(explicit', r, q)
    ensures Inherits(explicit, r, q) ==> InheritedGrant(explicit, r, q) == InheritedGrant(explicit', r, q)
  {
    if IsAncestor(path, q) {
      AncestorsAreInSubtree(path, q);
    }
    if Inherits(explicit, r, q) {
      var p :| IsNearest(explicit, r, q, p);
      forall o | IsNearest(explicit, r, q, o) ensures o == p {
        NearestIsUnique(explicit, r, q, p, o);
      }
    }
  }

  /** A change of one explicit grant, or a new schema, unsettles its own subtree alone. */
  lemma ChangeStaysBelow(schemas: set<Key>, rows: Grants, pending: set<Key>, role: string, path: Key, schemas': set<Key>, rows': Grants)
    requires MaterialisedBut(schemas, rows, pending)
    requires forall k :: k != (role, path) ==> (k in rows <==> k in rows') && (k in rows ==> rows[k] == rows'[k])
    requires schemas' == schemas || schemas' == schemas + {path}
    ensures MaterialisedBut(schemas', rows', pending + {path})
  {
    var explicit, explicit' := Explicit(rows), Explicit(rows');
    forall r, q | Settled(pending + {path}, q)
      ensures Settled(pending, q) && !InSubtree(path, q) && (q in schemas <==> q in schemas')
      ensures Inherits(explicit, r, q) <==> Inherits(explicit', r, q)
      ensures Inherits(explicit, r, q) ==> InheritedGrant(explicit, r, q) == InheritedGrant(explicit', r, q) {
      assert path in pending + {path};
      InheritsAlike(explicit, explicit', role, path, r, q);
    }
  }

  lemma ChangeUnsettles(schemas: set<Key>, rows: Grants, role: string, path: Key, schemas': set<Key>, rows': Grants)
    requires Materialised(schemas, rows)
    requires forall k :: k != (role, path) ==> (k in rows <==> k in rows') && (k in rows ==> rows[k] == rows'[k])
    requires schemas' == schemas || schemas' == schemas + {path}
    ensures MaterialisedBut(schemas', rows', {path})
  {
    NothingPending(schemas, rows);
    ChangeStaysBelow(schemas, rows, {}, role, path, schemas', rows');
    assert {} + {path} == {path};
  }

  // --- sessions at once ----------------------------------------------------------------------------

  /** The catalog's schemas and grants, and the subtrees whose rebuild is still to come: a grant, a
      revoke and a schema's creation each commit first and rebuild in a second write. */
  datatype Catalog = Catalog(schemas: set<Key>, rows: Grants, pending: set<Key>)

  ghost predicate ChangesAt(c: Catalog, role: string, path: Key, c': Catalog) {
    && c'.pending == c.pending + {path}
    && (c'.schemas == c.schemas || c'.schemas == c.schemas + {path})
    && forall k :: k != (role, path) ==> (k in c.rows <==> k in c'.rows) && (k in c.rows ==> c.rows[k] == c'.rows[k])
  }

  ghost predicate RebuildsAt(c: Catalog, path: Key, c': Catalog) {
    c'.schemas == c.schemas && c'.pending == c.pending - {path} && IsRebuilt(c.schemas, c.rows, path, c'.rows)
  }

  ghost predicate Next(c: Catalog, c': Catalog) {
    (exists role, path :: ChangesAt(c, role, path, c')) || (exists path :: RebuildsAt(c, path, c'))
  }

  /** Over every interleaving of sessions granting, revoking and creating schemas: outside the subtrees
      still to be rebuilt every row is right - so whenever no rebuild is pending, the local rebuilds
      have left the whole catalog as one full rebuild would. */
  lemma {:induction false} InterleavedChangesSettle(run: seq<Catalog>)
    requires run != [] && run[0].pending == {} && Materialised(run[0].schemas, run[0].rows)
    requires forall i :: 0 <= i < |run| - 1 ==> Next(run[i], run[i + 1])
    ensures var c := run[|run| - 1];
            && MaterialisedBut(c.schemas, c.rows, c.pending)
            && (c.pending == {} ==> Materialised(c.schemas, c.rows))
  {
    var c := run[|run| - 1];
    if |run| == 1 {
      NothingPending(c.schemas, c.rows);
    } else {
      InterleavedChangesSettle(run[..|run| - 1]);
      var b := run[|run| - 2];
      assert run[..|run| - 1][|run| - 2] == b;
      assert Next(b, c);
      if role, path :| ChangesAt(b, role, path, c) {
        ChangeStaysBelow(b.schemas, b.rows, b.pending, role, path, c.schemas, c.rows);
      } else {
        var path :| RebuildsAt(b, path, c);
        RebuildSettles(b.schemas, b.rows, b.pending, path, c.rows);
      }
      NothingPending(c.schemas, c.rows);
    }
  }

  // --- the writers ---------------------------------------------------------------------------------

  datatype SchemaGrant = SchemaGrant(path: Key, payload: Payload)

  /** A role's explicit grants, longest path first. */
  ghost predicate Lists(list: seq<SchemaGrant>, explicit: Grants, role: string) {
    && (forall i, j :: 0 <= i < j < |list| ==> |list[i].path| >= |list[j].path|)
    && (forall i :: 0 <= i < |list| ==> (role, list[i].path) in explicit && explicit[(role, list[i].path)].payload == list[i].payload)
    && (forall p :: (role, p) in explicit ==> HasPath(list, p))
  }

  ghost predicate HasPath(list: seq<SchemaGrant>, p: Key) {
    exists i :: 0 <= i < |list| && list[i].path == p
  }

  lemma HasPathStays(list: seq<SchemaGrant>, more: SchemaGrant)
    ensures forall p :: HasPath(list, p) ==> HasPath(list + [more], p)
    ensures HasPath(list + [more], more.path)
  {
    assert (list + [more])[|list|].path == more.path;
    forall p | HasPath(list, p) ensures HasPath(list + [more], p) {
      var i :| 0 <= i < |list| && list[i].path == p;
      assert (list + [more])[i].path == p;
    }
  }

  predicate Longest(paths: set<Key>, p: Key) {
    p in paths && forall o :: o in paths ==> |o| <= |p|
  }

  lemma LongestExists(paths: set<Key>)
    requires paths != {}
    ensures exists p :: Longest(paths, p)
  {
    var p :| p in paths;
    if paths == {p} {
      assert Longest(paths, p);
    } else {
      LongestExists(paths - {p});
      var o :| Longest(paths - {p}, o);
      assert Longest(paths, if |o| > |p| then o else p);
    }
  }

  // The grants listed so far, none shorter than one still to come.
  ghost predicate ListedBut(list: seq<SchemaGrant>, explicit: Grants, role: string, left: set<Key>) {
    && (forall i, j :: 0 <= i < j < |list| ==> |list[i].path| >= |list[j].path|)
    && (forall i :: 0 <= i < |list| ==> (role, list[i].path) in explicit && explicit[(role, list[i].path)].payload == list[i].payload)
    && (forall i, p :: 0 <= i < |list| && p in left ==> |list[i].path| >= |p|)
    && (forall p :: (role, p) in explicit && p !in left ==> HasPath(list, p))
  }

  lemma ListsOneMore(list: seq<SchemaGrant>, explicit: Grants, role: string, left: set<Key>, p: Key)
    requires ListedBut(list, explicit, role, left) && Longest(left, p) && (role, p) in explicit
    ensures ListedBut(list + [SchemaGrant(p, explicit[(role, p)].payload)], explicit, role, left - {p})
  {
    HasPathStays(list, SchemaGrant(p, explicit[(role, p)].payload));
  }

  method ListGrants(explicit: Grants, role: string) returns (list: seq<SchemaGrant>)
    ensures Lists(list, explicit, role)
  {
    var left := set k | k in explicit && k.0 == role :: k.1;
    forall p | (role, p) in explicit ensures p in left {
      assert (role, p).0 == role && (role, p).1 == p;
    }
    list := [];
    while left != {}
      invariant forall p :: p in left ==> (role, p) in explicit
      invariant ListedBut(list, explicit, role, left)
    {
      LongestExists(left);
      var p :| Longest(left, p);
      ListsOneMore(list, explicit, role, left, p);
      left := left - {p};
      list := list + [SchemaGrant(p, explicit[(role, p)].payload)];
    }
  }

  datatype Found = Nothing | From(payload: Payload)

  /** What a schema inherits for a role: the first ancestor in the list is the nearest, and its own
      grant stops the search. */
  method FirstAncestor(list: seq<SchemaGrant>, ghost explicit: Grants, ghost role: string, q: Key) returns (found: Found)
    requires Lists(list, explicit, role)
    ensures found.From? <==> Inherits(explicit, role, q)
    ensures found.From? ==> Grant(found.payload, true, "") == InheritedGrant(explicit, role, q)
  {
    for i := 0 to |list|
      invariant forall j :: 0 <= j < i ==> list[j].path != q && !IsAncestor(list[j].path, q)
    {
      if list[i].path == q {
        return Nothing;
      }
      if IsAncestor(list[i].path, q) {
        ghost var p := list[i].path;
        assert forall j :: 0 <= j < |list| ==> list[j].path != q;
        assert (role, q) !in explicit;
        forall o | (role, o) in explicit && IsAncestor(o, q) ensures |o| <= |p| {
          var j :| 0 <= j < |list| && list[j].path == o;
        }
        assert IsNearest(explicit, role, q, p);
        forall o | IsNearest(explicit, role, q, o) ensures o == p {
          NearestIsUnique(explicit, role, q, p, o);
        }
        return From(list[i].payload);
      }
    }
    assert forall j :: 0 <= j < |list| ==> !IsAncestor(list[j].path, q);
    found := Nothing;
  }

  function Kept(rows: Grants, path: Key): Grants {
    map k | k in rows && !(rows[k].inherited && InSubtree(path, k.1)) :: rows[k]
  }

  function Inside(schemas: set<Key>, path: Key): set<Key> {
    set q | q in schemas && InSubtree(path, q)
  }

  /** The rows rebuilt so far: those of the roles done, over the rows the rebuild started from. */
  ghost predicate BuiltFor(explicit: Grants, base: Grants, work: Grants, roles: set<string>, inside: set<Key>) {
    && (forall k :: k in base ==> k in work && work[k] == base[k])
    && (forall k :: k in work && k !in base ==>
          k.1 in inside && Inherits(explicit, k.0, k.1) && work[k] == InheritedGrant(explicit, k.0, k.1))
    && (forall role, q :: role in roles && q in inside && Inherits(explicit, role, q) ==> (role, q) in work)
  }

  method RebuildRole(rows: Grants, list: seq<SchemaGrant>, ghost explicit: Grants, role: string, inside: set<Key>, ghost base: Grants, ghost done: set<string>)
    returns (work: Grants)
    requires Lists(list, explicit, role) && BuiltFor(explicit, base, rows, done, inside)
    requires forall k :: k in base && k.1 in inside ==> k in explicit
    ensures BuiltFor(explicit, base, work, done + {role}, inside)
  {
    work := rows;
    var pending := inside;
    while pending != {}
      invariant pending <= inside
      invariant BuiltFor(explicit, base, work, done, inside)
      invariant forall q :: q in inside && q !in pending && Inherits(explicit, role, q) ==> (role, q) in work
    {
      var q :| q in pending;
      pending := pending - {q};
      var found := FirstAncestor(list, explicit, role, q);
      if found.From? {
        assert (role, q) !in base;
        work := work[(role, q) := Grant(found.payload, true, "")];
      }
    }
  }

  lemma RebuiltFromBase(schemas: set<Key>, rows: Grants, path: Key, base: Grants, work: Grants, roles: set<string>)
    requires base == Kept(rows, path)
    requires roles == set k | k in Explicit(rows) :: k.0
    requires BuiltFor(Explicit(rows), base, work, roles, Inside(schemas, path))
    ensures IsRebuilt(schemas, rows, path, work)
  {
    var explicit := Explicit(rows);
    forall k ensures k in Explicit(work) <==> k in explicit
             ensures k in explicit ==> work[k] == explicit[k] {
      assert k == (k.0, k.1);
      assert k in explicit ==> k in base;
    }
    assert Explicit(work) == explicit;
    forall role, q | Inherits(explicit, role, q) ensures role in roles {
      var p :| IsNearest(explicit, role, q, p);
      assert (role, p).0 == role;
    }
  }

  class SchemaGrantStore {
    var schemas: set<Key>
    var rows: Grants

    constructor ()
      ensures schemas == {} && rows == map[] && Materialised(schemas, rows)
    {
      schemas, rows := {}, map[];
    }

    /** Rebuilds a subtree from the nearest ancestors that state capabilities. */
    method Rematerialize(path: Key)
      modifies this`rows
      ensures IsRebuilt(schemas, old(rows), path, rows)
    {
      var explicit := Explicit(rows);
      var base := Kept(rows, path);
      var roles := set k | k in explicit :: k.0;
      var inside := Inside(schemas, path);
      var work := base;
      var left := roles;
      while left != {}
        invariant left <= roles && rows == old(rows)
        invariant BuiltFor(explicit, base, work, roles - left, inside)
      {
        var role :| role in left;
        ghost var done := roles - left;
        left := left - {role};
        var list := ListGrants(explicit, role);
        work := RebuildRole(work, list, explicit, role, inside, base, done);
        assert roles - left == done + {role};
      }
      assert roles - left == roles;
      RebuiltFromBase(schemas, rows, path, base, work, roles);
      rows := work;
    }

    /** A grant replaces the role's row on the schema, then its subtree is rebuilt. */
    method GrantSchema(role: string, path: Key, payload: Payload, comment: string) returns (ok: bool)
      requires Materialised(schemas, rows)
      modifies this`rows
      ensures ok <==> path in schemas
      ensures !ok ==> rows == old(rows)
      ensures ok ==> Explicit(rows) == Explicit(old(rows))[(role, path) := Grant(payload, false, comment)]
      ensures Materialised(schemas, rows)
    {
      if path !in schemas {
        return false;
      }
      ghost var before := rows;
      rows := rows[(role, path) := Grant(payload, false, comment)];
      assert Explicit(rows) == Explicit(before)[(role, path) := Grant(payload, false, comment)];
      ChangeUnsettles(schemas, before, role, path, schemas, rows);
      ghost var granted := rows;
      Rematerialize(path);
      LocalRebuildSuffices(schemas, granted, path, rows);
      ok := true;
    }

    /** Only an explicit grant is revoked; the subtree then inherits from what is left. */
    method RevokeSchema(role: string, path: Key) returns (ok: bool)
      requires Materialised(schemas, rows)
      modifies this`rows
      ensures ok <==> (role, path) in Explicit(old(rows))
      ensures !ok ==> rows == old(rows)
      ensures ok ==> Explicit(rows) == Explicit(old(rows)) - {(role, path)}
      ensures Materialised(schemas, rows)
    {
      if (role, path) !in rows || rows[(role, path)].inherited {
        return false;
      }
      ghost var before := rows;
      rows := rows - {(role, path)};
      assert Explicit(rows) == Explicit(before) - {(role, path)};
      ChangeUnsettles(schemas, before, role, path, schemas, rows);
      ghost var revoked := rows;
      Rematerialize(path);
      LocalRebuildSuffices(schemas, revoked, path, rows);
      ok := true;
    }

    /** A schema created under a granted parent inherits at creation. */
    method AddSchema(path: Key)
      requires Materialised(schemas, rows)
      modifies this
      ensures schemas == old(schemas) + {path}
      ensures Explicit(rows) == Explicit(old(rows))
      ensures Materialised(schemas, rows)
    {
      schemas := schemas + {path};
      ghost var before := rows;
      ChangeUnsettles(old(schemas), rows, "", path, schemas, rows);
      Rematerialize(path);
      LocalRebuildSuffices(schemas, before, path, rows);
    }
  }

}
