# Verification model of the ACL extension's stateful cores

A Dafny 4.11 model of the parts of the extension where a guarantee spans several functions, and
proofs that the guarantee holds on every input, run or interleaving. `dafny verify dfyconfig.toml`
checks all of it.

The source changes state in place, so the model does: objects are classes whose methods keep the
source's loops and branches, and each is proved to end at a state described by a function. What the
source promises is then proved about those functions, for all inputs and runs.

* **Record undo** (`PolicyRows`, `RecordStore`, `WriteMeaning`, `UndoRules`, `UndoSafety`,
  `UndoMeaning`, `UndoSpelling`, `Rollback`, `RollbackExact`, `Interleaving`, `Lineage`, `PolicyStore`).
  A principal's DDL writes policy records outside the client's transaction; a ROLLBACK takes the writes
  back newest first while others may have written. The store is a set of rows under primary keys, a
  version, and the names functions and schemas hold.
* **Names** (`Names`, `NamePath`). Catalog names compare case-insensitively and are stored in one
  spelling; the stored key of a name quotes the parts that need it and reads back as them.
* **Schema capabilities and expansions** (`SchemaCaps`, `Expansion`, `RefreshMeaning`). Inherited rows are rebuilt
  subtree by subtree; snapshots of a source's objects remember what was dropped on purpose.
* **Function categories** (`FunctionCategories`, `FunctionGrants`, `FunctionModel`). The index of what may
  be called, its edits, and the resolver and listing over it - and all of them as two relations: which
  keys are in which categories, and what each role says of which.
* **Audit pipeline** (`AuditPipeline`, `AuditPipelineObject`, `DenialLimit`). A bounded queue, one
  worker, two rings, a flush barrier, a bounded stop, and the limit on recorded denials.
* **Identity** (`Like`, `Routing`, `RoleDerivation`, `IdentityWrite`). Which client a token is for,
  which roles it yields, and the statements an edit of the identity tables runs.
* **Session notifier** (`SessionNotifier`, `SessionNotifierObject`). Opens and closes delivered to
  observers by concurrent threads.

`Sequences` holds the filtering facts several of them share. Concurrency is modelled as the sections
the source runs under its locks (or as one store write), taken in any order.

## What the proofs found

* Rolling back a drop of an expanded record followed by a view of the same name leaves the record
  dropped and loses the mark that it was dropped on purpose (`Interleaving.ViewOverDroppedExpansion`):
  a view registration leaves the mark alone, so its undo takes it. `UndoRules.UndoRightAfter` gives
  the exact condition under which an undo restores everything, `RollbackExact.RollbackRestoresExactly`
  the same for a whole transaction.
* A record the transaction did not create, renamed away, and another created under its old name - or
  created before and renamed onto it - while that name still has rows the newer write leaves alone
  (grants, references): the newer undo deletes those rows, the rename's undo is then refused, and the
  rows and the old name's record stay lost (`RollbackExact.RenamedThenTaken`; with one granted table,
  `RollbackExact.RenameThenCreateLosesTheGrant`).
* Before an undo brings a name back, the name is looked up so that no second spelling is recorded
  (`src/acl_admin_functions.cpp:489-493`), but the answer is not used: only a refusal counts, and the
  look-up refuses another case of the last part alone. A rename rolled back after somebody recorded an
  object under the old schema's name in another case leaves both spellings
  (`UndoSpelling.SecondSpellingAfterRollback`); `UndoSpelling.UndoKeepsOneSpellingExactly` gives the
  exact condition.
* A rename moves the `object_columns` rows of a function of the same name, which the undo does not
  track (`Interleaving.RenameTakesFunctionColumns`, with the exact condition).
* Renaming the object of a live alias moves no record, yet lineage is told DROP
  (`src/acl_catalog_admin.cpp:2115`); the comment at `src/acl_admin_functions.cpp:460` says it is
  told nothing. The model follows the code, and the rollback's correction holds either way.
* A removal from the function index that names its key with another case of database or schema than
  stored leaves a candidate nothing holds, since pruning compares letter for letter
  (`src/include/acl_function_categories.hpp:43`, `src/acl_function_categories.cpp:256`). The management
  functions lower their keys, and then it cannot happen (`FunctionCategories.LowerCaseRunsAreExact`).
* A pruning refresh needs two passes for an object renamed by case alone
  (`Expansion.CaseRenameTakesTwoPasses`). A second pass changes nothing exactly when every object the
  first one held back as a name differing only by case is still held back by what its prune left
  (`Expansion.RefreshTwiceIsOnce`).
* A flush answers that it drained as soon as a stop has begun (`AuditPipeline.FlushDuringStop`); an
  emit refused because of a stop is the one loss no counter shows (`AuditPipeline.NothingUnaccounted`).
  A denial past its rate that the queue then does not take is counted as dropped twice
  (`AuditPipeline.DroppedTwiceExactly`, `AuditPipeline.OneDenialTwoDrops`).
* The overlap check of identity clients is enough for tokens with one audience and for no others
  (`Routing.EnoughExactly`); section 4.1.3 of RFC 7519 allows several. A write that judges only what
  it touches compares untouched clients by the audiences written on them, so audiences kept in a
  secret go unseen: the clients stay apart exactly when no written client meets those of another alike
  in issuer, specificity and party (`Routing.PartialCheckIsEnoughExactly`).
* A second close of a session whose open is still being delivered replaces the first; some close is
  lost exactly when a session is closed twice before its open is over (`SessionNotifier.ReplacedExactly`).

## Model

| member | source | states |
|---|---|---|
| PolicyRows.RecordShown | src/acl_catalog_admin.cpp:1939-1987 | a name has a record exactly when its image shows one |
| PolicyStoreObjects.PolicyStore.Register | src/acl_catalog_admin.cpp:2026-2063 | a registration ends at the specified store, one version later, and keeps both images of its name; a failed one changes nothing |
| PolicyStoreObjects.PolicyStore.DropRelation | src/acl_catalog_admin.cpp:2666-2711 | a drop takes every tracked row of the name except grant rows a same-named function shares, marks an expanded record as dropped on purpose, and tells lineage |
| PolicyStoreObjects.PolicyStore.RenameRelation | src/acl_catalog_admin.cpp:2081-2120 | update by update and the delete of the mark, a rename moves the record and its dependent rows to the new name or, when a key collides, changes nothing; lineage is told DROP and, if a record moved, CREATE |
| PolicyStoreObjects.UpdateTables | src/acl_catalog_admin.cpp:2095-2100 | the four updates, one table at a time, end where moving all rows at once would, and collide exactly when that would |
| PolicyStoreObjects.RewriteTables | src/acl_catalog_admin.cpp:2739-2747 | the table-by-table delete and insert statements end where replacing all rows at once would, and collide exactly when that would |
| PolicyStoreObjects.PolicyStore.TakeNameRows | src/acl_catalog_admin.cpp:2733-2747 | the statements that take a created name equal the specified replacement |
| PolicyStoreObjects.PolicyStore.PutBackRows | src/acl_catalog_admin.cpp:2750-2759 | the statements that put a name back equal the specified replacement |
| PolicyStoreObjects.PolicyStore.UndoStatements | src/acl_catalog_admin.cpp:2762-2823 | the three rules of an undo - a creation, a renamed creation, everything else - with the version count of a drop, loop for loop |
| PolicyStoreObjects.PolicyStore.UndoRecordWrite | src/acl_catalog_admin.cpp:2827-2857 | one undo is one write of the store, or none; another store or an unchanged write touches nothing |
| PolicyStoreObjects.RecordUndo.Wrote | src/acl_admin_functions.cpp:409-431 | a record write joins the transaction: its version, its step, and where a created record is now |
| PolicyStoreObjects.RecordUndo.Undo | src/acl_admin_functions.cpp:482-535 | a step is passed over when a name its rows go back to is spelled another way since |
| PolicyStoreObjects.RecordUndo.Announce | src/acl_admin_functions.cpp:453-467 | what lineage was last told of every name the transaction touched |
| PolicyStoreObjects.RecordUndo.TransactionRollback | src/acl_admin_functions.cpp:443-479 | the rollback is the newest-first undo of every step followed by the lineage correction, and leaves nothing pending |
| WriteMeaning.RegisterRowByRow | src/acl_catalog_admin.cpp:2026-2063 | row by row: the record given, exactly the probed facts, no declared column or key left, comments and grants kept, the mark kept or cleared, other names untouched |
| WriteMeaning.DropRowByRow | src/acl_catalog_admin.cpp:2666-2711 | row by row: every row of the relation goes but grants a function shares, the references of a function apart; it is marked exactly if it was or its record came of an expansion |
| WriteMeaning.RenameRowByRow | src/acl_catalog_admin.cpp:2081-2120 | row by row: record and following facts are under the new name as they were under the old, with the physical name given or else the old; the rest untouched but the new name's mark |
| WriteMeaning.RenameColumnByColumn | src/acl_catalog_admin.cpp:2097-2100 | the same for the columns of a function of the old name |
| WriteMeaning.WriteFailsExactly | src/acl_catalog_admin.cpp:2026-2120 | a write fails and leaves the store alone exactly for a drop of no record or a rename onto keys already under the new name |
| UndoMeaning.CreationUndoneExactly | src/acl_catalog_admin.cpp:2717-2795 | in any store, whoever wrote it: a creation, or a created record's rename, is undone exactly while the record under its name has the definition, columns and types the write left; otherwise it is refused as changed and nothing moves |
| UndoMeaning.OldNameAfterwards | src/acl_catalog_admin.cpp:2782-2795 | undoing a created record's rename leaves a record somebody put under the old name, and otherwise brings the old one back |
| UndoMeaning.RewriteRefusedExactly | src/acl_catalog_admin.cpp:2796-2823 | in any store: a drop is refused for the versions since exactly when not all are the transaction's, any other write exactly when some row of its names is not as it left it |
| UndoMeaning.OtherStoreExactly | src/acl_catalog_admin.cpp:2829-2831 | refused for the store exactly when the write was another store's |
| UndoRules.PutBackRestores | src/acl_catalog_admin.cpp:2750-2759 | putting a name back restores the whole store a write of that name found |
| UndoRules.TakeRestores | src/acl_catalog_admin.cpp:2733-2747 | taking a name whole restores the store exactly when the tables the write left alone held no rows of it |
| UndoRules.RegisterWrites | src/acl_catalog_admin.cpp:2026-2063 | a registration touches rows of its own name only, and no grant or reference |
| UndoRules.DropWrites | src/acl_catalog_admin.cpp:2666-2711 | a drop keeps the store consistent and touches rows of its own name only |
| UndoRules.RenameWrites | src/acl_catalog_admin.cpp:2081-2120 | a rename that moves a record touches rows of its two names only; the old name ends without a record, the new one had none |
| UndoRules.RenameMiddle | src/acl_catalog_admin.cpp:2820-2822 | between the two halves of a rename's undo each half is a change of one name |
| UndoRules.RenameTaken | src/acl_catalog_admin.cpp:2782-2795 | a renamed created record is taken where it is and goes back, bringing nothing new: the store is restored exactly when the new name held nothing in the tables the rename left alone |
| UndoRules.UndoRightAfter | src/acl_catalog_admin.cpp:2762-2857 | for every kind of write, an undo with no other writer since is never refused, brings nothing that was not there, and restores every row exactly when the write is restorable |
| UndoSafety.RefusedChangesNothing | src/acl_catalog_admin.cpp:2827-2857 | in any store, a refused undo changes neither rows nor version nor the transaction's versions; a successful one moves the version by one |
| UndoSafety.PutBackImage | src/acl_catalog_admin.cpp:2750-2759 | a name put back over its after-image ends with its before-image and no row of another name moves |
| UndoSafety.SuccessPutsImagesBack | src/acl_catalog_admin.cpp:2811-2823 | whoever wrote meanwhile: the undo of a replace, drop or ordinary rename that succeeds found every name as its after-image and leaves it as its before-image |
| UndoSafety.TakeLeavesNothingNew | src/acl_catalog_admin.cpp:2733-2747 | after a creation is taken back the name keeps only shared grant rows and what the write found; rows of other names stay, and nothing comes but what the write found |
| UndoSafety.CountIsExact | src/acl_catalog_admin.cpp:2796-2810 | own versions in an interval number its length exactly when every version in it is the transaction's own |
| Rollback.ExecSound | src/acl_catalog_admin.cpp:2026-2120 | a record write keeps the store consistent, every name spelled one way, and the versions the transaction's own |
| Rollback.WriteSpelledOnce | src/acl_catalog_admin.cpp:2026-2120 | a record write whose name was spelled against the stored ones keeps every name spelled one way |
| Rollback.LastInFirstOut | src/acl_admin_functions.cpp:468-470 | undoing the steps newest first from any store with the run's rows that this transaction alone wrote: every step is undone and every row is back |
| Rollback.RollbackRestores | src/acl_admin_functions.cpp:443-479 | for every sequence of creates, replaces, drops and renames with no other writer, the rollback undoes every step and restores every tracked row |
| RollbackExact.CreatedExactly | src/acl_admin_functions.cpp:412-431 | over every run the names taken for the transaction's own are exactly those whose record it created, wherever renamed to |
| UndoSpelling.UndoKeepsOneSpellingExactly | src/acl_admin_functions.cpp:487-499 | in any store of one spelling, whoever wrote it: an undo keeps every name spelled one way exactly when it brings no name back or the names that stay spell its outer parts as it does |
| UndoSpelling.SpelledAsItIsKeepsOneSpelling | src/acl_admin_functions.cpp:487-499 | so it does whenever the look-up answers the name as it is |
| UndoSpelling.SecondSpellingAfterRollback | src/acl_admin_functions.cpp:489-493 | a finding: a rename rolled back after somebody recorded an object under the old schema's name in another case leaves two spellings |
| RollbackExact.StaysMissing | src/acl_catalog_admin.cpp:2762-2823 | a row lost to a name without a record, or with one the transaction created, stays lost through the undo of any earlier step that is not refused |
| RollbackExact.MissingIsLost | src/acl_admin_functions.cpp:468-470 | such a row is not back when the rollback of any run ends, or some step of it is refused |
| RollbackExact.RollbackRestoresExactly | src/acl_admin_functions.cpp:443-479 | for every such sequence, every step is undone and every row is back exactly when each write found nothing of the name it takes in the tables it left alone |
| RollbackExact.RenamedThenTaken | src/acl_catalog_admin.cpp:2762-2823 | a finding: in any transaction, a name renamed away and taken by a new or moved created record while it still held rows: they are lost, the rename is not undone and the name stays without a record |
| RollbackExact.RenameThenCreateLosesTheGrant | src/acl_catalog_admin.cpp:2733-2747 | its smallest case, for any two names: one granted table renamed, another created under its name, and the rollback loses the grant |
| Interleaving.RunChained | src/acl_admin_functions.cpp:404-410 | in every interleaving with other writers and refused or abandoned undos, the versions kept are exactly the versions the transaction committed |
| Interleaving.DropReturnsOnlyAlone | src/acl_catalog_admin.cpp:2796-2810 | in every interleaving a dropped record is refused as written since exactly when some version after its drop is another writer's; one that returns found its name as the drop left it |
| Interleaving.ViewUndoTakesMark | src/acl_catalog_admin.cpp:2026-2040 | the undo of a view registered over a dropped expanded name takes the mark the drop left |
| Interleaving.ViewOverDroppedExpansion | src/acl_catalog_admin.cpp:2026-2040 | a finding: dropping an expanded record, creating a view in its place and rolling back leaves the record dropped and its mark lost |
| Interleaving.RenameTakesFunctionColumns | src/acl_catalog_admin.cpp:2081-2120 | a finding: a rename moves the columns of a same-named function and its undo leaves them; they are where they were exactly when there were none |
| Lineage.RecordsAfter | src/acl_catalog_admin.cpp:2113-2118 | which names have a record after each kind of write |
| Lineage.LineageFollowsRollback | src/acl_admin_functions.cpp:451-478 | with no other writer while the transaction wrote, whichever undos are refused, what lineage was last told of each touched name is whether its record exists |
| Names.FindSpelling | src/acl_catalog_admin.cpp:141-189 | the loop over the parts answers the specified spelling, several spellings, or a refusal |
| Names.SpellFromSound | src/acl_catalog_admin.cpp:141-189 | under one spelling per name a lookup never finds several, refuses a creation exactly for a case sibling, and answers a name equal up to case |
| Names.SpellingKeepsOneSpelling | src/acl_catalog_admin.cpp:141-256 | recording a lookup's answer keeps one spelling per name, and looking it up again changes nothing |
| Names.SpelledStays | src/acl_catalog_admin.cpp:141-189 | a stored name is its own spelling among any of the stored names |
| Names.SameNameMeaning | src/acl_catalog_admin.cpp:157-159 | names are the same exactly up to the case of ASCII letters; folding leaves no upper-case letter |
| NamePath.TryFromKey | src/include/acl_name_path.hpp:39-94 | the reader's loops answer the specified parse, with each of its errors |
| NamePath.ReadQuoted | src/include/acl_name_path.hpp:48-66 | a quoted part is read up to its closing quote, a doubled quote standing for one |
| NamePath.WriteKey | src/include/acl_name_path.hpp:117-123 | the writer's loop answers the canonical key |
| NamePath.KeyReadsBack | src/include/acl_name_path.hpp:4-7 | the key of a name reads back as exactly its parts, whatever characters they hold |
| NamePath.KeysTellNamesApart | src/include/acl_name_path.hpp:4-7 | two names have one key only when they are one name |
| NamePath.ReadThenWritten | src/include/acl_name_path.hpp:37-94 | text that reads is of a non-empty name, and its canonical key reads as the same name |
| NamePath.DotAtEnd | src/include/acl_name_path.hpp:88-92 | a key followed by a dot is malformed |
| NamePath.FoldKey | src/include/acl_name_path.hpp:153-156 | folding a key folds its parts |
| NamePath.KeysEqualInAnyCase | src/include/acl_name_path.hpp:243-246 | two keys are equal in any case exactly when their names are, part by part |
| NamePath.TextPrefixIsPartPrefix | src/include/acl_name_path.hpp:247-252 | one key and a dot begin another exactly when its parts properly begin the other's |
| NamePath.UnderIsProperPrefix | src/include/acl_name_path.hpp:247-252 | text below text, in any case, is a name below a name |
| NamePath.SubtreeIsBelow | src/acl_catalog_admin.cpp:2184-2210 | the subtree a rebuild covers is the schema and every name below it |
| NamePath.PlainKeys | src/include/acl_name_path.hpp:117-123 | a key is its parts joined by dots exactly when none holds a dot or a quote |
| NamePath.LongerKeyIsNearer | src/acl_catalog_admin.cpp:2211-2249 | among the names above a name the longest key is the nearest name |
| SchemaCaps.RebuildSettles | src/acl_catalog_admin.cpp:2184-2251 | rebuilding a subtree makes it right whatever else is still to be rebuilt |
| SchemaCaps.LocalRebuildSuffices | src/acl_catalog_admin.cpp:2184-2251 | a local rebuild makes the whole catalog right when it was right outside the subtree |
| SchemaCaps.MaterialisationIsUnique | src/acl_catalog_admin.cpp:2184-2251 | there is one materialisation of a set of explicit grants: a local rebuild that makes the catalog right is a full one |
| SchemaCaps.RebuildIsIdempotent | src/acl_catalog_admin.cpp:2184-2251 | rebuilding any subtree of a right catalog changes nothing |
| SchemaCaps.InheritedRows | src/acl_catalog_admin.cpp:2184-2251 | in a right catalog a schema has an inherited row exactly when it has no grant of its own and some schema above has one, and the row carries the lowest such grant |
| SchemaCaps.FullRebuildRepairs | src/acl_catalog_admin.cpp:2184-2251 | a whole-catalog rebuild repairs any inherited rows |
| SchemaCaps.ChangeStaysBelow | src/acl_catalog_admin.cpp:2122-2182 | a changed grant or a new schema unsettles its own subtree alone |
| SchemaCaps.InterleavedChangesSettle | src/acl_catalog_admin.cpp:2122-2251 | in every interleaving of sessions granting, revoking, creating and rebuilding, the rows are right outside the subtrees still to be rebuilt |
| SchemaCaps.FirstAncestor | src/acl_catalog_admin.cpp:2227-2249 | the first ancestor of the longest-first list is the nearest, and a schema's own grant stops the search |
| SchemaCaps.SchemaGrantStore.Rematerialize | src/acl_catalog_admin.cpp:2184-2251 | the loops over roles and schemas rebuild exactly the subtree |
| SchemaCaps.SchemaGrantStore.GrantSchema | src/acl_catalog_admin.cpp:2122-2164 | a grant replaces the role's row and keeps the whole catalog materialised; an unknown schema is refused |
| SchemaCaps.SchemaGrantStore.RevokeSchema | src/acl_catalog_admin.cpp:2166-2182 | only an explicit grant is revoked, and the catalog stays materialised |
| SchemaCaps.SchemaGrantStore.AddSchema | src/acl_catalog_admin.cpp:1815-1838 | a schema created under a granted parent inherits at creation |
| Expansion.FindAdditions | src/acl_catalog_admin.cpp:2253-2287 | the pass over a source finds exactly the specified additions |
| Expansion.RefreshSchemaObjects | src/acl_catalog_admin.cpp:2289-2357 | a refresh ends at the specified rows and answers how many objects it added and pruned |
| Expansion.HeldAfterRefresh | src/acl_catalog_admin.cpp:2308-2352 | the names held after a refresh are exactly those its prune leaves and those it adds |
| Expansion.ExpandSchema | src/acl_catalog_admin.cpp:2253-2287 | an expansion ends at the specified rows, its schema's marks forgotten |
| Expansion.PassKeepsOneSpelling | src/acl_catalog_admin.cpp:2253-2357 | neither an expansion nor a refresh records two spellings of a name |
| Expansion.RefreshRespectsMarks | src/acl_catalog_admin.cpp:2289-2357 | a refresh leaves every mark and gives a marked name no record it did not have |
| Expansion.RefreshTwiceIsOnce | src/acl_catalog_admin.cpp:2289-2357 | a second refresh over the same source changes nothing exactly when every object held back for a name differing only by case still has such a name among those the first one's prune leaves |
| RefreshMeaning.RefreshKeeps | src/acl_catalog_admin.cpp:2330-2352 | a refresh, pruning or not, leaves every row of a name that is another origin's, not a direct child, or still held by the source; marks, references and column grants always |
| RefreshMeaning.RefreshBrings | src/acl_catalog_admin.cpp:2308-2328 | what it brings is what the source gives of a listed object without record, mark or case sibling |
| RefreshMeaning.RefreshTakes | src/acl_catalog_admin.cpp:2330-2352 | with prune nothing is left of a vanished object's record of that origin, nor of its facts but column grants |
| RefreshMeaning.ExpansionForgets | src/acl_catalog_admin.cpp:2253-2287 | an expansion forgets exactly the marks of its schema's children |
| RefreshMeaning.ExpansionAdds | src/acl_catalog_admin.cpp:2253-2287 | it takes no other row and brings what the source gives of objects without record |
| Expansion.CaseRenameTakesTwoPasses | src/acl_catalog_admin.cpp:2308-2352 | a finding: an object renamed by case alone is pruned by one refresh and recorded by the next |
| Expansion.MarkStays | src/acl_catalog_admin.cpp:2289-2357 | nothing but a creation, a rename to the name or an expansion ends a mark |
| Expansion.DroppedStaysDropped | src/acl_catalog_admin.cpp:2050-2057 | over every run of passes and record writes from a store of one spelling, a name dropped on purpose is not recorded by any number of refreshes until it is created, renamed to or expanded again |
| Expansion.RunStaysSpelledOnce | src/acl_catalog_admin.cpp:2253-2357 | over every such run every name stays spelled one way |
| FunctionCategories.StepSound | src/acl_function_categories.cpp:111-300 | every operation keeps keys unique, buckets non-empty, categories of a candidate existing and distinct, allows and denies disjoint, and granted keys candidates |
| FunctionCategories.EveryRunIsSound | src/acl_function_categories.cpp:111-300 | so does every sequence of operations from the empty model |
| FunctionCategories.OrphansExactly | src/acl_function_categories.cpp:207-300 | the candidates are exactly the keys in a category or named by a grant - unless a removal names the last hold of its key in another case than stored |
| FunctionCategories.LowerCaseRunsAreExact | src/acl_admin_functions.cpp:1122-1124 | over every sequence whose keys are lower case, as the management functions parse them, the candidates are exact |
| FunctionCategories.OrphanAnswersNotGranted | src/acl_function_categories.cpp:245-261 | a finding: such a removal leaves a candidate nothing holds, and a call is answered not granted instead of uncategorized |
| FunctionCategories.MemberAddedAndRemoved | src/acl_function_categories.cpp:184-226 | removing a member just added leaves candidates and rules as they were |
| FunctionCategories.CategoryRemovedSound | src/acl_function_categories.cpp:122-151 | removing a category leaves only candidates something holds |
| FunctionCategories.VerdictMeaning | src/acl_function_categories.cpp:321-368 | a deny of the key or any of its categories by any role wins; otherwise one allow admits |
| FunctionCategories.VerdictIgnoresOrder | src/acl_function_categories.cpp:321-368 | the verdict depends on the set of roles alone |
| FunctionCategories.NeverStaysClosed | src/acl_function_categories.cpp:402-498 | in any model no call admitted has a key or a name of the never set, by any spelling |
| FunctionCategories.QualifiedMeaning | src/acl_function_categories.cpp:426-465 | what a qualified name reaches: the only key written, a system key first, or the main schema of a database of that name |
| FunctionCategories.BareMeaning | src/acl_function_categories.cpp:476-494 | a bare name reaches the best-ranked candidate, and ties exactly when two rank last and none before |
| FunctionCategories.BareOrder | src/acl_function_categories.cpp:476-494 | system main before pg_catalog before any other system schema; outside the system catalog only a single candidate |
| FunctionCategories.ClosedWhereverItIs | src/acl_function_categories.cpp:402-424 | the database matters to one name of the never set alone |
| FunctionGrants.MembersAfter | src/acl_function_categories.cpp:122-226 | adding and removing a member change that pair of key and category, removing a category all of its pairs, nothing else any |
| FunctionGrants.CategoryRulesAfter | src/acl_function_categories.cpp:122-287 | a grant is the role's only word on its category, removing it or the category leaves none, nothing else changes any |
| FunctionGrants.NameRulesAfter | src/acl_function_categories.cpp:263-300 | the same for keys |
| FunctionGrants.CategoryRows | src/acl_function_categories.cpp:111-205 | what is kept of a category is what it was added with last; joining a known one leaves that alone |
| FunctionGrants.CategoryRuleIsTheLast | src/acl_function_categories.cpp:111-300 | over every run of edits a role's word on a category is that of the last edit about the two |
| FunctionGrants.NameRuleIsTheLast | src/acl_function_categories.cpp:111-300 | the same for keys |
| FunctionGrants.MembersAreTheJoined | src/acl_function_categories.cpp:111-300 | over every run of edits a key is in the categories it joined and has not left |
| FunctionGrants.JudgedByRelations | src/acl_function_categories.cpp:321-368 | a deny of the key or of a category it is in wins, otherwise one allow admits - over those relations |
| FunctionGrants.CallDecided | src/acl_function_categories.cpp:402-498 | a call that reaches a candidate, however written, is decided by those relations on its key |
| FunctionGrants.CategoryGrantDecides | src/acl_function_categories.cpp:228-233 | after a grant on a category a call of a key in it is denied by a deny, and by an allow admitted unless some role still denies |
| FunctionGrants.NameGrantDecides | src/acl_function_categories.cpp:263-278 | the same for a grant on the key |
| FunctionGrants.DeciderMeaning | src/acl_function_categories.cpp:321-368 | what the answer names is the first role of the caller's that says so, by the key before any category |
| FunctionGrants.BareCall | src/acl_function_categories.cpp:466-498 | when a bare call is ambiguous, uncategorized, or reaches a candidate and takes its verdict |
| FunctionGrants.QualifiedCall | src/acl_function_categories.cpp:426-465 | when a qualified call is unknown, or reaches a candidate where it is written to be |
| FunctionCategories.ListingAgrees | src/acl_function_categories.cpp:370-400 | a listed system key is one admitted when written in full, another listed key is what its bare name is admitted as, and every key a bare name is admitted as is listed |
| FunctionModel.Judge | src/acl_function_categories.cpp:321-368 | the loops over roles and categories answer the specified decision and what decided it |
| FunctionModel.ReachQualified | src/acl_function_categories.cpp:429-458 | the scan of a qualified name finds the specified candidate |
| FunctionModel.ReachBare | src/acl_function_categories.cpp:476-489 | the one-pass scan finds the first best-ranked candidate and whether it ties |
| FunctionModel.FunctionCategoryModel.RemoveCategory | src/acl_function_categories.cpp:122-151 | the loops over buckets and rules end at the specified model |
| FunctionModel.FunctionCategoryModel.AddMember | src/acl_function_categories.cpp:184-205 | the member joins its key's candidate, found in any case, once |
| FunctionModel.FunctionCategoryModel.RemoveMember | src/acl_function_categories.cpp:207-226 | the member leaves, and its candidate with the last thing that holds it |
| FunctionModel.FunctionCategoryModel.AddCategoryGrant | src/acl_function_categories.cpp:228-233 | a grant replaces the role's rule on the category |
| FunctionModel.FunctionCategoryModel.AddNameGrant | src/acl_function_categories.cpp:263-278 | a grant by name makes its key a candidate and replaces the role's rule on it |
| FunctionModel.FunctionCategoryModel.RemoveCategoryGrant | src/acl_function_categories.cpp:280-287 | answers whether the role had a rule on the category |
| FunctionModel.FunctionCategoryModel.RemoveNameGrant | src/acl_function_categories.cpp:289-300 | the rule goes, and the candidate no category or grant holds |
| FunctionModel.FunctionCategoryModel.IsNameGranted | src/acl_function_categories.cpp:235-243 | whether some role's rule names the key |
| FunctionModel.FunctionCategoryModel.Resolve | src/acl_function_categories.cpp:402-498 | the resolver answers the specified decision and never admits a never-callable key |
| FunctionModel.FunctionCategoryModel.AdmittedKeys | src/acl_function_categories.cpp:370-400 | the listing holds exactly the keys shown, each once |
| AuditPipeline.StepSound | src/acl_audit.cpp:159-280 | every section of every thread keeps each accepted event in one place and every counter exact |
| AuditPipeline.AnswerMeaning | src/acl_audit.cpp:181-215 | an emitter is answered the number its event was accepted under, or 0 and nothing was accepted |
| AuditPipeline.RingOff | src/acl_audit.cpp:383-409 | a ring switched off takes nothing and counts nothing |
| AuditPipeline.NothingUnaccounted | src/acl_audit.cpp:159-280 | in every interleaving enqueued = handled + queued + in hand + given up, and every emit not counted so was dropped and counted or refused by a stop |
| AuditPipeline.DroppedTwiceExactly | src/acl_audit.cpp:165-215 | a finding: one emit adds two drops exactly when its rate refused it and the queue did not take it, none exactly when neither |
| AuditPipeline.OneDenialTwoDrops | src/acl_audit.cpp:165-215 | the run: a full queue, and one refused denial that is two drops |
| AuditPipeline.HandledInOrder | src/acl_audit.cpp:194-199 | events are handled in strictly increasing number and in the order accepted |
| AuditPipeline.QueueIsBounded | src/acl_audit.cpp:186-193 | under one positive cap the queue never outgrows it |
| AuditPipeline.FlushIsABarrier | src/acl_audit.cpp:481-489 | a flush that answers true with no stop begun means every event accepted before it was handled |
| AuditPipeline.DrainedMeaning | src/acl_audit.cpp:485-489 | in every sound state the count a flush compares is reached exactly when every event accepted before the flush began is handled, a stop aside |
| AuditPipeline.FlushDuringStop | src/acl_audit.cpp:488 | with a stop begun a flush answers true at once; what it promises then holds exactly when the count was reached |
| AuditPipeline.DrainedIsNotHandled | src/acl_audit.cpp:488 | a finding: a flush told it drained while its event is still queued |
| AuditPipeline.StoppedForGood | src/acl_audit.cpp:514-532 | once a stop has joined the worker every accepted event was handled or given up and counted, and no later step changes that |
| AuditPipeline.RingsHoldTheNewest | src/acl_audit.cpp:363-411 | under fixed positive caps each ring holds exactly the newest recorded events of its kind, lineage apart |
| AuditPipeline.RingsAreSuffixes | src/acl_audit.cpp:400-409 | whatever the caps become, a ring is the end of what entered it and every eviction of the audit ring was counted |
| AuditPipelineObject.Pipeline.EnqueueEvent | src/acl_audit.cpp:181-215 | the emitter's section under the lock, the refused thread start included |
| AuditPipelineObject.Pipeline.Emit | src/acl_audit.cpp:159-216 | one emit undisturbed: settings, rate limit, queue |
| AuditPipelineObject.Pipeline.TakeNext | src/acl_audit.cpp:256-272 | the worker takes, gives up the backlog, or exits |
| AuditPipelineObject.Pipeline.PushAudit | src/acl_audit.cpp:400-409 | the eviction loop leaves the newest events and counts each one evicted |
| AuditPipelineObject.Pipeline.PushLineage | src/acl_audit.cpp:383-391 | the lineage ring's loop leaves the newest events and counts none |
| AuditPipelineObject.Pipeline.HandleEvent | src/acl_audit.cpp:363-411 | one event handed on undisturbed is the worker's four steps |
| AuditPipelineObject.Pipeline.BeginFlush | src/acl_audit.cpp:484 | the target read is the number of events accepted so far |
| AuditPipelineObject.Pipeline.HasDrained | src/acl_audit.cpp:485-489 | answers true exactly when every event accepted before the flush began was handled, or a stop has begun |
| AuditPipelineObject.Pipeline.Stop | src/acl_audit.cpp:514-532 | an undisturbed stop leaves the worker gone, every accepted event handled or given up, and none given up when the worker got turns enough |
| DenialLimit.Limiter.AdmitDenial | src/acl_audit.cpp:218-252 | one refusal is recorded while its source has had fewer than the limit in the second |
| DenialLimit.NeverTooFew | src/acl_audit.cpp:242-251 | whatever the clock and however many sources, the first refusals of a source in a second are recorded |
| DenialLimit.RecordedExactly | src/acl_audit.cpp:242-251 | with an advancing clock and no flood of sources, exactly the first refusals of a source in a second are recorded |
| Like.LikeMatches | src/acl_identity.cpp:613-635 | the matcher with one backtrack point answers the recursive meaning, in at most (|value|+1)*(|pattern|+1) rounds |
| Like.LastStarDecides | src/acl_identity.cpp:618-626 | a second star makes every retry of the first one pointless |
| Like.NoRetryAtTheEnd | src/acl_identity.cpp:617-634 | at the end of the value no retry is left |
| Like.PlainPattern | src/acl_identity.cpp:613-635 | a pattern without wildcards is met by itself alone |
| Routing.ConditionsCompared | src/acl_identity.cpp:650-663 | the four conditions beside one another: one of, contains and a plain pattern in terms of equality |
| Routing.PrefixedTypeIsPlain | src/acl_identity.cpp:670-680 | a type with the media prefix, in any case, is the type without it |
| Routing.ClientAccepts | src/acl_identity.cpp:637-685 | a client accepts exactly by audience, party, conditions and token type, and the reason is that of the first that fails |
| Routing.PickClient | src/acl_identity.cpp:694-706 | the pick is the only highest, and ambiguous exactly when two are highest |
| Routing.RouteToken | src/acl_identity_store.cpp:607-642 | a token goes to the client of its issuer that accepts it and comes before every other that does - naming parties or conditions before not, written down before implied; to none when nobody does, and is refused when no one is before all; the reason given is past the audience when the token was meant for some client |
| Routing.SpecificityOrder | src/acl_identity.cpp:687-692 | a client that names parties or conditions is more specific than one that does not, one written down than an implied one |
| Routing.OverlapCheck | src/acl_identity.cpp:904-928 | the nested loops find a pair that would accept the same tokens exactly when one exists |
| Routing.OverlapMeaning | src/acl_identity.cpp:904-928 | two clients overlap exactly when some token of one audience would be accepted by both, token types aside |
| Routing.OneAudienceOneClient | src/acl_identity.cpp:637-706 | in a fully validated model without conditions a token with one audience is accepted by at most one client of its issuer at each specificity |
| Routing.RoutingIsDecided | src/acl_identity.cpp:694-706 | such a token never has two best clients |
| Routing.EnoughExactly | src/acl_identity.cpp:904-928 | the check at write time is enough for a token exactly when the token has one audience |
| Routing.PartialCheckIsEnoughExactly | src/acl_identity.cpp:841-849 | a write that judges only what it touches keeps all clients apart exactly when no written client shares an audience with the secret ones of an untouched client of its issuer, specificity and party, both without conditions |
| Routing.SecretAudiencesUnseen | src/acl_identity.cpp:841-849 | a finding: a write that passes although its client takes the audience another keeps in its secret |
| RoleDerivation.RolesFor | src/acl_identity.cpp:708-750 | the nested loops answer the roles asked for, in order |
| RoleDerivation.RolesAreThoseReached | src/acl_identity.cpp:708-750 | read off the claims: the roles are duplicate-free in any case, each is reached, each reached is there, and a privileged one only through the client's own mapping |
| RoleDerivation.RolesInOrder | src/acl_identity.cpp:708-750 | the roles are in the order first asked for, each spelled as it was then |
| IdentityWrite.DiffRows | src/acl_catalog_admin.cpp:4025-4044 | the loops answer the deletes of rows gone and the inserts of rows new |
| IdentityWrite.EditStatements | src/acl_catalog_admin.cpp:4090-4096 | every delete comes before any insert |
| IdentityWrite.EditYieldsTheNewRows | src/acl_catalog_admin.cpp:4090-4096 | the statements never meet a key that is taken and leave exactly the new rows, for all contents with unique keys |
| IdentityWrite.InsertFirstCollides | src/acl_catalog_admin.cpp:4090 | inserting a changed row before its delete would meet its own key |
| SessionNotifier.EveryRunIsSound | src/acl_session_hooks.cpp:24-98 | in every interleaving of openers, closers and flushers no close is told before its session's open, and every close asked for is in one place |
| SessionNotifier.ReplacedExactly | src/acl_session_hooks.cpp:65-68 | in every interleaving some close is lost exactly when a session is closed twice before its open is over - read off the steps alone |
| SessionNotifier.OneClosePerSession | src/acl_session_hooks.cpp:60-82 | with one close per session each close is told once or is in exactly one of deferred, queued or a batch |
| SessionNotifier.QuietMeansDelivered | src/acl_session_hooks.cpp:72-98 | once nothing is opening, queued or in a batch, the closes told are exactly those asked for and not replaced |
| SessionNotifier.SecondCloseReplacesFirst | src/acl_session_hooks.cpp:65-68 | a finding: a second close of a session still opening replaces the first, whose reason is never told |
| SessionNotifierObject.Notifier.BeginOpen | src/acl_session_hooks.cpp:24-30 | from here the session's close waits for its open |
| SessionNotifierObject.Notifier.TellOpen | src/acl_session_hooks.cpp:36-47 | every observer hears of the open, those that throw are counted |
| SessionNotifierObject.Notifier.EndOpen | src/acl_session_hooks.cpp:48-56 | a close that came meanwhile is queued |
| SessionNotifierObject.Notifier.QueueClose | src/acl_session_hooks.cpp:60-70 | a close is deferred while its open is being delivered |
| SessionNotifierObject.Notifier.Flush | src/acl_session_hooks.cpp:72-98 | a flusher takes every queued close and tells every observer of each, in order, whoever throws |
| SessionNotifierObject.EachObserverEachClose | src/acl_session_hooks.cpp:85-97 | every observer is called once for every close of a batch |

## Left out

- Rows are sets, not multisets: every tracked table has a primary key, so no row occurs twice. The
  columns of a row that no rule looks at (`created_by`, comments and the like) are one opaque text.
- SQL text, connections, the parser, the binder and its probes. What a registration probes from its
  source, and what an expansion reads of it, are parameters.
- Retries and sleeps on conflicts: an undo that keeps conflicting is a step given up, another writer's
  commit is a step of its own.
- A store switched away and back inside one transaction: the versions a transaction keeps do not name
  their store, so the interleavings are those of one store; an undo of another store's write is
  refused, and that is modelled.
- A rename to the same name, and to a name that has a record: the rewriter refuses both before the
  writers run (`src/acl_rewriter.cpp:1476-1484`).
- `CatalogDropSchemaAlias`: it deletes a schema's own rows without rebuilding the subtree
  (`src/acl_catalog_admin.cpp:3243-3246`), so the capability invariant is stated for grant, revoke and
  creation.
- SchemaCaps.InterleavedChangesSettle: compares roles exactly; the rebuild groups roles case-insensitively
  (`src/acl_catalog_admin.cpp:2211-2221`), which differs only for roles equal up to case.
- Malformed keys inside the schema capability tables; the reader's treatment of malformed keys is in
  `NamePath`.
- Function keys are compared as their four parts in lower case; the source joins the parts with a
  separator character, which tells keys apart while no part holds that character. The two indexes
  (scalar and table) are one map whose keys carry the kind.
- FunctionModel.FunctionCategoryModel.AdmittedKeys: states the keys listed and not their order, because
  the source walks unordered maps.
- The sorted listings of categories, members and grants, and the shipped seed table.
- File sinks, metrics and JSON rendering of the audit: whether an event was lost to the file is a
  parameter. Calls of sinks and observers are recorded, not what they do.
- RoleDerivation.RolesAreThoseReached: of the privileged roles dropped it states only that they are
  privileged, because which of them are noted depends on the order of the mappings.
- A client or issuer whose secret cannot be read, issuer checks, attribute extraction, OIDC discovery
  and the token's signature and JSON: claims are texts by path.
- An edit of identity compares rows by their rendering, so a row stored in an older rendering that
  means the same is left as it is; rows are modelled as what they mean.
- `acl_check_catalog` and its repairs, references, keys and comments as operations of their own.
