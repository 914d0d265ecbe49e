# Family-tree relationship store, modelled in Dafny

The family-tree service keeps three tables: trees, members and relationships.
A relationship is a spouse, parent-child or sibling edge between two members of
one tree. Its request handlers are the only logic in the repository:

- POST creates a tree together with its root person.
- POST adds a partner and links them with a spouse edge.
- POST adds a batch of children. Each child gets parent-child edges from the
  parent and, when one is found, from the parent's spouse. Every pair of new
  children gets a sibling edge.
- PATCH builds a partial update of a tree or a member from the fields the
  caller supplied.
- DELETE removes a tree, a member or a relationship, scoped by tree, and
  answers 404 when nothing matched.

This project models those handlers as methods of a `Store` class. The class
holds the three tables as sequences of rows, and one identity sequence per
table.

A transaction is a snapshot: BEGIN captures `State()`, the writes change the
fields in place, and ROLLBACK puts the snapshot back. A failing storage engine
is a parameter: `failAt == Some(w)` rejects write number `w` of the
transaction. With that parameter the model proves the following:

- every failure path leaves the store exactly as it was;
- every guard answers with the message and status the handler uses;
- a successful call writes exactly the rows the handler inserts.

The store also keeps a referential invariant, `Consistent`:

- every member belongs to an existing tree;
- both ends of every relationship are members of that relationship's tree;
- every identity lies below its sequence's next value.

Every handler preserves this invariant.

Files:
- `rows.dfy`: row types and JSON-like values, with JavaScript truthiness and
  the `|| null` idiom, plus the handlers' outcomes.
- `tables.dfy`: the store as a value, the invariant, the lookups, and the
  deletes with their cascade.
- `edges.dfy`: the edge lists add-children writes, and their counting and
  shape lemmas.
- `patch.dfy`: the SET-clause builder and the meaning of the update statement
  it produces.
- `store.dfy`: the `Store` class and its handlers.

## Model

| member | source | states |
|---|---|---|
| FamilyStore.Store.CreateTree | src/index.js:15-64 | Three outcomes. A falsy treeName, a missing rootPerson or a falsy firstName is the 400, before any write; only a rejected write is a 500, and it leaves the store unchanged. Success adds exactly one tree, under a fresh id and with the description or-ed with null, and one member of that tree with no relationship touching it. The invariant is kept. |
| FamilyStore.Store.AddPartner | src/index.js:67-127 | Four outcomes. A falsy partner.firstName is the 400 before the transaction. A member not in the tree is the 404, with the store rolled back to what it was. Any other failure is a rejected write, also rolled back. Success adds exactly one member and one spouse row (member1 is the member, member2 the partner), and each is then the other's partner. |
| FamilyStore.Store.AddChildren | src/index.js:130-247 | A missing, non-array or empty batch is the 400 before any write. A parent not in the tree is the 404, and a parent already on the child side of a parent-child row is the 400; both leave the store unchanged. Otherwise the first entry that is null or has no firstName decides: null is a 500, no firstName a 400, and either way everything is rolled back. Any other failure is a rejected write, answered with the 500, so these five are the only errors. Success appends the n children in input order and exactly the rows of BatchEdges, and keeps the invariant. |
| FamilyStore.Store.FindPartner | src/index.js:167-176 | Returns none exactly when no spouse row names the member on either side. Otherwise it returns one of the counterparts, chosen nondeterministically. |
| FamilyStore.Store.WriteBatch | src/index.js:178-231 | The writes of add-children. It reports the first rejected entry or a storage error. On success the store is the old store extended by the children and the rows of every batch edge. |
| FamilyStore.Store.InsertEntry | src/index.js:180-201 | The per-entry check. A null entry is a 500 and a falsy firstName a 400. A valid entry inserts the child and its parent-child rows. |
| FamilyStore.Store.InsertChild | src/index.js:186-217 | Inserts the child row, one parent-child row from the parent, and one from the partner exactly when a partner was found. Any of these writes may be rejected. |
| FamilyStore.Store.InsertChildren | src/index.js:180-220 | The first loop. It succeeds exactly when every entry passes, and without faults the error is the one the first rejected entry gives. On success the k-th child is the member under the k-th fresh id, and the relationship table gains ParentEdges in order. |
| FamilyStore.Store.InsertSiblingRow | src/index.js:224-230 | The inner loop. It writes a sibling row from created[i] to every later child, in order, and leaves the rest of the store alone. |
| FamilyStore.Store.InsertSiblings | src/index.js:222-231 | The nested loops. The relationship table gains exactly SiblingEdges of the new children, and nothing else changes. |
| FamilyStore.Store.Rollback | src/index.js:58 | The store is put back to the snapshot, invariant included. |
| FamilyStore.Store.InsertTree | src/index.js:29-33 | Appends one tree under the next tree id. |
| FamilyStore.Store.InsertMember | src/index.js:36-49 | Appends one member with firstName as given and every other field or-ed with null. The tree must exist (foreign key). |
| FamilyStore.Store.InsertRelationship | src/index.js:108-112 | Appends one relationship under the next id. Both ends must be members of the relationship's own tree: a foreign key only demands that they exist, so this is the discipline every caller follows, and `Consistent` records it. |
| FamilyStore.Store.PatchTree | src/index.js:353-389 | No defined field is the 400, with nothing changed. A missing tree is the 404, with nothing changed. A defined field on an existing tree always succeeds. Success patches exactly the row with that id, as the caller asked, and returns that row patched. The invariant is kept. |
| FamilyStore.Store.UpdateTrees | src/index.js:375-378 | Running the statement rewrites every selected row and returns exactly the rewritten selected rows. |
| FamilyStore.Store.PatchMember | src/index.js:392-449 | The same for a member, scoped by tree: a member of another tree is the 404, and a defined field on a member of the tree always succeeds. |
| FamilyStore.Store.UpdateMembers | src/index.js:434-438 | Running the statement rewrites every selected row and returns exactly the rewritten selected rows. |
| FamilyStore.Store.DeleteTree | src/index.js:456-474 | The store becomes RemoveTree of the old one. It is a 404 exactly when no tree has the id, and then nothing changed. Otherwise the deleted row is returned. |
| FamilyStore.Store.DeleteMember | src/index.js:477-495 | The store becomes RemoveMember of the old one. It is a 404 exactly when the tree has no such member, and then nothing changed. |
| FamilyStore.Store.DeleteRelationship | src/index.js:498-516 | The store becomes RemoveRelationship of the old one. It is a 404 exactly when the tree has no such relationship, and then nothing changed. |
| FamilyStore.BatchRowsCount | src/index.js:203-231 | One add-children call writes n or 2n parent-child rows plus n(n-1)/2 sibling rows. |
| FamilyStore.BatchRowsShape | src/index.js:203-231 | Every row of a batch belongs to the tree, and none is a spouse row. A parent-child row runs from the parent or the partner to a new child. A sibling row runs from an earlier child to a later one. |
| FamilyStore.BatchChildrenAreChildren | src/index.js:153-165 | After a batch, every new child is on the child side of a parent-child row of the tree, so a later add-children call made directly on a new child is refused. |
| FamilyStore.SpouseOfChildBecomesParent | src/index.js:153-176 | The guard checks only the member the children are added to. Take a member that passes the guard, whose spouse is a child of the tree. The batch still writes a parent-child row from that spouse to every new child, and the spouse stays a child. |
| FamilyStore.SpouseOfChildReachable | src/index.js:15-247 | The handlers alone reach that situation. On a new store it calls CreateTree (root a), AddChildren(a, [c]) and AddPartner(c, p), and the resulting store satisfies the invariant, has c as a child, does not have p as a child, and has c as p's only partner, so the spouse lookup for p can only find c. |
| FamilyStore.BatchConsistent | src/index.js:180-231 | A successful batch keeps the referential invariant. |
| ChildEdges.ParentEdgesCount | src/index.js:203-217 | n children get n parent-child edges, or 2n when a partner was found. |
| ChildEdges.ParentEdgesCover | src/index.js:203-217 | Every child gets an edge from the parent, and one from the partner when there is one. |
| ChildEdges.ParentEdgesOnly | src/index.js:203-217 | Every edge of the first loop is parent-child, ends at a new child, and starts at the parent or the partner. |
| ChildEdges.SiblingEdgesCount | src/index.js:222-231 | n children get n(n-1)/2 sibling edges; a single child gets none. |
| ChildEdges.SiblingEdgesMembers | src/index.js:222-231 | The sibling edges are exactly the edges kids[i] to kids[j] with i < j. |
| ChildEdges.SiblingEdgesExactlyOnce | src/index.js:222-231 | With distinct children, each such pair occurs exactly once. |
| Patch.SetClause.Add | src/index.js:362-365 | A defined field takes the next placeholder and appends its value; an undefined one changes nothing. The placeholders stay $1..$k. |
| Patch.BuildTreeUpdate | src/index.js:358-376 | No statement exactly when no field is defined. Otherwise there is one SET entry per defined field, in declaration order, numbered $1..$k, and the id is at $k+1. |
| Patch.BuildMemberUpdate | src/index.js:397-436 | The same for the seven member fields, with the member id at $k+1 and the tree id at $k+2. |
| Patch.TreeUpdateEffect | src/index.js:362-369 | Applying the SET list gives the tree with supplied fields replaced and the rest kept. |
| Patch.MemberUpdateEffect | src/index.js:401-428 | Applying the SET list gives the member with supplied fields replaced and the rest kept. |
| Patch.TreeStatementMeaning | src/index.js:375-378 | The statement selects exactly the row with that id and patches it as the caller meant. |
| Patch.MemberStatementMeaning | src/index.js:434-438 | The statement selects exactly the row with that id in that tree and patches it as the caller meant. |
| Patch.PatchTreesMissing | src/index.js:378-382 | With no row for that id, the update changes nothing. |
| Patch.PatchMembersMissing | src/index.js:438-442 | With no row for that id in that tree, the update changes nothing. |
| Patch.PatchTreesReturns | src/index.js:378-384 | The row is still found after the update exactly when it was before, and each returned row is an old row patched. |
| Patch.PatchMembersReturns | src/index.js:438-444 | The row is still found after the update exactly when it was before, and each returned row is an old row patched. |
| Patch.PatchTreesConsistent | src/index.js:376-378 | Patching a tree keeps the referential invariant. |
| Patch.PatchMembersConsistent | src/index.js:435-438 | Patching a member keeps its identity and tree, so the invariant holds. |
| Tables.Filter | src/index.js:481-484 | The rows left by a scoped delete: exactly the non-matching ones, never more than before, and all of them when none matches. |
| Tables.RemoveTree | src/index.js:455-463 | The tree goes, and by the cascade so do its members and relationships; nothing else does. |
| Tables.RemoveMember | src/index.js:476-484 | The member goes, and when it did, so does every relationship naming it. A member of another tree is not touched. |
| Tables.RemoveRelationship | src/index.js:497-505 | Exactly the row with that id in that tree goes. |
| Tables.RemoveMissingTree | src/index.js:460-466 | Deleting a tree that does not exist deletes nothing, cascade included. |
| Tables.RemoveTreeConsistent | src/index.js:455-463 | A tree delete with its cascade leaves no dangling reference. |
| Tables.RemoveMemberConsistent | src/index.js:476-484 | A member delete with its cascade leaves no dangling reference. |
| Tables.RemoveRelationshipConsistent | src/index.js:497-505 | A relationship delete leaves no dangling reference, since no row refers to a relationship. |
| Tables.AddTreeConsistent | src/index.js:29-33 | Inserting a tree under the next id keeps the invariant. |
| Tables.AddMembersConsistent | src/index.js:36-49 | Inserting members of existing trees under consecutive fresh ids keeps the invariant. |
| Tables.AddRelationshipsConsistent | src/index.js:108-112 | Inserting relationships between members of their tree, under fresh ids, keeps the invariant. |

## Left out

- The GET endpoints are not modelled: listing, fetching and the read views.
  Neither is their ordering (newest first; members by birth year, with the
  database's null placement) nor the LEFT JOINs that add display names.
- HTTP plumbing is not modelled: routing, request parsing, connection
  handling, the response bodies beyond the returned rows, the error `message`
  text of a 500, and console logging.
- Timestamps (created_at, updated_at) are not modelled.
- Route parameters are typed ids. A non-numeric parameter, which the database
  rejects with a 500, is not modelled.
- The identity sequences are part of the snapshot, so a rollback also rewinds
  them. A database sequence is not rolled back, but no proved property depends
  on the exact value of a fresh identity, only on its freshness.
- Storage faults are modelled only on the writes inside the three
  transactions. A failure of a PATCH or DELETE statement is an ordinary 500
  with no write, and is not modelled.
- The cascade of the deletes is an assumption. The schema that declares it is
  not part of this model.
- The member cascade removes every relationship naming the member id,
  whatever tree the relationship is in, as a foreign key on the member
  columns would. Under the invariant, relationships only link members of
  their own tree.
- Two generations at most is not an invariant of the service, and the model
  does not claim it. The guard refuses children only to a member who is
  already a child. A parent-child row from the member's spouse is written
  without any check, so a spouse who is a child becomes a parent
  (SpouseOfChildBecomesParent, SpouseOfChildReachable).
- Primary-key uniqueness is not part of the invariant, only freshness of new
  identities.
- Column types, NOT NULL constraints and string lengths are not modelled: a
  value of any kind is stored as given.
- Numbers are unbounded integers. JavaScript floating point and NaN are not
  modelled.
- Concurrent requests are not modelled. The guards are plain reads, and the
  model is sequential.
- generate-collection.js is not part of this model. It is a build-time script
  that writes an API collection file.
- Add-children's truthiness test on the partner id is modelled as "a partner
  was found". The two coincide because identities start at 1 and so are never
  falsy.
