/**
 * The relationship-integrity engine: the request handlers of the family-tree
 * service as methods over an in-memory store. A transaction takes a snapshot
 * at BEGIN, writes in place, and ROLLBACK puts the snapshot back, so every
 * failure path leaves the store as it found it.
 */
module FamilyStore {
  import opened Rows
  import opened Tables
  import opened ChildEdges
  import opened Patch

  /** Body of the 201 response of tree creation. */
  datatype TreeCreated = TreeCreated(tree: Tree, rootPerson: Member)

  /** Body of the 201 response of partner addition: the new member and the spouse pair. */
  datatype PartnerAdded = PartnerAdded(partner: Member, relationship: Edge)

  /** Body of the 201 response of children addition. */
  datatype ChildrenAdded = ChildrenAdded(children: seq<Member>, parentId: Id, partnerId: Option<Id>)

  /**
   * The storage engine's behaviour, which the model takes as a parameter:
   * `failAt == Some(w)` makes the engine reject the write with ordinal `w`
   * (counted from 0) of the transaction.
   */
  predicate Faults(failAt: Option<nat>, w: nat)
  {
    failAt == Some(w)
  }

  /** A child entry the loop accepts: an object whose firstName is truthy. */
  predicate ChildOk(c: Option<PersonInput>)
  {
    c.Some? && Truthy(c.value.firstName)
  }

  /** The relationship rows a sequence of edges becomes when inserted from identity `firstId` on. */
  function RelationshipRows(firstId: Id, treeId: Id, edges: seq<Edge>): seq<Relationship>
  {
    seq(|edges|, k requires 0 <= k < |edges| => Relationship(firstId + k, treeId, edges[k]))
  }

  /** The first entry the per-child check rejects. */
  predicate FirstRejected(cs: seq<Option<PersonInput>>, k: int)
  {
    0 <= k < |cs| && !ChildOk(cs[k]) && forall j :: 0 <= j < k ==> ChildOk(cs[j])
  }

  /** Inserting two runs of edges one after the other writes the rows of their concatenation. */
  lemma RelationshipRowsConcat(rels: seq<Relationship>, firstId: Id, treeId: Id, a: seq<Edge>, b: seq<Edge>)
    ensures rels + RelationshipRows(firstId, treeId, a) + RelationshipRows(firstId + |a|, treeId, b)
         == rels + RelationshipRows(firstId, treeId, a + b)
  {
    assert RelationshipRows(firstId, treeId, a + b)
        == RelationshipRows(firstId, treeId, a) + RelationshipRows(firstId + |a|, treeId, b);
  }

  lemma RelationshipRowsAppend(firstId: Id, treeId: Id, edges: seq<Edge>, e: Edge)
    ensures RelationshipRows(firstId, treeId, edges + [e])
         == RelationshipRows(firstId, treeId, edges) + [Relationship(firstId + |edges|, treeId, e)]
  {
  }

  /**
   * After a successful add-children call every new child is the child side of
   * a parent-child edge of the tree, so a later add-children call made
   * directly on any of them is refused.
   */
  lemma {:induction false} BatchChildrenAreChildren(
    rels: seq<Relationship>, firstId: Id, treeId: Id, parent: Id, partner: Option<Id>, kids: seq<Id>)
    ensures forall k :: 0 <= k < |kids| ==>
              IsChild(rels + RelationshipRows(firstId, treeId, BatchEdges(parent, partner, kids)),
                      treeId, kids[k])
  {
    var edges := BatchEdges(parent, partner, kids);
    var all := rels + RelationshipRows(firstId, treeId, edges);
    forall k | 0 <= k < |kids|
      ensures IsChild(all, treeId, kids[k])
    {
      ParentEdgesCover(parent, partner, kids, k);
      var x :| 0 <= x < |ParentEdges(parent, partner, kids)| && ParentEdges(parent, partner, kids)[x] == Edge(parent, kids[k], ParentChild);
      assert all[|rels| + x] == Relationship(firstId + x, treeId, Edge(parent, kids[k], ParentChild));
    }
  }

  /**
   * The guard tests only the member the children are added to, never the
   * spouse the lookup finds. When that spouse is itself a child of the tree,
   * the batch still writes a parent-child row from the spouse to every new
   * child: a child becomes a parent through its spouse.
   */
  lemma {:induction false} SpouseOfChildBecomesParent(
    rels: seq<Relationship>, firstId: Id, treeId: Id, parent: Id, spouse: Id, kids: seq<Id>)
    requires !IsChild(rels, treeId, parent)
    requires spouse in PartnerIds(rels, treeId, parent)
    requires IsChild(rels, treeId, spouse)
    ensures var after := rels + RelationshipRows(firstId, treeId, BatchEdges(parent, Some(spouse), kids));
      && IsChild(after, treeId, spouse)
      && forall k :: 0 <= k < |kids| ==>
           exists rel :: rel in after && rel.treeId == treeId && rel.edge == Edge(spouse, kids[k], ParentChild)
  {
    var pe := ParentEdges(parent, Some(spouse), kids);
    var after := rels + RelationshipRows(firstId, treeId, BatchEdges(parent, Some(spouse), kids));
    var up :| up in rels && up.treeId == treeId && up.edge.member2 == spouse && up.edge.kind == ParentChild;
    assert up in after;
    forall k | 0 <= k < |kids|
      ensures exists rel :: rel in after && rel.treeId == treeId && rel.edge == Edge(spouse, kids[k], ParentChild)
    {
      ParentEdgesCover(parent, Some(spouse), kids, k);
      var x :| 0 <= x < |pe| && pe[x] == Edge(spouse, kids[k], ParentChild);
      assert after[|rels| + x] == Relationship(firstId + x, treeId, Edge(spouse, kids[k], ParentChild));
    }
  }

  /**
   * The situation above arises from the handlers alone. On an empty store,
   * create a tree with root a, add child c to a, then partner p to c. Now p
   * is no child, so the guard lets children be added to p, and the spouse
   * lookup for p finds c, who is a child.
   */
  method SpouseOfChildReachable() returns (s: Store, treeId: Id, a: Id, c: Id, p: Id)
    ensures s.Valid()
    ensures HasMember(s.members, treeId, a) && HasMember(s.members, treeId, c) && HasMember(s.members, treeId, p)
    ensures IsChild(s.relationships, treeId, c)
    ensures !IsChild(s.relationships, treeId, p)
    ensures PartnerIds(s.relationships, treeId, p) == {c}
  {
    s, treeId, a, c := RootWithChild();
    ghost var up :| up in s.relationships && up.treeId == treeId && up.edge.member2 == c && up.edge.kind == ParentChild;
    ghost var rels1, fresh1, relId1 := s.relationships, s.nextMemberId, s.nextRelationshipId;
    ghost var cm :| cm in s.members && cm.id == c && cm.treeId == treeId;
    assert c < fresh1;
    assert forall rel :: rel in rels1 ==> rel.edge.kind != Spouse && rel.edge.member2 != fresh1 by {
      forall rel | rel in rels1 ensures rel.edge.member2 != fresh1 {
        var m :| m in s.members && m.id == rel.edge.member2 && m.treeId == rel.treeId;
      }
    }
    var person := PersonInput(Null, Str("P"), Null, Null, Null, Null, Null);
    var partnered := s.AddPartner(treeId, c, Some(person), None);
    p := partnered.value.partner.id;
    assert s.relationships == rels1 + [Relationship(relId1, treeId, Edge(c, p, Spouse))];
    OneSpouseRow(rels1, relId1, treeId, c, p);
    assert up in s.relationships;
    assert partnered.value.partner in s.members;
  }

  /**
   * A spouse row c-p appended to rows that hold no spouse row and do not
   * have p as a child: c is then p's only partner, and p is still no child.
   */
  lemma OneSpouseRow(rels: seq<Relationship>, id: Id, treeId: Id, c: Id, p: Id)
    requires c != p
    requires forall rel :: rel in rels ==> rel.edge.kind != Spouse && rel.edge.member2 != p
    ensures !IsChild(rels + [Relationship(id, treeId, Edge(c, p, Spouse))], treeId, p)
    ensures PartnerIds(rels + [Relationship(id, treeId, Edge(c, p, Spouse))], treeId, p) == {c}
  {
    var row := Relationship(id, treeId, Edge(c, p, Spouse));
    var after := rels + [row];
    forall rel | rel in after && rel.edge.kind == Spouse ensures rel == row {
      assert rel !in rels;
    }
    assert row in after;
  }

  /** The first two calls of the scenario: a new tree with root a, and child c added to a. */
  method RootWithChild() returns (s: Store, treeId: Id, a: Id, c: Id)
    ensures fresh(s) && s.Valid()
    ensures HasMember(s.members, treeId, a) && HasMember(s.members, treeId, c)
    ensures IsChild(s.relationships, treeId, c)
    ensures forall rel :: rel in s.relationships ==> rel.edge.kind != Spouse
  {
    var person := PersonInput(Null, Str("A"), Null, Null, Null, Null, Null);
    s := new Store();
    var created := s.CreateTree(Str("T"), Null, Some(person), None);
    treeId, a := created.value.tree.id, created.value.rootPerson.id;
    assert created.value.rootPerson in s.members;
    ghost var rels0, next0 := s.relationships, s.nextRelationshipId;
    var child := PersonInput(Null, Str("C"), Null, Null, Null, Null, Null);
    var added := s.AddChildren(treeId, a, Some([Some(child)]), None);
    assert ChildOk(Some(child));
    var kids := added.value.children;
    c := kids[0].id;
    assert kids[0] in s.members;
    BatchChildrenAreChildren(rels0, next0, treeId, a, added.value.partnerId, Ids(kids));
    assert Ids(kids)[0] == c;
    forall rel | rel in s.relationships ensures rel.edge.kind != Spouse {
      BatchRowsShape(next0, treeId, a, added.value.partnerId, Ids(kids), rel);
    }
  }

  /**
   * The rows one add-children call writes number n or 2n parent-child rows
   * plus n(n-1)/2 sibling rows.
   */
  lemma BatchRowsCount(firstId: Id, treeId: Id, parent: Id, partner: Option<Id>, kids: seq<Id>)
    ensures 2 * |RelationshipRows(firstId, treeId, BatchEdges(parent, partner, kids))|
         == 2 * (if partner.Some? then 2 * |kids| else |kids|) + |kids| * (|kids| - 1)
  {
    ParentEdgesCount(parent, partner, kids);
    SiblingEdgesCount(kids);
  }

  /**
   * Every row one add-children call writes belongs to the tree and touches
   * only the parent, the partner found, and the new children: parent-child
   * rows from the parent or partner to a child, sibling rows from an earlier
   * child to a later one, and no spouse rows.
   */
  lemma BatchRowsShape(firstId: Id, treeId: Id, parent: Id, partner: Option<Id>, kids: seq<Id>, rel: Relationship)
    requires rel in RelationshipRows(firstId, treeId, BatchEdges(parent, partner, kids))
    ensures rel.treeId == treeId
    ensures rel.edge.kind != Spouse
    ensures rel.edge.kind == ParentChild ==>
              rel.edge.member2 in kids && (rel.edge.member1 == parent || partner == Some(rel.edge.member1))
    ensures rel.edge.kind == Sibling ==>
              exists i, j :: 0 <= i < j < |kids| && rel.edge.member1 == kids[i] && rel.edge.member2 == kids[j]
  {
    var pe := ParentEdges(parent, partner, kids);
    var se := SiblingEdges(kids);
    var rows := RelationshipRows(firstId, treeId, pe + se);
    var x :| 0 <= x < |rows| && rows[x] == rel;
    if x < |pe| {
      assert rel.edge == pe[x];
      ParentEdgesOnly(parent, partner, kids, pe[x]);
    } else {
      var e := se[x - |pe|];
      assert rel.edge == e;
      SiblingPrefixMembers(kids, |kids|, e);
      var a, b :| 0 <= a < |kids| && a < b < |kids| && e == Edge(kids[a], kids[b], Sibling);
      assert rel.edge.member1 == kids[a] && rel.edge.member2 == kids[b];
    }
  }

  /**
   * The store after a successful add-children call: the new members, then
   * the rows of every edge of the batch under consecutive identities.
   */
  function WithBatch(db: Db, treeId: Id, parent: Id, partner: Option<Id>, created: seq<Member>): Db
  {
    var edges := BatchEdges(parent, partner, Ids(created));
    db.(members := db.members + created, nextMemberId := db.nextMemberId + |created|,
        relationships := db.relationships + RelationshipRows(db.nextRelationshipId, treeId, edges),
        nextRelationshipId := db.nextRelationshipId + |edges|)
  }

  /**
   * A successful add-children call keeps the referential invariant: the new
   * members belong to the tree, and every new row links two members of it.
   */
  lemma BatchConsistent(db: Db, treeId: Id, parent: Id, partner: Option<Id>, kids: seq<Member>)
    requires Consistent(db)
    requires HasMember(db.members, treeId, parent)
    requires partner.Some? ==> HasMember(db.members, treeId, partner.value)
    requires forall k :: 0 <= k < |kids| ==> kids[k].id == db.nextMemberId + k && kids[k].treeId == treeId
    ensures Consistent(WithBatch(db, treeId, parent, partner, kids))
  {
    var ids := Ids(kids);
    var edges := BatchEdges(parent, partner, ids);
    var rows := RelationshipRows(db.nextRelationshipId, treeId, edges);
    var owner :| owner in db.members && owner.id == parent && owner.treeId == treeId;
    assert HasTree(db.trees, treeId);
    AddMembersConsistent(db, kids);
    var db1 := db.(members := db.members + kids, nextMemberId := db.nextMemberId + |kids|);
    assert HasMember(db1.members, treeId, parent) by {
      assert owner in db1.members;
    }
    if partner.Some? {
      var spouse :| spouse in db.members && spouse.id == partner.value && spouse.treeId == treeId;
      assert spouse in db1.members;
    }
    forall x | x in ids
      ensures HasMember(db1.members, treeId, x)
    {
      var i :| 0 <= i < |ids| && ids[i] == x;
      assert kids[i] in db1.members;
    }
    forall k | 0 <= k < |rows|
      ensures rows[k].id == db1.nextRelationshipId + k
      ensures HasMember(db1.members, rows[k].treeId, rows[k].edge.member1)
      ensures HasMember(db1.members, rows[k].treeId, rows[k].edge.member2)
    {
      BatchRowsShape(db.nextRelationshipId, treeId, parent, partner, ids, rows[k]);
      if rows[k].edge.kind == Sibling {
        var i, j :| 0 <= i < j < |ids| && rows[k].edge.member1 == ids[i] && rows[k].edge.member2 == ids[j];
      }
    }
    AddRelationshipsConsistent(db1, rows);
  }

  /** The store after one child is inserted with its parent-child rows. */
  function WithChild(db: Db, treeId: Id, parent: Id, partner: Option<Id>, person: Member): Db
  {
    var edges := EdgesForChild(parent, partner, person.id);
    db.(members := db.members + [person], nextMemberId := db.nextMemberId + 1,
        relationships := db.relationships + RelationshipRows(db.nextRelationshipId, treeId, edges),
        nextRelationshipId := db.nextRelationshipId + |edges|)
  }

  /** The store after the first loop of add-children has inserted `created`, each with its parent-child rows. */
  function WithChildren(db: Db, treeId: Id, parent: Id, partner: Option<Id>, created: seq<Member>): Db
  {
    var edges := ParentEdges(parent, partner, Ids(created));
    db.(members := db.members + created, nextMemberId := db.nextMemberId + |created|,
        relationships := db.relationships + RelationshipRows(db.nextRelationshipId, treeId, edges),
        nextRelationshipId := db.nextRelationshipId + |edges|)
  }

  /** One more pass of the first loop inserts one more child with its rows. */
  lemma WithChildrenStep(db: Db, treeId: Id, parent: Id, partner: Option<Id>, created: seq<Member>, person: Member)
    ensures WithChildren(db, treeId, parent, partner, created + [person])
         == WithChild(WithChildren(db, treeId, parent, partner, created), treeId, parent, partner, person)
  {
    var kids := Ids(created);
    assert Ids(created + [person]) == kids + [person.id];
    ParentEdgesSnoc(parent, partner, kids, person.id);
    RelationshipRowsConcat(db.relationships, db.nextRelationshipId, treeId,
      ParentEdges(parent, partner, kids), EdgesForChild(parent, partner, person.id));
    assert db.members + created + [person] == db.members + (created + [person]);
  }

  class Store {
    var trees: seq<Tree>
    var members: seq<Member>
    var relationships: seq<Relationship>
    var nextTreeId: Id
    var nextMemberId: Id
    var nextRelationshipId: Id

    /** The whole store as a value: what BEGIN captures. */
    function State(): Db
      reads this
    {
      Db(trees, members, relationships, nextTreeId, nextMemberId, nextRelationshipId)
    }

    ghost predicate Valid()
      reads this
    {
      Consistent(State())
    }

    /** An empty database whose sequences start at 1. */
    constructor ()
      ensures Valid()
      ensures trees == [] && members == [] && relationships == []
    {
      trees, members, relationships := [], [], [];
      nextTreeId, nextMemberId, nextRelationshipId := 1, 1, 1;
    }

    // -------------------------------------------------------------------------
    // Storage gateway: transaction brackets and the INSERT statements

    /** BEGIN: remember what ROLLBACK returns to. */
    method Begin() returns (snapshot: Db)
      ensures snapshot == State()
    {
      snapshot := State();
    }

    /** ROLLBACK: every write since BEGIN is undone. */
    method Rollback(snapshot: Db)
      requires Consistent(snapshot)
      modifies this
      ensures Valid() && State() == snapshot
    {
      trees, members, relationships := snapshot.trees, snapshot.members, snapshot.relationships;
      nextTreeId, nextMemberId, nextRelationshipId := snapshot.nextTreeId, snapshot.nextMemberId, snapshot.nextRelationshipId;
    }

    /** Insert a tree row under the next tree identity and return it. */
    method InsertTree(name: Value, description: Value) returns (t: Tree)
      modifies this
      ensures t == Tree(old(nextTreeId), name, description)
      ensures trees == old(trees) + [t] && nextTreeId == old(nextTreeId) + 1
      ensures members == old(members) && relationships == old(relationships)
      ensures nextMemberId == old(nextMemberId) && nextRelationshipId == old(nextRelationshipId)
    {
      t := Tree(nextTreeId, name, description);
      trees := trees + [t];
      nextTreeId := nextTreeId + 1;
    }

    /**
     * Insert a member row for one person of a request under the next member
     * identity; the foreign key on the tree column demands an existing tree.
     */
    method InsertMember(treeId: Id, p: PersonInput) returns (m: Member)
      requires HasTree(trees, treeId)
      modifies this
      ensures m == NewMember(old(nextMemberId), treeId, p)
      ensures members == old(members) + [m] && nextMemberId == old(nextMemberId) + 1
      ensures trees == old(trees) && relationships == old(relationships)
      ensures nextTreeId == old(nextTreeId) && nextRelationshipId == old(nextRelationshipId)
    {
      m := NewMember(nextMemberId, treeId, p);
      members := members + [m];
      nextMemberId := nextMemberId + 1;
    }

    /**
     * Insert a relationship row under the next relationship identity; every
     * caller links two members of the tree the row belongs to.
     */
    method InsertRelationship(treeId: Id, e: Edge) returns (rel: Relationship)
      requires HasMember(members, treeId, e.member1) && HasMember(members, treeId, e.member2)
      modifies this
      ensures rel == Relationship(old(nextRelationshipId), treeId, e)
      ensures relationships == old(relationships) + [rel] && nextRelationshipId == old(nextRelationshipId) + 1
      ensures trees == old(trees) && members == old(members)
      ensures nextTreeId == old(nextTreeId) && nextMemberId == old(nextMemberId)
    {
      rel := Relationship(nextRelationshipId, treeId, e);
      relationships := relationships + [rel];
      nextRelationshipId := nextRelationshipId + 1;
    }

    // -------------------------------------------------------------------------
    // Relationship lookups

    /**
     * The spouse lookup of add-children. The two-sided query may return
     * several rows in an order the store decides; the handler takes the first,
     * which the model leaves as a nondeterministic choice among them.
     */
    method FindPartner(treeId: Id, memberId: Id) returns (partner: Option<Id>)
      ensures partner.None? <==> PartnerIds(relationships, treeId, memberId) == {}
      ensures partner.Some? ==> partner.value in PartnerIds(relationships, treeId, memberId)
    {
      var found := PartnerIds(relationships, treeId, memberId);
      if found == {} {
        partner := None;
      } else {
        var p :| p in found;
        partner := Some(p);
      }
    }

    // -------------------------------------------------------------------------
    // POST /api/trees

    /**
     * Create a tree and its root person in one transaction. Validation comes
     * before BEGIN; a storage error rolls both inserts back.
     */
    method CreateTree(treeName: Value, description: Value, rootPerson: Option<PersonInput>, failAt: Option<nat>)
      returns (r: Result<TreeCreated>)
      requires Valid()
      modifies this
      ensures Valid()
      ensures r.Fail? ==> State() == old(State())
      ensures (r == Fail(BadRequest(TreeFieldsRequired)))
                <==> (!Truthy(treeName) || rootPerson.None? || !Truthy(rootPerson.value.firstName))
      ensures r.Fail? && r.err != BadRequest(TreeFieldsRequired) ==> r.err == ServerError && failAt.Some?
      ensures r.Ok? ==>
        && r.value.tree == Tree(old(nextTreeId), treeName, OrNull(description))
        && r.value.rootPerson == NewMember(old(nextMemberId), r.value.tree.id, rootPerson.value)
        && !HasTree(old(trees), r.value.tree.id)
        && trees == old(trees) + [r.value.tree]
        && members == old(members) + [r.value.rootPerson]
        && relationships == old(relationships)
        && nextTreeId == old(nextTreeId) + 1 && nextMemberId == old(nextMemberId) + 1
        && nextRelationshipId == old(nextRelationshipId)
        && (forall rel :: rel in relationships ==>
              rel.edge.member1 != r.value.rootPerson.id && rel.edge.member2 != r.value.rootPerson.id)
      ensures failAt.None? && Truthy(treeName) && rootPerson.Some? && Truthy(rootPerson.value.firstName) ==> r.Ok?
    {
      if !Truthy(treeName) || rootPerson.None? || !Truthy(rootPerson.value.firstName) {
        return Fail(BadRequest(TreeFieldsRequired));
      }
      var snapshot := Begin();
      if Faults(failAt, 0) {
        Rollback(snapshot);
        return Fail(ServerError);
      }
      var tree := InsertTree(treeName, OrNull(description));
      if Faults(failAt, 1) {
        Rollback(snapshot);
        return Fail(ServerError);
      }
      var root := InsertMember(tree.id, rootPerson.value);
      AddTreeConsistent(snapshot, tree);
      AddMembersConsistent(snapshot.(trees := snapshot.trees + [tree], nextTreeId := snapshot.nextTreeId + 1), [root]);
      // COMMIT
      r := Ok(TreeCreated(tree, root));
    }

    // -------------------------------------------------------------------------
    // POST /api/trees/:treeId/members/:memberId/partner

    /**
     * Add a partner: a new member of the tree and one spouse row from the
     * existing member to it. A member already married gets another spouse row.
     */
    method AddPartner(treeId: Id, memberId: Id, partner: Option<PersonInput>, failAt: Option<nat>)
      returns (r: Result<PartnerAdded>)
      requires Valid()
      modifies this
      ensures Valid()
      ensures r.Fail? ==> State() == old(State())
      ensures r == Fail(BadRequest(PartnerNameRequired)) <==> partner.None? || !Truthy(partner.value.firstName)
      ensures partner.Some? && Truthy(partner.value.firstName) ==>
                (r == Fail(NotFound(MemberNotInTree)) <==> !HasMember(old(members), treeId, memberId))
      ensures r.Fail? && r.err != BadRequest(PartnerNameRequired) && r.err != NotFound(MemberNotInTree) ==>
                r.err == ServerError && failAt.Some?
      ensures r.Ok? ==>
        var p := r.value.partner;
        && p == NewMember(old(nextMemberId), treeId, partner.value)
        && r.value.relationship == Edge(memberId, p.id, Spouse)
        && members == old(members) + [p]
        && relationships == old(relationships) + [Relationship(old(nextRelationshipId), treeId, Edge(memberId, p.id, Spouse))]
        && trees == old(trees)
        && nextTreeId == old(nextTreeId) && nextMemberId == old(nextMemberId) + 1
        && nextRelationshipId == old(nextRelationshipId) + 1
        && p.id in PartnerIds(relationships, treeId, memberId)
        && memberId in PartnerIds(relationships, treeId, p.id)
      ensures (failAt.None? && partner.Some? && Truthy(partner.value.firstName)
               && HasMember(old(members), treeId, memberId)) ==> r.Ok?
    {
      if partner.None? || !Truthy(partner.value.firstName) {
        return Fail(BadRequest(PartnerNameRequired));
      }
      var snapshot := Begin();
      if !HasMember(members, treeId, memberId) {
        Rollback(snapshot);
        return Fail(NotFound(MemberNotInTree));
      }
      if Faults(failAt, 0) {
        Rollback(snapshot);
        return Fail(ServerError);
      }
      var person := InsertMember(treeId, partner.value);
      if Faults(failAt, 1) {
        Rollback(snapshot);
        return Fail(ServerError);
      }
      var rel := InsertRelationship(treeId, Edge(memberId, person.id, Spouse));
      assert rel in relationships;
      ghost var withPartner := snapshot.(members := snapshot.members + [person], nextMemberId := snapshot.nextMemberId + 1);
      AddMembersConsistent(snapshot, [person]);
      AddRelationshipsConsistent(withPartner, [rel]);
      assert State() == withPartner.(relationships := withPartner.relationships + [rel],
                                     nextRelationshipId := withPartner.nextRelationshipId + 1);
      // COMMIT
      r := Ok(PartnerAdded(person, rel.edge));
    }

    // -------------------------------------------------------------------------
    // POST /api/trees/:treeId/members/:memberId/children

    /**
     * Add a batch of children to a member who is not a child: each child gets
     * a parent-child row from the member and, when the member has a spouse
     * row, one from the partner; then every pair of new children gets a
     * sibling row. Any failure inside the transaction undoes every write of
     * the call.
     */
    method AddChildren(treeId: Id, memberId: Id, children: Option<seq<Option<PersonInput>>>, failAt: Option<nat>)
      returns (r: Result<ChildrenAdded>)
      requires Valid()
      modifies this
      ensures Valid()
      ensures r.Fail? ==> State() == old(State())
      // the guards, in the order the handler applies them
      ensures r == Fail(BadRequest(ChildrenRequired)) <==> children.None? || |children.value| == 0
      ensures children.Some? && |children.value| > 0 ==>
                (r == Fail(NotFound(ParentNotInTree)) <==> !HasMember(old(members), treeId, memberId))
      ensures children.Some? && |children.value| > 0 && HasMember(old(members), treeId, memberId) ==>
                (r == Fail(BadRequest(AlreadyAChild)) <==> IsChild(old(relationships), treeId, memberId))
      // every failure is one of the handler's answers; a storage error is the 500
      ensures r.Fail? ==> r.err in {BadRequest(ChildrenRequired), NotFound(ParentNotInTree), BadRequest(AlreadyAChild),
                                    BadRequest(ChildNameRequired), ServerError}
      // the per-child check: the first entry that is not an object with a firstName decides
      ensures r == Fail(BadRequest(ChildNameRequired)) ==>
                exists k :: FirstRejected(children.value, k) && children.value[k].Some?
      ensures (failAt.None? && children.Some? && |children.value| > 0 && HasMember(old(members), treeId, memberId)
               && !IsChild(old(relationships), treeId, memberId)) ==>
                && (r.Ok? <==> forall k :: 0 <= k < |children.value| ==> ChildOk(children.value[k]))
                && (forall k :: FirstRejected(children.value, k) ==>
                      r == Fail(if children.value[k].None? then ServerError else BadRequest(ChildNameRequired)))
      // what a successful call writes
      ensures r.Ok? ==>
        var cs := children.value;
        var kids := r.value.children;
        var partnerId := r.value.partnerId;
        && HasMember(old(members), treeId, memberId) && !IsChild(old(relationships), treeId, memberId)
        && r.value.parentId == memberId
        && (partnerId.None? <==> PartnerIds(old(relationships), treeId, memberId) == {})
        && (partnerId.Some? ==> partnerId.value in PartnerIds(old(relationships), treeId, memberId))
        && |kids| == |cs|
        && (forall k :: 0 <= k < |cs| ==> ChildOk(cs[k]) && kids[k] == NewMember(old(nextMemberId) + k, treeId, cs[k].value))
        && trees == old(trees)
        && members == old(members) + kids
        && relationships == old(relationships)
             + RelationshipRows(old(nextRelationshipId), treeId, BatchEdges(memberId, partnerId, Ids(kids)))
        && State() == WithBatch(old(State()), treeId, memberId, partnerId, kids)
    {
      if children.None? || |children.value| == 0 {
        return Fail(BadRequest(ChildrenRequired));
      }
      var snapshot := Begin();
      if !HasMember(members, treeId, memberId) {
        Rollback(snapshot);
        return Fail(NotFound(ParentNotInTree));
      }
      if IsChild(relationships, treeId, memberId) {
        Rollback(snapshot);
        return Fail(BadRequest(AlreadyAChild));
      }
      var partnerId := FindPartner(treeId, memberId);
      assert partnerId.Some? ==> HasMember(members, treeId, partnerId.value);
      var err, created := WriteBatch(treeId, memberId, partnerId, children.value, failAt);
      if err.Some? {
        Rollback(snapshot);
        return Fail(err.value);
      }
      BatchConsistent(snapshot, treeId, memberId, partnerId, created);
      // COMMIT
      r := Ok(ChildrenAdded(created, memberId, partnerId));
    }

    /**
     * The writes of add-children once the guards have passed: the first loop
     * over the entries, then the nested sibling loops. On a rejected entry or
     * a storage error it reports the error and leaves the rollback to the
     * caller.
     */
    method WriteBatch(treeId: Id, parent: Id, partner: Option<Id>, cs: seq<Option<PersonInput>>, failAt: Option<nat>)
      returns (err: Option<Error>, created: seq<Member>)
      requires HasTree(trees, treeId)
      requires HasMember(members, treeId, parent)
      requires partner.Some? ==> HasMember(members, treeId, partner.value)
      modifies this
      ensures err.Some? ==> err.value == ServerError || err.value == BadRequest(ChildNameRequired)
      ensures err == Some(BadRequest(ChildNameRequired)) ==> exists k :: FirstRejected(cs, k) && cs[k].Some?
      ensures failAt.None? ==>
                && (err.None? <==> forall k :: 0 <= k < |cs| ==> ChildOk(cs[k]))
                && (forall k :: FirstRejected(cs, k) ==>
                      err == Some(if cs[k].None? then ServerError else BadRequest(ChildNameRequired)))
      ensures err.None? ==>
        && |created| == |cs|
        && (forall k :: 0 <= k < |cs| ==> ChildOk(cs[k]) && created[k] == NewMember(old(nextMemberId) + k, treeId, cs[k].value))
        && State() == WithBatch(old(State()), treeId, parent, partner, created)
    {
      var w;
      err, created, w := InsertChildren(treeId, parent, partner, cs, failAt);
      if err.Some? {
        return;
      }
      assert forall k :: 0 <= k < |created| ==> created[k] in members && created[k].treeId == treeId;
      var ok := InsertSiblings(treeId, created, failAt, w);
      if !ok {
        return Some(ServerError), created;
      }
      RelationshipRowsConcat(old(relationships), old(nextRelationshipId), treeId,
        ParentEdges(parent, partner, Ids(created)), SiblingEdges(Ids(created)));
    }

    /**
     * One pass of the first loop of add-children: check the entry's
     * firstName, then insert the child with its parent-child rows. A null
     * entry throws on the field access and a storage error throws; both are
     * a 500. A missing firstName is a 400.
     */
    method InsertEntry(treeId: Id, parent: Id, partner: Option<Id>, c: Option<PersonInput>, failAt: Option<nat>, w: nat)
      returns (r: Result<Member>, w': nat)
      requires HasTree(trees, treeId)
      requires HasMember(members, treeId, parent)
      requires partner.Some? ==> HasMember(members, treeId, partner.value)
      modifies this
      ensures !ChildOk(c) ==> r == Fail(if c.None? then ServerError else BadRequest(ChildNameRequired))
      ensures ChildOk(c) ==> r.Ok? || r == Fail(ServerError)
      ensures ChildOk(c) && failAt.None? ==> r.Ok?
      ensures r.Ok? ==>
        && ChildOk(c) && r.value == NewMember(old(nextMemberId), treeId, c.value)
        && State() == WithChild(old(State()), treeId, parent, partner, r.value)
    {
      w' := w;
      if c.None? {
        // reading firstName of a null entry throws; the handler then rolls back
        return Fail(ServerError), w';
      }
      if !Truthy(c.value.firstName) {
        return Fail(BadRequest(ChildNameRequired)), w';
      }
      var ok, person;
      ok, person, w' := InsertChild(treeId, parent, partner, c.value, failAt, w);
      r := if ok then Ok(person) else Fail(ServerError);
    }

    /**
     * One pass of the first loop of add-children, once the entry has passed
     * its firstName check: insert the child, then its parent-child row from
     * the parent and, when there is a partner, from the partner. `w` counts
     * the writes of the transaction so far, for the fault parameter; on a
     * rejected write the caller rolls back.
     */
    method InsertChild(treeId: Id, parent: Id, partner: Option<Id>, p: PersonInput, failAt: Option<nat>, w: nat)
      returns (ok: bool, person: Member, w': nat)
      requires HasTree(trees, treeId)
      requires HasMember(members, treeId, parent)
      requires partner.Some? ==> HasMember(members, treeId, partner.value)
      modifies this
      ensures failAt.None? ==> ok
      ensures ok ==>
        && person == NewMember(old(nextMemberId), treeId, p)
        && State() == WithChild(old(State()), treeId, parent, partner, person)
    {
      ok, w' := false, w;
      person := NewMember(nextMemberId, treeId, p);  // the row the insert would write
      if Faults(failAt, w') {
        return;
      }
      person := InsertMember(treeId, p);
      w' := w' + 1;
      if Faults(failAt, w') {
        return;
      }
      var rel := InsertRelationship(treeId, Edge(parent, person.id, ParentChild));
      w' := w' + 1;
      if partner.Some? {
        if Faults(failAt, w') {
          return;
        }
        rel := InsertRelationship(treeId, Edge(partner.value, person.id, ParentChild));
        w' := w' + 1;
      }
      ok := true;
    }

    /**
     * The first loop of add-children: for each entry in order, check its
     * firstName and insert the child with its parent-child rows. Stops at the
     * first rejected entry or storage error, leaving the rollback to the
     * caller. `w` counts the writes, for the fault parameter.
     */
    method InsertChildren(treeId: Id, parent: Id, partner: Option<Id>, cs: seq<Option<PersonInput>>, failAt: Option<nat>)
      returns (err: Option<Error>, created: seq<Member>, w: nat)
      requires HasTree(trees, treeId)
      requires HasMember(members, treeId, parent)
      requires partner.Some? ==> HasMember(members, treeId, partner.value)
      modifies this
      ensures err.Some? ==> err.value == ServerError || err.value == BadRequest(ChildNameRequired)
      ensures err == Some(BadRequest(ChildNameRequired)) ==> exists k :: FirstRejected(cs, k) && cs[k].Some?
      ensures failAt.None? ==>
                && (err.None? <==> forall k :: 0 <= k < |cs| ==> ChildOk(cs[k]))
                && (forall k :: FirstRejected(cs, k) ==>
                      err == Some(if cs[k].None? then ServerError else BadRequest(ChildNameRequired)))
      ensures err.None? ==>
        && |created| == |cs|
        && (forall k :: 0 <= k < |cs| ==> ChildOk(cs[k]) && created[k] == NewMember(old(nextMemberId) + k, treeId, cs[k].value))
        && State() == WithChildren(old(State()), treeId, parent, partner, created)
    {
      ghost var start := State();
      created := [];
      w := 0;
      var i := 0;
      while i < |cs|
        invariant 0 <= i <= |cs|
        invariant forall k :: 0 <= k < i ==> ChildOk(cs[k])
        invariant |created| == i
        invariant forall k :: 0 <= k < i ==> created[k] == NewMember(start.nextMemberId + k, treeId, cs[k].value)
        invariant State() == WithChildren(start, treeId, parent, partner, created)
        invariant HasTree(trees, treeId) && HasMember(members, treeId, parent)
        invariant partner.Some? ==> HasMember(members, treeId, partner.value)
      {
        var entry;
        entry, w := InsertEntry(treeId, parent, partner, cs[i], failAt, w);
        if entry.Fail? {
          if !ChildOk(cs[i]) {
            assert FirstRejected(cs, i);
          }
          return Some(entry.err), created, w;
        }
        var person := entry.value;
        WithChildrenStep(start, treeId, parent, partner, created, person);
        created := created + [person];
        i := i + 1;
      }
      err := None;
    }

    /**
     * One pass of the outer sibling loop: a sibling row from created[i] to
     * every later child, in order.
     */
    method InsertSiblingRow(treeId: Id, created: seq<Member>, i: nat, failAt: Option<nat>, w: nat)
      returns (ok: bool, w': nat)
      requires i < |created|
      requires forall k :: 0 <= k < |created| ==> created[k] in members && created[k].treeId == treeId
      modifies this
      ensures failAt.None? ==> ok
      ensures ok ==>
        && trees == old(trees) && members == old(members)
        && nextTreeId == old(nextTreeId) && nextMemberId == old(nextMemberId)
        && relationships == old(relationships)
             + RelationshipRows(old(nextRelationshipId), treeId, SiblingRow(Ids(created), i))
        && nextRelationshipId == old(nextRelationshipId) + |SiblingRow(Ids(created), i)|
    {
      ghost var row := SiblingRow(Ids(created), i);
      w' := w;
      var j := i + 1;
      while j < |created|
        invariant i + 1 <= j <= |created|
        invariant trees == old(trees) && members == old(members)
        invariant nextTreeId == old(nextTreeId) && nextMemberId == old(nextMemberId)
        invariant relationships == old(relationships) + RelationshipRows(old(nextRelationshipId), treeId, row[..j - i - 1])
        invariant nextRelationshipId == old(nextRelationshipId) + (j - i - 1)
      {
        if Faults(failAt, w') {
          return false, w';
        }
        assert created[i] in members && created[j] in members;
        var rel := InsertRelationship(treeId, Edge(created[i].id, created[j].id, Sibling));
        w' := w' + 1;
        RelationshipRowsAppend(old(nextRelationshipId), treeId, row[..j - i - 1], rel.edge);
        assert row[..j - i] == row[..j - i - 1] + [rel.edge];
        j := j + 1;
      }
      assert row[..j - i - 1] == row;
      ok := true;
    }

    /**
     * The nested loops of add-children: one sibling row for every pair
     * i < j of the new children, earlier child first. `w0` is the number of
     * writes the transaction has made so far.
     */
    method InsertSiblings(treeId: Id, created: seq<Member>, failAt: Option<nat>, w0: nat) returns (ok: bool)
      requires forall k :: 0 <= k < |created| ==> created[k] in members && created[k].treeId == treeId
      modifies this
      ensures failAt.None? ==> ok
      ensures ok ==>
        && trees == old(trees) && members == old(members)
        && nextTreeId == old(nextTreeId) && nextMemberId == old(nextMemberId)
        && relationships == old(relationships)
             + RelationshipRows(old(nextRelationshipId), treeId, SiblingEdges(Ids(created)))
        && nextRelationshipId == old(nextRelationshipId) + |SiblingEdges(Ids(created))|
    {
      ghost var kids := Ids(created);
      var w := w0;
      var i := 0;
      while i < |created|
        invariant 0 <= i <= |created|
        invariant trees == old(trees) && members == old(members)
        invariant nextTreeId == old(nextTreeId) && nextMemberId == old(nextMemberId)
        invariant relationships == old(relationships) + RelationshipRows(old(nextRelationshipId), treeId, SiblingPrefix(kids, i))
        invariant nextRelationshipId == old(nextRelationshipId) + |SiblingPrefix(kids, i)|
      {
        ok, w := InsertSiblingRow(treeId, created, i, failAt, w);
        if !ok {
          return;
        }
        RelationshipRowsConcat(old(relationships), old(nextRelationshipId), treeId, SiblingPrefix(kids, i), SiblingRow(kids, i));
        i := i + 1;
      }
      ok := true;
    }
    // -------------------------------------------------------------------------
    // PATCH /api/trees/:treeId and PATCH /api/trees/:treeId/members/:memberId

    /**
     * Update the supplied fields of a tree. No defined field is a 400 before
     * any statement runs; an update that selects no row is a 404 and has
     * changed nothing.
     */
    method PatchTree(treeId: Id, p: TreePatch) returns (r: Result<Tree>)
      requires Valid()
      modifies this
      ensures Valid()
      ensures r.Fail? ==> State() == old(State())
      ensures r == Fail(BadRequest(NoFieldsToUpdate)) <==> TreeSupplied(p) == []
      ensures TreeSupplied(p) != [] ==> (r == Fail(NotFound(TreeNotFound)) <==> !HasTree(old(trees), treeId))
      ensures TreeSupplied(p) != [] && HasTree(old(trees), treeId) ==> r.Ok?
      ensures r.Ok? ==>
        && trees == PatchTrees(old(trees), treeId, p)
        && (exists t :: t in old(trees) && t.id == treeId && r.value == PatchedTree(t, p))
        && members == old(members) && relationships == old(relationships)
        && nextTreeId == old(nextTreeId) && nextMemberId == old(nextMemberId)
        && nextRelationshipId == old(nextRelationshipId)
    {
      var u := BuildTreeUpdate(treeId, p);
      if u.None? {
        return Fail(BadRequest(NoFieldsToUpdate));
      }
      var stmt := u.value;
      ghost var before := State();
      ghost var after := before.(trees := PatchTrees(before.trees, treeId, p));
      TreeStatementMeaning(trees, treeId, p, stmt);
      PatchTreesConsistent(before, treeId, p);
      PatchTreesReturns(trees, treeId, p);
      if !HasTree(trees, treeId) {
        PatchTreesMissing(trees, treeId, p);
      }
      var returned := UpdateTrees(stmt);
      assert State() == after;
      if |returned| == 0 {
        return Fail(NotFound(TreeNotFound));
      }
      var row := returned[0];
      assert row in trees && TreeSelected(stmt, row);
      assert row.id == treeId;
      r := Ok(row);
    }

    /**
     * The tree update statement as the store runs it: every selected row is
     * rewritten, and the rewritten rows come back.
     */
    method UpdateTrees(stmt: UpdateStatement<TreeColumn>) returns (returned: seq<Tree>)
      requires WellFormed(stmt)
      modifies this
      ensures trees == RunTreeUpdate(old(trees), stmt)
      ensures forall t :: t in returned <==> t in trees && TreeSelected(stmt, t)
      ensures members == old(members) && relationships == old(relationships)
      ensures nextTreeId == old(nextTreeId) && nextMemberId == old(nextMemberId)
      ensures nextRelationshipId == old(nextRelationshipId)
    {
      trees := RunTreeUpdate(trees, stmt);
      returned := Filter(trees, (t: Tree) => TreeSelected(stmt, t));
    }

    /**
     * Update the supplied fields of a member of a tree. No defined field is a
     * 400 before any statement runs; an update that selects no row (no such
     * member, or a member of another tree) is a 404 and has changed nothing.
     */
    method PatchMember(treeId: Id, memberId: Id, p: MemberPatch) returns (r: Result<Member>)
      requires Valid()
      modifies this
      ensures Valid()
      ensures r.Fail? ==> State() == old(State())
      ensures r == Fail(BadRequest(NoFieldsToUpdate)) <==> MemberSupplied(p) == []
      ensures MemberSupplied(p) != [] ==>
                (r == Fail(NotFound(MemberNotFound)) <==> !HasMember(old(members), treeId, memberId))
      ensures MemberSupplied(p) != [] && HasMember(old(members), treeId, memberId) ==> r.Ok?
      ensures r.Ok? ==>
        && members == PatchMembers(old(members), treeId, memberId, p)
        && (exists m :: m in old(members) && m.id == memberId && m.treeId == treeId && r.value == PatchedMember(m, p))
        && trees == old(trees) && relationships == old(relationships)
        && nextTreeId == old(nextTreeId) && nextMemberId == old(nextMemberId)
        && nextRelationshipId == old(nextRelationshipId)
    {
      var u := BuildMemberUpdate(memberId, treeId, p);
      if u.None? {
        return Fail(BadRequest(NoFieldsToUpdate));
      }
      var stmt := u.value;
      ghost var before := State();
      ghost var after := before.(members := PatchMembers(before.members, treeId, memberId, p));
      MemberStatementMeaning(members, treeId, memberId, p, stmt);
      PatchMembersConsistent(before, treeId, memberId, p);
      PatchMembersReturns(members, treeId, memberId, p);
      if !HasMember(members, treeId, memberId) {
        PatchMembersMissing(members, treeId, memberId, p);
      }
      var returned := UpdateMembers(stmt);
      assert State() == after;
      if |returned| == 0 {
        return Fail(NotFound(MemberNotFound));
      }
      var row := returned[0];
      assert row in members && MemberSelected(stmt, row);
      assert row.id == memberId && row.treeId == treeId;
      r := Ok(row);
    }

    /**
     * The member update statement as the store runs it: every selected row
     * is rewritten, and the rewritten rows come back.
     */
    method UpdateMembers(stmt: UpdateStatement<MemberColumn>) returns (returned: seq<Member>)
      requires WellFormed(stmt)
      modifies this
      ensures members == RunMemberUpdate(old(members), stmt)
      ensures forall m :: m in returned <==> m in members && MemberSelected(stmt, m)
      ensures trees == old(trees) && relationships == old(relationships)
      ensures nextTreeId == old(nextTreeId) && nextMemberId == old(nextMemberId)
      ensures nextRelationshipId == old(nextRelationshipId)
    {
      members := RunMemberUpdate(members, stmt);
      returned := Filter(members, (m: Member) => MemberSelected(stmt, m));
    }

    // -------------------------------------------------------------------------
    // DELETE /api/trees/:treeId, .../members/:memberId, .../relationships/:relationshipId

    /**
     * Delete a tree: one statement, outside any transaction. The tree's
     * members and relationships go with it by the assumed cascade. No such
     * tree is a 404 and has changed nothing.
     */
    method DeleteTree(treeId: Id) returns (r: Result<Tree>)
      requires Valid()
      modifies this
      ensures Valid()
      ensures State() == RemoveTree(old(State()), treeId)
      ensures r.Fail? <==> !HasTree(old(trees), treeId)
      ensures r.Fail? ==> r == Fail(NotFound(TreeNotFound)) && State() == old(State())
      ensures r.Ok? ==> r.value in old(trees) && r.value.id == treeId
    {
      var deleted := Filter(trees, (t: Tree) => t.id == treeId);
      RemoveTreeConsistent(State(), treeId);
      if !HasTree(trees, treeId) {
        RemoveMissingTree(State(), treeId);
      }
      var after := RemoveTree(State(), treeId);
      trees, members, relationships := after.trees, after.members, after.relationships;
      if |deleted| == 0 {
        return Fail(NotFound(TreeNotFound));
      }
      assert deleted[0] in deleted;
      r := Ok(deleted[0]);
    }

    /**
     * Delete a member of a tree: one statement, outside any transaction.
     * Every relationship naming the member goes with it by the assumed
     * cascade. No such member in this tree is a 404 and has changed nothing.
     */
    method DeleteMember(treeId: Id, memberId: Id) returns (r: Result<Member>)
      requires Valid()
      modifies this
      ensures Valid()
      ensures State() == RemoveMember(old(State()), treeId, memberId)
      ensures r.Fail? <==> !HasMember(old(members), treeId, memberId)
      ensures r.Fail? ==> r == Fail(NotFound(MemberNotFound)) && State() == old(State())
      ensures r.Ok? ==> r.value in old(members) && r.value.id == memberId && r.value.treeId == treeId
    {
      var deleted := Filter(members, (m: Member) => m.id == memberId && m.treeId == treeId);
      RemoveMemberConsistent(State(), treeId, memberId);
      var after := RemoveMember(State(), treeId, memberId);
      members, relationships := after.members, after.relationships;
      if |deleted| == 0 {
        return Fail(NotFound(MemberNotFound));
      }
      assert deleted[0] in deleted;
      r := Ok(deleted[0]);
    }

    /**
     * Delete one relationship of a tree: one statement, outside any
     * transaction. No such relationship in this tree is a 404 and has changed
     * nothing.
     */
    method DeleteRelationship(treeId: Id, relId: Id) returns (r: Result<Relationship>)
      requires Valid()
      modifies this
      ensures Valid()
      ensures State() == RemoveRelationship(old(State()), treeId, relId)
      ensures r.Fail? <==> !exists rel :: rel in old(relationships) && rel.id == relId && rel.treeId == treeId
      ensures r.Fail? ==> r == Fail(NotFound(RelationshipNotFound)) && State() == old(State())
      ensures r.Ok? ==> r.value in old(relationships) && r.value.id == relId && r.value.treeId == treeId
    {
      var deleted := Filter(relationships, (rel: Relationship) => rel.id == relId && rel.treeId == treeId);
      RemoveRelationshipConsistent(State(), treeId, relId);
      var after := RemoveRelationship(State(), treeId, relId);
      relationships := after.relationships;
      if |deleted| == 0 {
        return Fail(NotFound(RelationshipNotFound));
      }
      assert deleted[0] in deleted;
      r := Ok(deleted[0]);
    }
  }
}
