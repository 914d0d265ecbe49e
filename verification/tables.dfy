/**
 * The three tables as one value (what a transaction snapshot captures), the
 * referential invariant the handlers keep, and the lookups the handlers run
 * against the tables before they write.
 */
module Tables {
  import opened Rows

  /**
   * The whole store: the rows of family_trees, members and relationships in
   * insertion order, and the next identity each table's sequence will hand out.
   */
  datatype Db = Db(
    trees: seq<Tree>,
    members: seq<Member>,
    relationships: seq<Relationship>,
    nextTreeId: Id,
    nextMemberId: Id,
    nextRelationshipId: Id)

  /** The lookup of a tree by id finds a row. */
  predicate HasTree(trees: seq<Tree>, id: Id)
  {
    exists t :: t in trees && t.id == id
  }

  /** The lookup of a member by id within a tree finds a row. */
  predicate HasMember(members: seq<Member>, treeId: Id, id: Id)
  {
    exists m :: m in members && m.id == id && m.treeId == treeId
  }

  /** Some parent-child row of the tree has `id` as its child (member2) side. */
  predicate IsChild(rels: seq<Relationship>, treeId: Id, id: Id)
  {
    exists r :: r in rels && r.treeId == treeId && r.edge.member2 == id && r.edge.kind == ParentChild
  }

  /**
   * The rows of the two-sided spouse query: the counterpart of `id` in every
   * spouse row of the tree, whichever side `id` is on. UNION gives a set.
   */
  function PartnerIds(rels: seq<Relationship>, treeId: Id, id: Id): set<Id>
  {
    (set r | r in rels && r.treeId == treeId && r.edge.kind == Spouse && r.edge.member1 == id :: r.edge.member2)
    + (set r | r in rels && r.treeId == treeId && r.edge.kind == Spouse && r.edge.member2 == id :: r.edge.member1)
  }

  /**
   * What every handler keeps: identities are positive and below their
   * sequence's next value, so an identity handed out is never in use; every
   * member belongs to an existing tree; both ends of every relationship are
   * members of the relationship's own tree.
   */
  ghost predicate Consistent(db: Db)
  {
    && 0 < db.nextTreeId && 0 < db.nextMemberId && 0 < db.nextRelationshipId
    && (forall t :: t in db.trees ==> 0 < t.id < db.nextTreeId)
    && (forall m :: m in db.members ==> 0 < m.id < db.nextMemberId && HasTree(db.trees, m.treeId))
    && (forall r :: r in db.relationships ==>
          && 0 < r.id < db.nextRelationshipId
          && HasMember(db.members, r.treeId, r.edge.member1)
          && HasMember(db.members, r.treeId, r.edge.member2))
  }

  /**
   * The rows a scoped delete leaves behind: exactly those that do not
   * match.
   */
  function Filter<T(!new)>(s: seq<T>, keep: T -> bool): (r: seq<T>)
    ensures forall x :: x in r <==> x in s && keep(x)
    ensures |r| <= |s|
    ensures (forall x :: x in s ==> keep(x)) ==> r == s
  {
    if s == [] then [] else (if keep(s[0]) then [s[0]] else []) + Filter(s[1..], keep)
  }
  // ---------------------------------------------------------------------------
  // The writes the handlers make keep the invariant

  /** Inserting a tree under the next identity keeps the invariant. */
  lemma AddTreeConsistent(db: Db, t: Tree)
    requires Consistent(db)
    requires t.id == db.nextTreeId
    ensures Consistent(db.(trees := db.trees + [t], nextTreeId := db.nextTreeId + 1))
  {
    var after := db.(trees := db.trees + [t], nextTreeId := db.nextTreeId + 1);
    forall m | m in after.members
      ensures HasTree(after.trees, m.treeId)
    {
      var owner :| owner in db.trees && owner.id == m.treeId;
      assert owner in after.trees;
    }
  }

  /**
   * Inserting members under consecutive identities from the next one, each
   * into an existing tree, keeps the invariant.
   */
  lemma AddMembersConsistent(db: Db, ms: seq<Member>)
    requires Consistent(db)
    requires forall k :: 0 <= k < |ms| ==> ms[k].id == db.nextMemberId + k && HasTree(db.trees, ms[k].treeId)
    ensures Consistent(db.(members := db.members + ms, nextMemberId := db.nextMemberId + |ms|))
  {
    var after := db.(members := db.members + ms, nextMemberId := db.nextMemberId + |ms|);
    forall m | m in after.members
      ensures 0 < m.id < after.nextMemberId && HasTree(after.trees, m.treeId)
    {
      if m !in db.members {
        var k :| 0 <= k < |ms| && ms[k] == m;
      }
    }
    forall r | r in after.relationships
      ensures HasMember(after.members, r.treeId, r.edge.member1) && HasMember(after.members, r.treeId, r.edge.member2)
    {
      var m1 :| m1 in db.members && m1.id == r.edge.member1 && m1.treeId == r.treeId;
      var m2 :| m2 in db.members && m2.id == r.edge.member2 && m2.treeId == r.treeId;
      assert m1 in after.members && m2 in after.members;
    }
  }

  /**
   * Inserting relationships under consecutive identities from the next one,
   * each between two members of its own tree, keeps the invariant.
   */
  lemma AddRelationshipsConsistent(db: Db, rs: seq<Relationship>)
    requires Consistent(db)
    requires forall k :: 0 <= k < |rs| ==>
               && rs[k].id == db.nextRelationshipId + k
               && HasMember(db.members, rs[k].treeId, rs[k].edge.member1)
               && HasMember(db.members, rs[k].treeId, rs[k].edge.member2)
    ensures Consistent(db.(relationships := db.relationships + rs, nextRelationshipId := db.nextRelationshipId + |rs|))
  {
    var after := db.(relationships := db.relationships + rs, nextRelationshipId := db.nextRelationshipId + |rs|);
    forall r | r in after.relationships
      ensures 0 < r.id < after.nextRelationshipId
      ensures HasMember(after.members, r.treeId, r.edge.member1) && HasMember(after.members, r.treeId, r.edge.member2)
    {
      if r !in db.relationships {
        var k :| 0 <= k < |rs| && rs[k] == r;
      }
    }
  }
  // ---------------------------------------------------------------------------
  // Scoped deletes, with the cascade the schema is assumed to declare

  /**
   * Deleting a tree by id: the tree goes, and with it (by
   * the assumed cascade) its members and its relationships; nothing else does.
   */
  function RemoveTree(db: Db, treeId: Id): (r: Db)
    ensures !HasTree(r.trees, treeId)
    ensures forall t :: t in r.trees <==> t in db.trees && t.id != treeId
    ensures forall m :: m in r.members <==> m in db.members && m.treeId != treeId
    ensures forall rel :: rel in r.relationships <==> rel in db.relationships && rel.treeId != treeId
    ensures r.nextTreeId == db.nextTreeId && r.nextMemberId == db.nextMemberId
    ensures r.nextRelationshipId == db.nextRelationshipId
  {
    db.(trees := Filter(db.trees, (t: Tree) => t.id != treeId),
        members := Filter(db.members, (m: Member) => m.treeId != treeId),
        relationships := Filter(db.relationships, (rel: Relationship) => rel.treeId != treeId))
  }

  /**
   * Deleting a member by id within a tree: the member
   * goes and, when it did, so (by the assumed cascade) does every
   * relationship that names it on either side; nothing else does.
   */
  function RemoveMember(db: Db, treeId: Id, memberId: Id): (r: Db)
    ensures !HasMember(r.members, treeId, memberId)
    ensures forall m :: m in r.members <==> m in db.members && !(m.id == memberId && m.treeId == treeId)
    ensures HasMember(db.members, treeId, memberId) ==>
              forall rel :: rel in r.relationships <==>
                rel in db.relationships && rel.edge.member1 != memberId && rel.edge.member2 != memberId
    ensures !HasMember(db.members, treeId, memberId) ==> r == db
    ensures r.trees == db.trees
    ensures r.nextTreeId == db.nextTreeId && r.nextMemberId == db.nextMemberId
    ensures r.nextRelationshipId == db.nextRelationshipId
  {
    var gone := HasMember(db.members, treeId, memberId);
    db.(members := Filter(db.members, (m: Member) => !(m.id == memberId && m.treeId == treeId)),
        relationships := Filter(db.relationships,
          (rel: Relationship) => !(gone && (rel.edge.member1 == memberId || rel.edge.member2 == memberId))))
  }

  /** Deleting a relationship by id within a tree: that row goes, nothing else. */
  function RemoveRelationship(db: Db, treeId: Id, relId: Id): (r: Db)
    ensures forall rel :: rel in r.relationships <==> rel in db.relationships && !(rel.id == relId && rel.treeId == treeId)
    ensures (forall rel :: rel in db.relationships ==> !(rel.id == relId && rel.treeId == treeId)) ==> r == db
    ensures r.trees == db.trees && r.members == db.members
    ensures r.nextTreeId == db.nextTreeId && r.nextMemberId == db.nextMemberId
    ensures r.nextRelationshipId == db.nextRelationshipId
  {
    db.(relationships := Filter(db.relationships, (rel: Relationship) => !(rel.id == relId && rel.treeId == treeId)))
  }

  /** Deleting a tree that is not there deletes nothing, cascade included. */
  lemma RemoveMissingTree(db: Db, treeId: Id)
    requires Consistent(db)
    requires !HasTree(db.trees, treeId)
    ensures RemoveTree(db, treeId) == db
  {
    forall rel | rel in db.relationships
      ensures rel.treeId != treeId
    {
      var m :| m in db.members && m.id == rel.edge.member1 && m.treeId == rel.treeId;
    }
  }

  /** Deleting a tree with its members and relationships leaves no dangling reference. */
  lemma RemoveTreeConsistent(db: Db, treeId: Id)
    requires Consistent(db)
    ensures Consistent(RemoveTree(db, treeId))
  {
    var after := RemoveTree(db, treeId);
    forall m | m in after.members
      ensures HasTree(after.trees, m.treeId)
    {
      var owner :| owner in db.trees && owner.id == m.treeId;
      assert owner in after.trees;
    }
    forall r | r in after.relationships
      ensures HasMember(after.members, r.treeId, r.edge.member1) && HasMember(after.members, r.treeId, r.edge.member2)
    {
      var m1 :| m1 in db.members && m1.id == r.edge.member1 && m1.treeId == r.treeId;
      var m2 :| m2 in db.members && m2.id == r.edge.member2 && m2.treeId == r.treeId;
      assert m1 in after.members && m2 in after.members;
    }
  }

  /** Deleting a member with the relationships that name it leaves no dangling reference. */
  lemma RemoveMemberConsistent(db: Db, treeId: Id, memberId: Id)
    requires Consistent(db)
    ensures Consistent(RemoveMember(db, treeId, memberId))
  {
    var after := RemoveMember(db, treeId, memberId);
    forall r | r in after.relationships
      ensures HasMember(after.members, r.treeId, r.edge.member1) && HasMember(after.members, r.treeId, r.edge.member2)
    {
      var m1 :| m1 in db.members && m1.id == r.edge.member1 && m1.treeId == r.treeId;
      var m2 :| m2 in db.members && m2.id == r.edge.member2 && m2.treeId == r.treeId;
      assert m1 in after.members && m2 in after.members;
    }
  }

  /** Deleting a relationship leaves no dangling reference: no row refers to a relationship. */
  lemma RemoveRelationshipConsistent(db: Db, treeId: Id, relId: Id)
    requires Consistent(db)
    ensures Consistent(RemoveRelationship(db, treeId, relId))
  {
  }
}
