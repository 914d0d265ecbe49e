/**
 * The partial updates of a tree and of a member: the SET list is built only
 * from the fields the caller supplied, with consecutive `$n` placeholders
 * drawn from a running counter, and the row keys take the placeholders after
 * them. This module builds those statements and gives them their meaning.
 */
module Patch {
  import opened Rows
  import opened Tables

  datatype TreeColumn = NameColumn | DescriptionColumn

  datatype MemberColumn =
    | ExternalIdColumn | FirstNameColumn | LastNameColumn | BirthYearColumn
    | BirthDateColumn | GenderColumn | NotesColumn

  /** The fields of a tree PATCH body; None is a key left undefined, Some(Null) an explicit null. */
  datatype TreePatch = TreePatch(name: Option<Value>, description: Option<Value>)

  /** The fields of a member PATCH body, in the order the handler examines them. */
  datatype MemberPatch = MemberPatch(
    externalId: Option<Value>,
    firstName: Option<Value>,
    lastName: Option<Value>,
    birthYear: Option<Value>,
    birthDate: Option<Value>,
    gender: Option<Value>,
    notes: Option<Value>)

  /** One assignment of the SET list: the column takes placeholder number `param`. */
  datatype Assignment<C> = Assignment(column: C, param: nat)

  /**
   * An update statement: its SET list, its argument array, the placeholder
   * of the row id and, for members, the placeholder of the tree id.
   */
  datatype UpdateStatement<C> = UpdateStatement(
    sets: seq<Assignment<C>>,
    args: seq<Value>,
    idParam: nat,
    treeParam: Option<nat>)

  // ---------------------------------------------------------------------------
  // What the caller asked for

  /** The (column, value) pair a field contributes: one when it is defined, none otherwise. */
  function Given<C>(column: C, v: Option<Value>): seq<(C, Value)>
  {
    if v.Some? then [(column, v.value)] else []
  }

  /** The defined fields of a tree PATCH, in declaration order. */
  function TreeSupplied(p: TreePatch): seq<(TreeColumn, Value)>
  {
    Given(NameColumn, p.name) + Given(DescriptionColumn, p.description)
  }

  /** The defined fields of a member PATCH, in declaration order. */
  function MemberSupplied(p: MemberPatch): seq<(MemberColumn, Value)>
  {
    Given(ExternalIdColumn, p.externalId) + Given(FirstNameColumn, p.firstName)
    + Given(LastNameColumn, p.lastName) + Given(BirthYearColumn, p.birthYear)
    + Given(BirthDateColumn, p.birthDate) + Given(GenderColumn, p.gender)
    + Given(NotesColumn, p.notes)
  }

  function Pick(v: Option<Value>, current: Value): Value
  {
    if v.Some? then v.value else current
  }

  /** The tree as the caller means it: supplied fields replaced, the rest kept. */
  function PatchedTree(t: Tree, p: TreePatch): Tree
  {
    Tree(t.id, Pick(p.name, t.name), Pick(p.description, t.description))
  }

  /** The member as the caller means it: supplied fields replaced, identity and tree kept. */
  function PatchedMember(m: Member, p: MemberPatch): Member
  {
    Member(m.id, m.treeId, Pick(p.externalId, m.externalId), Pick(p.firstName, m.firstName),
           Pick(p.lastName, m.lastName), Pick(p.birthYear, m.birthYear), Pick(p.birthDate, m.birthDate),
           Pick(p.gender, m.gender), Pick(p.notes, m.notes))
  }

  /** The trees table as the caller means it: the row with that id patched, every other row kept. */
  function PatchTrees(trees: seq<Tree>, treeId: Id, p: TreePatch): seq<Tree>
  {
    seq(|trees|, i requires 0 <= i < |trees| => if trees[i].id == treeId then PatchedTree(trees[i], p) else trees[i])
  }

  /** The members table as the caller means it: the row with that id in that tree patched, every other row kept. */
  function PatchMembers(members: seq<Member>, treeId: Id, memberId: Id, p: MemberPatch): seq<Member>
  {
    seq(|members|, i requires 0 <= i < |members| =>
      if members[i].id == memberId && members[i].treeId == treeId then PatchedMember(members[i], p) else members[i])
  }

  // ---------------------------------------------------------------------------
  // What the store does with a statement

  /** Every placeholder of the statement names an element of its argument array. */
  predicate WellFormed<C>(u: UpdateStatement<C>)
  {
    && (forall k :: 0 <= k < |u.sets| ==> 1 <= u.sets[k].param <= |u.args|)
    && 1 <= u.idParam <= |u.args|
    && (u.treeParam.Some? ==> 1 <= u.treeParam.value <= |u.args|)
  }

  /** The SET list with each placeholder replaced by its argument. */
  function Bind<C>(u: UpdateStatement<C>): seq<(C, Value)>
    requires WellFormed(u)
  {
    seq(|u.sets|, k requires 0 <= k < |u.sets| => (u.sets[k].column, u.args[u.sets[k].param - 1]))
  }

  /** The row filter of a tree update: the id equals the argument at idParam. */
  predicate TreeSelected(u: UpdateStatement<TreeColumn>, t: Tree)
  {
    1 <= u.idParam <= |u.args| && Num(t.id) == u.args[u.idParam - 1]
  }

  /** The row filter of a member update: id and tree id equal the arguments at idParam and treeParam. */
  predicate MemberSelected(u: UpdateStatement<MemberColumn>, m: Member)
  {
    && 1 <= u.idParam <= |u.args| && Num(m.id) == u.args[u.idParam - 1]
    && (u.treeParam.Some? ==> 1 <= u.treeParam.value <= |u.args| && Num(m.treeId) == u.args[u.treeParam.value - 1])
  }

  /** A tree update run by the store: the bound SET list applied to every selected row. */
  function RunTreeUpdate(trees: seq<Tree>, u: UpdateStatement<TreeColumn>): seq<Tree>
    requires WellFormed(u)
  {
    seq(|trees|, i requires 0 <= i < |trees| => if TreeSelected(u, trees[i]) then AssignTree(trees[i], Bind(u)) else trees[i])
  }

  /** A member update run by the store: the bound SET list applied to every selected row. */
  function RunMemberUpdate(members: seq<Member>, u: UpdateStatement<MemberColumn>): seq<Member>
    requires WellFormed(u)
  {
    seq(|members|, i requires 0 <= i < |members| =>
      if MemberSelected(u, members[i]) then AssignMember(members[i], Bind(u)) else members[i])
  }

  function SetTreeColumn(t: Tree, c: TreeColumn, v: Value): Tree
  {
    match c
    case NameColumn => t.(name := v)
    case DescriptionColumn => t.(description := v)
  }

  function SetMemberColumn(m: Member, c: MemberColumn, v: Value): Member
  {
    match c
    case ExternalIdColumn => m.(externalId := v)
    case FirstNameColumn => m.(firstName := v)
    case LastNameColumn => m.(lastName := v)
    case BirthYearColumn => m.(birthYear := v)
    case BirthDateColumn => m.(birthDate := v)
    case GenderColumn => m.(gender := v)
    case NotesColumn => m.(notes := v)
  }

  /** A row after the bound SET list has been applied to it, left to right. */
  function AssignTree(t: Tree, binds: seq<(TreeColumn, Value)>): Tree
    decreases |binds|
  {
    if binds == [] then t else AssignTree(SetTreeColumn(t, binds[0].0, binds[0].1), binds[1..])
  }

  function AssignMember(m: Member, binds: seq<(MemberColumn, Value)>): Member
    decreases |binds|
  {
    if binds == [] then m else AssignMember(SetMemberColumn(m, binds[0].0, binds[0].1), binds[1..])
  }

  // ---------------------------------------------------------------------------
  // Building the statement

  /**
   * The `updates` / `values` / `paramCount` triple a PATCH handler fills in.
   * `supplied` records, for the proof, the (column, value) pairs added so far.
   */
  class SetClause<C> {
    var updates: seq<Assignment<C>>
    var values: seq<Value>
    var paramCount: nat
    ghost var supplied: seq<(C, Value)>

    /** Placeholders are $1, $2, ... in order, and `paramCount` is the next free one. */
    ghost predicate Valid()
      reads this
    {
      && paramCount == |updates| + 1
      && |values| == |updates| == |supplied|
      && (forall k :: 0 <= k < |updates| ==>
            updates[k] == Assignment(supplied[k].0, k + 1) && values[k] == supplied[k].1)
    }

    constructor ()
      ensures Valid() && supplied == []
    {
      updates, values, paramCount := [], [], 1;
      supplied := [];
    }

    /** A defined field takes the next placeholder and appends its value; an undefined one adds nothing. */
    method Add(column: C, v: Option<Value>)
      requires Valid()
      modifies this
      ensures Valid()
      ensures supplied == old(supplied) + Given(column, v)
    {
      if v.Some? {
        updates := updates + [Assignment(column, paramCount)];
        values := values + [v.value];
        paramCount := paramCount + 1;
        supplied := supplied + [(column, v.value)];
      }
    }
  }

  /**
   * The tree PATCH statement: no statement when no field is defined;
   * otherwise `$1..$k` for the k defined fields in declaration order and
   * `$k+1` for the tree id.
   */
  method BuildTreeUpdate(treeId: Id, p: TreePatch) returns (r: Option<UpdateStatement<TreeColumn>>)
    ensures r.None? <==> TreeSupplied(p) == []
    ensures r.Some? ==> var u := r.value; var k := |TreeSupplied(p)|;
      && |u.sets| == k && |u.args| == k + 1
      && (forall i :: 0 <= i < k ==> u.sets[i] == Assignment(TreeSupplied(p)[i].0, i + 1))
      && u.idParam == k + 1 && u.treeParam.None?
      && WellFormed(u) && Bind(u) == TreeSupplied(p) && u.args[u.idParam - 1] == Num(treeId)
  {
    var b := new SetClause<TreeColumn>();
    b.Add(NameColumn, p.name);
    b.Add(DescriptionColumn, p.description);
    assert b.supplied == TreeSupplied(p);
    if |b.updates| == 0 {
      return None;
    }
    var u := UpdateStatement(b.updates, b.values + [Num(treeId)], b.paramCount, None);
    BindNumbered(u, b.supplied);
    r := Some(u);
  }

  /**
   * The member PATCH statement: no statement when no field is defined;
   * otherwise `$1..$k` for the k defined fields in declaration order, `$k+1`
   * for the member id and `$k+2` for the tree id.
   */
  method BuildMemberUpdate(memberId: Id, treeId: Id, p: MemberPatch) returns (r: Option<UpdateStatement<MemberColumn>>)
    ensures r.None? <==> MemberSupplied(p) == []
    ensures r.Some? ==> var u := r.value; var k := |MemberSupplied(p)|;
      && |u.sets| == k && |u.args| == k + 2
      && (forall i :: 0 <= i < k ==> u.sets[i] == Assignment(MemberSupplied(p)[i].0, i + 1))
      && u.idParam == k + 1 && u.treeParam == Some(k + 2)
      && WellFormed(u) && Bind(u) == MemberSupplied(p)
      && u.args[u.idParam - 1] == Num(memberId) && u.args[k + 1] == Num(treeId)
  {
    var b := new SetClause<MemberColumn>();
    b.Add(ExternalIdColumn, p.externalId);
    assert b.supplied == Given(ExternalIdColumn, p.externalId);
    b.Add(FirstNameColumn, p.firstName);
    b.Add(LastNameColumn, p.lastName);
    b.Add(BirthYearColumn, p.birthYear);
    b.Add(BirthDateColumn, p.birthDate);
    b.Add(GenderColumn, p.gender);
    b.Add(NotesColumn, p.notes);
    assert b.supplied == MemberSupplied(p);
    if |b.updates| == 0 {
      return None;
    }
    var idParam := b.paramCount;
    var u := UpdateStatement(b.updates, b.values + [Num(memberId), Num(treeId)], idParam, Some(idParam + 1));
    BindNumbered(u, b.supplied);
    r := Some(u);
  }

  /**
   * A SET list numbered $1..$k over the first k arguments binds each column
   * to the value supplied for it.
   */
  lemma BindNumbered<C>(u: UpdateStatement<C>, supplied: seq<(C, Value)>)
    requires |u.sets| == |supplied| <= |u.args|
    requires forall k :: 0 <= k < |supplied| ==>
               u.sets[k] == Assignment(supplied[k].0, k + 1) && u.args[k] == supplied[k].1
    requires 1 <= u.idParam <= |u.args|
    requires u.treeParam.Some? ==> 1 <= u.treeParam.value <= |u.args|
    ensures WellFormed(u) && Bind(u) == supplied
  {
  }

  // ---------------------------------------------------------------------------
  // The update does what the caller asked

  lemma {:induction false} AssignTreeAppend(t: Tree, a: seq<(TreeColumn, Value)>, b: seq<(TreeColumn, Value)>)
    ensures AssignTree(t, a + b) == AssignTree(AssignTree(t, a), b)
    decreases |a|
  {
    if a == [] {
      assert a + b == b;
    } else {
      assert (a + b)[1..] == a[1..] + b;
      AssignTreeAppend(SetTreeColumn(t, a[0].0, a[0].1), a[1..], b);
    }
  }

  lemma {:induction false} AssignMemberAppend(m: Member, a: seq<(MemberColumn, Value)>, b: seq<(MemberColumn, Value)>)
    ensures AssignMember(m, a + b) == AssignMember(AssignMember(m, a), b)
    decreases |a|
  {
    if a == [] {
      assert a + b == b;
    } else {
      assert (a + b)[1..] == a[1..] + b;
      AssignMemberAppend(SetMemberColumn(m, a[0].0, a[0].1), a[1..], b);
    }
  }

  /** Applying the SET list built from a tree PATCH yields the patched tree. */
  lemma TreeUpdateEffect(t: Tree, p: TreePatch)
    ensures AssignTree(t, TreeSupplied(p)) == PatchedTree(t, p)
  {
    AssignTreeAppend(t, Given(NameColumn, p.name), Given(DescriptionColumn, p.description));
  }

  /** Applying the SET list built from a member PATCH yields the patched member. */
  lemma MemberUpdateEffect(m: Member, p: MemberPatch)
    ensures AssignMember(m, MemberSupplied(p)) == PatchedMember(m, p)
  {
    var g1 := Given(ExternalIdColumn, p.externalId);
    var g2 := Given(FirstNameColumn, p.firstName);
    var g3 := Given(LastNameColumn, p.lastName);
    var g4 := Given(BirthYearColumn, p.birthYear);
    var g5 := Given(BirthDateColumn, p.birthDate);
    var g6 := Given(GenderColumn, p.gender);
    var g7 := Given(NotesColumn, p.notes);
    AssignMemberAppend(m, g1 + g2 + g3 + g4 + g5 + g6, g7);
    AssignMemberAppend(m, g1 + g2 + g3 + g4 + g5, g6);
    AssignMemberAppend(m, g1 + g2 + g3 + g4, g5);
    AssignMemberAppend(m, g1 + g2 + g3, g4);
    AssignMemberAppend(m, g1 + g2, g3);
    AssignMemberAppend(m, g1, g2);
  }
  /**
   * Running the statement a tree PATCH builds selects exactly the row with
   * that id and patches it as the caller means.
   */
  lemma TreeStatementMeaning(trees: seq<Tree>, treeId: Id, p: TreePatch, u: UpdateStatement<TreeColumn>)
    requires WellFormed(u) && Bind(u) == TreeSupplied(p) && u.args[u.idParam - 1] == Num(treeId)
    ensures forall t :: TreeSelected(u, t) <==> t.id == treeId
    ensures RunTreeUpdate(trees, u) == PatchTrees(trees, treeId, p)
  {
    forall i | 0 <= i < |trees| && trees[i].id == treeId
      ensures AssignTree(trees[i], Bind(u)) == PatchedTree(trees[i], p)
    {
      TreeUpdateEffect(trees[i], p);
    }
  }

  /**
   * Running the statement a member PATCH builds selects exactly the row with
   * that id in that tree and patches it as the caller means.
   */
  lemma MemberStatementMeaning(members: seq<Member>, treeId: Id, memberId: Id, p: MemberPatch, u: UpdateStatement<MemberColumn>)
    requires WellFormed(u) && Bind(u) == MemberSupplied(p)
    requires u.args[u.idParam - 1] == Num(memberId)
    requires u.treeParam.Some? && u.args[u.treeParam.value - 1] == Num(treeId)
    ensures forall m :: MemberSelected(u, m) <==> m.id == memberId && m.treeId == treeId
    ensures RunMemberUpdate(members, u) == PatchMembers(members, treeId, memberId, p)
  {
    forall i | 0 <= i < |members| && members[i].id == memberId && members[i].treeId == treeId
      ensures AssignMember(members[i], Bind(u)) == PatchedMember(members[i], p)
    {
      MemberUpdateEffect(members[i], p);
    }
  }

  /** A tree PATCH that selects no row changes nothing. */
  lemma PatchTreesMissing(trees: seq<Tree>, treeId: Id, p: TreePatch)
    requires !HasTree(trees, treeId)
    ensures PatchTrees(trees, treeId, p) == trees
  {
    forall i | 0 <= i < |trees|
      ensures PatchTrees(trees, treeId, p)[i] == trees[i]
    {
      assert trees[i] in trees;
    }
  }

  /** A member PATCH that selects no row changes nothing. */
  lemma PatchMembersMissing(members: seq<Member>, treeId: Id, memberId: Id, p: MemberPatch)
    requires !HasMember(members, treeId, memberId)
    ensures PatchMembers(members, treeId, memberId, p) == members
  {
    forall i | 0 <= i < |members|
      ensures PatchMembers(members, treeId, memberId, p)[i] == members[i]
    {
      assert members[i] in members;
    }
  }

  /**
   * After a tree PATCH the table has a row with the id exactly when it had
   * one before, and every such row is an earlier row with that id, patched.
   */
  lemma PatchTreesReturns(trees: seq<Tree>, treeId: Id, p: TreePatch)
    ensures HasTree(PatchTrees(trees, treeId, p), treeId) <==> HasTree(trees, treeId)
    ensures forall t' :: t' in PatchTrees(trees, treeId, p) && t'.id == treeId ==>
              exists t :: t in trees && t.id == treeId && t' == PatchedTree(t, p)
  {
    var after := PatchTrees(trees, treeId, p);
    if t :| t in trees && t.id == treeId {
      var i :| 0 <= i < |trees| && trees[i] == t;
      assert after[i] in after;
    }
    forall t' | t' in after && t'.id == treeId
      ensures exists t :: t in trees && t.id == treeId && t' == PatchedTree(t, p)
    {
      var i :| 0 <= i < |after| && after[i] == t';
      assert trees[i] in trees;
    }
  }

  /**
   * After a member PATCH the table has a row with the id in the tree exactly
   * when it had one before, and every such row is an earlier one, patched.
   */
  lemma PatchMembersReturns(members: seq<Member>, treeId: Id, memberId: Id, p: MemberPatch)
    ensures HasMember(PatchMembers(members, treeId, memberId, p), treeId, memberId) <==> HasMember(members, treeId, memberId)
    ensures forall m' :: m' in PatchMembers(members, treeId, memberId, p) && m'.id == memberId && m'.treeId == treeId ==>
              exists m :: m in members && m.id == memberId && m.treeId == treeId && m' == PatchedMember(m, p)
  {
    var after := PatchMembers(members, treeId, memberId, p);
    if m :| m in members && m.id == memberId && m.treeId == treeId {
      var i :| 0 <= i < |members| && members[i] == m;
      assert after[i] in after;
    }
    forall m' | m' in after && m'.id == memberId && m'.treeId == treeId
      ensures exists m :: m in members && m.id == memberId && m.treeId == treeId && m' == PatchedMember(m, p)
    {
      var i :| 0 <= i < |after| && after[i] == m';
      assert members[i] in members;
    }
  }

  /** Patching a tree keeps its identity, so the invariant survives. */
  lemma PatchTreesConsistent(db: Db, treeId: Id, p: TreePatch)
    requires Consistent(db)
    ensures Consistent(db.(trees := PatchTrees(db.trees, treeId, p)))
  {
    var after := db.(trees := PatchTrees(db.trees, treeId, p));
    forall t | t in after.trees
      ensures 0 < t.id < after.nextTreeId
    {
      var i :| 0 <= i < |after.trees| && after.trees[i] == t;
      assert db.trees[i] in db.trees;
    }
    forall m | m in after.members
      ensures HasTree(after.trees, m.treeId)
    {
      var i :| 0 <= i < |db.trees| && db.trees[i].id == m.treeId;
      assert after.trees[i] in after.trees;
    }
  }

  /** Patching a member keeps its identity and tree, so the invariant survives. */
  lemma PatchMembersConsistent(db: Db, treeId: Id, memberId: Id, p: MemberPatch)
    requires Consistent(db)
    ensures Consistent(db.(members := PatchMembers(db.members, treeId, memberId, p)))
  {
    var after := db.(members := PatchMembers(db.members, treeId, memberId, p));
    forall m | m in after.members
      ensures 0 < m.id < after.nextMemberId && HasTree(after.trees, m.treeId)
    {
      var i :| 0 <= i < |after.members| && after.members[i] == m;
      assert db.members[i] in db.members;
    }
    forall r | r in after.relationships
      ensures HasMember(after.members, r.treeId, r.edge.member1) && HasMember(after.members, r.treeId, r.edge.member2)
    {
      var i :| 0 <= i < |db.members| && db.members[i].id == r.edge.member1 && db.members[i].treeId == r.treeId;
      var j :| 0 <= j < |db.members| && db.members[j].id == r.edge.member2 && db.members[j].treeId == r.treeId;
      assert after.members[i] in after.members && after.members[j] in after.members;
    }
  }
}
