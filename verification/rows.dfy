/**
 * Rows of the three tables (family_trees, members, relationships), the
 * JSON-like values the handlers receive and store, and the outcomes a
 * handler reports to its caller.
 */
module Rows {

  datatype Option<+T> = None | Some(value: T)

  /** Row identities: generated by the store, starting at 1. */
  type Id = nat

  /** A scalar as it arrives in a request body and as it is stored in a column. */
  datatype Value = Null | Str(s: string) | Num(n: int) | Bool(b: bool)

  /** JavaScript truthiness of a scalar; the handlers' negated checks reject exactly the falsy values. */
  predicate Truthy(v: Value)
  {
    match v
    case Null => false
    case Str(s) => s != ""
    case Num(n) => n != 0
    case Bool(b) => b
  }

  /** JavaScript's logical or with null, which the handlers apply to optional columns. */
  function OrNull(v: Value): Value
  {
    if Truthy(v) then v else Null
  }

  /**
   * The person fields a request may carry for a root person, a partner or a
   * child. An absent key reads as Null, as an undefined field or-ed with null does.
   */
  datatype PersonInput = PersonInput(
    externalId: Value,
    firstName: Value,
    lastName: Value,
    birthYear: Value,
    birthDate: Value,
    gender: Value,
    notes: Value)

  datatype Tree = Tree(id: Id, name: Value, description: Value)

  datatype Member = Member(
    id: Id,
    treeId: Id,
    externalId: Value,
    firstName: Value,
    lastName: Value,
    birthYear: Value,
    birthDate: Value,
    gender: Value,
    notes: Value)

  datatype Kind = Spouse | ParentChild | Sibling

  /** member1 and member2 of a relationship row; for ParentChild member1 is the parent. */
  datatype Edge = Edge(member1: Id, member2: Id, kind: Kind)

  datatype Relationship = Relationship(id: Id, treeId: Id, edge: Edge)

  /**
   * The row the members INSERT of every POST handler writes: the first name
   * as given, every other optional field or-ed with null.
   */
  function NewMember(id: Id, treeId: Id, p: PersonInput): Member
  {
    Member(id, treeId, OrNull(p.externalId), p.firstName, OrNull(p.lastName),
           OrNull(p.birthYear), OrNull(p.birthDate), OrNull(p.gender), OrNull(p.notes))
  }

  /** The ids of a list of member rows, in order. */
  function Ids(ms: seq<Member>): seq<Id>
  {
    seq(|ms|, k requires 0 <= k < |ms| => ms[k].id)
  }

  /** 400, 404 and 500 responses, with the `error` text of the 400 and 404 bodies. */
  datatype Error = BadRequest(error: string) | NotFound(error: string) | ServerError

  datatype Result<+T> = Ok(value: T) | Fail(err: Error)

  const TreeFieldsRequired := "treeName and rootPerson.firstName are required"
  const PartnerNameRequired := "partner.firstName is required"
  const MemberNotInTree := "Member not found in this tree"
  const ChildrenRequired := "children array is required and must not be empty"
  const ParentNotInTree := "Parent member not found in this tree"
  const AlreadyAChild := "Cannot add children to a person who is already a child. Only direct children are allowed."
  const ChildNameRequired := "Each child must have firstName"
  const NoFieldsToUpdate := "No fields to update"
  const TreeNotFound := "Tree not found"
  const MemberNotFound := "Member not found"
  const RelationshipNotFound := "Relationship not found"
}
