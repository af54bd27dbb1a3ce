/** The `User` entity: a person record keyed by a generated id, with a soft-delete
    timestamp, an identity-only equality and a constant hash code. */
module UserEntity {
  import opened Optional

  /** A UUID, represented by its canonical text form (what `UUID.toString()` yields). */
  type Uuid = string

  /** A calendar date; the model only compares dates for equality. */
  type LocalDate = int

  /** An instant with offset; the model only compares instants for equality. */
  type OffsetDateTime = int

  /** One row of the `tb_user` table. `deletedAt == None` marks an active record. */
  datatype User = User(
    id: Option<Uuid>,
    cpf: string,
    fullName: string,
    birthDate: Option<LocalDate>,
    phone: Option<string>,
    email: Option<string>,
    createdAt: Option<OffsetDateTime>,
    updatedAt: Option<OffsetDateTime>,
    deletedAt: Option<OffsetDateTime>)

  /** `User()` with every constructor argument left at its default: the strings are
      empty and every nullable field is null. Copy-constructors start from here. */
  function DefaultUser(): (u: User)
    ensures u.id == None && u.cpf == "" && u.fullName == ""
    ensures u.birthDate == None && u.phone == None && u.email == None
    ensures u.createdAt == None && u.updatedAt == None && u.deletedAt == None
  {
    User(None, "", "", None, None, None, None, None, None)
  }

  /** A reference to a `User` object on the heap, with the values that object holds. */
  datatype UserObject = UserObject(ref: nat, state: User)

  /** The `Any?` argument of `equals`: null, a `User` object, or an object of another class. */
  datatype AnyRef = Null | OfUser(obj: UserObject) | OfOtherClass(ref: nat)

  /** Two references that are the same object hold the same values. */
  predicate SameHeap(a: UserObject, b: UserObject) {
    a.ref == b.ref ==> a.state == b.state
  }

  /** `User.equals`: the identical object, or else a `User` whose id is non-null and
      equal to this one's; no other field takes part. */
  predicate Equals(self: UserObject, other: AnyRef) {
    if other.OfUser? && other.obj.ref == self.ref then true
    else if other.Null? || other.OfOtherClass? then false
    else self.state.id != None && self.state.id == other.obj.state.id
  }

  /** `User.hashCode`: the hash code of the class object, the same for every instance. */
  function HashCode(self: UserObject, userClassHash: int): int {
    userClassHash
  }

  lemma EqualsReflexive(a: UserObject)
    ensures Equals(a, OfUser(a))
  {
  }

  lemma NotEqualToNullOrOtherClass(a: UserObject, other: AnyRef)
    requires !other.OfUser?
    ensures !Equals(a, other)
  {
  }

  /** Distinct objects are equal exactly when both carry the same non-null id,
      whatever their other fields hold. */
  lemma EqualsById(a: UserObject, b: UserObject)
    requires a.ref != b.ref
    ensures Equals(a, OfUser(b)) <==> a.state.id.Some? && a.state.id == b.state.id
    ensures a.state.id == None ==> !Equals(a, OfUser(b))
  {
  }

  lemma EqualsSymmetric(a: UserObject, b: UserObject)
    requires SameHeap(a, b)
    ensures Equals(a, OfUser(b)) == Equals(b, OfUser(a))
  {
  }

  lemma EqualsTransitive(a: UserObject, b: UserObject, c: UserObject)
    requires SameHeap(a, b) && SameHeap(b, c) && SameHeap(a, c)
    requires Equals(a, OfUser(b)) && Equals(b, OfUser(c))
    ensures Equals(a, OfUser(c))
  {
  }

  /** Equal users hash equally, because every user hashes to the same constant. */
  lemma HashCodeConsistent(a: UserObject, b: UserObject, userClassHash: int)
    ensures HashCode(a, userClassHash) == HashCode(b, userClassHash)
    ensures Equals(a, OfUser(b)) ==> HashCode(a, userClassHash) == HashCode(b, userClassHash)
  {
  }
}
