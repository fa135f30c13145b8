/**
 * The records the user service works on. User and Privilege (package
 * com.endava.internship.domain) are outside this model: a user is modelled as
 * an immutable record of a first name, a last name, an age and a set of
 * privileges, and Privilege as an enumeration that contains UPDATE.
 */
module Domain {

  datatype Privilege = CREATE | READ | UPDATE | DELETE

  /** Privilege.values(): every privilege, in declaration order. */
  const AllPrivileges: seq<Privilege> := [CREATE, READ, UPDATE, DELETE]

  datatype User = User(firstName: string, lastName: string, age: int, privileges: set<Privilege>)

  /** The user's first name, last name and age, as functions. */
  function FirstName(u: User): string { u.firstName }
  function LastName(u: User): string { u.lastName }
  function Age(u: User): int { u.age }

  /** Privilege.values() lists every privilege exactly once. */
  lemma AllPrivilegesListed(p: Privilege)
    ensures p in AllPrivileges
    ensures forall i, j :: 0 <= i < j < |AllPrivileges| ==> AllPrivileges[i] != AllPrivileges[j]
  {
  }
}
