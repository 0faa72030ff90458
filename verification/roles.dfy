/** The two role checks of the user model, on which every authorisation guard rests. */
module Roles {

  /** The authenticated account a request acts as. */
  datatype User = User(id: nat, role: string, personalId: string)

  /** `isAdmin()`: the role is exactly "admin". */
  predicate IsAdmin(u: User)
  {
    u.role == "admin"
  }

  /** `isManager()`: the role is exactly "manager". */
  predicate IsManager(u: User)
  {
    u.role == "manager"
  }

  /** Admin or manager: the pair most guards let through. */
  predicate IsSupervisor(u: User)
  {
    IsAdmin(u) || IsManager(u)
  }

  /** No role is both admin and manager. */
  lemma RolesExclusive(u: User)
    ensures !(IsAdmin(u) && IsManager(u))
  {
  }

  /** The role new accounts receive ("employee") and the one the tests use ("user") carry no privileges. */
  lemma PlainRolesUnprivileged(u: User)
    requires u.role == "employee" || u.role == "user"
    ensures !IsAdmin(u) && !IsManager(u)
  {
  }
}
