/** The closed enumeration of account roles (`UserRole` in the application's models). */
module Roles {
  import opened Wrappers

  datatype UserRole = ANONYMOUS | AUTHENTICATED | MANAGER | ADMIN

  /** The member's `.name`: the string the HTTP layer and the role checks compare. */
  function Name(r: UserRole): string
  {
    match r
    case ANONYMOUS => "ANONYMOUS"
    case AUTHENTICATED => "AUTHENTICATED"
    case MANAGER => "MANAGER"
    case ADMIN => "ADMIN"
  }

  /** Enum lookup by name (`UserRole[name]`), case-sensitive; `None` for an unknown name.
      It stands alone as the inverse of `Name`: no operation of the gate or the schemas
      parses a role from its name. */
  function FromName(s: string): (r: Option<UserRole>)
    ensures r.Some? ==> Name(r.value) == s
    ensures r.None? ==> forall role: UserRole :: Name(role) != s
  {
    if s == "ANONYMOUS" then Some(ANONYMOUS)
    else if s == "AUTHENTICATED" then Some(AUTHENTICATED)
    else if s == "MANAGER" then Some(MANAGER)
    else if s == "ADMIN" then Some(ADMIN)
    else None
  }

  /** Looking a member up by its own name gives the member back. */
  lemma NameRoundTrip(r: UserRole)
    ensures FromName(Name(r)) == Some(r)
  {
  }

  /** Distinct members have distinct names, so comparing names is comparing roles. */
  lemma NameInjective(a: UserRole, b: UserRole)
    ensures Name(a) == Name(b) <==> a == b
  {
  }
}
