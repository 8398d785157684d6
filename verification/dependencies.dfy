/** The authorization gate: resolving a bearer token to the stored account
    (`get_current_user`) and the role check built by `require_role`. Token decoding
    and UUID parsing are library code and enter as parameters; the account store is
    a map from account id to record, read once by id. */
module Dependencies {
  import opened Wrappers
  import opened Roles

  /** An account identifier: a 128-bit UUID. */
  type Uuid = x: nat | x < 0x1_0000_0000_0000_0000_0000_0000_0000_0000

  /** The claim set a decoded token carries. */
  type Claims = map<string, string>

  /** The stored account record, with the attributes the gate reads: the other columns
      are passed through untouched and are not modelled. */
  datatype User = User(id: Uuid, role: UserRole)

  /** An HTTP error response: status code, detail text and extra headers. */
  datatype HttpError = HttpError(status: nat, detail: string, headers: map<string, string>)

  const CredentialsError := HttpError(401, "Could not validate credentials", map["WWW-Authenticate" := "Bearer"])
  const UserNotFound := HttpError(404, "User not found", map[])
  const NotPermitted := HttpError(403, "Operation not permitted", map[])

  // ---------------------------------------------------------------------------
  // get_current_user
  // ---------------------------------------------------------------------------

  /** The `"sub"` claim of a decoded payload. A missing payload and an empty one are
      both falsy and rejected before the claim is looked for. */
  function Subject(payload: Option<Claims>): (sub: Option<string>)
    ensures sub.Some? <==> payload.Some? && "sub" in payload.value
    ensures sub.Some? ==> sub.value == payload.value["sub"]
  {
    if payload.None? || |payload.value| == 0 || "sub" !in payload.value then None
    else Some(payload.value["sub"])
  }

  /** The account id a token names: its subject, parsed as a UUID. */
  function SubjectId(token: string, decode: string -> Option<Claims>, parseUuid: string -> Option<Uuid>): Option<Uuid> {
    var sub := Subject(decode(token));
    if sub.None? then None else parseUuid(sub.value)
  }

  /** Every record is stored under its own id, as the primary-key lookup assumes. */
  predicate KeyedById(db: map<Uuid, User>) {
    forall k :: k in db ==> db[k].id == k
  }

  /** Resolves a bearer token to the stored account. The outcome is decided in a fixed
      order: no usable subject or an unparsable one gives the 401 credentials error,
      a well-formed id with no record gives 404, and otherwise the stored record is
      returned as it is. */
  function GetCurrentUser(token: string, decode: string -> Option<Claims>,
                          parseUuid: string -> Option<Uuid>, db: map<Uuid, User>): (r: Result<User, HttpError>)
    ensures r.Failure? ==> r.error == CredentialsError || r.error == UserNotFound
    ensures r == Failure(CredentialsError)
        <==> Subject(decode(token)).None? || parseUuid(Subject(decode(token)).value).None?
    ensures r == Failure(UserNotFound)
        <==> Subject(decode(token)).Some? && parseUuid(Subject(decode(token)).value).Some?
             && parseUuid(Subject(decode(token)).value).value !in db
    ensures r.Success? ==> var id := parseUuid(Subject(decode(token)).value).value; id in db && r.value == db[id]
    ensures r.Success? && KeyedById(db) ==> r.value.id == parseUuid(Subject(decode(token)).value).value
  {
    var payload := decode(token);
    var sub := Subject(payload);
    if sub.None? then Failure(CredentialsError)
    else
      var userId := parseUuid(sub.value);
      if userId.None? then Failure(CredentialsError)
      else if userId.value !in db then Failure(UserNotFound)
      else Success(db[userId.value])
  }

  /** A token without a usable subject is refused without consulting the store: the
      outcome is the credentials error whatever the store holds. */
  lemma CredentialFailureIgnoresStore(token: string, decode: string -> Option<Claims>,
                                      parseUuid: string -> Option<Uuid>, db1: map<Uuid, User>, db2: map<Uuid, User>)
    requires SubjectId(token, decode, parseUuid).None?
    ensures GetCurrentUser(token, decode, parseUuid, db1) == Failure(CredentialsError)
    ensures GetCurrentUser(token, decode, parseUuid, db1) == GetCurrentUser(token, decode, parseUuid, db2)
  {
  }

  /** The store is read at the subject's id only: two stores that agree there give the same outcome. */
  lemma OnlySubjectRecordRead(token: string, decode: string -> Option<Claims>,
                              parseUuid: string -> Option<Uuid>, db1: map<Uuid, User>, db2: map<Uuid, User>)
    requires SubjectId(token, decode, parseUuid).Some?
    requires var id := SubjectId(token, decode, parseUuid).value;
             (id in db1 <==> id in db2) && (id in db1 ==> db1[id] == db2[id])
    ensures GetCurrentUser(token, decode, parseUuid, db1) == GetCurrentUser(token, decode, parseUuid, db2)
  {
  }

  /** A valid token for an account that has since been removed gives 404, never 401. */
  lemma DeletedAccountNotFound(token: string, decode: string -> Option<Claims>,
                               parseUuid: string -> Option<Uuid>, db: map<Uuid, User>, id: Uuid)
    requires SubjectId(token, decode, parseUuid) == Some(id)
    ensures GetCurrentUser(token, decode, parseUuid, db - {id}) == Failure(UserNotFound)
  {
  }

  /** Claims other than `"sub"` play no part: two decodings with the same subject resolve
      to the same outcome, whatever role claim either carries. */
  lemma OnlySubjectClaimRead(token: string, decode1: string -> Option<Claims>, decode2: string -> Option<Claims>,
                             parseUuid: string -> Option<Uuid>, db: map<Uuid, User>)
    requires Subject(decode1(token)) == Subject(decode2(token))
    ensures GetCurrentUser(token, decode1, parseUuid, db) == GetCurrentUser(token, decode2, parseUuid, db)
  {
  }

  // ---------------------------------------------------------------------------
  // require_role
  // ---------------------------------------------------------------------------

  /** An entry of `allowed`: an enum member or a plain string. */
  datatype RoleSpec = Member(role: UserRole) | Named(name: string)

  /** The name an entry stands for: a member's `.name`, a string as it is. */
  function SpecName(spec: RoleSpec): string {
    match spec
    case Member(r) => Name(r)
    case Named(s) => s
  }

  /** The set of accepted role names built from `allowed`. A role's name is in it exactly
      when the role is listed as a member or by its exact name. */
  function AllowedNames(allowed: seq<RoleSpec>): (names: set<string>)
    ensures forall r: UserRole :: Name(r) in names <==> Member(r) in allowed || Named(Name(r)) in allowed
    ensures forall spec :: spec in allowed ==> SpecName(spec) in names
    ensures forall s :: s in names ==> exists spec :: spec in allowed && SpecName(spec) == s
  {
    set i | 0 <= i < |allowed| :: SpecName(allowed[i])
  }

  /** The checker's body: the current user passes through unchanged when their role's
      name is accepted, and is refused with 403 otherwise. */
  function RoleChecker(allowedNames: set<string>, currentUser: User): (r: Result<User, HttpError>)
    ensures r.Success? <==> Name(currentUser.role) in allowedNames
    ensures r.Success? ==> r.value == currentUser
    ensures r.Failure? ==> r.error == NotPermitted
  {
    if Name(currentUser.role) !in allowedNames then Failure(NotPermitted)
    else Success(currentUser)
  }

  /** Builds the checker for `allowed`: the identity on users whose role is listed (as a
      member or by its name), the 403 error on every other user. */
  function RequireRole(allowed: seq<RoleSpec>): (checker: User -> Result<User, HttpError>)
    ensures forall u :: checker(u) == if Member(u.role) in allowed || Named(Name(u.role)) in allowed
                                      then Success(u) else Failure(NotPermitted)
  {
    var names := AllowedNames(allowed);
    u => RoleChecker(names, u)
  }

  /** Listing the roles as enum members or as their names builds the same name set. */
  lemma MembersAndNamesAgree(roles: seq<UserRole>)
    ensures AllowedNames(seq(|roles|, i requires 0 <= i < |roles| => Member(roles[i])))
         == AllowedNames(seq(|roles|, i requires 0 <= i < |roles| => Named(Name(roles[i]))))
  {
    var members := seq(|roles|, i requires 0 <= i < |roles| => Member(roles[i]));
    var named := seq(|roles|, i requires 0 <= i < |roles| => Named(Name(roles[i])));
    forall s ensures s in AllowedNames(members) <==> s in AllowedNames(named) {
      if s in AllowedNames(members) {
        var spec :| spec in members && SpecName(spec) == s;
        var i :| 0 <= i < |members| && members[i] == spec;
        assert named[i] in named;
      }
      if s in AllowedNames(named) {
        var spec :| spec in named && SpecName(spec) == s;
        var i :| 0 <= i < |named| && named[i] == spec;
        assert members[i] in members;
      }
    }
  }

  /** With nothing allowed, every user is refused. */
  lemma EmptyAllowedRejectsAll(u: User)
    ensures RequireRole([])(u) == Failure(NotPermitted)
  {
  }

  /** Role names are compared exactly: a lower-case spelling matches no role. */
  lemma NamesAreCaseSensitive(u: User)
    ensures RequireRole([Named("admin"), Named("manager")])(u) == Failure(NotPermitted)
  {
  }

  /** Allowing more entries never turns an accepted user into a refused one. */
  lemma WideningKeepsAccepted(allowed: seq<RoleSpec>, wider: seq<RoleSpec>, u: User)
    requires forall spec :: spec in allowed ==> spec in wider
    requires RequireRole(allowed)(u).Success?
    ensures RequireRole(wider)(u) == Success(u)
  {
  }

  // ---------------------------------------------------------------------------
  // The dependency chain of a protected route
  // ---------------------------------------------------------------------------

  /** A protected route's dependencies in order: resolve the current user, then check the
      role. Errors of the first stage come first; the role checked is the stored one. */
  function Authorize(allowed: seq<RoleSpec>, token: string, decode: string -> Option<Claims>,
                     parseUuid: string -> Option<Uuid>, db: map<Uuid, User>): (r: Result<User, HttpError>)
    ensures SubjectId(token, decode, parseUuid).None? ==> r == Failure(CredentialsError)
    ensures SubjectId(token, decode, parseUuid).Some? && SubjectId(token, decode, parseUuid).value !in db
            ==> r == Failure(UserNotFound)
    ensures SubjectId(token, decode, parseUuid).Some? && SubjectId(token, decode, parseUuid).value in db
            ==> var stored := db[SubjectId(token, decode, parseUuid).value];
                r == if Name(stored.role) in AllowedNames(allowed) then Success(stored) else Failure(NotPermitted)
  {
    var current := GetCurrentUser(token, decode, parseUuid, db);
    if current.Failure? then Failure(current.error) else RequireRole(allowed)(current.value)
  }

  /** A role change after the token was issued takes effect at once: with a token whose role
      claim still says AUTHENTICATED, an account promoted to ADMIN in the store passes an
      ADMIN-only check. */
  lemma StoredRoleWins(token: string, decode: string -> Option<Claims>, parseUuid: string -> Option<Uuid>,
                       db: map<Uuid, User>, id: Uuid)
    requires decode(token) == Some(map["sub" := "0923c31a-40d2-4e86-8b27-80542567acd8", "role" := "AUTHENTICATED"])
    requires parseUuid("0923c31a-40d2-4e86-8b27-80542567acd8") == Some(id)
    requires id in db && db[id].role == ADMIN
    ensures Authorize([Member(ADMIN)], token, decode, parseUuid, db) == Success(db[id])
  {
  }
}
