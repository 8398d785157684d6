# User management: authorization gate and request validators

This project models two parts of a user-management REST backend.

The **authorization gate** turns a bearer token into the stored account (`get_current_user`). It has a fixed order of outcomes:

- a missing or empty decoded payload, or one without a `"sub"` claim, gives 401 "Could not validate credentials" with the header `WWW-Authenticate: Bearer`;
- a subject that is not a UUID gives the same 401;
- an id with no account record gives 404 "User not found";
- otherwise the stored record comes back unchanged.

`require_role` builds a checker from a list of allowed roles, given as enum members or as their names. The checker passes the current user through unchanged when the user's role name is allowed, and fails with 403 "Operation not permitted" otherwise.

The **request validators** are:

- the URL validator shared by the three profile-link fields;
- the nickname constraint (`min_length=3`, pattern `^[\w-]+$`);
- the "at least one field" root validators of `UserUpdate` and `UserProfileUpdate`;
- the `ANONYMOUS` role default of `UserCreate`.

Modules:

- `Wrappers` (`wrappers.dfy`): Option and Result.
- `Roles` (`roles.dfy`): the closed enumeration ANONYMOUS | AUTHENTICATED | MANAGER | ADMIN, its `.name`, and lookup by name.
- `PyRegex` (`pyregex.dfy`): the fragment of regular expressions the validators use, with the meaning Python's `re` gives it. `Matches(r, s, i, j)` says pattern `r` matches `s[i..j]`. `ReMatch` is `re.match`. The hand-written validators are proved equal to these patterns.
- `Dependencies` (`dependencies.dfy`): `get_current_user`, `require_role` and the dependency chain of a protected route. Three things enter as parameters:
  - the token decoder, a function from the token to an optional claim map;
  - the UUID parser, a partial function;
  - the account store, a map from id to record.
- `UserSchemas` (`user_schemas.dfy`): the validators above.

Two behaviours of the code worth noting:

- An allowed-role entry that is a plain string is kept as it is (`str(r)`); it is not normalised to an enum member, and an unknown name is not rejected. It simply matches no role.
- The role claim inside the token is never read. The role that is checked is the one in the store.

## Model

| member | source | states |
|---|---|---|
| Roles.FromName | tests/test_api/test_users_api.py:79 | A role is found by its exact, case-sensitive name. An unknown name finds nothing. It stands alone as the inverse of `.name`; no modelled operation parses a role from its name. |
| Roles.NameRoundTrip | tests/test_api/test_users_api.py:281 | Looking a role up by its own `.name` gives that role back. |
| Roles.NameInjective | app/dependencies.py:78-83 | Two roles have equal names exactly when they are the same role, so comparing names compares roles. |
| Dependencies.Subject | app/dependencies.py:47-49 | A subject exists exactly when the decoded payload is present and carries `"sub"`; it is that claim's value. |
| Dependencies.GetCurrentUser | app/dependencies.py:38-64 | Fails only with the 401 credentials error or the 404 error. 401 exactly when there is no subject or it is not a UUID. 404 exactly when the UUID has no record. On success the result is the stored record for that UUID, and in a store keyed by record id its id is that UUID. |
| Dependencies.CredentialFailureIgnoresStore | app/dependencies.py:47-54 | Without a parsable subject the outcome is the 401 error for every store, so the store is not consulted. |
| Dependencies.OnlySubjectRecordRead | app/dependencies.py:56 | Two stores that agree at the subject's id give the same outcome: only that one record is read. |
| Dependencies.DeletedAccountNotFound | app/dependencies.py:56-62 | A token whose subject's record has been removed gives 404, never 401. |
| Dependencies.OnlySubjectClaimRead | app/dependencies.py:51-52 | Two payloads with the same subject give the same outcome, whatever role or other claims they carry. |
| Dependencies.AllowedNames | app/dependencies.py:71-74 | A role's name is in the set exactly when the role is listed as a member or by its exact name. Every entry's name is in the set, and nothing else is. |
| Dependencies.RoleChecker | app/dependencies.py:76-88 | Succeeds exactly when the user's role name is allowed. On success it returns the user unchanged; otherwise it fails with 403 "Operation not permitted". |
| Dependencies.RequireRole | app/dependencies.py:66-90 | The checker it builds is the identity on every user whose role is listed (as member or name) and gives 403 on every other user. |
| Dependencies.MembersAndNamesAgree | app/dependencies.py:69-74 | Listing roles as enum members or as their `.name` strings builds the same set of allowed names. |
| Dependencies.EmptyAllowedRejectsAll | app/dependencies.py:83-87 | With an empty `allowed`, every user gets 403. |
| Dependencies.NamesAreCaseSensitive | app/dependencies.py:72-83 | Lower-case names such as "admin" admit no user: the comparison is exact. |
| Dependencies.WideningKeepsAccepted | app/dependencies.py:71-83 | Enlarging `allowed` never turns an accepted user into a refused one. |
| Dependencies.Authorize | app/dependencies.py:76-88 | For a protected route, the checks run in a fixed order. 401 when the token has no parsable subject; 404 when the subject has no record; then the stored record's role decides between success (the stored record) and 403. |
| Dependencies.StoredRoleWins | app/dependencies.py:56-82 | A token whose role claim says AUTHENTICATED passes an ADMIN-only check when the stored account is now ADMIN. |
| PyRegex.StarClass | app/schemas/user_schemas.py:16 | A starred class such as `[^\s]*` matches exactly the slices made only of characters in the class. |
| UserSchemas.UrlShapeIsPattern | app/schemas/user_schemas.py:16-17 | The hand-written URL shape accepts exactly the strings that `re.match` accepts with `^https?:\/\/[^\s/$.?#].[^\s]*$`, using Python's `$`. |
| UserSchemas.UrlShapeToEndIsPattern | app/schemas/user_schemas.py:16-17 | The shape without the final-newline allowance is exactly what the same pattern accepts when it is anchored at the end of the string. |
| UserSchemas.ValidateUrlAsWritten | app/schemas/user_schemas.py:13-19 | `None` is returned as `None`. A string is accepted exactly when `re.match` accepts it, and is then returned unchanged. Otherwise the error is "Invalid URL format". |
| UserSchemas.ValidateUrl | app/schemas/user_schemas.py:13-19 | As above, but with the pattern anchored at the end of the string. An accepted URL starts with lower-case `http://` or `https://` and has no whitespace after its first two host characters. |
| UserSchemas.AsWrittenAcceptsFinalNewline | app/schemas/user_schemas.py:16 | The validator as written accepts a string exactly when the end-anchored one accepts it, or the string ends in a newline and the end-anchored one accepts it without that newline. |
| UserSchemas.TrailingNewlineSlipsThrough | app/schemas/user_schemas.py:16-18 | `"http://ab\n"` is accepted unchanged as written and refused by the end-anchored validator. |
| UserSchemas.UpperCaseSchemeRefused | app/schemas/user_schemas.py:16-18 | Any string that starts with `HTTP://` is refused: the pattern has no case-insensitive flag. |
| UserSchemas.ValidateUrlFields | app/schemas/user_schemas.py:32 | One validator guards all three link fields. A field has an error exactly when its URL is refused, and every such error is "Invalid URL format". |
| UserSchemas.NicknamePatternIsChars | app/schemas/user_schemas.py:23 | `^[\w-]+$` matches exactly the non-empty strings made of word characters and hyphens. |
| UserSchemas.ValidateNickname | app/schemas/user_schemas.py:47 | An absent nickname passes. A present one passes unchanged exactly when it has at least 3 characters and matches the pattern. Otherwise the error reports the length first, then the pattern. |
| UserSchemas.NicknameExamples | app/schemas/user_schemas.py:23 | "john_doe123" and "jolly-lion-664" pass; "jo" is too short; "john doe" fails the pattern. |
| UserSchemas.CheckAtLeastOneValue | app/schemas/user_schemas.py:56-60 | Refuses with "At least one field must be provided for update" exactly when no value is truthy; otherwise returns the values unchanged. |
| UserSchemas.AtLeastOneField | app/schemas/user_schemas.py:151-155 | The same rule, with the message "At least one field must be provided". |
| UserSchemas.RootValidatorsAgree | app/schemas/user_schemas.py:153 | The two root validators accept and refuse the same inputs. |
| UserSchemas.FalsyFieldIrrelevant | app/schemas/user_schemas.py:58 | Adding or removing a field whose value is falsy never changes the verdict. |
| UserSchemas.MoreFieldsStillAccepted | app/schemas/user_schemas.py:58-60 | An accepted update stays accepted, and is returned unchanged, when more fields are supplied. |
| UserSchemas.ValidateUserCreate | app/schemas/user_schemas.py:37-43 | A request is valid exactly when the e-mail, the nickname and the three URLs are valid. The e-mail is kept in the normalised form the e-mail check returns, every other field is kept as given, and an omitted role becomes ANONYMOUS. On failure the errors name exactly the failing fields. |

## Left out

- `get_settings` and `get_email_service` (app/dependencies.py:18-24) are left out: they only construct objects.
- `get_db` (app/dependencies.py:26-33) is left out. Besides opening the session, it catches every exception raised under its `yield` and re-raises it as a 500 whose detail is the exception's text. `get_current_user` depends on it, so the 401, 404 and 403 of the gate may reach the client as that 500, without the `WWW-Authenticate` header. The modelled outcomes are the exceptions `get_current_user` and `role_checker` raise, not the final HTTP responses.
- The bearer scheme (`Depends(oauth2_scheme)`, app/dependencies.py:39) is not modelled. A request without an `Authorization: Bearer` header is refused by it with 401 "Not authenticated" before `get_current_user` runs; in the model the token is always present.
- The account record keeps only its id and role, the two attributes the gate reads; the other columns are not modelled.
- `decode_token` is not part of this model; it lives in the JWT service. It enters as the parameter `decode`. Signature checks and expiry, including the boundary at `exp`, are not modelled.
- UUID parsing is library behaviour. It enters as the partial function `parseUuid`.
- Claim values are strings in the model. A non-string `"sub"` makes `UUID()` raise something other than `ValueError`, which the source does not catch; that case is not modelled.
- `Dependencies.RoleChecker`: the `str(current_user.role)` fallback for a role that is not an enum member is not modelled, because a stored role is always a `UserRole` here.
- The request is async and the store lookup is awaited. The model is a pure function over a snapshot of the store.
- `UserSchemas.ValidateNickname`: `\w` is modelled as ASCII letters, digits and `_`. Non-ASCII letters and digits, which the library's Unicode `\w` also accepts, are refused here.
- `UserSchemas.ValidateNickname`: the `$` in the nickname pattern is read as the end of the string. That is how the validation library's pattern engine reads it, unlike Python's `re`.
- The e-mail check (`EmailStr`) is library behaviour. It enters as the partial function `normalizeEmail`, which gives the normalised address the library keeps (domain lower-cased, surrounding spaces stripped, a `Name <addr>` form unwrapped) or nothing for a refused address; the normalisation itself is not modelled. Its message is a stand-in: the library's message also appends the reason the address was refused. The nickname messages are the library's wording, used as constants.
- Pydantic's conversion of raw JSON into typed fields is not modelled. This covers raw values of the wrong type for a URL field and the field-level checks of `UserUpdate`. Only the root validators of the update schemas are modelled.
- `UserSchemas.Truthy`: floating-point values (for which `0.0` is falsy) are not modelled.
- The login and lockout flow (`UserService`), the e-mail service, templating and timestamps are not part of this model.
- `UserSchemas.ValidateUrlFields` and `UserSchemas.ValidateUserCreate` use the end-anchored validator, as the Findings table explains. The validator as written is `UserSchemas.ValidateUrlAsWritten`.

## Findings

| source | as written | input that shows it | evidently intended | confidence | as-written member | corrected member |
|---|---|---|---|---|---|---|
| app/schemas/user_schemas.py:16-17 | `re.match` with a pattern ending in `$`. In Python, `$` also matches just before a newline that ends the string. | `"http://ab\n"` is accepted and stored with its newline. | The pattern anchored at the end of the string (`\Z` or `re.fullmatch`): no final newline, and no whitespace after the first two host characters. | high (not executed) | UserSchemas.TrailingNewlineSlipsThrough | UserSchemas.ValidateUrl |
