/** The request schemas' own validation logic: the URL validator shared by the three
    profile-link fields, the nickname constraint, the "at least one field" rules of the
    two update schemas, and the role default of the registration schema. */
module UserSchemas {
  import opened Wrappers
  import opened Roles
  import opened PyRegex

  const InvalidUrlMessage := "Invalid URL format"
  const UpdateEmptyMessage := "At least one field must be provided for update"
  const ProfileUpdateEmptyMessage := "At least one field must be provided"

  // ---------------------------------------------------------------------------
  // validate_url
  // ---------------------------------------------------------------------------

  /** The characters, besides whitespace, that may not open the host part. */
  const HostStartExcluded := "/$.?#"

  /** `^https?:\/\/[^\s/$.?#].[^\s]*$` as a pattern tree. */
  const UrlPattern: Re :=
    Cat(Start, Cat(Text("http"), Cat(Opt(Class(Is('s'))), Cat(Text("://"),
      Cat(Class(NotSpaceNorIn(HostStartExcluded)), Cat(Class(AnyButNewline),
        Cat(Star(Class(NotSpace)), End)))))))

  /** The same pattern anchored at the very end of the subject, as `re.fullmatch` or `\Z` would. */
  const UrlPatternToEnd: Re :=
    Cat(Start, Cat(Text("http"), Cat(Opt(Class(Is('s'))), Cat(Text("://"),
      Cat(Class(NotSpaceNorIn(HostStartExcluded)), Cat(Class(AnyButNewline),
        Cat(Star(Class(NotSpace)), EndOfText)))))))

  /** Length of the scheme prefix, `https://` or `http://` in lower case, or 0 when there is neither. */
  function SchemeLength(url: string): (n: nat)
    ensures n in {0, 7, 8} && n <= |url|
    ensures n == 8 ==> url[..8] == "https://"
    ensures n == 7 ==> url[..7] == "http://"
    ensures n == 0 ==> !(|url| >= 7 && url[..7] == "http://") && !(|url| >= 8 && url[..8] == "https://")
  {
    if |url| >= 8 && url[..8] == "https://" then 8
    else if |url| >= 7 && url[..7] == "http://" then 7
    else 0
  }

  /** No character of `url` from index `from` on is whitespace. */
  predicate NoSpaceFrom(url: string, from: nat) {
    forall k :: from <= k < |url| ==> !IsSpace(url[k])
  }

  /** What may follow the first two characters after the scheme when a final newline is allowed:
      non-whitespace characters, optionally closed by one `\n`. */
  predicate TailAllowingFinalNewline(url: string, from: nat) {
    NoSpaceFrom(url, from)
    || (from < |url| && url[|url| - 1] == '\n' && NoSpaceFrom(url[..|url| - 1], from))
  }

  /** The first two characters after the scheme: the first is neither whitespace nor one of
      `/ $ . ? #`, the second is anything but a newline. */
  predicate HostStartOk(url: string, n: nat) {
    n + 2 <= |url| && !IsSpace(url[n]) && url[n] !in HostStartExcluded && url[n + 1] != '\n'
  }

  /** The shape `re.match` with UrlPattern accepts, character by character. */
  predicate UrlShape(url: string) {
    var n := SchemeLength(url);
    n > 0 && HostStartOk(url, n) && TailAllowingFinalNewline(url, n + 2)
  }

  /** The shape the pattern describes when `$` is taken to mean the end of the subject. */
  predicate UrlShapeToEnd(url: string) {
    var n := SchemeLength(url);
    n > 0 && HostStartOk(url, n) && NoSpaceFrom(url, n + 2)
  }

  /** From the host start on, the pattern with the given final anchor matches exactly the shape. */
  lemma HostAndTail(s: string, n: nat, anchor: Re)
    requires n <= |s|
    requires anchor == End || anchor == EndOfText
    ensures MatchesFrom(Cat(Class(NotSpaceNorIn(HostStartExcluded)), Cat(Class(AnyButNewline),
              Cat(Star(Class(NotSpace)), anchor))), s, n)
        <==> HostStartOk(s, n)
             && (if anchor == End then TailAllowingFinalNewline(s, n + 2) else NoSpaceFrom(s, n + 2))
  {
    var tail := Cat(Star(Class(NotSpace)), anchor);
    ClassThen(NotSpaceNorIn(HostStartExcluded), Cat(Class(AnyButNewline), tail), s, n);
    if n + 1 <= |s| {
      ClassThen(AnyButNewline, tail, s, n + 1);
    }
    if n + 2 <= |s| {
      StarClassThenAnchor(NotSpace, anchor, s, n + 2);
      if MatchesFrom(tail, s, n + 2) {
        var j :| n + 2 <= j <= |s| && Matches(anchor, s, j, j) && forall k :: n + 2 <= k < j ==> !IsSpace(s[k]);
        if j < |s| {
          assert anchor == End && j == |s| - 1 && s[j] == '\n';
          assert NoSpaceFrom(s[..|s| - 1], n + 2);
        }
      }
      if anchor == End && TailAllowingFinalNewline(s, n + 2) {
        if NoSpaceFrom(s, n + 2) {
          assert Matches(anchor, s, |s|, |s|);
        } else {
          assert Matches(anchor, s, |s| - 1, |s| - 1);
        }
      }
      if anchor == EndOfText && NoSpaceFrom(s, n + 2) {
        assert Matches(anchor, s, |s|, |s|);
      }
    }
  }

  /** Everything before the host start: `^`, `http`, an optional `s` and `://`. */
  lemma SchemeThen(s: string, x: Re)
    ensures ReMatch(Cat(Start, Cat(Text("http"), Cat(Opt(Class(Is('s'))), Cat(Text("://"), x)))), s)
        <==> SchemeLength(s) > 0 && MatchesFrom(x, s, SchemeLength(s))
  {
    var afterS := Cat(Text("://"), x);
    StartThen(Cat(Text("http"), Cat(Opt(Class(Is('s'))), afterS)), s);
    TextThen("http", Cat(Opt(Class(Is('s'))), afterS), s, 0);
    if 4 <= |s| {
      OptClassThen(Is('s'), afterS, s, 4);
      TextThen("://", x, s, 4);
      if 5 <= |s| {
        TextThen("://", x, s, 5);
      }
    }
    if |s| >= 8 && s[..8] == "https://" {
      assert s[..4] == "http" && s[4] == 's' && s[5..8] == "://";
    } else if |s| >= 7 && s[..7] == "http://" {
      assert s[..4] == "http" && s[4..7] == "://";
    }
    if |s| >= 7 && s[..4] == "http" && s[4..7] == "://" {
      assert s[..7] == "http://";
    }
    if |s| >= 8 && s[..4] == "http" && s[4] == 's' && s[5..8] == "://" {
      assert s[..8] == "https://";
    }
  }

  /** The hand-written shape is exactly what `re.match` accepts with the validator's pattern. */
  lemma UrlShapeIsPattern(url: string)
    ensures UrlShape(url) <==> ReMatch(UrlPattern, url)
  {
    var hostOn := Cat(Class(NotSpaceNorIn(HostStartExcluded)), Cat(Class(AnyButNewline),
                    Cat(Star(Class(NotSpace)), End)));
    SchemeThen(url, hostOn);
    if SchemeLength(url) > 0 {
      HostAndTail(url, SchemeLength(url), End);
    }
  }

  /** The end-anchored shape is exactly what the end-anchored pattern accepts. */
  lemma UrlShapeToEndIsPattern(url: string)
    ensures UrlShapeToEnd(url) <==> ReMatch(UrlPatternToEnd, url)
  {
    var hostOn := Cat(Class(NotSpaceNorIn(HostStartExcluded)), Cat(Class(AnyButNewline),
                    Cat(Star(Class(NotSpace)), EndOfText)));
    SchemeThen(url, hostOn);
    if SchemeLength(url) > 0 {
      HostAndTail(url, SchemeLength(url), EndOfText);
    }
  }

  /** `validate_url` as written: `None` passes through, a string `re.match` accepts is
      returned unchanged, anything else is refused with "Invalid URL format". Because
      Python's `$` also matches before a final newline, a URL ending in `\n` can pass. */
  function ValidateUrlAsWritten(url: Option<string>): (r: Result<Option<string>, string>)
    ensures url.None? ==> r == Success(None)
    ensures url.Some? ==> (r.Success? <==> ReMatch(UrlPattern, url.value))
    ensures r.Success? ==> r.value == url
    ensures r.Failure? ==> r.error == InvalidUrlMessage
  {
    if url.None? then Success(None)
    else
      UrlShapeIsPattern(url.value);
      if UrlShape(url.value) then Success(url) else Failure(InvalidUrlMessage)
  }

  /** The URL validator with the pattern anchored at the very end of the subject: the
      scheme is lower-case `http://` or `https://`, then a character that is neither
      whitespace nor one of `/ $ . ? #`, then any character but a newline, then only
      non-whitespace. This is the validator the schemas below use. */
  function ValidateUrl(url: Option<string>): (r: Result<Option<string>, string>)
    ensures url.None? ==> r == Success(None)
    ensures url.Some? ==> (r.Success? <==> ReMatch(UrlPatternToEnd, url.value))
    ensures r.Success? ==> r.value == url
    ensures r.Failure? ==> r.error == InvalidUrlMessage
    ensures r.Success? && url.Some? ==>
              ((|url.value| >= 7 && url.value[..7] == "http://") || (|url.value| >= 8 && url.value[..8] == "https://"))
              && forall k :: SchemeLength(url.value) + 2 <= k < |url.value| ==> !IsSpace(url.value[k])
  {
    if url.None? then Success(None)
    else
      UrlShapeToEndIsPattern(url.value);
      if UrlShapeToEnd(url.value) then Success(url) else Failure(InvalidUrlMessage)
  }

  /** The two validators differ only on a string that ends in a newline: the validator as
      written accepts it exactly when the corrected one accepts it without that newline. */
  lemma AsWrittenAcceptsFinalNewline(url: string)
    ensures ValidateUrlAsWritten(Some(url)).Success?
        <==> ValidateUrl(Some(url)).Success?
             || (|url| > 0 && url[|url| - 1] == '\n' && ValidateUrl(Some(url[..|url| - 1])).Success?)
  {
  }


  /** A URL with a trailing newline passes the validator as written and is refused by the
      corrected one. */
  lemma TrailingNewlineSlipsThrough()
    ensures ValidateUrlAsWritten(Some("http://ab\n")) == Success(Some("http://ab\n"))
    ensures ValidateUrl(Some("http://ab\n")) == Failure(InvalidUrlMessage)
  {
    var url := "http://ab\n";
    assert SchemeLength(url) == 7;
    assert url[..|url| - 1] == "http://ab";
    assert NoSpaceFrom(url[..|url| - 1], 9);
    assert IsSpace(url[9]);
  }

  /** The scheme is matched case-sensitively: an upper-case scheme is refused. */
  lemma UpperCaseSchemeRefused(rest: string)
    ensures ValidateUrl(Some("HTTP://" + rest)) == Failure(InvalidUrlMessage)
    ensures ValidateUrlAsWritten(Some("HTTP://" + rest)) == Failure(InvalidUrlMessage)
  {
    var url := "HTTP://" + rest;
    assert url[0] == 'H';
  }

  /** The same validator guards the three profile-link fields; every failing field is reported. */
  function ValidateUrlFields(profilePictureUrl: Option<string>, linkedinProfileUrl: Option<string>,
                             githubProfileUrl: Option<string>): (errors: seq<FieldError>)
    ensures FieldNamed(errors, "profile_picture_url") <==> ValidateUrl(profilePictureUrl).Failure?
    ensures FieldNamed(errors, "linkedin_profile_url") <==> ValidateUrl(linkedinProfileUrl).Failure?
    ensures FieldNamed(errors, "github_profile_url") <==> ValidateUrl(githubProfileUrl).Failure?
    ensures forall e :: e in errors ==> e.message == InvalidUrlMessage
    ensures forall e :: e in errors ==> e.field in {"profile_picture_url", "linkedin_profile_url", "github_profile_url"}
    ensures |errors| <= 3
  {
    UrlError("profile_picture_url", profilePictureUrl)
    + UrlError("linkedin_profile_url", linkedinProfileUrl)
    + UrlError("github_profile_url", githubProfileUrl)
  }

  function UrlError(field: string, url: Option<string>): (errors: seq<FieldError>)
    ensures |errors| <= 1
    ensures forall e :: e in errors ==> e == FieldError(field, InvalidUrlMessage)
    ensures |errors| == 1 <==> ValidateUrl(url).Failure?
  {
    if ValidateUrl(url).Failure? then [FieldError(field, InvalidUrlMessage)] else []
  }

  // ---------------------------------------------------------------------------
  // Field errors and the nickname constraint
  // ---------------------------------------------------------------------------

  /** A validation error attached to a named field. */
  datatype FieldError = FieldError(field: string, message: string)

  predicate FieldNamed(errors: seq<FieldError>, field: string) {
    exists e :: e in errors && e.field == field
  }

  const NicknameTooShort := "String should have at least 3 characters"
  const NicknamePatternMismatch := "String should match pattern '^[\\w-]+$'"

  /** `^[\w-]+$` as the validation library's pattern engine reads it (there `$` is the end
      of the subject), with `+` written out as one class character followed by a star. */
  const NicknamePattern: Re :=
    Cat(Start, Cat(Class(WordOrIn("-")), Cat(Star(Class(WordOrIn("-"))), EndOfText)))

  /** Every character is a word character or a hyphen. */
  predicate NicknameChars(nickname: string) {
    forall k :: 0 <= k < |nickname| ==> IsWordChar(nickname[k]) || nickname[k] == '-'
  }

  /** The pattern accepts exactly the non-empty strings of word characters and hyphens. */
  lemma NicknamePatternIsChars(nickname: string)
    ensures ReMatch(NicknamePattern, nickname) <==> |nickname| > 0 && NicknameChars(nickname)
  {
    var rest := Cat(Star(Class(WordOrIn("-"))), EndOfText);
    StartThen(Cat(Class(WordOrIn("-")), rest), nickname);
    ClassThen(WordOrIn("-"), rest, nickname, 0);
    if |nickname| > 0 {
      StarClassThenAnchor(WordOrIn("-"), EndOfText, nickname, 1);
      if MatchesFrom(rest, nickname, 1) {
        var j :| 1 <= j <= |nickname| && Matches(EndOfText, nickname, j, j)
                 && forall k :: 1 <= k < j ==> InClass(WordOrIn("-"), nickname[k]);
      }
      if NicknameChars(nickname) {
        assert Matches(EndOfText, nickname, |nickname|, |nickname|);
      }
    }
  }

  /** The nickname constraint (`min_length=3`, `pattern=r'^[\w-]+$'`): an absent nickname
      passes; a present one passes unchanged when it has at least three characters, all
      word characters or hyphens. The length is checked first. */
  function ValidateNickname(nickname: Option<string>): (r: Result<Option<string>, string>)
    ensures r.Success? <==> nickname.None? || (|nickname.value| >= 3 && ReMatch(NicknamePattern, nickname.value))
    ensures r.Success? ==> r.value == nickname
    ensures r.Failure? ==> (r.error == NicknameTooShort <==> |nickname.value| < 3)
    ensures r.Failure? ==> r.error in {NicknameTooShort, NicknamePatternMismatch}
  {
    if nickname.None? then Success(None)
    else
      NicknamePatternIsChars(nickname.value);
      if |nickname.value| < 3 then Failure(NicknameTooShort)
      else if !NicknameChars(nickname.value) then Failure(NicknamePatternMismatch)
      else Success(nickname)
  }

  /** A generated nickname of the application's usual form is accepted; one with a space or
      only two characters is not. */
  lemma NicknameExamples()
    ensures ValidateNickname(Some("john_doe123")).Success?
    ensures ValidateNickname(Some("jolly-lion-664")).Success?
    ensures ValidateNickname(Some("jo")) == Failure(NicknameTooShort)
    ensures ValidateNickname(Some("john doe")) == Failure(NicknamePatternMismatch)
  {
    assert !NicknameChars("john doe") by { assert "john doe"[4] == ' '; }
  }

  // ---------------------------------------------------------------------------
  // The "at least one field" root validators
  // ---------------------------------------------------------------------------

  /** A raw JSON value, as a `pre=True` root validator sees it. */
  datatype Value =
    | Null
    | Bool(b: bool)
    | Int(n: int)
    | Str(s: string)
    | List(items: seq<Value>)
    | Object(entries: map<string, Value>)

  /** Python truthiness: `None`, `False`, `0`, `""`, `[]` and `{}` are falsy. */
  predicate Truthy(v: Value) {
    match v
    case Null => false
    case Bool(b) => b
    case Int(n) => n != 0
    case Str(s) => s != ""
    case List(items) => |items| > 0
    case Object(entries) => |entries| > 0
  }

  /** The fields of the request that carry a truthy value. */
  function ProvidedFields(values: map<string, Value>): (fields: set<string>)
    ensures fields <= values.Keys
    ensures forall k :: k in values ==> (k in fields <==> Truthy(values[k]))
  {
    set k | k in values && Truthy(values[k])
  }

  /** `UserUpdate.check_at_least_one_value`: the raw values are returned unchanged when some
      field carries a truthy value, and refused otherwise (no field, or all `None`, empty,
      zero or `False`). */
  function CheckAtLeastOneValue(values: map<string, Value>): (r: Result<map<string, Value>, string>)
    ensures r.Success? <==> exists k :: k in values && Truthy(values[k])
    ensures r.Success? ==> r.value == values
    ensures r.Failure? ==> r.error == UpdateEmptyMessage
  {
    if ProvidedFields(values) == {} then Failure(UpdateEmptyMessage) else Success(values)
  }

  /** `UserProfileUpdate.at_least_one_field`: the same rule with its own message. */
  function AtLeastOneField(values: map<string, Value>): (r: Result<map<string, Value>, string>)
    ensures r.Success? <==> exists k :: k in values && Truthy(values[k])
    ensures r.Success? ==> r.value == values
    ensures r.Failure? ==> r.error == ProfileUpdateEmptyMessage
  {
    if ProvidedFields(values) == {} then Failure(ProfileUpdateEmptyMessage) else Success(values)
  }

  /** The two root validators accept and refuse the same inputs; only the message differs. */
  lemma RootValidatorsAgree(values: map<string, Value>)
    ensures CheckAtLeastOneValue(values).Success? <==> AtLeastOneField(values).Success?
    ensures CheckAtLeastOneValue(values).Success? ==> CheckAtLeastOneValue(values) == AtLeastOneField(values)
  {
  }

  /** Adding or dropping a falsy field never changes the verdict. */
  lemma FalsyFieldIrrelevant(values: map<string, Value>, field: string, v: Value)
    requires !Truthy(v)
    ensures CheckAtLeastOneValue(values[field := v]).Success? <==> CheckAtLeastOneValue(values - {field}).Success?
  {
  }

  /** Supplying more fields never turns an accepted update into a refused one. */
  lemma MoreFieldsStillAccepted(values: map<string, Value>, more: map<string, Value>)
    requires forall k :: k in values ==> k in more && more[k] == values[k]
    requires CheckAtLeastOneValue(values).Success?
    ensures CheckAtLeastOneValue(more) == Success(more)
  {
  }

  // ---------------------------------------------------------------------------
  // UserCreate
  // ---------------------------------------------------------------------------

  /** A registration request as received; the role may be omitted. */
  datatype UserCreateInput = UserCreateInput(
    email: string,
    password: string,
    nickname: Option<string>,
    firstName: Option<string>,
    lastName: Option<string>,
    bio: Option<string>,
    profilePictureUrl: Option<string>,
    linkedinProfileUrl: Option<string>,
    githubProfileUrl: Option<string>,
    role: Option<UserRole>)

  /** A validated registration request. */
  datatype UserCreate = UserCreate(
    email: string,
    password: string,
    nickname: Option<string>,
    firstName: Option<string>,
    lastName: Option<string>,
    bio: Option<string>,
    profilePictureUrl: Option<string>,
    linkedinProfileUrl: Option<string>,
    githubProfileUrl: Option<string>,
    role: UserRole)

  /** A stand-in for the e-mail check's message; the library appends the reason. */
  const InvalidEmailMessage := "value is not a valid email address"

  /** Validates a registration request field by field, collecting every field's error.
      The e-mail check is the library's and enters as `normalizeEmail`, which gives the
      normalised address or `None` for a refused one; the normalised address is what is
      kept. On success every other field is
      kept as given and an omitted role becomes ANONYMOUS. */
  function ValidateUserCreate(input: UserCreateInput, normalizeEmail: string -> Option<string>): (r: Result<UserCreate, seq<FieldError>>)
    ensures r.Success? <==> normalizeEmail(input.email).Some? && ValidateNickname(input.nickname).Success?
                            && ValidateUrl(input.profilePictureUrl).Success?
                            && ValidateUrl(input.linkedinProfileUrl).Success?
                            && ValidateUrl(input.githubProfileUrl).Success?
    ensures r.Success? ==> r.value.role == (if input.role.Some? then input.role.value else ANONYMOUS)
    ensures r.Success? ==> r.value.email == normalizeEmail(input.email).value && r.value.password == input.password
                           && r.value.nickname == input.nickname && r.value.firstName == input.firstName
                           && r.value.lastName == input.lastName && r.value.bio == input.bio
                           && r.value.profilePictureUrl == input.profilePictureUrl
                           && r.value.linkedinProfileUrl == input.linkedinProfileUrl
                           && r.value.githubProfileUrl == input.githubProfileUrl
    ensures r.Failure? ==> |r.error| > 0
                           && (FieldNamed(r.error, "email") <==> normalizeEmail(input.email).None?)
                           && (FieldNamed(r.error, "nickname") <==> ValidateNickname(input.nickname).Failure?)
                           && (FieldNamed(r.error, "profile_picture_url") <==> ValidateUrl(input.profilePictureUrl).Failure?)
                           && (FieldNamed(r.error, "linkedin_profile_url") <==> ValidateUrl(input.linkedinProfileUrl).Failure?)
                           && (FieldNamed(r.error, "github_profile_url") <==> ValidateUrl(input.githubProfileUrl).Failure?)
                           && forall e :: e in r.error ==> e.field in {"email", "nickname", "profile_picture_url",
                                                                         "linkedin_profile_url", "github_profile_url"}
  {
    var email := normalizeEmail(input.email);
    var emailErrors := if email.Some? then [] else [FieldError("email", InvalidEmailMessage)];
    var nick := ValidateNickname(input.nickname);
    var nicknameErrors := if nick.Failure? then [FieldError("nickname", nick.error)] else [];
    var urlErrors := ValidateUrlFields(input.profilePictureUrl, input.linkedinProfileUrl, input.githubProfileUrl);
    var errors := emailErrors + nicknameErrors + urlErrors;
    if errors == [] then
      Success(UserCreate(email.value, input.password, input.nickname, input.firstName, input.lastName,
                         input.bio, input.profilePictureUrl, input.linkedinProfileUrl, input.githubProfileUrl,
                         input.role.GetOr(ANONYMOUS)))
    else
      assert FieldNamed(errors, "email") <==> email.None? by {
        forall e | e in urlErrors ensures e.field != "email" {
        }
      }
      Failure(errors)
  }
}
