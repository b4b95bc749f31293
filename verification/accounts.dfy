/** The account endpoints of api/views.py: signup (idempotent for a pair
    already registered), the token exchange against the confirmation code,
    the requester's own profile at /users/me/, and the administrators' user
    management. Sending the confirmation mail and minting the JWT are not
    modelled: signup returns the user whose code would be mailed, the token
    exchange returns the user the token would be minted for. */
module Accounts {
  import opened Outcomes
  import opened Seqs
  import opened Text
  import opened Fields
  import opened Uuids
  import opened Users
  import opened Validators
  import opened Permissions
  import opened Schema

  /** The username nobody may sign up with: it names the /users/me/ route. */
  const RESERVED_USERNAME: string := "me"

  // ----- The user serializer fields --------------------------------------

  /** No user other than the one keyed `self` has this username. */
  predicate UsernameFree(users: seq<User>, name: string, self: nat)
  {
    forall u :: u in users && u.id != self ==> u.username != name
  }

  predicate EmailFree(users: seq<User>, email: string, self: nat)
  {
    forall u :: u in users && u.id != self ==> u.email != email
  }

  /** The username field accepts `raw`: not blank, at most 150 characters,
      `validate_username`, and the UniqueValidator (which ignores the row
      being edited). */
  predicate UsernameOk(s: Store, raw: string, self: nat)
  {
    && Acceptable(raw, AtMost(USERNAME_MAX_LENGTH), false)
    && AllUsernameChars(Trim(raw))
    && UsernameFree(s.users, Trim(raw), self)
  }

  /** The email field accepts `raw`: not blank, at most 254 characters, an
      address by `isEmail`, and unique. */
  predicate EmailOk(s: Store, raw: string, self: nat, isEmail: string -> bool)
  {
    && Acceptable(raw, AtMost(EMAIL_MAX_LENGTH), false)
    && isEmail(Trim(raw))
    && EmailFree(s.users, Trim(raw), self)
  }

  function CleanUsername(s: Store, raw: string, self: nat): (r: Result<string>)
    ensures r.Ok? <==> UsernameOk(s, raw, self)
    ensures r.Ok? ==> r.value == Trim(raw)
    ensures r.Err? ==> r.error.Validation?
  {
    var name :- CleanChar("username", raw, AtMost(USERNAME_MAX_LENGTH), false);
    :- ValidateUsername(name);
    if exists u :: u in s.users && u.id != self && u.username == name then Err(Validation(NotUnique("username")))
    else Ok(name)
  }

  function CleanEmail(s: Store, raw: string, self: nat, isEmail: string -> bool): (r: Result<string>)
    ensures r.Ok? <==> EmailOk(s, raw, self, isEmail)
    ensures r.Ok? ==> r.value == Trim(raw)
    ensures r.Err? ==> r.error.Validation?
  {
    var email :- CleanChar("email", raw, AtMost(EMAIL_MAX_LENGTH), false);
    :- Need(isEmail(email), Validation(EmailSyntax));
    if exists u :: u in s.users && u.id != self && u.email == email then Err(Validation(NotUnique("email")))
    else Ok(email)
  }

  /** The writable fields of `UserSerializer`, each present or absent. */
  datatype UserFields = UserFields(
    username: Option<string>,
    email: Option<string>,
    role: Option<string>,
    firstName: Option<string>,
    lastName: Option<string>,
    bio: Option<string>)

  /** Every submitted field passes its serializer field. The role is a
      choice field: compared as sent, without stripping. */
  predicate FieldsOk(s: Store, self: nat, f: UserFields, isEmail: string -> bool)
  {
    && (f.username.Some? ==> UsernameOk(s, f.username.value, self))
    && (f.email.Some? ==> EmailOk(s, f.email.value, self, isEmail))
    && (f.role.Some? ==> ValidRole(f.role.value))
    && (f.firstName.Some? ==> Acceptable(f.firstName.value, AtMost(NAME_MAX_LENGTH), true))
    && (f.lastName.Some? ==> Acceptable(f.lastName.value, AtMost(NAME_MAX_LENGTH), true))
    && (f.bio.Some? ==> Acceptable(f.bio.value, Unlimited, true))
  }

  /** The value a present field sets, or the value kept. */
  function Updated(v: Option<string>, before: string): string
  {
    if v.Some? then Trim(v.value) else before
  }

  /** `UserSerializer(base, data=f, partial=True)` validated and applied to
      `base`: the submitted fields change, everything else (key,
      confirmation code, superuser flag) stays. */
  function ApplyFields(s: Store, base: User, f: UserFields, isEmail: string -> bool): (r: Result<User>)
    ensures r.Ok? <==> FieldsOk(s, base.id, f, isEmail)
    ensures r.Err? ==> r.error.Validation?
    ensures r.Ok? ==>
      && r.value.id == base.id
      && r.value.confirmationCode == base.confirmationCode
      && r.value.isSuperuser == base.isSuperuser
      && r.value.username == Updated(f.username, base.username)
      && r.value.email == Updated(f.email, base.email)
      && r.value.role == (if f.role.Some? then f.role.value else base.role)
      && r.value.firstName == Updated(f.firstName, base.firstName)
      && r.value.lastName == Updated(f.lastName, base.lastName)
      && r.value.bio == Updated(f.bio, base.bio)
  {
    var username :- OptionalUsername(s, f.username, base.id);
    var email :- OptionalEmail(s, f.email, base.id, isEmail);
    :- Need(f.role.None? || ValidRole(f.role.value), Validation(InvalidRole));
    var firstName :- CleanOptional("first_name", f.firstName, AtMost(NAME_MAX_LENGTH), true);
    var lastName :- CleanOptional("last_name", f.lastName, AtMost(NAME_MAX_LENGTH), true);
    var bio :- CleanOptional("bio", f.bio, Unlimited, true);
    Ok(base.(
      username := Or(username, base.username),
      email := Or(email, base.email),
      role := Or(f.role, base.role),
      firstName := Or(firstName, base.firstName),
      lastName := Or(lastName, base.lastName),
      bio := Or(bio, base.bio)))
  }

  function Or(v: Option<string>, otherwise: string): string
  {
    if v.Some? then v.value else otherwise
  }

  function OptionalUsername(s: Store, v: Option<string>, self: nat): (r: Result<Option<string>>)
    ensures r.Ok? <==> (v.Some? ==> UsernameOk(s, v.value, self))
    ensures r.Ok? ==> (v.None? ==> r.value.None?) && (v.Some? ==> r.value == Some(Trim(v.value)))
    ensures r.Err? ==> r.error.Validation?
  {
    match v
    case None => Ok(None)
    case Some(raw) =>
      var x :- CleanUsername(s, raw, self);
      Ok(Some(x))
  }

  function OptionalEmail(s: Store, v: Option<string>, self: nat, isEmail: string -> bool): (r: Result<Option<string>>)
    ensures r.Ok? <==> (v.Some? ==> EmailOk(s, v.value, self, isEmail))
    ensures r.Ok? ==> (v.None? ==> r.value.None?) && (v.Some? ==> r.value == Some(Trim(v.value)))
    ensures r.Err? ==> r.error.Validation?
  {
    match v
    case None => Ok(None)
    case Some(raw) =>
      var x :- CleanEmail(s, raw, self, isEmail);
      Ok(Some(x))
  }

  /** A stored user, changed by `ApplyFields`, still fits the users table. */
  lemma AppliedUserFits(s: Store, k: nat, f: UserFields, isEmail: string -> bool, u: User)
    requires Valid(s) && k < |s.users|
    requires FieldsOk(s, s.users[k].id, f, isEmail)
    requires u.id == s.users[k].id
    requires u.username == Updated(f.username, s.users[k].username)
    requires u.email == Updated(f.email, s.users[k].email)
    requires u.role == (if f.role.Some? then f.role.value else s.users[k].role)
    requires u.firstName == Updated(f.firstName, s.users[k].firstName)
    requires u.lastName == Updated(f.lastName, s.users[k].lastName)
    ensures UserRowOk(u)
    ensures forall i :: 0 <= i < |s.users| && i != k ==>
      s.users[i].username != u.username && s.users[i].email != u.email
  {
    var before := s.users[k];
    assert before in s.users;
    forall i | 0 <= i < |s.users| && i != k
      ensures s.users[i].username != u.username && s.users[i].email != u.email
    {
      assert s.users[i] in s.users;
      assert DistinctUsers(s.users[i], before) || DistinctUsers(before, s.users[i]) by {
        if i < k {
          assert DistinctUsers(s.users[i], s.users[k]);
        } else {
          assert DistinctUsers(s.users[k], s.users[i]);
        }
      }
    }
  }

  /** Where the user keyed `id` sits in the users table. */
  function UserIndex(users: seq<User>, id: nat): (r: Option<nat>)
    ensures r.Some? ==> r.value < |users| && users[r.value].id == id
    ensures r.None? <==> id !in UserIds(users)
  {
    var k := FindIndex((u: User) => u.id == id, users);
    assert k.None? ==> forall u :: u in users ==> u.id != id by {
      if k.None? {
        forall u | u in users
          ensures u.id != id
        {
          var i :| 0 <= i < |users| && users[i] == u;
        }
      }
    }
    k
  }

  // ----- Signup ----------------------------------------------------------

  /** What signup answers: the user whose confirmation code is mailed, and
      the request data echoed back. */
  datatype SignupReply = SignupReply(store: Store, user: User, email: Option<string>, username: Option<string>)

  /** The request names an (email, username) pair a stored user has, exactly
      as sent. */
  predicate Registered(s: Store, email: Option<string>, username: Option<string>)
  {
    email.Some? && username.Some? &&
    exists u :: u in s.users && u.email == email.value && u.username == username.value
  }

  /** `UserCreateSerializer` accepts the request: both fields present and
      valid, and then its own `validate`. */
  predicate SignupAcceptable(s: Store, email: Option<string>, username: Option<string>, isEmail: string -> bool)
  {
    && email.Some? && username.Some?
    && EmailOk(s, email.value, s.nextId, isEmail)
    && UsernameOk(s, username.value, s.nextId)
    && Trim(username.value) != RESERVED_USERNAME
    && Trim(username.value) != Trim(email.value)
  }

  /** POST /auth/signup/. A pair already registered is answered with its
      stored user and nothing changes; any other request goes through the
      serializer and, when accepted, adds exactly one user with the default
      role and the freshly drawn `code`. The reply echoes the request. */
  function SignUp(s: Store, email: Option<string>, username: Option<string>, code: Uuid,
                  isEmail: string -> bool): (r: Result<SignupReply>)
    requires Valid(s)
    ensures r.Ok? ==> Valid(r.value.store)
    ensures r.Ok? ==> r.value.user in r.value.store.users
    ensures r.Ok? ==> r.value.email == email && r.value.username == username
    ensures Registered(s, email, username) ==>
      && r.Ok? && r.value.store == s
      && r.value.user.email == email.value && r.value.user.username == username.value
    ensures !Registered(s, email, username) ==> r == Register(s, email, username, code, isEmail)
  {
    if Registered(s, email, username) then
      var u := Find((v: User) => v.email == email.value && v.username == username.value, s.users).value;
      Ok(SignupReply(s, u, email, username))
    else
      Register(s, email, username, code, isEmail)
  }

  /** The serializer path of a signup: the fields are checked, then the new
      user is added with the default role. */
  function Register(s: Store, email: Option<string>, username: Option<string>, code: Uuid,
                    isEmail: string -> bool): (r: Result<SignupReply>)
    requires Valid(s)
    ensures r.Ok? <==> SignupAcceptable(s, email, username, isEmail)
    ensures r.Ok? ==>
      && r.value.email == email && r.value.username == username
      && r.value.user == NewUser(s.nextId, Trim(username.value), Trim(email.value), DEFAULT_ROLE, code)
      && r.value.store == s.(users := s.users + [r.value.user], nextId := s.nextId + 1)
      && r.value.user in r.value.store.users
      && Valid(r.value.store)
    ensures r.Err? ==> r.error == SignupFields(s, email, username, isEmail).error
  {
    var (cleanEmail, cleanUsername) :- SignupFields(s, email, username, isEmail);
    var u := NewUser(s.nextId, cleanUsername, cleanEmail, DEFAULT_ROLE, code);
    assert UserRowOk(u);
    NoUserHoldsNextId(s);
    var s' := AddUser(s, u);
    assert u in s'.users;
    Ok(SignupReply(s', u, email, username))
  }

  /** `UserCreateSerializer` on a signup request: the cleaned (email,
      username), or the first validation error. */
  function SignupFields(s: Store, email: Option<string>, username: Option<string>,
                        isEmail: string -> bool): (r: Result<(string, string)>)
    ensures r.Ok? <==> SignupAcceptable(s, email, username, isEmail)
    ensures r.Ok? ==> r.value == (Trim(email.value), Trim(username.value))
    ensures r.Err? ==> r.error.Validation?
    ensures (&& email.Some? && username.Some?
             && EmailOk(s, email.value, s.nextId, isEmail) && UsernameOk(s, username.value, s.nextId)
             && Trim(username.value) == RESERVED_USERNAME) ==> r == Err(Validation(ReservedUsername))
    ensures (&& email.Some? && username.Some?
             && EmailOk(s, email.value, s.nextId, isEmail) && UsernameOk(s, username.value, s.nextId)
             && Trim(username.value) != RESERVED_USERNAME
             && Trim(username.value) == Trim(email.value)) ==> r == Err(Validation(UsernameIsEmail))
  {
    var rawEmail :- Present("email", email);
    var rawUsername :- Present("username", username);
    var cleanEmail :- CleanEmail(s, rawEmail, s.nextId, isEmail);
    var cleanUsername :- CleanUsername(s, rawUsername, s.nextId);
    :- Need(cleanUsername != RESERVED_USERNAME, Validation(ReservedUsername));
    :- Need(cleanUsername != cleanEmail, Validation(UsernameIsEmail));
    Ok((cleanEmail, cleanUsername))
  }

  /** Every stored key is below `nextId`, so "another user than the one
      keyed `nextId`" is every user. */
  lemma NoUserHoldsNextId(s: Store)
    requires Valid(s)
    ensures forall u :: u in s.users ==> u.id != s.nextId
  {
  }

  /** Signing up again with the pair just registered changes nothing and
      answers with the same user, whatever code would be drawn. */
  lemma {:induction false} SignUpIdempotent(s: Store, email: string, username: string, c1: Uuid, c2: Uuid,
                                             isEmail: string -> bool)
    requires Valid(s)
    requires Trim(email) == email && Trim(username) == username
    requires SignUp(s, Some(email), Some(username), c1, isEmail).Ok?
    ensures
      var first := SignUp(s, Some(email), Some(username), c1, isEmail).value;
      var second := SignUp(first.store, Some(email), Some(username), c2, isEmail);
      second.Ok? && second.value.store == first.store && second.value.user == first.user
  {
    var first := SignUp(s, Some(email), Some(username), c1, isEmail).value;
    assert first.user.email == email && first.user.username == username;
    assert Registered(first.store, Some(email), Some(username));
    var second := SignUp(first.store, Some(email), Some(username), c2, isEmail).value;
    UsersUnique(first.store, first.user, second.user);
  }

  /** A value with whitespace around it is never a stored username, so an
      acceptable signup with a padded username succeeds once and cannot be
      repeated: the second request is not recognised as registered and the
      serializer then finds the stripped values taken. */
  lemma {:induction false} PaddedSignUpNotRepeatable(s: Store, email: string, username: string, c1: Uuid, c2: Uuid,
                                                      isEmail: string -> bool)
    requires Valid(s)
    requires Trim(username) != username
    requires SignupAcceptable(s, Some(email), Some(username), isEmail)
    ensures SignUp(s, Some(email), Some(username), c1, isEmail).Ok?
    ensures
      var first := SignUp(s, Some(email), Some(username), c1, isEmail).value;
      SignUp(first.store, Some(email), Some(username), c2, isEmail).Err?
  {
    UsernameHasNoSpace(username);
    assert !Registered(s, Some(email), Some(username));
    var first := SignUp(s, Some(email), Some(username), c1, isEmail).value;
    assert !Registered(first.store, Some(email), Some(username));
    assert first.user in first.store.users && first.user.email == Trim(email);
    assert !EmailOk(first.store, email, first.store.nextId, isEmail);
  }

  /** The request names, once stripped as the serializer strips it, an
      (email, username) pair a stored user has. */
  predicate RegisteredStripped(s: Store, email: Option<string>, username: Option<string>)
  {
    email.Some? && username.Some? &&
    exists u :: u in s.users && u.email == Trim(email.value) && u.username == Trim(username.value)
  }

  /** POST /auth/signup/ with the registered-pair lookup made on the values
      the serializer would store, so that a repeated request is recognised
      however its fields are padded. */
  function SignUpStripped(s: Store, email: Option<string>, username: Option<string>, code: Uuid,
                          isEmail: string -> bool): (r: Result<SignupReply>)
    requires Valid(s)
    ensures r.Ok? ==> Valid(r.value.store)
    ensures r.Ok? ==> r.value.user in r.value.store.users
    ensures r.Ok? ==> r.value.email == email && r.value.username == username
    ensures r.Ok? ==> email.Some? && username.Some?
    ensures r.Ok? ==> r.value.user.email == Trim(email.value) && r.value.user.username == Trim(username.value)
    ensures RegisteredStripped(s, email, username) ==> r.Ok? && r.value.store == s
    ensures !RegisteredStripped(s, email, username) ==> r == Register(s, email, username, code, isEmail)
  {
    if RegisteredStripped(s, email, username) then
      var u := Find((v: User) => v.email == Trim(email.value) && v.username == Trim(username.value), s.users).value;
      Ok(SignupReply(s, u, email, username))
    else
      Register(s, email, username, code, isEmail)
  }

  /** With the lookup made on stripped values, signing up again with any
      pair just accepted changes nothing and answers with the same user. */
  lemma {:induction false} StrippedSignUpIdempotent(s: Store, email: string, username: string, c1: Uuid, c2: Uuid,
                                                     isEmail: string -> bool)
    requires Valid(s)
    requires SignUpStripped(s, Some(email), Some(username), c1, isEmail).Ok?
    ensures
      var first := SignUpStripped(s, Some(email), Some(username), c1, isEmail).value;
      var second := SignUpStripped(first.store, Some(email), Some(username), c2, isEmail);
      second.Ok? && second.value.store == first.store && second.value.user == first.user
  {
    var first := SignUpStripped(s, Some(email), Some(username), c1, isEmail).value;
    assert RegisteredStripped(first.store, Some(email), Some(username));
    var second := SignUpStripped(first.store, Some(email), Some(username), c2, isEmail).value;
    UsersUnique(first.store, first.user, second.user);
  }

  /** On a request whose fields carry no surrounding whitespace the two
      lookups coincide. */
  lemma StrippedAgreesWhenUnpadded(s: Store, email: string, username: string, code: Uuid, isEmail: string -> bool)
    requires Valid(s)
    requires Trim(email) == email && Trim(username) == username
    ensures SignUpStripped(s, Some(email), Some(username), code, isEmail)
            == SignUp(s, Some(email), Some(username), code, isEmail)
  {
  }

  /** A string that stripping changes has whitespace at one end, so it is
      not made of username characters. */
  lemma UsernameHasNoSpace(s: string)
    requires Trim(s) != s
    ensures !AllUsernameChars(s)
  {
    if AllUsernameChars(s) {
      TrimKeepsUnspaced(s);
    }
  }

  // ----- Token -------------------------------------------------------------

  /** The user a token request names, once its fields are accepted. */
  function Claimant(s: Store, username: string): Option<User>
  {
    FindUserNamed(s.users, Trim(username))
  }

  /** POST /auth/token/: both fields are required and not blank; the user
      named must exist (404); the code sent must be the text form of the
      user's confirmation code (400 otherwise). The token is minted for the
      user returned. */
  function ObtainToken(s: Store, username: Option<string>, code: Option<string>): (r: Result<User>)
    requires Valid(s)
    ensures r.Ok? <==>
      && username.Some? && code.Some?
      && Acceptable(username.value, Unlimited, false) && Acceptable(code.value, Unlimited, false)
      && Claimant(s, username.value).Some?
      && ParseUuidText(Trim(code.value)) == Some(Claimant(s, username.value).value.confirmationCode)
    ensures r.Ok? ==> r.value in s.users && r.value.username == Trim(username.value)
    ensures (&& username.Some? && code.Some?
             && Acceptable(username.value, Unlimited, false) && Acceptable(code.value, Unlimited, false)
             && Claimant(s, username.value).None?) ==> r == Err(NotFound)
    ensures (&& username.Some? && code.Some?
             && Acceptable(username.value, Unlimited, false) && Acceptable(code.value, Unlimited, false)
             && Claimant(s, username.value).Some?
             && ParseUuidText(Trim(code.value)) != Some(Claimant(s, username.value).value.confirmationCode))
            ==> r == Err(Validation(CodeMismatch))
  {
    var rawUsername :- Present("username", username);
    var rawCode :- Present("confirmation_code", code);
    var name :- CleanChar("username", rawUsername, Unlimited, false);
    var sent :- CleanChar("confirmation_code", rawCode, Unlimited, false);
    match FindUserNamed(s.users, name)
    case None => Err(NotFound)
    case Some(u) =>
      TextMatchIffParse(sent, u.confirmationCode);
      if sent != UuidText(u.confirmationCode) then Err(Validation(CodeMismatch))
      else Ok(u)
  }

  /** The code text mailed at signup, sent with the stored username, obtains
      a token for that user. */
  lemma MailedCodeObtainsToken(s: Store, u: User)
    requires Valid(s) && u in s.users
    ensures ObtainToken(s, Some(u.username), Some(UuidText(u.confirmationCode))) == Ok(u)
  {
    var t := UuidText(u.confirmationCode);
    StoredClaimant(s, u);
    CodeTextUnspaced(u.confirmationCode);
    ParseOfText(u.confirmationCode);
    var r := ObtainToken(s, Some(u.username), Some(t));
    assert r.Ok?;
    UsersUnique(s, u, r.value);
  }

  /** A stored user is the claimant of their own, unpadded, username. */
  lemma StoredClaimant(s: Store, u: User)
    requires Valid(s) && u in s.users
    ensures Trim(u.username) == u.username && Acceptable(u.username, Unlimited, false)
    ensures Claimant(s, u.username) == Some(u)
  {
    assert UserRowOk(u);
    StoredUsernameUnspaced(u.username);
    var c := Claimant(s, u.username);
    assert c.Some? && c.value.username == u.username;
    UsersUnique(s, u, c.value);
  }

  /** Stripping leaves a valid username as it is. */
  lemma StoredUsernameUnspaced(name: string)
    requires AllUsernameChars(name)
    ensures Trim(name) == name
  {
    forall k | 0 <= k < |name|
      ensures !IsSpace(name[k])
    {
      assert IsUsernameChar(name[k]);
    }
    TrimKeepsUnspaced(name);
  }

  /** Stripping leaves the text of a code as it is. */
  lemma CodeTextUnspaced(code: Uuid)
    ensures Trim(UuidText(code)) == UuidText(code)
  {
    var t := UuidText(code);
    forall i | 0 <= i < |t|
      ensures !IsSpace(t[i])
    {
      if !IsDash(i) {
        assert t[i] in HEX_DIGITS;
      }
    }
    TrimKeepsUnspaced(t);
  }

  /** A user who has just signed up can exchange the mailed code for a token. */
  lemma SignUpThenToken(s: Store, email: Option<string>, username: Option<string>, code: Uuid,
                        isEmail: string -> bool)
    requires Valid(s)
    requires SignUp(s, email, username, code, isEmail).Ok?
    ensures
      var reply := SignUp(s, email, username, code, isEmail).value;
      ObtainToken(reply.store, Some(reply.user.username), Some(UuidText(reply.user.confirmationCode))) == Ok(reply.user)
  {
    var reply := SignUp(s, email, username, code, isEmail).value;
    MailedCodeObtainsToken(reply.store, reply.user);
  }

  // ----- The requester's own profile -------------------------------------

  /** GET or PATCH /users/me/, for any authenticated user. A PATCH validates
      every submitted field — email and role included — and then saves with
      the email and role the user already had. */
  function Me(s: Store, q: Requester, verb: Method, f: UserFields, isEmail: string -> bool): (r: Result<(Store, User)>)
    requires Valid(s) && StoredRequester(s, q)
    requires verb == Get || verb == Patch
    ensures r.Ok? ==> Valid(r.value.0)
    ensures q.Anonymous? ==> r == Err(NotAuthenticated)
    ensures verb == Get ==> (r.Ok? <==> q.Authenticated?)
    ensures verb == Get && r.Ok? ==> r.value == (s, q.user)
    ensures verb == Patch ==> (r.Ok? <==> q.Authenticated? && FieldsOk(s, q.user.id, f, isEmail))
    ensures verb == Patch && q.Authenticated? && r.Err? ==> r.error.Validation?
    ensures r.Ok? ==>
      && r.value.1.id == q.user.id
      && r.value.1.email == q.user.email
      && r.value.1.role == q.user.role
      && r.value.1.confirmationCode == q.user.confirmationCode
      && r.value.1.isSuperuser == q.user.isSuperuser
    ensures verb == Patch && r.Ok? ==>
      && r.value.1.username == Updated(f.username, q.user.username)
      && r.value.1.firstName == Updated(f.firstName, q.user.firstName)
      && r.value.1.lastName == Updated(f.lastName, q.user.lastName)
      && r.value.1.bio == Updated(f.bio, q.user.bio)
    ensures r.Ok? ==> |r.value.0.users| == |s.users| && r.value.1 in r.value.0.users
    ensures r.Ok? ==> forall u :: u in s.users && u.id != q.user.id ==> u in r.value.0.users
    ensures r.Ok? ==> r.value.0 == s.(users := r.value.0.users)
  {
    var allowed := q.Authenticated?;
    :- Enforce(allowed, q);
    if verb == Get then Ok((s, q.user))
    else
      var k := UserIndex(s.users, q.user.id).value;
      UsersUnique(s, q.user, s.users[k]);
      var changed :- ApplyFields(s, q.user, f, isEmail);
      var pinned := changed.(email := q.user.email, role := q.user.role);
      AppliedUserFits(s, k, f.(email := None, role := None), isEmail, pinned);
      var s' := ReplaceUser(s, k, pinned);
      ReplaceKeepsOthers(s.users, k, pinned);
      Ok((s', pinned))
  }

  /** Overwriting position `k` keeps every user with another key. */
  lemma ReplaceKeepsOthers(users: seq<User>, k: nat, u: User)
    requires k < |users| && u.id == users[k].id
    ensures forall v :: v in users && v.id != u.id ==> v in users[k := u]
    ensures u in users[k := u]
  {
    forall v | v in users && v.id != u.id
      ensures v in users[k := u]
    {
      var i :| 0 <= i < |users| && users[i] == v;
      assert users[k := u][i] == v;
    }
    assert users[k := u][k] == u;
  }

  // ----- Administrators' user management ---------------------------------

  /** POST /users/ by an administrator: username and email are required,
      the role defaults to `user`, names and bio to empty. */
  function CreateUser(s: Store, q: Requester, f: UserFields, code: Uuid, isEmail: string -> bool): (r: Result<(Store, User)>)
    requires Valid(s) && StoredRequester(s, q)
    ensures r.Ok? ==> Valid(r.value.0)
    ensures r.Ok? <==>
      && AtLeast(q, Administrator)
      && f.username.Some? && f.email.Some?
      && FieldsOk(s, s.nextId, f, isEmail)
    ensures !AtLeast(q, Administrator) ==> r.Err? && (r.error == NotAuthenticated <==> q.Anonymous?)
    ensures r.Ok? ==>
      && r.value.1.id == s.nextId
      && r.value.1.username == Trim(f.username.value)
      && r.value.1.email == Trim(f.email.value)
      && r.value.1.role == (if f.role.Some? then f.role.value else DEFAULT_ROLE)
      && r.value.1.confirmationCode == code
      && !r.value.1.isSuperuser
      && r.value.1.firstName == Updated(f.firstName, "")
      && r.value.1.lastName == Updated(f.lastName, "")
      && r.value.1.bio == Updated(f.bio, "")
    ensures r.Ok? ==> r.value.0 == s.(users := s.users + [r.value.1], nextId := s.nextId + 1)
  {
    var allowed := IsAdminPermission(Request(Post, q));
    :- Enforce(allowed, q);
    var _ :- Present("username", f.username);
    var _ :- Present("email", f.email);
    var u :- ApplyFields(s, NewUser(s.nextId, "", "", DEFAULT_ROLE, code), f, isEmail);
    NoUserHoldsNextId(s);
    assert UserRowOk(u);
    Ok((AddUser(s, u), u))
  }

  /** PATCH /users/{username}/ by an administrator: any field may change,
      the role included; the confirmation code never does. */
  function UpdateUser(s: Store, q: Requester, username: string, f: UserFields, isEmail: string -> bool): (r: Result<(Store, User)>)
    requires Valid(s) && StoredRequester(s, q)
    ensures r.Ok? ==> Valid(r.value.0)
    ensures r.Ok? <==>
      && AtLeast(q, Administrator)
      && FindUserNamed(s.users, username).Some?
      && FieldsOk(s, FindUserNamed(s.users, username).value.id, f, isEmail)
    ensures !AtLeast(q, Administrator) ==> r.Err? && (r.error == NotAuthenticated <==> q.Anonymous?)
    ensures AtLeast(q, Administrator) && FindUserNamed(s.users, username).None? ==> r == Err(NotFound)
    ensures r.Ok? ==>
      var before := FindUserNamed(s.users, username).value;
      && r.value.1.id == before.id
      && r.value.1.confirmationCode == before.confirmationCode
      && r.value.1.username == Updated(f.username, before.username)
      && r.value.1.email == Updated(f.email, before.email)
      && r.value.1.role == (if f.role.Some? then f.role.value else before.role)
      && r.value.1.firstName == Updated(f.firstName, before.firstName)
      && r.value.1.lastName == Updated(f.lastName, before.lastName)
      && r.value.1.bio == Updated(f.bio, before.bio)
      && r.value.1.isSuperuser == before.isSuperuser
    ensures r.Ok? ==> |r.value.0.users| == |s.users| && r.value.1 in r.value.0.users
    ensures r.Ok? ==> forall u :: u in s.users && u.id != r.value.1.id ==> u in r.value.0.users
    ensures r.Ok? ==> r.value.0 == s.(users := r.value.0.users)
  {
    var allowed := IsAdminPermission(Request(Patch, q));
    :- Enforce(allowed, q);
    match FindUserNamed(s.users, username)
    case None => Err(NotFound)
    case Some(before) =>
      var k := UserIndex(s.users, before.id).value;
      UsersUnique(s, before, s.users[k]);
      var after :- ApplyFields(s, before, f, isEmail);
      AppliedUserFits(s, k, f, isEmail, after);
      ReplaceKeepsOthers(s.users, k, after);
      Ok((ReplaceUser(s, k, after), after))
  }

  /** DELETE /users/{username}/ by an administrator: the user goes, with
      every review and comment they wrote and every comment on their
      reviews. */
  function DeleteUser(s: Store, q: Requester, username: string): (r: Result<Store>)
    requires Valid(s) && StoredRequester(s, q)
    ensures r.Ok? ==> Valid(r.value)
    ensures r.Ok? <==> AtLeast(q, Administrator) && FindUserNamed(s.users, username).Some?
    ensures AtLeast(q, Administrator) && FindUserNamed(s.users, username).None? ==> r == Err(NotFound)
    ensures !AtLeast(q, Administrator) ==> r.Err? && (r.error == NotAuthenticated <==> q.Anonymous?)
    ensures r.Ok? ==> forall u :: u in r.value.users <==> u in s.users && u.username != username
    ensures r.Ok? ==>
      var gone := FindUserNamed(s.users, username).value.id;
      && (forall x :: x in r.value.reviews <==> x in s.reviews && x.author != gone)
      && (forall c :: c in r.value.comments <==>
            c in s.comments && c.author != gone && c.review in ReviewIds(r.value.reviews))
    ensures r.Ok? ==> forall t :: t in r.value.titles <==> t in s.titles
    ensures r.Ok? ==> forall l :: l in r.value.genreTitles <==> l in s.genreTitles
    ensures r.Ok? ==> forall g :: g in r.value.genres <==> g in s.genres
    ensures r.Ok? ==> r.value.categories == s.categories
  {
    var allowed := IsAdminPermission(Request(Delete, q));
    :- Enforce(allowed, q);
    match FindUserNamed(s.users, username)
    case None => Err(NotFound)
    case Some(gone) =>
      UsernameIdentifies(s, gone);
      Ok(RemoveUser(s, gone.id))
  }

  /** Within the users table a username and a key pick out the same row. */
  lemma UsernameIdentifies(s: Store, gone: User)
    requires Valid(s) && gone in s.users
    ensures forall u :: u in s.users ==> (u.id == gone.id <==> u.username == gone.username)
  {
    forall u | u in s.users
      ensures u.id == gone.id <==> u.username == gone.username
    {
      if u.id == gone.id || u.username == gone.username {
        UsersUnique(s, u, gone);
      }
    }
  }
}
