/** The user record of users/models.py: identity fields with their length
    limits, the three roles with their predicates, and the confirmation code
    drawn when the row is created. */
module Users {
  import Uuids
  import Validators

  const ADMIN: string := "admin"
  const MODERATOR: string := "moderator"
  const USER: string := "user"

  /** The role choices, in the order the model declares them. */
  const ROLES: seq<string> := [ADMIN, MODERATOR, USER]
  const DEFAULT_ROLE: string := USER

  const USERNAME_MAX_LENGTH: int := 150
  const EMAIL_MAX_LENGTH: int := 254
  const NAME_MAX_LENGTH: int := 150   // first_name and last_name

  datatype User = User(
    id: nat,
    username: string,
    email: string,
    firstName: string,
    lastName: string,
    bio: string,
    role: string,
    confirmationCode: Uuids.Uuid,
    isSuperuser: bool)

  predicate ValidRole(role: string)
  {
    role in ROLES
  }

  predicate IsUser(u: User)
  {
    u.role == USER
  }

  predicate IsModerator(u: User)
  {
    u.role == MODERATOR
  }

  predicate IsAdmin(u: User)
  {
    u.role == ADMIN
  }

  /** What the columns of a user row admit: a non-empty username of at most
      150 allowed characters, a non-empty email of at most 254, names within
      150, and one of the role choices. */
  predicate UserRowOk(u: User)
  {
    && 0 < |u.username| <= USERNAME_MAX_LENGTH
    && 0 < |u.email| <= EMAIL_MAX_LENGTH
    && |u.firstName| <= NAME_MAX_LENGTH
    && |u.lastName| <= NAME_MAX_LENGTH
    && ValidRole(u.role)
    && Validators.AllUsernameChars(u.username)
  }

  /** A row as `User.objects.create(email=..., username=...)` (or with an
      explicit role) stores it: blank names and bio, not a superuser, and a
      freshly drawn confirmation code. The blank names always fit, so the row
      fits its columns exactly when the given username, email and role do. */
  function NewUser(id: nat, username: string, email: string, role: string, code: Uuids.Uuid): (u: User)
    ensures UserRowOk(u) <==>
      && 0 < |username| <= USERNAME_MAX_LENGTH && Validators.AllUsernameChars(username)
      && 0 < |email| <= EMAIL_MAX_LENGTH
      && ValidRole(role)
    ensures u.id == id && u.username == username && u.email == email
    ensures u.role == role && u.confirmationCode == code && !u.isSuperuser
  {
    User(id, username, email, "", "", "", role, code, false)
  }

  /** For a valid role exactly one of `is_user`, `is_moderator` and
      `is_admin` holds. */
  lemma ExactlyOneRole(u: User)
    requires ValidRole(u.role)
    ensures (if IsUser(u) then 1 else 0) + (if IsModerator(u) then 1 else 0)
            + (if IsAdmin(u) then 1 else 0) == 1
  {
  }
}
