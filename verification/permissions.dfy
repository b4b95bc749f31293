/** The three permission policies of api/permissions.py, and the role ladder
    they are checked against. Each policy is a pure decision over the request
    method, the requester and, at object level, the object's author. */
module Permissions {
  import opened Outcomes
  import opened Users

  datatype Method = Get | Head | Options | Post | Put | Patch | Delete

  /** DRF's SAFE_METHODS: GET, HEAD and OPTIONS. */
  predicate IsSafe(m: Method)
  {
    m == Get || m == Head || m == Options
  }

  /** Who sends the request: nobody (no valid credential) or a stored user. */
  datatype Requester = Anonymous | Authenticated(user: User)

  datatype Request = Request(verb: Method, requester: Requester)

  /** A reference ladder of privilege: superuser counts as administrator
      whatever its role, a role outside the choices counts as a plain member. */
  datatype Privilege = Nobody | Member | Moderator | Administrator

  function Rank(p: Privilege): nat
  {
    match p
    case Nobody => 0
    case Member => 1
    case Moderator => 2
    case Administrator => 3
  }

  function PrivilegeOf(q: Requester): Privilege
  {
    match q
    case Anonymous => Nobody
    case Authenticated(u) =>
      if u.isSuperuser || u.role == ADMIN then Administrator
      else if u.role == MODERATOR then Moderator
      else Member
  }

  predicate AtLeast(q: Requester, p: Privilege)
  {
    Rank(PrivilegeOf(q)) >= Rank(p)
  }

  /** `request.user == obj.author`: model instances compare by primary key. */
  predicate IsAuthor(q: Requester, author: nat)
  {
    q.Authenticated? && q.user.id == author
  }

  /** `IsAdmin.has_permission`: only an administrator, whatever the method. */
  function IsAdminPermission(r: Request): (allow: bool)
    ensures allow <==> AtLeast(r.requester, Administrator)
  {
    r.requester.Authenticated?
    && (r.requester.user.isSuperuser || IsAdmin(r.requester.user))
  }

  /** `IsAdminOrReadOnly.has_permission`: anyone may read, only an
      administrator may write. */
  function IsAdminOrReadOnlyPermission(r: Request): (allow: bool)
    ensures allow <==> IsSafe(r.verb) || AtLeast(r.requester, Administrator)
  {
    IsSafe(r.verb)
    || (r.requester.Authenticated?
        && (r.requester.user.isSuperuser || IsAdmin(r.requester.user)))
  }

  /** `IsAuthorAdminModeratorOrReadOnly.has_permission`: anyone may read,
      any authenticated user may attempt a write. */
  function AuthorPermission(r: Request): (allow: bool)
    ensures allow <==> IsSafe(r.verb) || AtLeast(r.requester, Member)
  {
    IsSafe(r.verb) || r.requester.Authenticated?
  }

  /** `IsAuthorAdminModeratorOrReadOnly.has_object_permission`: anyone may
      read; a write needs a moderator, an administrator or the author. */
  function AuthorObjectPermission(r: Request, author: nat): (allow: bool)
    ensures allow <==> IsSafe(r.verb) || AtLeast(r.requester, Moderator) || IsAuthor(r.requester, author)
  {
    IsSafe(r.verb)
    || (r.requester.Authenticated?
        && (r.requester.user.isSuperuser
            || IsAdmin(r.requester.user)
            || IsModerator(r.requester.user)
            || r.requester.user.id == author))
  }

  /** How DRF turns a refused check into an error: 401 when no credential
      was presented, 403 otherwise. */
  function Enforce(allow: bool, q: Requester): (o: Outcome)
    ensures o.Pass? <==> allow
    ensures o.Fail? ==> (o.error == NotAuthenticated <==> q.Anonymous?)
    ensures o.Fail? ==> o.error == NotAuthenticated || o.error == PermissionDenied
  {
    if allow then Pass
    else if q.Anonymous? then Fail(NotAuthenticated)
    else Fail(PermissionDenied)
  }

  /** Whatever `IsAdmin` allows, `IsAdminOrReadOnly` allows. */
  lemma AdminAllowsImplyAdminOrReadOnly(r: Request)
    ensures IsAdminPermission(r) ==> IsAdminOrReadOnlyPermission(r)
  {
  }

  /** No policy lets an anonymous requester use an unsafe method. */
  lemma AnonymousNeverWrites(m: Method, author: nat)
    requires !IsSafe(m)
    ensures !IsAdminPermission(Request(m, Anonymous))
    ensures !IsAdminOrReadOnlyPermission(Request(m, Anonymous))
    ensures !AuthorPermission(Request(m, Anonymous))
    ensures !AuthorObjectPermission(Request(m, Anonymous), author)
  {
  }

  /** A plain user may read another user's review or comment but not
      change or delete it. */
  lemma PlainUserOnOthersObject(m: Method, u: User, author: nat)
    requires IsUser(u) && !u.isSuperuser && u.id != author
    ensures AuthorObjectPermission(Request(m, Authenticated(u)), author) <==> IsSafe(m)
    ensures AuthorPermission(Request(m, Authenticated(u)))
  {
  }

  /** The object-level check only passes where the request-level check
      passed, so checking both in order is the object-level check alone. */
  lemma ObjectCheckImpliesRequestCheck(r: Request, author: nat)
    ensures AuthorObjectPermission(r, author) ==> AuthorPermission(r)
  {
  }

  /** More privilege never loses access: every policy is monotone in the
      requester's rank (and, at object level, in authorship). */
  lemma PoliciesMonotone(m: Method, q1: Requester, q2: Requester, author: nat)
    requires Rank(PrivilegeOf(q1)) <= Rank(PrivilegeOf(q2))
    requires IsAuthor(q1, author) ==> IsAuthor(q2, author)
    ensures IsAdminPermission(Request(m, q1)) ==> IsAdminPermission(Request(m, q2))
    ensures IsAdminOrReadOnlyPermission(Request(m, q1)) ==> IsAdminOrReadOnlyPermission(Request(m, q2))
    ensures AuthorPermission(Request(m, q1)) ==> AuthorPermission(Request(m, q2))
    ensures AuthorObjectPermission(Request(m, q1), author) ==> AuthorObjectPermission(Request(m, q2), author)
  {
  }
}
