/**
 * The request handlers of the API (api/views.py) over the store of
 * projects/models.py: signup with a confirmation code, exchange of the code
 * for an access token, the `/users/me` profile, project and task creation,
 * and task updates behind `TaskViewSet`'s method list and permission classes.
 *
 * Each handler is a function from the store before the request to the store
 * after it and the response; the state-changing handlers are also methods of
 * `Store`, which performs the same steps in place.
 */
module Views {
  import opened Wrappers
  import opened Query
  import opened Models
  import opened Serializers

  // ------------------------------------------------------------ requests

  datatype Method = Get | Head | Options | Post | Put | Patch | Delete

  /** DRF's `SAFE_METHODS`. */
  predicate IsSafe(m: Method) {
    m == Get || m == Head || m == Options
  }

  /**
   * The `Authorization` header as the JWT authenticator leaves it: absent, a
   * token whose signature or expiry fails, or a valid token carrying a user id.
   */
  datatype Credential = NoCredential | BadToken | Bearer(userId: UserId)

  /** `request.user`: anonymous, or the row the token names. */
  datatype Principal = Anonymous | Authenticated(user: User)

  function FindUser(users: seq<User>, id: UserId): Option<nat> {
    IndexWhere(users, (u: User) => u.id == id)
  }

  /**
   * Authentication, which DRF runs before anything else: no header is the
   * anonymous user; a bad token, or a token for a user that no longer exists,
   * is rejected with 401.
   */
  function Authenticate(users: seq<User>, c: Credential): (r: Option<Principal>)
    ensures c.NoCredential? ==> r == Some(Anonymous)
    ensures c.BadToken? ==> r.None?
    ensures c.Bearer? ==> (r.Some? <==> exists u :: u in users && u.id == c.userId)
    ensures r.Some? && r.value.Authenticated? ==>
      c.Bearer? && r.value.user in users && r.value.user.id == c.userId
  {
    match c
    case NoCredential => Some(Anonymous)
    case BadToken => None
    case Bearer(id) =>
      match FindUser(users, id)
      case Some(i) => assert users[i] in users; Some(Authenticated(users[i]))
      case None => None
  }

  // ----------------------------------------------------------- responses

  datatype Response<B> =
    | Success(body: B)
    | Created(body: B)
    | Invalid(errors: seq<FieldError>)
    | WrongCode
    | Unauthorized
    | Forbidden
    | NotFound
    | MethodNotAllowed
    | Metadata
    | DeliveryFailed
    | ServerError
  {
    /** The HTTP status code of the response. */
    function Status(): int {
      match this
      case Success(_) => 200
      case Created(_) => 201
      case Invalid(_) => 400
      case WrongCode => 400
      case Unauthorized => 401
      case Forbidden => 403
      case NotFound => 404
      case MethodNotAllowed => 405
      case Metadata => 200
      case DeliveryFailed => 500
      case ServerError => 500
    }
  }

  /** The store after a request, and the response. */
  datatype Outcome<B> = Outcome(db: Db, response: Response<B>)

  /** DRF's `permission_denied`: 401 for an unauthenticated request, 403 otherwise. */
  function Deny<B>(p: Principal): (r: Response<B>)
    ensures r.Status() == (if p.Anonymous? then 401 else 403)
  {
    if p.Anonymous? then Unauthorized else Forbidden
  }

  /** DRF's `IsAuthenticatedOrReadOnly`. */
  predicate IsAuthenticatedOrReadOnly(p: Principal, m: Method) {
    IsSafe(m) || p.Authenticated?
  }

  // -------------------------------------------------------------- signup

  datatype SignupRequest = SignupRequest(username: Field<string>, email: Field<string>)

  /** The 200 body of a signup: the serializer's two fields, and nothing else. */
  datatype SignupBody = SignupBody(username: string, email: string)

  type Salt = nat

  /**
   * `make_password` (which draws a fresh salt) and `check_password`, left
   * abstract: `make(code, salt)` is the encoded hash stored in the row.
   */
  datatype Hasher = Hasher(make: (string, Salt) -> string, check: (string, string) -> bool)

  /** A code always verifies against its own hash. */
  ghost predicate Sound(h: Hasher) {
    forall c, s :: h.check(c, h.make(c, s))
  }

  /** A hash verifies no code other than the one it was made from. */
  ghost predicate Binding(h: Hasher) {
    forall c, c', s :: h.check(c, h.make(c', s)) ==> c == c'
  }

  /** The textual form of a `uuid4()`: 36 characters, hex digits and four hyphens. */
  predicate IsUuidText(c: string) {
    && |c| == 36
    && (forall i :: 0 <= i < 36 ==>
         if i in {8, 13, 18, 23} then c[i] == '-' else c[i] in "0123456789abcdef")
  }

  function FindPair(users: seq<User>, username: string, email: string): Option<nat> {
    IndexWhere(users, (u: User) => u.username == username && u.email == email)
  }

  /**
   * `User.objects.filter(username=..., email=...).exists()` on the raw
   * request data: a missing or null key reads as `None` and matches no row.
   */
  function PairInDb(users: seq<User>, username: Field<string>, email: Field<string>): (r: bool)
    ensures r <==> (username.Given? && email.Given? &&
      exists u :: u in users && u.username == username.value && u.email == email.value)
  {
    if username.Given? && email.Given? then
      var i := FindPair(users, username.value, email.value);
      if i.Some? then assert users[i.value] in users; true else false
    else false
  }

  /**
   * `SignUpView.post`. The request goes through when the serializer accepts
   * it or when a row already has exactly this (username, email) pair; then
   * `get_or_create` finds or inserts that row, a fresh code (`code`, a
   * `uuid4`) is hashed into it and saved, and only then is the mail sent: a
   * failed delivery aborts the request with the new hash already stored.
   */
  function Signup(db: Db, req: SignupRequest, code: string, salt: Salt, h: Hasher, delivered: bool): Outcome<SignupBody> {
    var userInDb := PairInDb(db.users, req.username, req.email);
    var errors := SignupErrors(db.users, req.username, req.email);
    if errors == [] || userInDb then
      SignupValid(db.users, req.username, req.email);
      var name := req.username.value;
      var mail := req.email.value;
      var found := FindPair(db.users, name, mail);
      var users1 := if found.Some? then db.users else db.users + [NewUser(db.nextUser, name, mail)];
      var next := if found.Some? then db.nextUser else db.nextUser + 1;
      var i := if found.Some? then found.value else |db.users|;
      var users2 := users1[i := users1[i].(confirmationCode := h.make(code, salt))];
      Outcome(db.(users := users2, nextUser := next),
              if delivered then Success(SignupBody(name, mail)) else DeliveryFailed)
    else
      Outcome(db, Invalid(errors))
  }

  /**
   * `SignUpView` as DRF dispatches it: `AllowAny` calls off the permission
   * check only, so the authenticator still runs first and a rejected token,
   * or one for a deleted user, gets 401 before the serializer is consulted.
   */
  function SignUpView(db: Db, cred: Credential, req: SignupRequest, code: string, salt: Salt,
                      h: Hasher, delivered: bool): Outcome<SignupBody> {
    if Authenticate(db.users, cred).None? then Outcome(db, Unauthorized)
    else Signup(db, req, code, salt, h, delivered)
  }

  /**
   * Signup answers 401 exactly when the authenticator rejects the request's
   * token, and then changes nothing; anonymous or valid-token requests are
   * handled by `Signup`, which the lemmas below are about.
   */
  lemma SignupAuthenticates(db: Db, cred: Credential, req: SignupRequest, code: string, salt: Salt,
                            h: Hasher, delivered: bool)
    ensures var o := SignUpView(db, cred, req, code, salt, h, delivered);
      && (o.response.Unauthorized? <==> Authenticate(db.users, cred).None?)
      && (o.response.Unauthorized? ==> o.db == db)
      && (Authenticate(db.users, cred).Some? ==> o == Signup(db, req, code, salt, h, delivered))
      && (cred.NoCredential? ==> o == Signup(db, req, code, salt, h, delivered))
  {
  }

  /** A new row with an unused id, username and email keeps the invariant. */
  lemma AddUserValid(db: Db, u: User)
    requires Valid(db) && u.id == db.nextUser
    requires forall v :: v in db.users ==> v.username != u.username && v.email != u.email
    ensures Valid(db.(users := db.users + [u], nextUser := db.nextUser + 1))
  {
    var users := db.users + [u];
    forall j | 0 <= j < |db.users|
      ensures db.users[j].id != u.id && db.users[j].username != u.username && db.users[j].email != u.email
    {
      assert db.users[j] in db.users;
    }
    AppendUnique(db.users, u, UserKey);
    AppendUnique(db.users, u, UsernameOf);
    AppendUnique(db.users, u, EmailOf);
    forall id | HasUser(db.users, id) ensures HasUser(users, id) {
      var v :| v in db.users && v.id == id;
      assert v in users;
    }
  }

  /** Overwriting one row's stored hash keeps the invariant. */
  lemma SetCodeValid(db: Db, i: nat, encoded: string)
    requires Valid(db) && i < |db.users|
    ensures Valid(db.(users := db.users[i := db.users[i].(confirmationCode := encoded)]))
  {
    var x := db.users[i].(confirmationCode := encoded);
    var users := db.users[i := x];
    UpdateUnique(db.users, i, x, UserKey);
    UpdateUnique(db.users, i, x, UsernameOf);
    UpdateUnique(db.users, i, x, EmailOf);
    forall v | v in users ensures v.id < db.nextUser {
      var j :| 0 <= j < |users| && users[j] == v;
      assert db.users[j] in db.users;
    }
    forall id | HasUser(db.users, id) ensures HasUser(users, id) {
      var v :| v in db.users && v.id == id;
      var j :| 0 <= j < |db.users| && db.users[j] == v;
      assert users[j] in users && users[j].id == id;
    }
  }

  /** Signup keeps usernames and emails unique and every reference intact. */
  lemma SignupKeepsValid(db: Db, req: SignupRequest, code: string, salt: Salt, h: Hasher, delivered: bool)
    requires Valid(db)
    ensures Valid(Signup(db, req, code, salt, h, delivered).db)
  {
    var userInDb := PairInDb(db.users, req.username, req.email);
    var errors := SignupErrors(db.users, req.username, req.email);
    if errors == [] || userInDb {
      SignupValid(db.users, req.username, req.email);
      var name, mail := req.username.value, req.email.value;
      var found := FindPair(db.users, name, mail);
      if found.Some? {
        SetCodeValid(db, found.value, h.make(code, salt));
      } else {
        var db1 := db.(users := db.users + [NewUser(db.nextUser, name, mail)], nextUser := db.nextUser + 1);
        AddUserValid(db, NewUser(db.nextUser, name, mail));
        SetCodeValid(db1, |db.users|, h.make(code, salt));
      }
    }
  }

  /** Signup keeps usernames unique, which is all a token request relies on. */
  lemma SignupKeepsUsernames(db: Db, req: SignupRequest, code: string, salt: Salt, h: Hasher, delivered: bool)
    requires UniqueBy(db.users, UsernameOf)
    ensures UniqueBy(Signup(db, req, code, salt, h, delivered).db.users, UsernameOf)
  {
    var userInDb := PairInDb(db.users, req.username, req.email);
    var errors := SignupErrors(db.users, req.username, req.email);
    if errors == [] || userInDb {
      SignupValid(db.users, req.username, req.email);
      var name, mail := req.username.value, req.email.value;
      var found := FindPair(db.users, name, mail);
      if found.Some? {
        UpdateUnique(db.users, found.value, db.users[found.value].(confirmationCode := h.make(code, salt)), UsernameOf);
      } else {
        var u := NewUser(db.nextUser, name, mail);
        forall j | 0 <= j < |db.users| ensures UsernameOf(db.users[j]) != UsernameOf(u) {
          assert db.users[j] in db.users;
        }
        AppendUnique(db.users, u, UsernameOf);
        UpdateUnique(db.users + [u], |db.users|, u.(confirmationCode := h.make(code, salt)), UsernameOf);
      }
    }
  }

  /**
   * What a signup does. It is rejected with the serializer's errors, and
   * changes nothing, exactly when the payload is invalid and no row has the
   * pair. Otherwise the row with the pair (new when the pair is new) holds
   * the hash of the fresh code, no other row changes, a row is added only for
   * a new pair, and a 200 body echoes the two submitted values and never the code.
   */
  lemma SignupOutcome(db: Db, req: SignupRequest, code: string, salt: Salt, h: Hasher, delivered: bool)
    ensures var o := Signup(db, req, code, salt, h, delivered);
      && (o.response.Invalid? <==>
            SignupErrors(db.users, req.username, req.email) != [] && !PairInDb(db.users, req.username, req.email))
      && (o.response.Invalid? ==> o.db == db)
      && (!o.response.Invalid? ==>
            && req.username.Given? && req.email.Given?
            && (o.response.Success? <==> delivered)
            && (o.response.Success? ==> o.response.body == SignupBody(req.username.value, req.email.value))
            && !o.response.Invalid? && (o.response.Success? || o.response.DeliveryFailed?)
            && o.db.projects == db.projects && o.db.tasks == db.tasks
            && (exists i :: 0 <= i < |o.db.users|
                  && o.db.users[i].username == req.username.value
                  && o.db.users[i].email == req.email.value
                  && o.db.users[i].confirmationCode == h.make(code, salt)
                  && (forall j :: 0 <= j < |o.db.users| && j != i ==> j < |db.users| && o.db.users[j] == db.users[j])
                  && (i < |db.users| ==> o.db.users[i] == db.users[i].(confirmationCode := h.make(code, salt)))
                  && (i == |db.users| ==> o.db.users[i] == NewUser(db.nextUser, req.username.value, req.email.value).(confirmationCode := h.make(code, salt))))
            && o.db.nextProject == db.nextProject && o.db.nextTask == db.nextTask
            && (PairInDb(db.users, req.username, req.email) ==>
                  |o.db.users| == |db.users| && o.db.nextUser == db.nextUser)
            && (!PairInDb(db.users, req.username, req.email) ==>
                  |o.db.users| == |db.users| + 1 && o.db.nextUser == db.nextUser + 1))
  {
    var o := Signup(db, req, code, salt, h, delivered);
    var userInDb := PairInDb(db.users, req.username, req.email);
    var errors := SignupErrors(db.users, req.username, req.email);
    if errors == [] || userInDb {
      SignupValid(db.users, req.username, req.email);
      var name, mail := req.username.value, req.email.value;
      var found := FindPair(db.users, name, mail);
      if found.Some? {
        assert userInDb;
      } else {
        assert !userInDb;
        assert o.db.users[|db.users|] == NewUser(db.nextUser, name, mail).(confirmationCode := h.make(code, salt));
      }
    }
  }

  /**
   * The reserved name: a signup as "me" in any letter case is refused
   * unless a row already holds exactly that (username, email) pair.
   */
  lemma ReservedNameRefused(db: Db, req: SignupRequest, code: string, salt: Salt, h: Hasher, delivered: bool)
    requires req.username.Given? && Lower(req.username.value) == "me"
    requires !PairInDb(db.users, req.username, req.email)
    ensures Signup(db, req, code, salt, h, delivered) == Outcome(db, Invalid(SignupErrors(db.users, req.username, req.email)))
  {
    ReservedSpellings(req.username.value);
    SignupValid(db.users, req.username, req.email);
  }

  // --------------------------------------------------------------- token

  datatype TokenRequest = TokenRequest(username: Field<string>, confirmationCode: Field<string>)

  /** The 200 body: `{'access': ...}`. */
  datatype TokenBody = TokenBody(access: string)

  /**
   * `GetTokenView.post`: the payload is checked first (400 with the
   * serializer's errors), then the user is looked up (404), then the code is
   * checked against the stored hash (400 with a fixed message); only then is
   * an access token minted (`mint`, standing for `RefreshToken.for_user`).
   * Nothing is written: the code stays valid until the next signup.
   */
  function GetToken(users: seq<User>, req: TokenRequest, h: Hasher, mint: UserId -> string): (r: Response<TokenBody>)
    ensures r.Invalid? || r.NotFound? || r.WrongCode? || r.Success?
    ensures r.Invalid? <==> TokenErrors(req.username, req.confirmationCode) != []
    ensures r.NotFound? <==>
      TokenErrors(req.username, req.confirmationCode) == [] &&
      forall u :: u in users ==> u.username != req.username.value
    ensures r.WrongCode? ==>
      exists u :: u in users && u.username == req.username.value &&
        !h.check(req.confirmationCode.value, u.confirmationCode)
    ensures r.Success? ==>
      exists u :: u in users && u.username == req.username.value &&
        h.check(req.confirmationCode.value, u.confirmationCode) && r.body.access == mint(u.id)
  {
    var errors := TokenErrors(req.username, req.confirmationCode);
    if errors != [] then Invalid(errors)
    else
      match IndexWhere(users, (u: User) => u.username == req.username.value)
      case None => NotFound
      case Some(i) =>
        assert users[i] in users;
        if !h.check(req.confirmationCode.value, users[i].confirmationCode) then WrongCode
        else Success(TokenBody(mint(users[i].id)))
  }

  /** `GetTokenView` as DRF dispatches it: authentication still runs before `AllowAny`. */
  function GetTokenView(users: seq<User>, cred: Credential, req: TokenRequest, h: Hasher,
                        mint: UserId -> string): Response<TokenBody> {
    if Authenticate(users, cred).None? then Unauthorized else GetToken(users, req, h, mint)
  }

  /**
   * A token request answers 401 exactly when the authenticator rejects the
   * request's own token; otherwise it is `GetToken`.
   */
  lemma TokenAuthenticates(users: seq<User>, cred: Credential, req: TokenRequest, h: Hasher,
                           mint: UserId -> string)
    ensures var r := GetTokenView(users, cred, req, h, mint);
      && (r.Unauthorized? <==> Authenticate(users, cred).None?)
      && (Authenticate(users, cred).Some? ==> r == GetToken(users, req, h, mint))
      && (cred.NoCredential? ==> r == GetToken(users, req, h, mint))
  {
  }

  /**
   * With usernames unique, a well-formed request for an existing user is
   * decided by that user's stored hash alone: a token for that user, or 400.
   */
  lemma TokenForUser(users: seq<User>, req: TokenRequest, h: Hasher, mint: UserId -> string, u: User)
    requires UniqueBy(users, UsernameOf)
    requires u in users && req.username == Given(u.username)
    requires TokenErrors(req.username, req.confirmationCode) == []
    ensures GetToken(users, req, h, mint) ==
      if h.check(req.confirmationCode.value, u.confirmationCode) then Success(TokenBody(mint(u.id))) else WrongCode
  {
    var found := IndexWhere(users, (v: User) => v.username == req.username.value);
    var k :| 0 <= k < |users| && users[k] == u;
    assert found.Some?;
    assert UsernameOf(users[found.value]) == UsernameOf(users[k]);
  }

  /**
   * Round trip: right after a signup issues `code`, the token request with
   * that username and code gets 200 and an access token for the row with the
   * signup's (username, email) pair, whether or not the mail went out.
   */
  lemma SignupThenToken(db: Db, req: SignupRequest, code: string, salt: Salt, h: Hasher,
                        delivered: bool, mint: UserId -> string)
    requires UniqueBy(db.users, UsernameOf) && Sound(h) && IsUuidText(code)
    requires !Signup(db, req, code, salt, h, delivered).response.Invalid?
    requires req.username.Given? && 0 < |req.username.value| <= TokenUsernameMaxLength
    ensures var o := Signup(db, req, code, salt, h, delivered);
      exists u :: u in o.db.users && u.username == req.username.value && u.email == req.email.value &&
        GetToken(o.db.users, TokenRequest(req.username, Given(code)), h, mint) == Success(TokenBody(mint(u.id)))
  {
    var o := Signup(db, req, code, salt, h, delivered);
    SignupOutcome(db, req, code, salt, h, delivered);
    SignupKeepsUsernames(db, req, code, salt, h, delivered);
    var i :| 0 <= i < |o.db.users|
      && o.db.users[i].username == req.username.value
      && o.db.users[i].email == req.email.value
      && o.db.users[i].confirmationCode == h.make(code, salt);
    var u := o.db.users[i];
    assert u in o.db.users;
    TokenForUser(o.db.users, TokenRequest(req.username, Given(code)), h, mint, u);
  }

  /**
   * Rotation: after a signup stores the hash of `code`, any other code for
   * that username is refused with 400, provided the hash binds its code.
   */
  lemma RotatedCodeRefused(db: Db, req: SignupRequest, code: string, salt: Salt, h: Hasher,
                           delivered: bool, mint: UserId -> string, earlier: string)
    requires UniqueBy(db.users, UsernameOf) && Binding(h) && earlier != code
    requires !Signup(db, req, code, salt, h, delivered).response.Invalid?
    requires req.username.Given? && 0 < |req.username.value| <= TokenUsernameMaxLength
    requires 0 < |earlier| <= CodeMaxLength
    ensures GetToken(Signup(db, req, code, salt, h, delivered).db.users,
                     TokenRequest(req.username, Given(earlier)), h, mint) == WrongCode
  {
    var o := Signup(db, req, code, salt, h, delivered);
    SignupOutcome(db, req, code, salt, h, delivered);
    SignupKeepsUsernames(db, req, code, salt, h, delivered);
    var i :| 0 <= i < |o.db.users|
      && o.db.users[i].username == req.username.value
      && o.db.users[i].confirmationCode == h.make(code, salt);
    var u := o.db.users[i];
    assert u in o.db.users;
    assert !h.check(earlier, h.make(code, salt));
    TokenForUser(o.db.users, TokenRequest(req.username, Given(earlier)), h, mint, u);
  }

  /** Resend: a second signup with the same pair reuses the row and adds none. */
  lemma SignupResend(db: Db, req: SignupRequest, c1: string, s1: Salt, c2: string, s2: Salt,
                     h: Hasher, d1: bool, d2: bool)
    requires !Signup(db, req, c1, s1, h, d1).response.Invalid?
    ensures var o1 := Signup(db, req, c1, s1, h, d1);
      var o2 := Signup(o1.db, req, c2, s2, h, d2);
      && !o2.response.Invalid?
      && |o2.db.users| == |o1.db.users|
  {
    var o1 := Signup(db, req, c1, s1, h, d1);
    SignupOutcome(db, req, c1, s1, h, d1);
    var i :| 0 <= i < |o1.db.users|
      && o1.db.users[i].username == req.username.value
      && o1.db.users[i].email == req.email.value;
    assert o1.db.users[i] in o1.db.users;
    assert PairInDb(o1.db.users, req.username, req.email);
    SignupOutcome(o1.db, req, c2, s2, h, d2);
  }

  // ------------------------------------------------------------ users/me

  /** The fields `UserSerializer` and `UserMyselfSerializer` render; the stored hash is not among them. */
  datatype UserRepr = UserRepr(username: string, email: string, firstName: string,
                               lastName: string, bio: string, role: string)

  function Represent(u: User): UserRepr {
    UserRepr(u.username, u.email, u.firstName, u.lastName, u.bio, RoleValue(u.role))
  }

  /** `serializer.save()` on a user row: an UPDATE of the row with that id. */
  function SaveUser(users: seq<User>, u: User): (r: seq<User>)
    ensures |r| == |users|
    ensures forall i :: 0 <= i < |users| ==> r[i] == (if users[i].id == u.id then u else users[i])
  {
    ReplaceWhere(users, UserKey, u.id, u)
  }

  /**
   * `UserViewSet.me`, routed for GET and PATCH (HEAD follows GET, OPTIONS is
   * DRF's metadata view). `IsAdminOrMe.has_permission` is the uninterpreted
   * `isAdminOrMe`. A valid PATCH saves the profile through
   * `UserMyselfSerializer`; an invalid one falls through to a 200 with the
   * current row. An anonymous request the permission lets through has no
   * profile to render (500).
   */
  function Me(db: Db, cred: Credential, m: Method, patch: UserPatch,
              isAdminOrMe: (Principal, Method) -> bool): Outcome<UserRepr>
  {
    match Authenticate(db.users, cred)
    case None => Outcome(db, Unauthorized)
    case Some(p) =>
      if !isAdminOrMe(p, m) then Outcome(db, Deny(p))
      else if m == Options then Outcome(db, Metadata)
      else if !(m == Get || m == Head || m == Patch) then Outcome(db, MethodNotAllowed)
      else
        match p
        case Anonymous => Outcome(db, ServerError)
        case Authenticated(u) =>
          if m == Patch && MyselfErrors(db.users, u, patch) == [] then
            var u' := ApplyMyselfPatch(u, patch);
            Outcome(db.(users := SaveUser(db.users, u')), Success(Represent(u')))
          else
            Outcome(db, Success(Represent(u)))
  }

  /** An invalid PATCH on `/users/me` changes nothing and still answers 200 with the current profile. */
  lemma MeInvalidPatch(db: Db, uid: UserId, patch: UserPatch, isAdminOrMe: (Principal, Method) -> bool, u: User)
    requires u in db.users && u.id == uid && UniqueBy(db.users, UserKey)
    requires isAdminOrMe(Authenticated(u), Patch)
    requires MyselfErrors(db.users, u, patch) != []
    ensures Me(db, Bearer(uid), Patch, patch, isAdminOrMe) == Outcome(db, Success(Represent(u)))
  {
    var k :| 0 <= k < |db.users| && db.users[k] == u;
    var found := FindUser(db.users, uid);
    assert found.Some?;
    assert UserKey(db.users[found.value]) == UserKey(db.users[k]);
  }

  /** A valid PATCH on `/users/me` saves the patched row and answers 200 with it. */
  lemma MeAccepted(db: Db, uid: UserId, patch: UserPatch, isAdminOrMe: (Principal, Method) -> bool, u: User)
    requires u in db.users && u.id == uid && UniqueBy(db.users, UserKey)
    requires isAdminOrMe(Authenticated(u), Patch)
    requires MyselfErrors(db.users, u, patch) == []
    ensures var u' := ApplyMyselfPatch(u, patch);
      Me(db, Bearer(uid), Patch, patch, isAdminOrMe) == Outcome(db.(users := SaveUser(db.users, u')), Success(Represent(u')))
  {
    var k :| 0 <= k < |db.users| && db.users[k] == u;
    var found := FindUser(db.users, uid);
    assert found.Some?;
    assert UserKey(db.users[found.value]) == UserKey(db.users[k]);
  }

  /** An allowed GET or HEAD on `/users/me` changes nothing and answers 200 with the requester's profile. */
  lemma MeReads(db: Db, uid: UserId, m: Method, patch: UserPatch, isAdminOrMe: (Principal, Method) -> bool, u: User)
    requires u in db.users && u.id == uid && UniqueBy(db.users, UserKey)
    requires m == Get || m == Head
    requires isAdminOrMe(Authenticated(u), m)
    ensures Me(db, Bearer(uid), m, patch, isAdminOrMe) == Outcome(db, Success(Represent(u)))
  {
    var k :| 0 <= k < |db.users| && db.users[k] == u;
    var found := FindUser(db.users, uid);
    assert found.Some?;
    assert UserKey(db.users[found.value]) == UserKey(db.users[k]);
  }

  /** What `/users/me` writes: nothing, or the requester's row patched through `UserMyselfSerializer`. */
  lemma MeWrites(db: Db, cred: Credential, m: Method, patch: UserPatch,
                 isAdminOrMe: (Principal, Method) -> bool)
    ensures var o := Me(db, cred, m, patch, isAdminOrMe);
      o.db == db ||
      exists u :: u in db.users && m == Patch && cred == Bearer(u.id) &&
        isAdminOrMe(Authenticated(u), Patch) && MyselfErrors(db.users, u, patch) == [] &&
        o.db == db.(users := SaveUser(db.users, ApplyMyselfPatch(u, patch)))
  {
    var o := Me(db, cred, m, patch, isAdminOrMe);
    var a := Authenticate(db.users, cred);
    if o.db != db {
      var u := a.value.user;
      assert u in db.users && cred == Bearer(u.id);
      assert m == Patch && isAdminOrMe(Authenticated(u), Patch) && MyselfErrors(db.users, u, patch) == [];
      assert o.db == db.(users := SaveUser(db.users, ApplyMyselfPatch(u, patch)));
    }
  }

  /**
   * Saving a valid `UserMyselfSerializer` patch of a row: only that row
   * changes, its role, id and stored hash are kept, and the invariant holds.
   */
  lemma SaveProfile(db: Db, u: User, patch: UserPatch)
    requires Valid(db) && u in db.users && MyselfErrors(db.users, u, patch) == []
    ensures var users := SaveUser(db.users, ApplyMyselfPatch(u, patch));
      && Valid(db.(users := users))
      && |users| == |db.users|
      && (forall i :: 0 <= i < |db.users| ==>
            && users[i].role == db.users[i].role
            && users[i].id == db.users[i].id
            && users[i].confirmationCode == db.users[i].confirmationCode)
  {
    var users := SaveUser(db.users, ApplyMyselfPatch(u, patch));
    SaveProfileUsers(db.users, db.nextUser, u, patch);
    UsersReplacedValid(db, users);
  }

  lemma SaveProfileUsers(users: seq<User>, next: nat, u: User, patch: UserPatch)
    requires UniqueBy(users, UserKey) && UniqueBy(users, UsernameOf) && UniqueBy(users, EmailOf)
    requires forall v :: v in users ==> v.id < next
    requires u in users && MyselfErrors(users, u, patch) == []
    ensures var r := SaveUser(users, ApplyMyselfPatch(u, patch));
      && UniqueBy(r, UserKey) && UniqueBy(r, UsernameOf) && UniqueBy(r, EmailOf)
      && (forall v :: v in r ==> v.id < next)
      && (forall id :: HasUser(users, id) ==> HasUser(r, id))
      && (forall i :: 0 <= i < |users| ==>
            && r[i].role == users[i].role
            && r[i].id == users[i].id
            && r[i].confirmationCode == users[i].confirmationCode)
  {
    var u' := ApplyMyselfPatch(u, patch);
    var r := SaveUser(users, u');
    var k :| 0 <= k < |users| && users[k] == u;
    ProfilePatchUnique(users, u, patch);
    forall i | 0 <= i < |users| && users[i].id != u.id
      ensures users[i].username != u'.username && users[i].email != u'.email
    {
      assert users[i] in users;
      assert UsernameOf(users[i]) != UsernameOf(users[k]);
      assert EmailOf(users[i]) != EmailOf(users[k]);
    }
    ReplaceWhereUnique(users, UserKey, u.id, u', UsernameOf);
    ReplaceWhereUnique(users, UserKey, u.id, u', EmailOf);
    forall v | v in r ensures v.id < next {
      var j :| 0 <= j < |r| && r[j] == v;
      assert users[j] in users;
    }
    forall id | HasUser(users, id) ensures HasUser(r, id) {
      var v :| v in users && v.id == id;
      var j :| 0 <= j < |users| && users[j] == v;
      assert r[j] in r && r[j].id == id;
    }
  }

  /**
   * No request to `/users/me` changes anyone's role, adds or removes a row,
   * changes an id or a stored hash, or touches the other tables; and the
   * invariant holds afterwards.
   */
  lemma MeKeepsRoles(db: Db, cred: Credential, m: Method, patch: UserPatch,
                     isAdminOrMe: (Principal, Method) -> bool)
    requires Valid(db)
    ensures var o := Me(db, cred, m, patch, isAdminOrMe);
      && Valid(o.db)
      && |o.db.users| == |db.users|
      && (forall i :: 0 <= i < |db.users| ==>
            && o.db.users[i].role == db.users[i].role
            && o.db.users[i].id == db.users[i].id
            && o.db.users[i].confirmationCode == db.users[i].confirmationCode)
      && o.db.projects == db.projects && o.db.tasks == db.tasks
      && o.db.nextUser == db.nextUser
  {
    var o := Me(db, cred, m, patch, isAdminOrMe);
    MeWrites(db, cred, m, patch, isAdminOrMe);
    if o.db != db {
      var u :| u in db.users && MyselfErrors(db.users, u, patch) == [] &&
        o.db == db.(users := SaveUser(db.users, ApplyMyselfPatch(u, patch)));
      SaveProfile(db, u, patch);
    }
  }

  // ------------------------------------------------------------ projects

  /**
   * `ProjectViewSet.create` (`IsAuthenticatedOrReadOnly`): anonymous is
   * refused with 401; an invalid payload gets 400; otherwise
   * `perform_create` saves the project with `author` set to the requester.
   */
  function CreateProject(db: Db, cred: Credential, payload: ProjectPayload, now: Stamp): Outcome<Project> {
    match Authenticate(db.users, cred)
    case None => Outcome(db, Unauthorized)
    case Some(p) =>
      if !IsAuthenticatedOrReadOnly(p, Post) then Outcome(db, Deny(p))
      else
        var errors := ProjectErrors(payload, false);
        if errors != [] then Outcome(db, Invalid(errors))
        else
          var pr := NewProject(db.nextProject, p.user.id, payload, now);
          Outcome(db.(projects := db.projects + [pr], nextProject := db.nextProject + 1), Created(pr))
  }

  /** A created project is the requester's and is the one row added; a refused one changes nothing. */
  lemma CreateProjectOutcome(db: Db, cred: Credential, payload: ProjectPayload, now: Stamp)
    ensures var o := CreateProject(db, cred, payload, now);
      && (cred.NoCredential? ==> o.response == Unauthorized && o.db == db)
      && (!o.response.Created? ==> o.db == db)
      && (o.response.Created? ==>
            && cred.Bearer? && o.response.body.author == cred.userId
            && HasUser(db.users, cred.userId)
            && o.response.body.id == db.nextProject
            && o.db == db.(projects := db.projects + [o.response.body], nextProject := db.nextProject + 1))
  {
    var o := CreateProject(db, cred, payload, now);
    if o.response.Created? {
      var a := Authenticate(db.users, cred);
      assert a.value.user in db.users;
    }
  }

  /**
   * The converse: an existing requester always gets past the permission, and
   * the serializer alone then decides between 201 and 400.
   */
  lemma CreateProjectAccepted(db: Db, u: User, payload: ProjectPayload, now: Stamp)
    requires u in db.users
    ensures var o := CreateProject(db, Bearer(u.id), payload, now);
      && (o.response.Created? <==> ProjectErrors(payload, false) == [])
      && (o.response.Invalid? <==> ProjectErrors(payload, false) != [])
  {
    var found := FindUser(db.users, u.id);
    assert found.Some?;
  }

  /** Project creation keeps the invariant. */
  lemma CreateProjectKeepsValid(db: Db, cred: Credential, payload: ProjectPayload, now: Stamp)
    requires Valid(db)
    ensures Valid(CreateProject(db, cred, payload, now).db)
  {
    CreateProjectOutcome(db, cred, payload, now);
    var o := CreateProject(db, cred, payload, now);
    if o.response.Created? {
      AddProjectValid(db, o.response.body);
    }
  }

  /** A new project with the next id and an existing author keeps the invariant. */
  lemma AddProjectValid(db: Db, pr: Project)
    requires Valid(db) && pr.id == db.nextProject && HasUser(db.users, pr.author)
    ensures Valid(db.(projects := db.projects + [pr], nextProject := db.nextProject + 1))
  {
    var r := db.(projects := db.projects + [pr], nextProject := db.nextProject + 1);
    forall q | q in db.projects ensures q.id != pr.id { }
    AppendUnique(db.projects, pr, ProjectKey);
    forall t | t in db.tasks ensures TaskRefsOk(r, t) {
      assert TaskRefsOk(db, t);
      var q :| q in db.projects && q.id == t.project;
      assert q in r.projects;
    }
  }

  // --------------------------------------------------------------- tasks

  function FindProject(projects: seq<Project>, id: ProjectId): Option<nat> {
    IndexWhere(projects, (p: Project) => p.id == id)
  }

  function FindTask(tasks: seq<Task>, id: TaskId): Option<nat> {
    IndexWhere(tasks, (t: Task) => t.id == id)
  }

  /**
   * POST on `ProjectViewSet.tasks`: the viewset's `IsAuthenticatedOrReadOnly`
   * first (anonymous: 401), then `get_object_or_404` on the project, then the
   * serializer; the task is saved with `author` the requester and `project`
   * the project of the URL.
   */
  function CreateTask(db: Db, cred: Credential, pid: ProjectId, payload: TaskPayload, now: Stamp): Outcome<Task> {
    match Authenticate(db.users, cred)
    case None => Outcome(db, Unauthorized)
    case Some(p) =>
      if !IsAuthenticatedOrReadOnly(p, Post) then Outcome(db, Deny(p))
      else if FindProject(db.projects, pid).None? then Outcome(db, NotFound)
      else
        var errors := TaskErrors(db.users, payload, false);
        if errors != [] then Outcome(db, Invalid(errors))
        else
          var t := NewTask(db.nextTask, pid, p.user.id, db.users, payload, now);
          Outcome(db.(tasks := db.tasks + [t], nextTask := db.nextTask + 1), Created(t))
  }

  /** A created task belongs to the URL's project and the requester, whatever the payload says. */
  lemma CreateTaskOutcome(db: Db, cred: Credential, pid: ProjectId, payload: TaskPayload, now: Stamp)
    ensures var o := CreateTask(db, cred, pid, payload, now);
      o.response.Created? ==>
        && cred.Bearer? && o.response.body.author == cred.userId
        && o.response.body.project == pid
        && o.response.body.id == db.nextTask
        && TaskRefsOk(db, o.response.body)
        && o.db == db.(tasks := db.tasks + [o.response.body], nextTask := db.nextTask + 1)
  {
    var o := CreateTask(db, cred, pid, payload, now);
    if o.response.Created? {
      var a := Authenticate(db.users, cred);
      assert a.Some? && a.value.Authenticated?;
      var u := a.value.user;
      var found := FindProject(db.projects, pid);
      assert found.Some? && TaskErrors(db.users, payload, false) == [];
      CreateTaskCreates(db, cred, pid, payload, now, u);
      assert u in db.users;
      assert db.projects[found.value] in db.projects;
      NewTaskRefs(db, pid, u.id, payload, now);
    }
  }

  /** The accepted path of `CreateTask`, from the facts the view has checked. */
  lemma CreateTaskCreates(db: Db, cred: Credential, pid: ProjectId, payload: TaskPayload, now: Stamp, u: User)
    requires Authenticate(db.users, cred) == Some(Authenticated(u))
    requires FindProject(db.projects, pid).Some? && TaskErrors(db.users, payload, false) == []
    ensures var t := NewTask(db.nextTask, pid, u.id, db.users, payload, now);
      CreateTask(db, cred, pid, payload, now) == Outcome(db.(tasks := db.tasks + [t], nextTask := db.nextTask + 1), Created(t))
  {
  }

  /** A task created from an accepted payload refers only to rows that exist. */
  lemma NewTaskRefs(db: Db, pid: ProjectId, author: UserId, payload: TaskPayload, now: Stamp)
    requires HasProject(db.projects, pid) && HasUser(db.users, author)
    requires TaskErrors(db.users, payload, false) == []
    ensures TaskRefsOk(db, NewTask(db.nextTask, pid, author, db.users, payload, now))
  {
    TaskValidAssignee(db.users, payload, false);
  }

  /**
   * A refused task creation changes nothing; it is refused with 404 exactly
   * when an authenticated requester names a project that does not exist.
   */
  lemma CreateTaskRefused(db: Db, cred: Credential, pid: ProjectId, payload: TaskPayload, now: Stamp)
    ensures var o := CreateTask(db, cred, pid, payload, now);
      && (!o.response.Created? ==> o.db == db)
      && (o.response.NotFound? <==> Authenticate(db.users, cred).Some? && cred.Bearer? && !HasProject(db.projects, pid))
  {
    var found := FindProject(db.projects, pid);
    if found.Some? {
      assert db.projects[found.value] in db.projects;
    }
  }

  /**
   * The converse: for an existing requester and an existing project, the
   * serializer alone decides between 201 and 400.
   */
  lemma CreateTaskAccepted(db: Db, u: User, pid: ProjectId, payload: TaskPayload, now: Stamp)
    requires u in db.users && HasProject(db.projects, pid)
    ensures var o := CreateTask(db, Bearer(u.id), pid, payload, now);
      && (o.response.Created? <==> TaskErrors(db.users, payload, false) == [])
      && (o.response.Invalid? <==> TaskErrors(db.users, payload, false) != [])
  {
    var found := FindUser(db.users, u.id);
    assert found.Some?;
    var q :| q in db.projects && q.id == pid;
    assert FindProject(db.projects, pid).Some?;
  }

  /** Task creation keeps every reference of the store intact. */
  lemma CreateTaskKeepsValid(db: Db, cred: Credential, pid: ProjectId, payload: TaskPayload, now: Stamp)
    requires Valid(db)
    ensures Valid(CreateTask(db, cred, pid, payload, now).db)
  {
    CreateTaskOutcome(db, cred, pid, payload, now);
    var o := CreateTask(db, cred, pid, payload, now);
    if o.response.Created? {
      AddTaskValid(db, o.response.body);
    }
  }

  /** A new task with the next id whose references exist keeps the invariant. */
  lemma AddTaskValid(db: Db, t: Task)
    requires Valid(db) && t.id == db.nextTask && TaskRefsOk(db, t)
    ensures Valid(db.(tasks := db.tasks + [t], nextTask := db.nextTask + 1))
  {
    var r := db.(tasks := db.tasks + [t], nextTask := db.nextTask + 1);
    forall q | q in db.tasks ensures q.id != t.id { }
    AppendUnique(db.tasks, t, TaskKey);
    forall q | q in r.tasks ensures TaskRefsOk(r, q) {
      if q in db.tasks {
        assert TaskRefsOk(db, q);
      }
    }
  }

  /** `IsAuthorOrReadOnly`, whose definition is not part of this model: its two checks, uninterpreted. */
  datatype ObjectPolicy = ObjectPolicy(
    hasPermission: (Principal, Method) -> bool,
    hasObjectPermission: (Principal, Method, Task) -> bool)

  /** `TaskViewSet.http_method_names`. */
  const TaskMethodNames: set<Method> := {Patch, Options, Head}

  /**
   * A request on `/tasks/{id}`. Authentication and the two permission
   * classes (`IsAuthenticatedOrReadOnly`, then `IsAuthorOrReadOnly`) run
   * first; then a method outside `http_method_names` gets 405, OPTIONS gets
   * the metadata, and HEAD gets 405 as well because the viewset has no GET
   * handler for it to borrow. PATCH is `partial_update`: 404 for a missing
   * task, the object permissions, the serializer, then the save.
   */
  function TaskDetail(db: Db, cred: Credential, m: Method, id: TaskId, payload: TaskPayload,
                      policy: ObjectPolicy, now: Stamp): Outcome<Task>
  {
    match Authenticate(db.users, cred)
    case None => Outcome(db, Unauthorized)
    case Some(p) =>
      if !(IsAuthenticatedOrReadOnly(p, m) && policy.hasPermission(p, m)) then Outcome(db, Deny(p))
      else if m !in TaskMethodNames then Outcome(db, MethodNotAllowed)
      else if m == Options then Outcome(db, Metadata)
      else if m == Head then Outcome(db, MethodNotAllowed)
      else
        match FindTask(db.tasks, id)
        case None => Outcome(db, NotFound)
        case Some(i) =>
          var t := db.tasks[i];
          if !policy.hasObjectPermission(p, m, t) then Outcome(db, Deny(p))
          else
            var errors := TaskErrors(db.users, payload, true);
            if errors != [] then Outcome(db, Invalid(errors))
            else
              var t' := ApplyTaskPatch(db.users, t, payload, now);
              Outcome(db.(tasks := ReplaceWhere(db.tasks, TaskKey, id, t')), Success(t'))
  }

  /**
   * The gate of `TaskViewSet`: only PATCH can change anything or succeed, and
   * only when the requester is authenticated and both permission classes
   * allow it, on the request and on the task.
   */
  lemma TaskDetailGate(db: Db, cred: Credential, m: Method, id: TaskId, payload: TaskPayload,
                       policy: ObjectPolicy, now: Stamp)
    ensures var o := TaskDetail(db, cred, m, id, payload, policy, now);
      o.db != db || o.response.Success? ==>
        && m == Patch
        && (exists u :: u in db.users && cred == Bearer(u.id) &&
              policy.hasPermission(Authenticated(u), Patch) &&
              exists t :: t in db.tasks && t.id == id && policy.hasObjectPermission(Authenticated(u), Patch, t))
  {
    var o := TaskDetail(db, cred, m, id, payload, policy, now);
    TaskDetailMethods(db, cred, m, id, payload, policy, now);
    if m == Patch && (o.db != db || o.response.Success?) {
      var a := Authenticate(db.users, cred);
      var u := a.value.user;
      assert u in db.users && cred == Bearer(u.id);
      var found := FindTask(db.tasks, id);
      var t := db.tasks[found.value];
      assert t in db.tasks && t.id == id;
      assert policy.hasPermission(Authenticated(u), Patch) && policy.hasObjectPermission(Authenticated(u), Patch, t);
    }
  }

  /**
   * `http_method_names`: a method other than PATCH changes nothing and gets
   * 401, 403, 405 or, for OPTIONS, the metadata; GET and HEAD in particular
   * get 405 once past the permissions. Without credentials, an unsafe method
   * gets 401.
   */
  lemma TaskDetailMethods(db: Db, cred: Credential, m: Method, id: TaskId, payload: TaskPayload,
                          policy: ObjectPolicy, now: Stamp)
    ensures var o := TaskDetail(db, cred, m, id, payload, policy, now);
      && (m != Patch ==> o.db == db && o.response in {Unauthorized, Forbidden, MethodNotAllowed, Metadata})
      && (m == Options ==> o.response in {Unauthorized, Forbidden, Metadata})
      && (m != Patch && m != Options ==> o.response in {Unauthorized, Forbidden, MethodNotAllowed})
      && (cred.NoCredential? && !IsSafe(m) ==> o.response == Unauthorized)
  {
  }

  /**
   * A successful PATCH rewrites exactly the task with that id, as the
   * serializer's partial update of it: its `id`, `project`, `author` and
   * `created_at` are kept, and the other tasks and tables are untouched.
   */
  lemma TaskPatchOutcome(db: Db, cred: Credential, id: TaskId, payload: TaskPayload,
                         policy: ObjectPolicy, now: Stamp)
    requires UniqueBy(db.tasks, TaskKey)
    ensures var o := TaskDetail(db, cred, Patch, id, payload, policy, now);
      && (!o.response.Success? ==> o.db == db)
      && (o.response.Success? ==>
        && TaskErrors(db.users, payload, true) == []
        && exists i :: 0 <= i < |db.tasks| && db.tasks[i].id == id
             && o.response.body == ApplyTaskPatch(db.users, db.tasks[i], payload, now)
             && o.response.body.project == db.tasks[i].project
             && o.response.body.author == db.tasks[i].author
             && o.response.body.createdAt == db.tasks[i].createdAt
             && o.db == db.(tasks := db.tasks[i := o.response.body]))
  {
    var o := TaskDetail(db, cred, Patch, id, payload, policy, now);
    if o.response.Success? {
      var i := FindTask(db.tasks, id).value;
      ReplaceWhereAt(db.tasks, TaskKey, i, o.response.body);
    }
  }

  /**
   * The converse: a PATCH by an existing user on an existing task that both
   * permission classes allow is decided by the serializer alone, and a
   * success answers with that task's partial update.
   */
  lemma TaskPatchAccepted(db: Db, u: User, t: Task, payload: TaskPayload, policy: ObjectPolicy, now: Stamp)
    requires UniqueBy(db.users, UserKey) && UniqueBy(db.tasks, TaskKey)
    requires u in db.users && t in db.tasks
    requires policy.hasPermission(Authenticated(u), Patch)
    requires policy.hasObjectPermission(Authenticated(u), Patch, t)
    ensures var o := TaskDetail(db, Bearer(u.id), Patch, t.id, payload, policy, now);
      && (o.response.Success? <==> TaskErrors(db.users, payload, true) == [])
      && (o.response.Invalid? <==> TaskErrors(db.users, payload, true) != [])
      && (o.response.Success? ==> o.response.body == ApplyTaskPatch(db.users, t, payload, now))
  {
    AuthenticateExisting(db.users, u);
    FindTaskExisting(db.tasks, t);
    TaskPatchResponse(db, u, t, payload, policy, now);
  }

  /** The response of an allowed PATCH on an existing task, by whether the serializer accepts. */
  lemma TaskPatchResponse(db: Db, u: User, t: Task, payload: TaskPayload, policy: ObjectPolicy, now: Stamp)
    requires Authenticate(db.users, Bearer(u.id)) == Some(Authenticated(u))
    requires FindTask(db.tasks, t.id).Some? && db.tasks[FindTask(db.tasks, t.id).value] == t
    requires policy.hasPermission(Authenticated(u), Patch)
    requires policy.hasObjectPermission(Authenticated(u), Patch, t)
    ensures var errors := TaskErrors(db.users, payload, true);
      TaskDetail(db, Bearer(u.id), Patch, t.id, payload, policy, now).response ==
        if errors == [] then Success(ApplyTaskPatch(db.users, t, payload, now)) else Invalid(errors)
  {
  }

  /** With ids unique, the token of an existing user authenticates as that very row. */
  lemma AuthenticateExisting(users: seq<User>, u: User)
    requires UniqueBy(users, UserKey) && u in users
    ensures Authenticate(users, Bearer(u.id)) == Some(Authenticated(u))
  {
    var a := FindUser(users, u.id);
    var k :| 0 <= k < |users| && users[k] == u;
    assert UserKey(users[a.value]) == UserKey(users[k]);
  }

  /** With ids unique, looking a task up by its id finds that very row. */
  lemma FindTaskExisting(tasks: seq<Task>, t: Task)
    requires UniqueBy(tasks, TaskKey) && t in tasks
    ensures FindTask(tasks, t.id).Some? && tasks[FindTask(tasks, t.id).value] == t
  {
    var f := FindTask(tasks, t.id);
    var j :| 0 <= j < |tasks| && tasks[j] == t;
    assert TaskKey(tasks[f.value]) == TaskKey(tasks[j]);
  }

  /** A task PATCH keeps every reference of the store intact. */
  lemma TaskPatchKeepsValid(db: Db, cred: Credential, id: TaskId, payload: TaskPayload,
                            policy: ObjectPolicy, now: Stamp)
    requires Valid(db)
    ensures Valid(TaskDetail(db, cred, Patch, id, payload, policy, now).db)
  {
    var o := TaskDetail(db, cred, Patch, id, payload, policy, now);
    TaskPatchOutcome(db, cred, id, payload, policy, now);
    if o.response.Success? {
      var i :| 0 <= i < |db.tasks| && db.tasks[i].id == id
             && o.response.body == ApplyTaskPatch(db.users, db.tasks[i], payload, now)
             && o.db == db.(tasks := db.tasks[i := o.response.body]);
      TaskValidAssignee(db.users, payload, true);
      assert db.tasks[i] in db.tasks && TaskRefsOk(db, db.tasks[i]);
      ReplaceTaskValid(db, i, o.response.body);
    }
  }

  /** Replacing a task by one with the same id whose references exist keeps the invariant. */
  lemma ReplaceTaskValid(db: Db, i: nat, t: Task)
    requires Valid(db) && i < |db.tasks| && t.id == db.tasks[i].id && TaskRefsOk(db, t)
    ensures Valid(db.(tasks := db.tasks[i := t]))
  {
    var r := db.(tasks := db.tasks[i := t]);
    UpdateUnique(db.tasks, i, t, TaskKey);
    assert db.tasks[i] in db.tasks;
    forall q | q in r.tasks ensures TaskRefsOk(r, q) && q.id < r.nextTask {
      var j :| 0 <= j < |r.tasks| && r.tasks[j] == q;
      if j != i {
        assert db.tasks[j] in db.tasks;
      }
    }
  }

  // --------------------------------------------------------------- store

  /**
   * The database the handlers work on: the three tables and their id
   * sequences, updated in place. Each method performs exactly the
   * transition of the function it is named after, so `Valid()` is kept by
   * the lemmas about that function (`SignupKeepsValid`, `MeKeepsRoles`,
   * `CreateProjectKeepsValid`, `CreateTaskKeepsValid`, `TaskPatchKeepsValid`,
   * `Models.DeleteUserValid`, `Models.DeleteProjectValid`).
   */
  class Store {
    var users: seq<User>
    var projects: seq<Project>
    var tasks: seq<Task>
    var nextUser: nat
    var nextProject: nat
    var nextTask: nat

    function State(): Db
      reads this
    {
      Db(users, projects, tasks, nextUser, nextProject, nextTask)
    }

    ghost predicate Valid()
      reads this
    {
      Models.Valid(State())
    }

    constructor ()
      ensures Valid() && State() == Db([], [], [], 0, 0, 0)
    {
      users, projects, tasks := [], [], [];
      nextUser, nextProject, nextTask := 0, 0, 0;
      EmptyDbValid();
    }

    /** `SignUpView.post`, after authentication. */
    method ServeSignup(cred: Credential, req: SignupRequest, code: string, salt: Salt, h: Hasher, delivered: bool)
      returns (resp: Response<SignupBody>)
      modifies this
      ensures State() == SignUpView(old(State()), cred, req, code, salt, h, delivered).db
      ensures resp == SignUpView(old(State()), cred, req, code, salt, h, delivered).response
    {
      if Authenticate(users, cred).None? {
        return Unauthorized;
      }
      resp := SignupPost(req, code, salt, h, delivered);
    }

    /** The body of `SignUpView.post`, reached once the authenticator has let the request through. */
    method SignupPost(req: SignupRequest, code: string, salt: Salt, h: Hasher, delivered: bool)
      returns (resp: Response<SignupBody>)
      modifies this
      ensures State() == Signup(old(State()), req, code, salt, h, delivered).db
      ensures resp == Signup(old(State()), req, code, salt, h, delivered).response
    {
      var userInDb := PairInDb(users, req.username, req.email);
      var errors := SignupErrors(users, req.username, req.email);
      if errors == [] || userInDb {
        SignupValid(users, req.username, req.email);
        var name, mail := req.username.value, req.email.value;
        var i := GetOrCreate(name, mail);
        // user.confirmation_code = make_password(code); user.save()
        users := users[i := users[i].(confirmationCode := h.make(code, salt))];
        // send_mail(..., fail_silently=False)
        if delivered {
          resp := Success(SignupBody(name, mail));
        } else {
          resp := DeliveryFailed;
        }
      } else {
        resp := Invalid(errors);
      }
    }

    /**
     * `User.objects.get_or_create(username=..., email=...)`: the index of the
     * row with exactly that pair, or of a new row appended with the next id.
     */
    method GetOrCreate(name: string, mail: string) returns (i: nat)
      modifies this
      ensures var found := FindPair(old(users), name, mail);
        && users == (if found.Some? then old(users) else old(users) + [NewUser(old(nextUser), name, mail)])
        && nextUser == (if found.Some? then old(nextUser) else old(nextUser) + 1)
        && i == (if found.Some? then found.value else |old(users)|)
      ensures i < |users|
      ensures users[i].username == name && users[i].email == mail
      ensures projects == old(projects) && tasks == old(tasks)
      ensures nextProject == old(nextProject) && nextTask == old(nextTask)
    {
      var found := FindPair(users, name, mail);
      if found.Some? {
        i := found.value;
      } else {
        i := |users|;
        users := users + [NewUser(nextUser, name, mail)];
        nextUser := nextUser + 1;
      }
    }

    /** `serializer.save(...)` on a new task: the row is appended and the id sequence advances. */
    method AppendTask(t: Task)
      modifies this
      ensures State() == old(State()).(tasks := old(tasks) + [t], nextTask := old(nextTask) + 1)
    {
      tasks := tasks + [t];
      nextTask := nextTask + 1;
    }

    /** `task.save()` after a partial update: the row with that id is replaced. */
    method UpdateTask(id: TaskId, t': Task)
      modifies this
      ensures State() == old(State()).(tasks := ReplaceWhere(old(tasks), TaskKey, id, t'))
    {
      tasks := ReplaceWhere(tasks, TaskKey, id, t');
    }

    /** `UserViewSet.me`. */
    method ServeMe(cred: Credential, m: Method, patch: UserPatch, isAdminOrMe: (Principal, Method) -> bool)
      returns (resp: Response<UserRepr>)
      modifies this
      ensures State() == Me(old(State()), cred, m, patch, isAdminOrMe).db
      ensures resp == Me(old(State()), cred, m, patch, isAdminOrMe).response
    {
      var principal := Authenticate(users, cred);
      if principal.None? {
        return Unauthorized;
      }
      var p := principal.value;
      if !isAdminOrMe(p, m) {
        return Deny(p);
      }
      if m == Options {
        return Metadata;
      }
      if !(m == Get || m == Head || m == Patch) {
        return MethodNotAllowed;
      }
      if p.Anonymous? {
        return ServerError;
      }
      var u := p.user;
      if m == Patch && MyselfErrors(users, u, patch) == [] {
        var u' := ApplyMyselfPatch(u, patch);
        users := SaveUser(users, u');
        return Success(Represent(u'));
      }
      resp := Success(Represent(u));
    }

    /** `ProjectViewSet.create` with `perform_create`. */
    method ServeCreateProject(cred: Credential, payload: ProjectPayload, now: Stamp)
      returns (resp: Response<Project>)
      modifies this
      ensures State() == CreateProject(old(State()), cred, payload, now).db
      ensures resp == CreateProject(old(State()), cred, payload, now).response
    {
      var principal := Authenticate(users, cred);
      if principal.None? {
        return Unauthorized;
      }
      var p := principal.value;
      if !IsAuthenticatedOrReadOnly(p, Post) {
        return Deny(p);
      }
      var errors := ProjectErrors(payload, false);
      if errors != [] {
        return Invalid(errors);
      }
      var pr := NewProject(nextProject, p.user.id, payload, now);
      projects := projects + [pr];
      nextProject := nextProject + 1;
      resp := Created(pr);
    }

    /** POST on `ProjectViewSet.tasks`. */
    method ServeCreateTask(cred: Credential, pid: ProjectId, payload: TaskPayload, now: Stamp)
      returns (resp: Response<Task>)
      modifies this
      ensures State() == CreateTask(old(State()), cred, pid, payload, now).db
      ensures resp == CreateTask(old(State()), cred, pid, payload, now).response
    {
      var principal := Authenticate(users, cred);
      if principal.None? {
        return Unauthorized;
      }
      var p := principal.value;
      if !IsAuthenticatedOrReadOnly(p, Post) {
        return Deny(p);
      }
      resp := CreateTaskPost(cred, p.user, pid, payload, now);
    }

    /** The POST branch of `ProjectViewSet.tasks`, for a requester the authenticator has recognised. */
    method CreateTaskPost(cred: Credential, u: User, pid: ProjectId, payload: TaskPayload, now: Stamp)
      returns (resp: Response<Task>)
      requires Authenticate(users, cred) == Some(Authenticated(u))
      modifies this
      ensures State() == CreateTask(old(State()), cred, pid, payload, now).db
      ensures resp == CreateTask(old(State()), cred, pid, payload, now).response
    {
      if FindProject(projects, pid).None? {
        return NotFound;
      }
      var errors := TaskErrors(users, payload, false);
      if errors != [] {
        return Invalid(errors);
      }
      CreateTaskCreates(State(), cred, pid, payload, now, u);
      var t := NewTask(nextTask, pid, u.id, users, payload, now);
      AppendTask(t);
      resp := Created(t);
    }

    /** A request on `TaskViewSet`'s detail route. */
    method ServeTaskDetail(cred: Credential, m: Method, id: TaskId, payload: TaskPayload,
                      policy: ObjectPolicy, now: Stamp)
      returns (resp: Response<Task>)
      modifies this
      ensures State() == TaskDetail(old(State()), cred, m, id, payload, policy, now).db
      ensures resp == TaskDetail(old(State()), cred, m, id, payload, policy, now).response
    {
      var principal := Authenticate(users, cred);
      if principal.None? {
        return Unauthorized;
      }
      var p := principal.value;
      if !(IsAuthenticatedOrReadOnly(p, m) && policy.hasPermission(p, m)) {
        return Deny(p);
      }
      if m !in TaskMethodNames {
        return MethodNotAllowed;
      }
      if m == Options {
        return Metadata;
      }
      if m == Head {
        return MethodNotAllowed;
      }
      var found := FindTask(tasks, id);
      if found.None? {
        return NotFound;
      }
      var t := tasks[found.value];
      if !policy.hasObjectPermission(p, m, t) {
        return Deny(p);
      }
      var errors := TaskErrors(users, payload, true);
      if errors != [] {
        return Invalid(errors);
      }
      var t' := ApplyTaskPatch(users, t, payload, now);
      UpdateTask(id, t');
      resp := Success(t');
    }

    /** Deleting a user, with the cascades and `SET_NULL` of `Models.DeleteUser`. */
    method DeleteUser(uid: UserId)
      modifies this
      ensures State() == Models.DeleteUser(old(State()), uid)
    {
      // the collector: projects authored by the user (CASCADE), then the tasks of
      // those projects and the tasks the user authored (CASCADE), then the
      // tasks assigned to the user (SET_NULL), then the user row
      var gone := ProjectsOf(projects, uid);
      projects := Filter(projects, (p: Project) => p.author != uid);
      tasks := Filter(tasks, (t: Task) => t.author != uid && t.project !in gone);
      tasks := UnassignAll(tasks, uid);
      users := Filter(users, (u: User) => u.id != uid);
    }

    /** Deleting a project and, by cascade, its tasks. */
    method DeleteProject(pid: ProjectId)
      modifies this
      ensures State() == Models.DeleteProject(old(State()), pid)
    {
      tasks := Filter(tasks, (t: Task) => t.project != pid);
      projects := Filter(projects, (p: Project) => p.id != pid);
    }
  }
}
