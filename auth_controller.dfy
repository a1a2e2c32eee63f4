/** Registration, login and logout. bcrypt is the parameter `h` (a salted
    hash and its comparison), the random salt is the parameter `salt`, JWT
    signing with the server secret is the parameter `sign` (it signs the
    claim `id`), the clock is the parameter `now`, and the id of a new user
    is the parameter `newId`. */
module AuthController {
  import opened JsValues
  import opened Text
  import opened UserModel
  import opened AuthMiddleware

  /** `bcrypt.hash(password, salt)` and `bcrypt.compare(password, hash)`. */
  datatype Hasher = Hasher(hash: (string, string) -> string, compare: (string, string) -> bool)

  /** What bcrypt guarantees and the handlers rely on: a password matches
      its own hash under any salt. */
  ghost predicate Sound(h: Hasher) {
    forall p, s :: h.compare(p, h.hash(p, s))
  }

  /** What `jwt.verify` does with a token `jwt.sign({ id })` produced. */
  ghost predicate SignVerifies(sign: UserId -> string, verify: string -> Option<Claims>) {
    forall id :: verify(sign(id)) == Some(Claims(Some(id), None, None))
  }

  /** A `Set-Cookie` the handlers send: name, value, `httpOnly`, and either
      a `maxAge` in milliseconds or an `expires` date. */
  datatype Cookie = Cookie(name: string, value: string, httpOnly: bool, maxAge: Option<int>, expires: Option<Date>)

  /** Seven days in milliseconds. */
  const SessionMaxAge := 1000 * 60 * 60 * 24 * 7

  /** The cookie `generateToken` sets: `jwt` holding the token for seven
      days. */
  function SessionCookie(token: string): (c: Cookie)
    ensures c.name == "jwt" && c.value == token && c.httpOnly
    ensures c.maxAge == Some(604800000) && c.expires == None
  {
    Cookie("jwt", token, true, Some(SessionMaxAge), None)
  }

  /** A handler's reply: the outcome and the cookie it sets, if any. */
  datatype AuthReply<T> = AuthReply(response: Response<T>, cookie: Option<Cookie>)

  /** The body of a successful registration. */
  datatype Registered = Registered(id: UserId, name: string, email: string)

  /** The record `User.create({ name, email, password })` builds: the
      setters applied, no bio, no social links, `lastLogin` at its default
      of null. */
  function NewUser(name: string, email: string, passwordHash: string): (u: User)
    ensures Normalised(u)
    ensures u.name == Trim(name) && u.email == EmailSetter(email)
    ensures u.password == passwordHash && u.bio == None && u.socials == NoSocials && u.lastLogin == None
  {
    SetterOutputs(name);
    SetterOutputs(email);
    User(Trim(name), EmailSetter(email), passwordHash, None, NoSocials, None)
  }

  /** The user a `findOne({ email })` on a normalised email finds; with the
      unique index there is at most one. */
  ghost function UserWithEmail(docs: map<UserId, User>, email: string): (r: Option<UserId>)
    ensures r.None? <==> forall id :: id in docs ==> docs[id].email != email
    ensures r.Some? ==> r.value in docs && docs[r.value].email == email
    ensures r.Some? && EmailsUnique(docs) ==> forall id :: id in docs && docs[id].email == email ==> id == r.value
  {
    if exists id :: id in docs && docs[id].email == email then
      var id :| id in docs && docs[id].email == email;
      Some(id)
    else
      None
  }

  /** `register`: 400 when a field is falsy or the email (after the
      setters) is taken, with nothing written. Otherwise the user is created
      with the bcrypt hash in place of the password, then saved again with
      `lastLogin` set to now; the reply is a 201 with id, name and email
      and the session cookie. A record the validators refuse is a 500 with
      nothing written. */
  method Register(
    users: UserCollection, name: Option<string>, email: Option<string>, password: Option<string>,
    h: Hasher, salt: string, sign: UserId -> string, now: Date, newId: UserId)
    returns (reply: AuthReply<Registered>)
    requires users.Valid() && newId !in users.docs
    modifies users
    ensures users.Valid()
    ensures !Truthy(name) || !Truthy(email) || !Truthy(password) ==>
      reply == AuthReply(Fail(BadRequest), None) && users.docs == old(users.docs)
    ensures Truthy(name) && Truthy(email) && Truthy(password) && UserWithEmail(old(users.docs), EmailSetter(email.value)).Some? ==>
      reply == AuthReply(Fail(BadRequest), None) && users.docs == old(users.docs)
    ensures Truthy(name) && Truthy(email) && Truthy(password) && UserWithEmail(old(users.docs), EmailSetter(email.value)).None? ==>
      var u := NewUser(name.value, email.value, h.hash(password.value, salt));
      if ValidUser(u) then
        && users.docs == old(users.docs)[newId := u.(lastLogin := Some(now))]
        && reply == AuthReply(Created(Registered(newId, u.name, u.email)), Some(SessionCookie(sign(newId))))
      else
        reply == AuthReply(Fail(ServerError), None) && users.docs == old(users.docs)
  {
    if !Truthy(name) || !Truthy(email) || !Truthy(password) {
      return AuthReply(Fail(BadRequest), None);
    }
    var existing := users.FindOne(email.value);
    if existing != null {
      return AuthReply(Fail(BadRequest), None);
    }
    var hashed := h.hash(password.value, salt);
    var record := NewUser(name.value, email.value, hashed);
    var user := CreateAndStamp(users, newId, record, now);
    if user == null {
      return AuthReply(Fail(ServerError), None);
    }
    var cookie := SessionCookie(sign(user.id));
    return AuthReply(Created(Registered(user.id, user.name, user.email)), Some(cookie));
  }

  /** The writes of a registration: `User.create` (validators, unique
      index, insert), then `lastLogin` set to now and saved again. Null when
      the create is refused. */
  method CreateAndStamp(users: UserCollection, newId: UserId, record: User, now: Date)
    returns (user: UserDocument?)
    requires users.Valid() && newId !in users.docs && Normalised(record)
    requires EmailFree(users.docs, record.email, newId)
    modifies users
    ensures users.Valid()
    ensures user == null <==> !ValidUser(record)
    ensures user == null ==> users.docs == old(users.docs)
    ensures user != null ==>
      && user.id == newId && user.Record() == record.(lastLogin := Some(now))
      && users.docs == old(users.docs)[newId := record.(lastLogin := Some(now))]
  {
    user := new UserDocument(newId, record);
    var created := users.Save(user);
    if !created {
      return null;
    }
    user.lastLogin := Some(now);
    assert user.Record() == record.(lastLogin := Some(now));
    assert EmailFree(users.docs, user.email, newId);
    var saved := users.Save(user);
    if !saved {
      return null;
    }
  }

  /** `login`: 400 when a field is falsy or no user has the email (after
      the setters), 401 when the password does not match the stored hash;
      none of these writes anything or sets a cookie. On a match the session
      cookie is set, `lastLogin` becomes now, and the reply is the stored
      profile without the password. */
  method Login(
    users: UserCollection, email: Option<string>, password: Option<string>,
    h: Hasher, sign: UserId -> string, now: Date)
    returns (reply: AuthReply<PublicUser>)
    requires users.Valid()
    modifies users
    ensures users.Valid()
    ensures !Truthy(email) || !Truthy(password) ==>
      reply == AuthReply(Fail(BadRequest), None) && users.docs == old(users.docs)
    ensures Truthy(email) && Truthy(password) ==>
      match UserWithEmail(old(users.docs), EmailSetter(email.value))
      case None =>
        reply == AuthReply(Fail(BadRequest), None) && users.docs == old(users.docs)
      case Some(id) =>
        if !h.compare(password.value, old(users.docs)[id].password) then
          reply == AuthReply(Fail(Unauthorized), None) && users.docs == old(users.docs)
        else
          var u := old(users.docs)[id].(lastLogin := Some(now));
          && users.docs == old(users.docs)[id := u]
          && reply == AuthReply(Ok(WithoutPassword(id, u)), Some(SessionCookie(sign(id))))
  {
    if !Truthy(email) || !Truthy(password) {
      return AuthReply(Fail(BadRequest), None);
    }
    var user := users.FindOne(email.value);
    if user == null {
      return AuthReply(Fail(BadRequest), None);
    }
    assert UserWithEmail(users.docs, EmailSetter(email.value)) == Some(user.id);
    var isPasswordValid := h.compare(password.value, user.password);
    if !isPasswordValid {
      return AuthReply(Fail(Unauthorized), None);
    }
    var cookie := SessionCookie(sign(user.id));
    var safeUser := StampAndReload(users, user, now);
    return AuthReply(Ok(safeUser), Some(cookie));
  }

  /** The writes of a login: `lastLogin` set to now and saved, then the
      user read back without the password. The save cannot be refused: the
      stored user passed the validators, none of which looks at
      `lastLogin`, and keeps its own email. */
  method StampAndReload(users: UserCollection, user: UserDocument, now: Date) returns (safeUser: PublicUser)
    requires users.Valid() && user.id in users.docs && user.Record() == users.docs[user.id]
    modifies users, user
    ensures users.Valid()
    ensures users.docs == old(users.docs)[user.id := old(users.docs[user.id]).(lastLogin := Some(now))]
    ensures user.Record() == old(user.Record()).(lastLogin := Some(now))
    ensures safeUser == WithoutPassword(user.id, users.docs[user.id])
  {
    StoredUserValid(users.docs, user.id);
    StoredEmailFree(users.docs, user.id);
    user.lastLogin := Some(now);
    assert user.Record() == old(users.docs[user.id]).(lastLogin := Some(now));
    assert ValidUser(user.Record()) && EmailFree(users.docs, user.email, user.id);
    var saved := users.Save(user);
    assert saved;
    var reloaded := users.FindById(user.id);
    assert reloaded != null;
    safeUser := WithoutPassword(reloaded.id, reloaded.Record());
  }

  /** `logout`: the `jwt` cookie is overwritten with "" and an expiry at
      the epoch; the reply is always a 200. */
  function Logout(): (reply: AuthReply<()>)
    ensures reply.response == Ok(())
    ensures reply.cookie.Some? && reply.cookie.value.name == "jwt" && reply.cookie.value.value == ""
    ensures reply.cookie.value.expires == Some(0) && reply.cookie.value.httpOnly
  {
    AuthReply(Ok(()), Some(Cookie("jwt", "", true, None, Some(0))))
  }

  /** After logout the cookie no longer authenticates: a request carrying
      it and no Bearer header is rejected for lack of a token. */
  lemma LogoutCookieRejected(verify: string -> Option<Claims>, users: map<UserId, User>)
    ensures Authenticate(Some(Logout().cookie.value.value), None, verify, users) == Reject(NoToken)
  {
  }

  /** With a sound hasher, a stored user whose password is the hash of `p`
      is found by any email the setters map to theirs, and `p` passes the
      password check: what a registration stores, a login with the same
      credentials accepts. */
  lemma RegisteredUserCanLogIn(
    docs: map<UserId, User>, id: UserId, email: string, p: string, salt: string, h: Hasher)
    requires Sound(h) && EmailsUnique(docs)
    requires id in docs && docs[id].email == EmailSetter(email) && docs[id].password == h.hash(p, salt)
    ensures UserWithEmail(docs, EmailSetter(email)) == Some(id)
    ensures h.compare(p, docs[id].password)
  {
    var r := UserWithEmail(docs, EmailSetter(email));
    assert r.Some?;
  }

  /** The session cookie a login or registration sets admits its user at
      the authorization gate, with the stored profile minus the password,
      whatever Authorization header comes with it. */
  lemma SessionCookieAdmits(
    docs: map<UserId, User>, id: UserId, sign: UserId -> string, verify: string -> Option<Claims>,
    authorization: Option<string>)
    requires SignVerifies(sign, verify) && id != "" && sign(id) != "" && id in docs
    ensures Authenticate(Some(SessionCookie(sign(id)).value), authorization, verify, docs)
         == Admit(WithoutPassword(id, docs[id]))
  {
    SessionTokenAdmits(sign(id), id, verify, docs, authorization);
  }

  /** The schema's minimum length applies to the stored value, which
      `register` makes the hash: once the hashes are long enough (a bcrypt
      hash has 60 characters), a one-character password is accepted exactly
      when a long one is. */
  lemma PasswordLengthUnchecked(name: string, email: string, h: Hasher, p: string, q: string, salt: string)
    requires |h.hash(p, salt)| >= 60 && |h.hash(q, salt)| >= 60
    ensures ValidUser(NewUser(name, email, h.hash(p, salt))) <==> ValidUser(NewUser(name, email, h.hash(q, salt)))
  {
    var u, v := NewUser(name, email, h.hash(p, salt)), NewUser(name, email, h.hash(q, salt));
    assert u.password != "" && v.password != "";
  }
}
