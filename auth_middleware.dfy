/** The `protect` gate in front of every protected route. It finds a token
    (the `jwt` cookie first, then an `Authorization: Bearer <token>` header),
    verifies it, reads the user id from one of three claim names and loads
    that user without the password hash. Every rejection is a 401. Token
    verification with the server secret is the parameter `verify`: `None`
    stands for a signature or expiry failure, which throws. */
module AuthMiddleware {
  import opened JsValues
  import opened Text
  import opened UserModel

  /** The claims of a verified token that may carry the user id. */
  datatype Claims = Claims(id: Option<string>, userId: Option<string>, sub: Option<string>)

  /** Why the gate answered 401; each reason has its own message. */
  datatype Rejection =
    | NoToken        // "Not authorized, no token"
    | TokenInvalid   // "Not authorized, token invalid": no id claim
    | UserNotFound   // "Not authorized, user not found"
    | TokenFailed    // "Not authorized, token failed": verification threw

  /** What the gate does with a request: calls `next()` with `req.user` set
      to the loaded user, or rejects it. */
  datatype Outcome = Admit(user: PublicUser) | Reject(reason: Rejection)

  /** The token the gate looks at: a truthy `jwt` cookie, otherwise the
      second space-separated word of an Authorization header that starts
      with "Bearer" (missing when the header has no space). */
  function SelectToken(cookieJwt: Option<string>, authorization: Option<string>): (t: Option<string>)
    ensures Truthy(cookieJwt) ==> t == cookieJwt
    ensures !Truthy(cookieJwt) && !(Truthy(authorization) && StartsWith(authorization.value, "Bearer")) ==>
      t == None
    ensures t.Some? && !Truthy(cookieJwt) ==> ' ' !in t.value
    ensures !Truthy(cookieJwt) && authorization.Some? && ' ' !in authorization.value ==> t == None
  {
    if Truthy(cookieJwt) then cookieJwt
    else if Truthy(authorization) && StartsWith(authorization.value, "Bearer") then
      var parts := Split(authorization.value, ' ');
      assert ' ' !in authorization.value ==> parts == [authorization.value] by {
        if ' ' !in authorization.value {
          SplitNoSeparator(authorization.value, ' ');
        }
      }
      if |parts| > 1 then Some(parts[1]) else None
    else None
  }

  /** `decoded.id || decoded.userId || decoded.sub`. */
  function ClaimedId(c: Claims): (id: Option<string>)
    ensures Truthy(id) <==> Truthy(c.id) || Truthy(c.userId) || Truthy(c.sub)
    ensures Truthy(c.id) ==> id == c.id
    ensures !Truthy(c.id) && Truthy(c.userId) ==> id == c.userId
    ensures !Truthy(c.id) && !Truthy(c.userId) ==> id == c.sub
  {
    Or(Or(c.id, c.userId), c.sub)
  }

  /** The gate's decision for a request, given the stored users: each
      rejection reason exactly on its own path, and on admission the user
      the token's first truthy id claim names, without the password. */
  function Authenticate(
    cookieJwt: Option<string>, authorization: Option<string>,
    verify: string -> Option<Claims>, users: map<UserId, User>)
    : (o: Outcome)
    ensures o.Admit? ==>
      o.user.id in users && WithPassword(o.user, users[o.user.id].password) == users[o.user.id]
    ensures o.Admit? <==>
      var token := SelectToken(cookieJwt, authorization);
      && Truthy(token)
      && verify(token.value).Some?
      && Truthy(ClaimedId(verify(token.value).value))
      && ClaimedId(verify(token.value).value).value in users
    ensures o.Admit? ==>
      var id := ClaimedId(verify(SelectToken(cookieJwt, authorization).value).value).value;
      o == Admit(WithoutPassword(id, users[id]))
    ensures o == Reject(NoToken) <==> !Truthy(SelectToken(cookieJwt, authorization))
    ensures o == Reject(TokenFailed) <==>
      var token := SelectToken(cookieJwt, authorization);
      Truthy(token) && verify(token.value).None?
    ensures o == Reject(TokenInvalid) <==>
      var token := SelectToken(cookieJwt, authorization);
      Truthy(token) && verify(token.value).Some? && !Truthy(ClaimedId(verify(token.value).value))
    ensures o == Reject(UserNotFound) <==>
      var token := SelectToken(cookieJwt, authorization);
      && Truthy(token) && verify(token.value).Some? && Truthy(ClaimedId(verify(token.value).value))
      && ClaimedId(verify(token.value).value).value !in users
  {
    var token := SelectToken(cookieJwt, authorization);
    if !Truthy(token) then Reject(NoToken)
    else match verify(token.value)
      case None => Reject(TokenFailed)
      case Some(claims) =>
        var id := ClaimedId(claims);
        if !Truthy(id) then Reject(TokenInvalid)
        else if id.value !in users then Reject(UserNotFound)
        else Admit(WithoutPassword(id.value, users[id.value]))
  }

  /** The parts of a request the gate reads and the `req.user` slot it
      fills. */
  class Request {
    const cookieJwt: Option<string>
    const authorization: Option<string>
    var user: Option<PublicUser>

    constructor (cookieJwt: Option<string>, authorization: Option<string>)
      ensures this.cookieJwt == cookieJwt && this.authorization == authorization && user == None
    {
      this.cookieJwt := cookieJwt;
      this.authorization := authorization;
      user := None;
    }
  }

  /** `protect`: on admission `req.user` is set and `next()` runs; on
      rejection `req.user` is left alone. */
  method Protect(req: Request, users: UserCollection, verify: string -> Option<Claims>) returns (o: Outcome)
    modifies req
    ensures o == Authenticate(req.cookieJwt, req.authorization, verify, users.docs)
    ensures req.user == if o.Admit? then Some(o.user) else old(req.user)
  {
    var token: Option<string> := None;
    if Truthy(req.cookieJwt) {
      token := req.cookieJwt;
    }
    if !Truthy(token) && Truthy(req.authorization) && StartsWith(req.authorization.value, "Bearer") {
      var parts := Split(req.authorization.value, ' ');
      token := if |parts| > 1 then Some(parts[1]) else None;
    }
    if !Truthy(token) {
      return Reject(NoToken);
    }
    var decoded := verify(token.value);
    if decoded.None? {
      return Reject(TokenFailed);
    }
    var userId := ClaimedId(decoded.value);
    if !Truthy(userId) {
      return Reject(TokenInvalid);
    }
    var doc := users.FindById(userId.value);
    if doc == null {
      return Reject(UserNotFound);
    }
    var user := WithoutPassword(doc.id, doc.Record());
    req.user := Some(user);
    return Admit(user);
  }

  /** With no cookie, a header that starts with "Bearer" yields its second
      space-separated word: whatever comes before the first space, then
      the word `w`, which ends at the next space or at the end. */
  lemma BearerSelectsSecondWord(cookieJwt: Option<string>, a: string, w: string, rest: string)
    requires !Truthy(cookieJwt) && StartsWith(a + [' '] + w + rest, "Bearer")
    requires ' ' !in a && ' ' !in w && (rest == [] || rest[0] == ' ')
    ensures SelectToken(cookieJwt, Some(a + [' '] + w + rest)) == Some(w)
  {
    var h := a + [' '] + w + rest;
    assert h == a + [' '] + (w + rest);
    SplitAtSeparator(a, w + rest, ' ');
    SplitPrefix(w, rest, ' ');
    if rest != [] {
      assert rest == [' '] + rest[1..];
    }
    assert Split(rest, ' ')[0] == [];
    assert w + [] == w;
  }

  /** A header `Bearer <token>` selects exactly `<token>`, as long as the
      token has no space in it. */
  lemma BearerHeaderSelectsToken(cookieJwt: Option<string>, token: string)
    requires !Truthy(cookieJwt) && ' ' !in token
    ensures SelectToken(cookieJwt, Some("Bearer " + token)) == Some(token)
  {
    var h := "Bearer " + token;
    assert h == "Bearer" + [' '] + token + [];
    assert StartsWith(h, "Bearer") by {
      assert h[..6] == "Bearer";
    }
    BearerSelectsSecondWord(cookieJwt, "Bearer", token, []);
  }

  /** Sending the token in a Bearer header is as good as sending it in the
      `jwt` cookie. */
  lemma HeaderLikeCookie(token: string, verify: string -> Option<Claims>, users: map<UserId, User>)
    requires token != "" && ' ' !in token
    ensures Authenticate(None, Some("Bearer " + token), verify, users)
         == Authenticate(Some(token), None, verify, users)
  {
    BearerHeaderSelectsToken(None, token);
  }

  /** A header that starts with "Bearer" but has no space carries no token. */
  lemma BearerWithoutSpace(
    cookieJwt: Option<string>, h: string, verify: string -> Option<Claims>, users: map<UserId, User>)
    requires !Truthy(cookieJwt) && StartsWith(h, "Bearer") && ' ' !in h
    ensures Authenticate(cookieJwt, Some(h), verify, users) == Reject(NoToken)
    ensures SelectToken(cookieJwt, Some(h)) == None
  {
    SplitNoSeparator(h, ' ');
  }

  /** A token signed for a stored user's id, as login and registration issue
      it, admits that user, with the stored profile minus the password. */
  lemma SessionTokenAdmits(
    token: string, id: UserId, verify: string -> Option<Claims>, users: map<UserId, User>,
    authorization: Option<string>)
    requires token != "" && id != "" && id in users
    requires verify(token) == Some(Claims(Some(id), None, None))
    ensures Authenticate(Some(token), authorization, verify, users) == Admit(WithoutPassword(id, users[id]))
  {
  }
}
