/** The profile handlers: reading one's own profile or another user's, and
    the partial profile update in which a request field replaces the stored
    one only when it is truthy (`body.field || user.field`). */
module UserController {
  import opened JsValues
  import opened Text
  import opened UserModel

  /** The request body of `updateUserProfile`. `socials`, when sent, is an
      object, and every object is truthy. */
  datatype ProfilePatch = ProfilePatch(
    name: Option<string>,
    email: Option<string>,
    bio: Option<string>,
    socials: Option<Socials>)

  /** The bio setter: trims a present value, leaves a missing one missing. */
  function BioSetter(v: Option<string>): Option<string> {
    if v.Some? then Some(Trim(v.value)) else None
  }

  /** The stored user after the four assignments of `updateUserProfile`.
      Each assignment goes through the field's setter, including the ones
      that write the old value back. */
  function ApplyProfilePatch(u: User, p: ProfilePatch): (u': User)
    ensures u'.password == u.password && u'.lastLogin == u.lastLogin
    ensures Truthy(p.name) ==> u'.name == Trim(p.name.value)
    ensures Truthy(p.email) ==> u'.email == EmailSetter(p.email.value)
    ensures Truthy(p.bio) ==> u'.bio == Some(Trim(p.bio.value))
    ensures p.socials.Some? ==> u'.socials == p.socials.value
  {
    User(
      Trim(Coalesce(p.name, u.name)),
      EmailSetter(Coalesce(p.email, u.email)),
      u.password,
      BioSetter(Or(p.bio, u.bio)),
      if p.socials.Some? then p.socials.value else u.socials,
      u.lastLogin)
  }

  /** A field sent falsy (missing or "") keeps its stored value, so an empty
      string never clears a field; a missing `socials` keeps the links. */
  lemma FalsyFieldsKept(u: User, p: ProfilePatch)
    requires Normalised(u)
    ensures !Truthy(p.name) ==> ApplyProfilePatch(u, p).name == u.name
    ensures !Truthy(p.email) ==> ApplyProfilePatch(u, p).email == u.email
    ensures !Truthy(p.bio) ==> ApplyProfilePatch(u, p).bio == u.bio
    ensures p.socials.None? ==> ApplyProfilePatch(u, p).socials == u.socials
  {
    SettersKeep(u.name);
    SettersKeep(u.email);
    if u.bio.Some? {
      SettersKeep(u.bio.value);
    }
  }

  /** A body with nothing truthy in it leaves the stored user as it was. */
  lemma EmptyPatchKeepsUser(u: User, p: ProfilePatch)
    requires Normalised(u)
    requires !Truthy(p.name) && !Truthy(p.email) && !Truthy(p.bio) && p.socials.None?
    ensures ApplyProfilePatch(u, p) == u
  {
    FalsyFieldsKept(u, p);
  }

  /** The update writes setter output into every field it touches. */
  lemma PatchKeepsNormalised(u: User, p: ProfilePatch)
    requires Normalised(u)
    ensures Normalised(ApplyProfilePatch(u, p))
  {
    var u' := ApplyProfilePatch(u, p);
    SetterOutputs(Coalesce(p.name, u.name));
    SetterOutputs(Coalesce(p.email, u.email));
    var bio := Or(p.bio, u.bio);
    if bio.Some? {
      SetterOutputs(bio.value);
    }
  }

  /** A bio of white space only is truthy, so it is written, and the trim
      setter turns it into "": the one way to clear a bio. */
  lemma BlankBioClearsBio(u: User, p: ProfilePatch)
    requires p.bio.Some? && p.bio.value != "" && AllSpace(p.bio.value)
    ensures ApplyProfilePatch(u, p).bio == Some("")
  {
    TrimOfPadded(p.bio.value, [], []);
    assert p.bio.value + [] + [] == p.bio.value;
  }

  /** A name of white space only is trimmed to "" and fails `required`, so
      the save is refused. */
  lemma BlankNameRefused(u: User, p: ProfilePatch)
    requires p.name.Some? && p.name.value != "" && AllSpace(p.name.value)
    ensures !ValidUser(ApplyProfilePatch(u, p))
  {
    TrimOfPadded(p.name.value, [], []);
    assert p.name.value + [] + [] == p.name.value;
  }

  /** `getUserProfile`: the caller's own stored profile, password
      excluded; 404 when the user behind `req.user` no longer exists. */
  method GetUserProfile(users: UserCollection, me: PublicUser) returns (r: Response<PublicUser>)
    ensures me.id !in users.docs ==> r == Fail(NotFound)
    ensures me.id in users.docs ==>
      r.Ok? && r.value.id == me.id && WithPassword(r.value, users.docs[me.id].password) == users.docs[me.id]
  {
    var doc := users.FindById(me.id);
    if doc == null {
      return Fail(NotFound);
    }
    return Ok(WithoutPassword(doc.id, doc.Record()));
  }

  /** `getUserById`: any user's stored profile, password excluded; 404 for
      an unknown id. */
  method GetUserById(users: UserCollection, id: UserId) returns (r: Response<PublicUser>)
    ensures id !in users.docs ==> r == Fail(NotFound)
    ensures id in users.docs ==> r == Ok(WithoutPassword(id, users.docs[id]))
  {
    var doc := users.FindById(id);
    if doc == null {
      return Fail(NotFound);
    }
    return Ok(WithoutPassword(doc.id, doc.Record()));
  }

  /** `updateUserProfile`: 404 for a missing user; otherwise the patched
      user is saved, and a save refused by a validator or by the unique
      email index is a 500 with nothing written. The reply carries the
      saved profile without the password. */
  method UpdateUserProfile(users: UserCollection, me: UserId, patch: ProfilePatch)
    returns (r: Response<PublicUser>)
    requires users.Valid()
    modifies users
    ensures users.Valid()
    ensures me !in old(users.docs) ==> r == Fail(NotFound) && users.docs == old(users.docs)
    ensures me in old(users.docs) ==>
      var u' := ApplyProfilePatch(old(users.docs[me]), patch);
      if ValidUser(u') && EmailFree(old(users.docs), u'.email, me) then
        r == Ok(WithoutPassword(me, u')) && users.docs == old(users.docs)[me := u']
      else
        r == Fail(ServerError) && users.docs == old(users.docs)
  {
    var user := users.FindById(me);
    if user == null {
      return Fail(NotFound);
    }
    var stored := user.Record();
    StoredUserValid(users.docs, me);
    PatchKeepsNormalised(stored, patch);
    user.name := Trim(Coalesce(patch.name, user.name));
    user.email := EmailSetter(Coalesce(patch.email, user.email));
    user.bio := BioSetter(Or(patch.bio, user.bio));
    user.socials := if patch.socials.Some? then patch.socials.value else user.socials;
    assert user.Record() == ApplyProfilePatch(stored, patch);
    var saved := users.Save(user);
    if !saved {
      return Fail(ServerError);
    }
    return Ok(WithoutPassword(user.id, user.Record()));
  }
}
