/** The user schema and the `users` collection: the field rules Mongoose
    enforces on every save (required, trim, lowercase, length bounds, the
    email and social-link patterns, the unique email index), the setters it
    applies on assignment and in query filters, and the collection itself as
    a map from id to record. */
module UserModel {
  import opened JsValues
  import opened Text

  const NameMaxLength := 50
  const PasswordMinLength := 8
  const BioMaxLength := 200

  datatype Socials = Socials(linkedin: Option<string>, instagram: Option<string>, x: Option<string>)

  /** The nested `socials` object of a user created without one. */
  const NoSocials := Socials(None, None, None)

  /** A stored user; `password` holds whatever was saved (the bcrypt hash). */
  datatype User = User(
    name: string,
    email: string,
    password: string,
    bio: Option<string>,
    socials: Socials,
    lastLogin: Option<Date>)

  /** A user as the handlers hand it out: everything except the password. */
  datatype PublicUser = PublicUser(
    id: UserId,
    name: string,
    email: string,
    bio: Option<string>,
    socials: Socials,
    lastLogin: Option<Date>)

  /** `select("-password")`: drops the password and nothing else. */
  function WithoutPassword(id: UserId, u: User): (p: PublicUser)
    ensures p.id == id
    ensures WithPassword(p, u.password) == u
  {
    PublicUser(id, u.name, u.email, u.bio, u.socials, u.lastLogin)
  }

  function WithPassword(p: PublicUser, password: string): User {
    User(p.name, p.email, password, p.bio, p.socials, p.lastLogin)
  }

  // ---------------------------------------------------------------------
  // Setters: `trim: true` on name and bio, `trim` and `lowercase` on email.

  function EmailSetter(s: string): string {
    Lower(Trim(s))
  }

  /** No ASCII capital letter: what `lowercase` leaves. */
  predicate NoUpper(s: string) {
    forall i :: 0 <= i < |s| ==> !('A' <= s[i] <= 'Z')
  }

  /** Every string field holds what its setter produces: name and bio
      trimmed, email trimmed and without capitals. */
  predicate Normalised(u: User) {
    && Trimmed(u.name)
    && Trimmed(u.email) && NoUpper(u.email)
    && (u.bio.Some? ==> Trimmed(u.bio.value))
  }

  /** The setters produce values of that shape... */
  lemma SetterOutputs(s: string)
    ensures Trimmed(Trim(s))
    ensures Trimmed(EmailSetter(s)) && NoUpper(EmailSetter(s))
  {
    TrimSplitsOffSpace(s);
    LowerKeepsTrimmed(Trim(s));
  }

  /** ...and leave values of that shape as they are, which is why
      re-assigning a stored field to itself changes nothing. */
  lemma SettersKeep(s: string)
    ensures Trimmed(s) ==> Trim(s) == s
    ensures Trimmed(s) && NoUpper(s) ==> EmailSetter(s) == s
  {
    if Trimmed(s) {
      TrimIdempotent(s);
    }
  }

  /** Running a setter twice is running it once. */
  lemma SettersIdempotent(s: string)
    ensures Trim(Trim(s)) == Trim(s)
    ensures EmailSetter(EmailSetter(s)) == EmailSetter(s)
  {
    SetterOutputs(s);
    SettersKeep(Trim(s));
    SettersKeep(EmailSetter(s));
  }

  // ---------------------------------------------------------------------
  // Validators.

  /** `required` on a string path: the value is a non-empty string. */
  predicate Present(s: string) {
    s != ""
  }

  /** `match` on an optional path: a missing or empty value passes, any
      other value must match the pattern. */
  predicate MatchesOrBlank(v: Option<string>, pattern: string -> bool) {
    v.None? || v.value == "" || pattern(v.value)
  }

  predicate ValidSocials(s: Socials) {
    && MatchesOrBlank(s.linkedin, LinkedInUrl)
    && MatchesOrBlank(s.instagram, InstagramUrl)
    && MatchesOrBlank(s.x, XUrl)
  }

  /** The schema's validators, all of which must pass before a save. */
  predicate ValidUser(u: User) {
    && Present(u.name) && |u.name| <= NameMaxLength
    && Present(u.email) && EmailMatches(u.email)
    && Present(u.password) && |u.password| >= PasswordMinLength
    && (u.bio.Some? ==> |u.bio.value| <= BioMaxLength)
    && ValidSocials(u.socials)
  }

  // ---------------------------------------------------------------------
  // The email pattern `^[\w-\.]+@([\w-]+\.)+[\w-]{2,4}$`.

  /** `\w`: an ASCII letter, a digit or the underscore. */
  predicate IsWordChar(c: char) {
    ('a' <= c <= 'z') || ('A' <= c <= 'Z') || ('0' <= c <= '9') || c == '_'
  }

  /** `[\w-\.]`, the characters before the `@`. */
  predicate IsLocalChar(c: char) {
    IsWordChar(c) || c == '-' || c == '.'
  }

  /** `[\w-]`, the characters of a domain label. */
  predicate IsLabelChar(c: char) {
    IsWordChar(c) || c == '-'
  }

  predicate AllLocalChars(s: string) {
    forall i :: 0 <= i < |s| ==> IsLocalChar(s[i])
  }

  predicate AllLabelChars(s: string) {
    forall i :: 0 <= i < |s| ==> IsLabelChar(s[i])
  }

  /** `[\w-]{2,4}`, the last label. */
  predicate TopLevelLabel(t: string) {
    2 <= |t| <= 4 && AllLabelChars(t)
  }

  /** The domain check as the validator can run it: split at the dots;
      there are at least two labels, every label before the last is a
      non-empty run of label characters, and the last is a top-level label. */
  predicate DomainMatches(d: string) {
    LabelsMatch(Split(d, '.'))
  }

  predicate LabelsMatch(labels: seq<string>) {
    && |labels| >= 2
    && (forall i :: 0 <= i < |labels| - 1 ==> labels[i] != [] && AllLabelChars(labels[i]))
    && TopLevelLabel(labels[|labels| - 1])
  }

  /** The email check: exactly one `@`, a non-empty local part of `[\w-\.]`
      characters before it and a matching domain after it. */
  predicate EmailMatches(s: string) {
    var parts := Split(s, '@');
    |parts| == 2 && parts[0] != [] && AllLocalChars(parts[0]) && DomainMatches(parts[1])
  }

  /** `([\w-]+\.)+[\w-]{2,4}` read off the pattern: a label and a dot, then
      either the top-level label or, recursively, the rest of the group. */
  ghost predicate DomainPattern(d: string)
    decreases |d|
  {
    exists k :: 0 < k < |d| && d[k] == '.' && AllLabelChars(d[..k])
      && (TopLevelLabel(d[k + 1..]) || DomainPattern(d[k + 1..]))
  }

  /** The whole pattern read off the regular expression. */
  ghost predicate EmailPattern(s: string) {
    exists i :: 0 < i < |s| && s[i] == '@' && AllLocalChars(s[..i]) && DomainPattern(s[i + 1..])
  }

  lemma LabelCharsHaveNoDotOrAt(s: string)
    requires AllLabelChars(s)
    ensures '.' !in s && '@' !in s
  {
    assert forall i :: 0 <= i < |s| ==> s[i] != '.' && s[i] != '@';
  }

  lemma LocalCharsHaveNoAt(s: string)
    requires AllLocalChars(s)
    ensures '@' !in s
  {
    assert forall i :: 0 <= i < |s| ==> s[i] != '@';
  }

  lemma ConsLabel(a: string, rest: seq<string>)
    requires a != [] && AllLabelChars(a)
    requires LabelsMatch(rest) || (|rest| == 1 && TopLevelLabel(rest[0]))
    ensures LabelsMatch([a] + rest)
  {
    var labels := [a] + rest;
    forall i | 0 <= i < |labels| - 1
      ensures labels[i] != [] && AllLabelChars(labels[i])
    {
      if i > 0 {
        assert labels[i] == rest[i - 1];
      }
    }
  }

  /** What the pattern accepts, the split-based check accepts. */
  lemma {:induction false} PatternImpliesDomainMatches(d: string)
    requires DomainPattern(d)
    ensures DomainMatches(d)
    decreases |d|
  {
    var k :| 0 < k < |d| && d[k] == '.' && AllLabelChars(d[..k])
      && (TopLevelLabel(d[k + 1..]) || DomainPattern(d[k + 1..]));
    var a, rest := d[..k], d[k + 1..];
    CutAt(d, k);
    LabelCharsHaveNoDotOrAt(a);
    SplitAtSeparator(a, rest, '.');
    if TopLevelLabel(rest) {
      LabelCharsHaveNoDotOrAt(rest);
      SplitNoSeparator(rest, '.');
    } else {
      PatternImpliesDomainMatches(rest);
    }
    ConsLabel(a, Split(rest, '.'));
  }

  /** One step of the pattern: a label, a dot, and a tail that is either
      the top-level label or again a domain. */
  lemma DomainPatternStep(d: string, k: int)
    requires 0 < k < |d| && d[k] == '.' && AllLabelChars(d[..k])
    requires TopLevelLabel(d[k + 1..]) || DomainPattern(d[k + 1..])
    ensures DomainPattern(d)
  {
  }

  /** Dropping the first label of three or more keeps the check. */
  lemma LabelsMatchTail(labels: seq<string>)
    requires LabelsMatch(labels) && |labels| >= 3
    ensures LabelsMatch(labels[1..])
  {
    var tail := labels[1..];
    forall i | 0 <= i < |tail| - 1
      ensures tail[i] != [] && AllLabelChars(tail[i])
    {
      assert tail[i] == labels[i + 1];
    }
  }

  /** What the split-based check accepts, the pattern accepts. */
  lemma {:induction false} DomainMatchesImpliesPattern(d: string)
    requires DomainMatches(d)
    ensures DomainPattern(d)
    decreases |d|
  {
    var labels := Split(d, '.');
    SplitFirst(d, '.');
    var a, rest := labels[0], Join(labels[1..], '.');
    var k := |a|;
    assert d[..k] == a && d[k] == '.' && d[k + 1..] == rest by {
      assert d == a + ['.'] + rest;
    }
    if |labels| == 2 {
      assert labels[1..] == [labels[1]];
    } else {
      LabelsMatchTail(labels);
      DomainMatchesImpliesPattern(rest);
    }
    DomainPatternStep(d, k);
  }

  /** The split-based domain check accepts exactly what the pattern does. */
  lemma DomainMatchesIffPattern(d: string)
    ensures DomainMatches(d) <==> DomainPattern(d)
  {
    if DomainPattern(d) {
      PatternImpliesDomainMatches(d);
    }
    if DomainMatches(d) {
      DomainMatchesImpliesPattern(d);
    }
  }

  lemma EmailPatternImpliesMatches(s: string)
    requires EmailPattern(s)
    ensures EmailMatches(s)
  {
    var i :| 0 < i < |s| && s[i] == '@' && AllLocalChars(s[..i]) && DomainPattern(s[i + 1..]);
    var local, domain := s[..i], s[i + 1..];
    PatternImpliesDomainMatches(domain);
    EmailFromParts(local, domain);
    CutAt(s, i);
  }

  lemma EmailFromParts(local: string, domain: string)
    requires local != [] && AllLocalChars(local) && DomainMatches(domain)
    ensures EmailMatches(local + ['@'] + domain)
  {
    LocalCharsHaveNoAt(local);
    DomainHasNoAt(domain);
    SplitAtSeparator(local, domain, '@');
    SplitNoSeparator(domain, '@');
  }

  lemma EmailMatchesImpliesPattern(s: string)
    requires EmailMatches(s)
    ensures EmailPattern(s)
  {
    var parts := Split(s, '@');
    SplitFirst(s, '@');
    assert parts[1..] == [parts[1]];
    var i := |parts[0]|;
    assert s[..i] == parts[0] && s[i] == '@' && s[i + 1..] == parts[1] by {
      assert s == parts[0] + ['@'] + parts[1];
    }
    DomainMatchesImpliesPattern(parts[1]);
  }

  /** The validator's email check accepts exactly the strings the pattern
      `^[\w-\.]+@([\w-]+\.)+[\w-]{2,4}$` matches. */
  lemma EmailMatchesIffPattern(s: string)
    ensures EmailMatches(s) <==> EmailPattern(s)
  {
    if EmailPattern(s) {
      EmailPatternImpliesMatches(s);
    }
    if EmailMatches(s) {
      EmailMatchesImpliesPattern(s);
    }
  }

  lemma DomainHasNoAt(d: string)
    requires DomainMatches(d)
    ensures '@' !in d
  {
    var labels := Split(d, '.');
    JoinSplit(d, '.');
    forall i | 0 <= i < |labels|
      ensures '@' !in labels[i]
    {
      LabelCharsHaveNoDotOrAt(labels[i]);
    }
    JoinKeepsOut(labels, '.', '@');
  }

  lemma {:induction false} JoinKeepsOut(parts: seq<string>, sep: char, c: char)
    requires |parts| >= 1 && c != sep
    requires forall i :: 0 <= i < |parts| ==> c !in parts[i]
    ensures c !in Join(parts, sep)
    decreases |parts|
  {
    if |parts| > 1 {
      JoinKeepsOut(parts[1..], sep, c);
    }
  }

  // ---------------------------------------------------------------------
  // The social link patterns.

  /** `https?://` followed by `host` and then a path the predicate accepts. */
  predicate UrlWith(s: string, host: string, path: string -> bool) {
    || (StartsWith(s, "http://" + host) && path(s[|"http://" + host|..]))
    || (StartsWith(s, "https://" + host) && path(s[|"https://" + host|..]))
  }

  /** `.` in a pattern: any code point except a line terminator. */
  predicate IsLineTerminator(c: char) {
    c == '\n' || c == '\r' || c == '\U{2028}' || c == '\U{2029}'
  }

  /** `.+` */
  predicate AnyLine(p: string) {
    p != [] && forall i :: 0 <= i < |p| ==> !IsLineTerminator(p[i])
  }

  /** `[A-Za-z0-9_.]+` */
  predicate InstagramHandle(p: string) {
    p != [] && forall i :: 0 <= i < |p| ==> IsWordChar(p[i]) || p[i] == '.'
  }

  /** `[A-Za-z0-9_]+` */
  predicate XHandle(p: string) {
    p != [] && forall i :: 0 <= i < |p| ==> IsWordChar(p[i])
  }

  /** `^https?:\/\/(www\.)?linkedin\.com\/.+$` */
  predicate LinkedInUrl(s: string) {
    UrlWith(s, "www.linkedin.com/", AnyLine) || UrlWith(s, "linkedin.com/", AnyLine)
  }

  /** `^https?:\/\/(www\.)?instagram\.com\/[A-Za-z0-9_.]+$` */
  predicate InstagramUrl(s: string) {
    UrlWith(s, "www.instagram.com/", InstagramHandle) || UrlWith(s, "instagram.com/", InstagramHandle)
  }

  /** `^https?:\/\/(twitter\.com|x\.com)\/[A-Za-z0-9_]+$` */
  predicate XUrl(s: string) {
    UrlWith(s, "twitter.com/", XHandle) || UrlWith(s, "x.com/", XHandle)
  }

  // ---------------------------------------------------------------------
  // The collection.

  /** The unique index on `email`. */
  predicate EmailsUnique(docs: map<UserId, User>) {
    forall a, b :: a in docs && b in docs && docs[a].email == docs[b].email ==> a == b
  }

  /** No user other than `except` holds `email`. */
  predicate EmailFree(docs: map<UserId, User>, email: string, except: UserId) {
    forall id :: id in docs && id != except ==> docs[id].email != email
  }

  /** What every save checks, held by every stored user, plus the unique
      email index. */
  predicate StoreValid(docs: map<UserId, User>) {
    && (forall id {:trigger ValidUser(docs[id])} :: id in docs ==> ValidUser(docs[id]) && Normalised(docs[id]))
    && EmailsUnique(docs)
  }

  /** A stored user passed the validators and holds setter output. */
  lemma StoredUserValid(docs: map<UserId, User>, id: UserId)
    requires StoreValid(docs) && id in docs
    ensures ValidUser(docs[id]) && Normalised(docs[id])
  {
    assert ValidUser(docs[id]);
  }

  /** Under the unique index a stored user's own email is free for it. */
  lemma StoredEmailFree(docs: map<UserId, User>, id: UserId)
    requires StoreValid(docs) && id in docs
    ensures EmailFree(docs, docs[id].email, id)
  {
    assert EmailsUnique(docs);
    forall k | k in docs && k != id
      ensures docs[k].email != docs[id].email
    {
      assert docs[k].email == docs[id].email ==> k == id;
    }
  }

  /** Writing a user that passes the validators and whose email is free
      keeps the collection valid. */
  lemma StoreKeepsValid(docs: map<UserId, User>, id: UserId, u: User)
    requires StoreValid(docs) && ValidUser(u) && Normalised(u) && EmailFree(docs, u.email, id)
    ensures StoreValid(docs[id := u])
  {
    var docs' := docs[id := u];
    forall k | k in docs'
      ensures ValidUser(docs'[k]) && Normalised(docs'[k])
    {
      if k != id {
        assert docs'[k] == docs[k];
      }
    }
    KeepsEmailsUnique(docs, id, u);
  }

  lemma KeepsEmailsUnique(docs: map<UserId, User>, id: UserId, u: User)
    requires EmailsUnique(docs) && EmailFree(docs, u.email, id)
    ensures EmailsUnique(docs[id := u])
  {
    var docs' := docs[id := u];
    forall a, b | a in docs' && b in docs' && docs'[a].email == docs'[b].email
      ensures a == b
    {
      if a != id && b != id {
        assert docs'[a] == docs[a] && docs'[b] == docs[b];
      }
    }
  }

  /** A user document loaded into memory; handlers assign its fields and
      save it back. */
  class UserDocument {
    const id: UserId
    var name: string
    var email: string
    var password: string
    var bio: Option<string>
    var socials: Socials
    var lastLogin: Option<Date>

    function Record(): User
      reads this
    {
      User(name, email, password, bio, socials, lastLogin)
    }

    constructor (id: UserId, u: User)
      ensures this.id == id && Record() == u
    {
      this.id := id;
      name := u.name;
      email := u.email;
      password := u.password;
      bio := u.bio;
      socials := u.socials;
      lastLogin := u.lastLogin;
    }
  }

  /** The `users` collection. */
  class UserCollection {
    var docs: map<UserId, User>

    /** Every stored user passed validation, holds setter output, and no
        two share an email. */
    ghost predicate Valid()
      reads this
    {
      StoreValid(docs)
    }

    constructor ()
      ensures Valid() && docs == map[]
    {
      docs := map[];
    }

    /** `User.findById(id)`. */
    method FindById(id: UserId) returns (doc: UserDocument?)
      ensures doc == null <==> id !in docs
      ensures doc != null ==> fresh(doc) && doc.id == id && doc.Record() == docs[id]
    {
      if id in docs {
        doc := new UserDocument(id, docs[id]);
      } else {
        doc := null;
      }
    }

    /** `User.findOne({ email })`: the filter value goes through the email
        setters before it is compared. */
    method FindOne(email: string) returns (doc: UserDocument?)
      ensures doc == null <==> forall id :: id in docs ==> docs[id].email != EmailSetter(email)
      ensures doc != null ==> fresh(doc) && doc.id in docs && docs[doc.id].email == EmailSetter(email)
      ensures doc != null ==> doc.Record() == docs[doc.id]
    {
      var key := EmailSetter(email);
      if exists id :: id in docs && docs[id].email == key {
        var id :| id in docs && docs[id].email == key;
        doc := new UserDocument(id, docs[id]);
      } else {
        doc := null;
      }
    }

    /** `doc.save()`: the validators, then the unique email index, then
        the write. A failure throws, and the collection is unchanged. */
    method Save(doc: UserDocument) returns (ok: bool)
      requires Valid() && Normalised(doc.Record())
      modifies this
      ensures Valid()
      ensures ok <==> ValidUser(doc.Record()) && EmailFree(old(docs), doc.email, doc.id)
      ensures docs == if ok then old(docs)[doc.id := doc.Record()] else old(docs)
    {
      ok := ValidUser(doc.Record()) && EmailFree(docs, doc.email, doc.id);
      if ok {
        StoreKeepsValid(docs, doc.id, doc.Record());
        docs := docs[doc.id := doc.Record()];
      }
    }
  }
}
