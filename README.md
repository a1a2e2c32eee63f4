# Blog App backend: handlers, authorization gate and schemas in Dafny

This project models the request handlers of the Blog App backend, an Express and
Mongoose JSON API, together with the schema rules that gate every write.

- **Blogs.** Creating, editing and deleting a blog, where only the author may
  edit or delete it. Liking and disliking, a three-state machine per user and
  blog. Commenting, which is append-only. Listing blogs with their like,
  dislike and comment counts.
- **The `protect` gate.** It takes the token from the `jwt` cookie first and
  falls back to a `Bearer` header. It reads the user id from the first truthy
  claim among `id`, `userId` and `sub`, then loads that user without the
  password hash.
- **Identity lifecycle.** Registration, login, logout, and reading and
  partially updating a profile.
- **Field rules.** The rules Mongoose enforces on every save:
  - required fields and length bounds;
  - the `trim` and `lowercase` setters;
  - the email and social-link regular expressions;
  - the unique email index.

Collections are classes over a `map` from id to record. A blog collection
also keeps its creation order, which is newest-first when read backwards. A
loaded document is a fresh object whose fields the handler assigns before it
calls `Save`. Each `Save` runs the validators and leaves the collection
unchanged when they refuse. Every collection method keeps the collection
invariant:
- every stored record passed the validators;
- user records hold setter output;
- user emails are unique;
- the blog order lists each stored id exactly once.

Most handlers answer with a `Response`: `Ok` is a 200, `Created` a 201,
and `Fail` carries a `Failure`, one per error status (400, 401, 403, 404,
500). The two listing handlers return their reply directly: `getAllBlogs`
its list of blogs with counts, and `getMyBlogs` a `MyBlogs`, the "no blogs"
message or the caller's blogs.

Some collaborators are parameters of the handlers rather than code in the model:
- bcrypt is `Hasher`, a `hash(password, salt)` and `compare(password, hash)` pair;
- `jwt.verify` is `verify`, a partial function from a token to its claims;
- `jwt.sign` is `sign`;
- `sanitize-html` is `sanitize`;
- the text search is `matches`;
- the clock is `now`;
- the id a new document receives is `newId`.

Behaviour of the code worth knowing, which the model keeps:
- An invalid comment (missing, blank after trimming, or longer than 300
  characters) makes the save throw, and the catch answers 500, not 400.
- `getBlogById` answers 500 for every blog that exists, because it calls `.map`
  on a single document.
- For a caller with no blogs, `getMyBlogs` sends the "no blogs" message first.
  Its second send throws after the reply has gone out.
- A comment whose text is blank after trimming is refused by `required`.
  A profile name of spaces only is refused in the same way.
- `minlength: 8` on `password` applies to the stored value, which `register`
  makes the bcrypt hash. So the plaintext password's length is never checked.

## Model

| member | source | states |
|---|---|---|
| Text.TrimSplitsOffSpace | backend/src/models/user.model.js:7 | the `trim` setter's output is trimmed and is the input with only white space cut off at each end |
| Text.TrimOfPadded | backend/src/models/blog.model.js:7 | trimming white space, a trimmed middle m and white space gives exactly m, so a value of spaces only becomes "" |
| Text.TrimIdempotent | backend/src/models/blog.model.js:7 | `trim` leaves a trimmed string as it is |
| Text.Lower | backend/src/models/user.model.js:15 | `lowercase` keeps the length and lowers each ASCII capital in place |
| Text.LowerKeepsTrimmed | backend/src/models/user.model.js:14-15 | lowering keeps a trimmed string trimmed and is idempotent |
| JsValues.Truthy | backend/src/middleware/authMiddleware.js:26 | JavaScript truthiness of a string field that may be missing: `undefined`, `null` and `""` are falsy |
| JsValues.Or | backend/src/middleware/authMiddleware.js:26 | `a \|\| b` on optional strings: `a` when truthy, otherwise `b` |
| JsValues.Coalesce | backend/src/controller/user.controller.js:26-27 | `req.body.x \|\| user.x`: the sent value when truthy, otherwise the stored one |
| Text.IsSpace | backend/src/models/blog.model.js:7 | the code points `trim` removes: ECMAScript WhiteSpace and LineTerminator |
| Text.StartsWith | backend/src/middleware/authMiddleware.js:14 | `String.prototype.startsWith`: the string begins with the prefix |
| Text.Trim | backend/src/models/blog.model.js:7 | `String.prototype.trim`: white space cut off at both ends; what it yields is stated by `TrimSplitsOffSpace` and `TrimOfPadded` |
| Text.Split | backend/src/middleware/authMiddleware.js:15 | `split(" ")` gives at least one piece and no piece holds the separator |
| Text.JoinSplit | backend/src/middleware/authMiddleware.js:15 | joining the pieces of a split with the separator gives back the string |
| Text.SplitJoin | backend/src/middleware/authMiddleware.js:15 | splitting a join of separator-free pieces gives back the pieces |
| Text.SplitAtSeparator | backend/src/middleware/authMiddleware.js:15 | a separator-free prefix followed by the separator splits off as the first piece |
| Lists.Without | backend/src/controller/blog.controller.js:184-186 | `filter` out one id: it occurs nowhere afterwards, every other id keeps its count, and a list without it is unchanged |
| Lists.WithoutAppend | backend/src/controller/blog.controller.js:190-194 | filtering distributes over a push |
| Lists.WithoutKeepsNoDup | backend/src/controller/blog.controller.js:184-186 | filtering keeps a duplicate-free list duplicate-free |
| Lists.AppendFreshKeepsNoDup | backend/src/controller/blog.controller.js:194 | pushing an id the list lacks keeps it duplicate-free |
| BlogModel.ValidComment | backend/src/models/blog.model.js:33-43 | a comment's `text` is required (non-empty after the `trim` setter) and at most 300 characters; the `user` reference is always set |
| BlogModel.ValidBlog | backend/src/models/blog.model.js:4-43 | title required and at most 150 characters, content required, every comment valid; `author: required` always passes, since every handler writes the author it was created with |
| BlogModel.PushCommentValid | backend/src/models/blog.model.js:31-43 | a blog that passed the validators still passes them after a push exactly when the pushed comment is valid |
| BlogModel.VirtualCount | backend/src/models/blog.model.js:55-65 | a count virtual is the array's length, or 0 when the path is absent |
| BlogModel.LikeCount | backend/src/models/blog.model.js:55-57 | `likeCount` of a stored blog is the length of its like list |
| BlogModel.DislikeCount | backend/src/models/blog.model.js:59-61 | `dislikeCount` of a stored blog is the length of its dislike list |
| BlogModel.CommentCount | backend/src/models/blog.model.js:63-65 | `commentCount` of a stored blog is the length of its comment list |
| BlogModel.BlogCollection.FindById | backend/src/controller/blog.controller.js:125 | null exactly for an unknown id; otherwise a fresh document holding the stored blog |
| BlogModel.BlogCollection.Create | backend/src/controller/blog.controller.js:106-110 | the insert happens exactly when the blog passes the schema validators, and appends its id to the creation order |
| BlogModel.BlogCollection.Save | backend/src/controller/blog.controller.js:197 | the write happens exactly when the document passes the validators; otherwise nothing changes |
| BlogModel.BlogCollection.DeleteOne | backend/src/controller/blog.controller.js:168 | the blog is gone from the map and from the order, and the invariant holds |
| Reactions.Like | backend/src/controller/blog.controller.js:184-195 | after a like the user is off the dislike list, on the like list exactly when they were not on it before, and no other field changes |
| Reactions.Dislike | backend/src/controller/blog.controller.js:213-224 | the mirror image of `Like` |
| Reactions.LikeTransition | backend/src/controller/blog.controller.js:184-195 | Liked goes to Neutral, and Neutral or Disliked goes to Liked |
| Reactions.DislikeTransition | backend/src/controller/blog.controller.js:213-224 | Disliked goes to Neutral, and Neutral or Liked goes to Disliked |
| Reactions.ReactionsLeaveOthers | backend/src/controller/blog.controller.js:184-224 | neither operation changes how often any other user occurs in either list |
| Reactions.ToggleKeepsExclusive | backend/src/controller/blog.controller.js:184-195 | filter-then-toggle keeps both lists duplicate-free and disjoint |
| Reactions.LikeKeepsExclusive | backend/src/controller/blog.controller.js:184-195 | a like keeps likes and dislikes duplicate-free and disjoint |
| Reactions.DislikeKeepsExclusive | backend/src/controller/blog.controller.js:213-224 | a dislike keeps likes and dislikes duplicate-free and disjoint |
| Reactions.ReactionsKeepStoreExclusive | backend/src/controller/blog.controller.js:184-224 | writing back a liked or disliked blog keeps every stored blog's lists duplicate-free and disjoint |
| Reactions.LikeTwiceFromNeutral | backend/src/controller/blog.controller.js:189-195 | from Neutral, two likes restore the blog exactly |
| Reactions.DislikeTwiceFromNeutral | backend/src/controller/blog.controller.js:218-224 | from Neutral, two dislikes restore the blog exactly |
| Reactions.LikeThenDislike | backend/src/controller/blog.controller.js:184-224 | a like then a dislike leaves the user Disliked and off the like list, and the reverse leaves them Liked |
| BlogController.CreateBlog | backend/src/controller/blog.controller.js:89-118 | 400 and no write for a falsy title or content; otherwise the blog has the trimmed title, the sanitised content, the caller as author and empty lists; it is created when valid, otherwise 500 and no write |
| BlogController.Edited | backend/src/controller/blog.controller.js:134-148 | a truthy title replaces the title (trimmed) and truthy content the content (sanitised); author, likes, dislikes and comments are kept |
| BlogController.UpdateBlog | backend/src/controller/blog.controller.js:123-156 | 404 for a missing blog; 403 with nothing written for a non-author; otherwise the edited blog is saved and returned, or 500 with nothing written when the validators refuse it |
| BlogController.DeleteBlog | backend/src/controller/blog.controller.js:159-174 | 404 for a missing blog; 403 with nothing removed for a non-author; otherwise exactly that blog is removed |
| BlogController.LikeBlog | backend/src/controller/blog.controller.js:177-202 | 404 for a missing blog; otherwise the stored blog becomes `Like(b, me)`, and the reply is the new length of its like list |
| BlogController.DislikeBlog | backend/src/controller/blog.controller.js:206-231 | 404 for a missing blog; otherwise the stored blog becomes `Dislike(b, me)`, and the reply is the new length of its dislike list |
| BlogController.AddComment | backend/src/controller/blog.controller.js:235-253 | 404 for a missing blog; 500 with nothing written when the text is missing or invalid after trimming; otherwise exactly one comment `{me, trimmed text}` is appended, and the earlier comments are kept |
| BlogController.PushComment | backend/src/controller/blog.controller.js:241-247 | the push and save succeed exactly when the comment is valid, and then only that blog's comment list grows |
| BlogController.IsAuthor | backend/src/controller/blog.controller.js:130 | the ownership check: the blog's author is the caller (the same check guards deletion at line 164) |
| BlogController.SearchFilter | backend/src/controller/blog.controller.js:12-13 | with a truthy search term only the blogs the `$text` search matches are kept; otherwise every blog |
| BlogController.Kept | backend/src/controller/blog.controller.js:13-15 | a filter over a list of ids in order: an id is kept exactly when it is in the list and its blog passes |
| BlogController.NewestFirst | backend/src/controller/blog.controller.js:13-15 | the listed ids are exactly the stored ids the filter keeps |
| BlogController.NewestFirstIsReversedOrder | backend/src/controller/blog.controller.js:13-15 | the listed ids are the creation order read backwards, newest first, with the blogs the filter drops taken out |
| BlogController.NewestFirstOnce | backend/src/controller/blog.controller.js:28-31 | with every stored blog once in the creation order, no blog is listed twice |
| BlogController.GetAllBlogs | backend/src/controller/blog.controller.js:7-47 | every listed blog is stored, and its three counts equal the lengths of its lists and the virtuals; a blog is listed exactly when there is no truthy search term or it matches the term |
| BlogController.GetAllBlogsNewestFirst | backend/src/controller/blog.controller.js:12-38 | with or without a search term, the listing is the kept blogs newest first, each once |
| BlogController.GetMyBlogs | backend/src/controller/blog.controller.js:73-86 | the "no blogs" reply exactly when the caller authored none; otherwise the list holds only the caller's blogs and all of them |
| BlogController.AuthoredBy | backend/src/controller/blog.controller.js:75 | the `{ author: req.user._id }` filter keeps exactly the caller's blogs |
| BlogController.BlogsAt | backend/src/controller/blog.controller.js:75 | the documents `find` returns for a list of ids: the stored blog of each id, in the same order |
| BlogController.GetMyBlogsNewestFirst | backend/src/controller/blog.controller.js:75-86 | the caller's blogs are exactly the stored blogs of the reversed creation order whose author is the caller, newest first, each once; the "no blogs" reply exactly when there are none |
| BlogController.GetBlogById | backend/src/controller/blog.controller.js:50-70 | 404 exactly for an unknown id, and 500 for every known one |
| AuthMiddleware.SelectToken | backend/src/middleware/authMiddleware.js:6-16 | a truthy cookie wins; otherwise the header is used only when it starts with "Bearer", a header without a space gives no token, and a token taken from the header never holds a space |
| AuthMiddleware.BearerSelectsSecondWord | backend/src/middleware/authMiddleware.js:14-16 | with no truthy cookie, a "Bearer" header selects exactly its second space-separated word, whatever follows it |
| AuthMiddleware.ClaimedId | backend/src/middleware/authMiddleware.js:26 | the first truthy of `id`, `userId` and `sub`, and truthy exactly when one of them is |
| AuthMiddleware.Authenticate | backend/src/middleware/authMiddleware.js:4-43 | admits exactly when a truthy token verifies to a truthy id of a stored user, and then hands out the user that id names, minus the password; each 401 reason exactly in its case: no truthy token, a token that fails to verify, claims with no truthy id, an id of no stored user |
| AuthMiddleware.Protect | backend/src/middleware/authMiddleware.js:4-43 | the imperative gate decides as `Authenticate` does and sets `req.user` only on admission |
| AuthMiddleware.BearerHeaderSelectsToken | backend/src/middleware/authMiddleware.js:14-16 | `Bearer <token>` selects exactly the token when the token has no space |
| AuthMiddleware.HeaderLikeCookie | backend/src/middleware/authMiddleware.js:9-16 | a token sent in the header is decided as it would be in the cookie |
| AuthMiddleware.BearerWithoutSpace | backend/src/middleware/authMiddleware.js:14-20 | with no truthy cookie, a "Bearer" header with no space yields no token and a 401 "no token", whatever the verifier and the users |
| AuthMiddleware.SessionTokenAdmits | backend/src/middleware/authMiddleware.js:23-38 | a token that verifies to a stored user's id admits that user minus the password, whatever the header |
| UserModel.WithoutPassword | backend/src/controller/user.controller.js:5 | `select("-password")` keeps the id and loses only the password |
| UserModel.EmailSetter | backend/src/models/user.model.js:14-15 | the email path's setters: `trim`, then `lowercase` |
| UserModel.SetterOutputs | backend/src/models/user.model.js:4-17 | the name and email setters produce trimmed values, and the email setter a value without capitals |
| UserModel.SettersKeep | backend/src/models/user.model.js:4-17 | the setters leave values of that shape unchanged |
| UserModel.SettersIdempotent | backend/src/models/user.model.js:4-17 | running a setter twice is running it once |
| UserModel.LinkedInUrl | backend/src/models/user.model.js:32-35 | `http://` or `https://`, an optional `www.`, `linkedin.com/`, then one or more characters other than line terminators, to the end |
| UserModel.InstagramUrl | backend/src/models/user.model.js:39-42 | `http://` or `https://`, an optional `www.`, `instagram.com/`, then one or more letters, digits, `_` or `.`, to the end |
| UserModel.XUrl | backend/src/models/user.model.js:46-49 | `http://` or `https://`, `twitter.com/` or `x.com/`, then one or more letters, digits or `_`, to the end |
| UserModel.ValidUser | backend/src/models/user.model.js:4-55 | name required and at most 50 characters; email required and matching; password required and at least 8 characters; bio at most 200 characters; each social link missing, empty or matching its pattern |
| UserModel.EmailMatches | backend/src/models/user.model.js:16 | exactly one `@`, a non-empty local part of word characters, `-` and `.`, and a domain passing the domain check; equal to the regular expression by `EmailMatchesIffPattern` |
| UserModel.PatternImpliesDomainMatches | backend/src/models/user.model.js:16 | every domain the regular expression accepts passes the split-based check |
| UserModel.DomainMatchesImpliesPattern | backend/src/models/user.model.js:16 | every domain passing the split-based check is accepted by the regular expression |
| UserModel.DomainMatchesIffPattern | backend/src/models/user.model.js:16 | the domain check accepts exactly what `([\w-]+\.)+[\w-]{2,4}` accepts |
| UserModel.EmailPatternImpliesMatches | backend/src/models/user.model.js:16 | every email the regular expression accepts passes the check |
| UserModel.EmailMatchesImpliesPattern | backend/src/models/user.model.js:16 | every email passing the check is accepted by the regular expression |
| UserModel.EmailMatchesIffPattern | backend/src/models/user.model.js:16 | the validator's email check accepts exactly what `^[\w-\.]+@([\w-]+\.)+[\w-]{2,4}$` accepts |
| UserModel.EmailFromParts | backend/src/models/user.model.js:16 | a valid local part, `@` and a valid domain make a valid email |
| UserModel.StoreKeepsValid | backend/src/models/user.model.js:10-17 | writing a valid, normalised user whose email is free keeps every stored user valid and the emails unique |
| UserModel.KeepsEmailsUnique | backend/src/models/user.model.js:13 | the unique index survives writing an email no other user holds |
| UserModel.StoredEmailFree | backend/src/models/user.model.js:13 | under the unique index no other user holds a stored user's email |
| UserModel.UserCollection.FindById | backend/src/controller/user.controller.js:19 | null exactly for an unknown id; otherwise a fresh document holding the stored user |
| UserModel.UserCollection.FindOne | backend/src/controller/auth.controller.js:136 | finds a user whose email equals the filter after the email setters, and null exactly when none does |
| UserModel.UserCollection.Save | backend/src/controller/user.controller.js:31 | the write happens exactly when the validators pass and no other user holds the email; otherwise nothing changes |
| UserController.BioSetter | backend/src/models/user.model.js:24-28 | a sent bio goes through the `trim` setter; a missing one stays missing |
| UserController.ApplyProfilePatch | backend/src/controller/user.controller.js:26-29 | a truthy field replaces the stored one through its setter, a sent `socials` replaces the links, and password and lastLogin are kept |
| UserController.FalsyFieldsKept | backend/src/controller/user.controller.js:26-29 | a missing or empty field keeps the stored value, so "" never clears a field |
| UserController.EmptyPatchKeepsUser | backend/src/controller/user.controller.js:26-29 | a body with nothing truthy leaves the user exactly as it was |
| UserController.PatchKeepsNormalised | backend/src/controller/user.controller.js:26-31 | the update writes only setter output |
| UserController.BlankBioClearsBio | backend/src/controller/user.controller.js:28 | a bio of spaces only is truthy and is trimmed to "" |
| UserController.BlankNameRefused | backend/src/controller/user.controller.js:26 | a name of spaces only is trimmed to "" and fails `required` |
| UserController.GetUserProfile | backend/src/controller/user.controller.js:3-15 | 404 for a user that no longer exists; otherwise the caller's stored profile minus the password |
| UserController.GetUserById | backend/src/controller/user.controller.js:48-59 | 404 for an unknown id; for a stored id a 200 carrying exactly that user minus the password |
| UserController.UpdateUserProfile | backend/src/controller/user.controller.js:17-45 | 404 for a missing user; the patched user is saved and returned minus the password when valid with a free email; otherwise 500 and no write |
| AuthController.SessionCookie | backend/src/utils/generateToken.js:11-16 | the `jwt` cookie is httpOnly, holds the token and lives for 604800000 ms |
| AuthController.NewUser | backend/src/controller/auth.controller.js:141 | the created record holds the trimmed name, the trimmed and lowered email and the hash, with no bio, no links and lastLogin null |
| AuthController.UserWithEmail | backend/src/controller/auth.controller.js:169 | the user an email lookup finds; none exactly when no stored user has that email, and the only one under the unique index |
| AuthController.Register | backend/src/controller/auth.controller.js:130-160 | 400 and no write for a falsy field or a taken email; otherwise the user with the hashed password is stored with lastLogin now, and the reply is a 201 with id, name and email and the session cookie; a record the validators refuse is a 500 and no write |
| AuthController.CreateAndStamp | backend/src/controller/auth.controller.js:141-145 | the create fails exactly when the record is invalid; otherwise the stamped record is stored under the new id |
| AuthController.Login | backend/src/controller/auth.controller.js:163-192 | 400 for a falsy field or an unknown email; 401, no cookie and no write for a wrong password; otherwise only lastLogin changes, and the reply is the stored user minus the password with the session cookie |
| AuthController.StampAndReload | backend/src/controller/auth.controller.js:178-182 | the save after the lastLogin stamp cannot be refused, and the reload returns the stamped user minus the password |
| AuthController.Logout | backend/src/controller/auth.controller.js:195-207 | always 200, with the `jwt` cookie set to "" and an expiry at the epoch |
| AuthController.LogoutCookieRejected | backend/src/controller/auth.controller.js:198-201 | the cookie logout sets no longer authenticates |
| AuthController.RegisteredUserCanLogIn | backend/src/controller/auth.controller.js:136-173 | with a sound hasher, a stored hash of p is found by the same email and p passes the password check |
| AuthController.SessionCookieAdmits | backend/src/controller/auth.controller.js:175 | the session cookie of a login admits its user at the gate |
| AuthController.PasswordLengthUnchecked | backend/src/models/user.model.js:21 | once the hashes are long enough, validity of a new user does not depend on the password's length |

## Left out

- Express plumbing is not modelled: status-code serialisation, JSON reply shapes, messages, and `next()` as a call (admission is the `Admit` outcome).
- `populate` of authors and comment users is not modelled, since it changes only what is displayed.
- The `createdAt`/`updatedAt` timestamps are left out. Creation order stands in for sorting by `createdAt`.
- The comment `createdAt` default, evaluated once when the schema loads, is left out.
- The MongoDB text index and `$text` search are the parameter `matches`.
- The `console.error` logging in the catch blocks and in the gate is left out, since it changes no reply and no stored state.
- Concurrency is left out: interleaved read-modify-write requests on the same document.
- The second, un-awaited `blog.save()` in `createBlog` is left out. It writes the same record again.
- ObjectId casting is not modelled. A malformed id throws a cast error, so the handlers answer 500, or 401 "token failed" at the gate, where the model answers "not found". Ids are compared as strings.
- Non-string request values (numbers, arrays, objects in the title, content or claims) are left out. The fields are strings or missing.
- Unicode case mapping is left out. `lowercase` is modelled on ASCII letters only.
- `maxlength` is counted in code points, not UTF-16 code units.
- The bcrypt 72-byte input limit and the cost factor are left out. bcrypt, the salt and `genSalt` are parameters.
- Token expiry (`expiresIn`) is part of the `verify` parameter.
- The `secure` and `sameSite` cookie flags are left out, since they depend on the environment.
- The user virtuals `blogs`, `blogCount`, `likedBlogs`, `totalLikesReceived` and `totalCommentsReceived` are not modelled. No core handler reads them.
- The routes and `server.js` are wiring. The drafts commented out at the top of the auth controller are not part of this model.
