/** The blog request handlers. Each protected handler receives the caller's
    id (`req.user._id`, set by the authorization gate) as `me`; request body
    fields that may be missing are `Option`s; the HTML sanitiser is the
    parameter `sanitize`; the id a new blog receives is the parameter
    `newId`. */
module BlogController {
  import opened JsValues
  import opened Text
  import opened Lists
  import opened BlogModel
  import opened Reactions

  /** The ownership check `updateBlog` and `deleteBlog` both make. */
  predicate IsAuthor(me: UserId, b: Blog) {
    b.author == me
  }

  /** `createBlog`: both fields must be truthy; the content is sanitised,
      the title goes through the schema's trim setter, the author is the
      caller, and the lists start empty. The schema validators run on the
      insert; a failure is a 500. */
  method CreateBlog(
    blogs: BlogCollection, me: UserId, title: Option<string>, content: Option<string>,
    sanitize: string -> string, newId: BlogId)
    returns (r: Response<Blog>)
    requires blogs.Valid() && newId !in blogs.docs
    modifies blogs
    ensures blogs.Valid()
    ensures !Truthy(title) || !Truthy(content) ==>
      r == Fail(BadRequest) && blogs.docs == old(blogs.docs) && blogs.order == old(blogs.order)
    ensures Truthy(title) && Truthy(content) ==>
      var b := Blog(Trim(title.value), sanitize(content.value), me, [], [], []);
      if ValidBlog(b) then
        r == Created(b) && blogs.docs == old(blogs.docs)[newId := b] && blogs.order == old(blogs.order) + [newId]
      else
        r == Fail(ServerError) && blogs.docs == old(blogs.docs) && blogs.order == old(blogs.order)
  {
    if !Truthy(title) || !Truthy(content) {
      return Fail(BadRequest);
    }
    var sanitized := sanitize(content.value);
    var blog := Blog(Trim(title.value), sanitized, me, [], [], []);
    var created := blogs.Create(newId, blog);
    if !created {
      return Fail(ServerError);
    }
    return Created(blog);
  }

  /** The blog after `updateBlog`'s assignments: a truthy title replaces
      the title (through the trim setter), truthy content replaces the
      content (sanitised); author, likes, dislikes and comments are kept. */
  function Edited(b: Blog, title: Option<string>, content: Option<string>, sanitize: string -> string): (b': Blog)
    ensures b'.author == b.author && b'.likes == b.likes && b'.dislikes == b.dislikes && b'.comments == b.comments
    ensures b'.title == if Truthy(title) then Trim(title.value) else b.title
    ensures b'.content == if Truthy(content) then sanitize(content.value) else b.content
  {
    var b1 := if Truthy(title) then b.(title := Trim(title.value)) else b;
    if Truthy(content) then b1.(content := sanitize(content.value)) else b1
  }

  /** `updateBlog`: 404 for a missing blog, 403 for a caller who is not the
      author; otherwise the edited blog is saved, and one the validators
      refuse is a 500 with nothing written. */
  method UpdateBlog(
    blogs: BlogCollection, me: UserId, id: BlogId, title: Option<string>, content: Option<string>,
    sanitize: string -> string)
    returns (r: Response<Blog>)
    requires blogs.Valid()
    modifies blogs
    ensures blogs.Valid() && blogs.order == old(blogs.order)
    ensures id !in old(blogs.docs) ==> r == Fail(NotFound) && blogs.docs == old(blogs.docs)
    ensures id in old(blogs.docs) && !IsAuthor(me, old(blogs.docs[id])) ==>
      r == Fail(Forbidden) && blogs.docs == old(blogs.docs)
    ensures id in old(blogs.docs) && IsAuthor(me, old(blogs.docs[id])) ==>
      var b' := Edited(old(blogs.docs[id]), title, content, sanitize);
      if ValidBlog(b') then r == Ok(b') && blogs.docs == old(blogs.docs)[id := b']
      else r == Fail(ServerError) && blogs.docs == old(blogs.docs)
  {
    var blog := blogs.FindById(id);
    if blog == null {
      return Fail(NotFound);
    }
    if blog.author != me {
      return Fail(Forbidden);
    }
    ghost var stored := blog.Record();
    if Truthy(title) {
      blog.title := Trim(title.value);
    }
    if Truthy(content) {
      blog.content := sanitize(content.value);
    }
    assert blog.Record() == Edited(stored, title, content, sanitize);
    var saved := blogs.Save(blog);
    if !saved {
      return Fail(ServerError);
    }
    return Ok(blog.Record());
  }

  /** `deleteBlog`: 404 for a missing blog, 403 for a caller who is not the
      author, otherwise the blog is removed. */
  method DeleteBlog(blogs: BlogCollection, me: UserId, id: BlogId) returns (r: Response<()>)
    requires blogs.Valid()
    modifies blogs
    ensures blogs.Valid()
    ensures id !in old(blogs.docs) ==>
      r == Fail(NotFound) && blogs.docs == old(blogs.docs) && blogs.order == old(blogs.order)
    ensures id in old(blogs.docs) && !IsAuthor(me, old(blogs.docs[id])) ==>
      r == Fail(Forbidden) && blogs.docs == old(blogs.docs) && blogs.order == old(blogs.order)
    ensures id in old(blogs.docs) && IsAuthor(me, old(blogs.docs[id])) ==>
      r == Ok(()) && blogs.docs == old(blogs.docs) - {id} && blogs.order == Without(old(blogs.order), id)
  {
    var blog := blogs.FindById(id);
    if blog == null {
      return Fail(NotFound);
    }
    if blog.author != me {
      return Fail(Forbidden);
    }
    blogs.DeleteOne(id);
    return Ok(());
  }

  /** `likeBlog`: 404 for a missing blog; otherwise the stored blog becomes
      `Like(b, me)` and the reply is the new length of the like list. */
  method LikeBlog(blogs: BlogCollection, me: UserId, id: BlogId) returns (r: Response<nat>)
    requires blogs.Valid()
    modifies blogs
    ensures blogs.Valid() && blogs.order == old(blogs.order)
    ensures id !in old(blogs.docs) ==> r == Fail(NotFound) && blogs.docs == old(blogs.docs)
    ensures id in old(blogs.docs) ==>
      var b' := Like(old(blogs.docs[id]), me);
      blogs.docs == old(blogs.docs)[id := b'] && r == Ok(|b'.likes|)
  {
    var blog := blogs.FindById(id);
    if blog == null {
      return Fail(NotFound);
    }
    StoredBlogValid(blogs.docs, blogs.order, id);
    blog.dislikes := Without(blog.dislikes, me);
    if me in blog.likes {
      blog.likes := Without(blog.likes, me);
    } else {
      blog.likes := blog.likes + [me];
    }
    var saved := blogs.Save(blog);
    if !saved {
      return Fail(ServerError);
    }
    return Ok(|blog.likes|);
  }

  /** `dislikeBlog`: 404 for a missing blog; otherwise the stored blog
      becomes `Dislike(b, me)` and the reply is the new length of the
      dislike list. */
  method DislikeBlog(blogs: BlogCollection, me: UserId, id: BlogId) returns (r: Response<nat>)
    requires blogs.Valid()
    modifies blogs
    ensures blogs.Valid() && blogs.order == old(blogs.order)
    ensures id !in old(blogs.docs) ==> r == Fail(NotFound) && blogs.docs == old(blogs.docs)
    ensures id in old(blogs.docs) ==>
      var b' := Dislike(old(blogs.docs[id]), me);
      blogs.docs == old(blogs.docs)[id := b'] && r == Ok(|b'.dislikes|)
  {
    var blog := blogs.FindById(id);
    if blog == null {
      return Fail(NotFound);
    }
    StoredBlogValid(blogs.docs, blogs.order, id);
    blog.likes := Without(blog.likes, me);
    if me in blog.dislikes {
      blog.dislikes := Without(blog.dislikes, me);
    } else {
      blog.dislikes := blog.dislikes + [me];
    }
    var saved := blogs.Save(blog);
    if !saved {
      return Fail(ServerError);
    }
    return Ok(|blog.dislikes|);
  }

  /** `addComment`: 404 for a missing blog; otherwise `{user: me, text}` is
      pushed at the end of the comments (the subdocument setter trims the
      text) and the blog saved. A missing, blank or over-long text fails the
      comment validators on save: 500, blog unchanged. */
  method AddComment(blogs: BlogCollection, me: UserId, id: BlogId, text: Option<string>)
    returns (r: Response<seq<Comment>>)
    requires blogs.Valid()
    modifies blogs
    ensures blogs.Valid() && blogs.order == old(blogs.order)
    ensures id !in old(blogs.docs) ==> r == Fail(NotFound) && blogs.docs == old(blogs.docs)
    ensures id in old(blogs.docs) && (text.None? || !ValidComment(Comment(me, Trim(text.value)))) ==>
      r == Fail(ServerError) && blogs.docs == old(blogs.docs)
    ensures id in old(blogs.docs) && text.Some? && ValidComment(Comment(me, Trim(text.value))) ==>
      var b := old(blogs.docs[id]);
      var comments := b.comments + [Comment(me, Trim(text.value))];
      blogs.docs == old(blogs.docs)[id := b.(comments := comments)] && r == Ok(comments)
  {
    var blog := blogs.FindById(id);
    if blog == null {
      return Fail(NotFound);
    }
    if text.None? {
      // `text: undefined` fails the required validator when the blog is saved.
      return Fail(ServerError);
    }
    var comment := Comment(me, Trim(text.value));
    var saved := PushComment(blogs, blog, comment);
    if !saved {
      return Fail(ServerError);
    }
    return Ok(blog.comments);
  }

  /** The write of `addComment`: the comment pushed onto the loaded blog
      and the blog saved, which the validators allow exactly when the new
      comment is valid. */
  method PushComment(blogs: BlogCollection, blog: BlogDocument, comment: Comment) returns (saved: bool)
    requires blogs.Valid() && blog.id in blogs.docs && blog.Record() == blogs.docs[blog.id]
    modifies blogs, blog
    ensures blogs.Valid() && blogs.order == old(blogs.order)
    ensures saved == ValidComment(comment)
    ensures blog.comments == old(blog.comments) + [comment]
    ensures blog.Record() == old(blog.Record()).(comments := blog.comments)
    ensures blogs.docs ==
      if saved then old(blogs.docs)[blog.id := old(blog.Record()).(comments := blog.comments)]
      else old(blogs.docs)
  {
    StoredBlogValid(blogs.docs, blogs.order, blog.id);
    PushCommentValid(blog.Record(), comment);
    blog.comments := blog.comments + [comment];
    saved := blogs.Save(blog);
  }

  /** A blog as `getAllBlogs` lists it: the stored blog with its three
      counts. */
  datatype Listed = Listed(id: BlogId, blog: Blog, likesCount: nat, dislikesCount: nat, commentsCount: nat)

  /** The ids of the blogs `keep` selects, newest first. */
  function NewestFirst(docs: map<BlogId, Blog>, order: seq<BlogId>, keep: Blog -> bool): (ids: seq<BlogId>)
    requires forall id :: id in order ==> id in docs
    ensures forall id :: id in ids <==> id in order && keep(docs[id])
    decreases |order|
  {
    if order == [] then []
    else
      var last := order[|order| - 1];
      var rest := NewestFirst(docs, order[..|order| - 1], keep);
      assert forall id :: id in order <==> id == last || id in order[..|order| - 1] by {
        assert order == order[..|order| - 1] + [last];
      }
      if keep(docs[last]) then [last] + rest else rest
  }

  /** The ids of `ids`, in their order, whose blog `keep` selects. */
  function Kept(ids: seq<BlogId>, docs: map<BlogId, Blog>, keep: Blog -> bool): (kept: seq<BlogId>)
    requires forall id :: id in ids ==> id in docs
    ensures forall id :: id in kept <==> id in ids && keep(docs[id])
  {
    if ids == [] then []
    else if keep(docs[ids[0]]) then [ids[0]] + Kept(ids[1..], docs, keep)
    else Kept(ids[1..], docs, keep)
  }

  /** `NewestFirst` is the creation order read backwards with the blogs
      `keep` drops taken out. */
  lemma {:induction false} NewestFirstIsReversedOrder(docs: map<BlogId, Blog>, order: seq<BlogId>, keep: Blog -> bool)
    requires forall id :: id in order ==> id in docs
    ensures NewestFirst(docs, order, keep) == Kept(Reversed(order), docs, keep)
    decreases |order|
  {
    if order != [] {
      var pre, last := order[..|order| - 1], order[|order| - 1];
      NewestFirstIsReversedOrder(docs, pre, keep);
      var r := Reversed(order);
      assert r == [last] + Reversed(pre);
      assert r[0] == last && r[1..] == Reversed(pre);
    }
  }

  /** With every blog once in the creation order, every listed blog is
      listed once. */
  lemma {:induction false} NewestFirstOnce(docs: map<BlogId, Blog>, order: seq<BlogId>, keep: Blog -> bool)
    requires forall id :: id in order ==> id in docs
    requires NoDup(order)
    ensures NoDup(NewestFirst(docs, order, keep))
    decreases |order|
  {
    if order != [] {
      var pre, last := order[..|order| - 1], order[|order| - 1];
      assert NoDup(pre) by {
        forall i, j | 0 <= i < j < |pre|
          ensures pre[i] != pre[j]
        {
          assert pre[i] == order[i] && pre[j] == order[j];
        }
      }
      assert last !in pre by {
        forall i | 0 <= i < |pre|
          ensures pre[i] != last
        {
          assert pre[i] == order[i];
        }
      }
      NewestFirstOnce(docs, pre, keep);
      var rest := NewestFirst(docs, pre, keep);
      if keep(docs[last]) {
        assert last !in rest;
        var ids := [last] + rest;
        forall i, j | 0 <= i < j < |ids|
          ensures ids[i] != ids[j]
        {
          assert ids[j] == rest[j - 1] && rest[j - 1] in rest;
          if i > 0 {
            assert ids[i] == rest[i - 1];
          }
        }
      }
    }
  }

  /** The blogs `getAllBlogs` keeps: all of them, or with a truthy search
      term those the full-text search `matches`. */
  function SearchFilter(search: Option<string>, matches: (string, Blog) -> bool): Blog -> bool {
    if Truthy(search) then (b: Blog) => matches(search.value, b) else (b: Blog) => true
  }

  /** `getAllBlogs`: every blog, or with a truthy search term the blogs the
      full-text search `matches`, newest first, each with counts equal to
      the current lengths of its likes, dislikes and comments. */
  function GetAllBlogs(
    docs: map<BlogId, Blog>, order: seq<BlogId>, search: Option<string>,
    matches: (string, Blog) -> bool)
    : (r: seq<Listed>)
    requires forall id :: id in order ==> id in docs
    ensures forall i :: 0 <= i < |r| ==>
      && r[i].id in docs && r[i].blog == docs[r[i].id]
      && r[i].likesCount == |r[i].blog.likes| == LikeCount(r[i].blog)
      && r[i].dislikesCount == |r[i].blog.dislikes| == DislikeCount(r[i].blog)
      && r[i].commentsCount == |r[i].blog.comments| == CommentCount(r[i].blog)
    ensures forall id :: id in order ==>
      ((exists i :: 0 <= i < |r| && r[i].id == id) <==> !Truthy(search) || matches(search.value, docs[id]))
  {
    var ids := NewestFirst(docs, order, SearchFilter(search, matches));
    var r := seq(|ids|, i requires 0 <= i < |ids| =>
      var b := docs[ids[i]];
      Listed(ids[i], b, |b.likes|, |b.dislikes|, |b.comments|));
    assert forall id :: id in ids <==> exists i :: 0 <= i < |r| && r[i].id == id by {
      forall id
        ensures id in ids <==> exists i :: 0 <= i < |r| && r[i].id == id
      {
        if id in ids {
          var i :| 0 <= i < |ids| && ids[i] == id;
          assert r[i].id == id;
        }
      }
    }
    r
  }

  /** The ids of a listing, in its order. */
  function ListedIds(r: seq<Listed>): (ids: seq<BlogId>)
    ensures |ids| == |r| && forall i :: 0 <= i < |r| ==> ids[i] == r[i].id
  {
    seq(|r|, i requires 0 <= i < |r| => r[i].id)
  }

  /** `sort({ createdAt: -1 })`: `getAllBlogs` lists the kept blogs in the
      creation order read backwards, newest first, and with every stored blog
      once in the creation order no blog is listed twice. */
  lemma GetAllBlogsNewestFirst(
    docs: map<BlogId, Blog>, order: seq<BlogId>, search: Option<string>,
    matches: (string, Blog) -> bool)
    requires forall id :: id in order ==> id in docs
    requires NoDup(order)
    ensures var ids := ListedIds(GetAllBlogs(docs, order, search, matches));
      ids == Kept(Reversed(order), docs, SearchFilter(search, matches)) && NoDup(ids)
  {
    var keep := SearchFilter(search, matches);
    NewestFirstIsReversedOrder(docs, order, keep);
    NewestFirstOnce(docs, order, keep);
    assert ListedIds(GetAllBlogs(docs, order, search, matches)) == NewestFirst(docs, order, keep);
  }

  /** What `getMyBlogs` sends first: a message when the caller has no blogs,
      otherwise the caller's blogs, newest first. */
  datatype MyBlogs = NoBlogsFound | Blogs(list: seq<Blog>)

  /** The blogs `getMyBlogs` keeps: those whose author is the caller. */
  function AuthoredBy(me: UserId): Blog -> bool {
    (b: Blog) => IsAuthor(me, b)
  }

  /** The stored blogs of `ids`, in their order. */
  function BlogsAt(ids: seq<BlogId>, docs: map<BlogId, Blog>): (list: seq<Blog>)
    requires forall id :: id in ids ==> id in docs
    ensures |list| == |ids| && forall i :: 0 <= i < |ids| ==> list[i] == docs[ids[i]]
  {
    seq(|ids|, i requires 0 <= i < |ids| => docs[ids[i]])
  }

  function GetMyBlogs(docs: map<BlogId, Blog>, order: seq<BlogId>, me: UserId): (r: MyBlogs)
    requires forall id :: id in order ==> id in docs
    ensures r.NoBlogsFound? <==> forall id :: id in order ==> docs[id].author != me
    ensures r.Blogs? ==> forall i :: 0 <= i < |r.list| ==> r.list[i].author == me
    ensures r.Blogs? ==> forall id :: id in order && docs[id].author == me ==> docs[id] in r.list
  {
    var ids := NewestFirst(docs, order, AuthoredBy(me));
    if ids == [] then NoBlogsFound
    else
      assert ids[0] in ids;
      var list := BlogsAt(ids, docs);
      assert forall id :: id in ids ==> docs[id] in list by {
        forall id | id in ids
          ensures docs[id] in list
        {
          var i :| 0 <= i < |ids| && ids[i] == id;
          assert list[i] == docs[id];
        }
      }
      Blogs(list)
  }

  /** `Blog.find({ author: req.user._id }).sort({ createdAt: -1 })`: the
      caller's blogs are the stored blogs of the creation order read
      backwards with other authors' blogs taken out, and with every stored
      blog once in the creation order none is listed twice. */
  lemma GetMyBlogsNewestFirst(docs: map<BlogId, Blog>, order: seq<BlogId>, me: UserId)
    requires forall id :: id in order ==> id in docs
    requires NoDup(order)
    ensures var ids := Kept(Reversed(order), docs, AuthoredBy(me));
      && NoDup(ids)
      && GetMyBlogs(docs, order, me) == if ids == [] then NoBlogsFound else Blogs(BlogsAt(ids, docs))
  {
    NewestFirstIsReversedOrder(docs, order, AuthoredBy(me));
    NewestFirstOnce(docs, order, AuthoredBy(me));
  }

  /** `getBlogById` as written: a missing blog is a 404, and a found one
      reaches `.map` on a single document, which throws, so the reply is a
      500. */
  function GetBlogById(docs: map<BlogId, Blog>, id: BlogId): (r: Response<Listed>)
    ensures id !in docs ==> r == Fail(NotFound)
    ensures id in docs ==> r == Fail(ServerError)
  {
    if id !in docs then Fail(NotFound) else Fail(ServerError)
  }
}
