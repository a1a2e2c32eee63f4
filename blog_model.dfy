/** The blog schema and the `blogs` collection: the field rules checked on
    every save, the derived `likeCount`, `dislikeCount` and `commentCount`
    virtuals, and the collection as a map from id to record together with the
    order in which the blogs were created. */
module BlogModel {
  import opened JsValues
  import opened Lists

  const TitleMaxLength := 150
  const CommentMaxLength := 300

  /** A comment: who wrote it and its (trimmed) text. */
  datatype Comment = Comment(user: UserId, text: string)

  /** A stored blog. The like and dislike lists hold user ids only; no count
      is stored beside them. */
  datatype Blog = Blog(
    title: string,
    content: string,
    author: UserId,
    likes: seq<UserId>,
    dislikes: seq<UserId>,
    comments: seq<Comment>)

  /** `text`: required, at most 300 characters (the `user` reference is
      always present in this model). */
  predicate ValidComment(c: Comment) {
    c.text != "" && |c.text| <= CommentMaxLength
  }

  /** The schema's validators: title required and at most 150 characters,
      content required, every comment valid. `author: required` always
      passes in this model: every handler that writes a blog keeps the
      author it was created with, `req.user._id`. */
  predicate ValidBlog(b: Blog) {
    && b.title != "" && |b.title| <= TitleMaxLength
    && b.content != ""
    && forall i :: 0 <= i < |b.comments| ==> ValidComment(b.comments[i])
  }

  /** Pushing a comment onto a valid blog gives a valid blog exactly when
      the comment itself is valid. */
  lemma PushCommentValid(b: Blog, c: Comment)
    requires ValidBlog(b)
    ensures ValidBlog(b.(comments := b.comments + [c])) <==> ValidComment(c)
  {
    var comments := b.comments + [c];
    assert comments[|comments| - 1] == c;
    assert forall i :: 0 <= i < |b.comments| ==> comments[i] == b.comments[i];
  }

  /** A count virtual, `this.path?.length || 0`: the array's length, or 0
      when the path was left out of the loaded document. */
  function VirtualCount<T>(path: Option<seq<T>>): (n: nat)
    ensures path.None? ==> n == 0
    ensures path.Some? ==> n == |path.value|
  {
    match path
    case Some(s) => |s|
    case None => 0
  }

  /** The `likeCount`, `dislikeCount` and `commentCount` virtuals of a stored
      blog, whose arrays are always loaded: the arrays' lengths. */
  function LikeCount(b: Blog): (n: nat)
    ensures n == |b.likes|
  {
    VirtualCount(Some(b.likes))
  }

  function DislikeCount(b: Blog): (n: nat)
    ensures n == |b.dislikes|
  {
    VirtualCount(Some(b.dislikes))
  }

  function CommentCount(b: Blog): (n: nat)
    ensures n == |b.comments|
  {
    VirtualCount(Some(b.comments))
  }

  /** A blog document loaded into memory; handlers assign its fields, push
      onto its arrays and save it back. */
  class BlogDocument {
    const id: BlogId
    var title: string
    var content: string
    var author: UserId
    var likes: seq<UserId>
    var dislikes: seq<UserId>
    var comments: seq<Comment>

    function Record(): Blog
      reads this
    {
      Blog(title, content, author, likes, dislikes, comments)
    }

    constructor (id: BlogId, b: Blog)
      ensures this.id == id && Record() == b
    {
      this.id := id;
      title := b.title;
      content := b.content;
      author := b.author;
      likes := b.likes;
      dislikes := b.dislikes;
      comments := b.comments;
    }
  }

  /** Every id in `order` is stored, every stored id is in `order` once, and
      every stored blog passed validation. */
  ghost predicate CollectionValid(docs: map<BlogId, Blog>, order: seq<BlogId>) {
    && (forall id :: id in docs <==> id in order)
    && NoDup(order)
    && (forall id {:trigger ValidBlog(docs[id])} :: id in docs ==> ValidBlog(docs[id]))
  }

  /** A stored blog passed the validators. */
  lemma StoredBlogValid(docs: map<BlogId, Blog>, order: seq<BlogId>, id: BlogId)
    requires CollectionValid(docs, order) && id in docs
    ensures ValidBlog(docs[id])
  {
    assert ValidBlog(docs[id]);
  }

  /** The `blogs` collection; `order` lists the ids oldest first, which is
      the `createdAt` order. */
  class BlogCollection {
    var docs: map<BlogId, Blog>
    var order: seq<BlogId>

    ghost predicate Valid()
      reads this
    {
      CollectionValid(docs, order)
    }

    constructor ()
      ensures Valid() && docs == map[] && order == []
    {
      docs := map[];
      order := [];
    }

    /** `Blog.findById(id)`. */
    method FindById(id: BlogId) returns (doc: BlogDocument?)
      ensures doc == null <==> id !in docs
      ensures doc != null ==> fresh(doc) && doc.id == id && doc.Record() == docs[id]
    {
      if id in docs {
        doc := new BlogDocument(id, docs[id]);
      } else {
        doc := null;
      }
    }

    /** `Blog.create(...)` with a new id: the validators, then the insert. */
    method Create(id: BlogId, b: Blog) returns (ok: bool)
      requires Valid() && id !in docs
      modifies this
      ensures Valid()
      ensures ok == ValidBlog(b)
      ensures docs == if ok then old(docs)[id := b] else old(docs)
      ensures order == if ok then old(order) + [id] else old(order)
    {
      ok := ValidBlog(b);
      if ok {
        AppendFreshKeepsNoDup(order, id);
        docs := docs[id := b];
        order := order + [id];
      }
    }

    /** `doc.save()` on a stored blog: the validators, then the write. */
    method Save(doc: BlogDocument) returns (ok: bool)
      requires Valid() && doc.id in docs
      modifies this
      ensures Valid()
      ensures ok == ValidBlog(doc.Record())
      ensures docs == if ok then old(docs)[doc.id := doc.Record()] else old(docs)
      ensures order == old(order)
    {
      ok := ValidBlog(doc.Record());
      if ok {
        docs := docs[doc.id := doc.Record()];
      }
    }

    /** `doc.deleteOne()`. */
    method DeleteOne(id: BlogId)
      requires Valid() && id in docs
      modifies this
      ensures Valid()
      ensures docs == old(docs) - {id}
      ensures order == Without(old(order), id)
    {
      WithoutKeepsNoDup(order, id);
      docs := docs - {id};
      order := Without(order, id);
      assert forall k :: k in order <==> k in old(order) && k != id by {
        forall k
          ensures k in order <==> k in old(order) && k != id
        {
          assert k in order <==> k in multiset(order);
          assert k in old(order) <==> k in multiset(old(order));
        }
      }
    }
  }
}
