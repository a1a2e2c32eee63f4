/** The like/dislike state machine of one blog, as the `likeBlog` and
    `dislikeBlog` handlers apply it to the loaded document: first the user is
    filtered out of the opposite list, then their membership in the
    operation's own list is toggled (`includes` decides between `filter` and
    `push`). Each user is Neutral, Liked or Disliked towards a blog. */
module Reactions {
  import opened JsValues
  import opened Lists
  import opened BlogModel

  datatype Reaction = Neutral | Liked | Disliked

  /** Where `u` stands towards `b`; a user on the like list counts as Liked. */
  function ReactionOf(b: Blog, u: UserId): Reaction {
    if u in b.likes then Liked else if u in b.dislikes then Disliked else Neutral
  }

  /** The invariant both operations keep: neither list repeats a user and no
      user is on both. */
  predicate Exclusive(b: Blog) {
    && NoDup(b.likes)
    && NoDup(b.dislikes)
    && forall v :: v in b.likes ==> v !in b.dislikes
  }

  /** `likeBlog` on the loaded blog. */
  function Like(b: Blog, u: UserId): (r: Blog)
    ensures u !in r.dislikes
    ensures u in r.likes <==> u !in b.likes
    ensures r == b.(likes := r.likes, dislikes := r.dislikes)
  {
    var dislikes := Without(b.dislikes, u);
    var likes := if u in b.likes then Without(b.likes, u) else b.likes + [u];
    b.(likes := likes, dislikes := dislikes)
  }

  /** `dislikeBlog` on the loaded blog. */
  function Dislike(b: Blog, u: UserId): (r: Blog)
    ensures u !in r.likes
    ensures u in r.dislikes <==> u !in b.dislikes
    ensures r == b.(likes := r.likes, dislikes := r.dislikes)
  {
    var likes := Without(b.likes, u);
    var dislikes := if u in b.dislikes then Without(b.dislikes, u) else b.dislikes + [u];
    b.(likes := likes, dislikes := dislikes)
  }

  /** Liking moves Liked to Neutral and every other state to Liked. */
  lemma LikeTransition(b: Blog, u: UserId)
    ensures ReactionOf(Like(b, u), u) == if ReactionOf(b, u) == Liked then Neutral else Liked
  {
  }

  /** Disliking moves Disliked to Neutral and every other state to Disliked,
      provided the user was not on both lists. */
  lemma DislikeTransition(b: Blog, u: UserId)
    requires !(u in b.likes && u in b.dislikes)
    ensures ReactionOf(Dislike(b, u), u) == if ReactionOf(b, u) == Disliked then Neutral else Disliked
  {
  }

  /** Neither operation changes how often any other user occurs in either
      list. */
  lemma ReactionsLeaveOthers(b: Blog, u: UserId, v: UserId)
    requires v != u
    ensures multiset(Like(b, u).likes)[v] == multiset(b.likes)[v]
    ensures multiset(Like(b, u).dislikes)[v] == multiset(b.dislikes)[v]
    ensures multiset(Dislike(b, u).likes)[v] == multiset(b.likes)[v]
    ensures multiset(Dislike(b, u).dislikes)[v] == multiset(b.dislikes)[v]
  {
  }

  /** Toggling `u` in one list after filtering it out of the other keeps
      both lists duplicate-free and disjoint. */
  lemma ToggleKeepsExclusive(own: seq<UserId>, other: seq<UserId>, u: UserId)
    requires NoDup(own) && NoDup(other) && forall v :: v in own ==> v !in other
    ensures var own' := if u in own then Without(own, u) else own + [u];
            var other' := Without(other, u);
            NoDup(own') && NoDup(other') && forall v :: v in own' ==> v !in other'
  {
    var own' := if u in own then Without(own, u) else own + [u];
    var other' := Without(other, u);
    WithoutKeepsNoDup(other, u);
    if u in own {
      WithoutKeepsNoDup(own, u);
    } else {
      AppendFreshKeepsNoDup(own, u);
    }
    forall v | v in own'
      ensures v !in other'
    {
      assert v in multiset(own');
      assert v !in multiset(other') by {
        if v != u {
          assert v in own;
        }
      }
    }
  }

  lemma LikeKeepsExclusive(b: Blog, u: UserId)
    requires Exclusive(b)
    ensures Exclusive(Like(b, u))
  {
    ToggleKeepsExclusive(b.likes, b.dislikes, u);
  }

  lemma DislikeKeepsExclusive(b: Blog, u: UserId)
    requires Exclusive(b)
    ensures Exclusive(Dislike(b, u))
  {
    ToggleKeepsExclusive(b.dislikes, b.likes, u);
  }

  /** Every stored blog's reactions are exclusive. The schema's validators
      do not check this; the handlers keep it, since a new blog starts with
      both lists empty and only `likeBlog` and `dislikeBlog` change them. */
  predicate StoreExclusive(docs: map<BlogId, Blog>) {
    forall id {:trigger Exclusive(docs[id])} :: id in docs ==> Exclusive(docs[id])
  }

  /** Writing back a liked or disliked blog keeps the whole collection
      exclusive. */
  lemma ReactionsKeepStoreExclusive(docs: map<BlogId, Blog>, id: BlogId, u: UserId)
    requires StoreExclusive(docs) && id in docs
    ensures StoreExclusive(docs[id := Like(docs[id], u)])
    ensures StoreExclusive(docs[id := Dislike(docs[id], u)])
  {
    assert Exclusive(docs[id]);
    LikeKeepsExclusive(docs[id], u);
    DislikeKeepsExclusive(docs[id], u);
  }

  /** From Neutral, liking twice gives back the blog exactly as it was. */
  lemma LikeTwiceFromNeutral(b: Blog, u: UserId)
    requires ReactionOf(b, u) == Neutral
    ensures Like(Like(b, u), u) == b
  {
    WithoutAppend(b.likes, [u], u);
    assert Without([u], u) == [];
    assert b.likes + [] == b.likes;
  }

  /** From Neutral, disliking twice gives back the blog exactly as it was. */
  lemma DislikeTwiceFromNeutral(b: Blog, u: UserId)
    requires ReactionOf(b, u) == Neutral
    ensures Dislike(Dislike(b, u), u) == b
  {
    WithoutAppend(b.dislikes, [u], u);
    assert Without([u], u) == [];
    assert b.dislikes + [] == b.dislikes;
  }

  /** A like followed by a dislike from the same user leaves them Disliked
      and off the like list, and the reverse order leaves them Liked. */
  lemma LikeThenDislike(b: Blog, u: UserId)
    ensures ReactionOf(Dislike(Like(b, u), u), u) == Disliked
    ensures u !in Dislike(Like(b, u), u).likes
    ensures ReactionOf(Like(Dislike(b, u), u), u) == Liked
    ensures u !in Like(Dislike(b, u), u).dislikes
  {
  }
}
