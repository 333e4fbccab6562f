/** The home feed of pages/Home.tsx: one post in the featured slot (the
    first featured post, or else the first post) and every other post as a
    card below it. */
module Home {
  import opened Types
  import PostList

  const DefaultCardImage: string := "https://picsum.photos/seed/default/400/300"

  /** `xs.find(pick) || xs[0]`: the first element `pick` accepts, else the
      first element, else nothing for an empty list. */
  function FirstOr<T>(xs: seq<T>, pick: T -> bool): (r: Option<T>)
    ensures r.None? <==> |xs| == 0
    ensures r.Some? ==> r.value in xs
    ensures (exists i :: 0 <= i < |xs| && pick(xs[i])) ==>
      r.Some? && pick(r.value) && r.value == xs[FirstIndex(xs, pick)]
    ensures |xs| > 0 && (forall i :: 0 <= i < |xs| ==> !pick(xs[i])) ==> r == Some(xs[0])
  {
    var k := FirstIndex(xs, pick);
    if k < |xs| then Some(xs[k])
    else if |xs| > 0 then Some(xs[0])
    else None
  }

  /** The index of the first element `pick` accepts, or |xs| if none. */
  function FirstIndex<T>(xs: seq<T>, pick: T -> bool): (k: nat)
    ensures k <= |xs|
    ensures forall j :: 0 <= j < k ==> !pick(xs[j])
    ensures k < |xs| ==> pick(xs[k])
    decreases |xs|
  {
    if |xs| == 0 then 0
    else if pick(xs[0]) then 0
    else 1 + FirstIndex(xs[1..], pick)
  }

  function FeaturedPost<Id>(posts: seq<Post<Id>>): Option<Post<Id>> {
    FirstOr(posts, (p: Post<Id>) => p.isFeatured)
  }

  /** `posts.filter(p => p.id !== featuredPost?.id)`. */
  function MorePosts<Id(==)>(posts: seq<Post<Id>>): seq<Post<Id>> {
    match FeaturedPost(posts)
    case Some(f) => PostList.WithoutId(posts, f.id)
    case None => posts
  }

  /** A card of the grid: the post and the image shown on it. */
  datatype Card<Id> = Card(post: Post<Id>, image: string)

  datatype View<Id> =
    | EmptyState
    | Feed(featured: Post<Id>, cover: Option<string>, cards: seq<Card<Id>>)

  function CardOf<Id>(p: Post<Id>): Card<Id> {
    Card(p, if p.imageUrl != "" then p.imageUrl else DefaultCardImage)
  }

  function Render<Id(==)>(posts: seq<Post<Id>>): (v: View<Id>)
    ensures v.EmptyState? <==> |posts| == 0
    ensures v.Feed? ==> v.featured in posts
    ensures v.Feed? ==> (v.cover.Some? <==> v.featured.imageUrl != "")
    ensures v.Feed? ==> forall i :: 0 <= i < |v.cards| ==>
      v.cards[i].post.id != v.featured.id && v.cards[i].post in posts && v.cards[i].image != ""
    ensures v.Feed? ==> v.featured == FeaturedPost(posts).value
    ensures v.Feed? ==> v.cover == if v.featured.imageUrl != "" then Some(v.featured.imageUrl) else None
    ensures v.Feed? ==> |v.cards| == |MorePosts(posts)|
    ensures v.Feed? ==> forall i :: 0 <= i < |v.cards| ==>
      v.cards[i].post == MorePosts(posts)[i]
      && v.cards[i].image == if MorePosts(posts)[i].imageUrl != "" then MorePosts(posts)[i].imageUrl else DefaultCardImage
  {
    match FeaturedPost(posts)
    case None => EmptyState
    case Some(f) =>
      var more := MorePosts(posts);
      Feed(f, if f.imageUrl != "" then Some(f.imageUrl) else None,
           seq(|more|, i requires 0 <= i < |more| => CardOf(more[i])))
  }

  /** The featured slot holds a featured post whenever there is one, and the
      first post otherwise; the featured post is never repeated below, and
      with distinct ids every other post is. */
  lemma FeedSplit<Id>(posts: seq<Post<Id>>)
    requires |posts| > 0 && PostList.DistinctIds(posts)
    ensures var f := FeaturedPost(posts).value;
      && ((exists i :: 0 <= i < |posts| && posts[i].isFeatured) ==> f.isFeatured)
      && ((forall i :: 0 <= i < |posts| ==> !posts[i].isFeatured) ==> f == posts[0])
      && f !in MorePosts(posts)
      && |MorePosts(posts)| == |posts| - 1
      && forall q :: q in posts && q != f ==> q in MorePosts(posts)
  {
    var f := FeaturedPost(posts).value;
    var k: nat :| k < |posts| && posts[k] == f;
    PostList.DistinctCountOne(posts, k);
    forall q | q in posts && q != f ensures q in MorePosts(posts) {
      var j :| 0 <= j < |posts| && posts[j] == q;
      assert j != k;
    }
  }
}
