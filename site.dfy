/** The Markdown-driven front end of index.tsx: a home feed and an article
    page, chosen from `location.hash` ("#/article/<slug>" or anything else),
    over the posts loaded from the Markdown files. */
module Site {
  import opened Types
  import Text
  import Detail
  import Home
  import MarkdownPosts

  type Article = MarkdownPosts.Article

  const ArticleHash: string := "#/article/"

  datatype Screen = HomePage | DetailPage

  /** The page chosen by the state initialiser for the hash at load time. */
  function InitialPage(hash: string): (page: Screen)
    ensures page == DetailPage <==> Text.StartsWith(hash, ArticleHash)
  {
    if Text.StartsWith(hash, ArticleHash) then DetailPage else HomePage
  }

  /** The slug chosen at load time: everything after "#/article/". */
  function InitialSlug(hash: string): (slug: Option<string>)
    ensures slug.Some? <==> Text.StartsWith(hash, ArticleHash)
    ensures slug.Some? ==> hash == ArticleHash + slug.value
  {
    if Text.StartsWith(hash, ArticleHash) then
      Text.RemoveFirstPrefix(hash, ArticleHash);
      assert hash == hash[..10] + hash[10..];
      Some(Text.RemoveFirst(hash, ArticleHash))
    else None
  }

  /** What `goHome` and `goDetail` assign to `location.hash`. */
  const HomePath: string := "/"

  function DetailPath(slug: string): string {
    "/article/" + slug
  }

  /** Reading `location.hash` back after such an assignment. */
  function HashOf(path: string): string {
    "#" + path
  }

  /** Going to an article and reading the hash back selects that article,
      whatever its slug; going home leaves no article selected. */
  lemma NavigationRoundTrip(slug: string)
    ensures InitialPage(HashOf(DetailPath(slug))) == DetailPage
    ensures InitialSlug(HashOf(DetailPath(slug))) == Some(slug)
    ensures InitialPage(HashOf(HomePath)) == HomePage
    ensures InitialSlug(HashOf(HomePath)) == None
  {
    assert HashOf(DetailPath(slug)) == ArticleHash + slug;
    assert HashOf(DetailPath(slug))[..10] == ArticleHash;
    assert (ArticleHash + slug)[10..] == slug;
  }

  // ---------------------------------------------------------------------------
  // The home feed.

  function Featured(posts: seq<Article>): Option<Article> {
    Home.FirstOr(posts, (p: Article) => p.isFeatured)
  }

  /** `posts.filter(p => p.slug !== featured?.slug)`. */
  function Others(posts: seq<Article>): (others: seq<Article>)
    ensures Featured(posts).None? ==> others == posts
    ensures Featured(posts).Some? ==> forall i :: 0 <= i < |others| ==>
      others[i].slug != Featured(posts).value.slug && others[i] in posts
    ensures Featured(posts).Some? ==> forall q :: q in posts && q.slug != Featured(posts).value.slug ==> q in others
    ensures Featured(posts).Some? ==> others == WithoutSlug(posts, Featured(posts).value.slug)
  {
    match Featured(posts)
    case None => posts
    case Some(f) => WithoutSlug(posts, f.slug)
  }

  function WithoutSlug(posts: seq<Article>, slug: string): (r: seq<Article>)
    ensures forall i :: 0 <= i < |r| ==> r[i].slug != slug && r[i] in posts
    ensures forall q :: q in posts && q.slug != slug ==> q in r
    decreases |posts|
  {
    if |posts| == 0 then []
    else if posts[0].slug == slug then WithoutSlug(posts[1..], slug)
    else
      assert forall q :: q in posts ==> q == posts[0] || q in posts[1..];
      [posts[0]] + WithoutSlug(posts[1..], slug)
  }

  /** The filter works post by post: the kept posts stay in their order. */
  lemma {:induction false} WithoutSlugConcat(a: seq<Article>, b: seq<Article>, slug: string)
    ensures WithoutSlug(a + b, slug) == WithoutSlug(a, slug) + WithoutSlug(b, slug)
    decreases |a|
  {
    if |a| == 0 {
      assert a + b == b;
    } else {
      assert (a + b)[1..] == a[1..] + b;
      WithoutSlugConcat(a[1..], b, slug);
    }
  }

  /** One post is kept exactly when its slug differs. */
  lemma WithoutSlugSingle(q: Article, slug: string)
    ensures WithoutSlug([q], slug) == if q.slug == slug then [] else [q]
  {
    assert [q][1..] == [];
  }

  /** Two files sharing the featured post's slug both leave the grid: the
      filter goes by slug, not by identity. */
  lemma SharedSlugHidden(posts: seq<Article>, q: Article)
    requires Featured(posts).Some? && q in posts && q.slug == Featured(posts).value.slug
    ensures q !in Others(posts)
  {
  }

  // ---------------------------------------------------------------------------
  // The article body: the same prefixes as the editor and the earlier article
  // page, tried in a different order, cut with `substring`, and with no
  // spacer for blank lines.

  function ArticleLine(line: string): (b: Detail.Block)
    ensures b.Spacer? == false
  {
    if Text.StartsWith(line, "## ") then Detail.Heading2(line[3..])
    else if Text.StartsWith(line, "### ") then Detail.Heading3(line[4..])
    else if Text.StartsWith(line, "* ") then Detail.Item(line[2..])
    else if Text.StartsWith(line, "> ") then Detail.Quote(line[2..])
    else Detail.Para(line)
  }

  /** The two renderers agree on every line except a blank one, which this
      page shows as an empty paragraph where the other shows a spacer. */
  lemma ArticleLineAgrees(line: string)
    ensures ArticleLine(line) ==
      if Detail.ClassifyLine(line).Spacer? then Detail.Para(line) else Detail.ClassifyLine(line)
  {
    if Text.StartsWith(line, "## ") {
      assert line == "## " + line[3..];
    } else if Text.StartsWith(line, "### ") {
      assert line == "### " + line[4..];
    } else if Text.StartsWith(line, "* ") {
      assert line == "* " + line[2..];
      assert !Text.StartsWith(line, "> ");
    } else if Text.StartsWith(line, "> ") {
      assert line == "> " + line[2..];
    }
  }

  function ArticleBody(content: string): (blocks: seq<Detail.Block>)
    ensures |blocks| == |Text.Split(content, '\n')|
    ensures forall i :: 0 <= i < |blocks| ==>
      blocks[i] == ArticleLine(Text.Split(content, '\n')[i])
  {
    var lines := Text.Split(content, '\n');
    seq(|lines|, i requires 0 <= i < |lines| => ArticleLine(lines[i]))
  }

  // ---------------------------------------------------------------------------
  // The component.

  datatype View =
    | Feed(featured: Option<Article>, others: seq<Article>)
    | ArticleView(post: Article, body: seq<Detail.Block>)
    | Nothing

  class Shell {
    const posts: seq<Article>
    var page: Screen
    var slug: Option<string>
    /** `window.location.hash`. */
    var hash: string

    /** First render: the posts are loaded once from the Markdown files and
        the page and slug are read from the hash. */
    constructor(files: seq<MarkdownPosts.Entry>, formatDate: string -> string, locationHash: string)
      ensures posts == MarkdownPosts.GetAllPosts(files, formatDate) && hash == locationHash
      ensures page == InitialPage(locationHash) && slug == InitialSlug(locationHash)
    {
      posts := MarkdownPosts.GetAllPosts(files, formatDate);
      hash := locationHash;
      page := InitialPage(locationHash);
      slug := InitialSlug(locationHash);
    }

    /** `handleHashChange`: the same choice as at load time. */
    method HandleHashChange()
      modifies this
      ensures page == InitialPage(hash) && slug == InitialSlug(hash)
      ensures hash == old(hash)
    {
      if Text.StartsWith(hash, ArticleHash) {
        Text.RemoveFirstPrefix(hash, ArticleHash);
        slug := Some(Text.RemoveFirst(hash, ArticleHash));
        page := DetailPage;
      } else {
        page := HomePage;
        slug := None;
      }
    }

    method GoHome()
      modifies this
      ensures hash == HashOf(HomePath) && page == old(page) && slug == old(slug)
    {
      hash := HashOf(HomePath);
    }

    method GoDetail(target: string)
      modifies this
      ensures hash == HashOf(DetailPath(target)) && page == old(page) && slug == old(slug)
    {
      hash := HashOf(DetailPath(target));
    }

    /** The article page needs a non-empty slug; a slug no post has renders
        nothing at all. */
    function Render(): (v: View)
      reads this
      ensures page == HomePage ==> v == Feed(Featured(posts), Others(posts))
      ensures page == DetailPage && (slug.None? || slug.value == "") ==> v == Nothing
      ensures v.ArticleView? ==> slug.Some? && v.post.slug == slug.value && v.post in posts
      ensures v.ArticleView? ==> v.body == ArticleBody(v.post.content)
      ensures v.ArticleView? ==> MarkdownPosts.GetPostBySlug(posts, slug.value) == Some(v.post)
      ensures page == DetailPage && slug.Some? && slug.value != "" ==>
        (v.ArticleView? <==> exists i :: 0 <= i < |posts| && posts[i].slug == slug.value)
    {
      match page
      case HomePage => Feed(Featured(posts), Others(posts))
      case DetailPage =>
        if slug.Some? && slug.value != "" then
          match MarkdownPosts.GetPostBySlug(posts, slug.value)
          case Some(p) => ArticleView(p, ArticleBody(p.content))
          case None => Nothing
        else Nothing
    }
  }
}
