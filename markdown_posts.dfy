/** The Markdown-file post source of lib/posts.ts: every file under
    content/posts becomes a post, its front matter supplying the fields and
    fallbacks filling the gaps. Splitting front matter from body is done by
    a YAML library and is a parameter here: each file arrives with its parse
    outcome. */
module MarkdownPosts {
  import opened Types
  import Text

  /** A front-matter value as the loader tests it: text, a YAML boolean, or
      absent. */
  datatype Value = Str(s: string) | Flag(b: bool) | Missing

  /** JavaScript truthiness: the empty string and `false` are falsy. */
  predicate Truthy(v: Value) {
    match v
    case Str(s) => s != ""
    case Flag(b) => b
    case Missing => false
  }

  /** `data.key || fallback` for a text field. */
  function TextOr(data: map<string, Value>, key: string, fallback: string): (r: string)
    ensures HasText(data, key) ==> r == data[key].s
    ensures !HasText(data, key) ==> r == fallback
  {
    if key in data && data[key].Str? && data[key].s != "" then data[key].s else fallback
  }

  /** The key holds non-empty text, so `data.key ||` keeps it. */
  predicate HasText(data: map<string, Value>, key: string) {
    key in data && data[key].Str? && data[key].s != ""
  }

  datatype Parsed = Parsed(data: map<string, Value>, body: string)

  /** One file: its path, its raw text, and what the front-matter parser
      made of it (nothing when it threw). */
  datatype Entry = Entry(path: string, raw: string, parsed: Option<Parsed>)

  datatype Article = Article(
    id: string,
    slug: string,
    title: string,
    excerpt: string,
    content: string,
    author: string,
    date: string,
    imageUrl: string,
    isFeatured: bool,
    category: string)

  const UnknownDate: string := "未知日期"

  /** `path.split('/').pop()?.replace('.md', '')`: the last path segment
      with its first ".md" removed. */
  function FileName(path: string): string {
    var parts := Text.Split(path, '/');
    Text.RemoveFirst(parts[|parts| - 1], ".md")
  }

  /** A file that yields a post: non-empty text that parsed. */
  predicate Usable(e: Entry) {
    e.raw != "" && e.parsed.Some?
  }

  /** The cover used when the front matter names none. */
  function PicsumImage(name: string): string {
    "https://picsum.photos/seed/" + name + "/1200/600"
  }

  /** The post made of the file at position `index`. `formatDate` stands for
      the locale formatting of the front-matter date. */
  function Assemble(e: Entry, index: nat, formatDate: string -> string): (a: Article)
    requires Usable(e)
    ensures a.id == Text.Decimal(index + 1)
    ensures a.content == e.parsed.value.body
    ensures a.slug == TextOr(e.parsed.value.data, "slug", FileName(e.path))
    ensures a.title == TextOr(e.parsed.value.data, "title", "Untitled")
    ensures a.excerpt == TextOr(e.parsed.value.data, "description",
                           TextOr(e.parsed.value.data, "excerpt", Text.Excerpt(e.parsed.value.body)))
    ensures a.author == TextOr(e.parsed.value.data, "author", "Binbin")
    ensures HasText(e.parsed.value.data, "date") ==> a.date == formatDate(e.parsed.value.data["date"].s)
    ensures !("date" in e.parsed.value.data && Truthy(e.parsed.value.data["date"])) ==> a.date == UnknownDate
    ensures a.imageUrl == TextOr(e.parsed.value.data, "imageUrl", PicsumImage(FileName(e.path)))
    ensures a.isFeatured <==> "isFeatured" in e.parsed.value.data && Truthy(e.parsed.value.data["isFeatured"])
    ensures a.category == TextOr(e.parsed.value.data, "category", "General")
  {
    var data := e.parsed.value.data;
    var body := e.parsed.value.body;
    var name := FileName(e.path);
    Article(
      Text.Decimal(index + 1),
      TextOr(data, "slug", name),
      TextOr(data, "title", "Untitled"),
      TextOr(data, "description", TextOr(data, "excerpt", Text.Excerpt(body))),
      body,
      TextOr(data, "author", "Binbin"),
      if "date" in data && Truthy(data["date"]) && data["date"].Str?
      then formatDate(data["date"].s) else UnknownDate,
      TextOr(data, "imageUrl", PicsumImage(name)),
      "isFeatured" in data && Truthy(data["isFeatured"]),
      TextOr(data, "category", "General"))
  }

  /** The posts of the files from position `k` on, skipping the unusable
      ones; each keeps the number of its position. */
  function Collect(entries: seq<Entry>, k: nat, formatDate: string -> string): seq<Article>
    requires k <= |entries|
    decreases |entries| - k
  {
    if k == |entries| then []
    else if Usable(entries[k]) then [Assemble(entries[k], k, formatDate)] + Collect(entries, k + 1, formatDate)
    else Collect(entries, k + 1, formatDate)
  }

  /** The position of the file a post was made from, read off its id. */
  function Origin(a: Article): int {
    Text.DigitsValue(a.id) - 1
  }

  /** Each collected post is the post of the file its id names, and the
      files are visited in order. */
  lemma {:induction false} CollectSound(entries: seq<Entry>, k: nat, formatDate: string -> string)
    requires k <= |entries|
    ensures var c := Collect(entries, k, formatDate);
      && |c| <= |entries| - k
      && (forall i :: 0 <= i < |c| ==>
            k <= Origin(c[i]) < |entries| && Usable(entries[Origin(c[i])])
            && c[i] == Assemble(entries[Origin(c[i])], Origin(c[i]), formatDate))
      && (forall i, j :: 0 <= i < j < |c| ==> Origin(c[i]) < Origin(c[j]))
    decreases |entries| - k
  {
    if k < |entries| {
      CollectSound(entries, k + 1, formatDate);
      var c, rest := Collect(entries, k, formatDate), Collect(entries, k + 1, formatDate);
      if Usable(entries[k]) {
        var head := Assemble(entries[k], k, formatDate);
        AssembleOrigin(entries[k], k, formatDate);
        assert c == [head] + rest;
        forall i | 0 < i < |c| ensures c[i] == rest[i - 1] {
        }
      }
    }
  }

  lemma AssembleOrigin(e: Entry, index: nat, formatDate: string -> string)
    requires Usable(e)
    ensures Origin(Assemble(e, index, formatDate)) == index
  {
    Text.DecimalRoundTrip(index + 1);
  }

  /** Every usable file from position `k` on gives its post. */
  lemma {:induction false} CollectComplete(entries: seq<Entry>, k: nat, formatDate: string -> string)
    requires k <= |entries|
    ensures forall p :: k <= p < |entries| && Usable(entries[p]) ==>
      Assemble(entries[p], p, formatDate) in Collect(entries, k, formatDate)
    decreases |entries| - k
  {
    if k < |entries| {
      CollectComplete(entries, k + 1, formatDate);
      var rest := Collect(entries, k + 1, formatDate);
      if Usable(entries[k]) {
        assert Collect(entries, k, formatDate) == [Assemble(entries[k], k, formatDate)] + rest;
      }
    }
  }

  /** `getAllPosts`, in file order: at most one post per file, one for every
      usable file, each numbered by its file's position, so no two share an
      id. */
  function GetAllPosts(entries: seq<Entry>, formatDate: string -> string): (posts: seq<Article>)
    ensures |posts| <= |entries|
    ensures forall i :: 0 <= i < |posts| ==>
      0 <= Origin(posts[i]) < |entries| && Usable(entries[Origin(posts[i])])
      && posts[i] == Assemble(entries[Origin(posts[i])], Origin(posts[i]), formatDate)
    ensures forall p :: 0 <= p < |entries| && Usable(entries[p]) ==> Assemble(entries[p], p, formatDate) in posts
    ensures forall i, j :: 0 <= i < j < |posts| ==> posts[i].id != posts[j].id
  {
    CollectSound(entries, 0, formatDate);
    CollectComplete(entries, 0, formatDate);
    Collect(entries, 0, formatDate)
  }

  /** `getPostBySlug`: the first post with that slug. */
  function GetPostBySlug(posts: seq<Article>, slug: string): (r: Option<Article>)
    ensures r.None? <==> forall i :: 0 <= i < |posts| ==> posts[i].slug != slug
    ensures r.Some? ==> r.value.slug == slug && r.value in posts
    ensures r.Some? ==> exists i :: 0 <= i < |posts| && posts[i] == r.value
                                    && (forall j :: 0 <= j < i ==> posts[j].slug != slug)
    decreases |posts|
  {
    if |posts| == 0 then None
    else if posts[0].slug == slug then Some(posts[0])
    else
      var r := GetPostBySlug(posts[1..], slug);
      if r.Some? then
        var i :| 0 <= i < |posts[1..]| && posts[1..][i] == r.value
                 && (forall j :: 0 <= j < i ==> posts[1..][j].slug != slug);
        assert posts[i + 1] == r.value;
        assert forall j :: 0 <= j < i + 1 ==> posts[j].slug != slug by {
          forall j | 0 <= j < i + 1 ensures posts[j].slug != slug {
            if j > 0 { assert posts[j] == posts[1..][j - 1]; }
          }
        }
        r
      else r
  }

  /** Every field whose front-matter value is missing, empty or not text
      falls back to its default; a featured flag that is missing or falsy
      leaves the post unfeatured. */
  lemma Fallbacks(e: Entry, index: nat, formatDate: string -> string)
    requires Usable(e)
    ensures var data, a := e.parsed.value.data, Assemble(e, index, formatDate);
      && (!HasText(data, "slug") ==> a.slug == FileName(e.path))
      && (!HasText(data, "title") ==> a.title == "Untitled")
      && (!HasText(data, "description") && !HasText(data, "excerpt") ==>
            a.excerpt == Text.Excerpt(e.parsed.value.body))
      && (!HasText(data, "author") ==> a.author == "Binbin")
      && (!HasText(data, "date") ==> a.date == UnknownDate)
      && (!HasText(data, "imageUrl") ==> a.imageUrl == PicsumImage(FileName(e.path)))
      && (!HasText(data, "category") ==> a.category == "General")
      && ("isFeatured" !in data ==> !a.isFeatured)
  {
  }

  /** The file name drops the directories and the first ".md". */
  lemma FileNameOf(dir: string, name: string)
    requires '/' !in name
    ensures FileName(dir + "/" + name + ".md") == Text.RemoveFirst(name + ".md", ".md")
  {
    Text.SplitAtSep(dir, name + ".md", '/');
    Text.SplitWithoutSep(name + ".md", '/');
    assert dir + "/" + name + ".md" == dir + ['/'] + (name + ".md");
  }
}
