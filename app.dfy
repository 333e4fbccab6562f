/** The early single-page shell of App.tsx: the post list kept in memory
    and mirrored to the browser's storage, a hash router whose editor and
    management pages are guarded by an authorisation check, and the page
    chosen for each route. Post ids are strings here. */
module App {
  import opened Types
  import Text
  import PostList

  /** The nine posts shown when nothing was saved: ids "1" to "9", only the
      first featured. */
  const InitialPosts: seq<Post<string>> := [
    Post("1",
         "写给新手的写作指南：从零开始的创作之旅",
         "写作是一场极具回报的旅程。这篇指南将帮助你迈出第一步，涵盖叙事技巧、寻找个人风格以及建立持久习惯。",
         "## 欢迎进入写作的世界\n\n写作可以是一场非常有意义的旅程。这本指南将帮助你迈出第一步。我们将涵盖讲故事的基础知识、寻找你的声音，以及建立一致的写作习惯。\n\n### 寻找灵感\n\n灵感就在你身边：\n\n* 你的日常生活 and 经历。\n* 书籍、电影和音乐。\n* 与朋友和家人的对话。\n\n> \"初稿只是你在给自己讲故事。\" - Terry Pratchett\n\n从小处着手，每天写作，不要害怕犯错。祝写作愉快！",
         "Admin",
         "2024年5月10日",
         "https://picsum.photos/seed/writing/1200/600",
         true),
    Post("2",
         "黄昏时分的城市探险",
         "当夕阳西下，城市散发出一种奇妙的魔力。天空被染成橙紫色，街道上的灯火开始闪烁...",
         "城市之夜充满了活力和能量...",
         "Admin",
         "2024年5月8日",
         "https://picsum.photos/seed/city/800/500",
         false),
    Post("3",
         "复古摄影的艺术",
         "老式相机拥有一种现代数码相机往往缺乏的魅力。拍摄过程更慢、更深思熟虑...",
         "胶片摄影教会我们耐心和技术...",
         "Admin",
         "2024年5月5日",
         "https://picsum.photos/seed/camera/800/500",
         false),
    Post("4",
         "穿行于秋日的森林",
         "秋天是第二个春天，每一片叶子都是一朵花。在森林中漫步或驾车穿过，是一种极佳的享受...",
         "秋天的色彩令人叹为观止，充满了启发性...",
         "Admin",
         "2024年5月2日",
         "https://picsum.photos/seed/forest/800/500",
         false),
    Post("5",
         "极简主义工作空间的秘密",
         "一个整洁的桌面往往意味着一个清醒的大脑。探索如何通过减少杂物来提高效率...",
         "少即是多，极简主义不仅仅是一种审美...",
         "Admin",
         "2024年4月30日",
         "https://picsum.photos/seed/minimal/800/500",
         false),
    Post("6",
         "午夜观星指南",
         "远离城市灯光，仰望苍穹，你会发现一个完全不同的宇宙视角。带上你的望远镜...",
         "猎户座与大熊座在夜空中诉说着古老的神话...",
         "Admin",
         "2024|4月28日",
         "https://picsum.photos/seed/stars/800/500",
         false),
    Post("7",
         "完美拿铁的拉花艺术",
         "咖啡师是如何在奶泡上画出心形和叶子的？这需要精准的温度和纯熟的技巧...",
         "牛奶的质地决定了拉花的成败...",
         "Admin",
         "2024年4月25日",
         "https://picsum.photos/seed/coffee/800/500",
         false),
    Post("8",
         "雨窗边的沉思",
         "雨声是最好的背景音乐。在一个下雨的午后，静静地坐着看雨滴滑过窗户...",
         "孤独并不总是寂寞，有时它是灵魂的洗礼...",
         "Admin",
         "2024年4月20日",
         "https://picsum.photos/seed/rain/800/500",
         false),
    Post("9",
         "山巅之上的壮阔景色",
         "攀登虽然艰辛，但在山顶那一刻的豁然开朗足以弥补所有的疲惫。俯瞰群山...",
         "会当凌绝顶，一览众山小。这种成就感无可比拟...",
         "Admin",
         "2024年4月15日",
         "https://picsum.photos/seed/mountain/800/500",
         false)
  ]


  /** The seed posts have distinct ids and exactly one is featured. */
  lemma InitialPostsShape()
    ensures |InitialPosts| == 9 && PostList.DistinctIds(InitialPosts)
    ensures InitialPosts[0].isFeatured
    ensures forall i :: 1 <= i < |InitialPosts| ==> !InitialPosts[i].isFeatured
  {
    forall i | 0 <= i < |InitialPosts|
      ensures InitialPosts[i].id == [('1' as int + i) as char]
    {
    }
    forall i, j | 0 <= i < j < |InitialPosts|
      ensures InitialPosts[i].id != InitialPosts[j].id
    {
      assert InitialPosts[i].id[0] != InitialPosts[j].id[0];
    }
  }

  // ---------------------------------------------------------------------------
  // The list operations.

  /** `handleSavePost`'s update of the list: the post replaces the first post
      with its id, or is put in front when its id is new. */
  function SaveInList(posts: seq<Post<string>>, p: Post<string>): (r: seq<Post<string>>)
    ensures PostList.FindById(r, p.id) == Some(p)
    ensures |r| == |posts| + (if PostList.FindById(posts, p.id).None? then 1 else 0)
    ensures PostList.FindById(posts, p.id).None? ==> r == [p] + posts
    ensures var k := PostList.FindIndex(posts, p.id);
      k != -1 ==> |r| == |posts| && r[k] == p && forall j :: 0 <= j < |posts| && j != k ==> r[j] == posts[j]
  {
    var k := PostList.FindIndex(posts, p.id);
    if k != -1 then
      FindIndexOfUpdate(posts, k, p);
      posts[k := p]
    else
      assert ([p] + posts)[0] == p;
      [p] + posts
  }

  lemma FindIndexOfUpdate(posts: seq<Post<string>>, k: nat, p: Post<string>)
    requires k < |posts| && PostList.FindIndex(posts, p.id) == k
    ensures PostList.FindIndex(posts[k := p], p.id) == k
  {
    var r := posts[k := p];
    forall j | 0 <= j < k ensures r[j].id != p.id {
      assert r[j] == posts[j];
    }
    FindIndexIs(r, p.id, k);
  }

  /** Saving leaves every other id's post as it was. */
  lemma SaveKeepsOthers(posts: seq<Post<string>>, p: Post<string>, id: string)
    requires id != p.id
    ensures PostList.FindById(SaveInList(posts, p), id) == PostList.FindById(posts, id)
  {
    var k := PostList.FindIndex(posts, p.id);
    var r := SaveInList(posts, p);
    var m := PostList.FindIndex(posts, id);
    if k != -1 {
      assert r == posts[k := p];
      if m != -1 {
        assert r[m] == posts[m];
        FindIndexIs(r, id, m);
      } else {
        assert forall j :: 0 <= j < |r| ==> r[j].id != id by {
          forall j | 0 <= j < |r| ensures r[j].id != id {
            if j != k { assert r[j] == posts[j]; }
          }
        }
      }
    } else {
      assert r == [p] + posts;
      if m != -1 {
        assert r[m + 1] == posts[m];
        forall j | 0 <= j < m + 1 ensures r[j].id != id {
          if j > 0 { assert r[j] == posts[j - 1]; }
        }
        FindIndexIs(r, id, m + 1);
      } else {
        assert forall j :: 0 <= j < |r| ==> r[j].id != id by {
          forall j | 0 <= j < |r| ensures r[j].id != id {
            if j > 0 { assert r[j] == posts[j - 1]; }
          }
        }
      }
    }
  }

  /** The first index holding an id is where FindIndex stops. */
  lemma FindIndexIs(posts: seq<Post<string>>, id: string, k: nat)
    requires k < |posts| && posts[k].id == id
    requires forall j :: 0 <= j < k ==> posts[j].id != id
    ensures PostList.FindIndex(posts, id) == k
  {
  }

  /** Saving keeps ids distinct. */
  lemma SaveKeepsDistinct(posts: seq<Post<string>>, p: Post<string>)
    requires PostList.DistinctIds(posts)
    ensures PostList.DistinctIds(SaveInList(posts, p))
  {
    var k := PostList.FindIndex(posts, p.id);
    var r := SaveInList(posts, p);
    if k != -1 {
      forall i, j | 0 <= i < j < |r| ensures r[i].id != r[j].id {
        if i != k && j != k {
          assert r[i] == posts[i] && r[j] == posts[j];
        } else if i == k {
          assert r[j] == posts[j];
        } else {
          assert r[i] == posts[i];
        }
      }
    } else {
      forall i, j | 0 <= i < j < |r| ensures r[i].id != r[j].id {
        assert r[j] == posts[j - 1];
        if i > 0 { assert r[i] == posts[i - 1]; }
      }
    }
  }

  /** `handleDeletePost`'s filter: no post with that id is left, and with
      distinct ids exactly one post goes when the id was present. */
  lemma DeleteFromList(posts: seq<Post<string>>, id: string)
    requires PostList.DistinctIds(posts)
    ensures PostList.FindById(PostList.WithoutId(posts, id), id).None?
    ensures PostList.DistinctIds(PostList.WithoutId(posts, id))
    ensures |PostList.WithoutId(posts, id)|
         == |posts| - (if PostList.FindById(posts, id).Some? then 1 else 0)
  {
    PostList.WithoutIdKeepsDistinct(posts, id);
    var k := PostList.FindIndex(posts, id);
    if k != -1 {
      PostList.DistinctCountOne(posts, k);
    } else {
      PostList.CountAbsent(posts, id);
    }
  }

  // ---------------------------------------------------------------------------
  // Routing.

  /** What `handleHashChange` does for a given `location.hash`. */
  datatype Decision = Redirect(target: string) | Open(page: Page) | OpenArticle(id: string)

  const ProtectedPaths: seq<string> := ["/post", "/manage"]
  const ArticlePrefix: string := "/article/"

  /** `'/' + hash.split('/')[1]`; a hash without a second segment reads
      `undefined` there. */
  function CurrentPath(hash: string): string {
    var parts := Text.Split(hash, '/');
    if |parts| >= 2 then "/" + parts[1] else "/undefined"
  }

  /** A path with one segment after the leading slash and a rest. */
  lemma SplitPath(section: string, rest: string)
    requires '/' !in section
    ensures Text.Split("/" + section + "/" + rest, '/') == ["", section] + Text.Split(rest, '/')
  {
    Text.SplitAtSep(section, rest, '/');
    Text.SplitWithoutSep(section, '/');
    Text.SplitAtSep("", section + "/" + rest, '/');
    assert "/" + section + "/" + rest == "" + ['/'] + (section + ['/'] + rest);
  }

  /** A path with a single segment. */
  lemma SplitSingle(section: string)
    requires '/' !in section
    ensures Text.Split("/" + section, '/') == ["", section]
  {
    Text.SplitWithoutSep(section, '/');
    Text.SplitAtSep("", section, '/');
    assert "/" + section == "" + ['/'] + section;
  }

  /** An article hash is "", "article" and the pieces of what follows. */
  lemma ArticleSplit(hash: string)
    requires Text.StartsWith(hash, ArticlePrefix)
    ensures Text.Split(hash, '/') == ["", "article"] + Text.Split(hash[9..], '/')
  {
    assert hash == "/" + "article" + "/" + hash[9..];
    SplitPath("article", hash[9..]);
  }

  function Route(locationHash: string, authorized: bool): (d: Decision)
    ensures d.Redirect? ==> d.target == "/login" && !authorized
  {
    var hash := Text.RemoveFirst(locationHash, "#");
    if CurrentPath(hash) in ProtectedPaths && !authorized then Redirect("/login")
    else if Text.StartsWith(hash, ArticlePrefix) then
      ArticleSplit(hash);
      OpenArticle(Text.Split(hash, '/')[2])
    else if hash == "/login" then Open(Login)
    else if hash == "/post" then Open(NewPost)
    else if hash == "/manage" then Open(Manage)
    else Open(Home)
  }

  /** What `navigate(page, id)` assigns to `location.hash`: an article path
      when the id is a non-empty string, else the page's own name. What the
      router makes of it is stated by `ArticleRoundTrip` and
      `NavigateRoundTrip`. */
  function NavigatePath(page: Page, id: Option<string>): string
  {
    if id.Some? && id.value != "" then ArticlePrefix + id.value else "/" + PageName(page)
  }

  /** Reading `location.hash` back after assigning a path that does not
      start with '#'. */
  function HashOf(path: string): string {
    "#" + path
  }

  lemma HashOfPath(path: string)
    ensures Text.RemoveFirst(HashOf(path), "#") == path
  {
    Text.RemoveFirstPrefix(HashOf(path), "#");
    assert HashOf(path)[1..] == path;
  }

  /** The article id is the segment after "/article/", and the guard never
      applies to articles. */
  lemma RouteArticle(rest: string, authorized: bool)
    ensures Route(HashOf(ArticlePrefix + rest), authorized) == OpenArticle(Text.Split(rest, '/')[0])
  {
    var hash := ArticlePrefix + rest;
    HashOfPath(hash);
    assert Text.StartsWith(hash, ArticlePrefix);
    assert hash[9..] == rest;
    ArticleSplit(hash);
  }

  /** Navigating to an article whose id has no slash opens that article. */
  lemma ArticleRoundTrip(page: Page, id: string, authorized: bool)
    requires id != "" && '/' !in id
    ensures Route(HashOf(NavigatePath(page, Some(id))), authorized) == OpenArticle(id)
  {
    RouteArticle(id, authorized);
    Text.SplitWithoutSep(id, '/');
  }

  /** A path of one segment is routed by the guard and the exact
      matches alone: it never reads as an article. */
  lemma RoutePlain(path: string, authorized: bool)
    requires |path| >= 1 && path[0] == '/' && '/' !in path[1..]
    ensures Route(HashOf(path), authorized)
      == if path in ProtectedPaths && !authorized then Redirect("/login")
         else if path == "/login" then Open(Login)
         else if path == "/post" then Open(NewPost)
         else if path == "/manage" then Open(Manage)
         else Open(Home)
  {
    var name := path[1..];
    assert path == "/" + name;
    HashOfPath(path);
    SplitSingle(name);
    assert CurrentPath(path) == path;
    if |path| >= 9 {
      assert path[8] == name[7] != '/';
    }
    assert !Text.StartsWith(path, ArticlePrefix);
  }

  /** Navigating to a page opens it, except that the editor and management
      pages send an unauthorised visitor to the login page and the detail
      page without an id falls back to the home page. */
  lemma NavigateRoundTrip(page: Page, authorized: bool)
    ensures Route(HashOf(NavigatePath(page, None)), authorized)
         == if (page == NewPost || page == Manage) && !authorized then Redirect("/login")
            else if page == Detail then Open(Home)
            else Open(page)
  {
    var path := "/" + PageName(page);
    assert path[1..] == PageName(page);
    RoutePlain(path, authorized);
    if page == NewPost || page == Manage {
      assert path == ProtectedPaths[if page == NewPost then 0 else 1];
    } else {
      Unprotected(path);
    }
  }

  /** Neither guarded path has a second character other than 'p' or 'm'. */
  lemma Unprotected(path: string)
    requires |path| >= 2 && path[1] != 'p' && path[1] != 'm'
    ensures path !in ProtectedPaths
  {
    assert ProtectedPaths[0][1] == 'p' && ProtectedPaths[1][1] == 'm';
  }

  /** The redirect target itself is an open page, so the redirect settles. */
  lemma RedirectSettles(authorized: bool)
    ensures Route(HashOf("/post"), false) == Redirect("/login")
    ensures Route(HashOf("/login"), authorized) == Open(Login)
  {
    RoutePlain("/post", false);
    assert "/post" == ProtectedPaths[0];
    RoutePlain("/login", authorized);
    Unprotected("/login");
  }

  /** The guard covers every path under "/post/" and "/manage/", not only the
      two exact routes; an authorised visitor there gets the home page. */
  lemma GuardCoversSubpaths(section: string, rest: string, authorized: bool)
    requires section == "post" || section == "manage"
    ensures Route(HashOf("/" + section + "/" + rest), authorized)
         == if authorized then Open(Home) else Redirect("/login")
  {
    HashOfPath("/" + section + "/" + rest);
    SubpathFacts(section, rest);
  }

  /** Under a guarded section: the current path is guarded, and the path is
      neither an article nor one of the exact routes. */
  lemma SubpathFacts(section: string, rest: string)
    requires section == "post" || section == "manage"
    ensures var path := "/" + section + "/" + rest;
      CurrentPath(path) in ProtectedPaths && !Text.StartsWith(path, ArticlePrefix)
      && path != "/login" && path != "/post" && path != "/manage"
  {
    var path := "/" + section + "/" + rest;
    assert '/' !in section;
    SplitPath(section, rest);
    assert CurrentPath(path) == "/" + section;
    assert "/" + section == ProtectedPaths[if section == "post" then 0 else 1];
    assert path[1] == section[0] != 'a';
    assert |path| > |section| + 1;
    assert |"/post"| == 5 && |"/manage"| == 7;
  }

  // ---------------------------------------------------------------------------
  // The rendered page.

  datatype View =
    | HomeView(posts: seq<Post<string>>)
    | DetailView(post: Post<string>)
    | NotFound
    | LoginView
    | EditorView(initial: Option<Post<string>>)
    | ManageView(posts: seq<Post<string>>)

  // ---------------------------------------------------------------------------
  // The component state.

  class Shell {
    var posts: seq<Post<string>>
    /** `localStorage['blog_posts']`, decoded. */
    var stored: seq<Post<string>>
    var page: Page
    var selectedId: Option<string>
    /** `window.location.hash`. */
    var hash: string

    /** The storage effect has run: what is stored is the current list. */
    ghost predicate Valid()
      reads this
    {
      stored == posts
    }

    /** First render: the saved list if there is one, else the seed posts. */
    constructor(saved: Option<seq<Post<string>>>, locationHash: string)
      ensures Valid() && page == Home && selectedId == None && hash == locationHash
      ensures posts == if saved.Some? then saved.value else InitialPosts
    {
      posts := if saved.Some? then saved.value else InitialPosts;
      stored := if saved.Some? then saved.value else InitialPosts;
      page := Home;
      selectedId := None;
      hash := locationHash;
    }

    /** `handleHashChange`. A redirect only rewrites the hash; the browser's
        next hashchange event routes the new value. */
    method HandleHashChange(authorized: bool)
      modifies this
      ensures posts == old(posts) && stored == old(stored)
      ensures match Route(old(hash), authorized)
        case Redirect(target) =>
          hash == HashOf(target) && page == old(page) && selectedId == old(selectedId)
        case Open(p) =>
          page == p && selectedId == old(selectedId) && hash == old(hash)
        case OpenArticle(id) =>
          page == Detail && selectedId == Some(id) && hash == old(hash)
    {
      var hashPart := Text.RemoveFirst(hash, "#");
      if CurrentPath(hashPart) in ProtectedPaths && !authorized {
        hash := HashOf("/login");
        return;
      }
      if Text.StartsWith(hashPart, ArticlePrefix) {
        ArticleSplit(hashPart);
        selectedId := Some(Text.Split(hashPart, '/')[2]);
        page := Detail;
      } else if hashPart == "/login" {
        page := Login;
      } else if hashPart == "/post" {
        page := NewPost;
      } else if hashPart == "/manage" {
        page := Manage;
      } else {
        page := Home;
      }
    }

    method Navigate(target: Page, id: Option<string>)
      modifies this
      ensures hash == HashOf(NavigatePath(target, id))
      ensures posts == old(posts) && stored == old(stored)
      ensures page == old(page) && selectedId == old(selectedId)
    {
      if id.Some? && id.value != "" {
        hash := HashOf(ArticlePrefix + id.value);
      } else {
        hash := HashOf("/" + PageName(target));
      }
    }

    /** `handleSavePost`: replace or prepend, store, go to the management
        page. */
    method HandleSavePost(p: Post<string>)
      requires Valid()
      modifies this
      ensures Valid() && posts == SaveInList(old(posts), p)
      ensures hash == HashOf("/manage")
      ensures page == old(page) && selectedId == old(selectedId)
    {
      posts := SaveInList(posts, p);
      stored := posts;
      Navigate(Manage, None);
    }

    /** `handleDeletePost`: only once the visitor confirms. */
    method HandleDeletePost(id: string, confirmed: bool)
      requires Valid()
      modifies this
      ensures Valid()
      ensures posts == if confirmed then PostList.WithoutId(old(posts), id) else old(posts)
      ensures page == old(page) && selectedId == old(selectedId) && hash == old(hash)
    {
      if confirmed {
        posts := PostList.WithoutId(posts, id);
        stored := posts;
      }
    }

    /** The management page's edit button. */
    method EditPost(id: string)
      modifies this
      ensures selectedId == Some(id) && hash == HashOf("/post")
      ensures posts == old(posts) && stored == old(stored) && page == old(page)
    {
      selectedId := Some(id);
      Navigate(NewPost, None);
    }

    /** The management page's new-post button. */
    method NewPostClicked()
      modifies this
      ensures selectedId == None && hash == HashOf("/post")
      ensures posts == old(posts) && stored == old(stored) && page == old(page)
    {
      selectedId := None;
      Navigate(NewPost, None);
    }

    /** `renderPage`: the detail page shows the selected post if the list has
        it, and the editor is primed with the selected post when an id is
        selected. */
    function Render(): (v: View)
      reads this
      ensures page == Home ==> v == HomeView(posts)
      ensures page == Detail ==>
        (v.DetailView? <==> selectedId.Some? && PostList.FindById(posts, selectedId.value).Some?)
      ensures v.DetailView? ==> v.post in posts && Some(v.post.id) == selectedId
      ensures page == NewPost ==> v.EditorView?
      ensures v.EditorView? && v.initial.Some? ==>
        v.initial.value in posts && Some(v.initial.value.id) == selectedId
      ensures v.EditorView? && (selectedId == None || selectedId == Some("")) ==> v.initial == None
      ensures page == NewPost && selectedId.Some? && selectedId.value != "" ==>
        v == EditorView(PostList.FindById(posts, selectedId.value))
      ensures page == Detail && selectedId.Some? && PostList.FindById(posts, selectedId.value).Some? ==>
        v == DetailView(PostList.FindById(posts, selectedId.value).value)
      ensures page == Detail && !(selectedId.Some? && PostList.FindById(posts, selectedId.value).Some?) ==>
        v == NotFound
      ensures page == Login ==> v == LoginView
      ensures page == Manage ==> v == ManageView(posts)
    {
      match page
      case Home => HomeView(posts)
      case Detail =>
        var found := if selectedId.Some? then PostList.FindById(posts, selectedId.value) else None;
        if found.Some? then DetailView(found.value) else NotFound
      case Login => LoginView
      case NewPost =>
        EditorView(if selectedId.Some? && selectedId.value != ""
                   then PostList.FindById(posts, selectedId.value) else None)
      case Manage => ManageView(posts)
    }
  }
}
