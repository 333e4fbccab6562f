/** The SQLite-backed post store of lib/db.ts. The in-browser database is a
    table `posts` whose `id` is `INTEGER PRIMARY KEY AUTOINCREMENT`; after
    every write the whole database file is exported and kept, base64 encoded,
    under one key of the browser's storage, and the next page load starts
    from that image. */
module Db {
  import opened Types
  import PostList

  const StorageKey: string := "sqlite_blog_v2"

  /** One row of `posts`, without its id. `isFeatured` is the INTEGER column. */
  datatype Row = Row(
    title: string,
    excerpt: string,
    content: string,
    author: string,
    date: string,
    imageUrl: string,
    isFeatured: int)

  /** The database file: the rows by id and the AUTOINCREMENT counter (the
      largest id ever handed out, kept by SQLite in `sqlite_sequence`). */
  datatype Image = Image(rows: map<int, Row>, lastId: int)

  ghost predicate ImageValid(img: Image) {
    img.lastId >= 0 && forall id :: id in img.rows ==> 0 < id <= img.lastId
  }

  /** The bound parameters of INSERT and UPDATE: a boolean flag is stored as
      1 or 0. */
  function ToRow(p: Post<int>): (row: Row)
    ensures row.isFeatured == 1 <==> p.isFeatured
    ensures row.isFeatured == 0 || row.isFeatured == 1
  {
    Row(p.title, p.excerpt, p.content, p.author, p.date, p.imageUrl,
        if p.isFeatured then 1 else 0)
  }

  /** One result row of `getAllPosts`: the columns copied by name, then
      `isFeatured === 1`. */
  function ToPost(id: int, row: Row): (p: Post<int>)
    ensures p.id == id
    ensures p.isFeatured <==> row.isFeatured == 1
  {
    Post(id, row.title, row.excerpt, row.content, row.author, row.date, row.imageUrl,
         row.isFeatured == 1)
  }

  /** Writing a post and reading it back under its own id gives the post. */
  lemma ToPostToRow(p: Post<int>)
    ensures ToPost(p.id, ToRow(p)) == p
  {
  }

  /** A row whose flag is 0 or 1 survives being read and written back. */
  lemma ToRowToPost(id: int, row: Row)
    requires row.isFeatured == 0 || row.isFeatured == 1
    ensures ToRow(ToPost(id, row)) == row
  {
  }

  // ---------------------------------------------------------------------------
  // The statements, on the database image.

  /** `INSERT`: the row gets the next AUTOINCREMENT id. */
  function Insert(img: Image, row: Row): Image {
    Image(img.rows[img.lastId + 1 := row], img.lastId + 1)
  }

  /** `UPDATE ... WHERE id=?`: touches the row with that id, if any. */
  function Update(img: Image, id: int, row: Row): Image {
    if id in img.rows then Image(img.rows[id := row], img.lastId) else img
  }

  /** `DELETE ... WHERE id = ?`. The counter is not reset, so an id is never
      handed out twice. */
  function Delete(img: Image, id: int): Image {
    Image(img.rows - {id}, img.lastId)
  }

  /** The ids from `hi` down to 1 that hold a row, as posts: the result of
      `SELECT * FROM posts ORDER BY id DESC` over those ids. */
  function Scan(rows: map<int, Row>, hi: int): seq<Post<int>>
    decreases hi
  {
    if hi <= 0 then []
    else if hi in rows then [ToPost(hi, rows[hi])] + Scan(rows, hi - 1)
    else Scan(rows, hi - 1)
  }

  /** The scan holds the rows of its range and nothing else, each once, in
      descending id order. */
  lemma {:induction false} ScanSound(rows: map<int, Row>, hi: int)
    ensures forall i :: 0 <= i < |Scan(rows, hi)| ==>
      0 < Scan(rows, hi)[i].id <= hi && Scan(rows, hi)[i].id in rows
      && Scan(rows, hi)[i] == ToPost(Scan(rows, hi)[i].id, rows[Scan(rows, hi)[i].id])
    ensures forall i, j :: 0 <= i < j < |Scan(rows, hi)| ==> Scan(rows, hi)[i].id > Scan(rows, hi)[j].id
    ensures forall id :: id in rows && 0 < id <= hi ==> ToPost(id, rows[id]) in Scan(rows, hi)
    decreases hi
  {
    if hi > 0 {
      ScanSound(rows, hi - 1);
      var r, tail := Scan(rows, hi), Scan(rows, hi - 1);
      if hi in rows {
        assert r == [ToPost(hi, rows[hi])] + tail;
        forall i | 0 <= i < |r| ensures 0 < r[i].id <= hi && r[i].id in rows && r[i] == ToPost(r[i].id, rows[r[i].id]) {
          if i > 0 { assert r[i] == tail[i - 1]; }
        }
        forall i, j | 0 <= i < j < |r| ensures r[i].id > r[j].id {
          assert r[j] == tail[j - 1];
          if i > 0 { assert r[i] == tail[i - 1]; }
        }
      }
    }
  }

  /** Every post of the table, newest id first. */
  function Listing(img: Image): seq<Post<int>> {
    Scan(img.rows, img.lastId)
  }

  /** A scan only sees the rows with ids in its range. */
  lemma {:induction false} ScanAgree(r1: map<int, Row>, r2: map<int, Row>, hi: int)
    requires forall id :: 0 < id <= hi ==> (id in r1 <==> id in r2)
    requires forall id :: 0 < id <= hi && id in r1 ==> r1[id] == r2[id]
    ensures Scan(r1, hi) == Scan(r2, hi)
    decreases hi
  {
    if hi > 0 {
      ScanAgree(r1, r2, hi - 1);
    }
  }

  /** A freshly inserted post comes first in the listing, ahead of every post
      that was there, which keep their order. */
  lemma InsertFirst(img: Image, row: Row)
    requires ImageValid(img)
    ensures ImageValid(Insert(img, row))
    ensures Listing(Insert(img, row)) == [ToPost(img.lastId + 1, row)] + Listing(img)
  {
    var n := img.lastId + 1;
    ScanAgree(img.rows[n := row], img.rows, img.lastId);
  }

  /** The new id was never used: it is above every id in the table. */
  lemma InsertFresh(img: Image, row: Row)
    requires ImageValid(img)
    ensures img.lastId + 1 !in img.rows
    ensures forall id :: id in img.rows ==> id < img.lastId + 1
  {
  }

  /** An update replaces the post with that id in place and leaves every other
      post, and the order, as it was. */
  lemma {:induction false} ScanUpdate(rows: map<int, Row>, id: int, row: Row, hi: int)
    requires id in rows
    ensures |Scan(rows[id := row], hi)| == |Scan(rows, hi)|
    ensures forall i :: 0 <= i < |Scan(rows, hi)| ==>
      Scan(rows[id := row], hi)[i] ==
        (if Scan(rows, hi)[i].id == id then ToPost(id, row) else Scan(rows, hi)[i])
    decreases hi
  {
    if hi > 0 {
      ScanUpdate(rows, id, row, hi - 1);
    }
  }

  lemma UpdateInPlace(img: Image, p: Post<int>)
    requires ImageValid(img)
    ensures ImageValid(Update(img, p.id, ToRow(p)))
    ensures |Listing(Update(img, p.id, ToRow(p)))| == |Listing(img)|
    ensures forall i :: 0 <= i < |Listing(img)| ==>
      Listing(Update(img, p.id, ToRow(p)))[i] ==
        (if Listing(img)[i].id == p.id then p else Listing(img)[i])
  {
    ToPostToRow(p);
    if p.id in img.rows {
      ScanUpdate(img.rows, p.id, ToRow(p), img.lastId);
    } else {
      ScanSound(img.rows, img.lastId);
    }
  }

  /** Deleting an id is filtering it out of the listing. */
  lemma {:induction false} ScanDelete(rows: map<int, Row>, id: int, hi: int)
    ensures Scan(rows - {id}, hi) == PostList.WithoutId(Scan(rows, hi), id)
    decreases hi
  {
    if hi > 0 {
      ScanDelete(rows, id, hi - 1);
      ScanRemovedStep(rows, id, hi);
      if hi in rows {
        PostList.WithoutIdCons(ToPost(hi, rows[hi]), Scan(rows, hi - 1), id);
      }
    }
  }

  /** One step of the scan over the rows without `id`. */
  lemma ScanRemovedStep(rows: map<int, Row>, id: int, hi: int)
    requires hi > 0
    ensures hi in rows && hi != id ==>
      Scan(rows - {id}, hi) == [ToPost(hi, rows[hi])] + Scan(rows - {id}, hi - 1)
    ensures !(hi in rows && hi != id) ==> Scan(rows - {id}, hi) == Scan(rows - {id}, hi - 1)
  {
    if hi in rows && hi != id {
      assert (rows - {id})[hi] == rows[hi];
    } else {
      assert hi !in rows - {id};
    }
  }

  lemma DeleteRemoves(img: Image, id: int)
    requires ImageValid(img)
    ensures ImageValid(Delete(img, id))
    ensures Listing(Delete(img, id)) == PostList.WithoutId(Listing(img), id)
    ensures PostList.FindById(Listing(Delete(img, id)), id).None?
  {
    ScanDelete(img.rows, id, img.lastId);
  }

  // ---------------------------------------------------------------------------
  // Seed data.

  const SeedRows: seq<Row> := [
    Row("欢迎来到我的个人博客",
        "这是一个基于 SQLite 的高保定个人出版平台。",
        "## 开始你的创作\n\n你可以登录后台管理系统，发布、编辑或删除文章。所有的变更都会实时同步到 SQLite 数据库中。",
        "Admin",
        "2024年5月10日",
        "https://picsum.photos/seed/writing/1200/600",
        1)
  ]

  /** The seed rows inserted one after the other. */
  function InsertAll(img: Image, rows: seq<Row>): Image
    decreases |rows|
  {
    if |rows| == 0 then img else InsertAll(Insert(img, rows[0]), rows[1..])
  }

  lemma {:induction false} InsertAllSnoc(img: Image, rows: seq<Row>, row: Row)
    ensures InsertAll(img, rows + [row]) == Insert(InsertAll(img, rows), row)
    decreases |rows|
  {
    if |rows| == 0 {
      assert rows + [row] == [row];
    } else {
      assert (rows + [row])[1..] == rows[1..] + [row];
      InsertAllSnoc(Insert(img, rows[0]), rows[1..], row);
    }
  }

  /** A fresh database holds exactly the one featured welcome post, id 1. */
  lemma SeededListing()
    ensures Listing(InsertAll(Image(map[], 0), SeedRows))
         == [Post(1, SeedRows[0].title, SeedRows[0].excerpt, SeedRows[0].content,
                  SeedRows[0].author, SeedRows[0].date, SeedRows[0].imageUrl, true)]
  {
    var img := InsertAll(Image(map[], 0), SeedRows);
    assert img == Image(map[1 := SeedRows[0]], 1);
    assert Scan(img.rows, 0) == [];
  }

  // ---------------------------------------------------------------------------
  // The module state: the open database handle and the browser storage slot.

  datatype InitOutcome = Loaded | Created | AlreadyOpen

  class Store {
    /** `db` is non-null. */
    var open: bool
    var rows: map<int, Row>
    var lastId: int
    /** What `localStorage[StorageKey]` holds, decoded. */
    var snapshot: Option<Image>

    ghost predicate Valid()
      reads this
    {
      ImageValid(Image(rows, lastId)) && (snapshot.Some? ==> ImageValid(snapshot.value))
    }

    function Current(): Image
      reads this
    {
      Image(rows, lastId)
    }

    /** A page load: no database yet, and whatever an earlier page persisted. */
    constructor(saved: Option<Image>)
      requires saved.Some? ==> ImageValid(saved.value)
      ensures Valid() && !open && snapshot == saved
    {
      open := false;
      rows := map[];
      lastId := 0;
      snapshot := saved;
    }

    /** `initDB`: a no-op once open; otherwise the persisted image if there is
        one, else a new table with the seed data, which is then persisted. */
    method InitDB() returns (outcome: InitOutcome)
      requires Valid()
      modifies this
      ensures Valid() && open
      ensures old(open) ==> outcome == AlreadyOpen && unchanged(this)
      ensures !old(open) && old(snapshot).Some? ==>
        outcome == Loaded && Current() == old(snapshot).value && snapshot == old(snapshot)
      ensures !old(open) && old(snapshot).None? ==>
        outcome == Created && Current() == InsertAll(Image(map[], 0), SeedRows)
        && snapshot == Some(Current())
    {
      if open {
        return AlreadyOpen;
      }
      if snapshot.Some? {
        rows := snapshot.value.rows;
        lastId := snapshot.value.lastId;
        open := true;
        return Loaded;
      }
      rows := map[];
      lastId := 0;
      open := true;
      SeedData();
      outcome := Created;
    }

    /** `persist`: the exported file replaces the stored image. */
    method Persist()
      requires Valid()
      modifies this
      ensures Valid() && snapshot == Some(Current())
      ensures open == old(open) && rows == old(rows) && lastId == old(lastId)
    {
      snapshot := Some(Image(rows, lastId));
    }

    /** One INSERT statement; returns `last_insert_rowid()`. */
    method InsertRow(row: Row) returns (id: int)
      requires Valid()
      modifies this
      ensures Valid() && Current() == Insert(old(Current()), row) && id == lastId
      ensures open == old(open) && snapshot == old(snapshot)
    {
      id := lastId + 1;
      rows := rows[id := row];
      lastId := id;
    }

    /** `seedData`: each seed row inserted in turn, then one persist. */
    method SeedData()
      requires Valid()
      modifies this
      ensures Valid() && Current() == InsertAll(old(Current()), SeedRows)
      ensures snapshot == Some(Current()) && open == old(open)
    {
      ghost var start := Current();
      for i := 0 to |SeedRows|
        invariant Valid() && open == old(open)
        invariant Current() == InsertAll(start, SeedRows[..i])
      {
        InsertAllSnoc(start, SeedRows[..i], SeedRows[i]);
        assert SeedRows[..i + 1] == SeedRows[..i] + [SeedRows[i]];
        var _ := InsertRow(SeedRows[i]);
      }
      assert SeedRows[..|SeedRows|] == SeedRows;
      Persist();
    }

    /** `getAllPosts`: every row, newest id first, with the flag read as a
        boolean. */
    function GetAllPosts(): (posts: seq<Post<int>>)
      reads this
      requires open
      ensures forall i :: 0 <= i < |posts| ==>
        posts[i].id in rows && posts[i] == ToPost(posts[i].id, rows[posts[i].id])
      ensures forall i, j :: 0 <= i < j < |posts| ==> posts[i].id > posts[j].id
      ensures Valid() ==> forall id :: id in rows ==> ToPost(id, rows[id]) in posts
    {
      ScanSound(rows, lastId);
      Listing(Current())
    }

    /** `savePost`: a non-zero id updates that row (and nothing if there is
        none), any other post is inserted; the database is persisted either
        way and the id of the post is returned. */
    method SavePost(p: Post<int>) returns (id: int)
      requires Valid() && open
      modifies this
      ensures Valid() && open && snapshot == Some(Current())
      ensures p.id != 0 ==> id == p.id && Current() == Update(old(Current()), p.id, ToRow(p))
      ensures p.id == 0 ==> id == old(lastId) + 1 && Current() == Insert(old(Current()), ToRow(p))
    {
      if p.id != 0 {
        if p.id in rows {
          rows := rows[p.id := ToRow(p)];
        }
        Persist();
        id := p.id;
      } else {
        id := InsertRow(ToRow(p));
        Persist();
      }
    }

    /** `deletePost`: DELETE, then persist once the id is confirmed gone. */
    method DeletePost(id: int)
      requires Valid() && open
      modifies this
      ensures Valid() && open && snapshot == Some(Current())
      ensures Current() == Delete(old(Current()), id)
    {
      rows := rows - {id};
      if id !in rows {
        Persist();
      }
    }
  }

  // ---------------------------------------------------------------------------
  // What the store promises its pages.

  /** Saving a new post puts it at the top of the list under a fresh id. */
  method SaveNewShowsFirst(store: Store, p: Post<int>) returns (id: int)
    requires store.Valid() && store.open && p.id == 0
    modifies store
    ensures store.Valid() && store.open
    ensures store.GetAllPosts() == [p.(id := id)] + old(store.GetAllPosts())
    ensures forall q :: q in old(store.GetAllPosts()) ==> q.id < id
  {
    ghost var before := store.Current();
    id := store.SavePost(p);
    InsertFirst(before, ToRow(p));
    InsertFresh(before, ToRow(p));
    ToPostToRow(p.(id := id));
  }

  /** A page load after any write sees the same posts. */
  method Reload(store: Store) returns (next: Store)
    requires store.Valid() && store.open && store.snapshot == Some(store.Current())
    ensures fresh(next) && next.Valid() && next.open
    ensures next.GetAllPosts() == store.GetAllPosts()
  {
    next := new Store(store.snapshot);
    var _ := next.InitDB();
  }
}
