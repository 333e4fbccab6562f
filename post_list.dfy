/** Lookups and filters by id over a list of posts: the `findIndex`, `find`
    and `filter(p => p.id !== id)` calls shared by the in-memory list store
    (App.tsx) and the home feed (pages/Home.tsx). */
module PostList {
  import opened Types

  /** `posts.findIndex(p => p.id === id)`: the first index holding `id`, or -1. */
  function FindIndex<Id(==)>(posts: seq<Post<Id>>, id: Id): (k: int)
    ensures -1 <= k < |posts|
    ensures k >= 0 ==> posts[k].id == id && forall j :: 0 <= j < k ==> posts[j].id != id
    ensures k == -1 <==> forall j :: 0 <= j < |posts| ==> posts[j].id != id
    decreases |posts|
  {
    if |posts| == 0 then -1
    else if posts[0].id == id then 0
    else
      var k := FindIndex(posts[1..], id);
      if k == -1 then -1 else k + 1
  }

  /** `posts.find(p => p.id === id)`. */
  function FindById<Id(==)>(posts: seq<Post<Id>>, id: Id): (r: Option<Post<Id>>)
    ensures r.None? <==> forall j :: 0 <= j < |posts| ==> posts[j].id != id
    ensures r.Some? ==> r.value.id == id && r.value in posts
    ensures r.Some? ==> r.value == posts[FindIndex(posts, id)]
  {
    var k := FindIndex(posts, id);
    if k == -1 then None else Some(posts[k])
  }

  /** How many posts carry `id`. */
  function CountId<Id(==)>(posts: seq<Post<Id>>, id: Id): nat
    decreases |posts|
  {
    if |posts| == 0 then 0
    else (if posts[0].id == id then 1 else 0) + CountId(posts[1..], id)
  }

  ghost predicate DistinctIds<Id>(posts: seq<Post<Id>>) {
    forall i, j :: 0 <= i < j < |posts| ==> posts[i].id != posts[j].id
  }

  /** `posts.filter(p => p.id !== id)`: every post with another id, and only
      those; exactly the posts carrying `id` are dropped. */
  function WithoutId<Id(==)>(posts: seq<Post<Id>>, id: Id): (r: seq<Post<Id>>)
    ensures forall i :: 0 <= i < |r| ==> r[i].id != id && r[i] in posts
    ensures forall i :: 0 <= i < |posts| && posts[i].id != id ==> posts[i] in r
    ensures |r| == |posts| - CountId(posts, id)
    decreases |posts|
  {
    if |posts| == 0 then []
    else if posts[0].id == id then WithoutId(posts[1..], id)
    else [posts[0]] + WithoutId(posts[1..], id)
  }

  /** The filter works post by post, so the kept posts keep their order. */
  lemma {:induction false} WithoutIdConcat<Id>(a: seq<Post<Id>>, b: seq<Post<Id>>, id: Id)
    ensures WithoutId(a + b, id) == WithoutId(a, id) + WithoutId(b, id)
    decreases |a|
  {
    if |a| == 0 {
      assert a + b == b;
    } else {
      assert (a + b)[0] == a[0];
      assert (a + b)[1..] == a[1..] + b;
      WithoutIdConcat(a[1..], b, id);
    }
  }

  /** One step of the filter. */
  lemma WithoutIdCons<Id>(p: Post<Id>, posts: seq<Post<Id>>, id: Id)
    ensures p.id == id ==> WithoutId([p] + posts, id) == WithoutId(posts, id)
    ensures p.id != id ==> WithoutId([p] + posts, id) == [p] + WithoutId(posts, id)
  {
    assert ([p] + posts)[1..] == posts;
  }

  /** Filtering out an id nobody carries changes nothing. */
  lemma {:induction false} WithoutAbsentId<Id>(posts: seq<Post<Id>>, id: Id)
    requires forall j :: 0 <= j < |posts| ==> posts[j].id != id
    ensures WithoutId(posts, id) == posts
    decreases |posts|
  {
    if |posts| > 0 {
      WithoutAbsentId(posts[1..], id);
      assert [posts[0]] + posts[1..] == posts;
    }
  }

  /** In a list with distinct ids, an id that is present is carried once. */
  lemma {:induction false} DistinctCountOne<Id>(posts: seq<Post<Id>>, k: nat)
    requires DistinctIds(posts) && k < |posts|
    ensures CountId(posts, posts[k].id) == 1
    decreases |posts|
  {
    var id := posts[k].id;
    if k == 0 {
      assert forall j :: 0 <= j < |posts[1..]| ==> posts[1..][j].id != id by {
        forall j | 0 <= j < |posts[1..]| ensures posts[1..][j].id != id {
          assert posts[1..][j] == posts[j + 1];
        }
      }
      CountAbsent(posts[1..], id);
    } else {
      assert posts[0].id != id;
      DistinctCountOne(posts[1..], k - 1);
      assert posts[1..][k - 1] == posts[k];
    }
  }

  lemma {:induction false} CountAbsent<Id>(posts: seq<Post<Id>>, id: Id)
    requires forall j :: 0 <= j < |posts| ==> posts[j].id != id
    ensures CountId(posts, id) == 0
    decreases |posts|
  {
    if |posts| > 0 {
      CountAbsent(posts[1..], id);
    }
  }

  /** Filtering keeps ids distinct. */
  lemma {:induction false} WithoutIdKeepsDistinct<Id>(posts: seq<Post<Id>>, id: Id)
    requires DistinctIds(posts)
    ensures DistinctIds(WithoutId(posts, id))
    decreases |posts|
  {
    if |posts| > 0 {
      DistinctTail(posts);
      var rest := WithoutId(posts[1..], id);
      WithoutIdKeepsDistinct(posts[1..], id);
      forall i | 0 <= i < |rest| ensures rest[i].id != posts[0].id {
        assert rest[i] in posts[1..];
      }
      if posts[0].id != id {
        DistinctCons(posts[0], rest);
      }
    }
  }

  /** The posts after the first keep distinct ids, none of them the first's. */
  lemma DistinctTail<Id>(posts: seq<Post<Id>>)
    requires DistinctIds(posts) && |posts| > 0
    ensures DistinctIds(posts[1..])
    ensures forall q :: q in posts[1..] ==> q.id != posts[0].id
  {
    forall i, j | 0 <= i < j < |posts[1..]| ensures posts[1..][i].id != posts[1..][j].id {
      assert posts[1..][i] == posts[i + 1] && posts[1..][j] == posts[j + 1];
    }
    forall q | q in posts[1..] ensures q.id != posts[0].id {
      var m :| 0 <= m < |posts[1..]| && posts[1..][m] == q;
      assert posts[m + 1] == q;
    }
  }

  /** A post in front of posts with distinct ids other than its own. */
  lemma DistinctCons<Id>(p: Post<Id>, rest: seq<Post<Id>>)
    requires DistinctIds(rest)
    requires forall i :: 0 <= i < |rest| ==> rest[i].id != p.id
    ensures DistinctIds([p] + rest)
  {
    var s := [p] + rest;
    forall i, j | 0 <= i < j < |s| ensures s[i].id != s[j].id {
      assert s[j] == rest[j - 1];
      if i > 0 { assert s[i] == rest[i - 1]; }
    }
  }
}
