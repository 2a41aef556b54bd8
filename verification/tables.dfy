/**
  The three read-only tables the service queries (authors, posts,
  engagements), held in memory as sequences of rows, and the row selections
  the SQL joins are built from.
 */
module Tables {
  import opened Sql

  type DayOfWeek = d: int | 0 <= d <= 6
  type HourOfDay = h: int | 0 <= h <= 23

  /**
    `engaged_timestamp`. `instant` counts seconds; `month` is the bucket
    DATE_TRUNC('month', ...) puts it in (an ordered key), and `dayOfWeek`
    (0 = Sunday) and `hour` are what EXTRACT(DOW / HOUR ...) returns for it.
    The calendar that relates them to `instant` is the database's.
   */
  datatype Timestamp = Timestamp(instant: int, month: int, dayOfWeek: DayOfWeek, hour: HourOfDay)

  datatype Author = Author(authorId: int, name: string)
  datatype Post = Post(postId: int, authorId: int)
  datatype Engagement = Engagement(engagementId: int, postId: int, engagedAt: Timestamp)

  datatype Store = Store(authors: seq<Author>, posts: seq<Post>, engagements: seq<Engagement>)

  function AuthorIds(authors: seq<Author>): (ids: seq<int>)
    ensures |ids| == |authors|
    ensures forall i :: 0 <= i < |authors| ==> ids[i] == authors[i].authorId
  {
    if authors == [] then [] else [authors[0].authorId] + AuthorIds(authors[1..])
  }

  function PostIds(posts: seq<Post>): (ids: seq<int>)
    ensures |ids| == |posts|
    ensures forall i :: 0 <= i < |posts| ==> ids[i] == posts[i].postId
  {
    if posts == [] then [] else [posts[0].postId] + PostIds(posts[1..])
  }

  /** author_id and post_id are keys: no two rows share one. */
  predicate UniqueKeys(db: Store)
  {
    NoDup(AuthorIds(db.authors)) && NoDup(PostIds(db.posts))
  }

  /** Every post names an existing author and every engagement an existing post. */
  predicate ReferencesResolve(db: Store)
  {
    && (forall p :: p in db.posts ==> p.authorId in AuthorIds(db.authors))
    && (forall e :: e in db.engagements ==> e.postId in PostIds(db.posts))
  }

  /** The integrity the queries take for granted but the service does not enforce. */
  predicate WellFormed(db: Store)
  {
    UniqueKeys(db) && ReferencesResolve(db)
  }

  /** The post rows an equi-join on post_id pairs with `postId`. */
  function PostsWithId(posts: seq<Post>, postId: int): (r: seq<Post>)
    ensures forall p :: p in r <==> p in posts && p.postId == postId
    ensures |r| == multiset(PostIds(posts))[postId]
  {
    if posts == [] then []
    else
      assert PostIds(posts) == [posts[0].postId] + PostIds(posts[1..]);
      (if posts[0].postId == postId then [posts[0]] else []) + PostsWithId(posts[1..], postId)
  }

  /** The author rows an equi-join on author_id pairs with `authorId`. */
  function AuthorsWithId(authors: seq<Author>, authorId: int): (r: seq<Author>)
    ensures forall a :: a in r <==> a in authors && a.authorId == authorId
    ensures |r| == multiset(AuthorIds(authors))[authorId]
  {
    if authors == [] then []
    else
      assert AuthorIds(authors) == [authors[0].authorId] + AuthorIds(authors[1..]);
      (if authors[0].authorId == authorId then [authors[0]] else []) + AuthorsWithId(authors[1..], authorId)
  }

  /** The posts written by `authorId`, in table order. */
  function PostsByAuthor(posts: seq<Post>, authorId: int): (r: seq<Post>)
    ensures forall p :: p in r <==> p in posts && p.authorId == authorId
  {
    if posts == [] then []
    else (if posts[0].authorId == authorId then [posts[0]] else []) + PostsByAuthor(posts[1..], authorId)
  }

  /** The ids of rows drawn from `posts` are ids of `posts`. */
  lemma {:induction false} PostIdsOfSubset(r: seq<Post>, posts: seq<Post>)
    requires forall p :: p in r ==> p in posts
    ensures forall x :: x in PostIds(r) ==> x in PostIds(posts)
  {
    forall x | x in PostIds(r)
      ensures x in PostIds(posts)
    {
      var i :| 0 <= i < |r| && PostIds(r)[i] == x;
      assert r[i] in r;
      var j :| 0 <= j < |posts| && posts[j] == r[i];
      assert PostIds(posts)[j] == x;
    }
  }

  /** Selecting one author's posts keeps post ids unique. */
  lemma {:induction false} PostsByAuthorUnique(posts: seq<Post>, authorId: int)
    requires NoDup(PostIds(posts))
    ensures NoDup(PostIds(PostsByAuthor(posts, authorId)))
  {
    if posts != [] {
      var head, tail := posts[0], posts[1..];
      var rest := PostsByAuthor(tail, authorId);
      PostIdsCons(head, tail);
      NoDupCons(head.postId, PostIds(tail));
      PostsByAuthorUnique(tail, authorId);
      if head.authorId == authorId {
        PostIdsOfSubset(rest, tail);
        assert PostsByAuthor(posts, authorId) == [head] + rest;
        PostIdsCons(head, rest);
        NoDupCons(head.postId, PostIds(rest));
      } else {
        assert PostsByAuthor(posts, authorId) == rest;
      }
    }
  }

  lemma PostIdsCons(head: Post, tail: seq<Post>)
    ensures PostIds([head] + tail) == [head.postId] + PostIds(tail)
  {
    assert ([head] + tail)[1..] == tail;
  }

  /** The engagements recorded on post `postId`, in table order. */
  function EngagementsOnPost(engagements: seq<Engagement>, postId: int): (r: seq<Engagement>)
    ensures forall e :: e in r <==> e in engagements && e.postId == postId
    ensures |r| == EngagementsOnPosts(engagements, {postId})
  {
    if engagements == [] then []
    else (if engagements[0].postId == postId then [engagements[0]] else []) + EngagementsOnPost(engagements[1..], postId)
  }

  /** How many engagements are recorded on one of the posts `postIds`. */
  function EngagementsOnPosts(engagements: seq<Engagement>, postIds: set<int>): nat
  {
    if engagements == [] then 0
    else (if engagements[0].postId in postIds then 1 else 0) + EngagementsOnPosts(engagements[1..], postIds)
  }

  /** Counting over disjoint sets of posts adds up. */
  lemma {:induction false} EngagementsOnPostsDisjointUnion(engagements: seq<Engagement>, xs: set<int>, ys: set<int>)
    requires xs !! ys
    ensures EngagementsOnPosts(engagements, xs + ys) == EngagementsOnPosts(engagements, xs) + EngagementsOnPosts(engagements, ys)
  {
    if engagements != [] {
      EngagementsOnPostsDisjointUnion(engagements[1..], xs, ys);
    }
  }
}
