/**
  GET /api/engagement/scatter: for every author, including those without
  posts, the number of distinct posts, the number of engagements on them,
  and engagements per post rounded to two decimals (NULL when there are no
  posts). The query has no ORDER BY; the model lists authors in table order.
 */
module Scatter {
  import opened Sql
  import opened Tables

  // ---------------------------------------------------------------------------
  // authors a LEFT JOIN posts p ON a.author_id = p.author_id
  //           LEFT JOIN engagements e ON p.post_id = e.post_id
  // ---------------------------------------------------------------------------

  /** A row of the left join; a NULL column is a side that found no match. */
  datatype JoinRow = JoinRow(author: Author, postId: Nullable<int>, engagementId: Nullable<int>)

  /** The rows pairing author `a`'s post `postId` with each of its engagements. */
  function EngagementRows(a: Author, postId: int, es: seq<Engagement>): (rows: seq<JoinRow>)
    ensures |rows| == |es|
    ensures forall r :: r in rows ==> r.author == a && r.postId == Value(postId) && r.engagementId.Value?
  {
    if es == [] then []
    else [JoinRow(a, Value(postId), Value(es[0].engagementId))] + EngagementRows(a, postId, es[1..])
  }

  /** The rows for author `a`'s posts `ps`: a post without engagements keeps one row with a NULL engagement. */
  function PostRows(a: Author, ps: seq<Post>, engagements: seq<Engagement>): (rows: seq<JoinRow>)
    ensures forall r :: r in rows ==> r.author == a && r.postId.Value?
  {
    if ps == [] then []
    else
      var es := EngagementsOnPost(engagements, ps[0].postId);
      (if es == [] then [JoinRow(a, Value(ps[0].postId), Null)] else EngagementRows(a, ps[0].postId, es))
      + PostRows(a, ps[1..], engagements)
  }

  /** The rows for one author row: an author without posts keeps one all-NULL row. */
  function AuthorRows(a: Author, posts: seq<Post>, engagements: seq<Engagement>): (rows: seq<JoinRow>)
    ensures forall r :: r in rows ==> r.author == a
  {
    var ps := PostsByAuthor(posts, a.authorId);
    if ps == [] then [JoinRow(a, Null, Null)] else PostRows(a, ps, engagements)
  }

  /** The whole left join, author row by author row. */
  function LeftJoin(authors: seq<Author>, posts: seq<Post>, engagements: seq<Engagement>): (rows: seq<JoinRow>)
    ensures forall r :: r in rows ==> r.author in authors && r in AuthorRows(r.author, posts, engagements)
  {
    if authors == [] then []
    else AuthorRows(authors[0], posts, engagements) + LeftJoin(authors[1..], posts, engagements)
  }

  /** Each engagement of the post yields its row. */
  lemma {:induction false} EngagementRowsHas(a: Author, postId: int, es: seq<Engagement>, x: Engagement)
    requires x in es
    ensures JoinRow(a, Value(postId), Value(x.engagementId)) in EngagementRows(a, postId, es)
  {
    if x != es[0] {
      EngagementRowsHas(a, postId, es[1..], x);
    }
  }

  /** Each (post, engagement on it) pair of `ps` yields its row. */
  lemma {:induction false} PostRowsHas(a: Author, ps: seq<Post>, engagements: seq<Engagement>, p: Post, x: Engagement)
    requires p in ps && x in EngagementsOnPost(engagements, p.postId)
    ensures JoinRow(a, Value(p.postId), Value(x.engagementId)) in PostRows(a, ps, engagements)
  {
    if p == ps[0] {
      EngagementRowsHas(a, p.postId, EngagementsOnPost(engagements, p.postId), x);
    } else {
      PostRowsHas(a, ps[1..], engagements, p, x);
    }
  }

  /** A post of `ps` without engagements yields a row with a NULL engagement. */
  lemma {:induction false} PostRowsHasNull(a: Author, ps: seq<Post>, engagements: seq<Engagement>, p: Post)
    requires p in ps && EngagementsOnPost(engagements, p.postId) == []
    ensures JoinRow(a, Value(p.postId), Null) in PostRows(a, ps, engagements)
  {
    if p != ps[0] {
      PostRowsHasNull(a, ps[1..], engagements, p);
    }
  }

  /** A row with a NULL engagement comes from a post without engagements. */
  lemma {:induction false} PostRowsNullFrom(a: Author, ps: seq<Post>, engagements: seq<Engagement>, r: JoinRow)
    requires r in PostRows(a, ps, engagements) && r.engagementId.Null?
    ensures EngagementsOnPost(engagements, r.postId.value) == []
  {
    var es := EngagementsOnPost(engagements, ps[0].postId);
    if r !in (if es == [] then [JoinRow(a, Value(ps[0].postId), Null)] else EngagementRows(a, ps[0].postId, es)) {
      PostRowsNullFrom(a, ps[1..], engagements, r);
    }
  }

  /** Every row an author row produces is in the join. */
  lemma {:induction false} LeftJoinHas(authors: seq<Author>, posts: seq<Post>, engagements: seq<Engagement>, a: Author, r: JoinRow)
    requires a in authors && r in AuthorRows(a, posts, engagements)
    ensures r in LeftJoin(authors, posts, engagements)
  {
    if a != authors[0] {
      LeftJoinHas(authors[1..], posts, engagements, a, r);
    }
  }

  /**
    The left joins keep everything: an author without posts gets its all-NULL
    row, each post of an author pairs with each engagement on it, and a post
    without engagements gets a row with a NULL engagement. Conversely a NULL
    post column only comes from an author without posts, and a NULL
    engagement column only from a post without engagements.
   */
  lemma LeftJoinRows(authors: seq<Author>, posts: seq<Post>, engagements: seq<Engagement>)
    ensures forall a :: a in authors && PostsByAuthor(posts, a.authorId) == [] ==>
      JoinRow(a, Null, Null) in LeftJoin(authors, posts, engagements)
    ensures forall a, p, x :: a in authors && p in posts && p.authorId == a.authorId && x in EngagementsOnPost(engagements, p.postId) ==>
      JoinRow(a, Value(p.postId), Value(x.engagementId)) in LeftJoin(authors, posts, engagements)
    ensures forall a, p :: a in authors && p in posts && p.authorId == a.authorId && EngagementsOnPost(engagements, p.postId) == [] ==>
      JoinRow(a, Value(p.postId), Null) in LeftJoin(authors, posts, engagements)
    ensures forall r :: r in LeftJoin(authors, posts, engagements) && r.postId.Null? ==>
      PostsByAuthor(posts, r.author.authorId) == [] && r.engagementId.Null?
    ensures forall r :: r in LeftJoin(authors, posts, engagements) && r.postId.Value? && r.engagementId.Null? ==>
      EngagementsOnPost(engagements, r.postId.value) == []
  {
    var rows := LeftJoin(authors, posts, engagements);
    forall a | a in authors && PostsByAuthor(posts, a.authorId) == []
      ensures JoinRow(a, Null, Null) in rows
    {
      LeftJoinHas(authors, posts, engagements, a, JoinRow(a, Null, Null));
    }
    forall a, p, x | a in authors && p in posts && p.authorId == a.authorId && x in EngagementsOnPost(engagements, p.postId)
      ensures JoinRow(a, Value(p.postId), Value(x.engagementId)) in rows
    {
      PostRowsHas(a, PostsByAuthor(posts, a.authorId), engagements, p, x);
      LeftJoinHas(authors, posts, engagements, a, JoinRow(a, Value(p.postId), Value(x.engagementId)));
    }
    forall a, p | a in authors && p in posts && p.authorId == a.authorId && EngagementsOnPost(engagements, p.postId) == []
      ensures JoinRow(a, Value(p.postId), Null) in rows
    {
      PostRowsHasNull(a, PostsByAuthor(posts, a.authorId), engagements, p);
      LeftJoinHas(authors, posts, engagements, a, JoinRow(a, Value(p.postId), Null));
    }
    forall r | r in rows && r.postId.Value? && r.engagementId.Null?
      ensures EngagementsOnPost(engagements, r.postId.value) == []
    {
      PostRowsNullFrom(r.author, PostsByAuthor(posts, r.author.authorId), engagements, r);
    }
  }

  // ---------------------------------------------------------------------------
  // GROUP BY a.author_id, a.name and the three aggregates
  // ---------------------------------------------------------------------------

  /** The join rows of group (author_id, name) = `g`. */
  function GroupOf(rows: seq<JoinRow>, g: Author): (group: seq<JoinRow>)
    ensures forall r :: r in group <==> r in rows && r.author == g
  {
    if rows == [] then []
    else (if rows[0].author == g then [rows[0]] else []) + GroupOf(rows[1..], g)
  }

  /** Every post column of `rows` is NULL. */
  predicate NoPosts(rows: seq<JoinRow>)
  {
    forall r :: r in rows ==> r.postId.Null?
  }

  /** Every engagement column of `rows` is NULL. */
  predicate NoEngagements(rows: seq<JoinRow>)
  {
    forall r :: r in rows ==> r.engagementId.Null?
  }

  /** The non-NULL post ids among `rows`: what COUNT(DISTINCT p.post_id) counts. */
  function PostIdsIn(rows: seq<JoinRow>): set<int>
  {
    if rows == [] then {}
    else (if rows[0].postId.Value? then {rows[0].postId.value} else {}) + PostIdsIn(rows[1..])
  }

  /** The rows whose engagement is not NULL: COUNT(e.engagement_id). */
  function EngagementCount(rows: seq<JoinRow>): nat
  {
    if rows == [] then 0
    else (if rows[0].engagementId.Value? then 1 else 0) + EngagementCount(rows[1..])
  }

  /** No post id is counted exactly when every post column is NULL. */
  lemma {:induction false} PostIdsInEmpty(rows: seq<JoinRow>)
    ensures PostIdsIn(rows) == {} <==> NoPosts(rows)
  {
    if rows != [] {
      PostIdsInEmpty(rows[1..]);
      assert forall r :: r in rows ==> r == rows[0] || r in rows[1..];
      assert rows[0] in rows;
    }
  }

  /** COUNT(e.engagement_id) counts at most every row, and none exactly when every engagement column is NULL. */
  lemma {:induction false} EngagementCountZero(rows: seq<JoinRow>)
    ensures EngagementCount(rows) <= |rows|
    ensures EngagementCount(rows) == 0 <==> NoEngagements(rows)
  {
    if rows != [] {
      EngagementCountZero(rows[1..]);
      assert forall r :: r in rows ==> r == rows[0] || r in rows[1..];
      assert rows[0] in rows;
    }
  }

  datatype ScatterRow = ScatterRow(
    authorId: int,
    authorName: string,
    postVolume: nat,
    totalEngagements: nat,
    engagementPerPost: Nullable<int>)

  /**
    `ROUND(total::numeric / NULLIF(volume, 0), 2)` in hundredths: NULL exactly
    when there are no posts, otherwise the ratio rounded half away from zero.
   */
  function EngagementPerPost(total: nat, volume: nat): (r: Nullable<int>)
    ensures r.Null? <==> volume == 0
    ensures r.Value? ==> IsRoundedHundredths(r.value, total, volume) && r.value >= 0
  {
    if volume == 0 then Null else Value(RoundHundredths(total, volume))
  }

  /** The output row of group `g`: the group's author, and a NULL ratio exactly without posts. */
  function Aggregate(g: Author, group: seq<JoinRow>): (r: ScatterRow)
    ensures RowAuthor(r) == g
    ensures r.engagementPerPost.Null? <==> r.postVolume == 0
  {
    var volume := |PostIdsIn(group)|;
    var total := EngagementCount(group);
    ScatterRow(g.authorId, g.name, volume, total, EngagementPerPost(total, volume))
  }

  /**
    COUNT(DISTINCT p.post_id) is zero exactly when every post column is NULL,
    and COUNT(e.engagement_id) exactly when every engagement column is.
   */
  lemma AggregateNullColumns(g: Author, group: seq<JoinRow>)
    ensures Aggregate(g, group).postVolume == 0 <==> NoPosts(group)
    ensures Aggregate(g, group).totalEngagements == 0 <==> NoEngagements(group)
    ensures Aggregate(g, group).totalEngagements <= |group|
  {
    PostIdsInEmpty(group);
    EngagementCountZero(group);
  }

  /** The row the query returns for group `g`. */
  function AuthorSummary(db: Store, g: Author): ScatterRow
  {
    Aggregate(g, GroupOf(LeftJoin(db.authors, db.posts, db.engagements), g))
  }

  /** Every engagement row carries a post. */
  lemma {:induction false} EngagementsNeedPosts(rows: seq<JoinRow>)
    requires forall r :: r in rows ==> r.engagementId.Value? ==> r.postId.Value?
    ensures EngagementCount(rows) > 0 ==> PostIdsIn(rows) != {}
  {
    if rows != [] {
      assert rows[0] in rows;
      EngagementsNeedPosts(rows[1..]);
    }
  }

  lemma JoinRowsShape(db: Store, g: Author)
    ensures forall r :: r in GroupOf(LeftJoin(db.authors, db.posts, db.engagements), g) ==>
      r.engagementId.Value? ==> r.postId.Value?
  {
    forall r | r in GroupOf(LeftJoin(db.authors, db.posts, db.engagements), g) && r.engagementId.Value?
      ensures r.postId.Value?
    {
      var ps := PostsByAuthor(db.posts, r.author.authorId);
      assert r in AuthorRows(r.author, db.posts, db.engagements);
    }
  }

  /** The (author_id, name) group a row reports on. */
  function RowAuthor(r: ScatterRow): Author
  {
    Author(r.authorId, r.authorName)
  }

  /** A row's columns agree: engagements imply posts, and the ratio is NULL exactly without posts. */
  predicate Consistent(r: ScatterRow)
  {
    && (r.engagementPerPost.Null? <==> r.postVolume == 0)
    && (r.totalEngagements > 0 ==> r.postVolume > 0)
  }

  /** A group's row carries the group's author and consistent columns. */
  lemma AuthorSummaryShape(db: Store, g: Author)
    ensures RowAuthor(AuthorSummary(db, g)) == g
    ensures Consistent(AuthorSummary(db, g))
  {
    JoinRowsShape(db, g);
    EngagementsNeedPosts(GroupOf(LeftJoin(db.authors, db.posts, db.engagements), g));
  }

  /** The output rows for the groups `groups`, in that order, one per group. */
  function Summaries(db: Store, groups: seq<Author>): (rows: seq<ScatterRow>)
    ensures |rows| == |groups|
    ensures forall i :: 0 <= i < |groups| ==> rows[i] == AuthorSummary(db, groups[i])
    ensures forall i :: 0 <= i < |groups| ==> RowAuthor(rows[i]) == groups[i]
    ensures forall i :: 0 <= i < |rows| ==> Consistent(rows[i])
  {
    if groups == [] then []
    else
      var row := AuthorSummary(db, groups[0]);
      AuthorSummaryShape(db, groups[0]);
      [row] + Summaries(db, groups[1..])
  }

  /**
    The scatter plot: one row per distinct (author_id, name) of the authors
    table, so every author appears exactly once and every row is an author's;
    engagements imply posts; the ratio is NULL exactly for authors without posts.
   */
  function ScatterPlot(db: Store): (rows: seq<ScatterRow>)
    ensures forall a :: a in db.authors ==> exists i :: 0 <= i < |rows| && RowAuthor(rows[i]) == a
    ensures forall i :: 0 <= i < |rows| ==> RowAuthor(rows[i]) in db.authors
    ensures forall i, j :: 0 <= i < j < |rows| ==> RowAuthor(rows[i]) != RowAuthor(rows[j])
    ensures forall i :: 0 <= i < |rows| ==> Consistent(rows[i])
  {
    var groups := Distinct(db.authors);
    var rows := Summaries(db, groups);
    RowsKeyedByGroups(db.authors, groups, rows);
    rows
  }

  /** Rows that follow duplicate-free groups covering `authors` report each author exactly once. */
  lemma RowsKeyedByGroups(authors: seq<Author>, groups: seq<Author>, rows: seq<ScatterRow>)
    requires NoDup(groups)
    requires forall i :: 0 <= i < |authors| ==> authors[i] in groups
    requires |rows| == |groups|
    requires forall i :: 0 <= i < |groups| ==> RowAuthor(rows[i]) == groups[i]
    ensures forall a :: a in authors ==> exists i :: 0 <= i < |rows| && RowAuthor(rows[i]) == a
    ensures forall i, j :: 0 <= i < j < |rows| ==> RowAuthor(rows[i]) != RowAuthor(rows[j])
  {
    forall a | a in authors
      ensures exists i :: 0 <= i < |rows| && RowAuthor(rows[i]) == a
    {
      var k :| 0 <= k < |authors| && authors[k] == a;
      var i :| 0 <= i < |groups| && groups[i] == a;
      assert RowAuthor(rows[i]) == a;
    }
  }

  // ---------------------------------------------------------------------------
  // The row an author should get, stated directly on the tables
  // ---------------------------------------------------------------------------

  /** The ids of the posts written by `authorId`. */
  function AuthorPostIds(posts: seq<Post>, authorId: int): set<int>
  {
    set p | p in posts && p.authorId == authorId :: p.postId
  }

  /**
    What the query promises for author `a`: the number of distinct posts it
    wrote, the number of engagements on them, and their ratio in hundredths.
   */
  function ExpectedRow(db: Store, a: Author): ScatterRow
  {
    var ids := AuthorPostIds(db.posts, a.authorId);
    var total := EngagementsOnPosts(db.engagements, ids);
    ScatterRow(a.authorId, a.name, |ids|, total, EngagementPerPost(total, |ids|))
  }

  /** The ids of `ps`. */
  function IdSet(ps: seq<Post>): (ids: set<int>)
    ensures forall p :: p in ps ==> p.postId in ids
    ensures forall x :: x in ids ==> exists p :: p in ps && p.postId == x
  {
    if ps == [] then {} else {ps[0].postId} + IdSet(ps[1..])
  }

  lemma {:induction false} GroupOfConcat(x: seq<JoinRow>, y: seq<JoinRow>, g: Author)
    ensures GroupOf(x + y, g) == GroupOf(x, g) + GroupOf(y, g)
  {
    if x == [] {
      assert x + y == y;
    } else {
      assert (x + y)[1..] == x[1..] + y;
      GroupOfConcat(x[1..], y, g);
    }
  }

  lemma {:induction false} GroupOfUniform(rows: seq<JoinRow>, a: Author, g: Author)
    requires forall r :: r in rows ==> r.author == a
    ensures GroupOf(rows, g) == if a == g then rows else []
  {
    if rows != [] {
      assert rows[0] in rows;
      GroupOfUniform(rows[1..], a, g);
    }
  }

  lemma {:induction false} GroupOfAbsent(rows: seq<JoinRow>, g: Author)
    requires forall r :: r in rows ==> r.author != g
    ensures GroupOf(rows, g) == []
  {
    if rows != [] {
      assert rows[0] in rows;
      assert forall r :: r in rows[1..] ==> r in rows;
      GroupOfAbsent(rows[1..], g);
    }
  }

  lemma NoDupAuthors(authors: seq<Author>)
    requires NoDup(AuthorIds(authors))
    ensures NoDup(authors)
  {
    forall i, j | 0 <= i < j < |authors|
      ensures authors[i] != authors[j]
    {
      assert AuthorIds(authors)[i] != AuthorIds(authors)[j];
    }
  }

  /** With author rows unique, an author's group is exactly the rows its own author row produced. */
  lemma {:induction false} GroupOfLeftJoin(authors: seq<Author>, posts: seq<Post>, engagements: seq<Engagement>, g: Author)
    requires NoDup(authors) && g in authors
    ensures GroupOf(LeftJoin(authors, posts, engagements), g) == AuthorRows(g, posts, engagements)
  {
    var head, tail := authors[0], authors[1..];
    assert authors == [head] + tail;
    NoDupCons(head, tail);
    GroupOfConcat(AuthorRows(head, posts, engagements), LeftJoin(tail, posts, engagements), g);
    GroupOfUniform(AuthorRows(head, posts, engagements), head, g);
    if head == g {
      GroupOfAbsent(LeftJoin(tail, posts, engagements), g);
    } else {
      GroupOfLeftJoin(tail, posts, engagements, g);
    }
  }

  lemma {:induction false} PostIdsInConcat(x: seq<JoinRow>, y: seq<JoinRow>)
    ensures PostIdsIn(x + y) == PostIdsIn(x) + PostIdsIn(y)
    ensures EngagementCount(x + y) == EngagementCount(x) + EngagementCount(y)
  {
    if x == [] {
      assert x + y == y;
    } else {
      assert (x + y)[1..] == x[1..] + y;
      PostIdsInConcat(x[1..], y);
    }
  }

  lemma {:induction false} EngagementRowsAggregate(a: Author, postId: int, es: seq<Engagement>)
    requires es != []
    ensures PostIdsIn(EngagementRows(a, postId, es)) == {postId}
    ensures EngagementCount(EngagementRows(a, postId, es)) == |es|
  {
    if es[1..] != [] {
      EngagementRowsAggregate(a, postId, es[1..]);
    }
  }

  lemma {:induction false} PostRowsIds(a: Author, ps: seq<Post>, engagements: seq<Engagement>)
    ensures PostIdsIn(PostRows(a, ps, engagements)) == IdSet(ps)
  {
    if ps != [] {
      var es := EngagementsOnPost(engagements, ps[0].postId);
      var block := if es == [] then [JoinRow(a, Value(ps[0].postId), Null)] else EngagementRows(a, ps[0].postId, es);
      PostIdsInConcat(block, PostRows(a, ps[1..], engagements));
      PostRowsIds(a, ps[1..], engagements);
      if es != [] {
        EngagementRowsAggregate(a, ps[0].postId, es);
      }
    }
  }

  /** With post ids unique, the engagement rows of `ps` are the engagements on those posts. */
  lemma {:induction false} PostRowsCount(a: Author, ps: seq<Post>, engagements: seq<Engagement>)
    requires NoDup(PostIds(ps))
    ensures EngagementCount(PostRows(a, ps, engagements)) == EngagementsOnPosts(engagements, IdSet(ps))
  {
    if ps == [] {
      EngagementsOnNoPosts(engagements);
    } else {
      var head, tail := ps[0], ps[1..];
      var es := EngagementsOnPost(engagements, head.postId);
      var block := if es == [] then [JoinRow(a, Value(head.postId), Null)] else EngagementRows(a, head.postId, es);
      PostIdsInConcat(block, PostRows(a, tail, engagements));
      if es != [] {
        EngagementRowsAggregate(a, head.postId, es);
      }
      HeadPostIsNew(ps);
      PostRowsCount(a, tail, engagements);
      EngagementsOnPostsDisjointUnion(engagements, {head.postId}, IdSet(tail));
    }
  }

  /** With post ids unique, the first post's id is not among the rest, whose ids stay unique. */
  lemma HeadPostIsNew(ps: seq<Post>)
    requires ps != [] && NoDup(PostIds(ps))
    ensures ps[0].postId !in IdSet(ps[1..])
    ensures NoDup(PostIds(ps[1..]))
  {
    var head, tail := ps[0], ps[1..];
    assert PostIds(ps) == [head.postId] + PostIds(tail);
    NoDupCons(head.postId, PostIds(tail));
    forall p | p in tail
      ensures p.postId != head.postId
    {
      var i :| 0 <= i < |tail| && tail[i] == p;
      assert PostIds(tail)[i] == p.postId;
    }
  }

  lemma {:induction false} EngagementsOnNoPosts(engagements: seq<Engagement>)
    ensures EngagementsOnPosts(engagements, {}) == 0
  {
    if engagements != [] {
      EngagementsOnNoPosts(engagements[1..]);
    }
  }

  lemma AuthorPostIdsOfPostsByAuthor(posts: seq<Post>, authorId: int)
    ensures IdSet(PostsByAuthor(posts, authorId)) == AuthorPostIds(posts, authorId)
  {
    var ps := PostsByAuthor(posts, authorId);
    forall x | x in AuthorPostIds(posts, authorId)
      ensures x in IdSet(ps)
    {
      var p :| p in posts && p.authorId == authorId && p.postId == x;
      assert p in ps;
    }
  }

  /**
    Given unique keys, the row of an author is the expected one: its distinct
    posts, the engagements on exactly those posts, and the rounded ratio.
   */
  lemma AuthorSummaryIsExpected(db: Store, a: Author)
    requires UniqueKeys(db) && a in db.authors
    ensures AuthorSummary(db, a) == ExpectedRow(db, a)
  {
    NoDupAuthors(db.authors);
    GroupOfLeftJoin(db.authors, db.posts, db.engagements, a);
    var ps := PostsByAuthor(db.posts, a.authorId);
    AuthorPostIdsOfPostsByAuthor(db.posts, a.authorId);
    if ps == [] {
      assert AuthorPostIds(db.posts, a.authorId) == {};
      NullRowsAggregate(AuthorRows(a, db.posts, db.engagements), a);
      EngagementsOnNoPosts(db.engagements);
    } else {
      PostRowsIds(a, ps, db.engagements);
      PostsByAuthorUnique(db.posts, a.authorId);
      PostRowsCount(a, ps, db.engagements);
    }
  }

  /**
    An author without posts keeps its row, with no posts, no engagements and
    a NULL ratio, whatever else the tables hold.
   */
  lemma AuthorWithoutPosts(db: Store, a: Author)
    requires forall p :: p in db.posts ==> p.authorId != a.authorId
    ensures AuthorSummary(db, a) == ScatterRow(a.authorId, a.name, 0, 0, Null)
  {
    PostsByAuthorEmpty(db.posts, a.authorId);
    var group := GroupOf(LeftJoin(db.authors, db.posts, db.engagements), a);
    assert forall r :: r in group ==> r == JoinRow(a, Null, Null);
    NullRowsAggregate(group, a);
  }

  /** Every row of the response is the summary of its own author's group, whatever the tables hold. */
  lemma ScatterPlotRowsAreAuthors(db: Store)
    ensures forall r :: r in ScatterPlot(db) ==> RowAuthor(r) in db.authors && r == AuthorSummary(db, RowAuthor(r))
  {
    var rows := ScatterPlot(db);
    var groups := Distinct(db.authors);
    assert rows == Summaries(db, groups);
    forall r | r in rows
      ensures RowAuthor(r) in db.authors && r == AuthorSummary(db, RowAuthor(r))
    {
      var i :| 0 <= i < |rows| && rows[i] == r;
      assert RowAuthor(rows[i]) == groups[i];
    }
  }

  /** An author row without posts appears in the response as (author_id, name, 0, 0, NULL). */
  lemma AuthorWithoutPostsInPlot(db: Store, a: Author)
    requires a in db.authors
    requires forall p :: p in db.posts ==> p.authorId != a.authorId
    ensures ScatterRow(a.authorId, a.name, 0, 0, Null) in ScatterPlot(db)
  {
    var rows := ScatterPlot(db);
    var i :| 0 <= i < |rows| && RowAuthor(rows[i]) == a;
    ScatterPlotRowsAreAuthors(db);
    assert rows[i] in rows;
    AuthorWithoutPosts(db, a);
  }

  lemma {:induction false} PostsByAuthorEmpty(posts: seq<Post>, authorId: int)
    requires forall p :: p in posts ==> p.authorId != authorId
    ensures PostsByAuthor(posts, authorId) == []
  {
    if posts != [] {
      assert posts[0] in posts;
      assert forall p :: p in posts[1..] ==> p in posts;
      PostsByAuthorEmpty(posts[1..], authorId);
    }
  }

  lemma {:induction false} NullRowsAggregate(rows: seq<JoinRow>, a: Author)
    requires forall r :: r in rows ==> r == JoinRow(a, Null, Null)
    ensures PostIdsIn(rows) == {} && EngagementCount(rows) == 0
  {
    if rows != [] {
      assert rows[0] in rows;
      assert forall r :: r in rows[1..] ==> r in rows;
      NullRowsAggregate(rows[1..], a);
    }
  }

  /** Given unique keys, the scatter plot lists the expected row of each author, in table order. */
  lemma ScatterPlotInTableOrder(db: Store)
    requires UniqueKeys(db)
    ensures |ScatterPlot(db)| == |db.authors|
    ensures forall i :: 0 <= i < |db.authors| ==> ScatterPlot(db)[i] == ExpectedRow(db, db.authors[i])
  {
    NoDupAuthors(db.authors);
    forall i | 0 <= i < |db.authors|
      ensures ScatterPlot(db)[i] == ExpectedRow(db, db.authors[i])
    {
      AuthorSummaryIsExpected(db, db.authors[i]);
    }
  }

  /** Rows that match the author rows one to one hold each author's expected row and nothing else. */
  lemma RowsOfAuthors(db: Store, rows: seq<ScatterRow>)
    requires |rows| == |db.authors|
    requires forall i :: 0 <= i < |rows| ==> rows[i] == ExpectedRow(db, db.authors[i])
    ensures forall a :: a in db.authors ==> ExpectedRow(db, a) in rows
    ensures forall r :: r in rows ==> exists a :: a in db.authors && r == ExpectedRow(db, a)
  {
    forall a | a in db.authors
      ensures ExpectedRow(db, a) in rows
    {
      var i :| 0 <= i < |db.authors| && db.authors[i] == a;
      assert rows[i] == ExpectedRow(db, a);
    }
    forall r | r in rows
      ensures exists a :: a in db.authors && r == ExpectedRow(db, a)
    {
      var i :| 0 <= i < |rows| && rows[i] == r;
      assert db.authors[i] in db.authors;
    }
  }

  /**
    Given unique keys, the scatter plot holds the expected row of each author
    and nothing else, one row per author row, whatever the row order.
   */
  lemma ScatterPlotIsExpected(db: Store)
    requires UniqueKeys(db)
    ensures |ScatterPlot(db)| == |db.authors|
    ensures forall a :: a in db.authors ==> ExpectedRow(db, a) in ScatterPlot(db)
    ensures forall r :: r in ScatterPlot(db) ==> exists a :: a in db.authors && r == ExpectedRow(db, a)
  {
    ScatterPlotInTableOrder(db);
    RowsOfAuthors(db, ScatterPlot(db));
  }
}
