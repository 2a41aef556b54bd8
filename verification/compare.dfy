/**
  GET /api/engagement/trend, second registration: how many engagements fall
  in the last 7 days against the 7 days before, optionally restricted to one
  author or one post, and the percentage change between the two.

  Express hands a request to the first route registered for its path. The
  monthly-trend handler is registered earlier on the same path and answers
  without passing the request on, so over HTTP this handler is never reached;
  it is modelled here on its own, as the function it would compute.
 */
module TrendCompare {
  import opened Sql
  import opened Tables
  import opened QueryFilter

  /** INTERVAL '1 day', in the seconds timestamps are counted in. */
  const Day: int := 86400

  /** A half-open time window [from, until); a NULL `until` leaves it open-ended. */
  datatype Window = Window(from: int, until: Nullable<int>)

  predicate InWindow(t: int, w: Window)
  {
    w.from <= t && (w.until.Null? || t < w.until.value)
  }

  /** `engaged_timestamp >= NOW() - INTERVAL '7 days'`: no upper bound at `now`. */
  function Last7(now: int): Window
  {
    Window(now - 7 * Day, Null)
  }

  /** `engaged_timestamp < NOW() - INTERVAL '7 days' AND engaged_timestamp >= NOW() - INTERVAL '14 days'`. */
  function Prev7(now: int): Window
  {
    Window(now - 14 * Day, Value(now - 7 * Day))
  }

  /** Everything from 14 days back onwards. */
  function Last14(now: int): Window
  {
    Window(now - 14 * Day, Null)
  }

  /** The two windows never share a timestamp, and together they are exactly the last 14 days. */
  lemma WindowsPartitionLast14(now: int, t: int)
    ensures !(InWindow(t, Last7(now)) && InWindow(t, Prev7(now)))
    ensures InWindow(t, Last7(now)) || InWindow(t, Prev7(now)) <==> InWindow(t, Last14(now))
  {
  }

  /** A row of `engagements e JOIN posts p ON p.post_id = e.post_id`. */
  datatype JoinedEngagement = JoinedEngagement(engagement: Engagement, post: Post)

  function PairWith(e: Engagement, posts: seq<Post>): (rows: seq<JoinedEngagement>)
    ensures |rows| == |posts|
    ensures forall i :: 0 <= i < |rows| ==> rows[i] == JoinedEngagement(e, posts[i])
    ensures forall p :: p in posts ==> JoinedEngagement(e, p) in rows
  {
    if posts == [] then [] else [JoinedEngagement(e, posts[0])] + PairWith(e, posts[1..])
  }

  /**
    The inner join of engagements with posts on post_id, engagement by
    engagement: exactly the matching (engagement, post) pairs appear.
   */
  function EngagementPostJoin(engagements: seq<Engagement>, posts: seq<Post>): (rows: seq<JoinedEngagement>)
    ensures forall r :: r in rows ==> r.engagement in engagements && r.post in posts && r.post.postId == r.engagement.postId
    ensures forall e, p :: e in engagements && p in posts && p.postId == e.postId ==> JoinedEngagement(e, p) in rows
  {
    if engagements == [] then []
    else
      var e := engagements[0];
      var here, rest := PairWith(e, PostsWithId(posts, e.postId)), EngagementPostJoin(engagements[1..], posts);
      assert forall x :: x in engagements ==> x == e || x in engagements[1..];
      here + rest
  }

  /** Whether a joined row passes the bound filter. */
  predicate Selects(f: RowFilter, r: JoinedEngagement)
  {
    match f
    case AnyRow => true
    case AuthorIs(id) => r.post.authorId == id
    case PostIs(id) => r.engagement.postId == id
  }

  /** Joined row `r` satisfies the WHERE clause: its engagement lies in `w` and it passes `f`. */
  predicate Counted(r: JoinedEngagement, w: Window, f: RowFilter)
  {
    InWindow(r.engagement.engagedAt.instant, w) && Selects(f, r)
  }

  /**
    COUNT(*) of the joined rows in window `w` that pass filter `f`: zero
    exactly when no row qualifies, all of them exactly when every row does.
   */
  function CountIn(rows: seq<JoinedEngagement>, w: Window, f: RowFilter): (c: nat)
    ensures c <= |rows|
    ensures c == 0 <==> forall r :: r in rows ==> !Counted(r, w, f)
    ensures c == |rows| <==> forall r :: r in rows ==> Counted(r, w, f)
  {
    if rows == [] then 0
    else
      var rest := CountIn(rows[1..], w, f);
      assert forall r :: r in rows ==> r == rows[0] || r in rows[1..];
      assert rows[0] in rows;
      (if Counted(rows[0], w, f) then 1 else 0) + rest
  }

  /** The 7-day counts split the 14-day count: whatever the filter, last + previous = last 14 days. */
  lemma {:induction false} WindowCountsAddUp(rows: seq<JoinedEngagement>, now: int, f: RowFilter)
    ensures CountIn(rows, Last7(now), f) + CountIn(rows, Prev7(now), f) == CountIn(rows, Last14(now), f)
  {
    if rows != [] {
      WindowsPartitionLast14(now, rows[0].engagement.engagedAt.instant);
      WindowCountsAddUp(rows[1..], now, f);
    }
  }

  /** The single row the query returns; `pctChange` is in hundredths of a percent. */
  datatype CompareRow = CompareRow(last7Days: nat, prev7Days: nat, pctChange: Nullable<int>)

  /**
    `CASE WHEN prev = 0 THEN NULL ELSE ROUND((last - prev)::numeric / prev * 100, 2) END`:
    NULL exactly on a zero baseline; otherwise the change rounded to hundredths,
    never below -100.00 since counts are not negative.
   */
  function PctChange(last: nat, prev: nat): (r: Nullable<int>)
    ensures r.Null? <==> prev == 0
    ensures r.Value? ==> IsRoundedHundredths(r.value, 100 * (last - prev), prev)
    ensures r.Value? ==> -10000 <= r.value
    ensures r.Value? && last >= prev ==> r.value >= 0
    ensures r.Value? && last <= prev ==> r.value <= 0
  {
    if prev == 0 then Null
    else
      RoundHundredthsAtLeast(100 * (last - prev), prev, -10000);
      Value(RoundHundredths(100 * (last - prev), prev))
  }

  /** 10 engagements against 5 is a change of 100.00 percent. */
  lemma PctChangeDoubling()
    ensures PctChange(10, 5) == Value(10000)
  {
    RoundHundredthsExact(500, 5, 10000);
  }

  /** The handler's response for `?author_id=...&post_id=...` at time `now`. */
  function CompareWindows(db: Store, authorId: QueryValue, postId: QueryValue, now: int): (r: Outcome<CompareRow>)
    ensures !Truthy(authorId) && !Truthy(postId) ==> r.Ok?
    ensures Truthy(authorId) ==> (r.Ok? <==> BoundInteger(authorId).Value?)
    ensures !Truthy(authorId) && Truthy(postId) ==> (r.Ok? <==> BoundInteger(postId).Value?)
    ensures r.Ok? ==> (r.value.pctChange.Null? <==> r.value.prev7Days == 0)
  {
    var filter := BuildFilter(authorId, postId);
    match BindFilter(filter)
    case QueryError(message) => QueryError(message)
    case Ok(f) =>
      var rows := EngagementPostJoin(db.engagements, db.posts);
      var last, prev := CountIn(rows, Last7(now), f), CountIn(rows, Prev7(now), f);
      Ok(CompareRow(last, prev, PctChange(last, prev)))
  }

  /** The response computed with row filter `f`, the same filter for both windows. */
  function CompareWith(db: Store, f: RowFilter, now: int): CompareRow
  {
    var rows := EngagementPostJoin(db.engagements, db.posts);
    var last, prev := CountIn(rows, Last7(now), f), CountIn(rows, Prev7(now), f);
    CompareRow(last, prev, PctChange(last, prev))
  }

  /**
    An author_id that reads as the integer `i` -- in any spelling `$1` accepts,
    such as "7", "007" or "+7" -- counts, in both windows, only engagements on
    that author's posts, whatever post_id says.
   */
  lemma CompareByAuthor(db: Store, authorId: QueryValue, postId: QueryValue, i: int, now: int)
    requires Truthy(authorId) && BoundInteger(authorId) == Value(i)
    ensures CompareWindows(db, authorId, postId, now) == Ok(CompareWith(db, AuthorIs(i), now))
  {
  }

  /** A post_id that reads as the integer `i`, without an author_id, counts only engagements on that post. */
  lemma CompareByPost(db: Store, authorId: QueryValue, postId: QueryValue, i: int, now: int)
    requires !Truthy(authorId) && Truthy(postId) && BoundInteger(postId) == Value(i)
    ensures CompareWindows(db, authorId, postId, now) == Ok(CompareWith(db, PostIs(i), now))
  {
  }

  /** `?author_id=<id>` with the decimal text of `id`. */
  lemma CompareByAuthorText(db: Store, id: int, postId: QueryValue, now: int)
    ensures CompareWindows(db, Text(ShowInteger(id)), postId, now) == Ok(CompareWith(db, AuthorIs(id), now))
  {
    ParseShowInteger(id);
    CompareByAuthor(db, Text(ShowInteger(id)), postId, id, now);
  }

  /** `?post_id=<id>` with the decimal text of `id` and no author_id. */
  lemma CompareByPostText(db: Store, authorId: QueryValue, id: int, now: int)
    requires !Truthy(authorId)
    ensures CompareWindows(db, authorId, Text(ShowInteger(id)), now) == Ok(CompareWith(db, PostIs(id), now))
  {
    ParseShowInteger(id);
    CompareByPost(db, authorId, Text(ShowInteger(id)), id, now);
  }

  /**
    A chosen filter value that does not read as an integer -- an array or
    object, or non-empty text that is not an integer literal -- makes the
    query fail instead of producing counts.
   */
  lemma CompareRejectsNonInteger(db: Store, v: QueryValue, authorId: QueryValue, postId: QueryValue, now: int)
    requires v.Compound? || (v.Text? && v.text != "" && NotIntegerText(v.text))
    ensures CompareWindows(db, v, postId, now).QueryError?
    ensures !Truthy(authorId) ==> CompareWindows(db, authorId, v, now).QueryError?
  {
  }

  /** Engagements whose timestamp lies in `w`. */
  function EngagementsIn(engagements: seq<Engagement>, w: Window): nat
  {
    if engagements == [] then 0
    else (if InWindow(engagements[0].engagedAt.instant, w) then 1 else 0) + EngagementsIn(engagements[1..], w)
  }

  lemma {:induction false} CountInConcat(a: seq<JoinedEngagement>, b: seq<JoinedEngagement>, w: Window, f: RowFilter)
    ensures CountIn(a + b, w, f) == CountIn(a, w, f) + CountIn(b, w, f)
  {
    if a != [] {
      assert (a + b)[1..] == a[1..] + b;
      CountInConcat(a[1..], b, w, f);
    } else {
      assert a + b == b;
    }
  }

  lemma {:induction false} CountInPairWith(e: Engagement, posts: seq<Post>, w: Window)
    ensures CountIn(PairWith(e, posts), w, AnyRow) == if InWindow(e.engagedAt.instant, w) then |posts| else 0
  {
    if posts != [] {
      assert PairWith(e, posts)[1..] == PairWith(e, posts[1..]);
      CountInPairWith(e, posts[1..], w);
    }
  }

  /**
    Without a filter and given key and reference integrity, each window counts
    exactly the engagements whose timestamp lies in it: the join neither drops
    nor repeats an engagement.
   */
  lemma {:induction false} UnfilteredCountsEngagements(db: Store, w: Window)
    requires WellFormed(db)
    ensures CountIn(EngagementPostJoin(db.engagements, db.posts), w, AnyRow) == EngagementsIn(db.engagements, w)
    decreases |db.engagements|
  {
    var engagements := db.engagements;
    if engagements != [] {
      var e := engagements[0];
      var tail := Store(db.authors, db.posts, engagements[1..]);
      WellFormedTail(db);
      UnfilteredCountsEngagements(tail, w);
      CountInConcat(PairWith(e, PostsWithId(db.posts, e.postId)), EngagementPostJoin(engagements[1..], db.posts), w, AnyRow);
      CountInPairWith(e, PostsWithId(db.posts, e.postId), w);
      assert e in engagements;
      NoDupOccursOnce(PostIds(db.posts), e.postId);
    }
  }

  /** `e` has a post in `db`, and paired with it passes filter `f`: what the inner join and the WHERE clause keep. */
  predicate Kept(db: Store, e: Engagement, f: RowFilter)
  {
    exists p :: p in db.posts && p.postId == e.postId && Selects(f, JoinedEngagement(e, p))
  }

  /** How many of `engagements` lie in `w` and are kept under `f`. */
  function CountKept(db: Store, engagements: seq<Engagement>, w: Window, f: RowFilter): nat
  {
    if engagements == [] then 0
    else
      (if InWindow(engagements[0].engagedAt.instant, w) && Kept(db, engagements[0], f) then 1 else 0)
      + CountKept(db, engagements[1..], w, f)
  }

  /** Joined with the single post carrying its id, an engagement is counted exactly when it is kept. */
  lemma CountInOnePost(db: Store, e: Engagement, p: Post, w: Window, f: RowFilter)
    requires PostsWithId(db.posts, e.postId) == [p]
    ensures CountIn(PairWith(e, [p]), w, f) == if InWindow(e.engagedAt.instant, w) && Kept(db, e, f) then 1 else 0
  {
    assert p in PostsWithId(db.posts, e.postId);
    assert PairWith(e, [p]) == [JoinedEngagement(e, p)];
    if Kept(db, e, f) {
      var q :| q in db.posts && q.postId == e.postId && Selects(f, JoinedEngagement(e, q));
      assert q in PostsWithId(db.posts, e.postId);
    }
  }

  /** An engagement whose post is missing is never counted. */
  lemma CountInNoPost(db: Store, e: Engagement, w: Window, f: RowFilter)
    requires PostsWithId(db.posts, e.postId) == []
    ensures CountIn(PairWith(e, []), w, f) == 0
    ensures !Kept(db, e, f)
  {
  }

  /** With post ids unique, an engagement adds one to a window's count when it is in the window and kept, else nothing. */
  lemma EngagementCountedOnce(db: Store, e: Engagement, w: Window, f: RowFilter)
    requires NoDup(PostIds(db.posts))
    ensures CountIn(PairWith(e, PostsWithId(db.posts, e.postId)), w, f)
         == if InWindow(e.engagedAt.instant, w) && Kept(db, e, f) then 1 else 0
  {
    var ps := PostsWithId(db.posts, e.postId);
    NoDupOccursOnce(PostIds(db.posts), e.postId);
    if ps == [] {
      CountInNoPost(db, e, w, f);
    } else {
      assert ps == [ps[0]];
      CountInOnePost(db, e, ps[0], w, f);
    }
  }

  /**
    With post ids unique, whatever the filter, a window's count is the number
    of engagements in it that have a post and pass the filter with it.
   */
  lemma {:induction false} FilteredCounts(db: Store, engagements: seq<Engagement>, w: Window, f: RowFilter)
    requires NoDup(PostIds(db.posts))
    ensures CountIn(EngagementPostJoin(engagements, db.posts), w, f) == CountKept(db, engagements, w, f)
  {
    if engagements != [] {
      var e := engagements[0];
      CountInConcat(PairWith(e, PostsWithId(db.posts, e.postId)), EngagementPostJoin(engagements[1..], db.posts), w, f);
      EngagementCountedOnce(db, e, w, f);
      FilteredCounts(db, engagements[1..], w, f);
    }
  }

  /** With post ids unique, both windows count the kept engagements, under the same filter. */
  lemma CompareWithCounts(db: Store, f: RowFilter, now: int)
    requires NoDup(PostIds(db.posts))
    ensures CompareWith(db, f, now).last7Days == CountKept(db, db.engagements, Last7(now), f)
    ensures CompareWith(db, f, now).prev7Days == CountKept(db, db.engagements, Prev7(now), f)
  {
    FilteredCounts(db, db.engagements, Last7(now), f);
    FilteredCounts(db, db.engagements, Prev7(now), f);
  }

  /** Dropping the first engagement keeps the tables well-formed. */
  lemma WellFormedTail(db: Store)
    requires WellFormed(db) && db.engagements != []
    ensures WellFormed(Store(db.authors, db.posts, db.engagements[1..]))
  {
    forall x | x in db.engagements[1..]
      ensures x.postId in PostIds(db.posts)
    {
      assert x in db.engagements;
    }
  }

  /**
    With no filter and integrity holding, the response counts engagements in
    [now-7d, ...) and [now-14d, now-7d), which together are all engagements
    from now-14d on, and compares them.
   */
  lemma UnfilteredCompare(db: Store, authorId: QueryValue, postId: QueryValue, now: int)
    requires WellFormed(db)
    requires !Truthy(authorId) && !Truthy(postId)
    ensures CompareWindows(db, authorId, postId, now).Ok?
    ensures CompareWindows(db, authorId, postId, now).value.last7Days == EngagementsIn(db.engagements, Last7(now))
    ensures CompareWindows(db, authorId, postId, now).value.prev7Days == EngagementsIn(db.engagements, Prev7(now))
    ensures EngagementsIn(db.engagements, Last7(now)) + EngagementsIn(db.engagements, Prev7(now))
         == EngagementsIn(db.engagements, Last14(now))
  {
    var rows := EngagementPostJoin(db.engagements, db.posts);
    UnfilteredCountsEngagements(db, Last7(now));
    UnfilteredCountsEngagements(db, Prev7(now));
    UnfilteredCountsEngagements(db, Last14(now));
    WindowCountsAddUp(rows, now, AnyRow);
  }
}
