/**
  GET /api/engagement/trend, first registration: engagements joined to their
  post and its author, grouped by (month, author name) and counted, in
  ascending month order. Rows of the same month come in no defined order.
 */
module MonthlyTrend {
  import opened Sql
  import opened Tables

  /** The GROUP BY key: the month bucket and the author's display name. */
  datatype MonthKey = MonthKey(month: int, author: string)

  datatype TrendRow = TrendRow(month: int, author: string, totalEngagements: nat)

  function KeyOf(r: TrendRow): MonthKey
  {
    MonthKey(r.month, r.author)
  }

  // ---------------------------------------------------------------------------
  // engagements e JOIN posts p ON p.post_id = e.post_id
  //                JOIN authors a ON a.author_id = p.author_id
  // ---------------------------------------------------------------------------

  /** One key per author row joined with an engagement of month `month`. */
  function NameKeys(month: int, authors: seq<Author>): (keys: seq<MonthKey>)
    ensures |keys| == |authors|
  {
    if authors == [] then [] else [MonthKey(month, authors[0].name)] + NameKeys(month, authors[1..])
  }

  /** The keys of the joined rows an engagement of month `month` produces through the posts `ps`. */
  function KeysThroughPosts(month: int, ps: seq<Post>, authors: seq<Author>): seq<MonthKey>
  {
    if ps == [] then []
    else NameKeys(month, AuthorsWithId(authors, ps[0].authorId)) + KeysThroughPosts(month, ps[1..], authors)
  }

  /** The group key of every row of the three-way join, engagement by engagement. */
  function JoinedKeys(engagements: seq<Engagement>, posts: seq<Post>, authors: seq<Author>): seq<MonthKey>
  {
    if engagements == [] then []
    else
      var e := engagements[0];
      KeysThroughPosts(e.engagedAt.month, PostsWithId(posts, e.postId), authors)
      + JoinedKeys(engagements[1..], posts, authors)
  }

  /** The engagement, post and author rows `e`, `p`, `a` form a row of the three-way join. */
  predicate JoinsAs(e: Engagement, p: Post, a: Author)
  {
    p.postId == e.postId && a.authorId == p.authorId
  }

  /** `k` is the group key of some row of the three-way join of the three tables. */
  predicate IsJoinKey(k: MonthKey, engagements: seq<Engagement>, posts: seq<Post>, authors: seq<Author>)
  {
    exists e, p, a :: e in engagements && p in posts && a in authors && JoinsAs(e, p, a) && k == MonthKey(e.engagedAt.month, a.name)
  }

  lemma {:induction false} NameKeysHas(month: int, authors: seq<Author>, a: Author)
    requires a in authors
    ensures MonthKey(month, a.name) in NameKeys(month, authors)
  {
    if a != authors[0] {
      NameKeysHas(month, authors[1..], a);
    }
  }

  lemma {:induction false} NameKeysFrom(month: int, authors: seq<Author>, k: MonthKey)
    requires k in NameKeys(month, authors)
    ensures k.month == month && exists a :: a in authors && k.author == a.name
  {
    if k != MonthKey(month, authors[0].name) {
      NameKeysFrom(month, authors[1..], k);
    }
  }

  lemma {:induction false} KeysThroughPostsHas(month: int, ps: seq<Post>, authors: seq<Author>, p: Post, a: Author)
    requires p in ps && a in authors && a.authorId == p.authorId
    ensures MonthKey(month, a.name) in KeysThroughPosts(month, ps, authors)
  {
    if p == ps[0] {
      NameKeysHas(month, AuthorsWithId(authors, p.authorId), a);
    } else {
      KeysThroughPostsHas(month, ps[1..], authors, p, a);
    }
  }

  lemma {:induction false} KeysThroughPostsFrom(month: int, ps: seq<Post>, authors: seq<Author>, k: MonthKey)
    requires k in KeysThroughPosts(month, ps, authors)
    ensures k.month == month && exists p, a :: p in ps && a in authors && a.authorId == p.authorId && k.author == a.name
  {
    var here := NameKeys(month, AuthorsWithId(authors, ps[0].authorId));
    if k in here {
      NameKeysFrom(month, AuthorsWithId(authors, ps[0].authorId), k);
      assert ps[0] in ps;
    } else {
      KeysThroughPostsFrom(month, ps[1..], authors, k);
    }
  }

  /** Every joining (engagement, post, author) triple contributes its key to the join. */
  lemma {:induction false} JoinedKeysHas(engagements: seq<Engagement>, posts: seq<Post>, authors: seq<Author>,
                                         e: Engagement, p: Post, a: Author)
    requires e in engagements && p in posts && a in authors && JoinsAs(e, p, a)
    ensures MonthKey(e.engagedAt.month, a.name) in JoinedKeys(engagements, posts, authors)
  {
    if e == engagements[0] {
      KeysThroughPostsHas(e.engagedAt.month, PostsWithId(posts, e.postId), authors, p, a);
    } else {
      JoinedKeysHas(engagements[1..], posts, authors, e, p, a);
    }
  }

  /** Every key of the join comes from a joining (engagement, post, author) triple. */
  lemma {:induction false} JoinedKeysFrom(engagements: seq<Engagement>, posts: seq<Post>, authors: seq<Author>, k: MonthKey)
    requires k in JoinedKeys(engagements, posts, authors)
    ensures IsJoinKey(k, engagements, posts, authors)
  {
    var e := engagements[0];
    var ps := PostsWithId(posts, e.postId);
    if k in KeysThroughPosts(e.engagedAt.month, ps, authors) {
      KeysThroughPostsFrom(e.engagedAt.month, ps, authors, k);
      var p, a :| p in ps && a in authors && a.authorId == p.authorId && k.author == a.name;
      assert e in engagements && JoinsAs(e, p, a);
    } else {
      JoinedKeysFrom(engagements[1..], posts, authors, k);
      var e', p, a :| e' in engagements[1..] && p in posts && a in authors && JoinsAs(e', p, a)
        && k == MonthKey(e'.engagedAt.month, a.name);
      assert e' in engagements;
    }
  }

  /** The keys of the three-way join are exactly the keys of its joining triples. */
  lemma JoinedKeysAreJoinRows(engagements: seq<Engagement>, posts: seq<Post>, authors: seq<Author>)
    ensures forall k :: k in JoinedKeys(engagements, posts, authors) <==> IsJoinKey(k, engagements, posts, authors)
  {
    forall k | IsJoinKey(k, engagements, posts, authors)
      ensures k in JoinedKeys(engagements, posts, authors)
    {
      var e, p, a :| e in engagements && p in posts && a in authors && JoinsAs(e, p, a) && k == MonthKey(e.engagedAt.month, a.name);
      JoinedKeysHas(engagements, posts, authors, e, p, a);
    }
    forall k | k in JoinedKeys(engagements, posts, authors)
      ensures IsJoinKey(k, engagements, posts, authors)
    {
      JoinedKeysFrom(engagements, posts, authors, k);
    }
  }

  /** The engagement's post exists and that post's author exists. */
  predicate Attributed(db: Store, e: Engagement)
  {
    exists p :: p in db.posts && p.postId == e.postId && p.authorId in AuthorIds(db.authors)
  }

  /** How many of `engagements` are attributed to an existing author through an existing post. */
  function AttributedCount(db: Store, engagements: seq<Engagement>): nat
  {
    if engagements == [] then 0
    else (if Attributed(db, engagements[0]) then 1 else 0) + AttributedCount(db, engagements[1..])
  }

  /** With unique keys an engagement yields one joined row if it is attributed and none otherwise. */
  lemma EngagementJoinsOnce(db: Store, e: Engagement)
    requires UniqueKeys(db)
    ensures |KeysThroughPosts(e.engagedAt.month, PostsWithId(db.posts, e.postId), db.authors)|
         == if Attributed(db, e) then 1 else 0
  {
    var ps := PostsWithId(db.posts, e.postId);
    NoDupOccursOnce(PostIds(db.posts), e.postId);
    if ps == [] {
      UnmatchedEngagement(db, e);
    } else {
      assert ps == [ps[0]];
      MatchedEngagement(db, e, ps[0]);
    }
  }

  lemma UnmatchedEngagement(db: Store, e: Engagement)
    requires PostsWithId(db.posts, e.postId) == []
    ensures KeysThroughPosts(e.engagedAt.month, PostsWithId(db.posts, e.postId), db.authors) == []
    ensures !Attributed(db, e)
  {
  }

  lemma MatchedEngagement(db: Store, e: Engagement, p: Post)
    requires NoDup(AuthorIds(db.authors))
    requires PostsWithId(db.posts, e.postId) == [p]
    ensures |KeysThroughPosts(e.engagedAt.month, [p], db.authors)| == if p.authorId in AuthorIds(db.authors) then 1 else 0
    ensures Attributed(db, e) <==> p.authorId in AuthorIds(db.authors)
  {
    KeysThroughOnePost(e.engagedAt.month, p, db.authors);
    NoDupOccursOnce(AuthorIds(db.authors), p.authorId);
    AttributedThroughOnePost(db, e, p);
  }

  lemma KeysThroughOnePost(month: int, p: Post, authors: seq<Author>)
    ensures |KeysThroughPosts(month, [p], authors)| == multiset(AuthorIds(authors))[p.authorId]
  {
    assert KeysThroughPosts(month, [p], authors)
        == NameKeys(month, AuthorsWithId(authors, p.authorId)) + KeysThroughPosts(month, [], authors);
  }

  lemma AttributedThroughOnePost(db: Store, e: Engagement, p: Post)
    requires PostsWithId(db.posts, e.postId) == [p]
    ensures Attributed(db, e) <==> p.authorId in AuthorIds(db.authors)
  {
    assert p in PostsWithId(db.posts, e.postId);
    forall q | q in db.posts && q.postId == e.postId
      ensures q == p
    {
      assert q in PostsWithId(db.posts, e.postId);
    }
  }

  /**
    With unique keys the join keeps exactly the attributed engagements, one
    row each.
   */
  lemma {:induction false} JoinedKeysCount(db: Store, engagements: seq<Engagement>)
    requires UniqueKeys(db)
    ensures |JoinedKeys(engagements, db.posts, db.authors)| == AttributedCount(db, engagements)
  {
    if engagements != [] {
      EngagementJoinsOnce(db, engagements[0]);
      JoinedKeysCount(db, engagements[1..]);
    }
  }

  /** Under full integrity every engagement is attributed, so the join has one row per engagement. */
  lemma {:induction false} WellFormedAttributesAll(db: Store, engagements: seq<Engagement>)
    requires WellFormed(db)
    requires forall e :: e in engagements ==> e in db.engagements
    ensures AttributedCount(db, engagements) == |engagements|
  {
    if engagements != [] {
      var e := engagements[0];
      assert e in db.engagements;
      var i :| 0 <= i < |db.posts| && PostIds(db.posts)[i] == e.postId;
      assert db.posts[i] in db.posts;
      assert Attributed(db, e);
      WellFormedAttributesAll(db, engagements[1..]);
    }
  }

  /** Engagement `e` lies in month `k.month`, and its post exists and was written by an author named `k.author`. */
  predicate KeyedAs(db: Store, e: Engagement, k: MonthKey)
  {
    && e.engagedAt.month == k.month
    && exists p, a :: p in db.posts && a in db.authors && p.postId == e.postId && a.authorId == p.authorId && a.name == k.author
  }

  /** How many of `engagements` are keyed as `k`. */
  function CountKeyedAs(db: Store, engagements: seq<Engagement>, k: MonthKey): nat
  {
    if engagements == [] then 0
    else (if KeyedAs(db, engagements[0], k) then 1 else 0) + CountKeyedAs(db, engagements[1..], k)
  }

  /** With unique keys an engagement contributes one joined row to group `k` exactly when it is keyed as `k`. */
  lemma EngagementKeyCount(db: Store, e: Engagement, k: MonthKey)
    requires UniqueKeys(db)
    ensures multiset(KeysThroughPosts(e.engagedAt.month, PostsWithId(db.posts, e.postId), db.authors))[k]
         == if KeyedAs(db, e, k) then 1 else 0
  {
    var ps := PostsWithId(db.posts, e.postId);
    NoDupOccursOnce(PostIds(db.posts), e.postId);
    if ps == [] {
      UnmatchedEngagement(db, e);
      assert !KeyedAs(db, e, k);
    } else {
      assert ps == [ps[0]];
      MatchedEngagementKey(db, e, ps[0], k);
    }
  }

  lemma MatchedEngagementKey(db: Store, e: Engagement, p: Post, k: MonthKey)
    requires NoDup(AuthorIds(db.authors))
    requires PostsWithId(db.posts, e.postId) == [p]
    ensures multiset(KeysThroughPosts(e.engagedAt.month, [p], db.authors))[k] == if KeyedAs(db, e, k) then 1 else 0
  {
    KeysThroughOnePostAre(e.engagedAt.month, p, db.authors);
    NoDupOccursOnce(AuthorIds(db.authors), p.authorId);
    KeyedThroughOnePost(db, e, p, k);
    NameKeysCount(e.engagedAt.month, AuthorsWithId(db.authors, p.authorId), k);
  }

  /** At most one author row: its key is counted once, any other key not at all. */
  lemma NameKeysCount(month: int, named: seq<Author>, k: MonthKey)
    requires |named| <= 1
    ensures multiset(NameKeys(month, named))[k]
         == if month == k.month && exists a :: a in named && a.name == k.author then 1 else 0
  {
    if named != [] {
      assert named == [named[0]];
      assert NameKeys(month, named) == [MonthKey(month, named[0].name)];
    }
  }

  lemma KeysThroughOnePostAre(month: int, p: Post, authors: seq<Author>)
    ensures KeysThroughPosts(month, [p], authors) == NameKeys(month, AuthorsWithId(authors, p.authorId))
  {
    assert KeysThroughPosts(month, [p], authors)
        == NameKeys(month, AuthorsWithId(authors, p.authorId)) + KeysThroughPosts(month, [], authors);
  }

  /** Through the one post with `e`'s id, being keyed as `k` is a matter of that post's authors. */
  lemma KeyedThroughOnePost(db: Store, e: Engagement, p: Post, k: MonthKey)
    requires PostsWithId(db.posts, e.postId) == [p]
    ensures KeyedAs(db, e, k) <==>
      e.engagedAt.month == k.month && exists a :: a in AuthorsWithId(db.authors, p.authorId) && a.name == k.author
  {
    assert p in PostsWithId(db.posts, e.postId);
    if KeyedAs(db, e, k) {
      var q, a :| q in db.posts && a in db.authors && q.postId == e.postId && a.authorId == q.authorId && a.name == k.author;
      assert q in PostsWithId(db.posts, e.postId);
      assert a in AuthorsWithId(db.authors, p.authorId);
    }
  }

  /** With unique keys, group `k` of the join holds one row per engagement keyed as `k`. */
  lemma {:induction false} JoinedKeysPerGroup(db: Store, engagements: seq<Engagement>, k: MonthKey)
    requires UniqueKeys(db)
    ensures multiset(JoinedKeys(engagements, db.posts, db.authors))[k] == CountKeyedAs(db, engagements, k)
  {
    if engagements != [] {
      var e := engagements[0];
      EngagementKeyCount(db, e, k);
      JoinedKeysPerGroup(db, engagements[1..], k);
    }
  }

  // ---------------------------------------------------------------------------
  // ORDER BY month
  // ---------------------------------------------------------------------------

  predicate SortedByMonth(s: seq<MonthKey>)
  {
    forall i, j :: 0 <= i < j < |s| ==> s[i].month <= s[j].month
  }

  function Insert(x: MonthKey, s: seq<MonthKey>): (r: seq<MonthKey>)
    requires SortedByMonth(s)
    ensures SortedByMonth(r)
    ensures |r| == |s| + 1
    ensures forall y :: y in r <==> y == x || y in s
    ensures multiset(r) == multiset(s) + multiset{x}
  {
    if s == [] || x.month <= s[0].month then
      SortedCons(x, s);
      [x] + s
    else
      assert s == [s[0]] + s[1..];
      var rest := Insert(x, s[1..]);
      SortedCons(s[0], rest);
      [s[0]] + rest
  }

  /** Putting an element no later than all of a sorted sequence in front keeps it sorted. */
  lemma SortedCons(h: MonthKey, t: seq<MonthKey>)
    requires SortedByMonth(t)
    requires forall y :: y in t ==> h.month <= y.month
    ensures SortedByMonth([h] + t)
  {
    var r := [h] + t;
    forall i, j | 0 <= i < j < |r|
      ensures r[i].month <= r[j].month
    {
      assert r[j] == t[j - 1];
      if i > 0 {
        assert r[i] == t[i - 1];
      }
    }
  }

  lemma {:induction false} InsertKeepsDistinct(x: MonthKey, s: seq<MonthKey>)
    requires SortedByMonth(s)
    requires NoDup(s) && x !in s
    ensures NoDup(Insert(x, s))
  {
    if s == [] || x.month <= s[0].month {
      NoDupCons(x, s);
    } else {
      assert s == [s[0]] + s[1..];
      NoDupCons(s[0], s[1..]);
      InsertKeepsDistinct(x, s[1..]);
      NoDupCons(s[0], Insert(x, s[1..]));
    }
  }

  /** Insertion sort by month: a permutation of `s` with non-decreasing months. */
  function SortByMonth(s: seq<MonthKey>): (r: seq<MonthKey>)
    ensures SortedByMonth(r)
    ensures |r| == |s|
    ensures forall y :: y in r <==> y in s
    ensures multiset(r) == multiset(s)
  {
    if s == [] then []
    else
      assert s == [s[0]] + s[1..];
      Insert(s[0], SortByMonth(s[1..]))
  }

  lemma {:induction false} SortKeepsDistinct(s: seq<MonthKey>)
    requires NoDup(s)
    ensures NoDup(SortByMonth(s))
  {
    if s != [] {
      assert s == [s[0]] + s[1..];
      NoDupCons(s[0], s[1..]);
      SortKeepsDistinct(s[1..]);
      InsertKeepsDistinct(s[0], SortByMonth(s[1..]));
    }
  }

  // ---------------------------------------------------------------------------
  // GROUP BY month, author ... COUNT(*)
  // ---------------------------------------------------------------------------

  /** Some row carries key `k`. */
  predicate HasRow(rows: seq<TrendRow>, k: MonthKey)
  {
    exists i :: 0 <= i < |rows| && KeyOf(rows[i]) == k
  }

  function TotalEngagements(rows: seq<TrendRow>): nat
  {
    if rows == [] then 0 else rows[0].totalEngagements + TotalEngagements(rows[1..])
  }

  /** One row per group key, counting the joined rows with that key. */
  function CountGroups(groups: seq<MonthKey>, keys: seq<MonthKey>): (rows: seq<TrendRow>)
    ensures |rows| == |groups|
    ensures forall i :: 0 <= i < |rows| ==> KeyOf(rows[i]) == groups[i]
    ensures forall i :: 0 <= i < |rows| ==> rows[i].totalEngagements == multiset(keys)[groups[i]]
    ensures TotalEngagements(rows) == SumCounts(groups, keys)
  {
    if groups == [] then []
    else
      var g := groups[0];
      var rows := [TrendRow(g.month, g.author, multiset(keys)[g])] + CountGroups(groups[1..], keys);
      assert rows[1..] == CountGroups(groups[1..], keys);
      rows
  }

  /** The group keys in output order: each key of the join once, months non-decreasing. */
  function Groups(keys: seq<MonthKey>): (groups: seq<MonthKey>)
    ensures NoDup(groups)
    ensures SortedByMonth(groups)
    ensures forall k :: k in groups <==> k in keys
  {
    var distinct := Distinct(keys);
    SortKeepsDistinct(distinct);
    forall k | k in keys
      ensures k in distinct
    {
      var i :| 0 <= i < |keys| && keys[i] == k;
    }
    forall k | k in distinct
      ensures k in keys
    {
      var i :| 0 <= i < |distinct| && distinct[i] == k;
    }
    SortByMonth(distinct)
  }

  /**
    GROUP BY month, author ... COUNT(*) ... ORDER BY month over the join's
    keys: one row per key occurring, with the number of joined rows carrying
    it; months non-decreasing; the counts add up to the size of the join.
   */
  function GroupAndCount(keys: seq<MonthKey>): (rows: seq<TrendRow>)
    ensures forall i, j :: 0 <= i < j < |rows| ==> KeyOf(rows[i]) != KeyOf(rows[j])
    ensures forall i, j :: 0 <= i < j < |rows| ==> rows[i].month <= rows[j].month
    ensures forall i :: 0 <= i < |rows| ==> 1 <= rows[i].totalEngagements == multiset(keys)[KeyOf(rows[i])]
    ensures forall k :: k in keys ==> HasRow(rows, k)
    ensures TotalEngagements(rows) == |keys|
  {
    GroupRowsShape(keys);
    GroupRowsCover(keys);
    CountGroups(Groups(keys), keys)
  }

  lemma GroupRowsShape(keys: seq<MonthKey>)
    ensures var rows := CountGroups(Groups(keys), keys);
      && (forall i, j :: 0 <= i < j < |rows| ==> KeyOf(rows[i]) != KeyOf(rows[j]) && rows[i].month <= rows[j].month)
      && (forall i :: 0 <= i < |rows| ==> 1 <= rows[i].totalEngagements == multiset(keys)[KeyOf(rows[i])])
  {
    var groups := Groups(keys);
    GroupRowsOrdered(groups, keys);
    GroupRowsCounted(groups, keys);
  }

  lemma GroupRowsCover(keys: seq<MonthKey>)
    ensures var rows := CountGroups(Groups(keys), keys);
      && (forall k :: k in keys ==> HasRow(rows, k))
      && TotalEngagements(rows) == |keys|
  {
    var groups := Groups(keys);
    GroupRowsComplete(groups, keys);
    SumCountsPartition(groups, keys);
  }

  lemma GroupRowsOrdered(groups: seq<MonthKey>, keys: seq<MonthKey>)
    requires NoDup(groups) && SortedByMonth(groups)
    ensures var rows := CountGroups(groups, keys);
      forall i, j :: 0 <= i < j < |rows| ==> KeyOf(rows[i]) != KeyOf(rows[j]) && rows[i].month <= rows[j].month
  {
    var rows := CountGroups(groups, keys);
    forall i, j | 0 <= i < j < |rows|
      ensures KeyOf(rows[i]) != KeyOf(rows[j]) && rows[i].month <= rows[j].month
    {
      assert KeyOf(rows[i]) == groups[i] && KeyOf(rows[j]) == groups[j];
    }
  }

  lemma GroupRowsCounted(groups: seq<MonthKey>, keys: seq<MonthKey>)
    requires forall k :: k in groups ==> k in keys
    ensures var rows := CountGroups(groups, keys);
      forall i :: 0 <= i < |rows| ==> 1 <= rows[i].totalEngagements == multiset(keys)[KeyOf(rows[i])]
  {
    var rows := CountGroups(groups, keys);
    forall i | 0 <= i < |rows|
      ensures 1 <= rows[i].totalEngagements == multiset(keys)[KeyOf(rows[i])]
    {
      assert groups[i] in groups;
    }
  }

  lemma GroupRowsComplete(groups: seq<MonthKey>, keys: seq<MonthKey>)
    requires forall k :: k in keys ==> k in groups
    ensures forall k :: k in keys ==> HasRow(CountGroups(groups, keys), k)
  {
    var rows := CountGroups(groups, keys);
    forall k | k in keys
      ensures HasRow(rows, k)
    {
      var i :| 0 <= i < |groups| && groups[i] == k;
      assert KeyOf(rows[i]) == k;
    }
  }

  /** The monthly trend response: the join's rows grouped and counted. */
  function MonthlyTrend(db: Store): (rows: seq<TrendRow>)
    ensures forall i, j :: 0 <= i < j < |rows| ==> KeyOf(rows[i]) != KeyOf(rows[j])
    ensures forall i, j :: 0 <= i < j < |rows| ==> rows[i].month <= rows[j].month
    ensures forall i :: 0 <= i < |rows| ==> rows[i].totalEngagements >= 1
  {
    GroupAndCount(JoinedKeys(db.engagements, db.posts, db.authors))
  }

  /** The response has a row for key `k` exactly when some engagement, its post and that post's author join into `k`. */
  lemma MonthlyTrendKeys(db: Store)
    ensures forall k :: HasRow(MonthlyTrend(db), k) <==> IsJoinKey(k, db.engagements, db.posts, db.authors)
  {
    var keys := JoinedKeys(db.engagements, db.posts, db.authors);
    GroupRowsAreKeys(keys);
    JoinedKeysAreJoinRows(db.engagements, db.posts, db.authors);
  }

  /** A key has a row exactly when it occurs in the join. */
  lemma GroupRowsAreKeys(keys: seq<MonthKey>)
    ensures forall k :: HasRow(GroupAndCount(keys), k) <==> k in keys
  {
    var rows := GroupAndCount(keys);
    forall k | HasRow(rows, k)
      ensures k in keys
    {
      var i :| 0 <= i < |rows| && KeyOf(rows[i]) == k;
      assert multiset(keys)[k] >= 1;
    }
  }

  /**
    With unique keys the counts add up to the number of engagements whose
    post and author exist; with full integrity, to every engagement.
   */
  lemma MonthlyTrendTotal(db: Store)
    requires UniqueKeys(db)
    ensures TotalEngagements(MonthlyTrend(db)) == AttributedCount(db, db.engagements)
    ensures ReferencesResolve(db) ==> TotalEngagements(MonthlyTrend(db)) == |db.engagements|
  {
    JoinedKeysCount(db, db.engagements);
    if ReferencesResolve(db) {
      WellFormedAttributesAll(db, db.engagements);
    }
  }

  /**
    With unique keys, each row counts exactly the engagements of its month
    on posts by authors of its name, and every such engagement has a row.
   */
  lemma MonthlyTrendCounts(db: Store)
    requires UniqueKeys(db)
    ensures forall i :: 0 <= i < |MonthlyTrend(db)| ==>
      MonthlyTrend(db)[i].totalEngagements == CountKeyedAs(db, db.engagements, KeyOf(MonthlyTrend(db)[i]))
    ensures forall e, k :: e in db.engagements && KeyedAs(db, e, k) ==> HasRow(MonthlyTrend(db), k)
  {
    var keys := JoinedKeys(db.engagements, db.posts, db.authors);
    var rows := MonthlyTrend(db);
    forall i | 0 <= i < |rows|
      ensures rows[i].totalEngagements == CountKeyedAs(db, db.engagements, KeyOf(rows[i]))
    {
      JoinedKeysPerGroup(db, db.engagements, KeyOf(rows[i]));
    }
    forall e, k | e in db.engagements && KeyedAs(db, e, k)
      ensures HasRow(rows, k)
    {
      CountKeyedAsPositive(db, db.engagements, e, k);
      JoinedKeysPerGroup(db, db.engagements, k);
      assert multiset(keys)[k] > 0;
    }
  }

  lemma {:induction false} CountKeyedAsPositive(db: Store, engagements: seq<Engagement>, e: Engagement, k: MonthKey)
    requires e in engagements && KeyedAs(db, e, k)
    ensures CountKeyedAs(db, engagements, k) > 0
  {
    if engagements[0] != e {
      CountKeyedAsPositive(db, engagements[1..], e, k);
    }
  }
}
