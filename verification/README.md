# Engagement analytics API — a Dafny model

The service (`Server.js`) is an Express application. Its routes answer with the result of
one PostgreSQL query over three tables: `authors`, `posts` and `engagements`. This project
models the logic of those routes as pure functions over in-memory tables and proves what
each response contains.

- **Monthly trend** (`GET /api/engagement/trend`, first registration). Engagements are joined
  to their post and to that post's author. They are grouped by (month, author name) and
  counted, ordered by month.
- **Heatmap** (`GET /api/engagement/heatmap`). Engagements are counted per (day of week,
  hour) cell, in ascending cell order.
- **Scatter plot** (`GET /api/engagement/scatter`). Every author gets a row, including authors
  with no posts. The row holds the number of distinct posts, the number of engagements on
  them, and engagements per post rounded to two decimals. The ratio is NULL when there are
  no posts.
- **Trend compare** (`GET /api/engagement/trend`, second registration). It counts
  engagements in the last 7 days and in the 7 days before. It can be restricted to one
  author (`author_id`) or one post (`post_id`), and it reports the percentage change.
  - The WHERE fragment and its bind list are built from the query string.
  - The database then reads the bound `$1` as an integer.

Express dispatches a request to the first matching route. The monthly-trend handler is
registered first on the same path and always responds, so the trend-compare handler is
never reached over HTTP. The model describes the trend-compare handler as the function it
would compute (module `TrendCompare`).

Files and modules:

| file | module | contents |
|---|---|---|
| `sql.dfy` | `Sql` | NULL, query outcomes, `ROUND(numeric, 2)` in integer hundredths, duplicate-free sequences, group counting |
| `tables.dfy` | `Tables` | rows of the three tables, key and reference integrity, row selections used by the joins |
| `filter.dfy` | `QueryFilter` | query-string values, JavaScript truthiness, the WHERE-fragment builder, integer reading of `$1` |
| `compare.dfy` | `TrendCompare` | time windows, the engagement–post join, window counts, `pct_change` |
| `heatmap.dfy` | `Heatmap` | the (day_of_week, hour) grouping |
| `monthly.dfy` | `MonthlyTrend` | the three-way join, grouping by (month, author), ordering by month |
| `scatter.dfy` | `Scatter` | the two left joins, grouping by author, the three aggregates |

Conventions:

- Timestamps count seconds. `INTERVAL 'n days'` is `n * 86400`.
- `NOW()` is the parameter `now`.
- The calendar fields that `DATE_TRUNC('month', ...)`, `EXTRACT(DOW ...)` and `EXTRACT(HOUR ...)`
  return are stored with each timestamp.
- Joins keep their real multiplicity.
- Properties that rely on `author_id` and `post_id` being keys take `UniqueKeys` as a
  precondition. Properties that also rely on every reference resolving take `WellFormed`.
- Percentages and ratios are integer hundredths: 100.00 is `10000`, and 2.50 engagements per
  post is `250`.

## Model

| member | source | states |
|---|---|---|
| Sql.RoundHundredths | Server.js:72-74 | The result in hundredths is within half a hundredth of the exact ratio. A tie rounds away from zero. It is never of the opposite sign: at least 0 for a non-negative ratio, at most 0 for a non-positive one. A small non-zero ratio can round to 0. |
| Sql.RoundHundredthsUnique | Server.js:72-74 | Only one value meets that rounding characterisation, so the rounding is fully determined. |
| Sql.RoundHundredthsExact | Server.js:127-130 | A ratio that is a whole number of hundredths comes back unchanged. |
| Sql.RoundHundredthsAtLeast | Server.js:127-130 | If the ratio is at least a whole number k, so is its rounding. |
| Sql.RoundHundredthsOdd | Server.js:127-130 | Rounding is symmetric about zero: negating the ratio negates the result. |
| Sql.Distinct | Server.js:78 | The group keys hold each input key exactly once and nothing else. An input that is already duplicate-free comes back unchanged. |
| Sql.SumCountsPartition | Server.js:30 | When keys cover the input without repeats, the per-key counts add up to the input size. |
| Tables.PostsByAuthorUnique | Server.js:76 | Selecting one author's posts keeps post ids unique. |
| QueryFilter.Truthy | Server.js:97-101 | `if (author_id)` and `if (post_id)` fail exactly for a missing value and the empty string. Any other string, array or object passes. |
| QueryFilter.BuildFilter | Server.js:91-104 | A truthy `author_id` wins, then a truthy `post_id`, else no filter. The fragment is one of three fixed texts. Its `$n` placeholders are exactly 1..(number of bound values). |
| QueryFilter.AuthorIdTakesPrecedence | Server.js:97-104 | With a truthy `author_id`, `post_id` has no effect and `author_id` is the only bound value. |
| QueryFilter.EmptyStringIsAbsent | Server.js:97-104 | An empty-string parameter behaves exactly like a missing one. |
| QueryFilter.FragmentIgnoresValues | Server.js:94-104 | The SQL text depends only on which values are truthy, never on their content. User input reaches the query only as a bound parameter. |
| QueryFilter.ParseInteger | Server.js:134 | The bound text fails to read as an integer exactly when it is empty or has a character that is neither a digit nor a leading sign before further characters. Digits read as their value. A leading `-` negates it, and a leading `+` keeps it. |
| QueryFilter.ParseShowInteger | Server.js:134 | Reading back the decimal text of an integer id gives that id. |
| QueryFilter.BoundInteger | Server.js:134 | A bound value reads as an integer exactly when it is text that is an integer literal. A missing value, array or object never does. |
| QueryFilter.BindFilter | Server.js:106-134 | With no fragment, every row passes. Otherwise the query succeeds exactly when `$1` reads as an integer, and it filters on that integer's column. |
| TrendCompare.WindowsPartitionLast14 | Server.js:111-119 | No timestamp is in both windows, and together they cover exactly the timestamps at or after now − 14 days. |
| TrendCompare.EngagementPostJoin | Server.js:109-110 | The inner join holds exactly the matching pairs. Every joined row pairs an engagement with a post of the same post_id, and every such (engagement, post) pair appears. |
| TrendCompare.CountIn | Server.js:108-120 | The `COUNT(*)` of a window is at most the number of joined rows. It is 0 exactly when no row lies in the window and passes the filter, and all of them exactly when every row does. |
| TrendCompare.WindowCountsAddUp | Server.js:107-121 | Under any filter, last_7_days + prev_7_days is the count of the 14-day window. |
| TrendCompare.PctChange | Server.js:125-131 | `pct_change` is NULL exactly when prev_7_days is 0. Otherwise it is the rounded value of 100·(last − prev)/prev, never below −100.00, and never of the opposite sign to last − prev: at least 0 when last ≥ prev, at most 0 when last ≤ prev. A small change can round to 0.00. |
| TrendCompare.PctChangeDoubling | Server.js:125-131 | 10 against 5 gives exactly 100.00. |
| TrendCompare.CompareWindows | Server.js:90-135 | Without filters the query succeeds. With a truthy filter it succeeds exactly when the chosen value reads as an integer. `author_id` takes precedence over `post_id`. `pct_change` is NULL exactly when prev_7_days is 0. |
| TrendCompare.CompareByAuthor | Server.js:97-99 | An author_id that reads as the integer `i`, in any spelling `$1` accepts ("7", "007", "+7"), counts both windows with the author filter on `i`, whatever `post_id` says. |
| TrendCompare.CompareByAuthorText | Server.js:97-99 | The decimal text of `id` as author_id counts both windows with the author filter on `id`. |
| TrendCompare.CompareByPost | Server.js:101-103 | A post_id that reads as the integer `i`, in any accepted spelling, without an author_id counts both windows with the post filter on `i`. |
| TrendCompare.CompareByPostText | Server.js:101-103 | The decimal text of `id` as post_id, without an author_id, counts both windows with the post filter on `id`. |
| TrendCompare.CompareRejectsNonInteger | Server.js:134 | An array or object, or non-empty text that is not an integer literal, makes the query fail instead of producing counts. This holds as `author_id`, and as `post_id` when `author_id` is falsy. |
| TrendCompare.FilteredCounts | Server.js:107-121 | With unique post ids, a window's count is the number of engagements in that window that have a post and pass the filter with it. |
| TrendCompare.CompareWithCounts | Server.js:106-124 | With unique post ids, both reported counts are those filtered window counts. |
| TrendCompare.UnfilteredCountsEngagements | Server.js:107-111 | With full integrity and no filter, the join neither drops nor repeats an engagement. A window counts exactly the engagements in it. |
| TrendCompare.UnfilteredCompare | Server.js:106-124 | With full integrity and no filter, the response counts the engagements in each window, and the two counts add up to the engagements of the last 14 days. |
| Heatmap.Heatmap | Server.js:45-52 | There is one row per occupied (day_of_week, hour) cell, and every engagement's cell has a row. Each row's count is the number of engagements in its cell, at least 1. Rows are strictly ascending by (day_of_week, hour). The counts add up to the number of engagements. |
| Heatmap.HeatmapCellsUnique | Server.js:51-52 | No cell appears in two rows. |
| MonthlyTrend.SortByMonth | Server.js:31 | The output is ordered by non-decreasing month and is a permutation of its input: the same multiset of keys. |
| MonthlyTrend.GroupAndCount | Server.js:26-31 | Each (month, author) key of the join gets exactly one row. Its count is the number of joined rows with that key, at least 1. Months are non-decreasing, and the counts add up to the size of the join. |
| MonthlyTrend.JoinedKeysAreJoinRows | Server.js:27-29 | A key occurs in the three-way join (`JoinedKeys`) exactly when some engagement, a post with its post_id and an author with that post's author_id give that (month, name). |
| MonthlyTrend.MonthlyTrend | Server.js:22-31 | The response has no key twice, non-decreasing months, and a count of at least 1 in every row. |
| MonthlyTrend.MonthlyTrendKeys | Server.js:22-31 | The response has a row for (month, name) exactly when some engagement of that month, its post and that post's author called name join. |
| MonthlyTrend.JoinedKeysCount | Server.js:27-29 | With unique keys, the join has one row per engagement whose post and author exist, and none for the others. |
| MonthlyTrend.JoinedKeysPerGroup | Server.js:27-30 | With unique keys, group (m, name) of the join has one row per engagement in month m on a post by an author called name. |
| MonthlyTrend.MonthlyTrendTotal | Server.js:22-31 | With unique keys, the counts add up to the number of attributable engagements. With full integrity, they add up to all engagements. |
| MonthlyTrend.MonthlyTrendCounts | Server.js:22-31 | With unique keys, each row counts exactly the engagements of its month on posts by authors of its name. Every such engagement has a row. |
| Scatter.LeftJoin | Server.js:75-77 | Every row of the left join belongs to an author row and is one of the rows that author row produces. |
| Scatter.LeftJoinRows | Server.js:75-77 | Nothing is dropped. An author without posts keeps an all-NULL row, each post pairs with each engagement on it, and a post without engagements keeps a row with a NULL engagement. A NULL post only comes from an author without posts, and a NULL engagement only from a post without engagements. |
| Scatter.Aggregate | Server.js:68-74 | A group's row carries the group's (author_id, name), and its ratio is NULL exactly when post_volume is 0. |
| Scatter.AggregateNullColumns | Server.js:70-71 | `COUNT(DISTINCT p.post_id)` is 0 exactly when every post column of the group is NULL. `COUNT(e.engagement_id)` is 0 exactly when every engagement column is NULL, and never exceeds the group size. |
| Scatter.EngagementPerPost | Server.js:72-74 | `engagement_per_post` is NULL exactly when post_volume is 0. Otherwise it is the ratio total/volume, rounded, and never negative. |
| Scatter.ScatterPlot | Server.js:66-78 | Every author row appears as exactly one (author_id, author_name) row, and every row belongs to an author of the table. Engagements imply posts, and the ratio is NULL exactly without posts. |
| Scatter.ScatterPlotRowsAreAuthors | Server.js:75-78 | On any tables, every row of the response is an author of the table, and the row is that author's group summary. |
| Scatter.GroupOfLeftJoin | Server.js:75-78 | With no duplicated author rows, an author's group is exactly the join rows its own author row produced. |
| Scatter.AuthorSummaryIsExpected | Server.js:66-78 | With unique keys, an author's row has post_volume equal to the number of distinct posts it wrote. total_engagements is the number of engagements on exactly those posts, and the ratio is computed from the two. |
| Scatter.AuthorWithoutPosts | Server.js:75-78 | An author without posts gets (0, 0, NULL), whatever else the tables hold. |
| Scatter.AuthorWithoutPostsInPlot | Server.js:75-78 | An author row without posts appears in the response as (author_id, name, 0, 0, NULL), on any tables. |
| Scatter.ScatterPlotIsExpected | Server.js:66-78 | With unique keys, the response has one row per author row. It holds each author's expected row and no other row, in no particular order. |

## Left out

- HTTP serving is not modelled: Express, CORS, `app.listen` and route dispatch. The
  shadowing of the trend-compare route is described above and not modelled as a function.
- The connection pool and its settings (lines 9-15) are configuration, not logic.
- `res.json` is left out. So is PostgreSQL returning `COUNT` as a bigint string: counts are
  `nat` and ratios are integer hundredths.
- The `try`/`catch` blocks and the 500 responses are left out, because the model has no
  database failures. The trend-compare handler has no `catch` around the query at line 134.
  Its bind error is modelled as the `QueryError` outcome rather than as an unhandled
  rejection.
- Calendar arithmetic is not modelled, because it is the database's. `DATE_TRUNC`,
  `EXTRACT(DOW/HOUR)` and `NOW()` are given values. Daylight-saving shifts inside
  `INTERVAL '7 days'` are ignored.
- Row order within a month (monthly trend) and the scatter-plot row order are not specified,
  because the queries leave them unspecified. The model produces one order: for the scatter
  plot, the author table's order. The properties listed above do not depend on that order.
- Sql.RoundHundredths: it rounds the exact rational. PostgreSQL first divides `numeric`
  to a finite scale of at least 16 significant digits and then rounds. The two can differ
  only when the exact ratio lies within about 10^-14 of a rounding tie without being one.
- QueryFilter.ParseInteger: it accepts only an optional sign followed by decimal digits.
  Several forms are not modelled: surrounding whitespace, digit-group underscores, the
  `0x`/`0o`/`0b` prefixes and out-of-range values. PostgreSQL 16's integer input accepts
  all but the last and rejects out-of-range values. The id columns
  are assumed to be integers, because the schema is not part of this model.
- QueryFilter.BoundInteger: an array or object from the query string (for example
  `?author_id=1&author_id=2`) never reads as an integer. The driver's exact serialisation
  of such values is not modelled.
- Every column of the three tables is taken as NOT NULL: `engaged_timestamp`,
  `posts.author_id`, `engagements.post_id` and `authors.name`, as well as the ids. The schema is
  not part of this model. With NULLs, the queries would behave in ways the model does not cover:
  - A NULL `engaged_timestamp` adds a `(NULL, NULL, n)` row to the heatmap, sorted last. The
    `DayOfWeek` and `HourOfDay` ranges then no longer bound every row.
  - The same NULL adds a NULL-month group to the monthly trend, and neither 7-day window
    counts it.
  - A NULL `author_id` or `post_id` matches nothing, so it drops rows from every inner join.
    In the scatter plot it leaves only the NULL-extended row.
  - A NULL author name forms its own group in the monthly trend.
- Reference lemmas that relate a response to the tables directly assume `UniqueKeys`, and
  `WellFormed` where that is needed. Without those assumptions, the response functions
  still follow the SQL semantics, duplicates and all.
