/**
  The trend-compare handler's filter builder: from the optional `author_id`
  and `post_id` query-string values to a WHERE-clause fragment plus the list
  of values bound to its placeholders, and how the database reads that pair.
 */
module QueryFilter {
  import opened Sql

  /**
    A value Express's query-string parser hands the handler: absent, a string,
    or an array / nested object (from `?author_id=1&author_id=2` or
    `?author_id[x]=1`), which JavaScript always treats as truthy.
   */
  datatype QueryValue = Missing | Text(text: string) | Compound(parts: seq<QueryValue>)

  /**
    JavaScript truthiness of a query-string value: a missing value and "" are
    falsy; any other string, and every array or object, is truthy.
   */
  predicate Truthy(v: QueryValue): (b: bool)
    ensures !b <==> v == Missing || v == Text("")
  {
    match v
    case Missing => false
    case Text(s) => s != ""
    case Compound(_) => true
  }

  /** The one placeholder a fragment uses. */
  const FirstParam: string := "$1"
  const AuthorFragment: string := "AND p.author_id = " + FirstParam
  const PostFragment: string := "AND e.post_id = " + FirstParam

  /** A WHERE-clause fragment together with the values bound to its placeholders, in order. */
  datatype WhereFilter = WhereFilter(fragment: string, params: seq<QueryValue>)

  predicate IsDigit(c: char) { '0' <= c <= '9' }

  /** The parameter numbers `$n` (single digit) that the text `s` refers to. */
  function Placeholders(s: string): set<int>
  {
    if |s| < 2 then {}
    else (if s[0] == '$' && IsDigit(s[1]) then {s[1] as int - '0' as int} else {}) + Placeholders(s[1..])
  }

  /** The parameter numbers a bind list of length `n` supplies: 1 .. n. */
  function Supplied(n: nat): set<int>
  {
    if n == 0 then {} else Supplied(n - 1) + {n}
  }

  /** Text without a `$` in front of `u` adds no placeholder. */
  lemma {:induction false} PlaceholdersAfterPlainText(t: string, u: string)
    requires '$' !in t
    ensures Placeholders(t + u) == Placeholders(u)
  {
    if t != [] {
      assert (t + u)[0] == t[0] != '$';
      assert (t + u)[1..] == t[1..] + u;
      PlaceholdersAfterPlainText(t[1..], u);
      if |t + u| < 2 {
        assert u == [];
      }
    } else {
      assert t + u == u;
    }
  }

  lemma PlaceholdersOfFragments()
    ensures Placeholders("") == {}
    ensures Placeholders(AuthorFragment) == {1}
    ensures Placeholders(PostFragment) == {1}
  {
    assert Placeholders(FirstParam) == {1};
    PlaceholdersAfterPlainText("AND p.author_id = ", FirstParam);
    PlaceholdersAfterPlainText("AND e.post_id = ", FirstParam);
  }

  /**
    The filter built from `author_id` and `post_id`: a truthy author_id wins,
    else a truthy post_id, else no filter. The fragment is always one of three
    fixed texts, so user values reach the query only as bound parameters, and
    its placeholders are exactly the parameters supplied.
   */
  function BuildFilter(authorId: QueryValue, postId: QueryValue): (f: WhereFilter)
    ensures f.fragment == "" || f.fragment == AuthorFragment || f.fragment == PostFragment
    ensures Placeholders(f.fragment) == Supplied(|f.params|)
    ensures |f.params| == 1 <==> f.fragment != ""
    ensures Truthy(authorId) ==> f == WhereFilter(AuthorFragment, [authorId])
    ensures !Truthy(authorId) && Truthy(postId) ==> f == WhereFilter(PostFragment, [postId])
    ensures !Truthy(authorId) && !Truthy(postId) ==> f == WhereFilter("", [])
  {
    PlaceholdersOfFragments();
    if Truthy(authorId) then WhereFilter(AuthorFragment, [authorId])
    else if Truthy(postId) then WhereFilter(PostFragment, [postId])
    else WhereFilter("", [])
  }

  /** With a truthy author_id, post_id plays no part. */
  lemma AuthorIdTakesPrecedence(authorId: QueryValue, postId: QueryValue, otherPostId: QueryValue)
    requires Truthy(authorId)
    ensures BuildFilter(authorId, postId) == BuildFilter(authorId, otherPostId)
    ensures BuildFilter(authorId, postId).params == [authorId]
  {
  }

  /** An empty string behaves exactly like an absent parameter. */
  lemma EmptyStringIsAbsent(authorId: QueryValue, postId: QueryValue)
    ensures BuildFilter(Text(""), postId) == BuildFilter(Missing, postId)
    ensures BuildFilter(authorId, Text("")) == BuildFilter(authorId, Missing)
  {
  }

  /** The fragment text depends only on which values are truthy, never on what they say. */
  lemma FragmentIgnoresValues(a: QueryValue, p: QueryValue, a': QueryValue, p': QueryValue)
    requires Truthy(a) == Truthy(a') && Truthy(p) == Truthy(p')
    ensures BuildFilter(a, p).fragment == BuildFilter(a', p').fragment
  {
  }

  // ---------------------------------------------------------------------------
  // Binding $1: the database compares it with an integer id column, so it
  // reads the bound text as an integer literal
  // ---------------------------------------------------------------------------

  predicate AllDigits(s: string)
  {
    forall i :: 0 <= i < |s| ==> IsDigit(s[i])
  }

  function DigitValue(c: char): nat
    requires IsDigit(c)
  {
    c as int - '0' as int
  }

  function DigitChar(d: nat): (c: char)
    requires d < 10
    ensures IsDigit(c) && DigitValue(c) == d
  {
    ('0' as int + d) as char
  }

  /** The value of a run of decimal digits, most significant first. */
  function DigitsValue(s: string): nat
    requires AllDigits(s)
  {
    if s == [] then 0 else 10 * DigitsValue(s[..|s| - 1]) + DigitValue(s[|s| - 1])
  }

  /** A leading sign character. */
  predicate IsSign(c: char) { c == '-' || c == '+' }

  /**
    Text that is not an integer literal: it is empty, or some character is
    neither a digit nor a sign at the front of a longer text.
   */
  predicate NotIntegerText(s: string)
  {
    || s == ""
    || exists i :: 0 <= i < |s| && !IsDigit(s[i]) && (i > 0 || |s| == 1 || !IsSign(s[0]))
  }

  /** An integer literal: an optional sign followed by at least one decimal digit. */
  function ParseInteger(s: string): (r: Nullable<int>)
    ensures r.Null? <==> NotIntegerText(s)
    ensures s != "" && AllDigits(s) ==> r == Value(DigitsValue(s))
    ensures |s| > 1 && s[0] == '-' && AllDigits(s[1..]) ==> r == Value(-(DigitsValue(s[1..]) as int))
    ensures |s| > 1 && s[0] == '+' && AllDigits(s[1..]) ==> r == Value(DigitsValue(s[1..]))
  {
    if |s| > 1 && (s[0] == '-' || s[0] == '+') && AllDigits(s[1..]) then
      var magnitude: int := DigitsValue(s[1..]);
      Value(if s[0] == '-' then -magnitude else magnitude)
    else if s != "" && AllDigits(s) then Value(DigitsValue(s))
    else Null
  }

  /** Decimal digits of `n`, without leading zeros. */
  function ShowNat(n: nat): (s: string)
    ensures s != "" && AllDigits(s)
  {
    if n < 10 then [DigitChar(n)] else ShowNat(n / 10) + [DigitChar(n % 10)]
  }

  /** The decimal text of an integer, with a leading '-' when negative. */
  function ShowInteger(i: int): string
  {
    if i < 0 then "-" + ShowNat(-i) else ShowNat(i)
  }

  lemma {:induction false} DigitsValueOfShowNat(n: nat)
    ensures DigitsValue(ShowNat(n)) == n
  {
    if n >= 10 {
      var s := ShowNat(n);
      assert s[..|s| - 1] == ShowNat(n / 10);
      DigitsValueOfShowNat(n / 10);
    }
  }

  /** Reading back the decimal text of an id gives the id. */
  lemma ParseShowInteger(i: int)
    ensures ParseInteger(ShowInteger(i)) == Value(i)
  {
    if i < 0 {
      DigitsValueOfShowNat(-i);
      ParseNegative(ShowNat(-i));
    } else {
      DigitsValueOfShowNat(i);
    }
  }

  /** A minus sign followed by digits reads as the negated digit value. */
  lemma ParseNegative(digits: string)
    requires digits != "" && AllDigits(digits)
    ensures ParseInteger("-" + digits) == Value(-(DigitsValue(digits) as int))
  {
    var s := "-" + digits;
    assert s[0] == '-' && s[1..] == digits;
  }

  /** The integer a bound parameter stands for; arrays and objects have none. */
  function BoundInteger(v: QueryValue): (r: Nullable<int>)
    ensures r.Value? <==> v.Text? && !NotIntegerText(v.text)
    ensures v.Text? ==> r == ParseInteger(v.text)
  {
    match v
    case Text(s) => ParseInteger(s)
    case _ => Null
  }

  /** The row condition a filter selects, once its parameter is bound. */
  datatype RowFilter = AnyRow | AuthorIs(authorId: int) | PostIs(postId: int)

  const InvalidInteger: string := "invalid input syntax for type integer"

  /** A filter produced by BuildFilter: a known fragment with one parameter per placeholder. */
  predicate IsBuilt(f: WhereFilter)
  {
    || f == WhereFilter("", [])
    || ((f.fragment == AuthorFragment || f.fragment == PostFragment) && |f.params| == 1)
  }

  /**
    How the database reads a built filter: the empty fragment selects every
    row; otherwise `$1` must read as an integer, or the query fails.
   */
  function BindFilter(f: WhereFilter): (r: Outcome<RowFilter>)
    requires IsBuilt(f)
    ensures f.fragment == "" <==> r == Ok(AnyRow)
    ensures f.fragment != "" ==> (r.Ok? <==> BoundInteger(f.params[0]).Value?)
    ensures r.Ok? && f.fragment == AuthorFragment ==> r.value == AuthorIs(BoundInteger(f.params[0]).value)
    ensures r.Ok? && f.fragment == PostFragment ==> r.value == PostIs(BoundInteger(f.params[0]).value)
  {
    if f.fragment == "" then Ok(AnyRow)
    else
      match BoundInteger(f.params[0])
      case Null => QueryError(InvalidInteger)
      case Value(id) => if f.fragment == AuthorFragment then Ok(AuthorIs(id)) else Ok(PostIs(id))
  }
}
