/**
 * `GET /`: the paginated, newest-first listing of the article table.
 *
 * `page` and `limit` come from the query string through `parseInt(x) || d`;
 * the window starts `(page - 1) * limit` rows into the table ordered by
 * creation time, most recent first, and holds at most `limit` rows; the
 * answer echoes `page` and `limit` and reports the row count and
 * `Math.ceil(total / limit)`. The count and the window are read from the
 * same table.
 */
module Pagination {
  import opened Wrappers
  import opened JsString
  import opened JsNumber
  import opened Articles

  /**
   * A query-string parameter as the query parser delivers it: absent, one
   * string, a list of strings (a repeated parameter), or a nested object.
   */
  datatype QueryValue = Missing | Text(text: string) | List(items: seq<string>) | Nested

  /** `String(v)`, which `parseInt` applies to its argument first. */
  function ToJsString(v: QueryValue): string {
    match v
    case Missing => "undefined"
    case Text(s) => s
    case List(items) => if items == [] then "" else Join(items, ',')
    case Nested => "[object Object]"
  }

  const DefaultPage := 1
  const DefaultLimit := 10

  /**
   * `parseInt(v) || d`: the parsed integer, or `d` when parsing gives NaN
   * or zero. With a non-zero default the result is never zero.
   */
  function QueryInt(v: QueryValue, d: int): (r: int)
    ensures d != 0 ==> r != 0
    ensures r == d || ParseInt(ToJsString(v)) == Int(r)
    ensures ParseInt(ToJsString(v)).Int? && ParseInt(ToJsString(v)).value != 0 ==>
      r == ParseInt(ToJsString(v)).value
    ensures ParseInt(ToJsString(v)).NaN? || ParseInt(ToJsString(v)) == Int(0) ==> r == d
  {
    OrDefault(ParseInt(ToJsString(v)), d)
  }

  /** An absent parameter takes the default. */
  lemma MissingTakesDefault(d: int)
    ensures QueryInt(Missing, d) == d
  {
    var s := ToJsString(Missing);
    assert s[0] == 'u' && !IsWhiteSpace(s[0]);
    NonNumericIsNaN(s);
  }

  /** A number written in decimal passes through unchanged, negatives included, except zero, which takes the default. */
  lemma DecimalPassesThrough(n: int, d: int)
    ensures n != 0 ==> QueryInt(Text(DecimalString(n)), d) == n
    ensures n == 0 ==> QueryInt(Text(DecimalString(n)), d) == d
  {
    DecimalRoundTrip(n);
  }

  /** Text that does not start (after white space) with a sign or a digit takes the default. */
  lemma NonNumericTakesDefault(s: string, d: int)
    requires var t := TrimStart(s); t == [] || (t[0] != '+' && t[0] != '-' && !('0' <= t[0] <= '9'))
    ensures QueryInt(Text(s), d) == d
  {
    NonNumericIsNaN(s);
  }

  // --------------------------------------------------- newest-first order

  /**
   * Row `j` comes no later than row `k` in the listing: it was created
   * later, or at the same time with an id at most as large. The route
   * orders by `createdAt` alone, so the database decides among rows created
   * at the same instant; the model fixes one order, increasing id.
   */
  predicate Precedes(t: map<int, Article>, j: int, k: int)
    requires j in t && k in t
  {
    t[j].createdAt > t[k].createdAt || (t[j].createdAt == t[k].createdAt && j <= k)
  }

  /** A row that precedes every other row of `t - {k0}` precedes every row of `t` but `k0`. */
  lemma PrecedesWithout(t: map<int, Article>, k0: int, m: int)
    requires k0 in t && m in t - {k0}
    requires forall j :: j in t - {k0} ==> Precedes(t - {k0}, m, j)
    ensures forall j :: j in t && j != k0 ==> Precedes(t, m, j)
  {
    forall j | j in t && j != k0
      ensures Precedes(t, m, j)
    {
      assert j in t - {k0} && Precedes(t - {k0}, m, j);
    }
  }

  /** Some row of a non-empty table precedes all its rows. */
  lemma {:induction false} Newest(t: map<int, Article>) returns (k: int)
    requires t != map[]
    ensures k in t && forall j :: j in t ==> Precedes(t, k, j)
    decreases t.Keys
  {
    if forall x :: x !in t { assert false; }
    var k0 :| k0 in t;
    if forall j :: j in t ==> j == k0 {
      return k0;
    }
    var rest := t - {k0};
    var j1 :| j1 in t && j1 != k0;
    assert j1 in rest;
    assert rest.Keys < t.Keys;
    var m := Newest(rest);
    PrecedesWithout(t, k0, m);
    if Precedes(t, m, k0) {
      k := m;
    } else {
      k := k0;
      forall j | j in t
        ensures Precedes(t, k0, j)
      {
        if j != k0 {
          assert Precedes(t, m, j);
        }
      }
    }
  }

  lemma NewestExists(t: map<int, Article>)
    requires t != map[]
    ensures exists k :: k in t && forall j :: j in t ==> Precedes(t, k, j)
  {
    var k := Newest(t);
  }

  /** The id of the row listed first. */
  function NewestId(t: map<int, Article>): (k: int)
    requires t != map[]
    ensures k in t && forall j :: j in t ==> Precedes(t, k, j)
  {
    NewestExists(t);
    var k :| k in t && forall j :: j in t ==> Precedes(t, k, j);
    k
  }

  /**
   * `ks` lists the ids of `t` in listing order: each id of the table
   * exactly once, each row preceding the ones after it.
   */
  ghost predicate InListingOrder(t: map<int, Article>, ks: seq<int>) {
    && |ks| == |t|
    && (forall i :: 0 <= i < |ks| ==> ks[i] in t)
    && (forall k :: k in t ==> k in ks)
    && (forall i, j :: 0 <= i < j < |ks| ==> ks[i] in t && ks[j] in t && ks[i] != ks[j] && Precedes(t, ks[i], ks[j]))
  }

  /** Putting the newest id in front of a listing of the remaining rows lists the whole table. */
  lemma ConsNewest(t: map<int, Article>, k: int, tail: seq<int>)
    requires k in t && forall j :: j in t ==> Precedes(t, k, j)
    requires InListingOrder(t - {k}, tail)
    ensures InListingOrder(t, [k] + tail)
  {
    var rest := t - {k};
    var ks := [k] + tail;
    assert |ks| == |t| by {
      assert rest.Keys == t.Keys - {k};
      assert |rest.Keys| == |t.Keys| - 1;
    }
    assert forall i :: 1 <= i < |ks| ==> ks[i] == tail[i - 1];
    assert forall i :: 0 <= i < |ks| ==> ks[i] in t;
    assert forall x :: x in t ==> x in ks by {
      forall x | x in t ensures x in ks {
        if x != k { assert x in rest; }
      }
    }
    assert forall i, j :: 0 <= i < j < |ks| ==> ks[i] in t && ks[j] in t && ks[i] != ks[j] && Precedes(t, ks[i], ks[j]) by {
      forall i, j | 0 <= i < j < |ks|
        ensures ks[i] in t && ks[j] in t && ks[i] != ks[j] && Precedes(t, ks[i], ks[j])
      {
        TailPrecedes(t, k, tail, i, j);
      }
    }
  }

  lemma TailPrecedes(t: map<int, Article>, k: int, tail: seq<int>, i: int, j: int)
    requires k in t && forall j :: j in t ==> Precedes(t, k, j)
    requires InListingOrder(t - {k}, tail)
    requires 0 <= i < j < |tail| + 1
    ensures var ks := [k] + tail;
      ks[i] in t && ks[j] in t && ks[i] != ks[j] && Precedes(t, ks[i], ks[j])
  {
    var rest := t - {k};
    var ks := [k] + tail;
    assert ks[j] == tail[j - 1] && ks[j] in rest;
    if i > 0 {
      assert ks[i] == tail[i - 1] && Precedes(rest, ks[i], ks[j]);
    }
  }

  /** The ids of the table in listing order. */
  function NewestFirstIds(t: map<int, Article>): (ks: seq<int>)
    ensures InListingOrder(t, ks)
    decreases t.Keys
  {
    if t == map[] then []
    else
      var k := NewestId(t);
      assert (t - {k}).Keys < t.Keys;
      var tail := NewestFirstIds(t - {k});
      ConsNewest(t, k, tail);
      [k] + tail
  }

  /**
   * The rows as `findMany({ orderBy: { createdAt: "desc" } })` returns
   * them, the most recently created first. The order among rows created
   * at the same instant is the database's choice; the model fixes it as
   * increasing id.
   */
  function NewestFirst(t: map<int, Article>): (r: seq<Article>)
    ensures |r| == |t|
  {
    var ks := NewestFirstIds(t);
    seq(|ks|, i requires 0 <= i < |ks| => t[ks[i]])
  }

  /**
   * The listing holds every row of the table exactly once (it is a
   * permutation of the rows), ordered by creation time, most recent first.
   */
  lemma NewestFirstIsSortedPermutation(t: map<int, Article>)
    requires IdsMatchKeys(t)
    ensures var r := NewestFirst(t);
      && (forall i :: 0 <= i < |r| ==> r[i].id in t && t[r[i].id] == r[i])
      && (forall k :: k in t ==> t[k] in r)
      && (forall i, j :: 0 <= i < j < |r| ==> r[i].id != r[j].id)
      && (forall i, j :: 0 <= i < j < |r| ==> r[i].createdAt >= r[j].createdAt)
      && (forall i, j :: 0 <= i < j < |r| && r[i].createdAt == r[j].createdAt ==> r[i].id < r[j].id)
  {
    NewestFirstRows(t);
    NewestFirstOrder(t);
  }

  lemma NewestFirstRows(t: map<int, Article>)
    requires IdsMatchKeys(t)
    ensures var r := NewestFirst(t);
      && (forall i :: 0 <= i < |r| ==> r[i].id in t && t[r[i].id] == r[i])
      && (forall k :: k in t ==> t[k] in r)
  {
    var ks := NewestFirstIds(t);
    var r := NewestFirst(t);
    assert forall i :: 0 <= i < |r| ==> r[i] == t[ks[i]];
    forall k | k in t ensures t[k] in r {
      var i :| 0 <= i < |ks| && ks[i] == k;
      assert r[i] == t[k];
    }
  }

  lemma NewestFirstOrder(t: map<int, Article>)
    requires IdsMatchKeys(t)
    ensures var r := NewestFirst(t);
      && (forall i, j :: 0 <= i < j < |r| ==> r[i].id != r[j].id)
      && (forall i, j :: 0 <= i < j < |r| ==> r[i].createdAt >= r[j].createdAt)
      && (forall i, j :: 0 <= i < j < |r| && r[i].createdAt == r[j].createdAt ==> r[i].id < r[j].id)
  {
    var ks := NewestFirstIds(t);
    var r := NewestFirst(t);
    forall i, j | 0 <= i < j < |r|
      ensures r[i].id != r[j].id && r[i].createdAt >= r[j].createdAt
      ensures r[i].createdAt == r[j].createdAt ==> r[i].id < r[j].id
    {
      assert r[i] == t[ks[i]] && r[j] == t[ks[j]];
      assert Precedes(t, ks[i], ks[j]) && ks[i] != ks[j];
    }
  }

  // ------------------------------------------------------ skip and take

  function Min(a: int, b: int): int { if a <= b then a else b }
  function Max(a: int, b: int): int { if a >= b then a else b }

  /**
   * `findMany({ skip, take })` over `s`: a negative `skip` is refused by
   * the store. A non-negative `take` reads at most `take` elements starting
   * at position `skip`; a negative `take` reads at most `-take` elements
   * ending `skip` elements before the end.
   */
  function Window<T>(s: seq<T>, skip: int, take: int): (r: Option<seq<T>>)
    ensures r.None? <==> skip < 0
    ensures r.Some? && take >= 0 ==>
      && |r.value| == Min(take, Max(0, |s| - skip))
      && forall i :: 0 <= i < |r.value| ==> r.value[i] == s[skip + i]
    ensures r.Some? && take < 0 ==>
      && |r.value| == Min(-take, Max(0, |s| - skip))
      && forall i :: 0 <= i < |r.value| ==> r.value[i] == s[Max(0, |s| - skip) - |r.value| + i]
  {
    if skip < 0 then None
    else if take >= 0 then
      var lo := Min(skip, |s|);
      Some(s[lo..Min(lo + take, |s|)])
    else
      var hi := Max(0, |s| - skip);
      Some(s[Max(0, hi + take)..hi])
  }

  // ------------------------------------------------------------ listing

  /**
   * The list handler's answer once `page` and `limit` are parsed, given
   * its two store reads: `listing`, the rows newest first, and `total`,
   * the row count. A negative skip is a store error (500); otherwise the
   * answer is 200 with the echoed parameters, the count,
   * `Math.ceil(total / limit)` and the window the skip and the limit select.
   */
  function ListPage(listing: seq<Article>, total: int, page: int, limit: int): (r: Response)
    requires limit != 0
    ensures r.status == 500 <==> (page - 1) * limit < 0
    ensures r.status == 500 ==> r.body == Error("Could not fetch articles")
    ensures r.status != 500 ==>
      && r.status == 200
      && r.body.PageBody?
      && r.body.page == page && r.body.limit == limit
      && r.body.total == total
      && r.body.totalPages == CeilDiv(total, limit)
      && Window(listing, (page - 1) * limit, limit) == Some(r.body.articles)
  {
    var skip := (page - 1) * limit;
    match Window(listing, skip, limit)
    case None => Response(500, Error("Could not fetch articles"))
    case Some(articles) => Response(200, PageBody(page, limit, total, CeilDiv(total, limit), articles))
  }

  /**
   * `GET /?page=..&limit=..` on the table `rows`: parse both parameters
   * with their defaults, then list; both reads see the same table.
   */
  function ListArticles(rows: map<int, Article>, pageQ: QueryValue, limitQ: QueryValue): Response {
    ListPage(NewestFirst(rows), |rows|, QueryInt(pageQ, DefaultPage), QueryInt(limitQ, DefaultLimit))
  }

  /** Once both parameters are known, the listing depends on them alone. */
  lemma ListParsed(rows: map<int, Article>, pageQ: QueryValue, limitQ: QueryValue, page: int, limit: int)
    requires QueryInt(pageQ, DefaultPage) == page && QueryInt(limitQ, DefaultLimit) == limit
    ensures limit != 0
    ensures ListArticles(rows, pageQ, limitQ) == ListPage(NewestFirst(rows), |rows|, page, limit)
  {
  }

  /** Parameters written in decimal reach the listing unchanged, unless zero. */
  lemma ListDecimal(rows: map<int, Article>, page: int, limit: int)
    requires page != 0 && limit != 0
    ensures ListArticles(rows, Text(DecimalString(page)), Text(DecimalString(limit))) ==
      ListPage(NewestFirst(rows), |rows|, page, limit)
  {
    DecimalPassesThrough(page, DefaultPage);
    DecimalPassesThrough(limit, DefaultLimit);
  }

  /** With no page given, a decimal limit reaches the listing of page 1 unchanged, unless zero. */
  lemma ListDecimalLimit(rows: map<int, Article>, limit: int)
    requires limit != 0
    ensures ListArticles(rows, Missing, Text(DecimalString(limit))) ==
      ListPage(NewestFirst(rows), |rows|, 1, limit)
  {
    MissingTakesDefault(DefaultPage);
    DecimalPassesThrough(limit, DefaultLimit);
    ListParsed(rows, Missing, Text(DecimalString(limit)), 1, limit);
  }

  // ------------------------------------------------------- page lemmas

  lemma MulMono(a: int, b: int, c: int)
    requires a <= b && c >= 0
    ensures a * c <= b * c
  {
    assert (b - a) * c >= 0;
  }

  /** Whatever the take, a window the store accepts is one contiguous slice. */
  lemma WindowIsSlice<T>(s: seq<T>, skip: int, take: int) returns (lo: int, hi: int)
    requires skip >= 0
    ensures 0 <= lo <= hi <= |s| && Window(s, skip, take) == Some(s[lo..hi])
  {
    if take >= 0 {
      lo := Min(skip, |s|);
      hi := Min(lo + take, |s|);
    } else {
      hi := Max(0, |s| - skip);
      lo := Max(0, hi + take);
    }
  }

  /** Any slice of the newest-first listing holds rows of the table, from newest to oldest. */
  lemma SliceOfListing(rows: map<int, Article>, lo: int, hi: int)
    requires IdsMatchKeys(rows)
    requires 0 <= lo <= hi <= |rows|
    ensures var a := NewestFirst(rows)[lo..hi];
      && (forall i :: 0 <= i < |a| ==> a[i].id in rows && rows[a[i].id] == a[i])
      && (forall i, j :: 0 <= i < j < |a| ==> a[i].createdAt >= a[j].createdAt)
  {
    var all := NewestFirst(rows);
    var a := all[lo..hi];
    NewestFirstIsSortedPermutation(rows);
    forall i | 0 <= i < |a|
      ensures a[i].id in rows && rows[a[i].id] == a[i]
    {
      assert a[i] == all[lo + i];
    }
    forall i, j | 0 <= i < j < |a|
      ensures a[i].createdAt >= a[j].createdAt
    {
      assert a[i] == all[lo + i] && a[j] == all[lo + j];
    }
  }

  /**
   * Whatever the parameters, a successful listing shows rows of the table,
   * most recent first, and counts all of them.
   */
  lemma ListedArticlesAreRows(rows: map<int, Article>, pageQ: QueryValue, limitQ: QueryValue)
    requires IdsMatchKeys(rows)
    ensures var r := ListArticles(rows, pageQ, limitQ);
      r.status == 200 ==>
        && r.body.total == |rows|
        && (forall i :: 0 <= i < |r.body.articles| ==>
              r.body.articles[i].id in rows && rows[r.body.articles[i].id] == r.body.articles[i])
        && (forall i, j :: 0 <= i < j < |r.body.articles| ==>
              r.body.articles[i].createdAt >= r.body.articles[j].createdAt)
  {
    var page, limit := QueryInt(pageQ, DefaultPage), QueryInt(limitQ, DefaultLimit);
    var r := ListArticles(rows, pageQ, limitQ);
    if r.status == 200 {
      var lo, hi := WindowIsSlice(NewestFirst(rows), (page - 1) * limit, limit);
      SliceOfListing(rows, lo, hi);
    }
  }

  /**
   * For a positive page and limit the answer is 200 and the articles are
   * the slice of the listing that starts `(page - 1) * limit` rows in and
   * holds at most `limit` rows.
   */
  lemma PageContents(listing: seq<Article>, page: int, limit: int)
    requires page >= 1 && limit >= 1
    ensures var r := ListPage(listing, |listing|, page, limit);
      var lo := Min((page - 1) * limit, |listing|);
      var hi := Min(lo + limit, |listing|);
      && r.status == 200
      && r.body.articles == listing[lo..hi]
      && |r.body.articles| <= limit
  {
    var skip := (page - 1) * limit;
    MulMono(0, page - 1, limit);
    var lo := Min(skip, |listing|);
    var hi := Min(lo + limit, |listing|);
    var r := ListPage(listing, |listing|, page, limit);
    assert Window(listing, skip, limit) == Some(r.body.articles);
    assert r.body.articles == listing[lo..hi];
    assert r.status == 200 && |r.body.articles| <= limit;
  }

  /**
   * For a positive page and limit the page is empty exactly when it lies
   * beyond the last page; `total` still counts every row and `page` and
   * `limit` are echoed.
   */
  lemma EmptyExactlyBeyondLastPage(listing: seq<Article>, page: int, limit: int)
    requires page >= 1 && limit >= 1
    ensures var r := ListPage(listing, |listing|, page, limit);
      && r.status == 200
      && r.body.page == page && r.body.limit == limit && r.body.total == |listing|
      && (r.body.articles == [] <==> page > r.body.totalPages)
  {
    var r := ListPage(listing, |listing|, page, limit);
    var c := CeilDiv(|listing|, limit);
    CeilDivBounds(|listing|, limit);
    var skip := (page - 1) * limit;
    MulMono(0, page - 1, limit);
    assert Window(listing, skip, limit) == Some(r.body.articles);
    assert |r.body.articles| == Min(limit, Max(0, |listing| - skip));
    if page > c {
      MulMono(c, page - 1, limit);
      assert skip >= |listing|;
    } else {
      MulMono(page - 1, c - 1, limit);
      assert skip < |listing|;
    }
  }

  /** Position `i` of the listing is entry `i % limit` of page `i / limit + 1`. */
  lemma PositionOnPage(listing: seq<Article>, limit: int, i: int)
    requires limit >= 1 && 0 <= i < |listing|
    ensures var r := ListPage(listing, |listing|, i / limit + 1, limit);
      && r.status == 200
      && i % limit < |r.body.articles|
      && r.body.articles[i % limit] == listing[i]
  {
    var page := i / limit + 1;
    var skip := (page - 1) * limit;
    assert skip == i - i % limit;
    var r := ListPage(listing, |listing|, page, limit);
    assert Window(listing, skip, limit) == Some(r.body.articles);
    assert skip + i % limit == i;
  }

  /**
   * Every article of the table appears on exactly the page its position in
   * the newest-first listing predicts.
   */
  lemma EveryArticleOnItsPage(rows: map<int, Article>, limit: int, i: int)
    requires limit >= 1 && 0 <= i < |rows|
    ensures var r := ListArticles(rows, Text(DecimalString(i / limit + 1)), Text(DecimalString(limit)));
      && r.status == 200
      && i % limit < |r.body.articles|
      && r.body.articles[i % limit] == NewestFirst(rows)[i]
  {
    ListDecimal(rows, i / limit + 1, limit);
    PositionOnPage(NewestFirst(rows), limit, i);
  }

  /** With both parameters absent the answer is the ten newest articles, page 1 of `ceil(total / 10)`. */
  lemma DefaultsGiveFirstTen(rows: map<int, Article>)
    ensures var r := ListArticles(rows, Missing, Missing);
      && r.status == 200
      && r.body == PageBody(1, 10, |rows|, CeilDiv(|rows|, 10), NewestFirst(rows)[..Min(10, |rows|)])
  {
    MissingTakesDefault(DefaultPage);
    MissingTakesDefault(DefaultLimit);
    var listing := NewestFirst(rows);
    assert ListArticles(rows, Missing, Missing) == ListPage(listing, |listing|, 1, 10);
    PageContents(listing, 1, 10);
    assert listing[0..Min(10, |rows|)] == listing[..Min(10, |rows|)];
  }

  /**
   * Fifteen stored articles listed ten to a page make two pages; page 3 is
   * empty and still reports all fifteen. An empty table has no pages.
   */
  lemma FifteenArticlesTwoPages(rows: map<int, Article>)
    ensures |rows| == 15 ==>
      var r := ListArticles(rows, Text("1"), Text("10"));
      r.status == 200 && r.body.totalPages == 2
    ensures |rows| == 15 ==>
      var r := ListArticles(rows, Text("3"), Text("10"));
      r.status == 200 && r.body.articles == [] && r.body.total == 15
    ensures |rows| == 0 ==>
      var r := ListArticles(rows, Missing, Missing);
      r.status == 200 && r.body.totalPages == 0
  {
    ShortDecimals();
    var listing := NewestFirst(rows);
    assert ListArticles(rows, Text("1"), Text("10")) == ListPage(listing, |rows|, 1, 10) by {
      ListDecimal(rows, 1, 10);
    }
    assert ListArticles(rows, Text("3"), Text("10")) == ListPage(listing, |rows|, 3, 10) by {
      ListDecimal(rows, 3, 10);
    }
    if |rows| == 15 {
      var first := ListPage(listing, 15, 1, 10);
      assert (1 - 1) * 10 == 0;
      assert first.status == 200 && first.body.totalPages == CeilDiv(15, 10);
      assert CeilDiv(15, 10) == 2;
      EmptyExactlyBeyondLastPage(listing, 3, 10);
    }
    if |rows| == 0 {
      DefaultsGiveFirstTen(rows);
      assert CeilDiv(0, 10) == 0;
    }
  }

  lemma ShortDecimals()
    ensures DecimalString(1) == "1" && DecimalString(3) == "3" && DecimalString(10) == "10"
  {
    assert NatDigits(10) == NatDigits(1) + ['0'];
  }

  /** A negative page with a positive limit asks the store for a negative skip, which it refuses: 500. */
  lemma NegativePageIs500(rows: map<int, Article>, n: int)
    requires n < 0
    ensures ListArticles(rows, Text(DecimalString(n)), Missing) == Response(500, Error("Could not fetch articles"))
  {
    DecimalPassesThrough(n, DefaultPage);
    MissingTakesDefault(DefaultLimit);
    assert (n - 1) * 10 < 0;
  }

  lemma NegativeLimitNoPages(total: nat, n: int)
    requires n > 0
    ensures CeilDiv(total, -n) <= 0
  {
    var c := CeilDiv(total, -n);
    CeilDivBounds(total, -n);
    if c >= 1 {
      NonPositiveProduct(c - 1, n);
      assert false;
    }
  }

  lemma NonPositiveProduct(a: int, n: int)
    requires a >= 0 && n > 0
    ensures a * -n <= 0
  {
    MulMono(0, a, n);
    assert a * -n == -(a * n);
  }

  /**
   * A negative limit `-n` on the first page counts from the end: over the
   * newest-first listing the answer holds the `n` oldest articles, still
   * newest first, and `Math.ceil(total / -n)` is at most zero.
   * `ListDecimalLimit` carries this to a request with `limit=-n`.
   */
  lemma NegativeLimitReadsOldest(listing: seq<Article>, total: int, n: int)
    requires n > 0 && total == |listing|
    ensures var r := ListPage(listing, total, 1, -n);
      && r.status == 200
      && r.body.limit == -n
      && r.body.articles == listing[total - Min(n, total)..]
      && r.body.totalPages <= 0
  {
    var r := ListPage(listing, total, 1, -n);
    assert (1 - 1) * -n == 0;
    assert r.body.totalPages == CeilDiv(total, -n);
    NegativeLimitNoPages(total, n);
    assert Window(listing, 0, -n) == Some(r.body.articles);
    var a := r.body.articles;
    assert |a| == Min(n, total);
    assert forall i :: 0 <= i < |a| ==> a[i] == listing[total - |a| + i];
    assert a == listing[total - Min(n, total)..];
  }
}
