# Article routes of the blog API, modelled in Dafny

The model covers the Express router that serves the article table of a small
blog API, `routes/article.js`:

- `authenticateToken`, the bearer-token middleware. It answers 401 when the
  `Authorization` header carries no token and 403 when the verifier rejects
  the token. Otherwise it stores the verified principal in `req.user` and
  passes the request on.
- `POST /` creates an article authored by the principal.
- `GET /` lists articles newest first. `page` and `limit` are read with
  `parseInt(x) || d`, the skip is `(page - 1) * limit`, and the answer
  reports `total` and `Math.ceil(total / limit)`.
- `GET /:id`, `PUT /:id` and `DELETE /:id` read, patch and remove one row.
  They answer 404 (get) or 500 (update, delete) when the row is missing.

Modules:

- `Wrappers` holds `Option`.
- `JsString` models `String.prototype.split` and `Array.prototype.join` on
  one separator character.
- `JsNumber` models ECMAScript `parseInt` with no radix. It also models the
  `||` default and `Math.ceil` of an integer quotient.
- `Auth` holds the token extraction, the middleware's decision `Gate`, a
  `Request` class with its mutable `user` field, and the `AuthenticateToken`
  method that writes that field.
- `Articles` holds the table as a value `Store`: its rows by id and the next
  autoincrement id. Each route is a step function on that value. The class
  `ArticleTable` holds the same state in fields, and each of its methods is
  proved to perform exactly one step function. The guarded methods run the
  middleware first.
- `Pagination` holds query-parameter parsing, the newest-first order of the
  table, the store's skip/take window and the list handler.

Things the routes get from outside are parameters:

- the token verifier (`jwt.verify` with the server secret), a function from
  a token to the principal it proves, if any;
- the clock that stamps `createdAt`;
- the ids present in the category and user tables (`Refs`), which the
  store's foreign keys check.

The store's own behaviour follows the documented semantics of the ORM:

- a negative `skip` throws;
- a negative `take` reads backwards from the end of the window;
- an `undefined` field in `update` data is left unchanged;
- a NaN id in `where` throws.

Every throw becomes the route's 500 answer.

## Model

| member | source | states |
|---|---|---|
| JsString.Split | routes/article.js:12 | `split(" ")` yields at least one field, no field holds the separator, and joining the fields gives back the input |
| JsString.SplitJoin | routes/article.js:12 | splitting the join of separator-free fields gives back exactly those fields |
| Auth.Gate | routes/article.js:14-19 | 401 "Token missing" exactly when there is no token, 403 "Invalid token" exactly when the verifier rejects it, and otherwise admission as the principal the token proves |
| Auth.Request.constructor | routes/article.js:18 | a request arrives with its `Authorization` header and no `user`; only the middleware sets `user` |
| Auth.BearerToken | routes/article.js:11-12 | an absent header yields no token; an extracted token is never empty and never contains a space |
| Auth.NoHeaderIs401 | routes/article.js:11-14 | a request without an `Authorization` header is answered 401 "Token missing", whatever the verifier |
| Auth.TokenIsSecondField | routes/article.js:12 | the token is exactly the second space-separated field, whatever the scheme word and whatever follows |
| Auth.EmptySecondFieldNoToken | routes/article.js:12-14 | an empty second field (two spaces after the scheme) means no token |
| Auth.BearerSchemeToken | routes/article.js:12 | `Bearer <token>` yields `<token>` |
| Auth.NoSpaceNoToken | routes/article.js:12-14 | a header without a space yields no token |
| Auth.MissingTokenIs401 | routes/article.js:14 | without a token the answer is 401 "Token missing" and the verifier is not consulted |
| Auth.VerifiedTokenDecides | routes/article.js:16-19 | a rejected token gives 403 "Invalid token"; an accepted one admits exactly the principal it proves |
| Auth.AuthenticateToken | routes/article.js:10-21 | returns the gate's decision; on admission `req.user` is the principal, on rejection `req.user` is unchanged |
| JsNumber.ParseInt | routes/article.js:46-47 | `parseInt` with no radix, also applied to the path id at lines 86, 107 and 126; it has no contract of its own and is characterised by `DecimalRoundTrip`, `LeadingWhiteSpaceIgnored` and `NonNumericIsNaN` |
| JsNumber.DecimalRoundTrip | routes/article.js:46-47 | `parseInt` of the decimal form of any integer, negative included, gives that integer |
| JsNumber.LeadingWhiteSpaceIgnored | routes/article.js:46-47 | leading white space does not change what `parseInt` reads |
| JsNumber.NonNumericIsNaN | routes/article.js:46-47 | text that does not start with a sign or a digit parses to NaN |
| JsNumber.OrDefault | routes/article.js:46-47 | `x \|\| d` is `d` exactly when `x` is NaN or zero, and `x` otherwise |
| JsNumber.CeilDiv | routes/article.js:71 | `Math.ceil(total / limit)` for integers; it has no contract of its own and is characterised by `CeilDivBounds` and `CeilDivIsCeiling` |
| JsNumber.CeilDivBounds | routes/article.js:71 | the rounded-up quotient is within one divisor of the dividend, on the side the divisor's sign dictates |
| JsNumber.CeilDivIsCeiling | routes/article.js:71 | the result is the least integer not below the real quotient `total / limit` |
| Pagination.ToJsString | routes/article.js:46-47 | `String(v)`, which `parseInt` applies to a query value first: "undefined" when absent, items joined by "," for a repeated parameter; characterised through `MissingTakesDefault` and `QueryInt` |
| Pagination.QueryInt | routes/article.js:46-47 | a non-zero integer read by `parseInt` passes through; NaN or zero takes the default; the result is never zero when the default is not |
| Pagination.MissingTakesDefault | routes/article.js:46-47 | an absent parameter takes its default |
| Pagination.DecimalPassesThrough | routes/article.js:46-47 | a decimal parameter passes through unchanged, except zero, which takes the default |
| Pagination.NonNumericTakesDefault | routes/article.js:46-47 | a parameter that is not numeric takes the default |
| Pagination.NewestId | routes/article.js:60-62 | the first listed row precedes every row: newer, or as new with a smaller id |
| Pagination.NewestFirstIds | routes/article.js:60-62 | lists every id of the table once, each preceding all later ones |
| Pagination.NewestFirst | routes/article.js:60-62 | the rows in listing order, as many as the table holds; `NewestFirstIsSortedPermutation` proves it a permutation sorted newest first |
| Pagination.NewestFirstIsSortedPermutation | routes/article.js:53-63 | the listing is a permutation of the table's rows, ordered by `createdAt` descending, ties by id ascending |
| Pagination.Window | routes/article.js:53-55 | a negative skip fails; otherwise gives the at most `take` rows from position `skip`, or for a negative take the at most `-take` rows before the skipped tail |
| Pagination.WindowIsSlice | routes/article.js:53-55 | every accepted window is one contiguous slice of the listing |
| Pagination.ListPage | routes/article.js:49-77 | 500 "Could not fetch articles" exactly when the skip is negative; otherwise 200 echoing page and limit, with the count, the rounded-up page count and the window at the skip |
| Pagination.ListArticles | routes/article.js:44-78 | the list route: parse page and limit with their defaults, then `ListPage` over the newest-first listing and the row count; it has no contract of its own and is characterised by `ListParsed`, `ListedArticlesAreRows` and the page lemmas |
| Pagination.ListParsed | routes/article.js:46-49 | the listing depends on the query values only through the parsed page and limit |
| Pagination.ListDecimal | routes/article.js:46-49 | non-zero decimal page and limit reach the listing unchanged |
| Pagination.ListDecimalLimit | routes/article.js:46-49 | with no page, a non-zero decimal limit reaches page 1 unchanged |
| Pagination.SliceOfListing | routes/article.js:53-63 | any slice of the listing holds rows of the table, newest first |
| Pagination.ListedArticlesAreRows | routes/article.js:44-73 | for any query, a successful answer counts every row and lists rows of the table, newest first |
| Pagination.PageContents | routes/article.js:49-55 | for positive page and limit, the answer is 200 with the slice starting at `(page - 1) * limit`, at most `limit` long |
| Pagination.EmptyExactlyBeyondLastPage | routes/article.js:67-72 | for positive page and limit, the page is empty exactly when `page > totalPages`, and `total` counts all rows |
| Pagination.PositionOnPage | routes/article.js:49-55 | position `i` of the listing is entry `i % limit` of page `i / limit + 1` |
| Pagination.EveryArticleOnItsPage | routes/article.js:44-73 | every row of the table appears on the page its position predicts, requested in decimal |
| Pagination.DefaultsGiveFirstTen | routes/article.js:46-73 | with no parameters the answer is page 1 of ten: the ten newest rows and `ceil(total / 10)` pages |
| Pagination.FifteenArticlesTwoPages | routes/article.js:64-71 | fifteen rows at ten a page make two pages, page 3 is empty but reports fifteen, and an empty table has zero pages |
| Pagination.NegativePageIs500 | routes/article.js:49-76 | a negative page with the default limit answers 500 |
| Pagination.NegativeLimitReadsOldest | routes/article.js:47-71 | on page 1 a negative limit `-n` answers the last `n` entries of the newest-first listing, that is the `n` oldest rows, and a page count of at most zero |
| Articles.GetArticle | routes/article.js:82-98 | 500 "Error fetching article" exactly when the id is NaN, 404 "Article not found" exactly when it names no row, else 200 with the row |
| Articles.GetById | routes/article.js:85-93 | getting by the decimal form of an id returns that row, or 404 when there is none |
| Articles.CreateStep | routes/article.js:24-41 | 201 exactly when the store accepts the insert; the new row has the next id, the body's fields, the principal as author and the current time, and nothing else changes; otherwise 500 "Could not create article" with the table unchanged; the table invariant is kept |
| Articles.CreateIgnoresBodyAuthor | routes/article.js:25-33 | an author named in the body has no effect on the created row |
| Articles.CreateThenGet | routes/article.js:28-36 | a created article can be fetched at once by its id, as created |
| Articles.Patch | routes/article.js:106-113 | only title, content and category are written, each only when the body defines it |
| Articles.PatchIdempotent | routes/article.js:106-113 | the same update applied twice equals applying it once |
| Articles.PatchNothing | routes/article.js:106-113 | a body with none of the three fields leaves the row as it is |
| Articles.UpdateStep | routes/article.js:101-119 | 200 with the patched row exactly when the id parses, names a row and the new category exists; otherwise 500 "Could not update article" with the table unchanged; the table invariant is kept |
| Articles.UpdateOnlyTouchesItsRow | routes/article.js:106-114 | an update keeps the ids, the counter and every other row, and afterwards get returns the patched row |
| Articles.UpdateMissingIs500 | routes/article.js:106-117 | updating an id that is not in the table answers 500 and changes nothing |
| Articles.DeleteStep | routes/article.js:122-133 | 200 "Article deleted" exactly when the id names a row, which is removed so that get then answers 404; otherwise 500 "Could not delete article" with the table unchanged |
| Articles.DeleteMissingIs500 | routes/article.js:125-131 | deleting an id that is not in the table answers 500 and changes nothing |
| Articles.DeletedIdNotReused | routes/article.js:125-128 | after a deletion, the next created article gets a different id |
| Articles.ArticleTable.constructor | routes/article.js:6 | the initial state of a fresh database: no rows, id 1 handed out first, and the table invariant holds |
| Articles.ArticleTable.Get | routes/article.js:82-98 | 200 with the row exactly when the path id parses and names a row, 404 exactly when it parses and names none, 500 exactly when it is NaN; the table is only read |
| Articles.ArticleTable.Create | routes/article.js:28-39 | the new field values and the answer are those of `CreateStep` on the old state |
| Articles.ArticleTable.Update | routes/article.js:106-117 | the new field values and the answer are those of `UpdateStep` on the old state |
| Articles.ArticleTable.Delete | routes/article.js:125-131 | the new field values and the answer are those of `DeleteStep` on the old state |
| Articles.ArticleTable.PostArticle | routes/article.js:24-41 | a rejected token is answered with the gate's status and leaves the table and `req.user` unchanged; an admitted one sets `req.user` and creates as that principal |
| Articles.ArticleTable.PutArticle | routes/article.js:101-119 | a rejected token is answered with the gate's status and leaves the table and `req.user` unchanged; an admitted one sets `req.user` and performs the update |
| Articles.ArticleTable.DeleteArticle | routes/article.js:122-133 | a rejected token is answered with the gate's status and leaves the table and `req.user` unchanged; an admitted one sets `req.user` and performs the deletion |

## Left out

- Token verification: `jwt.verify`, its signature check, expiry and secret are a parameter, because they are cryptography outside the router.
- Joins: the `include` of author (id and email) and category in the list and get answers is not modelled, because it only decorates rows read from other tables.
- JSON typing: each body field is either absent or of its column's type. A `null` or a wrongly typed field, which the store would reject, is not modelled.
- Integer width: ids, `page` and `limit` are unbounded integers. The database's 32-bit id range and the floating-point precision of `parseInt` on very long digit runs are not modelled.
- `parseInt` is modelled for integers in radix 10 and 16 (the `0x` prefix), which is all it can produce with no radix. Digits after a decimal point are not read, as in JavaScript.
- Concurrency: the two reads of the list route (`Promise.all` of `findMany` and `count`) see the same table. Interleaving with other requests is not modelled.
- Logging: `console.error` in the catch blocks is logging only and is not modelled.
- Store outages: connection failures and other store errors that do not follow from the request are not modelled.
- Autoincrement gaps: a failed insert leaves `nextId` unchanged. A database may burn an id on a failed insert, which is not modelled.
- Pagination.NewestFirst: the route orders by `createdAt` alone, so the database decides the order of rows created at the same instant, and two requests may differ (a row can then show up on two pages, or on none); the model fixes one order, increasing id.
- Pagination.ListArticles: has no contract of its own. Its behaviour is stated by `ListPage`, `ListParsed`, `ListDecimal` and the page lemmas.
- `index.js` (server start-up, which does not mount this router), `routes/auth.js` (login and registration, which sign the tokens) and `routes/categories.js` are not part of this model.
