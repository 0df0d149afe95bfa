/**
 * The article table behind the create, get-by-id, update and delete routes.
 *
 * The table is a map from id to row plus the next autoincrement id. Each
 * route is first given as a step function on that value (`CreateStep`,
 * `UpdateStep`, `DeleteStep`, and `GetArticle` for the read); the class
 * `ArticleTable` holds the same state in fields and its methods are proved
 * to perform exactly those steps. Protected routes run the token gate
 * first.
 *
 * The other tables the rows refer to (categories, users) are passed in as
 * the sets of ids they currently hold; the clock that stamps `createdAt`
 * is a parameter.
 */
module Articles {
  import opened Wrappers
  import opened JsNumber
  import opened Auth

  /** A row of the article table. */
  datatype Article = Article(
    id: int, title: string, content: string, categoryId: int, authorId: int, createdAt: int)

  /**
   * The request body. Only `title`, `content` and `categoryId` are read by
   * the handlers; `authorId` stands for any other field a client may send,
   * which is ignored.
   */
  datatype ArticleInput = ArticleInput(
    title: Option<string>, content: Option<string>, categoryId: Option<int>, authorId: Option<int>)

  /** The ids held by the tables an article refers to. */
  datatype Refs = Refs(categories: set<int>, users: set<int>)

  /** The JSON a route answers with. */
  datatype Body =
    | ArticleBody(article: Article)
    | PageBody(page: int, limit: int, total: int, totalPages: int, articles: seq<Article>)
    | Message(message: string)
    | Error(error: string)

  datatype Response = Response(status: int, body: Body)

  /** The table: its rows by id and the id the next insert receives. */
  datatype Store = Store(rows: map<int, Article>, nextId: int)

  /** The outcome of one route: the table afterwards and the answer. */
  datatype Step = Step(store: Store, response: Response)

  /** Every row is filed under its own id. */
  ghost predicate IdsMatchKeys(rows: map<int, Article>) {
    forall k :: k in rows ==> rows[k].id == k
  }

  /** Rows are filed under their ids, and every id in use is below the next one. */
  ghost predicate Valid(s: Store) {
    && s.nextId >= 1
    && IdsMatchKeys(s.rows)
    && forall k :: k in s.rows ==> 1 <= k < s.nextId
  }

  /** The table of a fresh database. */
  const Empty := Store(map[], 1)

  lemma EmptyValid()
    ensures Valid(Empty)
  {
  }

  // ---------------------------------------------------------------- get

  /**
   * `GET /:id`. The path parameter goes through `parseInt`; when that gives
   * NaN the store throws and the answer is 500. A well-formed id that names
   * no row gives 404; otherwise the row is returned.
   */
  function GetArticle(rows: map<int, Article>, pathId: string): (r: Response)
    ensures r.status == 500 <==> ParseInt(pathId).NaN?
    ensures r.status == 404 <==> ParseInt(pathId).Int? && ParseInt(pathId).value !in rows
    ensures r.status == 200 <==> ParseInt(pathId).Int? && ParseInt(pathId).value in rows
    ensures r.status == 200 ==> r.body == ArticleBody(rows[ParseInt(pathId).value])
  {
    match ParseInt(pathId)
    case NaN => Response(500, Error("Error fetching article"))
    case Int(id) =>
      if id in rows then Response(200, ArticleBody(rows[id]))
      else Response(404, Error("Article not found"))
  }

  /** Getting a row by the decimal form of its id returns the row. */
  lemma GetById(rows: map<int, Article>, id: int)
    ensures id in rows ==> GetArticle(rows, DecimalString(id)) == Response(200, ArticleBody(rows[id]))
    ensures id !in rows ==> GetArticle(rows, DecimalString(id)) == Response(404, Error("Article not found"))
  {
    DecimalRoundTrip(id);
  }

  // ------------------------------------------------------------- create

  /**
   * What the store demands of an insert: title, content and category are
   * present, and the category and the author exist.
   */
  predicate CreateAccepted(user: Principal, input: ArticleInput, refs: Refs) {
    && input.title.Some?
    && input.content.Some?
    && input.categoryId.Some?
    && input.categoryId.value in refs.categories
    && user.userId in refs.users
  }

  /**
   * `POST /` once the gate has admitted `user`: insert a row with the next
   * id, the body's title, content and category, the principal as author and
   * `now` as creation time, and answer 201 with it. An insert the store
   * rejects answers 500 and changes nothing.
   */
  function CreateStep(s: Store, user: Principal, input: ArticleInput, refs: Refs, now: int): (r: Step)
    requires Valid(s)
    ensures Valid(r.store)
    ensures r.response.status == 201 <==> CreateAccepted(user, input, refs)
    ensures r.response.status == 201 ==>
      && r.response.body.ArticleBody?
      && var a := r.response.body.article;
      && a.id == s.nextId && a.id !in s.rows
      && a.authorId == user.userId
      && Some(a.title) == input.title && Some(a.content) == input.content
      && Some(a.categoryId) == input.categoryId
      && a.createdAt == now
      && r.store == Store(s.rows[a.id := a], s.nextId + 1)
    ensures r.response.status != 201 ==> r == Step(s, Response(500, Error("Could not create article")))
  {
    if CreateAccepted(user, input, refs) then
      var a := Article(s.nextId, input.title.value, input.content.value, input.categoryId.value, user.userId, now);
      Step(Store(s.rows[s.nextId := a], s.nextId + 1), Response(201, ArticleBody(a)))
    else
      Step(s, Response(500, Error("Could not create article")))
  }

  /** Whatever author the body names, the created row's author is the principal. */
  lemma CreateIgnoresBodyAuthor(s: Store, user: Principal, input: ArticleInput, refs: Refs, now: int, claimed: Option<int>)
    requires Valid(s)
    ensures CreateStep(s, user, input.(authorId := claimed), refs, now) == CreateStep(s, user, input, refs, now)
  {
  }

  /** A created article can be fetched at once by its id, with the fields it was created with. */
  lemma CreateThenGet(s: Store, user: Principal, input: ArticleInput, refs: Refs, now: int)
    requires Valid(s)
    requires CreateAccepted(user, input, refs)
    ensures var r := CreateStep(s, user, input, refs, now);
      GetArticle(r.store.rows, DecimalString(s.nextId)) == Response(200, r.response.body)
  {
    var r := CreateStep(s, user, input, refs, now);
    GetById(r.store.rows, s.nextId);
  }

  // ------------------------------------------------------------- update

  /**
   * The row after `update` with `data: { title, content, categoryId }`:
   * a field the body leaves undefined keeps its value, and the id, the
   * author and the creation time are never written.
   */
  function Patch(a: Article, input: ArticleInput): (r: Article)
    ensures r.id == a.id && r.authorId == a.authorId && r.createdAt == a.createdAt
    ensures r.title == input.title.GetOr(a.title)
    ensures r.content == input.content.GetOr(a.content)
    ensures r.categoryId == input.categoryId.GetOr(a.categoryId)
  {
    a.(title := input.title.GetOr(a.title),
       content := input.content.GetOr(a.content),
       categoryId := input.categoryId.GetOr(a.categoryId))
  }

  /** Applying the same update twice is the same as applying it once. */
  lemma PatchIdempotent(a: Article, input: ArticleInput)
    ensures Patch(Patch(a, input), input) == Patch(a, input)
  {
  }

  /** A body with none of the three fields leaves the row as it is. */
  lemma PatchNothing(a: Article, other: Option<int>)
    ensures Patch(a, ArticleInput(None, None, None, other)) == a
  {
  }

  /** What the store demands of an update: the row exists and a new category exists. */
  predicate UpdateAccepted(s: Store, id: int, input: ArticleInput, refs: Refs) {
    id in s.rows && (input.categoryId.None? || input.categoryId.value in refs.categories)
  }

  /**
   * `PUT /:id` once the gate has passed: patch the row and answer 200 with
   * it. An id that does not parse, names no row, or a category that does
   * not exist makes the store throw: 500, and nothing changes.
   */
  function UpdateStep(s: Store, pathId: string, input: ArticleInput, refs: Refs): (r: Step)
    requires Valid(s)
    ensures Valid(r.store)
    ensures r.response.status == 200 <==>
      ParseInt(pathId).Int? && UpdateAccepted(s, ParseInt(pathId).value, input, refs)
    ensures r.response.status == 200 ==>
      var id := ParseInt(pathId).value;
      && r.response.body == ArticleBody(Patch(s.rows[id], input))
      && r.store == Store(s.rows[id := Patch(s.rows[id], input)], s.nextId)
    ensures r.response.status != 200 ==> r == Step(s, Response(500, Error("Could not update article")))
  {
    match ParseInt(pathId)
    case Int(id) =>
      if UpdateAccepted(s, id, input, refs) then
        var a := Patch(s.rows[id], input);
        Step(Store(s.rows[id := a], s.nextId), Response(200, ArticleBody(a)))
      else
        Step(s, Response(500, Error("Could not update article")))
    case NaN => Step(s, Response(500, Error("Could not update article")))
  }

  /**
   * An update keeps the set of ids and every other row, and afterwards get
   * returns the patched row.
   */
  lemma UpdateOnlyTouchesItsRow(s: Store, pathId: string, input: ArticleInput, refs: Refs)
    requires Valid(s)
    ensures var r := UpdateStep(s, pathId, input, refs);
      && r.store.rows.Keys == s.rows.Keys
      && r.store.nextId == s.nextId
      && (forall k :: k in s.rows && Int(k) != ParseInt(pathId) ==> r.store.rows[k] == s.rows[k])
      && (r.response.status == 200 ==> GetArticle(r.store.rows, pathId) == r.response)
  {
  }

  /** Updating an id that is not in the table answers 500 and leaves the table unchanged. */
  lemma UpdateMissingIs500(s: Store, id: int, input: ArticleInput, refs: Refs)
    requires Valid(s) && id !in s.rows
    ensures UpdateStep(s, DecimalString(id), input, refs) == Step(s, Response(500, Error("Could not update article")))
  {
    DecimalRoundTrip(id);
  }

  // ------------------------------------------------------------- delete

  /**
   * `DELETE /:id` once the gate has passed: remove the row and confirm. An
   * id that does not parse or names no row makes the store throw: 500, and
   * nothing changes. After a removal, get of that id answers 404.
   */
  function DeleteStep(s: Store, pathId: string): (r: Step)
    requires Valid(s)
    ensures Valid(r.store)
    ensures r.response.status == 200 <==> ParseInt(pathId).Int? && ParseInt(pathId).value in s.rows
    ensures r.response.status == 200 ==>
      && r.response == Response(200, Message("Article deleted"))
      && r.store == Store(s.rows - {ParseInt(pathId).value}, s.nextId)
      && GetArticle(r.store.rows, pathId).status == 404
    ensures r.response.status != 200 ==> r == Step(s, Response(500, Error("Could not delete article")))
  {
    match ParseInt(pathId)
    case Int(id) =>
      if id in s.rows then Step(Store(s.rows - {id}, s.nextId), Response(200, Message("Article deleted")))
      else Step(s, Response(500, Error("Could not delete article")))
    case NaN => Step(s, Response(500, Error("Could not delete article")))
  }

  /** Deleting an id that is not in the table answers 500 and leaves the table unchanged. */
  lemma DeleteMissingIs500(s: Store, id: int)
    requires Valid(s) && id !in s.rows
    ensures DeleteStep(s, DecimalString(id)) == Step(s, Response(500, Error("Could not delete article")))
  {
    DecimalRoundTrip(id);
  }

  /** A deleted id is never handed out again: the next create gets a different one. */
  lemma DeletedIdNotReused(s: Store, id: int, user: Principal, input: ArticleInput, refs: Refs, now: int)
    requires Valid(s) && id in s.rows
    ensures var d := DeleteStep(s, DecimalString(id));
      var c := CreateStep(d.store, user, input, refs, now);
      c.response.status == 201 ==> c.response.body.article.id != id
  {
    DecimalRoundTrip(id);
  }

  // -------------------------------------------------------------- class

  /** The article table as the routes see it, updated in place. */
  class ArticleTable {
    var rows: map<int, Article>
    var nextId: int

    function State(): Store
      reads this
    {
      Store(rows, nextId)
    }

    constructor ()
      ensures State() == Empty && Valid(State())
    {
      EmptyValid();
      rows := map[];
      nextId := 1;
    }

    /** The get-by-id handler; it reads the table and changes nothing. */
    function Get(pathId: string): (r: Response)
      reads this
      ensures r.status == 200 <==> ParseInt(pathId).Int? && ParseInt(pathId).value in rows
      ensures r.status == 200 ==> r.body == ArticleBody(rows[ParseInt(pathId).value])
      ensures r.status == 404 <==> ParseInt(pathId).Int? && ParseInt(pathId).value !in rows
      ensures r.status == 500 <==> ParseInt(pathId).NaN?
    {
      GetArticle(rows, pathId)
    }

    /** The create handler, run as `user`. */
    method Create(user: Principal, input: ArticleInput, refs: Refs, now: int) returns (resp: Response)
      requires Valid(State())
      modifies this
      ensures Step(State(), resp) == CreateStep(old(State()), user, input, refs, now)
    {
      if CreateAccepted(user, input, refs) {
        var a := Article(nextId, input.title.value, input.content.value, input.categoryId.value, user.userId, now);
        rows := rows[nextId := a];
        nextId := nextId + 1;
        resp := Response(201, ArticleBody(a));
      } else {
        resp := Response(500, Error("Could not create article"));
      }
    }

    /** The update handler. */
    method Update(pathId: string, input: ArticleInput, refs: Refs) returns (resp: Response)
      requires Valid(State())
      modifies this
      ensures Step(State(), resp) == UpdateStep(old(State()), pathId, input, refs)
    {
      var id := ParseInt(pathId);
      if id.Int? && UpdateAccepted(State(), id.value, input, refs) {
        var a := Patch(rows[id.value], input);
        rows := rows[id.value := a];
        resp := Response(200, ArticleBody(a));
      } else {
        resp := Response(500, Error("Could not update article"));
      }
    }

    /** The delete handler. */
    method Delete(pathId: string) returns (resp: Response)
      requires Valid(State())
      modifies this
      ensures Step(State(), resp) == DeleteStep(old(State()), pathId)
    {
      var id := ParseInt(pathId);
      if id.Int? && id.value in rows {
        rows := rows - {id.value};
        resp := Response(200, Message("Article deleted"));
      } else {
        resp := Response(500, Error("Could not delete article"));
      }
    }

    /**
     * `router.post("/", authenticateToken, handler)`: a rejected token is
     * answered by the gate and neither the table nor the request changes;
     * an admitted one is attached to the request and the handler creates
     * the row as that principal.
     */
    method PostArticle(req: Request, verify: string -> Option<Principal>, input: ArticleInput, refs: Refs, now: int)
      returns (resp: Response)
      requires Valid(State())
      modifies this, req
      ensures var d := Gate(req.authorization, verify);
        && (d.Reject? ==> resp == Response(d.status, Error(d.error)) && State() == old(State()) && req.user == old(req.user))
        && (d.Admit? ==>
              req.user == Some(d.principal) && Step(State(), resp) == CreateStep(old(State()), d.principal, input, refs, now))
    {
      var d := AuthenticateToken(req, verify);
      if d.Reject? {
        resp := Response(d.status, Error(d.error));
        return;
      }
      resp := Create(req.user.value, input, refs, now);
    }

    /** `router.put("/:id", authenticateToken, handler)`. */
    method PutArticle(req: Request, verify: string -> Option<Principal>, pathId: string, input: ArticleInput, refs: Refs)
      returns (resp: Response)
      requires Valid(State())
      modifies this, req
      ensures var d := Gate(req.authorization, verify);
        && (d.Reject? ==> resp == Response(d.status, Error(d.error)) && State() == old(State()) && req.user == old(req.user))
        && (d.Admit? ==>
              req.user == Some(d.principal) && Step(State(), resp) == UpdateStep(old(State()), pathId, input, refs))
    {
      var d := AuthenticateToken(req, verify);
      if d.Reject? {
        resp := Response(d.status, Error(d.error));
        return;
      }
      resp := Update(pathId, input, refs);
    }

    /** `router.delete("/:id", authenticateToken, handler)`. */
    method DeleteArticle(req: Request, verify: string -> Option<Principal>, pathId: string)
      returns (resp: Response)
      requires Valid(State())
      modifies this, req
      ensures var d := Gate(req.authorization, verify);
        && (d.Reject? ==> resp == Response(d.status, Error(d.error)) && State() == old(State()) && req.user == old(req.user))
        && (d.Admit? ==>
              req.user == Some(d.principal) && Step(State(), resp) == DeleteStep(old(State()), pathId))
    {
      var d := AuthenticateToken(req, verify);
      if d.Reject? {
        resp := Response(d.status, Error(d.error));
        return;
      }
      resp := Delete(pathId);
    }
  }
}
