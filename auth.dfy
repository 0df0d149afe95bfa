/**
 * The `authenticateToken` middleware that guards the article routes which
 * change the table: it reads the bearer token from the `Authorization`
 * header, hands it to the token verifier and either stops the request with
 * 401 or 403 or attaches the verified principal to the request and lets the
 * route handler run.
 *
 * The verifier (`jwt.verify` with the server's secret) is a parameter: a
 * total function from a token to the principal it proves, if any.
 */
module Auth {
  import opened Wrappers
  import opened JsString

  /** The payload carried by a token; the login route signs `{ userId, email }`. */
  datatype Principal = Principal(userId: int, email: string)

  /** What the middleware decides: run the handler as `principal`, or answer `status`. */
  datatype Decision = Admit(principal: Principal) | Reject(status: int, error: string)

  /**
   * `authHeader && authHeader.split(" ")[1]`, kept only when it is truthy:
   * the second space-separated field of the header, when there is one and it
   * is not empty. A token never contains a space.
   */
  function BearerToken(header: Option<string>): (token: Option<string>)
    ensures header.None? ==> token.None?
    ensures token.Some? ==> token.value != [] && ' ' !in token.value
  {
    if header.None? then None
    else
      var fields := Split(header.value, ' ');
      if |fields| >= 2 && fields[1] != [] then Some(fields[1]) else None
  }

  /**
   * The middleware's decision for a request carrying `header`: 401 without
   * a token, 403 for a token the verifier rejects, and otherwise admission
   * as the principal the token proves.
   */
  function Gate(header: Option<string>, verify: string -> Option<Principal>): (d: Decision)
    ensures d == Reject(401, "Token missing") <==> BearerToken(header).None?
    ensures d == Reject(403, "Invalid token") <==>
      BearerToken(header).Some? && verify(BearerToken(header).value).None?
    ensures d.Admit? <==> BearerToken(header).Some? && verify(BearerToken(header).value).Some?
    ensures d.Admit? ==> d.principal == verify(BearerToken(header).value).value
  {
    match BearerToken(header)
    case None => Reject(401, "Token missing")
    case Some(token) =>
      match verify(token)
      case None => Reject(403, "Invalid token")
      case Some(user) => Admit(user)
  }

  /**
   * The token is exactly the second field of a header cut at single spaces,
   * whatever the scheme in the first field and whatever follows the token.
   */
  lemma TokenIsSecondField(fields: seq<string>)
    requires |fields| >= 2 && fields[1] != []
    requires forall i :: 0 <= i < |fields| ==> ' ' !in fields[i]
    ensures BearerToken(Some(Join(fields, ' '))) == Some(fields[1])
  {
    SplitJoin(fields, ' ');
  }

  /** Two spaces after the scheme leave an empty second field, so no token. */
  lemma EmptySecondFieldNoToken(fields: seq<string>)
    requires |fields| >= 2 && fields[1] == []
    requires forall i :: 0 <= i < |fields| ==> ' ' !in fields[i]
    ensures BearerToken(Some(Join(fields, ' '))) == None
  {
    SplitJoin(fields, ' ');
  }

  /** `Authorization: Bearer <token>` yields the token. */
  lemma BearerSchemeToken(token: string)
    requires token != [] && ' ' !in token
    ensures BearerToken(Some("Bearer " + token)) == Some(token)
  {
    var fields := ["Bearer", token];
    assert Join(fields, ' ') == "Bearer " + token by {
      assert fields[1..] == [token];
    }
    TokenIsSecondField(fields);
  }

  /** A header without a space has no second field, so no token. */
  lemma NoSpaceNoToken(header: string)
    requires ' ' !in header
    ensures BearerToken(Some(header)) == None
  {
    SplitJoin([header], ' ');
  }

  /**
   * Without a token the answer is 401, and the verifier is never consulted:
   * any two verifiers give the same decision.
   */
  lemma MissingTokenIs401(header: Option<string>, verify: string -> Option<Principal>, other: string -> Option<Principal>)
    requires BearerToken(header).None?
    ensures Gate(header, verify) == Reject(401, "Token missing")
    ensures Gate(header, verify) == Gate(header, other)
  {
  }

  /** A request with no `Authorization` header is answered 401 and never reaches the verifier. */
  lemma NoHeaderIs401(verify: string -> Option<Principal>)
    ensures Gate(None, verify) == Reject(401, "Token missing")
  {
    MissingTokenIs401(None, verify, verify);
  }

  /** A token the verifier rejects gives 403; one it accepts admits exactly its principal. */
  lemma VerifiedTokenDecides(header: Option<string>, verify: string -> Option<Principal>)
    requires BearerToken(header).Some?
    ensures verify(BearerToken(header).value).None? ==> Gate(header, verify) == Reject(403, "Invalid token")
    ensures verify(BearerToken(header).value).Some? ==>
      Gate(header, verify) == Admit(verify(BearerToken(header).value).value)
  {
  }

  /** The request object as far as the middleware sees it. */
  class Request {
    const authorization: Option<string>
    var user: Option<Principal>

    constructor (authorization: Option<string>)
      ensures this.authorization == authorization && user == None
    {
      this.authorization := authorization;
      user := None;
    }
  }

  /**
   * `authenticateToken(req, res, next)`: on admission the principal is
   * stored in `req.user` and the caller goes on to the handler (`next()`);
   * on rejection the request is left as it was and answered with the
   * decision's status.
   */
  method AuthenticateToken(req: Request, verify: string -> Option<Principal>) returns (d: Decision)
    modifies req
    ensures d == Gate(req.authorization, verify)
    ensures req.user == if d.Admit? then Some(d.principal) else old(req.user)
  {
    d := Gate(req.authorization, verify);
    if d.Admit? {
      req.user := Some(d.principal);
    }
  }
}
