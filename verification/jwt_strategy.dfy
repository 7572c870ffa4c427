/**
 * The JWT strategy that authenticates API requests: where the token is looked
 * for (the `access_token` cookie first, then the Bearer header), the token
 * check with expiry enforced, and the mapping of the verified payload to the
 * request's user. Signature checking is abstract: `verify` returns the claims
 * of a token whose signature is good, and none otherwise.
 */
module JwtStrategy {
  import opened Wrappers
  import opened Text
  import opened Auth

  const AccessTokenCookie := "access_token"

  /**
   * The parts of a request the extractors look at: the parsed cookies (absent
   * when no cookie parser ran) and the token of an `Authorization: Bearer`
   * header, as the header parser reads it.
   */
  datatype Request = Request(cookies: Option<map<string, string>>, bearer: Option<string>)

  /** A token extractor; a request may be missing altogether. */
  type Extractor = Option<Request> -> Option<string>

  /** The `access_token` cookie when there is a request, it has cookies, and the cookie is non-empty. */
  function CookieExtractor(req: Option<Request>): (r: Option<string>)
    ensures r.Some? <==>
      req.Some? && req.value.cookies.Some? && AccessTokenCookie in req.value.cookies.value
      && req.value.cookies.value[AccessTokenCookie] != ""
    ensures r.Some? ==> r.value == req.value.cookies.value[AccessTokenCookie] && r.value != ""
  {
    if req.Some? && req.value.cookies.Some? && AccessTokenCookie in req.value.cookies.value
       && req.value.cookies.value[AccessTokenCookie] != "" then
      Some(req.value.cookies.value[AccessTokenCookie])
    else None
  }

  /** The Bearer token of the `Authorization` header; the header grammar admits no empty token. */
  function BearerExtractor(req: Option<Request>): (r: Option<string>)
    ensures r.Some? <==> req.Some? && Truthy(req.value.bearer)
    ensures r.Some? ==> r == req.value.bearer
  {
    if req.Some? && Truthy(req.value.bearer) then req.value.bearer else None
  }

  /**
   * Tries the extractors in order until one yields a non-empty token; the
   * result is that token, or else what the last extractor yielded.
   */
  function FromExtractors(extractors: seq<Extractor>, req: Option<Request>): (r: Option<string>)
    ensures extractors == [] ==> r == None
    ensures |extractors| > 0 && Truthy(extractors[0](req)) ==> r == extractors[0](req)
  {
    if extractors == [] then None
    else
      var token := extractors[0](req);
      if Truthy(token) || |extractors| == 1 then token else FromExtractors(extractors[1..], req)
  }

  /** The chain yields the first non-empty token, and only extractors before it came up empty. */
  lemma {:induction false} FirstTruthyWins(extractors: seq<Extractor>, req: Option<Request>, i: nat)
    requires i < |extractors| && Truthy(extractors[i](req))
    requires forall j :: 0 <= j < i ==> !Truthy(extractors[j](req))
    ensures FromExtractors(extractors, req) == extractors[i](req)
  {
    if i > 0 {
      assert !Truthy(extractors[0](req));
      forall j | 0 <= j < i - 1 ensures !Truthy(extractors[1..][j](req)) {
        assert extractors[1..][j] == extractors[j + 1];
      }
      FirstTruthyWins(extractors[1..], req, i - 1);
    }
  }

  /** When no extractor yields a token, the chain yields the last extractor's result. */
  lemma {:induction false} NoneTruthyGivesLast(extractors: seq<Extractor>, req: Option<Request>)
    requires |extractors| > 0
    requires forall j :: 0 <= j < |extractors| ==> !Truthy(extractors[j](req))
    ensures FromExtractors(extractors, req) == extractors[|extractors| - 1](req)
  {
    if |extractors| > 1 {
      forall j | 0 <= j < |extractors| - 1 ensures !Truthy(extractors[1..][j](req)) {
        assert extractors[1..][j] == extractors[j + 1];
      }
      NoneTruthyGivesLast(extractors[1..], req);
    }
  }

  /** `jwtFromRequest`: the cookie first, then the Bearer header. */
  const JwtFromRequest: seq<Extractor> := [CookieExtractor, BearerExtractor]

  /** The token of a request: one of the two sources' tokens, and none only when both are empty. */
  function ExtractToken(req: Option<Request>): (t: Option<string>)
    ensures t.Some? ==> t == CookieExtractor(req) || t == BearerExtractor(req)
    ensures t.None? <==> CookieExtractor(req).None? && BearerExtractor(req).None?
  {
    assert JwtFromRequest[0] == CookieExtractor && JwtFromRequest[1] == BearerExtractor;
    if Truthy(CookieExtractor(req)) then
      FirstTruthyWins(JwtFromRequest, req, 0);
      FromExtractors(JwtFromRequest, req)
    else if Truthy(BearerExtractor(req)) then
      FirstTruthyWins(JwtFromRequest, req, 1);
      FromExtractors(JwtFromRequest, req)
    else
      NoneTruthyGivesLast(JwtFromRequest, req);
      FromExtractors(JwtFromRequest, req)
  }

  /** A request with the cookie uses the cookie's token, whatever the header says. */
  lemma CookieWins(req: Option<Request>)
    requires CookieExtractor(req).Some?
    ensures ExtractToken(req) == CookieExtractor(req)
  {
    FirstTruthyWins(JwtFromRequest, req, 0);
  }

  /** Without the cookie the header is consulted, and its token (or none) is the result. */
  lemma HeaderFallback(req: Option<Request>)
    requires CookieExtractor(req).None?
    ensures ExtractToken(req) == BearerExtractor(req)
  {
    assert !Truthy(JwtFromRequest[0](req));
    if Truthy(BearerExtractor(req)) {
      FirstTruthyWins(JwtFromRequest, req, 1);
    } else {
      NoneTruthyGivesLast(JwtFromRequest, req);
    }
  }

  /** The claims of a well-signed token; `exp` is the expiry time, when the token has one. */
  datatype Claims = Claims(sub: nat, email: string, exp: Option<int>)

  /** The user attached to an authenticated request. */
  datatype Identity = Identity(userId: nat, email: string)

  datatype AuthError = NoToken | InvalidToken | TokenExpired

  /** `validate`: the payload's `sub` becomes the user id, its email is kept. */
  function Validate(claims: Claims): (id: Identity)
    ensures id.userId == claims.sub && id.email == claims.email
  {
    Identity(claims.sub, claims.email)
  }

  /** Expiry is enforced: a token is expired from its `exp` time on. */
  predicate Expired(claims: Claims, now: int) {
    claims.exp.Some? && now >= claims.exp.value
  }

  /**
   * Authenticates a request at time `now`: no token, a token `verify`
   * rejects, and an expired token each fail; otherwise the identity of the
   * token's claims.
   */
  function Authenticate(verify: string -> Option<Claims>, now: int, req: Option<Request>): (r: Result<Identity, AuthError>)
    ensures !Truthy(ExtractToken(req)) ==> r == Failure(NoToken)
    ensures Truthy(ExtractToken(req)) && verify(ExtractToken(req).value).None? ==> r == Failure(InvalidToken)
    ensures r.Success? <==>
      && Truthy(ExtractToken(req))
      && verify(ExtractToken(req).value).Some?
      && !Expired(verify(ExtractToken(req).value).value, now)
    ensures r.Success? ==> r.value == Validate(verify(ExtractToken(req).value).value)
  {
    var token := ExtractToken(req);
    if !Truthy(token) then Failure(NoToken)
    else
      match verify(token.value)
      case None => Failure(InvalidToken)
      case Some(claims) => if Expired(claims, now) then Failure(TokenExpired) else Success(Validate(claims))
  }

  /** An expired token is refused even though its signature is good. */
  lemma ExpiredTokenRejected(verify: string -> Option<Claims>, now: int, req: Option<Request>)
    requires Truthy(ExtractToken(req)) && verify(ExtractToken(req).value).Some?
    requires Expired(verify(ExtractToken(req).value).value, now)
    ensures Authenticate(verify, now, req) == Failure(TokenExpired)
  {
  }

  /**
   * Login then authenticate: a request carrying the token `login` issued, in
   * the cookie, is authenticated as the user it was issued for, as long as
   * the token verifies to the signed claims and has not expired.
   */
  lemma LoginTokenAuthenticates(sign: Payload -> string, verify: string -> Option<Claims>, now: int,
                                userId: nat, email: string, exp: Option<int>, bearer: Option<string>)
    requires Login(sign, userId, email).accessToken != ""
    requires verify(Login(sign, userId, email).accessToken) == Some(Claims(userId, email, exp))
    requires exp.None? || now < exp.value
    ensures var cookies := map[AccessTokenCookie := Login(sign, userId, email).accessToken];
      Authenticate(verify, now, Some(Request(Some(cookies), bearer))) == Success(Identity(userId, email))
  {
    var cookies := map[AccessTokenCookie := Login(sign, userId, email).accessToken];
    CookieWins(Some(Request(Some(cookies), bearer)));
  }
}
