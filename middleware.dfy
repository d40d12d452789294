/**
 * backend/middleware/authMiddleware.js: reading a bearer token from the
 * `Authorization` header (section 2.1 of RFC 6750, with the scheme name
 * compared case-insensitively as section 2.1 of RFC 7235 asks), and the two
 * middlewares that turn a verified token into `req.user`.
 */
module Middleware {
  import opened Strings
  import opened Js
  import opened Http
  import opened Store

  /**
   * The fields of a verified token payload the backend reads. An absent or
   * falsy `userId` is None; `email` is whatever the payload holds.
   */
  datatype Claims = Claims(userId: Option<UserId>, email: JsValue)

  /**
   * `req.user`: never assigned, assigned `null`, or the `{ userId, email }`
   * copied out of a token payload.
   */
  datatype ReqUser = Unset | NullUser | AuthUser(userId: Option<UserId>, email: JsValue)

  /** `req.user && req.user.userId`, with a falsy result as None. */
  function UserIdOf(u: ReqUser): (r: Option<UserId>)
    ensures r.Some? ==> u.AuthUser?
  {
    if u.AuthUser? then u.userId else None
  }

  /**
   * `extractToken`: nothing for a missing or empty header; otherwise the
   * header split at every space must give exactly two pieces, the first
   * equal to "Bearer" up to ASCII case, and the second is the token. The
   * regular expression `/^Bearer$/i` has no `u` flag, so its case folding
   * maps only ASCII letters onto "Bearer".
   */
  function ExtractToken(header: Option<string>): Option<string>
  {
    if header.None? || header.value == [] then None
    else
      var parts := Split(header.value, ' ');
      if |parts| != 2 then None
      else if LowerAscii(parts[0]) != "bearer" then None
      else Some(parts[1])
  }

  /** A header of the form scheme SP token, in the terms ExtractToken accepts. */
  predicate BearerHeader(h: string, token: string)
  {
    && |h| == 7 + |token|
    && LowerAscii(h[..6]) == "bearer"
    && h[6] == ' '
    && h[7..] == token
    && ' ' !in token
  }

  /**
   * ExtractToken returns `t` exactly when the header is a six-letter
   * "Bearer" in any ASCII case, one space, and `t` with no further space.
   */
  lemma ExtractTokenIff(h: string, t: string)
    ensures ExtractToken(Some(h)) == Some(t) <==> BearerHeader(h, t)
  {
    if ExtractToken(Some(h)) == Some(t) {
      ExtractedIsBearer(h, t);
    }
    if BearerHeader(h, t) {
      BearerIsExtracted(h, t);
    }
  }

  /** A header that yields a token has the bearer shape around it. */
  lemma ExtractedIsBearer(h: string, t: string)
    requires ExtractToken(Some(h)) == Some(t)
    ensures BearerHeader(h, t)
  {
    var parts := Split(h, ' ');
    assert |parts| == 2 && LowerAscii(parts[0]) == "bearer" && parts[1] == t;
    assert |parts[0]| == 6 by {
      assert |LowerAscii(parts[0])| == |parts[0]|;
    }
    assert h == parts[0] + " " + t by {
      assert Join(parts, [' ']) == h;
      assert Join(parts[1..], [' ']) == t;
    }
    assert h[..6] == parts[0] && h[6] == ' ' && h[7..] == t;
    assert ' ' !in t;
  }

  /** Every header of the bearer shape yields its token. */
  lemma BearerIsExtracted(h: string, t: string)
    requires BearerHeader(h, t)
    ensures ExtractToken(Some(h)) == Some(t)
  {
    var scheme := h[..6];
    assert ' ' !in scheme by {
      forall k | 0 <= k < 6 ensures scheme[k] != ' ' {
        assert LowerAscii(scheme)[k] == LowerChar(scheme[k]);
      }
    }
    assert h == scheme + [' '] + t;
    SplitCons(scheme, ' ', t);
    SplitNone(t, ' ');
  }

  /** No header, or an empty one, holds no token. */
  lemma ExtractTokenMissing()
    ensures ExtractToken(None) == None
    ensures ExtractToken(Some("")) == None
  {
  }

  /** A second space between scheme and token makes three pieces: no token. */
  lemma ExtractTokenExtraSpace(t: string)
    ensures ExtractToken(Some("Bearer  " + t)) == None
  {
    var h := "Bearer  " + t;
    assert h[7..][0] == ' ';
    if ExtractToken(Some(h)).Some? {
      ExtractTokenIff(h, ExtractToken(Some(h)).value);
    }
  }

  /** Another scheme gives no token. */
  lemma ExtractTokenOtherScheme(t: string)
    ensures ExtractToken(Some("Basic " + t)) == None
  {
    var h := "Basic " + t;
    if ExtractToken(Some(h)).Some? {
      ExtractTokenIff(h, ExtractToken(Some(h)).value);
    }
  }

  /** The scheme matches in any ASCII case. */
  lemma ExtractTokenAnyCase(t: string)
    requires ' ' !in t
    ensures ExtractToken(Some("bEaReR " + t)) == Some(t)
  {
    var h := "bEaReR " + t;
    assert h[..6] == "bEaReR";
    assert LowerAscii("bEaReR") == "bearer";
    ExtractTokenIff(h, t);
  }

  /**
   * An empty token after "Bearer " is returned as "", which requireAuth
   * treats as missing.
   */
  lemma ExtractTokenEmpty(h: string)
    requires h == "Bearer "
    ensures ExtractToken(Some(h)) == Some("")
  {
    assert LowerAscii(h[..6]) == "bearer";
    ExtractTokenIff(h, "");
  }

  /** The request as the middlewares see it: its header, and `req.user`. */
  class Request {
    const authorization: Option<string>
    var user: ReqUser

    constructor (authorization: Option<string>)
      ensures this.authorization == authorization && user == Unset
    {
      this.authorization := authorization;
      user := Unset;
    }
  }

  /**
   * `verifyToken` followed by copying `{ userId, email }`: None when the
   * secret is not configured or `verify` (jwt.verify with that secret)
   * throws.
   */
  function Authenticate(token: string, secretConfigured: bool, verify: string -> Option<Claims>): (r: Option<ReqUser>)
    ensures r.Some? ==> r.value.AuthUser? && verify(token).Some?
  {
    if !secretConfigured then None
    else match verify(token)
      case None => None
      case Some(c) => Some(AuthUser(c.userId, c.email))
  }

  /**
   * `requireAuth`: None means `next()` was called. A missing or empty token
   * is answered 401 "Unauthorized - token not found"; any failure to
   * verify it, the missing secret included, 401 "Unauthorized"; otherwise
   * `req.user` is the payload's `{ userId, email }`.
   */
  method RequireAuth(req: Request, secretConfigured: bool, verify: string -> Option<Claims>)
    returns (r: Option<Response>)
    modifies req
    ensures var t := ExtractToken(req.authorization);
      && (t.None? || t.value == [] ==> r == Some(Error(401, "Unauthorized - token not found")) && req.user == old(req.user))
      && (t.Some? && t.value != [] ==>
            match Authenticate(t.value, secretConfigured, verify)
            case None => r == Some(Error(401, "Unauthorized")) && req.user == old(req.user)
            case Some(u) => r.None? && req.user == u)
  {
    var token := ExtractToken(req.authorization);
    if token.None? || token.value == [] {
      return Some(Error(401, "Unauthorized - token not found"));
    }
    var payload := Authenticate(token.value, secretConfigured, verify);
    if payload.None? {
      return Some(Error(401, "Unauthorized"));
    }
    req.user := payload.value;
    r := None;
  }

  /**
   * The `req.user` that `optionalAuth` leaves: the payload's `{ userId,
   * email }` when a non-empty token verifies, and `null` otherwise.
   */
  function OptionalUser(header: Option<string>, secretConfigured: bool, verify: string -> Option<Claims>): ReqUser
  {
    var t := ExtractToken(header);
    if t.None? || t.value == [] then NullUser
    else match Authenticate(t.value, secretConfigured, verify)
      case None => NullUser
      case Some(u) => u
  }

  /** `optionalAuth`: always calls `next()`, with `req.user` set to OptionalUser. */
  method OptionalAuth(req: Request, secretConfigured: bool, verify: string -> Option<Claims>)
    modifies req
    ensures req.user == OptionalUser(req.authorization, secretConfigured, verify)
  {
    var token := ExtractToken(req.authorization);
    if token.None? || token.value == [] {
      req.user := NullUser;
      return;
    }
    var payload := Authenticate(token.value, secretConfigured, verify);
    req.user := if payload.Some? then payload.value else NullUser;
  }

  /**
   * What a route behind `optionalAuth` sees as `req.user.userId`: the id
   * `id` exactly when the header is "Bearer" in any ASCII case, one space
   * and a non-empty token without spaces, the secret is configured, and
   * the token verifies to a payload whose `userId` is `id`. Every other
   * request reaches the route without a user id.
   */
  lemma RouteSeesTokenUser(h: string, id: UserId, secretConfigured: bool, verify: string -> Option<Claims>)
    ensures UserIdOf(OptionalUser(Some(h), secretConfigured, verify)) == Some(id) <==>
      && |h| > 7 && BearerHeader(h, h[7..]) && secretConfigured
      && verify(h[7..]).Some? && verify(h[7..]).value.userId == Some(id)
    ensures UserIdOf(OptionalUser(None, secretConfigured, verify)) == None
  {
    var t := ExtractToken(Some(h));
    if t.Some? {
      ExtractedIsBearer(h, t.value);
      assert h[7..] == t.value;
    }
    if |h| > 7 && BearerHeader(h, h[7..]) {
      BearerIsExtracted(h, h[7..]);
    }
  }
}
