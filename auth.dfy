/**
 * backend/routes/auth.js: the request-body checks, and the account
 * lifecycle over the store: signup creates an inactive user with a PIN hash
 * and an expiry, activation checks the PIN and makes the user active, login
 * checks the status and the password and hands out a token.
 *
 * bcrypt, jsonwebtoken, `Date.now`, the PIN generator and the environment are
 * parameters: the hashes `passwordHash` and `pinHash`, the oracles `verify`
 * (jwt.verify with the secret), `compare` (bcrypt.compare) and `sign`
 * (jwt.sign), the clock `now` in milliseconds, and whether the secret is
 * configured.
 */
module Auth {
  import opened Strings
  import opened Money
  import opened Js
  import opened Http
  import opened Store
  import opened Middleware
  import opened Uri

  // ---------------------------------------------------------------------------
  // Body checks
  // ---------------------------------------------------------------------------

  /** `isValidEmail`: a string matching `/.+@.+\..+/`. */
  predicate IsValidEmail(v: JsValue)
  {
    v.Str? && MatchesEmailPattern(v.s)
  }

  /** `isNonEmptyString`: a string whose trim is not empty. */
  predicate IsNonEmptyString(v: JsValue)
  {
    v.Str? && |Trim(v.s)| > 0
  }

  /** A string is non-empty after trimming exactly when some character is not whitespace. */
  lemma NonEmptyStringIff(v: JsValue)
    ensures IsNonEmptyString(v) <==> v.Str? && exists k :: 0 <= k < |v.s| && !IsJsSpace(v.s[k])
  {
    if v.Str? {
      TrimEmptyIff(v.s);
    }
  }

  /**
   * A valid e-mail keeps its "@" through lower-casing and trimming, so the
   * stored e-mail is never empty.
   */
  lemma ValidEmailNormalizesNonEmpty(s: string)
    requires MatchesEmailPattern(s)
    ensures NormalizeEmail(LowerAscii(s)) != []
    ensures NormalizeEmail(s) != []
  {
    MatchHasAt(s);
    var k :| 0 <= k < |s| && s[k] == '@';
    assert LowerAscii(s)[k] == '@';
    TrimEmptyIff(LowerAscii(s));
    NormalizeEmailIdempotent(s);
  }

  // ---------------------------------------------------------------------------
  // POST /signup
  // ---------------------------------------------------------------------------

  /** How long a PIN stays valid: 30 minutes, in milliseconds. */
  const ActivationWindow: int := 30 * 60 * 1000

  /** The balance a new account starts with, `Decimal128.fromString('500.000')`. */
  const SignupBalance: Decimal := Decimal(false, 500000, 3)

  /** The fields signup hands to `User.create`. */
  function SignupFields(email: string, phone: string, passwordHash: string, pinHash: string, now: int): NewUser
  {
    NewUser(LowerAscii(email), passwordHash, Some(phone), Some(SignupBalance), Some(Inactive),
            Some(pinHash), Some(now + ActivationWindow))
  }

  /** How a signup ends: an error, store untouched; or one new user. */
  datatype SignupResult = NotCreated(response: Response) | Created(user: User)

  /** What `POST /signup` does, step by step as the handler runs. */
  function SignupSpec(users: map<UserId, User>, index: map<string, UserId>,
                      email: JsValue, password: JsValue, phone: JsValue,
                      passwordHash: string, pinHash: string, secretConfigured: bool, now: int): SignupResult
  {
    if !IsValidEmail(email) || !IsNonEmptyString(password) || !IsNonEmptyString(phone) then
      NotCreated(Error(400, "Invalid request body"))
    else if LookupEmail(index, LowerAscii(email.s)).Some? then
      NotCreated(Error(400, "Email already registered"))
    else if !secretConfigured then
      NotCreated(ServerError(0, "JWT secret not configured"))
    else match ApplySchema(SignupFields(email.s, phone.s, passwordHash, pinHash, now))
      case Err(e) => NotCreated(ServerError(0, e))
      case Ok(u) => Created(u)
  }

  /**
   * `POST /signup`: the body check, the duplicate check on the lower-cased
   * e-mail, signing the activation token (which needs the secret), then
   * `User.create`; a thrown error goes to the central error handler. The
   * activation mail is not modelled: its failure is caught and does not
   * change the answer.
   */
  method Signup(db: Bank, email: JsValue, password: JsValue, phone: JsValue,
                passwordHash: string, pinHash: string, secretConfigured: bool, now: int)
    returns (r: Response)
    requires db.Valid()
    modifies db
    ensures db.Valid() && db.log == old(db.log)
    ensures match SignupSpec(old(db.users), old(db.emailIndex), email, password, phone,
                             passwordHash, pinHash, secretConfigured, now)
      case NotCreated(response) =>
        r == response && db.users == old(db.users) && db.nextId == old(db.nextId)
      case Created(u) =>
        && r == Json(201, MessageBody("User registered successfully"))
        && db.users == old(db.users)[old(db.nextId) := u] && old(db.nextId) !in old(db.users)
        && db.nextId == old(db.nextId) + 1
  {
    if !IsValidEmail(email) || !IsNonEmptyString(password) || !IsNonEmptyString(phone) {
      return Error(400, "Invalid request body");
    }
    var existing := db.FindByEmail(LowerAscii(email.s));
    if existing.Some? {
      return Error(400, "Email already registered");
    }
    if !secretConfigured {
      return ServerError(0, "JWT secret not configured");
    }
    var n := SignupFields(email.s, phone.s, passwordHash, pinHash, now);
    NormalizeEmailIdempotent(email.s);
    var created := db.Create(n);
    if created.Err? {
      return ServerError(0, created.error);
    }
    r := Json(201, MessageBody("User registered successfully"));
  }

  /** An invalid body is refused 400 whatever the store holds. */
  lemma SignupChecksBodyFirst(users: map<UserId, User>, index: map<string, UserId>,
                              email: JsValue, password: JsValue, phone: JsValue,
                              passwordHash: string, pinHash: string, secretConfigured: bool, now: int)
    requires !IsValidEmail(email) || !IsNonEmptyString(password) || !IsNonEmptyString(phone)
    ensures SignupSpec(users, index, email, password, phone, passwordHash, pinHash, secretConfigured, now)
         == NotCreated(Error(400, "Invalid request body"))
  {
  }

  /** An e-mail some user already holds, in any ASCII case, is refused 400. */
  lemma SignupRefusesTakenEmail(users: map<UserId, User>, index: map<string, UserId>, log: seq<Tx>, nextId: UserId,
                                email: JsValue, password: JsValue, phone: JsValue,
                                passwordHash: string, pinHash: string, secretConfigured: bool, now: int,
                                holder: UserId)
    requires Consistent(users, index, log, nextId)
    requires IsValidEmail(email) && IsNonEmptyString(password) && IsNonEmptyString(phone)
    requires holder in users && users[holder].email == NormalizeEmail(email.s)
    ensures SignupSpec(users, index, email, password, phone, passwordHash, pinHash, secretConfigured, now)
         == NotCreated(Error(400, "Email already registered"))
  {
    NormalizeEmailIdempotent(email.s);
    assert users[holder].email == NormalizeEmail(LowerAscii(email.s));
  }

  /**
   * A signup with a valid body, a free e-mail, the secret configured and a
   * non-empty password hash creates one user: e-mail lower-cased and
   * trimmed, status inactive, balance 500.000, the phone number, the
   * password and PIN hashes, and an expiry 30 minutes from now.
   */
  lemma SignupCreatesInactiveUser(users: map<UserId, User>, index: map<string, UserId>, log: seq<Tx>, nextId: UserId,
                                  email: JsValue, password: JsValue, phone: JsValue,
                                  passwordHash: string, pinHash: string, now: int)
    requires Consistent(users, index, log, nextId)
    requires IsValidEmail(email) && IsNonEmptyString(password) && IsNonEmptyString(phone)
    requires forall id :: id in users ==> users[id].email != NormalizeEmail(email.s)
    requires passwordHash != []
    ensures SignupSpec(users, index, email, password, phone, passwordHash, pinHash, true, now)
         == Created(User(NormalizeEmail(email.s), passwordHash, Some(phone.s), Some(SignupBalance), Inactive,
                         Some(pinHash), Some(now + 1800000)))
    ensures SignupBalance.ToString() == "500.000"
  {
    NormalizeEmailIdempotent(email.s);
    ValidEmailNormalizesNonEmpty(email.s);
    LookupEmailFinds(users, index, log, nextId, LowerAscii(email.s));
    BalanceDigits();
  }

  lemma BalanceDigits()
    ensures SignupBalance.ToString() == "500.000"
  {
    assert NatToString(500000) == "500000" by {
      assert NatToString(5) == "5";
      assert NatToString(50) == "50";
      assert NatToString(500) == "500";
      assert NatToString(5000) == "5000";
      assert NatToString(50000) == "50000";
    }
    assert Padded(500000, 3) == "500000";
    assert IntPart(500000, 3) == "500";
    assert FracPart(500000, 3) == "000";
  }

  // ---------------------------------------------------------------------------
  // GET /auth/:pincode/:JWT
  // ---------------------------------------------------------------------------

  /**
   * `process.env.FRONT_BASE_URL || "http://localhost:5173"`, with `None` for
   * an unset variable: an unset or empty one gives the default.
   */
  function FrontBase(frontBaseUrl: Option<string>): string
  {
    if frontBaseUrl.None? || frontBaseUrl.value == [] then "http://localhost:5173" else frontBaseUrl.value
  }

  /**
   * The base the `catch` branch interpolates, `${process.env.FRONT_BASE_URL}`
   * without a default: an unset variable is spelled "undefined".
   */
  function CatchBase(frontBaseUrl: Option<string>): string
  {
    if frontBaseUrl.None? then "undefined" else frontBaseUrl.value
  }

  /**
   * A database call of the activation handler that throws, with the error's
   * message ("" for none): the lookup `User.findOne`, or `user.save()`.
   */
  datatype ActivationFault = NoActivationFault | LookupThrows(message: string) | SaveThrows(message: string)

  /**
   * The `catch` branch: redirect 302 to the login page with the error's
   * message, or "Activation failed", URI-encoded as the reason.
   */
  function ActivationFailed(message: string, frontBaseUrl: Option<string>): Response
  {
    Redirect(302, CatchBase(frontBaseUrl) + "/login?activated=0&reason="
                  + Encode(if message == [] then "Activation failed" else message))
  }

  /** How an activation ends: an error, store untouched; or one user activated. */
  datatype ActivationResult = NotActivated(response: Response) | Activated(id: UserId, response: Response)

  /** What the activation link does, check by check in the handler's order. */
  function ActivateSpec(users: map<UserId, User>, index: map<string, UserId>, pin: string, token: string,
                        secretConfigured: bool, verify: string -> Option<Claims>,
                        compare: (string, string) -> bool, fault: ActivationFault, now: int,
                        frontBaseUrl: Option<string>): ActivationResult
  {
    if !IsNonEmptyString(Str(pin)) || !IsNonEmptyString(Str(token)) then
      NotActivated(Error(400, "Invalid activation data - pin or jwt missing"))
    else if !secretConfigured then
      NotActivated(Error(500, "Server misconfigured - secret jwt missing"))
    else match verify(token)
      case None => NotActivated(Error(400, "Invalid or expired token"))
      case Some(claims) =>
        if !IsValidEmail(claims.email) then NotActivated(Error(400, "Invalid token payload"))
        else if fault.LookupThrows? then NotActivated(ActivationFailed(fault.message, frontBaseUrl))
        else match LookupEmail(index, LowerAscii(claims.email.s))
          case None => NotActivated(Error(400, "User not found"))
          case Some(id) =>
            if id !in users then NotActivated(Error(400, "User not found"))
            else CheckPin(users[id], id, pin, compare, fault, now, frontBaseUrl)
  }

  /** The checks on the found user's verification fields, the PIN, then the save. */
  function CheckPin(u: User, id: UserId, pin: string, compare: (string, string) -> bool,
                    fault: ActivationFault, now: int, frontBaseUrl: Option<string>): ActivationResult
  {
    if u.pinHash.None? || u.pinHash.value == [] || u.expiresAt.None? then
      NotActivated(Error(400, "Activation not initialized"))
    else if u.expiresAt.value < now then NotActivated(Error(400, "PIN expired"))
    else if !compare(pin, u.pinHash.value) then NotActivated(Error(400, "Invalid PIN"))
    else if fault.SaveThrows? then NotActivated(ActivationFailed(fault.message, frontBaseUrl))
    else Activated(id, Redirect(301, FrontBase(frontBaseUrl) + "/login?activated=1"))
  }

  /**
   * The activation link: on success the user becomes active, both
   * verification fields are unset, and the browser is redirected to the
   * login page; a failed lookup or save redirects with the reason.
   */
  method Activate(db: Bank, pin: string, token: string, secretConfigured: bool,
                  verify: string -> Option<Claims>, compare: (string, string) -> bool,
                  fault: ActivationFault, now: int, frontBaseUrl: Option<string>)
    returns (r: Response)
    requires db.Valid()
    modifies db
    ensures db.Valid()
    ensures db.log == old(db.log) && db.emailIndex == old(db.emailIndex) && db.nextId == old(db.nextId)
    ensures match ActivateSpec(old(db.users), old(db.emailIndex), pin, token, secretConfigured,
                               verify, compare, fault, now, frontBaseUrl)
      case NotActivated(response) => r == response && db.users == old(db.users)
      case Activated(id, response) =>
        && r == response && id in old(db.users)
        && db.users == old(db.users)[id := old(db.users)[id].(status := Active, pinHash := None, expiresAt := None)]
  {
    ghost var spec := ActivateSpec(db.users, db.emailIndex, pin, token, secretConfigured,
                                   verify, compare, fault, now, frontBaseUrl);
    if !IsNonEmptyString(Str(pin)) || !IsNonEmptyString(Str(token)) {
      return Error(400, "Invalid activation data - pin or jwt missing");
    }
    if !secretConfigured {
      return Error(500, "Server misconfigured - secret jwt missing");
    }
    var decoded := verify(token);
    if decoded.None? {
      return Error(400, "Invalid or expired token");
    }
    var email := decoded.value.email;
    if !IsValidEmail(email) {
      return Error(400, "Invalid token payload");
    }
    if fault.LookupThrows? {
      return ActivationFailed(fault.message, frontBaseUrl);
    }
    var found := db.FindByEmail(LowerAscii(email.s));
    if found.None? {
      return Error(400, "User not found");
    }
    var id := found.value;
    assert spec == CheckPin(db.users[id], id, pin, compare, fault, now, frontBaseUrl);
    r := CompleteActivation(db, id, pin, compare, fault, now, frontBaseUrl);
  }

  /**
   * The second half of the activation link, once the user is found: the
   * verification fields, the expiry, the PIN, then the save.
   */
  method CompleteActivation(db: Bank, id: UserId, pin: string, compare: (string, string) -> bool,
                            fault: ActivationFault, now: int, frontBaseUrl: Option<string>)
    returns (r: Response)
    requires db.Valid() && id in db.users
    modifies db
    ensures db.Valid()
    ensures db.log == old(db.log) && db.emailIndex == old(db.emailIndex) && db.nextId == old(db.nextId)
    ensures match CheckPin(old(db.users)[id], id, pin, compare, fault, now, frontBaseUrl)
      case NotActivated(response) => r == response && db.users == old(db.users)
      case Activated(id', response) =>
        && r == response && id' == id
        && db.users == old(db.users)[id := old(db.users)[id].(status := Active, pinHash := None, expiresAt := None)]
  {
    var user := db.users[id];
    if user.pinHash.None? || user.pinHash.value == [] || user.expiresAt.None? {
      return Error(400, "Activation not initialized");
    }
    if user.expiresAt.value < now {
      return Error(400, "PIN expired");
    }
    if !compare(pin, user.pinHash.value) {
      return Error(400, "Invalid PIN");
    }
    if fault.SaveThrows? {
      return ActivationFailed(fault.message, frontBaseUrl);
    }
    db.SetActivated(id);
    r := Redirect(301, FrontBase(frontBaseUrl) + "/login?activated=1");
  }

  /**
   * Activation succeeds exactly when the PIN and token are present, the
   * secret is configured, the token verifies and carries a valid e-mail of
   * a stored user whose verification fields are set and not expired, the
   * PIN matches its hash, and neither the lookup nor the save throws.
   */
  lemma ActivateSucceedsIff(users: map<UserId, User>, index: map<string, UserId>, pin: string, token: string,
                            secretConfigured: bool, verify: string -> Option<Claims>,
                            compare: (string, string) -> bool, fault: ActivationFault, now: int,
                            frontBaseUrl: Option<string>)
    ensures ActivateSpec(users, index, pin, token, secretConfigured, verify, compare, fault, now, frontBaseUrl).Activated? <==>
      && IsNonEmptyString(Str(pin)) && IsNonEmptyString(Str(token)) && secretConfigured
      && verify(token).Some? && IsValidEmail(verify(token).value.email)
      && fault == NoActivationFault
      && LookupEmail(index, LowerAscii(verify(token).value.email.s)).Some?
      && var id := LookupEmail(index, LowerAscii(verify(token).value.email.s)).value;
         && id in users
         && users[id].pinHash.Some? && users[id].pinHash.value != [] && users[id].expiresAt.Some?
         && now <= users[id].expiresAt.value
         && compare(pin, users[id].pinHash.value)
  {
  }

  /**
   * A database error never activates anyone; once the token's payload is
   * accepted, a failed lookup is answered by the 302 redirect to the login
   * page, and every redirect a fault causes is that one.
   */
  lemma ActivationFaultRedirects(users: map<UserId, User>, index: map<string, UserId>, pin: string, token: string,
                                 secretConfigured: bool, verify: string -> Option<Claims>,
                                 compare: (string, string) -> bool, fault: ActivationFault, now: int,
                                 frontBaseUrl: Option<string>)
    requires !fault.NoActivationFault?
    ensures var a := ActivateSpec(users, index, pin, token, secretConfigured, verify, compare, fault, now, frontBaseUrl);
      a.NotActivated? && (a.response.Redirect? ==> a.response == ActivationFailed(fault.message, frontBaseUrl))
    ensures IsNonEmptyString(Str(pin)) && IsNonEmptyString(Str(token)) && secretConfigured
            && verify(token).Some? && IsValidEmail(verify(token).value.email) && fault.LookupThrows? ==>
      ActivateSpec(users, index, pin, token, secretConfigured, verify, compare, fault, now, frontBaseUrl)
        == NotActivated(ActivationFailed(fault.message, frontBaseUrl))
  {
  }

  /**
   * The failure redirect carries the error's message, or "Activation
   * failed", as its `reason` parameter, and decoding that parameter gives
   * the message back.
   */
  lemma ActivationReasonDecodes(message: string, frontBaseUrl: Option<string>)
    ensures var reason := if message == [] then "Activation failed" else message;
      var prefix := CatchBase(frontBaseUrl) + "/login?activated=0&reason=";
      && ActivationFailed(message, frontBaseUrl) == Redirect(302, prefix + Encode(reason))
      && Decode(Encode(reason)) == Some(reason)
  {
    var reason := if message == [] then "Activation failed" else message;
    DecodeEncode(reason);
  }

  /** A PIN past its expiry is refused even when it is the right one. */
  lemma ExpiredPinRefused(u: User, id: UserId, pin: string, compare: (string, string) -> bool,
                          fault: ActivationFault, now: int, frontBaseUrl: Option<string>)
    requires u.pinHash.Some? && u.pinHash.value != [] && u.expiresAt.Some?
    requires u.expiresAt.value < now
    ensures CheckPin(u, id, pin, compare, fault, now, frontBaseUrl) == NotActivated(Error(400, "PIN expired"))
  {
  }

  /**
   * Activating clears the verification fields, so the same link used a
   * second time is refused as "Activation not initialized".
   */
  lemma SecondActivationRefused(users: map<UserId, User>, index: map<string, UserId>, pin: string, token: string,
                                secretConfigured: bool, verify: string -> Option<Claims>,
                                compare: (string, string) -> bool, now: int, later: int,
                                frontBaseUrl: Option<string>)
    requires ActivateSpec(users, index, pin, token, secretConfigured, verify, compare,
                          NoActivationFault, now, frontBaseUrl).Activated?
    ensures var id := ActivateSpec(users, index, pin, token, secretConfigured, verify, compare,
                                   NoActivationFault, now, frontBaseUrl).id;
      var users' := users[id := users[id].(status := Active, pinHash := None, expiresAt := None)];
      ActivateSpec(users', index, pin, token, secretConfigured, verify, compare,
                   NoActivationFault, later, frontBaseUrl)
        == NotActivated(Error(400, "Activation not initialized"))
  {
  }

  // ---------------------------------------------------------------------------
  // POST /login
  // ---------------------------------------------------------------------------

  /** What `POST /login` answers; it changes nothing. */
  function LoginSpec(users: map<UserId, User>, index: map<string, UserId>, email: JsValue, password: JsValue,
                     compare: (string, string) -> bool, secretConfigured: bool, sign: Claims -> string): Response
  {
    if !IsValidEmail(email) || !IsNonEmptyString(password) then Error(400, "Invalid request body")
    else match LookupEmail(index, LowerAscii(email.s))
      case None => Error(401, "User not found")
      case Some(id) =>
        if id !in users then Error(401, "User not found")
        else if users[id].status == Inactive then Error(401, "Account not activated")
        else if !compare(password.s, users[id].password) then Error(401, "Password is incorrect")
        else if !secretConfigured then ServerError(0, "JWT secret not configured")
        else Json(200, TokenBody("User logged successfully", sign(Claims(Some(id), Str(users[id].email)))))
  }

  /**
   * `POST /login`: the body check, the user by lower-cased e-mail, the
   * status check (only "inactive" is refused), the password, then a token
   * signed over the user's id and e-mail.
   */
  method Login(db: Bank, email: JsValue, password: JsValue, compare: (string, string) -> bool,
               secretConfigured: bool, sign: Claims -> string)
    returns (r: Response)
    requires db.Valid()
    ensures r == LoginSpec(db.users, db.emailIndex, email, password, compare, secretConfigured, sign)
  {
    if !IsValidEmail(email) || !IsNonEmptyString(password) {
      return Error(400, "Invalid request body");
    }
    var found := db.FindByEmail(LowerAscii(email.s));
    if found.None? {
      return Error(401, "User not found");
    }
    var id := found.value;
    var user := db.users[id];
    if user.status == Inactive {
      return Error(401, "Account not activated");
    }
    if !compare(password.s, user.password) {
      return Error(401, "Password is incorrect");
    }
    if !secretConfigured {
      return ServerError(0, "JWT secret not configured");
    }
    r := Json(200, TokenBody("User logged successfully", sign(Claims(Some(id), Str(user.email)))));
  }

  /**
   * Login succeeds exactly for a stored user, found by the normalised
   * e-mail, who is not inactive (a blocked user passes) and whose password
   * matches; the token is signed over that user's id and stored e-mail.
   */
  lemma LoginSucceedsIff(users: map<UserId, User>, index: map<string, UserId>, log: seq<Tx>, nextId: UserId,
                         email: JsValue, password: JsValue, compare: (string, string) -> bool,
                         secretConfigured: bool, sign: Claims -> string)
    requires Consistent(users, index, log, nextId)
    ensures var r := LoginSpec(users, index, email, password, compare, secretConfigured, sign);
      r.status == 200 <==>
        && IsValidEmail(email) && IsNonEmptyString(password) && secretConfigured
        && exists id :: id in users && users[id].email == NormalizeEmail(email.s)
             && users[id].status != Inactive && compare(password.s, users[id].password)
    ensures var r := LoginSpec(users, index, email, password, compare, secretConfigured, sign);
      r.status == 200 ==>
        exists id :: id in users && users[id].email == NormalizeEmail(email.s)
          && r == Json(200, TokenBody("User logged successfully", sign(Claims(Some(id), Str(users[id].email)))))
  {
    var r := LoginSpec(users, index, email, password, compare, secretConfigured, sign);
    if email.Str? {
      LookupEmailFinds(users, index, log, nextId, LowerAscii(email.s));
      NormalizeEmailIdempotent(email.s);
      var l := LookupEmail(index, LowerAscii(email.s));
      if l.Some? {
        var id := l.value;
        forall j | j in users && users[j].email == NormalizeEmail(email.s) ensures j == id {
          assert index[users[j].email] == j;
        }
      }
    }
  }

  /** A user who has just been activated is past the status check of login. */
  lemma ActivatedUserPassesStatusCheck(users: map<UserId, User>, index: map<string, UserId>, id: UserId,
                                       email: JsValue, password: JsValue, compare: (string, string) -> bool,
                                       secretConfigured: bool, sign: Claims -> string)
    requires id in users
    requires IsValidEmail(email) && IsNonEmptyString(password)
    requires LookupEmail(index, LowerAscii(email.s)) == Some(id)
    ensures var users' := users[id := users[id].(status := Active, pinHash := None, expiresAt := None)];
      LoginSpec(users', index, email, password, compare, secretConfigured, sign)
        != Error(401, "Account not activated")
  {
  }
}
