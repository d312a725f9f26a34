/**
 * backend/controllers/userControllers.go: the signup, login and refresh
 * handlers and the single-user lookup.
 *
 * Each handler is a step function from the stored documents and the request to
 * the new documents and what was written back (`SignupStep`, `LoginStep`,
 * `RefreshStep`), and a method that performs the same steps on the collection in
 * the handler's own order and is proved to end in that state.
 */
module Controllers {
  import opened Wrappers
  import opened Text
  import opened Jwt
  import opened Bcrypt
  import opened Models
  import opened Store
  import opened Helpers
  import opened Middleware

  /** The JSON body of a response. */
  datatype Body =
    | Error(message: string)                     // {"error": message}
    | ErrorValue(err: BcryptError)               // {"error": err}, bcrypt's error value itself
    | Message(message: string)                   // {"message": message}
    | LoginBody(user: User, token: string, refreshToken: string)
    | TokenPair(accessToken: string, refreshToken: string)
    | UserBody(user: User)
    | Recovered                                  // gin's recovery after a nil-pointer panic

  datatype Response = Response(status: nat, body: Body)

  /** What gin's recovery middleware answers after a handler panics. */
  const Recovery := Response(500, Recovered)

  /**
   * The success message of Signup. Its 200 reaches the client only when it is the
   * first response written: gin keeps the status of the first write.
   */
  const Created := Response(200, Message("User created successfully"))

  /** A signup body; a field missing from the JSON stays a nil pointer. */
  datatype SignupRequest = SignupRequest(username: Option<string>, fullname: Option<string>, password: Option<string>)

  /** A login body. */
  datatype LoginRequest = LoginRequest(username: Option<string>, password: Option<string>)

  // ---------------------------------------------------------------- Signup

  /** A request password `HashPassword` hashes without panicking: present and at most 72 bytes. */
  predicate PasswordHashable(password: Option<string>) {
    password.Some? && Utf8Length(password.value) <= MaxPasswordBytes
  }

  /**
   * `Signup()` with the fresh ObjectID hex `newId`, the bcrypt salt `salt`, and
   * `insertError` the error `InsertOne` reports, if any. The responses are every
   * JSON body written, in order.
   */
  function SignupStep(docs: map<string, User>, req: SignupRequest, newId: string, salt: string,
                      insertError: Option<string>, key: string, mac: Mac, kdf: Kdf, now: nat)
    : (r: (map<string, User>, seq<Response>))
    requires newId !in docs && |salt| == SaltLength
    ensures r.0 == docs || (newId in r.0 && r.0 == docs[newId := r.0[newId]])
    ensures |r.1| > 0
    ensures r.1[|r.1| - 1] == Created
        <==> CountByUsername(docs, req.username) == 0 && req.username.Some? && PasswordHashable(req.password)
  {
    if CountByUsername(docs, req.username) > 0 then
      (docs, [Response(400, Error("Username already exists"))])
    else
      match HashPassword(salt, req.password, kdf)
      case None =>
        (docs, [Recovery])
      case Some(hashed) =>
        if req.username.None? then
          (docs, [Recovery])
        else
          var tokens := GenerateToken(key, mac, newId, req.username.value, now);
          var user := User(newId, req.username.value, req.fullname, hashed,
                           Some(tokens.0), Some(tokens.1), now, now);
          if insertError.Some? then
            (docs, [Response(400, Error(insertError.value)), Created])
          else
            (docs[newId := user], [Created])
  }

  /** A taken username is refused with "Username already exists" and nothing is inserted. */
  lemma SignupRejectsDuplicate(docs: map<string, User>, req: SignupRequest, newId: string, salt: string,
                               insertError: Option<string>, key: string, mac: Mac, kdf: Kdf, now: nat)
    requires newId !in docs && |salt| == SaltLength
    requires exists id :: id in docs && NameMatches(docs, id, req.username)
    ensures SignupStep(docs, req, newId, salt, insertError, key, mac, kdf, now)
         == (docs, [Response(400, Error("Username already exists"))])
  {
  }

  /**
   * A successful signup inserts exactly one document, under `newId`, holding the
   * bcrypt hash of the password (which verifies against it), the given names, and
   * the pair generated for its own user_id and username at `now`.
   */
  lemma SignupCreates(docs: map<string, User>, req: SignupRequest, newId: string, salt: string,
                      key: string, mac: Mac, kdf: Kdf, now: nat)
    requires newId !in docs && |salt| == SaltLength
    requires CountByUsername(docs, req.username) == 0 && req.username.Some? && PasswordHashable(req.password)
    ensures var (docs', responses) := SignupStep(docs, req, newId, salt, None, key, mac, kdf, now);
      && responses == [Created]
      && docs'.Keys == docs.Keys + {newId}
      && (forall id :: id in docs ==> docs'[id] == docs[id])
      && docs'[newId].userId == newId
      && Some(docs'[newId].username) == req.username
      && docs'[newId].fullname == req.fullname
      && Some(docs'[newId].password) == HashPassword(salt, req.password, kdf)
      && VerifyPassword(docs'[newId].password, req.password.value, kdf) == (true, None)
      && (docs'[newId].token.value, docs'[newId].refreshToken.value)
         == GenerateToken(key, mac, newId, req.username.value, now)
  {
    HashPasswordVerifies(salt, req.password.value, req.password.value, kdf);
  }

  /**
   * When the insert fails the handler writes the error but does not return, so
   * the success body follows it; nothing is stored. The client receives status
   * 400, the first one written, with both bodies.
   */
  lemma SignupInsertFailureAlsoReportsSuccess(docs: map<string, User>, req: SignupRequest, newId: string,
                                              salt: string, message: string, key: string, mac: Mac,
                                              kdf: Kdf, now: nat)
    requires newId !in docs && |salt| == SaltLength
    requires CountByUsername(docs, req.username) == 0 && req.username.Some? && PasswordHashable(req.password)
    ensures SignupStep(docs, req, newId, salt, Some(message), key, mac, kdf, now)
         == (docs, [Response(400, Error(message)), Created])
  {
  }

  /** A signup body missing its password or its username makes the handler panic; nothing is stored. */
  lemma SignupNilFieldPanics(docs: map<string, User>, req: SignupRequest, newId: string, salt: string,
                             insertError: Option<string>, key: string, mac: Mac, kdf: Kdf, now: nat)
    requires newId !in docs && |salt| == SaltLength
    requires CountByUsername(docs, req.username) == 0
    requires req.password.None? || req.username.None?
    ensures SignupStep(docs, req, newId, salt, insertError, key, mac, kdf, now) == (docs, [Recovery])
  {
  }

  /**
   * A password over 72 bytes makes bcrypt fail and `HashPassword` panic; nothing
   * is stored, whatever the username.
   */
  lemma SignupPasswordTooLongPanics(docs: map<string, User>, req: SignupRequest, newId: string, salt: string,
                                    insertError: Option<string>, key: string, mac: Mac, kdf: Kdf, now: nat)
    requires newId !in docs && |salt| == SaltLength
    requires CountByUsername(docs, req.username) == 0
    requires req.password.Some? && Utf8Length(req.password.value) > MaxPasswordBytes
    ensures SignupStep(docs, req, newId, salt, insertError, key, mac, kdf, now) == (docs, [Recovery])
  {
  }

  /**
   * The declared field rules are not enforced: a one-character username, no
   * fullname and a one-character password break every rule and are still
   * stored.
   */
  lemma SignupIgnoresDeclaredRules(newId: string, salt: string, key: string, mac: Mac, kdf: Kdf, now: nat)
    requires |salt| == SaltLength
    ensures var req := SignupRequest(Some("a"), None, Some("x"));
      && !DeclaredRules(req.username, req.fullname, req.password)
      && var (docs', responses) := SignupStep(map[], req, newId, salt, None, key, mac, kdf, now);
         responses == [Created] && newId in docs' && docs'[newId].username == "a"
  {
    var req := SignupRequest(Some("a"), None, Some("x"));
    assert CountByUsername(map[], req.username) == 0;
  }

  /** Signup keeps user_ids as keys, usernames unique and every document holding a pair. */
  lemma SignupPreservesValid(docs: map<string, User>, req: SignupRequest, newId: string, salt: string,
                             insertError: Option<string>, key: string, mac: Mac, kdf: Kdf, now: nat)
    requires newId !in docs && |salt| == SaltLength
    requires WellFormed(docs) && HoldsPairs(docs)
    ensures var docs' := SignupStep(docs, req, newId, salt, insertError, key, mac, kdf, now).0;
      WellFormed(docs') && HoldsPairs(docs')
  {
    var docs' := SignupStep(docs, req, newId, salt, insertError, key, mac, kdf, now).0;
    if docs' != docs {
      forall a, b | a in docs' && b in docs' && docs'[a].username == docs'[b].username
        ensures a == b
      {
        if a == newId && b != newId {
          assert NameMatches(docs, b, req.username);
        } else if b == newId && a != newId {
          assert NameMatches(docs, a, req.username);
        }
      }
    }
  }

  /** `Signup()` on the collection, step by step as the handler runs. */
  method Signup(db: UsersCollection, cfg: KeyConfig, req: SignupRequest, newId: string, salt: string,
                insertError: Option<string>, mac: Mac, kdf: Kdf, now: nat)
    returns (responses: seq<Response>)
    requires db.Valid() && newId !in db.docs && |salt| == SaltLength
    modifies db
    ensures db.Valid()
    ensures (db.docs, responses)
         == SignupStep(old(db.docs), req, newId, salt, insertError, cfg.jwtKey, mac, kdf, now)
  {
    SignupPreservesValid(db.docs, req, newId, salt, insertError, cfg.jwtKey, mac, kdf, now);
    var count := CountByUsername(db.docs, req.username);
    if count > 0 {
      return [Response(400, Error("Username already exists"))];
    }
    var hashed := HashPassword(salt, req.password, kdf);
    if hashed.None? {
      return [Recovery];
    }
    var password := hashed.value;
    var createdAt := now;
    var updatedAt := now;
    var userId := newId;
    if req.username.None? {
      return [Recovery];
    }
    var tokens := GenerateToken(cfg.GetJWTKey(), mac, userId, req.username.value, now);
    var user := User(userId, req.username.value, req.fullname, password, Some(tokens.0), Some(tokens.1),
                     createdAt, updatedAt);
    assert tokens == GenerateToken(cfg.jwtKey, mac, newId, req.username.value, now);
    assert Some(user.password) == HashPassword(salt, req.password, kdf);
    responses := [];
    if insertError.Some? {
      responses := [Response(400, Error(insertError.value))];
    } else {
      db.docs := db.docs[userId := user];
    }
    responses := responses + [Created];
    assert insertError.None? ==> db.docs == old(db.docs)[newId := user];
    assert responses == SignupStep(old(db.docs), req, newId, salt, insertError, cfg.jwtKey, mac, kdf, now).1;
    assert db.docs == SignupStep(old(db.docs), req, newId, salt, insertError, cfg.jwtKey, mac, kdf, now).0;
  }

  // ---------------------------------------------------------------- Login

  /** `Login()` at clock second `now`. */
  ghost function LoginStep(docs: map<string, User>, req: LoginRequest, key: string, mac: Mac, kdf: Kdf, now: nat)
    : (r: (map<string, User>, Response))
    ensures r.0.Keys == docs.Keys
    ensures r.1.status == 200 ==> r.1.body.LoginBody?
  {
    match FindByUsername(docs, req.username)
    case None =>
      (docs, Response(400, Error("Invalid username. User is not found")))
    case Some(found) =>
      if req.password.None? then
        (docs, Recovery)
      else
        var check := VerifyPassword(found.password, req.password.value, kdf);
        if !check.0 then
          (docs, Response(401, ErrorValue(check.1.value)))
        else
          var tokens := GenerateToken(key, mac, found.userId, found.username, now);
          var docs' := WithTokens(docs, tokens.0, tokens.1, found.userId, now);
          match FindByUsername(docs', Some(found.username))
          case None => (docs', Response(400, Error("user is not found")))
          case Some(again) => (docs', Response(200, LoginBody(again, tokens.0, tokens.1)))
  }

  /** An unknown username is answered 400 with "Invalid username. User is not found"; nothing changes. */
  lemma LoginUnknownUser(docs: map<string, User>, req: LoginRequest, key: string, mac: Mac, kdf: Kdf, now: nat)
    requires forall id :: id in docs ==> !NameMatches(docs, id, req.username)
    ensures LoginStep(docs, req, key, mac, kdf, now)
         == (docs, Response(400, Error("Invalid username. User is not found")))
  {
  }

  /** A login body without a password makes the handler panic once the username is found; nothing changes. */
  lemma LoginNilPasswordPanics(docs: map<string, User>, req: LoginRequest, key: string, mac: Mac, kdf: Kdf,
                               now: nat, id: string)
    requires WellFormed(docs) && id in docs && NameMatches(docs, id, req.username)
    requires req.password.None?
    ensures LoginStep(docs, req, key, mac, kdf, now) == (docs, Recovery)
  {
    FindByUsernameUnique(docs, req.username, id);
  }

  /**
   * A wrong password for a known username is answered 401 with bcrypt's error,
   * a different status and body from the unknown-username answer; nothing
   * changes.
   */
  lemma LoginWrongPassword(docs: map<string, User>, req: LoginRequest, key: string, mac: Mac, kdf: Kdf,
                           now: nat, id: string)
    requires WellFormed(docs) && id in docs && NameMatches(docs, id, req.username)
    requires req.password.Some? && !VerifyPassword(docs[id].password, req.password.value, kdf).0
    ensures LoginStep(docs, req, key, mac, kdf, now)
         == (docs, Response(401, ErrorValue(CompareHashAndPassword(docs[id].password, req.password.value, kdf).value)))
    ensures LoginStep(docs, req, key, mac, kdf, now).1.status != 400
  {
    FindByUsernameUnique(docs, req.username, id);
  }

  /**
   * A successful login at `now` overwrites the user's stored pair with the pair
   * generated for the user at `now`, changes no other document, and returns
   * that same pair together with the user's updated document (password hash
   * included).
   */
  lemma LoginIssuesAndStores(docs: map<string, User>, req: LoginRequest, key: string, mac: Mac, kdf: Kdf,
                             now: nat, id: string)
    requires WellFormed(docs) && id in docs && NameMatches(docs, id, req.username)
    requires req.password.Some? && VerifyPassword(docs[id].password, req.password.value, kdf).0
    ensures var tokens := GenerateToken(key, mac, id, docs[id].username, now);
      var docs' := WithTokens(docs, tokens.0, tokens.1, id, now);
      && LoginStep(docs, req, key, mac, kdf, now) == (docs', Response(200, LoginBody(docs'[id], tokens.0, tokens.1)))
      && docs'[id].token == Some(tokens.0) && docs'[id].refreshToken == Some(tokens.1)
      && docs'[id].password == docs[id].password
      && (forall other :: other in docs && other != id ==> docs'[other] == docs[other])
  {
    FindByUsernameUnique(docs, req.username, id);
    var tokens := GenerateToken(key, mac, id, docs[id].username, now);
    var docs' := WithTokens(docs, tokens.0, tokens.1, id, now);
    WithTokensPreservesValid(docs, tokens.0, tokens.1, id, now);
    assert NameMatches(docs', id, Some(docs[id].username));
    FindByUsernameUnique(docs', Some(docs[id].username), id);
  }

  /** Login keeps user_ids as keys, usernames unique and every document holding a pair. */
  lemma LoginPreservesValid(docs: map<string, User>, req: LoginRequest, key: string, mac: Mac, kdf: Kdf, now: nat)
    requires WellFormed(docs) && HoldsPairs(docs)
    ensures var docs' := LoginStep(docs, req, key, mac, kdf, now).0;
      WellFormed(docs') && HoldsPairs(docs')
  {
    match FindByUsername(docs, req.username)
    case None =>
    case Some(found) =>
      if req.password.Some? && VerifyPassword(found.password, req.password.value, kdf).0 {
        var tokens := GenerateToken(key, mac, found.userId, found.username, now);
        WithTokensPreservesValid(docs, tokens.0, tokens.1, found.userId, now);
      }
  }

  /** `Login()` on the collection, step by step as the handler runs. */
  method Login(db: UsersCollection, cfg: KeyConfig, req: LoginRequest, kdf: Kdf, mac: Mac, now: nat)
    returns (response: Response)
    requires db.Valid()
    modifies db
    ensures db.Valid()
    ensures (db.docs, response) == LoginStep(old(db.docs), req, cfg.jwtKey, mac, kdf, now)
  {
    LoginPreservesValid(db.docs, req, cfg.jwtKey, mac, kdf, now);
    if CountByUsername(db.docs, req.username) == 0 {
      return Response(400, Error("Invalid username. User is not found"));
    }
    var id :| id in db.docs && NameMatches(db.docs, id, req.username);
    var foundUser := db.docs[id];
    FindByUsernameUnique(db.docs, req.username, id);
    if req.password.None? {
      return Recovery;
    }
    var passwordIsValid, msg := VerifyPassword(foundUser.password, req.password.value, kdf).0,
                                VerifyPassword(foundUser.password, req.password.value, kdf).1;
    if !passwordIsValid {
      return Response(401, ErrorValue(msg.value));
    }
    LoginIssuesAndStores(db.docs, req, cfg.jwtKey, mac, kdf, now, id);
    var tokens := GenerateToken(cfg.GetJWTKey(), mac, foundUser.userId, foundUser.username, now);
    UpdateAllToken(db, tokens.0, tokens.1, foundUser.userId, now);
    assert NameMatches(db.docs, foundUser.userId, Some(foundUser.username));
    var againId :| againId in db.docs && NameMatches(db.docs, againId, Some(foundUser.username));
    var checkUserAgain := db.docs[againId];
    response := Response(200, LoginBody(checkUserAgain, tokens.0, tokens.1));
  }

  // ---------------------------------------------------------------- Refresh

  /** `RefreshTokenHandler()` for an `Authorization` header at clock second `now`. */
  function RefreshStep(docs: map<string, User>, header: string, key: string, mac: Mac, now: nat)
    : (r: (map<string, User>, Response))
    ensures r.0.Keys == docs.Keys
    ensures header == "" ==> r == (docs, Response(401, Error("refresh token is required")))
    ensures r.1.status != 200 ==> r.0 == docs
    ensures var v := ValidateToken(PresentedToken(header), key, mac, now);
      header != "" && v.Failure? ==> r == (docs, Response(401, Error("relogin")))
    ensures var v := ValidateToken(PresentedToken(header), key, mac, now);
      header != "" && v.Success? && v.value.userId !in docs ==> r == (docs, Response(401, Error("user is not found")))
    ensures var token := PresentedToken(header);
      var v := ValidateToken(token, key, mac, now);
      header != "" && v.Success? && v.value.userId in docs
      && docs[v.value.userId].refreshToken.Some? && docs[v.value.userId].refreshToken.value != token
      ==> r == (docs, Response(401, Error("wrong refresh token is used")))
    ensures var v := ValidateToken(PresentedToken(header), key, mac, now);
      r.1 == Recovery
      <==> header != "" && v.Success? && v.value.userId in docs && docs[v.value.userId].refreshToken.None?
    ensures r.1.status == 200 ==> r.1.body.TokenPair?
    ensures r.1.status == 200 ==>
      var token := PresentedToken(header);
      var claims := ValidateToken(token, key, mac, now);
      claims.Success? && claims.value.userId in docs && docs[claims.value.userId].refreshToken == Some(token)
  {
    if header == "" then
      (docs, Response(401, Error("refresh token is required")))
    else
      var token := PresentedToken(header);
      match ValidateToken(token, key, mac, now)
      case Failure(_) =>
        (docs, Response(401, Error("relogin")))
      case Success(claims) =>
        match FindByUserId(docs, claims.userId)
        case None =>
          (docs, Response(401, Error("user is not found")))
        case Some(user) =>
          if user.refreshToken.None? then
            (docs, Recovery)
          else if user.refreshToken.value != token then
            (docs, Response(401, Error("wrong refresh token is used")))
          else
            var tokens := GenerateToken(key, mac, user.userId, user.username, now);
            (WithTokens(docs, tokens.0, tokens.1, user.userId, now), Response(200, TokenPair(tokens.0, tokens.1)))
  }

  /** Every validation failure, expired or not, is answered "relogin"; nothing changes. */
  lemma RefreshRelogin(docs: map<string, User>, header: string, key: string, mac: Mac, now: nat)
    requires header != "" && ValidateToken(PresentedToken(header), key, mac, now).Failure?
    ensures RefreshStep(docs, header, key, mac, now) == (docs, Response(401, Error("relogin")))
  {
  }

  /**
   * A correctly signed, unexpired token whose user holds another refresh token
   * is answered 401 "wrong refresh token is used", and nothing changes.
   */
  lemma RefreshWrongToken(docs: map<string, User>, header: string, key: string, mac: Mac, now: nat, c: Claims)
    requires header != "" && PresentedToken(header) == SignedString(c, key, mac) && !ExpiredAt(c, now)
    requires c.userId in docs && docs[c.userId].refreshToken.Some?
    requires docs[c.userId].refreshToken.value != PresentedToken(header)
    ensures RefreshStep(docs, header, key, mac, now) == (docs, Response(401, Error("wrong refresh token is used")))
  {
    ValidateTokenAccepts(PresentedToken(header), key, mac, now, c);
  }

  /**
   * A refresh succeeds exactly when the presented token is the correctly signed,
   * unexpired token stored as its user's refresh token; the user's pair is then
   * replaced by the pair generated at `now`, which is also returned.
   */
  lemma RefreshRotates(docs: map<string, User>, header: string, key: string, mac: Mac, now: nat, c: Claims)
    requires WellFormed(docs)
    requires header != "" && PresentedToken(header) == SignedString(c, key, mac) && !ExpiredAt(c, now)
    ensures var token := PresentedToken(header);
      RefreshStep(docs, header, key, mac, now).1.status == 200
      <==> c.userId in docs && docs[c.userId].refreshToken == Some(token)
    ensures c.userId in docs && docs[c.userId].refreshToken == Some(PresentedToken(header)) ==>
      var tokens := GenerateToken(key, mac, c.userId, docs[c.userId].username, now);
      RefreshStep(docs, header, key, mac, now)
        == (WithTokens(docs, tokens.0, tokens.1, c.userId, now), Response(200, TokenPair(tokens.0, tokens.1)))
  {
    ValidateTokenAccepts(PresentedToken(header), key, mac, now, c);
  }

  /** Refresh keeps user_ids as keys, usernames unique and every document holding a pair. */
  lemma RefreshPreservesValid(docs: map<string, User>, header: string, key: string, mac: Mac, now: nat)
    requires WellFormed(docs) && HoldsPairs(docs)
    ensures var docs' := RefreshStep(docs, header, key, mac, now).0;
      WellFormed(docs') && HoldsPairs(docs')
  {
    var docs' := RefreshStep(docs, header, key, mac, now).0;
    var token := PresentedToken(header);
    var v := ValidateToken(token, key, mac, now);
    if header != "" && v.Success? && v.value.userId in docs {
      var user := docs[v.value.userId];
      var tokens := GenerateToken(key, mac, user.userId, user.username, now);
      WithTokensPreservesValid(docs, tokens.0, tokens.1, user.userId, now);
      assert docs' == docs || docs' == WithTokens(docs, tokens.0, tokens.1, user.userId, now);
    } else {
      assert docs' == docs;
    }
  }

  /** `RefreshTokenHandler()` on the collection, step by step as the handler runs. */
  method RefreshTokenHandler(db: UsersCollection, cfg: KeyConfig, header: string, mac: Mac, now: nat)
    returns (response: Response)
    requires db.Valid()
    modifies db
    ensures db.Valid()
    ensures (db.docs, response) == RefreshStep(old(db.docs), header, cfg.jwtKey, mac, now)
  {
    RefreshPreservesValid(db.docs, header, cfg.jwtKey, mac, now);
    if header == "" {
      return Response(401, Error("refresh token is required"));
    }
    var authHeader := PresentedToken(header);
    var validated := ValidateToken(authHeader, cfg.GetJWTKey(), mac, now);
    if validated.Failure? {
      return Response(401, Error("relogin"));
    }
    var userId := validated.value.userId;
    var found := FindByUserId(db.docs, userId);
    if found.None? {
      return Response(401, Error("user is not found"));
    }
    var user := found.value;
    if user.refreshToken.None? {
      return Recovery;
    }
    if user.refreshToken.value != authHeader {
      return Response(401, Error("wrong refresh token is used"));
    }
    var tokens := GenerateToken(cfg.GetJWTKey(), mac, user.userId, user.username, now);
    UpdateAllToken(db, tokens.0, tokens.1, user.userId, now);
    response := Response(200, TokenPair(tokens.0, tokens.1));
  }

  // ---------------------------------------------------------------- GetUser

  /** `GetUser()` for the path parameter `id`: the stored document, or 404 "User not found". */
  function GetUser(docs: map<string, User>, id: string): (r: Response)
    ensures r.status == 200 <==> id in docs
    ensures r.status == 200 ==> r.body == UserBody(docs[id])
    ensures r.status != 200 ==> r == Response(404, Error("User not found"))
  {
    match FindByUserId(docs, id)
    case None => Response(404, Error("User not found"))
    case Some(user) => Response(200, UserBody(user))
  }
}
