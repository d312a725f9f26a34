/**
 * Properties of whole sessions: what the gate and the refresh handler accept
 * after the signup, login and refresh handlers have stored a pair. The
 * invariant behind them: only the pair written last for a user is accepted,
 * because both checks compare the presented token with the stored one
 * byte for byte.
 */
module Sessions {
  import opened Wrappers
  import opened Text
  import opened Jwt
  import opened Bcrypt
  import opened Models
  import opened Store
  import opened Helpers
  import opened Middleware
  import opened Controllers

  /** A token the service signs starts with the JWT header, never with "Bearer ". */
  lemma SignedNotBearer(c: Claims, key: string, mac: Mac)
    ensures PresentedToken(SignedString(c, key, mac)) == SignedString(c, key, mac)
    ensures PresentedToken(BearerPrefix + SignedString(c, key, mac)) == SignedString(c, key, mac)
  {
    var t := SignedString(c, key, mac);
    assert t[0] == Header[0];
    assert (BearerPrefix + t)[|BearerPrefix|..] == t;
  }

  /** The document a successful login wrote to, with the password check it passed. */
  lemma LoginSuccessUser(docs: map<string, User>, req: LoginRequest, key: string, mac: Mac, kdf: Kdf, now: nat)
    returns (id: string)
    requires WellFormed(docs)
    requires LoginStep(docs, req, key, mac, kdf, now).1.status == 200
    ensures id in docs && NameMatches(docs, id, req.username)
    ensures req.password.Some? && VerifyPassword(docs[id].password, req.password.value, kdf).0
  {
    assert CountByUsername(docs, req.username) > 0;
    id :| id in docs && NameMatches(docs, id, req.username);
    FindByUsernameUnique(docs, req.username, id);
  }

  /**
   * The access token a login returns passes the gate, with or without the
   * "Bearer " prefix, until 15 minutes after the login, with the claims it was
   * issued with.
   */
  lemma LoginAccessAccepted(docs: map<string, User>, req: LoginRequest, key: string, mac: Mac, kdf: Kdf,
                            issued: nat, now: nat)
    requires WellFormed(docs)
    requires LoginStep(docs, req, key, mac, kdf, issued).1.status == 200
    requires now <= issued + AccessLifetime
    ensures var (docs', response) := LoginStep(docs, req, key, mac, kdf, issued);
      var id := response.body.user.userId;
      && id in docs'
      && Authenticate(BearerPrefix + response.body.token, docs', key, mac, now)
         == Next(AccessClaims(id, docs'[id].username, issued))
      && Authenticate(response.body.token, docs', key, mac, now)
         == Next(AccessClaims(id, docs'[id].username, issued))
  {
    var id := LoginSuccessUser(docs, req, key, mac, kdf, issued);
    LoginIssuesAndStores(docs, req, key, mac, kdf, issued, id);
    var c := AccessClaims(id, docs[id].username, issued);
    SignedNotBearer(c, key, mac);
    var token := SignedString(c, key, mac);
    var docs' := LoginStep(docs, req, key, mac, kdf, issued).0;
    AuthenticateAllows(BearerPrefix + token, docs', key, mac, now, c);
    AuthenticateAllows(token, docs', key, mac, now, c);
  }

  /**
   * After a second login for the same user, the access token of the first is
   * refused as the wrong token while it has not expired; it is accepted only if
   * both logins happened in the same clock second, when the two tokens are the
   * same string.
   */
  lemma ReloginSupersedes(docs: map<string, User>, req: LoginRequest, key: string, mac: Mac, kdf: Kdf,
                          t1: nat, t2: nat, now: nat)
    requires WellFormed(docs)
    requires LoginStep(docs, req, key, mac, kdf, t1).1.status == 200
    requires LoginStep(LoginStep(docs, req, key, mac, kdf, t1).0, req, key, mac, kdf, t2).1.status == 200
    ensures var (docs1, first) := LoginStep(docs, req, key, mac, kdf, t1);
      var docs2 := LoginStep(docs1, req, key, mac, kdf, t2).0;
      var outcome := Authenticate(BearerPrefix + first.body.token, docs2, key, mac, now);
      && (outcome.Next? <==> t1 == t2 && now <= t1 + AccessLifetime)
      && (t1 != t2 && now <= t1 + AccessLifetime ==> outcome == Abort(401, "Wrong access token used"))
  {
    var id := LoginSuccessUser(docs, req, key, mac, kdf, t1);
    LoginIssuesAndStores(docs, req, key, mac, kdf, t1, id);
    var docs1 := LoginStep(docs, req, key, mac, kdf, t1).0;
    var pair := GenerateToken(key, mac, id, docs[id].username, t1);
    WithTokensPreservesValid(docs, pair.0, pair.1, id, t1);
    assert NameMatches(docs1, id, req.username);
    LoginIssuesAndStores(docs1, req, key, mac, kdf, t2, id);
    var docs2 := LoginStep(docs1, req, key, mac, kdf, t2).0;
    var name := docs[id].username;
    var c := AccessClaims(id, name, t1);
    var token := SignedString(c, key, mac);
    SignedNotBearer(c, key, mac);
    GenerateTokenCollides(key, mac, id, name, t1, id, name, t2);
    var outcome := Authenticate(BearerPrefix + token, docs2, key, mac, now);
    AuthenticateAllows(BearerPrefix + token, docs2, key, mac, now, c);
    if outcome.Next? {
      AuthenticateAllows(BearerPrefix + token, docs2, key, mac, now, outcome.claims);
      SignedStringInjective(c, outcome.claims, key, mac);
    }
    if t1 != t2 && now <= t1 + AccessLifetime {
      SupersededRefused(BearerPrefix + token, docs2, key, mac, now, c);
    }
  }

  /**
   * The refresh token of a stored pair does not pass the gate: neither check
   * reads the token type, but it is not the stored access token.
   */
  lemma RefreshTokenRefusedAtGate(docs: map<string, User>, id: string, key: string, mac: Mac,
                                  issued: nat, now: nat)
    requires id in docs
    ensures var tokens := GenerateToken(key, mac, id, docs[id].username, issued);
      var docs' := WithTokens(docs, tokens.0, tokens.1, id, issued);
      var outcome := Authenticate(BearerPrefix + tokens.1, docs', key, mac, now);
      && !outcome.Next?
      && (now <= issued + RefreshLifetime ==> outcome == Abort(401, "Wrong access token used"))
  {
    var name := docs[id].username;
    var tokens := GenerateToken(key, mac, id, name, issued);
    var docs' := WithTokens(docs, tokens.0, tokens.1, id, issued);
    var refresh := RefreshClaims(id, name, issued);
    SignedNotBearer(refresh, key, mac);
    AccessNeverRefresh(key, mac, id, name, issued, id, name, issued);
    var header := BearerPrefix + tokens.1;
    var outcome := Authenticate(header, docs', key, mac, now);
    if outcome.Next? {
      AuthenticateAllows(header, docs', key, mac, now, outcome.claims);
      SignedStringInjective(refresh, outcome.claims, key, mac);
    }
    if now <= issued + RefreshLifetime {
      SupersededRefused(header, docs', key, mac, now, refresh);
    }
  }

  /**
   * The access token of a stored pair is refused by the refresh handler, as the
   * wrong refresh token while it has not expired.
   */
  lemma AccessTokenRefusedAtRefresh(docs: map<string, User>, id: string, key: string, mac: Mac,
                                    issued: nat, now: nat)
    requires WellFormed(docs) && id in docs
    ensures var tokens := GenerateToken(key, mac, id, docs[id].username, issued);
      var docs' := WithTokens(docs, tokens.0, tokens.1, id, issued);
      && RefreshStep(docs', BearerPrefix + tokens.0, key, mac, now).1.status != 200
      && (now <= issued + AccessLifetime ==>
            RefreshStep(docs', BearerPrefix + tokens.0, key, mac, now)
            == (docs', Response(401, Error("wrong refresh token is used"))))
  {
    var name := docs[id].username;
    var tokens := GenerateToken(key, mac, id, name, issued);
    var docs' := WithTokens(docs, tokens.0, tokens.1, id, issued);
    var pair := GenerateToken(key, mac, id, docs[id].username, issued);
    WithTokensPreservesValid(docs, pair.0, pair.1, id, issued);
    var access := AccessClaims(id, name, issued);
    SignedNotBearer(access, key, mac);
    AccessNeverRefresh(key, mac, id, name, issued, id, name, issued);
    var header := BearerPrefix + tokens.0;
    ValidateSigned(access, key, mac, now);
    if RefreshStep(docs', header, key, mac, now).1.status == 200 {
      var c := ValidateToken(tokens.0, key, mac, now).value;
      ValidateTokenAccepts(tokens.0, key, mac, now, c);
      SignedStringInjective(access, c, key, mac);
    }
    if now <= issued + AccessLifetime {
      RefreshRotates(docs', header, key, mac, now, access);
    }
  }

  /**
   * The two tokens a login returns are not interchangeable: the gate refuses the
   * refresh token and the refresh handler refuses the access token.
   */
  lemma PairNotInterchangeable(docs: map<string, User>, req: LoginRequest, key: string, mac: Mac, kdf: Kdf,
                               issued: nat, now: nat)
    requires WellFormed(docs)
    requires LoginStep(docs, req, key, mac, kdf, issued).1.status == 200
    ensures var (docs', response) := LoginStep(docs, req, key, mac, kdf, issued);
      && !Authenticate(BearerPrefix + response.body.refreshToken, docs', key, mac, now).Next?
      && RefreshStep(docs', BearerPrefix + response.body.token, key, mac, now).1.status != 200
  {
    var id := LoginSuccessUser(docs, req, key, mac, kdf, issued);
    LoginIssuesAndStores(docs, req, key, mac, kdf, issued, id);
    RefreshTokenRefusedAtGate(docs, id, key, mac, issued, now);
    AccessTokenRefusedAtRefresh(docs, id, key, mac, issued, now);
  }

  /**
   * A correctly signed token is refused by the refresh handler when its user's
   * stored refresh token is another string: "relogin" once it has expired, "wrong
   * refresh token is used" before; nothing changes either way.
   */
  lemma RefreshRefusesOtherToken(docs: map<string, User>, header: string, key: string, mac: Mac, now: nat,
                                 c: Claims)
    requires header != "" && PresentedToken(header) == SignedString(c, key, mac)
    requires c.userId in docs && docs[c.userId].refreshToken.Some?
    requires docs[c.userId].refreshToken.value != PresentedToken(header)
    ensures RefreshStep(docs, header, key, mac, now)
         == (docs, Response(401, Error(if ExpiredAt(c, now) then "relogin" else "wrong refresh token is used")))
  {
    ValidateSigned(c, key, mac, now);
    if !ExpiredAt(c, now) {
      RefreshWrongToken(docs, header, key, mac, now, c);
    }
  }

  /**
   * After a successful refresh, presenting the same refresh token again is
   * refused (401) unless it is the token just issued.
   */
  lemma RefreshReplayRefused(docs: map<string, User>, header: string, key: string, mac: Mac, now1: nat, now2: nat)
    requires WellFormed(docs)
    requires RefreshStep(docs, header, key, mac, now1).1.status == 200
    ensures var (docs1, rotated) := RefreshStep(docs, header, key, mac, now1);
      var c := ValidateToken(PresentedToken(header), key, mac, now1).value;
      PresentedToken(header) != rotated.body.refreshToken ==>
        RefreshStep(docs1, header, key, mac, now2)
        == (docs1, Response(401, Error(if ExpiredAt(c, now2) then "relogin" else "wrong refresh token is used")))
  {
    var token := PresentedToken(header);
    var c := ValidateToken(token, key, mac, now1).value;
    ValidateTokenAccepts(token, key, mac, now1, c);
    RefreshRotates(docs, header, key, mac, now1, c);
    var tokens := GenerateToken(key, mac, c.userId, docs[c.userId].username, now1);
    var docs1 := WithTokens(docs, tokens.0, tokens.1, c.userId, now1);
    if token != tokens.1 {
      RefreshRefusesOtherToken(docs1, header, key, mac, now2, c);
    }
  }

  /**
   * The token a refresh returns is the presented one exactly when the presented
   * token carries the refresh claims the handler generates in that second, so a
   * refresh token can be used more than once only within the second it was
   * issued in.
   */
  lemma RefreshReissuesSame(docs: map<string, User>, header: string, key: string, mac: Mac, now: nat)
    requires WellFormed(docs)
    requires RefreshStep(docs, header, key, mac, now).1.status == 200
    ensures var token := PresentedToken(header);
      var c := ValidateToken(token, key, mac, now).value;
      && c.userId in docs
      && (RefreshStep(docs, header, key, mac, now).1.body.refreshToken == token
          <==> c == RefreshClaims(c.userId, docs[c.userId].username, now))
  {
    var token := PresentedToken(header);
    var c := ValidateToken(token, key, mac, now).value;
    ValidateTokenAccepts(token, key, mac, now, c);
    RefreshRotates(docs, header, key, mac, now, c);
    SignedStringInjective(c, RefreshClaims(c.userId, docs[c.userId].username, now), key, mac);
  }

  /** Once a pair is written for a user, the gate accepts for that user only the access token of the pair. */
  lemma GateAcceptsOnlyWritten(docs: map<string, User>, signedToken: string, signedRefreshToken: string,
                               id: string, issued: nat, header: string, key: string, mac: Mac, now: nat, c: Claims)
    requires id in docs && c.userId == id
    ensures var docs' := WithTokens(docs, signedToken, signedRefreshToken, id, issued);
      Authenticate(header, docs', key, mac, now) == Next(c) ==> PresentedToken(header) == signedToken
  {
  }

  /**
   * After a refresh with the token of claims `c`, the gate accepts for that
   * user only the access token just returned.
   */
  lemma RefreshSupersedesAccess(docs: map<string, User>, header: string, key: string, mac: Mac, now1: nat,
                                c: Claims, gateHeader: string, now2: nat, c2: Claims)
    requires WellFormed(docs)
    requires header != "" && PresentedToken(header) == SignedString(c, key, mac) && !ExpiredAt(c, now1)
    requires RefreshStep(docs, header, key, mac, now1).1.status == 200
    requires c2.userId == c.userId
    ensures var (docs1, rotated) := RefreshStep(docs, header, key, mac, now1);
      Authenticate(gateHeader, docs1, key, mac, now2) == Next(c2) ==>
        PresentedToken(gateHeader) == rotated.body.accessToken
  {
    RefreshRotates(docs, header, key, mac, now1, c);
    var tokens := GenerateToken(key, mac, c.userId, docs[c.userId].username, now1);
    GateAcceptsOnlyWritten(docs, tokens.0, tokens.1, c.userId, now1, gateHeader, key, mac, now2, c2);
  }

  /**
   * The scenario of a user "alice": signup succeeds and a second signup with the
   * same username is refused; a login returns a token that passes the gate; a
   * login in a later second returns a new pair, after which the first token is
   * refused as the wrong token.
   */
  lemma AliceScenario(id: string, otherId: string, salt: string, key: string, mac: Mac, kdf: Kdf,
                      t0: nat, t1: nat, t2: nat)
    requires id != otherId && |salt| == SaltLength
    requires t1 < t2 <= t1 + AccessLifetime
    ensures
      var signup := SignupRequest(Some("alice"), Some("Alice A"), Some("secret1"));
      var (docs1, created) := SignupStep(map[], signup, id, salt, None, key, mac, kdf, t0);
      && created == [Created]
      && SignupStep(docs1, signup, otherId, salt, None, key, mac, kdf, t0).1
         == [Response(400, Error("Username already exists"))]
      && var login := LoginRequest(Some("alice"), Some("secret1"));
         var (docs2, first) := LoginStep(docs1, login, key, mac, kdf, t1);
         && first.status == 200
         && Authenticate(BearerPrefix + first.body.token, docs2, key, mac, t1).Next?
         && var (docs3, second) := LoginStep(docs2, login, key, mac, kdf, t2);
            && second.status == 200
            && Authenticate(BearerPrefix + first.body.token, docs3, key, mac, t2)
               == Abort(401, "Wrong access token used")
  {
    var signup := SignupRequest(Some("alice"), Some("Alice A"), Some("secret1"));
    assert CountByUsername(map[], signup.username) == 0;
    SignupCreates(map[], signup, id, salt, key, mac, kdf, t0);
    var docs1 := SignupStep(map[], signup, id, salt, None, key, mac, kdf, t0).0;
    assert docs1.Keys == {id};
    assert WellFormed(docs1);
    assert NameMatches(docs1, id, signup.username);
    SignupRejectsDuplicate(docs1, signup, otherId, salt, None, key, mac, kdf, t0);
    var login := LoginRequest(Some("alice"), Some("secret1"));
    assert NameMatches(docs1, id, login.username);
    HashPasswordVerifies(salt, "secret1", "secret1", kdf);
    LoginIssuesAndStores(docs1, login, key, mac, kdf, t1, id);
    LoginAccessAccepted(docs1, login, key, mac, kdf, t1, t1);
    var docs2 := LoginStep(docs1, login, key, mac, kdf, t1).0;
    var pair := GenerateToken(key, mac, id, docs1[id].username, t1);
    WithTokensPreservesValid(docs1, pair.0, pair.1, id, t1);
    assert NameMatches(docs2, id, login.username);
    LoginIssuesAndStores(docs2, login, key, mac, kdf, t2, id);
    ReloginSupersedes(docs1, login, key, mac, kdf, t1, t2, t2);
  }
}
