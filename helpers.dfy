/** backend/helpers/token.go: issuing, storing and validating token pairs; password hashing. */
module Helpers {
  import opened Wrappers
  import opened Jwt
  import opened Bcrypt
  import opened Models
  import opened Store

  /** Access tokens live 15 minutes, refresh tokens 7 days (in seconds). */
  const AccessLifetime: nat := 15 * 60
  const RefreshLifetime: nat := 7 * 24 * 60 * 60

  /** The package-level `jwtKey`, written once by `SetJWTKey` at start-up. */
  class KeyConfig {
    var jwtKey: string

    constructor ()
      ensures jwtKey == ""
    {
      jwtKey := "";
    }

    method SetJWTKey(key: string)
      modifies this
      ensures GetJWTKey() == key
    {
      jwtKey := key;
    }

    function GetJWTKey(): string
      reads this
    {
      jwtKey
    }
  }

  /** The claims of the access token issued at second `now`. */
  function AccessClaims(userId: string, username: string, now: nat): Claims {
    Claims(userId, username, "access", now + AccessLifetime)
  }

  /** The claims of the refresh token issued at second `now`. */
  function RefreshClaims(userId: string, username: string, now: nat): Claims {
    Claims(userId, username, "refresh", now + RefreshLifetime)
  }

  /** `GenerateToken(userID, username)` at clock second `now`: the signed access token, then the signed refresh token. */
  function GenerateToken(key: string, mac: Mac, userId: string, username: string, now: nat): (pair: (string, string))
  {
    (SignedString(AccessClaims(userId, username, now), key, mac),
     SignedString(RefreshClaims(userId, username, now), key, mac))
  }

  /**
   * Decoding either generated token gives back the user's id and name
   * unchanged, its type ("access", "refresh") and its expiry (15 minutes, 7 days
   * after `now`), both signed with `key`; the refresh token outlives the access
   * token, and the two tokens differ.
   */
  lemma GenerateTokenClaims(key: string, mac: Mac, userId: string, username: string, now: nat)
    ensures var pair := GenerateToken(key, mac, userId, username, now);
      && ParseUnverified(pair.0).Some?
      && ParseUnverified(pair.0).value.claims == Claims(userId, username, "access", now + 15 * 60)
      && ParseUnverified(pair.1).Some?
      && ParseUnverified(pair.1).value.claims == Claims(userId, username, "refresh", now + 7 * 24 * 3600)
      && SignatureMatches(pair.0, key, mac) && SignatureMatches(pair.1, key, mac)
      && ParseUnverified(pair.1).value.claims.expiresAt > ParseUnverified(pair.0).value.claims.expiresAt
      && pair.0 != pair.1
  {
    ParseSignedString(AccessClaims(userId, username, now), key, mac);
    ParseSignedString(RefreshClaims(userId, username, now), key, mac);
  }

  /**
   * Two generated access tokens are the same string exactly when they were
   * issued for the same user id and name in the same clock second; the same
   * holds for refresh tokens. No nonce is added, so a pair issued twice within
   * one second is issued identically.
   */
  lemma GenerateTokenCollides(key: string, mac: Mac, id1: string, name1: string, t1: nat,
                              id2: string, name2: string, t2: nat)
    ensures GenerateToken(key, mac, id1, name1, t1).0 == GenerateToken(key, mac, id2, name2, t2).0
        <==> id1 == id2 && name1 == name2 && t1 == t2
    ensures GenerateToken(key, mac, id1, name1, t1).1 == GenerateToken(key, mac, id2, name2, t2).1
        <==> id1 == id2 && name1 == name2 && t1 == t2
  {
    SignedStringInjective(AccessClaims(id1, name1, t1), AccessClaims(id2, name2, t2), key, mac);
    SignedStringInjective(RefreshClaims(id1, name1, t1), RefreshClaims(id2, name2, t2), key, mac);
  }

  /** No generated access token is ever equal to any generated refresh token: their types differ. */
  lemma AccessNeverRefresh(key: string, mac: Mac, id1: string, name1: string, t1: nat,
                           id2: string, name2: string, t2: nat)
    ensures GenerateToken(key, mac, id1, name1, t1).0 != GenerateToken(key, mac, id2, name2, t2).1
  {
    SignedStringInjective(AccessClaims(id1, name1, t1), RefreshClaims(id2, name2, t2), key, mac);
  }

  /**
   * `UpdateAllToken`'s `$set` on the document whose user_id is `userId`: its
   * token, refresh token and update time are replaced; nothing else changes, and
   * nothing at all changes when no document has that user_id.
   */
  function WithTokens(docs: map<string, User>, signedToken: string, signedRefreshToken: string,
                      userId: string, now: nat): (r: map<string, User>)
    ensures r.Keys == docs.Keys
    ensures forall id :: id in docs && id != userId ==> r[id] == docs[id]
    ensures userId !in docs ==> r == docs
    ensures userId in docs ==>
      && r[userId].token == Some(signedToken)
      && r[userId].refreshToken == Some(signedRefreshToken)
      && r[userId].updatedAt == now
      && r[userId] == docs[userId].(token := r[userId].token, refreshToken := r[userId].refreshToken,
                                    updatedAt := now)
  {
    if userId in docs then
      docs[userId := docs[userId].(token := Some(signedToken), refreshToken := Some(signedRefreshToken),
                                   updatedAt := now)]
    else docs
  }

  /**
   * Overwriting a pair keeps the collection well formed, and keeps every
   * document holding a pair when every document held one.
   */
  lemma WithTokensPreservesValid(docs: map<string, User>, a: string, r: string, userId: string, now: nat)
    requires WellFormed(docs)
    ensures WellFormed(WithTokens(docs, a, r, userId, now))
    ensures HoldsPairs(docs) ==> HoldsPairs(WithTokens(docs, a, r, userId, now))
  {
    var docs' := WithTokens(docs, a, r, userId, now);
    forall x, y | x in docs' && y in docs' && docs'[x].username == docs'[y].username
      ensures x == y
    {
      assert docs'[x].username == docs[x].username && docs'[y].username == docs[y].username;
    }
  }

  /** `UpdateAllToken(signedToken, signedRefreshToken, userID)` at clock second `now`. */
  method UpdateAllToken(db: UsersCollection, signedToken: string, signedRefreshToken: string,
                        userId: string, now: nat)
    requires db.Valid()
    modifies db
    ensures db.Valid()
    ensures db.docs == WithTokens(old(db.docs), signedToken, signedRefreshToken, userId, now)
  {
    WithTokensPreservesValid(db.docs, signedToken, signedRefreshToken, userId, now);
    if userId in db.docs {
      var user := db.docs[userId];
      user := user.(token := Some(signedToken));
      user := user.(refreshToken := Some(signedRefreshToken));
      user := user.(updatedAt := now);
      db.docs := db.docs[userId := user];
    }
  }

  /**
   * `HashPassword(password)` with bcrypt's random salt made a parameter and the
   * request's password pointer as an `Option`. `None` means the handler panics:
   * on dereferencing a nil password, or on the error bcrypt reports for a
   * password over 72 bytes.
   */
  function HashPassword(salt: string, password: Option<string>, kdf: Kdf): (r: Option<string>)
    requires |salt| == SaltLength
    ensures r.Some? <==> password.Some? && Utf8Length(password.value) <= MaxPasswordBytes
  {
    match password
    case None => None
    case Some(p) =>
      match GenerateFromPassword(salt, p, kdf)
      case Failure(_) => None
      case Success(bytes) => Some(bytes)
  }

  /** `VerifyPassword(foundPwd, pwd)`: true exactly when the comparison reports no error, with that error. */
  function VerifyPassword(foundPwd: string, pwd: string, kdf: Kdf): (r: (bool, Option<BcryptError>))
    ensures r.0 <==> CompareHashAndPassword(foundPwd, pwd, kdf).None?
    ensures r.1 == CompareHashAndPassword(foundPwd, pwd, kdf)
  {
    var err := CompareHashAndPassword(foundPwd, pwd, kdf);
    (err.None?, err)
  }

  /**
   * A stored hash accepts the password it was made from, and accepts another
   * password exactly when the derivation gives both the same digest.
   */
  lemma HashPasswordVerifies(salt: string, password: string, attempt: string, kdf: Kdf)
    requires |salt| == SaltLength && Utf8Length(password) <= MaxPasswordBytes
    ensures HashPassword(salt, Some(password), kdf).Some?
    ensures VerifyPassword(HashPassword(salt, Some(password), kdf).value, password, kdf) == (true, None)
    ensures VerifyPassword(HashPassword(salt, Some(password), kdf).value, attempt, kdf).0
        <==> kdf(salt, password) == kdf(salt, attempt)
  {
    CompareGenerated(salt, password, password, kdf);
    CompareGenerated(salt, password, attempt, kdf);
  }

  /** What `ValidateToken` returns instead of claims. */
  datatype TokenError =
    | ErrTokenExpired           // the distinguished `ErrTokenExpired`
    | ErrInvalidToken           // errors.New("invalid token")
    | LibraryError(err: LibError)  // the library's error, passed through

  /** The error classification `ValidateToken` applies to what the library returned. */
  function ClassifyParse(p: ParsedToken): (r: Result<Claims, TokenError>)
    ensures r.Success? <==> p.Token? && p.valid
    ensures r.Success? ==> r.value == p.claims
    ensures r == Failure(ErrTokenExpired) <==> p.Failed? && HasFlag(p.err, ValidationErrorExpired)
    ensures r == Failure(ErrInvalidToken) <==> p.Token? && !p.valid
    ensures r.Failure? && r.error.LibraryError? <==> p.Failed? && !HasFlag(p.err, ValidationErrorExpired)
    ensures r.Failure? && r.error.LibraryError? ==> p.err == r.error.err
  {
    match p
    case Failed(err) =>
      if err.ValidationError? && err.flags & ValidationErrorExpired != 0 then Failure(ErrTokenExpired)
      else Failure(LibraryError(err))
    case Token(claims, valid) =>
      if !valid then Failure(ErrInvalidToken) else Success(claims)
  }

  /** `ValidateToken(tokenString)` under signing key `key` at clock second `now`. */
  function ValidateToken(tokenString: string, key: string, mac: Mac, now: nat): (r: Result<Claims, TokenError>)
    ensures r == Failure(ErrTokenExpired)
        <==> ParseUnverified(tokenString).Some? && ExpiredAt(ParseUnverified(tokenString).value.claims, now)
    ensures r.Success? ==> tokenString == SignedString(r.value, key, mac) && !ExpiredAt(r.value, now)
    ensures r != Failure(ErrInvalidToken)
  {
    var p := ParseWithClaims(tokenString, key, mac, now);
    if p.Token? then
      SignatureMatchesIff(tokenString, key, mac, p.claims);
      ClassifyParse(p)
    else
      ClassifyParse(p)
  }

  /** A token is accepted with claims `c` exactly when it is the token signed for `c` and `c` has not expired. */
  lemma ValidateTokenAccepts(tokenString: string, key: string, mac: Mac, now: nat, c: Claims)
    ensures ValidateToken(tokenString, key, mac, now) == Success(c)
        <==> tokenString == SignedString(c, key, mac) && !ExpiredAt(c, now)
  {
    ParseWithClaimsAccepts(tokenString, key, mac, now, c);
  }

  /** A signed token validates with its own claims until its expiry second, and is reported expired after it. */
  lemma ValidateSigned(c: Claims, key: string, mac: Mac, now: nat)
    ensures ValidateToken(SignedString(c, key, mac), key, mac, now)
         == if ExpiredAt(c, now) then Failure(ErrTokenExpired) else Success(c)
  {
    ParseSignedString(c, key, mac);
    ValidateTokenAccepts(SignedString(c, key, mac), key, mac, now, c);
  }

  /** A generated pair validates, with its own claims, until each token's expiry second and is reported expired after it. */
  lemma ValidateGenerated(key: string, mac: Mac, userId: string, username: string, issued: nat, now: nat)
    ensures ValidateToken(GenerateToken(key, mac, userId, username, issued).0, key, mac, now)
         == if now <= issued + AccessLifetime then Success(AccessClaims(userId, username, issued))
            else Failure(ErrTokenExpired)
    ensures ValidateToken(GenerateToken(key, mac, userId, username, issued).1, key, mac, now)
         == if now <= issued + RefreshLifetime then Success(RefreshClaims(userId, username, issued))
            else Failure(ErrTokenExpired)
  {
    ValidateSigned(AccessClaims(userId, username, issued), key, mac, now);
    ValidateSigned(RefreshClaims(userId, username, issued), key, mac, now);
  }
}
