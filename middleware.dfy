/**
 * middleware/auth.go: the request gate in front of the protected routes
 * (`/users`, `/user/:id`). A chain of guards, each of which either aborts the
 * request with a 401 and a reason or lets it through to the next guard.
 */
module Middleware {
  import opened Wrappers
  import opened Text
  import opened Jwt
  import opened Models
  import opened Store
  import opened Helpers

  /**
   * How the gate ends: the claims are attached and the next handler runs, the
   * request is aborted with a status and an error message, or the handler
   * panics on a nil token (gin's recovery then answers 500).
   */
  datatype GateOutcome = Next(claims: Claims) | Abort(status: nat, error: string) | Panic

  const BearerPrefix := "Bearer "

  /** The token the gate checks: the header with a leading "Bearer " removed, if present. */
  function PresentedToken(header: string): (t: string)
    ensures BearerPrefix <= header ==> BearerPrefix + t == header
    ensures !(BearerPrefix <= header) ==> t == header
  {
    TrimPrefix(header, BearerPrefix)
  }

  /** `Authenticate()` for an `Authorization` header, the stored documents, the key and the clock second. */
  function Authenticate(header: string, docs: map<string, User>, key: string, mac: Mac, now: nat): (r: GateOutcome)
    ensures header == "" ==> r == Abort(401, "authorization header is required")
    ensures r == Abort(401, "token expired")
        <==> header != "" && ValidateToken(PresentedToken(header), key, mac, now) == Failure(ErrTokenExpired)
    ensures r == Abort(401, "invalid token")
        <==> header != "" && ValidateToken(PresentedToken(header), key, mac, now).Failure?
             && ValidateToken(PresentedToken(header), key, mac, now) != Failure(ErrTokenExpired)
    ensures r.Next? ==>
      && header != ""
      && ValidateToken(PresentedToken(header), key, mac, now) == Success(r.claims)
      && r.claims.userId in docs
      && docs[r.claims.userId].token == Some(PresentedToken(header))
    ensures var v := ValidateToken(PresentedToken(header), key, mac, now);
      header != "" && v.Success? && v.value.userId !in docs ==> r == Abort(401, "user is not found")
    ensures var v := ValidateToken(PresentedToken(header), key, mac, now);
      r.Panic? <==> header != "" && v.Success? && v.value.userId in docs && docs[v.value.userId].token.None?
    ensures r.Abort? ==> r.status == 401
  {
    if header == "" then
      Abort(401, "authorization header is required")
    else
      var token := PresentedToken(header);
      match ValidateToken(token, key, mac, now)
      case Failure(err) =>
        if err == ErrTokenExpired then Abort(401, "token expired") else Abort(401, "invalid token")
      case Success(claims) =>
        match FindByUserId(docs, claims.userId)
        case None => Abort(401, "user is not found")
        case Some(user) =>
          if user.token.None? then Panic
          else if user.token.value != token then Abort(401, "Wrong access token used")
          else Next(claims)
  }

  /**
   * The gate lets a request through, with claims `c`, exactly when the header is
   * non-empty, the presented token is the token signed for `c`, `c` has not
   * expired, and it is the access token stored for `c`'s user. The token type in
   * `c` plays no part.
   */
  lemma AuthenticateAllows(header: string, docs: map<string, User>, key: string, mac: Mac, now: nat, c: Claims)
    ensures Authenticate(header, docs, key, mac, now) == Next(c)
        <==> && header != ""
             && PresentedToken(header) == SignedString(c, key, mac)
             && !ExpiredAt(c, now)
             && c.userId in docs
             && docs[c.userId].token == Some(PresentedToken(header))
  {
    if header != "" {
      ValidateTokenAccepts(PresentedToken(header), key, mac, now, c);
    }
  }

  /**
   * A three-segment token whose claims have expired is answered "token expired",
   * whether or not its signature is right: the library OR-s the expiry flag and
   * the signature flag into one error, and `ValidateToken` tests the expiry flag
   * first.
   */
  lemma ExpiredBeforeSignature(header: string, docs: map<string, User>, key: string, mac: Mac, now: nat)
    requires header != ""
    requires ParseUnverified(PresentedToken(header)).Some?
    requires ExpiredAt(ParseUnverified(PresentedToken(header)).value.claims, now)
    ensures Authenticate(header, docs, key, mac, now) == Abort(401, "token expired")
  {
  }

  /** A correctly signed, unexpired token that is not the one stored for its user is refused as the wrong token. */
  lemma SupersededRefused(header: string, docs: map<string, User>, key: string, mac: Mac, now: nat, c: Claims)
    requires header != "" && PresentedToken(header) == SignedString(c, key, mac) && !ExpiredAt(c, now)
    requires c.userId in docs && docs[c.userId].token.Some?
    requires docs[c.userId].token.value != PresentedToken(header)
    ensures Authenticate(header, docs, key, mac, now) == Abort(401, "Wrong access token used")
  {
    ValidateTokenAccepts(PresentedToken(header), key, mac, now, c);
  }

  /**
   * A token of four or more segments is malformed to the library, so the gate
   * answers "invalid token" even when the claims it carries have expired.
   */
  lemma ExtraSegmentInvalid(header: string, docs: map<string, User>, key: string, mac: Mac, now: nat,
                            c: Claims, sig: string)
    requires header != "" && PresentedToken(header) == SigningInput(c) + "." + sig && '.' in sig
    ensures Authenticate(header, docs, key, mac, now) == Abort(401, "invalid token")
  {
    ExtraSegmentMalformed(c, sig, key, mac, now);
  }

  /** When every stored document holds a pair, the gate never dereferences a nil token. */
  lemma NoPanicWhenPairsHeld(header: string, docs: map<string, User>, key: string, mac: Mac, now: nat)
    requires HoldsPairs(docs)
    ensures !Authenticate(header, docs, key, mac, now).Panic?
  {
  }
}
