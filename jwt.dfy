/**
 * The part of the golang-jwt (v3) library that the service relies on, for the
 * one claim type it uses.
 *
 * A token is `header.payload.signature`. The real library writes the header and
 * payload as base64url-encoded JSON; here the payload is a length-prefixed text
 * encoding with the one property the service depends on: it can be decoded, and
 * decoding recovers exactly the claims that were encoded. The HS256 signature is
 * `mac(key, signingInput)` for a MAC function given as a parameter, so nothing
 * is assumed about it.
 */
module Jwt {
  import opened Wrappers
  import opened Text

  /**
   * The service's claim set (`Claims` in backend/helpers/token.go): the user's
   * id and name, the token type, and the registered `exp` claim of the embedded
   * `jwt.StandardClaims`, in Unix seconds (0 means "no expiry").
   */
  datatype Claims = Claims(userId: string, username: string, tokenType: string, expiresAt: nat)

  /** Signature text: base64url, so it never contains the segment separator. */
  type Signature = s: string | '.' !in s witness ""

  /** A keyed MAC, HMAC-SHA256 for HS256: (key, signing input) to signature text. */
  type Mac = (string, string) -> Signature

  /** base64url of `{"alg":"HS256","typ":"JWT"}`, the header the library writes for HS256. */
  const Header := "eyJhbGciOiJIUzI1NiIsInR5cCI6IkpXVCJ9"

  function Payload(c: Claims): string {
    Field(c.userId) + Field(c.username) + Field(c.tokenType) + NatText(c.expiresAt)
  }

  /** The part of a token the signature covers: `header.payload`. */
  function SigningInput(c: Claims): string {
    Header + "." + Payload(c)
  }

  /** `jwt.NewWithClaims(jwt.SigningMethodHS256, c).SignedString(key)`. */
  function SignedString(c: Claims, key: string, mac: Mac): (t: string)
    ensures SigningInput(c) + "." <= t
  {
    SigningInput(c) + "." + mac(key, SigningInput(c))
  }

  /** The payload after the user id: username, token type and expiry. */
  function PayloadTail(c: Claims): string {
    Field(c.username) + Field(c.tokenType) + NatText(c.expiresAt)
  }

  lemma PayloadThen(c: Claims, rest: string)
    ensures Payload(c) + rest == Field(c.userId) + (PayloadTail(c) + rest)
    ensures PayloadTail(c) + rest == Field(c.username) + (Field(c.tokenType) + (NatText(c.expiresAt) + rest))
  {
  }

  /** Reads username, token type and expiry from the front of `s`. */
  function ReadTail(s: string): (r: Option<(string, string, nat, string)>)
    ensures r.Some? ==> s == PayloadTail(Claims("", r.value.0, r.value.1, r.value.2)) + r.value.3
  {
    match ReadField(s)
    case None => None
    case Some((username, r2)) =>
      match ReadField(r2)
      case None => None
      case Some((tokenType, r3)) =>
        match ReadNat(r3)
        case None => None
        case Some((exp, r4)) =>
          PayloadThen(Claims("", username, tokenType, exp), r4);
          Some((username, tokenType, exp, r4))
  }

  /** Reads the payload of a token from the front of `s`. */
  function ReadClaims(s: string): (r: Option<(Claims, string)>)
    ensures r.Some? ==> s == Payload(r.value.0) + r.value.1
  {
    match ReadField(s)
    case None => None
    case Some((userId, r1)) =>
      match ReadTail(r1)
      case None => None
      case Some((username, tokenType, exp, r4)) =>
        var c := Claims(userId, username, tokenType, exp);
        assert PayloadTail(c) == PayloadTail(Claims("", username, tokenType, exp));
        PayloadThen(c, r4);
        Some((c, r4))
  }

  lemma ReadTailOf(c: Claims, rest: string)
    requires rest == [] || !IsDigit(rest[0])
    ensures ReadTail(PayloadTail(c) + rest) == Some((c.username, c.tokenType, c.expiresAt, rest))
  {
    var r3 := NatText(c.expiresAt) + rest;
    var r2 := Field(c.tokenType) + r3;
    PayloadThen(c, rest);
    ReadFieldOf(c.username, r2);
    ReadFieldOf(c.tokenType, r3);
    ReadNatText(c.expiresAt, rest);
  }

  lemma ReadClaimsOf(c: Claims, rest: string)
    requires rest == [] || !IsDigit(rest[0])
    ensures ReadClaims(Payload(c) + rest) == Some((c, rest))
  {
    PayloadThen(c, rest);
    ReadFieldOf(c.userId, PayloadTail(c) + rest);
    ReadTailOf(c, rest);
  }

  /** Reassembles `s` from its header prefix `h`, the payload and the rest that starts with a dot. */
  lemma JoinSegments(s: string, h: string, payload: string, rest: string)
    requires h <= s && s[|h|..] == payload + rest
    requires rest != [] && rest[0] == '.'
    ensures s == h + payload + "." + rest[1..]
  {
    assert s == h + s[|h|..];
    assert rest == "." + rest[1..];
  }

  datatype Segments = Segments(claims: Claims, signingInput: string, signature: string)

  /**
   * Splits a token into its claims, the signed part and the signature, without
   * checking anything. Like the library, which splits on "." and wants exactly
   * three parts, it refuses a token whose signature part holds another ".".
   */
  function ParseUnverified(s: string): (r: Option<Segments>)
    ensures r.Some? ==> r.value.signingInput == SigningInput(r.value.claims)
    ensures r.Some? ==> s == r.value.signingInput + "." + r.value.signature
    ensures r.Some? ==> '.' !in r.value.signature
  {
    var h := Header + ".";
    if !(h <= s) then None
    else
      match ReadClaims(s[|h|..])
      case None => None
      case Some((c, rest)) =>
        if rest != [] && rest[0] == '.' && '.' !in rest[1..] then
          JoinSegments(s, h, Payload(c), rest);
          Some(Segments(c, SigningInput(c), rest[1..]))
        else None
  }

  /** Decoding a signed token gives back the claims, the signed part and the signature. */
  lemma ParseSignedString(c: Claims, key: string, mac: Mac)
    ensures ParseUnverified(SignedString(c, key, mac))
         == Some(Segments(c, SigningInput(c), mac(key, SigningInput(c))))
  {
    var sig := mac(key, SigningInput(c));
    var h := Header + ".";
    var s := SignedString(c, key, mac);
    assert s == h + (Payload(c) + ("." + sig));
    assert s[|h|..] == Payload(c) + ("." + sig);
    ReadClaimsOf(c, "." + sig);
  }

  /** Two tokens signed with the same key are the same string exactly when their claims are equal. */
  lemma SignedStringInjective(c1: Claims, c2: Claims, key: string, mac: Mac)
    ensures SignedString(c1, key, mac) == SignedString(c2, key, mac) <==> c1 == c2
  {
    if SignedString(c1, key, mac) == SignedString(c2, key, mac) {
      ParseSignedString(c1, key, mac);
      ParseSignedString(c2, key, mac);
    }
  }

  // Bits of `jwt.ValidationError.Errors` (golang-jwt v3).
  const ValidationErrorMalformed: bv32 := 1
  const ValidationErrorSignatureInvalid: bv32 := 4
  const ValidationErrorExpired: bv32 := 16

  /** An error the library returns: a `*jwt.ValidationError` with its flag bits, or any other error. */
  datatype LibError = ValidationError(flags: bv32) | OtherError(message: string)

  /** What `jwt.ParseWithClaims` returns: an error, or a token with its claims and `Valid` flag. */
  datatype ParsedToken = Failed(err: LibError) | Token(claims: Claims, valid: bool)

  /** `StandardClaims.VerifyExpiresAt(now, false)` fails: `exp` is set and already passed. */
  predicate ExpiredAt(c: Claims, now: nat) {
    c.expiresAt != 0 && now > c.expiresAt
  }

  predicate HasFlag(e: LibError, flag: bv32) {
    e.ValidationError? && e.flags & flag != 0
  }

  /** Whether `s` splits into segments whose signature is the MAC of the signed part under `key`. */
  predicate SignatureMatches(s: string, key: string, mac: Mac) {
    var p := ParseUnverified(s);
    p.Some? && p.value.signature == mac(key, p.value.signingInput)
  }

  /** A string carries a correct signature exactly when it is the token signed for its own claims. */
  lemma SignatureMatchesIff(s: string, key: string, mac: Mac, c: Claims)
    ensures SignatureMatches(s, key, mac) && ParseUnverified(s).value.claims == c
        <==> s == SignedString(c, key, mac)
  {
    if s == SignedString(c, key, mac) {
      ParseSignedString(c, key, mac);
    }
  }

  /**
   * `jwt.ParseWithClaims(s, &Claims{}, keyFunc)` with `keyFunc` returning `key`,
   * at clock second `now`. As in the library, the claims are validated before
   * the signature and both failures are OR-ed into one error.
   */
  function ParseWithClaims(s: string, key: string, mac: Mac, now: nat): (r: ParsedToken)
    ensures r.Token? <==> SignatureMatches(s, key, mac) && !ExpiredAt(ParseUnverified(s).value.claims, now)
    ensures r.Token? ==> r.valid && r.claims == ParseUnverified(s).value.claims
    ensures r.Failed? ==> r.err.ValidationError? && r.err.flags != 0
    ensures r.Failed? && HasFlag(r.err, ValidationErrorExpired)
        <==> ParseUnverified(s).Some? && ExpiredAt(ParseUnverified(s).value.claims, now)
    ensures ParseUnverified(s).None? ==> r == Failed(ValidationError(ValidationErrorMalformed))
  {
    match ParseUnverified(s)
    case None =>
      Failed(ValidationError(ValidationErrorMalformed))
    case Some(seg) =>
      var claimsErr: bv32 := if ExpiredAt(seg.claims, now) then ValidationErrorExpired else 0;
      var sigErr: bv32 := if seg.signature == mac(key, seg.signingInput) then 0 else ValidationErrorSignatureInvalid;
      var flags := claimsErr | sigErr;
      if flags == 0 then Token(seg.claims, true) else Failed(ValidationError(flags))
  }

  /**
   * A token whose signature part holds another "." has four or more segments,
   * which the library reports as malformed before it looks at the claims.
   */
  lemma ExtraSegmentMalformed(c: Claims, sig: string, key: string, mac: Mac, now: nat)
    requires '.' in sig
    ensures ParseUnverified(SigningInput(c) + "." + sig).None?
    ensures ParseWithClaims(SigningInput(c) + "." + sig, key, mac, now)
         == Failed(ValidationError(ValidationErrorMalformed))
  {
    var h := Header + ".";
    var s := SigningInput(c) + "." + sig;
    assert s == h + (Payload(c) + ("." + sig));
    assert s[|h|..] == Payload(c) + ("." + sig);
    ReadClaimsOf(c, "." + sig);
    assert ("." + sig)[1..] == sig;
  }

  /** The library accepts exactly the tokens signed with `key` that have not expired, with their own claims. */
  lemma ParseWithClaimsAccepts(s: string, key: string, mac: Mac, now: nat, c: Claims)
    ensures ParseWithClaims(s, key, mac, now) == Token(c, true)
        <==> s == SignedString(c, key, mac) && !ExpiredAt(c, now)
  {
    SignatureMatchesIff(s, key, mac, c);
  }
}
