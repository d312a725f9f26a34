/**
 * The part of golang.org/x/crypto/bcrypt the service uses. A hash is
 * `$2a$10$` (version 2a, the default cost 10), a 22-character salt, then the
 * key-derivation output for that salt and password. The derivation function is
 * a parameter: nothing is assumed about it, so every property below that needs
 * "different passwords give different hashes" says so.
 */
module Bcrypt {
  import opened Wrappers

  /** The cost-10 Eksblowfish derivation: (salt, password) to digest text. */
  type Kdf = (string, string) -> string

  const Prefix := "$2a$10$"
  const SaltLength := 22

  /** The longest password, in bytes, `GenerateFromPassword` accepts. */
  const MaxPasswordBytes := 72

  /** The number of bytes the UTF-8 encoding of `c` takes. */
  function CharBytes(c: char): nat {
    if c as int < 0x80 then 1
    else if c as int < 0x800 then 2
    else if c as int < 0x10000 then 3
    else 4
  }

  /** `len([]byte(s))`: the length of the UTF-8 encoding of `s`. */
  function Utf8Length(s: string): (n: nat)
    ensures |s| <= n <= 4 * |s|
  {
    if s == [] then 0 else CharBytes(s[0]) + Utf8Length(s[1..])
  }

  /** The hash text for a salt and a password. */
  function Digest(salt: string, password: string, kdf: Kdf): (h: string)
    requires |salt| == SaltLength
    ensures Prefix <= h && |h| >= |Prefix| + SaltLength
    ensures h[|Prefix|..|Prefix| + SaltLength] == salt
  {
    Prefix + salt + kdf(salt, password)
  }

  /** `ErrMalformedHash` stands for the library's too-short, bad-prefix and bad-version errors. */
  datatype BcryptError = ErrMalformedHash | ErrMismatchedHashAndPassword | ErrPasswordTooLong

  /** `bcrypt.CompareHashAndPassword`: nil exactly when re-deriving with the stored salt reproduces the hash. */
  function CompareHashAndPassword(hashed: string, password: string, kdf: Kdf): (r: Option<BcryptError>)
    ensures r.None? <==> exists salt :: |salt| == SaltLength && hashed == Digest(salt, password, kdf)
  {
    if |hashed| < |Prefix| + SaltLength || !(Prefix <= hashed) then Some(ErrMalformedHash)
    else
      var salt := hashed[|Prefix|..|Prefix| + SaltLength];
      if hashed == Digest(salt, password, kdf) then None
      else Some(ErrMismatchedHashAndPassword)
  }

  /** A digest accepts the password it was made from, and another password exactly when the derivations collide. */
  lemma CompareGenerated(salt: string, password: string, attempt: string, kdf: Kdf)
    requires |salt| == SaltLength
    ensures CompareHashAndPassword(Digest(salt, password, kdf), attempt, kdf) == None
        <==> kdf(salt, password) == kdf(salt, attempt)
  {
    var h := Digest(salt, password, kdf);
    var h' := Digest(salt, attempt, kdf);
    if h == h' {
      assert h[|Prefix| + SaltLength..] == kdf(salt, password);
      assert h'[|Prefix| + SaltLength..] == kdf(salt, attempt);
    }
  }

  /**
   * `bcrypt.GenerateFromPassword(password, bcrypt.DefaultCost)` with the random
   * salt made a parameter: `ErrPasswordTooLong` for a password over 72 bytes,
   * otherwise a hash that the comparison accepts for that password.
   */
  function GenerateFromPassword(salt: string, password: string, kdf: Kdf): (r: Result<string, BcryptError>)
    requires |salt| == SaltLength
    ensures r.Failure? <==> Utf8Length(password) > MaxPasswordBytes
    ensures r.Failure? ==> r.error == ErrPasswordTooLong
    ensures r.Success? ==> CompareHashAndPassword(r.value, password, kdf) == None
  {
    if Utf8Length(password) > MaxPasswordBytes then Failure(ErrPasswordTooLong)
    else
      CompareGenerated(salt, password, password, kdf);
      Success(Digest(salt, password, kdf))
  }
}
