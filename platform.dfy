/** The collaborators the controllers call but whose code is not part of the
    model: the reversible cipher and the token service (`encrypt.js` and
    `token.js`), bcrypt behind `hash.js`, JavaScript's `Date` and MySQL's
    conversion of a bound value to an integer id. Each is a
    function-typed field, so the model assumes nothing about it except what a
    lemma states as a hypothesis. */
module Platform {
  import opened Wrappers
  import opened Json

  /** The payload of a signed token, as `verifyToken` returns it
      (the `iat`/`exp` fields the token library adds are not modelled). */
  datatype Claims = Claims(id: Option<nat>, email: string, phone: Option<string>, role: Option<string>)

  /** `expiresIn: '1h'`, used for session tokens. */
  const SessionTtl: nat := 3600

  /** `expiresIn: '24h'`, used for activation tokens. */
  const ActivationTtl: nat := 86400

  datatype Services = Services(
    /** `encrypt({plaintext})`: deterministic, so lookups can compare ciphertexts. */
    encrypt: string -> string,
    /** `decrypt({ciphertext})` */
    decrypt: string -> string,
    /** `hashing({plaintext})`: bcrypt with the configured rounds. */
    hash: string -> string,
    /** `compareHash({plaintext, hash})` */
    compare: (string, string) -> bool,
    /** `generateToken({payload, options: {expiresIn}})` called at time `now` (seconds). */
    sign: (Claims, nat, nat) -> string,
    /** `verifyToken({token})` at time `now`; None where it throws (bad signature, malformed, expired). */
    verify: (string, nat) -> Option<Claims>,
    /** `new Date(s).toISOString()`; None where it throws (an unparsable date). */
    toIsoString: string -> Option<string>,
    /** `encrypt({plaintext})` given anything but a string (absent, a number,
        …): the ciphertext, or the message of the error it throws. The helper
        is not part of this model, so neither outcome is fixed. */
    encryptOther: Option<Value> -> Result<string, string>,
    /** The `id` a MySQL `WHERE id = ?` matches when `?` is bound to the
        value, which is also the integer an `INT` column stores for it; None
        where no integer id matches. */
    bindId: Value -> Option<int>
  )

  /** The cipher's contract: decryption undoes encryption. */
  ghost predicate CipherRoundTrip(s: Services) {
    forall x :: s.decrypt(s.encrypt(x)) == x
  }

  /** bcrypt never returns an empty hash. */
  ghost predicate HashesNonEmpty(s: Services) {
    forall p :: s.hash(p) != ""
  }

  /** bcrypt's compare accepts the password a hash was made from. */
  ghost predicate HashesVerify(s: Services) {
    forall p :: s.compare(p, s.hash(p))
  }

  /** A token verifies, with its claims, until its time to live has passed. */
  ghost predicate TokensVerify(s: Services) {
    forall claims: Claims, ttl: nat, issued: nat, now: nat :: issued <= now < issued + ttl ==> s.verify(s.sign(claims, ttl, issued), now) == Some(claims)
  }

  /** Signed tokens are URL-safe: no `/` (a JWT is base64url segments joined by dots). */
  ghost predicate TokensUrlSafe(s: Services) {
    forall claims: Claims, ttl: nat, issued: nat :: '/' !in s.sign(claims, ttl, issued)
  }

  /** A signed token is a non-empty run of base64url segments joined by dots: no space. */
  ghost predicate TokensHeaderSafe(s: Services) {
    forall claims: Claims, ttl: nat, issued: nat :: s.sign(claims, ttl, issued) != "" && ' ' !in s.sign(claims, ttl, issued)
  }
}
