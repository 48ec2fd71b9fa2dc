/**
 Password hashing, session tokens and the `isLoggedIn` middleware. The
 hashing and token libraries are not modelled internally: each is a pair of
 functions supplied by the environment, and what the application relies on
 is stated as a predicate over that pair.
 */
module Auth {
  import opened Maybe
  import opened Entities

  /** The password-hashing library: `hash(password, salt)` and `compare`. The
      salt is the library's own randomness, made a parameter. */
  datatype Hasher = Hasher(hash: (string, string) -> Digest, compare: (string, Digest) -> bool)

  /** The one property the application needs of the hashing library: a
      password always matches a hash made from it, whatever the salt. No
      collision-freedom is assumed (bcrypt reads only the first 72 bytes). */
  ghost predicate HashSound(h: Hasher) {
    forall password, salt :: h.compare(password, h.hash(password, salt))
  }

  /** The payload a session token carries. */
  datatype Claims = Claims(email: string, userId: UserId)

  /** The token library: `sign` fails (None) only when misconfigured;
      `verify` fails on any malformed, expired or forged token. Secret and
      expiry are inside these functions. */
  datatype TokenService = TokenService(sign: Claims -> Option<string>, verify: string -> Option<Claims>)

  /** A token the service has just signed is a non-empty string that decodes
      to the claims it was signed with. */
  ghost predicate TokensSound(t: TokenService) {
    forall c :: t.sign(c).Some? ==> t.sign(c).value != "" && t.verify(t.sign(c).value) == Some(c)
  }

  /** The three outcomes of the session middleware. */
  datatype Gate =
    | Redirect              // no token: redirect to /login, cookie untouched
    | ClearAndRedirect      // token fails verification: clear it, redirect to /login
    | Proceed(identity: Claims)  // token verifies: continue with the decoded identity

  /** `isLoggedIn`. The cookie value is JavaScript-falsy when absent or empty. */
  function SessionGate(tokens: TokenService, cookie: Option<string>): (g: Gate)
    ensures g.Redirect? <==> cookie == None || cookie == Some("")
    ensures g.ClearAndRedirect? <==> cookie.Some? && cookie.value != "" && tokens.verify(cookie.value) == None
    ensures g.Proceed? ==> cookie.Some? && cookie.value != "" && tokens.verify(cookie.value) == Some(g.identity)
  {
    match cookie
    case None => Redirect
    case Some(token) =>
      if token == "" then Redirect
      else
        match tokens.verify(token)
        case None => ClearAndRedirect
        case Some(data) => Proceed(data)
  }

  /** A token the service signed opens the session gate with exactly the
      claims it was signed with. */
  lemma SignedTokenProceeds(tokens: TokenService, c: Claims, token: string)
    requires TokensSound(tokens)
    requires tokens.sign(c) == Some(token)
    ensures SessionGate(tokens, Some(token)) == Proceed(c)
  {
  }
}
