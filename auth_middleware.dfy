/** Bearer-token authentication. `Verify` stands for `jwtLib.verify`; the
    signature and expiry test is a parameter of the model. The standalone
    backend's `authMiddleware` is here; the route guards of the events router
    build on the same pieces. */
module AuthMiddleware {
  import opened Store
  import opened Text

  const BEARER := "Bearer "

  /** `jwtLib.verify(token)`: `None` where it throws. The library refuses an
      empty token before any signature check; every other token is decided by
      `check`. */
  function Verify(check: string -> Option<Claim>, token: string): Option<Claim> {
    if token == "" then None else check(token)
  }

  /** `header.split(' ')[1]` for a header that starts with "Bearer ". */
  function BearerToken(header: string): (token: string)
    requires StartsWith(header, BEARER)
    ensures ' ' !in token
  {
    SplitAfterPrefix("Bearer", ' ', header);
    Split(header, ' ')[1]
  }

  /** The token is the text after "Bearer " up to the next space: a header
      built from a token without spaces gives that token back. */
  lemma {:induction false} BearerTokenRoundTrip(token: string, rest: string)
    requires ' ' !in token
    requires rest == [] || rest[0] == ' '
    ensures StartsWith(BEARER + token + rest, BEARER)
    ensures BearerToken(BEARER + token + rest) == token
  {
    var tail := token + rest;
    var h := BEARER + tail;
    assert BEARER + token + rest == h;
    assert StartsWith(h, BEARER) && h[|BEARER|..] == tail by {
      assert h[..|BEARER|] == BEARER;
    }
    assert Split(h, ' ')[1] == Split(tail, ' ')[0] by {
      SplitAfterPrefix("Bearer", ' ', h);
    }
    FirstField(token, rest);
  }

  /** The first space-separated field of a token followed by nothing or by
      a space is the token. */
  lemma FirstField(token: string, rest: string)
    requires ' ' !in token
    requires rest == [] || rest[0] == ' '
    ensures Split(token + rest, ' ')[0] == token
  {
    if rest == [] {
      assert token + rest == token;
    } else {
      var tail := token + rest;
      assert tail == token + [' '] + rest[1..];
      IndexOfAfter(token, ' ', rest[1..]);
      assert tail[..|token|] == token;
    }
  }

  /** What `authMiddleware` does: call `next()` with `req.user` set, or reply
      with a status and `{ message }`. */
  datatype Decision = Proceed(user: Claim) | Reject(status: int, message: string)

  const MISSING_OR_INVALID := "Missing or invalid token"
  const INVALID_TOKEN := "Invalid token"

  /** `authMiddleware(req, res, next)` on the Authorization header. */
  function Authenticate(header: Option<string>, check: string -> Option<Claim>): Decision {
    if header.None? || !StartsWith(header.value, BEARER) then Reject(401, MISSING_OR_INVALID)
    else
      match Verify(check, BearerToken(header.value))
      case None => Reject(401, INVALID_TOKEN)
      case Some(payload) => Proceed(payload)
  }

  /** A missing header or one without the "Bearer " prefix is refused before
      any verification; "Bearer " alone yields the empty token, which no
      verifier accepts; otherwise the outcome is the verifier's on the second
      space-separated field, and success writes no response. */
  lemma AuthenticateCases(header: Option<string>, check: string -> Option<Claim>)
    ensures header.None? ==> Authenticate(header, check) == Reject(401, MISSING_OR_INVALID)
    ensures header.Some? && !StartsWith(header.value, BEARER)
            ==> Authenticate(header, check) == Reject(401, MISSING_OR_INVALID)
    ensures header == Some(BEARER) ==> Authenticate(header, check) == Reject(401, INVALID_TOKEN)
    ensures header.Some? && StartsWith(header.value, BEARER) ==>
              var token := BearerToken(header.value);
              Authenticate(header, check)
              == if check(token).Some? && token != "" then Proceed(check(token).value)
                 else Reject(401, INVALID_TOKEN)
  {
    if header == Some(BEARER) {
      BearerTokenRoundTrip("", "");
    }
  }
}
