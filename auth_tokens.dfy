/** The token side of `AuthService`: the claims of access and refresh tokens,
    their lifetimes, and how a token presented by a client is decoded and
    checked. Signing is abstract (see the `Crypto` module); expiry is checked
    the way the JWT library does, in whole seconds. */
module AuthTokens {
  import opened Wrappers
  import opened JsonValues
  import opened Crypto

  /** `ACCESS_TOKEN_EXPIRE_MINUTES` = 30, in seconds. */
  const AccessTtl: int := 30 * 60
  /** `REFRESH_TOKEN_EXPIRE_DAYS` = 7, in seconds. */
  const RefreshTtl: int := 7 * 24 * 60 * 60
  /** `OTP_EXPIRE_MINUTES` = 10, in seconds. */
  const OtpTtl: int := 10 * 60

  /** Why a presented token is refused. */
  datatype TokenError =
    | Expired            // ExpiredSignatureError
    | Invalid            // any other JWTError
    | WrongType          // "Not a ... token"
    | InvalidSubject     // "Invalid subject in token"

  /** The claims `{"sub": email, "type": kind}` before `exp` is added. */
  function Claims(email: string, kind: string): map<string, Json>
  {
    map["sub" := JStr(email), "type" := JStr(kind)]
  }

  /** `create_access_token`: valid for 30 minutes from `now`. */
  function AccessToken(email: string, now: int): (t: Jwt)
    ensures t.Signed? && t.claims.Keys == {"sub", "type", "exp"}
    ensures t.claims["exp"] == JInt(now + AccessTtl)
    ensures t.claims["sub"] == JStr(email) && t.claims["type"] == JStr("access")
  {
    Encode(Claims(email, "access"), now + AccessTtl)
  }

  /** `create_refresh_token`: the token and its stored expiry, 7 days from
      `now`; both are computed from the same clock reading here. */
  function RefreshToken(email: string, now: int): (t: Jwt)
    ensures t.Signed? && t.claims.Keys == {"sub", "type", "exp"}
    ensures t.claims["exp"] == JInt(now + RefreshTtl)
    ensures t.claims["sub"] == JStr(email) && t.claims["type"] == JStr("refresh")
  {
    Encode(Claims(email, "refresh"), now + RefreshTtl)
  }

  /** `decode_token(token, verify_exp=True)` at time `now`: a token not signed
      with the server key is invalid; an `exp` claim that is not an integer is
      invalid; an `exp` before `now` is expired. */
  function DecodeToken(token: Jwt, now: int): (r: Result<map<string, Json>, TokenError>)
    ensures token.Unsigned? ==> r == Failure(Invalid)
    ensures r.Success? ==> token.Signed? && r.value == token.claims
    ensures r == Failure(Expired) <==>
              token.Signed? && "exp" in token.claims && token.claims["exp"].JInt? && token.claims["exp"].i < now
  {
    match token
    case Unsigned(_) => Failure(Invalid)
    case Signed(claims) =>
      if "exp" !in claims then Success(claims)
      else match claims["exp"]
        case JInt(exp) => if exp < now then Failure(Expired) else Success(claims)
        case _ => Failure(Invalid)
  }

  /** `_validate_token_payload`: the subject, when the token is of the
      expected kind and its subject is a string. */
  function ValidateTokenPayload(payload: map<string, Json>, expected: string): (r: Result<string, TokenError>)
    ensures r.Success? <==>
              "type" in payload && payload["type"] == JStr(expected) && "sub" in payload && payload["sub"].JStr?
    ensures r.Success? ==> r.value == payload["sub"].s
    ensures r == Failure(WrongType) <==> !("type" in payload && payload["type"] == JStr(expected))
  {
    if "type" !in payload || payload["type"] != JStr(expected) then Failure(WrongType)
    else if "sub" !in payload || !payload["sub"].JStr? then Failure(InvalidSubject)
    else Success(payload["sub"].s)
  }

  /** Decoding then validating, as `refresh_tokens` and `get_current_user` do. */
  function CheckToken(token: Jwt, expected: string, now: int): (r: Result<string, TokenError>)
    ensures r.Success? ==> token.Signed? && ValidateTokenPayload(token.claims, expected) == r
  {
    var payload := DecodeToken(token, now);
    if payload.Failure? then Failure(payload.error) else ValidateTokenPayload(payload.value, expected)
  }

  /** A refresh token issued at `issued` is accepted, for its own subject, up
      to and including the second it expires, and refused as expired after. */
  lemma RefreshTokenRoundTrip(email: string, issued: int, now: int)
    ensures now <= issued + RefreshTtl ==> CheckToken(RefreshToken(email, issued), "refresh", now) == Success(email)
    ensures now > issued + RefreshTtl ==> CheckToken(RefreshToken(email, issued), "refresh", now) == Failure(Expired)
  {
  }

  /** An access token issued at `issued` is accepted for 30 minutes. */
  lemma AccessTokenRoundTrip(email: string, issued: int, now: int)
    ensures now <= issued + AccessTtl ==> CheckToken(AccessToken(email, issued), "access", now) == Success(email)
    ensures now > issued + AccessTtl ==> CheckToken(AccessToken(email, issued), "access", now) == Failure(Expired)
  {
  }

  /** The two kinds are never confused: an unexpired access token is not a
      refresh token and an unexpired refresh token is not an access token. */
  lemma KindsAreNotInterchangeable(email: string, issued: int, now: int)
    ensures now <= issued + AccessTtl ==> CheckToken(AccessToken(email, issued), "refresh", now) == Failure(WrongType)
    ensures now <= issued + RefreshTtl ==> CheckToken(RefreshToken(email, issued), "access", now) == Failure(WrongType)
  {
    assert JStr("access") != JStr("refresh");
  }

  /** Tokens carry no issue time or nonce, so two refresh tokens for the same
      account issued in the same second are the same string, and tokens of
      different accounts or different seconds differ. */
  lemma RefreshTokenIdentity(e1: string, t1: int, e2: string, t2: int)
    ensures RefreshToken(e1, t1) == RefreshToken(e2, t2) <==> e1 == e2 && t1 == t2
  {
    if RefreshToken(e1, t1) == RefreshToken(e2, t2) {
      assert RefreshToken(e1, t1).claims["sub"] == JStr(e1);
      assert RefreshToken(e1, t1).claims["exp"] == JInt(t1 + RefreshTtl);
    }
  }
}
