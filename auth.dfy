/** The admin session (api/_auth.ts): a token `encoded.signature`, where `encoded`
    is the base64url text of the JSON payload `{ sub, exp }` and `signature` its
    HMAC-SHA256 digest under the deployment's secret, and the cookie that carries it.
    JSON, base64url and HMAC are the functions of a `Crypto` value; the laws the
    proofs rely on are the predicate `Lawful`. */
module Auth {
  import opened Types
  import opened Strings
  import opened Server

  const SessionCookieName := "intern_admin_session"
  const SessionTtlSeconds := 60 * 60 * 8

  const SecretMissing := "SESSION_SECRET is not set"
  /** The `RangeError` that `crypto.timingSafeEqual` throws for buffers of different sizes. */
  const ByteLengthMismatch := "Input buffers must have the same byte length"
  const Unauthorized := "Unauthorized"

  /** A value, or the message of the error thrown instead. */
  datatype Outcome<T> = Value(value: T) | Thrown(message: string)

  /** The token payload. */
  datatype Session = Session(sub: string, exp: int)

  /** `JSON.stringify`, base64url encoding and decoding, `JSON.parse` (`None` when it
      throws), and the base64url HMAC-SHA256 digest of a text under a secret. */
  datatype Crypto = Crypto(
    stringify: Session -> string,
    encode: string -> string,
    decode: string -> string,
    parse: string -> Option<Session>,
    sign: (string, string) -> string)

  predicate IsBase64UrlChar(ch: char) {
    ('A' <= ch <= 'Z') || ('a' <= ch <= 'z') || ('0' <= ch <= '9') || ch == '-' || ch == '_'
  }

  /** The laws of the libraries: a payload survives stringify, encode, decode and
      parse; base64url text never holds `.`, and a stringified payload encodes to a
      non-empty text; a digest is non-empty base64url text. */
  ghost predicate Lawful(c: Crypto) {
    (forall p :: c.parse(c.decode(c.encode(c.stringify(p)))) == Some(p))
    && (forall s :: '.' !in c.encode(s))
    && (forall p :: c.encode(c.stringify(p)) != "")
    && (forall m, k :: c.sign(m, k) != "" && forall i :: 0 <= i < |c.sign(m, k)| ==> IsBase64UrlChar(c.sign(m, k)[i]))
  }

  /** `Math.floor(Date.now() / 1000)` */
  function NowSeconds(nowMs: int): (s: int)
    ensures s * 1000 <= nowMs < s * 1000 + 1000
  {
    nowMs / 1000
  }

  /** `getSecret()`: the secret, or the error when it is unset or empty. */
  function GetSecret(env: Env): (r: Outcome<string>)
    ensures r.Thrown? <==> !Truthy(env.sessionSecret)
    ensures r.Thrown? ==> r.message == SecretMissing
    ensures r.Value? ==> r.value == env.sessionSecret.value && r.value != ""
  {
    if Truthy(env.sessionSecret) then Value(env.sessionSecret.value) else Thrown(SecretMissing)
  }

  /** The payload of a token created at `nowMs`. */
  function NewSession(nowMs: int): (p: Session)
    ensures p.sub == "admin" && p.exp == NowSeconds(nowMs) + SessionTtlSeconds
  {
    Session("admin", NowSeconds(nowMs) + SessionTtlSeconds)
  }

  /** `createSessionToken()` at the time `nowMs`. */
  function CreateSessionToken(env: Env, nowMs: int, c: Crypto): (r: Outcome<string>)
    ensures r.Thrown? <==> !Truthy(env.sessionSecret)
  {
    match GetSecret(env)
    case Thrown(m) => Thrown(m)
    case Value(secret) =>
      var encoded := c.encode(c.stringify(NewSession(nowMs)));
      Value(encoded + "." + c.sign(encoded, secret))
  }

  // --------------------------------------------------------------- verifying

  /** `const [encoded, signature] = token.split('.')`, then both must be non-empty. */
  function TokenParts(token: string): (r: Option<(string, string)>)
    ensures r.Some? ==> r.value.0 != "" && r.value.1 != ""
    ensures r.Some? ==> '.' !in r.value.0 && '.' !in r.value.1
  {
    var parts := Split(token, '.');
    if |parts| < 2 || parts[0] == "" || parts[1] == "" then None
    else Some((parts[0], parts[1]))
  }

  /** The number of UTF-16 code units, `s.length`. */
  function JsLength(s: string): (n: nat)
    ensures n >= |s|
    decreases |s|
  {
    if s == [] then 0 else (if s[0] as int >= 0x10000 then 2 else 1) + JsLength(s[1..])
  }

  /** The number of UTF-8 bytes, the size of `Buffer.from(s)`. */
  function ByteLength(s: string): (n: nat)
    ensures n >= |s|
    decreases |s|
  {
    if s == [] then 0
    else
      var c := s[0] as int;
      (if c < 0x80 then 1 else if c < 0x800 then 2 else if c < 0x10000 then 3 else 4) + ByteLength(s[1..])
  }

  /** The signature comparison as written: a length check in UTF-16 code units, then
      `timingSafeEqual` on the UTF-8 bytes, which throws when the byte counts differ. */
  function CompareAsWritten(signature: string, expected: string): (r: Outcome<bool>)
    ensures r == Value(true) <==> signature == expected
    ensures r.Thrown? <==> JsLength(signature) == JsLength(expected) && ByteLength(signature) != ByteLength(expected)
  {
    if JsLength(signature) != JsLength(expected) then Value(false)
    else if ByteLength(signature) != ByteLength(expected) then Thrown(ByteLengthMismatch)
    else Value(signature == expected)
  }

  /** The comparison with the guard on the byte counts that `timingSafeEqual` needs. */
  function Compare(signature: string, expected: string): (r: Outcome<bool>)
    ensures r == Value(signature == expected)
  {
    if ByteLength(signature) != ByteLength(expected) then Value(false)
    else Value(signature == expected)
  }

  /** The `try` block: a payload that parses and has not expired. `exp == now` is
      still accepted. */
  function Unexpired(parsed: Option<Session>, nowMs: int): (r: Option<Session>)
    ensures r.Some? <==> parsed.Some? && parsed.value.exp >= NowSeconds(nowMs)
    ensures r.Some? ==> r == parsed
  {
    if parsed.None? || parsed.value.exp < NowSeconds(nowMs) then None else parsed
  }

  /** `verifySessionToken(token)` with the signature comparison as a parameter. */
  function VerifyUsing(token: Option<string>, env: Env, nowMs: int, c: Crypto,
                       compare: (string, string) -> Outcome<bool>): (r: Outcome<Option<Session>>)
    ensures !Truthy(token) ==> r == Value(None)
  {
    if !Truthy(token) then Value(None)
    else match GetSecret(env)
      case Thrown(m) => Thrown(m)
      case Value(secret) =>
        match TokenParts(token.value)
        case None => Value(None)
        case Some((encoded, signature)) =>
          match compare(signature, c.sign(encoded, secret))
          case Thrown(m) => Thrown(m)
          case Value(same) =>
            if !same then Value(None) else Value(Unexpired(c.parse(c.decode(encoded)), nowMs))
  }

  /** `verifySessionToken` as written. */
  function VerifySessionTokenAsWritten(token: Option<string>, env: Env, nowMs: int, c: Crypto): (r: Outcome<Option<Session>>)
    ensures !Truthy(token) ==> r == Value(None)
  {
    VerifyUsing(token, env, nowMs, c, CompareAsWritten)
  }

  /** A signature of the right length in UTF-16 code units but with a non-ASCII
      character makes the verifier as written throw instead of answering `null`. */
  lemma NonAsciiSignatureThrows(env: Env, nowMs: int, c: Crypto, encoded: string)
    requires Lawful(c) && Truthy(env.sessionSecret)
    requires encoded != "" && '.' !in encoded
    ensures var expected := c.sign(encoded, env.sessionSecret.value);
      var token := encoded + "." + ['é'] + expected[1..];
      VerifySessionTokenAsWritten(Some(token), env, nowMs, c) == Thrown(ByteLengthMismatch)
  {
    var expected := c.sign(encoded, env.sessionSecret.value);
    var forged := ['é'] + expected[1..];
    assert IsBase64UrlChar(expected[0]);
    assert JsLength(forged) == JsLength(expected) by {
      assert forged[1..] == expected[1..];
    }
    assert ByteLength(forged) == ByteLength(expected) + 1 by {
      assert forged[1..] == expected[1..];
    }
    assert '.' !in forged by {
      assert forall i :: 1 <= i < |forged| ==> forged[i] == expected[i];
    }
    SplitTwo(encoded, forged);
    assert encoded + "." + ['é'] + expected[1..] == encoded + "." + forged;
    assert CompareAsWritten(forged, expected) == Thrown(ByteLengthMismatch);
  }

  /** `verifySessionToken(token)` at the time `nowMs`, with the comparison that
      answers `null` for every signature that differs from the expected one. */
  function VerifySessionToken(token: Option<string>, env: Env, nowMs: int, c: Crypto): (r: Outcome<Option<Session>>)
    ensures !Truthy(token) ==> r == Value(None)
    ensures Truthy(token) ==> (r.Thrown? <==> !Truthy(env.sessionSecret))
    ensures r.Value? && r.value.Some? ==>
      TokenParts(token.value).Some?
      && TokenParts(token.value).value.1 == c.sign(TokenParts(token.value).value.0, env.sessionSecret.value)
      && c.parse(c.decode(TokenParts(token.value).value.0)) == r.value
      && r.value.value.exp >= NowSeconds(nowMs)
    ensures Truthy(token) && Truthy(env.sessionSecret) && TokenParts(token.value).Some?
      && TokenParts(token.value).value.1 == c.sign(TokenParts(token.value).value.0, env.sessionSecret.value)
      && c.parse(c.decode(TokenParts(token.value).value.0)).Some?
      && c.parse(c.decode(TokenParts(token.value).value.0)).value.exp >= NowSeconds(nowMs)
      ==> r == Value(c.parse(c.decode(TokenParts(token.value).value.0)))
  {
    VerifyUsing(token, env, nowMs, c, Compare)
  }

  lemma SplitTwo(a: string, b: string)
    requires a != "" && b != "" && '.' !in a && '.' !in b
    ensures TokenParts(a + "." + b) == Some((a, b))
  {
    SplitPrefix(a, "." + b, '.');
    SplitConsSep(b, '.');
    assert Split("." + b, '.') == [""] + [b];
    assert a + ("." + b) == a + "." + b;
    assert a + "" == a;
  }

  /** A token verified at any time up to its expiry gives back its payload. */
  lemma TokenRoundTrip(env: Env, createdMs: int, nowMs: int, c: Crypto)
    requires Lawful(c) && Truthy(env.sessionSecret)
    requires NowSeconds(nowMs) <= NewSession(createdMs).exp
    ensures CreateSessionToken(env, createdMs, c).Value?
    ensures VerifySessionToken(Some(CreateSessionToken(env, createdMs, c).value), env, nowMs, c)
      == Value(Some(NewSession(createdMs)))
  {
    var p := NewSession(createdMs);
    var encoded := c.encode(c.stringify(p));
    var signature := c.sign(encoded, env.sessionSecret.value);
    assert '.' !in signature by {
      assert forall i :: 0 <= i < |signature| ==> IsBase64UrlChar(signature[i]);
    }
    SplitTwo(encoded, signature);
  }

  /** Past its expiry the same token is refused. */
  lemma TokenExpires(env: Env, createdMs: int, nowMs: int, c: Crypto)
    requires Lawful(c) && Truthy(env.sessionSecret)
    requires NowSeconds(nowMs) > NewSession(createdMs).exp
    ensures CreateSessionToken(env, createdMs, c).Value?
    ensures VerifySessionToken(Some(CreateSessionToken(env, createdMs, c).value), env, nowMs, c) == Value(None)
  {
    var p := NewSession(createdMs);
    var encoded := c.encode(c.stringify(p));
    var signature := c.sign(encoded, env.sessionSecret.value);
    assert '.' !in signature by {
      assert forall i :: 0 <= i < |signature| ==> IsBase64UrlChar(signature[i]);
    }
    SplitTwo(encoded, signature);
  }

  // ----------------------------------------------------------------- cookies

  function SessionCookieFor(token: string, env: Env): (k: Cookie)
    ensures k.name == SessionCookieName && k.value == token && k.maxAge == SessionTtlSeconds
    ensures k.httpOnly && k.sameSite == "strict" && k.path == "/"
    ensures k.secure <==> env.nodeEnv == Some("production")
  {
    Cookie(SessionCookieName, token, true, env.nodeEnv == Some("production"), "strict", "/", SessionTtlSeconds)
  }

  function ClearedCookie(env: Env): (k: Cookie)
    ensures k.name == SessionCookieName && k.value == "" && k.maxAge == 0
    ensures k.httpOnly && k.sameSite == "strict" && k.path == "/"
    ensures k.secure <==> env.nodeEnv == Some("production")
  {
    Cookie(SessionCookieName, "", true, env.nodeEnv == Some("production"), "strict", "/", 0)
  }

  /** The clearing cookie is the session cookie with an empty value and no lifetime. */
  lemma ClearedIsEmptiedSession(token: string, env: Env)
    ensures ClearedCookie(env) == SessionCookieFor(token, env).(value := "", maxAge := 0)
  {
  }

  /** `setSessionCookie(res, token)` */
  method SetSessionCookie(res: Response, token: string, env: Env)
    modifies res`cookie
    ensures res.cookie == Some(SessionCookieFor(token, env))
  {
    res.SetCookie(SessionCookieFor(token, env));
  }

  /** `clearSessionCookie(res)` */
  method ClearSessionCookie(res: Response, env: Env)
    modifies res`cookie
    ensures res.cookie == Some(ClearedCookie(env))
  {
    res.SetCookie(ClearedCookie(env));
  }

  /** `cookies[SESSION_COOKIE]` */
  function SessionToken(cookies: map<string, string>): (t: Option<string>)
    ensures t.Some? <==> SessionCookieName in cookies
  {
    if SessionCookieName in cookies then Some(cookies[SessionCookieName]) else None
  }

  /** `requireAdminSession(req, res)`: without a valid session the response is 401
      `Unauthorized`; otherwise the response is untouched. A thrown error passes
      through to the caller. */
  method RequireAdminSession(req: ApiRequest, res: Response, env: Env, nowMs: int, c: Crypto)
    returns (session: Outcome<Option<Session>>)
    modifies res`status, res`json
    ensures session == VerifySessionToken(SessionToken(req.cookies), env, nowMs, c)
    ensures session == Value(None) ==> res.status == 401 && res.json == ErrorJson(Unauthorized)
    ensures session != Value(None) ==> res.status == old(res.status) && res.json == old(res.json)
  {
    session := VerifySessionToken(SessionToken(req.cookies), env, nowMs, c);
    if session == Value(None) {
      res.Send(401, ErrorJson(Unauthorized));
    }
  }
}
