/**
 * The session-token codec of `SessionManager`: a token is the URL-safe base 64
 * encoding of a payload (the user id, then "-" and an expiry timestamp when a
 * maximum age is configured) followed by a truncated SHA-256 digest of the
 * payload with the secret appended.
 *
 * SHA-256 itself is not modelled: the hash is a parameter `H` that may be any
 * function returning 32 bytes, so every property proved here holds for SHA-256.
 * The clock is a parameter too, in whole seconds.
 */
module SessionManager {
  import opened Basics
  import Base64Url
  import Utf8
  import Decimal
  import Fields

  /** Size of a SHA-256 digest in bytes. */
  const DigestLength: nat := 32

  /** The byte of "-", which separates the user id from the expiry timestamp. */
  const Dash: byte := 0x2D

  /** A hash function with SHA-256's output size. */
  type Sha256 = h: seq<byte> -> seq<byte> | forall x :: |h(x)| == DigestLength
    witness (x: seq<byte>) => seq(32, i => 0 as byte)

  /** The three settings of a `SessionManager`, with the constructor's defaults:
      an empty secret, a maximum age of 30 days, and 16-byte signatures.
      `maxAge == None` is `max_session_age=None`. */
  datatype Config = Config(
    secret: seq<byte> := [],
    maxAge: Option<nat> := Some(60 * 60 * 24 * 30),
    hashlen: nat := 16)

  datatype Error = Malformed | InvalidSignature | Expired

  /** `if self.max_session_age:` -- Python's truthiness of an `int | None`: the falsy
      values are `None` and `0`, so a maximum age of 0 is as good as none. */
  predicate Expires(c: Config): (r: bool)
    ensures r <==> c.maxAge != None && c.maxAge != Some(0)
  {
    c.maxAge.Some? && c.maxAge.value > 0
  }

  /** The payload text (as UTF-8 bytes) for `userId` issued at time `now`. With a maximum
      age the reader finds the user id before the last "-" and the expiry time after it;
      without one the payload is the user id alone. */
  function Payload(c: Config, userId: seq<byte>, now: nat): (p: seq<byte>)
    ensures !Expires(c) ==> p == userId
    ensures Expires(c) ==> Fields.BeforeLast(p, Dash) == userId
    ensures Expires(c) ==> Decimal.Parse(Fields.AfterLast(p, Dash)) == Some(now + c.maxAge.value)
  {
    if Expires(c) then
      var expiry := now + c.maxAge.value;
      var digits := Decimal.Format(expiry);
      assert Dash !in digits;
      Fields.BeforeLastAppend(userId, Dash, digits);
      Decimal.ParseFormat(expiry);
      userId + [Dash] + digits
    else userId
  }

  /** The signature of a payload: SHA-256 of payload and secret, cut to `hashlen` bytes
      (`digest()[:hashlen]` keeps all 32 when `hashlen` exceeds 32). With `hashlen == 0`
      the reader compares against the whole digest. */
  function Tag(c: Config, H: Sha256, payload: seq<byte>): (t: seq<byte>)
    ensures |t| == (if c.hashlen == 0 then DigestLength else Min(c.hashlen, DigestLength))
    ensures t == H(payload + c.secret)[..|t|]
  {
    var digest := H(payload + c.secret);
    if c.hashlen > 0 then digest[..Min(c.hashlen, DigestLength)] else digest
  }

  /** `generate_session_token(user_id)` at time `now`. The user id is text, so its bytes
      are well-formed UTF-8; a `hashlen` of 0 would make Python concatenate bytes with a
      hash object, which fails. */
  function Generate(c: Config, H: Sha256, userId: seq<byte>, now: nat): (token: seq<char>)
    requires c.hashlen >= 1
    requires Utf8.ValidUtf8(userId)
    ensures Base64Url.Decode(token) == Some(Payload(c, userId, now) + Tag(c, H, Payload(c, userId, now)))
  {
    var payload := Payload(c, userId, now);
    Base64Url.DecodeEncode(payload + Tag(c, H, payload));
    Base64Url.Encode(payload + Tag(c, H, payload))
  }

  /** Where the reader cuts a decoded token of `n` bytes into payload and signature:
      `session[:-hashlen]` and `session[-hashlen:]` with Python's slice clamping, so a
      token shorter than `hashlen` is all signature, and `-0` cuts at the front. */
  function SignatureStart(c: Config, n: nat): (k: nat)
    ensures k <= n
    ensures c.hashlen > 0 && n >= c.hashlen ==> n - k == c.hashlen
    ensures c.hashlen == 0 || n < c.hashlen ==> k == 0
  {
    if c.hashlen == 0 then 0 else Max(0, n - c.hashlen)
  }

  /** The decoded token carries the signature of its own payload. For `1 <= hashlen <= 32`
      that is: at least `hashlen` bytes, the last `hashlen` of which are the digest of the
      rest with the secret appended, cut to `hashlen` bytes. */
  predicate Signed(c: Config, H: Sha256, d: seq<byte>): (r: bool)
    ensures 1 <= c.hashlen <= DigestLength ==>
      (r <==> |d| >= c.hashlen &&
              d == d[..|d| - c.hashlen] + H(d[..|d| - c.hashlen] + c.secret)[..c.hashlen])
  {
    var k := SignatureStart(c, |d|);
    assert d == d[..k] + d[k..];
    d[k..] == Tag(c, H, d[..k])
  }

  /** The steps of `read_session_token` that do not depend on the clock: decode the token,
      check the signature, decode the payload as UTF-8. Gives the payload. */
  function Verify(c: Config, H: Sha256, token: seq<char>): (r: Result<seq<byte>, Error>)
    ensures r != Failure(Expired)
    ensures Base64Url.Decode(token).None? ==> r == Failure(Malformed)
    ensures Base64Url.Decode(token).Some? ==>
      var d := Base64Url.Decode(token).value;
      var payload := d[..SignatureStart(c, |d|)];
      && (r == Failure(InvalidSignature) <==> !Signed(c, H, d))
      && (r.Success? <==> Signed(c, H, d) && Utf8.ValidUtf8(payload))
      && (r.Success? ==> r.value == payload)
  {
    match Base64Url.Decode(token)
    case None => Failure(Malformed)
    case Some(d) =>
      var k := SignatureStart(c, |d|);
      if d[k..] != Tag(c, H, d[..k]) then Failure(InvalidSignature)
      else if !Utf8.ValidUtf8(d[..k]) then Failure(Malformed)
      else Success(d[..k])
  }

  /** The clock-dependent end of `read_session_token` on a verified payload: with a
      maximum age the text after the last "-" must be a timestamp not earlier than `now`;
      the user id is always rebuilt as the text before the last "-", with or without a
      maximum age. */
  function Recover(c: Config, payload: seq<byte>, now: int): (r: Result<seq<byte>, Error>)
    ensures r == Failure(Expired) ==> Expires(c)
    ensures r.Success? ==> r.value == Fields.BeforeLast(payload, Dash)
    ensures !Expires(c) ==> r.Success?
    ensures Expires(c) ==>
      (r == Failure(Malformed) <==> Decimal.Parse(Fields.AfterLast(payload, Dash)).None?)
    ensures Expires(c) && Decimal.Parse(Fields.AfterLast(payload, Dash)).Some? ==>
      (r == Failure(Expired) <==> now > Decimal.Parse(Fields.AfterLast(payload, Dash)).value)
  {
    if Expires(c) then
      match Decimal.Parse(Fields.AfterLast(payload, Dash))
      case None => Failure(Malformed)
      case Some(expiry) =>
        if now > expiry then Failure(Expired) else Success(Fields.BeforeLast(payload, Dash))
    else Success(Fields.BeforeLast(payload, Dash))
  }

  /** `read_session_token(token)` at time `now`. */
  function Read(c: Config, H: Sha256, token: seq<char>, now: int): (r: Result<seq<byte>, Error>)
    ensures r == Failure(Expired) ==> Expires(c)
    ensures r.Success? || r == Failure(Expired) ==> Verify(c, H, token).Success?
    ensures r.Success? ==> r.value == Fields.BeforeLast(Verify(c, H, token).value, Dash)
  {
    match Verify(c, H, token)
    case Failure(e) => Failure(e)
    case Success(payload) => Recover(c, payload, now)
  }

  /** The reader as evidently intended: without a maximum age no timestamp was appended,
      so the whole payload is the user id. The verdict is always that of `Read`; only the
      id returned without a maximum age differs, `Read` keeping the part of it before its
      last "-". */
  function ReadIntended(c: Config, H: Sha256, token: seq<char>, now: int): (r: Result<seq<byte>, Error>)
    ensures r.Failure? <==> Read(c, H, token, now).Failure?
    ensures r.Failure? ==> r == Read(c, H, token, now)
    ensures r.Success? && Expires(c) ==> r == Read(c, H, token, now)
    ensures r.Success? && !Expires(c) ==> Read(c, H, token, now).value == Fields.BeforeLast(r.value, Dash)
  {
    if Expires(c) then Read(c, H, token, now) else Verify(c, H, token)
  }
}
