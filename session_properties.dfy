/**
 * What `generate_session_token` and `read_session_token` promise together:
 * round trips, the expiry boundary, rejection of unsigned and short tokens, the
 * shape of the recovered id, and the quirks of the no-expiry mode.
 */
module SessionProperties {
  import opened Basics
  import Base64Url
  import Utf8
  import Decimal
  import Fields
  import opened SessionManager

  /** The digits of a timestamp contain no "-". */
  lemma DashNotInDigits(n: nat)
    ensures Dash !in Decimal.Format(n)
    ensures Utf8.ValidUtf8(Decimal.Format(n))
  {
    Utf8.AsciiValid(Decimal.Format(n));
  }

  /** A generated payload is text. */
  lemma PayloadValid(c: Config, userId: seq<byte>, now: nat)
    requires Utf8.ValidUtf8(userId)
    ensures Utf8.ValidUtf8(Payload(c, userId, now))
  {
    if Expires(c) {
      DashNotInDigits(now + c.maxAge.value);
      Utf8.AsciiValid([Dash]);
      Utf8.ConcatValid(userId, [Dash]);
      Utf8.ConcatValid(userId + [Dash], Decimal.Format(now + c.maxAge.value));
    }
  }

  /** A token decodes to `len(payload) + min(hashlen, 32)` bytes. */
  lemma DecodedTokenLength(c: Config, H: Sha256, userId: seq<byte>, now: nat)
    requires c.hashlen >= 1
    requires Utf8.ValidUtf8(userId)
    ensures Base64Url.Decode(Generate(c, H, userId, now)).Some?
    ensures |Base64Url.Decode(Generate(c, H, userId, now)).value| ==
      |Payload(c, userId, now)| + Min(c.hashlen, DigestLength)
  {
  }

  /** A token generated with `1 <= hashlen <= 32` passes `Verify` and gives back its payload. */
  lemma VerifyGenerated(c: Config, H: Sha256, userId: seq<byte>, now: nat)
    requires 1 <= c.hashlen <= DigestLength
    requires Utf8.ValidUtf8(userId)
    ensures Verify(c, H, Generate(c, H, userId, now)) == Success(Payload(c, userId, now))
  {
    var p := Payload(c, userId, now);
    var d := p + Tag(c, H, p);
    DecodedTokenLength(c, H, userId, now);
    assert SignatureStart(c, |d|) == |p|;
    assert d[..|p|] == p && d[|p|..] == Tag(c, H, p);
    PayloadValid(c, userId, now);
  }

  /** The end of the reader on a generated payload: with a maximum age the id comes back
      up to the expiry second and `Expired` after it; without one, the reader keeps only
      the part of the user id before its last "-". */
  lemma RecoverPayload(c: Config, userId: seq<byte>, now: nat, later: int)
    ensures Recover(c, Payload(c, userId, now), later) ==
      if !Expires(c) then Success(Fields.BeforeLast(userId, Dash))
      else if later > now + c.maxAge.value then Failure(Expired)
      else Success(userId)
  {
    if Expires(c) {
      var expiry := now + c.maxAge.value;
      DashNotInDigits(expiry);
      Fields.BeforeLastAppend(userId, Dash, Decimal.Format(expiry));
      Decimal.ParseFormat(expiry);
    }
  }

  /** Reading a token generated at `now` at any time `later`. */
  lemma ReadGenerated(c: Config, H: Sha256, userId: seq<byte>, now: nat, later: int)
    requires 1 <= c.hashlen <= DigestLength
    requires Utf8.ValidUtf8(userId)
    ensures Read(c, H, Generate(c, H, userId, now), later) ==
      if !Expires(c) then Success(Fields.BeforeLast(userId, Dash))
      else if later > now + c.maxAge.value then Failure(Expired)
      else Success(userId)
  {
    VerifyGenerated(c, H, userId, now);
    RecoverPayload(c, userId, now, later);
  }

  /** Round trip with expiry: any user id, dashes included, comes back unchanged until the
      token expires. */
  lemma RoundTripWithExpiry(c: Config, H: Sha256, userId: seq<byte>, now: nat, later: int)
    requires Expires(c) && 1 <= c.hashlen <= DigestLength
    requires Utf8.ValidUtf8(userId)
    requires later <= now + c.maxAge.value
    ensures Read(c, H, Generate(c, H, userId, now), later) == Success(userId)
  {
    ReadGenerated(c, H, userId, now, later);
  }

  /** The expiry comparison is strict: a token is still good at its expiry second and
      `Expired` from the next one on, and nothing else makes a signed token with a
      well-formed timestamp fail. */
  lemma StrictExpiry(c: Config, H: Sha256, token: seq<char>, now: int, payload: seq<byte>, expiry: nat)
    requires Expires(c)
    requires Verify(c, H, token) == Success(payload)
    requires Decimal.Parse(Fields.AfterLast(payload, Dash)) == Some(expiry)
    ensures Read(c, H, token, now) == Failure(Expired) <==> now > expiry
    ensures now <= expiry ==> Read(c, H, token, now) == Success(Fields.BeforeLast(payload, Dash))
  {
  }

  /** The token is four characters per started group of three bytes of payload and
      signature, the signature being `min(hashlen, 32)` bytes; all its characters are in
      the URL-safe alphabet except for the '=' padding at the end. */
  lemma TokenLength(c: Config, H: Sha256, userId: seq<byte>, now: nat)
    requires c.hashlen >= 1
    requires Utf8.ValidUtf8(userId)
    ensures var n := |Payload(c, userId, now)| + Min(c.hashlen, DigestLength);
      var token := Generate(c, H, userId, now);
      && |token| == Base64Url.EncodedLength(n) == 4 * ((n + 2) / 3)
      && |token| % 4 == 0
      && Base64Url.WellShaped(token, Base64Url.PadCount(n))
  {
    var p := Payload(c, userId, now);
    var x := p + Tag(c, H, p);
    assert |x| == |p| + Min(c.hashlen, DigestLength);
    assert Generate(c, H, userId, now) == Base64Url.Encode(x);
    Base64Url.EncodedLengthFormula(|x|);
  }

  lemma EncodedLengthGrows(m: nat, n: nat)
    requires m + 3 <= n
    ensures Base64Url.EncodedLength(m) + 4 <= Base64Url.EncodedLength(n)
  {
    Base64Url.EncodedLengthFormula(m);
    Base64Url.EncodedLengthFormula(n);
    assert (m + 2) / 3 + 1 <= (n + 2) / 3;
  }


  /** A shorter signature makes a shorter token: three bytes less make at least four
      characters less (for instance 8 against 32 bytes). */
  lemma TruncationShortensToken(c: Config, H: Sha256, userId: seq<byte>, now: nat, short: nat, long: nat)
    requires 1 <= short && short + 3 <= long <= DigestLength
    requires Utf8.ValidUtf8(userId)
    ensures |Generate(c.(hashlen := short), H, userId, now)| + 4 <= |Generate(c.(hashlen := long), H, userId, now)|
  {
    var c1, c2 := c.(hashlen := short), c.(hashlen := long);
    var p := Payload(c, userId, now);
    assert Payload(c1, userId, now) == p && Payload(c2, userId, now) == p;
    var x1, x2 := p + Tag(c1, H, p), p + Tag(c2, H, p);
    assert |x1| == |p| + short && |x2| == |p| + long;
    assert Generate(c1, H, userId, now) == Base64Url.Encode(x1);
    assert Generate(c2, H, userId, now) == Base64Url.Encode(x2);
    EncodedLengthGrows(|x1|, |x2|);
  }

  /** Nothing is accepted without a matching signature: `InvalidSignature` exactly when
      the token decodes and its last `hashlen` bytes differ from the digest of the rest
      with the secret appended, cut to `hashlen` bytes; this is decided before the
      payload is decoded or its timestamp read, so it holds at any time. */
  lemma InvalidSignatureExactly(c: Config, H: Sha256, token: seq<char>, now: int)
    requires 1 <= c.hashlen
    ensures Read(c, H, token, now) == Failure(InvalidSignature) <==>
      (Base64Url.Decode(token).Some? &&
       var d := Base64Url.Decode(token).value;
       var k := if |d| < c.hashlen then 0 else |d| - c.hashlen;
       d[k..] != H(d[..k] + c.secret)[..Min(c.hashlen, DigestLength)])
  {
    if Base64Url.Decode(token).Some? {
      var d := Base64Url.Decode(token).value;
      var k := SignatureStart(c, |d|);
      assert k == if |d| < c.hashlen then 0 else |d| - c.hashlen;
      assert Tag(c, H, d[..k]) == H(d[..k] + c.secret)[..Min(c.hashlen, DigestLength)];
    }
  }

  /** With a maximum age, a signed payload whose text after the last "-" is not a number
      is `Malformed` (`float(timestamp)` raises), whatever the time. */
  lemma UnparsableTimestampMalformed(c: Config, H: Sha256, token: seq<char>, now: int, payload: seq<byte>)
    requires Expires(c)
    requires Verify(c, H, token) == Success(payload)
    requires Decimal.Parse(Fields.AfterLast(payload, Dash)).None?
    ensures Read(c, H, token, now) == Failure(Malformed)
  {
  }

  /** A token issued for "ab" without a maximum age, read by a manager with the same
      secret and a maximum age, is `Malformed`: its last field "ab" is no timestamp. */
  lemma TokenWithoutTimestampMalformed(c: Config, H: Sha256, now: nat, later: int, age: nat)
    requires !Expires(c) && 1 <= c.hashlen <= DigestLength && age > 0
    ensures var ab: seq<byte> := [0x61, 0x62];
      Read(c.(maxAge := Some(age)), H, Generate(c, H, ab, now), later) == Failure(Malformed)
  {
    var ab: seq<byte> := [0x61, 0x62];
    var c2 := c.(maxAge := Some(age));
    Utf8.AsciiValid(ab);
    var token := Generate(c, H, ab, now);
    VerifyGenerated(c, H, ab, now);
    assert Verify(c2, H, token) == Verify(c, H, token) == Success(ab);
    assert !Decimal.IsDigit(Fields.AfterLast(ab, Dash)[0]);
    UnparsableTimestampMalformed(c2, H, token, later, ab);
  }

  /** Whatever passes verification -- and by the contract of `Read` that is every token
      the reader accepts or rejects only as expired -- decodes to a payload followed by
      that payload's own signature. */
  lemma AcceptedIsSigned(c: Config, H: Sha256, token: seq<char>)
    requires 1 <= c.hashlen <= DigestLength
    requires Verify(c, H, token).Success?
    ensures Base64Url.Decode(token).Some?
    ensures var d := Base64Url.Decode(token).value;
      |d| >= c.hashlen &&
      d == d[..|d| - c.hashlen] + H(d[..|d| - c.hashlen] + c.secret)[..c.hashlen]
  {
    assert Signed(c, H, Base64Url.Decode(token).value);
  }

  /** A token that decodes to fewer than `hashlen` bytes is all signature and too short
      to match the digest: `InvalidSignature` at any time. */
  lemma ShortTokenRejected(c: Config, H: Sha256, token: seq<char>, now: int)
    requires 1 <= c.hashlen <= DigestLength
    requires Base64Url.Decode(token).Some? && |Base64Url.Decode(token).value| < c.hashlen
    ensures Read(c, H, token, now) == Failure(InvalidSignature)
  {
    var d := Base64Url.Decode(token).value;
    assert SignatureStart(c, |d|) == 0;
    assert |d[0..]| != |Tag(c, H, d[..0])|;
  }

  /** The id the reader returns is the payload up to its last "-": the payload is that id,
      "-", and a dash-free tail; or the payload has no "-" at all and the id is empty. */
  lemma AcceptedIdIsPrefix(c: Config, H: Sha256, token: seq<char>, now: int, userId: seq<byte>)
    requires Read(c, H, token, now) == Success(userId)
    ensures Verify(c, H, token).Success?
    ensures var p := Verify(c, H, token).value;
      userId <= p &&
      ((exists tail :: Dash !in tail && p == userId + [Dash] + tail) ||
       (userId == [] && Dash !in p))
  {
    var p := Verify(c, H, token).value;
    var tail := Fields.AfterLast(p, Dash);
    if p == userId + [Dash] + tail {
      assert userId <= p by { assert p[..|userId|] == userId; }
    }
  }

  /** Without a maximum age (none, or 0) tokens carry no timestamp and reading them never
      consults the clock. */
  lemma NoExpiryIgnoresTime(c: Config, H: Sha256, token: seq<char>, t1: int, t2: int)
    requires !Expires(c)
    ensures Read(c, H, token, t1) == Read(c, H, token, t2)
    ensures Read(c, H, token, t1) != Failure(Expired)
  {
  }

  /** Without a maximum age the token does not depend on when it was issued. */
  lemma NoExpiryTokenTimeless(c: Config, H: Sha256, userId: seq<byte>, t1: nat, t2: nat)
    requires !Expires(c) && c.hashlen >= 1
    requires Utf8.ValidUtf8(userId)
    ensures Generate(c, H, userId, t1) == Generate(c, H, userId, t2)
    ensures Payload(c, userId, t1) == userId
  {
  }

  /** As written, the no-expiry reader strips the last "-" field of the id itself: a user
      id without "-" (for instance "ab") comes back empty. */
  lemma NoExpiryDropsUserId(c: Config, H: Sha256, userId: seq<byte>, now: nat, later: int)
    requires !Expires(c) && 1 <= c.hashlen <= DigestLength
    requires Utf8.ValidUtf8(userId) && Dash !in userId && userId != []
    ensures Read(c, H, Generate(c, H, userId, now), later) == Success([])
    ensures Read(c, H, Generate(c, H, userId, now), later) != Success(userId)
  {
    ReadGenerated(c, H, userId, now, later);
    Fields.SplitNoSep(userId, Dash);
    assert Fields.Split(userId, Dash)[..0] == [];
  }

  /** The intended reader returns every user id unchanged in both modes until the token
      expires, and reports `Expired` after. */
  lemma IntendedRoundTrip(c: Config, H: Sha256, userId: seq<byte>, now: nat, later: int)
    requires 1 <= c.hashlen <= DigestLength
    requires Utf8.ValidUtf8(userId)
    ensures ReadIntended(c, H, Generate(c, H, userId, now), later) ==
      if Expires(c) && later > now + c.maxAge.value then Failure(Expired) else Success(userId)
  {
    VerifyGenerated(c, H, userId, now);
    ReadGenerated(c, H, userId, now, later);
  }

  /** With `hashlen` above 32 the generator still writes a 32-byte signature but the
      reader takes `hashlen` bytes, so every token with a non-empty payload is refused. */
  lemma OversizedHashlenRejectsOwnTokens(c: Config, H: Sha256, userId: seq<byte>, now: nat, later: int)
    requires c.hashlen > DigestLength
    requires Utf8.ValidUtf8(userId)
    requires userId != [] || Expires(c)
    ensures Read(c, H, Generate(c, H, userId, now), later) == Failure(InvalidSignature)
  {
    var p := Payload(c, userId, now);
    var d := p + Tag(c, H, p);
    DecodedTokenLength(c, H, userId, now);
    assert |p| > 0;
    var k := SignatureStart(c, |d|);
    assert |d[k..]| != DigestLength;
  }

  /** `SessionManager(secret)` with the constructor's defaults (30 days, 16-byte
      signatures) gives back any user id for 30 days and reports `Expired` after. */
  lemma DefaultConfigRoundTrip(secret: seq<byte>, H: Sha256, userId: seq<byte>, now: nat, later: int)
    requires Utf8.ValidUtf8(userId)
    ensures var c := Config(secret := secret);
      Read(c, H, Generate(c, H, userId, now), later) ==
        if later > now + 2592000 then Failure(Expired) else Success(userId)
  {
    ReadGenerated(Config(secret := secret), H, userId, now, later);
  }

  /** The scenario secret "s3cr3t", a maximum age of 3600 s, 16-byte signatures and the
      user id "user-42": read back one second after issue, expired 3601 s after. */
  lemma UserScenario(H: Sha256, issued: nat)
    ensures var c := Config(secret := [0x73, 0x33, 0x63, 0x72, 0x33, 0x74], maxAge := Some(3600), hashlen := 16);
      var userId: seq<byte> := [0x75, 0x73, 0x65, 0x72, 0x2D, 0x34, 0x32];
      && Read(c, H, Generate(c, H, userId, issued), issued + 1) == Success(userId)
      && Read(c, H, Generate(c, H, userId, issued), issued + 3601) == Failure(Expired)
  {
    var c := Config(secret := [0x73, 0x33, 0x63, 0x72, 0x33, 0x74], maxAge := Some(3600), hashlen := 16);
    var userId: seq<byte> := [0x75, 0x73, 0x65, 0x72, 0x2D, 0x34, 0x32];
    Utf8.AsciiValid(userId);
    ReadGenerated(c, H, userId, issued, issued + 1);
    ReadGenerated(c, H, userId, issued, issued + 3601);
  }
}
