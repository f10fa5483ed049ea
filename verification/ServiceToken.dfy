/** The self-describing service token: "svc_" and the base64url text of a big-endian expiry second
    followed by 24 random bytes. Instants are nanoseconds since the epoch. */
module ServiceToken {
  import opened Common
  import opened Base64Url

  type Instant = int

  type Int32 = x: int | -0x8000_0000 <= x < 0x8000_0000

  const SECOND: int := 1_000_000_000

  const HOUR: int := 3600 * SECOND

  const SECONDS_PER_DAY: int := 86400

  const PREFIX: string := "svc_"

  /** The longest lifetime whose duration fits a signed 64-bit count of nanoseconds. */
  const MAX_DAYS: int := 106751

  /** Whole seconds since the epoch, rounded down. */
  function Unix(t: Instant): (seconds: int)
    ensures seconds * SECOND <= t < (seconds + 1) * SECOND
  {
    t / SECOND
  }

  /** Days as a 64-bit duration; each product wraps. */
  function Lifetime(days: Int32): Int64 {
    Wrap64(Wrap64(days * 24) * HOUR)
  }

  /** When a token issued at `now` expires; non-positive lifetimes mean never. */
  function ExpiresAt(days: Int32, now: Instant): Option<Instant> {
    if days > 0 then Some(now + Lifetime(days)) else None
  }

  /** The expiry second packed into the token; 0 means never. */
  function EmbeddedExpiry(expiresAt: Option<Instant>): int {
    if expiresAt.Some? then Unix(expiresAt.value) else 0
  }

  /** The expiry second fits a signed 64-bit word. */
  predicate InRange(expiresAt: Option<Instant>) {
    -TWO_63 <= EmbeddedExpiry(expiresAt) < TWO_63
  }

  function Payload(exp: Int64, random: seq<Byte>): seq<Byte> {
    BigEndian(ToUnsigned(exp), 8) + random
  }

  function TokenText(exp: Int64, random: seq<Byte>): string {
    PREFIX + Encode(Payload(exp, random))
  }

  method PutUint64(buffer: array<Byte>, v: nat)
    requires buffer.Length >= 8 && v < TWO_64
    modifies buffer
    ensures buffer[..8] == BigEndian(v, 8)
    ensures forall i :: 8 <= i < buffer.Length ==> buffer[i] == old(buffer[i])
  {
    var rest := v;
    var i := 8;
    while i > 0
      invariant 0 <= i <= 8
      invariant rest >= 0 && BigEndian(v, 8) == BigEndian(rest, i) + buffer[i..8]
      invariant forall k :: 8 <= k < buffer.Length ==> buffer[k] == old(buffer[k])
    {
      i := i - 1;
      ghost var tail := buffer[i + 1..8];
      buffer[i] := rest % 256;
      assert buffer[i..8] == [rest % 256] + tail;
      rest := rest / 256;
    }
  }

  datatype NewToken = NewToken(token: string, expiresAt: Option<Instant>)

  /** The clock and the 24 random bytes are inputs. */
  method GenerateServiceToken(days: Int32, now: Instant, random: seq<Byte>) returns (r: NewToken)
    requires |random| == 24
    requires InRange(ExpiresAt(days, now))
    ensures r.expiresAt == ExpiresAt(days, now)
    ensures r.token == TokenText(EmbeddedExpiry(r.expiresAt), random)
    ensures r.expiresAt == None <==> days <= 0
  {
    var payload := new Byte[32](_ => 0);
    var exp: Int64 := 0;
    var expiresAt := None;
    if days > 0 {
      var t := now + Lifetime(days);
      expiresAt := Some(t);
      exp := Unix(t);
    }
    PutUint64(payload, ToUnsigned(exp));
    for i := 0 to 24
      invariant payload[..8] == BigEndian(ToUnsigned(exp), 8)
      invariant forall k :: 0 <= k < i ==> payload[8 + k] == random[k]
    {
      payload[8 + i] := random[i];
    }
    assert payload[..] == payload[..8] + payload[8..];
    assert payload[8..] == random;
    return NewToken(PREFIX + Encode(payload[..]), expiresAt);
  }

  /** What an administrator is shown of a token: its first twelve characters. */
  function TokenPrefix(token: string): (shown: string)
    ensures shown <= token && |shown| == if |token| < 12 then |token| else 12
  {
    if |token| >= 12 then token[..12] else token
  }

  datatype TokenError = InvalidToken | TokenExpired

  /** The expiry second a token text carries, or nothing if it is not a service token. */
  function TokenExpiry(token: string): Option<Int64> {
    if |token| < |PREFIX| + 4 || token[..|PREFIX|] != PREFIX then None
    else
      var payload := Decode(token[|PREFIX|..]);
      if payload.None? || |payload.value| < 8 then None
      else Some(ToSigned(Uint64(payload.value[..8])))
  }

  function ValidateServiceTokenExpiry(token: string, now: Instant): Option<TokenError> {
    var exp := TokenExpiry(token);
    if exp.None? then Some(InvalidToken)
    else if exp.value != 0 && Unix(now) > exp.value then Some(TokenExpired)
    else None
  }

  // ----- round trip -----

  lemma ExpiryBytesRoundTrip(exp: Int64)
    ensures ToSigned(Uint64(BigEndian(ToUnsigned(exp), 8))) == exp
  {
    Power256Of8();
    BigEndianRoundTrip(ToUnsigned(exp), 8);
  }

  lemma TokenDecodes(payload: seq<Byte>)
    requires |payload| == 32
    ensures var token := PREFIX + Encode(payload);
            |token| == 47 && token[..4] == PREFIX && Decode(token[4..]) == Some(payload)
  {
    DecodeEncode(payload);
    assert (PREFIX + Encode(payload))[4..] == Encode(payload);
  }

  /** Every 64-bit expiry and every 24 random bytes come back from the text, which has 47 characters. */
  lemma TokenRoundTrip(exp: Int64, random: seq<Byte>)
    requires |random| == 24
    ensures var token := TokenText(exp, random);
            && |token| == 47
            && Decode(token[4..]) == Some(Payload(exp, random))
            && TokenExpiry(token) == Some(exp)
  {
    TokenDecodes(Payload(exp, random));
    assert Payload(exp, random)[..8] == BigEndian(ToUnsigned(exp), 8);
    ExpiryBytesRoundTrip(exp);
  }

  /** A text carries an expiry exactly if it is the prefix followed by base64url text of at least eight
      bytes, and the first eight are that expiry as it is written. */
  lemma TokenExpiryIff(token: string, exp: Int64)
    ensures TokenExpiry(token) == Some(exp) <==>
            |token| >= 4 && token[..4] == PREFIX
            && exists payload :: Decode(token[4..]) == Some(payload) && |payload| >= 8
                                 && payload[..8] == BigEndian(ToUnsigned(exp), 8)
  {
    if |token| >= 4 && Decode(token[4..]).Some? && |Decode(token[4..]).value| >= 8 {
      var first := Decode(token[4..]).value[..8];
      BigEndianOfRead(first);
      ExpiryBytesRoundTrip(exp);
      EightBytesNeedText(token[4..]);
    }
  }

  lemma EightBytesNeedText(s: string)
    requires Decode(s).Some? && |Decode(s).value| >= 8
    ensures |s| >= 4
  {
    var kept := WithoutBreaks(s);
    ByteCount(Parse(kept).value);
    ParseIff(kept, Parse(kept).value);
    BreaksShorten(s);
  }

  /** Tokens are equal only when both the expiry and the random bytes are. */
  lemma TokenTextInjective(exp: Int64, random: seq<Byte>, exp': Int64, random': seq<Byte>)
    requires |random| == 24 && |random'| == 24 && TokenText(exp, random) == TokenText(exp', random')
    ensures exp == exp' && random == random'
  {
    TokenRoundTrip(exp, random);
    TokenRoundTrip(exp', random');
    assert Payload(exp, random)[8..] == random && Payload(exp', random')[8..] == random';
  }

  lemma LifetimeExactIff(days: Int32)
    requires days > 0
    ensures Lifetime(days) == days * SECONDS_PER_DAY * SECOND <==> days <= MAX_DAYS
    ensures days > MAX_DAYS ==> AwayByASecond(Lifetime(days), days * SECONDS_PER_DAY * SECOND)
  {
  }

  /** A lifetime that is not positive means that the token never expires; any other one is added to the
      instant of issue, exactly up to 106751 days and never beyond. */
  lemma ExpiresAtIff(days: Int32, now: Instant)
    ensures ExpiresAt(days, now) == None <==> days <= 0
    ensures days > 0 ==> (ExpiresAt(days, now) == Some(now + days * SECONDS_PER_DAY * SECOND) <==> days <= MAX_DAYS)
  {
    if days > 0 {
      LifetimeExactIff(days);
    }
  }

  predicate AwayByASecond(x: int, y: int) {
    x - y >= SECOND || y - x >= SECOND
  }

  /** The packed expiry is the issuing second plus days times 86400 exactly up to 106751 days. */
  lemma ExpiryExactIff(days: Int32, now: Instant)
    requires days > 0
    ensures EmbeddedExpiry(ExpiresAt(days, now)) == Unix(now) + days * SECONDS_PER_DAY <==> days <= MAX_DAYS
  {
  }
}
