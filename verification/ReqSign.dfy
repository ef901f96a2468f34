/**
 HMAC request signing: the signed payload, the signing transport and the verifying
 middleware's decision. The MAC is a parameter; times are nanoseconds since the epoch.
 */
module ReqSign {
  import opened Wrappers
  import opened Arithmetic
  import opened Text
  import opened Decimal
  import opened Radix

  const SECOND: int := 1_000_000_000
  const DEFAULT_REPLAY_WINDOW: int := 300 * SECOND
  const DEFAULT_HEADER := "X-Signature"
  const DEFAULT_TIMESTAMP_HEADER := "X-Timestamp"

  /** HMAC-SHA256: key and message to a digest of 32 bytes. */
  type Mac = (seq<byte>, seq<byte>) -> seq<byte>

  ghost predicate DigestsOf32Bytes(mac: Mac) {
    forall key, msg :: |mac(key, msg)| == 32
  }

  /** The Unix time of an instant, rounded down to whole seconds. */
  function Unix(time: int): int {
    time / SECOND
  }

  predicate IsInt64(i: int) {
    -INT64_LIMIT <= i < INT64_LIMIT
  }

  // ---- The signed payload ----

  function Prefix(ts: int): string {
    FormatInt(ts) + "\n"
  }

  function BytesOf(s: string): (bytes: seq<byte>)
    ensures |bytes| == |s|
  {
    seq(|s|, i requires 0 <= i < |s| => s[i] as int % 256)
  }

  function Payload(ts: int, body: seq<byte>): seq<byte> {
    BytesOf(Prefix(ts)) + body
  }

  method BuildPayload(ts: int, body: seq<byte>) returns (payload: array<byte>)
    ensures fresh(payload) && payload[..] == Payload(ts, body)
  {
    var prefix := BytesOf(Prefix(ts));
    payload := new byte[|prefix| + |body|](_ => 0);
    forall i | 0 <= i < |prefix| {
      payload[i] := prefix[i];
    }
    forall i | 0 <= i < |body| {
      payload[|prefix| + i] := body[i];
    }
    assert payload[..|prefix|] == prefix;
    assert payload[|prefix|..] == body;
  }

  lemma PrefixBytes(ts: int)
    requires IsInt64(ts)
    ensures var digits, bytes := FormatInt(ts), BytesOf(Prefix(ts));
            && |bytes| == |digits| + 1 && bytes[|digits|] == 10
            && forall i :: 0 <= i < |digits| ==> bytes[i] == digits[i] as int && bytes[i] != 10
  {
    ParseFormatInt(ts);
    var digits, bytes := FormatInt(ts), BytesOf(Prefix(ts));
    forall i | 0 <= i < |digits| ensures bytes[i] == digits[i] as int && bytes[i] != 10 {
      assert Prefix(ts)[i] == digits[i];
      assert digits[i] == '-' || IsDigit(digits[i]);
    }
    assert Prefix(ts)[|digits|] == '\n';
  }

  /** No two pairs of timestamp and body share a payload. */
  lemma PayloadIsInjective(ts1: int, body1: seq<byte>, ts2: int, body2: seq<byte>)
    requires IsInt64(ts1) && IsInt64(ts2)
    requires Payload(ts1, body1) == Payload(ts2, body2)
    ensures ts1 == ts2 && body1 == body2
  {
    hide FormatInt, BytesOf, Prefix, ParseInt64;
    var digits1, digits2 := FormatInt(ts1), FormatInt(ts2);
    var bytes1, bytes2 := BytesOf(Prefix(ts1)), BytesOf(Prefix(ts2));
    PrefixBytes(ts1);
    PrefixBytes(ts2);
    var payload := Payload(ts1, body1);
    assert payload[|digits1|] == bytes1[|digits1|] && payload[|digits2|] == bytes2[|digits2|];
    assert forall i :: 0 <= i < |digits1| ==> payload[i] == bytes1[i];
    assert forall i :: 0 <= i < |digits2| ==> payload[i] == bytes2[i];
    assert |digits1| == |digits2|;
    assert forall i :: 0 <= i < |digits1| ==> digits1[i] as int == digits2[i] as int;
    assert digits1 == digits2;
    ParseFormatInt(ts1);
    ParseFormatInt(ts2);
    assert payload[|bytes1|..] == body1 && payload[|bytes2|..] == body2;
  }

  /** The payload is the decimal of the timestamp, a line end and the body. */
  lemma PayloadExactly(ts: int, body: seq<byte>)
    requires IsInt64(ts)
    ensures var text, payload := FormatInt(ts), Payload(ts, body);
            && ParseInt64(text) == Some(ts) && (ts < 0 <==> text[0] == '-')
            && IsShort(if ts < 0 then text[1..] else text)
            && |payload| == |text| + 1 + |body|
            && (forall i :: 0 <= i < |text| ==> payload[i] == text[i] as int)
            && payload[|text|] == 0x0A && payload[|text| + 1..] == body
  {
    PrefixBytes(ts);
    ParseFormatInt(ts);
    FormatIsShort(if ts < 0 then -ts else ts);
    var text, bytes := FormatInt(ts), BytesOf(Prefix(ts));
    if ts < 0 {
      assert text[1..] == FormatNat(-ts);
    }
    hide FormatInt, FormatNat, BytesOf, Prefix, ParseInt64;
    assert Payload(ts, body)[..|bytes|] == bytes && Payload(ts, body)[|bytes|..] == body;
    assert forall i :: 0 <= i < |bytes| ==> Payload(ts, body)[i] == bytes[i];
  }

  // ---- Signing and verifying ----

  function SignAt(mac: Mac, secret: seq<byte>, body: seq<byte>, ts: int): string {
    Encode(Hex, mac(secret, Payload(ts, body)))
  }

  function Sign(mac: Mac, secret: seq<byte>, body: seq<byte>, time: int): string {
    SignAt(mac, secret, body, Unix(time))
  }

  /** Go's hex decoder takes digits of either case. */
  function DecodeHex(s: string): Option<seq<byte>> {
    Decode(Hex, ToLower(s))
  }

  predicate Verify(mac: Mac, secret: seq<byte>, body: seq<byte>, time: int, sig: string) {
    match DecodeHex(sig)
    case None => false
    case Some(sigBytes) => Some(sigBytes) == DecodeHex(Sign(mac, secret, body, time))
  }

  lemma HexIsLowerCase(bytes: seq<byte>)
    ensures ToLower(Encode(Hex, bytes)) == Encode(Hex, bytes)
  {
    hide EncodeDigits, DecodeDigits;
    var s := Encode(Hex, bytes);
    DecodeEncode(Hex, bytes);
    assert forall i :: 0 <= i < |s| ==> DigitOf(Hex, s[i]).Some?;
  }

  /** Exactly the upper-, lower- and mixed-case spellings of the MAC verify. */
  lemma VerifyAcceptsSpellings(mac: Mac, secret: seq<byte>, body: seq<byte>, time: int, sig: string)
    ensures Verify(mac, secret, body, time, sig) <==> ToLower(sig) == Sign(mac, secret, body, time)
  {
    hide Encode, Decode, Payload, ToLower;
    var digest := mac(secret, Payload(Unix(time), body));
    HexIsLowerCase(digest);
    HexIsUnique(Encode(Hex, digest), digest);
    HexIsUnique(ToLower(sig), digest);
  }

  // ---- Requests ----

  datatype Request = Request(headers: map<string, string>, body: seq<byte>)

  function Get(r: Request, name: string): string {
    if name in r.headers then r.headers[name] else ""
  }

  datatype SigningTransport = SigningTransport(secret: seq<byte>, header: string, timestampHeader: string)

  /** What the transport sends: the request with both headers set, and the body as it was. */
  function RoundTrip(mac: Mac, t: SigningTransport, r: Request, now: int): Request {
    var sig := Sign(mac, t.secret, r.body, now);
    r.(headers := r.headers[t.timestampHeader := FormatInt(Unix(now))][t.header := sig])
  }

  datatype VerifyOptions = VerifyOptions(header: string, timestampHeader: string, replayWindow: int)

  function WithDefaults(o: VerifyOptions): VerifyOptions {
    VerifyOptions(if o.header != "" then o.header else DEFAULT_HEADER,
                  if o.timestampHeader != "" then o.timestampHeader else DEFAULT_TIMESTAMP_HEADER,
                  if o.replayWindow > 0 then o.replayWindow else DEFAULT_REPLAY_WINDOW)
  }

  datatype Outcome = Accepted | MissingHeader | InvalidSignature | ReplayDetected

  function Age(ts: int, now: int): int {
    var since := now - ts * SECOND;
    if since < 0 then -since else since
  }

  function Middleware(mac: Mac, secret: seq<byte>, opts: VerifyOptions, r: Request, now: int): Outcome {
    var cfg := WithDefaults(opts);
    var sig, tsStr := Get(r, cfg.header), Get(r, cfg.timestampHeader);
    if sig == "" || tsStr == "" then MissingHeader
    else
      match ParseInt64(TrimSpace(tsStr))
      case None => InvalidSignature
      case Some(ts) =>
        if Age(ts, now) > cfg.replayWindow then ReplayDetected
        else if Verify(mac, secret, r.body, ts * SECOND, sig) then Accepted
        else InvalidSignature
  }

  /** What is sent in a header; a missing header counts as empty. */
  ghost predicate Sends(r: Request, name: string, value: string) {
    if value == "" then name !in r.headers || r.headers[name] == "" else name in r.headers && r.headers[name] == value
  }

  /** The signature spells the MAC of the timestamp and the body in hexadecimal digits of either case. */
  ghost predicate IsSignatureOf(mac: Mac, secret: seq<byte>, ts: int, body: seq<byte>, sig: string) {
    ToLower(sig) == Encode(Hex, mac(secret, Payload(ts, body)))
  }

  /**
   The outcome of any request: an empty or missing header is told first, then a timestamp
   that is no number, then one outside the replay window, and of the rest exactly those
   with a signature of their own timestamp and body are accepted.
   */
  lemma OutcomeExactly(mac: Mac, secret: seq<byte>, opts: VerifyOptions, r: Request, now: int, sig: string, sent: string)
    requires Sends(r, if opts.header == "" then "X-Signature" else opts.header, sig)
    requires Sends(r, if opts.timestampHeader == "" then "X-Timestamp" else opts.timestampHeader, sent)
    ensures var window := if opts.replayWindow > 0 then opts.replayWindow else 300_000_000_000;
            Middleware(mac, secret, opts, r, now) ==
            if sig == "" || sent == "" then MissingHeader
            else
              match ParseInt64(TrimSpace(sent))
              case None => InvalidSignature
              case Some(ts) =>
                var sinceThen := now - ts * 1_000_000_000;
                if sinceThen > window || -sinceThen > window then ReplayDetected
                else if IsSignatureOf(mac, secret, ts, r.body, sig) then Accepted
                else InvalidSignature
  {
    hide Payload, TrimSpace, ParseInt64, Verify, ToLower, Encode;
    if ParseInt64(TrimSpace(sent)).Some? {
      var ts := ParseInt64(TrimSpace(sent)).value;
      VerifyAcceptsSpellings(mac, secret, r.body, ts * SECOND, sig);
      UnixOfSeconds(ts);
    }
  }

  /** A request is accepted if and only if it is fresh and carries a signature of its own timestamp and body. */
  lemma AcceptedExactly(mac: Mac, secret: seq<byte>, opts: VerifyOptions, r: Request, now: int, sig: string, sent: string)
    requires Sends(r, if opts.header == "" then "X-Signature" else opts.header, sig)
    requires Sends(r, if opts.timestampHeader == "" then "X-Timestamp" else opts.timestampHeader, sent)
    ensures Middleware(mac, secret, opts, r, now) == Accepted <==>
            && sig != "" && sent != ""
            && exists ts :: && ParseInt64(TrimSpace(sent)) == Some(ts)
                            && -(if opts.replayWindow > 0 then opts.replayWindow else 300_000_000_000)
                               <= now - ts * 1_000_000_000
                               <= (if opts.replayWindow > 0 then opts.replayWindow else 300_000_000_000)
                            && IsSignatureOf(mac, secret, ts, r.body, sig)
  {
    hide Payload, TrimSpace, ParseInt64, Middleware, IsSignatureOf;
    OutcomeExactly(mac, secret, opts, r, now, sig, sent);
  }

  lemma FormatIntIsPlain(i: int)
    requires IsInt64(i)
    ensures FormatInt(i) != "" && TrimSpace(FormatInt(i)) == FormatInt(i)
  {
    ParseFormatInt(i);
    ValueOfFormat(if i < 0 then -i else i);
    TrimSpaceDrops("", FormatInt(i), "");
    assert "" + FormatInt(i) + "" == FormatInt(i);
  }

  lemma SignatureIsNotEmpty(mac: Mac, secret: seq<byte>, body: seq<byte>, ts: int)
    requires DigestsOf32Bytes(mac)
    ensures SignAt(mac, secret, body, ts) != ""
  {
    hide Payload;
    var digest := mac(secret, Payload(ts, body));
    var bits := Spread(digest, 8);
    assert |bits| == 256;
  }

  lemma UnixOfSeconds(ts: int)
    ensures Unix(ts * SECOND) == ts
  {
    assert 0 / SECOND == 0;
    QuotientOfShifted(0, ts, SECOND);
  }

  /**
   A request that the transport signed is accepted if and only if the whole second it was
   signed in is at most the replay window away, and is rejected as a replay otherwise.
   */
  lemma SignedRequestIsAccepted(mac: Mac, t: SigningTransport, opts: VerifyOptions, r: Request, signed: int, now: int)
    requires DigestsOf32Bytes(mac) && IsInt64(Unix(signed))
    requires t.header == WithDefaults(opts).header && t.timestampHeader == WithDefaults(opts).timestampHeader
    requires t.header != t.timestampHeader
    ensures Middleware(mac, t.secret, opts, RoundTrip(mac, t, r, signed), now) ==
            if Age(Unix(signed), now) <= WithDefaults(opts).replayWindow then Accepted else ReplayDetected
  {
    hide Payload, FormatInt, TrimSpace, ParseInt64, Verify, SignAt, Age, WithDefaults, DigestsOf32Bytes;
    var ts := Unix(signed);
    FormatIntIsPlain(ts);
    ParseFormatInt(ts);
    SignatureIsNotEmpty(mac, t.secret, r.body, ts);
    UnixOfSeconds(ts);
    VerifyAcceptsSpellings(mac, t.secret, r.body, ts * SECOND, SignAt(mac, t.secret, r.body, ts));
    SignatureIsLowerCase(mac, t.secret, r.body, ts);
  }

  lemma SignatureIsLowerCase(mac: Mac, secret: seq<byte>, body: seq<byte>, ts: int)
    ensures ToLower(SignAt(mac, secret, body, ts)) == SignAt(mac, secret, body, ts)
  {
    HexIsLowerCase(mac(secret, Payload(ts, body)));
  }

  /**
   If a request carrying the signature made for one timestamp and body is accepted with
   another timestamp or body, then two different payloads have the same MAC.
   */
  lemma TamperingNeedsACollision(mac: Mac, secret: seq<byte>, opts: VerifyOptions, r: Request, now: int,
                                 ts: int, body: seq<byte>)
    requires IsInt64(ts)
    requires Middleware(mac, secret, opts, r, now) == Accepted
    requires Get(r, WithDefaults(opts).header) == SignAt(mac, secret, body, ts)
    ensures exists received ::
              && ParseInt64(TrimSpace(Get(r, WithDefaults(opts).timestampHeader))) == Some(received)
              && mac(secret, Payload(received, r.body)) == mac(secret, Payload(ts, body))
              && (Payload(received, r.body) == Payload(ts, body) ==> received == ts && r.body == body)
  {
    hide Payload, FormatInt, TrimSpace, ToLower, Encode, Decode, Age, WithDefaults, DigitsValue, Unsigned, IsNumeral;
    var received := ParseInt64(TrimSpace(Get(r, WithDefaults(opts).timestampHeader))).value;
    var sig := SignAt(mac, secret, body, ts);
    VerifyAcceptsSpellings(mac, secret, r.body, received * SECOND, sig);
    UnixOfSeconds(received);
    SignatureIsLowerCase(mac, secret, body, ts);
    HexIsUnique(sig, mac(secret, Payload(ts, body)));
    HexIsUnique(sig, mac(secret, Payload(received, r.body)));
    if Payload(received, r.body) == Payload(ts, body) {
      PayloadIsInjective(received, r.body, ts, body);
    }
  }
}
