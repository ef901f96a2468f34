/**
 The JWT service over an abstract signature scheme: signing, verifying, refreshing and
 revoking, and what any sequence of these keeps. Instants are nanoseconds; the times inside
 a token are whole seconds.
 */
module Jwt {
  import opened Wrappers

  const SECOND: int := 1_000_000_000

  function Seconds(time: int): int {
    time / SECOND
  }

  type Token = string

  /** The part of the claims that belongs to the application. */
  datatype Claims = Claims(subject: string, audience: seq<string>, custom: map<string, string>)

  /** Tokens of other issuers may leave out any of the times. */
  datatype StandardClaims =
    StandardClaims(claims: Claims, issuer: string, issuedAt: Option<int>, expiresAt: Option<int>, notBefore: Option<int>)

  /** What Verify returns. */
  datatype VerifiedClaims = VerifiedClaims(claims: Claims, issuedAt: Option<int>, expiresAt: Option<int>)

  datatype Error = MissingAlgorithm | InvalidToken | ExpiredToken | TokenRevoked | NoBlacklist

  /**
   The signature scheme. The nonce stands for the randomness of schemes that have it; a
   token parses if its signature is good, whatever its times say.
   */
  datatype Scheme = Scheme(sign: (StandardClaims, nat) -> Token, parse: Token -> Option<StandardClaims>)

  ghost predicate ParsesWhatItSigns(scheme: Scheme) {
    forall c, nonce :: scheme.parse(scheme.sign(c, nonce)) == Some(c)
  }

  /** A verify-only service has no signing method of its own. */
  datatype Config = Config(scheme: Scheme, canSign: bool, canVerify: bool, expiry: int, issuer: string)

  function ClaimsAt(cfg: Config, claims: Claims, now: int): StandardClaims {
    StandardClaims(claims, cfg.issuer, Some(Seconds(now)), Some(Seconds(now + cfg.expiry)), Some(Seconds(now)))
  }

  /** The whole second that an instant lies in. */
  predicate IsSecondOf(second: int, time: int) {
    second * 1_000_000_000 <= time < (second + 1) * 1_000_000_000
  }

  /**
   What a token signed at this instant says: the claims and the issuer, issued and usable
   from this second on, up to the second of its expiry.
   */
  predicate IsDated(cfg: Config, claims: Claims, now: int, parsed: Option<StandardClaims>) {
    && parsed.Some? && parsed.value.claims == claims && parsed.value.issuer == cfg.issuer
    && parsed.value.issuedAt.Some? && IsSecondOf(parsed.value.issuedAt.value, now)
    && parsed.value.notBefore == parsed.value.issuedAt
    && parsed.value.expiresAt.Some? && IsSecondOf(parsed.value.expiresAt.value, now + cfg.expiry)
  }

  function CheckTimes(c: StandardClaims, now: int): Option<Error> {
    if c.expiresAt.Some? && now >= c.expiresAt.value * SECOND then Some(ExpiredToken)
    else if c.notBefore.Some? && now < c.notBefore.value * SECOND then Some(InvalidToken)
    else None
  }

  function VerifyToken(cfg: Config, revoked: set<Token>, token: Token, now: int): Result<VerifiedClaims, Error> {
    if !cfg.canVerify then Err(MissingAlgorithm)
    else
      match cfg.scheme.parse(token)
      case None => Err(InvalidToken)
      case Some(c) =>
        if CheckTimes(c, now).Some? then Err(CheckTimes(c, now).value)
        else if token in revoked then Err(TokenRevoked)
        else Ok(VerifiedClaims(c.claims, c.issuedAt, c.expiresAt))
  }

  /**
   The answer for any token: an expired one is told before one used early, and both before a
   revoked one. What is left verifies: from its first second, if it names one, up to but
   not including its last.
   */
  lemma VerifyTokenExactly(cfg: Config, revoked: set<Token>, token: Token, now: int)
    ensures VerifyToken(cfg, revoked, token, now) ==
            if !cfg.canVerify then Err(MissingAlgorithm)
            else
              match cfg.scheme.parse(token)
              case None => Err(InvalidToken)
              case Some(StandardClaims(claims, _, issuedAt, expiresAt, notBefore)) =>
                if expiresAt.Some? && expiresAt.value * 1_000_000_000 <= now then Err(ExpiredToken)
                else if notBefore.Some? && now < notBefore.value * 1_000_000_000 then Err(InvalidToken)
                else if token in revoked then Err(TokenRevoked)
                else Ok(VerifiedClaims(claims, issuedAt, expiresAt))
  {
  }

  class MemoryBlacklist {
    var revoked: set<Token>

    constructor ()
      ensures revoked == {}
    {
      revoked := {};
    }

    method Revoke(token: Token)
      modifies this
      ensures revoked == old(revoked) + {token}
    {
      revoked := revoked + {token};
    }

    method IsRevoked(token: Token) returns (r: bool)
      ensures r <==> token in revoked
    {
      r := token in revoked;
    }
  }

  class Service {
    const cfg: Config
    const blacklist: MemoryBlacklist?

    constructor (cfg: Config, blacklist: MemoryBlacklist?)
      ensures this.cfg == cfg && this.blacklist == blacklist
    {
      this.cfg, this.blacklist := cfg, blacklist;
    }

    /** The tokens this service rejects; without a blacklist there are none. */
    function RevokedTokens(): set<Token>
      reads this, blacklist
    {
      if blacklist == null then {} else blacklist.revoked
    }

    method Sign(claims: Claims, now: int, nonce: nat) returns (r: Result<Token, Error>)
      ensures r == if cfg.canSign then Ok(cfg.scheme.sign(ClaimsAt(cfg, claims, now), nonce)) else Err(MissingAlgorithm)
      ensures r.Ok? && ParsesWhatItSigns(cfg.scheme) ==> IsDated(cfg, claims, now, cfg.scheme.parse(r.value))
      ensures r.Ok? ==>
                var event := Signed(r.value, claims, now, nonce);
                Permitted(cfg, RevokedTokens(), event) && Apply(RevokedTokens(), event) == RevokedTokens()
    {
      if !cfg.canSign {
        return Err(MissingAlgorithm);
      }
      var issued, expires := Some(Seconds(now)), Some(Seconds(now + cfg.expiry));
      var c := StandardClaims(claims, cfg.issuer, issued, expires, issued);
      return Ok(cfg.scheme.sign(c, nonce));
    }

    method Verify(token: Token, now: int) returns (r: Result<VerifiedClaims, Error>)
      ensures r == VerifyToken(cfg, RevokedTokens(), token, now)
    {
      if !cfg.canVerify {
        return Err(MissingAlgorithm);
      }
      var c := cfg.scheme.parse(token);
      if c.None? {
        return Err(InvalidToken);
      }
      var timeError := CheckTimes(c.value, now);
      if timeError.Some? {
        return Err(timeError.value);
      }
      if blacklist != null {
        var revoked := blacklist.IsRevoked(token);
        if revoked {
          return Err(TokenRevoked);
        }
      }
      return Ok(VerifiedClaims(c.value.claims, c.value.issuedAt, c.value.expiresAt));
    }

    /** The old token is revoked before the new one is signed, also when signing then fails. */
    method Refresh(token: Token, checked: int, now: int, nonce: nat) returns (r: Result<Token, Error>)
      modifies blacklist
      ensures var verified := VerifyToken(cfg, old(RevokedTokens()), token, checked);
              if verified.Err? then r == Err(verified.error) && RevokedTokens() == old(RevokedTokens())
              else
                && RevokedTokens() == (if blacklist == null then {} else old(RevokedTokens()) + {token})
                && r == if cfg.canSign then Ok(cfg.scheme.sign(ClaimsAt(cfg, verified.value.claims, now), nonce))
                        else Err(MissingAlgorithm)
      ensures r.Ok? ==>
                var event := Refreshed(token, r.value, checked, now, nonce);
                && Permitted(cfg, old(RevokedTokens()), event)
                && (blacklist != null ==> RevokedTokens() == Apply(old(RevokedTokens()), event))
    {
      var verified := Verify(token, checked);
      if verified.Err? {
        return Err(verified.error);
      }
      if blacklist != null {
        blacklist.Revoke(token);
      }
      r := Sign(verified.value.claims, now, nonce);
    }

    method Revoke(token: Token) returns (r: Result<(), Error>)
      modifies blacklist
      ensures r == if blacklist == null then Err(NoBlacklist) else Ok(())
      ensures RevokedTokens() == if blacklist == null then {} else Apply(old(RevokedTokens()), RevokedToken(token))
    {
      if blacklist == null {
        return Err(NoBlacklist);
      }
      blacklist.Revoke(token);
      return Ok(());
    }
  }

  // ---- Runs of a service with a blacklist ----

  /** The successful calls that change anything; a refresh is checked and signed at possibly different instants. */
  datatype Event =
    | Signed(token: Token, claims: Claims, now: int, nonce: nat)
    | Refreshed(before: Token, token: Token, checked: int, now: int, nonce: nat)
    | RevokedToken(token: Token)

  function IssuedBy(event: Event): set<Token> {
    if event.RevokedToken? then {} else {event.token}
  }

  function Issued(events: seq<Event>): set<Token> {
    if events == [] then {}
    else Issued(events[..|events| - 1]) + IssuedBy(events[|events| - 1])
  }

  /** What an event does to the blacklist. */
  function Apply(revoked: set<Token>, event: Event): set<Token> {
    match event
    case Signed(_, _, _, _) => revoked
    case Refreshed(before, _, _, _, _) => revoked + {before}
    case RevokedToken(token) => revoked + {token}
  }

  function RevokedAfter(events: seq<Event>): set<Token> {
    if events == [] then {} else Apply(RevokedAfter(events[..|events| - 1]), events[|events| - 1])
  }

  /** The event is what a call of the service with this blacklist comes to. */
  predicate Permitted(cfg: Config, revoked: set<Token>, event: Event) {
    match event
    case Signed(token, claims, now, nonce) =>
      token == cfg.scheme.sign(ClaimsAt(cfg, claims, now), nonce)
    case Refreshed(before, token, checked, now, nonce) =>
      var verified := VerifyToken(cfg, revoked, before, checked);
      verified.Ok? && token == cfg.scheme.sign(ClaimsAt(cfg, verified.value.claims, now), nonce)
    case RevokedToken(_) => true
  }

  function DirectSigns(events: seq<Event>): nat {
    if events == [] then 0
    else DirectSigns(events[..|events| - 1]) + if events[|events| - 1].Signed? then 1 else 0
  }

  /** The event can follow these events; only tokens that were issued parse. */
  ghost predicate CanFollow(cfg: Config, events: seq<Event>, event: Event) {
    && Permitted(cfg, RevokedAfter(events), event)
    && (event.Refreshed? ==> event.before in Issued(events))
  }

  ghost predicate IsRun(cfg: Config, events: seq<Event>) {
    && cfg.canSign && ParsesWhatItSigns(cfg.scheme)
    && forall i :: 0 <= i < |events| ==> CanFollow(cfg, events[..i], events[i])
  }

  lemma RunOfPrefix(cfg: Config, events: seq<Event>)
    requires IsRun(cfg, events) && events != []
    ensures IsRun(cfg, events[..|events| - 1])
    ensures CanFollow(cfg, events[..|events| - 1], events[|events| - 1])
  {
    var before := events[..|events| - 1];
    forall i | 0 <= i < |before| ensures CanFollow(cfg, before[..i], before[i]) {
      assert before[..i] == events[..i];
    }
  }

  lemma {:induction false} RevocationsStay(events: seq<Event>, n: nat)
    requires n <= |events|
    ensures RevokedAfter(events[..n]) <= RevokedAfter(events)
  {
    if n == |events| {
      assert events[..n] == events;
    } else {
      assert events[..|events| - 1][..n] == events[..n];
      RevocationsStay(events[..|events| - 1], n);
    }
  }

  /** A token that was revoked or refreshed never verifies again. */
  lemma {:induction false} RevokedNeverVerifies(cfg: Config, events: seq<Event>, i: nat, token: Token, now: int)
    requires i < |events|
    requires events[i] == RevokedToken(token) || (events[i].Refreshed? && events[i].before == token)
    ensures VerifyToken(cfg, RevokedAfter(events), token, now).Err?
  {
    assert events[..i + 1][..i] == events[..i];
    assert token in RevokedAfter(events[..i + 1]);
    RevocationsStay(events, i + 1);
  }

  /** Only a direct signature can add to the live tokens: a refresh spends one. */
  lemma LiveAfter(issued: set<Token>, revoked: set<Token>, event: Event)
    requires event.Refreshed? ==> event.before in issued && event.before !in revoked
    ensures |(issued + IssuedBy(event)) - Apply(revoked, event)|
            <= |issued - revoked| + if event.Signed? then 1 else 0
  {
    var live, next := issued - revoked, (issued + IssuedBy(event)) - Apply(revoked, event);
    match event
    case Signed(token, _, _, _) =>
      SubsetCardinality(next, live + {token});
    case Refreshed(previous, token, _, _, _) =>
      SubsetCardinality(next, live - {previous} + {token});
    case RevokedToken(token) =>
      SubsetCardinality(next, live);
  }

  /** Refreshing multiplies nothing: at most one live token for each direct signature. */
  lemma {:induction false} LiveTokensAreBounded(cfg: Config, events: seq<Event>)
    requires IsRun(cfg, events)
    ensures |Issued(events) - RevokedAfter(events)| <= DirectSigns(events)
  {
    if events != [] {
      var before, last := events[..|events| - 1], events[|events| - 1];
      RunOfPrefix(cfg, events);
      LiveTokensAreBounded(cfg, before);
      LiveAfter(Issued(before), RevokedAfter(before), last);
      hide IsRun, Apply, ClaimsAt, CheckTimes;
    }
  }

  /** Some direct signature was made for these claims. */
  ghost predicate WasSigned(events: seq<Event>, claims: Claims) {
    exists i :: 0 <= i < |events| && events[i].Signed? && events[i].claims == claims
  }

  /** Every issued token, refreshed however often, carries the claims of a direct signature. */
  lemma {:induction false} ClaimsAreKept(cfg: Config, events: seq<Event>, token: Token)
    requires IsRun(cfg, events) && token in Issued(events)
    ensures cfg.scheme.parse(token).Some?
    ensures WasSigned(events, cfg.scheme.parse(token).value.claims)
  {
    var before, last := events[..|events| - 1], events[|events| - 1];
    RunOfPrefix(cfg, events);
    if last.Signed? && last.token == token {
      assert cfg.scheme.parse(token) == Some(ClaimsAt(cfg, last.claims, last.now));
      assert events[|before|].claims == last.claims;
    } else {
      var source := if last.Refreshed? && last.token == token then last.before else token;
      ClaimsAreKept(cfg, before, source);
      assert cfg.scheme.parse(token).value.claims == cfg.scheme.parse(source).value.claims;
      var i :| 0 <= i < |before| && before[i].Signed? && before[i].claims == cfg.scheme.parse(source).value.claims;
      assert events[i] == before[i];
    }
  }

  // ---- How fresh a refreshed token is ----

  /** A new token is valid from the second it was signed in until the second of its expiry. */
  lemma NewTokenTimes(cfg: Config, claims: Claims, now: int, later: int)
    ensures CheckTimes(ClaimsAt(cfg, claims, now), later) ==
            if later >= Seconds(now + cfg.expiry) * SECOND then Some(ExpiredToken)
            else if later < Seconds(now) * SECOND then Some(InvalidToken)
            else None
    ensures now <= later ==> Seconds(now) * SECOND <= later
  {
    assert Seconds(now) * SECOND <= now;
  }

  /**
   The life of a signed token: at every instant it verifies with its own claims exactly
   from the second it was signed in to the end of the last second before its expiry, unless
   it is revoked; before and after that it is told to be invalid and expired.
   */
  lemma SignedTokenExactly(cfg: Config, revoked: set<Token>, claims: Claims, now: int, nonce: nat, later: int,
                           first: int, last: int)
    requires cfg.canVerify && ParsesWhatItSigns(cfg.scheme)
    requires IsSecondOf(first, now) && IsSecondOf(last, now + cfg.expiry)
    ensures var token := cfg.scheme.sign(ClaimsAt(cfg, claims, now), nonce);
            VerifyToken(cfg, revoked, token, later) ==
            if later >= last * 1_000_000_000 then Err(ExpiredToken)
            else if later < first * 1_000_000_000 then Err(InvalidToken)
            else if token in revoked then Err(TokenRevoked)
            else Ok(VerifiedClaims(claims, Some(first), Some(last)))
  {
    assert Seconds(now) == first && Seconds(now + cfg.expiry) == last;
    NewTokenTimes(cfg, claims, now, later);
    hide CheckTimes, Seconds;
    var token := cfg.scheme.sign(ClaimsAt(cfg, claims, now), nonce);
    assert cfg.scheme.parse(token) == Some(ClaimsAt(cfg, claims, now));
  }

  lemma FreshTokenVerifies(cfg: Config, revoked: set<Token>, claims: Claims, now: int, nonce: nat, later: int)
    requires cfg.canVerify && ParsesWhatItSigns(cfg.scheme) && now <= later
    ensures var token := cfg.scheme.sign(ClaimsAt(cfg, claims, now), nonce);
            VerifyToken(cfg, revoked, token, later).Ok? <==>
            token !in revoked && later < Seconds(now + cfg.expiry) * SECOND
  {
    hide CheckTimes, ClaimsAt, Seconds;
    NewTokenTimes(cfg, claims, now, later);
    var token := cfg.scheme.sign(ClaimsAt(cfg, claims, now), nonce);
    assert cfg.scheme.parse(token) == Some(ClaimsAt(cfg, claims, now));
  }

  /** What a refresh at this instant puts into the new token. */
  function RenewedClaims(cfg: Config, before: Token, now: int): StandardClaims
    requires cfg.scheme.parse(before).Some?
  {
    ClaimsAt(cfg, cfg.scheme.parse(before).value.claims, now)
  }

  lemma RenewedClaimsAt(cfg: Config, before: Token, now: int)
    requires cfg.scheme.parse(before).Some?
    ensures RenewedClaims(cfg, before, now) == ClaimsAt(cfg, cfg.scheme.parse(before).value.claims, now)
  {
  }

  lemma RefreshFacts(cfg: Config, events: seq<Event>)
    requires IsRun(cfg, events) && events != [] && events[|events| - 1].Refreshed?
    ensures var before, last := events[..|events| - 1], events[|events| - 1];
            && IsRun(cfg, before) && ParsesWhatItSigns(cfg.scheme) && last.before in Issued(before)
            && cfg.scheme.parse(last.before).Some?
            && last.token == cfg.scheme.sign(RenewedClaims(cfg, last.before, last.now), last.nonce)
            && RevokedAfter(events) == RevokedAfter(before) + {last.before}
  {
    hide ClaimsAt, CheckTimes;
    RunOfPrefix(cfg, events);
  }

  /**
   Directly after a refresh at the instant now, the new token verifies at a later instant
   if and only if it differs from the old one, had not been revoked before, and its expiry
   has not come.
   */
  lemma RefreshedTokenVerifies(cfg: Config, events: seq<Event>, later: int)
    requires cfg.canVerify && IsRun(cfg, events) && events != [] && events[|events| - 1].Refreshed?
    requires events[|events| - 1].now <= later
    ensures var last := events[|events| - 1];
            VerifyToken(cfg, RevokedAfter(events), last.token, later).Ok? <==>
            && last.token != last.before
            && last.token !in RevokedAfter(events[..|events| - 1])
            && later < Seconds(last.now + cfg.expiry) * SECOND
  {
    hide *;
    RefreshFacts(cfg, events);
    var last := events[|events| - 1];
    var claims := cfg.scheme.parse(last.before).value.claims;
    RenewedClaimsAt(cfg, last.before, last.now);
    FreshTokenVerifies(cfg, RevokedAfter(events), claims, last.now, last.nonce, later);
  }

  // ---- Deterministic schemes ----

  /** Signing the same claims twice gives the same token. */
  ghost predicate IsDeterministic(scheme: Scheme) {
    forall c, m, n :: scheme.sign(c, m) == scheme.sign(c, n)
  }

  /** An issued token is the signature of the claims it parses to. */
  lemma {:induction false} IssuedTokensAreSignatures(cfg: Config, events: seq<Event>, token: Token)
    requires IsRun(cfg, events) && IsDeterministic(cfg.scheme) && token in Issued(events)
    ensures cfg.scheme.parse(token).Some?
    ensures token == cfg.scheme.sign(cfg.scheme.parse(token).value, 0)
  {
    hide VerifyToken, ClaimsAt, RevokedAfter;
    var before, last := events[..|events| - 1], events[|events| - 1];
    RunOfPrefix(cfg, events);
    if token in Issued(before) {
      IssuedTokensAreSignatures(cfg, before, token);
    } else if last.Signed? {
      SignaturesParse(cfg, ClaimsAt(cfg, last.claims, last.now), last.nonce);
    } else {
      RefreshFacts(cfg, events);
      SignaturesParse(cfg, RenewedClaims(cfg, last.before, last.now), last.nonce);
    }
  }

  lemma SignaturesParse(cfg: Config, c: StandardClaims, nonce: nat)
    requires ParsesWhatItSigns(cfg.scheme) && IsDeterministic(cfg.scheme)
    ensures cfg.scheme.parse(cfg.scheme.sign(c, nonce)) == Some(c)
    ensures cfg.scheme.sign(c, nonce) == cfg.scheme.sign(c, 0)
  {
  }

  /**
   With a deterministic scheme, a refresh at the instant now gives a token that works at a
   later one if and only if the old token does not already carry exactly the renewed
   claims, the token with those claims had not been revoked or refreshed before, and the
   expiry has not come. The first two fail for a token refreshed in the second it was
   signed in, and for an older one whose renewal in this second has been spent already.
   */
  lemma RefreshWorksExactly(cfg: Config, events: seq<Event>, later: int)
    requires IsDeterministic(cfg.scheme)
    requires cfg.canVerify && IsRun(cfg, events) && events != [] && events[|events| - 1].Refreshed?
    requires events[|events| - 1].now <= later
    ensures var earlier, last := events[..|events| - 1], events[|events| - 1];
            && cfg.scheme.parse(last.before).Some?
            && var renewed := RenewedClaims(cfg, last.before, last.now);
               VerifyToken(cfg, RevokedAfter(events), last.token, later).Ok? <==>
               && cfg.scheme.parse(last.before).value != renewed
               && cfg.scheme.sign(renewed, 0) !in RevokedAfter(earlier)
               && later < Seconds(last.now + cfg.expiry) * SECOND
  {
    var earlier, last := events[..|events| - 1], events[|events| - 1];
    RefreshFacts(cfg, events);
    RefreshedTokenVerifies(cfg, events, later);
    IssuedTokensAreSignatures(cfg, earlier, last.before);
    SignaturesParse(cfg, RenewedClaims(cfg, last.before, last.now), last.nonce);
  }

  /** Two signatures of the same claims are one token if and only if they share the second of issue and of expiry. */
  lemma RefreshWithinTheSecond(cfg: Config, claims: Claims, signed: int, now: int, nonce: nat)
    requires ParsesWhatItSigns(cfg.scheme)
    ensures cfg.scheme.sign(ClaimsAt(cfg, claims, signed), nonce) == cfg.scheme.sign(ClaimsAt(cfg, claims, now), nonce)
            <==> Seconds(signed) == Seconds(now) && Seconds(signed + cfg.expiry) == Seconds(now + cfg.expiry)
  {
    var a, b := ClaimsAt(cfg, claims, signed), ClaimsAt(cfg, claims, now);
    assert cfg.scheme.parse(cfg.scheme.sign(a, nonce)) == Some(a);
    assert cfg.scheme.parse(cfg.scheme.sign(b, nonce)) == Some(b);
  }

  lemma RunOfLonger(cfg: Config, events: seq<Event>, event: Event)
    requires IsRun(cfg, events) && CanFollow(cfg, events, event)
    ensures IsRun(cfg, events + [event])
    ensures RevokedAfter(events + [event]) == Apply(RevokedAfter(events), event)
    ensures Issued(events + [event]) == Issued(events) + IssuedBy(event)
  {
    var longer := events + [event];
    assert longer[..|events|] == events;
    forall i | 0 <= i < |longer| ensures CanFollow(cfg, longer[..i], longer[i]) {
      if i < |events| {
        assert longer[..i] == events[..i];
      }
    }
  }

  lemma SecondsApart(cfg: Config, claims: Claims)
    requires cfg.expiry > 11 * SECOND
    ensures ClaimsAt(cfg, claims, 0) != ClaimsAt(cfg, claims, 10 * SECOND)
    ensures CheckTimes(ClaimsAt(cfg, claims, 0), 10 * SECOND).None?
  {
  }

  /** A token of second 0 is renewed in second 10, in which the same claims were signed and revoked. */
  function SpentRenewal(t0: Token, t10: Token, claims: Claims): seq<Event> {
    [Signed(t0, claims, 0, 0)] + [Signed(t10, claims, 10 * SECOND, 0)] + [RevokedToken(t10)]
    + [Refreshed(t0, t10, 10 * SECOND, 10 * SECOND, 0)]
  }

  /**
   The second way to fail, for any deterministic scheme and claims with an expiry of more
   than eleven seconds: the two tokens share no second, and the refresh of the older one
   returns the revoked one.
   */
  lemma SpentRenewalFails(cfg: Config, claims: Claims)
    requires IsDeterministic(cfg.scheme) && ParsesWhatItSigns(cfg.scheme)
    requires cfg.canSign && cfg.canVerify && cfg.expiry > 11 * SECOND
    ensures var t0 := cfg.scheme.sign(ClaimsAt(cfg, claims, 0), 0);
            var t10 := cfg.scheme.sign(ClaimsAt(cfg, claims, 10 * SECOND), 0);
            var events := SpentRenewal(t0, t10, claims);
            IsRun(cfg, events) && VerifyToken(cfg, RevokedAfter(events), t10, 10 * SECOND).Err?
  {
    SecondsApart(cfg, claims);
    hide ClaimsAt, CheckTimes, IsRun, RevokedAfter, Issued;
    var c0, c10 := ClaimsAt(cfg, claims, 0), ClaimsAt(cfg, claims, 10 * SECOND);
    var t0, t10 := cfg.scheme.sign(c0, 0), cfg.scheme.sign(c10, 0);
    assert cfg.scheme.parse(t0) == Some(c0) && cfg.scheme.parse(t10) == Some(c10);
    var signed0 := [Signed(t0, claims, 0, 0)];
    var signed10 := signed0 + [Signed(t10, claims, 10 * SECOND, 0)];
    var revoked := signed10 + [RevokedToken(t10)];
    NoEvents(cfg);
    assert [] + signed0 == signed0;
    RunOfLonger(cfg, [], Signed(t0, claims, 0, 0));
    RunOfLonger(cfg, signed0, Signed(t10, claims, 10 * SECOND, 0));
    RunOfLonger(cfg, signed10, RevokedToken(t10));
    RunOfLonger(cfg, revoked, Refreshed(t0, t10, 10 * SECOND, 10 * SECOND, 0));
  }

  lemma NoEvents(cfg: Config)
    requires cfg.canSign && ParsesWhatItSigns(cfg.scheme)
    ensures IsRun(cfg, []) && RevokedAfter([]) == {} && Issued([]) == {}
  {
  }
}
