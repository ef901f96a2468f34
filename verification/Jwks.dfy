/**
 The JWKS key source: which keys a key set yields, the cache with its time to live, and
 the guard in front of refreshes. Times are nanoseconds on one clock; a time that was
 never set is None.
 */
module Jwks {
  import opened Wrappers
  import opened Text
  import opened Radix

  // ---- Keys ----

  datatype Jwk = Jwk(kty: string, kid: string, use: string, alg: string,
                     n: string, e: string, crv: string, x: string, y: string)

  datatype Curve = P256 | P384 | P521

  datatype PublicKey = RsaKey(n: nat, e: int) | EcKey(curve: Curve, x: nat, y: nat)

  function DecodeUrl(s: string): Option<seq<byte>> {
    Decode(Base64Url, WithoutNewlines(s))
  }

  function BigInt(bytes: seq<byte>): nat {
    ValueOf(Spread(bytes, 8))
  }

  /** The low 64 bits as a signed number. */
  function ToInt64(n: nat): int {
    var low := n % 0x1_0000_0000_0000_0000;
    if low < 0x8000_0000_0000_0000 then low else low - 0x1_0000_0000_0000_0000
  }

  function ToRsa(raw: Jwk): Option<PublicKey> {
    match (DecodeUrl(raw.n), DecodeUrl(raw.e))
    case (Some(n), Some(e)) => Some(RsaKey(BigInt(n), ToInt64(BigInt(e))))
    case _ => None
  }

  function CurveOf(crv: string): Option<Curve> {
    if crv == "P-256" then Some(P256)
    else if crv == "P-384" then Some(P384)
    else if crv == "P-521" then Some(P521)
    else None
  }

  function ToEcdsa(raw: Jwk): Option<PublicKey> {
    match (CurveOf(raw.crv), DecodeUrl(raw.x), DecodeUrl(raw.y))
    case (Some(curve), Some(x), Some(y)) => Some(EcKey(curve, BigInt(x), BigInt(y)))
    case _ => None
  }

  function ToPublicKey(raw: Jwk): Option<PublicKey> {
    if raw.kty == "RSA" then ToRsa(raw)
    else if raw.kty == "EC" then ToEcdsa(raw)
    else None
  }

  /** The key of a supported entry that is meant for signatures or says nothing of its use. */
  function SigningKey(raw: Jwk): Option<PublicKey> {
    if raw.use != "" && raw.use != "sig" then None else ToPublicKey(raw)
  }

  type Keys = map<string, PublicKey>

  /** Entry i is the last supported signing entry with this kid. */
  ghost predicate IsLast(entries: seq<Jwk>, kid: string, i: int) {
    && 0 <= i < |entries|
    && entries[i].kid == kid && SigningKey(entries[i]).Some?
    && forall j :: i < j < |entries| && entries[j].kid == kid ==> SigningKey(entries[j]).None?
  }

  /** The map holds, for each kid, the last supported signing entry that has it, and nothing else. */
  ghost predicate HoldsLast(keys: Keys, entries: seq<Jwk>) {
    && (forall kid :: kid in keys ==> exists i :: IsLast(entries, kid, i) && Some(keys[kid]) == SigningKey(entries[i]))
    && (forall i :: 0 <= i < |entries| && SigningKey(entries[i]).Some? ==> entries[i].kid in keys)
  }

  lemma HoldsLastIsExact(keys: Keys, entries: seq<Jwk>, kid: string, i: nat)
    requires HoldsLast(keys, entries) && IsLast(entries, kid, i)
    ensures kid in keys && Some(keys[kid]) == SigningKey(entries[i])
  {
    var j :| IsLast(entries, kid, j) && Some(keys[kid]) == SigningKey(entries[j]);
    assert i == j;
  }

  /** A key set determines its map of keys. */
  lemma HoldsLastIsUnique(keys1: Keys, keys2: Keys, entries: seq<Jwk>)
    requires HoldsLast(keys1, entries) && HoldsLast(keys2, entries)
    ensures keys1 == keys2
  {
    hide SigningKey;
    forall kid | kid in keys1 ensures kid in keys2 && keys1[kid] == keys2[kid] {
      var i :| IsLast(entries, kid, i) && Some(keys1[kid]) == SigningKey(entries[i]);
      HoldsLastIsExact(keys2, entries, kid, i);
    }
    forall kid | kid in keys2 ensures kid in keys1 {
      var i :| IsLast(entries, kid, i) && Some(keys2[kid]) == SigningKey(entries[i]);
      HoldsLastIsExact(keys1, entries, kid, i);
    }
  }

  lemma HoldsLastOfLonger(keys: Keys, entries: seq<Jwk>, raw: Jwk)
    requires HoldsLast(keys, entries)
    ensures HoldsLast(if SigningKey(raw).Some? then keys[raw.kid := SigningKey(raw).value] else keys, entries + [raw])
  {
    hide SigningKey;
    var longer := entries + [raw];
    var after := if SigningKey(raw).Some? then keys[raw.kid := SigningKey(raw).value] else keys;
    forall kid | kid in after ensures exists i :: IsLast(longer, kid, i) && Some(after[kid]) == SigningKey(longer[i]) {
      if kid == raw.kid && SigningKey(raw).Some? {
        assert IsLast(longer, kid, |entries|);
      } else {
        var i :| IsLast(entries, kid, i) && Some(keys[kid]) == SigningKey(entries[i]);
        assert IsLast(longer, kid, i);
      }
    }
  }

  lemma {:induction false} SomeKeysHoldLast(entries: seq<Jwk>) returns (keys: Keys)
    ensures HoldsLast(keys, entries)
  {
    if entries == [] {
      keys := map[];
    } else {
      var before := SomeKeysHoldLast(entries[..|entries| - 1]);
      var raw := entries[|entries| - 1];
      HoldsLastOfLonger(before, entries[..|entries| - 1], raw);
      assert entries[..|entries| - 1] + [raw] == entries;
      keys := if SigningKey(raw).Some? then before[raw.kid := SigningKey(raw).value] else before;
    }
  }

  /** An entry without a signing key makes no difference, wherever it stands. */
  lemma {:induction false} SkippedEntry(before: seq<Jwk>, raw: Jwk, after: seq<Jwk>) returns (keys: Keys)
    requires SigningKey(raw).None?
    ensures HoldsLast(keys, before + [raw] + after) && HoldsLast(keys, before + after)
  {
    hide SigningKey, HoldsLast;
    if after == [] {
      keys := SomeKeysHoldLast(before);
      HoldsLastOfLonger(keys, before, raw);
      assert before + [raw] + after == before + [raw] && before + after == before;
    } else {
      var init, last := after[..|after| - 1], after[|after| - 1];
      keys := SkippedEntry(before, raw, init);
      HoldsLastOfLonger(keys, before + [raw] + init, last);
      HoldsLastOfLonger(keys, before + init, last);
      assert before + [raw] + init + [last] == before + [raw] + after && before + init + [last] == before + after;
      keys := if SigningKey(last).Some? then keys[last.kid := SigningKey(last).value] else keys;
    }
  }

  method CollectKeys(entries: seq<Jwk>) returns (newKeys: Keys)
    ensures HoldsLast(newKeys, entries)
  {
    newKeys := map[];
    for i := 0 to |entries|
      invariant HoldsLast(newKeys, entries[..i])
    {
      hide HoldsLast, ToPublicKey;
      var raw := entries[i];
      HoldsLastOfLonger(newKeys, entries[..i], raw);
      assert entries[..i] + [raw] == entries[..i + 1];
      if raw.use != "" && raw.use != "sig" {
        continue;
      }
      var key := ToPublicKey(raw);
      if key.None? {
        continue;
      }
      newKeys := newKeys[raw.kid := key.value];
    }
    assert entries[..|entries|] == entries;
  }

  // ---- Usable entries, told by their fields ----

  /** The text is base64url for these bytes, line ends aside. */
  ghost predicate IsText(text: string, bytes: seq<byte>) {
    StandsFor(Base64Url, WithoutNewlines(text), bytes)
  }

  /** The text is base64url for a big-endian number. */
  ghost predicate IsNumber(text: string, n: nat) {
    exists bytes: seq<byte> :: IsText(text, bytes) && NumberOf(bytes, 256) == n
  }

  /** The key that the entry describes: its numbers are the big-endian values of the entry's own fields. */
  ghost predicate Describes(raw: Jwk, key: PublicKey) {
    match key
    case RsaKey(modulus, exponent) =>
      && raw.kty == "RSA" && IsNumber(raw.n, modulus)
      && (exists e :: IsNumber(raw.e, e) && (exponent - e) % 0x1_0000_0000_0000_0000 == 0)
      && -0x8000_0000_0000_0000 <= exponent < 0x8000_0000_0000_0000
    case EcKey(curve, x, y) =>
      && raw.kty == "EC"
      && raw.crv == (match curve case P256 => "P-256" case P384 => "P-384" case P521 => "P-521")
      && IsNumber(raw.x, x) && IsNumber(raw.y, y)
  }

  /** An entry for signatures, or for nothing in particular, that describes this key. */
  ghost predicate IsUsable(raw: Jwk, key: PublicKey) {
    (raw.use == "" || raw.use == "sig") && Describes(raw, key)
  }

  lemma DecodeUrlExactly(text: string, bytes: seq<byte>)
    ensures DecodeUrl(text) == Some(bytes) <==> IsText(text, bytes)
  {
    hide Decode, StandsFor;
    DecodeExactly(Base64Url, WithoutNewlines(text), bytes);
  }

  lemma BigIntExactly(bytes: seq<byte>)
    ensures BigInt(bytes) == NumberOf(bytes, 256)
  {
    BytesFit(bytes);
    EightBits();
    ValueOfSpread(bytes, 8);
  }

  lemma ToInt64Exactly(n: nat, i: int)
    ensures ToInt64(n) == i <==>
            && (i - n) % 0x1_0000_0000_0000_0000 == 0
            && -0x8000_0000_0000_0000 <= i < 0x8000_0000_0000_0000
  {
  }

  lemma NumberExactly(text: string, n: nat)
    ensures IsNumber(text, n) <==> DecodeUrl(text).Some? && n == BigInt(DecodeUrl(text).value)
  {
    hide IsText, DecodeUrl, BigInt, NumberOf;
    forall bytes: seq<byte> ensures DecodeUrl(text) == Some(bytes) <==> IsText(text, bytes) {
      DecodeUrlExactly(text, bytes);
    }
    if DecodeUrl(text).Some? {
      BigIntExactly(DecodeUrl(text).value);
    }
  }

  /** An entry yields exactly the key it describes, and none at all if it is meant for something else. */
  lemma SigningKeyExactly(raw: Jwk, key: PublicKey)
    ensures SigningKey(raw) == Some(key) <==> IsUsable(raw, key)
  {
    hide DecodeUrl, BigInt, IsNumber, ToInt64;
    match key {
      case RsaKey(modulus, exponent) =>
        NumberExactly(raw.n, modulus);
        forall e ensures IsNumber(raw.e, e) <==> DecodeUrl(raw.e).Some? && e == BigInt(DecodeUrl(raw.e).value) {
          NumberExactly(raw.e, e);
        }
        if DecodeUrl(raw.e).Some? {
          ToInt64Exactly(BigInt(DecodeUrl(raw.e).value), exponent);
          assert IsNumber(raw.e, BigInt(DecodeUrl(raw.e).value));
        }
      case EcKey(curve, x, y) =>
        NumberExactly(raw.x, x);
        NumberExactly(raw.y, y);
    }
  }

  /** The entry is the last usable one with its kid, and describes this key. */
  ghost predicate IsLastUsable(entries: seq<Jwk>, kid: string, i: int, key: PublicKey) {
    && 0 <= i < |entries| && entries[i].kid == kid && IsUsable(entries[i], key)
    && forall j, other :: i < j < |entries| && entries[j].kid == kid ==> !IsUsable(entries[j], other)
  }

  lemma LastExactly(entries: seq<Jwk>, kid: string, i: int, key: PublicKey)
    ensures IsLast(entries, kid, i) && SigningKey(entries[i]) == Some(key) <==> IsLastUsable(entries, kid, i, key)
  {
    hide SigningKey, IsUsable;
    forall raw, other ensures SigningKey(raw) == Some(other) <==> IsUsable(raw, other) {
      SigningKeyExactly(raw, other);
    }
    if IsLastUsable(entries, kid, i, key) {
      forall j | i < j < |entries| && entries[j].kid == kid ensures SigningKey(entries[j]).None? {
        if SigningKey(entries[j]).Some? {
          assert false;
        }
      }
    }
  }

  lemma {:induction false} LastExists(entries: seq<Jwk>, i: nat) returns (last: nat)
    requires i < |entries| && SigningKey(entries[i]).Some?
    ensures IsLast(entries, entries[i].kid, last)
    decreases |entries| - i
  {
    hide SigningKey;
    if j :| i < j < |entries| && entries[j].kid == entries[i].kid && SigningKey(entries[j]).Some? {
      last := LastExists(entries, j);
    } else {
      last := i;
    }
  }

  ghost predicate MapsTo(keys: Keys, kid: string, key: PublicKey) {
    kid in keys && keys[kid] == key
  }

  ghost predicate HasUsable(entries: seq<Jwk>, kid: string, key: PublicKey) {
    exists i :: IsLastUsable(entries, kid, i, key)
  }

  lemma HasUsableExactly(entries: seq<Jwk>, kid: string, key: PublicKey)
    ensures HasUsable(entries, kid, key) <==>
            exists i :: IsLast(entries, kid, i) && Some(key) == SigningKey(entries[i])
  {
    hide SigningKey, IsLastUsable;
    forall i
      ensures IsLast(entries, kid, i) && SigningKey(entries[i]) == Some(key) <==> IsLastUsable(entries, kid, i, key)
    {
      LastExactly(entries, kid, i, key);
    }
  }

  /** Each kid leads to the key of the last usable entry with it, and to none if no entry is usable. */
  lemma HoldsLastExactly(keys: Keys, entries: seq<Jwk>)
    ensures HoldsLast(keys, entries) <==> forall kid, key :: MapsTo(keys, kid, key) <==> HasUsable(entries, kid, key)
  {
    hide SigningKey, HasUsable;
    forall kid, key
      ensures HasUsable(entries, kid, key) <==>
              exists i :: IsLast(entries, kid, i) && Some(key) == SigningKey(entries[i])
    {
      HasUsableExactly(entries, kid, key);
    }
    if HoldsLast(keys, entries) {
      forall kid, key | HasUsable(entries, kid, key) ensures MapsTo(keys, kid, key) {
        var i :| IsLast(entries, kid, i) && Some(key) == SigningKey(entries[i]);
        HoldsLastIsExact(keys, entries, kid, i);
      }
    } else if forall kid, key :: MapsTo(keys, kid, key) <==> HasUsable(entries, kid, key) {
      forall i | 0 <= i < |entries| && SigningKey(entries[i]).Some? ensures entries[i].kid in keys {
        var last := LastExists(entries, i);
        assert HasUsable(entries, entries[i].kid, SigningKey(entries[last]).value);
      }
      forall kid | kid in keys ensures exists i :: IsLast(entries, kid, i) && Some(keys[kid]) == SigningKey(entries[i]) {
        assert MapsTo(keys, kid, keys[kid]);
      }
    }
  }

  /** An entry for encryption, or of an unknown type, leaves the keys as if it were not there. */
  lemma UnusableIsAbsent(keys: Keys, before: seq<Jwk>, raw: Jwk, after: seq<Jwk>)
    requires (raw.use != "" && raw.use != "sig") || (raw.kty != "RSA" && raw.kty != "EC")
    ensures HoldsLast(keys, before + [raw] + after) <==> HoldsLast(keys, before + after)
  {
    assert SigningKey(raw).None?;
    hide SigningKey, HoldsLast;
    var same := SkippedEntry(before, raw, after);
    if HoldsLast(keys, before + [raw] + after) {
      HoldsLastIsUnique(keys, same, before + [raw] + after);
    }
    if HoldsLast(keys, before + after) {
      HoldsLastIsUnique(keys, same, before + after);
    }
  }

  // ---- The cache ----

  datatype Config = Config(cacheTTL: int, minRefreshDelay: int)

  datatype Cache = Cache(keys: Keys, fetchAt: Option<int>, lastRefreshAt: Option<int>)

  const EMPTY := Cache(map[], None, None)

  predicate IsLive(cfg: Config, c: Cache, now: int) {
    c.fetchAt.Some? && now - c.fetchAt.value <= cfg.cacheTTL
  }

  /** What a lookup may find. Without a kid it is any cached key. */
  predicate Finds(cfg: Config, c: Cache, kid: string, now: int, found: Option<PublicKey>) {
    if !IsLive(cfg, c, now) then found == None
    else if kid == "" then if c.keys == map[] then found == None else found.Some? && found.value in c.keys.Values
    else found == if kid in c.keys then Some(c.keys[kid]) else None
  }

  predicate RefreshAllowed(cfg: Config, c: Cache, now: int) {
    c.lastRefreshAt.None? || now - c.lastRefreshAt.value >= cfg.minRefreshDelay
  }

  /** The cache after a fetch of these entries; the clock is read twice while it is stored. */
  ghost predicate Stores(c: Cache, entries: seq<Jwk>, fetched: int, refreshed: int) {
    HoldsLast(c.keys, entries) && c.fetchAt == Some(fetched) && c.lastRefreshAt == Some(refreshed)
  }

  datatype Response = NetworkError | BadStatus(code: int) | BadJson | KeySet(entries: seq<Jwk>)

  datatype Error = FetchFailed(response: Response) | RefreshRefused | KidNotFound

  /** The readings of the clock during one call. */
  datatype Clock = Clock(first: int, guard: int, fetched: int, refreshed: int, second: int)

  /** One call of KeyFunc that no other call interferes with, from one cache to the next. */
  ghost predicate Call(cfg: Config, before: Cache, kid: string, clock: Clock, response: Response,
                       after: Cache, r: Result<PublicKey, Error>)
  {
    if exists key :: Finds(cfg, before, kid, clock.first, Some(key)) then
      after == before && r.Ok? && Finds(cfg, before, kid, clock.first, Some(r.value))
    else if !RefreshAllowed(cfg, before, clock.guard) then
      after == before && r == Err(RefreshRefused)
    else if !response.KeySet? then
      after == before && r == Err(FetchFailed(response))
    else
      && Stores(after, response.entries, clock.fetched, clock.refreshed)
      && (r.Ok? || r == Err(KidNotFound))
      && Finds(cfg, after, kid, clock.second, if r.Ok? then Some(r.value) else None)
  }

  /** A cached key answers the lookup: it is young enough and known, or any will do. */
  predicate IsCached(cfg: Config, c: Cache, kid: string, now: int) {
    && c.fetchAt.Some? && now - c.fetchAt.value <= cfg.cacheTTL
    && if kid == "" then c.keys != map[] else kid in c.keys
  }

  lemma FindsCached(cfg: Config, c: Cache, kid: string, now: int)
    ensures (exists key :: Finds(cfg, c, kid, now, Some(key))) <==> IsCached(cfg, c, kid, now)
  {
    if IsCached(cfg, c, kid, now) {
      var k :| k in c.keys && (kid == "" || k == kid);
      assert c.keys[k] in c.keys.Values;
      assert Finds(cfg, c, kid, now, Some(c.keys[k]));
    }
  }

  /** A call answered by the cache, refused by the guard or let down by the endpoint leaves the cache as it was. */
  lemma CallWithoutRefresh(cfg: Config, before: Cache, kid: string, clock: Clock, response: Response,
                           after: Cache, r: Result<PublicKey, Error>)
    requires Call(cfg, before, kid, clock, response, after, r)
    ensures var cached := IsCached(cfg, before, kid, clock.first);
            var allowed := before.lastRefreshAt.None? || clock.guard - before.lastRefreshAt.value >= cfg.minRefreshDelay;
            && (cached || !allowed || !response.KeySet? ==> after == before)
            && (cached ==> r.Ok? && if kid == "" then r.value in before.keys.Values else r.value == before.keys[kid])
            && (!cached && !allowed ==> r == Err(RefreshRefused))
            && (!cached && allowed && !response.KeySet? ==> r == Err(FetchFailed(response)))
  {
    FindsCached(cfg, before, kid, clock.first);
  }

  /**
   A call that gets a new key set stores its usable entries, and answers from them alone:
   with the key of the last one for the kid, or of any last one if there is no kid.
   */
  lemma CallWithRefresh(cfg: Config, before: Cache, kid: string, clock: Clock, response: Response,
                        after: Cache, r: Result<PublicKey, Error>)
    requires Call(cfg, before, kid, clock, response, after, r)
    requires !IsCached(cfg, before, kid, clock.first) && response.KeySet?
    requires before.lastRefreshAt.None? || clock.guard - before.lastRefreshAt.value >= cfg.minRefreshDelay
    ensures after.fetchAt == Some(clock.fetched) && after.lastRefreshAt == Some(clock.refreshed)
    ensures forall k, key :: MapsTo(after.keys, k, key) <==> HasUsable(response.entries, k, key)
    ensures r.Ok? ==> && clock.second - clock.fetched <= cfg.cacheTTL
                      && exists k :: (kid == "" || k == kid) && HasUsable(response.entries, k, r.value)
    ensures r.Err? ==> && r == Err(KidNotFound)
                       && (clock.second - clock.fetched <= cfg.cacheTTL ==>
                             forall k, key :: kid == "" || k == kid ==> !HasUsable(response.entries, k, key))
  {
    hide HasUsable, HoldsLast;
    FindsCached(cfg, before, kid, clock.first);
    HoldsLastExactly(after.keys, response.entries);
    if r.Ok? {
      var k :| k in after.keys && after.keys[k] == r.value && (kid == "" || k == kid);
      assert MapsTo(after.keys, k, r.value);
    } else {
      forall k, key | (kid == "" || k == kid) && HasUsable(response.entries, k, key)
        ensures clock.second - clock.fetched > cfg.cacheTTL
      {
        assert MapsTo(after.keys, k, key);
      }
    }
  }

  class Source {
    var keys: Keys
    var fetchAt: Option<int>
    var lastRefreshAt: Option<int>
    const cfg: Config

    constructor (cfg: Config)
      ensures this.cfg == cfg && State() == EMPTY
    {
      keys, fetchAt, lastRefreshAt := map[], None, None;
      this.cfg := cfg;
    }

    function State(): Cache
      reads this
    {
      Cache(keys, fetchAt, lastRefreshAt)
    }

    method CachedKey(kid: string, now: int) returns (found: Option<PublicKey>)
      ensures Finds(cfg, State(), kid, now, found)
      ensures found.None? ==> !exists key :: Finds(cfg, State(), kid, now, Some(key))
    {
      if fetchAt.None? || now - fetchAt.value > cfg.cacheTTL {
        return None;
      }
      if kid == "" {
        if keys == map[] {
          return None;
        }
        var k :| k in keys;
        assert keys[k] in keys.Values;
        return Some(keys[k]);
      }
      found := if kid in keys then Some(keys[kid]) else None;
    }

    method Fetch(response: Response, fetched: int, refreshed: int) returns (r: Result<(), Error>)
      modifies this
      ensures response.KeySet? ==> r.Ok? && Stores(State(), response.entries, fetched, refreshed)
      ensures !response.KeySet? ==> r == Err(FetchFailed(response)) && State() == old(State())
    {
      if !response.KeySet? {
        return Err(FetchFailed(response));
      }
      var newKeys := CollectKeys(response.entries);
      keys := newKeys;
      fetchAt := Some(fetched);
      lastRefreshAt := Some(refreshed);
      return Ok(());
    }

    method RefreshIfAllowed(guard: int, response: Response, fetched: int, refreshed: int) returns (r: Result<(), Error>)
      modifies this
      ensures !RefreshAllowed(cfg, old(State()), guard) ==> r == Err(RefreshRefused) && State() == old(State())
      ensures RefreshAllowed(cfg, old(State()), guard) && response.KeySet? ==>
                r.Ok? && Stores(State(), response.entries, fetched, refreshed)
      ensures RefreshAllowed(cfg, old(State()), guard) && !response.KeySet? ==>
                r == Err(FetchFailed(response)) && State() == old(State())
    {
      if lastRefreshAt.Some? && guard - lastRefreshAt.value < cfg.minRefreshDelay {
        return Err(RefreshRefused);
      }
      r := Fetch(response, fetched, refreshed);
    }

    method KeyFunc(kid: string, clock: Clock, response: Response) returns (r: Result<PublicKey, Error>)
      modifies this
      ensures Call(cfg, old(State()), kid, clock, response, State(), r)
    {
      var found := CachedKey(kid, clock.first);
      if found.Some? {
        return Ok(found.value);
      }
      var refresh := RefreshIfAllowed(clock.guard, response, clock.fetched, clock.refreshed);
      if refresh.Err? {
        return Err(refresh.error);
      }
      found := CachedKey(kid, clock.second);
      if found.Some? {
        return Ok(found.value);
      }
      return Err(KidNotFound);
    }
  }

  /**
   Rotation: when the cache misses, the guard lets a refresh through and the endpoint now
   lists the kid, the call returns the listed key, provided the second lookup is in time.
   */
  lemma PublishedKeyIsReturned(cfg: Config, before: Cache, kid: string, clock: Clock, response: Response,
                               after: Cache, r: Result<PublicKey, Error>, i: nat)
    requires Call(cfg, before, kid, clock, response, after, r) && kid != ""
    requires !exists key :: Finds(cfg, before, kid, clock.first, Some(key))
    requires RefreshAllowed(cfg, before, clock.guard)
    requires response.KeySet? && IsLast(response.entries, kid, i)
    requires clock.second - clock.fetched <= cfg.cacheTTL
    ensures r.Ok? && Some(r.value) == SigningKey(response.entries[i])
  {
    hide SigningKey;
    HoldsLastIsExact(after.keys, response.entries, kid, i);
  }

  /** Between the fetches of two calls, the guard keeps the delay, but only if the first one succeeded. */
  lemma RefreshesKeepTheDelay(cfg: Config, before: Cache, kid: string, clock: Clock, response: Response,
                              after: Cache, r: Result<PublicKey, Error>, nextGuard: int)
    requires Call(cfg, before, kid, clock, response, after, r)
    requires !exists key :: Finds(cfg, before, kid, clock.first, Some(key))
    requires RefreshAllowed(cfg, before, clock.guard) && clock.guard <= nextGuard
    ensures RefreshAllowed(cfg, after, nextGuard) <==>
            !response.KeySet? || nextGuard - clock.refreshed >= cfg.minRefreshDelay
  {
  }
}
