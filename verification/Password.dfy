/**
 Argon2id password hashes in the PHC string format: the printer, the parser, and hashing
 and verifying on top of them. The key derivation itself is a parameter.
 */
module Password {
  import opened Wrappers
  import opened Text
  import opened Decimal
  import opened Radix

  type uint32 = n: nat | n < 0x1_0000_0000
  type uint8 = n: nat | n < 0x100

  datatype Config =
    Config(memory: uint32, iterations: uint32, parallelism: uint8, saltLength: uint32, keyLength: uint32)

  datatype Decoded = Decoded(cfg: Config, salt: seq<byte>, hash: seq<byte>)

  datatype Error = InvalidHash

  const ARGON2_VERSION: nat := 19

  // ---- The printer and the parser ----

  function EncodeParameters(cfg: Config): string {
    "m=" + (FormatNat(cfg.memory) + (",t=" + (FormatNat(cfg.iterations) + (",p=" + (FormatNat(cfg.parallelism) + "")))))
  }

  function EncodeHash(hash: seq<byte>, salt: seq<byte>, cfg: Config): string {
    "" + "$" + ("argon2id" + "$" + ("v=" + FormatNat(ARGON2_VERSION) + "$" + (EncodeParameters(cfg) + "$"
    + (Encode(Base64, salt) + "$" + Encode(Base64, hash)))))
  }

  /** One literal and the number after it. */
  function ScanField(text: string, literal: string, bound: nat): (r: Option<(nat, string)>)
    ensures r.Some? ==> r.value.0 < bound
  {
    match Expect(text, literal)
    case None => None
    case Some(rest) => ScanUnsigned(rest, bound)
  }

  /** Memory, iterations and parallelism, in that order; anything after them is ignored. */
  function ParseParameters(text: string): Option<(uint32, uint32, uint8)> {
    match ScanField(text, "m=", 0x1_0000_0000) case None => None case Some((memory, s1)) =>
    match ScanField(s1, ",t=", 0x1_0000_0000) case None => None case Some((iterations, s2)) =>
    match ScanField(s2, ",p=", 0x100) case None => None case Some((parallelism, _)) =>
    Some((memory, iterations, parallelism))
  }

  /** Any integer passes as a version. */
  predicate ParsesVersion(text: string) {
    var rest := Expect(text, "v=");
    rest.Some? && ScanSigned(rest.value).Some?
  }

  function ParseHash(encoded: string): Result<Decoded, Error> {
    var parts := Split(encoded, "$");
    if |parts| != 6 || parts[1] != "argon2id" || !ParsesVersion(parts[2]) then Err(InvalidHash)
    else
      match (ParseParameters(parts[3]),
             Decode(Base64, WithoutNewlines(parts[4])), Decode(Base64, WithoutNewlines(parts[5])))
      case (Some((memory, iterations, parallelism)), Some(salt), Some(hash)) =>
        Ok(Decoded(Config(memory, iterations, parallelism, |salt| % 0x1_0000_0000, |hash| % 0x1_0000_0000), salt, hash))
      case _ => Err(InvalidHash)
  }

  method DecodeHash(encoded: string) returns (r: Result<Decoded, Error>)
    ensures r == ParseHash(encoded)
  {
    var cfg := Config(0, 0, 0, 0, 0);
    var parts := Split(encoded, "$");
    if |parts| != 6 {
      return Err(InvalidHash);
    }
    if parts[1] != "argon2id" {
      return Err(InvalidHash);
    }
    if !ParsesVersion(parts[2]) {
      return Err(InvalidHash);
    }
    var parameters := ParseParameters(parts[3]);
    if parameters.None? {
      return Err(InvalidHash);
    }
    cfg := cfg.(memory := parameters.value.0, iterations := parameters.value.1, parallelism := parameters.value.2);
    var salt := Decode(Base64, WithoutNewlines(parts[4]));
    if salt.None? {
      return Err(InvalidHash);
    }
    var hash := Decode(Base64, WithoutNewlines(parts[5]));
    if hash.None? {
      return Err(InvalidHash);
    }
    cfg := cfg.(saltLength := |salt.value| % 0x1_0000_0000);
    cfg := cfg.(keyLength := |hash.value| % 0x1_0000_0000);
    return Ok(Decoded(cfg, salt.value, hash.value));
  }

  // ---- The round trip ----

  lemma ScanEncodedField(literal: string, v: nat, bound: nat, rest: string)
    requires v < bound && (rest == [] || !IsDigit(rest[0]))
    ensures ScanField(literal + (FormatNat(v) + rest), literal, bound) == Some((v, rest))
  {
    ScanFormat(v, bound, rest);
    assert (literal + (FormatNat(v) + rest))[|literal|..] == FormatNat(v) + rest;
  }

  lemma NoSeparatorInNumber(literal: string, v: nat, rest: string)
    requires '$' !in literal && '$' !in rest
    ensures '$' !in literal + (FormatNat(v) + rest)
  {
    ValueOfFormat(v);
  }

  lemma ParseEncodedParameters(cfg: Config)
    ensures ParseParameters(EncodeParameters(cfg)) == Some((cfg.memory, cfg.iterations, cfg.parallelism))
    ensures '$' !in EncodeParameters(cfg)
  {
    hide ScanField, FormatNat;
    var s2 := ",p=" + (FormatNat(cfg.parallelism) + "");
    var s1 := ",t=" + (FormatNat(cfg.iterations) + s2);
    ScanEncodedField("m=", cfg.memory, 0x1_0000_0000, s1);
    ScanEncodedField(",t=", cfg.iterations, 0x1_0000_0000, s2);
    ScanEncodedField(",p=", cfg.parallelism, 0x100, "");
    NoSeparatorInNumber(",p=", cfg.parallelism, "");
    NoSeparatorInNumber(",t=", cfg.iterations, s2);
    NoSeparatorInNumber("m=", cfg.memory, s1);
  }

  lemma ParseEncodedVersion()
    ensures ParsesVersion("v=" + FormatNat(ARGON2_VERSION))
    ensures '$' !in "v=" + FormatNat(ARGON2_VERSION)
  {
    var rest := FormatNat(ARGON2_VERSION);
    assert Expect("v=" + rest, "v=") == Some(rest);
    assert FormatNat(ARGON2_VERSION) + "" == rest;
    ScanSignedFormat(ARGON2_VERSION, "");
    ValueOfFormat(ARGON2_VERSION);
  }

  lemma DecodeEncoded(bytes: seq<byte>)
    ensures Decode(Base64, WithoutNewlines(Encode(Base64, bytes))) == Some(bytes)
    ensures '$' !in Encode(Base64, bytes)
  {
    DecodeEncode(Base64, bytes);
    NoNewlinesToSkip(Encode(Base64, bytes));
  }

  lemma SplitEncoded(a: string, b: string, c: string, d: string, e: string)
    requires '$' !in a && '$' !in b && '$' !in c && '$' !in d && '$' !in e
    ensures Split("" + "$" + (a + "$" + (b + "$" + (c + "$" + (d + "$" + e)))), "$") == ["", a, b, c, d, e]
  {
    hide Split;
    ClearOfChar("", '$');
    ClearOfChar(a, '$');
    ClearOfChar(b, '$');
    ClearOfChar(c, '$');
    ClearOfChar(d, '$');
    ClearOfChar(e, '$');
    SplitPart(d, e, "$");
    SplitPart(e, "", "$");
    SplitPart(c, d + "$" + e, "$");
    SplitPart(b, c + "$" + (d + "$" + e), "$");
    SplitPart(a, b + "$" + (c + "$" + (d + "$" + e)), "$");
    SplitPart("", a + "$" + (b + "$" + (c + "$" + (d + "$" + e))), "$");
  }

  lemma VersionText()
    ensures "v=" + FormatNat(ARGON2_VERSION) == "v=19"
  {
  }

  lemma ParametersText(cfg: Config)
    ensures EncodeParameters(cfg) ==
            "m=" + FormatNat(cfg.memory) + ",t=" + FormatNat(cfg.iterations) + ",p=" + FormatNat(cfg.parallelism)
  {
    hide FormatNat;
  }

  /**
   A printed hash has six parts between its separators, the first of them empty: the
   scheme, the version, the parameters, the salt and the hash, in that order.
   */
  lemma PrintedParts(hash: seq<byte>, salt: seq<byte>, cfg: Config)
    ensures Split(EncodeHash(hash, salt, cfg), "$") ==
            ["", "argon2id", "v=19",
             "m=" + FormatNat(cfg.memory) + ",t=" + FormatNat(cfg.iterations) + ",p=" + FormatNat(cfg.parallelism),
             Encode(Base64, salt), Encode(Base64, hash)]
  {
    ParametersText(cfg);
    hide ParseParameters, ParsesVersion, EncodeParameters, Split, FormatNat, Encode, Decode, WithoutNewlines;
    ParseEncodedParameters(cfg);
    ParseEncodedVersion();
    VersionText();
    DecodeEncoded(salt);
    DecodeEncoded(hash);
    SplitEncoded("argon2id", "v=" + FormatNat(ARGON2_VERSION), EncodeParameters(cfg),
                 Encode(Base64, salt), Encode(Base64, hash));
  }

  /** Parsing a printed hash gives back the hash, the salt and every parameter. */
  lemma ParseEncodedHash(hash: seq<byte>, salt: seq<byte>, cfg: Config)
    ensures ParseHash(EncodeHash(hash, salt, cfg)) ==
            Ok(Decoded(cfg.(saltLength := |salt| % 0x1_0000_0000, keyLength := |hash| % 0x1_0000_0000), salt, hash))
  {
    hide ParseParameters, ParsesVersion, EncodeParameters, EncodeHash, Split;
    hide FormatNat, Encode, Decode, WithoutNewlines;
    ParseEncodedParameters(cfg);
    ParseEncodedVersion();
    VersionText();
    DecodeEncoded(salt);
    DecodeEncoded(hash);
    ParametersText(cfg);
    PrintedParts(hash, salt, cfg);
  }

  // ---- What the parser accepts ----

  /** Any number within 64 bits passes as a version, with anything after it. */
  ghost predicate IsVersion(part: string) {
    exists number, rest :: part == "v=" + number + rest && IsSignedText(number) && StartsNoDigit(rest)
  }

  lemma VersionExactly(part: string)
    ensures ParsesVersion(part) <==> IsVersion(part)
  {
    hide ScanSigned, IsSignedText;
    if ParsesVersion(part) {
      var after := Expect(part, "v=").value;
      ScanSignedExactly(after, ScanSigned(after).value);
      var number :| after == number + ScanSigned(after).value && IsSignedText(number);
      assert part == "v=" + number + ScanSigned(after).value;
    }
    if number, rest :| part == "v=" + number + rest && IsSignedText(number) && StartsNoDigit(rest) {
      assert part == "v=" + (number + rest);
      assert Expect(part, "v=") == Some(number + rest);
      ScanSignedExactly(number + rest, rest);
    }
  }

  /** Memory, iterations and parallelism, in this order and each within its width, with anything after them. */
  ghost predicate AreParameters(part: string, memory: nat, iterations: nat, parallelism: nat) {
    exists m, t, p, rest ::
      && part == "m=" + (m + (",t=" + (t + (",p=" + (p + rest))))) && StartsNoDigit(rest)
      && IsUnsignedText(m, memory, 0x1_0000_0000)
      && IsUnsignedText(t, iterations, 0x1_0000_0000)
      && IsUnsignedText(p, parallelism, 0x100)
  }

  lemma FieldExactly(text: string, literal: string, bound: nat, v: nat, rest: string)
    ensures ScanField(text, literal, bound) == Some((v, rest)) <==>
            StartsNoDigit(rest) && exists number :: text == literal + (number + rest) && IsUnsignedText(number, v, bound)
  {
    hide ScanUnsigned, IsUnsignedText;
    if literal <= text {
      var after := text[|literal|..];
      assert text == literal + after;
      ScanUnsignedExactly(after, bound, v, rest);
      forall number ensures text == literal + (number + rest) <==> after == number + rest {
        assert (literal + (number + rest))[|literal|..] == number + rest;
      }
    }
  }

  lemma FieldReads(literal: string, number: string, bound: nat, v: nat, rest: string)
    requires IsUnsignedText(number, v, bound) && StartsNoDigit(rest)
    ensures ScanField(literal + (number + rest), literal, bound) == Some((v, rest))
  {
    hide ScanField, IsUnsignedText;
    FieldExactly(literal + (number + rest), literal, bound, v, rest);
  }

  lemma ParametersExactly(part: string, memory: nat, iterations: nat, parallelism: nat)
    ensures ParseParameters(part) == Some((memory, iterations, parallelism)) <==>
            AreParameters(part, memory, iterations, parallelism)
  {
    hide ScanField, IsUnsignedText;
    if ParseParameters(part) == Some((memory, iterations, parallelism)) {
      var s1 := ScanField(part, "m=", 0x1_0000_0000).value.1;
      var s2 := ScanField(s1, ",t=", 0x1_0000_0000).value.1;
      var rest := ScanField(s2, ",p=", 0x100).value.1;
      FieldExactly(part, "m=", 0x1_0000_0000, memory, s1);
      FieldExactly(s1, ",t=", 0x1_0000_0000, iterations, s2);
      FieldExactly(s2, ",p=", 0x100, parallelism, rest);
      var m :| part == "m=" + (m + s1) && IsUnsignedText(m, memory, 0x1_0000_0000);
      var t :| s1 == ",t=" + (t + s2) && IsUnsignedText(t, iterations, 0x1_0000_0000);
      var p :| s2 == ",p=" + (p + rest) && IsUnsignedText(p, parallelism, 0x100);
      assert AreParameters(part, memory, iterations, parallelism);
    }
    if AreParameters(part, memory, iterations, parallelism) {
      ParametersRead(part, memory, iterations, parallelism);
    }
  }

  lemma ParametersRead(part: string, memory: nat, iterations: nat, parallelism: nat)
    requires AreParameters(part, memory, iterations, parallelism)
    ensures ParseParameters(part) == Some((memory, iterations, parallelism))
  {
    hide ScanField, IsUnsignedText;
    var m, t, p, rest :|
      && part == "m=" + (m + (",t=" + (t + (",p=" + (p + rest))))) && StartsNoDigit(rest)
      && IsUnsignedText(m, memory, 0x1_0000_0000)
      && IsUnsignedText(t, iterations, 0x1_0000_0000)
      && IsUnsignedText(p, parallelism, 0x100);
    FieldReads("m=", m, 0x1_0000_0000, memory, ",t=" + (t + (",p=" + (p + rest))));
    FieldReads(",t=", t, 0x1_0000_0000, iterations, ",p=" + (p + rest));
    FieldReads(",p=", p, 0x100, parallelism, rest);
  }

  /**
   Six parts without a separator in them: the scheme second, then a version, the parameters,
   the salt and the hash. The first part may be anything, and so may the version.
   */
  ghost predicate AreParts(parts: seq<string>, d: Decoded) {
    && |parts| == 6 && (forall i :: 0 <= i < 6 ==> '$' !in parts[i])
    && parts[1] == "argon2id" && IsVersion(parts[2])
    && AreParameters(parts[3], d.cfg.memory, d.cfg.iterations, d.cfg.parallelism)
    && StandsFor(Base64, WithoutNewlines(parts[4]), d.salt)
    && StandsFor(Base64, WithoutNewlines(parts[5]), d.hash)
    && d.cfg.saltLength == |d.salt| % 0x1_0000_0000 && d.cfg.keyLength == |d.hash| % 0x1_0000_0000
  }

  ghost predicate IsHashOf(encoded: string, d: Decoded) {
    exists parts :: Join(parts, "$") == encoded && AreParts(parts, d)
  }

  lemma PartsExactly(parts: seq<string>, d: Decoded)
    requires forall i :: 0 <= i < |parts| ==> '$' !in parts[i]
    ensures AreParts(parts, d) <==>
            && |parts| == 6 && parts[1] == "argon2id" && ParsesVersion(parts[2])
            && ParseParameters(parts[3]) == Some((d.cfg.memory, d.cfg.iterations, d.cfg.parallelism))
            && Decode(Base64, WithoutNewlines(parts[4])) == Some(d.salt)
            && Decode(Base64, WithoutNewlines(parts[5])) == Some(d.hash)
            && d.cfg.saltLength == |d.salt| % 0x1_0000_0000 && d.cfg.keyLength == |d.hash| % 0x1_0000_0000
  {
    hide ParsesVersion, ParseParameters, Decode, IsVersion, AreParameters, StandsFor, WithoutNewlines;
    if |parts| == 6 {
      VersionExactly(parts[2]);
      ParametersExactly(parts[3], d.cfg.memory, d.cfg.iterations, d.cfg.parallelism);
      DecodeExactly(Base64, WithoutNewlines(parts[4]), d.salt);
      DecodeExactly(Base64, WithoutNewlines(parts[5]), d.hash);
    }
  }

  /** Parsing exactly: a text is read as these values if and only if its parts are theirs, and refused otherwise. */
  lemma ParseHashExactly(encoded: string, d: Decoded)
    ensures ParseHash(encoded) == Ok(d) <==> IsHashOf(encoded, d)
  {
    hide ParsesVersion, ParseParameters, Decode, WithoutNewlines, AreParts, Split, Join;
    var split := Split(encoded, "$");
    SplitExactly(encoded, '$', split);
    PartsExactly(split, d);
    assert ParseHash(encoded) == Ok(d) <==> AreParts(split, d);
    if IsHashOf(encoded, d) {
      var parts :| Join(parts, "$") == encoded && AreParts(parts, d);
      assert parts == split by {
        PartsAreFree(parts, d);
        SplitExactly(encoded, '$', parts);
      }
    }
  }

  lemma PartsAreFree(parts: seq<string>, d: Decoded)
    requires AreParts(parts, d)
    ensures parts != [] && forall i :: 0 <= i < |parts| ==> '$' !in parts[i]
  {
  }

  // ---- Hashing and verifying ----

  /** Argon2id: password, salt, iterations, memory, parallelism and key length to a key, or a panic. */
  type Kdf = (seq<byte>, seq<byte>, nat, nat, nat, nat) -> Option<seq<byte>>

  ghost predicate DerivesKeyLength(kdf: Kdf) {
    forall password, salt, iterations, memory, parallelism, keyLength ::
      kdf(password, salt, iterations, memory, parallelism, keyLength).Some? ==>
        |kdf(password, salt, iterations, memory, parallelism, keyLength).value| == keyLength
  }

  function DeriveKey(kdf: Kdf, password: seq<byte>, salt: seq<byte>, cfg: Config): Option<seq<byte>> {
    kdf(password, salt, cfg.iterations, cfg.memory, cfg.parallelism, cfg.keyLength)
  }

  function HashPasswordWithConfig(kdf: Kdf, password: seq<byte>, cfg: Config, salt: seq<byte>): Option<string>
    requires |salt| == cfg.saltLength
  {
    match DeriveKey(kdf, password, salt, cfg)
    case None => None
    case Some(hash) => Some(EncodeHash(hash, salt, cfg))
  }

  datatype Verdict = Matches(ok: bool) | Malformed | Panicked

  function VerifyPassword(kdf: Kdf, password: seq<byte>, encoded: string): Verdict {
    match ParseHash(encoded)
    case Err(_) => Malformed
    case Ok(Decoded(cfg, salt, hash)) =>
      match DeriveKey(kdf, password, salt, cfg)
      case None => Panicked
      case Some(candidate) => Matches(hash == candidate)
  }

  /**
   Verification of any text: refused exactly if it is no hash, and otherwise decided by
   deriving a key from the password with the salt and the parameters that the text carries.
   */
  lemma VerifyExactly(kdf: Kdf, password: seq<byte>, encoded: string)
    ensures (forall d :: !IsHashOf(encoded, d)) ==> VerifyPassword(kdf, password, encoded) == Malformed
    ensures forall d :: IsHashOf(encoded, d) ==>
              VerifyPassword(kdf, password, encoded) ==
              match kdf(password, d.salt, d.cfg.iterations, d.cfg.memory, d.cfg.parallelism, |d.hash| % 0x1_0000_0000)
              case None => Panicked
              case Some(candidate) => Matches(candidate == d.hash)
  {
    hide ParseHash, AreParts;
    forall d ensures ParseHash(encoded) == Ok(d) <==> IsHashOf(encoded, d) {
      ParseHashExactly(encoded, d);
    }
    forall d | IsHashOf(encoded, d) ensures d.cfg.keyLength == |d.hash| % 0x1_0000_0000 {
      var parts :| Join(parts, "$") == encoded && AreParts(parts, d);
      KeyLengthOfParts(parts, d);
    }
  }

  lemma KeyLengthOfParts(parts: seq<string>, d: Decoded)
    requires AreParts(parts, d)
    ensures d.cfg.keyLength == |d.hash| % 0x1_0000_0000
  {
  }

  /** What is stored is the printed key that the parameters derive, or nothing if deriving panics. */
  lemma HashExactly(kdf: Kdf, password: seq<byte>, cfg: Config, salt: seq<byte>)
    requires |salt| == cfg.saltLength
    ensures HashPasswordWithConfig(kdf, password, cfg, salt) ==
            match kdf(password, salt, cfg.iterations, cfg.memory, cfg.parallelism, cfg.keyLength)
            case None => None
            case Some(hash) => Some(EncodeHash(hash, salt, cfg))
  {
  }

  /**
   Verifying a password against the stored hash of another succeeds if and only if both
   derive the same key from the stored salt and parameters.
   */
  lemma VerifyHashed(kdf: Kdf, stored: seq<byte>, password: seq<byte>, cfg: Config, salt: seq<byte>)
    requires DerivesKeyLength(kdf) && |salt| == cfg.saltLength
    requires DeriveKey(kdf, stored, salt, cfg).Some?
    ensures HashPasswordWithConfig(kdf, stored, cfg, salt).Some?
    ensures VerifyPassword(kdf, password, HashPasswordWithConfig(kdf, stored, cfg, salt).value) ==
            match DeriveKey(kdf, password, salt, cfg)
            case None => Panicked
            case Some(candidate) => Matches(candidate == DeriveKey(kdf, stored, salt, cfg).value)
  {
    hide EncodeHash, ParseHash;
    var hash := DeriveKey(kdf, stored, salt, cfg).value;
    ParseEncodedHash(hash, salt, cfg);
    assert |hash| == cfg.keyLength;
    assert cfg.(saltLength := |salt| % 0x1_0000_0000, keyLength := |hash| % 0x1_0000_0000) == cfg;
  }

  /** The right password always verifies, and in particular never makes verification panic. */
  lemma VerifyOwnHash(kdf: Kdf, password: seq<byte>, cfg: Config, salt: seq<byte>)
    requires DerivesKeyLength(kdf) && |salt| == cfg.saltLength
    requires HashPasswordWithConfig(kdf, password, cfg, salt).Some?
    ensures VerifyPassword(kdf, password, HashPasswordWithConfig(kdf, password, cfg, salt).value) == Matches(true)
  {
    hide EncodeHash, ParseHash;
    VerifyHashed(kdf, password, password, cfg, salt);
  }
}
