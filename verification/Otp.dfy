/**
 Time-based one-time passwords: base32 secrets, codes derived from a counter, and the
 verifier that accepts the codes of nearby time steps. The MAC is a parameter; times are
 whole Unix seconds.
 */
module Otp {
  import opened Arithmetic
  import opened Wrappers
  import opened Text
  import opened Decimal
  import opened Radix

  const DEFAULT_DIGITS: nat := 6
  const DEFAULT_PERIOD: nat := 30
  const DEFAULT_SKEW: nat := 1
  const UINT64_LIMIT: int := 0x1_0000_0000_0000_0000

  type uint64 = n: int | 0 <= n < UINT64_LIMIT

  // ---- Secrets ----

  /** How many of the first n characters come before the first one that is not a base32 digit. */
  function DigitRun(s: string, n: nat): (j: nat)
    ensures j <= n && j <= |s|
    ensures InAlphabet(Base32, s[..j])
    ensures j == n || j == |s| || DigitOf(Base32, s[j]).None?
  {
    if n == 0 || s == [] || DigitOf(Base32, s[0]).None? then 0
    else
      var j := 1 + DigitRun(s[1..], n - 1);
      assert s[..j] == [s[0]] + s[1..][..j - 1];
      j
  }

  /**
   Go's decoder for padded base32: blocks of eight digits, the last one filled up with
   padding after at least two digits. Fewer than eight characters after the first padding
   character are looked at only as far as the block goes.
   */
  function DecodePadded(s: string): Option<seq<byte>> {
    if s == [] then Some([])
    else
      var j := DigitRun(s, 8);
      var block := DecodeDigits(DigitsOf(Base32, s[..j]), 5);
      if j == 8 then
        match DecodePadded(s[8..])
        case None => None
        case Some(rest) => if block.Some? then Some(block.value + rest) else None
      else if 2 <= j < |s| && 8 <= |s| < 9 + j && forall i :: j <= i < 8 ==> s[i] == '=' then block
      else None
  }

  function Padding(n: nat): string {
    if n % 8 == 0 then "" else seq(8 - n % 8, _ => '=')
  }

  function DecodeSecret(secret: string): Option<seq<byte>> {
    var trimmed := TrimSpace(ToUpper(secret));
    DecodePadded(WithoutNewlines(trimmed + Padding(|trimmed|)))
  }

  function NewSecret(random: seq<byte>): string {
    Encode(Base32, random)
  }

  lemma {:induction false} DigitRunOf(digits: string, rest: string, n: nat)
    requires InAlphabet(Base32, digits)
    requires |digits| == n || (|digits| < n && (rest == [] || DigitOf(Base32, rest[0]).None?))
    ensures DigitRun(digits + rest, n) == |digits|
  {
    hide DigitOf;
    if digits == [] {
      assert digits + rest == rest;
    } else {
      assert (digits + rest)[1..] == digits[1..] + rest;
      DigitRunOf(digits[1..], rest, n - 1);
    }
  }

  /**
   Filling up with padding makes the padded decoder answer for any text without padding
   as the plain one does, malformed texts included.
   */
  lemma {:induction false} DecodeRepadded(s: string)
    requires '=' !in s
    ensures DecodePadded(s + Padding(|s|)) == Decode(Base32, s)
    decreases |s|
  {
    hide DecodeDigits, DigitOf;
    var j := DigitRun(s, 8);
    if j < 8 && j < |s| {
      StopsAtBadDigit(s, j);
    } else if |s| >= 8 {
      var head, tail := s[..8], s[8..];
      assert s + Padding(|s|) == head + (tail + Padding(|tail|));
      DigitRunOf(head, tail + Padding(|tail|), 8);
      assert InAlphabet(Base32, s) <==> InAlphabet(Base32, tail) by { assert s == head + tail; }
      if InAlphabet(Base32, s) {
        assert DigitsOf(Base32, s) == DigitsOf(Base32, head) + DigitsOf(Base32, tail);
      }
      DecodeHead(head, tail);
      DecodeRepadded(tail);
      assert (head + (tail + Padding(|tail|)))[..8] == head;
      assert (head + (tail + Padding(|tail|)))[8..] == tail + Padding(|tail|);
    } else {
      assert s[..j] == s;
      DecodeRepaddedBlock(s);
    }
  }

  lemma DecodeHead(head: string, tail: string)
    requires |head| == 8 && InAlphabet(Base32, head)
    ensures DecodeDigits(DigitsOf(Base32, head), 5).Some?
    ensures InAlphabet(Base32, tail) ==>
              DecodeDigits(DigitsOf(Base32, head) + DigitsOf(Base32, tail), 5) ==
              match DecodeDigits(DigitsOf(Base32, tail), 5)
              case None => None
              case Some(rest) => Some(DecodeDigits(DigitsOf(Base32, head), 5).value + rest)
  {
    DecodeDigitsConcat(DigitsOf(Base32, head), if InAlphabet(Base32, tail) then DigitsOf(Base32, tail) else [], 5);
  }

  /** A character that is neither a digit nor padding spoils the text. */
  lemma StopsAtBadDigit(s: string, j: nat)
    requires '=' !in s && j == DigitRun(s, 8) < 8 && j < |s|
    ensures DecodePadded(s + Padding(|s|)) == None == Decode(Base32, s)
  {
    hide DecodeDigits, DigitOf, DigitRun, Padding;
    var padded := s + Padding(|s|);
    var rest := s[j..] + Padding(|s|);
    assert rest[0] == s[j] && DigitOf(Base32, s[j]).None?;
    assert padded == s[..j] + rest && padded[j] == s[j];
    DigitRunOf(s[..j], rest, 8);
    StopsEarly(padded, j);
  }

  lemma StopsEarly(padded: string, j: nat)
    requires DigitRun(padded, 8) == j < 8 && j < |padded| && padded[j] != '='
    ensures DecodePadded(padded).None?
  {
    hide DecodeDigits, DigitOf, DigitRun;
  }

  lemma DecodeLastBlock(s: string, pad: string)
    requires 2 <= |s| < 8 && |s| + |pad| == 8
    requires InAlphabet(Base32, s) && forall i :: 0 <= i < |pad| ==> pad[i] == '='
    ensures DecodePadded(s + pad) == DecodeDigits(DigitsOf(Base32, s), 5)
  {
    NotADigit();
    DigitRunOf(s, pad, 8);
    hide DecodeDigits, DigitOf, DigitRun;
    assert (s + pad)[..|s|] == s;
    assert forall i :: |s| <= i < 8 ==> (s + pad)[i] == pad[i - |s|];
  }

  lemma DecodeRepaddedBlock(s: string)
    requires |s| < 8 && InAlphabet(Base32, s)
    ensures DecodePadded(s + Padding(|s|)) == Decode(Base32, s)
  {
    PaddingOfBlock(|s|);
    if |s| == 1 {
      NotADigit();
      DigitRunOf(s, Padding(1), 8);
      OneDigitIsTooFew(s);
    } else {
      hide DecodeDigits, DigitOf, DecodePadded, Padding;
      if s == [] {
        NothingToDecode();
        assert s + Padding(|s|) == [] && DigitsOf(Base32, s) == [];
      } else {
        DecodeLastBlock(s, Padding(|s|));
      }
    }
  }

  lemma NotADigit()
    ensures DigitOf(Base32, '=').None?
  {
  }

  lemma PaddingOfBlock(n: nat)
    requires n < 8
    ensures n == 0 ==> Padding(n) == []
    ensures n > 0 ==> |Padding(n)| == 8 - n && forall i :: 0 <= i < 8 - n ==> Padding(n)[i] == '='
  {
  }

  lemma NothingToDecode()
    ensures DecodePadded([]) == Some([]) == DecodeDigits([], 5)
  {
  }

  lemma OneDigitIsTooFew(s: string)
    requires |s| == 1
    ensures Decode(Base32, s).None?
  {
  }

  /**
   What a secret decodes to, for every text without line ends inside: its upper-case form
   without the blanks around it, unpadded or filled up with padding, is read as base32,
   and anything malformed is refused.
   */
  lemma DecodeSecretExactly(secret: string, s: string)
    requires '=' !in s && '\r' !in s && '\n' !in s
    requires TrimSpace(ToUpper(secret)) in [s, s + Padding(|s|)]
    ensures forall bytes :: DecodeSecret(secret) == Some(bytes) <==> StandsFor(Base32, s, bytes)
  {
    hide DecodePadded, Decode, StandsFor, TrimSpace, ToUpper;
    var padded := s + Padding(|s|);
    assert |padded| % 8 == 0 && padded + Padding(|padded|) == padded;
    assert '\r' !in padded && '\n' !in padded;
    NoNewlinesToSkip(padded);
    DecodeRepadded(s);
    forall bytes ensures Decode(Base32, s) == Some(bytes) <==> StandsFor(Base32, s, bytes) {
      DecodeExactly(Base32, s, bytes);
    }
  }

  lemma EncodedIsPlain(bytes: seq<byte>)
    ensures NoSpaces(Encode(Base32, bytes)) && '=' !in Encode(Base32, bytes)
    ensures Decode(Base32, Encode(Base32, bytes)) == Some(bytes)
  {
    hide EncodeDigits, DecodeDigits;
    DecodeEncode(Base32, bytes);
  }

  /** A stored secret decodes to its bytes in any mix of cases and with blanks around it. */
  lemma SecretRoundTrip(random: seq<byte>, typed: string, before: string, after: string)
    requires ToUpper(typed) == NewSecret(random)
    requires AllSpaces(before) && AllSpaces(after)
    ensures DecodeSecret(before + typed + after) == Some(random)
  {
    var s := NewSecret(random);
    EncodedIsPlain(random);
    assert ToUpper(before + typed + after) == before + s + after;
    TrimSpaceDrops(before, s, after);
    assert '\r' !in s + Padding(|s|) && '\n' !in s + Padding(|s|);
    NoNewlinesToSkip(s + Padding(|s|));
    DecodeRepadded(s);
  }

  // ---- Codes ----

  /** HMAC-SHA1: key and message to a digest of 20 bytes. */
  type Mac = (seq<byte>, seq<byte>) -> seq<byte>

  ghost predicate DigestsOf20Bytes(mac: Mac) {
    forall key, msg :: |mac(key, msg)| == 20
  }

  function BigEndian(n: nat, width: nat): (msg: seq<byte>)
    ensures |msg| == width
  {
    if width == 0 then [] else BigEndian(n / 256, width - 1) + [n % 256]
  }

  lemma ByteWider(n: nat)
    ensures Pow2(n + 8) == 256 * Pow2(n)
  {
    assert Pow2(n + 2) == 4 * Pow2(n);
    assert Pow2(n + 4) == 4 * Pow2(n + 2);
    assert Pow2(n + 6) == 4 * Pow2(n + 4);
    assert Pow2(n + 8) == 4 * Pow2(n + 6);
  }

  /** The message is the counter in base 256, most significant byte first. */
  lemma {:induction false} MessageSpellsCounter(n: nat, width: nat)
    requires n < Pow2(8 * width)
    ensures NumberOf(BigEndian(n, width), 256) == n
  {
    if width > 0 {
      ByteWider(8 * (width - 1));
      MessageSpellsCounter(n / 256, width - 1);
      assert BigEndian(n, width)[..width - 1] == BigEndian(n / 256, width - 1);
    }
  }

  lemma {:induction false} MessageOfCounter(msg: seq<byte>)
    ensures BigEndian(NumberOf(msg, 256), |msg|) == msg
  {
    if msg != [] {
      MessageOfCounter(msg[..|msg| - 1]);
      RemainderOfSum(NumberOf(msg[..|msg| - 1], 256), msg[|msg| - 1], 256);
    }
  }

  lemma {:induction false} MessagesDiffer(a: nat, b: nat, width: nat)
    requires a < Pow2(8 * width) && b < Pow2(8 * width) && BigEndian(a, width) == BigEndian(b, width)
    ensures a == b
  {
    if width > 0 {
      ByteWider(8 * (width - 1));
      assert BigEndian(a, width)[..width - 1] == BigEndian(a / 256, width - 1);
      assert BigEndian(b, width)[..width - 1] == BigEndian(b / 256, width - 1);
      assert BigEndian(a, width)[width - 1] == a % 256;
      assert BigEndian(b, width)[width - 1] == b % 256;
      MessagesDiffer(a / 256, b / 256, width - 1);
    }
  }

  function Truncate(h: seq<byte>): (code: nat)
    requires |h| == 20
    ensures code < 0x8000_0000
  {
    var offset := h[|h| - 1] % 16;
    (h[offset] as int % 128) * 0x100_0000 + h[offset + 1] as int * 0x1_0000
    + h[offset + 2] as int * 0x100 + h[offset + 3]
  }

  /** The truncation is the number that the last 31 bits of four digest bytes make. */
  lemma TruncateTakes31Bits(h: seq<byte>)
    requires |h| == 20
    ensures var offset := h[19] % 16;
            Truncate(h) == ValueOf(Spread(h[offset..offset + 4], 8)[1..])
  {
    var offset := h[19] % 16;
    var four := h[offset..offset + 4];
    var b0, b1, b2, b3 := BitsOf(four[0], 8), BitsOf(four[1], 8), BitsOf(four[2], 8), BitsOf(four[3], 8);
    SpreadOfFour(four);
    assert Spread(four, 8)[1..] == b0[1..] + (b1 + (b2 + b3));
    ValueOfConcat(b0[1..], b1 + (b2 + b3));
    ValueOfConcat(b1, b2 + b3);
    ValueOfConcat(b2, b3);
    LowSevenBits(four[0]);
    PowersOfBytes();
    ValueOfByte(four[1]);
    ValueOfByte(four[2]);
    ValueOfByte(four[3]);
  }

  lemma SpreadOfFour(four: seq<byte>)
    requires |four| == 4
    ensures Spread(four, 8) == BitsOf(four[0], 8) + (BitsOf(four[1], 8) + (BitsOf(four[2], 8) + BitsOf(four[3], 8)))
  {
    hide BitsOf;
    assert Spread(four[3..], 8) == BitsOf(four[3], 8) + Spread([], 8);
    assert Spread(four[2..], 8) == BitsOf(four[2], 8) + Spread(four[3..], 8);
    assert Spread(four[1..], 8) == BitsOf(four[1], 8) + Spread(four[2..], 8);
  }

  lemma PowersOfBytes()
    ensures Pow2(7) == 128 && Pow2(8) == 256 && Pow2(16) == 0x1_0000 && Pow2(24) == 0x100_0000
  {
    ByteWider(0);
    ByteWider(8);
    ByteWider(16);
  }

  lemma ValueOfByte(b: byte)
    ensures ValueOf(BitsOf(b, 8)) == b
  {
    PowersOfBytes();
    ValueOfBitsOf(b, 8);
  }

  lemma LowSevenBits(b: byte)
    ensures ValueOf(BitsOf(b, 8)[1..]) == b % 128
  {
    hide BitsOf, ValueOf, Pow2;
    var top, low := BitsOf(b, 8)[..1], BitsOf(b, 8)[1..];
    ValueOfByte(b);
    assert BitsOf(b, 8) == top + low;
    ValueOfConcat(top, low);
    BitsOfValueOf(low);
    PowersOfBytes();
  }

  /** A number printed with zeros in front to at least the given width. */
  function FormatPadded(n: nat, width: nat): string {
    var s := FormatNat(n);
    if |s| < width then seq(width - |s|, _ => '0') + s else s
  }

  /** From ten digits on, the modulus does not fit the 32 bits in which the code is computed. */
  type DigitCount = n: nat | n < 10

  function CodeOf(mac: Mac, key: seq<byte>, counter: uint64, digits: DigitCount): string
    requires DigestsOf20Bytes(mac)
  {
    FormatPadded(Truncate(mac(key, BigEndian(counter, 8))) % Pow10(digits), digits)
  }

  function GenerateHotp(mac: Mac, secret: string, counter: uint64, digits: DigitCount): Option<string>
    requires DigestsOf20Bytes(mac)
  {
    match DecodeSecret(secret)
    case None => None
    case Some(key) => Some(CodeOf(mac, key, counter, digits))
  }

  lemma {:induction false} FormatLength(n: nat, width: nat)
    requires n < Pow10(width) && width > 0
    ensures |FormatNat(n)| <= width
  {
    if n >= 10 {
      FormatLength(n / 10, width - 1);
    }
  }

  lemma {:induction false} ZerosInFront(zeros: nat, s: string)
    requires AllDigits(s)
    ensures AllDigits(seq(zeros, _ => '0') + s)
    ensures DigitsValue(seq(zeros, _ => '0') + s) == DigitsValue(s)
    decreases |s|, zeros
  {
    var padded := seq(zeros, _ => '0') + s;
    if s != [] {
      ZerosInFront(zeros, s[..|s| - 1]);
      assert padded[..|padded| - 1] == seq(zeros, _ => '0') + s[..|s| - 1];
    } else if zeros > 0 {
      ZerosInFront(zeros - 1, s);
      assert padded[..zeros - 1] == seq(zeros - 1, _ => '0') + s;
    }
  }

  /** Every code has exactly the wanted number of decimal digits, which spell the truncated digest modulo 10^digits. */
  lemma CodeFormat(mac: Mac, key: seq<byte>, counter: uint64, digits: DigitCount)
    requires DigestsOf20Bytes(mac) && digits > 0
    ensures var code := CodeOf(mac, key, counter, digits);
            && |code| == digits && AllDigits(code)
            && DigitsValue(code) == Truncate(mac(key, BigEndian(counter, 8))) % Pow10(digits)
  {
    hide Truncate;
    var n := Truncate(mac(key, BigEndian(counter, 8))) % Pow10(digits);
    FormatLength(n, digits);
    ValueOfFormat(n);
    ZerosInFront(digits - |FormatNat(n)|, FormatNat(n));
    assert seq(0, _ => '0') + FormatNat(n) == FormatNat(n);
  }

  lemma {:induction false} SameNumeral(s: string, t: string)
    requires AllDigits(s) && AllDigits(t) && |s| == |t| && DigitsValue(s) == DigitsValue(t)
    ensures s == t
  {
    if s != [] {
      SameLastDigit(s, t);
      SameNumeral(s[..|s| - 1], t[..|t| - 1]);
    }
  }

  lemma NumberOfFour(four: seq<byte>)
    requires |four| == 4
    ensures NumberOf(four, 256) ==
            four[0] as int * 0x100_0000 + four[1] as int * 0x1_0000 + four[2] as int * 0x100 + four[3]
  {
    assert four[..3][..2] == four[..2] && four[..2][..1] == four[..1] && four[..1][..0] == [];
    assert NumberOf(four[..1], 256) == four[0] as int;
    assert NumberOf(four[..2], 256) == four[0] as int * 256 + four[1];
    assert NumberOf(four[..3], 256) == (four[0] as int * 256 + four[1]) * 256 + four[2];
  }

  lemma TruncateIsNumber(h: seq<byte>)
    requires |h| == 20
    ensures var offset := h[19] % 16;
            Truncate(h) == NumberOf(h[offset..offset + 4], 256) % 0x8000_0000
  {
    var offset := h[19] % 16;
    NumberOfFour(h[offset..offset + 4]);
    hide NumberOf;
  }

  /** The last digits of the decimal of the digest's 31 bits, as section 5.3 of RFC 4226 has it. */
  ghost predicate IsCodeOf(h: seq<byte>, code: string)
    requires |h| == 20
  {
    var offset := h[19] % 16;
    && code != "" && AllDigits(code)
    && DigitsValue(code) == NumberOf(h[offset..offset + 4], 256) % 0x8000_0000 % Pow10(|code|)
  }

  /** The code of a counter: that of the MAC of the counter as eight bytes, most significant first. */
  ghost predicate IsHotp(mac: Mac, key: seq<byte>, counter: nat, code: string)
    requires DigestsOf20Bytes(mac)
  {
    exists msg: seq<byte> :: |msg| == 8 && NumberOf(msg, 256) == counter && IsCodeOf(mac(key, msg), code)
  }

  lemma SixtyFourBits()
    ensures Pow2(64) == UINT64_LIMIT
  {
    ByteWider(0);
    ByteWider(8);
    ByteWider(16);
    ByteWider(24);
    ByteWider(32);
    ByteWider(40);
    ByteWider(48);
    ByteWider(56);
  }

  /** The computed code is the one that the standard describes, and no other. */
  lemma CodeExactly(mac: Mac, key: seq<byte>, counter: uint64, digits: DigitCount, code: string)
    requires DigestsOf20Bytes(mac) && digits > 0
    ensures CodeOf(mac, key, counter, digits) == code <==> |code| == digits && IsHotp(mac, key, counter, code)
  {
    hide CodeOf, Truncate, BigEndian, NumberOf, Pow2, Pow10, DigitsValue;
    var msg := BigEndian(counter, 8);
    var computed := CodeOf(mac, key, counter, digits);
    SixtyFourBits();
    MessageSpellsCounter(counter, 8);
    CodeFormat(mac, key, counter, digits);
    TruncateIsNumber(mac(key, msg));
    assert IsCodeOf(mac(key, msg), computed);
    forall other: seq<byte>
      | |code| == digits && |other| == 8 && NumberOf(other, 256) == counter && IsCodeOf(mac(key, other), code)
      ensures code == computed
    {
      MessageOfCounter(other);
      SameNumeral(code, computed);
    }
  }

  // ---- Verification ----

  /** Converts a time to its step; a time before 1970 wraps around. */
  function CounterFor(unix: int, period: nat): uint64
    requires period > 0
  {
    var n := unix % UINT64_LIMIT;
    QuotientBounds(n, period);
    n / period
  }

  datatype Options = Options(digits: int, period: nat, skew: nat)

  function WithDefaults(opts: Options): Options {
    Options(if opts.digits == 0 then DEFAULT_DIGITS else opts.digits,
            if opts.period == 0 then DEFAULT_PERIOD else opts.period,
            if opts.skew == 0 then DEFAULT_SKEW else opts.skew)
  }

  datatype Verdict = Valid | InvalidCode | InvalidSecret

  /** The code of the step that lies i steps from the counter, wrapping around at 64 bits. */
  function CandidateAt(mac: Mac, key: seq<byte>, counter: uint64, i: int, digits: DigitCount): string
    requires DigestsOf20Bytes(mac)
  {
    CodeOf(mac, key, (counter + i) % UINT64_LIMIT, digits)
  }

  ghost predicate AcceptedWithin(mac: Mac, key: seq<byte>, counter: uint64, from: int, to: int,
                                 digits: DigitCount, code: string)
    requires DigestsOf20Bytes(mac)
  {
    exists i :: from <= i <= to && CandidateAt(mac, key, counter, i, digits) == code
  }

  /** The verdict on a typed code. */
  ghost function VerdictOn(mac: Mac, secret: string, typed: string, opts: Options, now: int): Verdict
    requires DigestsOf20Bytes(mac) && opts.digits < 10
  {
    var o := WithDefaults(opts);
    var code := TrimSpace(typed);
    if |code| != o.digits then InvalidCode
    else
      match DecodeSecret(secret)
      case None => InvalidSecret
      case Some(key) =>
        if AcceptedWithin(mac, key, CounterFor(now, o.period), -(o.skew as int), o.skew, o.digits, code) then Valid
        else InvalidCode
  }

  method VerifyWithOptions(mac: Mac, secret: string, typed: string, opts: Options, now: int) returns (verdict: Verdict)
    requires DigestsOf20Bytes(mac)
    requires opts.digits < 10
    ensures verdict == VerdictOn(mac, secret, typed, opts, now)
  {
    hide CodeOf, DecodeSecret, TrimSpace, CounterFor, DigestsOf20Bytes;
    var digits := opts.digits;
    if digits == 0 {
      digits := DEFAULT_DIGITS;
    }
    var period := opts.period;
    if period == 0 {
      period := DEFAULT_PERIOD;
    }
    var skew := opts.skew;
    if skew == 0 {
      skew := DEFAULT_SKEW;
    }
    var code := TrimSpace(typed);
    if |code| != digits {
      return InvalidCode;
    }
    var counter := CounterFor(now, period);
    var i: int := 0 - skew;
    while i <= skew
      invariant 0 - skew <= i <= skew + 1
      invariant i > 0 - skew ==> DecodeSecret(secret).Some?
      invariant DecodeSecret(secret).Some? ==>
                  !AcceptedWithin(mac, DecodeSecret(secret).value, counter, 0 - skew, i - 1, digits, code)
    {
      var candidate := GenerateHotp(mac, secret, (counter + i) % UINT64_LIMIT, digits);
      if candidate.None? {
        return InvalidSecret;
      }
      assert candidate.value == CandidateAt(mac, DecodeSecret(secret).value, counter, i, digits);
      if candidate.value == code {
        return Valid;
      }
      i := i + 1;
    }
    return InvalidCode;
  }

  /** The step of a Unix time; times before 1970 count as their 64 bits without a sign. */
  function StepAt(unix: int, period: nat): nat
    requires -0x8000_0000_0000_0000 <= unix < 0x8000_0000_0000_0000 && period > 0
  {
    var seconds := if unix < 0 then unix + 0x1_0000_0000_0000_0000 else unix;
    QuotientBounds(seconds, period);
    seconds / period
  }

  /** The code belongs to a step at most skew steps from this one; steps wrap around at 64 bits. */
  ghost predicate BelongsNearby(mac: Mac, key: seq<byte>, step: nat, skew: nat, code: string)
    requires DigestsOf20Bytes(mac)
  {
    exists near: int :: step - skew <= near <= step + skew && IsHotp(mac, key, near % 0x1_0000_0000_0000_0000, code)
  }

  lemma AcceptedExactly(mac: Mac, key: seq<byte>, counter: uint64, skew: nat, digits: DigitCount, code: string)
    requires DigestsOf20Bytes(mac) && digits > 0 && |code| == digits
    ensures AcceptedWithin(mac, key, counter, -(skew as int), skew, digits, code) <==>
            BelongsNearby(mac, key, counter, skew, code)
  {
    hide CodeOf, IsHotp, DigestsOf20Bytes;
    if AcceptedWithin(mac, key, counter, -(skew as int), skew, digits, code) {
      var i :| -(skew as int) <= i <= skew && CandidateAt(mac, key, counter, i, digits) == code;
      CodeExactly(mac, key, (counter + i) % UINT64_LIMIT, digits, code);
      assert IsHotp(mac, key, (counter + i) % 0x1_0000_0000_0000_0000, code);
    }
    if BelongsNearby(mac, key, counter, skew, code) {
      var near: int :| && counter - skew <= near <= counter + skew
                       && IsHotp(mac, key, near % 0x1_0000_0000_0000_0000, code);
      CodeExactly(mac, key, near % UINT64_LIMIT, digits, code);
      assert CandidateAt(mac, key, counter, near - counter, digits) == code;
    }
  }

  /**
   The verdict on any input: a code of the wrong length is wrong before the secret is
   looked at; then a malformed secret is told; and otherwise a code is valid exactly if it
   belongs to a step nearby. Unset options are six digits, thirty seconds and one step.
   */
  lemma VerdictExactly(mac: Mac, secret: string, typed: string, opts: Options, now: int)
    requires DigestsOf20Bytes(mac) && opts.digits < 10
    requires -0x8000_0000_0000_0000 <= now < 0x8000_0000_0000_0000
    ensures var digits := if opts.digits == 0 then 6 else opts.digits;
            var period := if opts.period == 0 then 30 else opts.period;
            var skew := if opts.skew == 0 then 1 else opts.skew;
            var code := TrimSpace(typed);
            VerdictOn(mac, secret, typed, opts, now) ==
            if |code| != digits then InvalidCode
            else if DecodeSecret(secret).None? then InvalidSecret
            else if BelongsNearby(mac, DecodeSecret(secret).value, StepAt(now, period), skew, code) then Valid
            else InvalidCode
  {
    hide DecodeSecret, TrimSpace, DigestsOf20Bytes, AcceptedWithin, BelongsNearby;
    var o := WithDefaults(opts);
    var code := TrimSpace(typed);
    assert CounterFor(now, o.period) == StepAt(now, o.period);
    if |code| == o.digits && DecodeSecret(secret).Some? {
      AcceptedExactly(mac, DecodeSecret(secret).value, CounterFor(now, o.period), o.skew, o.digits, code);
    }
  }

  // ---- The time window ----

  /** Times at most skew periods apart lie at most skew steps apart. */
  lemma NearbySteps(t: nat, u: nat, period: nat, skew: nat)
    requires period > 0 && t <= u <= t + skew * period
    ensures t / period <= u / period <= t / period + skew
  {
    QuotientMonotone(t, u, period);
    QuotientMonotone(u, t + skew * period, period);
    QuotientOfShifted(t, skew, period);
  }

  lemma NearbyCounters(t: nat, u: nat, period: nat, skew: nat)
    requires period > 0 && t < UINT64_LIMIT && u < UINT64_LIMIT
    requires t <= u + skew * period && u <= t + skew * period
    ensures -(skew as int) <= CounterFor(t, period) - CounterFor(u, period) <= skew
  {
    if t <= u {
      NearbySteps(t, u, period, skew);
    } else {
      NearbySteps(u, t, period, skew);
    }
  }

  /** A code generated at one time is accepted at every time at most skew periods away. */
  lemma GeneratedCodeIsAccepted(mac: Mac, key: seq<byte>, generated: nat, now: nat, period: nat, skew: nat,
                                digits: DigitCount)
    requires DigestsOf20Bytes(mac) && period > 0
    requires generated < UINT64_LIMIT && now < UINT64_LIMIT
    requires generated <= now + skew * period && now <= generated + skew * period
    ensures AcceptedWithin(mac, key, CounterFor(now, period), -(skew as int), skew, digits,
                           CodeOf(mac, key, CounterFor(generated, period), digits))
  {
    hide CodeOf, DigestsOf20Bytes, CounterFor;
    NearbyCounters(generated, now, period, skew);
    var counter, i := CounterFor(now, period), CounterFor(generated, period) - CounterFor(now, period);
    assert CandidateAt(mac, key, counter, i, digits) == CodeOf(mac, key, CounterFor(generated, period), digits);
  }

  /**
   A code generated for a secret verifies, typed with any blanks around it, at every time at
   most skew periods away, the options being the same and their defaults filled in.
   */
  lemma GeneratedCodeVerifies(mac: Mac, secret: string, opts: Options, generated: nat, now: nat,
                              before: string, after: string)
    requires DigestsOf20Bytes(mac) && 0 <= opts.digits < 10 && DecodeSecret(secret).Some?
    requires generated < UINT64_LIMIT && now < UINT64_LIMIT
    requires var o := WithDefaults(opts);
             generated <= now + o.skew * o.period && now <= generated + o.skew * o.period
    requires AllSpaces(before) && AllSpaces(after)
    ensures var o := WithDefaults(opts);
            var code := GenerateHotp(mac, secret, CounterFor(generated, o.period), o.digits).value;
            VerdictOn(mac, secret, before + code + after, opts, now) == Valid
  {
    hide CodeOf, DecodeSecret, TrimSpace, CounterFor, DigestsOf20Bytes, AcceptedWithin;
    var o := WithDefaults(opts);
    var key := DecodeSecret(secret).value;
    var code := CodeOf(mac, key, CounterFor(generated, o.period), o.digits);
    CodeFormat(mac, key, CounterFor(generated, o.period), o.digits);
    DigitsAreNoSpaces(code);
    TrimSpaceDrops(before, code, after);
    GeneratedCodeIsAccepted(mac, key, generated, now, o.period, o.skew, o.digits);
  }

  lemma DigitsAreNoSpaces(code: string)
    requires AllDigits(code)
    ensures NoSpaces(code)
  {
  }

  predicate InStep(step: int, time: int, period: nat) {
    step * period <= time < step * period + period
  }

  /** The accepted step is at most skew steps away, and all its instants less than skew + 1 periods. */
  ghost predicate IsNearby(step: int, now: nat, period: nat, skew: nat)
    requires period > 0
  {
    && now / period - skew <= step <= now / period + skew
    && forall time :: InStep(step, time, period) ==>
         time < now + (skew + 1) * period && now < time + (skew + 1) * period
  }

  lemma StepBounds(c: int, step: int, skew: nat, period: nat)
    requires c - skew <= step <= c + skew
    ensures c * period - skew * period <= step * period <= c * period + skew * period
    ensures (skew + 1) * period == skew * period + period
  {
    MulMonotone(c - skew, step, period);
    MulMonotone(step, c + skew, period);
    assert (c - skew) * period == c * period - skew * period;
    assert (c + skew) * period == c * period + skew * period;
  }

  lemma StepIsNearby(now: nat, period: nat, skew: nat, step: int)
    requires period > 0
    requires now / period - skew <= step <= now / period + skew
    ensures IsNearby(step, now, period, skew)
  {
    QuotientBounds(now, period);
    StepBounds(now / period, step, skew, period);
  }

  /** A code is accepted if and only if it belongs to a step nearby. */
  lemma AcceptedCodesAreNearby(mac: Mac, key: seq<byte>, now: nat, period: nat, skew: nat,
                               digits: DigitCount, code: string)
    requires DigestsOf20Bytes(mac) && period > 0 && now < UINT64_LIMIT
    ensures AcceptedWithin(mac, key, CounterFor(now, period), -(skew as int), skew, digits, code)
            <==> exists step :: && IsNearby(step, now, period, skew)
                                && CodeOf(mac, key, step % UINT64_LIMIT, digits) == code
  {
    hide CodeOf, DigestsOf20Bytes;
    var counter := CounterFor(now, period);
    if AcceptedWithin(mac, key, counter, -(skew as int), skew, digits, code) {
      var i :| -(skew as int) <= i <= skew && CandidateAt(mac, key, counter, i, digits) == code;
      StepIsNearby(now, period, skew, counter + i);
    }
    if step :| IsNearby(step, now, period, skew) && CodeOf(mac, key, step % UINT64_LIMIT, digits) == code {
      assert CandidateAt(mac, key, counter, step - counter, digits) == code;
    }
  }
}
