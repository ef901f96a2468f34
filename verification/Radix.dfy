/**
 Text encodings of bytes as RFC 4648 defines them: the bits of the bytes, regrouped into
 digits of 4 bits (hexadecimal, section 8), 5 bits (base32, section 6) or 6 bits (base64,
 sections 4 and 5), padded with zero bits at the end. Decoding regroups the other way. It
 ignores the pad bits, as Go's decoders do, and rejects a text with a digit to spare.
 */
module Radix {
  import opened Arithmetic
  import opened Wrappers
  import opened Text

  function Pow2(k: nat): (p: nat)
    ensures p > 0
  {
    if k == 0 then 1 else 2 * Pow2(k - 1)
  }

  /** The low k bits of v, most significant first. */
  function BitsOf(v: nat, k: nat): (bits: seq<bool>)
    ensures |bits| == k
  {
    if k == 0 then [] else BitsOf(v / 2, k - 1) + [v % 2 == 1]
  }

  function ValueOf(bits: seq<bool>): nat {
    if bits == [] then 0
    else 2 * ValueOf(bits[..|bits| - 1]) + if bits[|bits| - 1] then 1 else 0
  }

  lemma {:induction false} ValueOfBitsOf(v: nat, k: nat)
    requires v < Pow2(k)
    ensures ValueOf(BitsOf(v, k)) == v
  {
    if k > 0 {
      ValueOfBitsOf(v / 2, k - 1);
      assert BitsOf(v, k)[..k - 1] == BitsOf(v / 2, k - 1);
    }
  }

  lemma {:induction false} BitsOfValueOf(bits: seq<bool>)
    ensures ValueOf(bits) < Pow2(|bits|)
    ensures BitsOf(ValueOf(bits), |bits|) == bits
  {
    if bits != [] {
      BitsOfValueOf(bits[..|bits| - 1]);
    }
  }

  lemma DoubleProduct(x: nat, y: nat)
    ensures 2 * (x * y) == x * (2 * y)
  {
  }

  lemma {:induction false} ValueOfConcat(a: seq<bool>, b: seq<bool>)
    ensures ValueOf(a + b) == ValueOf(a) * Pow2(|b|) + ValueOf(b)
  {
    if b == [] {
      assert a + b == a;
    } else {
      var init, last := b[..|b| - 1], if b[|b| - 1] then 1 else 0;
      assert (a + b)[..|a + b| - 1] == a + init;
      assert ValueOf(a + b) == 2 * ValueOf(a + init) + last && ValueOf(b) == 2 * ValueOf(init) + last;
      assert Pow2(|b|) == 2 * Pow2(|init|);
      ValueOfConcat(a, init);
      hide ValueOf, Pow2;
      DoubleProduct(ValueOf(a), Pow2(|init|));
    }
  }

  /** All the bits of a list of k-bit digits. */
  function Spread(digits: seq<nat>, k: nat): (bits: seq<bool>)
    ensures |bits| == |digits| * k
  {
    if digits == [] then [] else BitsOf(digits[0], k) + Spread(digits[1..], k)
  }

  /** The digits that whole groups of k bits make; up to k - 1 bits at the end are dropped. */
  function Group(bits: seq<bool>, k: nat): (digits: seq<nat>)
    requires k > 0
  {
    if |bits| < k then [] else [ValueOf(bits[..k])] + Group(bits[k..], k)
  }

  ghost predicate FitIn(digits: seq<nat>, k: nat) {
    forall i :: 0 <= i < |digits| ==> digits[i] < Pow2(k)
  }

  lemma {:induction false} GroupFits(bits: seq<bool>, k: nat)
    requires k > 0
    ensures FitIn(Group(bits, k), k)
  {
    if |bits| >= k {
      BitsOfValueOf(bits[..k]);
      GroupFits(bits[k..], k);
    }
  }

  lemma {:induction false} GroupOfSpread(digits: seq<nat>, rest: seq<bool>, k: nat)
    requires k > 0 && FitIn(digits, k) && |rest| < k
    ensures Group(Spread(digits, k) + rest, k) == digits
  {
    if digits == [] {
      assert Spread(digits, k) + rest == rest;
    } else {
      var head, tail := BitsOf(digits[0], k), Spread(digits[1..], k);
      var all := Spread(digits, k) + rest;
      assert all == head + (tail + rest);
      assert all[..k] == head && all[k..] == tail + rest;
      ValueOfBitsOf(digits[0], k);
      GroupOfSpread(digits[1..], rest, k);
    }
  }

  lemma {:induction false} SpreadOfGroup(bits: seq<bool>, rest: seq<bool>, k: nat)
    requires k > 0 && |bits| % k == 0 && |rest| < k
    ensures Spread(Group(bits + rest, k), k) == bits
    decreases |bits|
  {
    if bits == [] {
      assert bits + rest == rest;
    } else {
      LargerMultiple(|bits|, k);
      assert (bits + rest)[..k] == bits[..k] && (bits + rest)[k..] == bits[k..] + rest;
      BitsOfValueOf(bits[..k]);
      SpreadOfGroup(bits[k..], rest, k);
      var digits := Group(bits + rest, k);
      assert digits[0] == ValueOf(bits[..k]) && digits[1..] == Group(bits[k..] + rest, k);
    }
  }

  lemma LargerMultiple(n: nat, k: nat)
    requires k > 0 && n > 0 && n % k == 0
    ensures n >= k && (n - k) % k == 0
  {
    var q := n / k;
    assert n == q * k;
    assert n - k == (q - 1) * k + 0;
    RemainderOfSum(q - 1, 0, k);
  }

  // ---- Regrouping ----

  function Zeros(n: nat): seq<bool> {
    seq(n, _ => false)
  }

  /** The number of zero bits after bits that make n a multiple of k. */
  function PadBits(n: nat, k: nat): (p: nat)
    requires k > 0
    ensures p < k && (n + p) % k == 0
  {
    var q, r := n / k, n % k;
    assert n == q * k + r;
    if r == 0 then 0
    else
      RemainderOfSum(q + 1, 0, k);
      assert n + (k - r) == (q + 1) * k + 0;
      k - r
  }

  function EncodeDigits(bytes: seq<byte>, k: nat): seq<nat>
    requires k > 0
  {
    var bits := Spread(bytes, 8);
    Group(bits + Zeros(PadBits(|bits|, k)), k)
  }

  /** None if the last digit has no bit in any byte. */
  function DecodeDigits(digits: seq<nat>, k: nat): Option<seq<byte>>
    requires k > 0
  {
    var bits := Spread(digits, k);
    if |bits| % 8 >= k then None
    else
      GroupFits(bits, 8);
      assert Pow2(8) == 256;
      Some(Group(bits, 8))
  }

  lemma BytesFit(bytes: seq<byte>)
    ensures FitIn(bytes, 8)
  {
    assert Pow2(8) == 256;
  }

  /** Decoding undoes encoding, for every digit width up to a byte. */
  lemma DecodeEncodeDigits(bytes: seq<byte>, k: nat)
    requires 0 < k <= 8
    ensures FitIn(EncodeDigits(bytes, k), k)
    ensures DecodeDigits(EncodeDigits(bytes, k), k) == Some(bytes)
  {
    hide Group, Spread, Pow2;
    var bits := Spread(bytes, 8);
    var pad := Zeros(PadBits(|bits|, k));
    GroupFits(bits + pad, k);
    assert (bits + pad) + [] == bits + pad;
    SpreadOfGroup(bits + pad, [], k);
    RemainderOfSum(|bytes|, |pad|, 8);
    BytesFit(bytes);
    GroupOfSpread(bytes, pad, 8);
  }

  /** Where no bits are left over, encoding undoes decoding too. */
  lemma EncodeDecodeDigits(digits: seq<nat>, k: nat)
    requires 0 < k <= 8 && FitIn(digits, k) && |digits| * k % 8 == 0
    ensures DecodeDigits(digits, k).Some?
    ensures EncodeDigits(DecodeDigits(digits, k).value, k) == digits
  {
    hide Group, Spread, Pow2;
    var bits := Spread(digits, k);
    assert bits + [] == bits;
    SpreadOfGroup(bits, [], 8);
    RemainderOfSum(|digits|, 0, k);
    assert bits + Zeros(0) == bits;
    GroupOfSpread(digits, [], k);
  }

  lemma {:induction false} SpreadConcat(a: seq<nat>, b: seq<nat>, k: nat)
    ensures Spread(a + b, k) == Spread(a, k) + Spread(b, k)
  {
    if a == [] {
      assert a + b == b;
    } else {
      assert (a + b)[1..] == a[1..] + b;
      SpreadConcat(a[1..], b, k);
    }
  }

  lemma {:induction false} GroupConcat(a: seq<bool>, b: seq<bool>, k: nat)
    requires k > 0 && |a| % k == 0
    ensures Group(a + b, k) == Group(a, k) + Group(b, k)
    decreases |a|
  {
    if a == [] {
      assert a + b == b;
    } else {
      LargerMultiple(|a|, k);
      assert (a + b)[..k] == a[..k] && (a + b)[k..] == a[k..] + b;
      GroupConcat(a[k..], b, k);
    }
  }

  lemma ModOfConcat(n: nat, m: nat)
    requires n % 8 == 0
    ensures (n + m) % 8 == m % 8
  {
  }

  /** Digits that fill whole bytes can be decoded apart from those that follow. */
  lemma DecodeDigitsConcat(a: seq<nat>, b: seq<nat>, k: nat)
    requires 0 < k <= 8 && |a| * k % 8 == 0
    ensures DecodeDigits(a, k).Some?
    ensures DecodeDigits(a + b, k) ==
            match DecodeDigits(b, k)
            case None => None
            case Some(rest) => Some(DecodeDigits(a, k).value + rest)
  {
    hide Group, Spread;
    var first, second := Spread(a, k), Spread(b, k);
    SpreadConcat(a, b, k);
    ModOfConcat(|first|, |second|);
    GroupConcat(first, second, 8);
  }

  // ---- Regrouping as arithmetic ----

  /** The number that these digits spell in this base, most significant digit first. */
  function NumberOf(digits: seq<nat>, base: nat): nat {
    if digits == [] then 0 else NumberOf(digits[..|digits| - 1], base) * base + digits[|digits| - 1]
  }

  /** The bits of a list of digits make the number that the digits spell. */
  lemma {:induction false} ValueOfSpread(digits: seq<nat>, k: nat)
    requires FitIn(digits, k)
    ensures ValueOf(Spread(digits, k)) == NumberOf(digits, Pow2(k))
  {
    if digits != [] {
      var init, last := digits[..|digits| - 1], digits[|digits| - 1];
      assert digits == init + [last];
      SpreadConcat(init, [last], k);
      assert Spread([last], k) == BitsOf(last, k) by {
        assert [last][1..] == [] && BitsOf(last, k) + [] == BitsOf(last, k);
      }
      ValueOfSpread(init, k);
      ValueOfBitsOf(last, k);
      assert NumberOf(digits, Pow2(k)) == NumberOf(init, Pow2(k)) * Pow2(k) + last;
      hide ValueOf, Pow2, BitsOf, Spread, NumberOf;
      ValueOfConcat(Spread(init, k), BitsOf(last, k));
    }
  }

  lemma {:induction false} ValueOfZeros(n: nat)
    ensures ValueOf(Zeros(n)) == 0
  {
    if n > 0 {
      ValueOfZeros(n - 1);
      assert Zeros(n)[..n - 1] == Zeros(n - 1);
    }
  }

  lemma SameBits(a: seq<bool>, b: seq<bool>)
    requires |a| == |b| && ValueOf(a) == ValueOf(b)
    ensures a == b
  {
    BitsOfValueOf(a);
    BitsOfValueOf(b);
  }

  /** The encoded digits spell the number of the bytes, shifted left by fewer than k zero bits. */
  lemma EncodeDigitsExactly(bytes: seq<byte>, k: nat)
    requires 0 < k <= 8
    ensures var digits := EncodeDigits(bytes, k);
            && FitIn(digits, k)
            && 0 <= |digits| * k - |bytes| * 8 < k
            && NumberOf(digits, Pow2(k)) == NumberOf(bytes, 256) * Pow2(|digits| * k - |bytes| * 8)
  {
    hide Group, Spread, Pow2, ValueOf, NumberOf;
    var bits := Spread(bytes, 8);
    var pad := Zeros(PadBits(|bits|, k));
    var digits := EncodeDigits(bytes, k);
    GroupFits(bits + pad, k);
    assert (bits + pad) + [] == bits + pad;
    SpreadOfGroup(bits + pad, [], k);
    BytesFit(bytes);
    EightBits();
    ValueOfSpread(digits, k);
    ValueOfSpread(bytes, 8);
    ValueOfConcat(bits, pad);
    ValueOfZeros(|pad|);
  }

  lemma EightBits()
    ensures Pow2(8) == 256
  {
  }

  /** The bytes that digits decode to, if there are any: the bits that fill up whole bytes. */
  ghost predicate Regroups(digits: seq<nat>, k: nat, bytes: seq<byte>) {
    && 0 <= |digits| * k - |bytes| * 8 < k
    && NumberOf(bytes, 256) == NumberOf(digits, Pow2(k)) / Pow2(|digits| * k - |bytes| * 8)
  }

  lemma FrontOfBits(bits: seq<bool>, n: nat)
    requires n <= |bits|
    ensures ValueOf(bits[..n]) == ValueOf(bits) / Pow2(|bits| - n)
  {
    var front, rest := bits[..n], bits[n..];
    assert bits == front + rest;
    ValueOfConcat(front, rest);
    BitsOfValueOf(rest);
    hide ValueOf, Pow2;
    QuotientOfParts(ValueOf(front), ValueOf(rest), Pow2(|rest|));
  }

  lemma QuotientOfParts(q: nat, r: nat, d: nat)
    requires r < d
    ensures (q * d + r) / d == q
  {
    QuotientOfShifted(r, q, d);
    QuotientBounds(r, d);
  }

  lemma {:induction false} GroupLength(bits: seq<bool>, k: nat)
    requires k > 0
    ensures |Group(bits, k)| * k <= |bits| < |Group(bits, k)| * k + k
  {
    if |bits| >= k {
      GroupLength(bits[k..], k);
    }
  }

  lemma GroupIsFront(whole: seq<bool>, rest: seq<bool>, bytes: seq<byte>)
    requires |whole| == 8 * |bytes| && |rest| < 8
    ensures Group(whole + rest, 8) == bytes <==> whole == Spread(bytes, 8)
  {
    hide *;
    assert |whole| % 8 == 0;
    SpreadOfGroup(whole, rest, 8);
    BytesFit(bytes);
    if whole == Spread(bytes, 8) {
      GroupOfSpread(bytes, rest, 8);
    }
  }

  /** Whole bytes are grouped from bits exactly if their bits make the same number. */
  lemma GroupExactly(bits: seq<bool>, bytes: seq<byte>)
    requires 0 <= |bits| - 8 * |bytes| < 8
    ensures Group(bits, 8) == bytes <==> NumberOf(bytes, 256) == ValueOf(bits) / Pow2(|bits| - 8 * |bytes|)
  {
    hide *;
    var whole, spread := bits[..8 * |bytes|], Spread(bytes, 8);
    assert bits == whole + bits[8 * |bytes|..];
    GroupIsFront(whole, bits[8 * |bytes|..], bytes);
    FrontOfBits(bits, 8 * |bytes|);
    EightBits();
    BytesFit(bytes);
    ValueOfSpread(bytes, 8);
    if ValueOf(whole) == ValueOf(spread) {
      SameBits(whole, spread);
    }
  }

  lemma WholeBytes(n: nat, m: nat)
    requires 8 * m <= n < 8 * m + 8
    ensures n - 8 * m == n % 8
  {
  }

  lemma DecodeDigitsIsGroup(digits: seq<nat>, k: nat, bytes: seq<byte>)
    requires k > 0
    ensures DecodeDigits(digits, k) == Some(bytes) <==>
            |Spread(digits, k)| % 8 < k && Group(Spread(digits, k), 8) == bytes
  {
    hide Group, Spread, Pow2;
  }

  lemma RegroupsBits(digits: seq<nat>, k: nat, bytes: seq<byte>)
    requires FitIn(digits, k)
    ensures var bits := Spread(digits, k);
            Regroups(digits, k, bytes) <==>
            && 0 <= |bits| - 8 * |bytes| < k
            && NumberOf(bytes, 256) == ValueOf(bits) / Pow2(|bits| - 8 * |bytes|)
  {
    hide Group, Spread, Pow2, ValueOf, NumberOf;
    ValueOfSpread(digits, k);
  }

  /** Digits decode to exactly the bytes that they regroup to, and to nothing if no byte uses the last one. */
  lemma DecodeDigitsExactly(digits: seq<nat>, k: nat, bytes: seq<byte>)
    requires 0 < k <= 8 && FitIn(digits, k)
    ensures DecodeDigits(digits, k) == Some(bytes) <==> Regroups(digits, k, bytes)
  {
    hide *;
    var bits := Spread(digits, k);
    DecodeDigitsIsGroup(digits, k, bytes);
    RegroupsBits(digits, k, bytes);
    GroupLength(bits, 8);
    if 8 * |bytes| <= |bits| < 8 * |bytes| + 8 {
      WholeBytes(|bits|, |bytes|);
      GroupExactly(bits, bytes);
    }
  }

  // ---- Alphabets ----

  datatype Alphabet = Base64 | Base64Url | Base32 | Hex

  function Width(a: Alphabet): nat {
    match a
    case Base64 => 6
    case Base64Url => 6
    case Base32 => 5
    case Hex => 4
  }

  function CharOf(a: Alphabet, d: nat): char
    requires d < Pow2(Width(a))
  {
    assert Pow2(4) == 16 && Pow2(5) == 32 && Pow2(6) == 64;
    match a
    case Hex => if d < 10 then '0' + d as char else 'a' + (d - 10) as char
    case Base32 => if d < 26 then 'A' + d as char else '2' + (d - 26) as char
    case _ =>
      if d < 26 then 'A' + d as char
      else if d < 52 then 'a' + (d - 26) as char
      else if d < 62 then '0' + (d - 52) as char
      else if d == 62 then if a.Base64? then '+' else '-'
      else if a.Base64? then '/' else '_'
  }

  function DigitOf(a: Alphabet, c: char): Option<nat> {
    match a
    case Hex =>
      if '0' <= c <= '9' then Some((c - '0') as nat)
      else if 'a' <= c <= 'f' then Some((c - 'a') as nat + 10)
      else None
    case Base32 =>
      if 'A' <= c <= 'Z' then Some((c - 'A') as nat)
      else if '2' <= c <= '7' then Some((c - '2') as nat + 26)
      else None
    case _ =>
      if 'A' <= c <= 'Z' then Some((c - 'A') as nat)
      else if 'a' <= c <= 'z' then Some((c - 'a') as nat + 26)
      else if '0' <= c <= '9' then Some((c - '0') as nat + 52)
      else if c == if a.Base64? then '+' else '-' then Some(62)
      else if c == if a.Base64? then '/' else '_' then Some(63)
      else None
  }

  lemma DigitOfCharOf(a: Alphabet, d: nat)
    requires d < Pow2(Width(a))
    ensures DigitOf(a, CharOf(a, d)) == Some(d)
  {
    assert Pow2(4) == 16 && Pow2(5) == 32 && Pow2(6) == 64;
  }

  lemma CharOfDigitOf(a: Alphabet, c: char)
    requires DigitOf(a, c).Some?
    ensures DigitOf(a, c).value < Pow2(Width(a))
    ensures CharOf(a, DigitOf(a, c).value) == c
  {
    assert Pow2(4) == 16 && Pow2(5) == 32 && Pow2(6) == 64;
  }

  function CharsOf(a: Alphabet, digits: seq<nat>): (s: string)
    requires FitIn(digits, Width(a))
    ensures |s| == |digits|
  {
    seq(|digits|, i requires 0 <= i < |digits| => CharOf(a, digits[i]))
  }

  predicate InAlphabet(a: Alphabet, s: string) {
    forall i :: 0 <= i < |s| ==> DigitOf(a, s[i]).Some?
  }

  function DigitsOf(a: Alphabet, s: string): (digits: seq<nat>)
    requires InAlphabet(a, s)
    ensures |digits| == |s|
  {
    seq(|s|, i requires 0 <= i < |s| => DigitOf(a, s[i]).value)
  }

  lemma DigitsOfCharsOf(a: Alphabet, digits: seq<nat>)
    requires FitIn(digits, Width(a))
    ensures InAlphabet(a, CharsOf(a, digits))
    ensures DigitsOf(a, CharsOf(a, digits)) == digits
  {
    forall i | 0 <= i < |digits| ensures DigitOf(a, CharsOf(a, digits)[i]) == Some(digits[i]) {
      DigitOfCharOf(a, digits[i]);
    }
  }

  lemma CharsOfDigitsOf(a: Alphabet, s: string)
    requires InAlphabet(a, s)
    ensures FitIn(DigitsOf(a, s), Width(a))
    ensures CharsOf(a, DigitsOf(a, s)) == s
  {
    forall i | 0 <= i < |s| ensures DigitsOf(a, s)[i] < Pow2(Width(a)) && CharOf(a, DigitsOf(a, s)[i]) == s[i] {
      CharOfDigitOf(a, s[i]);
    }
  }

  /** The text of the bytes without padding characters. */
  function Encode(a: Alphabet, bytes: seq<byte>): string {
    DecodeEncodeDigits(bytes, Width(a));
    CharsOf(a, EncodeDigits(bytes, Width(a)))
  }

  function Decode(a: Alphabet, s: string): Option<seq<byte>> {
    if InAlphabet(a, s) then DecodeDigits(DigitsOf(a, s), Width(a)) else None
  }

  lemma DecodeEncode(a: Alphabet, bytes: seq<byte>)
    ensures InAlphabet(a, Encode(a, bytes))
    ensures Decode(a, Encode(a, bytes)) == Some(bytes)
  {
    DecodeEncodeDigits(bytes, Width(a));
    DigitsOfCharsOf(a, EncodeDigits(bytes, Width(a)));
  }

  /** Hexadecimal has no bits to spare, so each byte string has exactly one lower-case spelling. */
  lemma HexIsUnique(s: string, bytes: seq<byte>)
    ensures Decode(Hex, s) == Some(bytes) <==> s == Encode(Hex, bytes)
  {
    hide EncodeDigits, DigitOf, CharOf, Group, Spread;
    DecodeEncode(Hex, bytes);
    if Decode(Hex, s) == Some(bytes) {
      CharsOfDigitsOf(Hex, s);
      EncodeDecodeDigits(DigitsOf(Hex, s), 4);
    }
  }

  // ---- What the texts say ----

  /** The characters of RFC 4648, tables 1, 2 and 3 and section 8, in the order of the digits they stand for. */
  function Table(a: Alphabet): string {
    match a
    case Base64 => CAPITALS + SMALL_LETTERS + DIGITS + "+/"
    case Base64Url => CAPITALS + SMALL_LETTERS + DIGITS + "-_"
    case Base32 => CAPITALS + "234567"
    case Hex => DIGITS + "abcdef"
  }

  lemma TableIsInOrder(a: Alphabet)
    ensures |Table(a)| == Pow2(Width(a))
    ensures forall d :: 0 <= d < |Table(a)| ==> CharOf(a, d) == Table(a)[d]
  {
    LettersInOrder();
    assert Pow2(4) == 16 && Pow2(5) == 32 && Pow2(6) == 64;
    assert forall k :: 0 <= k < 6 ==> "abcdef"[k] == 'a' + k as char;
    assert forall k :: 0 <= k < 6 ==> "234567"[k] == '2' + k as char;
  }

  lemma DigitOfTable(a: Alphabet, c: char, d: nat)
    ensures DigitOf(a, c) == Some(d) <==> d < |Table(a)| && Table(a)[d] == c
  {
    TableIsInOrder(a);
    if DigitOf(a, c) == Some(d) {
      CharOfDigitOf(a, c);
    } else if d < |Table(a)| && Table(a)[d] == c {
      DigitOfCharOf(a, d);
    }
  }

  /** The characters are those of these digits. */
  ghost predicate Spells(a: Alphabet, s: string, digits: seq<nat>) {
    && |digits| == |s|
    && forall i :: 0 <= i < |s| ==> digits[i] < |Table(a)| && s[i] == Table(a)[digits[i]]
  }

  lemma SpellsExactly(a: Alphabet, s: string, digits: seq<nat>)
    ensures Spells(a, s, digits) <==> InAlphabet(a, s) && digits == DigitsOf(a, s)
    ensures Spells(a, s, digits) <==> FitIn(digits, Width(a)) && s == CharsOf(a, digits)
  {
    TableIsInOrder(a);
    hide DigitOf, CharOf, Table, Width, Pow2;
    forall i | 0 <= i < |s|
      ensures |digits| == |s| ==>
                (DigitOf(a, s[i]) == Some(digits[i]) <==> digits[i] < |Table(a)| && Table(a)[digits[i]] == s[i])
    {
      if |digits| == |s| {
        DigitOfTable(a, s[i], digits[i]);
      }
    }
  }

  /**
   Encoding exactly: the text has as many characters as the bytes need, and they spell the
   number of the bytes, shifted left by the bits to spare.
   */
  lemma EncodeExactly(a: Alphabet, bytes: seq<byte>) returns (digits: seq<nat>)
    ensures Spells(a, Encode(a, bytes), digits)
    ensures 0 <= |digits| * Width(a) - |bytes| * 8 < Width(a)
    ensures NumberOf(digits, |Table(a)|) == NumberOf(bytes, 256) * Pow2(|digits| * Width(a) - |bytes| * 8)
  {
    hide EncodeDigits, Spells, NumberOf, CharsOf, Pow2, Table;
    digits := EncodeDigits(bytes, Width(a));
    EncodeDigitsExactly(bytes, Width(a));
    SpellsExactly(a, CharsOf(a, digits), digits);
    TableIsInOrder(a);
  }

  /**
   The bytes a text stands for: the digits that its characters spell, regrouped. The bits to
   spare at the end do not matter, but no character may consist of them alone.
   */
  ghost predicate StandsFor(a: Alphabet, s: string, bytes: seq<byte>) {
    exists digits :: Spells(a, s, digits) && Regroups(digits, Width(a), bytes)
  }

  /** Decoding exactly: a text decodes to the bytes it stands for, and fails if there are none. */
  lemma DecodeExactly(a: Alphabet, s: string, bytes: seq<byte>)
    ensures Decode(a, s) == Some(bytes) <==> StandsFor(a, s, bytes)
  {
    hide DecodeDigits, Spells, Regroups, DigitsOf, CharsOf;
    if InAlphabet(a, s) {
      SpellsExactly(a, s, DigitsOf(a, s));
      DecodeDigitsExactly(DigitsOf(a, s), Width(a), bytes);
    }
    forall digits | Spells(a, s, digits) ensures InAlphabet(a, s) && digits == DigitsOf(a, s) {
      SpellsExactly(a, s, digits);
    }
  }

  /** Go's base32 and base64 decoders skip line ends anywhere in the text. */
  function WithoutNewlines(s: string): string {
    if s == [] then []
    else (if s[0] == '\r' || s[0] == '\n' then [] else [s[0]]) + WithoutNewlines(s[1..])
  }

  lemma {:induction false} NoNewlinesToSkip(s: string)
    requires '\r' !in s && '\n' !in s
    ensures WithoutNewlines(s) == s
  {
    if s != [] {
      NoNewlinesToSkip(s[1..]);
    }
  }

  /** Exactly the line ends are skipped, wherever they are. */
  lemma {:induction false} WithoutNewlinesSkips(before: string, c: char, after: string)
    ensures WithoutNewlines(before + [c] + after) ==
            WithoutNewlines(before) + (if c in "\r\n" then [] else [c]) + WithoutNewlines(after)
  {
    if before == [] {
      assert before + [c] + after == [c] + after;
    } else {
      assert (before + [c] + after)[1..] == before[1..] + [c] + after;
      WithoutNewlinesSkips(before[1..], c, after);
    }
  }
}
