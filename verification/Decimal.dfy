/** Decimal numbers as Go's fmt and strconv packages print and read them. */
module Decimal {
  import opened Wrappers
  import opened Text

  const INT64_LIMIT: int := 0x8000_0000_0000_0000

  predicate IsDigit(c: char) {
    '0' <= c <= '9'
  }

  function DigitChar(d: nat): char
    requires d < 10
  {
    '0' + d as char
  }

  ghost predicate AllDigits(s: string) {
    forall i :: 0 <= i < |s| ==> IsDigit(s[i])
  }

  function FormatNat(n: nat): string {
    if n < 10 then [DigitChar(n)] else FormatNat(n / 10) + [DigitChar(n % 10)]
  }

  function FormatInt(i: int): string {
    if i < 0 then "-" + FormatNat(-i) else FormatNat(i)
  }

  /** The value of a string of decimal digits. */
  function DigitsValue(s: string): nat
    requires AllDigits(s)
  {
    if s == [] then 0 else 10 * DigitsValue(s[..|s| - 1]) + (s[|s| - 1] - '0') as nat
  }

  lemma {:induction false} ValueOfFormat(n: nat)
    ensures FormatNat(n) != [] && AllDigits(FormatNat(n))
    ensures DigitsValue(FormatNat(n)) == n
  {
    if n >= 10 {
      ValueOfFormat(n / 10);
      assert FormatNat(n)[..|FormatNat(n)| - 1] == FormatNat(n / 10);
    }
  }

  lemma DigitsInOrder()
    ensures forall d :: 0 <= d < 10 ==> DIGITS[d] == DigitChar(d)
    ensures forall c :: IsDigit(c) <==> c in DIGITS
  {
    assert forall c :: IsDigit(c) ==> c == DIGITS[(c - '0') as int];
  }

  function Pow10(n: nat): (p: nat)
    ensures p > 0
  {
    if n == 0 then 1 else 10 * Pow10(n - 1)
  }

  lemma TenTimesProduct(x: nat, y: nat)
    ensures 10 * (x * y) == x * (10 * y)
  {
  }

  lemma {:induction false} ValueOfDigits(s: string, t: string)
    requires AllDigits(s) && AllDigits(t)
    ensures AllDigits(s + t)
    ensures DigitsValue(s + t) == DigitsValue(s) * Pow10(|t|) + DigitsValue(t)
  {
    if t == [] {
      assert s + t == s;
    } else {
      var init := t[..|t| - 1];
      ValueOfDigits(s, init);
      assert (s + t)[..|s + t| - 1] == s + init;
      assert DigitsValue(s + t) == 10 * DigitsValue(s + init) + (t[|t| - 1] - '0') as nat;
      TenTimesProduct(DigitsValue(s), Pow10(|init|));
    }
  }

  /**
   Decimals are read with the most significant digit first: a digit counts ten times as
   much with each digit after it.
   */
  lemma DigitsValueExactly(s: string, d: nat, t: string)
    requires AllDigits(s) && AllDigits(t) && d < 10
    ensures AllDigits(s + [DIGITS[d]]) && DigitsValue(s + [DIGITS[d]]) == 10 * DigitsValue(s) + d
    ensures AllDigits([DIGITS[d]] + t) && DigitsValue([DIGITS[d]] + t) == d * Pow10(|t|) + DigitsValue(t)
    ensures DigitsValue("") == 0
  {
    DigitsInOrder();
    assert (s + [DIGITS[d]])[..|s|] == s;
    assert DigitsValue([DIGITS[d]]) == d;
    ValueOfDigits([DIGITS[d]], t);
  }

  /** Powers of ten are ones followed by zeros. */
  lemma {:induction false} PowersOfTen(n: nat)
    ensures FormatNat(Pow10(n)) == "1" + seq(n, _ => '0')
  {
    if n > 0 {
      PowersOfTen(n - 1);
      assert Pow10(n) / 10 == Pow10(n - 1) && Pow10(n) % 10 == 0;
      assert seq(n, _ => '0') == seq(n - 1, _ => '0') + ['0'];
    }
  }

  /** A numeral without superfluous zeros in front. */
  ghost predicate IsShort(s: string) {
    s != [] && AllDigits(s) && (|s| > 1 ==> s[0] != '0')
  }

  lemma {:induction false} ValueOfShort(s: string)
    requires IsShort(s) && s != "0"
    ensures DigitsValue(s) > 0
  {
    if |s| > 1 {
      ValueOfShort(s[..|s| - 1]);
    }
  }

  lemma ValueByLastDigit(s: string) returns (last: nat)
    requires s != "" && AllDigits(s)
    ensures last < 10 && s[|s| - 1] == DigitChar(last)
    ensures s == s[..|s| - 1] + [DigitChar(last)] && AllDigits(s[..|s| - 1])
    ensures DigitsValue(s) == 10 * DigitsValue(s[..|s| - 1]) + last
  {
    last := (s[|s| - 1] - '0') as nat;
  }

  lemma SameLastDigit(s: string, t: string)
    requires s != "" && t != "" && AllDigits(s) && AllDigits(t) && DigitsValue(s) == DigitsValue(t)
    ensures DigitsValue(s[..|s| - 1]) == DigitsValue(t[..|t| - 1])
    ensures s == s[..|s| - 1] + [t[|t| - 1]] && t == t[..|t| - 1] + [t[|t| - 1]]
    ensures DigitsValue("") == 0
  {
    var d := ValueByLastDigit(s);
    var e := ValueByLastDigit(t);
    assert DigitsValue("") == 0;
    hide DigitsValue, DigitChar;
    assert d == e;
  }

  lemma {:induction false} ShortIsUnique(s: string, t: string)
    requires IsShort(s) && IsShort(t) && DigitsValue(s) == DigitsValue(t)
    ensures s == t
  {
    var s', t' := s[..|s| - 1], t[..|t| - 1];
    SameLastDigit(s, t);
    hide DigitsValue;
    if |s| > 1 && |t| > 1 {
      ShortIsUnique(s', t');
    } else if |s| > 1 {
      ValueOfShort(s');
    } else if |t| > 1 {
      ValueOfShort(t');
    }
  }

  lemma {:induction false} FormatIsShort(n: nat)
    ensures IsShort(FormatNat(n)) && (n > 0 ==> FormatNat(n) != "0")
  {
    if n >= 10 {
      FormatIsShort(n / 10);
    }
  }

  /** A number prints as its only numeral without superfluous zeros. */
  lemma FormatNatExactly(n: nat, s: string)
    ensures FormatNat(n) == s <==> IsShort(s) && DigitsValue(s) == n
  {
    ValueOfFormat(n);
    FormatIsShort(n);
    if IsShort(s) && DigitsValue(s) == n {
      ShortIsUnique(s, FormatNat(n));
    }
  }

  // ---- strconv.ParseInt with base 10 and 64 bits ----

  function Unsigned(s: string): string {
    if s != [] && (s[0] == '-' || s[0] == '+') then s[1..] else s
  }

  predicate IsNumeral(s: string) {
    s != [] && forall i :: 0 <= i < |s| ==> IsDigit(s[i])
  }

  function ParseInt64(s: string): Option<int> {
    var digits := Unsigned(s);
    if !IsNumeral(digits) then None
    else
      var v: int := if s[0] == '-' then 0 - DigitsValue(digits) else DigitsValue(digits);
      if -INT64_LIMIT <= v < INT64_LIMIT then Some(v) else None
  }

  /** An optional sign and at least one digit, within 64 bits. */
  ghost predicate IsInt64Text(s: string, sign: string, digits: string, v: int) {
    && s == sign + digits && sign in ["", "+", "-"]
    && digits != [] && AllDigits(digits)
    && v == (if sign == "-" then -1 else 1) * DigitsValue(digits)
    && -0x8000_0000_0000_0000 <= v <= 0x7FFF_FFFF_FFFF_FFFF
  }

  /** Exactly the texts of a sign and digits parse, and only within 64 bits. */
  lemma ParseInt64Exactly(s: string, v: int)
    ensures ParseInt64(s) == Some(v) <==> exists sign, digits :: IsInt64Text(s, sign, digits, v)
  {
    hide DigitsValue;
    if ParseInt64(s) == Some(v) {
      var digits := Unsigned(s);
      var sign := if digits == s then "" else [s[0]];
      assert s == sign + digits;
      assert digits == s ==> IsDigit(s[0]);
      assert IsInt64Text(s, sign, digits, v);
    }
    forall sign, digits | IsInt64Text(s, sign, digits, v) ensures ParseInt64(s) == Some(v) {
      assert s[0] == (sign + digits)[0];
      assert IsDigit(digits[0]);
      assert Unsigned(s) == digits;
    }
  }

  lemma ParseFormatNat(n: nat)
    requires n < INT64_LIMIT
    ensures ParseInt64(FormatNat(n)) == Some(n)
  {
    ValueOfFormat(n);
    hide FormatNat, DigitsValue;
    assert IsDigit(FormatNat(n)[0]);
  }

  lemma ParseFormatNegative(n: nat)
    requires 0 < n <= INT64_LIMIT
    ensures ParseInt64("-" + FormatNat(n)) == Some(0 - n)
  {
    ValueOfFormat(n);
    hide FormatNat, DigitsValue;
    assert ("-" + FormatNat(n))[1..] == FormatNat(n);
  }

  lemma ParseFormatInt(i: int)
    requires -INT64_LIMIT <= i < INT64_LIMIT
    ensures ParseInt64(FormatInt(i)) == Some(i)
    ensures forall k :: 0 <= k < |FormatInt(i)| ==> FormatInt(i)[k] == '-' || IsDigit(FormatInt(i)[k])
  {
    hide FormatNat, DigitsValue, ParseInt64;
    if i < 0 {
      ParseFormatNegative(-i);
      ValueOfFormat(-i);
    } else {
      ParseFormatNat(i);
      ValueOfFormat(i);
    }
  }

  // ---- fmt.Sscanf: what is left of the input after one step, or None where it stops ----

  /** Matches literal text. */
  function Expect(input: string, literal: string): Option<string> {
    if literal <= input then Some(input[|literal|..]) else None
  }

  /** Skips blanks; a line end is an error. */
  function SkipSpace(input: string): Option<string> {
    if input == [] || !IsSpace(input[0]) then Some(input)
    else if input[0] == '\n' then None
    else SkipSpace(input[1..])
  }

  function DigitPrefix(input: string): (n: nat)
    ensures n <= |input|
    ensures AllDigits(input[..n])
    ensures n < |input| ==> !IsDigit(input[n])
  {
    if input == [] || !IsDigit(input[0]) then 0
    else
      var n := 1 + DigitPrefix(input[1..]);
      assert forall i :: 1 <= i < n ==> input[..n][i] == input[1..][..n - 1][i - 1];
      n
  }

  /** %d into an unsigned variable that holds values below bound. */
  function ScanUnsigned(input: string, bound: nat): Option<(nat, string)> {
    match SkipSpace(input)
    case None => None
    case Some(rest) =>
      var n := DigitPrefix(rest);
      if n == 0 || DigitsValue(rest[..n]) >= bound then None
      else Some((DigitsValue(rest[..n]), rest[n..]))
  }

  /** %d into an int, whose value the caller ignores: an optional sign and digits within 64 bits. */
  function ScanSigned(input: string): Option<string> {
    match SkipSpace(input)
    case None => None
    case Some(rest) =>
      var digits := Unsigned(rest);
      var n := DigitPrefix(digits);
      if n == 0 || ParseInt64(rest[..|rest| - |digits| + n]).None? then None
      else Some(digits[n..])
  }

  // ---- What the scanner accepts ----

  /** White space that does not end the line. */
  ghost predicate AllBlanks(s: string) {
    forall i :: 0 <= i < |s| ==> IsSpace(s[i]) && s[i] != '\n'
  }

  lemma {:induction false} SkipSpaceDrops(blanks: string, rest: string)
    requires AllBlanks(blanks) && (rest == "" || !IsSpace(rest[0]))
    ensures SkipSpace(blanks + rest) == Some(rest)
  {
    if blanks == "" {
      assert blanks + rest == rest;
    } else {
      assert (blanks + rest)[1..] == blanks[1..] + rest;
      SkipSpaceDrops(blanks[1..], rest);
    }
  }

  lemma {:induction false} SkipSpaceCuts(input: string) returns (blanks: string)
    requires SkipSpace(input).Some?
    ensures AllBlanks(blanks) && input == blanks + SkipSpace(input).value
  {
    blanks := "";
    if input != "" && IsSpace(input[0]) {
      blanks := SkipSpaceCuts(input[1..]);
      blanks := [input[0]] + blanks;
    }
  }

  predicate StartsNoDigit(s: string) {
    s == "" || !IsDigit(s[0])
  }

  /** Blanks and the digits of a number below the bound. */
  ghost predicate IsUnsignedText(text: string, v: nat, bound: nat) {
    exists blanks, digits ::
      && text == blanks + digits && AllBlanks(blanks)
      && digits != "" && AllDigits(digits) && DigitsValue(digits) == v < bound
  }

  lemma ScanUnsignedExactly(input: string, bound: nat, v: nat, rest: string)
    ensures ScanUnsigned(input, bound) == Some((v, rest)) <==>
            StartsNoDigit(rest) && exists text :: input == text + rest && IsUnsignedText(text, v, bound)
  {
    hide DigitsValue;
    if ScanUnsigned(input, bound) == Some((v, rest)) {
      var blanks := SkipSpaceCuts(input);
      var after := SkipSpace(input).value;
      var n := DigitPrefix(after);
      assert input == (blanks + after[..n]) + rest;
      assert IsUnsignedText(blanks + after[..n], v, bound);
    }
    if text :| StartsNoDigit(rest) && input == text + rest && IsUnsignedText(text, v, bound) {
      ScanUnsignedReads(text, bound, v, rest);
    }
  }

  lemma ScanUnsignedReads(text: string, bound: nat, v: nat, rest: string)
    requires StartsNoDigit(rest) && IsUnsignedText(text, v, bound)
    ensures ScanUnsigned(text + rest, bound) == Some((v, rest))
  {
    hide DigitsValue, SkipSpace, DigitPrefix;
    var blanks, digits :| && text == blanks + digits && AllBlanks(blanks)
                          && digits != "" && AllDigits(digits) && DigitsValue(digits) == v < bound;
    assert text + rest == blanks + (digits + rest);
    assert IsDigit((digits + rest)[0]);
    SkipSpaceDrops(blanks, digits + rest);
    DigitPrefixOf(digits, rest);
    assert (digits + rest)[..|digits|] == digits && (digits + rest)[|digits|..] == rest;
  }

  /** Blanks, an optional sign and digits, within 64 bits. */
  ghost predicate IsSignedText(text: string) {
    exists blanks, sign, digits, v ::
      text == blanks + (sign + digits) && AllBlanks(blanks) && IsInt64Text(sign + digits, sign, digits, v)
  }

  lemma TextOfSign(text: string, sign: string, digits: string, v: int)
    requires IsInt64Text(text, sign, digits, v)
    ensures text == sign + digits && sign in ["", "+", "-"] && digits != "" && AllDigits(digits)
  {
  }

  lemma ScanSignedAccepts(input: string, rest: string) returns (text: string)
    requires ScanSigned(input) == Some(rest)
    ensures StartsNoDigit(rest) && input == text + rest && IsSignedText(text)
  {
    hide DigitsValue, ParseInt64, IsInt64Text, SkipSpace, AllBlanks;
    var blanks := SkipSpaceCuts(input);
    var after := SkipSpace(input).value;
    assert after == after[..|after| - |rest|] + rest;
    var number := after[..|after| - |rest|];
    ParseInt64Exactly(number, ParseInt64(number).value);
    var sign, ds :| IsInt64Text(number, sign, ds, ParseInt64(number).value);
    TextOfSign(number, sign, ds, ParseInt64(number).value);
    text := blanks + number;
    assert input == text + rest;
  }

  lemma ScanSignedReads(text: string, rest: string)
    requires StartsNoDigit(rest) && IsSignedText(text)
    ensures ScanSigned(text + rest) == Some(rest)
  {
    hide DigitsValue, ParseInt64, IsInt64Text, SkipSpace;
    var blanks, sign, digits, v :|
      text == blanks + (sign + digits) && AllBlanks(blanks) && IsInt64Text(sign + digits, sign, digits, v);
    ParseInt64Exactly(sign + digits, v);
    TextOfSign(sign + digits, sign, digits, v);
    var after := sign + digits + rest;
    assert text + rest == blanks + after;
    assert after[0] == (sign + digits)[0] && IsDigit(digits[0]);
    SkipSpaceDrops(blanks, after);
    DigitPrefixOf(digits, rest);
    ScanAfterSign(sign, digits, rest);
  }

  lemma ScanAfterSign(sign: string, digits: string, rest: string)
    requires sign in ["", "+", "-"] && digits != "" && AllDigits(digits)
    ensures var after := sign + digits + rest;
            Unsigned(after) == digits + rest && after[..|sign| + |digits|] == sign + digits
            && (digits + rest)[|digits|..] == rest
  {
    var after := sign + digits + rest;
    if sign == "" {
      assert after == digits + rest && IsDigit(after[0]);
    } else {
      assert after[1..] == digits + rest && after[0] == sign[0];
    }
  }

  lemma ScanSignedExactly(input: string, rest: string)
    ensures ScanSigned(input) == Some(rest) <==>
            StartsNoDigit(rest) && exists text :: input == text + rest && IsSignedText(text)
  {
    hide ScanSigned, IsSignedText;
    if ScanSigned(input) == Some(rest) {
      var text := ScanSignedAccepts(input, rest);
    }
    if text :| StartsNoDigit(rest) && input == text + rest && IsSignedText(text) {
      ScanSignedReads(text, rest);
    }
  }

  lemma {:induction false} DigitPrefixOf(digits: string, rest: string)
    requires AllDigits(digits) && (rest == [] || !IsDigit(rest[0]))
    ensures DigitPrefix(digits + rest) == |digits|
  {
    if digits == [] {
      assert digits + rest == rest;
    } else {
      assert (digits + rest)[1..] == digits[1..] + rest;
      DigitPrefixOf(digits[1..], rest);
    }
  }

  lemma ScanFormat(v: nat, bound: nat, rest: string)
    requires v < bound && (rest == [] || !IsDigit(rest[0]))
    ensures ScanUnsigned(FormatNat(v) + rest, bound) == Some((v, rest))
  {
    ValueOfFormat(v);
    DigitPrefixOf(FormatNat(v), rest);
    var input := FormatNat(v) + rest;
    assert input[0] == FormatNat(v)[0];
    assert input[..|FormatNat(v)|] == FormatNat(v) && input[|FormatNat(v)|..] == rest;
  }

  lemma ScanSignedFormat(v: nat, rest: string)
    requires v < INT64_LIMIT && (rest == [] || !IsDigit(rest[0]))
    ensures ScanSigned(FormatNat(v) + rest) == Some(rest)
  {
    ValueOfFormat(v);
    ParseFormatInt(v);
    DigitPrefixOf(FormatNat(v), rest);
    var input := FormatNat(v) + rest;
    assert input[0] == FormatNat(v)[0];
    assert input[..|FormatNat(v)|] == FormatNat(v) && input[|FormatNat(v)|..] == rest;
  }
}
