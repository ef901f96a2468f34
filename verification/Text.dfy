/** Bytes and the ASCII string operations of the standard library that the components call. */
module Text {
  type byte = n: int | 0 <= n < 256

  function Lower(c: char): char {
    if 'A' <= c <= 'Z' then c - 'A' + 'a' else c
  }

  function Upper(c: char): char {
    if 'a' <= c <= 'z' then c - 'a' + 'A' else c
  }

  function ToLower(s: string): (r: string)
    ensures |r| == |s|
  {
    seq(|s|, i requires 0 <= i < |s| => Lower(s[i]))
  }

  function ToUpper(s: string): (r: string)
    ensures |r| == |s|
  {
    seq(|s|, i requires 0 <= i < |s| => Upper(s[i]))
  }

  predicate IsSpace(c: char) {
    c == ' ' || '\t' <= c <= '\r'
  }

  ghost predicate AllSpaces(s: string) {
    forall i :: 0 <= i < |s| ==> IsSpace(s[i])
  }

  ghost predicate NoSpaces(s: string) {
    forall i :: 0 <= i < |s| ==> !IsSpace(s[i])
  }

  function TrimLeft(s: string): string {
    if s != [] && IsSpace(s[0]) then TrimLeft(s[1..]) else s
  }

  function TrimRight(s: string): string {
    if s != [] && IsSpace(s[|s| - 1]) then TrimRight(s[..|s| - 1]) else s
  }

  function TrimSpace(s: string): string {
    TrimRight(TrimLeft(s))
  }

  lemma {:induction false} TrimLeftDrops(before: string, s: string)
    requires AllSpaces(before) && (s == [] || !IsSpace(s[0]))
    ensures TrimLeft(before + s) == s
  {
    if before == [] {
      assert before + s == s;
    } else {
      assert (before + s)[1..] == before[1..] + s;
      TrimLeftDrops(before[1..], s);
    }
  }

  lemma {:induction false} TrimRightDrops(s: string, after: string)
    requires AllSpaces(after) && (s == [] || !IsSpace(s[|s| - 1]))
    ensures TrimRight(s + after) == s
  {
    if after == [] {
      assert s + after == s;
    } else {
      assert (s + after)[..|s + after| - 1] == s + after[..|after| - 1];
      TrimRightDrops(s, after[..|after| - 1]);
    }
  }

  /** Removing blanks around a text that neither begins nor ends with one. */
  lemma TrimSpaceDrops(before: string, s: string, after: string)
    requires AllSpaces(before) && AllSpaces(after)
    requires s == [] || (!IsSpace(s[0]) && !IsSpace(s[|s| - 1]))
    ensures TrimSpace(before + s + after) == s
  {
    if s == [] {
      assert before + s + after == (before + after) + [];
      TrimLeftDrops(before + after, []);
    } else {
      assert before + s + after == before + (s + after);
      TrimLeftDrops(before, s + after);
      TrimRightDrops(s, after);
    }
  }

  lemma {:induction false} TrimLeftCuts(s: string) returns (before: string)
    ensures s == before + TrimLeft(s) && AllSpaces(before)
    ensures TrimLeft(s) == [] || !IsSpace(TrimLeft(s)[0])
  {
    before := [];
    if s != [] && IsSpace(s[0]) {
      before := TrimLeftCuts(s[1..]);
      before := [s[0]] + before;
    }
  }

  lemma {:induction false} TrimRightCuts(s: string) returns (after: string)
    ensures s == TrimRight(s) + after && AllSpaces(after)
    ensures TrimRight(s) == [] || !IsSpace(TrimRight(s)[|TrimRight(s)| - 1])
  {
    after := [];
    if s != [] && IsSpace(s[|s| - 1]) {
      after := TrimRightCuts(s[..|s| - 1]);
      after := after + [s[|s| - 1]];
    }
  }

  const SPACES := " \t\n\r\U{0B}\U{0C}"

  ghost predicate Consists(s: string, of: string) {
    forall i :: 0 <= i < |s| ==> s[i] in of
  }

  /** Trimming takes away the blanks at both ends, all of them and nothing else. */
  lemma TrimSpaceExactly(s: string, t: string)
    ensures TrimSpace(s) == t <==>
            && (exists before, after :: s == before + t + after && Consists(before, SPACES) && Consists(after, SPACES))
            && (t == [] || (t[0] !in SPACES && t[|t| - 1] !in SPACES))
  {
    SpacesExactly();
    if TrimSpace(s) == t {
      var before := TrimLeftCuts(s);
      var after := TrimRightCuts(TrimLeft(s));
      assert t != [] ==> t[0] == TrimLeft(s)[0];
      assert s == before + t + after && Consists(before, SPACES) && Consists(after, SPACES);
    }
    forall before, after
      | && s == before + t + after && Consists(before, SPACES) && Consists(after, SPACES)
        && (t == [] || (t[0] !in SPACES && t[|t| - 1] !in SPACES))
      ensures TrimSpace(s) == t
    {
      TrimSpaceDrops(before, t, after);
    }
  }

  lemma SpacesExactly()
    ensures forall c :: IsSpace(c) <==> c in SPACES
  {
  }

  const CAPITALS := "ABCDEFGHIJKLMNOPQRSTUVWXYZ"
  const SMALL_LETTERS := "abcdefghijklmnopqrstuvwxyz"
  const DIGITS := "0123456789"

  /** Changing case exchanges the letters of the two alphabets and leaves every other character alone. */
  lemma CaseExactly(s: string, i: nat)
    requires i < |s|
    ensures s[i] !in CAPITALS ==> ToLower(s)[i] == s[i]
    ensures s[i] !in SMALL_LETTERS ==> ToUpper(s)[i] == s[i]
    ensures forall k :: 0 <= k < 26 && s[i] == CAPITALS[k] ==> ToLower(s)[i] == SMALL_LETTERS[k]
    ensures forall k :: 0 <= k < 26 && s[i] == SMALL_LETTERS[k] ==> ToUpper(s)[i] == CAPITALS[k]
  {
    LettersInOrder();
    hide CAPITALS, SMALL_LETTERS;
    if 'A' <= s[i] <= 'Z' {
      assert CAPITALS[(s[i] - 'A') as int] == s[i];
    }
    if 'a' <= s[i] <= 'z' {
      assert SMALL_LETTERS[(s[i] - 'a') as int] == s[i];
    }
  }

  lemma LettersInOrder()
    ensures |CAPITALS| == 26 && forall k :: 0 <= k < 26 ==> CAPITALS[k] == 'A' + k as char
    ensures |SMALL_LETTERS| == 26 && forall k :: 0 <= k < 26 ==> SMALL_LETTERS[k] == 'a' + k as char
    ensures |DIGITS| == 10 && forall k :: 0 <= k < 10 ==> DIGITS[k] == '0' + k as char
  {
  }

  // ---- Splitting and joining at a separator ----

  function Split(s: string, separator: string): (parts: seq<string>)
    requires separator != ""
    ensures parts != []
  {
    if s == "" then [""]
    else if separator <= s then [""] + Split(s[|separator|..], separator)
    else
      var rest := Split(s[1..], separator);
      [[s[0]] + rest[0]] + rest[1..]
  }

  function Join(parts: seq<string>, separator: string): string {
    if parts == [] then ""
    else if |parts| == 1 then parts[0]
    else parts[0] + separator + Join(parts[1..], separator)
  }

  ghost predicate Contains(s: string, part: string) {
    exists i :: 0 <= i <= |s| && part <= s[i..]
  }

  /** In the part followed by the separator, the separator is not met any earlier. */
  ghost predicate IsClear(part: string, separator: string) {
    forall i :: 0 <= i < |part| ==> !(separator <= (part + separator)[i..])
  }

  lemma {:induction false} SplitPart(part: string, rest: string, separator: string)
    requires separator != "" && IsClear(part, separator)
    ensures Split(part + separator + rest, separator) == [part] + Split(rest, separator)
    ensures Split(part, separator) == [part]
  {
    var all := part + separator + rest;
    if part == "" {
      assert all == separator + rest && all[|separator|..] == rest;
    } else {
      assert all[1..] == part[1..] + separator + rest;
      assert (part + separator)[0..] == part + separator;
      PrefixOfLonger(separator, part + separator, all);
      if |separator| <= |part| {
        PrefixOfLonger(separator, part, part + separator);
      }
      ClearTail(part, separator);
      SplitPart(part[1..], rest, separator);
      assert [part[0]] + part[1..] == part;
    }
  }

  lemma PrefixOfLonger(part: string, s: string, longer: string)
    requires s <= longer && |part| <= |s|
    ensures part <= s <==> part <= longer
  {
    assert longer[..|part|] == s[..|part|];
  }

  lemma ClearTail(part: string, separator: string)
    requires part != "" && IsClear(part, separator)
    ensures IsClear(part[1..], separator)
  {
    forall i | 0 <= i < |part| - 1 ensures !(separator <= (part[1..] + separator)[i..]) {
      assert (part[1..] + separator)[i..] == (part + separator)[i + 1..];
    }
  }

  /** Splitting undoes joining where the separator is not met earlier. */
  lemma {:induction false} SplitOfJoin(parts: seq<string>, separator: string)
    requires parts != [] && separator != ""
    requires forall i :: 0 <= i < |parts| ==> IsClear(parts[i], separator)
    ensures Split(Join(parts, separator), separator) == parts
  {
    if |parts| == 1 {
      SplitPart(parts[0], "", separator);
    } else {
      SplitOfJoin(parts[1..], separator);
      SplitPart(parts[0], Join(parts[1..], separator), separator);
      assert parts == [parts[0]] + parts[1..];
    }
  }

  lemma JoinGrows(c: char, parts: seq<string>, separator: string)
    requires parts != []
    ensures Join([[c] + parts[0]] + parts[1..], separator) == [c] + Join(parts, separator)
  {
    var longer := [[c] + parts[0]] + parts[1..];
    assert longer[1..] == parts[1..];
    if |parts| > 1 {
      hide Join;
      assert ([c] + parts[0]) + separator + Join(parts[1..], separator)
          == [c] + (parts[0] + separator + Join(parts[1..], separator));
    }
  }

  /** Joining undoes splitting, always. */
  lemma {:induction false} JoinOfSplit(s: string, separator: string)
    requires separator != ""
    ensures Join(Split(s, separator), separator) == s
  {
    if s != "" {
      if separator <= s {
        var rest := s[|separator|..];
        JoinOfSplit(rest, separator);
        assert ([""] + Split(rest, separator))[1..] == Split(rest, separator);
        assert s == "" + separator + rest;
      } else {
        JoinOfSplit(s[1..], separator);
        assert s == [s[0]] + s[1..];
        JoinGrows(s[0], Split(s[1..], separator), separator);
      }
    }
  }

  lemma ClearOfChar(part: string, c: char)
    ensures IsClear(part, [c]) <==> c !in part
  {
    forall i | 0 <= i < |part| ensures [c] <= (part + [c])[i..] <==> part[i] == c {
      assert (part + [c])[i..][0] == part[i];
    }
  }

  lemma PrefixOfTwo(pair: string, s: string)
    requires |pair| == 2
    ensures pair <= s <==> |s| >= 2 && s[0] == pair[0] && s[1] == pair[1]
  {
  }

  /** For two different characters in a row nothing straddles the end. */
  lemma ClearOfPair(part: string, separator: string)
    requires |separator| == 2 && separator[0] != separator[1] && !Contains(part, separator)
    ensures IsClear(part, separator)
  {
    forall i | 0 <= i < |part| ensures !(separator <= (part + separator)[i..]) {
      var rest := (part + separator)[i..];
      assert rest[0] == part[i] && rest[1] == if i + 1 < |part| then part[i + 1] else separator[0];
      assert !(separator <= part[i..]);
      PrefixOfTwo(separator, rest);
      PrefixOfTwo(separator, part[i..]);
    }
  }

  lemma {:induction false} PartsOfSplit(s: string, c: char)
    ensures forall i :: 0 <= i < |Split(s, [c])| ==> c !in Split(s, [c])[i]
  {
    if s != "" {
      PartsOfSplit(s[1..], c);
      assert [c] <= s <==> s[0] == c;
    }
  }

  /** Splitting at a character exactly: the parts are free of it and joined by it make the text. */
  lemma SplitExactly(s: string, c: char, parts: seq<string>)
    ensures Split(s, [c]) == parts <==>
            parts != [] && Join(parts, [c]) == s && forall i :: 0 <= i < |parts| ==> c !in parts[i]
  {
    JoinOfSplit(s, [c]);
    PartsOfSplit(s, c);
    if parts != [] && Join(parts, [c]) == s && forall i :: 0 <= i < |parts| ==> c !in parts[i] {
      forall i | 0 <= i < |parts| ensures IsClear(parts[i], [c]) {
        ClearOfChar(parts[i], c);
      }
      SplitOfJoin(parts, [c]);
    }
  }
}
