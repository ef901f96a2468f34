/**
 The list of allowed headers that the CORS middleware prepares: the three headers that are
 always allowed followed by the configured ones, without repetitions in any case. The loop
 writes its result into the front of the array that it is reading.
 */
module Cors {
  import opened Wrappers
  import opened Text

  const BASE_HEADERS := ["Origin", "Accept", "Content-Type"]

  ghost predicate Repeats(s: seq<string>, i: int)
    requires 0 <= i < |s|
  {
    exists j :: 0 <= j < i && ToLower(s[j]) == ToLower(s[i])
  }

  /** Each header whose spelling up to case has not occurred before, in order. */
  ghost function FirstOccurrences(s: seq<string>): seq<string> {
    if s == [] then []
    else
      var before := FirstOccurrences(s[..|s| - 1]);
      if Repeats(s, |s| - 1) then before else before + [s[|s| - 1]]
  }

  /** The headers at these positions. */
  ghost predicate Picks(s: seq<string>, positions: seq<int>, picked: seq<string>) {
    && |positions| == |picked|
    && (forall k :: 0 <= k < |positions| ==> 0 <= positions[k] < |s| && picked[k] == s[positions[k]])
    && (forall k, l :: 0 <= k < l < |positions| ==> positions[k] < positions[l])
  }

  lemma PicksInLonger(s: seq<string>, positions: seq<int>, picked: seq<string>, last: string)
    requires Picks(s, positions, picked)
    ensures Picks(s + [last], positions, picked)
    ensures Picks(s + [last], positions + [|s|], picked + [last])
    ensures |s| !in positions
  {
  }

  /** The first occurrences form a subsequence, at exactly the positions that repeat nothing before them. */
  lemma {:induction false} FirstOccurrencesArePicked(s: seq<string>) returns (positions: seq<int>)
    ensures Picks(s, positions, FirstOccurrences(s))
    ensures forall i :: 0 <= i < |s| ==> (i in positions <==> !Repeats(s, i))
  {
    if s == [] {
      positions := [];
    } else {
      hide ToLower, Repeats, Picks;
      var n := |s| - 1;
      var before := s[..n];
      var earlier := FirstOccurrencesArePicked(before);
      RepeatsInPrefix(s);
      assert s == before + [s[n]];
      PicksInLonger(before, earlier, FirstOccurrences(before), s[n]);
      positions := if Repeats(s, n) then earlier else earlier + [n];
      forall i | 0 <= i < |s| ensures i in positions <==> !Repeats(s, i) {
        if i < n {
          assert Repeats(before, i) <==> Repeats(s, i);
        }
      }
    }
  }

  lemma RepeatsInPrefix(s: seq<string>)
    requires s != []
    ensures forall i :: 0 <= i < |s| - 1 ==> (Repeats(s[..|s| - 1], i) <==> Repeats(s, i))
  {
    hide ToLower;
    var before := s[..|s| - 1];
    forall i | 0 <= i < |before| ensures Repeats(before, i) <==> Repeats(s, i) {
      assert before[i] == s[i];
      assert forall j :: 0 <= j < i ==> before[j] == s[j];
    }
  }

  ghost predicate OccursIn(s: seq<string>, lower: string) {
    exists i :: 0 <= i < |s| && ToLower(s[i]) == lower
  }

  /** Nothing is lost and nothing is repeated, up to case. */
  lemma FirstOccurrencesAreComplete(s: seq<string>)
    ensures forall lower :: OccursIn(FirstOccurrences(s), lower) <==> OccursIn(s, lower)
    ensures forall k, l :: 0 <= k < l < |FirstOccurrences(s)| ==>
              ToLower(FirstOccurrences(s)[k]) != ToLower(FirstOccurrences(s)[l])
  {
    hide ToLower;
    var positions := FirstOccurrencesArePicked(s);
    var picked := FirstOccurrences(s);
    forall k, l | 0 <= k < l < |picked| ensures ToLower(picked[k]) != ToLower(picked[l]) {
      assert positions[l] in positions;
      assert !Repeats(s, positions[l]);
    }
    forall lower | OccursIn(s, lower) ensures OccursIn(picked, lower) {
      var i :| 0 <= i < |s| && ToLower(s[i]) == lower;
      var first := EarliestWith(s, i);
      assert first in positions;
      var k :| 0 <= k < |positions| && positions[k] == first;
      assert ToLower(picked[k]) == lower;
    }
  }

  lemma {:induction false} EarliestWith(s: seq<string>, i: int) returns (first: int)
    requires 0 <= i < |s|
    ensures 0 <= first <= i && ToLower(s[first]) == ToLower(s[i]) && !Repeats(s, first)
    decreases i
  {
    hide ToLower;
    if Repeats(s, i) {
      var j :| 0 <= j < i && ToLower(s[j]) == ToLower(s[i]);
      first := EarliestWith(s, j);
    } else {
      first := i;
    }
  }

  /** Compacts the array in place; the result is its front of the returned length. */
  method Dedupe(headers: array<string>) returns (count: nat)
    modifies headers
    ensures count <= headers.Length
    ensures headers[..count] == FirstOccurrences(old(headers[..]))
  {
    hide ToLower;
    var seen: set<string> := {};
    count := 0;
    ghost var was := headers[..];
    for i := 0 to headers.Length
      invariant count <= i
      invariant forall k :: i <= k < headers.Length ==> headers[k] == was[k]
      invariant headers[..count] == FirstOccurrences(was[..i])
      invariant forall lower :: lower in seen <==> OccursIn(was[..i], lower)
    {
      var hdr := headers[i];
      ghost var read := was[..i + 1];
      assert read[..i] == was[..i];
      var lower := ToLower(hdr);
      SeenMeansRepeated(was, i);
      if lower !in seen {
        seen := seen + {lower};
        headers[count] := hdr;
        count := count + 1;
        assert headers[..count] == FirstOccurrences(was[..i]) + [hdr];
      }
    }
    assert was[..headers.Length] == was;
  }

  lemma SeenMeansRepeated(s: seq<string>, i: nat)
    requires i < |s|
    ensures OccursIn(s[..i], ToLower(s[i])) <==> Repeats(s[..i + 1], i)
    ensures forall lower :: OccursIn(s[..i + 1], lower) <==> OccursIn(s[..i], lower) || lower == ToLower(s[i])
  {
    hide ToLower;
    var before, read := s[..i], s[..i + 1];
    assert forall j :: 0 <= j < i ==> before[j] == s[j] == read[j];
    assert read[i] == s[i];
    forall lower ensures OccursIn(read, lower) <==> OccursIn(before, lower) || lower == ToLower(s[i]) {
      if OccursIn(before, lower) {
        var j :| 0 <= j < |before| && ToLower(before[j]) == lower;
        assert ToLower(read[j]) == lower;
      }
    }
    if OccursIn(before, ToLower(s[i])) {
      var j :| 0 <= j < |before| && ToLower(before[j]) == ToLower(s[i]);
      assert ToLower(read[j]) == ToLower(read[i]);
    }
    if Repeats(read, i) {
      var j :| 0 <= j < i && ToLower(read[j]) == ToLower(read[i]);
      assert ToLower(before[j]) == ToLower(s[i]);
    }
  }

  lemma {:induction false} FirstOccurrencesAreFrom(s: seq<string>)
    ensures forall h :: h in FirstOccurrences(s) ==> h in s
    ensures s != [] ==> FirstOccurrences(s) != []
  {
    if s != [] {
      FirstOccurrencesAreFrom(s[..|s| - 1]);
    }
  }

  /** Unless a header contains the separator, the list can be read back from the text. */
  lemma ListIsReadable(configured: seq<string>)
    requires forall i :: 0 <= i < |configured| ==> !Contains(configured[i], ", ")
    ensures var list := FirstOccurrences(["Origin", "Accept", "Content-Type"] + configured);
            Split(Join(list, ", "), ", ") == list
  {
    hide FirstOccurrences, Contains, Split, Join, IsClear;
    BaseHeadersAreClear();
    forall i | 0 <= i < |configured| ensures IsClear(configured[i], ", ") {
      ClearOfPair(configured[i], ", ");
    }
    ClearListIsReadable(["Origin", "Accept", "Content-Type"], configured);
  }

  lemma ClearListIsReadable(base: seq<string>, configured: seq<string>)
    requires base != [] && forall i :: 0 <= i < |base| ==> IsClear(base[i], ", ")
    requires forall i :: 0 <= i < |configured| ==> IsClear(configured[i], ", ")
    ensures var list := FirstOccurrences(base + configured);
            Split(Join(list, ", "), ", ") == list
  {
    hide FirstOccurrences, IsClear, Split, Join;
    var all := base + configured;
    var list := FirstOccurrences(all);
    FirstOccurrencesAreFrom(all);
    forall i | 0 <= i < |list| ensures IsClear(list[i], ", ") {
      assert list[i] in all;
      var k :| 0 <= k < |all| && all[k] == list[i];
    }
    SplitOfJoin(list, ", ");
  }

  lemma BaseHeadersAreClear()
    ensures forall i :: 0 <= i < 3 ==> IsClear(["Origin", "Accept", "Content-Type"][i], ", ")
  {
    NoComma("Origin");
    NoComma("Accept");
    NoComma("Content-Type");
  }

  lemma NoComma(s: string)
    requires ',' !in s
    ensures IsClear(s, ", ")
  {
    forall i | 0 <= i < |s| ensures !(", " <= (s + ", ")[i..]) {
      assert (s + ", ")[i..][0] == s[i];
    }
  }

  /** The header list for a configuration; a lone star is kept as it is. The configured list is not written to. */
  method AllowedHeaders(configured: array<string>) returns (allowed: string)
    ensures configured[..] == old(configured[..])
    ensures allowed == if configured[..] == ["*"] then "*"
                       else Join(FirstOccurrences(["Origin", "Accept", "Content-Type"] + configured[..]), ", ")
    ensures configured[..] != ["*"] && (forall i :: 0 <= i < configured.Length ==> !Contains(configured[i], ", ")) ==>
              Split(allowed, ", ") == FirstOccurrences(["Origin", "Accept", "Content-Type"] + configured[..])
  {
    var base := BASE_HEADERS;
    var headers := new string[3 + configured.Length](_ => "");
    forall i | 0 <= i < 3 {
      headers[i] := base[i];
    }
    forall i | 0 <= i < configured.Length {
      headers[3 + i] := configured[i];
    }
    assert headers[..3] == base && headers[3..] == configured[..];
    assert headers[..] == BASE_HEADERS + configured[..];
    if configured.Length == 1 && configured[0] == "*" {
      return "*";
    }
    var count := Dedupe(headers);
    allowed := Join(headers[..count], ", ");
    if forall i :: 0 <= i < configured.Length ==> !Contains(configured[i], ", ") {
      ListIsReadable(configured[..]);
    }
  }
}
