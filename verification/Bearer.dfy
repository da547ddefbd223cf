/** `_BEARER_PATTERN.sub(r"\1[REDACTED]", value)`: the pattern `(Bearer\s+)[^\s,;]+`, case folded. */
module Bearer {
  import opened Text

  const MASK := "[REDACTED]"

  predicate IsTokenChar(c: char) {
    !IsSpace(c) && c != ',' && c != ';'
  }

  predicate IsB(c: char) { c == 'b' || c == 'B' }
  predicate IsE(c: char) { c == 'e' || c == 'E' }
  predicate IsA(c: char) { c == 'a' || c == 'A' }
  predicate IsR(c: char) { c == 'r' || c == 'R' }

  /** `s` starts with "Bearer", ignoring case. */
  predicate StartsKeyword(s: string) {
    6 <= |s| && IsB(s[0]) && IsE(s[1]) && IsA(s[2]) && IsR(s[3]) && IsE(s[4]) && IsR(s[5])
  }

  /** The keyword in any mix of cases: its letters are those that lower to the letters of "bearer". */
  lemma KeywordInAnyCase(s: string)
    ensures StartsKeyword(s)
       <==> 6 <= |s| && forall i | 0 <= i < 6 :: LowerChar(s[i]) == ["bearer"[i]]
  {
    var keyword := "bearer";
    assert keyword[0] == 'b' && keyword[1] == 'e' && keyword[2] == 'a' && keyword[3] == 'r' && keyword[4] == 'e'
        && keyword[5] == 'r';
    if 6 <= |s| {
      assert (forall i | 0 <= i < 6 :: LowerChar(s[i]) == [keyword[i]])
          <==> LowerChar(s[0]) == "b" && LowerChar(s[1]) == "e" && LowerChar(s[2]) == "a" && LowerChar(s[3]) == "r"
               && LowerChar(s[4]) == "e" && LowerChar(s[5]) == "r";
    }
  }

  // ----- The language of the pattern -----

  /** The pattern can match `s[..stop]` with its group being `s[..gap]`. No choice of the matcher is fixed. */
  ghost predicate Matches(s: string, gap: nat, stop: nat) {
    && StartsKeyword(s)
    && 6 < gap < stop <= |s|
    && (forall i | 6 <= i < gap :: IsSpace(s[i]))
    && (forall i | gap <= i < stop :: IsTokenChar(s[i]))
  }

  ghost predicate MatchesSomehow(s: string) {
    exists gap: nat, stop: nat :: Matches(s, gap, stop)
  }

  // ----- The match a backtracking matcher finds -----

  /** End of the run of spaces that starts at `i`. */
  function SpaceEnd(s: string, i: nat): (j: nat)
    requires i <= |s|
    ensures i <= j <= |s|
    ensures forall k | i <= k < j :: IsSpace(s[k])
    ensures j < |s| ==> !IsSpace(s[j])
    decreases |s| - i
  {
    if i < |s| && IsSpace(s[i]) then SpaceEnd(s, i + 1) else i
  }

  /** End of the run of token characters that starts at `i`. */
  function TokenEnd(s: string, i: nat): (j: nat)
    requires i <= |s|
    ensures i <= j <= |s|
    ensures forall k | i <= k < j :: IsTokenChar(s[k])
    ensures j < |s| ==> !IsTokenChar(s[j])
    decreases |s| - i
  {
    if i < |s| && IsTokenChar(s[i]) then TokenEnd(s, i + 1) else i
  }

  predicate Starts(s: string) {
    StartsKeyword(s) && 6 < SpaceEnd(s, 6) < TokenEnd(s, SpaceEnd(s, 6))
  }

  function Gap(s: string): nat
    requires Starts(s)
  {
    SpaceEnd(s, 6)
  }

  function Stop(s: string): nat
    requires Starts(s)
  {
    TokenEnd(s, Gap(s))
  }

  /** Backtracking into `\s+` never succeeds: every way to match shares one group, and greed takes the
      longest token. */
  lemma GreedyMatchIsTheMatch(s: string)
    ensures Starts(s) <==> MatchesSomehow(s)
    ensures Starts(s) ==> Matches(s, Gap(s), Stop(s))
    ensures forall gap: nat, stop: nat | Matches(s, gap, stop) :: Starts(s) && gap == Gap(s) && stop <= Stop(s)
  {
    forall gap: nat, stop: nat | Matches(s, gap, stop)
      ensures Starts(s) && gap == Gap(s) && stop <= Stop(s)
    {
      var g := SpaceEnd(s, 6);
      assert IsTokenChar(s[gap]) && !IsSpace(s[gap]);
      assert g == gap;
      assert stop <= TokenEnd(s, g);
    }
    if Starts(s) {
      assert Matches(s, Gap(s), Stop(s));
    }
  }

  // ----- Leftmost, non-overlapping substitution -----

  function Sub(s: string): string {
    if s == "" then ""
    else if Starts(s) then s[..Gap(s)] + MASK + Sub(s[Stop(s)..])
    else [s[0]] + Sub(s[1..])
  }

  datatype Span = Span(start: nat, gap: nat, stop: nat)

  /** `m` is the match at `m.start` that the greedy quantifiers prefer among all of them. */
  ghost predicate Preferred(s: string, m: Span) {
    && m.start < m.gap < m.stop <= |s|
    && Matches(s[m.start..], m.gap - m.start, m.stop - m.start)
    && forall gap: nat, stop: nat | Matches(s[m.start..], gap, stop) ::
         gap < m.gap - m.start || (gap == m.gap - m.start && stop <= m.stop - m.start)
  }

  ghost predicate NoMatchWithin(s: string, from: nat, to: nat)
    requires to <= |s|
  {
    forall i | from <= i < to :: !MatchesSomehow(s[i..])
  }

  /** `ms` are the matches `re.sub` replaces when it starts at `from`: each the leftmost one after the last. */
  ghost predicate Leftmost(s: string, from: nat, ms: seq<Span>)
    requires from <= |s|
    decreases |ms|
  {
    if ms == [] then NoMatchWithin(s, from, |s|)
    else
      && from <= ms[0].start
      && Preferred(s, ms[0])
      && NoMatchWithin(s, from, ms[0].start)
      && Leftmost(s, ms[0].stop, ms[1..])
  }

  /** The text with the token of each of `ms` replaced. */
  ghost function Rendered(s: string, from: nat, ms: seq<Span>): string
    requires from <= |s| && Leftmost(s, from, ms)
    decreases |ms|
  {
    if ms == [] then s[from..]
    else s[from..ms[0].gap] + MASK + Rendered(s, ms[0].stop, ms[1..])
  }

  lemma SlicesMeet(s: string, a: nat, b: nat, c: nat)
    requires a <= b <= c <= |s|
    ensures s[a..b] + s[b..c] == s[a..c]
  {
  }

  lemma {:induction false} SkipToMatch(s: string, from: nat, to: nat)
    requires from <= to <= |s| && NoMatchWithin(s, from, to)
    ensures Sub(s[from..]) == s[from..to] + Sub(s[to..])
    decreases |s| - from
  {
    if from == to {
      assert s[from..to] == "";
    } else {
      GreedyMatchIsTheMatch(s[from..]);
      SkipToMatch(s, from + 1, to);
      assert s[from..][1..] == s[from + 1..] && s[from..from + 1] == [s[from]];
      SlicesMeet(s, from, from + 1, to);
      JoinThree([s[from]], s[from + 1..to], Sub(s[to..]));
    }
  }

  lemma {:induction false} SubAtMatch(s: string, m: Span)
    requires Preferred(s, m)
    ensures Sub(s[m.start..]) == s[m.start..m.gap] + MASK + Sub(s[m.stop..])
  {
    var t := s[m.start..];
    GreedyMatchIsTheMatch(t);
    assert Gap(t) == m.gap - m.start && Stop(t) == m.stop - m.start;
    assert t[..Gap(t)] == s[m.start..m.gap] && t[Stop(t)..] == s[m.stop..];
  }

  lemma JoinAround(a: string, b: string, c: string, d: string)
    ensures a + (b + c + d) == a + b + c + d
  {
  }

  lemma {:induction false} SubUpToMatch(s: string, from: nat, m: Span)
    requires from <= m.start && Preferred(s, m) && NoMatchWithin(s, from, m.start)
    ensures Sub(s[from..]) == s[from..m.gap] + MASK + Sub(s[m.stop..])
  {
    SkipToMatch(s, from, m.start);
    SubAtMatch(s, m);
    JoinAround(s[from..m.start], s[m.start..m.gap], MASK, Sub(s[m.stop..]));
    SlicesMeet(s, from, m.start, m.gap);
  }

  /** The recursive form is the declarative substitution, whatever list of leftmost matches is given. */
  lemma {:induction false} SubIsLeftmostSubstitution(s: string, from: nat, ms: seq<Span>)
    requires from <= |s| && Leftmost(s, from, ms)
    ensures Sub(s[from..]) == Rendered(s, from, ms)
    decreases |ms|
  {
    if ms == [] {
      SkipToMatch(s, from, |s|);
      assert s[from..|s|] == s[from..] && s[|s|..] == "";
      assert s[from..] + "" == s[from..];
    } else {
      SubUpToMatch(s, from, ms[0]);
      SubIsLeftmostSubstitution(s, ms[0].stop, ms[1..]);
    }
  }

  lemma {:induction false} FirstMatchIsHere(s: string, from: nat, m: Span, other: seq<Span>)
    requires from < |s| && m.start == from && Preferred(s, m) && Leftmost(s, from, other)
    ensures other != [] && other[0] == m && Leftmost(s, m.stop, other[1..]) && other == [m] + other[1..]
  {
  }

  lemma {:induction false} NoMatchIsHere(s: string, from: nat, ms: seq<Span>)
    requires from < |s| && !MatchesSomehow(s[from..])
    ensures Leftmost(s, from, ms) <==> Leftmost(s, from + 1, ms)
  {
    assert ms != [] && Preferred(s, ms[0]) ==>
        var m := ms[0]; Matches(s[m.start..], m.gap - m.start, m.stop - m.start);
  }

  lemma {:induction false} GreedyIsPreferred(s: string, from: nat)
    requires from <= |s| && Starts(s[from..])
    ensures Preferred(s, Span(from, from + Gap(s[from..]), from + Stop(s[from..])))
  {
    GreedyMatchIsTheMatch(s[from..]);
  }

  /** There always is such a list of matches, and only one. */
  lemma {:induction false} LeftmostMatchesExist(s: string, from: nat) returns (ms: seq<Span>)
    requires from <= |s|
    ensures Leftmost(s, from, ms)
    ensures forall other: seq<Span> | Leftmost(s, from, other) :: other == ms
    decreases |s| - from
  {
    if from == |s| {
      ms := [];
      assert !StartsKeyword(s[from..]);
    } else if Starts(s[from..]) {
      var m := Span(from, from + Gap(s[from..]), from + Stop(s[from..]));
      GreedyIsPreferred(s, from);
      var rest := LeftmostMatchesExist(s, m.stop);
      ms := [m] + rest;
      assert ms[1..] == rest;
      forall other: seq<Span> | Leftmost(s, from, other)
        ensures other == ms
      {
        FirstMatchIsHere(s, from, m, other);
      }
    } else {
      GreedyMatchIsTheMatch(s[from..]);
      ms := LeftmostMatchesExist(s, from + 1);
      NoMatchIsHere(s, from, ms);
      forall other: seq<Span> | Leftmost(s, from, other)
        ensures other == ms
      {
        NoMatchIsHere(s, from, other);
      }
    }
  }

  lemma {:induction false} RunsOfSuffix(s: string, i: nat, p: nat)
    requires i + p <= |s|
    ensures SpaceEnd(s[i..], p) == SpaceEnd(s, i + p) - i
    ensures TokenEnd(s[i..], p) == TokenEnd(s, i + p) - i
    decreases |s| - p
  {
  }

  /** Tries the pattern at position `i`. */
  method MatchAt(s: string, i: nat) returns (found: bool, j: nat, k: nat)
    requires i <= |s|
    ensures found <==> Starts(s[i..])
    ensures found ==> j == i + Gap(s[i..]) && k == i + Stop(s[i..])
  {
    found, j, k := false, i, i;
    if i + 6 <= |s| && StartsKeyword(s[i..i + 6]) {
      j := i + 6;
      while j < |s| && IsSpace(s[j])
        invariant i + 6 <= j <= |s|
        invariant SpaceEnd(s, i + 6) == SpaceEnd(s, j)
      {
        j := j + 1;
      }
      k := j;
      while k < |s| && IsTokenChar(s[k])
        invariant j <= k <= |s|
        invariant TokenEnd(s, j) == TokenEnd(s, k)
      {
        k := k + 1;
      }
      found := i + 6 < j < k;
      RunsOfSuffix(s, i, 6);
      RunsOfSuffix(s, i, j - i);
    }
  }

  /** The substitution as one left-to-right pass over the text. */
  method Scan(s: string) returns (out: string)
    ensures out == Sub(s)
  {
    out := "";
    var i := 0;
    assert s[0..] == s;
    while i < |s|
      invariant 0 <= i <= |s|
      invariant out + Sub(s[i..]) == Sub(s)
      decreases |s| - i
    {
      ghost var t := s[i..];
      var found, j, k := MatchAt(s, i);
      if found {
        assert t[Stop(t)..] == s[k..] && t[..Gap(t)] == s[i..j];
        JoinAround(out, s[i..j], MASK, Sub(s[k..]));
        out, i := out + s[i..j] + MASK, k;
      } else {
        assert t[1..] == s[i + 1..];
        JoinAround(out, [s[i]], "", Sub(s[i + 1..]));
        out, i := out + [s[i]], i + 1;
      }
    }
    assert s[i..] == "" && out + "" == out;
  }

  // ----- What the output shows -----

  /** Wherever the pattern can match in `t`, its longest token is the mask and nothing else. */
  ghost predicate Covered(t: string) {
    forall i | 0 <= i < |t| && Starts(t[i..]) :: t[i..][Gap(t[i..])..Stop(t[i..])] == MASK
  }

  /** Up to the first letter that could open a keyword, and on that letter too, the substitution
      changes nothing. */
  lemma {:induction false} SubAgreesBeforeKeyword(u: string, n: nat)
    requires n < |Sub(u)| && forall i | 0 <= i < n :: !IsB(Sub(u)[i])
    ensures n < |u| && forall i | 0 <= i <= n :: u[i] == Sub(u)[i]
    decreases n
  {
    assert u != "" && Sub(u)[0] == u[0];
    if n > 0 {
      var rest := Sub(u[1..]);
      assert Sub(u) == [u[0]] + rest;
      assert forall i | 0 <= i < n :: rest[i] == Sub(u)[i + 1];
      SubAgreesBeforeKeyword(u[1..], n - 1);
      assert forall i | 0 < i <= n :: u[i] == u[1..][i - 1] == rest[i - 1];
    }
  }

  lemma NoKeywordLetterInGroup(t: string)
    requires Starts(t)
    ensures 6 < Gap(t) < |t| && forall i | 1 <= i < Gap(t) :: !IsB(t[i])
  {
  }

  /** Up to the token of a match in its redaction, a text that does not start with one is unchanged. */
  lemma {:induction false} AgreesUpToToken(s: string, g: nat)
    requires s != "" && !Starts(s)
    requires 0 < g < |Sub(s)| && forall i | 1 <= i < g :: !IsB(Sub(s)[i])
    ensures g < |s| && forall i | 0 <= i <= g :: s[i] == Sub(s)[i]
  {
    var u := Sub(s[1..]);
    assert forall i | 0 <= i < |u| :: u[i] == Sub(s)[i + 1];
    SubAgreesBeforeKeyword(s[1..], g - 1);
    assert forall i | 0 < i <= g :: s[i] == s[1..][i - 1] == u[i - 1];
  }

  lemma StartsIfAgrees(s: string, t: string)
    requires Starts(t) && Gap(t) < |s| && |t| > Gap(t) && forall i | 0 <= i <= Gap(t) :: s[i] == t[i]
    ensures Starts(s)
  {
  }

  /** No match appears that was not there: "bearer" has no proper border. */
  lemma {:induction false} NoMatchAppears(s: string)
    requires Starts(Sub(s))
    ensures Starts(s) && Gap(s) == Gap(Sub(s))
  {
    if !Starts(s) {
      NoKeywordLetterInGroup(Sub(s));
      AgreesUpToToken(s, Gap(Sub(s)));
      StartsIfAgrees(s, Sub(s));
    }
    MatchStays(s);
  }

  /** The text after a match starts with a separator, and the substitution keeps that character. */
  lemma {:induction false} AfterMatch(s: string)
    requires Starts(s)
    ensures var rest := Sub(s[Stop(s)..]); rest == "" || !IsTokenChar(rest[0])
  {
  }

  /** A match stays a match with the same group, and its token becomes the mask. */
  lemma {:induction false} MatchStays(s: string)
    requires Starts(s)
    ensures Starts(Sub(s)) && Gap(Sub(s)) == Gap(s) && Stop(Sub(s)) == Gap(s) + |MASK|
    ensures Sub(s)[Gap(s)..Stop(Sub(s))] == MASK
    ensures Sub(s)[Stop(Sub(s))..] == Sub(s[Stop(s)..])
  {
    var g := Gap(s);
    var rest := Sub(s[Stop(s)..]);
    var t := Sub(s);
    var stop := g + |MASK|;
    AfterMatch(s);
    assert t == s[..g] + MASK + rest;
    assert forall i | 0 <= i < g :: t[i] == s[i];
    assert forall i | g <= i < stop :: t[i] == MASK[i - g] && IsTokenChar(t[i]);
    assert Matches(t, g, stop);
    GreedyMatchIsTheMatch(t);
    if stop < |t| {
      assert t[stop] == rest[0];
    }
    assert Stop(t) == stop;
  }

  lemma MaskHasNoB(j: nat)
    requires j < |MASK|
    ensures !IsB(MASK[j])
  {
  }

  lemma InSlice(t: string, a: nat, b: nat, i: nat)
    requires a <= i < b <= |t|
    ensures t[a..b][i - a] == t[i]
  {
  }

  lemma KeywordHasOneB(t: string, i: nat)
    requires StartsKeyword(t) && 0 < i < 6
    ensures !IsB(t[i])
  {
  }

  lemma {:induction false} GapHasNoB(t: string, i: nat)
    requires Starts(t) && 6 <= i < Gap(t)
    ensures !IsB(t[i])
  {
    assert IsSpace(t[i]);
  }

  /** Inside a masked match no keyword starts. */
  lemma {:induction false} NoKeywordInsideMatch(t: string, i: nat)
    requires Starts(t) && t[Gap(t)..Stop(t)] == MASK && 0 < i < Stop(t)
    ensures !IsB(t[i])
  {
    if i < 6 {
      KeywordHasOneB(t, i);
    } else if i < Gap(t) {
      GapHasNoB(t, i);
    } else {
      InSlice(t, Gap(t), Stop(t), i);
      MaskHasNoB(i - Gap(t));
    }
  }

  lemma {:induction false} CoveredFrom(t: string, n: nat)
    requires n <= |t| && Covered(t[n..])
    requires forall i | 0 <= i < n && Starts(t[i..]) :: t[i..][Gap(t[i..])..Stop(t[i..])] == MASK
    ensures Covered(t)
  {
    forall i | 0 <= i < |t| && Starts(t[i..])
      ensures t[i..][Gap(t[i..])..Stop(t[i..])] == MASK
    {
      if i >= n {
        assert t[i..] == t[n..][i - n..];
      }
    }
  }

  lemma {:induction false} CoveredFromMatch(t: string)
    requires Starts(t) && t[Gap(t)..Stop(t)] == MASK && Covered(t[Stop(t)..])
    ensures Covered(t)
  {
    forall i | 0 <= i < Stop(t) && Starts(t[i..])
      ensures i == 0
    {
      if i > 0 {
        NoKeywordInsideMatch(t, i);
      }
    }
    assert t[0..] == t;
    CoveredFrom(t, Stop(t));
  }

  /** At every position of a redacted text where the pattern matches, overlapping positions included,
      the whole token is the mask. */
  lemma {:induction false} OutputIsCovered(s: string)
    ensures Covered(Sub(s))
    decreases |s|
  {
    if s == "" {
    } else if Starts(s) {
      MatchStays(s);
      OutputIsCovered(s[Stop(s)..]);
      CoveredFromMatch(Sub(s));
    } else {
      var t := Sub(s);
      assert t[1..] == Sub(s[1..]) && t[0..] == t;
      OutputIsCovered(s[1..]);
      if Starts(t) {
        NoMatchAppears(s);
      }
      CoveredFrom(t, 1);
    }
  }

  lemma CoveredSuffix(t: string, n: nat)
    requires Covered(t) && n <= |t|
    ensures Covered(t[n..])
  {
  }

  lemma ThreeSlices(t: string, a: nat, b: nat)
    requires a <= b <= |t|
    ensures t[..a] + t[a..b] + t[b..] == t
  {
  }

  lemma {:induction false} MaskedMatchIsFixed(t: string)
    requires Starts(t) && t[Gap(t)..Stop(t)] == MASK && Sub(t[Stop(t)..]) == t[Stop(t)..]
    ensures Sub(t) == t
  {
    ThreeSlices(t, Gap(t), Stop(t));
  }

  /** A covered text has nothing left to replace. */
  lemma {:induction false} CoveredIsFixed(t: string)
    requires Covered(t)
    ensures Sub(t) == t
    decreases |t|
  {
    if t != "" {
      assert t[0..] == t;
      var n := if Starts(t) then Stop(t) else 1;
      CoveredSuffix(t, n);
      CoveredIsFixed(t[n..]);
      if Starts(t) {
        MaskedMatchIsFixed(t);
      } else {
        assert [t[0]] + t[1..] == t;
      }
    }
  }

  lemma SubIdempotent(s: string)
    ensures Sub(Sub(s)) == Sub(s)
  {
    OutputIsCovered(s);
    CoveredIsFixed(Sub(s));
  }

  // ----- What the output hides -----

  /** `s` and `t` agree everywhere but inside the tokens of their leftmost matches. */
  ghost predicate SameButTokens(s: string, t: string)
    decreases |s|
  {
    if s == "" || t == "" then s == t
    else if Starts(s) || Starts(t) then
      Starts(s) && Starts(t) && s[..Gap(s)] == t[..Gap(t)] && SameButTokens(s[Stop(s)..], t[Stop(t)..])
    else s[0] == t[0] && SameButTokens(s[1..], t[1..])
  }

  lemma {:induction false} SameRedactionOfMatches(s: string, t: string)
    requires Starts(s) && Starts(t)
    ensures Sub(s) == Sub(t) <==> s[..Gap(s)] == t[..Gap(t)] && Sub(s[Stop(s)..]) == Sub(t[Stop(t)..])
  {
    MatchStays(s);
    MatchStays(t);
    assert Sub(s)[..Gap(s)] == s[..Gap(s)];
    assert Sub(t)[..Gap(t)] == t[..Gap(t)];
  }

  lemma {:induction false} SameRedactionStartsAlike(s: string, t: string)
    requires Sub(s) == Sub(t)
    ensures Starts(s) <==> Starts(t)
  {
    if Starts(s) {
      MatchStays(s);
      NoMatchAppears(t);
    } else if Starts(t) {
      MatchStays(t);
      NoMatchAppears(s);
    }
  }

  /** The substitution hides the tokens of the leftmost matches completely, and nothing else. */
  lemma {:induction false} SubHidesExactlyTokens(s: string, t: string)
    ensures Sub(s) == Sub(t) <==> SameButTokens(s, t)
    decreases |s|
  {
    if s == "" || t == "" {
    } else if Starts(s) && Starts(t) {
      SameRedactionOfMatches(s, t);
      SubHidesExactlyTokens(s[Stop(s)..], t[Stop(t)..]);
    } else if Starts(s) || Starts(t) {
      if Sub(s) == Sub(t) {
        SameRedactionStartsAlike(s, t);
      }
    } else {
      SubHidesExactlyTokens(s[1..], t[1..]);
      assert Sub(s)[1..] == Sub(s[1..]) && Sub(t)[1..] == Sub(t[1..]);
    }
  }

  // ----- Credentials -----

  predicate IsB64Char(c: char) {
    'A' <= c <= 'Z' || 'a' <= c <= 'z' || '0' <= c <= '9' || c in "-._~+/"
  }

  ghost predicate IsB64TokenSplitAt(s: string, n: nat) {
    0 < n <= |s| && (forall i | 0 <= i < n :: IsB64Char(s[i])) && (forall i | n <= i < |s| :: s[i] == '=')
  }

  /** `b64token` of section 2.1 of RFC 6750: one or more of its characters, then any number of "=". */
  ghost predicate IsB64Token(s: string) {
    exists n: nat :: IsB64TokenSplitAt(s, n)
  }

  lemma {:induction false} MatchStopsAtSeparator(before: string, c: char, after: string)
    requires before != "" && (c == ',' || c == ';')
    ensures var s := before + ([c] + after);
            Starts(s) == Starts(before)
            && (Starts(s) ==> Gap(s) == Gap(before) && Stop(s) == Stop(before))
  {
    var s := before + ([c] + after);
    var m := |before|;
    assert s[m] == c && !IsTokenChar(c) && !IsSpace(c);
    assert forall i | 0 <= i < m :: s[i] == before[i];
    GreedyMatchIsTheMatch(s);
    GreedyMatchIsTheMatch(before);
    if Starts(s) {
      assert Stop(s) <= m;
      assert Matches(before, Gap(s), Stop(s));
    }
    if Starts(before) {
      assert Matches(s, Gap(before), Stop(before));
    }
  }

  lemma PiecesOfJoin(before: string, rest: string, g: nat, k: nat)
    requires g <= |before| && k <= |before|
    ensures (before + rest)[..g] == before[..g] && (before + rest)[k..] == before[k..] + rest
  {
  }

  lemma {:induction false} SubOfMatchedJoin(before: string, rest: string)
    requires before != "" && Starts(before) && Starts(before + rest)
    requires Gap(before + rest) == Gap(before) && Stop(before + rest) == Stop(before)
    requires Sub(before[Stop(before)..] + rest) == Sub(before[Stop(before)..]) + Sub(rest)
    ensures Sub(before + rest) == Sub(before) + Sub(rest)
  {
    PiecesOfJoin(before, rest, Gap(before), Stop(before));
    JoinThree(before[..Gap(before)] + MASK, Sub(before[Stop(before)..]), Sub(rest));
  }

  lemma {:induction false} SubOfUnmatchedJoin(before: string, rest: string)
    requires before != "" && !Starts(before) && !Starts(before + rest)
    requires Sub(before[1..] + rest) == Sub(before[1..]) + Sub(rest)
    ensures Sub(before + rest) == Sub(before) + Sub(rest)
  {
    PiecesOfJoin(before, rest, 0, 1);
    JoinThree([before[0]], Sub(before[1..]), Sub(rest));
  }

  lemma {:induction false} SubOfJoin(before: string, c: char, after: string)
    requires c == ',' || c == ';'
    ensures Sub(before + ([c] + after)) == Sub(before) + Sub([c] + after)
    decreases |before|
  {
    var rest := [c] + after;
    if before == "" {
      assert before + rest == rest;
    } else {
      MatchStopsAtSeparator(before, c, after);
      if Starts(before) {
        SubOfJoin(before[Stop(before)..], c, after);
        SubOfMatchedJoin(before, rest);
      } else {
        SubOfJoin(before[1..], c, after);
        SubOfUnmatchedJoin(before, rest);
      }
    }
  }

  /** A comma or a semicolon separates the text into parts that are redacted on their own. */
  lemma {:induction false} SubSplitsAtSeparator(before: string, c: char, after: string)
    requires c == ',' || c == ';'
    ensures Sub(before + [c] + after) == Sub(before) + [c] + Sub(after)
  {
    var rest := [c] + after;
    assert before + [c] + after == before + rest;
    SubOfJoin(before, c, after);
    assert !Starts(rest) && rest[1..] == after;
    JoinThree(Sub(before), [c], Sub(after));
  }

  /** A keyword, spaces and a whole run of token characters are a match, wherever text starts with them. */
  lemma {:induction false} TokenRemovedWhole(keyword: string, spaces: string, token: string, after: string)
    requires |keyword| == 6 && StartsKeyword(keyword)
    requires spaces != "" && forall c | c in spaces :: IsSpace(c)
    requires token != "" && forall i | 0 <= i < |token| :: IsTokenChar(token[i])
    requires after == "" || !IsTokenChar(after[0])
    ensures Sub(keyword + spaces + token + after) == keyword + spaces + MASK + Sub(after)
  {
    var s := keyword + spaces + token + after;
    var g := 6 + |spaces|;
    var k := g + |token|;
    assert forall i | 6 <= i < g :: s[i] == spaces[i - 6];
    assert forall i | g <= i < k :: s[i] == token[i - g];
    assert Matches(s, g, k);
    GreedyMatchIsTheMatch(s);
    if k < |s| {
      assert s[k] == after[0];
    }
    assert Stop(s) == k;
    assert s[..g] == keyword + spaces && s[k..] == after;
  }

  /** A bearer credential at a match is removed whole: nothing of the token is left, whatever follows it. */
  lemma {:induction false} CredentialRemovedWhole(keyword: string, spaces: string, token: string, after: string)
    requires |keyword| == 6 && StartsKeyword(keyword)
    requires spaces != "" && forall c | c in spaces :: IsSpace(c)
    requires IsB64Token(token)
    requires after == "" || !IsTokenChar(after[0])
    ensures Sub(keyword + spaces + token + after) == keyword + spaces + MASK + Sub(after)
  {
    assert forall i | 0 <= i < |token| :: IsTokenChar(token[i]);
    TokenRemovedWhole(keyword, spaces, token, after);
  }

  /** A second keyword at the end of the first match's token goes with that token and is no keyword any more: what
      comes after it stays, unless it holds a match of its own. */
  lemma {:induction false} SecondKeywordProtectsNothing(keyword: string, spaces: string, before: string,
                                                        second: string, after: string)
    requires |keyword| == |second| == 6 && StartsKeyword(keyword) && StartsKeyword(second)
    requires spaces != "" && forall c | c in spaces :: IsSpace(c)
    requires forall i | 0 <= i < |before| :: IsTokenChar(before[i])
    requires after != "" && IsSpace(after[0]) && forall i | 0 <= i < |after| :: !Starts(after[i..])
    ensures Sub(keyword + spaces + (before + second) + after) == keyword + spaces + MASK + after
  {
    var token := before + second;
    assert forall i | 0 <= i < 6 :: IsTokenChar(second[i]);
    assert forall i | 0 <= i < |token| :: token[i] == if i < |before| then before[i] else second[i - |before|];
    TokenRemovedWhole(keyword, spaces, token, after);
    CoveredIsFixed(after);
  }

  /** In such a text the last word follows a keyword, and it is not redacted. */
  lemma {:induction false} SomeCredentialSurvives(keyword: string, word: string)
    requires |keyword| == 6 && StartsKeyword(keyword) && 0 < |word| < 5
    ensures Sub(keyword + " " + ("x" + keyword) + (" " + word)) == keyword + " " + MASK + (" " + word)
  {
    var after := " " + word;
    assert forall i | 0 <= i < |after| :: |after[i..]| < 6;
    SecondKeywordProtectsNothing(keyword, " ", "x", keyword, after);
  }

  lemma Spelled(text: string, redacted: string, keyword: string, word: string)
    requires keyword == "Bearer" && word == "yyy"
    requires text == "Bearer xBearer yyy" && redacted == "Bearer [REDACTED] yyy"
    ensures keyword + " " + ("x" + keyword) + (" " + word) == text
    ensures keyword + " " + MASK + (" " + word) == redacted
    ensures |keyword| == 6 && StartsKeyword(keyword) && |word| == 3
  {
  }

  /** One such text. */
  lemma {:induction false} TextWithSurvivor(text: string, redacted: string)
    requires text == "Bearer xBearer yyy" && redacted == "Bearer [REDACTED] yyy"
    ensures Sub(text) == redacted
  {
    var keyword, word := "Bearer", "yyy";
    Spelled(text, redacted, keyword, word);
    SomeCredentialSurvives(keyword, word);
  }
}
