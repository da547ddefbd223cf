/** String operations of the Python standard library that several components share. */
module Text {

  /** The characters for which `str.isspace` holds; `\s` in a `str` pattern matches the same set. */
  predicate IsSpace(c: char) {
    var n := c as int;
    || 0x09 <= n <= 0x0d || 0x1c <= n <= 0x20 || n == 0x85 || n == 0xa0 || n == 0x1680
    || 0x2000 <= n <= 0x200a || n == 0x2028 || n == 0x2029 || n == 0x202f || n == 0x205f || n == 0x3000
  }

  function StripLeft(s: string): string {
    if s != "" && IsSpace(s[0]) then StripLeft(s[1..]) else s
  }

  function StripRight(s: string): string {
    if s != "" && IsSpace(s[|s| - 1]) then StripRight(s[..|s| - 1]) else s
  }

  /** `str.strip()` */
  function Strip(s: string): string {
    StripRight(StripLeft(s))
  }

  /** `str.lower()` of one character, exact wherever the result holds an ASCII character:
      besides the capitals A to Z only U+212A and U+0130 lower to one. */
  function LowerChar(c: char): string {
    if 'A' <= c <= 'Z' then [(c as int + 32) as char]
    else if c == '\U{212A}' then "k"
    else if c == '\U{130}' then "i\U{307}"
    else [c]
  }

  const CAPITALS := "ABCDEFGHIJKLMNOPQRSTUVWXYZ"
  const SMALL := "abcdefghijklmnopqrstuvwxyz"

  /** Each capital lowers to the small letter in its place of the alphabet. */
  lemma CapitalsLower(i: nat)
    requires i < |CAPITALS|
    ensures LowerChar(CAPITALS[i]) == [SMALL[i]]
  {
    assert CAPITALS[i] as int == 'A' as int + i && SMALL[i] as int == 'a' as int + i;
  }

  function Lower(s: string): string {
    if s == "" then "" else LowerChar(s[0]) + Lower(s[1..])
  }

  predicate OccursAt(s: string, part: string, i: int) {
    0 <= i && i + |part| <= |s| && s[i..i + |part|] == part
  }

  /** `part in s` */
  predicate Contains(s: string, part: string) {
    exists i | 0 <= i <= |s| :: OccursAt(s, part, i)
  }

  /** A character that is missing from `s` is missing from everything that occurs in it. */
  lemma MissingCharacter(s: string, part: string, c: char)
    requires c in part && c !in s
    ensures !Contains(s, part)
  {
  }

  /** Text with no space at all is its own `strip()`. */
  lemma StripOfSpaceless(s: string)
    requires forall c | c in s :: !IsSpace(c)
    ensures Strip(s) == s
  {
  }

  lemma {:induction false} LowerOfLower(s: string)
    requires forall c | c in s :: !('A' <= c <= 'Z') && c != '\U{212A}' && c != '\U{130}'
    ensures Lower(s) == s
  {
    if s != "" {
      assert s[0] in s;
      assert forall c | c in s[1..] :: c in s;
      LowerOfLower(s[1..]);
      assert [s[0]] + s[1..] == s;
    }
  }

  lemma JoinThree(a: string, b: string, c: string)
    ensures a + (b + c) == a + b + c
  {
  }

  lemma HeadOfJoin(a: string, b: string)
    requires a != ""
    ensures a + b != "" && (a + b)[0] == a[0] && (a + b)[1..] == a[1..] + b
  {
  }

  lemma {:induction false} LowerJoin(a: string, b: string)
    ensures Lower(a + b) == Lower(a) + Lower(b)
  {
    if a == "" {
      assert a + b == b;
    } else {
      LowerJoin(a[1..], b);
      HeadOfJoin(a, b);
      JoinThree(LowerChar(a[0]), Lower(a[1..]), Lower(b));
    }
  }

  lemma {:induction false} LowerOfHead(s: string)
    requires s != ""
    ensures Lower(s) != "" && (IsSpace(s[0]) ==> Lower(s)[0] == s[0])
  {
  }

  lemma {:induction false} LowerOfLast(s: string)
    requires s != ""
    ensures Lower(s) != "" && (IsSpace(s[|s| - 1]) ==> Lower(s)[|Lower(s)| - 1] == s[|s| - 1])
  {
    if |s| == 1 {
      assert Lower(s[1..]) == "";
    } else {
      LowerOfLast(s[1..]);
    }
  }

  predicate IsPadding(s: string) {
    forall i | 0 <= i < |s| :: IsSpace(s[i])
  }

  lemma {:induction false} StripLeftOfPadded(before: string, rest: string)
    requires IsPadding(before) && (rest == "" || !IsSpace(rest[0]))
    ensures StripLeft(before + rest) == rest
  {
    if before == "" {
      assert before + rest == rest;
    } else {
      HeadOfJoin(before, rest);
      StripLeftOfPadded(before[1..], rest);
    }
  }

  lemma {:induction false} StripRightOfPadded(rest: string, after: string)
    requires IsPadding(after) && (rest == "" || !IsSpace(rest[|rest| - 1]))
    ensures StripRight(rest + after) == rest
    decreases |after|
  {
    if after == "" {
      assert rest + after == rest;
    } else {
      var n := |after| - 1;
      assert (rest + after)[..|rest| + n] == rest + after[..n];
      StripRightOfPadded(rest, after[..n]);
    }
  }

  /** `strip()` takes off exactly the padding. */
  lemma StripOfPadded(before: string, word: string, after: string)
    requires IsPadding(before) && IsPadding(after)
    requires word != "" && !IsSpace(word[0]) && !IsSpace(word[|word| - 1])
    ensures Strip(before + word + after) == word
  {
    JoinThree(before, word, after);
    HeadOfJoin(word, after);
    StripLeftOfPadded(before, word + after);
    StripRightOfPadded(word, after);
  }

  lemma {:induction false} StripLeftParts(s: string) returns (before: string)
    ensures IsPadding(before) && s == before + StripLeft(s)
    ensures StripLeft(s) == "" || !IsSpace(StripLeft(s)[0])
  {
    before := "";
    if s != "" && IsSpace(s[0]) {
      var rest := StripLeftParts(s[1..]);
      before := [s[0]] + rest;
      assert s == [s[0]] + s[1..];
    }
  }

  lemma {:induction false} StripRightIsPrefix(s: string)
    ensures StripRight(s) <= s && (StripRight(s) == "" || !IsSpace(StripRight(s)[|StripRight(s)| - 1]))
    decreases |s|
  {
    if s != "" && IsSpace(s[|s| - 1]) {
      StripRightIsPrefix(s[..|s| - 1]);
    }
  }

  lemma {:induction false} SpaceAfterStripRight(s: string, i: nat)
    requires |StripRight(s)| <= i < |s|
    ensures IsSpace(s[i])
    decreases |s|
  {
    if i < |s| - 1 {
      SpaceAfterStripRight(s[..|s| - 1], i);
    }
  }

  lemma {:induction false} StripRightParts(s: string) returns (after: string)
    ensures IsPadding(after) && s == StripRight(s) + after
    ensures StripRight(s) == "" || !IsSpace(StripRight(s)[|StripRight(s)| - 1])
  {
    StripRightIsPrefix(s);
    var n := |StripRight(s)|;
    after := s[n..];
    forall i | 0 <= i < |after|
      ensures IsSpace(after[i])
    {
      SpaceAfterStripRight(s, n + i);
    }
    assert s == s[..n] + s[n..];
  }

  /** Any text is padding, its `strip()` and padding again. */
  lemma StripParts(s: string) returns (before: string, after: string)
    ensures IsPadding(before) && IsPadding(after) && s == before + Strip(s) + after
  {
    before := StripLeftParts(s);
    after := StripRightParts(StripLeft(s));
  }

  lemma {:induction false} StripRightOfPadding(s: string)
    requires IsPadding(s)
    ensures StripRight(s) == ""
    decreases |s|
  {
    if s != "" {
      StripRightOfPadding(s[..|s| - 1]);
    }
  }

  /** Nothing is left exactly of padding. */
  lemma StripOfPadding(s: string)
    ensures Strip(s) == "" <==> IsPadding(s)
  {
    if IsPadding(s) {
      StripLeftOfPadded(s, "");
      assert s + "" == s;
    } else {
      var before, after := StripParts(s);
      assert Strip(s) == "" ==> s == before + after;
    }
  }
}
