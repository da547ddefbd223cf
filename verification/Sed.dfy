/** The `s` command of the sed utility (Shell and Utilities volume of IEEE Std 1003.1-2017), as far as
    `scripts/bootstrap.sh` uses it: delimiter `|`, a literal pattern, flag `g`. */
module Sed {
  import opened Context
  import Text

  // ----- The meaning of a script -----

  /** Text up to the next delimiter that no backslash precedes, and what follows that delimiter. */
  datatype Field = Field(text: string, rest: string) | Unterminated

  function Prepend(s: string, f: Field): Field {
    if f.Field? then f.(text := s + f.text) else f
  }

  function ReadField(s: string): Field {
    if s == "" || s[0] == '\n' then Unterminated
    else if s[0] == '|' then Field("", s[1..])
    else if s[0] == '\\' && |s| > 1 then Prepend(s[..2], ReadField(s[2..]))
    else Prepend(s[..1], ReadField(s[1..]))
  }

  /** A replacement is a sequence of characters to insert and of places for the matched text. */
  datatype Part = Literal(c: char) | Matched

  function PrependPart(p: Part, parts: Option<seq<Part>>): Option<seq<Part>> {
    if parts.Some? then Some([p] + parts.value) else None
  }

  /** A backslash makes `&`, a backslash, the delimiter and a newline literal. Before a digit it would refer to a
      group, of which a literal pattern has none; before anything else its meaning is unspecified. */
  function ReadReplacement(s: string): Option<seq<Part>> {
    if s == "" then Some([])
    else if s[0] == '\\' then
      if |s| > 1 && s[1] in {'&', '\\', '|', '\n'} then PrependPart(Literal(s[1]), ReadReplacement(s[2..]))
      else None
    else PrependPart(if s[0] == '&' then Matched else Literal(s[0]), ReadReplacement(s[1..]))
  }

  /** A character that stands for itself in a basic regular expression. */
  predicate IsPlain(c: char) {
    'A' <= c <= 'Z' || 'a' <= c <= 'z' || '0' <= c <= '9' || c == '_'
  }

  predicate IsLiteralPattern(p: string) {
    p != "" && forall i | 0 <= i < |p| :: IsPlain(p[i])
  }

  function Expand(parts: seq<Part>, matched: string): string {
    if parts == [] then ""
    else (if parts[0].Literal? then [parts[0].c] else matched) + Expand(parts[1..], matched)
  }

  function Substitute(line: string, pattern: string, parts: seq<Part>): string
    requires pattern != ""
    decreases |line|
  {
    if line == "" then ""
    else if pattern <= line then Expand(parts, pattern) + Substitute(line[|pattern|..], pattern, parts)
    else [line[0]] + Substitute(line[1..], pattern, parts)
  }

  /** The line `sed script` prints for `line`; nothing when the script is in error or outside this model. */
  function Exec(script: string, line: string): Option<string> {
    if !("s|" <= script) then None
    else
      var pattern := ReadField(script[2..]);
      if pattern.Unterminated? || !IsLiteralPattern(pattern.text) then None
      else
        var replacement := ReadField(pattern.rest);
        if replacement.Unterminated? || replacement.rest != "g" then None
        else
          var parts := ReadReplacement(replacement.text);
          if parts.None? then None else Some(Substitute(line, pattern.text, parts.value))
  }

  function Script(placeholder: string, replacement: string): string {
    "s|" + placeholder + "|" + replacement + "|g"
  }

  /** Every occurrence of `p`, leftmost first, replaced by `v` as it is. */
  function ReplaceAll(line: string, p: string, v: string): string
    requires p != ""
    decreases |line|
  {
    if line == "" then ""
    else if p <= line then v + ReplaceAll(line[|p|..], p, v)
    else [line[0]] + ReplaceAll(line[1..], p, v)
  }

  // ----- Escaping -----

  predicate NeedsEscape(c: char) {
    c == '&' || c == '|' || c == '\\'
  }

  function EscapeChar(c: char): string {
    if NeedsEscape(c) then ['\\', c] else [c]
  }

  /** `sed -e 's/[&|\\]/\\&/g'` */
  function Escape(v: string): string {
    if v == "" then "" else EscapeChar(v[0]) + Escape(v[1..])
  }

  /** Command substitution drops the newlines at the end. */
  function TrimNewlines(s: string): string {
    if s != "" && s[|s| - 1] == '\n' then TrimNewlines(s[..|s| - 1]) else s
  }

  /** `escaped_value` in `replace_in_files`. */
  function EscapedValue(v: string): string {
    TrimNewlines(Escape(v))
  }

  ghost function Literals(v: string): seq<Part> {
    if v == "" then [] else [Literal(v[0])] + Literals(v[1..])
  }

  lemma {:induction false} ReadEscapedChar(c: char, rest: string)
    requires c != '\n'
    ensures ReadField(EscapeChar(c) + rest) == Prepend(EscapeChar(c), ReadField(rest))
  {
  }

  lemma {:induction false} ReadEscapedField(v: string, rest: string)
    requires '\n' !in v
    ensures ReadField(Escape(v) + "|" + rest) == Field(Escape(v), rest)
  {
    if v == "" {
      assert Escape(v) + "|" + rest == "|" + rest;
    } else {
      ReadEscapedField(v[1..], rest);
      var tail := Escape(v[1..]) + "|" + rest;
      ReadEscapedChar(v[0], tail);
      Text.JoinThree(EscapeChar(v[0]), Escape(v[1..]), "|" + rest);
      Text.JoinThree(Escape(v[1..]), "|", rest);
      Text.JoinThree(Escape(v), "|", rest);
      assert Escape(v) + "|" + rest == EscapeChar(v[0]) + tail;
    }
  }

  lemma {:induction false} ReadEscapedReplacement(v: string)
    ensures ReadReplacement(Escape(v)) == Some(Literals(v))
  {
    if v != "" {
      ReadEscapedReplacement(v[1..]);
      var n := if NeedsEscape(v[0]) then 2 else 1;
      assert Escape(v)[n..] == Escape(v[1..]);
    }
  }

  lemma {:induction false} ReadPlainField(p: string, rest: string)
    requires forall i | 0 <= i < |p| :: !NeedsEscape(p[i]) && p[i] != '\n'
    ensures ReadField(p + "|" + rest) == Field(p, rest)
  {
    if p == "" {
      assert p + "|" + rest == "|" + rest;
    } else {
      ReadPlainField(p[1..], rest);
      assert (p + "|" + rest)[1..] == p[1..] + "|" + rest;
      assert (p + "|" + rest)[..1] + p[1..] == p;
    }
  }

  lemma {:induction false} ExpandLiterals(v: string, matched: string)
    ensures Expand(Literals(v), matched) == v
  {
    if v != "" {
      ExpandLiterals(v[1..], matched);
    }
  }

  lemma {:induction false} SubstituteLiterals(line: string, p: string, v: string)
    requires p != ""
    ensures Substitute(line, p, Literals(v)) == ReplaceAll(line, p, v)
    decreases |line|
  {
    if line != "" {
      if p <= line {
        ExpandLiterals(v, p);
        SubstituteLiterals(line[|p|..], p, v);
      } else {
        SubstituteLiterals(line[1..], p, v);
      }
    }
  }

  /** The script for a literal pattern runs its replacement. */
  lemma {:induction false} ExecScript(p: string, replacement: string, line: string)
    requires IsLiteralPattern(p)
    ensures Exec(Script(p, replacement), line)
         == var f := ReadField(replacement + "|g");
            if f.Unterminated? || f.rest != "g" || ReadReplacement(f.text).None? then None
            else Some(Substitute(line, p, ReadReplacement(f.text).value))
  {
    var script := Script(p, replacement);
    assert script[2..] == p + "|" + (replacement + "|g");
    assert script[..2] == "s|";
    assert "s|" <= script;
    ReadPlainField(p, replacement + "|g");
  }

  lemma InJoin(a: string, b: string, c: char)
    ensures c in a + b <==> c in a || c in b
  {
  }

  lemma {:induction false} EscapeHasNoNewline(v: string)
    ensures '\n' in v <==> '\n' in Escape(v)
  {
    if v != "" {
      EscapeHasNoNewline(v[1..]);
      assert v == [v[0]] + v[1..];
      InJoin([v[0]], v[1..], '\n');
      InJoin(EscapeChar(v[0]), Escape(v[1..]), '\n');
    }
  }

  lemma TrimOfSingleLine(s: string)
    requires '\n' !in s
    ensures TrimNewlines(s) == s
  {
  }

  /** Escaping and then interpreting the result as a replacement inserts the value as it is. */
  lemma {:induction false} EscapeRoundTrip(p: string, v: string, line: string)
    requires IsLiteralPattern(p) && '\n' !in v
    ensures Exec(Script(p, EscapedValue(v)), line) == Some(ReplaceAll(line, p, v))
  {
    EscapeHasNoNewline(v);
    TrimOfSingleLine(Escape(v));
    ExecScript(p, Escape(v), line);
    ReadEscapedField(v, "g");
    assert Escape(v) + "|" + "g" == Escape(v) + "|g";
    ReadEscapedReplacement(v);
    SubstituteLiterals(line, p, v);
  }

  // ----- Values of several lines -----

  lemma {:induction false} UnterminatedAtNewline(v: string, rest: string)
    requires '\n' in v
    ensures ReadField(Escape(v) + rest).Unterminated?
  {
    if v[0] == '\n' {
      assert (Escape(v) + rest)[0] == '\n';
    } else {
      UnterminatedAtNewline(v[1..], rest);
      var n := if NeedsEscape(v[0]) then 2 else 1;
      assert (Escape(v) + rest)[n..] == Escape(v[1..]) + rest;
    }
  }

  lemma {:induction false} EscapeJoin(a: string, b: string)
    ensures Escape(a + b) == Escape(a) + Escape(b)
  {
    if a == "" {
      assert a + b == b;
    } else {
      EscapeJoin(a[1..], b);
      Text.HeadOfJoin(a, b);
      Text.JoinThree(EscapeChar(a[0]), Escape(a[1..]), Escape(b));
    }
  }

  lemma {:induction false} TrimCommutesWithEscape(v: string)
    ensures TrimNewlines(Escape(v)) == Escape(TrimNewlines(v))
    decreases |v|
  {
    if v != "" {
      var last := v[|v| - 1];
      assert v == v[..|v| - 1] + [last];
      EscapeJoin(v[..|v| - 1], [last]);
      var e := Escape(v);
      assert Escape([last])[|Escape([last])| - 1] == last;
      assert e[|e| - 1] == last;
      if last == '\n' {
        TrimCommutesWithEscape(v[..|v| - 1]);
        assert e[..|e| - 1] == Escape(v[..|v| - 1]);
      }
    }
  }

  lemma {:induction false} ReplaceAllOfPattern(p: string, v: string)
    requires p != ""
    ensures ReplaceAll(p, p, v) == v
  {
  }

  /** Trimming takes off newlines at the end, and all of them. */
  lemma {:induction false} TrimmedExactly(v: string) returns (newlines: string)
    ensures v == TrimNewlines(v) + newlines && forall c | c in newlines :: c == '\n'
    ensures TrimNewlines(v) == "" || TrimNewlines(v)[|TrimNewlines(v)| - 1] != '\n'
    decreases |v|
  {
    if v != "" && v[|v| - 1] == '\n' {
      var fewer := TrimmedExactly(v[..|v| - 1]);
      newlines := fewer + "\n";
      assert v == v[..|v| - 1] + "\n";
      Text.JoinThree(TrimNewlines(v), fewer, "\n");
    } else {
      newlines := "";
    }
  }

  /** What one call makes of any value: newlines at its end are lost, and with one before the end sed fails. */
  lemma {:induction false} ExecEscaped(p: string, v: string, line: string)
    requires IsLiteralPattern(p)
    ensures Exec(Script(p, EscapedValue(v)), line)
         == if '\n' in TrimNewlines(v) then None else Some(ReplaceAll(line, p, TrimNewlines(v)))
  {
    var w := TrimNewlines(v);
    TrimCommutesWithEscape(v);
    if '\n' in w {
      ExecScript(p, Escape(w), line);
      UnterminatedAtNewline(w, "|g");
    } else {
      EscapeHasNoNewline(w);
      TrimOfSingleLine(Escape(w));
      EscapeRoundTrip(p, w, line);
    }
  }

  /** `replace_in_files` inserts exactly the value it was given if and only if the value is a single line. */
  lemma {:induction false} EscapingIsExact(p: string, v: string)
    requires IsLiteralPattern(p)
    ensures (forall line :: Exec(Script(p, EscapedValue(v)), line) == Some(ReplaceAll(line, p, v))) <==> '\n' !in v
  {
    if '\n' !in v {
      forall line
        ensures Exec(Script(p, EscapedValue(v)), line) == Some(ReplaceAll(line, p, v))
      {
        EscapeRoundTrip(p, v, line);
      }
    } else {
      ExecEscaped(p, v, p);
      ReplaceAllOfPattern(p, v);
      ReplaceAllOfPattern(p, TrimNewlines(v));
      assert Exec(Script(p, EscapedValue(v)), p) != Some(ReplaceAll(p, p, v));
    }
  }

  // ----- The secret key -----

  const SECRET_PLACEHOLDER := "__DJANGO_SECRET_KEY__"

  /** The alphabet the secret key is drawn from. */
  predicate IsKeyChar(c: char) {
    'A' <= c <= 'Z' || 'a' <= c <= 'z' || '0' <= c <= '9' || c in "!@#$%^&*(-_=+)"
  }

  lemma {:induction false} KeyReplacement(key: string)
    requires forall c | c in key :: c != '\\'
    ensures var parts := ReadReplacement(key);
            && parts.Some?
            && forall matched :: |matched| > 1 ==>
                 |Expand(parts.value, matched)| >= |key|
                 && ('&' in key ==> |Expand(parts.value, matched)| > |key|)
    ensures '&' !in key ==> ReadReplacement(key) == Some(Literals(key))
  {
    if key != "" {
      assert key[0] in key && forall c | c in key[1..] :: c in key;
      KeyReplacement(key[1..]);
    }
  }

  lemma {:induction false} ReadPlainKey(key: string)
    requires forall c | c in key :: c != '|' && c != '\\' && c != '\n'
    ensures ReadField(key + "|g") == Field(key, "g")
  {
    if key == "" {
      assert key + "|g" == "|g";
    } else {
      assert key[0] in key && forall c | c in key[1..] :: c in key;
      ReadPlainKey(key[1..]);
      assert (key + "|g")[1..] == key[1..] + "|g";
      assert (key + "|g")[..1] + key[1..] == key;
    }
  }

  lemma {:induction false} ExecUnescaped(p: string, key: string, line: string)
    requires IsLiteralPattern(p) && forall c | c in key :: IsKeyChar(c)
    ensures ReadReplacement(key).Some?
    ensures Exec(Script(p, key), line) == Some(Substitute(line, p, ReadReplacement(key).value))
  {
    forall c | c in key
      ensures c != '|' && c != '\\' && c != '\n'
    {
      assert IsKeyChar(c);
    }
    ReadPlainKey(key);
    KeyReplacement(key);
    ExecScript(p, key, line);
  }

  /** The patch of `.env` does not escape the key: it inserts the drawn key if and only if the key has no `&`. */
  lemma {:induction false} UnescapedIsExact(p: string, key: string)
    requires IsLiteralPattern(p) && |p| > 1 && forall c | c in key :: IsKeyChar(c)
    ensures (forall line :: Exec(Script(p, key), line) == Some(ReplaceAll(line, p, key))) <==> '&' !in key
  {
    KeyHasNoBackslash(key);
    KeyReplacement(key);
    if '&' !in key {
      forall line
        ensures Exec(Script(p, key), line) == Some(ReplaceAll(line, p, key))
      {
        ExecUnescaped(p, key, line);
        SubstituteLiterals(line, p, key);
      }
    } else {
      ExecUnescaped(p, key, p);
      ReplaceAllOfPattern(p, key);
      var parts := ReadReplacement(key).value;
      assert p[|p|..] == "" && Substitute(p, p, parts) == Expand(parts, p) + "";
      assert Exec(Script(p, key), p) != Some(ReplaceAll(p, p, key));
    }
  }

  lemma KeyHasNoBackslash(key: string)
    requires forall c | c in key :: IsKeyChar(c)
    ensures forall c | c in key :: c != '\\'
  {
  }

  /** `sed -i "s|__DJANGO_SECRET_KEY__|${DJANGO_SECRET_KEY}|g" .env` */
  lemma SecretKeyPatchIsExact(key: string)
    requires forall c | c in key :: IsKeyChar(c)
    ensures var p := SECRET_PLACEHOLDER;
            (forall line :: Exec(Script(p, key), line) == Some(ReplaceAll(line, p, key))) <==> '&' !in key
  {
    var p := SECRET_PLACEHOLDER;
    assert IsLiteralPattern(p);
    UnescapedIsExact(p, key);
  }

  const KEY_LENGTH := 50

  /** One key the script can draw for which the patch inserts something else. */
  lemma SomeKeyIsNotInserted() returns (key: string)
    ensures |key| == KEY_LENGTH
    ensures forall c | c in key :: IsKeyChar(c)
    ensures exists line :: Exec(Script(SECRET_PLACEHOLDER, key), line)
                        != Some(ReplaceAll(line, SECRET_PLACEHOLDER, key))
  {
    key := seq(KEY_LENGTH, i => '&');
    assert key[0] == '&';
    SecretKeyPatchIsExact(key);
  }
}
