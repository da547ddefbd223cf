/** The two awk machines of `scripts/bootstrap.sh` that remove what only the template needs. */
module Cleanup {
  import opened Context

  // ----- Machines with one flag -----

  /** What a line means to a machine: `Fixed` lines print what they say, or nothing, and leave the flag alone;
      the others are printed while the flag is down. `Opens` raises the flag and `Closes` lowers it. */
  datatype Kind = Fixed(out: Option<string>) | Opens | Closes | Plain

  ghost function Flag(lines: seq<string>, kind: string -> Kind): bool
    decreases |lines|
  {
    if lines == [] then false
    else
      var n := |lines| - 1;
      match kind(lines[n])
      case Opens => true
      case Closes => false
      case _ => Flag(lines[..n], kind)
  }

  function Printed(line: string, kind: Kind, flag: bool): seq<string> {
    match kind
    case Fixed(out) => if out.Some? then [out.value] else []
    case _ => if flag then [] else [line]
  }

  ghost function Output(lines: seq<string>, kind: string -> Kind): seq<string>
    decreases |lines|
  {
    if lines == [] then []
    else
      var n := |lines| - 1;
      Output(lines[..n], kind) + Printed(lines[n], kind(lines[n]), Flag(lines, kind))
  }

  lemma OutputStep(lines: seq<string>, kind: string -> Kind, i: nat)
    requires i < |lines|
    ensures Flag(lines[..i + 1], kind)
         == match kind(lines[i]) case Opens => true case Closes => false case _ => Flag(lines[..i], kind)
    ensures Output(lines[..i + 1], kind)
         == Output(lines[..i], kind) + Printed(lines[i], kind(lines[i]), Flag(lines[..i + 1], kind))
  {
    assert lines[..i + 1][..i] == lines[..i];
  }

  // ----- Which lines survive -----

  /** Line `k` is in a section: some line up to it opens one, and none from there to `k` closes it. */
  ghost predicate InSection(lines: seq<string>, kind: string -> Kind, k: int) {
    exists h | 0 <= h <= k < |lines| ::
      kind(lines[h]).Opens? && forall m | h < m <= k :: !kind(lines[m]).Closes?
  }

  ghost predicate Survives(lines: seq<string>, kind: string -> Kind, k: int) {
    && 0 <= k < |lines|
    && if kind(lines[k]).Fixed? then kind(lines[k]).out.Some? else !InSection(lines, kind, k)
  }

  function Edited(line: string, kind: Kind): string {
    if kind.Fixed? && kind.out.Some? then kind.out.value else line
  }

  lemma InSectionOfPrefix(lines: seq<string>, kind: string -> Kind, n: nat, k: int)
    requires k < n <= |lines|
    ensures InSection(lines[..n], kind, k) <==> InSection(lines, kind, k)
  {
  }

  lemma InSectionStep(lines: seq<string>, kind: string -> Kind, k: nat)
    requires k < |lines|
    ensures InSection(lines, kind, k)
       <==> kind(lines[k]).Opens? || (!kind(lines[k]).Closes? && InSection(lines, kind, k - 1))
  {
  }

  lemma {:induction false} FlagIsInSection(lines: seq<string>, kind: string -> Kind)
    ensures Flag(lines, kind) <==> InSection(lines, kind, |lines| - 1)
    decreases |lines|
  {
    if lines != [] {
      var n := |lines| - 1;
      FlagIsInSection(lines[..n], kind);
      InSectionOfPrefix(lines, kind, n, n - 1);
      InSectionStep(lines, kind, n);
    }
  }

  lemma {:induction false} SurvivesInPrefix(lines: seq<string>, kind: string -> Kind, n: nat, k: int)
    requires n <= |lines|
    ensures Survives(lines[..n], kind, k) <==> k < n && Survives(lines, kind, k)
  {
  }

  lemma {:induction false} LastLinePrinted(lines: seq<string>, kind: string -> Kind)
    requires lines != []
    ensures var n := |lines| - 1;
            Output(lines, kind) == Output(lines[..n], kind)
              + if Survives(lines, kind, n) then [Edited(lines[n], kind(lines[n]))] else []
  {
    FlagIsInSection(lines, kind);
  }

  /** `ks` lists the surviving lines in their order. */
  ghost predicate ListsSurvivors(lines: seq<string>, kind: string -> Kind, ks: seq<int>) {
    && (forall i, j | 0 <= i < j < |ks| :: ks[i] < ks[j])
    && (forall k :: k in ks <==> Survives(lines, kind, k))
  }

  /** `out` holds the lines `ks`, each edited by itself. */
  ghost predicate HoldsEdited(lines: seq<string>, kind: string -> Kind, ks: seq<int>, out: seq<string>) {
    && |out| == |ks|
    && forall j | 0 <= j < |ks| :: 0 <= ks[j] < |lines| && out[j] == Edited(lines[ks[j]], kind(lines[ks[j]]))
  }

  lemma {:induction false} SurvivorsGrow(lines: seq<string>, kind: string -> Kind, some: seq<int>)
    requires lines != [] && ListsSurvivors(lines[..|lines| - 1], kind, some)
    ensures var n := |lines| - 1;
            ListsSurvivors(lines, kind, if Survives(lines, kind, n) then some + [n] else some)
  {
    var n := |lines| - 1;
    var ks := if Survives(lines, kind, n) then some + [n] else some;
    forall k
      ensures k in some <==> k < n && Survives(lines, kind, k)
    {
      SurvivesInPrefix(lines, kind, n, k);
    }
    forall j | 0 <= j < |some|
      ensures some[j] < n
    {
      assert some[j] in some;
    }
    forall k
      ensures k in ks <==> Survives(lines, kind, k)
    {
      assert k in ks <==> k in some || (k == n && Survives(lines, kind, n));
    }
  }

  lemma HoldsEditedInLonger(lines: seq<string>, kind: string -> Kind, n: nat, ks: seq<int>, out: seq<string>)
    requires n <= |lines| && HoldsEdited(lines[..n], kind, ks, out)
    ensures HoldsEdited(lines, kind, ks, out)
  {
  }

  lemma EditedGrow(lines: seq<string>, kind: string -> Kind, ks: seq<int>, out: seq<string>, n: nat)
    requires n < |lines| && HoldsEdited(lines, kind, ks, out)
    ensures HoldsEdited(lines, kind, ks + [n], out + [Edited(lines[n], kind(lines[n]))])
  {
  }

  /** The output is the surviving lines, all of them, in their order, each edited by itself: `ks` lists their
      indices. */
  lemma {:induction false} OutputIsSurvivors(lines: seq<string>, kind: string -> Kind) returns (ks: seq<int>)
    ensures ListsSurvivors(lines, kind, ks) && HoldsEdited(lines, kind, ks, Output(lines, kind))
    decreases |lines|
  {
    if lines == [] {
      ks := [];
    } else {
      var n := |lines| - 1;
      var some := OutputIsSurvivors(lines[..n], kind);
      ks := if Survives(lines, kind, n) then some + [n] else some;
      SurvivorsGrow(lines, kind, some);
      LastLinePrinted(lines, kind);
      HoldsEditedInLonger(lines, kind, n, some, Output(lines[..n], kind));
      EditedGrow(lines, kind, some, Output(lines[..n], kind), n);
    }
  }

  // ----- Running a machine twice -----

  /** No line opens a section, and fixed lines print themselves. */
  ghost predicate IsSettled(lines: seq<string>, kind: string -> Kind) {
    forall i | 0 <= i < |lines| ::
      !kind(lines[i]).Opens? && (kind(lines[i]).Fixed? ==> kind(lines[i]).out == Some(lines[i]))
  }

  lemma SettledPrefix(lines: seq<string>, kind: string -> Kind, n: nat)
    requires IsSettled(lines, kind) && n <= |lines|
    ensures IsSettled(lines[..n], kind)
  {
  }

  lemma TakeLast(lines: seq<string>)
    requires lines != []
    ensures lines[..|lines| - 1] + [lines[|lines| - 1]] == lines
  {
  }

  lemma {:induction false} SettledIsUnchanged(lines: seq<string>, kind: string -> Kind)
    requires IsSettled(lines, kind)
    ensures Output(lines, kind) == lines && !Flag(lines, kind)
    decreases |lines|
  {
    if lines != [] {
      var n := |lines| - 1;
      SettledPrefix(lines, kind, n);
      SettledIsUnchanged(lines[..n], kind);
      assert Printed(lines[n], kind(lines[n]), false) == [lines[n]];
      TakeLast(lines);
    }
  }

  /** What a fixed line prints is fixed to itself. */
  ghost predicate PrintsFixedPoints(kind: string -> Kind) {
    forall line: string | kind(line).Fixed? && kind(line).out.Some? :: kind(kind(line).out.value) == kind(line)
  }

  lemma {:induction false} OutputIsSettled(lines: seq<string>, kind: string -> Kind)
    requires PrintsFixedPoints(kind)
    ensures IsSettled(Output(lines, kind), kind)
    decreases |lines|
  {
    if lines != [] {
      var n := |lines| - 1;
      OutputIsSettled(lines[..n], kind);
      var before, last := Output(lines[..n], kind), Printed(lines[n], kind(lines[n]), Flag(lines, kind));
      assert forall i | 0 <= i < |before + last| ::
          (before + last)[i] == if i < |before| then before[i] else last[i - |before|];
    }
  }

  lemma OutputIdempotent(lines: seq<string>, kind: string -> Kind)
    requires PrintsFixedPoints(kind)
    ensures Output(Output(lines, kind), kind) == Output(lines, kind)
  {
    OutputIsSettled(lines, kind);
    SettledIsUnchanged(Output(lines, kind), kind);
  }

  // ----- The README machine -----

  const CONTENTS_ENTRY := "- " + "[Using This Template](#using-this-template)"
  const TEMPLATE_HEADING := "## Using This Template"

  predicate IsHeading(line: string) {
    "## " <= line
  }

  function ReadmeKind(line: string): Kind {
    if line == CONTENTS_ENTRY then Fixed(None)
    else if line == TEMPLATE_HEADING then Opens
    else if IsHeading(line) then Closes
    else Plain
  }

  /** `cleanup_readme_template_section`: the awk rules in their order. */
  method CleanupReadme(lines: seq<string>) returns (out: seq<string>)
    ensures out == Output(lines, ReadmeKind)
  {
    out := [];
    var skipSection := false;
    for i := 0 to |lines|
      invariant out == Output(lines[..i], ReadmeKind) && skipSection == Flag(lines[..i], ReadmeKind)
    {
      var line := lines[i];
      OutputStep(lines, ReadmeKind, i);
      if line == CONTENTS_ENTRY {
        continue;
      }
      if line == TEMPLATE_HEADING {
        skipSection := true;
        continue;
      }
      if skipSection && IsHeading(line) {
        skipSection := false;
      }
      if !skipSection {
        out := out + [line];
      }
    }
    assert lines[..|lines|] == lines;
  }

  /** Line `k` belongs to the template section: the last heading up to it is the heading of that section. */
  ghost predicate InTemplateSection(lines: seq<string>, k: int) {
    exists h | 0 <= h <= k < |lines| ::
      lines[h] == TEMPLATE_HEADING
      && forall m | h < m <= k :: !("## " <= lines[m] && lines[m] != TEMPLATE_HEADING)
  }

  /** The cleanup keeps, in their order and unchanged, exactly the lines outside the template section that are
      not its entry in the contents. */
  lemma ReadmeKeepsTheRest(lines: seq<string>) returns (ks: seq<int>)
    ensures forall i, j | 0 <= i < j < |ks| :: ks[i] < ks[j]
    ensures forall k :: k in ks
              <==> 0 <= k < |lines| && lines[k] != CONTENTS_ENTRY && !InTemplateSection(lines, k)
    ensures |Output(lines, ReadmeKind)| == |ks|
    ensures forall j | 0 <= j < |ks| :: 0 <= ks[j] < |lines| && Output(lines, ReadmeKind)[j] == lines[ks[j]]
  {
    ks := OutputIsSurvivors(lines, ReadmeKind);
    forall h, k | 0 <= h <= k < |lines|
      ensures ReadmeKind(lines[h]).Opens? <==> lines[h] == TEMPLATE_HEADING
      ensures ReadmeKind(lines[k]).Closes? <==> "## " <= lines[k] && lines[k] != TEMPLATE_HEADING
    {
      ReadmeKinds(lines[h]);
      ReadmeKinds(lines[k]);
    }
    assert forall k :: InSection(lines, ReadmeKind, k) <==> InTemplateSection(lines, k);
    forall j | 0 <= j < |ks|
      ensures Edited(lines[ks[j]], ReadmeKind(lines[ks[j]])) == lines[ks[j]]
    {
      assert ks[j] in ks;
    }
  }

  lemma ReadmeKinds(line: string)
    ensures ReadmeKind(line).Opens? <==> line == TEMPLATE_HEADING
    ensures ReadmeKind(line).Closes? <==> "## " <= line && line != TEMPLATE_HEADING
  {
    assert CONTENTS_ENTRY[0] == '-' && TEMPLATE_HEADING[0] == '#' && "## "[0] == '#';
  }

  lemma ReadmeCleanupIdempotent(lines: seq<string>)
    ensures Output(Output(lines, ReadmeKind), ReadmeKind) == Output(lines, ReadmeKind)
  {
    OutputIdempotent(lines, ReadmeKind);
  }

  // ----- The Makefile machine -----

  /** `[[:space:]]` */
  predicate IsBlank(c: char) {
    c == ' ' || 0x09 <= c as int <= 0x0d
  }

  predicate AllBlank(s: string) {
    forall i | 0 <= i < |s| :: s[i] in {' ', '\t', '\n', '\r', '\U{0B}', '\U{0C}'}
  }

  function SkipBlanks(s: string): (r: string)
    ensures |r| <= |s| && (r == "" || !IsBlank(r[0]))
  {
    if s != "" && IsBlank(s[0]) then SkipBlanks(s[1..]) else s
  }

  function WordEnd(s: string): (n: nat)
    ensures n <= |s|
    ensures forall i | 0 <= i < n :: !IsBlank(s[i])
    ensures n < |s| ==> IsBlank(s[n])
  {
    if s == "" || IsBlank(s[0]) then 0 else 1 + WordEnd(s[1..])
  }

  /** `split($0, parts, /[[:space:]]+/)` */
  function Split(s: string): (parts: seq<string>)
    ensures |parts| > 0
    decreases |s|
  {
    var n := WordEnd(s);
    if n == |s| then [s] else [s[..n]] + Split(SkipBlanks(s[n + 1..]))
  }

  const PHONY := ".PHONY:"

  predicate IsPhony(line: string) {
    PHONY <= line
  }

  predicate IsKeptName(part: string) {
    part != "" && part != "init"
  }

  function KeptNames(parts: seq<string>): seq<string> {
    if parts == [] then []
    else (if IsKeptName(parts[0]) then [parts[0]] else []) + KeptNames(parts[1..])
  }

  /** Each of `names` after a space. */
  function Spaced(names: seq<string>): string {
    if names == [] then "" else " " + names[0] + Spaced(names[1..])
  }

  function CleanPhony(line: string): string {
    Split(line)[0] + Spaced(KeptNames(Split(line)[1..]))
  }

  predicate IsTargetChar(c: char) {
    'a' <= c <= 'z' || 'A' <= c <= 'Z' || c == '_' || c == '-'
  }

  function TargetEnd(s: string): (n: nat)
    ensures n <= |s|
    ensures forall i | 0 <= i < n :: IsTargetChar(s[i])
    ensures n < |s| ==> !IsTargetChar(s[n])
  {
    if s == "" || !IsTargetChar(s[0]) then 0 else 1 + TargetEnd(s[1..])
  }

  /** `^init:[[:space:]]*## ` */
  predicate IsInitRule(line: string) {
    "init:" <= line && "## " <= SkipBlanks(line[5..])
  }

  /** `^[a-zA-Z_-]+:[[:space:]]*## ` */
  predicate IsDocumentedTarget(line: string) {
    var n := TargetEnd(line);
    0 < n < |line| && line[n] == ':' && "## " <= SkipBlanks(line[n + 1..])
  }

  function MakefileKind(line: string): Kind {
    if IsPhony(line) then Fixed(Some(CleanPhony(line)))
    else if IsInitRule(line) then Opens
    else if IsDocumentedTarget(line) then Closes
    else Plain
  }

  lemma {:induction false} KeptNamesExtend(parts: seq<string>, part: string)
    ensures KeptNames(parts + [part]) == KeptNames(parts) + if IsKeptName(part) then [part] else []
  {
    if parts != [] {
      KeptNamesExtend(parts[1..], part);
      assert (parts + [part])[1..] == parts[1..] + [part];
    }
  }

  lemma {:induction false} SpacedExtend(names: seq<string>, name: string)
    ensures Spaced(names + [name]) == Spaced(names) + " " + name
  {
    if names == [] {
      assert [name][1..] == [] && Spaced([]) == "";
    } else {
      SpacedExtend(names[1..], name);
      assert (names + [name])[1..] == names[1..] + [name];
    }
  }

  /** The first field and the names kept of the next ones, up to field `i`. */
  ghost function Joined(parts: seq<string>, i: nat): string
    requires 1 <= i <= |parts|
  {
    parts[0] + Spaced(KeptNames(parts[1..i]))
  }

  lemma {:induction false} OneMoreName(parts: seq<string>, i: nat)
    requires 1 <= i < |parts|
    ensures Joined(parts, i + 1) == if IsKeptName(parts[i]) then Joined(parts, i) + " " + parts[i] else Joined(parts, i)
  {
    var names := KeptNames(parts[1..i]);
    assert parts[1..i + 1] == parts[1..i] + [parts[i]];
    KeptNamesExtend(parts[1..i], parts[i]);
    if IsKeptName(parts[i]) {
      SpacedExtend(names, parts[i]);
      assert parts[0] + (Spaced(names) + " " + parts[i]) == parts[0] + Spaced(names) + " " + parts[i];
    } else {
      assert names + [] == names;
    }
  }

  /** The action for a `.PHONY` line: the fields but empty ones and `init`, joined by single spaces. */
  method PrintPhony(line: string) returns (out: string)
    ensures out == CleanPhony(line)
  {
    var parts := Split(line);
    out := parts[0];
    assert parts[1..1] == [] && parts[0] + "" == parts[0];
    for i := 1 to |parts|
      invariant out == Joined(parts, i)
    {
      OneMoreName(parts, i);
      if parts[i] != "" && parts[i] != "init" {
        out := out + " " + parts[i];
      }
    }
    assert parts[1..|parts|] == parts[1..];
  }

  /** `cleanup_makefile`: the awk rules in their order. */
  method CleanupMakefile(lines: seq<string>) returns (out: seq<string>)
    ensures out == Output(lines, MakefileKind)
  {
    out := [];
    var skipInit := false;
    for i := 0 to |lines|
      invariant out == Output(lines[..i], MakefileKind) && skipInit == Flag(lines[..i], MakefileKind)
    {
      var line := lines[i];
      OutputStep(lines, MakefileKind, i);
      assert out + [] == out;
      if IsPhony(line) {
        var printed := PrintPhony(line);
        out := out + [printed];
        continue;
      }
      if IsInitRule(line) {
        skipInit := true;
        continue;
      }
      if skipInit {
        if IsDocumentedTarget(line) {
          skipInit := false;
          out := out + [line];
        }
        continue;
      }
      out := out + [line];
    }
    assert lines[..|lines|] == lines;
  }

  // ----- What happens to .PHONY lines -----

  predicate IsWord(s: string) {
    s != "" && forall i | 0 <= i < |s| :: !IsBlank(s[i])
  }

  lemma {:induction false} WordEndOfWord(word: string, rest: string)
    requires (forall i | 0 <= i < |word| :: !IsBlank(word[i])) && (rest == "" || IsBlank(rest[0]))
    ensures WordEnd(word + rest) == |word|
  {
    if word == "" {
      assert word + rest == rest;
    } else {
      WordEndOfWord(word[1..], rest);
      assert (word + rest)[1..] == word[1..] + rest;
    }
  }

  lemma PiecesAt(first: string, rest: string)
    ensures (first + rest)[..|first|] == first && (rest == "" ==> first + rest == first)
    ensures rest != "" ==> |first| < |first + rest| && (first + rest)[|first| + 1..] == rest[1..]
  {
  }

  lemma {:induction false} SplitFirst(first: string, rest: string)
    requires IsWord(first) && (rest == "" || IsBlank(rest[0]))
    ensures Split(first + rest) == [first] + if rest == "" then [] else Split(SkipBlanks(rest[1..]))
  {
    WordEndOfWord(first, rest);
    PiecesAt(first, rest);
  }

  lemma {:induction false} SplitAtSpace(word: string, rest: string)
    requires IsWord(word) && rest != "" && !IsBlank(rest[0])
    ensures Split(word + (" " + rest)) == [word] + Split(rest)
  {
    SplitFirst(word, " " + rest);
    assert (" " + rest)[1..] == rest && SkipBlanks(rest) == rest;
  }

  /** Splitting what was joined gives back the words. */
  lemma {:induction false} SplitOfSpaced(word: string, words: seq<string>)
    requires IsWord(word) && forall i | 0 <= i < |words| :: IsWord(words[i])
    ensures Split(word + Spaced(words)) == [word] + words
    decreases |words|
  {
    if words == [] {
      assert word + Spaced(words) == word;
      WordEndOfWord(word, "");
      assert word + "" == word;
    } else {
      var rest := words[0] + Spaced(words[1..]);
      assert Spaced(words) == " " + rest && rest[0] == words[0][0];
      SplitAtSpace(word, rest);
      SplitOfSpaced(words[0], words[1..]);
      assert [words[0]] + words[1..] == words;
    }
  }

  lemma {:induction false} PartsAreWords(s: string)
    ensures forall i | 0 <= i < |Split(s)| :: Split(s)[i] == "" || IsWord(Split(s)[i])
    decreases |s|
  {
    var n := WordEnd(s);
    if n < |s| {
      PartsAreWords(SkipBlanks(s[n + 1..]));
      assert s[..n] == "" || IsWord(s[..n]);
    }
  }

  lemma {:induction false} KeptNamesAreWords(parts: seq<string>)
    requires forall i | 0 <= i < |parts| :: parts[i] == "" || IsWord(parts[i])
    ensures forall i | 0 <= i < |KeptNames(parts)| :: IsWord(KeptNames(parts)[i]) && IsKeptName(KeptNames(parts)[i])
  {
    if parts != [] {
      KeptNamesAreWords(parts[1..]);
    }
  }

  lemma {:induction false} KeptNamesOfKept(names: seq<string>)
    requires forall i | 0 <= i < |names| :: IsKeptName(names[i])
    ensures KeptNames(names) == names
  {
    if names != [] {
      KeptNamesOfKept(names[1..]);
    }
  }

  /** The target names a `.PHONY` line lists. */
  function PhonyNames(line: string): seq<string> {
    NonEmpty(Split(line)[1..])
  }

  function NonEmpty(parts: seq<string>): seq<string> {
    if parts == [] then []
    else (if parts[0] != "" then [parts[0]] else []) + NonEmpty(parts[1..])
  }

  function WithoutInit(names: seq<string>): seq<string> {
    if names == [] then []
    else (if names[0] != "init" then [names[0]] else []) + WithoutInit(names[1..])
  }

  lemma {:induction false} KeptNamesAreNonEmptyWithoutInit(parts: seq<string>)
    ensures KeptNames(parts) == WithoutInit(NonEmpty(parts))
  {
    if parts != [] {
      KeptNamesAreNonEmptyWithoutInit(parts[1..]);
      if parts[0] != "" {
        assert NonEmpty(parts)[1..] == NonEmpty(parts[1..]);
      } else {
        assert NonEmpty(parts) == NonEmpty(parts[1..]);
      }
    }
  }

  lemma {:induction false} NonEmptyOfKept(names: seq<string>)
    requires forall i | 0 <= i < |names| :: IsKeptName(names[i])
    ensures NonEmpty(names) == names
  {
    if names != [] {
      NonEmptyOfKept(names[1..]);
    }
  }

  lemma FirstFieldOfPhony(line: string)
    requires IsPhony(line)
    ensures IsWord(Split(line)[0]) && IsPhony(Split(line)[0])
  {
  }

  lemma CleanPhonyFields(line: string)
    requires IsPhony(line)
    ensures Split(CleanPhony(line)) == [Split(line)[0]] + KeptNames(Split(line)[1..])
    ensures IsPhony(CleanPhony(line))
  {
    FirstFieldOfPhony(line);
    PartsAreWords(line);
    KeptNamesAreWords(Split(line)[1..]);
    SplitOfSpaced(Split(line)[0], KeptNames(Split(line)[1..]));
  }

  /** A cleaned `.PHONY` line is one still, and lists in order every name of the line but `init`. */
  lemma PhonyKeepsOtherNames(line: string)
    requires IsPhony(line)
    ensures IsPhony(CleanPhony(line))
    ensures PhonyNames(CleanPhony(line)) == WithoutInit(PhonyNames(line))
  {
    CleanPhonyFields(line);
    PartsAreWords(line);
    var kept := KeptNames(Split(line)[1..]);
    KeptNamesAreWords(Split(line)[1..]);
    KeptNamesAreNonEmptyWithoutInit(Split(line)[1..]);
    NonEmptyOfKept(kept);
    assert Split(CleanPhony(line))[1..] == kept;
  }

  ghost predicate WordFirst(s: string, gap: string, word: string, rest: string) {
    s == gap + word + rest && AllBlank(gap) && IsWord(word) && (rest == "" || IsBlank(rest[0]))
  }

  /** Read word by word, whatever blanks stand between them and at the ends, `s` is `words`. */
  ghost predicate ReadsAs(s: string, words: seq<string>)
    decreases |words|
  {
    if words == [] then AllBlank(s)
    else exists gap, rest :: WordFirst(s, gap, words[0], rest) && ReadsAs(rest, words[1..])
  }

  lemma {:induction false} SkipAllBlanks(s: string)
    requires AllBlank(s)
    ensures SkipBlanks(s) == ""
  {
    if s != "" {
      SkipAllBlanks(s[1..]);
    }
  }

  lemma {:induction false} SkipToWord(s: string, gap: string, word: string, rest: string)
    requires WordFirst(s, gap, word, rest) && s != "" && IsBlank(s[0])
    ensures SkipBlanks(s[1..]) == word + rest
  {
    assert s[0] == (gap + word)[0];
    assert gap != "";
    assert s[1..] == gap[1..] + (word + rest);
    SkipBlanksBefore(gap[1..], word + rest);
  }

  lemma {:induction false} SplitBlanks(s: string)
    requires AllBlank(s)
    ensures NonEmpty(if s == "" then [] else Split(SkipBlanks(s[1..]))) == []
  {
    if s != "" {
      SkipAllBlanks(s[1..]);
      assert Split("") == [""] && [""][1..] == [];
    }
  }

  lemma NonEmptyOfMore(word: string, words: seq<string>, parts: seq<string>)
    requires parts != [] && parts[0] == word && word != "" && NonEmpty(parts[1..]) == words
    ensures NonEmpty(parts) == [word] + words
  {
  }

  /** The fields of a line are its words, read in any way. */
  lemma {:induction false} SplitReads(first: string, rest: string, words: seq<string>)
    requires IsWord(first) && (rest == "" || IsBlank(rest[0])) && ReadsAs(rest, words)
    ensures Split(first + rest)[0] == first && NonEmpty(Split(first + rest)[1..]) == words
    decreases |words|
  {
    SplitFirst(first, rest);
    var tail := if rest == "" then [] else Split(SkipBlanks(rest[1..]));
    assert Split(first + rest)[1..] == tail;
    if words == [] {
      SplitBlanks(rest);
    } else {
      var gap, more :| WordFirst(rest, gap, words[0], more) && ReadsAs(more, words[1..]);
      assert rest != "";
      SkipToWord(rest, gap, words[0], more);
      SplitReads(words[0], more, words[1..]);
      NonEmptyOfMore(words[0], words[1..], tail);
      assert [words[0]] + words[1..] == words;
    }
  }

  lemma {:induction false} AnyTextReads(s: string) returns (words: seq<string>)
    ensures ReadsAs(s, words)
    decreases |s|
  {
    var gap := SkipBlanksParts(s);
    var r := SkipBlanks(s);
    if r == "" {
      words := [];
    } else {
      var n := WordEnd(r);
      var more := AnyTextReads(r[n..]);
      words := [r[..n]] + more;
      assert r == r[..n] + r[n..] && gap + (r[..n] + r[n..]) == gap + r[..n] + r[n..];
      assert words[0] == r[..n] && words[1..] == more;
      assert WordFirst(s, gap, words[0], r[n..]);
    }
  }

  /** What becomes of a `.PHONY` line: its first word, and each other word but `init` after one space, whatever
      blanks the line has. */
  lemma {:induction false} CleanPhonyExactly(first: string, rest: string, words: seq<string>)
    requires IsWord(first) && (rest == "" || IsBlank(rest[0])) && ReadsAs(rest, words)
    ensures CleanPhony(first + rest) == first + Spaced(WithoutInit(words))
  {
    SplitReads(first, rest, words);
    KeptNamesAreNonEmptyWithoutInit(Split(first + rest)[1..]);
  }

  ghost predicate PhonyParts(line: string, first: string, rest: string) {
    line == first + rest && PHONY <= first && IsWord(first) && (rest == "" || IsBlank(rest[0]))
  }

  lemma PhonyStarts(line: string) returns (first: string, rest: string)
    requires PHONY <= line
    ensures PhonyParts(line, first, rest)
  {
    FirstFieldOfPhony(line);
    var n := WordEnd(line);
    first, rest := line[..n], line[n..];
    assert line[..|line|] == line && Split(line)[0] == first;
  }

  /** And every `.PHONY` line can be read so. */
  lemma {:induction false} PhonyReads(line: string) returns (first: string, rest: string, words: seq<string>)
    requires PHONY <= line
    ensures PhonyParts(line, first, rest) && ReadsAs(rest, words)
  {
    first, rest := PhonyStarts(line);
    words := AnyTextReads(rest);
  }

  lemma CleanPhonyIdempotent(line: string)
    requires IsPhony(line)
    ensures CleanPhony(CleanPhony(line)) == CleanPhony(line)
  {
    CleanPhonyFields(line);
    PartsAreWords(line);
    var kept := KeptNames(Split(line)[1..]);
    KeptNamesAreWords(Split(line)[1..]);
    KeptNamesOfKept(kept);
    assert Split(CleanPhony(line))[1..] == kept;
  }

  // ----- What happens to the Makefile -----

  ghost predicate RuleParts(line: string, name: string, blanks: string, rest: string) {
    line == name + ":" + blanks + rest && AllBlank(blanks) && "## " <= rest
  }

  /** The line is a rule for `name` with a documentation comment: a colon, blanks, and two hashes and a space. */
  ghost predicate Documents(line: string, name: string) {
    exists blanks, rest :: RuleParts(line, name, blanks, rest)
  }

  predicate IsTargetName(name: string) {
    name != "" && forall i | 0 <= i < |name| ::
      'a' <= name[i] <= 'z' || 'A' <= name[i] <= 'Z' || name[i] == '_' || name[i] == '-'
  }

  ghost predicate DocumentsTarget(line: string) {
    exists name :: IsTargetName(name) && Documents(line, name)
  }

  lemma {:induction false} SkipBlanksBefore(blanks: string, rest: string)
    requires AllBlank(blanks) && (rest == "" || !IsBlank(rest[0]))
    ensures SkipBlanks(blanks + rest) == rest
  {
    if blanks == "" {
      assert blanks + rest == rest;
    } else {
      assert (blanks + rest)[1..] == blanks[1..] + rest;
      SkipBlanksBefore(blanks[1..], rest);
    }
  }

  lemma {:induction false} TargetEndOfName(name: string, rest: string)
    requires IsTargetName(name) && rest != "" && rest[0] == ':'
    ensures TargetEnd(name + rest) == |name|
  {
    var s := name + rest;
    assert s[|name|] == ':' && forall i | 0 <= i < |name| :: s[i] == name[i];
  }

  lemma {:induction false} SkipBlanksParts(s: string) returns (blanks: string)
    ensures AllBlank(blanks) && s == blanks + SkipBlanks(s)
  {
    if s != "" && IsBlank(s[0]) {
      var more := SkipBlanksParts(s[1..]);
      blanks := [s[0]] + more;
      assert s == [s[0]] + s[1..];
    } else {
      blanks := "";
    }
  }

  lemma RuleSplit(name: string, blanks: string, rest: string)
    ensures var line := name + ":" + blanks + rest;
            && line == name + (":" + (blanks + rest))
            && |name| < |line| && line[|name|] == ':' && line[|name| + 1..] == blanks + rest
  {
  }

  lemma RuleJoin(line: string, name: string, blanks: string, rest: string)
    requires |name| < |line| && line[..|name|] == name && line[|name|] == ':'
    requires line[|name| + 1..] == blanks + rest
    ensures line == name + ":" + blanks + rest
  {
    assert line == line[..|name|] + [line[|name|]] + line[|name| + 1..];
  }

  /** What follows a name and its colon is documentation exactly when the line documents the name. */
  lemma {:induction false} DocumentedAfterColon(line: string, name: string)
    requires |name| < |line| && line[..|name|] == name && line[|name|] == ':'
    requires "## " <= SkipBlanks(line[|name| + 1..])
    ensures Documents(line, name)
  {
    var tail := line[|name| + 1..];
    var blanks := SkipBlanksParts(tail);
    RuleJoin(line, name, blanks, SkipBlanks(tail));
    assert RuleParts(line, name, blanks, SkipBlanks(tail));
  }

  lemma {:induction false} RulePartsAfterColon(line: string, name: string, blanks: string, rest: string)
    requires RuleParts(line, name, blanks, rest)
    ensures |name| < |line| && line[..|name|] == name && line[|name|] == ':'
    ensures SkipBlanks(line[|name| + 1..]) == rest && line == name + (":" + (blanks + rest))
  {
    RuleSplit(name, blanks, rest);
    assert rest[0] == "## "[0];
    SkipBlanksBefore(blanks, rest);
  }

  /** `^init:[[:space:]]*## ` matches exactly the documented rules for `init`. */
  lemma {:induction false} InitRuleExactly(line: string, name: string)
    requires name == "init"
    ensures IsInitRule(line) <==> Documents(line, name)
  {
    if Documents(line, name) {
      var blanks, rest :| RuleParts(line, name, blanks, rest);
      RulePartsAfterColon(line, name, blanks, rest);
      assert name + ":" == "init:" && line[..5] == line[..4] + [line[4]];
    }
    if IsInitRule(line) {
      assert line[..4] == "init:"[..4] == name && line[4] == "init:"[4];
      DocumentedAfterColon(line, name);
    }
  }

  /** `^[a-zA-Z_-]+:[[:space:]]*## ` matches exactly the documented rules for a name of letters, underscores and
      hyphens. */
  lemma {:induction false} DocumentedTargetExactly(line: string)
    ensures IsDocumentedTarget(line) <==> DocumentsTarget(line)
  {
    if DocumentsTarget(line) {
      var name :| IsTargetName(name) && Documents(line, name);
      var blanks, rest :| RuleParts(line, name, blanks, rest);
      RulePartsAfterColon(line, name, blanks, rest);
      TargetEndOfName(name, ":" + (blanks + rest));
    }
    if IsDocumentedTarget(line) {
      var name := line[..TargetEnd(line)];
      DocumentedAfterColon(line, name);
      assert IsTargetName(name);
    }
  }

  /** Line `k` is in the run that starts with a documented rule for `init` and ends before the next documented rule
      for another target. */
  ghost predicate InInitRun(lines: seq<string>, k: int) {
    exists h | 0 <= h <= k < |lines| ::
      Documents(lines[h], "init")
      && forall m | h < m <= k :: DocumentsTarget(lines[m]) ==> Documents(lines[m], "init")
  }

  lemma {:induction false} MakefileKinds(line: string)
    ensures MakefileKind(line).Fixed? <==> PHONY <= line
    ensures MakefileKind(line).Opens? <==> Documents(line, "init")
    ensures MakefileKind(line).Closes? <==> DocumentsTarget(line) && !Documents(line, "init")
  {
    InitRuleExactly(line, "init");
    DocumentedTargetExactly(line);
    if PHONY <= line {
      PhonyIsNoRule(line);
    }
  }

  lemma PhonyIsNoRule(line: string)
    requires PHONY <= line
    ensures !IsInitRule(line) && !IsDocumentedTarget(line)
  {
    assert line[0] == PHONY[0] == '.' && "init:"[0] == 'i';
  }

  /** The cleanup keeps every `.PHONY` line, with `init` taken out, and of the other lines exactly those outside
      the runs of `init` rules, unchanged and in their order. */
  lemma MakefileKeepsTheRest(lines: seq<string>) returns (ks: seq<int>)
    ensures forall i, j | 0 <= i < j < |ks| :: ks[i] < ks[j]
    ensures forall k :: k in ks <==> 0 <= k < |lines| && (PHONY <= lines[k] || !InInitRun(lines, k))
    ensures |Output(lines, MakefileKind)| == |ks|
    ensures forall j | 0 <= j < |ks| ::
              && 0 <= ks[j] < |lines|
              && Output(lines, MakefileKind)[j]
                   == if PHONY <= lines[ks[j]] then CleanPhony(lines[ks[j]]) else lines[ks[j]]
  {
    ks := OutputIsSurvivors(lines, MakefileKind);
    forall k | 0 <= k < |lines|
      ensures MakefileKind(lines[k]).Fixed? <==> PHONY <= lines[k]
      ensures MakefileKind(lines[k]).Opens? <==> Documents(lines[k], "init")
      ensures MakefileKind(lines[k]).Closes? <==> DocumentsTarget(lines[k]) && !Documents(lines[k], "init")
    {
      MakefileKinds(lines[k]);
    }
    assert forall k :: InSection(lines, MakefileKind, k) <==> InInitRun(lines, k);
  }

  lemma MakefileCleanupIdempotent(lines: seq<string>)
    ensures Output(Output(lines, MakefileKind), MakefileKind) == Output(lines, MakefileKind)
  {
    forall line: string | MakefileKind(line).Fixed? && MakefileKind(line).out.Some?
      ensures MakefileKind(MakefileKind(line).out.value) == MakefileKind(line)
    {
      MakefileKinds(line);
      PhonyKeepsOtherNames(line);
      CleanPhonyIdempotent(line);
    }
    OutputIdempotent(lines, MakefileKind);
  }
}
