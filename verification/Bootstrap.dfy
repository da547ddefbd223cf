/** `scripts/bootstrap.sh` rewriting the files of the template: six passes of sed over every file. */
module Bootstrap {
  import opened Context
  import opened Text
  import opened Sed
  import opened Placeholders

  const NAMES: seq<string> :=
    ["__PROJECT_NAME__", "__PROJECT_SLUG__", "__SERVICE_NAME__", "__OWNER__", "__DESCRIPTION__", "__PORT__"]

  lemma NamesAreLiteral(i: nat)
    requires i < |NAMES|
    ensures IsLiteralPattern(NAMES[i])
  {
  }

  // ----- Values that are apart from every placeholder -----

  predicate IsCapital(c: char) {
    'A' <= c <= 'Z'
  }

  /** What the placeholders have in common. */
  ghost predicate IsName(p: string) {
    && |p| > 5
    && p[0] == p[1] == p[|p| - 2] == p[|p| - 1] == '_'
    && IsCapital(p[2]) && IsCapital(p[|p| - 3])
  }

  lemma NamesAreNames(i: nat)
    requires i < |NAMES|
    ensures IsName(NAMES[i])
  {
  }

  /** A double underscore right before or right after a capital. */
  predicate HasEdge(v: string) {
    exists i | 0 <= i < |v| - 2 ::
      (IsCapital(v[i]) && v[i + 1] == v[i + 2] == '_') || (v[i] == v[i + 1] == '_' && IsCapital(v[i + 2]))
  }

  /** A value that is no part of a placeholder and has no double underscore next to a capital. */
  ghost predicate IsOrdinary(v: string) {
    !HasEdge(v) && forall i | 0 <= i < |NAMES| :: !Contains(NAMES[i], v)
  }

  lemma BeginningHasEdge(v: string, q: string, o: nat)
    requires IsName(q) && o + 3 <= |v| && v[o] == q[0] && v[o + 1] == q[1] && v[o + 2] == q[2]
    ensures HasEdge(v)
  {
  }

  lemma EndHasEdge(v: string, q: string, n: int)
    requires IsName(q) && 3 <= n && EndsInto(q, v, n)
    ensures HasEdge(v)
  {
    var end, i := q[|q| - n..], n - 3;
    assert end[i] == v[i] && end[i + 1] == v[i + 1] && end[i + 2] == v[i + 2];
    assert IsCapital(v[i]) && v[i + 1] == v[i + 2] == '_';
  }

  lemma SliceAt(s: string, from: nat, to: nat, i: nat)
    requires from + i < to <= |s|
    ensures s[from..to][i] == s[from + i]
  {
  }

  lemma NameNotInside(v: string, q: string)
    requires IsName(q) && !HasEdge(v)
    ensures !Contains(v, q)
  {
    forall o | 0 <= o <= |v|
      ensures !OccursAt(v, q, o)
    {
      if OccursAt(v, q, o) {
        SliceAt(v, o, o + |q|, 0);
        SliceAt(v, o, o + |q|, 1);
        SliceAt(v, o, o + |q|, 2);
        BeginningHasEdge(v, q, o);
      }
    }
  }

  lemma EndsIntoName(v: string, p: string, q: string, n: int)
    requires IsName(p) && IsName(q) && !HasEdge(v) && EndsInto(v, q, n)
    ensures EndsInto(p, q, n)
  {
    if n > 2 {
      SliceAt(v, |v| - n, |v|, 0);
      SliceAt(v, |v| - n, |v|, 1);
      SliceAt(v, |v| - n, |v|, 2);
      BeginningHasEdge(v, q, |v| - n);
    } else {
      assert p[|p| - n..] == q[..n];
    }
  }

  lemma NameEndsInto(v: string, p: string, q: string, n: int)
    requires IsName(p) && IsName(q) && !HasEdge(v) && EndsInto(q, v, n)
    ensures EndsInto(q, p, n)
  {
    if n > 2 {
      EndHasEdge(v, q, n);
    } else {
      assert q[|q| - n..] == p[..n];
    }
  }

  lemma OrdinaryIsApart(v: string, p: string, q: string)
    requires IsName(p) && IsName(q) && !HasEdge(v) && !Contains(q, v)
    ensures Apart(v, p, q)
  {
    NameNotInside(v, q);
    forall n | EndsInto(v, q, n)
      ensures EndsInto(p, q, n)
    {
      EndsIntoName(v, p, q, n);
    }
    forall n | EndsInto(q, v, n)
      ensures EndsInto(q, p, n)
    {
      NameEndsInto(v, p, q, n);
    }
  }

  /** Ordinary values meet the hypothesis of the substitution theorems. */
  lemma OrdinaryValuesApart(values: seq<string>)
    requires |values| == |NAMES| && forall j | 0 <= j < |values| :: IsOrdinary(values[j])
    ensures IsTable(Table(NAMES, values)) && ValuesApart(Table(NAMES, values))
  {
    forall i | 0 <= i < |NAMES|
      ensures IsName(NAMES[i])
    {
      NamesAreNames(i);
    }
    forall i, j | 0 <= i < |NAMES| && 0 <= j < |NAMES|
      ensures Apart(values[j], NAMES[j], NAMES[i])
    {
      OrdinaryIsApart(values[j], NAMES[j], NAMES[i]);
    }
  }

  /** `^[a-z][a-z0-9_]*$` */
  predicate IsProjectSlug(s: string) {
    && s != ""
    && 'a' <= s[0] <= 'z'
    && forall i | 0 <= i < |s| :: 'a' <= s[i] <= 'z' || '0' <= s[i] <= '9' || s[i] == '_'
  }

  lemma NameCharacters(i: nat, c: char)
    requires i < |NAMES| && c in NAMES[i]
    ensures IsCapital(c) || c == '_'
  {
  }

  lemma NotInNames(v: string, c: char)
    requires c in v && !IsCapital(c) && c != '_'
    ensures forall i | 0 <= i < |NAMES| :: !Contains(NAMES[i], v)
  {
    forall i | 0 <= i < |NAMES|
      ensures !Contains(NAMES[i], v)
    {
      if c in NAMES[i] {
        NameCharacters(i, c);
        assert false;
      }
      MissingCharacter(NAMES[i], v, c);
    }
  }

  predicate IsUsual(v: string) {
    && (exists c | c in v :: !IsCapital(c) && c != '_')
    && ((forall i | 0 <= i < |v| :: !IsCapital(v[i])) || forall i | 0 <= i < |v| - 1 :: !(v[i] == v[i + 1] == '_'))
  }

  /** Every slug the script accepts is ordinary, underscores at its end included, and so is every value that holds
      some character besides capitals and underscores and either no capital or no double underscore: ports,
      service names, titles. */
  lemma UsualValuesAreOrdinary(v: string)
    ensures IsProjectSlug(v) ==> IsOrdinary(v) && v[0] != '_'
    ensures IsUsual(v) ==> IsOrdinary(v)
  {
    if IsProjectSlug(v) {
      assert v[0] in v && forall i | 0 <= i < |v| :: !IsCapital(v[i]);
    }
    if IsUsual(v) || IsProjectSlug(v) {
      var c :| c in v && !IsCapital(c) && c != '_';
      NotInNames(v, c);
    }
  }

  // ----- When the order shows -----

  /** Where two placeholders differ first. */
  lemma NamesDiffer(i: nat, j: nat)
    requires i < |NAMES| && j < |NAMES| && i != j
    ensures exists c | 0 <= c < |NAMES[i]| && c < |NAMES[j]| :: NAMES[i][c] != NAMES[j][c]
  {
    assert NAMES[0][2] == 'P' && NAMES[1][2] == 'P' && NAMES[2][2] == 'S' && NAMES[3][2] == 'O' && NAMES[4][2] == 'D'
        && NAMES[5][2] == 'P' && NAMES[0][3] == 'R' && NAMES[1][3] == 'R' && NAMES[5][3] == 'O'
        && NAMES[0][10] == 'N' && NAMES[1][10] == 'S';
    var c := if i < 2 && j < 2 then 10 else if NAMES[i][2] != NAMES[j][2] then 2 else 3;
    assert NAMES[i][c] != NAMES[j][c];
  }

  /** With ordinary values that do not begin with an underscore, every order of the six passes is the simultaneous
      substitution on exactly the lines where no placeholder starts inside a piece that is another one. */
  lemma {:induction false} OrderShowsExactly(line: string, values: seq<string>)
    requires |values| == |NAMES|
    requires forall j | 0 <= j < |values| :: IsOrdinary(values[j]) && (values[j] != "" ==> values[j][0] != '_')
    ensures IsTable(Table(NAMES, values))
    ensures var d := Table(NAMES, values);
            (forall order | IsOrder(order, |NAMES|) :: Passes(line, d, order) == Simultaneous(line, d))
            <==> IsClear(line, d, false)
  {
    var d := Table(NAMES, values);
    OrdinaryValuesApart(values);
    forall i, j | 0 <= i < |NAMES| && 0 <= j < |NAMES| && i != j
      ensures !(NAMES[i] <= NAMES[j])
    {
      NamesDiffer(i, j);
    }
    forall i | 0 <= i < |NAMES|
      ensures values[i] != "" && values[i][0] != NAMES[i][0]
    {
      NamesAreNames(i);
      assert OccursAt(NAMES[i], "", 0);
    }
    Placeholders.OrderShowsExactly(line, d);
  }

  // ----- Files -----

  /** A file as the lines sed reads. */
  type File = seq<string>

  predicate Mentions(file: File, name: string) {
    exists k | 0 <= k < |file| :: Contains(file[k], name)
  }

  function ReplaceInFile(file: File, name: string, value: string): File
    requires name != ""
  {
    seq(|file|, k requires 0 <= k < |file| => ReplaceAll(file[k], name, value))
  }

  /** A file that does not mention the placeholder is what replacing would make of it. */
  lemma UnmentionedUnchanged(file: File, name: string, value: string)
    requires name != "" && !Mentions(file, name)
    ensures ReplaceInFile(file, name, value) == file
  {
    forall k | 0 <= k < |file|
      ensures ReplaceAll(file[k], name, value) == file[k]
    {
      assert !Contains(file[k], name);
      WithoutOccurrence(file[k], name, value);
    }
  }

  lemma WithoutOccurrence(line: string, name: string, value: string)
    requires name != "" && !Contains(line, name)
    ensures ReplaceAll(line, name, value) == line
  {
    forall o | 0 <= o < |line|
      ensures !(name <= (line + "")[o..])
    {
      assert line + "" == line && !OccursAt(line, name, o);
      if |name| <= |line[o..]| {
        assert line[o..][..|name|] == line[o..o + |name|];
      }
    }
    ReplaceSkips(line, "", name, value);
    assert line + "" == line;
  }

  /** `sed -i` on one file. */
  method PatchFile(file: File, script: string) returns (patched: Option<File>)
    ensures patched.None? <==> exists k | 0 <= k < |file| :: Exec(script, file[k]).None?
    ensures patched.Some? ==> |patched.value| == |file|
    ensures patched.Some? ==> forall k | 0 <= k < |file| :: Exec(script, file[k]) == Some(patched.value[k])
  {
    var lines := [];
    for k := 0 to |file|
      invariant |lines| == k
      invariant forall j | 0 <= j < k :: Exec(script, file[j]) == Some(lines[j])
    {
      var line := Exec(script, file[k]);
      if line.None? {
        return None;
      }
      lines := lines + [line.value];
    }
    patched := Some(lines);
  }

  /** `replace_in_files`: every file that mentions the placeholder is patched, and in all of them every
      occurrence becomes the value without the newlines at its end. A value with a newline before that stops the
      script at the first file to patch, before anything is changed. */
  method ReplaceInFiles(files: array<File>, name: string, value: string) returns (ok: bool)
    requires IsLiteralPattern(name)
    modifies files
    ensures ok <==> '\n' !in TrimNewlines(value) || forall f | 0 <= f < files.Length :: !Mentions(old(files[f]), name)
    ensures ok ==> forall f | 0 <= f < files.Length ::
              files[f] == ReplaceInFile(old(files[f]), name, TrimNewlines(value))
    ensures !ok ==> forall f | 0 <= f < files.Length :: files[f] == old(files[f])
  {
    var escaped := EscapedValue(value);
    ghost var inserted := TrimNewlines(value);
    for f := 0 to files.Length
      invariant forall g | 0 <= g < f :: files[g] == ReplaceInFile(old(files[g]), name, inserted)
      invariant '\n' in inserted ==>
                  forall g | 0 <= g < f :: files[g] == old(files[g]) && !Mentions(old(files[g]), name)
      invariant forall g | f <= g < files.Length :: files[g] == old(files[g])
    {
      if Mentions(files[f], name) {
        var patched := PatchFile(files[f], Script(name, escaped));
        forall k | 0 <= k < |files[f]|
          ensures Exec(Script(name, escaped), files[f][k])
               == if '\n' in inserted then None else Some(ReplaceAll(files[f][k], name, inserted))
        {
          ExecEscaped(name, value, files[f][k]);
        }
        if patched.None? {
          return false;
        }
        assert patched.value == ReplaceInFile(files[f], name, inserted);
        files[f] := patched.value;
      } else {
        UnmentionedUnchanged(files[f], name, inserted);
      }
    }
    ok := true;
  }

  function PassesInFile(file: File, d: Table, order: seq<nat>): File
    requires IsTable(d) && forall i | i in order :: i < |d.names|
  {
    seq(|file|, k requires 0 <= k < |file| => Passes(file[k], d, order))
  }

  function UpTo(n: nat): seq<nat> {
    seq(n, i => i)
  }

  lemma UpToHoldsAll(n: nat)
    ensures forall i: nat :: i in UpTo(n) <==> i < n
  {
    forall i: nat | i < n
      ensures i in UpTo(n)
    {
      assert UpTo(n)[i] == i;
    }
  }

  lemma PassesExtend(t: string, d: Table, order: seq<nat>, i: nat)
    requires IsTable(d) && i < |d.names| && forall j | j in order :: j < |d.names|
    ensures forall j | j in order + [i] :: j < |d.names|
    ensures Passes(t, d, order + [i]) == ReplaceAll(Passes(t, d, order), d.names[i], d.values[i])
    decreases |order|
  {
    var all := order + [i];
    if order == [] {
      assert all[1..] == [];
    } else {
      assert all[0] == order[0] && all[1..] == order[1..] + [i];
      assert order[0] in order && forall j | j in order[1..] :: j in order;
      PassesExtend(ReplaceAll(t, d.names[order[0]], d.values[order[0]]), d, order[1..], i);
    }
  }

  /** The values the passes insert. */
  function Inserted(values: seq<string>): Table
    requires |values| == |NAMES|
    ensures IsTable(Inserted(values))
  {
    assert forall i | 0 <= i < |NAMES| :: NAMES[i] != "" by {
      forall i | 0 <= i < |NAMES| ensures NAMES[i] != "" { NamesAreLiteral(i); }
    }
    Table(NAMES, seq(|values|, i requires 0 <= i < |values| => TrimNewlines(values[i])))
  }

  /** The six calls. With values apart from the placeholders they amount to one simultaneous substitution on every
      line that is clear, and leave no placeholder on lines where none overlaps even with itself. A value of
      several lines can stop them; then the passes before it are done, and no other. */
  method Rewrite(files: array<File>, values: seq<string>) returns (ok: bool)
    requires |values| == |NAMES|
    modifies files
    ensures (forall i | 0 <= i < |values| :: '\n' !in TrimNewlines(values[i])) ==> ok
    ensures ok ==> forall f, k | 0 <= f < files.Length && 0 <= k < |old(files[f])| ::
              var line, d := old(files[f])[k], Inserted(values);
              && |files[f]| == |old(files[f])|
              && (ValuesApart(d) && IsClear(line, d, false) ==> files[f][k] == Simultaneous(line, d))
              && (ValuesApart(d) && IsClear(line, d, true) ==>
                    forall i | 0 <= i < |NAMES| :: !Contains(files[f][k], NAMES[i]))
    ensures !ok ==> exists n | 0 <= n < |NAMES| ::
              && '\n' in TrimNewlines(values[n])
              && forall f | 0 <= f < files.Length :: files[f] == PassesInFile(old(files[f]), Inserted(values), UpTo(n))
  {
    var d := Inserted(values);
    ghost var before := files[..];
    for i := 0 to |NAMES|
      invariant forall f | 0 <= f < files.Length :: files[f] == PassesInFile(before[f], d, UpTo(i))
    {
      NamesAreLiteral(i);
      ghost var was := files[..];
      var done := ReplaceInFiles(files, NAMES[i], values[i]);
      if !done {
        assert forall f | 0 <= f < files.Length :: files[f] == PassesInFile(old(files[f]), d, UpTo(i));
        return false;
      }
      forall f | 0 <= f < files.Length
        ensures files[f] == PassesInFile(before[f], d, UpTo(i + 1))
      {
        OneMorePass(before[f], d, i);
        assert files[f] == ReplaceInFile(was[f], NAMES[i], d.values[i]);
      }
    }
    forall f, k | 0 <= f < files.Length && 0 <= k < |before[f]|
      ensures ValuesApart(d) && IsClear(before[f][k], d, false) ==> files[f][k] == Simultaneous(before[f][k], d)
      ensures ValuesApart(d) && IsClear(before[f][k], d, true) ==>
                forall i | 0 <= i < |NAMES| :: !Contains(files[f][k], NAMES[i])
    {
      AllPasses(before[f][k], d);
    }
    ok := true;
  }

  lemma {:induction false} AllPasses(line: string, d: Table)
    requires IsTable(d)
    ensures IsOrder(UpTo(|d.names|), |d.names|)
    ensures var r := Passes(line, d, UpTo(|d.names|));
            && (ValuesApart(d) && IsClear(line, d, false) ==> r == Simultaneous(line, d))
            && (ValuesApart(d) && IsClear(line, d, true) ==> forall i | 0 <= i < |d.names| :: !Contains(r, d.names[i]))
  {
    var order := UpTo(|d.names|);
    UpToHoldsAll(|d.names|);
    if ValuesApart(d) && IsClear(line, d, false) {
      PassesFill(line, d, false, order);
      EverythingFilled(line, d, ToSet(order));
    }
    if ValuesApart(d) && IsClear(line, d, true) {
      forall i, o | 0 <= i < |d.names| && o >= 0
        ensures !OccursAt(Passes(line, d, order), d.names[i], o)
      {
        NoneLeft(line, d, order, i, o);
      }
    }
  }

  lemma OneMorePass(file: File, d: Table, i: nat)
    requires IsTable(d) && i < |d.names|
    ensures ReplaceInFile(PassesInFile(file, d, UpTo(i)), d.names[i], d.values[i]) == PassesInFile(file, d, UpTo(i + 1))
  {
    assert UpTo(i + 1) == UpTo(i) + [i];
    forall k | 0 <= k < |file|
      ensures ReplaceAll(Passes(file[k], d, UpTo(i)), d.names[i], d.values[i]) == Passes(file[k], d, UpTo(i + 1))
    {
      PassesExtend(file[k], d, UpTo(i), i);
    }
  }

  lemma ReplaceOnce(before: string, name: string, after: string, value: string)
    requires name != "" && |before| < |name| && |after| < |name|
    requires forall o | 0 <= o < |before| :: !(name <= (before + (name + after))[o..])
    ensures ReplaceAll(before + name + after, name, value) == before + value + after
  {
    ReplaceSkips(before, name + after, name, value);
    assert before + (name + after) == before + name + after && (name + after)[|name|..] == after;
    WithoutOccurrence(after, name, value);
  }

  lemma ReplaceFirst(p: string, y: string, v: string)
    requires p != "" && |y| < |p|
    ensures ReplaceAll(p + y, p, v) == v + y
  {
    ReplaceHead(p, y, v);
    WithoutOccurrence(y, p, v);
  }

  /** Where `p` and `q` overlap and the pass of `p` comes first, `q` is not replaced. */
  lemma LeftPassWins(p: string, y: string, q: string, v: string, w: string)
    requires p != "" && q != "" && |y| < |p| && !Contains(v + y, q)
    ensures ReplaceAll(ReplaceAll(p + y, p, v), q, w) == v + y
  {
    ReplaceFirst(p, y, v);
    WithoutOccurrence(v + y, q, w);
  }

  /** And the other way round. */
  lemma RightPassWins(x: string, q: string, p: string, v: string, w: string)
    requires p != "" && |x| < |q| && !Contains(x + w, p)
    requires forall o | 0 <= o < |x| :: !(q <= (x + q)[o..])
    ensures ReplaceAll(ReplaceAll(x + q, q, w), p, v) == x + w
  {
    assert q + "" == q;
    ReplaceOnce(x, q, "", w);
    assert x + q + "" == x + q && x + w + "" == x + w;
    WithoutOccurrence(x + w, p, v);
  }

  lemma OwnerNotEarlier(line: string, owner: string, o: nat)
    requires |line| == 15 && |owner| == 9 && o < 6
    requires owner[0] == owner[1] == '_' && owner[2] == 'O'
    requires line[2] == 'P' && line[3] == 'O' && line[4] == 'R' && line[5] == 'T'
    ensures !(owner <= line[o..])
  {
  }

  /** Two placeholders of the template do overlap on some line, and there the order of the passes shows. */
  lemma OverlapShows() returns (line: string)
    ensures ReplaceAll(ReplaceAll(line, NAMES[5], "1"), NAMES[3], "2")
         != ReplaceAll(ReplaceAll(line, NAMES[3], "2"), NAMES[5], "1")
  {
    var x, s, y := "__PORT", "__", "OWNER__";
    line := x + s + y;
    assert x + s == NAMES[5] && s + y == NAMES[3];
    forall o | 0 <= o < |x|
      ensures !(s + y <= line[o..])
    {
      OwnerNotEarlier(line, s + y, o);
    }
    assert line == NAMES[5] + y == x + NAMES[3];
    LeftPassWins(NAMES[5], y, NAMES[3], "1", "2");
    RightPassWins(x, NAMES[3], NAMES[5], "1", "2");
    assert ("1" + y)[0] != (x + "2")[0];
  }
}
