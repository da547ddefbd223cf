/** The passes of `replace_in_files`: one global substitution per placeholder, one after the other. */
module Placeholders {
  import opened Text
  import opened Sed

  /** Placeholders and the values that take their places. */
  datatype Table = Table(names: seq<string>, values: seq<string>)

  ghost predicate IsTable(d: Table) {
    |d.names| == |d.values| && forall i | 0 <= i < |d.names| :: d.names[i] != ""
  }

  // ----- All placeholders at once -----

  /** The first placeholder from index `i` on that `t` starts with. */
  function Find(t: string, d: Table, i: nat): (k: nat)
    requires i <= |d.names|
    ensures i <= k <= |d.names|
    ensures k < |d.names| ==> d.names[k] <= t
    ensures forall j | i <= j < k :: !(d.names[j] <= t)
    decreases |d.names| - i
  {
    if i == |d.names| || d.names[i] <= t then i else Find(t, d, i + 1)
  }

  /** One pass over the text that replaces every placeholder where it stands. */
  function Simultaneous(t: string, d: Table): string
    requires IsTable(d)
    decreases |t|
  {
    if t == "" then ""
    else
      var k := Find(t, d, 0);
      if k < |d.names| then d.values[k] + Simultaneous(t[|d.names[k]|..], d)
      else [t[0]] + Simultaneous(t[1..], d)
  }

  // ----- One placeholder after the other -----

  function Passes(t: string, d: Table, order: seq<nat>): string
    requires IsTable(d) && forall i | i in order :: i < |d.names|
    decreases |order|
  {
    if order == [] then t
    else
      assert order[0] in order;
      assert forall i | i in order[1..] :: i in order;
      Passes(ReplaceAll(t, d.names[order[0]], d.values[order[0]]), d, order[1..])
  }

  // ----- Texts and values for which the two agree -----

  /** How much of a text its first piece takes, a placeholder or else one character. */
  function PieceLength(t: string, d: Table): nat
    requires t != "" && IsTable(d)
  {
    var k := Find(t, d, 0);
    if k < |d.names| then |d.names[k]| else 1
  }

  /** No placeholder starts inside the first piece of `t`. Unless `own` is set, the placeholder that is that
      piece may. */
  ghost predicate PieceIsClear(t: string, d: Table, own: bool)
    requires t != "" && IsTable(d)
  {
    forall i, o | 0 <= i < |d.names| && 0 <= o < PieceLength(t, d) && OccursAt(t, d.names[i], o)
      :: i == Find(t, d, 0) && (o == 0 || !own)
  }

  /** Read from left to right, `t` has no piece inside which a placeholder starts. */
  ghost predicate IsClear(t: string, d: Table, own: bool)
    requires IsTable(d)
    decreases |t|
  {
    t == "" || (PieceIsClear(t, d, own) && IsClear(t[PieceLength(t, d)..], d, own))
  }

  /** The last `n` characters of `x` are the first of `y`. */
  ghost predicate EndsInto(x: string, y: string, n: int) {
    0 < n <= |x| && n <= |y| && x[|x| - n..] == y[..n]
  }

  /** Where `v` takes the place of `p`, it brings no part of `q`: neither holds the other, and an end of one that
      begins the other was there before. */
  ghost predicate Apart(v: string, p: string, q: string) {
    && !Contains(q, v) && !Contains(v, q)
    && (forall n | EndsInto(v, q, n) :: EndsInto(p, q, n))
    && (forall n | EndsInto(q, v, n) :: EndsInto(q, p, n))
  }

  ghost predicate ValuesApart(d: Table)
    requires IsTable(d)
  {
    forall i, j | 0 <= i < |d.names| && 0 <= j < |d.names| :: Apart(d.values[j], d.names[j], d.names[i])
  }

  // ----- Prefixes -----

  lemma PrefixSplit(q: string, a: string, rest: string)
    ensures q <= a + rest <==> if |q| <= |a| then q <= a else a <= q && q[|a|..] <= rest
  {
  }

  lemma DropTwice(p: string, a: nat, b: nat)
    requires a + b <= |p|
    ensures p[a..][b..] == p[a + b..]
  {
  }

  lemma TakeAndDrop(t: string, n: nat)
    requires n <= |t|
    ensures t[..n] + t[n..] == t
  {
  }

  lemma DropInPiece(piece: string, rest: string, o: nat)
    requires o <= |piece|
    ensures (piece + rest)[o..] == piece[o..] + rest
  {
  }

  lemma TwoPrefixes(a: string, b: string, t: string)
    requires a <= t && b <= t
    ensures a <= b || b <= a
  {
  }

  lemma PrefixOccurs(t: string, p: string, o: nat)
    requires o <= |t|
    ensures p <= t[o..] <==> OccursAt(t, p, o)
  {
    if o + |p| <= |t| {
      assert t[o..][..|p|] == t[o..o + |p|];
    }
  }

  // ----- What a pass can bring about -----

  /** The rest of a placeholder cannot continue into a value unless it continued into what the value replaced. */
  lemma IntoValue(v: string, p: string, q: string, from: nat, rest: string)
    requires Apart(v, p, q) && from < |q| && q[from..] <= v + rest
    ensures q[from..] <= p
  {
    var n := |q| - from;
    PrefixSplit(q[from..], v, rest);
    assert n > |v| ==> OccursAt(q, v, from);
    assert EndsInto(q, v, n);
  }

  /** One pass never makes a text start with the rest of a placeholder: it did before. */
  lemma {:induction false} RestWasThere(t: string, p: string, v: string, q: string, from: nat)
    requires p != "" && Apart(v, p, q) && from <= |q| && q[from..] <= ReplaceAll(t, p, v)
    ensures q[from..] <= t
    decreases |t|
  {
    if from < |q| {
      if p <= t {
        IntoValue(v, p, q, from, ReplaceAll(t[|p|..], p, v));
      } else {
        PrefixSplit(q[from..], [t[0]], ReplaceAll(t[1..], p, v));
        DropTwice(q, from, 1);
        RestWasThere(t[1..], p, v, q, from + 1);
        PrefixSplit(q[from..], [t[0]], t[1..]);
        TakeAndDrop(t, 1);
      }
    }
  }

  /** Whatever rest of a placeholder `r` starts with, `t` starts with too. */
  ghost predicate NothingNew(r: string, t: string, d: Table) {
    forall i, from | 0 <= i < |d.names| && 0 <= from <= |d.names[i]| && d.names[i][from..] <= r
      :: d.names[i][from..] <= t
  }

  lemma PassBringsNothingNew(r: string, t: string, d: Table, j: nat)
    requires IsTable(d) && ValuesApart(d) && j < |d.names| && NothingNew(r, t, d)
    ensures NothingNew(ReplaceAll(r, d.names[j], d.values[j]), t, d)
  {
    forall i, from | 0 <= i < |d.names| && 0 <= from <= |d.names[i]|
                     && d.names[i][from..] <= ReplaceAll(r, d.names[j], d.values[j])
      ensures d.names[i][from..] <= t
    {
      RestWasThere(r, d.names[j], d.values[j], d.names[i], from);
    }
  }

  lemma {:induction false} PassesBringNothingNew(r: string, t: string, d: Table, order: seq<nat>)
    requires IsTable(d) && ValuesApart(d) && NothingNew(r, t, d)
    requires forall i | i in order :: i < |d.names|
    ensures NothingNew(Passes(r, d, order), t, d)
    decreases |order|
  {
    if order != [] {
      assert order[0] in order && forall i | i in order[1..] :: i in order;
      PassBringsNothingNew(r, t, d, order[0]);
      PassesBringNothingNew(ReplaceAll(r, d.names[order[0]], d.values[order[0]]), t, d, order[1..]);
    }
  }

  // ----- Passes over one piece -----

  /** What stands for the first piece of `t` once the passes in `done` are over. */
  function Piece(t: string, d: Table, done: set<nat>): string
    requires t != "" && IsTable(d)
  {
    var k := Find(t, d, 0);
    if k == |d.names| then [t[0]] else if k in done then d.values[k] else d.names[k]
  }

  /** A placeholder that starts inside a piece still as it was started there in the text. */
  lemma {:induction false} StoodInPiece(t: string, d: Table, r: string, i: nat, o: nat)
    requires t != "" && IsTable(d) && i < |d.names| && NothingNew(r, t[PieceLength(t, d)..], d)
    requires o < PieceLength(t, d) && d.names[i] <= t[..PieceLength(t, d)][o..] + r
    ensures OccursAt(t, d.names[i], o)
  {
    var p, n := d.names[i], PieceLength(t, d);
    var w := t[..n][o..];
    PrefixSplit(p, w, r);
    if |p| > |w| {
      assert p[n - o..] <= t[n..];
    }
    PrefixSplit(p, w, t[n..]);
    DropInPiece(t[..n], t[n..], o);
    TakeAndDrop(t, n);
    PrefixOccurs(t, p, o);
  }

  /** A placeholder that starts inside a value started in the text as much before the end of the placeholder the
      value replaced. */
  lemma {:induction false} StoodAtValue(t: string, d: Table, r: string, i: nat, o: nat)
    requires t != "" && IsTable(d) && ValuesApart(d) && i < |d.names| && NothingNew(r, t[PieceLength(t, d)..], d)
    requires Find(t, d, 0) < |d.names|
    requires var v := d.values[Find(t, d, 0)]; o < |v| && d.names[i] <= v[o..] + r
    ensures var n := |d.values[Find(t, d, 0)]| - o;
            n < |d.names[i]| && n <= PieceLength(t, d) && OccursAt(t, d.names[i], PieceLength(t, d) - n)
  {
    var k, p := Find(t, d, 0), d.names[i];
    var v, q := d.values[k], d.names[k];
    var n := |v| - o;
    assert Apart(v, q, p);
    PrefixSplit(p, v[o..], r);
    if |p| <= n {
      PrefixOccurs(v, p, o);
      assert false;
    }
    assert EndsInto(v, p, n);
    assert EndsInto(q, p, n);
    assert q == t[..|q|] && t[..|q|][|q| - n..] == p[..n];
    TakeAndDrop(p, n);
    PrefixSplit(p, p[..n], r);
    StoodInPiece(t, d, r, i, |q| - n);
  }

  /** In a clear piece no placeholder starts but the piece itself while its pass is to come. */
  lemma {:induction false} NoStray(t: string, d: Table, own: bool, done: set<nat>, r: string, i: nat, o: nat)
    requires t != "" && IsTable(d) && ValuesApart(d) && i < |d.names| && NothingNew(r, t[PieceLength(t, d)..], d)
    requires PieceIsClear(t, d, own) && (i == Find(t, d, 0) ==> own && i in done)
    requires o < |Piece(t, d, done)|
    ensures !(d.names[i] <= (Piece(t, d, done) + r)[o..])
  {
    var k, n := Find(t, d, 0), PieceLength(t, d);
    var piece := Piece(t, d, done);
    if d.names[i] <= (piece + r)[o..] {
      DropInPiece(piece, r, o);
      if k < |d.names| && k in done {
        StoodAtValue(t, d, r, i, o);
      } else {
        assert piece == t[..n];
        StoodInPiece(t, d, r, i, o);
      }
      assert false;
    }
  }

  lemma {:induction false} ReplaceSkips(piece: string, rest: string, p: string, v: string)
    requires p != "" && forall o | 0 <= o < |piece| :: !(p <= (piece + rest)[o..])
    ensures ReplaceAll(piece + rest, p, v) == piece + ReplaceAll(rest, p, v)
    decreases |piece|
  {
    var t := piece + rest;
    if piece == "" {
      assert t == rest;
    } else {
      assert t[0..] == t && t[1..] == piece[1..] + rest;
      assert forall o | 0 <= o < |piece[1..]| :: (piece[1..] + rest)[o..] == t[o + 1..];
      ReplaceSkips(piece[1..], rest, p, v);
    }
  }

  lemma ReplaceHead(p: string, r: string, v: string)
    requires p != ""
    ensures ReplaceAll(p + r, p, v) == v + ReplaceAll(r, p, v)
  {
    assert (p + r)[|p|..] == r;
  }

  lemma {:induction false} PassOverPiece(t: string, d: Table, own: bool, done: set<nat>, r: string, i: nat)
    requires t != "" && IsTable(d) && ValuesApart(d) && i < |d.names| && NothingNew(r, t[PieceLength(t, d)..], d)
    requires PieceIsClear(t, d, own) && (own || i !in done)
    ensures ReplaceAll(Piece(t, d, done) + r, d.names[i], d.values[i])
         == Piece(t, d, done + {i}) + ReplaceAll(r, d.names[i], d.values[i])
  {
    var piece := Piece(t, d, done);
    if i == Find(t, d, 0) && i !in done {
      ReplaceHead(d.names[i], r, d.values[i]);
    } else {
      forall o | 0 <= o < |piece|
        ensures !(d.names[i] <= (piece + r)[o..])
      {
        NoStray(t, d, own, done, r, i, o);
      }
      ReplaceSkips(piece, r, d.names[i], d.values[i]);
    }
  }

  ghost function ToSet(order: seq<nat>): set<nat> {
    set i | i in order
  }

  ghost predicate NoRepeats(order: seq<nat>) {
    forall a, b | 0 <= a < b < |order| :: order[a] != order[b]
  }

  /** Over a clear first piece the passes act on that piece and on the rest of the text separately, whatever the
      rest is. */
  lemma {:induction false} PassesOverPiece(t: string, d: Table, own: bool, done: set<nat>, r: string, order: seq<nat>)
    requires t != "" && IsTable(d) && ValuesApart(d) && NothingNew(r, t[PieceLength(t, d)..], d)
    requires PieceIsClear(t, d, own) && forall i | i in order :: i < |d.names|
    requires own || (NoRepeats(order) && forall i | i in order :: i !in done)
    ensures Passes(Piece(t, d, done) + r, d, order) == Piece(t, d, done + ToSet(order)) + Passes(r, d, order)
    decreases |order|
  {
    if order == [] {
      assert done + ToSet(order) == done;
    } else {
      var i := order[0];
      assert i in order && forall j | j in order[1..] :: j in order;
      PassOverPiece(t, d, own, done, r, i);
      PassBringsNothingNew(r, t[PieceLength(t, d)..], d, i);
      PassesOverPiece(t, d, own, done + {i}, ReplaceAll(r, d.names[i], d.values[i]), order[1..]);
      assert done + {i} + ToSet(order[1..]) == done + ToSet(order);
    }
  }

  lemma {:induction false} FirstPieceApart(t: string, d: Table, own: bool, order: seq<nat>)
    requires t != "" && IsTable(d) && ValuesApart(d)
    requires PieceIsClear(t, d, own) && (forall i | i in order :: i < |d.names|) && (own || NoRepeats(order))
    ensures Passes(t, d, order) == Piece(t, d, ToSet(order)) + Passes(t[PieceLength(t, d)..], d, order)
  {
    var n := PieceLength(t, d);
    TakeAndDrop(t, n);
    assert Piece(t, d, {}) == t[..n];
    PassesOverPiece(t, d, own, {}, t[n..], order);
    assert {} + ToSet(order) == ToSet(order);
  }

  // ----- Passes over a text -----

  /** The text with the placeholders in `done` replaced where they stand. */
  function Filled(t: string, d: Table, done: set<nat>): string
    requires IsTable(d)
    decreases |t|
  {
    if t == "" then "" else Piece(t, d, done) + Filled(t[PieceLength(t, d)..], d, done)
  }

  lemma {:induction false} EverythingFilled(t: string, d: Table, done: set<nat>)
    requires IsTable(d) && forall i: nat | i < |d.names| :: i in done
    ensures Filled(t, d, done) == Simultaneous(t, d)
    decreases |t|
  {
    if t != "" {
      EverythingFilled(t[PieceLength(t, d)..], d, done);
    }
  }

  lemma {:induction false} PassesOfNothing(d: Table, order: seq<nat>)
    requires IsTable(d) && forall i | i in order :: i < |d.names|
    ensures Passes("", d, order) == ""
  {
    if order != [] {
      assert order[0] in order && forall i | i in order[1..] :: i in order;
      PassesOfNothing(d, order[1..]);
    }
  }

  /** After some of the passes, in any order, exactly their placeholders are replaced, where they stood. */
  lemma {:induction false} PassesFill(t: string, d: Table, own: bool, order: seq<nat>)
    requires IsTable(d) && ValuesApart(d) && IsClear(t, d, own)
    requires (forall i | i in order :: i < |d.names|) && (own || NoRepeats(order))
    ensures Passes(t, d, order) == Filled(t, d, ToSet(order))
    decreases |t|
  {
    if t == "" {
      PassesOfNothing(d, order);
    } else {
      FirstPieceApart(t, d, own, order);
      PassesFill(t[PieceLength(t, d)..], d, own, order);
    }
  }

  lemma OccursAfter(a: string, b: string, p: string, o: nat)
    requires |a| <= o
    ensures OccursAt(a + b, p, o) <==> OccursAt(b, p, o - |a|)
  {
  }

  /** No placeholder whose pass is over is left, wherever one looks. */
  lemma {:induction false} NoneLeft(t: string, d: Table, order: seq<nat>, i: nat, o: nat)
    requires IsTable(d) && ValuesApart(d) && IsClear(t, d, true)
    requires (forall j | j in order :: j < |d.names|) && i in order
    ensures !OccursAt(Passes(t, d, order), d.names[i], o)
    decreases |t|
  {
    if t == "" {
      PassesOfNothing(d, order);
    } else {
      var n, done := PieceLength(t, d), ToSet(order);
      var piece, r := Piece(t, d, done), Passes(t[n..], d, order);
      FirstPieceApart(t, d, true, order);
      if o < |piece| {
        PassesBringNothingNew(t[n..], t[n..], d, order);
        NoStray(t, d, true, done, r, i, o);
        PrefixOccurs(piece + r, d.names[i], o);
      } else {
        NoneLeft(t[n..], d, order, i, o - |piece|);
        OccursAfter(piece, r, d.names[i], o);
      }
    }
  }

  // ----- Overlaps -----

  /** No occurrences of placeholders overlap in `t`. Unless `own` is set, those of one placeholder may. */
  ghost predicate NoOverlap(t: string, d: Table, own: bool) {
    forall i, j, a, b | 0 <= i < |d.names| && 0 <= j < |d.names| && (own || i != j)
                        && OccursAt(t, d.names[i], a) && OccursAt(t, d.names[j], b) && a <= b
      :: (a == b && i == j) || a + |d.names[i]| <= b
  }

  lemma OccursFurther(t: string, p: string, n: nat, a: int)
    requires n <= |t| && OccursAt(t[n..], p, a)
    ensures OccursAt(t, p, n + a)
  {
  }

  lemma NoOverlapInRest(t: string, d: Table, own: bool, n: nat)
    requires NoOverlap(t, d, own) && n <= |t|
    ensures NoOverlap(t[n..], d, own)
  {
    forall i, j, a, b | 0 <= i < |d.names| && 0 <= j < |d.names| && (own || i != j)
                        && OccursAt(t[n..], d.names[i], a) && OccursAt(t[n..], d.names[j], b) && a <= b
      ensures (a == b && i == j) || a + |d.names[i]| <= b
    {
      OccursFurther(t, d.names[i], n, a);
      OccursFurther(t, d.names[j], n, b);
    }
  }

  /** Where nothing overlaps every piece is clear. The converse fails: an occurrence may lie across pieces that
      the text is not read into. */
  lemma {:induction false} NoOverlapIsClear(t: string, d: Table, own: bool)
    requires IsTable(d) && NoOverlap(t, d, own)
    ensures IsClear(t, d, own)
    decreases |t|
  {
    if t != "" {
      var k, n := Find(t, d, 0), PieceLength(t, d);
      assert k < |d.names| ==> OccursAt(t, d.names[k], 0);
      forall i, o | 0 <= i < |d.names| && 0 <= o < n && OccursAt(t, d.names[i], o)
        ensures i == k && (o == 0 || !own)
      {
        PrefixOccurs(t, d.names[i], 0);
        assert t[0..] == t;
      }
      NoOverlapInRest(t, d, own, n);
      NoOverlapIsClear(t[n..], d, own);
    }
  }

  ghost predicate Covers(order: seq<nat>, n: nat) {
    (forall i | i in order :: i < n) && forall i: nat | i < n :: i in order
  }

  /** If no placeholder occurrences overlap in the text and every value is apart from every placeholder, the
      passes in any order, repeated or not, are one simultaneous substitution and leave no placeholder. */
  lemma {:induction false} PassesAreSimultaneous(t: string, d: Table, order: seq<nat>)
    requires IsTable(d) && ValuesApart(d) && NoOverlap(t, d, true) && Covers(order, |d.names|)
    ensures Passes(t, d, order) == Simultaneous(t, d)
    ensures forall i | 0 <= i < |d.names| :: !Contains(Passes(t, d, order), d.names[i])
  {
    NoOverlapIsClear(t, d, true);
    PassesFill(t, d, true, order);
    EverythingFilled(t, d, ToSet(order));
    forall i, o | 0 <= i < |d.names| && o >= 0
      ensures !OccursAt(Passes(t, d, order), d.names[i], o)
    {
      NoneLeft(t, d, order, i, o);
    }
  }

  // ----- When the order shows -----

  /** Every pass once. */
  ghost predicate IsOrder(order: seq<nat>, n: nat) {
    Covers(order, n) && NoRepeats(order)
  }

  ghost predicate PrefixFree(d: Table) {
    forall i, j | 0 <= i < |d.names| && 0 <= j < |d.names| && i != j :: !(d.names[i] <= d.names[j])
  }

  /** No value begins as the placeholder it replaces. */
  ghost predicate BeginOtherwise(d: Table)
    requires IsTable(d)
  {
    forall i | 0 <= i < |d.names| :: d.values[i] != "" && d.values[i][0] != d.names[i][0]
  }

  /** A text no placeholder begins keeps its first character through all passes. */
  lemma {:induction false} FirstCharacterStays(t: string, d: Table, order: seq<nat>)
    requires IsTable(d) && ValuesApart(d) && forall i | i in order :: i < |d.names|
    requires t != "" && forall i | 0 <= i < |d.names| :: !(d.names[i] <= t)
    ensures var r := Passes(t, d, order); r != "" && r[0] == t[0]
    decreases |order|
  {
    if order != [] {
      assert order[0] in order && forall i | i in order[1..] :: i in order;
      var p, v := d.names[order[0]], d.values[order[0]];
      var t' := ReplaceAll(t, p, v);
      forall i | 0 <= i < |d.names|
        ensures !(d.names[i] <= t')
      {
        if d.names[i] <= t' {
          var q := d.names[i];
          assert q[0..] == q;
          RestWasThere(t, p, v, q, 0);
        }
      }
      FirstCharacterStays(t', d, order[1..]);
    }
  }

  /** All passes, that of `i` first. */
  function StartingWith(i: nat, n: nat): seq<nat>
    requires i < n
  {
    [i] + seq(n - 1, j requires 0 <= j => if j < i then j else j + 1)
  }

  lemma StartingWithIsOrder(i: nat, n: nat)
    requires i < n
    ensures IsOrder(StartingWith(i, n), n)
  {
    var order := StartingWith(i, n);
    forall j: nat | j < n
      ensures j in order
    {
      assert order[if j == i then 0 else if j < i then j + 1 else j] == j;
    }
  }

  /** The pass of `p` over a text in which it occurs first at `b`. */
  lemma {:induction false} ReplaceFirstAt(t: string, p: string, v: string, b: nat)
    requires p != "" && OccursAt(t, p, b) && forall o | 0 <= o < b :: !OccursAt(t, p, o)
    ensures ReplaceAll(t, p, v) == t[..b] + (v + ReplaceAll(t[b + |p|..], p, v))
  {
    TakeAndDrop(t, b);
    forall o | 0 <= o < |t[..b]|
      ensures !(p <= (t[..b] + t[b..])[o..])
    {
      PrefixOccurs(t, p, o);
    }
    ReplaceSkips(t[..b], t[b..], p, v);
    PrefixOccurs(t, p, b);
    DropTwice(t, b, |p|);
  }

  /** The pass of `q` breaks a placeholder `p` into which it reaches. */
  lemma {:induction false} PassBreaks(t: string, p: string, q: string, w: string, b: nat)
    requires p != "" && q != "" && w != "" && w[0] != q[0]
    requires p <= t && 0 < b < |p| && OccursAt(t, q, b) && forall o | 0 <= o < b :: !OccursAt(t, q, o)
    ensures !(p <= ReplaceAll(t, q, w)) && ReplaceAll(t, q, w) != "" && ReplaceAll(t, q, w)[0] == t[0]
  {
    ReplaceFirstAt(t, q, w, b);
    var r := ReplaceAll(t, q, w);
    assert r[b] == w[0] && p[b] == t[b] == q[0];
  }

  lemma FirstOccurrence(t: string, p: string, o: nat) returns (b: nat)
    requires OccursAt(t, p, o)
    ensures b <= o && OccursAt(t, p, b) && forall a | 0 <= a < b :: !OccursAt(t, p, a)
  {
    b := 0;
    while !OccursAt(t, p, b)
      invariant b <= o && forall a | 0 <= a < b :: !OccursAt(t, p, a)
      decreases o - b
    {
      b := b + 1;
    }
  }

  /** Where a placeholder starts inside the first piece, another placeholder, its pass had better not be first. */
  lemma {:induction false} FirstPieceShows(t: string, d: Table, i: nat, o: nat)
    requires IsTable(d) && ValuesApart(d) && PrefixFree(d) && BeginOtherwise(d)
    requires t != "" && i < |d.names| && i != Find(t, d, 0) && o < PieceLength(t, d) && OccursAt(t, d.names[i], o)
    ensures IsOrder(StartingWith(i, |d.names|), |d.names|)
    ensures Passes(t, d, StartingWith(i, |d.names|)) != Simultaneous(t, d)
  {
    var k, order := Find(t, d, 0), StartingWith(i, |d.names|);
    StartingWithIsOrder(i, |d.names|);
    var q, w := d.names[i], d.values[i];
    PrefixOccurs(t, q, 0);
    assert t[0..] == t;
    var b := FirstOccurrence(t, q, o);
    assert k < |d.names|;
    var p := d.names[k];
    assert b > 0;
    PassBreaks(t, p, q, w, b);
    var t' := ReplaceAll(t, q, w);
    forall j | 0 <= j < |d.names|
      ensures !(d.names[j] <= t')
    {
      if j != k && d.names[j] <= t' {
        assert d.names[j][0..] == d.names[j];
        RestWasThere(t, q, w, d.names[j], 0);
        TwoPrefixes(d.names[j], p, t);
      }
    }
    assert order[0] in order && forall j | j in order[1..] :: j in order;
    FirstCharacterStays(t', d, order[1..]);
    assert Simultaneous(t, d)[0] == d.values[k][0];
  }

  /** If a placeholder starts inside another one that is a piece, some order of the passes shows. */
  lemma {:induction false} SomeOrderShows(t: string, d: Table) returns (order: seq<nat>)
    requires IsTable(d) && ValuesApart(d) && PrefixFree(d) && BeginOtherwise(d) && !IsClear(t, d, false)
    ensures IsOrder(order, |d.names|) && Passes(t, d, order) != Simultaneous(t, d)
    decreases |t|
  {
    if !PieceIsClear(t, d, false) {
      var i, o :| 0 <= i < |d.names| && 0 <= o < PieceLength(t, d) && OccursAt(t, d.names[i], o)
                  && i != Find(t, d, 0);
      FirstPieceShows(t, d, i, o);
      order := StartingWith(i, |d.names|);
    } else {
      var n := PieceLength(t, d);
      order := SomeOrderShows(t[n..], d);
      FirstPieceApart(t, d, false, order);
      var piece := Piece(t, d, ToSet(order));
      assert Simultaneous(t, d) == piece + Simultaneous(t[n..], d);
      assert (piece + Passes(t[n..], d, order))[|piece|..] == Passes(t[n..], d, order);
      assert (piece + Simultaneous(t[n..], d))[|piece|..] == Simultaneous(t[n..], d);
    }
  }

  /** The exact condition: every order of the passes is the simultaneous substitution if and only if no placeholder
      starts inside a piece that is another placeholder. */
  lemma {:induction false} OrderShowsExactly(t: string, d: Table)
    requires IsTable(d) && ValuesApart(d) && PrefixFree(d) && BeginOtherwise(d)
    ensures (forall order | IsOrder(order, |d.names|) :: Passes(t, d, order) == Simultaneous(t, d))
       <==> IsClear(t, d, false)
  {
    if IsClear(t, d, false) {
      forall order | IsOrder(order, |d.names|)
        ensures Passes(t, d, order) == Simultaneous(t, d)
      {
        PassesFill(t, d, false, order);
        EverythingFilled(t, d, ToSet(order));
      }
    } else {
      var order := SomeOrderShows(t, d);
    }
  }
}
