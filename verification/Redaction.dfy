/** `_redact_value` and `_redact_sensitive_fields`: what a log record keeps of the values it was given. */
module Redaction {
  import opened Text
  import Bearer

  /** A logged value. A dict lists its entries in insertion order; `Other` is any value that is no dict,
      list, tuple or string, and stands for itself. */
  datatype Value =
    | Dict(entries: seq<Entry>)
    | List(items: seq<Value>)
    | Tuple(items: seq<Value>)
    | Str(text: string)
    | Other(id: int)

  datatype Entry = Entry(key: string, value: Value)

  const MARKERS: seq<string> := ["password", "secret", "token", "authorization", "api_key", "access", "refresh"]

  predicate IsSensitive(key: string) {
    exists i | 0 <= i < |MARKERS| :: Contains(Lower(key), MARKERS[i])
  }

  /** A marker in any mix of cases, anywhere in a key, makes the key sensitive. */
  lemma MarkerInAnyCase(before: string, marker: string, after: string)
    requires Lower(marker) in MARKERS
    ensures IsSensitive(before + marker + after)
  {
    var key := before + marker + after;
    LowerJoin(before + marker, after);
    LowerJoin(before, marker);
    var a, m, b := Lower(before), Lower(marker), Lower(after);
    assert Lower(key) == a + m + b;
    assert (a + m + b)[|a|..|a| + |m|] == m;
    assert OccursAt(Lower(key), m, |a|);
    var i :| 0 <= i < |MARKERS| && MARKERS[i] == m;
    assert Contains(Lower(key), MARKERS[i]);
  }

  /** Text that is not cut out of the middle of what one character lowers to: only U+0130 lowers to two characters,
      an "i" and U+0307. */
  predicate IsWhole(text: string) {
    text != "" && text[|text| - 1] != 'i' && forall i | 0 <= i < |text| :: text[i] != '\U{307}'
  }

  lemma MarkersAreWhole(i: nat)
    requires i < |MARKERS|
    ensures IsWhole(MARKERS[i])
  {
  }

  lemma LowerStarts(s: string)
    requires s != ""
    ensures Lower(s) == LowerChar(s[0]) + Lower(s[1..])
    ensures var first := LowerChar(s[0]);
            |first| == 1 || (|first| == 2 && first[0] == 'i' && first[1] == '\U{307}')
  {
  }

  lemma {:induction false} LoweredBeginning(s: string, text: string) returns (n: nat)
    requires text <= Lower(s) && (text == "" || IsWhole(text))
    ensures n <= |s| && Lower(s[..n]) == text
  {
    if text == "" {
      n := 0;
    } else {
      LowerStarts(s);
      assert text[0] == Lower(s)[0] && (|text| > 1 ==> text[1] == Lower(s)[1]);
      assert |LowerChar(s[0])| == 1;
      assert Lower(s)[1..] == Lower(s[1..]);
      var more := LoweredBeginning(s[1..], text[1..]);
      n := more + 1;
      LowerStarts(s[..n]);
      assert s[..n][1..] == s[1..][..more];
      assert [text[0]] + text[1..] == text;
    }
  }

  lemma OccursInRest(a: string, b: string, text: string, o: nat)
    requires OccursAt(a + b, text, o) && |a| <= o
    ensures OccursAt(b, text, o - |a|)
  {
    assert (a + b)[o..o + |text|] == b[o - |a|..o - |a| + |text|];
  }

  lemma OccursFromHead(a: string, b: string, text: string, o: nat)
    requires OccursAt(a + b, text, o) && o < |a| && text != ""
    ensures text[0] == a[o] && (o == 0 ==> text <= a + b)
  {
    assert (a + b)[o..o + |text|][0] == (a + b)[o] == a[o];
  }

  lemma SliceOfRest(s: string, a: nat, b: nat)
    requires s != "" && a <= b < |s|
    ensures s[1..][a..b] == s[a + 1..b + 1]
  {
  }

  lemma {:induction false} NotInsideCharacter(c: char, rest: string, text: string, o: nat)
    requires OccursAt(LowerChar(c) + rest, text, o) && IsWhole(text) && o < |LowerChar(c)|
    ensures o == 0 && text <= LowerChar(c) + rest
  {
    OccursFromHead(LowerChar(c), rest, text, o);
  }

  lemma {:induction false} LoweredInRest(s: string, text: string, o: nat)
    requires s != "" && OccursAt(Lower(s), text, o) && |LowerChar(s[0])| <= o
    ensures OccursAt(Lower(s[1..]), text, o - |LowerChar(s[0])|)
  {
    OccursInRest(LowerChar(s[0]), Lower(s[1..]), text, o);
  }

  lemma {:induction false} LoweredAtHead(s: string, text: string, o: nat) returns (n: nat)
    requires s != "" && OccursAt(Lower(s), text, o) && IsWhole(text) && o < |LowerChar(s[0])|
    ensures n <= |s| && Lower(s[0..n]) == text
  {
    NotInsideCharacter(s[0], Lower(s[1..]), text, o);
    n := LoweredBeginning(s, text);
    assert s[0..n] == s[..n];
  }

  lemma {:induction false} LoweredPart(s: string, text: string, o: nat) returns (a: nat, b: nat)
    requires OccursAt(Lower(s), text, o) && IsWhole(text)
    ensures a <= b <= |s| && Lower(s[a..b]) == text
    decreases |s|
  {
    assert s != "";
    if |LowerChar(s[0])| <= o {
      LoweredInRest(s, text, o);
      var c, d := LoweredPart(s[1..], text, o - |LowerChar(s[0])|);
      SliceOfRest(s, c, d);
      a, b := c + 1, d + 1;
    } else {
      a := 0;
      b := LoweredAtHead(s, text, o);
    }
  }

  ghost predicate HoldsMarker(key: string, before: string, marker: string, after: string) {
    key == before + marker + after && Lower(marker) in MARKERS
  }

  lemma {:induction false} SensitiveHoldsMarker(key: string) returns (before: string, marker: string, after: string)
    requires IsSensitive(key)
    ensures HoldsMarker(key, before, marker, after)
  {
    var i :| 0 <= i < |MARKERS| && Contains(Lower(key), MARKERS[i]);
    var text := MARKERS[i];
    var o :| 0 <= o <= |Lower(key)| && OccursAt(Lower(key), text, o);
    MarkersAreWhole(i);
    var a, b := LoweredPart(key, text, o);
    before, marker, after := key[..a], key[a..b], key[b..];
    CutInThree(key, a, b);
  }

  lemma CutInThree(s: string, a: nat, b: nat)
    requires a <= b <= |s|
    ensures s == s[..a] + s[a..b] + s[b..]
  {
  }

  /** A key is sensitive exactly when it holds a marker, in any mix of cases. */
  lemma {:induction false} SensitiveExactly(key: string)
    ensures IsSensitive(key) <==> exists before, marker, after :: HoldsMarker(key, before, marker, after)
  {
    if IsSensitive(key) {
      var before, marker, after := SensitiveHoldsMarker(key);
    } else if before, marker, after :| HoldsMarker(key, before, marker, after) {
      MarkerInAnyCase(before, marker, after);
    }
  }

  function Redact(v: Value, hint: string): Value
    decreases v, 1
  {
    if IsSensitive(hint) then Str(Bearer.MASK)
    else match v
      case Dict(entries) => Dict(RedactEntries(entries))
      case List(items) => List(RedactItems(items, hint))
      case Tuple(items) => Tuple(RedactItems(items, hint))
      case Str(text) => Str(Bearer.Sub(text))
      case Other(_) => v
  }

  function RedactItems(vs: seq<Value>, hint: string): seq<Value>
    decreases vs, 0
  {
    if vs == [] then [] else [Redact(vs[0], hint)] + RedactItems(vs[1..], hint)
  }

  function RedactEntries(es: seq<Entry>): seq<Entry>
    decreases es, 0
  {
    if es == [] then [] else [Entry(es[0].key, Redact(es[0].value, es[0].key))] + RedactEntries(es[1..])
  }

  // ----- What redaction leaves alone -----

  /** Nothing in `v` is left to redact. */
  ghost predicate IsClean(v: Value, hint: string)
    decreases v, 1
  {
    if IsSensitive(hint) then v == Str(Bearer.MASK)
    else match v
      case Dict(entries) => forall i | 0 <= i < |entries| :: IsClean(entries[i].value, entries[i].key)
      case List(items) => forall i | 0 <= i < |items| :: IsClean(items[i], hint)
      case Tuple(items) => forall i | 0 <= i < |items| :: IsClean(items[i], hint)
      case Str(text) => Bearer.Covered(text)
      case Other(_) => true
  }

  lemma {:induction false} ItemsOf(vs: seq<Value>, hint: string)
    ensures |RedactItems(vs, hint)| == |vs|
    ensures forall i | 0 <= i < |vs| :: RedactItems(vs, hint)[i] == Redact(vs[i], hint)
  {
    if vs != [] {
      ItemsOf(vs[1..], hint);
    }
  }

  lemma {:induction false} EntriesOf(es: seq<Entry>)
    ensures |RedactEntries(es)| == |es|
    ensures forall i | 0 <= i < |es| :: RedactEntries(es)[i] == Entry(es[i].key, Redact(es[i].value, es[i].key))
  {
    if es != [] {
      EntriesOf(es[1..]);
    }
  }

  /** Redaction leaves nothing to redact. */
  lemma {:induction false} RedactedIsClean(v: Value, hint: string)
    ensures IsClean(Redact(v, hint), hint)
    decreases v
  {
    if !IsSensitive(hint) {
      match v
      case Dict(entries) =>
        EntriesOf(entries);
        forall i | 0 <= i < |entries| { RedactedIsClean(entries[i].value, entries[i].key); }
      case List(items) =>
        ItemsOf(items, hint);
        forall i | 0 <= i < |items| { RedactedIsClean(items[i], hint); }
      case Tuple(items) =>
        ItemsOf(items, hint);
        forall i | 0 <= i < |items| { RedactedIsClean(items[i], hint); }
      case Str(text) => Bearer.OutputIsCovered(text);
      case Other(_) =>
    }
  }

  /** The values redaction leaves alone are exactly the clean ones. */
  lemma {:induction false} UnchangedExactlyWhenClean(v: Value, hint: string)
    ensures Redact(v, hint) == v <==> IsClean(v, hint)
    decreases v
  {
    RedactedIsClean(v, hint);
    if IsClean(v, hint) && !IsSensitive(hint) {
      match v
      case Dict(entries) =>
        EntriesOf(entries);
        forall i | 0 <= i < |entries| { UnchangedExactlyWhenClean(entries[i].value, entries[i].key); }
        assert RedactEntries(entries) == entries;
      case List(items) =>
        ItemsOf(items, hint);
        forall i | 0 <= i < |items| { UnchangedExactlyWhenClean(items[i], hint); }
        assert RedactItems(items, hint) == items;
      case Tuple(items) =>
        ItemsOf(items, hint);
        forall i | 0 <= i < |items| { UnchangedExactlyWhenClean(items[i], hint); }
        assert RedactItems(items, hint) == items;
      case Str(text) => Bearer.CoveredIsFixed(text);
      case Other(_) =>
    }
  }

  lemma RedactIdempotent(v: Value, hint: string)
    ensures Redact(Redact(v, hint), hint) == Redact(v, hint)
  {
    RedactedIsClean(v, hint);
    UnchangedExactlyWhenClean(Redact(v, hint), hint);
  }

  // ----- Secrecy -----

  /** `v` and `w` differ at most under sensitive keys and inside the tokens of leftmost Bearer matches. */
  ghost predicate SameExposed(v: Value, w: Value, hint: string)
    decreases v, 1
  {
    IsSensitive(hint) ||
    match (v, w)
      case (Dict(es), Dict(fs)) => SameExposedEntries(es, fs)
      case (List(vs), List(ws)) => SameExposedItems(vs, ws, hint)
      case (Tuple(vs), Tuple(ws)) => SameExposedItems(vs, ws, hint)
      case (Str(s), Str(t)) => Bearer.SameButTokens(s, t)
      case (Other(a), Other(b)) => a == b
      case _ => false
  }

  ghost predicate SameExposedItems(vs: seq<Value>, ws: seq<Value>, hint: string)
    decreases vs, 0
  {
    if vs == [] || ws == [] then vs == ws
    else SameExposed(vs[0], ws[0], hint) && SameExposedItems(vs[1..], ws[1..], hint)
  }

  ghost predicate SameExposedEntries(es: seq<Entry>, fs: seq<Entry>)
    decreases es, 0
  {
    if es == [] || fs == [] then es == fs
    else
      && es[0].key == fs[0].key
      && SameExposed(es[0].value, fs[0].value, es[0].key)
      && SameExposedEntries(es[1..], fs[1..])
  }

  /** Redaction hides the sensitive parts completely and nothing else: two values, nested to any depth,
      have the same redaction exactly when they differ in sensitive parts only. */
  lemma {:induction false} RedactHidesExactlySecrets(v: Value, w: Value, hint: string)
    ensures Redact(v, hint) == Redact(w, hint) <==> SameExposed(v, w, hint)
    decreases v, 1
  {
    if !IsSensitive(hint) {
      match (v, w)
      case (Dict(es), Dict(fs)) => RedactEntriesHidesExactlySecrets(es, fs);
      case (List(vs), List(ws)) => RedactItemsHidesExactlySecrets(vs, ws, hint);
      case (Tuple(vs), Tuple(ws)) => RedactItemsHidesExactlySecrets(vs, ws, hint);
      case (Str(s), Str(t)) => Bearer.SubHidesExactlyTokens(s, t);
      case _ =>
    }
  }

  lemma {:induction false} RedactItemsHidesExactlySecrets(vs: seq<Value>, ws: seq<Value>, hint: string)
    ensures RedactItems(vs, hint) == RedactItems(ws, hint) <==> SameExposedItems(vs, ws, hint)
    decreases vs, 0
  {
    if vs != [] && ws != [] {
      RedactHidesExactlySecrets(vs[0], ws[0], hint);
      RedactItemsHidesExactlySecrets(vs[1..], ws[1..], hint);
      var a, b := RedactItems(vs, hint), RedactItems(ws, hint);
      assert a[1..] == RedactItems(vs[1..], hint) && b[1..] == RedactItems(ws[1..], hint);
      assert a == [a[0]] + a[1..] && b == [b[0]] + b[1..];
    }
  }

  lemma {:induction false} RedactEntriesHidesExactlySecrets(es: seq<Entry>, fs: seq<Entry>)
    ensures RedactEntries(es) == RedactEntries(fs) <==> SameExposedEntries(es, fs)
    decreases es, 0
  {
    if es != [] && fs != [] {
      RedactHidesExactlySecrets(es[0].value, fs[0].value, es[0].key);
      RedactEntriesHidesExactlySecrets(es[1..], fs[1..]);
      var a, b := RedactEntries(es), RedactEntries(fs);
      assert a[1..] == RedactEntries(es[1..]) && b[1..] == RedactEntries(fs[1..]);
      assert a == [a[0]] + a[1..] && b == [b[0]] + b[1..];
      assert a[0].key == es[0].key && b[0].key == fs[0].key;
    }
  }

  // ----- Event dicts -----

  function RedactedFields(fields: map<string, Value>): map<string, Value> {
    map key | key in fields :: Redact(fields[key], key)
  }

  /** A mutable Python dict with string keys: `order` is its insertion order. */
  class EventDict {
    var order: seq<string>
    var fields: map<string, Value>

    ghost predicate Valid()
      reads this
    {
      && (forall i, j | 0 <= i < j < |order| :: order[i] != order[j])
      && (forall key :: key in order <==> key in fields)
    }

    constructor ()
      ensures Valid() && fields == map[]
    {
      order, fields := [], map[];
    }

    /** `event_dict[key] = value` */
    method Set(key: string, value: Value)
      requires Valid()
      modifies this
      ensures Valid() && fields == old(fields)[key := value]
      ensures order == if key in old(fields) then old(order) else old(order) + [key]
    {
      if key !in fields {
        order := order + [key];
      }
      fields := fields[key := value];
    }

    /** `_redact_sensitive_fields`: every field is redacted under its own key, in place. */
    method RedactSensitiveFields()
      requires Valid()
      modifies this
      ensures Valid() && order == old(order)
      ensures fields == RedactedFields(old(fields))
    {
      var keys := order;
      ghost var before := fields;
      var i := 0;
      while i < |keys|
        invariant 0 <= i <= |keys|
        invariant Valid() && order == keys && fields.Keys == before.Keys
        invariant fields == RedactedUnder(before, keys[..i])
      {
        var key := keys[i];
        assert key in fields;
        RedactOneMore(before, keys, i);
        Set(key, Redact(fields[key], key));
        i := i + 1;
      }
      assert keys[..i] == keys;
      assert forall key | key in before :: key in keys;
    }
  }

  /** The fields when only those under `keys` have been redacted. */
  ghost function RedactedUnder(fields: map<string, Value>, keys: seq<string>): map<string, Value> {
    map key | key in fields :: if key in keys then Redact(fields[key], key) else fields[key]
  }

  lemma RedactOneMore(fields: map<string, Value>, keys: seq<string>, i: nat)
    requires i < |keys| && keys[i] in fields
    requires forall j, k | 0 <= j < k < |keys| :: keys[j] != keys[k]
    ensures RedactedUnder(fields, keys[..i])[keys[i]] == fields[keys[i]]
    ensures RedactedUnder(fields, keys[..i])[keys[i] := Redact(fields[keys[i]], keys[i])]
         == RedactedUnder(fields, keys[..i + 1])
  {
  }

  /** Two events give the same record exactly when they have the same fields and each field differs in
      sensitive parts only. */
  lemma EventHidesExactlySecrets(a: map<string, Value>, b: map<string, Value>)
    ensures RedactedFields(a) == RedactedFields(b)
       <==> a.Keys == b.Keys && forall key | key in a && key in b :: SameExposed(a[key], b[key], key)
  {
    forall key | key in a && key in b
      ensures Redact(a[key], key) == Redact(b[key], key) <==> SameExposed(a[key], b[key], key)
    {
      RedactHidesExactlySecrets(a[key], b[key], key);
    }
    var ra, rb := RedactedFields(a), RedactedFields(b);
    assert ra.Keys == a.Keys && rb.Keys == b.Keys;
    if ra == rb {
      forall key | key in a && key in b
        ensures SameExposed(a[key], b[key], key)
      {
        assert ra[key] == rb[key];
      }
    }
  }

  /** Redacting a record again changes nothing. */
  lemma EventRedactionIdempotent(fields: map<string, Value>)
    ensures RedactedFields(RedactedFields(fields)) == RedactedFields(fields)
  {
    forall key | key in fields
      ensures Redact(Redact(fields[key], key), key) == Redact(fields[key], key)
    {
      RedactIdempotent(fields[key], key);
    }
  }
}
