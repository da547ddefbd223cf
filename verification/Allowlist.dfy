/** `config/metrics.py`: who may read the metrics endpoint. */
module Allowlist {
  import opened Context
  import opened Text

  datatype Version = V4 | V6

  function Width(version: Version): nat {
    if version.V4? then 32 else 128
  }

  datatype Address = Address(version: Version, value: nat)

  /** What well-formed CIDR text says; its host bits may be set. */
  datatype Entry = Entry(version: Version, value: nat, prefix: nat)

  /** `ip_network(candidate, strict=False)` */
  datatype Network = Network(version: Version, base: nat, prefix: nat)

  // ----- Bits -----

  function Pow2(n: nat): (p: nat)
    ensures p > 0
  {
    if n == 0 then 1 else 2 * Pow2(n - 1)
  }

  /** `a & b` */
  function And(a: nat, b: nat): nat {
    if a == 0 || b == 0 then 0 else (if a % 2 == 1 && b % 2 == 1 then 1 else 0) + 2 * And(a / 2, b / 2)
  }

  lemma {:induction false} Pow2Grows(n: nat, m: nat)
    requires n <= m
    ensures Pow2(n) <= Pow2(m)
  {
    if n < m {
      Pow2Grows(n, m - 1);
    }
  }

  /** A netmask: `prefix` ones followed by zeros, `width` bits in all. */
  function Mask(width: nat, prefix: nat): nat
    requires prefix <= width
  {
    Pow2Grows(width - prefix, width);
    Pow2(width) - Pow2(width - prefix)
  }

  lemma {:induction false} AndAllOnes(x: nat, width: nat)
    requires x < Pow2(width)
    ensures And(x, Pow2(width) - 1) == x
  {
    if x > 0 {
      var ones := Pow2(width) - 1;
      assert width > 0 && ones == 2 * (Pow2(width - 1) - 1) + 1;
      assert ones / 2 == Pow2(width - 1) - 1 && ones % 2 == 1;
      AndAllOnes(x / 2, width - 1);
    }
  }

  /** The last `h` bits of `x`. */
  function LastBits(x: nat, h: nat): (r: nat)
    ensures r <= x && r < Pow2(h)
  {
    if h == 0 then 0 else x % 2 + 2 * LastBits(x / 2, h - 1)
  }

  lemma {:induction false} AndDouble(x: nat, half: nat)
    ensures And(x, 2 * half) == 2 * And(x / 2, half)
  {
  }

  lemma {:induction false} MaskDouble(width: nat, prefix: nat)
    requires prefix < width
    ensures Mask(width, prefix) == 2 * Mask(width - 1, prefix)
  {
  }

  /** Masking clears the host bits and nothing else. */
  lemma {:induction false} AndMask(x: nat, width: nat, prefix: nat)
    requires prefix <= width && x < Pow2(width)
    ensures And(x, Mask(width, prefix)) == x - LastBits(x, width - prefix)
    decreases width - prefix
  {
    if prefix == width {
      AndAllOnes(x, width);
    } else {
      MaskDouble(width, prefix);
      AndDouble(x, Mask(width - 1, prefix));
      assert x / 2 < Pow2(width - 1);
      AndMask(x / 2, width - 1, prefix);
      assert x == x % 2 + 2 * (x / 2);
    }
  }

  /** Two numbers agree but for their last bits exactly when one is in the aligned interval around the other. */
  lemma {:induction false} SameBlock(a: nat, v: nat, h: nat)
    ensures a - LastBits(a, h) == v - LastBits(v, h)
       <==> v - LastBits(v, h) <= a < v - LastBits(v, h) + Pow2(h)
  {
    if h > 0 {
      SameBlock(a / 2, v / 2, h - 1);
    }
  }

  // ----- Networks -----

  ghost predicate IsAddress(a: Address) {
    a.value < Pow2(Width(a.version))
  }

  ghost predicate IsEntry(e: Entry) {
    e.prefix <= Width(e.version) && e.value < Pow2(Width(e.version))
  }

  function NetworkOf(e: Entry): Network
    requires e.prefix <= Width(e.version)
  {
    Network(e.version, And(e.value, Mask(Width(e.version), e.prefix)), e.prefix)
  }

  /** `address in network` */
  predicate InNetwork(a: Address, n: Network)
    requires n.prefix <= Width(n.version)
  {
    a.version == n.version && And(a.value, Mask(Width(n.version), n.prefix)) == n.base
  }

  /** The block of section 3.1 of RFC 4632 and section 2.3 of RFC 4291: the addresses whose first `prefix` bits
      are those of the entry. */
  ghost predicate InBlock(a: Address, e: Entry)
    requires IsEntry(e)
  {
    var h := (if e.version.V4? then 32 else 128) - e.prefix;
    var base := e.value - LastBits(e.value, h);
    a.version == e.version && base <= a.value <= base + Pow2(h) - 1
  }

  lemma {:induction false} MaskedAlike(a: nat, v: nat, width: nat, prefix: nat)
    requires prefix <= width && a < Pow2(width) && v < Pow2(width)
    ensures var base := v - LastBits(v, width - prefix);
            And(a, Mask(width, prefix)) == And(v, Mask(width, prefix))
            <==> base <= a <= base + Pow2(width - prefix) - 1
  {
    AndMask(a, width, prefix);
    AndMask(v, width, prefix);
    SameBlock(a, v, width - prefix);
  }

  lemma {:induction false} MembershipOfWidth(a: Address, e: Entry, width: nat)
    requires width == Width(e.version) && a.version == e.version && e.prefix <= width
    requires a.value < Pow2(width) && e.value < Pow2(width)
    ensures InNetwork(a, NetworkOf(e)) <==> InBlock(a, e)
  {
    MaskedAlike(a.value, e.value, width, e.prefix);
  }

  lemma {:induction false} MembershipIsInterval(a: Address, e: Entry)
    requires IsAddress(a) && IsEntry(e)
    ensures InNetwork(a, NetworkOf(e)) <==> InBlock(a, e)
  {
    if a.version == e.version {
      MembershipOfWidth(a, e, Width(e.version));
    }
  }

  // ----- The setting -----

  /** The setting is either one text or a list of texts. */
  datatype Setting = Line(text: string) | Items(parts: seq<string>)

  function CommaEnd(s: string): (n: nat)
    ensures n <= |s| && ',' !in s[..n] && (n < |s| ==> s[n] == ',')
  {
    if s == "" || s[0] == ',' then 0
    else
      var n := 1 + CommaEnd(s[1..]);
      assert s[..n] == [s[0]] + s[1..][..n - 1];
      n
  }

  /** `s.split(",")` */
  function SplitCommas(s: string): (parts: seq<string>)
    ensures |parts| > 0
    decreases |s|
  {
    var n := CommaEnd(s);
    if n == |s| then [s] else [s[..n]] + SplitCommas(s[n + 1..])
  }

  function StrippedParts(parts: seq<string>): seq<string> {
    if parts == [] then []
    else (if Strip(parts[0]) != "" then [Strip(parts[0])] else []) + StrippedParts(parts[1..])
  }

  function Candidates(setting: Setting): seq<string> {
    StrippedParts(if setting.Line? then SplitCommas(setting.text) else setting.parts)
  }

  /** Parsing of CIDR text is not part of this model: `parse` stands for it. */
  ghost predicate IsParser(parse: string -> Option<Entry>) {
    forall s: string | parse(s).Some? :: IsEntry(parse(s).value)
  }

  /** The networks of the well-formed candidates, in their order. */
  function NetworksOf(candidates: seq<string>, parse: string -> Option<Entry>): (networks: seq<Network>)
    requires forall s: string | parse(s).Some? :: parse(s).value.prefix <= Width(parse(s).value.version)
    ensures forall n | n in networks :: n.prefix <= Width(n.version)
  {
    if candidates == [] then []
    else
      var last := |candidates| - 1;
      NetworksOf(candidates[..last], parse)
      + if parse(candidates[last]).Some? then [NetworkOf(parse(candidates[last]).value)] else []
  }

  lemma {:induction false} NetworksOfWellFormed(candidates: seq<string>, parse: string -> Option<Entry>, n: Network)
    requires IsParser(parse)
    ensures n in NetworksOf(candidates, parse)
       <==> exists c | c in candidates :: parse(c).Some? && n == NetworkOf(parse(c).value)
  {
    if candidates != [] {
      var last := |candidates| - 1;
      NetworksOfWellFormed(candidates[..last], parse, n);
      assert candidates == candidates[..last] + [candidates[last]];
    }
  }

  /** `_parse_allowed_networks`: malformed candidates are passed over. */
  method ParseAllowedNetworks(setting: Setting, parse: string -> Option<Entry>) returns (networks: seq<Network>)
    requires IsParser(parse)
    ensures networks == NetworksOf(Candidates(setting), parse)
    ensures forall n :: n in networks
              <==> exists c | c in Candidates(setting) :: parse(c).Some? && n == NetworkOf(parse(c).value)
  {
    var candidates := Candidates(setting);
    networks := [];
    for i := 0 to |candidates|
      invariant networks == NetworksOf(candidates[..i], parse)
    {
      assert candidates[..i + 1][..i] == candidates[..i];
      var entry := parse(candidates[i]);
      if entry.Some? {
        networks := networks + [NetworkOf(entry.value)];
      }
    }
    assert candidates[..|candidates|] == candidates;
    forall n {
      NetworksOfWellFormed(candidates, parse, n);
    }
  }

  /** Some network of the setting holds the address: the decision of the last line of `has_permission`. */
  predicate Admits(a: Address, networks: seq<Network>)
    requires forall n | n in networks :: n.prefix <= Width(n.version)
  {
    exists i | 0 <= i < |networks| :: InNetwork(a, networks[i])
  }

  /** Some well-formed candidate of the setting covers the address. */
  ghost predicate Covered(a: Address, setting: Setting, parse: string -> Option<Entry>)
    requires IsParser(parse)
  {
    exists c | c in Candidates(setting) :: parse(c).Some? && InBlock(a, parse(c).value)
  }

  /** The networks of a setting together hold exactly the union of its intervals. */
  lemma {:induction false} AdmitsTheUnion(a: Address, setting: Setting, parse: string -> Option<Entry>)
    requires IsParser(parse) && IsAddress(a)
    ensures Admits(a, NetworksOf(Candidates(setting), parse)) <==> Covered(a, setting, parse)
  {
    var networks := NetworksOf(Candidates(setting), parse);
    forall c: string | parse(c).Some?
      ensures InNetwork(a, NetworkOf(parse(c).value)) <==> InBlock(a, parse(c).value)
    {
      MembershipIsInterval(a, parse(c).value);
    }
    if Admits(a, networks) {
      var i :| 0 <= i < |networks| && InNetwork(a, networks[i]);
      NetworksOfWellFormed(Candidates(setting), parse, networks[i]);
    }
    if Covered(a, setting, parse) {
      var c :| c in Candidates(setting) && parse(c).Some? && InBlock(a, parse(c).value);
      NetworksOfWellFormed(Candidates(setting), parse, NetworkOf(parse(c).value));
    }
  }

  /** The text of the address a request comes from: the first forwarded one, if any was forwarded. */
  function ClientText(forwardedFor: string, remote: string): string {
    Strip(if forwardedFor != "" then SplitCommas(forwardedFor)[0] else remote)
  }

  /** `_get_client_ip`; like `parse`, `parseAddress` stands for the parsing of address text. */
  function ClientAddress(forwardedFor: string, remote: string, parseAddress: string -> Option<Address>)
    : Option<Address>
  {
    var raw := ClientText(forwardedFor, remote);
    if raw == "" then None else parseAddress(raw)
  }

  /** `text` begins with `first`, up to its first comma if it has one. */
  predicate IsUpToComma(text: string, first: string) {
    first <= text && ',' !in first && (|first| < |text| ==> text[|first|] == ',')
  }

  lemma {:induction false} CommaEndOfPart(part: string, rest: string)
    requires ',' !in part && (rest == "" || rest[0] == ',')
    ensures CommaEnd(part + rest) == |part|
  {
    if part == "" {
      assert part + rest == rest;
    } else {
      assert part[0] in part && forall c | c in part[1..] :: c in part;
      CommaEndOfPart(part[1..], rest);
      assert (part + rest)[1..] == part[1..] + rest;
    }
  }

  /** The first part of a split is that part of the text. */
  lemma {:induction false} FirstOfSplit(text: string, first: string)
    ensures SplitCommas(text)[0] == first <==> IsUpToComma(text, first)
  {
    var n := CommaEnd(text);
    assert text[..|text|] == text && IsUpToComma(text, text[..n]);
    if IsUpToComma(text, first) {
      var rest := text[|first|..];
      assert text == first + rest;
      CommaEndOfPart(first, rest);
      assert text[..|first|] == first;
    }
  }

  /** The text, without padding, is that of an address in one of the blocks of the setting. */
  ghost predicate IsListed(text: string, setting: Setting, parse: string -> Option<Entry>,
                           parseAddress: string -> Option<Address>)
    requires IsParser(parse)
  {
    var stripped := Strip(text);
    stripped != "" && parseAddress(stripped).Some? && Covered(parseAddress(stripped).value, setting, parse)
  }

  /** `InternalMetricsPermission.has_permission`: with metrics on it holds exactly for callers that present the
      configured token and for addresses in the union of the blocks of the well-formed entries. The address is the
      first forwarded one, whatever follows it, or without a forwarded one the peer's. */
  method HasPermission(enabled: bool, token: string, provided: string, forwardedFor: string, remote: string,
                       setting: Setting, parse: string -> Option<Entry>, parseAddress: string -> Option<Address>)
    returns (allowed: bool)
    requires IsParser(parse) && forall s: string | parseAddress(s).Some? :: IsAddress(parseAddress(s).value)
    ensures !enabled || (token != "" && token == provided) ==> allowed
    ensures enabled && !(token != "" && token == provided) && forwardedFor == "" ==>
              (allowed <==> IsListed(remote, setting, parse, parseAddress))
    ensures enabled && !(token != "" && token == provided) && forwardedFor != "" ==>
              forall first | IsUpToComma(forwardedFor, first) ::
                allowed <==> IsListed(first, setting, parse, parseAddress)
  {
    if forwardedFor != "" {
      forall first | IsUpToComma(forwardedFor, first)
        ensures SplitCommas(forwardedFor)[0] == first
      {
        FirstOfSplit(forwardedFor, first);
      }
    }
    if !enabled || (token != "" && provided != "" && token == provided) {
      return true;
    }
    var client := ClientAddress(forwardedFor, remote, parseAddress);
    if client.None? {
      return false;
    }
    var networks := ParseAllowedNetworks(setting, parse);
    allowed := Admits(client.value, networks);
    AdmitsTheUnion(client.value, setting, parse);
  }

  /** Order and duplicates do not matter, nor do malformed entries: settings with the same well-formed candidates
      have the same networks and admit the same addresses. */
  lemma {:induction false} OnlyWellFormedEntriesMatter(s: Setting, t: Setting, parse: string -> Option<Entry>)
    requires IsParser(parse)
    requires forall c: string | parse(c).Some? :: c in Candidates(s) <==> c in Candidates(t)
    ensures forall n :: n in NetworksOf(Candidates(s), parse) <==> n in NetworksOf(Candidates(t), parse)
    ensures forall a | IsAddress(a) ::
              Admits(a, NetworksOf(Candidates(s), parse)) <==> Admits(a, NetworksOf(Candidates(t), parse))
  {
    forall n
      ensures n in NetworksOf(Candidates(s), parse) <==> n in NetworksOf(Candidates(t), parse)
    {
      NetworksOfWellFormed(Candidates(s), parse, n);
      NetworksOfWellFormed(Candidates(t), parse, n);
    }
    forall a | IsAddress(a)
      ensures Admits(a, NetworksOf(Candidates(s), parse)) <==> Admits(a, NetworksOf(Candidates(t), parse))
    {
      AdmitsTheUnion(a, s, parse);
      AdmitsTheUnion(a, t, parse);
    }
  }

  /** `",".join(parts)` */
  function Join(parts: seq<string>): string {
    if parts == [] then "" else if |parts| == 1 then parts[0] else parts[0] + "," + Join(parts[1..])
  }

  lemma {:induction false} SplitOfJoin(parts: seq<string>)
    requires parts != [] && forall i | 0 <= i < |parts| :: ',' !in parts[i]
    ensures SplitCommas(Join(parts)) == parts
    decreases |parts|
  {
    if |parts| == 1 {
      CommaEndOfPart(parts[0], "");
      assert parts[0] + "" == parts[0];
    } else {
      var rest := "," + Join(parts[1..]);
      CommaEndOfPart(parts[0], rest);
      SplitOfJoin(parts[1..]);
      assert Join(parts) == parts[0] + rest;
      assert (parts[0] + rest)[|parts[0]| + 1..] == Join(parts[1..]);
    }
  }

  lemma {:induction false} SplitPartsHaveNoComma(s: string)
    ensures forall part | part in SplitCommas(s) :: ',' !in part
    decreases |s|
  {
    var n := CommaEnd(s);
    if n == |s| {
      assert s[..n] == s;
    } else {
      SplitPartsHaveNoComma(s[n + 1..]);
    }
  }

  lemma {:induction false} StrippedFrom(parts: seq<string>, c: string)
    ensures c in StrippedParts(parts) <==> c != "" && exists part | part in parts :: c == Strip(part)
  {
    if parts != [] {
      StrippedFrom(parts[1..], c);
      assert parts == [parts[0]] + parts[1..];
    }
  }

  lemma {:induction false} CommaSurvivesStripLeft(s: string)
    ensures ',' in s <==> ',' in StripLeft(s)
  {
    if s != "" && IsSpace(s[0]) {
      CommaSurvivesStripLeft(s[1..]);
      assert s == [s[0]] + s[1..];
    }
  }

  lemma {:induction false} CommaSurvivesStripRight(s: string)
    ensures ',' in s <==> ',' in StripRight(s)
    decreases |s|
  {
    if s != "" && IsSpace(s[|s| - 1]) {
      CommaSurvivesStripRight(s[..|s| - 1]);
      assert s == s[..|s| - 1] + [s[|s| - 1]];
    }
  }

  lemma CommaSurvivesStrip(s: string)
    ensures ',' in s <==> ',' in Strip(s)
  {
    CommaSurvivesStripLeft(s);
    CommaSurvivesStripRight(StripLeft(s));
  }

  /** A part with a comma is one candidate of the list, and no candidate of the line. */
  lemma {:induction false} PartWithComma(parts: seq<string>, part: string)
    requires part in parts && ',' in part
    ensures Candidates(Line(Join(parts))) != Candidates(Items(parts))
  {
    var split := SplitCommas(Join(parts));
    CommaSurvivesStrip(part);
    StrippedFrom(parts, Strip(part));
    StrippedFrom(split, Strip(part));
    SplitPartsHaveNoComma(Join(parts));
    forall other | other in split
      ensures Strip(other) != Strip(part)
    {
      CommaSurvivesStrip(other);
    }
    assert Strip(part) in StrippedParts(parts) && Strip(part) !in StrippedParts(split);
  }

  /** A list of texts and its comma-separated line give the same candidates if and only if no text of the list has
      a comma. */
  lemma {:induction false} LineAndListAgree(parts: seq<string>)
    ensures Candidates(Line(Join(parts))) == Candidates(Items(parts))
       <==> forall i | 0 <= i < |parts| :: ',' !in parts[i]
  {
    if i :| 0 <= i < |parts| && ',' in parts[i] {
      PartWithComma(parts, parts[i]);
    } else if parts == [] {
      assert SplitCommas("") == [""] && [""][1..] == [];
    } else {
      SplitOfJoin(parts);
    }
  }
}
