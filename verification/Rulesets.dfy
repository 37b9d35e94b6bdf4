/** Rule lists: their normal form and the six outputs made from it. */
module Rulesets {
  import opened Wrappers
  import opened Text

  datatype Output = Surge | QuanX | ClashDomain | ClashIpCidr | SurgeDomainSet | ClashClassical

  // ---------------------------------------------------------------- the normal form

  /** `split("//").next()`. */
  function BeforeComment(line: string): string {
    match SplitOnce(line, "//")
    case Some((front, _)) => front
    case None => line
  }

  function TrimAll(parts: seq<string>): (r: seq<string>)
    ensures |r| == |parts| && forall i :: 0 <= i < |parts| ==> r[i] == Trim(parts[i])
  {
    if parts == [] then [] else [Trim(parts[0])] + TrimAll(parts[1..])
  }

  /** The rule types of the other clients, in Surge's terms. */
  function RuleType(t: string): string {
    var upper := Upper(t);
    if upper == "HOST" then "DOMAIN"
    else if upper == "HOST-SUFFIX" then "DOMAIN-SUFFIX"
    else if upper == "HOST-KEYWORD" then "DOMAIN-KEYWORD"
    else if upper == "IP6-CIDR" then "IP-CIDR6"
    else upper
  }

  /** `normalize_rule_line`, as parts. */
  function NormalParts(line: string): (parts: seq<string>)
    ensures parts != []
  {
    var parts := TrimAll(SplitOn(line, ','));
    [RuleType(parts[0])] + parts[1..]
  }

  function NormalOf(line: string): Option<string> {
    var text := Trim(BeforeComment(line));
    if text == "" || text[0] == '#' || text[0] == ';' then None else Some(Join(NormalParts(text), ","))
  }

  function NormalLines(lines: seq<string>): seq<string> {
    if lines == [] then []
    else (match NormalOf(lines[0]) case Some(n) => [n] case None => []) + NormalLines(lines[1..])
  }

  /** `normalize_rules`. */
  function Normalized(content: string): seq<string> {
    NormalLines(Lines(content))
  }

  // ---------------------------------------------------------------- the outputs

  const QUANX_TYPES := ["DOMAIN", "DOMAIN-SUFFIX", "DOMAIN-KEYWORD", "IP-CIDR", "IP-CIDR6", "GEOIP"]
  const SURGE_TYPES := QUANX_TYPES + ["SRC-IP-CIDR", "MATCH", "FINAL", "USER-AGENT", "URL-REGEX", "PROCESS-NAME",
                                      "IN-PORT", "DEST-PORT", "SRC-IP"]
  const CLASH_ONLY := ["SRC-PORT", "DST-PORT"]
  const CLASH_TYPES := QUANX_TYPES + ["SRC-IP-CIDR", "MATCH", "FINAL", "PROCESS-NAME"] + CLASH_ONLY

  function TypeOf(line: string): string {
    SplitOn(line, ',')[0]
  }

  /** `filter_rule_lines`. */
  function OfTypes(lines: seq<string>, types: seq<string>): seq<string> {
    if lines == [] then []
    else (if TypeOf(lines[0]) in types then [lines[0]] else []) + OfTypes(lines[1..], types)
  }

  /** One line of `domain_payload`. */
  function DomainOf(line: string, provider: bool): Option<string> {
    var parts := TrimAll(SplitOn(line, ','));
    if |parts| >= 2 && parts[0] == "DOMAIN" then Some(parts[1])
    else if |parts| >= 2 && parts[0] == "DOMAIN-SUFFIX" then Some((if provider then "." else "") + parts[1])
    else None
  }

  /** One line of `ip_payload`. */
  function IpOf(line: string): Option<string> {
    var parts := TrimAll(SplitOn(line, ','));
    if |parts| >= 2 && (parts[0] == "IP-CIDR" || parts[0] == "IP-CIDR6") then Some(parts[1]) else None
  }

  /** One line of `to_quanx_rules`. */
  function QuanXOf(line: string, group: string): Option<string> {
    var parts := TrimAll(SplitOn(line, ','));
    if parts[0] !in QUANX_TYPES || |parts| < 2 then None
    else Some((if parts[0] == "IP-CIDR6" then "IP6-CIDR" else parts[0]) + "," + parts[1] + "," + group)
  }

  function FilterMap(lines: seq<string>, f: string -> Option<string>): seq<string> {
    if lines == [] then []
    else (match f(lines[0]) case Some(x) => [x] case None => []) + FilterMap(lines[1..], f)
  }

  function DoubleQuotes(s: string): string {
    if s == "" then "" else (if s[0] == '\'' then "''" else [s[0]]) + DoubleQuotes(s[1..])
  }

  /** `quote_yaml_scalar`. */
  function QuoteScalar(value: string): string {
    if ',' in value || ':' in value || (value != "" && value[0] == '+') then "'" + DoubleQuotes(value) + "'" else value
  }

  function YamlItems(items: seq<string>): string {
    if items == [] then "" else "  - " + QuoteScalar(items[0]) + "\n" + YamlItems(items[1..])
  }

  /** `provider_yaml`. */
  function ProviderYaml(items: seq<string>): string {
    "payload:\n" + YamlItems(items)
  }

  method WriteProviderYaml(payload: seq<string>) returns (output: string)
    ensures output == ProviderYaml(payload)
  {
    output := "payload:\n";
    assert payload[0..] == payload;
    for i := 0 to |payload|
      invariant ProviderYaml(payload) == output + YamlItems(payload[i..])
    {
      assert payload[i..][0] == payload[i] && payload[i..][1..] == payload[i + 1..];
      output := output + "  - ";
      output := output + QuoteScalar(payload[i]);
      output := output + "\n";
    }
    assert payload[|payload|..] == [];
  }

  function QuanXLines(lines: seq<string>, group: string): seq<string> {
    FilterMap(lines, line => QuanXOf(line, group))
  }

  /** What each output is made of, from normal lines. */
  function Rendered(lines: seq<string>, output: Output, group: string): string {
    match output
    case Surge => Join(OfTypes(lines, SURGE_TYPES), "\n")
    case QuanX => Join(QuanXLines(lines, group), "\n")
    case ClashDomain => ProviderYaml(FilterMap(lines, line => DomainOf(line, true)))
    case ClashIpCidr => ProviderYaml(FilterMap(lines, line => IpOf(line)))
    case SurgeDomainSet => Join(FilterMap(lines, line => DomainOf(line, false)), "\n")
    case ClashClassical => ProviderYaml(OfTypes(lines, CLASH_TYPES))
  }

  /** `convert_ruleset`. */
  function Convert(content: string, output: Output, group: Option<string>): string {
    Rendered(Normalized(content), output, if group.Some? then group.value else "Proxy")
  }

  // ---------------------------------------------------------------- what normal lines look like

  /** A part of a rule: trimmed, on one line, without commas and without comment marks. */
  predicate Part(s: string) {
    Trimmed(s) && ',' !in s && '\n' !in s && !Contains(s, "//")
  }

  predicate Parts(parts: seq<string>) {
    parts != [] && forall p :: p in parts ==> Part(p)
  }

  lemma TrimIsInside(s: string) returns (l: string, r: string)
    ensures s == l + Trim(s) + r
  {
    l := TrimStartInside(s);
    var t := TrimStart(s);
    r := t[|TrimEnd(t)|..];
  }

  lemma {:induction false} TrimStartInside(s: string) returns (l: string)
    ensures s == l + TrimStart(s)
  {
    l := s[..|s| - |TrimStart(s)|];
    if s != "" && IsSpace(s[0]) {
      var rest := TrimStartInside(s[1..]);
      assert s == [s[0]] + (rest + TrimStart(s));
    }
  }

  lemma PartOfText(text: string, k: nat)
    requires '\n' !in text && !Contains(text, "//") && k < |SplitOn(text, ',')|
    ensures Part(Trim(SplitOn(text, ',')[k]))
  {
    var p := SplitOn(text, ',')[k];
    var l, r := PartOfSplit(text, ',', k);
    assert forall c :: c in p ==> c in l + p + r;
    var a, b := TrimIsInside(p);
    TrimOfTrimmed(Trim(p));
    if Contains(Trim(p), "//") {
      ContainsInfix(a, Trim(p), b, "//");
      ContainsInfix(l, p, r, "//");
    }
  }

  lemma UpperKeeps(s: string, c: char)
    requires !('a' <= c <= 'z') && !('A' <= c <= 'Z')
    ensures c in Upper(s) <==> c in s
  {
    if c in s {
      var i :| 0 <= i < |s| && s[i] == c;
      assert Upper(s)[i] == c;
    }
    if c in Upper(s) {
      var i :| 0 <= i < |s| && Upper(s)[i] == c;
      assert UpperChar(s[i]) == c;
    }
  }

  lemma UpperSlashes(s: string)
    ensures Contains(Upper(s), "//") ==> Contains(s, "//")
  {
    if Contains(Upper(s), "//") {
      var u := Upper(s);
      var i := Find(u, "//").value;
      assert u[i] == u[i..i + 2][0] == '/' && u[i + 1] == u[i..i + 2][1] == '/';
      assert UpperChar(s[i]) == '/' && UpperChar(s[i + 1]) == '/';
      assert s[i..i + 2] == [s[i], s[i + 1]] == ['/', '/'];
      assert OccursAt(s, "//", i);
    }
  }

  lemma UpperPart(s: string)
    requires Part(s)
    ensures Part(Upper(s))
  {
    UpperKeeps(s, ',');
    UpperKeeps(s, '\n');
    UpperSlashes(s);
  }

  lemma PlainPart(s: string)
    requires forall i :: 0 <= i < |s| ==> 'A' <= s[i] <= 'Z' || s[i] == '-' || s[i] == '6'
    ensures Part(s)
  {
    ContainsNeeds(s, "//", 0);
  }

  lemma DomainPart() ensures Part("DOMAIN") { PlainPart("DOMAIN"); }

  lemma SuffixPart() ensures Part("DOMAIN-SUFFIX") { PlainPart("DOMAIN-SUFFIX"); }

  lemma KeywordPart() ensures Part("DOMAIN-KEYWORD") { PlainPart("DOMAIN-KEYWORD"); }

  lemma CidrPart() ensures Part("IP-CIDR6") { PlainPart("IP-CIDR6"); }

  lemma RuleTypePart(s: string)
    requires Part(s)
    ensures Part(RuleType(s))
  {
    UpperPart(s);
    var upper := Upper(s);
    if upper == "HOST" { DomainPart(); }
    else if upper == "HOST-SUFFIX" { SuffixPart(); }
    else if upper == "HOST-KEYWORD" { KeywordPart(); }
    else if upper == "IP6-CIDR" { CidrPart(); }
  }

  lemma NormalPartsAreParts(text: string)
    requires '\n' !in text && !Contains(text, "//")
    ensures Parts(NormalParts(text))
  {
    var parts := TrimAll(SplitOn(text, ','));
    forall i | 0 <= i < |parts| ensures Part(parts[i]) { PartOfText(text, i); }
    RuleTypePart(parts[0]);
  }

  lemma UpperTwice(s: string)
    ensures Upper(Upper(s)) == Upper(s)
  {
  }

  lemma RuleTypeTwice(s: string)
    ensures RuleType(RuleType(s)) == RuleType(s)
  {
    UpperTwice(s);
    assert Upper("DOMAIN") == "DOMAIN" && Upper("DOMAIN-SUFFIX") == "DOMAIN-SUFFIX";
    assert Upper("DOMAIN-KEYWORD") == "DOMAIN-KEYWORD" && Upper("IP-CIDR6") == "IP-CIDR6";
  }

  lemma {:induction false} TrimAllOfParts(parts: seq<string>)
    requires forall p :: p in parts ==> Trimmed(p)
    ensures TrimAll(parts) == parts
  {
    if parts != [] {
      assert parts[0] in parts;
      TrimOfTrimmed(parts[0]);
      TrimAllOfParts(parts[1..]);
    }
  }

  /** Parts written with commas are read back, and the text they make needs no trimming but at an empty edge. */
  lemma JoinedParts(parts: seq<string>)
    requires Parts(parts)
    ensures TrimAll(SplitOn(Join(parts, ","), ',')) == parts && SplitOn(Join(parts, ","), ',') == parts
    ensures !Contains(Join(parts, ","), "//")
  {
    SplitOfJoin(parts, ',');
    TrimAllOfParts(parts);
    ContainsInJoin(parts, ',', "//");
  }

  lemma {:induction false} JoinedLine(parts: seq<string>)
    requires Parts(parts)
    ensures var line := Join(parts, ",");
            '\n' !in line && (line != "" ==> !IsSpace(line[|line| - 1])) && (line != "" ==> !IsSpace(line[0]))
    ensures parts[0] != "" ==> Join(parts, ",") != "" && Join(parts, ",")[0] == parts[0][0]
  {
    assert Part(parts[0]);
    if |parts| > 1 {
      JoinedLine(parts[1..]);
      var rest := Join(parts[1..], ",");
      var line := Join(parts, ",");
      assert line == parts[0] + "," + rest;
      assert line[|line| - 1] == if rest == "" then ',' else rest[|rest| - 1];
      assert line[0] == if parts[0] == "" then ',' else parts[0][0];
    }
  }

  /** A line in normal form, by its parts. */
  ghost predicate NormalLine(line: string, parts: seq<string>) {
    Parts(parts) && line == Join(parts, ",") && parts[0] == RuleType(parts[0])
  }

  lemma NormalOfIsNormal(line: string)
    requires '\n' !in line && NormalOf(line).Some?
    ensures NormalLine(NormalOf(line).value, NormalParts(Trim(BeforeComment(line))))
  {
    var front := BeforeComment(line);
    var text := Trim(front);
    var l, r := TrimIsInside(front);
    assert '\n' !in front by { if Contains(line, "//") { assert front <= line; } }
    if Contains(text, "//") { ContainsInfix(l, text, r, "//"); }
    NormalPartsAreParts(text);
    RuleTypeTwice(TrimAll(SplitOn(text, ','))[0]);
  }

  /** A normal line whose type is not empty and starts no comment is its own normal form. */
  lemma NormalLineIsFixed(line: string, parts: seq<string>)
    requires NormalLine(line, parts) && parts[0] != "" && parts[0][0] != '#' && parts[0][0] != ';'
    ensures NormalOf(line) == Some(line)
    ensures line != "" && !EndsInCr(line)
  {
    JoinedParts(parts);
    JoinedLine(parts);
    TrimOfTrimmed(line);
    assert BeforeComment(line) == line;
    assert NormalParts(line) == parts;
  }

  predicate PlainTypes(types: seq<string>) {
    forall t :: t in types ==> t != "" && t[0] != '#' && t[0] != ';'
  }

  ghost predicate Normal(line: string) {
    exists parts :: NormalLine(line, parts)
  }

  ghost predicate AllNormal(lines: seq<string>) {
    forall l :: l in lines ==> Normal(l)
  }

  lemma {:induction false} NormalLinesAreNormal(lines: seq<string>)
    requires forall l :: l in lines ==> '\n' !in l
    ensures AllNormal(NormalLines(lines))
  {
    if lines != [] {
      assert lines[0] in lines;
      NormalLinesAreNormal(lines[1..]);
      if NormalOf(lines[0]).Some? { NormalOfIsNormal(lines[0]); }
    }
  }

  lemma NormalIsFixed(line: string, types: seq<string>)
    requires Normal(line) && PlainTypes(types) && TypeOf(line) in types
    ensures NormalOf(line) == Some(line) && line != "" && !EndsInCr(line) && '\n' !in line
  {
    var parts :| NormalLine(line, parts);
    JoinedParts(parts);
    JoinedLine(parts);
    NormalLineIsFixed(line, parts);
  }

  lemma {:induction false} FilteredAreFixed(lines: seq<string>, types: seq<string>)
    requires AllNormal(lines) && PlainTypes(types)
    ensures var kept := OfTypes(lines, types);
            NormalLines(kept) == kept && forall l :: l in kept ==> l in lines && l != "" && !EndsInCr(l) && '\n' !in l
  {
    if lines != [] {
      FilteredAreFixed(lines[1..], types);
      var line := lines[0];
      assert line in lines;
      if TypeOf(line) in types {
        NormalIsFixed(line, types);
        var rest := OfTypes(lines[1..], types);
        assert ([line] + rest)[1..] == rest;
      } else {
        assert OfTypes(lines, types) == OfTypes(lines[1..], types);
      }
    }
  }

  lemma TypesArePlain()
    ensures PlainTypes(SURGE_TYPES) && PlainTypes(CLASH_TYPES)
  {
  }

  lemma FirmLines(lines: seq<string>)
    requires forall l :: l in lines ==> l != "" && !EndsInCr(l) && '\n' !in l
    ensures Lines(Join(lines, "\n")) == lines
  {
    assert forall i :: 0 <= i < |lines| ==> lines[i] in lines;
    LinesOfJoin(lines);
  }

  lemma FilteredReread(content: string, types: seq<string>)
    requires PlainTypes(types)
    ensures var kept := OfTypes(Normalized(content), types); Normalized(Join(kept, "\n")) == kept
  {
    var lines := Normalized(content);
    NormalLinesAreNormal(Lines(content));
    FilteredAreFixed(lines, types);
    FirmLines(OfTypes(lines, types));
  }

  /** Surge output is in normal form: normalising it gives its own lines. */
  lemma SurgeIsNormal(content: string, group: Option<string>)
    ensures Normalized(Convert(content, Surge, group)) == OfTypes(Normalized(content), SURGE_TYPES)
  {
    TypesArePlain();
    FilteredReread(content, SURGE_TYPES);
  }

  // ---------------------------------------------------------------- Surge output loses nothing the others need

  lemma {:induction false} FilterTwice(lines: seq<string>, types: seq<string>, wider: seq<string>)
    requires forall t :: t in types ==> t in wider
    ensures OfTypes(OfTypes(lines, wider), types) == OfTypes(lines, types)
  {
    if lines != [] {
      FilterTwice(lines[1..], types, wider);
      var rest := OfTypes(lines[1..], wider);
      if TypeOf(lines[0]) in wider {
        assert ([lines[0]] + rest)[1..] == rest;
      } else {
        assert OfTypes(lines, wider) == rest && OfTypes(lines, types) == [] + OfTypes(lines[1..], types);
      }
    }
  }

  /** What an output makes of a normal line depends on lines of these types alone. */
  ghost predicate Needs(f: string -> Option<string>, types: seq<string>) {
    forall line, parts :: NormalLine(line, parts) && f(line).Some? ==> parts[0] in types
  }

  lemma NormalType(line: string, parts: seq<string>)
    requires NormalLine(line, parts)
    ensures TypeOf(line) == parts[0] && TrimAll(SplitOn(line, ',')) == parts
  {
    JoinedParts(parts);
  }

  lemma {:induction false} FilterKeepsMap(lines: seq<string>, types: seq<string>, f: string -> Option<string>)
    requires AllNormal(lines) && Needs(f, types)
    ensures FilterMap(OfTypes(lines, types), f) == FilterMap(lines, f)
  {
    if lines != [] {
      FilterKeepsMap(lines[1..], types, f);
      var line, rest := lines[0], OfTypes(lines[1..], types);
      assert Normal(line);
      var parts :| NormalLine(line, parts);
      NormalType(line, parts);
      if parts[0] in types {
        assert ([line] + rest)[1..] == rest;
      } else {
        assert f(line).None?;
        assert OfTypes(lines, types) == rest && FilterMap(lines, f) == [] + FilterMap(lines[1..], f);
      }
    }
  }

  lemma TypesNest()
    ensures forall t :: t in QUANX_TYPES ==> t in SURGE_TYPES
    ensures forall t :: t in CLASH_TYPES ==> t in SURGE_TYPES || t in CLASH_ONLY
  {
  }

  lemma PayloadTypes()
    ensures forall t :: t in ["DOMAIN", "DOMAIN-SUFFIX", "IP-CIDR", "IP-CIDR6"] ==> t in QUANX_TYPES
  {
    assert QUANX_TYPES[0] == "DOMAIN" && QUANX_TYPES[1] == "DOMAIN-SUFFIX";
    assert QUANX_TYPES[3] == "IP-CIDR" && QUANX_TYPES[4] == "IP-CIDR6";
  }

  lemma PayloadType(line: string, parts: seq<string>, group: string, provider: bool)
    requires NormalLine(line, parts)
    ensures QuanXOf(line, group).Some? || DomainOf(line, provider).Some? || IpOf(line).Some? ==>
              parts[0] in QUANX_TYPES
  {
    NormalType(line, parts);
    PayloadTypes();
    var named := ["DOMAIN", "DOMAIN-SUFFIX", "IP-CIDR", "IP-CIDR6"];
    assert named[0] in named && named[1] in named && named[2] in named && named[3] in named;
  }

  lemma PayloadNeeds(group: string)
    ensures Needs(line => QuanXOf(line, group), SURGE_TYPES)
    ensures Needs(line => DomainOf(line, true), SURGE_TYPES)
    ensures Needs(line => DomainOf(line, false), SURGE_TYPES)
    ensures Needs(line => IpOf(line), SURGE_TYPES)
  {
    TypesNest();
    forall line, parts | NormalLine(line, parts)
      ensures QuanXOf(line, group).Some? ==> parts[0] in SURGE_TYPES
      ensures DomainOf(line, true).Some? || DomainOf(line, false).Some? || IpOf(line).Some? ==> parts[0] in SURGE_TYPES
    {
      PayloadType(line, parts, group, true);
      PayloadType(line, parts, group, false);
    }
  }

  /** Converting to Surge first changes none of the outputs 1 to 5. */
  lemma SurgeIsLossless(content: string, output: Output, group: Option<string>)
    requires output != ClashClassical
    ensures Convert(Convert(content, Surge, group), output, group) == Convert(content, output, group)
  {
    var lines := Normalized(content);
    SurgeIsNormal(content, group);
    NormalLinesAreNormal(Lines(content));
    var g := if group.Some? then group.value else "Proxy";
    PayloadNeeds(g);
    FilterTwice(lines, SURGE_TYPES, SURGE_TYPES);
    FilterKeepsMap(lines, SURGE_TYPES, line => QuanXOf(line, g));
    FilterKeepsMap(lines, SURGE_TYPES, line => DomainOf(line, true));
    FilterKeepsMap(lines, SURGE_TYPES, line => DomainOf(line, false));
    FilterKeepsMap(lines, SURGE_TYPES, line => IpOf(line));
  }

  lemma ClashOnlyApart()
    ensures forall t :: t in CLASH_ONLY ==> t in CLASH_TYPES && t !in SURGE_TYPES
  {
    forall i | 0 <= i < |SURGE_TYPES| ensures SURGE_TYPES[i] !in CLASH_ONLY {
      var t := SURGE_TYPES[i];
      if |t| == 8 { assert t[3] != '-'; }
    }
  }

  predicate HasClashOnly(lines: seq<string>) {
    exists l :: l in lines && TypeOf(l) in CLASH_ONLY
  }

  lemma OfTypesCons(line: string, rest: seq<string>, types: seq<string>)
    ensures OfTypes([line] + rest, types) ==
            if TypeOf(line) in types then [line] + OfTypes(rest, types) else OfTypes(rest, types)
  {
    assert ([line] + rest)[1..] == rest;
  }

  lemma YamlItemsCons(line: string, rest: seq<string>)
    ensures |YamlItems([line] + rest)| > |YamlItems(rest)|
  {
    assert ([line] + rest)[1..] == rest;
  }

  lemma {:induction false} ClashOnlyLost(lines: seq<string>, surge: seq<string>, clash: seq<string>, only: seq<string>)
    requires forall t :: t in only ==> t in clash && t !in surge
    requires forall t :: t in clash ==> t in surge || t in only
    ensures var kept, all := OfTypes(OfTypes(lines, surge), clash), OfTypes(lines, clash);
            (|YamlItems(kept)| <= |YamlItems(all)|) &&
            if exists l :: l in lines && TypeOf(l) in only then |YamlItems(kept)| < |YamlItems(all)| else kept == all
  {
    if lines != [] {
      var line, tail := lines[0], lines[1..];
      var rest := OfTypes(tail, surge);
      ClashOnlyLost(tail, surge, clash, only);
      assert lines == [line] + tail;
      OfTypesCons(line, tail, surge);
      OfTypesCons(line, tail, clash);
      OfTypesCons(line, rest, clash);
      YamlItemsCons(line, OfTypes(rest, clash));
      YamlItemsCons(line, OfTypes(tail, clash));
    }
  }

  /** Converting to Surge first changes the classical Clash output exactly when a port rule is there to be lost. */
  lemma SurgeLosesPortRules(content: string, group: Option<string>)
    ensures Convert(Convert(content, Surge, group), ClashClassical, group) == Convert(content, ClashClassical, group)
            <==> !HasClashOnly(Normalized(content))
  {
    var lines := Normalized(content);
    SurgeIsNormal(content, group);
    ClashOnlyApart();
    TypesNest();
    ClashOnlyLost(lines, SURGE_TYPES, CLASH_TYPES, CLASH_ONLY);
    var kept, all := OfTypes(OfTypes(lines, SURGE_TYPES), CLASH_TYPES), OfTypes(lines, CLASH_TYPES);
    assert |ProviderYaml(kept)| == |"payload:\n"| + |YamlItems(kept)|;
    assert |ProviderYaml(all)| == |"payload:\n"| + |YamlItems(all)|;
  }

  /** A rule list of one port rule: the rule is lost. */
  lemma PortRuleIsLost(t: string, port: string, group: Option<string>)
    requires t in CLASH_ONLY && Part(port)
    ensures var content := t + "," + port;
            Normalized(content) == [content] &&
            Convert(Convert(content, Surge, group), ClashClassical, group) != Convert(content, ClashClassical, group)
  {
    var content := t + "," + port;
    PortType(t);
    OneRule(content, t, port);
    assert content in [content];
    SurgeLosesPortRules(content, group);
  }

  lemma OneRule(content: string, t: string, value: string)
    requires Part(t) && Part(value) && RuleType(t) == t && t != "" && t[0] != '#' && t[0] != ';'
    requires content == t + "," + value
    ensures Normalized(content) == [content] && TypeOf(content) == t
  {
    var parts := [t, value];
    assert parts[1..] == [value] && content == Join(parts, ",");
    assert NormalLine(content, parts);
    NormalLineIsFixed(content, parts);
    NormalType(content, parts);
    LinesOfLast(content);
    assert [content][1..] == [] && NormalLines([content][1..]) == [];
  }

  lemma PortType(t: string)
    requires t in CLASH_ONLY
    ensures Part(t) && RuleType(t) == t && t != "" && t[0] != '#' && t[0] != ';'
  {
    var i :| 0 <= i < |CLASH_ONLY| && CLASH_ONLY[i] == t;
    UpperPlain(CLASH_ONLY[i]);
    OtherType(t);
  }

  /** A type that begins with neither H nor I is no other client's name of a type. */
  lemma OtherType(t: string)
    requires t != "" && Upper(t) == t && t[0] != 'H' && t[0] != 'I'
    ensures RuleType(t) == t
  {
    assert "HOST"[0] == 'H' && "HOST-SUFFIX"[0] == 'H' && "HOST-KEYWORD"[0] == 'H' && "IP6-CIDR"[0] == 'I';
  }

  // ---------------------------------------------------------------- QuanX output can be converted again

  function QuanXType(t: string): string {
    if t == "IP-CIDR6" then "IP6-CIDR" else t
  }

  predicate ComesBack(t: string) {
    var q := QuanXType(t);
    RuleType(q) == t && Part(q) && q != "" && q[0] != '#' && q[0] != ';'
  }

  lemma UpperPlain(s: string)
    requires forall i :: 0 <= i < |s| ==> 'A' <= s[i] <= 'Z' || s[i] == '-' || s[i] == '6'
    ensures Upper(s) == s && Part(s)
  {
    PlainPart(s);
  }

  /** No other client's type begins with another letter than H or has another length than 8. */
  lemma PlainTypeBack(t: string)
    requires t != "" && t[0] != 'H' && |t| != 8
    requires forall i :: 0 <= i < |t| ==> 'A' <= t[i] <= 'Z' || t[i] == '-'
    ensures ComesBack(t)
  {
    UpperPlain(t);
    assert "HOST"[0] == 'H' && "HOST-SUFFIX"[0] == 'H' && "HOST-KEYWORD"[0] == 'H';
    assert |"IP6-CIDR"| == 8 && |"IP-CIDR6"| == 8;
  }

  lemma Cidr6Back() ensures ComesBack("IP-CIDR6") { UpperPlain("IP6-CIDR"); }

  /** The QuanX names of the types come back as the types. */
  lemma QuanXTypeBack(t: string)
    requires t in QUANX_TYPES
    ensures ComesBack(t)
  {
    var i :| 0 <= i < |QUANX_TYPES| && QUANX_TYPES[i] == t;
    if i == 4 { Cidr6Back(); } else { PlainTypeBack(QUANX_TYPES[i]); }
  }

  /** A line that begins with a type and a value, whatever follows, converts to that type and value. */
  lemma QuanXReread(t: string, value: string, tail: string, group: string)
    requires t in QUANX_TYPES && Part(value) && '\n' !in tail
    ensures var n := NormalOf(QuanXType(t) + "," + value + "," + tail);
            n.Some? && QuanXOf(n.value, group) == Some(QuanXType(t) + "," + value + "," + group)
  {
    QuanXTypeBack(t);
    var head := QuanXType(t) + "," + value + ",";
    var line := head + tail;
    var cut := QuanXCut(QuanXType(t), value, tail);
    var text := Trim(BeforeComment(line));
    NormalOfIsNormal(line);
    var parts := NormalParts(text);
    QuanXParts(QuanXType(t), value, cut);
    assert parts[0] == t && parts[1] == value && |parts| >= 2;
    JoinedParts(parts);
  }

  lemma QuanXCut(q: string, value: string, tail: string) returns (cut: string)
    requires Part(q) && Part(value) && q != "" && q[0] != '#' && q[0] != ';'
    ensures Trim(BeforeComment(q + "," + value + "," + tail)) == q + "," + value + "," + cut
    ensures NormalOf(q + "," + value + "," + tail).Some?
  {
    var head := q + "," + value + ",";
    var line := head + tail;
    HeadHasNoComment(q, value);
    var front := BeforeComment(line);
    if Contains(line, "//") { CommentBehind(head, tail); }
    var kept := if Contains(line, "//") then tail[..Find(line, "//").value - |head|] else tail;
    assert front == head + kept;
    cut := TrimEnd(kept);
    TrimAfterInk(head, kept);
  }

  lemma HeadHasNoComment(q: string, value: string)
    requires Part(q) && Part(value)
    ensures !Contains(q + "," + value + ",", "//")
  {
    ContainsAcross(q, ',', value + ",", "//");
    ContainsAcross(value, ',', "", "//");
    ContainsNeeds("", "//", 0);
    assert q + "," + (value + ",") == q + "," + value + ",";
    assert value + "," + "" == value + ",";
  }

  lemma CommentBehind(head: string, tail: string)
    requires !Contains(head, "//") && head != "" && head[|head| - 1] != '/' && Contains(head + tail, "//")
    ensures Find(head + tail, "//").value >= |head|
  {
    var line := head + tail;
    var i := Find(line, "//").value;
    assert line[i..i + 2] == [line[i], line[i + 1]];
    assert line[i] == '/';
    if i + 2 <= |head| { OccursInHead(head, tail, "//", i); }
    assert line[|head| - 1] == head[|head| - 1];
  }

  lemma OccursInHead(head: string, tail: string, pat: string, i: nat)
    requires i + |pat| <= |head|
    ensures OccursAt(head + tail, pat, i) == OccursAt(head, pat, i)
  {
    assert (head + tail)[i..i + |pat|] == head[i..i + |pat|];
  }

  lemma QuanXParts(q: string, value: string, cut: string)
    requires Part(q) && Part(value)
    ensures var parts := NormalParts(q + "," + value + "," + cut);
            |parts| >= 2 && parts[0] == RuleType(q) && parts[1] == value
  {
    SplitOfCons(value, ',', cut);
    SplitOfCons(q, ',', value + "," + cut);
    assert q + "," + (value + "," + cut) == q + "," + value + "," + cut;
    TrimOfTrimmed(q);
    TrimOfTrimmed(value);
  }

  // What QuanX output is made of: lines of a QuanX type, a value and the group.

  ghost predicate QuanXLine(line: string, group: string) {
    exists t, value :: t in QUANX_TYPES && Part(value) && line == QuanXType(t) + "," + value + "," + group
  }

  lemma QuanXOfNormal(line: string, group: string)
    requires Normal(line) && QuanXOf(line, group).Some?
    ensures QuanXLine(QuanXOf(line, group).value, group)
  {
    var parts :| NormalLine(line, parts);
    JoinedParts(parts);
    assert parts[1] in parts && parts[0] in QUANX_TYPES;
    assert QuanXOf(line, group).value == QuanXType(parts[0]) + "," + parts[1] + "," + group;
  }

  lemma {:induction false} QuanXLinesOfNormal(lines: seq<string>, group: string)
    requires AllNormal(lines)
    ensures forall q :: q in QuanXLines(lines, group) ==> QuanXLine(q, group)
  {
    if lines != [] {
      assert lines[0] in lines;
      QuanXLinesOfNormal(lines[1..], group);
      if QuanXOf(lines[0], group).Some? { QuanXOfNormal(lines[0], group); }
    }
  }

  /** A line that converts to itself, with or without the carriage return at its end. */
  ghost predicate ConvertsBack(line: string, group: string) {
    && '\n' !in line && line != ""
    && NormalOf(line).Some? && QuanXOf(NormalOf(line).value, group) == Some(line)
    && NormalOf(StripCr(line)).Some? && QuanXOf(NormalOf(StripCr(line)).value, group) == Some(line)
  }

  lemma JoinedLines(line: string, rest: seq<string>)
    requires '\n' !in line && rest != []
    ensures Lines(Join([line] + rest, "\n")) == [StripCr(line)] + Lines(Join(rest, "\n"))
  {
    assert ([line] + rest)[1..] == rest;
    LinesOfCons(line, Join(rest, "\n"));
  }

  lemma FilterMapCons(line: string, converted: string, rest: seq<string>, f: string -> Option<string>)
    requires f(line) == Some(converted)
    ensures FilterMap([line] + rest, f) == [converted] + FilterMap(rest, f)
  {
    assert ([line] + rest)[1..] == rest;
  }

  /** Lines that come back, each with or without a carriage return, come back when joined and cut again. */
  lemma {:induction false} LinesComeBack(lines: seq<string>, f: string -> Option<string>)
    requires forall q :: q in lines ==> '\n' !in q && q != "" && f(q) == Some(q) && f(StripCr(q)) == Some(q)
    ensures FilterMap(Lines(Join(lines, "\n")), f) == lines
  {
    if lines != [] {
      var line, rest := lines[0], lines[1..];
      assert lines == [line] + rest && line in lines;
      assert forall q :: q in rest ==> q in lines;
      if rest == [] {
        LinesOfLast(line);
        FilterMapCons(line, line, [], f);
        assert [line] + [] == [line];
      } else {
        LinesComeBack(rest, f);
        JoinedLines(line, rest);
        FilterMapCons(StripCr(line), line, Lines(Join(rest, "\n")), f);
      }
    }
  }

  function Then(f: string -> Option<string>, g: string -> Option<string>): string -> Option<string> {
    line => if f(line).None? then None else g(f(line).value)
  }

  lemma {:induction false} FilterMapThen(lines: seq<string>, f: string -> Option<string>, g: string -> Option<string>)
    ensures FilterMap(FilterMap(lines, f), g) == FilterMap(lines, Then(f, g))
  {
    if lines != [] {
      var line, rest := lines[0], lines[1..];
      FilterMapThen(rest, f, g);
      var more := FilterMap(rest, f);
      if f(line).Some? { assert ([f(line).value] + more)[1..] == more; } else { assert [] + more == more; }
    }
  }

  lemma {:induction false} NormalLinesMap(lines: seq<string>)
    ensures NormalLines(lines) == FilterMap(lines, NormalOf)
  {
    if lines != [] { NormalLinesMap(lines[1..]); }
  }

  lemma QuanXListReread(lines: seq<string>, group: string)
    requires forall q :: q in lines ==> ConvertsBack(q, group)
    ensures QuanXLines(NormalLines(Lines(Join(lines, "\n"))), group) == lines
  {
    var read := Lines(Join(lines, "\n"));
    NormalLinesMap(read);
    FilterMapThen(read, NormalOf, line => QuanXOf(line, group));
    LinesComeBack(lines, Then(NormalOf, line => QuanXOf(line, group)));
  }

  lemma QuanXOneReread(t: string, value: string, group: string)
    requires '\n' !in group && t in QUANX_TYPES && Part(value)
    ensures ConvertsBack(QuanXType(t) + "," + value + "," + group, group)
  {
    QuanXTypeBack(t);
    QuanXReread(t, value, group, group);
    QuanXReread(t, value, StripCr(group), group);
    StripCrTail(QuanXType(t) + "," + value + ",", group);
  }

  lemma QuanXLineConvertsBack(line: string, group: string)
    requires '\n' !in group && QuanXLine(line, group)
    ensures ConvertsBack(line, group)
  {
    var t, value :| t in QUANX_TYPES && Part(value) && line == QuanXType(t) + "," + value + "," + group;
    QuanXOneReread(t, value, group);
  }

  lemma StripCrTail(head: string, tail: string)
    requires head != "" && head[|head| - 1] != '\r'
    ensures StripCr(head + tail) == head + StripCr(tail)
  {
  }

  /** For a group without a line feed, converting QuanX output to QuanX again changes nothing. */
  lemma QuanXIdempotent(content: string, group: Option<string>)
    requires group.Some? ==> '\n' !in group.value
    ensures Convert(Convert(content, QuanX, group), QuanX, group) == Convert(content, QuanX, group)
  {
    var g := if group.Some? then group.value else "Proxy";
    NormalLinesAreNormal(Lines(content));
    QuanXLinesOfNormal(Normalized(content), g);
    var lines := QuanXLines(Normalized(content), g);
    forall line | line in lines ensures ConvertsBack(line, g) { QuanXLineConvertsBack(line, g); }
    QuanXListReread(lines, g);
  }
}
