/** What each of the six outputs holds, rule by rule, with the rule types and the punctuation written out. */
module RulesetEntries {
  import opened Wrappers
  import opened Text
  import opened Rulesets

  /** The entries of an output, in order: its lines, or the items of its payload. */
  function Entries(content: string, output: Output, group: Option<string>): seq<string> {
    var lines := Normalized(content);
    match output
    case Surge => OfTypes(lines, SURGE_TYPES)
    case QuanX => QuanXLines(lines, if group.Some? then group.value else "Proxy")
    case ClashDomain => FilterMap(lines, line => DomainOf(line, true))
    case ClashIpCidr => FilterMap(lines, line => IpOf(line))
    case SurgeDomainSet => FilterMap(lines, line => DomainOf(line, false))
    case ClashClassical => OfTypes(lines, CLASH_TYPES)
  }

  /** The list of a payload, item by item. */
  function Payload(items: seq<string>): string {
    if items == [] then "payload:\n"
    else Payload(items[..|items| - 1]) + "  - " + QuoteScalar(items[|items| - 1]) + "\n"
  }

  lemma {:induction false} YamlItemsSnoc(items: seq<string>, last: string)
    ensures YamlItems(items + [last]) == YamlItems(items) + ("  - " + QuoteScalar(last) + "\n")
  {
    if items == [] {
      assert items + [last] == [last] && [last][1..] == [];
      assert YamlItems([last]) == "  - " + QuoteScalar(last) + "\n" + YamlItems([last][1..]);
    } else {
      assert (items + [last])[1..] == items[1..] + [last];
      YamlItemsSnoc(items[1..], last);
    }
  }

  lemma {:induction false} PayloadIsYaml(items: seq<string>)
    ensures ProviderYaml(items) == Payload(items)
  {
    if items != [] {
      var front, last := items[..|items| - 1], items[|items| - 1];
      assert items == front + [last];
      PayloadIsYaml(front);
      YamlItemsSnoc(front, last);
    }
  }

  /** Three outputs are their entries line by line, three a payload of them. */
  lemma ConvertedAre(content: string, output: Output, group: Option<string>)
    ensures output == Surge || output == QuanX || output == SurgeDomainSet ==>
              Convert(content, output, group) == Join(Entries(content, output, group), "\n")
    ensures output == ClashDomain || output == ClashIpCidr || output == ClashClassical ==>
              Convert(content, output, group) == Payload(Entries(content, output, group))
  {
    PayloadIsYaml(Entries(content, output, group));
  }

  // ---------------------------------------------------------------- line by line

  lemma {:induction false} FilterMapConcat(a: seq<string>, b: seq<string>, f: string -> Option<string>)
    ensures FilterMap(a + b, f) == FilterMap(a, f) + FilterMap(b, f)
  {
    if a == [] {
      assert a + b == b;
    } else {
      assert (a + b)[1..] == a[1..] + b;
      FilterMapConcat(a[1..], b, f);
    }
  }

  lemma {:induction false} OfTypesConcat(a: seq<string>, b: seq<string>, types: seq<string>)
    ensures OfTypes(a + b, types) == OfTypes(a, types) + OfTypes(b, types)
  {
    if a == [] {
      assert a + b == b;
    } else {
      assert (a + b)[1..] == a[1..] + b;
      OfTypesConcat(a[1..], b, types);
    }
  }

  /** The entries of a line and of the lines behind it, in that order. */
  lemma EntriesInOrder(line: string, rest: string, output: Output, group: Option<string>)
    requires '\n' !in line
    ensures Entries(line + "\n" + rest, output, group) == Entries(line, output, group) + Entries(rest, output, group)
  {
    NormalizedCons(line, rest);
    var a, b := Normalized(line), Normalized(rest);
    match output
    case Surge => OfTypesConcat(a, b, SURGE_TYPES);
    case QuanX =>
      var g := if group.Some? then group.value else "Proxy";
      FilterMapConcat(a, b, l => QuanXOf(l, g));
    case ClashDomain => FilterMapConcat(a, b, l => DomainOf(l, true));
    case ClashIpCidr => FilterMapConcat(a, b, l => IpOf(l));
    case SurgeDomainSet => FilterMapConcat(a, b, l => DomainOf(l, false));
    case ClashClassical => OfTypesConcat(a, b, CLASH_TYPES);
  }

  lemma NormalizedCons(line: string, rest: string)
    requires '\n' !in line
    ensures Normalized(line + "\n" + rest) == Normalized(line) + Normalized(rest)
  {
    LinesOfCons(line, rest);
    assert ([StripCr(line)] + Lines(rest))[1..] == Lines(rest);
    NormalOfStripped(line);
    NormalizedOne(line);
  }

  lemma NormalizedOne(line: string)
    requires '\n' !in line
    ensures Normalized(line) == match NormalOf(line) case Some(n) => [n] case None => []
  {
    LinesOfLast(line);
    if line == "" {
      assert Lines("") == [];
    } else {
      assert Lines(line) == [line] && [line][1..] == [];
      assert NormalLines([line][1..]) == [];
    }
  }

  /** A carriage return at the end of a line makes no difference. */
  lemma NormalOfStripped(line: string)
    ensures NormalOf(StripCr(line)) == NormalOf(line)
  {
    if EndsInCr(line) {
      var front := line[..|line| - 1];
      assert line == front + "\r";
      CommentCut(front);
    }
  }

  lemma CommentCut(front: string)
    ensures Trim(BeforeComment(front + "\r")) == Trim(BeforeComment(front))
  {
    var line := front + "\r";
    FindBefore(front);
    if Contains(front, "//") {
      var i := Find(front, "//").value;
      assert line[..i] == front[..i];
    } else {
      assert EndsInCr(line) && StripCr(line) == front;
      TrimStripsCr(line);
    }
  }

  lemma FindBefore(front: string)
    ensures Find(front + "\r", "//") == Find(front, "//")
  {
    var line := front + "\r";
    forall j ensures OccursAt(line, "//", j) == OccursAt(front, "//", j) {
      if 0 <= j <= |line| - 2 {
        assert line[j..j + 2] == [line[j], line[j + 1]];
        if j == |line| - 2 { assert line[j + 1] == '\r'; } else { assert front[j..j + 2] == [front[j], front[j + 1]]; }
      }
    }
    if Find(front, "//").Some? { FindIsFirst(line, "//", Find(front, "//").value); }
  }

  /** A comment of any of the three kinds, or a blank line, gives no entry. */
  lemma CommentsAreLeftOut(indent: string, text: string, output: Output, group: Option<string>)
    requires AllSpaces(indent) && '\n' !in indent && '\n' !in text
    ensures Entries(indent + ("#" + text), output, group) == [] && Entries(indent + (";" + text), output, group) == []
    ensures Entries(indent + ("//" + text), output, group) == [] && Entries(indent, output, group) == []
  {
    MarkedIsNone(indent, "#" + text);
    MarkedIsNone(indent, ";" + text);
    SlashesAreNone(indent, text);
    NoEntries(indent + ("#" + text), output, group);
    NoEntries(indent + (";" + text), output, group);
    NoEntries(indent + ("//" + text), output, group);
    NoEntries(indent, output, group);
  }

  lemma NoEntries(line: string, output: Output, group: Option<string>)
    requires '\n' !in line && NormalOf(line).None?
    ensures Entries(line, output, group) == []
  {
    NormalizedOne(line);
  }

  lemma MarkedIsNone(indent: string, text: string)
    requires AllSpaces(indent) && text != "" && (text[0] == '#' || text[0] == ';')
    ensures NormalOf(indent + text).None?
  {
    var line := indent + text;
    if Contains(line, "//") {
      var i := Find(line, "//").value;
      assert line[i..i + 2][0] == '/' && line[i] == '/';
      assert forall k :: 0 <= k < |indent| ==> line[k] == indent[k] && indent[k] in indent;
      assert i > |indent| && line[..i] == indent + text[..i - |indent|];
      LeadingSpaces(indent, text[..i - |indent|]);
    } else {
      LeadingSpaces(indent, text);
    }
  }

  lemma SlashesAreNone(indent: string, text: string)
    requires AllSpaces(indent)
    ensures NormalOf(indent + ("//" + text)).None? && NormalOf(indent).None?
  {
    var line := indent + ("//" + text);
    assert line[|indent|..|indent| + 2] == "//" && line[..|indent|] == indent;
    forall j | 0 <= j < |indent| ensures !OccursAt(line, "//", j) {
      assert line[j] == indent[j] && indent[j] in indent;
      assert line[j..j + 2][0] == line[j];
    }
    FindIsFirst(line, "//", |indent|);
    SpacesAlone(indent);
    forall j ensures !OccursAt(indent, "//", j) {
      if 0 <= j <= |indent| - 2 { assert indent[j] in indent && indent[j..j + 2][0] == indent[j]; }
    }
  }

  // ---------------------------------------------------------------- one rule

  /** A rule as its parts: a type that opens no comment, and what belongs to it. */
  ghost predicate Rule(parts: seq<string>) {
    Parts(parts) && parts[0] != "" && parts[0][0] != '#' && parts[0][0] != ';'
  }

  /** The type that a rule is written with, in any case, and the one it is converted with. */
  predicate Renamed(written: string, t: string) {
    var upper := Upper(written);
    && (upper == "HOST" ==> t == "DOMAIN")
    && (upper == "HOST-SUFFIX" ==> t == "DOMAIN-SUFFIX")
    && (upper == "HOST-KEYWORD" ==> t == "DOMAIN-KEYWORD")
    && (upper == "IP6-CIDR" ==> t == "IP-CIDR6")
    && (upper != "HOST" && upper != "HOST-SUFFIX" && upper != "HOST-KEYWORD" && upper != "IP6-CIDR" ==> t == upper)
  }

  lemma RenamedParts(parts: seq<string>, t: string)
    requires Rule(parts) && Renamed(parts[0], t)
    ensures Parts([t] + parts[1..]) && RuleType(parts[0]) == t
  {
    RuleTypePart(parts[0]);
    assert forall p :: p in parts[1..] ==> p in parts;
  }

  lemma RuleIsNormalised(parts: seq<string>, t: string)
    requires Rule(parts) && Renamed(parts[0], t)
    ensures NormalOf(Join(parts, ",")) == Some(Join([t] + parts[1..], ",")) && '\n' !in Join(parts, ",")
  {
    var line := Join(parts, ",");
    JoinedParts(parts);
    JoinedLine(parts);
    TrimOfTrimmed(line);
    RenamedParts(parts, t);
  }

  lemma NormalisedRule(parts: seq<string>, t: string)
    requires Rule(parts) && Renamed(parts[0], t)
    ensures var rule := Join([t] + parts[1..], ",");
            Normalized(Join(parts, ",")) == [rule] && TypeOf(rule) == t &&
            TrimAll(SplitOn(rule, ',')) == [t] + parts[1..]
  {
    RuleIsNormalised(parts, t);
    NormalizedOne(Join(parts, ","));
    RenamedParts(parts, t);
    JoinedParts([t] + parts[1..]);
  }

  predicate InSurge(t: string) {
    || t == "DOMAIN" || t == "DOMAIN-SUFFIX" || t == "DOMAIN-KEYWORD" || t == "IP-CIDR" || t == "IP-CIDR6"
    || t == "SRC-IP-CIDR" || t == "GEOIP" || t == "MATCH" || t == "FINAL" || t == "USER-AGENT" || t == "URL-REGEX"
    || t == "PROCESS-NAME" || t == "IN-PORT" || t == "DEST-PORT" || t == "SRC-IP"
  }

  predicate InQuanX(t: string) {
    || t == "DOMAIN" || t == "DOMAIN-SUFFIX" || t == "DOMAIN-KEYWORD" || t == "IP-CIDR" || t == "IP-CIDR6"
    || t == "GEOIP"
  }

  predicate InClash(t: string) {
    || t == "DOMAIN" || t == "DOMAIN-SUFFIX" || t == "DOMAIN-KEYWORD" || t == "IP-CIDR" || t == "IP-CIDR6"
    || t == "SRC-IP-CIDR" || t == "GEOIP" || t == "MATCH" || t == "FINAL" || t == "SRC-PORT" || t == "DST-PORT"
    || t == "PROCESS-NAME"
  }

  lemma TypeTables(t: string)
    ensures (t in SURGE_TYPES <==> InSurge(t)) && (t in QUANX_TYPES <==> InQuanX(t))
    ensures t in CLASH_TYPES <==> InClash(t)
  {
  }

  lemma OneOfTypes(line: string, types: seq<string>)
    ensures OfTypes([line], types) == if TypeOf(line) in types then [line] else []
  {
    assert [line][1..] == [];
    assert OfTypes([line][1..], types) == [];
  }

  lemma OneMapped(line: string, f: string -> Option<string>)
    ensures FilterMap([line], f) == match f(line) case Some(x) => [x] case None => []
  {
    assert [line][1..] == [];
    assert FilterMap([line][1..], f) == [];
  }

  /** One rule in the two outputs that hold whole rules: as it is, under its converted type. */
  lemma WholeRule(parts: seq<string>, t: string, group: Option<string>)
    requires Rule(parts) && Renamed(parts[0], t)
    ensures var content, rule := Join(parts, ","), Join([t] + parts[1..], ",");
            Entries(content, Surge, group) == (if InSurge(t) then [rule] else []) &&
            Entries(content, ClashClassical, group) == (if InClash(t) then [rule] else [])
  {
    NormalisedRule(parts, t);
    TypeTables(t);
    OneOfTypes(Join([t] + parts[1..], ","), SURGE_TYPES);
    OneOfTypes(Join([t] + parts[1..], ","), CLASH_TYPES);
  }

  /** In the QuanX output: the type in its own terms, the second part and the group. */
  lemma QuanXRule(parts: seq<string>, t: string, group: Option<string>)
    requires Rule(parts) && Renamed(parts[0], t)
    ensures Entries(Join(parts, ","), QuanX, group) ==
            if InQuanX(t) && |parts| >= 2 then
              [(if t == "IP-CIDR6" then "IP6-CIDR" else t) + "," + parts[1] + "," +
               (if group.Some? then group.value else "Proxy")]
            else []
  {
    var g := if group.Some? then group.value else "Proxy";
    NormalisedRule(parts, t);
    TypeTables(t);
    OneMapped(Join([t] + parts[1..], ","), line => QuanXOf(line, g));
    assert |parts| >= 2 ==> ([t] + parts[1..])[1] == parts[1];
  }

  lemma SecondPart(parts: seq<string>, t: string)
    requires parts != []
    ensures |parts| >= 2 ==> ([t] + parts[1..])[1] == parts[1]
    ensures |[t] + parts[1..]| == |parts| && ([t] + parts[1..])[0] == t
  {
  }

  /** In the two outputs of domains: a suffix gets its dot for Clash alone. */
  lemma DomainRule(parts: seq<string>, t: string, group: Option<string>)
    requires Rule(parts) && Renamed(parts[0], t)
    ensures Entries(Join(parts, ","), ClashDomain, group) ==
            if |parts| < 2 then [] else if t == "DOMAIN" then [parts[1]]
            else if t == "DOMAIN-SUFFIX" then ["." + parts[1]] else []
    ensures Entries(Join(parts, ","), SurgeDomainSet, group) ==
            if |parts| >= 2 && (t == "DOMAIN" || t == "DOMAIN-SUFFIX") then [parts[1]] else []
  {
    var rule := Join([t] + parts[1..], ",");
    NormalisedRule(parts, t);
    SecondPart(parts, t);
    DomainValue([t] + parts[1..], rule, true);
    DomainValue([t] + parts[1..], rule, false);
    OneMapped(rule, line => DomainOf(line, true));
    OneMapped(rule, line => DomainOf(line, false));
  }

  lemma DomainValue(parts: seq<string>, rule: string, provider: bool)
    requires parts != [] && TrimAll(SplitOn(rule, ',')) == parts
    ensures DomainOf(rule, provider) ==
            if |parts| < 2 then None else if parts[0] == "DOMAIN" then Some(parts[1])
            else if parts[0] == "DOMAIN-SUFFIX" then Some(if provider then "." + parts[1] else parts[1]) else None
  {
    assert |parts| >= 2 ==> "" + parts[1] == parts[1];
  }

  /** In the output of addresses: both kinds of them. */
  lemma AddressRule(parts: seq<string>, t: string, group: Option<string>)
    requires Rule(parts) && Renamed(parts[0], t)
    ensures Entries(Join(parts, ","), ClashIpCidr, group) ==
            if |parts| >= 2 && (t == "IP-CIDR" || t == "IP-CIDR6") then [parts[1]] else []
  {
    NormalisedRule(parts, t);
    SecondPart(parts, t);
    OneMapped(Join([t] + parts[1..], ","), line => IpOf(line));
  }

  // ---------------------------------------------------------------- the quotes of a payload

  function Undoubled(s: string): string {
    if |s| < 2 then s
    else if s[0] == '\'' && s[1] == '\'' then "'" + Undoubled(s[2..])
    else [s[0]] + Undoubled(s[1..])
  }

  /** How a scalar of a payload is read: between single quotes, each pair of quotes stands for one. */
  function ReadScalar(s: string): string {
    if |s| >= 2 && s[0] == '\'' && s[|s| - 1] == '\'' then Undoubled(s[1..|s| - 1]) else s
  }

  lemma {:induction false} UndoubledBack(s: string)
    ensures Undoubled(DoubleQuotes(s)) == s
  {
    if s != "" {
      var rest := DoubleQuotes(s[1..]);
      UndoubledBack(s[1..]);
      assert s == [s[0]] + s[1..];
      if s[0] == '\'' {
        assert DoubleQuotes(s)[2..] == rest;
      } else {
        assert DoubleQuotes(s)[1..] == rest;
      }
    }
  }

  lemma {:induction false} UndoubledShorter(s: string)
    ensures |Undoubled(s)| <= |s|
    decreases |s|
  {
    if |s| >= 2 { UndoubledShorter(if s[0] == '\'' && s[1] == '\'' then s[2..] else s[1..]); }
  }

  /** Every item reads back, except one that is between quotes of its own and was given no others. */
  lemma QuotedReadsBack(value: string)
    ensures ReadScalar(QuoteScalar(value)) == value <==>
            (',' in value || ':' in value || (value != "" && value[0] == '+')) ||
            !(|value| >= 2 && value[0] == '\'' && value[|value| - 1] == '\'')
  {
    if ',' in value || ':' in value || (value != "" && value[0] == '+') {
      var quoted := "'" + DoubleQuotes(value) + "'";
      assert quoted[1..|quoted| - 1] == DoubleQuotes(value);
      UndoubledBack(value);
    } else if |value| >= 2 && value[0] == '\'' && value[|value| - 1] == '\'' {
      UndoubledShorter(value[1..|value| - 1]);
    }
  }
}
