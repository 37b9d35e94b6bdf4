/** Reading a subscription: a list of links, or base64 of one, nested to any depth. */
module Subscription {
  import opened Wrappers
  import opened Text
  import opened Base64
  import opened Percent
  import opened ShareLinks
  import Decimal

  type Nodes = Result<seq<Proxy>, Error>

  /**
   The parsers that are not modelled. `yaml` and `json` give the nodes they claim, none when they fail;
   `link` reads every scheme other than `ss` and `ssr`; `printLink` prints the other node types.
   */
  datatype Foreign = Foreign(
    yaml: string -> seq<Proxy>,
    json: string -> seq<Proxy>,
    link: string -> Result<Proxy, Error>,
    printLink: Proxy -> Option<string>)

  /** Neither document parser claims the text. */
  predicate Quiet(f: Foreign, source: string) {
    f.yaml(source) == [] && f.json(source) == []
  }

  predicate IsSeparator(c: char) {
    c == '|' || c == '\n' || c == '\r'
  }

  predicate Unseparated(s: string) {
    forall c :: c in s ==> !IsSeparator(c)
  }

  function Grow(c: char, parts: seq<string>): seq<string>
    requires parts != []
  {
    [[c] + parts[0]] + parts[1..]
  }

  function SplitParts(s: string): (parts: seq<string>)
    ensures parts != []
  {
    if s == "" then [""]
    else if IsSeparator(s[0]) then [""] + SplitParts(s[1..])
    else Grow(s[0], SplitParts(s[1..]))
  }

  function KeepItems(parts: seq<string>): (items: seq<string>)
    ensures forall item :: item in items ==> item != "" && Trimmed(item)
  {
    if parts == [] then []
    else
      var item := Trim(parts[0]);
      (if item == "" then [] else [item]) + KeepItems(parts[1..])
  }

  /** `split_sources`. */
  function SplitSources(input: string): seq<string> {
    KeepItems(SplitParts(input))
  }

  function TotalLength(items: seq<string>): nat {
    if items == [] then 0 else |items[0]| + TotalLength(items[1..])
  }

  lemma {:induction false} KeepItemsLength(parts: seq<string>)
    ensures TotalLength(KeepItems(parts)) <= TotalLength(parts)
  {
    if parts != [] {
      KeepItemsLength(parts[1..]);
      if Trim(parts[0]) != "" {
        assert KeepItems(parts)[1..] == KeepItems(parts[1..]);
      } else {
        assert KeepItems(parts) == KeepItems(parts[1..]);
      }
    }
  }

  lemma {:induction false} SplitPartsLength(s: string)
    ensures TotalLength(SplitParts(s)) <= |s|
  {
    if s != "" {
      SplitPartsLength(s[1..]);
      var rest := SplitParts(s[1..]);
      if IsSeparator(s[0]) { assert SplitParts(s)[1..] == rest; }
    }
  }

  lemma SourcesShrink(source: string)
    ensures TotalLength(SplitSources(source)) <= |source|
  {
    SplitPartsLength(source);
    KeepItemsLength(SplitParts(source));
  }

  const OTHER_SCHEMES := ["vmess://", "trojan://", "snell://", "wireguard://", "hysteria://", "hysteria2://",
                          "hy2://", "tg://http", "tg://socks", "https://t.me/http", "https://t.me/socks",
                          "http://", "https://"]

  predicate HasOtherScheme(item: string) {
    exists i | 0 <= i < |OTHER_SCHEMES| :: OTHER_SCHEMES[i] <= item
  }

  function Append(first: Nodes, second: Nodes): Nodes {
    match first
    case Err(e) => Err(e)
    case Ok(xs) =>
      match second
      case Err(e) => Err(e)
      case Ok(ys) => Ok(xs + ys)
  }

  function Single(r: Result<Proxy, Error>): Nodes {
    match r
    case Err(e) => Err(e)
    case Ok(node) => Ok([node])
  }

  /** One item of a source: a link of a known scheme, base64 of another source, or nothing. */
  function ParseItem(f: Foreign, item: string): Nodes
    requires item != ""
    decreases |item|, 0, 0
  {
    if "ss://" <= item then Single(ParseSsLink(item))
    else if "ssr://" <= item then Single(ParseSsrLink(item))
    else if HasOtherScheme(item) then Single(f.link(item))
    else
      match Decode64(item)
      case None => Ok([])
      case Some(decoded) =>
        Decode64Shrinks(item);
        ParseSource(f, decoded)
  }

  function ParseItems(f: Foreign, items: seq<string>): Nodes
    requires "" !in items
    decreases TotalLength(items), 1, |items|
  {
    if items == [] then Ok([]) else Append(ParseItem(f, items[0]), ParseItems(f, items[1..]))
  }

  /** `parse_subscription_source`: every nested reading is of a shorter text. */
  function ParseSource(f: Foreign, source: string): Nodes
    decreases |source|, 2, 0
  {
    if f.yaml(source) != [] then Ok(f.yaml(source))
    else if f.json(source) != [] then Ok(f.json(source))
    else
      SourcesShrink(source);
      ParseItems(f, SplitSources(source))
  }

  /** The same as the program writes it: nodes are pushed in a loop that stops at the first error. */
  method ParseSubscription(f: Foreign, source: string) returns (r: Nodes)
    ensures r == ParseSource(f, source)
    decreases |source|, 1
  {
    if f.yaml(source) != [] { return Ok(f.yaml(source)); }
    if f.json(source) != [] { return Ok(f.json(source)); }
    var nodes: seq<Proxy> := [];
    var items := SplitSources(source);
    SourcesShrink(source);
    AppendNothing(ParseItems(f, items));
    assert items[0..] == items;
    for i := 0 to |items|
      invariant ParseItems(f, items) == Append(Ok(nodes), ParseItems(f, items[i..]))
    {
      assert items[i..][0] == items[i] && items[i..][1..] == items[i + 1..];
      ItemLength(items, i);
      var parsed := ParseSubscriptionItem(f, items[i]);
      if parsed.Err? { return parsed; }
      AppendAssociates(Ok(nodes), parsed, ParseItems(f, items[i + 1..]));
      nodes := nodes + parsed.value;
    }
    AppendNothing(Ok(nodes));
    return Ok(nodes);
  }

  method ParseSubscriptionItem(f: Foreign, item: string) returns (r: Nodes)
    requires item != ""
    ensures r == ParseItem(f, item)
    decreases |item|, 0
  {
    if "ss://" <= item { return Single(ParseSsLink(item)); }
    if "ssr://" <= item { return Single(ParseSsrLink(item)); }
    if HasOtherScheme(item) { return Single(f.link(item)); }
    var decoded := Decode64(item);
    if decoded.None? { return Ok([]); }
    Decode64Shrinks(item);
    r := ParseSubscription(f, decoded.value);
  }

  lemma {:induction false} ItemLength(items: seq<string>, i: nat)
    requires i < |items|
    ensures |items[i]| <= TotalLength(items)
  {
    if i > 0 { ItemLength(items[1..], i - 1); }
  }

  lemma AppendAssociates(a: Nodes, b: Nodes, c: Nodes)
    ensures Append(Append(a, b), c) == Append(a, Append(b, c))
  {
    if a.Ok? && b.Ok? && c.Ok? { assert a.value + b.value + c.value == a.value + (b.value + c.value); }
  }

  lemma {:induction false} ParseItemsConcat(f: Foreign, a: seq<string>, b: seq<string>)
    requires "" !in a && "" !in b
    ensures ParseItems(f, a + b) == Append(ParseItems(f, a), ParseItems(f, b))
  {
    if a == [] {
      assert a + b == b;
      AppendNothing(ParseItems(f, b));
    } else {
      assert (a + b)[1..] == a[1..] + b;
      ParseItemsConcat(f, a[1..], b);
      AppendAssociates(ParseItem(f, a[0]), ParseItems(f, a[1..]), ParseItems(f, b));
    }
  }

  lemma AppendNothing(r: Nodes)
    ensures Append(Ok([]), r) == r && Append(r, Ok([])) == r
  {
    if r.Ok? { assert [] + r.value == r.value && r.value + [] == r.value; }
  }

  lemma ParseOneItem(f: Foreign, item: string)
    requires item != ""
    ensures ParseItems(f, [item]) == ParseItem(f, item)
  {
    assert [item][1..] == [];
    assert ParseItems(f, [item][1..]) == Ok([]);
    AppendNothing(ParseItem(f, item));
  }

  // ---------------------------------------------------------------- cutting a source into items

  lemma {:induction false} PartsOfCons(a: string, sep: char, b: string)
    requires IsSeparator(sep)
    ensures SplitParts(a + [sep] + b) == SplitParts(a) + SplitParts(b)
  {
    var s := a + [sep] + b;
    if a == "" {
      assert s[1..] == b;
    } else {
      assert s[1..] == a[1..] + [sep] + b && s[0] == a[0];
      PartsOfCons(a[1..], sep, b);
      GrowConcat(a[0], SplitParts(a[1..]), SplitParts(b));
    }
  }

  lemma GrowConcat(c: char, parts: seq<string>, rest: seq<string>)
    requires parts != []
    ensures Grow(c, parts + rest) == Grow(c, parts) + rest
    ensures [""] + (parts + rest) == [""] + parts + rest
  {
    assert (parts + rest)[1..] == parts[1..] + rest;
  }

  lemma {:induction false} KeepItemsConcat(a: seq<string>, b: seq<string>)
    ensures KeepItems(a + b) == KeepItems(a) + KeepItems(b)
  {
    if a == [] {
      assert a + b == b;
    } else {
      assert (a + b)[1..] == a[1..] + b;
      KeepItemsConcat(a[1..], b);
    }
  }

  lemma SourcesOfCons(a: string, sep: char, b: string)
    requires IsSeparator(sep)
    ensures SplitSources(a + [sep] + b) == SplitSources(a) + SplitSources(b)
  {
    PartsOfCons(a, sep, b);
    KeepItemsConcat(SplitParts(a), SplitParts(b));
  }

  /** Where the first part of a source ends. */
  function FirstSeparator(s: string): (k: nat)
    ensures k <= |s|
    ensures k < |s| ==> IsSeparator(s[k])
    ensures forall i :: 0 <= i < k ==> !IsSeparator(s[i])
  {
    if s == "" || IsSeparator(s[0]) then 0 else FirstSeparator(s[1..]) + 1
  }

  lemma {:induction false} FirstSeparatorNone(s: string)
    ensures Unseparated(s) <==> FirstSeparator(s) == |s|
  {
    if s != "" {
      FirstSeparatorNone(s[1..]);
      assert s == [s[0]] + s[1..];
    }
  }

  lemma {:induction false} FirstSeparatorOf(l: string, r: string)
    ensures FirstSeparator(l + r) == if Unseparated(l) then |l| + FirstSeparator(r) else FirstSeparator(l)
  {
    if l == "" {
      assert l + r == r;
    } else {
      assert (l + r)[1..] == l[1..] + r && l == [l[0]] + l[1..];
      FirstSeparatorOf(l[1..], r);
    }
  }

  lemma {:induction false} FirstPart(s: string)
    ensures SplitParts(s)[0] == s[..FirstSeparator(s)]
    ensures FirstSeparator(s) == |s| ==> SplitParts(s) == [s]
  {
    if s != "" && !IsSeparator(s[0]) {
      FirstPart(s[1..]);
      assert s == [s[0]] + s[1..];
    }
  }

  lemma ItemsBeginWith(s: string, k: nat, first: string)
    requires FirstSeparator(s) == k && Trim(s[..k]) == first && first != ""
    ensures SplitSources(s) != [] && SplitSources(s)[0] == first
    ensures k == |s| ==> SplitSources(s) == [first]
  {
    FirstPart(s);
    var parts := SplitParts(s);
    assert KeepItems(parts)[0] == first;
    if k == |s| {
      WholeText(s);
      assert parts == [s];
      assert KeepItems([s][1..]) == [];
    }
  }

  lemma WholeText(s: string)
    ensures s[..|s|] == s
  {
  }

  lemma NoSeparatorOneItem(s: string)
    requires s != "" && Trimmed(s) && Unseparated(s)
    ensures SplitSources(s) == [s]
  {
    FirstSeparatorNone(s);
    TrimOfTrimmed(s);
    WholeText(s);
    ItemsBeginWith(s, |s|, s);
  }

  /** A source is cut at every vertical bar, line feed and carriage return, and at nothing else. */
  lemma SourcesAreCut(a: string, sep: char, b: string)
    requires sep == '|' || sep == '\n' || sep == '\r'
    ensures SplitSources(a + [sep] + b) == SplitSources(a) + SplitSources(b)
  {
    SourcesOfCons(a, sep, b);
  }

  lemma UncutSource(s: string)
    requires '|' !in s && '\n' !in s && '\r' !in s
    ensures SplitSources(s) == if Trim(s) == "" then [] else [Trim(s)]
  {
    FirstSeparatorNone(s);
    WholeText(s);
    FirstPart(s);
    assert KeepItems([s][1..]) == [];
  }

  // ---------------------------------------------------------------- what a source is read as

  /** The YAML reader comes first, then the JSON reader, if they find nodes. */
  lemma DocumentsFirst(f: Foreign, source: string)
    ensures f.yaml(source) != [] ==> ParseSource(f, source) == Ok(f.yaml(source))
    ensures f.yaml(source) == [] && f.json(source) != [] ==> ParseSource(f, source) == Ok(f.json(source))
  {
  }

  /** A text that is one item as it stands. */
  predicate OneItem(text: string) {
    text != "" && Trimmed(text) && '|' !in text && '\n' !in text && '\r' !in text
  }

  lemma ParseOneItemSource(f: Foreign, text: string)
    requires OneItem(text) && Quiet(f, text)
    ensures ParseSource(f, text) == ParseItem(f, text)
  {
    UncutSource(text);
    TrimOfTrimmed(text);
    ParseOneItem(f, text);
  }

  lemma OtherSchemeAt(text: string, i: nat)
    requires i < |OTHER_SCHEMES| && OTHER_SCHEMES[i] <= text
    ensures HasOtherScheme(text) && !("ss://" <= text) && !("ssr://" <= text)
  {
    var scheme := OTHER_SCHEMES[i];
    assert scheme[1] != 's' by { SecondLetters(i); }
    assert text[1] == scheme[1];
  }

  lemma SecondLetters(i: nat)
    requires i < |OTHER_SCHEMES|
    ensures |OTHER_SCHEMES[i]| > 5 && OTHER_SCHEMES[i][1] != 's'
  {
  }

  /** Thirteen schemes are left to the other readers: the text is the link that is read, and its error is the error. */
  lemma OtherLinks(f: Foreign, text: string)
    requires OneItem(text) && Quiet(f, text)
    requires || "vmess://" <= text || "trojan://" <= text || "snell://" <= text || "wireguard://" <= text
             || "hysteria://" <= text || "hysteria2://" <= text || "hy2://" <= text
             || "tg://http" <= text || "tg://socks" <= text
             || "https://t.me/http" <= text || "https://t.me/socks" <= text
             || "http://" <= text || "https://" <= text
    ensures ParseSource(f, text) ==
            match f.link(text) case Ok(node) => Ok([node]) case Err(e) => Err(e)
  {
    SchemesListed();
    var i :| 0 <= i < |OTHER_SCHEMES| && OTHER_SCHEMES[i] <= text;
    OtherSchemeAt(text, i);
    ParseOneItemSource(f, text);
  }

  lemma SchemesListed()
    ensures |OTHER_SCHEMES| == 13
    ensures OTHER_SCHEMES[0] == "vmess://" && OTHER_SCHEMES[1] == "trojan://" && OTHER_SCHEMES[2] == "snell://"
    ensures OTHER_SCHEMES[3] == "wireguard://" && OTHER_SCHEMES[4] == "hysteria://"
    ensures OTHER_SCHEMES[5] == "hysteria2://" && OTHER_SCHEMES[6] == "hy2://"
    ensures OTHER_SCHEMES[7] == "tg://http" && OTHER_SCHEMES[8] == "tg://socks"
    ensures OTHER_SCHEMES[9] == "https://t.me/http" && OTHER_SCHEMES[10] == "https://t.me/socks"
    ensures OTHER_SCHEMES[11] == "http://" && OTHER_SCHEMES[12] == "https://"
  {
  }

  /** The two schemes read here. */
  lemma OwnLinks(f: Foreign, text: string)
    requires OneItem(text) && Quiet(f, text)
    ensures "ss://" <= text ==>
              ParseSource(f, text) == match ParseSsLink(text) case Ok(node) => Ok([node]) case Err(e) => Err(e)
    ensures "ssr://" <= text ==>
              ParseSource(f, text) == match ParseSsrLink(text) case Ok(node) => Ok([node]) case Err(e) => Err(e)
  {
    ParseOneItemSource(f, text);
    SsrIsNotSs(text);
  }

  lemma SsrIsNotSs(text: string)
    ensures "ssr://" <= text ==> !("ss://" <= text)
  {
    if "ssr://" <= text { assert text[2] == 'r'; }
  }

  /** Any other item: what its base64 hides, or nothing. */
  lemma OtherItems(f: Foreign, text: string)
    requires OneItem(text) && Quiet(f, text)
    requires !("ss://" <= text || "ssr://" <= text || "vmess://" <= text || "trojan://" <= text || "snell://" <= text
               || "wireguard://" <= text || "hysteria://" <= text || "hysteria2://" <= text || "hy2://" <= text
               || "tg://http" <= text || "tg://socks" <= text || "http://" <= text || "https://" <= text)
    ensures ParseSource(f, text) ==
            match Decode64(text) case Some(decoded) => ParseSource(f, decoded) case None => Ok([])
  {
    NoOtherScheme(text);
    ParseOneItemSource(f, text);
  }

  lemma NoOtherScheme(text: string)
    requires !("vmess://" <= text || "trojan://" <= text || "snell://" <= text || "wireguard://" <= text
               || "hysteria://" <= text || "hysteria2://" <= text || "hy2://" <= text
               || "tg://http" <= text || "tg://socks" <= text || "http://" <= text || "https://" <= text)
    ensures !HasOtherScheme(text)
  {
    SchemesListed();
    TelegramIsHttps(text);
  }

  lemma TelegramIsHttps(text: string)
    ensures "https://t.me/http" <= text || "https://t.me/socks" <= text ==> "https://" <= text
  {
    assert "https://t.me/http"[..8] == "https://" && "https://t.me/socks"[..8] == "https://";
    if "https://t.me/http" <= text { assert text[..17][..8] == text[..8]; }
    if "https://t.me/socks" <= text { assert text[..18][..8] == text[..8]; }
  }

  /** Several items: the nodes of each, in order, unless one is refused. */
  lemma ItemsInOrder(f: Foreign, a: string, sep: char, b: string)
    requires sep == '|' || sep == '\n' || sep == '\r'
    requires Quiet(f, a) && Quiet(f, b) && Quiet(f, a + [sep] + b)
    ensures ParseSource(f, a + [sep] + b) ==
            match ParseSource(f, a)
            case Err(e) => Err(e)
            case Ok(xs) => match ParseSource(f, b) case Err(e) => Err(e) case Ok(ys) => Ok(xs + ys)
  {
    SourcesAreCut(a, sep, b);
    ParseItemsConcat(f, SplitSources(a), SplitSources(b));
  }

  // ---------------------------------------------------------------- base64 wrapping is transparent

  lemma SchemesHaveColons()
    ensures forall i :: 0 <= i < |OTHER_SCHEMES| ==> ':' in OTHER_SCHEMES[i]
    ensures ':' in "ss://" && ':' in "ssr://"
  {
    assert "ss://"[2] == ':' && "ssr://"[3] == ':';
    assert "vmess://"[5] == ':' && "trojan://"[6] == ':' && "snell://"[5] == ':' && "wireguard://"[9] == ':';
    assert "hysteria://"[8] == ':' && "hysteria2://"[9] == ':' && "hy2://"[3] == ':' && "tg://http"[2] == ':';
    assert "tg://socks"[2] == ':' && "https://t.me/http"[5] == ':' && "https://t.me/socks"[5] == ':';
    assert "http://"[4] == ':' && "https://"[5] == ':';
  }

  lemma NoColonNoScheme(item: string)
    requires ':' !in item
    ensures !("ss://" <= item) && !("ssr://" <= item) && !HasOtherScheme(item)
  {
    SchemesHaveColons();
    forall scheme: string | scheme <= item ensures ':' !in scheme {
      assert forall i :: 0 <= i < |scheme| ==> scheme[i] == item[i] && item[i] in item;
    }
  }

  /** Base64 of a text parses as the text itself. */
  lemma WrappedOnce(f: Foreign, source: string)
    requires Quiet(f, Encode64(source)) && (source == "" ==> Quiet(f, source))
    ensures ParseSource(f, Encode64(source)) == ParseSource(f, source)
  {
    var t := Encode64(source);
    EncodedAlphabet(source);
    if source != "" {
      NoSeparatorOneItem(t);
      NoColonNoScheme(t);
      Decode64OfEncode64(source);
      ParseOneItem(f, t);
    }
  }

  function Wrap(source: string, times: nat): string {
    if times == 0 then source else Encode64(Wrap(source, times - 1))
  }

  /** Any number of base64 layers parse as what is inside them. */
  lemma {:induction false} Wrapped(f: Foreign, source: string, times: nat)
    requires forall k :: 0 < k <= times ==> Quiet(f, Wrap(source, k))
    requires source == "" ==> Quiet(f, source)
    ensures ParseSource(f, Wrap(source, times)) == ParseSource(f, source)
  {
    if times > 0 {
      Wrapped(f, source, times - 1);
      assert Quiet(f, Wrap(source, times));
      if Wrap(source, times - 1) == "" && times > 1 { assert Quiet(f, Wrap(source, times - 1)); }
      WrappedOnce(f, Wrap(source, times - 1));
    }
  }

  // ---------------------------------------------------------------- printed subscriptions

  /** `export_share_link`. */
  function PrintLink(f: Foreign, node: Proxy): Option<string> {
    match node.proxyType
    case ShadowsocksR => Some(PrintSsrLink(node))
    case Shadowsocks => Some(PrintSsLink(node))
    case VMess => f.printLink(node)
    case Trojan => f.printLink(node)
    case _ => None
  }

  function PrintLinks(f: Foreign, nodes: seq<Proxy>): seq<string> {
    if nodes == [] then []
    else
      (match PrintLink(f, nodes[0]) case Some(link) => [link] case None => []) + PrintLinks(f, nodes[1..])
  }

  function OfType(nodes: seq<Proxy>, t: ProxyType): (r: seq<Proxy>)
    ensures forall n :: n in r <==> n in nodes && n.proxyType == t
  {
    if nodes == [] then [] else (if nodes[0].proxyType == t then [nodes[0]] else []) + OfType(nodes[1..], t)
  }

  lemma {:induction false} OfTypeConcat(a: seq<Proxy>, b: seq<Proxy>, t: ProxyType)
    ensures OfType(a + b, t) == OfType(a, t) + OfType(b, t)
  {
    if a == [] {
      assert a + b == b;
    } else {
      assert (a + b)[1..] == a[1..] + b;
      OfTypeConcat(a[1..], b, t);
    }
  }

  /** Each node of the type is exported, in the order of the list. */
  lemma OfTypeInOrder(front: seq<Proxy>, node: Proxy, rest: seq<Proxy>, t: ProxyType)
    ensures OfType(front + ([node] + rest), t) ==
            if node.proxyType == t then OfType(front, t) + ([node] + OfType(rest, t))
            else OfType(front, t) + OfType(rest, t)
  {
    OfTypeConcat(front, [node] + rest, t);
    OfTypeCons(node, rest, t);
  }

  lemma OfTypeCons(node: Proxy, rest: seq<Proxy>, t: ProxyType)
    ensures OfType([node] + rest, t) == if node.proxyType == t then [node] + OfType(rest, t) else OfType(rest, t)
  {
    assert ([node] + rest)[1..] == rest;
  }

  /** `export_mixed`. */
  function ExportMixed(f: Foreign, nodes: seq<Proxy>): string {
    Encode64(Join(PrintLinks(f, nodes), "\n") + "\n")
  }

  /** `export_single_links`. */
  function ExportSingleLinks(f: Foreign, nodes: seq<Proxy>, t: ProxyType): string {
    ExportMixed(f, OfType(nodes, t))
  }

  /** The exported text is base64 of the links of the nodes that have one, each on a line of its own. */
  lemma ExportedLines(f: Foreign, nodes: seq<Proxy>)
    ensures Decode64(ExportMixed(f, nodes)).Some?
    ensures (exists n :: n in nodes && PrintLink(f, n).Some?) ==>
            Decode64(ExportMixed(f, nodes)).value == EachEnded(PrintLinks(f, nodes))
  {
    var links := PrintLinks(f, nodes);
    assert Join(links, "\n") + "\n" != "";
    Decode64OfEncode64(Join(links, "\n") + "\n");
    SomeLink(f, nodes);
    if links != [] { JoinedIsEnded(links); }
  }

  function EachEnded(links: seq<string>): string {
    if links == [] then "" else links[0] + ['\n'] + EachEnded(links[1..])
  }

  lemma {:induction false} JoinedIsEnded(links: seq<string>)
    requires links != []
    ensures Join(links, "\n") + "\n" == EachEnded(links)
  {
    if |links| == 1 {
      assert EachEnded(links[1..]) == "";
    } else {
      JoinedIsEnded(links[1..]);
      assert Join(links, "\n") + "\n" == links[0] + "\n" + (Join(links[1..], "\n") + "\n");
    }
  }

  lemma {:induction false} SomeLink(f: Foreign, nodes: seq<Proxy>)
    ensures PrintLinks(f, nodes) != [] <==> exists n :: n in nodes && PrintLink(f, n).Some?
  {
    if nodes != [] {
      SomeLink(f, nodes[1..]);
      assert nodes == [nodes[0]] + nodes[1..];
    }
  }

  predicate SsOrSsr(node: Proxy) {
    node.proxyType == Shadowsocks || node.proxyType == ShadowsocksR
  }

  function LinkOf(node: Proxy): string {
    if node.proxyType == Shadowsocks then PrintSsLink(node) else PrintSsrLink(node)
  }

  function Carried(node: Proxy): Proxy {
    if node.proxyType == Shadowsocks then SsCarried(node) else SsrCarried(node)
  }

  function CarriedAll(nodes: seq<Proxy>): (r: seq<Proxy>)
    ensures |r| == |nodes| && forall i :: 0 <= i < |nodes| ==> r[i] == Carried(nodes[i])
  {
    if nodes == [] then [] else [Carried(nodes[0])] + CarriedAll(nodes[1..])
  }

  function SsHead(node: Proxy): string {
    "ss://" + EncodeTrimmed(SsUser(node)) + "@"
  }

  /** No list separator in the host or the remark, and no white space at the end of the remark. */
  predicate SsListable(node: Proxy) {
    && Unseparated(node.hostname) && Unseparated(node.remark)
    && (node.remark == "" || !IsSpace(node.remark[|node.remark| - 1]))
  }

  /** What the caller of the exporter can check beforehand, node by node. */
  predicate Listable(node: Proxy) {
    if node.proxyType == Shadowsocks then SsPrintable(node) && SsListable(node) else SsrPrintable(node)
  }

  lemma {:induction false} SourcesOfLines(links: seq<string>)
    ensures SplitSources(Join(links, "\n") + "\n") == ItemsOf(links)
  {
    SourcesOfNothing();
    if links == [] {
      SourcesOfCons("", '\n', "");
      assert "" + ['\n'] + "" == Join(links, "\n") + "\n";
    } else if |links| == 1 {
      SourcesOfCons(links[0], '\n', "");
      assert links[0] + ['\n'] + "" == Join(links, "\n") + "\n";
      assert ItemsOf(links[1..]) == [] && SplitSources(links[0]) + [] == SplitSources(links[0]);
    } else {
      SourcesOfLines(links[1..]);
      SourcesOfCons(links[0], '\n', Join(links[1..], "\n") + "\n");
      Regroup(links[0] + ['\n'], Join(links[1..], "\n"), "\n");
    }
  }

  lemma SourcesOfNothing()
    ensures SplitSources("") == []
  {
    assert SplitParts("") == [""] && [""][1..] == [];
  }

  function ItemsOf(links: seq<string>): (items: seq<string>)
    ensures "" !in items
  {
    if links == [] then [] else SplitSources(links[0]) + ItemsOf(links[1..])
  }

  // The first item that a printed `ss://` link turns into.

  lemma SsHeadIsPlain(node: Proxy)
    ensures var head := SsHead(node);
            head != "" && !IsSpace(head[0]) && !IsSpace(head[|head| - 1]) && Unseparated(head)
    ensures PrintSsLink(node) == SsHead(node) + SsTail(node)
  {
    TrimmedText(SsUser(node));
    SsPrefixIsPlain("ss://");
    HeadIsPlain("ss://", EncodeTrimmed(SsUser(node)));
  }

  lemma SsPrefixIsPlain(prefix: string)
    requires prefix == ['s', 's', ':', '/', '/']
    ensures Unseparated(prefix) && !IsSpace(prefix[0])
  {
  }

  lemma HeadIsPlain(prefix: string, user: string)
    requires prefix != "" && Unseparated(prefix) && !IsSpace(prefix[0]) && InAlphabet(user)
    ensures var head := prefix + user + "@";
            head != "" && !IsSpace(head[0]) && !IsSpace(head[|head| - 1]) && Unseparated(head)
  {
  }

  lemma HeadOfLink(head: string, tail: string, k: nat)
    requires k <= |tail|
    ensures (head + tail)[..|head| + k] == head + tail[..k]
  {
  }

  lemma TrimmedHead(head: string, tail: string, k: nat)
    requires head != "" && !IsSpace(head[0]) && !IsSpace(head[|head| - 1]) && k <= |tail|
    ensures Trim((head + tail)[..|head| + k]) == head + TrimEnd(tail[..k])
  {
    HeadOfLink(head, tail, k);
    TrimAfterInk(head, tail[..k]);
  }

  lemma SeparatorBehind(head: string, tail: string)
    requires Unseparated(head)
    ensures FirstSeparator(head + tail) == |head| + FirstSeparator(tail)
  {
    FirstSeparatorOf(head, tail);
  }

  lemma FirstItemOf(link: string, m: nat, cut: string, first: string)
    requires FirstSeparator(link) == m && link[..m] == cut && Trim(cut) == first && first != ""
    ensures SplitSources(link) != [] && SplitSources(link)[0] == first
    ensures m == |link| ==> SplitSources(link) == [first]
  {
    ItemsBeginWith(link, m, first);
  }

  lemma FirstItemAfter(head: string, tail: string, k: nat, first: string)
    requires head != "" && !IsSpace(head[0]) && !IsSpace(head[|head| - 1]) && Unseparated(head)
    requires k == FirstSeparator(tail) && first == head + TrimEnd(tail[..k])
    ensures SplitSources(head + tail) != [] && SplitSources(head + tail)[0] == first
    ensures k == |tail| ==> SplitSources(head + tail) == [first]
  {
    SeparatorBehind(head, tail);
    TrimmedHead(head, tail, k);
    FirstItemOf(head + tail, |head| + k, (head + tail)[..|head| + k], first);
  }

  function PortMark(node: Proxy): string {
    ":" + Decimal.Print(node.port) + "#"
  }

  /** Where the first separator of the tail is: in the host, in the remark, or nowhere. */
  lemma SsTailSeparator(node: Proxy)
    ensures SsTail(node) == node.hostname + PortMark(node) + node.remark
    ensures FirstSeparator(SsTail(node)) ==
            if !Unseparated(node.hostname) then FirstSeparator(node.hostname)
            else |node.hostname + PortMark(node)| + FirstSeparator(node.remark)
    ensures Unseparated(node.hostname) <==> FirstSeparator(node.hostname) == |node.hostname|
    ensures Unseparated(node.remark) <==> FirstSeparator(node.remark) == |node.remark|
  {
    assert SsTail(node) == node.hostname + PortMark(node) + node.remark;
    assert node.hostname + PortMark(node) + node.remark == node.hostname + (PortMark(node) + node.remark);
    FirstSeparatorNone(node.hostname);
    FirstSeparatorNone(node.remark);
    FirstSeparatorOf(node.hostname, PortMark(node) + node.remark);
    PortMarkPlain(node);
    FirstSeparatorOf(PortMark(node), node.remark);
  }

  lemma PortMarkPlain(node: Proxy)
    ensures Unseparated(PortMark(node)) && !IsSpace(PortMark(node)[|PortMark(node)| - 1])
  {
  }

  /** What is left of a text after a head, cut at its first separator and trimmed. */
  lemma CutAfter(head: string, remark: string) returns (kept: string)
    requires head != "" && !IsSpace(head[|head| - 1])
    requires !Unseparated(remark) || (remark != "" && IsSpace(remark[|remark| - 1]))
    ensures TrimEnd((head + remark)[..|head| + FirstSeparator(remark)]) == head + kept && |kept| < |remark|
  {
    var k := FirstSeparator(remark);
    FirstSeparatorNone(remark);
    HeadOfLink(head, remark, k);
    TrimEndAfterInk(head, remark[..k]);
    WholeText(remark);
    kept := TrimEnd(remark[..k]);
  }

  lemma CutTail(host: string, mark: string, remark: string, tail: string, k: nat) returns (kept: string)
    requires mark != "" && !IsSpace(mark[|mark| - 1]) && tail == host + mark + remark
    requires k == if !Unseparated(host) then FirstSeparator(host) else |host + mark| + FirstSeparator(remark)
    requires k <= |tail|
    requires Unseparated(host) ==> !Unseparated(remark) || (remark != "" && IsSpace(remark[|remark| - 1]))
    ensures |TrimEnd(tail[..k])| < |host| || (|kept| < |remark| && TrimEnd(tail[..k]) == host + mark + kept)
  {
    kept := "";
    FirstSeparatorNone(host);
    if Unseparated(host) { kept := CutAfter(host + mark, remark); }
  }

  /** The first item of a link that is not listable: the host is cut, or the remark is. */
  lemma SsCutRest(node: Proxy, rest: string) returns (kept: string)
    requires !SsListable(node) && rest == TrimEnd(SsTail(node)[..FirstSeparator(SsTail(node))])
    ensures |rest| < |node.hostname| ||
            (|kept| < |node.remark| && rest == node.hostname + PortMark(node) + kept)
  {
    SsTailSeparator(node);
    PortMarkPlain(node);
    kept := CutTail(node.hostname, PortMark(node), node.remark, SsTail(node), FirstSeparator(SsTail(node)));
  }

  /** A link that is cut at a separator, or trimmed, never reads back as its node. */
  lemma SsCutLink(node: Proxy, rest: string)
    requires !SsListable(node) && rest == TrimEnd(SsTail(node)[..FirstSeparator(SsTail(node))])
    ensures ParseSsLink(SsHead(node) + rest) != Ok(SsCarried(node))
  {
    SsUserIsPlain(node);
    SsRead(EncodeTrimmed(SsUser(node)), rest);
    var kept := SsCutRest(node, rest);
    if |rest| < |node.hostname| {
      assert |SplitFragment(rest).0| <= |rest|;
    } else {
      SsCutRemark(node, kept);
    }
  }

  lemma SsCutRemark(node: Proxy, kept: string)
    requires |kept| < |node.remark|
    ensures var rest := node.hostname + PortMark(node) + kept;
            SsNode(EncodeTrimmed(SsUser(node)), SplitFragment(rest).0, SplitFragment(rest).1) != Ok(SsCarried(node))
  {
    var rest := node.hostname + PortMark(node) + kept;
    assert rest == node.hostname + ":" + Decimal.Print(node.port) + "#" + kept;
    if '#' in node.hostname {
      SplitOnceChar(rest, '#');
    } else {
      TailFragment(node, kept);
      UrlDecodeLength(kept);
    }
  }

  lemma SsWholeLink(node: Proxy)
    requires SsListable(node)
    ensures FirstSeparator(SsTail(node)) == |SsTail(node)| && TrimEnd(SsTail(node)) == SsTail(node)
  {
    SsTailSeparator(node);
    PortMarkPlain(node);
  }

  lemma SsLinkItems(node: Proxy)
    ensures var items := SplitSources(PrintSsLink(node));
            items != [] && "ss://" <= items[0] &&
            (SsListable(node) ==> items == [PrintSsLink(node)]) &&
            (!SsListable(node) ==> ParseSsLink(items[0]) != Ok(SsCarried(node)))
  {
    SsHeadIsPlain(node);
    var k := FirstSeparator(SsTail(node));
    FirstItemAfter(SsHead(node), SsTail(node), k, SsHead(node) + TrimEnd(SsTail(node)[..k]));
    if SsListable(node) {
      SsWholeLink(node);
      WholeText(SsTail(node));
    } else {
      SsCutLink(node, TrimEnd(SsTail(node)[..k]));
    }
  }

  // ---------------------------------------------------------------- one link, then all of them

  /** What a Shadowsocks or SSR item reads as. */
  lemma ParseShareLink(f: Foreign, item: string)
    requires item != ""
    ensures "ss://" <= item ==> ParseItem(f, item) == Single(ParseSsLink(item))
    ensures "ssr://" <= item && !("ss://" <= item) ==> ParseItem(f, item) == Single(ParseSsrLink(item))
  {
  }

  /** A parse that begins with an item begins with what that item reads as. */
  lemma FirstResult(f: Foreign, items: seq<string>, first: Result<Proxy, Error>)
    requires "" !in items && items != [] && ParseItem(f, items[0]) == Single(first)
    ensures var r := ParseItems(f, items);
            (r.Ok? ==> first.Ok? && r.value != [] && r.value[0] == first.value) &&
            (items == [items[0]] ==> r == Single(first))
  {
    assert ParseItems(f, items) == Append(Single(first), ParseItems(f, items[1..]));
    if items == [items[0]] { ParseOneItem(f, items[0]); }
  }

  /** What one printed link contributes to the parse of the list. */
  lemma LinkReadsBack(f: Foreign, node: Proxy)
    requires SsOrSsr(node)
    ensures var r := ParseItems(f, SplitSources(LinkOf(node)));
            (Listable(node) ==> r == Ok([Carried(node)])) &&
            (!Listable(node) && r.Ok? ==> r.value != [] && r.value[0] != Carried(node))
  {
    var items := SplitSources(LinkOf(node));
    if node.proxyType == Shadowsocks {
      SsLinkItems(node);
      SsRoundTrip(node);
      ParseShareLink(f, items[0]);
      FirstResult(f, items, ParseSsLink(items[0]));
    } else {
      SsrRoundTrip(node);
      SsrWholeLink(node);
      ParseShareLink(f, items[0]);
      FirstResult(f, items, ParseSsrLink(items[0]));
    }
  }

  lemma SsrTextIsOneItem(t: string)
    requires forall c :: c in t ==> !IsSeparator(c) && !IsSpace(c)
    ensures SplitSources("ssr://" + t) == ["ssr://" + t]
  {
    var link := "ssr://" + t;
    assert "ssr://" == ['s', 's', 'r', ':', '/', '/'];
    assert link[|link| - 1] == if t == "" then '/' else t[|t| - 1];
    NoSeparatorOneItem(link);
  }

  lemma SsrWholeLink(node: Proxy)
    ensures SplitSources(PrintSsrLink(node)) == [PrintSsrLink(node)]
    ensures "ssr://" <= PrintSsrLink(node) && !("ss://" <= PrintSsrLink(node))
  {
    var text := Join(SsrParts(node), ":") + "/?" + SsrQuery(node);
    EncodedAlphabet(text);
    SsrTextIsOneItem(Encode64(text));
    assert PrintSsrLink(node)[2] == 'r';
  }

  /** What the printed link of a node reads as on its own. */
  function ReadAlone(f: Foreign, node: Proxy): Nodes {
    match PrintLink(f, node)
    case None => Ok([])
    case Some(link) => ParseItems(f, SplitSources(link))
  }

  /**
   What a VMess or Trojan node should come back as: what its reader makes of its link, where that is one
   item of its scheme, and the items the link falls into where it is not. No other type has a link.
   */
  function ForeignBack(f: Foreign, node: Proxy): Nodes {
    if node.proxyType == VMess || node.proxyType == Trojan then
      match f.printLink(node)
      case None => Ok([])
      case Some(link) =>
        if OneItem(link) && ("vmess://" <= link || "trojan://" <= link) then
          match f.link(link) case Ok(back) => Ok([back]) case Err(e) => Err(e)
        else ParseItems(f, SplitSources(link))
    else Ok([])
  }

  lemma ForeignReadsBack(f: Foreign, node: Proxy)
    requires !SsOrSsr(node)
    ensures ReadAlone(f, node) == ForeignBack(f, node)
  {
    var printed := f.printLink(node);
    if printed.Some? && OneItem(printed.value) && ("vmess://" <= printed.value || "trojan://" <= printed.value) {
      SchemesListed();
      OtherSchemeAt(printed.value, if "vmess://" <= printed.value then 0 else 1);
      UncutSource(printed.value);
      TrimOfTrimmed(printed.value);
      ParseOneItem(f, printed.value);
    }
  }

  /** What a node should come back as. */
  function ComesBack(f: Foreign, node: Proxy): seq<Proxy> {
    if SsOrSsr(node) then [Carried(node)]
    else match ForeignBack(f, node) case Ok(ns) => ns case Err(_) => []
  }

  function AllComeBack(f: Foreign, nodes: seq<Proxy>): seq<Proxy> {
    if nodes == [] then [] else ComesBack(f, nodes[0]) + AllComeBack(f, nodes[1..])
  }

  predicate Sound(f: Foreign, node: Proxy) {
    if SsOrSsr(node) then Listable(node) else ForeignBack(f, node).Ok?
  }

  lemma LinksCons(f: Foreign, nodes: seq<Proxy>)
    requires nodes != []
    ensures ParseItems(f, ItemsOf(PrintLinks(f, nodes))) ==
            Append(ReadAlone(f, nodes[0]), ParseItems(f, ItemsOf(PrintLinks(f, nodes[1..]))))
  {
    var link, links := PrintLink(f, nodes[0]), PrintLinks(f, nodes[1..]);
    if link.Some? {
      assert PrintLinks(f, nodes) == [link.value] + links;
      assert ([link.value] + links)[1..] == links;
      ParseItemsConcat(f, SplitSources(link.value), ItemsOf(links));
    } else {
      assert PrintLinks(f, nodes) == links;
      AppendNothing(ParseItems(f, ItemsOf(links)));
    }
  }

  /** Links that are read side by side do not change one another. */
  lemma {:induction false} LinksReadBack(f: Foreign, nodes: seq<Proxy>)
    ensures ParseItems(f, ItemsOf(PrintLinks(f, nodes))) == Ok(AllComeBack(f, nodes))
            <==> forall n :: n in nodes ==> Sound(f, n)
  {
    if nodes != [] {
      var node, rest := nodes[0], nodes[1..];
      var others := ParseItems(f, ItemsOf(PrintLinks(f, rest)));
      assert node in nodes && nodes == [node] + rest;
      LinksCons(f, nodes);
      LinksReadBack(f, rest);
      if SsOrSsr(node) {
        assert PrintLink(f, node) == Some(LinkOf(node));
        LinkReadsBack(f, node);
        OneThenRest(ReadAlone(f, node), others, Carried(node), AllComeBack(f, rest), Listable(node));
      } else {
        ForeignReadsBack(f, node);
        if ForeignBack(f, node).Ok? { SameFirst(ForeignBack(f, node).value, others, AllComeBack(f, rest)); }
      }
    }
  }

  lemma SameFirst(first: seq<Proxy>, second: Nodes, rest: seq<Proxy>)
    ensures Append(Ok(first), second) == Ok(first + rest) <==> second == Ok(rest)
  {
    if second.Ok? { assert (first + second.value)[|first|..] == second.value && (first + rest)[|first|..] == rest; }
  }

  /** Lists put together are the expected list when each is, if a first list that is wrong begins wrong. */
  lemma OneThenRest(first: Nodes, second: Nodes, node: Proxy, rest: seq<Proxy>, good: bool)
    requires good ==> first == Ok([node])
    requires !good && first.Ok? ==> first.value != [] && first.value[0] != node
    ensures Append(first, second) == Ok([node] + rest) <==> good && second == Ok(rest)
  {
    if first.Ok? && second.Ok? {
      var whole := first.value + second.value;
      assert whole[0] == first.value[0] && ([node] + rest)[0] == node;
      assert good ==> whole[1..] == second.value;
      assert ([node] + rest)[1..] == rest;
    }
  }

  /**
   A printed subscription of any nodes reads back as the nodes in their order exactly when every SS and SSR
   node is listable and no other link is refused: each SS or SSR node with everything its link carries, each
   VMess or Trojan node as its reader reads its link, and no node of another type.
   */
  lemma MixedRoundTrip(f: Foreign, nodes: seq<Proxy>)
    requires Quiet(f, ExportMixed(f, nodes)) && Quiet(f, Join(PrintLinks(f, nodes), "\n") + "\n")
    ensures ParseSource(f, ExportMixed(f, nodes)) == Ok(AllComeBack(f, nodes))
            <==> forall n :: n in nodes ==> Sound(f, n)
  {
    var links := PrintLinks(f, nodes);
    WrappedOnce(f, Join(links, "\n") + "\n");
    SourcesOfLines(links);
    LinksReadBack(f, nodes);
  }

  lemma {:induction false} ShareComeBack(f: Foreign, nodes: seq<Proxy>)
    requires forall n :: n in nodes ==> SsOrSsr(n)
    ensures AllComeBack(f, nodes) == CarriedAll(nodes)
  {
    if nodes != [] {
      assert nodes[0] in nodes;
      ShareComeBack(f, nodes[1..]);
    }
  }

  /** The same for the single-type exporter, whatever other nodes the list holds. */
  lemma SingleRoundTrip(f: Foreign, nodes: seq<Proxy>, t: ProxyType)
    requires t == Shadowsocks || t == ShadowsocksR
    requires Quiet(f, ExportSingleLinks(f, nodes, t))
    requires Quiet(f, Join(PrintLinks(f, OfType(nodes, t)), "\n") + "\n")
    ensures ParseSource(f, ExportSingleLinks(f, nodes, t)) == Ok(CarriedAll(OfType(nodes, t)))
            <==> forall n :: n in nodes && n.proxyType == t ==> Listable(n)
  {
    MixedRoundTrip(f, OfType(nodes, t));
    ShareComeBack(f, OfType(nodes, t));
  }
}
