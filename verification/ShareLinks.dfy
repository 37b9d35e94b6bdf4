/** Proxy records and the `ss://` and `ssr://` share links that carry them. */
module ShareLinks {
  import opened Wrappers
  import opened Text
  import opened Base64
  import opened Percent
  import Utf8
  import Decimal

  datatype ProxyType =
    | Unknown | Shadowsocks | ShadowsocksR | VMess | Trojan | Snell
    | Http | Https | Socks5 | WireGuard | Hysteria | Hysteria2

  type Port = p: nat | p < 65536

  /** `details` stands for the fields that no modelled function reads, by name; empty is the default. */
  datatype Proxy = Proxy(
    proxyType: ProxyType,
    group: string,
    remark: string,
    hostname: string,
    port: Port,
    password: string,
    encryptMethod: string,
    protocol: string,
    protocolParam: string,
    obfs: string,
    obfsParam: string,
    details: map<string, string>)

  const DEFAULT := Proxy(Unknown, "", "", "", 0, "", "", "", "", "", "", map[])

  datatype Error =
    | BadBase64 | MissingAt | MissingMethod | MissingHostPort | BadPort | TooFewFields
    | ForeignError(message: string)

  // ---------------------------------------------------------------- ss://

  /** `split_fragment`. */
  function SplitFragment(input: string): (string, Option<string>) {
    match SplitOnce(input, "#")
    case Some((left, right)) => (left, Some(UrlDecode(right)))
    case None => (input, None)
  }

  /** `split_host_port`. */
  function SplitHostPort(input: string): (r: Result<(string, Port), Error>)
    ensures r.Ok? ==> r.value.0 <= input
  {
    match SplitLast(input, ':')
    case None => Err(MissingHostPort)
    case Some((host, port)) =>
      match Decimal.Parse(port, 65535)
      case None => Err(BadPort)
      case Some(n) => Ok((host, n))
  }

  function SsUserInfo(userInfo: string): Result<string, Error> {
    if ':' in userInfo then Ok(userInfo)
    else
      match Decode64(userInfo)
      case Some(text) => Ok(text)
      case None => Err(BadBase64)
  }

  function SsPayload(payload: string): Result<string, Error> {
    if '@' in payload then Ok(payload)
    else
      match Decode64(payload)
      case Some(text) => Ok(text)
      case None => Err(BadBase64)
  }

  /** A Shadowsocks node from the two sides of the at sign and the decoded fragment. */
  function SsNode(userInfo: string, hostPort: string, fragment: Option<string>): (r: Result<Proxy, Error>)
    ensures r.Ok? ==> r.value.hostname <= hostPort
    ensures r.Ok? ==> r.value.remark == if fragment.Some? then fragment.value else r.value.hostname
  {
    match SsUserInfo(userInfo)
    case Err(e) => Err(e)
    case Ok(user) =>
      match SplitOnce(user, ":")
      case None => Err(MissingMethod)
      case Some((cipher, password)) =>
        match SplitHostPort(hostPort)
        case Err(e) => Err(e)
        case Ok((host, port)) =>
          Ok(DEFAULT.(proxyType := Shadowsocks, group := "SSProvider",
             remark := (if fragment.Some? then fragment.value else host),
             hostname := host, port := port, encryptMethod := cipher, password := password))
  }

  function ParseSsLink(link: string): Result<Proxy, Error> {
    var (payload, fragment) := SplitFragment(TrimStartMatches(link, "ss://"));
    match SsPayload(payload)
    case Err(e) => Err(e)
    case Ok(decoded) =>
      match SplitOnce(decoded, "@")
      case None => Err(MissingAt)
      case Some((userInfo, hostPort)) => SsNode(userInfo, hostPort, fragment)
  }

  function SsUser(node: Proxy): string {
    node.encryptMethod + ":" + node.password
  }

  function SsTail(node: Proxy): string {
    node.hostname + ":" + Decimal.Print(node.port) + "#" + node.remark
  }

  function PrintSsLink(node: Proxy): string {
    "ss://" + EncodeTrimmed(SsUser(node)) + "@" + SsTail(node)
  }

  /** The part of a Shadowsocks node that its link carries. */
  function SsCarried(node: Proxy): Proxy {
    DEFAULT.(proxyType := Shadowsocks, group := "SSProvider", remark := node.remark,
    hostname := node.hostname, port := node.port, encryptMethod := node.encryptMethod, password := node.password)
  }

  /** What the caller of the printer can check beforehand. */
  predicate SsPrintable(node: Proxy) {
    && ReadableUnpadded(SsUser(node))
    && ':' !in node.encryptMethod
    && '#' !in node.hostname
    && !HasEscape(node.remark)
  }

  lemma NoPrefixAgain(prefix: string, k: nat, s: string)
    requires k < |prefix|
    requires k < |s| ==> s[k] != prefix[k]
    ensures TrimStartMatches(prefix + s, prefix) == s
  {
    assert (prefix + s)[|prefix|..] == s;
  }

  lemma SsUserIsPlain(node: Proxy)
    ensures var user := EncodeTrimmed(SsUser(node)); |user| >= 2 && ':' !in user && '@' !in user && '#' !in user
  {
    Utf8.EncodeLength(SsUser(node));
    TrimmedText(SsUser(node));
    UnpaddedText(Utf8.Encode(SsUser(node)));
  }

  lemma FragmentBehind(user: string, rest: string)
    requires '#' !in user
    ensures SplitFragment(user + ['@'] + rest) ==
            (user + ['@'] + SplitFragment(rest).0, SplitFragment(rest).1)
  {
    SplitOnceChar(rest, '#');
    var cut := SplitOnce(rest, "#");
    if cut.Some? {
      var address, tail := cut.value.0, cut.value.1;
      assert user + ['@'] + rest == (user + ['@'] + address) + ['#'] + tail;
      SplitOnceUnique(user + ['@'] + address, '#', tail);
    } else {
      SplitOnceChar(user + ['@'] + rest, '#');
    }
  }

  lemma NoScheme(user: string, rest: string)
    requires |user| >= 2 && ':' !in user && '@' !in user
    ensures TrimStartMatches("ss://" + user + "@" + rest, "ss://") == user + ['@'] + rest
  {
    var body := user + ['@'] + rest;
    assert body[2] == if |user| > 2 then user[2] else '@';
    assert |user| > 2 ==> user[2] in user;
    NoPrefixAgain("ss://", 2, body);
    assert "ss://" + user + "@" + rest == "ss://" + body;
  }

  /** A link with a plain user part falls apart at its first at sign and the hash sign behind it. */
  lemma SsRead(user: string, rest: string)
    requires |user| >= 2 && ':' !in user && '@' !in user && '#' !in user
    ensures ParseSsLink("ss://" + user + "@" + rest) == SsNode(user, SplitFragment(rest).0, SplitFragment(rest).1)
  {
    NoScheme(user, rest);
    FragmentBehind(user, rest);
    var address := SplitFragment(rest).0;
    assert (user + ['@'] + address)[|user|] == '@';
    SplitOnceUnique(user, '@', address);
  }

  /** Reading a printed user part: the method ends at its first colon. */
  lemma SsUserReadBack(node: Proxy)
    ensures SsUserInfo(EncodeTrimmed(SsUser(node)))
            == if ReadableUnpadded(SsUser(node)) then Ok(SsUser(node)) else Err(BadBase64)
    ensures var cut := SplitOnce(SsUser(node), ":");
            cut.Some? && (cut.value == (node.encryptMethod, node.password) <==> ':' !in node.encryptMethod)
  {
    SsUserIsPlain(node);
    Decode64OfTrimmed(SsUser(node));
    SplitOnceChar(SsUser(node), ':');
    if ':' !in node.encryptMethod { SplitOnceUnique(node.encryptMethod, ':', node.password); }
  }

  lemma SsNodeReadBack(node: Proxy, fragment: Option<string>)
    ensures var r := SsNode(EncodeTrimmed(SsUser(node)), node.hostname + ":" + Decimal.Print(node.port), fragment);
            if !ReadableUnpadded(SsUser(node)) then r == Err(BadBase64)
            else
              r.Ok? && r.value.hostname == node.hostname && r.value.port == node.port &&
              (r.value == SsCarried(node).(remark := r.value.remark) <==> ':' !in node.encryptMethod)
  {
    SsUserReadBack(node);
    SplitLastUnique(node.hostname, ':', Decimal.Print(node.port));
    Decimal.ParseOfPrint(node.port, 65535);
  }

  lemma TailFragment(node: Proxy, remark: string)
    requires '#' !in node.hostname
    ensures SplitFragment(node.hostname + ":" + Decimal.Print(node.port) + "#" + remark)
            == (node.hostname + ":" + Decimal.Print(node.port), Some(UrlDecode(remark)))
  {
    SplitOnceUnique(node.hostname + ":" + Decimal.Print(node.port), '#', remark);
  }

  /**
   A printed `ss://` link reads back as the node it was printed from exactly when the user part can
   be read without its padding, the method holds no colon, the host no hash sign and the remark no
   percent escape.
   */
  lemma SsRoundTrip(node: Proxy)
    ensures ParseSsLink(PrintSsLink(node)) == Ok(SsCarried(node)) <==> SsPrintable(node)
  {
    SsUserIsPlain(node);
    SsRead(EncodeTrimmed(SsUser(node)), SsTail(node));
    if '#' in node.hostname {
      SplitOnceChar(SsTail(node), '#');
    } else {
      TailFragment(node, node.remark);
      SsNodeReadBack(node, Some(UrlDecode(node.remark)));
      UrlDecodeKeeps(node.remark);
    }
  }

  /** The node itself reads back exactly when, besides, it holds nothing that the link does not carry. */
  lemma SsRoundTripWhole(node: Proxy)
    ensures ParseSsLink(PrintSsLink(node)) == Ok(node) <==> SsPrintable(node) && node == SsCarried(node)
  {
    SsRoundTrip(node);
    SsUserIsPlain(node);
    SsRead(EncodeTrimmed(SsUser(node)), SsTail(node));
  }

  /** A user part that cannot be read without its padding: the link is printed and refused. */
  lemma UnreadableUser(node: Proxy)
    requires node.encryptMethod == "a" && node.password == ">>" && '#' !in node.hostname
    ensures !ReadableUnpadded(SsUser(node)) && ParseSsLink(PrintSsLink(node)) == Err(BadBase64)
  {
    UnreadableText();
    assert SsUser(node) == "a:>>";
    SsUserIsPlain(node);
    SsRead(EncodeTrimmed(SsUser(node)), SsTail(node));
    TailFragment(node, node.remark);
    SsNodeReadBack(node, Some(UrlDecode(node.remark)));
  }

  lemma UnreadableText()
    ensures !ReadableUnpadded("a:>>")
  {
    var text := "a:>>";
    assert text == ['a'] + ([':'] + (['>'] + (['>'] + "")));
    var bs: seq<Utf8.Byte> := [97, 58, 62, 62];
    assert Utf8.Encode(text) == bs;
    assert bs[3..] == [62];
    var vs: seq<Sextet> := [24, 19, 40, 62, 15, 32];
    assert Sextets([62]) == [15, 32];
    assert Sextets(bs) == [24, 19, 40, 62] + [15, 32] == vs;
    assert 62 in vs by { assert vs[3] == 62; }
    SextetNeedsPlus(vs);
    TrimmedText(text);
  }

  // ---------------------------------------------------------------- ssr://

  function Decoded64Or(t: string, fallback: string): string {
    match Decode64(t)
    case Some(text) => text
    case None => fallback
  }

  function QueryText(args: map<string, string>, key: string, fallback: string): string {
    if key in args then Decoded64Or(args[key], fallback) else fallback
  }

  function SsrHalves(decoded: string): (string, string) {
    match SplitOnce(decoded, "/?")
    case Some(halves) => halves
    case None => (decoded, "")
  }

  function SsrFields(main: string, query: string): Result<Proxy, Error> {
    var parts := SplitOn(main, ':');
    var args := ParseQuery(query);
    if |parts| < 6 then Err(TooFewFields)
    else
      Ok(DEFAULT.(proxyType := ShadowsocksR,
         group := QueryText(args, "group", "SSRProvider"),
         remark := QueryText(args, "remarks", parts[0]),
         hostname := parts[0],
         port := (match Decimal.Parse(parts[1], 65535) case Some(n) => n case None => 0),
         protocol := parts[2],
         encryptMethod := parts[3],
         obfs := parts[4],
         password := Decoded64Or(parts[5], parts[5]),
         obfsParam := QueryText(args, "obfsparam", ""),
         protocolParam := QueryText(args, "protoparam", "")))
  }

  function ParseSsrLink(link: string): Result<Proxy, Error> {
    match Decode64(TrimStartMatches(link, "ssr://"))
    case None => Err(BadBase64)
    case Some(decoded) => SsrFields(SsrHalves(decoded).0, SsrHalves(decoded).1)
  }

  function SsrParts(node: Proxy): seq<string> {
    [node.hostname, Decimal.Print(node.port), node.protocol, node.encryptMethod, node.obfs, Encode64(node.password)]
  }

  function SsrQuery(node: Proxy): string {
    "remarks" + "=" + Encode64(node.remark) + "&" + ("group" + "=" + Encode64(node.group))
  }

  function PrintSsrLink(node: Proxy): string {
    "ssr://" + Encode64(Join(SsrParts(node), ":") + "/?" + SsrQuery(node))
  }

  /** The part of an SSR node that its link carries: neither of the two parameters is printed. */
  function SsrCarried(node: Proxy): Proxy {
    DEFAULT.(proxyType := ShadowsocksR, group := node.group, remark := node.remark, hostname := node.hostname,
    port := node.port, protocol := node.protocol, encryptMethod := node.encryptMethod, obfs := node.obfs,
    password := node.password)
  }

  predicate SsrField(text: string) {
    ':' !in text && !Contains(text, "/?")
  }

  /** What a query value turns into on its way through form decoding and base64. */
  function ThroughQuery(text: string): Option<string> {
    Decode64(PlusToSpace(Encode64(text)))
  }

  /** The text comes back from the query, or the value it is replaced by happens to be the same. */
  predicate QueryKeeps(text: string, fallback: string) {
    '+' !in Encode64(text) || (text == fallback && ThroughQuery(text).None?)
  }

  predicate SsrPrintable(node: Proxy) {
    && SsrField(node.hostname) && SsrField(node.protocol) && SsrField(node.encryptMethod) && SsrField(node.obfs)
    && QueryKeeps(node.remark, node.hostname)
    && QueryKeeps(node.group, "SSRProvider")
  }

  lemma {:induction false} SextetNeedsPlus(vs: seq<Sextet>)
    ensures '+' in StandardText(vs) <==> 62 in vs
  {
    if vs != [] { SextetNeedsPlus(vs[1..]); }
  }

  lemma {:induction false} SextetNeedsMinus(t: string)
    requires Values(t, UrlSafeValue).Some? && 62 in Values(t, UrlSafeValue).value
    ensures '-' in t
  {
    if UrlSafeValue(t[0]) != Some(62) { SextetNeedsMinus(t[1..]); }
  }

  /** Text without plus and minus signs is no reading of an encoding that holds a plus sign. */
  lemma PlusNeeded(text: string, n: string)
    requires '+' in Encode64(text) && '+' !in n && '-' !in n
    ensures DecodeStandard(n) != Some(Utf8.Encode(text))
    ensures DecodeUrlSafe(n) != Some(Utf8.Encode(text))
  {
    var bs := Utf8.Encode(text);
    StandardInverse(n, bs);
    TrimmedText(text);
    SextetNeedsPlus(Sextets(bs));
    if DecodeUrlSafe(n) == Some(bs) {
      SextetsOfBytes(Values(n, UrlSafeValue).value);
      SextetNeedsMinus(n);
    }
  }

  /** A text survives the query exactly when its encoding holds no plus sign. */
  lemma ThroughQueryKeeps(text: string)
    ensures ThroughQuery(text) == Some(text) <==> '+' !in Encode64(text)
  {
    var t := Encode64(text);
    var q := PlusToSpace(t);
    PlusToSpaceChars(t);
    EncodedAlphabet(text);
    if '+' !in t {
      assert q == t;
      Decode64OfEncode64(text);
    } else {
      var n := Trim(q);
      PlusNeeded(text, n);
      if DecodeStandard(n).Some? {
        Utf8.DecodeIffEncode(DecodeStandard(n).value, text);
      } else if DecodeUrlSafe(n).Some? {
        Utf8.DecodeIffEncode(DecodeUrlSafe(n).value, text);
      }
    }
  }

  lemma EncodedIsPlain(text: string)
    ensures '&' !in Encode64(text) && '%' !in Encode64(text)
  {
    EncodedAlphabet(text);
  }

  lemma KeysArePlain()
    ensures "remarks" != "group"
    ensures forall k: string, c: char :: k in {"remarks", "group"} && c in k ==> 'a' <= c <= 'z'
  {
    assert "remarks"[0] != "group"[0];
  }

  lemma SsrQueryReadBack(node: Proxy)
    ensures ParseQuery(SsrQuery(node))
            == map["remarks" := PlusToSpace(Encode64(node.remark))]["group" := PlusToSpace(Encode64(node.group))]
  {
    EncodedIsPlain(node.remark);
    EncodedIsPlain(node.group);
    KeysArePlain();
    QueryOfTwo("remarks", Encode64(node.remark), "group", Encode64(node.group));
  }

  /** What the four query keys are read as; two of them were not printed. */
  lemma SsrQueryTexts(node: Proxy)
    ensures var args := ParseQuery(SsrQuery(node));
            QueryText(args, "remarks", node.hostname)
              == (match ThroughQuery(node.remark) case Some(t) => t case None => node.hostname) &&
            QueryText(args, "group", "SSRProvider")
              == (match ThroughQuery(node.group) case Some(t) => t case None => "SSRProvider") &&
            QueryText(args, "obfsparam", "") == "" && QueryText(args, "protoparam", "") == ""
  {
    SsrQueryReadBack(node);
    var remark, group := PlusToSpace(Encode64(node.remark)), PlusToSpace(Encode64(node.group));
    LookupApart("remarks", remark, "group", group, "obfsparam");
    LookupApart("remarks", remark, "group", group, "protoparam");
  }

  /** Keys of different lengths do not get in one another's way. */
  lemma LookupApart(a: string, x: string, b: string, y: string, c: string)
    requires |a| != |b| && |a| != |c| && |b| != |c|
    ensures var args := map[a := x][b := y];
            (forall fallback :: QueryText(args, a, fallback) == Decoded64Or(x, fallback)) &&
            (forall fallback :: QueryText(args, b, fallback) == Decoded64Or(y, fallback)) &&
            (forall fallback :: QueryText(args, c, fallback) == fallback)
  {
  }

  /** The first `/?` of the printed text is the printed one, even after a password that ends in a slash. */
  lemma SsrCut(main: string, query: string)
    requires !Contains(main, "/?")
    ensures SplitOnce(main + "/?" + query, "/?") == Some((main, query))
  {
    var s := main + "/?" + query;
    assert s[|main|..|main| + 2] == "/?";
    forall j | 0 <= j < |main| ensures !OccursAt(s, "/?", j) {
      assert s[j..j + 2] == [s[j], s[j + 1]];
      if j + 1 < |main| {
        assert main[j..j + 2] == [s[j], s[j + 1]];
        assert !OccursAt(main, "/?", j);
      }
    }
    FindIsFirst(s, "/?", |main|);
    assert s[..|main|] == main && s[|main| + 2..] == query;
  }

  lemma SsrPartsClean(node: Proxy)
    requires SsrField(node.hostname) && SsrField(node.protocol)
    requires SsrField(node.encryptMethod) && SsrField(node.obfs)
    ensures forall p :: p in SsrParts(node) ==> SsrField(p)
  {
    EncodedAlphabet(node.password);
    var port, pw := Decimal.Print(node.port), Encode64(node.password);
    forall p | p == port || p == pw ensures SsrField(p) {
      ContainsNeeds(p, "/?", 1);
    }
  }

  /** Every field that comes out of an SSR text is free of the separators. */
  lemma SsrPartsAreFields(decoded: string, k: nat)
    requires k < |SplitOn(SsrHalves(decoded).0, ':')|
    ensures SsrField(SplitOn(SsrHalves(decoded).0, ':')[k])
  {
    var main := SsrHalves(decoded).0;
    var part := SplitOn(main, ':')[k];
    var l, r := PartOfSplit(main, ':', k);
    if Contains(part, "/?") { ContainsInfix(l, part, r, "/?"); }
  }

  /** Whatever is read from an SSR text, its four free fields hold no separator. */
  lemma SsrReadsFields(decoded: string)
    ensures var r := SsrFields(SsrHalves(decoded).0, SsrHalves(decoded).1);
            r.Ok? ==> SsrField(r.value.hostname) && SsrField(r.value.protocol) &&
                      SsrField(r.value.encryptMethod) && SsrField(r.value.obfs)
  {
    if |SplitOn(SsrHalves(decoded).0, ':')| >= 6 {
      SsrPartsAreFields(decoded, 0);
      SsrPartsAreFields(decoded, 2);
      SsrPartsAreFields(decoded, 3);
      SsrPartsAreFields(decoded, 4);
    }
  }

  lemma SsrDecoded(node: Proxy)
    ensures Decode64(TrimStartMatches(PrintSsrLink(node), "ssr://"))
            == Some(Join(SsrParts(node), ":") + "/?" + SsrQuery(node))
  {
    var text := Join(SsrParts(node), ":") + "/?" + SsrQuery(node);
    var t := Encode64(text);
    EncodedAlphabet(text);
    if 3 < |t| { assert t[3] in t; }
    NoPrefixAgain("ssr://", 3, t);
    Decode64OfEncode64(text);
  }

  lemma SsrFieldsReadBack(node: Proxy)
    requires SsrField(node.hostname) && SsrField(node.protocol)
    requires SsrField(node.encryptMethod) && SsrField(node.obfs)
    ensures ParseSsrLink(PrintSsrLink(node))
            == Ok(SsrCarried(node).(
                  remark := (match ThroughQuery(node.remark) case Some(t) => t case None => node.hostname),
                  group := (match ThroughQuery(node.group) case Some(t) => t case None => "SSRProvider")))
  {
    SsrDecoded(node);
    SsrMainReadBack(node);
    SsrQueryTexts(node);
    Decimal.ParseOfPrint(node.port, 65535);
    Decode64OfEncode64(node.password);
  }

  lemma SsrMainReadBack(node: Proxy)
    requires SsrField(node.hostname) && SsrField(node.protocol)
    requires SsrField(node.encryptMethod) && SsrField(node.obfs)
    ensures var main := Join(SsrParts(node), ":");
            SsrHalves(main + "/?" + SsrQuery(node)) == (main, SsrQuery(node)) && SplitOn(main, ':') == SsrParts(node)
  {
    var parts := SsrParts(node);
    SsrPartsClean(node);
    ContainsInJoin(parts, ':', "/?");
    SsrCut(Join(parts, ":"), SsrQuery(node));
    SplitOfJoin(parts, ':');
  }

  lemma QueryKeepsIff(text: string, fallback: string)
    ensures (match ThroughQuery(text) case Some(t) => t case None => fallback) == text <==> QueryKeeps(text, fallback)
  {
    ThroughQueryKeeps(text);
  }

  /**
   A printed `ssr://` link reads back as the node it was printed from exactly when the four free
   fields hold neither a colon nor `/?` and the remark and the group survive the query.
   */
  lemma SsrRoundTrip(node: Proxy)
    ensures ParseSsrLink(PrintSsrLink(node)) == Ok(SsrCarried(node)) <==> SsrPrintable(node)
  {
    if SsrField(node.hostname) && SsrField(node.protocol) && SsrField(node.encryptMethod) && SsrField(node.obfs) {
      SsrFieldsReadBack(node);
      QueryKeepsIff(node.remark, node.hostname);
      QueryKeepsIff(node.group, "SSRProvider");
    } else {
      SsrDecoded(node);
      SsrReadsFields(Join(SsrParts(node), ":") + "/?" + SsrQuery(node));
    }
  }

  /**
   The node itself reads back exactly when, besides, it holds nothing that the link does not carry: a node
   with an obfs or protocol parameter never does.
   */
  lemma SsrRoundTripWhole(node: Proxy)
    ensures ParseSsrLink(PrintSsrLink(node)) == Ok(node) <==> SsrPrintable(node) && node == SsrCarried(node)
  {
    SsrRoundTrip(node);
    if SsrField(node.hostname) && SsrField(node.protocol) && SsrField(node.encryptMethod) && SsrField(node.obfs) {
      SsrFieldsReadBack(node);
    } else {
      SsrDecoded(node);
      SsrReadsFields(Join(SsrParts(node), ":") + "/?" + SsrQuery(node));
    }
  }

  lemma EncodedWithPlus()
    ensures Encode64("ab>") == "YWI+"
  {
    assert "ab>" == ['a'] + (['b'] + (['>'] + ""));
    assert Utf8.Encode("ab>") == [97, 98, 62];
    var vs: seq<Sextet> := [24, 22, 8, 62];
    assert Sextets([97, 98, 62]) == vs;
    assert vs[1..] == [22, 8, 62] && vs[1..][1..] == [8, 62] && vs[1..][1..][1..] == [62];
    assert StandardText(vs) == "YWI+";
  }

  lemma DecodedWithoutPlus()
    ensures Decode64("YWI ") == Some("ab")
  {
    assert "YWI "[..3] == "YWI";
    assert Trim("YWI ") == "YWI";
    assert DecodeStandard("YWI").None?;
    assert "YWI" == ['Y'] + (['W'] + (['I'] + ""));
    var vs: seq<Sextet> := [24] + ([22] + ([8] + []));
    assert Values("YWI", UrlSafeValue) == Some(vs);
    assert vs == [24, 22, 8];
    assert Bytes([24, 22, 8]) == Some([97, 98]);
    assert "ab" == ['a'] + (['b'] + "");
    assert [97, 98] == Utf8.Encode("ab");
    Utf8.DecodeOfEncode("ab");
  }

  /** A node whose printed link reads back with another remark. */
  lemma PlusLosesRemark(node: Proxy)
    requires SsrField(node.hostname) && SsrField(node.protocol)
    requires SsrField(node.encryptMethod) && SsrField(node.obfs) && node.group == "" && node.remark == "ab>"
    ensures ParseSsrLink(PrintSsrLink(node)) == Ok(SsrCarried(node).(remark := "ab"))
  {
    PlusLosesText();
    EncodedAlphabet("");
    ThroughQueryKeeps("");
    SsrFieldsReadBack(node);
  }

  /** A remark that form decoding damages: its encoding ends in a plus sign, and the `>` is lost. */
  lemma PlusLosesText()
    ensures ThroughQuery("ab>") == Some("ab")
  {
    EncodedWithPlus();
    DecodedWithoutPlus();
    assert PlusToSpace("YWI+") == "YWI ";
  }
}
