/** What the two link parsers read from each form of a link, field by field, and what they refuse. */
module LinkForms {
  import opened Wrappers
  import opened Text
  import opened Base64
  import opened Percent
  import opened ShareLinks
  import Decimal

  // ---------------------------------------------------------------- ss://

  /** The method, the password and the address of a link, none of them holding a separator in front of its own. */
  predicate SsFields(cipher: string, password: string, host: string) {
    && ':' !in cipher && '@' !in cipher && '#' !in cipher
    && '@' !in password && '#' !in password && '#' !in host
  }

  /** A Shadowsocks node with these fields and the defaults of a link in the others. */
  function SsNodeOf(cipher: string, password: string, host: string, port: Port, remark: string): Proxy {
    Proxy(Shadowsocks, "SSProvider", remark, host, port, password, cipher, "", "", "", "", map[])
  }

  function SsAddress(host: string, port: Port): string {
    host + ":" + Decimal.Print(port)
  }

  lemma AddressRead(cipher: string, password: string, host: string, port: Port, fragment: Option<string>)
    requires SsFields(cipher, password, host)
    ensures SsNode(cipher + ":" + password, SsAddress(host, port), fragment) ==
            Ok(SsNodeOf(cipher, password, host, port, if fragment.Some? then fragment.value else host))
  {
    var user := cipher + ":" + password;
    assert user[|cipher|] == ':';
    SplitOnceUnique(cipher, ':', password);
    SplitLastUnique(host, ':', Decimal.Print(port));
    Decimal.ParseOfPrint(port, 65535);
  }

  /** The same user part in base64. */
  lemma EncodedUserRead(cipher: string, password: string, host: string, port: Port, fragment: Option<string>)
    requires SsFields(cipher, password, host)
    ensures SsNode(Encode64(cipher + ":" + password), SsAddress(host, port), fragment) ==
            SsNode(cipher + ":" + password, SsAddress(host, port), fragment)
  {
    var user := cipher + ":" + password;
    assert user[|cipher|] == ':';
    NoColon(user);
    Decode64OfEncode64(user);
  }

  lemma NoColon(text: string)
    ensures ':' !in Encode64(text) && '@' !in Encode64(text) && '#' !in Encode64(text)
  {
    EncodedAlphabet(text);
  }

  /** Behind the scheme: the part before the hash sign, if there is one, and the part behind it, decoded. */
  lemma LinkCut(body: string, fragment: Option<string>, link: string)
    requires '#' !in body && !("ss://" <= body)
    requires link == "ss://" + body + (if fragment.Some? then "#" + fragment.value else "")
    ensures body != "" ==>
              SplitFragment(TrimStartMatches(link, "ss://")) ==
              (body, if fragment.Some? then Some(UrlDecode(fragment.value)) else None)
  {
    var tail := if fragment.Some? then "#" + fragment.value else "";
    var rest := body + tail;
    if body != "" {
      assert link == "ss://" + rest && link[|"ss://"|..] == rest;
      assert '#' !in "ss://";
      BeginsAlready("ss://", body, tail);
      if fragment.Some? {
        SplitOnceUnique(body, '#', fragment.value);
        assert rest == body + ['#'] + fragment.value;
      } else {
        assert rest == body;
        SplitOnceChar(body, '#');
      }
    }
  }

  /** What is put behind a text makes it begin with a prefix only if its first character is in the prefix. */
  lemma BeginsAlready(prefix: string, body: string, tail: string)
    ensures prefix <= body + tail ==> prefix <= body || (tail != "" && tail[0] in prefix)
  {
    var whole := body + tail;
    if prefix <= whole {
      if |body| < |prefix| { assert prefix[|body|] == whole[|body|]; }
      else { assert whole[..|prefix|] == body[..|prefix|]; }
    }
  }

  /** A link whose two parts are plain, with a fragment or without. */
  lemma PlainSsLink(cipher: string, password: string, host: string, port: Port, fragment: Option<string>, link: string)
    requires SsFields(cipher, password, host) && cipher != "ss"
    requires link == "ss://" + (cipher + ":" + password + "@" + SsAddress(host, port))
                     + (if fragment.Some? then "#" + fragment.value else "")
    ensures ParseSsLink(link) ==
            Ok(SsNodeOf(cipher, password, host, port, if fragment.Some? then UrlDecode(fragment.value) else host))
  {
    var user, address := cipher + ":" + password, SsAddress(host, port);
    var body := user + "@" + address;
    NoFragmentIn(user, address);
    NotTheScheme(cipher, password, address, body);
    LinkCut(body, fragment, link);
    SsBodyRead(user, address, body);
    AddressRead(cipher, password, host, port, if fragment.Some? then Some(UrlDecode(fragment.value)) else None);
  }

  lemma NoFragmentIn(user: string, address: string)
    requires '#' !in user && '#' !in address
    ensures '#' !in user + "@" + address
  {
  }

  lemma NotTheScheme(cipher: string, password: string, address: string, body: string)
    requires ':' !in cipher && cipher != "ss" && body == cipher + ":" + password + "@" + address
    ensures !("ss://" <= body)
  {
    SchemeChars(body);
    assert body[|cipher|] == ':';
    assert forall i :: 0 <= i < |cipher| ==> body[i] == cipher[i] && cipher[i] in cipher;
    assert |cipher| == 2 && cipher[0] == 's' && cipher[1] == 's' ==> cipher == ['s', 's'] == "ss";
  }

  lemma SchemeChars(body: string)
    ensures "ss://" <= body ==> |body| >= 5 && body[0] == 's' && body[1] == 's' && body[2] == ':'
  {
  }

  lemma SsBodyRead(user: string, address: string, body: string)
    requires '@' !in user && body == user + "@" + address
    ensures SsPayload(body) == Ok(body) && SplitOnce(body, "@") == Some((user, address))
  {
    assert body[|user|] == '@';
    SplitOnceUnique(user, '@', address);
  }

  /** The older form: everything before the fragment in base64. */
  lemma WholeInBase64(cipher: string, password: string, host: string, port: Port, fragment: Option<string>,
                      link: string)
    requires SsFields(cipher, password, host)
    requires link == "ss://" + Encode64(cipher + ":" + password + "@" + SsAddress(host, port))
                     + (if fragment.Some? then "#" + fragment.value else "")
    ensures ParseSsLink(link) ==
            Ok(SsNodeOf(cipher, password, host, port, if fragment.Some? then UrlDecode(fragment.value) else host))
  {
    var user, address := cipher + ":" + password, SsAddress(host, port);
    var text := user + "@" + address;
    var body := Encode64(text);
    NoColon(text);
    EncodedAlphabet(text);
    NoSchemeInBase64(body);
    LinkCut(body, fragment, link);
    Decode64OfEncode64(text);
    SsBodyRead(user, address, text);
    AddressRead(cipher, password, host, port, if fragment.Some? then Some(UrlDecode(fragment.value)) else None);
  }

  lemma NoSchemeInBase64(body: string)
    requires ':' !in body
    ensures !("ss://" <= body)
  {
    SchemeChars(body);
  }

  /** The usual form: the user part alone in base64. */
  lemma UserInBase64(cipher: string, password: string, host: string, port: Port, fragment: Option<string>,
                     link: string)
    requires SsFields(cipher, password, host)
    requires link == "ss://" + (Encode64(cipher + ":" + password) + "@" + SsAddress(host, port))
                     + (if fragment.Some? then "#" + fragment.value else "")
    ensures ParseSsLink(link) ==
            Ok(SsNodeOf(cipher, password, host, port, if fragment.Some? then UrlDecode(fragment.value) else host))
  {
    var user, address := Encode64(cipher + ":" + password), SsAddress(host, port);
    var body := user + "@" + address;
    NoColon(cipher + ":" + password);
    EncodedAlphabet(cipher + ":" + password);
    NoFragmentIn(user, address);
    UserIsNoScheme(user, address, body);
    LinkCut(body, fragment, link);
    SsBodyRead(user, address, body);
    EncodedUserRead(cipher, password, host, port, if fragment.Some? then Some(UrlDecode(fragment.value)) else None);
    AddressRead(cipher, password, host, port, if fragment.Some? then Some(UrlDecode(fragment.value)) else None);
  }

  lemma UserIsNoScheme(user: string, address: string, body: string)
    requires ':' !in user && body == user + "@" + address
    ensures !("ss://" <= body)
  {
    SchemeChars(body);
    assert body[|user|] == '@' && forall i :: 0 <= i < |user| ==> body[i] == user[i] && user[i] in user;
  }

  /** What is refused, and why: the address first needs an at sign, then the user part a colon, then a port. */
  lemma SsRefusals(payload: string, user: string, address: string, fragment: Option<string>)
    ensures '@' !in payload && Decode64(payload).None? ==> SsPayload(payload) == Err(BadBase64)
    ensures ':' !in user && Decode64(user).None? ==> SsNode(user, address, fragment) == Err(BadBase64)
    ensures ':' !in user && Decode64(user).Some? && ':' !in Decode64(user).value ==>
              SsNode(user, address, fragment) == Err(MissingMethod)
    ensures ':' in user && ':' !in address ==> SsNode(user, address, fragment) == Err(MissingHostPort)
    ensures ':' in user && ':' in address && Decimal.Parse(SplitLast(address, ':').value.1, 65535).None? ==>
              SsNode(user, address, fragment) == Err(BadPort)
  {
    SplitOnceChar(user, ':');
    if Decode64(user).Some? { SplitOnceChar(Decode64(user).value, ':'); }
  }

  // ---------------------------------------------------------------- ssr://

  predicate AllFields(parts: seq<string>) {
    forall p :: p in parts ==> SsrField(p)
  }

  /** The text of a link is cut at the first `/?` and then at the colons. */
  lemma SsrTextCut(parts: seq<string>, query: string)
    requires parts != [] && AllFields(parts)
    ensures SsrHalves(Join(parts, ":") + "/?" + query) == (Join(parts, ":"), query)
    ensures SsrHalves(Join(parts, ":")) == (Join(parts, ":"), "")
    ensures SplitOn(Join(parts, ":"), ':') == parts
  {
    ContainsInJoin(parts, ':', "/?");
    SsrCut(Join(parts, ":"), query);
    SplitOfJoin(parts, ':');
  }

  lemma SsrLinkText(text: string)
    ensures Decode64(TrimStartMatches("ssr://" + Encode64(text), "ssr://")) == Some(text)
  {
    var t := Encode64(text);
    EncodedAlphabet(text);
    if 3 < |t| { assert t[3] in t; }
    NoPrefixAgain("ssr://", 3, t);
    Decode64OfEncode64(text);
  }

  /** Base64 text on its way through the query: kept whole if it holds no plus sign. */
  predicate Carried(text: string) {
    '+' !in Encode64(text)
  }

  lemma CarriedBack(text: string, args: map<string, string>, key: string, fallback: string)
    requires Carried(text) && Reads(args, key, Encode64(text))
    ensures QueryText(args, key, fallback) == text
  {
    ThroughQueryKeeps(text);
  }

  /** A query with the four keys, in this order. */
  function SsrQueryOf(obfsParam: string, protocolParam: string, remark: string, group: string): string {
    "obfsparam" + "=" + Encode64(obfsParam) + "&" + ("protoparam" + "=" + Encode64(protocolParam))
    + "&" + ("remarks" + "=" + Encode64(remark)) + "&" + ("group" + "=" + Encode64(group))
  }

  predicate QueryKey(key: string) {
    '&' !in key && '%' !in key && '=' !in key && '+' !in key
  }

  lemma KeyTexts()
    ensures QueryKey("obfsparam") && QueryKey("protoparam") && QueryKey("remarks") && QueryKey("group")
    ensures |"obfsparam"| == 9 && |"protoparam"| == 10 && |"remarks"| == 7 && |"group"| == 5
  {
    Letters("obfsparam");
    Letters("protoparam");
    Letters("remarks");
    Letters("group");
  }

  lemma Letters(key: string)
    requires forall i :: 0 <= i < |key| ==> 'a' <= key[i] <= 'z'
    ensures QueryKey(key)
  {
  }

  /** A key more: it has its value, and every key of another length keeps its own. */
  lemma OneKeyMore(query: string, key: string, value: string)
    requires QueryKey(key) && '&' !in value && '%' !in value
    ensures var args, more := ParseQuery(query), ParseQuery(query + "&" + (key + "=" + value));
            Reads(more, key, value) &&
            forall other, v :: |other| != |key| && Reads(args, other, v) ==> Reads(more, other, v)
  {
    QueryOfLast(query, key, value);
  }

  predicate Reads(args: map<string, string>, key: string, value: string) {
    key in args && args[key] == PlusToSpace(value)
  }

  lemma FourKeys(a: string, v: string, b: string, w: string, c: string, x: string, d: string, y: string)
    requires QueryKey(a) && QueryKey(b) && QueryKey(c) && QueryKey(d)
    requires '&' !in v && '%' !in v && '&' !in w && '%' !in w && '&' !in x && '%' !in x && '&' !in y && '%' !in y
    requires |a| != |b| && |a| != |c| && |a| != |d| && |b| != |c| && |b| != |d| && |c| != |d|
    ensures var args := ParseQuery(a + "=" + v + "&" + (b + "=" + w) + "&" + (c + "=" + x) + "&" + (d + "=" + y));
            Reads(args, a, v) && Reads(args, b, w) && Reads(args, c, x) && Reads(args, d, y)
  {
    var one := a + "=" + v;
    var two := one + "&" + (b + "=" + w);
    var three := two + "&" + (c + "=" + x);
    QueryOfLast("", a, v);
    assert Reads(ParseQuery(one), a, v);
    OneKeyMore(one, b, w);
    OneKeyMore(two, c, x);
    OneKeyMore(three, d, y);
  }

  lemma QueryTexts(obfsParam: string, protocolParam: string, remark: string, group: string, host: string)
    requires Carried(obfsParam) && Carried(protocolParam) && Carried(remark) && Carried(group)
    ensures var args := ParseQuery(SsrQueryOf(obfsParam, protocolParam, remark, group));
            QueryText(args, "obfsparam", "") == obfsParam && QueryText(args, "protoparam", "") == protocolParam &&
            QueryText(args, "remarks", host) == remark && QueryText(args, "group", "SSRProvider") == group
  {
    var args := ParseQuery(SsrQueryOf(obfsParam, protocolParam, remark, group));
    KeyTexts();
    EncodedIsPlain(obfsParam);
    EncodedIsPlain(protocolParam);
    EncodedIsPlain(remark);
    EncodedIsPlain(group);
    FourKeys("obfsparam", Encode64(obfsParam), "protoparam", Encode64(protocolParam),
             "remarks", Encode64(remark), "group", Encode64(group));
    CarriedBack(obfsParam, args, "obfsparam", "");
    CarriedBack(protocolParam, args, "protoparam", "");
    CarriedBack(remark, args, "remarks", host);
    CarriedBack(group, args, "group", "SSRProvider");
  }

  /** The password is read from base64 if it can be. */
  function PasswordOf(written: string): string {
    match Decode64(written)
    case Some(text) => text
    case None => written
  }

  /** A port that is none is read as 0. */
  function PortOf(written: string): Port {
    match Decimal.Parse(written, 65535)
    case Some(n) => n
    case None => 0
  }

  lemma FieldsInOrder(main: string, query: string, host: string, port: string, protocol: string, cipher: string,
                      obfs: string, password: string)
    requires SplitOn(main, ':') == [host, port, protocol, cipher, obfs, password]
    ensures var args := ParseQuery(query);
            SsrFields(main, query) ==
            Ok(Proxy(ShadowsocksR, QueryText(args, "group", "SSRProvider"), QueryText(args, "remarks", host), host,
                     PortOf(port), PasswordOf(password), cipher, protocol, QueryText(args, "protoparam", ""), obfs,
                     QueryText(args, "obfsparam", ""), map[]))
  {
  }

  /** A link with a full query: every field is read from its own place. */
  lemma SsrWithQuery(host: string, port: string, protocol: string, cipher: string, obfs: string, password: string,
                     obfsParam: string, protocolParam: string, remark: string, group: string)
    requires AllFields([host, port, protocol, cipher, obfs, password])
    requires Carried(obfsParam) && Carried(protocolParam) && Carried(remark) && Carried(group)
    ensures ParseSsrLink("ssr://" + Encode64(Join([host, port, protocol, cipher, obfs, password], ":") + "/?"
                                             + SsrQueryOf(obfsParam, protocolParam, remark, group))) ==
            Ok(Proxy(ShadowsocksR, group, remark, host, PortOf(port), PasswordOf(password), cipher, protocol,
                     protocolParam, obfs, obfsParam, map[]))
  {
    var parts := [host, port, protocol, cipher, obfs, password];
    var query := SsrQueryOf(obfsParam, protocolParam, remark, group);
    SsrTextCut(parts, query);
    SsrLinkText(Join(parts, ":") + "/?" + query);
    FieldsInOrder(Join(parts, ":"), query, host, port, protocol, cipher, obfs, password);
    QueryTexts(obfsParam, protocolParam, remark, group, host);
  }

  /** A link without a query: the host is the remark, and the group has its default name. */
  lemma SsrWithoutQuery(host: string, port: string, protocol: string, cipher: string, obfs: string, password: string)
    requires AllFields([host, port, protocol, cipher, obfs, password])
    ensures ParseSsrLink("ssr://" + Encode64(Join([host, port, protocol, cipher, obfs, password], ":"))) ==
            Ok(Proxy(ShadowsocksR, "SSRProvider", host, host, PortOf(port), PasswordOf(password), cipher, protocol,
                     "", obfs, "", map[]))
  {
    var parts := [host, port, protocol, cipher, obfs, password];
    SsrTextCut(parts, "");
    SsrLinkText(Join(parts, ":"));
    FieldsInOrder(Join(parts, ":"), "", host, port, protocol, cipher, obfs, password);
    QueryOfLast("", "", "");
  }

  /** Fewer than six fields are refused; more are ignored. */
  lemma SsrFieldCount(text: string)
    ensures |SplitOn(SsrHalves(text).0, ':')| < 6 <==> ParseSsrLink("ssr://" + Encode64(text)) == Err(TooFewFields)
    ensures ParseSsrLink("ssr://" + Encode64(text)).Ok? <==> |SplitOn(SsrHalves(text).0, ':')| >= 6
  {
    SsrLinkText(text);
  }
}
