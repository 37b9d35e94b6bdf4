/** Percent-decoding, and the query-string form of it that also reads a plus sign as a space. */
module Percent {
  import opened Wrappers
  import opened Utf8
  import opened Text

  predicate IsHex(c: char) {
    '0' <= c <= '9' || 'A' <= c <= 'F' || 'a' <= c <= 'f'
  }

  function HexValue(c: char): (v: nat)
    requires IsHex(c)
    ensures v < 16
  {
    if '0' <= c <= '9' then c as int - '0' as int
    else if 'A' <= c <= 'F' then c as int - 'A' as int + 10
    else c as int - 'a' as int + 10
  }

  predicate IsHexByte(b: Byte) {
    b < 128 && IsHex(b as char)
  }

  predicate EscapeAt(bs: seq<Byte>) {
    |bs| >= 3 && bs[0] == '%' as int && IsHexByte(bs[1]) && IsHexByte(bs[2])
  }

  function EscapedByte(bs: seq<Byte>): Byte
    requires EscapeAt(bs)
  {
    HexValue(bs[1] as char) * 16 + HexValue(bs[2] as char)
  }

  function DecodeBytes(bs: seq<Byte>): seq<Byte> {
    if bs == [] then []
    else if EscapeAt(bs) then [EscapedByte(bs)] + DecodeBytes(bs[3..])
    else [bs[0]] + DecodeBytes(bs[1..])
  }

  /** `url_decode`: percent-decode the bytes, then read them as UTF-8 with replacements. */
  function UrlDecode(s: string): string {
    Lossy(DecodeBytes(Utf8.Encode(s)))
  }

  predicate EscapeInText(s: string) {
    |s| >= 3 && s[0] == '%' && IsHex(s[1]) && IsHex(s[2])
  }

  /** The text holds a percent sign followed by two hexadecimal digits. */
  predicate HasEscape(s: string) {
    s != "" && (EscapeInText(s) || HasEscape(s[1..]))
  }

  lemma {:induction false} BytesBeforePercent(head: seq<Byte>, rest: seq<Byte>)
    requires forall i :: 0 <= i < |head| ==> head[i] != '%' as int
    ensures DecodeBytes(head + rest) == head + DecodeBytes(rest)
  {
    if head == [] {
      assert head + rest == rest;
    } else {
      assert (head + rest)[1..] == head[1..] + rest;
      BytesBeforePercent(head[1..], rest);
    }
  }

  lemma FirstByteHex(s: string)
    requires s != ""
    ensures IsHexByte(Utf8.Encode(s)[0]) <==> IsHex(s[0])
    ensures Utf8.Encode(s)[0] == '%' as int <==> s[0] == '%'
    ensures s[0] as int < 128 ==> Utf8.Encode(s) == [s[0] as int] + Utf8.Encode(s[1..])
  {
    assert Utf8.Encode(s)[0] == EncodeChar(s[0])[0];
  }

  lemma EscapeInBytes(s: string)
    ensures EscapeAt(Utf8.Encode(s)) <==> EscapeInText(s)
    ensures EscapeInText(s) ==> Utf8.Encode(s)[3..] == Utf8.Encode(s[3..])
  {
    EncodeLength(s);
    if s != "" {
      FirstByteHex(s);
      if s[0] == '%' && s[1..] != "" {
        FirstByteHex(s[1..]);
        if IsHex(s[1]) && s[1..][1..] != "" {
          FirstByteHex(s[1..][1..]);
          assert s[1..][1..][1..] == s[3..];
        }
      }
    }
  }

  lemma DecodeOfChar(s: string)
    requires s != "" && !EscapeInText(s)
    ensures DecodeBytes(Utf8.Encode(s)) == EncodeChar(s[0]) + DecodeBytes(Utf8.Encode(s[1..]))
  {
    if s[0] == '%' {
      EscapeInBytes(s);
    } else {
      BytesBeforePercent(EncodeChar(s[0]), Utf8.Encode(s[1..]));
    }
  }

  lemma {:induction false} UrlDecodeLength(s: string)
    ensures |UrlDecode(s)| <= |s|
    ensures HasEscape(s) ==> |UrlDecode(s)| < |s|
    ensures !HasEscape(s) ==> UrlDecode(s) == s
    decreases |s|
  {
    if s != "" {
      if EscapeInText(s) {
        EscapeInBytes(s);
        var rest := DecodeBytes(Utf8.Encode(s[3..]));
        LossyOfByte(EscapedByte(Utf8.Encode(s)), rest);
        UrlDecodeLength(s[3..]);
      } else {
        DecodeOfChar(s);
        LossyOfChar(s[0], DecodeBytes(Utf8.Encode(s[1..])));
        UrlDecodeLength(s[1..]);
      }
    }
  }

  /** Percent-decoding leaves a text alone exactly when it holds no escape. */
  lemma UrlDecodeKeeps(s: string)
    ensures UrlDecode(s) == s <==> !HasEscape(s)
  {
    UrlDecodeLength(s);
  }

  /** The two digits of a byte. */
  predicate DigitsOf(high: char, low: char, b: Byte) {
    IsHex(high) && IsHex(low) && HexValue(high) * 16 + HexValue(low) == b
  }

  /** Every byte of the text as a percent sign and its two digits, in either case. */
  predicate Escaped(escaped: string, bs: seq<Byte>)
    decreases |bs|
  {
    if bs == [] then escaped == ""
    else
      && |escaped| >= 3 && escaped[0] == '%' && DigitsOf(escaped[1], escaped[2], bs[0])
      && Escaped(escaped[3..], bs[1..])
  }

  lemma {:induction false} EscapedBytes(escaped: string, bs: seq<Byte>)
    requires Escaped(escaped, bs)
    ensures DecodeBytes(Utf8.Encode(escaped)) == bs
    decreases |bs|
  {
    if bs != [] {
      EscapedBytes(escaped[3..], bs[1..]);
      EscapeInBytes(escaped);
      FirstByteHex(escaped);
      FirstByteHex(escaped[1..]);
      FirstByteHex(escaped[1..][1..]);
      assert escaped[1..][1..][0] == escaped[2];
      assert bs == [bs[0]] + bs[1..];
    }
  }

  lemma {:induction false} LossyOfEncode(s: string)
    ensures Lossy(Utf8.Encode(s)) == s
  {
    if s != "" {
      LossyOfChar(s[0], Utf8.Encode(s[1..]));
      LossyOfEncode(s[1..]);
      assert s == [s[0]] + s[1..];
    }
  }

  /** Text whose bytes are all escaped comes back. */
  lemma UrlDecodeOfEscaped(s: string, escaped: string)
    requires Escaped(escaped, Utf8.Encode(s))
    ensures UrlDecode(escaped) == s
  {
    EscapedBytes(escaped, Utf8.Encode(s));
    LossyOfEncode(s);
  }

  /** What the digits are worth. */
  lemma HexValues()
    ensures HexValue('0') == 0 && HexValue('9') == 9 && HexValue('A') == 10 && HexValue('F') == 15
    ensures HexValue('a') == 10 && HexValue('f') == 15
    ensures forall c, d: char :: IsHex(c) && IsHex(d) && c as int + 1 == d as int ==> HexValue(d) == HexValue(c) + 1
  {
  }

  // ---------------------------------------------------------------- query strings

  function PlusToSpace(s: string): (r: string)
    ensures |r| == |s|
    ensures forall i :: 0 <= i < |s| ==> r[i] == if s[i] == '+' then ' ' else s[i]
  {
    if s == "" then "" else [if s[0] == '+' then ' ' else s[0]] + PlusToSpace(s[1..])
  }

  lemma {:induction false} PlusToSpaceChars(s: string)
    ensures forall c :: c in PlusToSpace(s) ==> c == ' ' || (c in s && c != '+')
  {
    if s != "" { PlusToSpaceChars(s[1..]); }
  }

  function FormDecode(s: string): string {
    UrlDecode(PlusToSpace(s))
  }

  lemma {:induction false} NoPercentNoEscape(s: string)
    requires '%' !in s
    ensures !HasEscape(s)
  {
    if s != "" { NoPercentNoEscape(s[1..]); }
  }

  lemma FormDecodePlain(s: string)
    requires '%' !in s
    ensures FormDecode(s) == PlusToSpace(s)
  {
    assert '%' !in PlusToSpace(s);
    NoPercentNoEscape(PlusToSpace(s));
    UrlDecodeLength(PlusToSpace(s));
  }

  function Pair(segment: string): (string, string) {
    match SplitOnce(segment, "=")
    case Some((key, value)) => (FormDecode(key), FormDecode(value))
    case None => (FormDecode(segment), "")
  }

  /** `form_urlencoded::parse` collected into a map: empty segments are skipped, later keys win. */
  function QueryMap(segments: seq<string>): map<string, string> {
    if segments == [] then map[]
    else
      var earlier := QueryMap(segments[..|segments| - 1]);
      var last := segments[|segments| - 1];
      if last == "" then earlier else earlier[Pair(last).0 := Pair(last).1]
  }

  function ParseQuery(query: string): map<string, string> {
    QueryMap(SplitOn(query, '&'))
  }

  lemma PairOf(key: string, value: string)
    requires '=' !in key && '+' !in key && '%' !in key && '%' !in value
    ensures Pair(key + "=" + value) == (key, PlusToSpace(value))
  {
    SplitOnceUnique(key, '=', value);
    FormDecodePlain(key);
    FormDecodePlain(value);
    assert PlusToSpace(key) == key;
  }

  lemma QueryMapOfTwo(s1: string, s2: string)
    requires s1 != "" && s2 != ""
    ensures QueryMap([s1, s2]) == map[Pair(s1).0 := Pair(s1).1][Pair(s2).0 := Pair(s2).1]
  {
    assert [s1, s2][..1] == [s1] && [s1][..0] == [];
    assert QueryMap([s1]) == map[Pair(s1).0 := Pair(s1).1];
  }

  /** A query of two keys whose values hold no ampersand and no percent sign. */
  lemma QueryOfTwo(k1: string, v1: string, k2: string, v2: string)
    requires '&' !in k1 && '&' !in v1 && '&' !in k2 && '&' !in v2
    requires '%' !in k1 && '%' !in v1 && '%' !in k2 && '%' !in v2
    requires '=' !in k1 && '+' !in k1 && '=' !in k2 && '+' !in k2 && k1 != k2
    ensures ParseQuery(k1 + "=" + v1 + "&" + (k2 + "=" + v2))
            == map[k1 := PlusToSpace(v1)][k2 := PlusToSpace(v2)]
  {
    var s1, s2 := k1 + "=" + v1, k2 + "=" + v2;
    SplitOfCons(s1, '&', s2);
    SplitOfPart(s2, '&');
    assert SplitOn(s1 + "&" + s2, '&') == [s1, s2];
    QueryMapOfTwo(s1, s2);
    PairOf(k1, v1);
    PairOf(k2, v2);
  }

  /** One key more at the end: the last value of a key counts. */
  lemma QueryOfLast(query: string, key: string, value: string)
    requires '&' !in key && '&' !in value && '%' !in key && '%' !in value && '=' !in key && '+' !in key
    ensures ParseQuery(query + "&" + (key + "=" + value)) == ParseQuery(query)[key := PlusToSpace(value)]
    ensures ParseQuery(key + "=" + value) == map[key := PlusToSpace(value)] && ParseQuery("") == map[]
  {
    var last := key + "=" + value;
    PairOf(key, value);
    SplitOfPart(last, '&');
    SplitOfPart("", '&');
    LastSegment(query, last);
    QueryMapSnoc(SplitOn(query, '&'), last);
    QueryMapSnoc([], last);
    QueryMapSnoc([], "");
    assert [] + [last] == [last] && [] + [""] == [""];
  }

  lemma QueryMapSnoc(segments: seq<string>, last: string)
    ensures QueryMap(segments + [last]) ==
            if last == "" then QueryMap(segments) else QueryMap(segments)[Pair(last).0 := Pair(last).1]
  {
    assert (segments + [last])[..|segments|] == segments;
  }

  lemma {:induction false} LastSegment(query: string, last: string)
    requires '&' !in last
    ensures SplitOn(query + "&" + last, '&') == SplitOn(query, '&') + [last]
  {
    SplitOfPart(last, '&');
    if query == "" {
      SplitOfCons("", '&', last);
      assert "" + "&" + last == query + "&" + last;
    } else {
      assert (query + "&" + last)[1..] == query[1..] + "&" + last;
      LastSegment(query[1..], last);
    }
  }

  lemma {:induction false} EscapedHasNoPlus(escaped: string, bs: seq<Byte>)
    requires Escaped(escaped, bs)
    ensures '+' !in escaped && '&' !in escaped && PlusToSpace(escaped) == escaped
    decreases |bs|
  {
    if bs != [] {
      EscapedHasNoPlus(escaped[3..], bs[1..]);
      assert escaped == [escaped[0], escaped[1], escaped[2]] + escaped[3..];
    }
    assert forall i :: 0 <= i < |escaped| ==> escaped[i] in escaped;
  }

  /** A value whose bytes are escaped is read as the text. */
  lemma QueryOfEscaped(query: string, key: string, value: string, escaped: string)
    requires '&' !in key && '%' !in key && '=' !in key && '+' !in key && Escaped(escaped, Utf8.Encode(value))
    ensures ParseQuery(query + "&" + (key + "=" + escaped)) == ParseQuery(query)[key := value]
  {
    var last := key + "=" + escaped;
    EscapedHasNoPlus(escaped, Utf8.Encode(value));
    UrlDecodeOfEscaped(value, escaped);
    SplitOnceUnique(key, '=', escaped);
    FormDecodePlain(key);
    assert PlusToSpace(key) == key;
    LastSegment(query, last);
    QueryMapSnoc(SplitOn(query, '&'), last);
  }
}
