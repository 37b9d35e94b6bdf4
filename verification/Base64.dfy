/**
 Base64 with the standard alphabet and padding, and with the URL-safe alphabet and no padding
 (sections 4 and 5 of RFC 4648). Both decoders are strict: padding must be exactly what the encoder
 writes and the unused low bits of the last character must be zero.
 */
module Base64 {
  import opened Wrappers
  import opened Utf8
  import opened Text

  type Sextet = v: int | 0 <= v < 64

  function StandardChar(v: Sextet): char {
    if v < 26 then ('A' as int + v) as char
    else if v < 52 then ('a' as int + v - 26) as char
    else if v < 62 then ('0' as int + v - 52) as char
    else if v == 62 then '+' else '/'
  }

  function StandardValue(c: char): Option<Sextet> {
    if 'A' <= c <= 'Z' then Some(c as int - 'A' as int)
    else if 'a' <= c <= 'z' then Some(c as int - 'a' as int + 26)
    else if '0' <= c <= '9' then Some(c as int - '0' as int + 52)
    else if c == '+' then Some(62)
    else if c == '/' then Some(63)
    else None
  }

  function UrlSafeValue(c: char): Option<Sextet> {
    if c == '-' then Some(62)
    else if c == '_' then Some(63)
    else if c == '+' || c == '/' then None
    else StandardValue(c)
  }

  /** Three bytes make four six-bit groups; one or two left over make two or three. */
  function Sextets(bs: seq<Byte>): seq<Sextet> {
    if |bs| == 0 then []
    else if |bs| == 1 then [bs[0] / 4, bs[0] % 4 * 16]
    else if |bs| == 2 then [bs[0] / 4, bs[0] % 4 * 16 + bs[1] / 16, bs[1] % 16 * 4]
    else [bs[0] / 4, bs[0] % 4 * 16 + bs[1] / 16, bs[1] % 16 * 4 + bs[2] / 64, bs[2] % 64] + Sextets(bs[3..])
  }

  function First(a: int, b: int): int {
    a * 4 + b / 16
  }

  function Second(a: int, b: int): int {
    a % 16 * 16 + b / 4
  }

  function Third(a: int, b: int): int {
    a % 4 * 64 + b
  }

  function Bytes(vs: seq<Sextet>): Option<seq<Byte>> {
    if |vs| == 0 then Some([])
    else if |vs| == 1 then None
    else if |vs| == 2 then
      if vs[1] % 16 != 0 then None else Some([First(vs[0], vs[1])])
    else if |vs| == 3 then
      if vs[2] % 4 != 0 then None else Some([First(vs[0], vs[1]), Second(vs[1], vs[2])])
    else
      match Bytes(vs[4..])
      case None => None
      case Some(rest) =>
        Some([First(vs[0], vs[1]), Second(vs[1], vs[2]), Third(vs[2], vs[3])] + rest)
  }

  function StandardText(vs: seq<Sextet>): string {
    if vs == [] then "" else [StandardChar(vs[0])] + StandardText(vs[1..])
  }

  function Values(t: string, value: char -> Option<Sextet>): Option<seq<Sextet>> {
    if t == "" then Some([])
    else
      match (value(t[0]), Values(t[1..], value))
      case (Some(v), Some(rest)) => Some([v] + rest)
      case _ => None
  }

  function Padding(n: nat): (p: string)
    ensures |p| <= 3 && (n + |p|) % 4 == 0
    ensures forall i :: 0 <= i < |p| ==> p[i] == '='
  {
    if n % 4 == 0 then "" else if n % 4 == 1 then "===" else if n % 4 == 2 then "==" else "="
  }

  function EncodeUnpadded(bs: seq<Byte>): string {
    StandardText(Sextets(bs))
  }

  function EncodeBytes(bs: seq<Byte>): string {
    EncodeUnpadded(bs) + Padding(|EncodeUnpadded(bs)|)
  }

  /** `STANDARD.decode`: canonical padding is required. */
  function DecodeStandard(t: string): Option<seq<Byte>> {
    var body := TrimEndChar(t, '=');
    if t != body + Padding(|body|) then None
    else
      match Values(body, StandardValue)
      case None => None
      case Some(vs) => Bytes(vs)
  }

  /** `URL_SAFE_NO_PAD.decode`: no padding is allowed. */
  function DecodeUrlSafe(t: string): Option<seq<Byte>> {
    match Values(t, UrlSafeValue)
    case None => None
    case Some(vs) => Bytes(vs)
  }

  /** `base64_encode` of the program. */
  function Encode64(s: string): string {
    EncodeBytes(Utf8.Encode(s))
  }

  /** `base64_decode` of the program: trim, the standard alphabet, else the URL-safe one, then UTF-8. */
  function Decode64(t: string): Option<string> {
    var n := Trim(t);
    match DecodeStandard(n)
    case Some(bs) => Utf8.Decode(bs)
    case None =>
      match DecodeUrlSafe(n)
      case Some(bs) => Utf8.Decode(bs)
      case None => None
  }

  // ---------------------------------------------------------------- the six-bit groups

  // The bytes can be read off the groups they were cut into.

  lemma GroupsFirst(a: Byte, b: Byte)
    ensures First(a / 4, a % 4 * 16 + b / 16) == a
  {
  }

  lemma GroupsSecond(a: Byte, b: Byte, c: Byte)
    ensures Second(a % 4 * 16 + b / 16, b % 16 * 4 + c / 64) == b
  {
  }

  lemma GroupsThird(b: Byte, c: Byte)
    ensures Third(b % 16 * 4 + c / 64, c % 64) == c
  {
  }

  lemma OneByte(a: Byte)
    ensures Bytes([a / 4, a % 4 * 16]) == Some([a])
  {
    GroupsFirst(a, 0);
  }

  lemma TwoBytes(a: Byte, b: Byte)
    ensures Bytes([a / 4, a % 4 * 16 + b / 16, b % 16 * 4]) == Some([a, b])
  {
    GroupsFirst(a, b);
    GroupsSecond(a, b, 0);
  }

  lemma BytesOfFour(vs: seq<Sextet>, rest: seq<Sextet>)
    requires |vs| == 4
    ensures Bytes(vs + rest) ==
            match Bytes(rest)
            case None => None
            case Some(bs) => Some([First(vs[0], vs[1]), Second(vs[1], vs[2]), Third(vs[2], vs[3])] + bs)
  {
    assert (vs + rest)[4..] == rest;
  }

  lemma ThreeBytes(a: Byte, b: Byte, c: Byte)
    ensures var v, w, x, y: Sextet := a / 4, a % 4 * 16 + b / 16, b % 16 * 4 + c / 64, c % 64;
            First(v, w) == a && Second(w, x) == b && Third(x, y) == c
  {
    GroupsFirst(a, b);
    GroupsSecond(a, b, c);
    GroupsThird(b, c);
  }

  /** The groups of the first three bytes, and the others. */
  lemma FirstGroups(bs: seq<Byte>) returns (vs: seq<Sextet>)
    requires |bs| >= 3
    ensures |vs| == 4 && Sextets(bs) == vs + Sextets(bs[3..])
    ensures First(vs[0], vs[1]) == bs[0] && Second(vs[1], vs[2]) == bs[1] && Third(vs[2], vs[3]) == bs[2]
  {
    ThreeBytes(bs[0], bs[1], bs[2]);
    vs := [bs[0] / 4, bs[0] % 4 * 16 + bs[1] / 16, bs[1] % 16 * 4 + bs[2] / 64, bs[2] % 64];
  }

  lemma {:induction false} BytesOfSextets(bs: seq<Byte>)
    ensures Bytes(Sextets(bs)) == Some(bs)
  {
    if |bs| == 1 {
      OneByte(bs[0]);
      assert bs == [bs[0]];
    } else if |bs| == 2 {
      TwoBytes(bs[0], bs[1]);
      assert bs == [bs[0], bs[1]];
    } else if |bs| >= 3 {
      BytesOfSextets(bs[3..]);
      var vs := FirstGroups(bs);
      BytesOfFour(vs, Sextets(bs[3..]));
      assert bs == [bs[0], bs[1], bs[2]] + bs[3..];
    }
  }

  // The groups can be read off the bytes they were put into.

  lemma FirstBack(a: Sextet, b: Sextet)
    ensures First(a, b) / 4 == a && First(a, b) % 4 == b / 16
  {
  }

  lemma SecondBack(b: Sextet, c: Sextet)
    ensures Second(b, c) / 16 == b % 16 && Second(b, c) % 16 == c / 4
  {
  }

  lemma ThirdBack(c: Sextet, d: Sextet)
    ensures Third(c, d) / 64 == c % 4 && Third(c, d) % 64 == d
  {
  }

  lemma TwoBack(a: Sextet, b: Sextet)
    requires b % 16 == 0
    ensures Sextets([First(a, b)]) == [a, b]
  {
    FirstBack(a, b);
  }

  lemma ThreeBack(a: Sextet, b: Sextet, c: Sextet)
    requires c % 4 == 0
    ensures Sextets([First(a, b), Second(b, c)]) == [a, b, c]
  {
    FirstBack(a, b);
    SecondBack(b, c);
  }

  lemma SextetsOfThree(bs: seq<Byte>, rest: seq<Byte>)
    requires |bs| == 3
    ensures Sextets(bs + rest) ==
            [bs[0] / 4, bs[0] % 4 * 16 + bs[1] / 16, bs[1] % 16 * 4 + bs[2] / 64, bs[2] % 64] + Sextets(rest)
  {
    assert (bs + rest)[3..] == rest;
  }

  lemma FourBack(vs: seq<Sextet>, rest: seq<Byte>)
    requires |vs| >= 4 && Sextets(rest) == vs[4..]
    ensures Sextets([First(vs[0], vs[1]), Second(vs[1], vs[2]), Third(vs[2], vs[3])] + rest) == vs
  {
    SextetsOfThree([First(vs[0], vs[1]), Second(vs[1], vs[2]), Third(vs[2], vs[3])], rest);
    FirstBack(vs[0], vs[1]);
    SecondBack(vs[1], vs[2]);
    ThirdBack(vs[2], vs[3]);
    assert vs == [vs[0], vs[1], vs[2], vs[3]] + vs[4..];
  }

  lemma FewBack(vs: seq<Sextet>)
    requires |vs| < 4 && Bytes(vs).Some?
    ensures Sextets(Bytes(vs).value) == vs && 4 * |Bytes(vs).value| <= 3 * |vs|
  {
    if |vs| == 2 {
      TwoBack(vs[0], vs[1]);
    } else if |vs| == 3 {
      ThreeBack(vs[0], vs[1], vs[2]);
    }
  }

  lemma {:induction false} SextetsOfBytes(vs: seq<Sextet>)
    requires Bytes(vs).Some?
    ensures Sextets(Bytes(vs).value) == vs
    ensures 4 * |Bytes(vs).value| <= 3 * |vs|
  {
    if |vs| < 4 {
      FewBack(vs);
    } else {
      SextetsOfBytes(vs[4..]);
      FourBack(vs, Bytes(vs[4..]).value);
    }
  }

  lemma {:induction false} SextetCount(bs: seq<Byte>)
    ensures |Sextets(bs)| % 4 == (if |bs| % 3 == 0 then 0 else |bs| % 3 + 1)
    ensures bs != [] ==> Sextets(bs) != []
  {
    if |bs| >= 3 { SextetCount(bs[3..]); }
  }

  // ---------------------------------------------------------------- the alphabets

  predicate InAlphabet(t: string) {
    forall c :: c in t ==> StandardValue(c).Some?
  }

  lemma {:induction false} ValuesOfText(vs: seq<Sextet>)
    ensures Values(StandardText(vs), StandardValue) == Some(vs)
    ensures InAlphabet(StandardText(vs)) && |StandardText(vs)| == |vs|
  {
    if vs != [] {
      ValuesOfText(vs[1..]);
      assert vs == [vs[0]] + vs[1..];
    }
  }

  lemma {:induction false} TextOfValues(t: string)
    requires Values(t, StandardValue).Some?
    ensures StandardText(Values(t, StandardValue).value) == t
  {
    if t != "" { TextOfValues(t[1..]); }
  }

  lemma {:induction false} ValuesLength(t: string, value: char -> Option<Sextet>)
    requires Values(t, value).Some?
    ensures |Values(t, value).value| == |t|
  {
    if t != "" { ValuesLength(t[1..], value); }
  }

  lemma {:induction false} StandardTextNeedsUrlSafe(vs: seq<Sextet>)
    ensures Values(StandardText(vs), UrlSafeValue) ==
            if '+' in StandardText(vs) || '/' in StandardText(vs) then None else Some(vs)
  {
    if vs != [] {
      StandardTextNeedsUrlSafe(vs[1..]);
      assert vs == [vs[0]] + vs[1..];
    }
  }

  lemma {:induction false} TrimEndOfPadding(t: string, p: string)
    requires forall i :: 0 <= i < |p| ==> p[i] == '='
    requires t != "" ==> t[|t| - 1] != '='
    ensures TrimEndChar(t + p, '=') == t
  {
    if p == "" {
      assert t + p == t;
    } else {
      assert (t + p)[..|t + p| - 1] == t + p[..|p| - 1];
      TrimEndOfPadding(t, p[..|p| - 1]);
    }
  }

  lemma UnpaddedText(bs: seq<Byte>)
    ensures InAlphabet(EncodeUnpadded(bs)) && |EncodeUnpadded(bs)| == |Sextets(bs)|
    ensures TrimEndChar(EncodeBytes(bs), '=') == EncodeUnpadded(bs)
  {
    ValuesOfText(Sextets(bs));
    var t := EncodeUnpadded(bs);
    if t != "" { assert t[|t| - 1] in t; }
    TrimEndOfPadding(t, Padding(|t|));
  }

  /** The strict decoder accepts exactly what the encoder prints: the two are inverse functions. */
  lemma StandardInverse(t: string, bs: seq<Byte>)
    ensures DecodeStandard(t) == Some(bs) <==> t == EncodeBytes(bs)
  {
    if t == EncodeBytes(bs) {
      UnpaddedText(bs);
      ValuesOfText(Sextets(bs));
      BytesOfSextets(bs);
    } else if DecodeStandard(t) == Some(bs) {
      var body := TrimEndChar(t, '=');
      TextOfValues(body);
      SextetsOfBytes(Values(body, StandardValue).value);
    }
  }

  lemma EncodedBytes(bs: seq<Byte>)
    ensures forall c :: c in EncodeBytes(bs) ==> StandardValue(c).Some? || c == '='
    ensures EncodeBytes(bs) == "" <==> bs == []
  {
    UnpaddedText(bs);
    SextetCount(bs);
  }

  /** Characters an encoded text can hold: letters, digits, plus, slash and the padding sign. */
  lemma EncodedAlphabet(s: string)
    ensures forall c :: c in Encode64(s) ==> StandardValue(c).Some? || c == '='
    ensures Trimmed(Encode64(s))
    ensures Encode64(s) == "" <==> s == ""
  {
    EncodedBytes(Utf8.Encode(s));
    EncodeLength(s);
    var t := Encode64(s);
    if t != "" { assert t[0] in t && t[|t| - 1] in t; }
  }

  /** Decoding gives back every text that was encoded. */
  lemma Decode64OfEncode64(s: string)
    ensures Decode64(Encode64(s)) == Some(s)
  {
    EncodedAlphabet(s);
    TrimOfTrimmed(Encode64(s));
    StandardInverse(Encode64(s), Utf8.Encode(s));
    DecodeOfEncode(s);
  }

  /** Decoding never makes text longer, and makes text that is not empty shorter. */
  lemma Decode64Shrinks(t: string)
    requires Decode64(t).Some?
    ensures t != "" ==> |Decode64(t).value| < |t|
  {
    var n := Trim(t);
    var body := if DecodeStandard(n).Some? then TrimEndChar(n, '=') else n;
    var value := if DecodeStandard(n).Some? then StandardValue else UrlSafeValue;
    ValuesLength(body, value);
    SextetsOfBytes(Values(body, value).value);
    var bs := Bytes(Values(body, value).value).value;
    DecodeIffEncode(bs, Decode64(t).value);
    EncodeLength(Decode64(t).value);
  }

  /** What is printed when the padding is cut off. */
  function EncodeTrimmed(s: string): string {
    TrimEndChar(Encode64(s), '=')
  }

  /** The condition under which text printed without its padding can be read again. */
  predicate ReadableUnpadded(s: string) {
    |Utf8.Encode(s)| % 3 == 0 || ('+' !in Encode64(s) && '/' !in Encode64(s))
  }

  lemma InAlphabetTrimmed(t: string)
    requires InAlphabet(t)
    ensures Trim(t) == t
    ensures t != "" ==> t[|t| - 1] != '='
  {
    if t != "" { assert t[0] in t && t[|t| - 1] in t; }
    TrimOfTrimmed(t);
  }

  lemma TrimmedText(s: string)
    ensures InAlphabet(EncodeTrimmed(s)) && Trim(EncodeTrimmed(s)) == EncodeTrimmed(s)
    ensures TrimEndChar(EncodeTrimmed(s), '=') == EncodeTrimmed(s)
    ensures EncodeTrimmed(s) == EncodeUnpadded(Utf8.Encode(s))
    ensures |Utf8.Encode(s)| % 3 == 0 <==> |EncodeTrimmed(s)| % 4 == 0
    ensures Encode64(s) == EncodeTrimmed(s) + Padding(|EncodeTrimmed(s)|)
  {
    var bs := Utf8.Encode(s);
    var t := EncodeTrimmed(s);
    UnpaddedText(bs);
    SextetCount(bs);
    InAlphabetTrimmed(t);
    assert t == t + "";
    TrimEndOfPadding(t, "");
  }

  /** Cutting the padding off loses the text unless no padding was needed or the alphabets agree. */
  lemma Decode64OfTrimmed(s: string)
    ensures Decode64(EncodeTrimmed(s)) == if ReadableUnpadded(s) then Some(s) else None
  {
    var bs := Utf8.Encode(s);
    var t := EncodeTrimmed(s);
    TrimmedText(s);
    if |bs| % 3 == 0 {
      assert t == Encode64(s);
      Decode64OfEncode64(s);
    } else {
      assert DecodeStandard(t).None?;
      StandardTextNeedsUrlSafe(Sextets(bs));
      BytesOfSextets(bs);
      DecodeOfEncode(s);
    }
  }

  function UrlSafeChar(c: char): char {
    if c == '+' then '-' else if c == '/' then '_' else c
  }

  /** The same text with the two characters of the URL-safe alphabet. */
  function UrlSafe(t: string): (r: string)
    ensures |r| == |t| && forall i :: 0 <= i < |t| ==> r[i] == UrlSafeChar(t[i])
  {
    if t == "" then "" else [UrlSafeChar(t[0])] + UrlSafe(t[1..])
  }

  lemma {:induction false} UrlSafeValues(vs: seq<Sextet>)
    ensures Values(UrlSafe(StandardText(vs)), UrlSafeValue) == Some(vs)
  {
    if vs != [] {
      UrlSafeValues(vs[1..]);
      assert UrlSafe(StandardText(vs))[1..] == UrlSafe(StandardText(vs[1..]));
      assert vs == [vs[0]] + vs[1..];
    }
  }

  lemma {:induction false} NoValue(t: string, i: nat)
    requires i < |t| && StandardValue(t[i]).None?
    ensures Values(t, StandardValue).None?
  {
    if i > 0 { NoValue(t[1..], i - 1); }
  }

  lemma NotStandard(n: string, i: nat)
    requires i < |n| && (n[i] == '-' || n[i] == '_') && n[|n| - 1] != '='
    ensures DecodeStandard(n).None?
  {
    NoValue(n, i);
  }

  lemma UrlSafeIsInk(c: char)
    requires StandardValue(c).Some?
    ensures !IsSpace(UrlSafeChar(c)) && UrlSafeChar(c) != '='
  {
  }

  lemma UrlSafeMarked(t: string, i: nat)
    requires i < |t| && (t[i] == '+' || t[i] == '/') && InAlphabet(t)
    ensures Trim(UrlSafe(t)) == UrlSafe(t) && DecodeStandard(UrlSafe(t)).None?
  {
    var n := UrlSafe(t);
    UrlSafeIsInk(t[0]);
    UrlSafeIsInk(t[|t| - 1]);
    assert n[i] == UrlSafeChar(t[i]);
    TrimOfTrimmed(n);
    NotStandard(n, i);
  }

  lemma UrlSafePlain(t: string)
    requires '+' !in t && '/' !in t
    ensures UrlSafe(t) == t
  {
    assert forall i :: 0 <= i < |t| ==> t[i] in t;
  }

  /** In the URL-safe alphabet every text is read without padding. */
  lemma Decode64OfUrlSafe(s: string)
    ensures Decode64(UrlSafe(EncodeTrimmed(s))) == Some(s)
  {
    var bs, t := Utf8.Encode(s), EncodeTrimmed(s);
    TrimmedText(s);
    if i :| 0 <= i < |t| && (t[i] == '+' || t[i] == '/') {
      UrlSafeMarked(t, i);
      UrlSafeValues(Sextets(bs));
      BytesOfSextets(bs);
      DecodeOfEncode(s);
    } else {
      UrlSafePlain(t);
      PlainPadding(t, Encode64(s));
      Decode64OfTrimmed(s);
    }
  }

  lemma PlainPadding(t: string, whole: string)
    requires whole == t + Padding(|t|) && '+' !in t && '/' !in t
    ensures '+' !in whole && '/' !in whole
  {
  }

  /** The alphabet is in order: the capital letters, the small ones, the digits, plus and slash. */
  lemma AlphabetOrder(v: Sextet)
    ensures StandardChar(0) == 'A' && StandardChar(26) == 'a' && StandardChar(52) == '0'
    ensures StandardChar(62) == '+' && StandardChar(63) == '/'
    ensures v != 25 && v != 51 && v < 61 ==> StandardChar(v + 1) as int == StandardChar(v) as int + 1
  {
  }

  lemma EncodedGroup(s: string, bs: seq<Byte>, text: string)
    requires Utf8.Encode(s) == bs && StandardText(Sextets(bs)) == text
    ensures Encode64(s) == text + Padding(|text|)
  {
  }

  lemma GroupText(vs: seq<Sextet>)
    ensures |vs| == 2 ==> StandardText(vs) == [StandardChar(vs[0]), StandardChar(vs[1])]
    ensures |vs| == 3 ==> StandardText(vs) == [StandardChar(vs[0]), StandardChar(vs[1]), StandardChar(vs[2])]
    ensures |vs| == 4 ==>
              StandardText(vs) == [StandardChar(vs[0]), StandardChar(vs[1]), StandardChar(vs[2]), StandardChar(vs[3])]
  {
    if |vs| == 4 { GroupText(vs[1..]); }
    if |vs| == 3 { GroupText(vs[1..]); }
    if |vs| == 2 { assert StandardText(vs[1..][1..]) == ""; }
  }

  /** Test vectors of section 10 of RFC 4648: one, two and three bytes. */
  lemma TestVectors()
    ensures Encode64("f") == "Zg==" && Encode64("fo") == "Zm8=" && Encode64("foo") == "Zm9v"
  {
    SmallTexts();
    GroupText([25, 32]);
    GroupText([25, 38, 60]);
    GroupText([25, 38, 61, 47]);
    assert [102, 111, 111][3..] == [];
    assert Sextets([102, 111, 111]) == [25, 38, 61, 47];
    EncodedGroup("f", [102], "Zg");
    EncodedGroup("fo", [102, 111], "Zm8");
    EncodedGroup("foo", [102, 111, 111], "Zm9v");
  }

  lemma SmallTexts()
    ensures Utf8.Encode("f") == [102] && Utf8.Encode("fo") == [102, 111] && Utf8.Encode("foo") == [102, 111, 111]
  {
    assert "f" == ['f'] + "" && "fo" == ['f'] + (['o'] + "") && "foo" == ['f'] + (['o'] + (['o'] + ""));
  }
}
