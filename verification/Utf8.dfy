/**
 UTF-8 as section 3 of RFC 3629 defines it: the strict decoder used by `String::from_utf8`, and the
 lossy one that puts a replacement character for every broken byte sequence.
 */
module Utf8 {
  import opened Wrappers

  type Byte = b: int | 0 <= b < 256

  const REPLACEMENT: char := '\U{FFFD}'

  function EncodeChar(c: char): (bs: seq<Byte>)
    ensures 1 <= |bs| <= 4
    ensures !IsContinuation(bs[0])
  {
    var n := c as int;
    if n < 0x80 then [n]
    else if n < 0x800 then [0xC0 + n / 64, 0x80 + n % 64]
    else if n < 0x10000 then [0xE0 + n / 4096, 0x80 + n / 64 % 64, 0x80 + n % 64]
    else [0xF0 + n / 262144, 0x80 + n / 4096 % 64, 0x80 + n / 64 % 64, 0x80 + n % 64]
  }

  function Encode(s: string): seq<Byte> {
    if s == "" then [] else EncodeChar(s[0]) + Encode(s[1..])
  }

  predicate IsContinuation(b: Byte) {
    0x80 <= b < 0xC0
  }

  /** The length that a lead byte announces, 0 for a byte that leads nothing. */
  function LeadLength(b: Byte): nat {
    if b < 0x80 then 1
    else if 0xC2 <= b < 0xE0 then 2
    else if 0xE0 <= b < 0xF0 then 3
    else if 0xF0 <= b < 0xF5 then 4
    else 0
  }

  /** Which second bytes a lead byte admits: no overlong form, no surrogate, nothing past U+10FFFF. */
  predicate SecondByte(lead: Byte, b: Byte) {
    if lead == 0xE0 then 0xA0 <= b < 0xC0
    else if lead == 0xED then 0x80 <= b < 0xA0
    else if lead == 0xF0 then 0x90 <= b < 0xC0
    else if lead == 0xF4 then 0x80 <= b < 0x90
    else IsContinuation(b)
  }

  function Scalar2(a: int, b: int): int {
    (a - 0xC0) * 64 + (b - 0x80)
  }

  function Scalar3(a: int, b: int, c: int): int {
    (a - 0xE0) * 4096 + (b - 0x80) * 64 + (c - 0x80)
  }

  function Scalar4(a: int, b: int, c: int, d: int): int {
    (a - 0xF0) * 262144 + (b - 0x80) * 4096 + (c - 0x80) * 64 + (d - 0x80)
  }

  /** One well-formed scalar at the front of the bytes, with the number of bytes it takes. */
  function DecodeFirst(bs: seq<Byte>): (r: Option<(char, nat)>)
    ensures r.Some? ==> 1 <= r.value.1 <= 4 && r.value.1 <= |bs|
  {
    if bs == [] then None
    else
      var n := LeadLength(bs[0]);
      if n == 0 || |bs| < n then None
      else if n == 1 then Some((bs[0] as char, 1))
      else if !SecondByte(bs[0], bs[1]) then None
      else if n == 2 then Some((Scalar2(bs[0], bs[1]) as char, 2))
      else if !IsContinuation(bs[2]) then None
      else if n == 3 then Some((Scalar3(bs[0], bs[1], bs[2]) as char, 3))
      else if !IsContinuation(bs[3]) then None
      else Some((Scalar4(bs[0], bs[1], bs[2], bs[3]) as char, 4))
  }

  function Decode(bs: seq<Byte>): Option<string> {
    if bs == [] then Some("")
    else
      match DecodeFirst(bs)
      case None => None
      case Some((c, n)) =>
        match Decode(bs[n..])
        case None => None
        case Some(rest) => Some([c] + rest)
  }

  lemma DigitsOfScalar(n: nat)
    ensures n == n / 64 * 64 + n % 64
    ensures n / 64 == n / 4096 * 64 + n / 64 % 64
    ensures n / 4096 == n / 262144 * 64 + n / 4096 % 64
  {
  }

  lemma LowDigit(m: nat, d: nat)
    requires d < 64
    ensures (m * 64 + d) / 64 == m && (m * 64 + d) % 64 == d
  {
  }

  lemma DivideInTurn(n: nat)
    ensures n / 4096 == n / 64 / 64 && n / 262144 == n / 4096 / 64
  {
  }

  lemma ScalarOfDigits(a: nat, b: nat, c: nat, d: nat)
    requires b < 64 && c < 64 && d < 64
    ensures var n := a * 262144 + b * 4096 + c * 64 + d;
            n / 262144 == a && n / 4096 == a * 64 + b && n / 64 == a * 4096 + b * 64 + c &&
            n % 64 == d && n / 64 % 64 == c && n / 4096 % 64 == b
  {
    LowDigit(a, b);
    LowDigit(a * 64 + b, c);
    LowDigit(a * 4096 + b * 64 + c, d);
    DivideInTurn(a * 262144 + b * 4096 + c * 64 + d);
  }

  lemma DecodeFirstOfEncoded(c: char, rest: seq<Byte>)
    ensures DecodeFirst(EncodeChar(c) + rest) == Some((c, |EncodeChar(c)|))
  {
    var n := c as int;
    DigitsOfScalar(n);
    var bs := EncodeChar(c) + rest;
    assert forall i :: 0 <= i < |EncodeChar(c)| ==> bs[i] == EncodeChar(c)[i];
    if n < 0x80 {
    } else if n < 0x800 {
      assert Scalar2(bs[0], bs[1]) == n;
    } else if n < 0x10000 {
      assert Scalar3(bs[0], bs[1], bs[2]) == n;
    } else {
      assert Scalar4(bs[0], bs[1], bs[2], bs[3]) == n;
    }
  }

  lemma EncodeOfTwo(a: Byte, b: Byte)
    requires LeadLength(a) == 2 && SecondByte(a, b)
    ensures EncodeChar(Scalar2(a, b) as char) == [a, b]
  {
    ScalarOfDigits(0, 0, a - 0xC0, b - 0x80);
  }

  lemma EncodeOfThree(a: Byte, b: Byte, c: Byte)
    requires LeadLength(a) == 3 && SecondByte(a, b) && IsContinuation(c)
    ensures EncodeChar(Scalar3(a, b, c) as char) == [a, b, c]
  {
    ScalarOfDigits(0, a - 0xE0, b - 0x80, c - 0x80);
  }

  lemma EncodeOfFour(a: Byte, b: Byte, c: Byte, d: Byte)
    requires LeadLength(a) == 4 && SecondByte(a, b) && IsContinuation(c) && IsContinuation(d)
    ensures EncodeChar(Scalar4(a, b, c, d) as char) == [a, b, c, d]
  {
    ScalarOfDigits(a - 0xF0, b - 0x80, c - 0x80, d - 0x80);
  }

  lemma EncodeOfDecodedFirst(bs: seq<Byte>)
    requires DecodeFirst(bs).Some?
    ensures bs[..DecodeFirst(bs).value.1] == EncodeChar(DecodeFirst(bs).value.0)
  {
    var (c, k) := DecodeFirst(bs).value;
    if k == 1 {
      assert EncodeChar(c) == [bs[0]];
    } else if k == 2 {
      EncodeOfTwo(bs[0], bs[1]);
    } else if k == 3 {
      EncodeOfThree(bs[0], bs[1], bs[2]);
    } else {
      EncodeOfFour(bs[0], bs[1], bs[2], bs[3]);
    }
  }

  lemma {:induction false} DecodeOfEncode(s: string)
    ensures Decode(Encode(s)) == Some(s)
  {
    if s != "" {
      DecodeFirstOfEncoded(s[0], Encode(s[1..]));
      DecodeOfEncode(s[1..]);
      assert Encode(s)[|EncodeChar(s[0])|..] == Encode(s[1..]);
      assert s == [s[0]] + s[1..];
    }
  }

  /** The strict decoder accepts exactly the encodings of texts, and gives each its text. */
  lemma {:induction false} DecodeIffEncode(bs: seq<Byte>, s: string)
    ensures Decode(bs) == Some(s) <==> bs == Encode(s)
  {
    if bs == Encode(s) {
      DecodeOfEncode(s);
    }
    if Decode(bs) == Some(s) && bs != [] {
      var (_, n) := DecodeFirst(bs).value;
      EncodeOfDecodedFirst(bs);
      DecodeIffEncode(bs[n..], s[1..]);
      assert bs == bs[..n] + bs[n..];
    }
  }

  lemma {:induction false} EncodeLength(s: string)
    ensures |s| <= |Encode(s)| <= 4 * |s|
  {
    if s != "" { EncodeLength(s[1..]); }
  }

  /** How many bytes one replacement character stands for: the longest prefix of some scalar. */
  function BrokenLength(bs: seq<Byte>): (n: nat)
    requires bs != []
    ensures 1 <= n <= 3 && n <= |bs|
    ensures forall i :: 1 <= i < n ==> IsContinuation(bs[i])
  {
    var n := LeadLength(bs[0]);
    if n < 2 || |bs| < 2 || !SecondByte(bs[0], bs[1]) then 1
    else if n < 3 || |bs| < 3 || !IsContinuation(bs[2]) then (if n < 3 then 1 else 2)
    else if n < 4 then 2
    else 3
  }

  /** What the bytes of a scalar are, one by one. */
  lemma EncodedShape(c: char)
    ensures var e := EncodeChar(c);
            LeadLength(e[0]) == |e| && (|e| >= 2 ==> SecondByte(e[0], e[1])) &&
            (|e| >= 3 ==> IsContinuation(e[2])) && (|e| == 4 ==> IsContinuation(e[3]))
  {
    DecodeFirstOfEncoded(c, []);
    assert EncodeChar(c) + [] == EncodeChar(c);
  }

  /** No scalar begins with more of the bytes than one replacement character stands for. */
  lemma BrokenIsLongest(bs: seq<Byte>, c: char, k: nat)
    requires bs != [] && DecodeFirst(bs).None? && k <= |bs| && bs[..k] <= EncodeChar(c)
    ensures k <= BrokenLength(bs)
  {
    var e := EncodeChar(c);
    EncodedShape(c);
    WholeIsDecoded(bs, c);
    assert forall i :: 0 <= i < k ==> e[i] == bs[i];
    BeginsWhole(bs, e, k);
  }

  lemma BeginsWhole(bs: seq<Byte>, e: seq<Byte>, k: nat)
    requires k <= |bs| && bs[..k] <= e
    ensures k == |e| ==> e <= bs
  {
    if k == |e| { assert e == bs[..k]; }
  }

  lemma WholeIsDecoded(bs: seq<Byte>, c: char)
    ensures EncodeChar(c) <= bs ==> DecodeFirst(bs).Some?
  {
    if EncodeChar(c) <= bs {
      DecodeFirstOfEncoded(c, bs[|EncodeChar(c)|..]);
      assert bs == EncodeChar(c) + bs[|EncodeChar(c)|..];
    }
  }

  /** Some scalar begins with that many of them, if that is more than one byte. */
  lemma BrokenIsBeginning(bs: seq<Byte>) returns (c: char)
    requires bs != [] && BrokenLength(bs) > 1
    ensures bs[..BrokenLength(bs)] < EncodeChar(c)
  {
    var n := BrokenLength(bs);
    var whole := bs[..n] + seq(LeadLength(bs[0]) - n, i => 0x80);
    assert whole[0] == bs[0] && whole[1] == bs[1];
    var first := DecodeFirst(whole);
    EncodeOfDecodedFirst(whole);
    c := first.value.0;
  }

  /** `from_utf8_lossy`. */
  function Lossy(bs: seq<Byte>): string {
    if bs == [] then ""
    else
      match DecodeFirst(bs)
      case Some((c, n)) => [c] + Lossy(bs[n..])
      case None => [REPLACEMENT] + Lossy(bs[BrokenLength(bs)..])
  }

  lemma {:induction false} LossyOfChar(c: char, rest: seq<Byte>)
    ensures Lossy(EncodeChar(c) + rest) == [c] + Lossy(rest)
  {
    DecodeFirstOfEncoded(c, rest);
    assert (EncodeChar(c) + rest)[|EncodeChar(c)|..] == rest;
  }

  lemma {:induction false} LossySkipsContinuations(bs: seq<Byte>, k: nat)
    requires k <= |bs| && forall i :: 0 <= i < k ==> IsContinuation(bs[i])
    ensures |Lossy(bs)| == k + |Lossy(bs[k..])|
  {
    if k > 0 {
      LossySkipsContinuations(bs[1..], k - 1);
      assert bs[1..][k - 1..] == bs[k..];
    } else {
      assert bs[0..] == bs;
    }
  }

  /** How many bytes the first character of a lossy text takes. */
  function FirstLength(bs: seq<Byte>): (n: nat)
    requires bs != []
    ensures 1 <= n <= |bs| && |Lossy(bs)| == 1 + |Lossy(bs[n..])|
  {
    match DecodeFirst(bs)
    case Some((_, n)) => n
    case None => BrokenLength(bs)
  }

  lemma FirstIsFollowed(bs: seq<Byte>)
    requires bs != []
    ensures forall i :: 1 <= i < FirstLength(bs) ==> IsContinuation(bs[i])
  {
  }

  /** One more byte in front makes the lossy text longer by at most one character. */
  lemma LossyOfByte(b: Byte, rest: seq<Byte>)
    ensures |Lossy([b] + rest)| <= 1 + |Lossy(rest)|
  {
    var bs := [b] + rest;
    var n := FirstLength(bs);
    FirstIsFollowed(bs);
    assert bs[n..] == rest[n - 1..];
    assert forall i :: 0 <= i < n - 1 ==> rest[i] == bs[i + 1];
    LossySkipsContinuations(rest, n - 1);
  }
}
