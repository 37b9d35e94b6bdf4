/**
 The two 64-bit folds: the one that names rule-provider files and the FNV-1a one that names the
 Worker's cache entries. Every step of either is a bijection of the hash state.
 */
module Hashes {
  import opened Utf8
  import Decimal

  const TWO64: nat := 0x1_0000_0000_0000_0000

  type Word = h: nat | h < 0x1_0000_0000_0000_0000

  /** `wrapping_mul` and `wrapping_add`. */
  function Mul(h: Word, p: Word): Word {
    (h * p) % TWO64
  }

  function Add(h: Word, b: Word): Word {
    (h + b) % TWO64
  }

  function Sub(h: Word, b: Word): Word {
    (h + TWO64 - b) % TWO64
  }

  /** Exclusive or of the low `width` bits. */
  function Xor(a: nat, b: nat, width: nat): (r: nat) {
    if width == 0 then 0 else (if a % 2 == b % 2 then 0 else 1) + 2 * Xor(a / 2, b / 2, width - 1)
  }

  lemma RoundedDown(h: Word)
    ensures 0 <= h - h % 256 && h - h % 256 + 256 <= TWO64
  {
    var q := h / 256;
    assert h - h % 256 == 256 * q && TWO64 == 256 * 0x100_0000_0000_0000;
    assert q < 0x100_0000_0000_0000;
  }

  /** `^` with one byte: only the low eight bits change. */
  function XorByte(h: Word, b: Byte): Word {
    XorBound(h % 256, b, 8);
    RoundedDown(h);
    h - h % 256 + Xor(h % 256, b, 8)
  }

  const FNV_PRIME: Word := 0x100_0000_01b3

  // The inverses of 33 and of the FNV prime modulo 2^64.
  const INVERSE_33: Word := 0x0f83_e0f8_3e0f_83e1
  const INVERSE_FNV: Word := 0xce96_5057_aff6_957b

  function DjbStep(h: Word, b: Byte): Word {
    Add(Mul(h, 33), b)
  }

  function DjbUnstep(g: Word, b: Byte): Word {
    Mul(Sub(g, b), INVERSE_33)
  }

  function FnvStep(h: Word, b: Byte): Word {
    Mul(XorByte(h, b), FNV_PRIME)
  }

  function FnvUnstep(g: Word, b: Byte): Word {
    XorByte(Mul(g, INVERSE_FNV), b)
  }

  // ---------------------------------------------------------------- arithmetic modulo 2^64

  lemma ModShift(h: Word, t: int)
    ensures (h + TWO64 * t) % TWO64 == h
  {
  }

  lemma Mul33(h: Word)
    ensures Mul(Mul(h, 33), INVERSE_33) == h && Mul(Mul(h, INVERSE_33), 33) == h
  {
    var q, r := h * 33 / TWO64, h * INVERSE_33 / TWO64;
    assert Mul(h, 33) * INVERSE_33 == h + TWO64 * (2 * h - q * INVERSE_33);
    ModShift(h, 2 * h - q * INVERSE_33);
    assert Mul(h, INVERSE_33) * 33 == h + TWO64 * (2 * h - r * 33);
    ModShift(h, 2 * h - r * 33);
  }

  lemma MulFnv(h: Word)
    ensures Mul(Mul(h, FNV_PRIME), INVERSE_FNV) == h && Mul(Mul(h, INVERSE_FNV), FNV_PRIME) == h
  {
    var q, r := h * FNV_PRIME / TWO64, h * INVERSE_FNV / TWO64;
    assert Mul(h, FNV_PRIME) * INVERSE_FNV == h + TWO64 * (887285111055 * h - q * INVERSE_FNV);
    ModShift(h, 887285111055 * h - q * INVERSE_FNV);
    assert Mul(h, INVERSE_FNV) * FNV_PRIME == h + TWO64 * (887285111055 * h - r * FNV_PRIME);
    ModShift(h, 887285111055 * h - r * FNV_PRIME);
  }

  lemma AddSub(h: Word, b: Word)
    ensures Sub(Add(h, b), b) == h && Add(Sub(h, b), b) == h
  {
    assert Add(h, b) == if h + b < TWO64 then h + b else h + b - TWO64;
    assert Sub(h, b) == if h >= b then h - b else h + TWO64 - b;
  }

  function Power2(n: nat): nat {
    if n == 0 then 1 else 2 * Power2(n - 1)
  }

  lemma {:induction false} XorBound(a: nat, b: nat, width: nat)
    ensures Xor(a, b, width) < Power2(width)
    ensures Power2(8) == 256
  {
    if width > 0 { XorBound(a / 2, b / 2, width - 1); }
  }

  lemma {:induction false} XorLaws(a: nat, b: nat, width: nat)
    requires a < Power2(width) && b < Power2(width)
    ensures Xor(Xor(a, b, width), b, width) == a
    ensures Xor(Xor(a, b, width), a, width) == b
  {
    if width > 0 {
      XorLaws(a / 2, b / 2, width - 1);
      assert Xor(a, b, width) / 2 == Xor(a / 2, b / 2, width - 1);
    }
  }

  lemma XorByteParts(h: Word, b: Byte)
    ensures XorByte(h, b) % 256 == Xor(h % 256, b, 8) && XorByte(h, b) / 256 == h / 256
  {
    XorBound(h % 256, b, 8);
    LowByte(h, Xor(h % 256, b, 8));
  }

  /** Another low byte leaves the rest of the number alone. */
  lemma LowByte(h: nat, low: nat)
    requires low < 256
    ensures (h - h % 256 + low) % 256 == low && (h - h % 256 + low) / 256 == h / 256
  {
    var q := h / 256;
    assert h - h % 256 + low == 256 * q + low;
  }

  lemma XorTwice(h: Word, b: Byte)
    ensures XorByte(XorByte(h, b), b) == h
  {
    XorByteParts(h, b);
    XorByteParts(XorByte(h, b), b);
    XorBound(h, b, 8);
    XorLaws(h % 256, b, 8);
  }

  lemma XorDiffers(h: Word, b: Byte, c: Byte)
    requires XorByte(h, b) == XorByte(h, c)
    ensures b == c
  {
    XorByteParts(h, b);
    XorByteParts(h, c);
    XorBound(h, b, 8);
    XorLaws(h % 256, b, 8);
    XorLaws(h % 256, c, 8);
  }

  // ---------------------------------------------------------------- the steps are bijections

  /** For every byte, a step and its inverse undo each other in both orders. */
  lemma DjbStepBijective(h: Word, b: Byte)
    ensures DjbUnstep(DjbStep(h, b), b) == h
    ensures DjbStep(DjbUnstep(h, b), b) == h
  {
    AddSub(Mul(h, 33), b);
    Mul33(h);
    Mul33(Sub(h, b));
    AddSub(h, b);
  }

  lemma FnvStepBijective(h: Word, b: Byte)
    ensures FnvUnstep(FnvStep(h, b), b) == h
    ensures FnvStep(FnvUnstep(h, b), b) == h
  {
    MulFnv(XorByte(h, b));
    XorTwice(h, b);
    XorTwice(Mul(h, INVERSE_FNV), b);
    MulFnv(h);
  }

  lemma AddApart(x: Word, b: Byte, c: Byte)
    requires b != c
    ensures Add(x, b) != Add(x, c)
  {
  }

  lemma StepsTellBytesApart(h: Word, b: Byte, c: Byte)
    requires b != c
    ensures DjbStep(h, b) != DjbStep(h, c) && FnvStep(h, b) != FnvStep(h, c)
  {
    AddApart(Mul(h, 33), b, c);
    if FnvStep(h, b) == FnvStep(h, c) {
      MulFnv(XorByte(h, b));
      MulFnv(XorByte(h, c));
      XorDiffers(h, b, c);
    }
  }

  // ---------------------------------------------------------------- the folds

  function DjbFrom(h: Word, bs: seq<Byte>): Word
    decreases |bs|
  {
    if bs == [] then h else DjbFrom(DjbStep(h, bs[0]), bs[1..])
  }

  function FnvFrom(h: Word, bs: seq<Byte>): Word
    decreases |bs|
  {
    if bs == [] then h else FnvFrom(FnvStep(h, bs[0]), bs[1..])
  }

  /** `stable_ruleset_hash`. */
  function RulesetHash(url: string): Word {
    DjbFrom(5381, Utf8.Encode(url))
  }

  /** The hash in the Worker's `cache_key`. */
  function CacheHash(key: string): Word {
    FnvFrom(0xcbf2_9ce4_8422_2325, Utf8.Encode(key))
  }

  lemma {:induction false} FoldsConcat(h: Word, a: seq<Byte>, b: seq<Byte>)
    ensures DjbFrom(h, a + b) == DjbFrom(DjbFrom(h, a), b)
    ensures FnvFrom(h, a + b) == FnvFrom(FnvFrom(h, a), b)
    decreases |a|
  {
    if a == [] {
      assert a + b == b;
    } else {
      assert (a + b)[1..] == a[1..] + b;
      FoldsConcat(DjbStep(h, a[0]), a[1..], b);
      FoldsConcat(FnvStep(h, a[0]), a[1..], b);
    }
  }

  lemma {:induction false} FoldsInjective(g: Word, h: Word, bs: seq<Byte>)
    requires g != h
    ensures DjbFrom(g, bs) != DjbFrom(h, bs) && FnvFrom(g, bs) != FnvFrom(h, bs)
    decreases |bs|
  {
    if bs != [] {
      DjbStepBijective(g, bs[0]);
      DjbStepBijective(h, bs[0]);
      FnvStepBijective(g, bs[0]);
      FnvStepBijective(h, bs[0]);
      FoldsInjective(DjbStep(g, bs[0]), DjbStep(h, bs[0]), bs[1..]);
      FoldsInjective(FnvStep(g, bs[0]), FnvStep(h, bs[0]), bs[1..]);
    }
  }

  /** The two texts have the same bytes except for one. */
  predicate DifferInOneByte(s: string, t: string, i: nat) {
    var a, b := Utf8.Encode(s), Utf8.Encode(t);
    |a| == |b| && i < |a| && a[i] != b[i] && a[..i] == b[..i] && a[i + 1..] == b[i + 1..]
  }

  lemma FoldsTellApart(g: Word, h: Word, a: seq<Byte>, x: Byte, y: Byte, c: seq<Byte>)
    requires x != y
    ensures DjbFrom(g, a + ([x] + c)) != DjbFrom(g, a + ([y] + c))
    ensures FnvFrom(h, a + ([x] + c)) != FnvFrom(h, a + ([y] + c))
  {
    var g', h' := DjbFrom(g, a), FnvFrom(h, a);
    FoldsConcat(g, a, [x] + c);
    FoldsConcat(g, a, [y] + c);
    FoldsConcat(h, a, [x] + c);
    FoldsConcat(h, a, [y] + c);
    assert ([x] + c)[1..] == c && ([y] + c)[1..] == c;
    StepsTellBytesApart(g', x, y);
    StepsTellBytesApart(h', x, y);
    FoldsInjective(DjbStep(g', x), DjbStep(g', y), c);
    FoldsInjective(FnvStep(h', x), FnvStep(h', y), c);
  }

  lemma AroundByte(bs: seq<Byte>, i: nat)
    requires i < |bs|
    ensures bs == bs[..i] + ([bs[i]] + bs[i + 1..])
  {
  }

  lemma OneByteOneHash(s: string, t: string, i: nat)
    requires DifferInOneByte(s, t, i)
    ensures RulesetHash(s) != RulesetHash(t) && CacheHash(s) != CacheHash(t)
  {
    var a, b := Utf8.Encode(s), Utf8.Encode(t);
    AroundByte(a, i);
    AroundByte(b, i);
    FoldsTellApart(5381, 0xcbf2_9ce4_8422_2325, a[..i], a[i], b[i], a[i + 1..]);
  }

  // ---------------------------------------------------------------- the names made from them

  datatype Behavior = Domain | IpCidr | Classical

  /** `clash_rule_provider_path`. */
  function ProviderPath(url: string, behavior: Behavior): string {
    "./providers/" + (Decimal.Print(RulesetHash(url)) + PathSuffix(behavior))
  }

  function PathSuffix(behavior: Behavior): (s: string)
    ensures s != "" && !Decimal.IsDigit(s[0])
  {
    match behavior
    case Domain => "_domain.yaml"
    case IpCidr => "_ipcidr.yaml"
    case Classical => ".yaml"
  }

  function HexDigit(n: nat): char
    requires n < 16
  {
    if n < 10 then ('0' as int + n) as char else ('a' as int + n - 10) as char
  }

  function Hex(h: nat, width: nat): (s: string)
    ensures |s| == width
  {
    if width == 0 then "" else Hex(h / 16, width - 1) + [HexDigit(h % 16)]
  }

  /** The Worker's `cache_key`. */
  function CacheKey(nameSpace: string, key: string): string {
    "cache:" + nameSpace + ":" + Hex(CacheHash(key), 16)
  }

  function Power16(n: nat): nat {
    if n == 0 then 1 else 16 * Power16(n - 1)
  }

  lemma {:induction false} HexInjective(g: nat, h: nat, width: nat)
    requires g < Power16(width) && h < Power16(width) && Hex(g, width) == Hex(h, width)
    ensures g == h
  {
    if width > 0 {
      assert Hex(g, width)[..width - 1] == Hex(g / 16, width - 1);
      assert Hex(h, width)[..width - 1] == Hex(h / 16, width - 1);
      assert HexDigit(g % 16) == Hex(g, width)[width - 1] == Hex(h, width)[width - 1] == HexDigit(h % 16);
      HexInjective(g / 16, h / 16, width - 1);
    }
  }

  lemma {:induction false} DigitsFirst(m: nat, n: nat, s: string, t: string)
    requires s != "" && t != "" && !Decimal.IsDigit(s[0]) && !Decimal.IsDigit(t[0])
    requires Decimal.Print(m) + s == Decimal.Print(n) + t
    ensures m == n
  {
    var a, b := Decimal.Print(m), Decimal.Print(n);
    assert forall i :: 0 <= i < |a| ==> (a + s)[i] == a[i] && Decimal.IsDigit(a[i]) by {
      assert forall i :: 0 <= i < |a| ==> a[i] in a;
    }
    assert forall i :: 0 <= i < |b| ==> (b + t)[i] == b[i] && Decimal.IsDigit(b[i]) by {
      assert forall i :: 0 <= i < |b| ==> b[i] in b;
    }
    assert (a + s)[|a|] == s[0] && (b + t)[|b|] == t[0];
    assert |a| == |b|;
    assert a == (a + s)[..|a|] && b == (b + t)[..|b|];
    Decimal.PrintInjective(m, n);
  }

  /**
   Ruleset addresses that differ in one byte get different provider files, whatever their behaviours;
   cache keys that differ in one byte get different entries of the same namespace.
   */
  lemma OneByteOneName(s: string, t: string, i: nat, b: Behavior, c: Behavior, nameSpace: string)
    requires DifferInOneByte(s, t, i)
    ensures ProviderPath(s, b) != ProviderPath(t, c)
    ensures CacheKey(nameSpace, s) != CacheKey(nameSpace, t)
  {
    OneByteOneHash(s, t, i);
    PathTellsHash(s, b, t, c);
    AfterFront("cache:" + nameSpace + ":", Hex(CacheHash(s), 16), Hex(CacheHash(t), 16));
    Power16Of16();
    if Hex(CacheHash(s), 16) == Hex(CacheHash(t), 16) { HexInjective(CacheHash(s), CacheHash(t), 16); }
  }

  lemma Power16Of16()
    ensures Power16(16) == TWO64
  {
    assert Power16(4) == 0x1_0000;
    assert Power16(8) == 0x1_0000_0000;
    assert Power16(12) == 0x1_0000_0000_0000;
  }

  lemma PathTellsHash(s: string, b: Behavior, t: string, c: Behavior)
    ensures ProviderPath(s, b) == ProviderPath(t, c) ==> RulesetHash(s) == RulesetHash(t)
  {
    var front := "./providers/";
    var p, q := Decimal.Print(RulesetHash(s)) + PathSuffix(b), Decimal.Print(RulesetHash(t)) + PathSuffix(c);
    AfterFront(front, p, q);
    if p == q { DigitsFirst(RulesetHash(s), RulesetHash(t), PathSuffix(b), PathSuffix(c)); }
  }

  lemma AfterFront(front: string, p: string, q: string)
    ensures front + p == front + q ==> p == q
  {
    assert (front + p)[|front|..] == p && (front + q)[|front|..] == q;
  }

  // ---------------------------------------------------------------- known values

  function Bit(n: nat, i: nat): nat {
    if i == 0 then n % 2 else Bit(n / 2, i - 1)
  }

  /** A bit of the exclusive or is set when the two bits differ. */
  lemma {:induction false} XorBits(a: nat, b: nat, width: nat, i: nat)
    requires i < width
    ensures Bit(Xor(a, b, width), i) == if Bit(a, i) == Bit(b, i) then 0 else 1
  {
    var rest := Xor(a / 2, b / 2, width - 1);
    assert Xor(a, b, width) / 2 == rest;
    if i > 0 { XorBits(a / 2, b / 2, width - 1, i - 1); }
  }

  lemma XorOfSmallA()
    ensures Xor(0x25, 0x61, 8) == 0x44
  {
    XorStep(0, 1, 2);
    XorStep(1, 3, 3);
    XorStep(2, 6, 4);
    XorStep(4, 12, 5);
    XorStep(9, 24, 6);
    XorStep(18, 48, 7);
    XorStep(37, 97, 8);
  }

  lemma XorStep(a: nat, b: nat, width: nat)
    requires width > 0
    ensures Xor(a, b, width) == (if a % 2 == b % 2 then 0 else 1) + 2 * Xor(a / 2, b / 2, width - 1)
    ensures Xor(0, 0, 1) == 0
  {
  }

  lemma OneByteText()
    ensures Utf8.Encode("a") == [97] && Utf8.Encode("") == []
  {
    assert "a" == ['a'] + "";
  }

  lemma FoldOfOne(h: Word, bs: seq<Byte>, b: Byte)
    requires bs == [b]
    ensures DjbFrom(h, bs) == DjbStep(h, b) && FnvFrom(h, bs) == FnvStep(h, b)
  {
    assert bs[1..] == [];
  }

  lemma DjbOfSmallA(h: Word, b: Byte)
    requires h == 5381 && b == 97
    ensures DjbStep(h, b) == 177670
  {
  }

  lemma FnvOfSmallA(h: Word, b: Byte)
    requires h == 0xcbf2_9ce4_8422_2325 && b == 97
    ensures FnvStep(h, b) == 0xaf63_dc4c_8601_ec8c
  {
    XorOfSmallA();
    var x: Word := 0xcbf2_9ce4_8422_2344;
    assert h % 256 == 0x25;
    assert XorByte(h, b) == x;
    FnvProduct(x);
  }

  lemma FnvProduct(x: Word)
    requires x == 0xcbf2_9ce4_8422_2344
    ensures Mul(x, FNV_PRIME) == 0xaf63_dc4c_8601_ec8c
  {
    assert x * FNV_PRIME == 875948729822 * TWO64 + 0xaf63_dc4c_8601_ec8c;
  }

  lemma RulesetHashes(none: string, one: string)
    requires none == "" && one == "a"
    ensures RulesetHash(none) == 5381 && RulesetHash(one) == 177670
  {
    OneByteText();
    FoldOfOne(5381, Utf8.Encode(one), 97);
    DjbOfSmallA(5381, 97);
  }

  lemma CacheHashes(none: string, one: string)
    requires none == "" && one == "a"
    ensures CacheHash(none) == 0xcbf2_9ce4_8422_2325 && CacheHash(one) == 0xaf63_dc4c_8601_ec8c
  {
    OneByteText();
    FoldOfOne(0xcbf2_9ce4_8422_2325, Utf8.Encode(one), 97);
    FnvOfSmallA(0xcbf2_9ce4_8422_2325, 97);
  }

  /** The two hashes of no byte and of one; the second pair is among the test vectors of FNV-1a. */
  lemma KnownHashes()
    ensures RulesetHash("") == 5381 && RulesetHash("a") == 177670
    ensures CacheHash("") == 0xcbf2_9ce4_8422_2325 && CacheHash("a") == 0xaf63_dc4c_8601_ec8c
  {
    RulesetHashes("", "a");
    CacheHashes("", "a");
  }

  predicate HexText(s: string) {
    forall i :: 0 <= i < |s| ==> '0' <= s[i] <= '9' || 'a' <= s[i] <= 'f'
  }

  /** What hexadecimal digits are worth. */
  function HexWorth(s: string): nat
    requires HexText(s)
  {
    if s == "" then 0
    else
      var last := s[|s| - 1];
      16 * HexWorth(s[..|s| - 1]) + (if last <= '9' then last as int - '0' as int else last as int - 'a' as int + 10)
  }

  /** A number in hexadecimal, with zeros in front, is worth the number. */
  lemma {:induction false} HexReadsBack(h: nat, width: nat)
    requires h < Power16(width)
    ensures HexText(Hex(h, width)) && HexWorth(Hex(h, width)) == h
  {
    if width > 0 {
      HexReadsBack(h / 16, width - 1);
      HexSnoc(Hex(h / 16, width - 1), h % 16);
    }
  }

  lemma HexSnoc(front: string, digit: nat)
    requires HexText(front) && digit < 16
    ensures var s := front + [HexDigit(digit)]; HexText(s) && HexWorth(s) == 16 * HexWorth(front) + digit
  {
    var s := front + [HexDigit(digit)];
    assert s[..|s| - 1] == front;
  }

  /** The names that are made of them. */
  lemma NamesOfHashes(url: string, nameSpace: string)
    ensures ProviderPath(url, Domain) == "./providers/" + Decimal.Print(RulesetHash(url)) + "_domain.yaml"
    ensures ProviderPath(url, IpCidr) == "./providers/" + Decimal.Print(RulesetHash(url)) + "_ipcidr.yaml"
    ensures ProviderPath(url, Classical) == "./providers/" + Decimal.Print(RulesetHash(url)) + ".yaml"
    ensures CacheKey(nameSpace, url) == "cache:" + nameSpace + ":" + Hex(CacheHash(url), 16)
  {
    SuffixBehind("./providers/", Decimal.Print(RulesetHash(url)), "_domain.yaml");
    SuffixBehind("./providers/", Decimal.Print(RulesetHash(url)), "_ipcidr.yaml");
    SuffixBehind("./providers/", Decimal.Print(RulesetHash(url)), ".yaml");
  }

  lemma SuffixBehind(front: string, middle: string, suffix: string)
    ensures front + middle + suffix == front + (middle + suffix)
  {
  }
}
