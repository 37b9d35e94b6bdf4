/** Unsigned integers written in decimal, and read the way the standard library's `parse` does. */
module Decimal {
  import opened Wrappers

  predicate IsDigit(c: char) {
    '0' <= c <= '9'
  }

  function Digit(n: nat): (c: char)
    requires n < 10
    ensures IsDigit(c) && c as int - '0' as int == n
  {
    ('0' as int + n) as char
  }

  function Print(n: nat): (s: string)
    ensures s != "" && forall c :: c in s ==> IsDigit(c)
  {
    if n < 10 then [Digit(n)] else Print(n / 10) + [Digit(n % 10)]
  }

  function ValueOf(s: string): Option<nat> {
    if s == "" then Some(0)
    else
      var last := s[|s| - 1];
      match ValueOf(s[..|s| - 1])
      case None => None
      case Some(v) => if IsDigit(last) then Some(10 * v + (last as int - '0' as int)) else None
  }

  /** `parse` into an unsigned type with this maximum: an optional plus sign, then at least one digit. */
  function Parse(s: string, max: nat): Option<nat> {
    var digits := if s != "" && s[0] == '+' then s[1..] else s;
    if digits == "" then None
    else
      match ValueOf(digits)
      case None => None
      case Some(v) => if v <= max then Some(v) else None
  }

  lemma {:induction false} ValueOfPrint(n: nat)
    ensures ValueOf(Print(n)) == Some(n)
  {
    if n >= 10 {
      ValueOfPrint(n / 10);
      assert Print(n)[..|Print(n)| - 1] == Print(n / 10);
    }
  }

  lemma ParseOfPrint(n: nat, max: nat)
    requires n <= max
    ensures Parse(Print(n), max) == Some(n)
  {
    ValueOfPrint(n);
    assert Print(n)[0] in Print(n);
  }

  lemma PrintInjective(m: nat, n: nat)
    requires Print(m) == Print(n)
    ensures m == n
  {
    ValueOfPrint(m);
    ValueOfPrint(n);
  }

  function Zeros(k: nat): (s: string)
    ensures |s| == k
  {
    if k == 0 then "" else "0" + Zeros(k - 1)
  }

  lemma {:induction false} ZerosSnoc(k: nat)
    ensures Zeros(k) + "0" == Zeros(k + 1)
  {
    if k > 0 { ZerosSnoc(k - 1); }
  }

  lemma OneDigitMore(front: string, last: char, v: nat, zeros: nat) returns (k: nat)
    requires front == Zeros(zeros) + Print(v) && IsDigit(last)
    ensures front + [last] == Zeros(k) + Print(10 * v + (last as int - '0' as int))
  {
    assert Digit(last as int - '0' as int) == last;
    if v == 0 {
      ZerosSnoc(zeros);
      k := zeros + 1;
    } else {
      k := zeros;
    }
  }

  /** Digits that are worth a number are its own behind some zeros. */
  lemma {:induction false} DigitsOfValue(s: string) returns (zeros: nat)
    requires s != "" && ValueOf(s).Some?
    ensures s == Zeros(zeros) + Print(ValueOf(s).value)
  {
    var front, last := s[..|s| - 1], s[|s| - 1];
    assert s == front + [last];
    if front == "" {
      zeros := 0;
      assert Digit(last as int - '0' as int) == last;
    } else {
      zeros := DigitsOfValue(front);
      zeros := OneDigitMore(front, last, ValueOf(front).value, zeros);
    }
  }

  lemma {:induction false} ValueOfZeros(k: nat, n: nat)
    ensures ValueOf(Zeros(k) + Print(n)) == Some(n)
    decreases n
  {
    var s := Zeros(k) + Print(n);
    if n >= 10 {
      ValueOfZeros(k, n / 10);
      assert s[..|s| - 1] == Zeros(k) + Print(n / 10);
    } else {
      assert s[..|s| - 1] == Zeros(k);
      ZerosAreNothing(k);
    }
  }

  lemma {:induction false} ZerosAreNothing(k: nat)
    ensures ValueOf(Zeros(k)) == Some(0)
  {
    if k > 0 {
      ZerosSnoc(k - 1);
      assert Zeros(k)[..k - 1] == Zeros(k - 1);
      ZerosAreNothing(k - 1);
    }
  }

  lemma ParseDigits(digits: string, n: nat, max: nat)
    requires digits != "" && digits[0] != '+' && ValueOf(digits) == Some(n)
    ensures Parse(digits, max) == (if n <= max then Some(n) else None) == Parse("+" + digits, max)
  {
    assert ("+" + digits)[1..] == digits;
  }

  /** What is read: an optional plus sign, any zeros, and the digits of a number within the bound. */
  lemma ParseIsPrint(zeros: nat, n: nat, max: nat)
    ensures Parse(Zeros(zeros) + Print(n), max) == if n <= max then Some(n) else None
    ensures Parse("+" + (Zeros(zeros) + Print(n)), max) == if n <= max then Some(n) else None
  {
    var digits := Zeros(zeros) + Print(n);
    ValueOfZeros(zeros, n);
    assert Print(n)[0] in Print(n);
    assert digits[0] == (if zeros > 0 then '0' else Print(n)[0]);
    ParseDigits(digits, n, max);
  }

  /** Nothing else is. */
  lemma PrintedIsAllParsed(s: string, max: nat) returns (plus: bool, zeros: nat)
    requires Parse(s, max).Some?
    ensures Parse(s, max).value <= max
    ensures var digits := Zeros(zeros) + Print(Parse(s, max).value); s == if plus then "+" + digits else digits
  {
    plus := s != "" && s[0] == '+';
    zeros := DigitsOfValue(if plus then s[1..] else s);
    assert plus ==> s == "+" + s[1..];
  }
}
