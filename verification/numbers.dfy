/**
 * Decimal digits and the JVM's `Long.parseLong`, which Kotlin's
 * `String.toLong()` calls on the integer part of the field.
 */
module Numbers {
  import opened Wrappers

  /** The range of a signed 64-bit `Long`. */
  const MinLong: int := -0x8000_0000_0000_0000
  const MaxLong: int := 0x7FFF_FFFF_FFFF_FFFF

  predicate InLongRange(v: int) {
    MinLong <= v <= MaxLong
  }

  /** ASCII digits only; other Unicode digits are not modelled. */
  predicate IsDigit(c: char) {
    '0' <= c <= '9'
  }

  predicate AllDigits(s: string) {
    forall i :: 0 <= i < |s| ==> IsDigit(s[i])
  }

  function DigitValue(c: char): (d: nat)
    requires IsDigit(c)
    ensures d < 10
  {
    c as int - '0' as int
  }

  function DigitChar(d: nat): (c: char)
    requires d < 10
    ensures IsDigit(c) && DigitValue(c) == d
  {
    ('0' as int + d) as char
  }

  lemma DigitCharOfValue(c: char)
    requires IsDigit(c)
    ensures DigitChar(DigitValue(c)) == c
  {
  }

  /** The number a string of decimal digits denotes (0 for the empty string). */
  function DigitsValue(s: string): nat
    requires AllDigits(s)
  {
    if s == [] then 0
    else DigitsValue(s[..|s| - 1]) * 10 + DigitValue(s[|s| - 1])
  }

  /** A digit string never shrinks in value when digits are appended. */
  lemma {:induction false} DigitsValuePrefix(s: string, i: nat)
    requires AllDigits(s)
    requires i <= |s|
    ensures DigitsValue(s[..i]) <= DigitsValue(s)
    decreases |s| - i
  {
    if i < |s| {
      DigitsValuePrefix(s, i + 1);
      assert s[..i + 1][..i] == s[..i];
    } else {
      assert s[..i] == s;
    }
  }

  /** A digit string whose first digit is not `0` denotes a positive number. */
  lemma {:induction false} LeadingDigitPositive(s: string)
    requires AllDigits(s)
    requires |s| >= 1 && s[0] != '0'
    ensures DigitsValue(s) >= 1
  {
    if |s| > 1 {
      LeadingDigitPositive(s[..|s| - 1]);
    }
  }

  /** The decimal digits of `n`, without leading zeros; `0` is `"0"`. */
  function ToDigits(n: nat): (r: string)
    ensures |r| >= 1 && AllDigits(r)
    ensures r[0] == '0' ==> n == 0 && r == "0"
    ensures DigitsValue(r) == n
  {
    if n < 10 then [DigitChar(n)]
    else
      var r := ToDigits(n / 10) + [DigitChar(n % 10)];
      assert r[..|r| - 1] == ToDigits(n / 10);
      r
  }

  /** Digits without leading zeros are the digits of their own value. */
  lemma {:induction false} ToDigitsOfValue(s: string)
    requires AllDigits(s) && |s| >= 1
    requires s[0] != '0' || s == "0"
    ensures ToDigits(DigitsValue(s)) == s
  {
    if |s| == 1 {
      DigitCharOfValue(s[0]);
    } else {
      var init := s[..|s| - 1];
      var last := s[|s| - 1];
      var v := DigitsValue(s);
      assert v == DigitsValue(init) * 10 + DigitValue(last);
      LeadingDigitPositive(init);
      assert v / 10 == DigitsValue(init) && v % 10 == DigitValue(last);
      ToDigitsOfValue(init);
      DigitCharOfValue(last);
      assert ToDigits(v) == init + [last];
      assert s == init + [last];
    }
  }

  /** Optional `+` or `-`, then at least one digit and nothing else. */
  predicate LongSyntax(s: string) {
    |s| > 0 &&
    if s[0] == '-' || s[0] == '+' then |s| > 1 && AllDigits(s[1..]) else AllDigits(s)
  }

  /** The digits after the optional sign. */
  function Magnitude(s: string): string
    requires LongSyntax(s)
  {
    if s[0] == '-' || s[0] == '+' then s[1..] else s
  }

  /** The mathematical value of a well-formed signed decimal. */
  function SignedValue(s: string): int
    requires LongSyntax(s)
  {
    if s[0] == '-' then -(DigitsValue(Magnitude(s)) as int) else DigitsValue(Magnitude(s))
  }

  /**
   * The digit loop of `Long.parseLong`: the result is accumulated as a
   * negative number, and the loop fails as soon as the next digit would take
   * it below `limit` (`multmin` is the truncated `limit / 10`).
   */
  function Accumulate(digits: string, i: nat, result: int, limit: int): (r: Option<int>)
    requires i <= |digits|
    requires limit == MinLong || limit == -MaxLong
    requires AllDigits(digits[..i]) && result == -(DigitsValue(digits[..i]) as int)
    requires limit <= result
    ensures r.Some? <==> AllDigits(digits) && limit <= -(DigitsValue(digits) as int)
    ensures r.Some? ==> r.value == -(DigitsValue(digits) as int)
    decreases |digits| - i
  {
    if i == |digits| then
      assert digits[..i] == digits;
      Some(result)
    else
      var c := digits[i];
      var multmin := -((-limit) / 10);
      assert digits[..i + 1][..i] == digits[..i];
      if !IsDigit(c) then
        None
      else if result < multmin then
        assert digits[..i + 1] == digits[..i] + [c];
        PrefixBelowLimit(digits, i + 1, limit);
        None
      else if result * 10 < limit + DigitValue(c) then
        assert digits[..i + 1] == digits[..i] + [c];
        PrefixBelowLimit(digits, i + 1, limit);
        None
      else
        Accumulate(digits, i + 1, result * 10 - DigitValue(c), limit)
  }

  /** Once a prefix of the digits is below `limit`, so is the whole number. */
  lemma PrefixBelowLimit(digits: string, i: nat, limit: int)
    requires i <= |digits|
    requires AllDigits(digits[..i]) && -(DigitsValue(digits[..i]) as int) < limit
    ensures !(AllDigits(digits) && limit <= -(DigitsValue(digits) as int))
  {
    if AllDigits(digits) {
      DigitsValuePrefix(digits, i);
    }
  }

  /**
   * `Long.parseLong(s)` with radix 10, `None` standing for the thrown
   * `NumberFormatException`.
   */
  function ParseLong(s: string): (r: Option<int>)
    ensures r.Some? <==> LongSyntax(s) && InLongRange(SignedValue(s))
    ensures r.Some? ==> r.value == SignedValue(s)
  {
    if |s| == 0 then None
    else
      var first := s[0];
      if first < '0' && first != '-' && first != '+' then None
      else if first < '0' && |s| == 1 then None
      else
        var negative := first == '-';
        var start := if first < '0' then 1 else 0;
        var limit := if negative then MinLong else -MaxLong;
        assert s[start..][..0] == [];
        match Accumulate(s[start..], 0, 0, limit)
        case None => None
        case Some(v) => Some(if negative then v else -v)
  }
}
