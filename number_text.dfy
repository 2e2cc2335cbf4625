/** Decimal integer parsing as Rust's `str::parse::<u32>()` and
    `str::parse::<i32>()` perform it: an optional sign ('+' for either type,
    '-' only for the signed one), then one or more ASCII digits, and a value
    within the type's range. Nothing else (no spaces, no empty text) parses. */
module NumberText {
  import opened Wrappers

  const U32Max: nat := 0xFFFF_FFFF
  const I32Min: int := -0x8000_0000
  const I32Max: int := 0x7FFF_FFFF

  predicate IsDigit(c: char) {
    '0' <= c <= '9'
  }

  predicate AllDigits(s: string) {
    forall i :: 0 <= i < |s| ==> IsDigit(s[i])
  }

  function DigitValue(c: char): (d: nat)
    requires IsDigit(c)
    ensures d < 10
  {
    c as int - '0' as int
  }

  function DigitChar(d: nat): (c: char)
    requires d < 10
    ensures IsDigit(c) && DigitValue(c) == d
  {
    ('0' as int + d) as char
  }

  /** The number a run of decimal digits denotes, most significant first. */
  function DigitsValue(s: string): nat
    requires AllDigits(s)
  {
    if s == [] then 0 else 10 * DigitsValue(s[..|s| - 1]) + DigitValue(s[|s| - 1])
  }

  /** The shortest decimal text of `n`, as Rust's `Display` writes it. */
  function NatText(n: nat): (s: string)
    ensures |s| >= 1 && AllDigits(s)
  {
    if n < 10 then [DigitChar(n)] else NatText(n / 10) + [DigitChar(n % 10)]
  }

  /** `IntText` for signed values: a '-' before the magnitude of a negative. */
  function IntText(i: int): string {
    if i < 0 then "-" + NatText(-i) else NatText(i)
  }

  /** Digits that remain after an optional leading '+'. */
  function UnsignedDigits(s: string): string {
    if |s| > 0 && s[0] == '+' then s[1..] else s
  }

  /** `s.parse::<u32>()`. */
  function ParseU32(s: string): (r: Option<nat>)
    ensures r.Some? ==> r.value <= U32Max
  {
    var digits := UnsignedDigits(s);
    if |digits| > 0 && AllDigits(digits) && DigitsValue(digits) <= U32Max
    then Some(DigitsValue(digits))
    else None
  }

  /** `s.parse::<i32>()`. */
  function ParseI32(s: string): (r: Option<int>)
    ensures r.Some? ==> I32Min <= r.value <= I32Max
  {
    if |s| > 0 && s[0] == '-' then
      var digits := s[1..];
      if |digits| > 0 && AllDigits(digits) && DigitsValue(digits) <= -I32Min
      then Some(-(DigitsValue(digits) as int))
      else None
    else
      var digits := UnsignedDigits(s);
      if |digits| > 0 && AllDigits(digits) && DigitsValue(digits) <= I32Max
      then Some(DigitsValue(digits))
      else None
  }

  /** Reading back the decimal text of a number gives the number. */
  lemma {:induction false} DigitsValueOfNatText(n: nat)
    ensures DigitsValue(NatText(n)) == n
  {
    if n >= 10 {
      DigitsValueOfNatText(n / 10);
      var s := NatText(n);
      assert s[..|s| - 1] == NatText(n / 10);
    }
  }

  /** A leading zero does not change the value of a digit run. */
  lemma {:induction false} DigitsValueLeadingZero(s: string)
    requires AllDigits(s)
    ensures AllDigits("0" + s) && DigitsValue("0" + s) == DigitsValue(s)
    decreases |s|
  {
    var z := "0" + s;
    if s != [] {
      DigitsValueLeadingZero(s[..|s| - 1]);
      assert z[..|z| - 1] == "0" + s[..|s| - 1];
    }
  }

  /** `parse::<u32>` inverts `to_string` on the whole u32 range. */
  lemma ParseU32OfNatText(n: nat)
    requires n <= U32Max
    ensures ParseU32(NatText(n)) == Some(n)
  {
    DigitsValueOfNatText(n);
  }

  /** `parse::<i32>` inverts `to_string` on the whole i32 range. */
  lemma ParseI32OfIntText(i: int)
    requires I32Min <= i <= I32Max
    ensures ParseI32(IntText(i)) == Some(i)
  {
    if i < 0 {
      DigitsValueOfNatText(-i);
      assert IntText(i)[1..] == NatText(-i);
    } else {
      DigitsValueOfNatText(i);
    }
  }

  /** A run of digits parses to its value when it fits in a u32, whatever
      zero padding or '+' sign precedes it. */
  lemma ParseU32OfDigits(s: string)
    requires |s| >= 1 && AllDigits(s) && DigitsValue(s) <= U32Max
    ensures ParseU32(s) == Some(DigitsValue(s))
    ensures ParseU32("0" + s) == Some(DigitsValue(s))
    ensures ParseU32("+" + s) == Some(DigitsValue(s))
  {
    DigitsValueLeadingZero(s);
    assert ("+" + s)[1..] == s;
  }

  /** An accepted unsigned text holds only digits, apart from a '+' in
      front. */
  lemma ParseU32Characters(s: string)
    requires ParseU32(s).Some?
    ensures forall i :: 0 <= i < |s| ==> IsDigit(s[i]) || (i == 0 && s[i] == '+')
  {
    forall i | 0 <= i < |s| && i > 0 && s[0] == '+'
      ensures IsDigit(s[i])
    {
      assert UnsignedDigits(s)[i - 1] == s[i];
    }
  }

  /** Any character that is not a digit, other than a '+' in front, makes
      the unsigned parse fail. */
  lemma ParseU32RejectsNonDigit(s: string, i: nat)
    requires i < |s| && !IsDigit(s[i]) && !(i == 0 && s[i] == '+')
    ensures ParseU32(s) == None
  {
    if |s| > 0 && s[0] == '+' {
      assert UnsignedDigits(s)[i - 1] == s[i];
    }
  }
}
