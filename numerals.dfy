/** Decimal rendering and parsing of unsigned integers, as Rust's `Display` for integers
    and `str::parse::<usize>()` do them. */
module Numerals {
  import opened Prelude

  /** `usize::MAX` on a 64-bit target. */
  const UsizeMax: nat := 0xFFFF_FFFF_FFFF_FFFF

  predicate IsDigit(c: byte) {
    '0' <= c <= '9'
  }

  predicate AllDigits(s: Bytes) {
    forall i | 0 <= i < |s| :: IsDigit(s[i])
  }

  function DigitChar(d: nat): (c: byte)
    requires d < 10
    ensures IsDigit(c) && c as int - '0' as int == d
  {
    ('0' as int + d) as char
  }

  /** The value of a sequence of decimal digits, most significant first. */
  function DigitsValue(s: Bytes): nat
    requires AllDigits(s)
  {
    if s == [] then 0 else DigitsValue(s[..|s| - 1]) * 10 + (s[|s| - 1] as int - '0' as int)
  }

  /** The decimal rendering of `n`: no sign, no leading zero. */
  function Decimal(n: nat): (s: Bytes)
    ensures |s| > 0 && AllDigits(s)
    ensures |s| > 1 ==> s[0] != '0'
  {
    if n < 10 then [DigitChar(n)] else Decimal(n / 10) + [DigitChar(n % 10)]
  }

  /** `str::parse::<usize>()`: an optional leading `+`, then at least one decimal digit,
      and a value that fits in `usize`; anything else is an error (`None`). */
  function ParseUsize(s: Bytes): (r: Option<nat>)
    ensures r.Some? ==> r.value <= UsizeMax
  {
    var digits := if |s| > 0 && s[0] == '+' then s[1..] else s;
    if |digits| == 0 || !AllDigits(digits) then None
    else if DigitsValue(digits) > UsizeMax then None
    else Some(DigitsValue(digits))
  }

  lemma {:induction false} DecimalValue(n: nat)
    ensures DigitsValue(Decimal(n)) == n
  {
    if n >= 10 {
      DecimalValue(n / 10);
      var s := Decimal(n);
      assert s[..|s| - 1] == Decimal(n / 10);
    }
  }

  /** Parsing the decimal rendering of a value that fits in `usize` gives it back. */
  lemma ParseDecimal(n: nat)
    requires n <= UsizeMax
    ensures ParseUsize(Decimal(n)) == Some(n)
  {
    DecimalValue(n);
  }

  /** Text with a byte that is neither a digit nor a single leading `+` is rejected. */
  lemma ParseRejectsNonDigit(s: Bytes, i: nat)
    requires i < |s| && !IsDigit(s[i]) && !(i == 0 && s[i] == '+')
    ensures ParseUsize(s) == None
  {
    if |s| > 0 && s[0] == '+' {
      assert !IsDigit(s[1..][i - 1]);
    }
  }

  /** A value past `usize::MAX` is rejected, however it is written in decimal. */
  lemma ParseRejectsOverflow(n: nat)
    requires n > UsizeMax
    ensures ParseUsize(Decimal(n)) == None
    ensures ParseUsize("+" + Decimal(n)) == None
  {
    DecimalValue(n);
    assert ("+" + Decimal(n))[1..] == Decimal(n);
  }

  lemma {:induction false} LeadingZeroValue(s: Bytes)
    requires AllDigits(s)
    ensures AllDigits("0" + s) && DigitsValue("0" + s) == DigitsValue(s)
  {
    var t := "0" + s;
    assert AllDigits(t) by {
      forall i | 0 <= i < |t| ensures IsDigit(t[i]) {
        if i > 0 { assert t[i] == s[i - 1]; }
      }
    }
    if s != [] {
      var prefix := s[..|s| - 1];
      assert t[..|t| - 1] == "0" + prefix;
      assert t[|t| - 1] == s[|s| - 1];
      LeadingZeroValue(prefix);
    }
  }

  /** Leading zeros are accepted and do not change the value. */
  lemma ParseLeadingZero(s: Bytes)
    requires |s| > 0 && AllDigits(s)
    ensures ParseUsize("0" + s) == ParseUsize(s)
    ensures ParseUsize("+0" + s) == ParseUsize(s)
  {
    LeadingZeroValue(s);
    assert ("+0" + s)[1..] == "0" + s;
  }

  /** One leading `+` is accepted and changes nothing; no digits at all is an error. */
  lemma ParseSignAndEmpty(n: nat)
    ensures ParseUsize("+" + Decimal(n)) == ParseUsize(Decimal(n))
    ensures ParseUsize([]) == None && ParseUsize("+") == None
  {
    assert ("+" + Decimal(n))[1..] == Decimal(n);
  }
}
