/** `String(n)` on integers and `Number.parseInt(s, 10)` (section 19.2.5 of ECMA-262). */
module Decimals {
  import opened Wrappers
  import opened Numerals
  import opened Text

  function NatText(n: nat): (s: string)
    ensures s != "" && AllDigits(s) && (s[0] == '0' ==> n == 0 && |s| == 1)
  {
    if n < 10 then [DigitChar(n)] else NatText(n / 10) + [DigitChar(n % 10)]
  }

  function IntText(n: int): (s: string)
    ensures s != "" && Trimmed(s)
    ensures n >= 0 ==> AllDigits(s) && (s[0] == '0' ==> s == "0")
    ensures n < 0 ==> s[0] == '-' && |s| > 1 && AllDigits(s[1..]) && s[1] != '0'
  {
    if n < 0 then "-" + NatText(-n) else NatText(n)
  }

  /** The longest prefix of digits. */
  function DigitPrefix(s: string): (r: string)
    ensures AllDigits(r) && r <= s
    ensures |r| < |s| ==> !IsDigit(s[|r|])
  {
    if s != "" && IsDigit(s[0]) then [s[0]] + DigitPrefix(s[1..]) else ""
  }

  /** The number denoted by the digits that a string starts with, if any. */
  function ParseDigits(s: string): Option<int> {
    var digits := DigitPrefix(s);
    if digits == "" then None else Some(DigitsValue(digits))
  }

  function Negated(n: Option<int>): Option<int> {
    if n.Some? then Some(-n.value) else None
  }

  function ParseSigned(s: string): Option<int> {
    if s != "" && s[0] == '-' then Negated(ParseDigits(s[1..]))
    else if s != "" && s[0] == '+' then ParseDigits(s[1..])
    else ParseDigits(s)
  }

  /** The integer that starts the string after leading white space and a sign, if there is one. */
  function ParseInt(s: string): Option<int> {
    ParseSigned(TrimStart(s))
  }

  function Signed(sign: string, n: nat): int {
    if sign == "-" then 0 - n else n
  }

  lemma {:induction false} DigitPrefixOf(digits: string, rest: string)
    requires AllDigits(digits) && (rest == "" || !IsDigit(rest[0]))
    ensures DigitPrefix(digits + rest) == digits
  {
    if digits == "" {
      assert digits + rest == rest;
    } else {
      assert (digits + rest)[1..] == digits[1..] + rest;
      DigitPrefixOf(digits[1..], rest);
    }
  }

  /** White space, a sign if any, digits: the number they denote, whatever follows; without digits there is none. */
  lemma ParseIntOf(space: string, sign: string, digits: string, rest: string)
    requires AllSpace(space) && (sign == "" || sign == "+" || sign == "-") && AllDigits(digits)
    requires rest == "" || !IsDigit(rest[0])
    requires sign == "" && digits == "" && rest != "" ==> !IsSpace(rest[0]) && rest[0] != '+' && rest[0] != '-'
    ensures ParseInt(space + sign + digits + rest)
            == if digits == "" then None else Some(Signed(sign, DigitsValue(digits)))
  {
    hide ParseInt, ParseSigned, IsSpace, IsDigit, AllSpace, AllDigits, DigitsValue, Signed;
    SpaceSkipped(space, sign, digits, rest);
    BodyParses(sign, digits, rest);
  }

  lemma BodyParses(sign: string, digits: string, rest: string)
    requires (sign == "" || sign == "+" || sign == "-") && AllDigits(digits)
    requires rest == "" || !IsDigit(rest[0])
    requires sign == "" && digits == "" && rest != "" ==> rest[0] != '+' && rest[0] != '-'
    ensures ParseSigned(sign + (digits + rest))
            == if digits == "" then None else Some(Signed(sign, DigitsValue(digits)))
  {
    hide ParseSigned, ParseDigits, IsDigit, AllDigits, DigitsValue;
    BodyRead(digits, rest);
    if sign == "" {
      BodyFirst(digits, rest);
    }
    SignedBody(sign, digits + rest);
  }

  lemma BodyRead(digits: string, rest: string)
    requires AllDigits(digits) && (rest == "" || !IsDigit(rest[0]))
    ensures ParseDigits(digits + rest) == if digits == "" then None else Some(DigitsValue(digits))
  {
    DigitPrefixOf(digits, rest);
    hide DigitPrefix, DigitsValue;
  }

  lemma SpaceSkipped(space: string, sign: string, digits: string, rest: string)
    requires AllSpace(space) && (sign == "" || sign == "+" || sign == "-") && AllDigits(digits)
    requires sign == "" && digits == "" && rest != "" ==> !IsSpace(rest[0])
    ensures ParseInt(space + sign + digits + rest) == ParseSigned(sign + (digits + rest))
  {
    Regroup(space, sign, digits, rest);
    NoSpaceFirst(sign, digits, rest);
    TrimStartOf(space, sign + (digits + rest));
    hide TrimStart, ParseSigned, IsSpace, IsDigit;
  }

  lemma Regroup(space: string, sign: string, digits: string, rest: string)
    ensures space + sign + digits + rest == space + (sign + (digits + rest))
  {
  }

  lemma BodyFirst(digits: string, rest: string)
    requires AllDigits(digits)
    requires digits == "" && rest != "" ==> rest[0] != '+' && rest[0] != '-'
    ensures var body := digits + rest; body != "" ==> body[0] != '+' && body[0] != '-'
  {
    assert digits != "" ==> (digits + rest)[0] == digits[0] && IsDigit(digits[0]);
  }

  lemma NoSpaceFirst(sign: string, digits: string, rest: string)
    requires (sign == "" || sign == "+" || sign == "-") && AllDigits(digits)
    requires sign == "" && digits == "" && rest != "" ==> !IsSpace(rest[0])
    ensures var t := sign + (digits + rest); t == "" || !IsSpace(t[0])
  {
    var t := sign + (digits + rest);
    if sign != "" {
      assert t[0] == sign[0];
    } else if digits != "" {
      assert t[0] == digits[0] && IsDigit(digits[0]);
    } else if rest != "" {
      assert t[0] == rest[0];
    }
  }

  lemma SignedBody(sign: string, body: string)
    requires (sign == "" || sign == "+" || sign == "-")
    requires sign == "" && body != "" ==> body[0] != '+' && body[0] != '-'
    ensures ParseSigned(sign + body) == if sign == "-" then Negated(ParseDigits(body)) else ParseDigits(body)
  {
    hide ParseDigits;
    if sign == "" {
      assert sign + body == body;
    } else {
      assert (sign + body)[1..] == body && (sign + body)[0] == sign[0];
    }
  }

  lemma {:induction false} NatTextValue(n: nat)
    ensures DigitsValue(NatText(n)) == n
  {
    if n >= 10 {
      NatTextValue(n / 10);
      assert NatText(n)[..|NatText(n)| - 1] == NatText(n / 10);
    }
  }

  /** Printing an integer and parsing it back is the identity. */
  lemma ParseIntText(n: int)
    ensures ParseInt(IntText(n)) == Some(n)
  {
    var digits := NatText(if n < 0 then -n else n);
    NatTextValue(if n < 0 then -n else n);
    assert IntText(n) == if n < 0 then "-" + digits else digits;
    assert IsDigit(digits[0]) && TrimStart(IntText(n)) == IntText(n);
    assert ("-" + digits)[1..] == digits;
    assert DigitPrefix(digits) == digits;
  }
}
