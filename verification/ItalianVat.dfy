/**
 The Partita IVA check.  The check digit is the mod-10 "Luhn" formula (Annex B of ISO/IEC 7812-1);
 the program's comment calls it mod-11.
 */
module ItalianVat {
  import opened Wrappers
  import opened Numerals
  import opened Text

  /** `toUpperCase` on the characters that can matter here: letters a to z, and the dotless i. */
  function UpperChar(c: char): char {
    if 'a' <= c <= 'z' then c - 'a' + 'A' else if c == '\U{0131}' then 'I' else c
  }

  function Upper(s: string): (r: string)
    ensures |r| == |s|
  {
    seq(|s|, i requires 0 <= i < |s| => UpperChar(s[i]))
  }

  /** `s.replace(/\s/g, '')`. */
  function Strip(s: string): string {
    if s == "" then "" else (if IsSpace(s[0]) then "" else [s[0]]) + Strip(s[1..])
  }

  /** The input without white space, in capitals. */
  function Core(raw: string): string {
    Strip(Upper(Trim(raw)))
  }

  predicate IsVat(s: string) {
    |s| == 11 && AllDigits(s)
  }

  function NormalizeItalianVatDigits(raw: Option<string>): (r: Option<string>)
    ensures r.Some? ==> IsVat(r.value)
  {
    if raw == None || raw.value == "" then None
    else
      var s := Core(raw.value);
      var digits := if "IT" <= s then s[2..] else s;
      if IsVat(digits) then Some(digits) else None
  }

  /** A digit as it enters the sum: every second one doubled, with nine taken off above nine. */
  function Weigh(i: nat, n: nat): nat {
    if i % 2 == 1 then (if 2 * n > 9 then 2 * n - 9 else 2 * n) else n
  }

  /** The weighted sum of the first `k` digits. */
  function LuhnSum(d: string, k: nat): nat
    requires AllDigits(d) && k <= |d|
  {
    if k == 0 then 0 else LuhnSum(d, k - 1) + Weigh(k - 1, DigitValue(d[k - 1]))
  }

  /** The numbers the formula accepts: the weighted sum of all eleven digits is a multiple of ten. */
  predicate Accepts(d: string)
    requires IsVat(d)
  {
    LuhnSum(d, 11) % 10 == 0
  }

  lemma LuhnNext(d: string, i: nat)
    requires AllDigits(d) && i < |d|
    ensures var n := DigitValue(d[i]);
            LuhnSum(d, i + 1) == LuhnSum(d, i) + (if i % 2 == 0 then n else if 2 * n > 9 then 2 * n - 9 else 2 * n)
  {
  }

  lemma LuhnEnds(d: string)
    requires IsVat(d)
    ensures LuhnSum(d, 0) == 0
    ensures LuhnSum(d, 11) == LuhnSum(d, 10) + DigitValue(d[10]) && DigitValue(d[10]) <= 9
  {
  }

  /** The derived check digit is the one that completes the sum to a multiple of ten. */
  lemma CheckMatches(sum: nat, c: nat)
    requires c <= 9
    ensures (10 - sum % 10) % 10 == c <==> (sum + c) % 10 == 0
  {
  }

  predicate IsValid(raw: Option<string>) {
    raw == None || raw.value == ""
    || (NormalizeItalianVatDigits(raw).Some? && Accepts(NormalizeItalianVatDigits(raw).value))
  }

  /** The program: sum ten digits, derive the check digit, compare it with the eleventh. */
  method IsValidItalianVatNumber(raw: Option<string>) returns (valid: bool)
    ensures valid == IsValid(raw)
  {
    hide NormalizeItalianVatDigits, LuhnSum, Weigh;
    if raw == None || raw.value == "" {
      return true;
    }
    var normalized := NormalizeItalianVatDigits(raw);
    if normalized == None {
      return false;
    }
    var d := normalized.value;
    var sum := 0;
    LuhnEnds(d);
    for i := 0 to 10
      invariant sum == LuhnSum(d, i)
    {
      LuhnNext(d, i);
      var n := DigitValue(d[i]);
      if i % 2 == 1 {
        n := n * 2;
        if n > 9 {
          n := n - 9;
        }
      }
      sum := sum + n;
    }
    CheckMatches(sum, DigitValue(d[10]));
    var check := (10 - sum % 10) % 10;
    return check == DigitValue(d[10]);
  }

  // ---------------------------------------------------------------- the check digit

  lemma {:induction false} LuhnPrefix(d: string, e: string, k: nat)
    requires AllDigits(d) && AllDigits(e) && k <= |d| && k <= |e| && d[..k] == e[..k]
    ensures LuhnSum(d, k) == LuhnSum(e, k)
  {
    if k > 0 {
      assert d[..k][k - 1] == d[k - 1] && e[..k][k - 1] == e[k - 1];
      assert d[..k][..k - 1] == d[..k - 1] && e[..k][..k - 1] == e[..k - 1];
      LuhnPrefix(d, e, k - 1);
    }
  }

  /** Every ten-digit prefix is completed by exactly one digit. */
  lemma CheckDigitUnique(prefix: string, c: char)
    requires |prefix| == 10 && AllDigits(prefix) && IsDigit(c)
    ensures Accepts(prefix + [c]) <==> DigitValue(c) == (10 - LuhnSum(prefix, 10) % 10) % 10
  {
    LuhnPrefix(prefix + [c], prefix, 10);
    LuhnEnds(prefix + [c]);
    CheckMatches(LuhnSum(prefix, 10), DigitValue(c));
    hide LuhnSum;
  }

  /** Changing one digit changes the sum by the difference of the weighted digits. */
  lemma {:induction false} LuhnChange(d: string, i: nat, x: char, k: nat)
    requires AllDigits(d) && i < k <= |d| && IsDigit(x)
    ensures LuhnSum(d[i := x], k) + Weigh(i, DigitValue(d[i])) == LuhnSum(d, k) + Weigh(i, DigitValue(x))
  {
    if i == k - 1 {
      LuhnPrefix(d[i := x], d, k - 1);
    } else {
      LuhnChange(d, i, x, k - 1);
    }
  }

  /** Changing a single digit of an accepted number makes it rejected. */
  lemma SingleDigitError(d: string, i: nat, x: char)
    requires IsVat(d) && Accepts(d) && i < 11 && IsDigit(x)
    ensures Accepts(d[i := x]) <==> x == d[i]
  {
    hide LuhnSum, Weigh;
    LuhnChange(d, i, x, 11);
    WeighInjective(i, DigitValue(d[i]), DigitValue(x));
    assert d[i := d[i]] == d;
  }

  lemma WeighInjective(i: nat, a: nat, b: nat)
    requires a <= 9 && b <= 9
    ensures Weigh(i, a) % 10 == Weigh(i, b) % 10 <==> a == b
  {
  }

  /** `d` with the digits at `i` and `i + 1` exchanged. */
  function Swap(d: string, i: nat): string
    requires i + 1 < |d|
  {
    d[i := d[i + 1]][i + 1 := d[i]]
  }

  /** Swapping unequal neighbours of an accepted number is noticed, except for 0 next to 9. */
  lemma NeighbourSwap(d: string, i: nat)
    requires IsVat(d) && Accepts(d) && i < 10 && d[i] != d[i + 1]
    ensures Accepts(Swap(d, i)) <==> {d[i], d[i + 1]} == {'0', '9'}
  {
    hide LuhnSum, Weigh;
    var e := d[i := d[i + 1]];
    LuhnChange(d, i, d[i + 1], 11);
    LuhnChange(e, i + 1, d[i], 11);
    SwapWeights(i, DigitValue(d[i]), DigitValue(d[i + 1]));
    assert {d[i], d[i + 1]} == {'0', '9'} <==>
      (d[i] == '0' && d[i + 1] == '9') || (d[i] == '9' && d[i + 1] == '0') by {
      if {d[i], d[i + 1]} == {'0', '9'} {
        assert d[i] in {'0', '9'} && d[i + 1] in {'0', '9'};
      }
    }
  }

  /** Two digits weigh the same in either order only if they are equal, or 0 and 9. */
  lemma SwapWeights(i: nat, a: nat, b: nat)
    requires a <= 9 && b <= 9
    ensures (Weigh(i, a) + Weigh(i + 1, b)) % 10 == (Weigh(i, b) + Weigh(i + 1, a)) % 10
            <==> a == b || (a == 0 && b == 9) || (a == 9 && b == 0)
  {
    var k := if i % 2 == 1 then i else i + 1;
    DoublingGap(k, a);
    DoublingGap(k, b);
    hide Weigh;
    var ga, gb := if a <= 4 then a as int else a - 9, if b <= 4 then b as int else b - 9;
    if i % 2 == 1 {
      SameShift(a + b, ga, gb);
    } else {
      WeighByParity(i, a);
      WeighByParity(i, b);
      SameShift(a + b, gb, ga);
    }
  }

  lemma WeighByParity(i: nat, n: nat)
    requires i % 2 == 0
    ensures Weigh(i, n) == n
  {
  }

  lemma SameShift(s: int, x: int, y: int)
    requires -9 <= x - y <= 9
    ensures (s + x) % 10 == (s + y) % 10 <==> x == y
  {
    if (s + x) % 10 == (s + y) % 10 {
      assert x - y == 10 * ((s + x) / 10 - (s + y) / 10);
    }
  }

  /** What doubling adds to a digit, modulo ten: nothing for 0 and for 9, otherwise a different amount for each. */
  lemma DoublingGap(i: nat, n: nat)
    requires n <= 9 && i % 2 == 1
    ensures Weigh(i + 1, n) == n
    ensures Weigh(i, n) == n + (if n <= 4 then n else n - 9)
  {
  }

  // ---------------------------------------------------------------- normalisation

  lemma {:induction false} StripAppend(a: string, b: string)
    ensures Strip(a + b) == Strip(a) + Strip(b)
  {
    if a == "" {
      assert a + b == b;
    } else {
      assert (a + b)[1..] == a[1..] + b;
      StripAppend(a[1..], b);
    }
  }

  lemma UpperSpaces(c: char)
    ensures IsSpace(UpperChar(c)) <==> IsSpace(c)
  {
  }

  lemma {:induction false} StripTrimStart(s: string)
    ensures Strip(TrimStart(s)) == Strip(s)
  {
    if s != "" && IsSpace(s[0]) {
      StripTrimStart(s[1..]);
    }
  }

  lemma {:induction false} StripTrimEnd(s: string)
    ensures Strip(TrimEnd(s)) == Strip(s)
  {
    if s != "" && IsSpace(s[|s| - 1]) {
      var front, last := s[..|s| - 1], [s[|s| - 1]];
      StripTrimEnd(front);
      StripAppend(front, last);
      assert s == front + last && Strip(last) == "";
    }
  }

  lemma {:induction false} StripUpper(s: string)
    ensures Strip(Upper(s)) == Upper(Strip(s))
  {
    if s == "" {
      assert Upper(s) == "";
    } else {
      assert Upper(s)[1..] == Upper(s[1..]);
      UpperSpaces(s[0]);
      StripUpper(s[1..]);
      assert Upper(Strip(s)) == (if IsSpace(s[0]) then "" else [UpperChar(s[0])]) + Upper(Strip(s[1..]));
    }
  }

  /** Trimming first makes no difference: only the characters that are not white space matter. */
  lemma CoreIsUpperStrip(raw: string)
    ensures Core(raw) == Upper(Strip(raw))
  {
    StripUpper(Trim(raw));
    StripTrimStart(raw);
    StripTrimEnd(TrimStart(raw));
  }

  /** White space anywhere leaves the verdict alone, exactly unless it turns an absent number into a blank one. */
  lemma WhiteSpaceIgnored(a: string, w: char, b: string)
    requires IsSpace(w)
    ensures IsValid(Some(a + [w] + b)) == IsValid(Some(a + b)) <==> a + b != ""
  {
    hide Accepts, Trim, Upper;
    CoreIsUpperStrip(a + [w] + b);
    CoreIsUpperStrip(a + b);
    StripAppend(a + [w], b);
    StripAppend(a, [w]);
    StripAppend(a, b);
    assert Strip([w]) == "";
    assert Strip(a) + "" + Strip(b) == Strip(a) + Strip(b);
    assert Core(a + [w] + b) == Core(a + b);
    if a + b != "" {
      ValidByCore(a + [w] + b, a + b);
    }
  }

  lemma ValidByCore(s: string, t: string)
    requires s != "" && t != "" && Core(s) == Core(t)
    ensures IsValid(Some(s)) == IsValid(Some(t))
  {
    hide Core, Accepts;
  }

  lemma StripDigits(s: string)
    requires AllDigits(s)
    ensures Strip(s) == s && Upper(s) == s
  {
    if s != "" {
      StripDigits(s[1..]);
    }
  }

  /** Normalising a normal form changes nothing, and neither does it change the verdict. */
  lemma NormalizeTwice(raw: Option<string>)
    requires NormalizeItalianVatDigits(raw).Some?
    ensures var n := NormalizeItalianVatDigits(raw);
            NormalizeItalianVatDigits(n) == n && IsValid(n) == IsValid(raw)
  {
    var n := NormalizeItalianVatDigits(raw).value;
    CoreIsUpperStrip(n);
    StripDigits(n);
    assert n[0] != 'I';
  }

  lemma CoreOfPrefixed(raw: string)
    ensures Core("IT" + raw) == "IT" + Core(raw)
  {
    CoreIsUpperStrip("IT" + raw);
    CoreIsUpperStrip(raw);
    StripAppend("IT", raw);
    assert Strip("IT") == "IT" by {
      assert "IT"[1..] == "T" && "T"[1..] == "";
    }
    assert Upper("IT" + Strip(raw)) == "IT" + Upper(Strip(raw));
  }

  /** A country prefix may be added once: a second one makes an acceptable number unacceptable, and nothing else does. */
  lemma CountryPrefix(raw: string)
    ensures NormalizeItalianVatDigits(Some("IT" + raw)) == NormalizeItalianVatDigits(Some(raw))
            <==> NormalizeItalianVatDigits(Some(raw)) == None || !("IT" <= Core(raw))
  {
    CoreOfPrefixed(raw);
    var s := Core(raw);
    assert ("IT" + s)[2..] == s;
    if "IT" <= s {
      assert s[0] == 'I';
    }
  }

  /** Nothing entered is valid; eleven digits are valid as the formula says, and stand for themselves. */
  lemma PlainInput(d: string)
    ensures IsValid(None) && IsValid(Some(""))
    ensures IsVat(d) ==> NormalizeItalianVatDigits(Some(d)) == Some(d) && (IsValid(Some(d)) <==> Accepts(d))
  {
    if IsVat(d) {
      CoreIsUpperStrip(d);
      StripDigits(d);
      hide Core, Accepts;
      assert d[0] != 'I';
    }
  }

  /** A digit in an even place, counted from one: doubled, and its two digits added up. */
  function Doubled(n: nat): nat {
    (2 * n) / 10 + (2 * n) % 10
  }

  /** The formula, digit by digit. */
  lemma LuhnFormula(d: string)
    requires IsVat(d)
    ensures Accepts(d) <==>
            (DigitValue(d[0]) + Doubled(DigitValue(d[1])) + DigitValue(d[2]) + Doubled(DigitValue(d[3]))
             + DigitValue(d[4]) + Doubled(DigitValue(d[5])) + DigitValue(d[6]) + Doubled(DigitValue(d[7]))
             + DigitValue(d[8]) + Doubled(DigitValue(d[9])) + DigitValue(d[10])) % 10 == 0
  {
    LuhnSix(d);
    LuhnPair(d, 6);
    LuhnPair(d, 8);
    LuhnEnds(d);
    hide LuhnSum, Weigh, Doubled, DigitValue, AllDigits, IsDigit;
  }

  lemma LuhnSix(d: string)
    requires IsVat(d)
    ensures LuhnSum(d, 6)
            == DigitValue(d[0]) + Doubled(DigitValue(d[1])) + DigitValue(d[2]) + Doubled(DigitValue(d[3]))
               + DigitValue(d[4]) + Doubled(DigitValue(d[5]))
  {
    LuhnPair(d, 0);
    LuhnPair(d, 2);
    LuhnPair(d, 4);
    LuhnEnds(d);
    hide LuhnSum, Weigh, Doubled, DigitValue;
  }

  lemma LuhnPair(d: string, i: nat)
    requires AllDigits(d) && i + 1 < |d| && i % 2 == 0
    ensures LuhnSum(d, i + 2) == LuhnSum(d, i) + DigitValue(d[i]) + Doubled(DigitValue(d[i + 1]))
  {
    LuhnNext(d, i);
    LuhnNext(d, i + 1);
    hide LuhnSum;
  }

  lemma PrefixUpper(i: char, t: char, s: string)
    requires UpperChar(i) == 'I' && UpperChar(t) == 'T'
    ensures Upper([i, t] + s) == "IT" + Upper(s)
  {
    hide UpperChar;
  }

  lemma PrefixStrip(i: char, t: char, s: string)
    requires !IsSpace(i) && !IsSpace(t)
    ensures Strip([i, t] + s) == [i, t] + Strip(s)
  {
    assert ([i, t] + s)[1..] == [t] + s && ([t] + s)[1..] == s;
    assert Strip([t] + s) == [t] + Strip(s);
    assert [i] + ([t] + Strip(s)) == [i, t] + Strip(s);
  }

  /** The country prefix may be written in any case, and with the dotless i. */
  lemma PrefixInAnyCase(i: char, t: char, raw: string)
    requires (i == 'I' || i == 'i' || i == '\U{0131}') && (t == 'T' || t == 't')
    ensures NormalizeItalianVatDigits(Some([i, t] + raw)) == NormalizeItalianVatDigits(Some("IT" + raw))
  {
    CoreIsUpperStrip([i, t] + raw);
    PrefixStrip(i, t, raw);
    PrefixUpper(i, t, Strip(raw));
    CoreIsUpperStrip(raw);
    CoreOfPrefixed(raw);
    hide Core, Upper, Strip, IsVat;
  }
}
