/** Character classes and the integer conversions the library borrows from
    the C++ standard library: `std::isspace`, `isalnum`, `std::to_string(int)`
    and `std::stoi`, all in the "C" locale over ASCII. */
module Lexical {
  import opened Wrappers
  import opened Values

  /** What `std::string::operator[]` yields at index `size()`. */
  const NUL: char := '\0'

  /** `std::isspace` in the "C" locale: the space and the five control
      characters from tab to carriage return. */
  predicate IsSpace(c: char) {
    c == ' ' || c == '\t' || c == '\n' || c == '\U{B}' || c == '\U{C}' || c == '\r'
  }

  predicate IsDigit(c: char) {
    '0' <= c <= '9'
  }

  /** `isalnum` in the "C" locale: ASCII digits and letters only, none of
      them whitespace. */
  predicate IsAlnum(c: char) {
    IsDigit(c) || 'a' <= c <= 'z' || 'A' <= c <= 'Z'
  }

  /** Whitespace in the "C" locale is the space and the control characters
      from tab to carriage return. */
  lemma SpaceChars(c: char)
    ensures IsSpace(c) ==> c == ' ' || '\t' <= c <= '\r'
  {
  }

  /** Alphanumerics in the "C" locale are the ASCII digits and letters,
      none of them whitespace. */
  lemma AlnumChars(c: char)
    ensures IsAlnum(c) ==> ('0' <= c <= '9' || 'a' <= c <= 'z' || 'A' <= c <= 'Z') && !IsSpace(c)
  {
  }

  /** A character that `parseLiteral` takes into its token. */
  predicate IsLiteralChar(c: char) {
    IsAlnum(c) || c == '.' || c == '-'
  }

  predicate AllDigits(s: string) {
    forall i | 0 <= i < |s| :: IsDigit(s[i])
  }

  function DigitChar(d: nat): (c: char)
    requires d < 10
    ensures IsDigit(c)
  {
    ('0' as int + d) as char
  }

  function DigitValue(c: char): (d: nat)
    requires IsDigit(c)
    ensures d < 10 && DigitChar(d) == c
  {
    c as int - '0' as int
  }

  /** The number a run of decimal digits denotes, most significant first. */
  function DigitsValue(s: string): nat
    requires AllDigits(s)
  {
    if s == [] then 0 else DigitsValue(s[..|s| - 1]) * 10 + DigitValue(s[|s| - 1])
  }

  /** The decimal digits of `n`, most significant first. */
  function Decimal(n: nat): string {
    if n < 10 then [DigitChar(n)] else Decimal(n / 10) + [DigitChar(n % 10)]
  }

  /** `Decimal(n)` is non-empty, has no leading zero and denotes `n`. */
  lemma {:induction false} DecimalDenotes(n: nat)
    ensures 0 < |Decimal(n)| && AllDigits(Decimal(n))
    ensures Decimal(n)[0] == '0' ==> Decimal(n) == "0"
    ensures DigitsValue(Decimal(n)) == n
  {
    if 10 <= n {
      DecimalDenotes(n / 10);
      var prefix := Decimal(n / 10);
      var s := prefix + [DigitChar(n % 10)];
      assert s[..|s| - 1] == prefix;
    }
  }

  /** `std::to_string(int)`: decimal, with a minus sign in front of a
      negative number. */
  function ToString(i: Int32): string {
    if i < 0 then "-" + Decimal(-(i as int)) else Decimal(i)
  }

  /** `to_string` writes a minus sign exactly for negative numbers, then the
      digits of the magnitude. */
  lemma ToStringSign(i: Int32)
    ensures 0 < |ToString(i)|
    ensures ToString(i)[0] == '-' <==> i < 0
    ensures i < 0 ==> ToString(i)[1..] == Decimal(-(i as int))
    ensures IsDigit(ToString(i)[0]) || ToString(i)[0] == '-'
    ensures forall j | 0 <= j < |ToString(i)| :: IsDigit(ToString(i)[j]) || (j == 0 && i < 0)
  {
    var s := ToString(i);
    if i < 0 {
      var d := Decimal(-(i as int));
      DecimalDenotes(-(i as int));
      assert s[1..] == d;
      assert forall j | 1 <= j < |s| :: s[j] == d[j - 1];
    } else {
      DecimalDenotes(i);
    }
  }

  /** End of the run of whitespace starting at `from`. */
  function SpaceRunEnd(s: string, from: nat): (e: nat)
    requires from <= |s|
    ensures from <= e <= |s|
    decreases |s| - from
  {
    if from < |s| && IsSpace(s[from]) then SpaceRunEnd(s, from + 1) else from
  }

  /** End of the run of decimal digits starting at `from`. */
  function DigitRunEnd(s: string, from: nat): (e: nat)
    requires from <= |s|
    ensures from <= e <= |s|
    decreases |s| - from
  {
    if from < |s| && IsDigit(s[from]) then DigitRunEnd(s, from + 1) else from
  }

  /** The digit run is maximal: all digits up to its end, which is the end
      of `s` or a character that is not a digit. */
  lemma {:induction false} DigitRunScan(s: string, from: nat)
    requires from <= |s|
    ensures AllDigits(s[from..DigitRunEnd(s, from)])
    ensures DigitRunEnd(s, from) == |s| || !IsDigit(s[DigitRunEnd(s, from)])
    decreases |s| - from
  {
    if from < |s| && IsDigit(s[from]) {
      DigitRunScan(s, from + 1);
      var e := DigitRunEnd(s, from);
      assert forall j | 1 <= j < e - from :: s[from..e][j] == s[from + 1..e][j - 1];
    }
  }

  /** `std::stoi(s)` in base 10: leading whitespace, an optional sign, then
      the longest run of digits; whatever follows the digits is ignored. No
      digit at all (`invalid_argument`) and a value outside `int`
      (`out_of_range`) are both failures. */
  function Stoi(s: string): (r: Option<Int32>)
    ensures r.Some? ==> exists j | 0 <= j < |s| :: IsDigit(s[j])
  {
    var a := SpaceRunEnd(s, 0);
    var negative := a < |s| && s[a] == '-';
    var b := if a < |s| && (s[a] == '-' || s[a] == '+') then a + 1 else a;
    SignedDigits(s, b, negative)
  }

  /** The run of digits at `b`, negated when `negative`: nothing when the
      run is empty or its value does not fit in an `int`. */
  function SignedDigits(s: string, b: nat, negative: bool): (r: Option<Int32>)
    requires b <= |s|
    ensures r.Some? ==> b < |s| && IsDigit(s[b])
  {
    var e := DigitRunEnd(s, b);
    if e == b then None
    else
      DigitRunScan(s, b);
      var n := DigitsValue(s[b..e]);
      var value := if negative then -(n as int) else n;
      if INT32_MIN <= value <= INT32_MAX then Some(value) else None
  }

  /** `stoi` undoes `to_string` on every `int`. */
  lemma StoiToString(i: Int32)
    ensures Stoi(ToString(i)) == Some(i)
  {
    if i < 0 {
      DecimalDenotes(-(i as int));
      ToStringSign(i);
      StoiNegative(ToString(i));
    } else {
      DecimalDenotes(i);
      StoiUnsigned(Decimal(i));
    }
  }

  /** A bare run of digits converts to the number it denotes, if that fits. */
  lemma StoiUnsigned(digits: string)
    requires 0 < |digits| && AllDigits(digits)
    ensures Stoi(digits) == if DigitsValue(digits) <= INT32_MAX then Some(DigitsValue(digits)) else None
  {
    assert Stoi(digits) == SignedDigits(digits, 0, false) by {
      assert SpaceRunEnd(digits, 0) == 0;
    }
    assert digits[0..] == digits;
    DigitRunToEnd(digits, 0);
    assert digits[0..|digits|] == digits;
  }

  /** A minus sign and a run of digits convert to the negated number, if
      that fits. */
  lemma StoiNegative(s: string)
    requires 1 < |s| && s[0] == '-' && AllDigits(s[1..])
    ensures var n := -(DigitsValue(s[1..]) as int);
            Stoi(s) == if INT32_MIN <= n then Some(n) else None
  {
    assert Stoi(s) == SignedDigits(s, 1, true) by {
      assert SpaceRunEnd(s, 0) == 0;
    }
    DigitRunToEnd(s, 1);
    assert s[1..|s|] == s[1..];
  }

  /** From `from` on, `s` is all digits: the run reaches the end. */
  lemma {:induction false} DigitRunToEnd(s: string, from: nat)
    requires from <= |s| && AllDigits(s[from..])
    ensures DigitRunEnd(s, from) == |s|
    decreases |s| - from
  {
    if from < |s| {
      assert IsDigit(s[from..][0]);
      assert s[from..][1..] == s[from + 1..];
      DigitRunToEnd(s, from + 1);
    }
  }

  /** `stoi` reads only a numeric prefix: digits followed by anything that is
      not a digit convert as the digits alone (so "12ab" gives 12). */
  lemma StoiNumericPrefix(digits: string, rest: string)
    requires 0 < |digits| && AllDigits(digits)
    requires rest == [] || !IsDigit(rest[0])
    ensures Stoi(digits + rest) == Stoi(digits)
  {
    var s := digits + rest;
    assert SpaceRunEnd(s, 0) == 0 && SpaceRunEnd(digits, 0) == 0;
    assert s[..|digits|] == digits;
    DigitRunUpTo(s, 0, |digits|);
    assert digits[0..] == digits;
    DigitRunToEnd(digits, 0);
    assert s[0..|digits|] == digits[0..|digits|];
  }

  lemma DigitRunUpTo(s: string, from: nat, end: nat)
    requires from <= end <= |s|
    requires forall j | from <= j < end :: IsDigit(s[j])
    requires end == |s| || !IsDigit(s[end])
    ensures DigitRunEnd(s, from) == end
    decreases end - from
  {
    if from < end {
      DigitRunUpTo(s, from + 1, end);
    }
  }
}
