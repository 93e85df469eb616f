/** ECMAScript `parseInt(string, 10)` (ECMA-262 2022, section 19.2.5) on whole integers, and the
    decimal text a JavaScript integer is displayed as (Number::toString, section 6.1.6.1.20),
    which is how a footer sum reaches the page. */
module JsNumber {
  import opened Wrappers

  /** StrWhiteSpaceChar: the WhiteSpace code points (TAB, VT, FF, ZWNBSP and the Unicode
      Space_Separator category) and the LineTerminator code points (LF, CR, LS, PS). */
  predicate IsStrWhiteSpaceChar(c: char)
  {
    c == '\t' || c == '\n' || c == '\U{000B}' || c == '\U{000C}' || c == '\r' || c == ' ' ||
    c == '\U{00A0}' || c == '\U{1680}' || ('\U{2000}' <= c <= '\U{200A}') ||
    c == '\U{2028}' || c == '\U{2029}' || c == '\U{202F}' || c == '\U{205F}' ||
    c == '\U{3000}' || c == '\U{FEFF}'
  }

  /** A radix-10 digit. */
  predicate IsDigit(c: char)
  {
    '0' <= c <= '9'
  }

  predicate AllDigits(s: string)
  {
    forall i :: 0 <= i < |s| ==> IsDigit(s[i])
  }

  function DigitValue(c: char): (d: nat)
    requires IsDigit(c)
    ensures d < 10
  {
    c as int - '0' as int
  }

  function DigitChar(d: nat): (c: char)
    requires d < 10
    ensures IsDigit(c) && DigitValue(c) == d
  {
    ('0' as int + d) as char
  }

  /** TrimString(s, start): `s` without its leading white space. */
  function TrimStart(s: string): string
  {
    if |s| > 0 && IsStrWhiteSpaceChar(s[0]) then TrimStart(s[1..]) else s
  }

  /** The longest prefix of `s` made of radix-10 digits. */
  function DigitPrefix(s: string): string
  {
    if |s| > 0 && IsDigit(s[0]) then [s[0]] + DigitPrefix(s[1..]) else []
  }

  /** The mathematical value of a string of decimal digits, most significant first. */
  function DecimalValue(digits: string): nat
    requires AllDigits(digits)
    decreases |digits|
  {
    if |digits| == 0 then 0
    else 10 * DecimalValue(digits[..|digits| - 1]) + DigitValue(digits[|digits| - 1])
  }

  /** `parseInt(input, 10)`, with None for NaN. The -0 of `parseInt("-0")` is the integer 0.
      The result is NaN exactly when, after the white space and an optional sign, no digit
      follows; it is negative only after a '-'. */
  function ParseInt(input: string): (r: Option<int>)
    ensures r.None? <==>
      var s := TrimStart(input);
      var rest := if |s| > 0 && (s[0] == '+' || s[0] == '-') then s[1..] else s;
      |rest| == 0 || !IsDigit(rest[0])
    ensures r.Some? && r.value < 0 ==> var s := TrimStart(input); |s| > 0 && s[0] == '-'
  {
    ParseTrimmed(TrimStart(input))
  }

  /** Steps 3 to 16 of parseInt, after the white space is gone: an optional sign, then the longest
      run of digits, NaN when that run is empty. */
  function ParseTrimmed(s: string): Option<int>
  {
    var sign := if |s| > 0 && s[0] == '-' then -1 else 1;
    var unsigned := if |s| > 0 && (s[0] == '+' || s[0] == '-') then s[1..] else s;
    var z := DigitPrefix(unsigned);
    DigitPrefixIsLongestDigitRun(unsigned);
    if |z| == 0 then None else Some(sign * DecimalValue(z))
  }

  /** The decimal digits of a natural number, without leading zeros. */
  function NatToString(n: nat): (s: string)
    decreases n
  {
    if n < 10 then [DigitChar(n)] else NatToString(n / 10) + [DigitChar(n % 10)]
  }

  /** The text JavaScript displays for an integer-valued Number. */
  function IntToString(n: int): string
  {
    if n < 0 then "-" + NatToString(-n) else NatToString(n)
  }

  // ---------------------------------------------------------------------------------------

  /** TrimStart removes a run of white space from the front of `s`, and all of it. */
  lemma {:induction false} TrimStartRemovesLeadingWhiteSpace(s: string)
    ensures |TrimStart(s)| <= |s| && TrimStart(s) == s[|s| - |TrimStart(s)|..]
    ensures forall i :: 0 <= i < |s| - |TrimStart(s)| ==> IsStrWhiteSpaceChar(s[i])
    ensures |TrimStart(s)| == 0 || !IsStrWhiteSpaceChar(TrimStart(s)[0])
    decreases |s|
  {
    if |s| > 0 && IsStrWhiteSpaceChar(s[0]) {
      TrimStartRemovesLeadingWhiteSpace(s[1..]);
      forall i | 1 <= i < |s| - |TrimStart(s)| ensures IsStrWhiteSpaceChar(s[i]) {
        assert s[i] == s[1..][i - 1];
      }
    }
  }

  /** DigitPrefix is a prefix of `s`, all digits, and not followed by a digit. */
  lemma {:induction false} DigitPrefixIsLongestDigitRun(s: string)
    ensures |DigitPrefix(s)| <= |s| && DigitPrefix(s) == s[..|DigitPrefix(s)|]
    ensures AllDigits(DigitPrefix(s))
    ensures |DigitPrefix(s)| == |s| || !IsDigit(s[|DigitPrefix(s)|])
    decreases |s|
  {
    if |s| > 0 && IsDigit(s[0]) {
      DigitPrefixIsLongestDigitRun(s[1..]);
      var z := DigitPrefix(s);
      forall i | 0 <= i < |z| ensures IsDigit(z[i]) {
        if i > 0 { assert z[i] == DigitPrefix(s[1..])[i - 1]; }
      }
    }
  }

  lemma {:induction false} NatToStringDigits(n: nat)
    ensures |NatToString(n)| > 0 && AllDigits(NatToString(n))
    ensures DecimalValue(NatToString(n)) == n
    decreases n
  {
    if n >= 10 {
      NatToStringDigits(n / 10);
      var s := NatToString(n);
      assert s[..|s| - 1] == NatToString(n / 10);
    }
  }

  /** A run of digits followed by anything that does not start with a digit parses as that run. */
  lemma {:induction false} DigitPrefixOfDigits(digits: string, rest: string)
    requires AllDigits(digits)
    requires |rest| == 0 || !IsDigit(rest[0])
    ensures DigitPrefix(digits + rest) == digits
    decreases |digits|
  {
    if |digits| > 0 {
      assert (digits + rest)[1..] == digits[1..] + rest;
      DigitPrefixOfDigits(digits[1..], rest);
    } else {
      assert digits + rest == rest;
    }
  }

  /** Displaying an integer and parsing the text back gives the integer; any trailing text that
      does not start with a digit is ignored ("12abc" parses as 12). */
  lemma {:induction false} ParseIntOfDisplayed(n: int, rest: string)
    requires |rest| == 0 || !IsDigit(rest[0])
    ensures ParseInt(IntToString(n) + rest) == Some(n)
  {
    if n < 0 {
      ParseIntOfNegativeDisplayed(n, rest);
    } else {
      ParseIntOfNonNegativeDisplayed(n, rest);
    }
  }

  lemma ParseIntOfNegativeDisplayed(n: int, rest: string)
    requires n < 0
    requires |rest| == 0 || !IsDigit(rest[0])
    ensures ParseInt(IntToString(n) + rest) == Some(n)
  {
    var m: nat := -n;
    NatToStringDigits(m);
    var digits := NatToString(m);
    assert IntToString(n) == ['-'] + digits;
    assert IntToString(n) + rest == [] + ['-'] + digits + rest;
    ParseIntOfSignedDigits([], ['-'], digits, rest);
  }

  lemma ParseIntOfNonNegativeDisplayed(n: int, rest: string)
    requires n >= 0
    requires |rest| == 0 || !IsDigit(rest[0])
    ensures ParseInt(IntToString(n) + rest) == Some(n)
  {
    NatToStringDigits(n);
    var digits := NatToString(n);
    assert IntToString(n) + rest == [] + [] + digits + rest;
    ParseIntOfSignedDigits([], [], digits, rest);
  }

  lemma NoWhiteSpaceToTrim(s: string)
    requires |s| > 0 && (s[0] == '-' || s[0] == '+' || IsDigit(s[0]))
    ensures TrimStart(s) == s
  {
    assert !IsStrWhiteSpaceChar(s[0]);
  }

  /** The display-and-parse round trip. */
  lemma ParseIntRoundTrip(n: int)
    ensures ParseInt(IntToString(n)) == Some(n)
  {
    ParseIntOfDisplayed(n, "");
    assert IntToString(n) + "" == IntToString(n);
  }

  /** Leading white space does not change the result. */
  lemma {:induction false} ParseIntSkipsWhiteSpace(ws: string, s: string)
    requires forall i :: 0 <= i < |ws| ==> IsStrWhiteSpaceChar(ws[i])
    ensures ParseInt(ws + s) == ParseInt(s)
  {
    TrimStartOfWhiteSpace(ws, s);
  }

  lemma {:induction false} TrimStartOfWhiteSpace(ws: string, s: string)
    requires forall i :: 0 <= i < |ws| ==> IsStrWhiteSpaceChar(ws[i])
    ensures TrimStart(ws + s) == TrimStart(s)
    decreases |ws|
  {
    if |ws| == 0 {
      assert ws + s == s;
    } else {
      assert (ws + s)[1..] == ws[1..] + s;
      TrimStartOfWhiteSpace(ws[1..], s);
    }
  }

  /** An optional sign: empty, "+" or "-". */
  predicate IsOptionalSign(sign: string)
  {
    |sign| == 0 || (|sign| == 1 && (sign[0] == '+' || sign[0] == '-'))
  }

  /** Any white space, then an optional sign, then a run of digits (leading zeros allowed), then
      text that does not start with a digit: the result is the run's value, negated after '-'. */
  lemma ParseIntOfSignedDigits(ws: string, sign: string, digits: string, rest: string)
    requires forall i :: 0 <= i < |ws| ==> IsStrWhiteSpaceChar(ws[i])
    requires IsOptionalSign(sign)
    requires |digits| > 0 && AllDigits(digits)
    requires |rest| == 0 || !IsDigit(rest[0])
    ensures ParseInt(ws + sign + digits + rest) ==
      Some((if |sign| == 1 && sign[0] == '-' then -1 else 1) * DecimalValue(digits))
  {
    TrimStartOfSignedDigits(ws, sign, digits, rest);
    ParseTrimmedOfSignedDigits(sign, digits, rest);
  }

  lemma TrimStartOfSignedDigits(ws: string, sign: string, digits: string, rest: string)
    requires forall i :: 0 <= i < |ws| ==> IsStrWhiteSpaceChar(ws[i])
    requires IsOptionalSign(sign)
    requires |digits| > 0 && AllDigits(digits)
    ensures TrimStart(ws + sign + digits + rest) == sign + digits + rest
  {
    var s := sign + digits + rest;
    assert ws + sign + digits + rest == ws + s;
    TrimStartOfWhiteSpace(ws, s);
    SignedDigitsStartWithSignOrDigit(sign, digits, rest);
    NoWhiteSpaceToTrim(s);
  }

  lemma SignedDigitsStartWithSignOrDigit(sign: string, digits: string, rest: string)
    requires IsOptionalSign(sign)
    requires |digits| > 0 && AllDigits(digits)
    ensures var s := sign + digits + rest; |s| > 0 && (s[0] == '-' || s[0] == '+' || IsDigit(s[0]))
  {
    if |sign| == 0 {
      assert (sign + digits + rest)[0] == digits[0];
    } else {
      assert (sign + digits + rest)[0] == sign[0];
    }
  }

  lemma ParseTrimmedOfSignedDigits(sign: string, digits: string, rest: string)
    requires IsOptionalSign(sign)
    requires |digits| > 0 && AllDigits(digits)
    requires |rest| == 0 || !IsDigit(rest[0])
    ensures ParseTrimmed(sign + digits + rest) ==
      Some((if |sign| == 1 && sign[0] == '-' then -1 else 1) * DecimalValue(digits))
  {
    if |sign| == 0 {
      assert sign == [];
      assert sign + digits == digits;
      ParseTrimmedOfDigits(digits, rest);
    } else {
      assert sign == [sign[0]];
      ParseTrimmedAfterSign(sign[0], digits, rest);
      assert [sign[0]] + (digits + rest) == sign + digits + rest;
    }
  }

  lemma ParseTrimmedOfDigits(digits: string, rest: string)
    requires |digits| > 0 && AllDigits(digits)
    requires |rest| == 0 || !IsDigit(rest[0])
    ensures ParseTrimmed(digits + rest) == Some(DecimalValue(digits))
  {
    var s := digits + rest;
    DigitPrefixOfDigits(digits, rest);
    assert s[0] == digits[0];
    assert !(s[0] == '+' || s[0] == '-');
  }

  lemma ParseTrimmedAfterSign(sign: char, digits: string, rest: string)
    requires sign == '+' || sign == '-'
    requires |digits| > 0 && AllDigits(digits)
    requires |rest| == 0 || !IsDigit(rest[0])
    ensures ParseTrimmed([sign] + (digits + rest)) ==
      Some((if sign == '-' then -1 else 1) * DecimalValue(digits))
  {
    var s := [sign] + (digits + rest);
    DigitPrefixOfDigits(digits, rest);
    assert s[0] == sign;
    assert s[1..] == digits + rest;
  }

  /** Leading white space, a '+' sign and leading zeros: "  +007x" parses as 7. */
  lemma ParseIntLeadingZerosExample()
    ensures ParseInt("  +007x") == Some(7)
  {
    assert AllDigits("007");
    assert "  +007x" == "  " + "+" + "007" + "x";
    ParseIntOfSignedDigits("  ", "+", "007", "x");
    assert "007"[..2] == "00" && "00"[..1] == "0" && "0"[..0] == "";
  }

  /** Strings that parse, as in the sheet's footer examples; a leading sign and trailing
      non-digits are handled as parseInt does. */
  lemma ParseIntExamplesValid()
    ensures ParseInt("5") == Some(5)
    ensures ParseInt("-5") == Some(-5)
    ensures ParseInt("0") == Some(0)
    ensures ParseInt("+42px") == Some(42)
  {
    assert IntToString(5) == "5";
    ParseIntRoundTrip(5);
    assert IntToString(-5) == "-5";
    ParseIntRoundTrip(-5);
    assert IntToString(0) == "0";
    ParseIntRoundTrip(0);
    NoWhiteSpaceToTrim("+42px");
    assert "+42px"[1..] == "42px";
    assert "42px" == IntToString(42) + "px";
    ParseIntOfDisplayed(42, "px");
    assert DigitPrefix("42px") == "42";
  }

  /** Strings without digits give NaN, including the text "undefined" that an absent value
      converts to. */
  lemma ParseIntExamplesNaN()
    ensures ParseInt("invalid") == None
    ensures ParseInt("#*$&") == None
    ensures ParseInt("undefined") == None
  {
  }

  /** The empty string gives NaN. */
  lemma ParseIntEmptyIsNaN()
    ensures ParseInt("") == None
  {
  }

  /** A sign with no digit after it gives NaN. */
  lemma ParseIntSignOnlyIsNaN()
    ensures ParseInt("-") == None
  {
  }
}
