/** JavaScript `parseInt(s)` (no radix argument) and the decimal rendering of integers. */
module Numbers {
  import opened Wrappers
  import opened Text

  /** Value of `c` as a digit in base `radix` (10 or 16), if it is one. */
  function DigitValue(c: char, radix: nat): (d: Option<nat>)
    ensures d.Some? ==> d.value < radix
  {
    if '0' <= c <= '9' && (c as int - '0' as int) < radix then Some(c as int - '0' as int)
    else if radix == 16 && 'a' <= c <= 'f' then Some(c as int - 'a' as int + 10)
    else if radix == 16 && 'A' <= c <= 'F' then Some(c as int - 'A' as int + 10)
    else None
  }

  predicate IsDigits(s: string, radix: nat) {
    forall i :: 0 <= i < |s| ==> DigitValue(s[i], radix).Some?
  }

  /** Length of the longest prefix of `s` made of base-`radix` digits. */
  function DigitPrefixLength(s: string, radix: nat): (n: nat)
    ensures n <= |s| && IsDigits(s[..n], radix)
    ensures n < |s| ==> DigitValue(s[n], radix).None?
    decreases |s|
  {
    if |s| == 0 || DigitValue(s[0], radix).None? then 0
    else
      var n := DigitPrefixLength(s[1..], radix);
      assert s[..n + 1] == [s[0]] + s[1..][..n];
      n + 1
  }

  /** Value of a digit string, most significant digit first. */
  function DigitsValue(s: string, radix: nat): nat
    requires IsDigits(s, radix)
    decreases |s|
  {
    if |s| == 0 then 0
    else DigitsValue(s[..|s| - 1], radix) * radix + DigitValue(s[|s| - 1], radix).value
  }

  /** `parseInt(s)`: skip leading whitespace, take an optional sign and an optional `0x`/`0X`
      prefix (which selects base 16), then read the longest run of digits; no digit is NaN. */
  function ParseInt(s: string): Option<int> {
    var t := TrimStart(s);
    if |t| > 0 && t[0] == '-' then
      match ParseUnsigned(t[1..])
      case Some(v) => Some(-v)
      case None => None
    else if |t| > 0 && t[0] == '+' then ParseUnsigned(t[1..])
    else ParseUnsigned(t)
  }

  /** The unsigned part of `parseInt`: the `0x` prefix check, then the digit run. */
  function ParseUnsigned(u: string): Option<int> {
    if |u| >= 2 && u[0] == '0' && (u[1] == 'x' || u[1] == 'X') then ParseDigits(u[2..], 16)
    else ParseDigits(u, 10)
  }

  /** The longest leading run of base-`radix` digits, read as a number; none is NaN. */
  function ParseDigits(body: string, radix: nat): Option<int> {
    var n := DigitPrefixLength(body, radix);
    if n == 0 then None else Some(DigitsValue(body[..n], radix))
  }

  function DigitChar(d: nat): (c: char)
    requires d < 10
    ensures DigitValue(c, 10) == Some(d)
  {
    ('0' as int + d) as char
  }

  function Pow10(k: nat): (p: nat)
    ensures p >= 1
  {
    if k == 0 then 1 else 10 * Pow10(k - 1)
  }

  /** The last `width` decimal digits of `n`, zero-padded (`String(n).padStart(width, "0")`
      when `n` has at most `width` digits). */
  function PadDigits(n: nat, width: nat): (s: string)
    ensures |s| == width && IsDigits(s, 10)
  {
    if width == 0 then "" else PadDigits(n / 10, width - 1) + [DigitChar(n % 10)]
  }

  /** Reading back a zero-padded rendering gives the number, when it fits the width. */
  lemma {:induction false} PadDigitsValue(n: nat, width: nat)
    requires n < Pow10(width)
    ensures DigitsValue(PadDigits(n, width), 10) == n
  {
    if width > 0 {
      PadDigitsValue(n / 10, width - 1);
      var s := PadDigits(n, width);
      assert s[..|s| - 1] == PadDigits(n / 10, width - 1);
    }
  }

  /** Rendering the value of a digit string with its own width gives the string back. */
  lemma {:induction false} DigitsValuePad(s: string)
    requires IsDigits(s, 10)
    ensures DigitsValue(s, 10) < Pow10(|s|)
    ensures PadDigits(DigitsValue(s, 10), |s|) == s
    decreases |s|
  {
    if |s| > 0 {
      var init := s[..|s| - 1];
      DigitsValuePad(init);
      var d := DigitValue(s[|s| - 1], 10).value;
      var v := DigitsValue(s, 10);
      assert v == DigitsValue(init, 10) * 10 + d;
      assert v / 10 == DigitsValue(init, 10) && v % 10 == d;
      assert DigitChar(d) == s[|s| - 1];
      assert s == init + [s[|s| - 1]];
    }
  }

  /** `String(n)` for a non-negative integer below 10^21. */
  function NatToString(n: nat): (s: string)
    ensures |s| >= 1 && IsDigits(s, 10)
    ensures |s| > 1 ==> s[0] != '0'
    ensures DigitsValue(s, 10) == n
  {
    if n < 10 then [DigitChar(n)]
    else
      var s := NatToString(n / 10) + [DigitChar(n % 10)];
      assert s[..|s| - 1] == NatToString(n / 10);
      s
  }

  /** `String(n)` for an integer below 10^21 in magnitude; `NaN` for the missing value
      `parseInt` reports as NaN. */
  function NumberToString(n: Option<int>): string {
    match n
    case None => "NaN"
    case Some(v) => if v < 0 then "-" + NatToString(-v) else NatToString(v)
  }

  /** `parseInt` reads a plain decimal digit string as its value. */
  lemma {:induction false} ParseDecimal(s: string)
    requires |s| >= 1 && IsDigits(s, 10)
    ensures ParseInt(s) == Some(DigitsValue(s, 10))
  {
    assert !IsWhitespace(s[0]);
    assert TrimStart(s) == s;
    ParseUnsignedDecimal(s);
  }

  lemma {:induction false} ParseUnsignedDecimal(s: string)
    requires |s| >= 1 && IsDigits(s, 10)
    ensures ParseUnsigned(s) == Some(DigitsValue(s, 10))
  {
    assert |s| >= 2 ==> DigitValue(s[1], 10).Some?;
    DigitPrefixAll(s, 10);
    assert s[..|s|] == s;
  }

  lemma {:induction false} DigitPrefixAll(s: string, radix: nat)
    requires IsDigits(s, radix)
    ensures DigitPrefixLength(s, radix) == |s|
    decreases |s|
  {
    if |s| > 0 {
      DigitPrefixAll(s[1..], radix);
    }
  }

  /** `parseInt` is NaN on blank text and on text whose first non-blank character is neither a
      sign nor a decimal digit, and only a leading minus sign gives a negative number. */
  lemma {:induction false} ParseIntNaN(s: string)
    ensures TrimStart(s) == "" ==> ParseInt(s).None?
    ensures var t := TrimStart(s);
      |t| > 0 && t[0] != '-' && t[0] != '+' && DigitValue(t[0], 10).None? ==> ParseInt(s).None?
    ensures ParseInt(s).Some? && ParseInt(s).value < 0 ==> TrimStart(s)[0] == '-'
  {
  }

  /** Text that starts, after whitespace, with a decimal digit other than a `0x` prefix is
      read as its longest leading run of decimal digits. */
  lemma {:induction false} ParseIntDigits(s: string)
    requires var t := TrimStart(s);
      && |t| > 0 && DigitValue(t[0], 10).Some?
      && !(|t| >= 2 && t[0] == '0' && (t[1] == 'x' || t[1] == 'X'))
    ensures var t := TrimStart(s);
      ParseInt(s) == Some(DigitsValue(t[..DigitPrefixLength(t, 10)], 10))
  {
    var t := TrimStart(s);
    assert t[0] != '-' && t[0] != '+';
  }

  /** `parseInt` reads a minus sign followed by decimal digits as the negated value. */
  lemma {:induction false} ParseNegative(d: string)
    requires |d| >= 1 && IsDigits(d, 10)
    ensures ParseInt(['-'] + d) == Some(-(DigitsValue(d, 10) as int))
  {
    var s := ['-'] + d;
    assert TrimStart(s) == s by {
      assert !IsWhitespace(s[0]);
    }
    assert s[0] == '-' && s[1..] == d;
    ParseUnsignedDecimal(d);
  }

  lemma {:induction false} ParseIntOfNegative(n: int)
    requires n < 0
    ensures ParseInt(NumberToString(Some(n))) == Some(n)
  {
    var d := NatToString(-n);
    assert NumberToString(Some(n)) == ['-'] + d;
    ParseNegative(d);
  }

  lemma {:induction false} ParseIntOfNatural(n: int)
    requires n >= 0
    ensures ParseInt(NumberToString(Some(n))) == Some(n)
  {
    ParseDecimal(NatToString(n));
  }

  /** `parseInt(String(n)) === n` for every integer the model renders in plain digits, which
      `String` does below 10^21 in magnitude. */
  lemma {:induction false} ParseIntOfString(n: int)
    ensures ParseInt(NumberToString(Some(n))) == Some(n)
  {
    if n < 0 {
      ParseIntOfNegative(n);
    } else {
      ParseIntOfNatural(n);
    }
  }
}
