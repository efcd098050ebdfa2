/**
  Decimal integers as the report generator reads and writes them: Python's
  `int(s)` for base-10 text and `str(n)` for its inverse.
 */
module Numbers {
  import opened Wrappers
  import opened Text

  predicate IsDigit(c: char) {
    '0' <= c <= '9'
  }

  predicate AllDigits(s: string) {
    forall i :: 0 <= i < |s| ==> IsDigit(s[i])
  }

  /** The value of a string of decimal digits, most significant digit first. */
  function DigitsValue(s: string): nat
    requires AllDigits(s)
    decreases |s|
  {
    if |s| == 0 then 0 else DigitsValue(s[..|s| - 1]) * 10 + (s[|s| - 1] as int - '0' as int)
  }

  /** The decimal digits of `n`, without leading zeros. */
  function NatToString(n: nat): (s: string)
    ensures |s| > 0 && AllDigits(s)
    ensures DigitsValue(s) == n
    ensures |s| > 1 ==> s[0] != '0'
  {
    if n < 10 then [('0' as int + n) as char]
    else
      var s := NatToString(n / 10) + [('0' as int + n % 10) as char];
      assert s[..|s| - 1] == NatToString(n / 10);
      s
  }

  /** Python's `str(n)` for an `int`. */
  function IntToString(n: int): (s: string)
    ensures |s| > 0 && !IsSpace(s[0]) && !IsSpace(s[|s| - 1])
    ensures '\t' !in s && '\n' !in s && '.' !in s
  {
    if n < 0 then "-" + NatToString(-n) else NatToString(n)
  }

  /**
    The most digits `int()` converts from decimal text: CPython's default
    `sys.get_int_max_str_digits()`. Longer digit strings raise `ValueError`.
   */
  const MaxDigits: nat := 4300

  /** An integer whose decimal text `int()` can read back within the digit limit. */
  predicate WithinDigitLimit(n: int) {
    |NatToString(if n < 0 then -n else n)| <= MaxDigits
  }

  /**
    Text `int()` reads once stripped: an optional sign, then one or more ASCII
    digits, and no more digits than `MaxDigits`.
   */
  predicate SignedDigits(t: string) {
    if |t| > 0 && (t[0] == '-' || t[0] == '+') then |t| > 1 && AllDigits(t[1..]) && |t| - 1 <= MaxDigits
    else |t| > 0 && AllDigits(t) && |t| <= MaxDigits
  }

  /**
    The information separators U+001C to U+001F: `str.strip()` removes them,
    but `int()` does not skip them, since the only ASCII whitespace it skips is
    space and `\t` to `\r`.
   */
  predicate IsInfoSeparator(c: char) {
    '\U{1C}' <= c <= '\U{1F}'
  }

  predicate HasInfoSeparator(s: string) {
    exists i :: 0 <= i < |s| && IsInfoSeparator(s[i])
  }

  /**
    Python's `int(s)` in base 10, limited to surrounding whitespace, an optional
    sign and one to `MaxDigits` ASCII digits. `None` stands for the `ValueError`
    Python raises on anything else. An information separator is refused
    wherever it stands: inside the number it is no digit, and around it `int()`
    stops skipping whitespace at it.
   */
  function ParseInt(s: string): (r: Option<int>)
    // Exactly the signed digit strings, once stripped, are numbers, provided
    // no information separator was stripped off.
    ensures r.Some? <==> SignedDigits(Strip(s)) && !HasInfoSeparator(s)
    ensures r.Some? ==> !IsBlank(s)
    // The value is the digits' value, negated after a minus sign.
    ensures r.Some? && Strip(s)[0] == '-' ==> r.value == -(DigitsValue(Strip(s)[1..]) as int)
    ensures r.Some? && Strip(s)[0] == '+' ==> r.value == DigitsValue(Strip(s)[1..])
    ensures r.Some? && IsDigit(Strip(s)[0]) ==> r.value == DigitsValue(Strip(s))
    ensures |s| > 0 && AllDigits(s) && |s| <= MaxDigits ==> r == Some(DigitsValue(s))
    // Longer digit strings are refused, however valid their digits.
    ensures AllDigits(s) && |s| > MaxDigits ==> r == None
  {
    var t := Strip(s);
    DigitsStripped(s);
    if HasInfoSeparator(s) then None
    else if |t| > 0 && (t[0] == '-' || t[0] == '+') then
      var digits := t[1..];
      if |digits| > 0 && AllDigits(digits) && |digits| <= MaxDigits then
        var magnitude: int := DigitsValue(digits);
        Some(if t[0] == '-' then -magnitude else magnitude)
      else None
    else if |t| > 0 && AllDigits(t) && |t| <= MaxDigits then Some(DigitsValue(t))
    else None
  }

  /** A digit string has no blank to strip and no information separator. */
  lemma DigitsStripped(s: string)
    ensures |s| > 0 && AllDigits(s) ==> Strip(s) == s
    ensures AllDigits(s) ==> !HasInfoSeparator(s)
  {
    if |s| > 0 && AllDigits(s) {
      assert IsDigit(s[0]) && IsDigit(s[|s| - 1]);
      StripUnchanged(s);
    }
  }

  /** Reading back what `IntToString` writes gives the number again, within the digit limit. */
  lemma ParseIntToString(n: int)
    requires WithinDigitLimit(n)
    ensures ParseInt(IntToString(n)) == Some(n)
  {
    var s := IntToString(n);
    StripUnchanged(s);
    if n < 0 {
      var digits := NatToString(-n);
      assert s == "-" + digits && s[1..] == digits;
      assert SignedDigits(s);
    } else {
      var digits := NatToString(n);
      assert s == digits && IsDigit(s[0]);
      assert SignedDigits(s);
    }
  }
}
