/** int(s) and str(n) for base-10 integers, as EOSRandom relies on them to read a decrypted
    random value: surrounding whitespace is ignored, a sign may lead, single underscores may
    separate digits, and a literal of more than 4300 digits is refused in both directions. */
module PyInt {
  import opened Errors
  import opened Unicode

  /** The default limit on the digits of an int/str conversion. */
  const MaxStrDigits := 4300

  const Minus := 45       // '-'
  const Plus := 43        // '+'
  const Underscore := 95  // '_'

  predicate IsDigit(c: int) {
    48 <= c <= 57
  }

  /** The body of a literal: digits, where an underscore may only stand between two digits. */
  predicate WellFormedDigits(s: PyStr) {
    && s != []
    && IsDigit(s[0])
    && IsDigit(s[|s| - 1])
    && (forall i :: 0 <= i < |s| ==> IsDigit(s[i]) || s[i] == Underscore)
    && (forall i :: 0 <= i < |s| - 1 ==> DigitAfterUnderscore(s, i))
  }

  predicate DigitAfterUnderscore(s: PyStr, i: nat)
    requires i + 1 < |s|
  {
    s[i] == Underscore ==> IsDigit(s[i + 1])
  }

  /** The digit values of a literal body, underscores dropped. */
  function DigitValues(s: PyStr): (ds: seq<int>)
    decreases |s|
  {
    if s == [] then []
    else (if IsDigit(s[0]) then [s[0] - 48] else []) + DigitValues(s[1..])
  }

  /** The number a sequence of decimal digits denotes, most significant first. */
  function Value(ds: seq<int>): int
    decreases |ds|
  {
    if ds == [] then 0 else Value(ds[..|ds| - 1]) * 10 + ds[|ds| - 1]
  }

  /** The whitespace int() skips around a literal: ASCII tab, line feed, vertical tab, form
      feed, carriage return and space, and every non-ASCII character str.isspace() accepts
      (those read as a space). The separators U+001C..U+001F are isspace() but not skipped. */
  predicate IntSpace(c: int) {
    || 0x09 <= c <= 0x0D
    || c == 0x20
    || (c >= 0x80 && IsSpace(c))
  }

  /** int(s): the integer s spells, or ValueError. */
  function ParseInt(s: PyStr): (r: Result<int>)
    ensures r.Failure? ==> r.error == ValueError
  {
    ParseLiteral(Trim(s, IntSpace))
  }

  /** A stripped literal: an optional sign, then the digits. */
  function ParseLiteral(t: PyStr): (r: Result<int>)
    ensures r.Failure? ==> r.error == ValueError
  {
    var negative := t != [] && t[0] == Minus;
    var body := if t != [] && (t[0] == Minus || t[0] == Plus) then t[1..] else t;
    if !WellFormedDigits(body) then Failure(ValueError)
    else
      var ds := DigitValues(body);
      if |ds| > MaxStrDigits then Failure(ValueError)
      else Success(if negative then -Value(ds) else Value(ds))
  }

  /** The decimal digits of m, most significant first, without leading zeros. */
  function DecimalText(m: nat): (t: PyStr)
    ensures t != []
    decreases m
  {
    if m < 10 then [48 + m] else DecimalText(m / 10) + [48 + m % 10]
  }

  /** str(n): the decimal literal of n, or ValueError beyond the digit limit. */
  function ToDecimal(n: int): (r: Result<PyStr>)
    ensures r.Failure? ==> r.error == ValueError
  {
    var digits := DecimalText(if n < 0 then -n else n);
    if |digits| > MaxStrDigits then Failure(ValueError)
    else Success((if n < 0 then [Minus] else []) + digits)
  }

  lemma {:induction false} DecimalTextDigits(m: nat)
    ensures forall k :: 0 <= k < |DecimalText(m)| ==> IsDigit(DecimalText(m)[k])
    decreases m
  {
    if m >= 10 {
      DecimalTextDigits(m / 10);
    }
  }

  lemma {:induction false} DigitValuesAppend(a: PyStr, b: PyStr)
    ensures DigitValues(a + b) == DigitValues(a) + DigitValues(b)
    decreases |a|
  {
    if a != [] {
      DigitValuesAppend(a[1..], b);
      assert (a + b)[1..] == a[1..] + b;
    } else {
      assert a + b == b;
    }
  }

  /** The digits str() writes denote the number they were written from, one value per character. */
  lemma {:induction false} DecimalTextValue(m: nat)
    ensures |DigitValues(DecimalText(m))| == |DecimalText(m)|
    ensures Value(DigitValues(DecimalText(m))) == m
    decreases m
  {
    if m >= 10 {
      var front := DecimalText(m / 10);
      DecimalTextValue(m / 10);
      DigitValuesAppend(front, [48 + m % 10]);
      assert DigitValues([48 + m % 10]) == [m % 10];
      var ds := DigitValues(front) + [m % 10];
      assert ds[..|ds| - 1] == DigitValues(front);
    }
  }

  lemma AllDigitsWellFormed(s: PyStr)
    requires s != [] && forall k :: 0 <= k < |s| ==> IsDigit(s[k])
    ensures WellFormedDigits(s)
  {
  }

  lemma ParseWellFormed(digits: PyStr, ds: seq<int>)
    requires WellFormedDigits(digits) && DigitValues(digits) == ds && |ds| <= MaxStrDigits
    ensures ParseLiteral(digits) == Success(Value(ds))
  {
  }

  lemma ParseWellFormedNegated(digits: PyStr, ds: seq<int>)
    requires WellFormedDigits(digits) && DigitValues(digits) == ds && |ds| <= MaxStrDigits
    ensures ParseLiteral([Minus] + digits) == Success(-Value(ds))
  {
    assert ([Minus] + digits)[1..] == digits;
  }

  /** int() reads a literal wrapped in any whitespace it skips as the literal alone. */
  lemma ParseIntPadded(pre: PyStr, t: PyStr, post: PyStr)
    requires forall k :: 0 <= k < |pre| ==> IntSpace(pre[k])
    requires forall k :: 0 <= k < |post| ==> IntSpace(post[k])
    requires t != [] && !IntSpace(t[0]) && !IntSpace(t[|t| - 1])
    ensures ParseInt(pre + t + post) == ParseLiteral(t)
  {
    TrimPadded(pre, t, post, IntSpace);
  }

  /** Text without surrounding whitespace is parsed as it stands. */
  lemma ParseUnpadded(t: PyStr, v: int)
    requires t != [] && !IntSpace(t[0]) && !IntSpace(t[|t| - 1])
    requires ParseLiteral(t) == Success(v)
    ensures ParseInt(t) == Success(v)
  {
  }

  /** A leading file separator U+001C is whitespace to str.strip() but not to int():
      int("\x1c5") raises ValueError although "\x1c5".strip() is "5". */
  lemma ParseIntKeepsSeparator()
    ensures Strip([0x1C, 0x35]) == [0x35]
    ensures ParseInt([0x35]) == Success(5)
    ensures ParseInt([0x1C, 0x35]) == Failure(ValueError)
  {
    StripSeparator();
    ParseFive();
    ParseSeparator();
  }

  lemma StripSeparator()
    ensures Strip([0x1C, 0x35]) == [0x35]
  {
  }

  lemma ParseFive()
    ensures ParseInt([0x35]) == Success(5)
  {
    DecimalRoundTrip(5);
    assert DecimalText(5) == [0x35];
  }

  lemma ParseSeparator()
    ensures ParseInt([0x1C, 0x35]) == Failure(ValueError)
  {
    var sep: PyStr := [0x1C, 0x35];
    assert Trim(sep, IntSpace) == sep;
    assert !IsDigit(sep[0]);
  }

  /** Round trip: int(str(n)) == n whenever str(n) succeeds. */
  lemma DecimalRoundTrip(n: int)
    requires ToDecimal(n).Success?
    ensures ParseInt(ToDecimal(n).value) == Success(n)
  {
    var m: nat := if n < 0 then -n else n;
    var digits := DecimalText(m);
    DecimalTextDigits(m);
    DecimalTextValue(m);
    AllDigitsWellFormed(digits);
    assert IsDigit(digits[0]) && IsDigit(digits[|digits| - 1]);
    if n < 0 {
      ParseWellFormedNegated(digits, DigitValues(digits));
      var t := [Minus] + digits;
      assert t[|t| - 1] == digits[|digits| - 1];
      ParseUnpadded(t, n);
    } else {
      ParseWellFormed(digits, DigitValues(digits));
      ParseUnpadded(digits, n);
    }
  }

  /** int('') raises: an empty decryption is not a number. */
  lemma ParseIntEmptyFails()
    ensures ParseInt([]) == Failure(ValueError)
  {
  }
}
