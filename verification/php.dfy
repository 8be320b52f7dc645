/**
 * The PHP built-ins the admission check and the scheduler lean on: `trim`,
 * the `(int)` cast of a string, and the decimal rendering of an integer
 * (what `strlen` and string concatenation see).
 *
 * The cast follows PHP 5 on a 64-bit platform, where `(int)` of a string is
 * C's `strtol(s, NULL, 10)`: leading `isspace` characters are skipped, one
 * optional sign is read, then the longest run of decimal digits; anything
 * else ends the number, no digits at all gives 0, and a value outside the
 * 64-bit range saturates to PHP_INT_MIN / PHP_INT_MAX.
 */
module Php {

  const IntMax: int := 0x7FFF_FFFF_FFFF_FFFF
  const IntMin: int := -0x8000_0000_0000_0000

  /** The characters `trim` strips by default: space, tab, LF, CR, NUL, vertical tab. */
  predicate IsTrimSpace(c: char) {
    c == ' ' || c == '\t' || c == '\n' || c == '\r' || c == '\0' || c == '\U{0B}'
  }

  /** The characters C's `isspace` accepts; `strtol` skips them before the number. */
  predicate IsCSpace(c: char) {
    c == ' ' || c == '\t' || c == '\n' || c == '\U{0B}' || c == '\U{0C}' || c == '\r'
  }

  predicate IsDigit(c: char) {
    '0' <= c <= '9'
  }

  predicate AllDigits(s: string) {
    forall i :: 0 <= i < |s| ==> IsDigit(s[i])
  }

  predicate AllTrimSpace(s: string) {
    forall i :: 0 <= i < |s| ==> IsTrimSpace(s[i])
  }

  /** The index of the first non-blank at or after `i`, or `|s|` if there is none. */
  function FirstNonBlank(s: string, i: nat): (n: nat)
    requires i <= |s|
    ensures i <= n <= |s|
    ensures forall k | i <= k < n :: IsTrimSpace(s[k])
    ensures n < |s| ==> !IsTrimSpace(s[n])
    decreases |s| - i
  {
    if i < |s| && IsTrimSpace(s[i]) then FirstNonBlank(s, i + 1) else i
  }

  /** The end of `s[lo..j]` once its trailing blanks are cut off. */
  function EndOfNonBlank(s: string, lo: nat, j: nat): (n: nat)
    requires lo <= j <= |s|
    ensures lo <= n <= j
    ensures forall k | n <= k < j :: IsTrimSpace(s[k])
    ensures n > lo ==> !IsTrimSpace(s[n - 1])
    decreases j
  {
    if j > lo && IsTrimSpace(s[j - 1]) then EndOfNonBlank(s, lo, j - 1) else j
  }

  /** Where the trimmed part of `s` begins and ends. */
  function TrimBounds(s: string): (b: (nat, nat))
    ensures b.0 <= b.1 <= |s|
    ensures forall k | 0 <= k < b.0 :: IsTrimSpace(s[k])
    ensures forall k | b.1 <= k < |s| :: IsTrimSpace(s[k])
    ensures b.0 < b.1 ==> !IsTrimSpace(s[b.0]) && !IsTrimSpace(s[b.1 - 1])
    ensures b.0 == b.1 ==> b.1 == |s|
  {
    var lo := FirstNonBlank(s, 0);
    (lo, EndOfNonBlank(s, lo, |s|))
  }

  /**
   * PHP `trim($s)`: empty exactly when `s` is all blanks, and otherwise
   * starting and ending with a non-blank (TrimSegment: a slice of `s`).
   */
  function Trim(s: string): (r: string)
    ensures |r| <= |s|
    ensures r == [] <==> AllTrimSpace(s)
    ensures r != [] ==> !IsTrimSpace(r[0]) && !IsTrimSpace(r[|r| - 1])
  {
    var b := TrimBounds(s);
    s[b.0..b.1]
  }

  /** `trim` removes blanks only, and only at the two ends. */
  lemma TrimSegment(s: string) returns (lo: nat, hi: nat)
    ensures lo <= hi <= |s|
    ensures Trim(s) == s[lo..hi]
    ensures AllTrimSpace(s[..lo]) && AllTrimSpace(s[hi..])
  {
    lo, hi := TrimBounds(s).0, TrimBounds(s).1;
    assert forall k | 0 <= k < lo :: s[..lo][k] == s[k];
    assert forall k | 0 <= k < |s| - hi :: s[hi..][k] == s[hi + k];
  }

  /** A string that neither starts nor ends with a blank is its own trim. */
  lemma TrimNonBlank(s: string)
    requires s != [] && !IsTrimSpace(s[0]) && !IsTrimSpace(s[|s| - 1])
    ensures Trim(s) == s
  {
    assert FirstNonBlank(s, 0) == 0;
    assert EndOfNonBlank(s, 0, |s|) == |s|;
  }

  /** Trimming a trimmed string changes nothing. */
  lemma TrimIdempotent(s: string)
    ensures Trim(Trim(s)) == Trim(s)
  {
    var t := Trim(s);
    if t != [] {
      TrimNonBlank(t);
    }
  }

  /** The index of the first non-`isspace` character at or after `i`, or `|s|`. */
  function FirstNonCSpace(s: string, i: nat): (n: nat)
    requires i <= |s|
    ensures i <= n <= |s|
    ensures forall k | i <= k < n :: IsCSpace(s[k])
    ensures n < |s| ==> !IsCSpace(s[n])
    decreases |s| - i
  {
    if i < |s| && IsCSpace(s[i]) then FirstNonCSpace(s, i + 1) else i
  }

  function DigitValue(c: char): nat
    requires IsDigit(c)
  {
    c as int - '0' as int
  }

  /** The end of the run of decimal digits that starts at index `i`. */
  function DigitEnd(s: string, i: nat): (n: nat)
    requires i <= |s|
    ensures i <= n <= |s|
    ensures forall k | i <= k < n :: IsDigit(s[k])
    ensures n < |s| ==> !IsDigit(s[n])
    decreases |s| - i
  {
    if i < |s| && IsDigit(s[i]) then DigitEnd(s, i + 1) else i
  }

  /** The number the digits `s[i..j]` denote, most significant digit first. */
  function ValueOf(s: string, i: nat, j: nat): nat
    requires i <= j <= |s|
    requires forall k | i <= k < j :: IsDigit(s[k])
    decreases j
  {
    if j == i then 0 else 10 * ValueOf(s, i, j - 1) + DigitValue(s[j - 1])
  }

  /** The number a string of decimal digits denotes. */
  function Value(d: string): nat
    requires AllDigits(d)
  {
    ValueOf(d, 0, |d|)
  }

  /** Clamps to the 64-bit range, as `strtol` does on overflow. */
  function Saturate(n: int): (r: int)
    ensures IntMin <= r <= IntMax
    ensures IntMin <= n <= IntMax ==> r == n
    ensures n > IntMax ==> r == IntMax
    ensures n < IntMin ==> r == IntMin
  {
    if n > IntMax then IntMax else if n < IntMin then IntMin else n
  }

  /** Where the digits of a cast start: after the leading blanks and one optional sign. */
  function DigitStart(s: string): (i: nat)
    ensures i <= |s|
  {
    var b := FirstNonCSpace(s, 0);
    if b < |s| && (s[b] == '-' || s[b] == '+') then b + 1 else b
  }

  /** The first character after the leading blanks is a minus sign. */
  predicate IsNegative(s: string) {
    var b := FirstNonCSpace(s, 0);
    b < |s| && s[b] == '-'
  }

  /**
   * PHP `(int)$s` for a string `s`. The result is a 64-bit integer with the
   * sign the string shows; it is 0 when no digit follows the blanks and
   * sign; otherwise it is the signed value of the leading digit run,
   * clamped to the 64-bit range.
   */
  function IntCast(s: string): (r: int)
    ensures IntMin <= r <= IntMax
    ensures DigitEnd(s, DigitStart(s)) == DigitStart(s) ==> r == 0
    ensures IsNegative(s) ==> r <= 0
    ensures !IsNegative(s) ==> r >= 0
  {
    var i := DigitStart(s);
    var v: int := ValueOf(s, i, DigitEnd(s, i));
    Saturate(if IsNegative(s) then -v else v)
  }

  /** The decimal digits of `n`, without leading zeros (DigitStringValue: they denote `n`). */
  function DigitString(n: nat): (r: string)
    ensures r != [] && AllDigits(r)
    ensures |r| > 1 ==> r[0] != '0'
  {
    var last := ['0' + ((n % 10) as char)];
    if n < 10 then last else DigitString(n / 10) + last
  }

  /** Appending a digit to a digit string multiplies its value by ten and adds the digit. */
  lemma ValueOfAppend(high: string, c: char)
    requires AllDigits(high) && IsDigit(c)
    ensures AllDigits(high + [c])
    ensures Value(high + [c]) == 10 * Value(high) + DigitValue(c)
  {
    var r := high + [c];
    AppendDigit(high, c);
    ValueOfShift(high, 0, |high|, r, 0);
    assert ValueOf(r, 0, |r|) == 10 * ValueOf(r, 0, |high|) + DigitValue(c);
  }

  /** A digit appended to a digit string: the old digits keep their places and the new one comes last. */
  lemma AppendDigit(high: string, c: char)
    requires AllDigits(high) && IsDigit(c)
    ensures AllDigits(high + [c])
    ensures |high + [c]| == |high| + 1 && (high + [c])[|high|] == c
    ensures forall k | 0 <= k < |high| :: IsDigit(high[k]) && (high + [c])[k + 0] == high[k]
  {
  }

  /** The digits of `n` denote `n`. */
  lemma {:induction false} DigitStringValue(n: nat)
    ensures Value(DigitString(n)) == n
  {
    var c := '0' + ((n % 10) as char);
    if n < 10 {
      assert ValueOf([c], 0, 0) == 0;
    } else {
      DigitStringValue(n / 10);
      ValueOfAppend(DigitString(n / 10), c);
    }
  }

  /** PHP's decimal rendering of an integer, as `strlen` and `.` see it. */
  function DecimalString(n: int): (r: string)
    ensures r != []
    ensures n >= 0 ==> AllDigits(r)
    ensures n < 0 ==> r[0] == '-' && AllDigits(r[1..])
  {
    if n < 0 then "-" + DigitString(-n) else DigitString(n)
  }

  function Pow10(k: nat): (p: nat)
    ensures p >= 1
  {
    if k == 0 then 1 else 10 * Pow10(k - 1)
  }

  /** A number below 10^k has at most k digits. */
  lemma {:induction false} DigitStringLength(n: nat, k: nat)
    requires k >= 1 && n < Pow10(k)
    ensures |DigitString(n)| <= k
  {
    assert Pow10(1) == 10;
    if n >= 10 {
      assert k >= 2;
      assert n / 10 < Pow10(k - 1);
      DigitStringLength(n / 10, k - 1);
    }
  }

  /** Every 64-bit integer prints in at most 20 characters (19 digits and a sign). */
  lemma DecimalLengthBound(n: int)
    requires IntMin <= n <= IntMax
    ensures |DecimalString(n)| <= 20
  {
    assert Pow10(19) == 10_000_000_000_000_000_000 by {
      assert Pow10(4) == 10_000;
      assert Pow10(8) == 100_000_000;
      assert Pow10(12) == 1_000_000_000_000;
      assert Pow10(16) == 10_000_000_000_000_000;
    }
    if n < 0 {
      DigitStringLength(-n, 19);
    } else {
      DigitStringLength(n, 19);
    }
  }

  /** The value of a digit run depends only on its characters, not on where it sits. */
  lemma {:induction false} ValueOfShift(s: string, i: nat, j: nat, t: string, o: nat)
    requires i <= j <= |s| && j + o <= |t|
    requires forall k | i <= k < j :: IsDigit(s[k]) && t[k + o] == s[k]
    ensures forall k | i + o <= k < j + o :: IsDigit(t[k])
    ensures ValueOf(s, i, j) == ValueOf(t, i + o, j + o)
    decreases j
  {
    assert forall k | i + o <= k < j + o :: t[k] == s[k - o];
    if j > i {
      ValueOfShift(s, i, j - 1, t, o);
    }
  }

  /** The digit run that starts at `i` inside a block of digits reaches its end at a non-digit. */
  lemma DigitEndOfDigits(s: string, i: nat, e: nat)
    requires i <= e <= |s|
    requires forall k | i <= k < e :: IsDigit(s[k])
    requires e == |s| || !IsDigit(s[e])
    ensures DigitEnd(s, i) == e
  {
  }

  /** A string that starts with a digit is cast from its first character, as a non-negative number. */
  lemma CastStartsAtDigit(s: string)
    requires s != [] && IsDigit(s[0])
    ensures DigitStart(s) == 0 && !IsNegative(s)
  {
    assert FirstNonCSpace(s, 0) == 0;
  }

  /** Digits keep their value with a minus sign in front. */
  lemma ValueAfterSign(d: string)
    requires AllDigits(d)
    ensures forall k | 1 <= k < |d| + 1 :: IsDigit(("-" + d)[k])
    ensures ValueOf("-" + d, 1, |d| + 1) == Value(d)
  {
    var s := "-" + d;
    assert forall k | 0 <= k < |d| :: s[k + 1] == d[k];
    ValueOfShift(d, 0, |d|, s, 1);
  }

  /** Digits keep their value with anything after them, and end where `rest` begins. */
  lemma ValueBeforeRest(d: string, rest: string)
    requires AllDigits(d)
    requires rest == [] || !IsDigit(rest[0])
    ensures forall k | 0 <= k < |d| :: IsDigit((d + rest)[k])
    ensures |d| == |d + rest| || !IsDigit((d + rest)[|d|])
    ensures ValueOf(d + rest, 0, |d|) == Value(d)
  {
    var s := d + rest;
    assert forall k | 0 <= k < |d| :: s[k] == d[k];
    assert rest != [] ==> s[|d|] == rest[0];
    ValueOfShift(d, 0, |d|, s, 0);
  }

  /** A string that starts with a minus sign is cast, negated, from its second character. */
  lemma CastStartsAtMinus(s: string)
    requires s != [] && s[0] == '-'
    ensures DigitStart(s) == 1 && IsNegative(s)
  {
    assert FirstNonCSpace(s, 0) == 0;
  }

  /** A string that begins with the digit block `s[..e]` casts to the block's value. */
  lemma CastOfDigitBlock(s: string, e: nat)
    requires 0 < e <= |s|
    requires forall k | 0 <= k < e :: IsDigit(s[k])
    requires e == |s| || !IsDigit(s[e])
    requires ValueOf(s, 0, e) <= IntMax
    ensures IntCast(s) == ValueOf(s, 0, e)
  {
    CastStartsAtDigit(s);
    DigitEndOfDigits(s, 0, e);
  }

  /** A minus sign followed by nothing but digits casts to the negated value of the digits. */
  lemma CastOfNegativeBlock(s: string)
    requires |s| > 1 && s[0] == '-'
    requires forall k | 1 <= k < |s| :: IsDigit(s[k])
    requires ValueOf(s, 1, |s|) <= -IntMin
    ensures IntCast(s) == -(ValueOf(s, 1, |s|) as int)
  {
    CastStartsAtMinus(s);
    DigitEndOfDigits(s, 1, |s|);
  }

  /**
   * The cast reads the leading digits and stops at the first other
   * character: `(int)"12x"` is 12.
   */
  lemma IntCastDigitPrefix(d: string, rest: string)
    requires d != [] && AllDigits(d) && Value(d) <= IntMax
    requires rest == [] || !IsDigit(rest[0])
    ensures IntCast(d + rest) == Value(d)
  {
    ValueBeforeRest(d, rest);
    CastOfDigitBlock(d + rest, |d|);
  }

  /** A minus sign followed by digits casts to the negated value of the digits. */
  lemma IntCastNegative(d: string)
    requires d != [] && AllDigits(d) && Value(d) <= -IntMin
    ensures IntCast("-" + d) == -(Value(d) as int)
  {
    ValueAfterSign(d);
    CastOfNegativeBlock("-" + d);
  }

  /** Rendering a 64-bit integer in decimal and casting it back is the identity. */
  lemma IntCastRoundTrip(n: int)
    requires IntMin <= n <= IntMax
    ensures IntCast(DecimalString(n)) == n
  {
    if n < 0 {
      var d := DigitString(-n);
      DigitStringValue(-n);
      assert DecimalString(n) == "-" + d;
      IntCastNegative(d);
    } else {
      var d := DigitString(n);
      DigitStringValue(n);
      assert DecimalString(n) == d + [];
      IntCastDigitPrefix(d, []);
    }
  }

  /** A string that starts with neither a blank, a sign nor a digit casts to 0. */
  lemma IntCastNoDigits(s: string)
    requires s != [] && !IsCSpace(s[0]) && !IsDigit(s[0]) && s[0] != '-' && s[0] != '+'
    ensures IntCast(s) == 0
  {
    assert FirstNonCSpace(s, 0) == 0;
    assert DigitStart(s) == 0;
  }

  /** The blanks skipped by the cast end at the first non-blank. */
  lemma {:induction false} SkipBlanks(s: string, i: nat, b: nat)
    requires i <= b <= |s|
    requires forall k | i <= k < b :: IsCSpace(s[k])
    requires b == |s| || !IsCSpace(s[b])
    ensures FirstNonCSpace(s, i) == b
    decreases b - i
  {
    if i < b {
      SkipBlanks(s, i + 1, b);
    }
  }

  /**
   * A cast read off the layout of `s`: blanks up to `b`, an optional sign
   * at `b`, and the digit run `s[i..e]`.
   */
  lemma CastOfLayout(s: string, b: nat, i: nat, e: nat, negative: bool)
    requires (i == b || i == b + 1) && i < e <= |s|
    requires forall k | 0 <= k < b :: IsCSpace(s[k])
    requires !IsCSpace(s[b])
    requires i == b + 1 ==> s[b] == '-' || s[b] == '+'
    requires forall k | i <= k < e :: IsDigit(s[k])
    requires i == b ==> IsDigit(s[b])
    requires e == |s| || !IsDigit(s[e])
    requires negative <==> i == b + 1 && s[b] == '-'
    ensures IntCast(s) == Saturate(if negative then -(ValueOf(s, i, e) as int) else ValueOf(s, i, e))
  {
    SkipBlanks(s, 0, b);
    assert DigitStart(s) == i;
    assert IsNegative(s) <==> i == b + 1 && s[b] == '-';
    DigitEndOfDigits(s, i, e);
    var v: int := ValueOf(s, i, e);
    assert IntCast(s) == Saturate(if IsNegative(s) then -v else v);
  }

  /**
   * The general shape of a cast: leading blanks, at most one sign, a
   * non-empty digit run and any text not starting with a digit give the
   * signed value of the digits, clamped to the 64-bit range.
   */
  lemma IntCastGeneral(blanks: string, sign: string, d: string, rest: string)
    requires forall k | 0 <= k < |blanks| :: IsCSpace(blanks[k])
    requires sign == "" || sign == "+" || sign == "-"
    requires d != [] && AllDigits(d)
    requires rest == [] || !IsDigit(rest[0])
    ensures IntCast(blanks + sign + d + rest)
      == Saturate(if sign == "-" then -(Value(d) as int) else Value(d))
  {
    var s := blanks + sign + d + rest;
    var b := |blanks|;
    CastParts(blanks, sign, d, rest);
    assert sign == "-" <==> |sign| == 1 && s[b] == '-' by {
      if sign == "+" {
        assert s[b] == '+';
      }
    }
    CastOfParts(s, b, |sign|, d, sign == "-");
  }

  /** The cast of a string laid out as blanks, `p` sign characters and the digits `d`. */
  lemma CastOfParts(s: string, b: nat, p: nat, d: string, negative: bool)
    requires p <= 1 && d != [] && b + p + |d| <= |s|
    requires forall k | 0 <= k < b :: IsCSpace(s[k])
    requires !IsCSpace(s[b])
    requires p == 1 ==> s[b] == '-' || s[b] == '+'
    requires p == 0 ==> IsDigit(s[b])
    requires forall k | 0 <= k < |d| :: IsDigit(d[k]) && s[k + (b + p)] == d[k]
    requires b + p + |d| == |s| || !IsDigit(s[b + p + |d|])
    requires negative <==> p == 1 && s[b] == '-'
    ensures AllDigits(d)
    ensures IntCast(s) == Saturate(if negative then -(Value(d) as int) else Value(d))
  {
    var i := b + p;
    DigitsAt(s, i, d);
    CastOfLayout(s, b, i, i + |d|, negative);
  }

  /** Digits `d` copied into `s` at `i` keep their value there. */
  lemma DigitsAt(s: string, i: nat, d: string)
    requires i + |d| <= |s|
    requires forall k | 0 <= k < |d| :: IsDigit(d[k]) && s[k + i] == d[k]
    ensures AllDigits(d)
    ensures forall k | i <= k < i + |d| :: IsDigit(s[k])
    ensures ValueOf(s, i, i + |d|) == Value(d)
  {
    ValueOfShift(d, 0, |d|, s, i);
    assert 0 + i == i && |d| + i == i + |d|;
  }

  /** Where the parts of `blanks + sign + d + rest` sit. */
  lemma CastParts(blanks: string, sign: string, d: string, rest: string)
    requires forall k | 0 <= k < |blanks| :: IsCSpace(blanks[k])
    requires sign == "" || sign == "+" || sign == "-"
    requires d != [] && AllDigits(d)
    requires rest == [] || !IsDigit(rest[0])
    ensures var s := blanks + sign + d + rest;
      var i := |blanks| + |sign|;
      && |s| == i + |d| + |rest|
      && (forall k | 0 <= k < |blanks| :: IsCSpace(s[k]))
      && !IsCSpace(s[|blanks|])
      && (sign != "" ==> s[|blanks|] == sign[0])
      && (sign == "" ==> IsDigit(s[|blanks|]))
      && (forall k | 0 <= k < |d| :: IsDigit(d[k]) && s[k + i] == d[k])
      && (i + |d| == |s| || !IsDigit(s[i + |d|]))
  {
    var s := blanks + sign + d + rest;
    var i := |blanks| + |sign|;
    assert forall k | 0 <= k < |blanks| :: s[k] == blanks[k];
    assert sign != "" ==> s[|blanks|] == sign[0];
    assert forall k | 0 <= k < |d| :: s[k + i] == d[k];
    assert rest != [] ==> s[i + |d|] == rest[0];
  }

  /** Worked case: `(int)" +12"` is 12, the blank and the plus sign skipped. */
  lemma IntCastBlankPlus()
    ensures IntCast(" +12") == 12
  {
    var d := DigitString(12);
    DigitStringValue(12);
    assert d == "12";
    assert " +12" == " " + "+" + d + [];
    IntCastGeneral(" ", "+", d, []);
  }

  /** Worked case: `(int)"-7x"` is -7, the text after the digits ignored. */
  lemma IntCastMinusThenText()
    ensures IntCast("-7x") == -7
  {
    var d := DigitString(7);
    DigitStringValue(7);
    assert d == "7";
    assert "-7x" == "" + "-" + d + "x";
    IntCastGeneral("", "-", d, "x");
  }

  /** A digit run too large for 64 bits saturates to PHP_INT_MAX. */
  lemma IntCastSaturatesHigh(n: nat)
    requires n > IntMax
    ensures IntCast(DigitString(n)) == IntMax
  {
    DigitStringValue(n);
    assert DigitString(n) == "" + "" + DigitString(n) + [];
    IntCastGeneral("", "", DigitString(n), []);
  }

  /** After a minus sign, a digit run too large for 64 bits saturates to PHP_INT_MIN. */
  lemma IntCastSaturatesLow(n: nat)
    requires n > -IntMin
    ensures IntCast("-" + DigitString(n)) == IntMin
  {
    DigitStringValue(n);
    assert "-" + DigitString(n) == "" + "-" + DigitString(n) + [];
    IntCastGeneral("", "-", DigitString(n), []);
  }
}
