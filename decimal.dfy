/**
 * Decimal text of integers, both ways: std::to_string, which the encoder uses
 * for integers and lengths, and std::stoi / std::stoll, which the parser uses
 * for integer payloads and length headers.
 *
 * std::stoi and std::stoll are strtol-style conversions: they skip leading
 * white space, accept an optional sign, read the longest run of decimal
 * digits and ignore whatever follows it. No digit at all raises
 * std::invalid_argument; a value outside the target type raises
 * std::out_of_range.
 */
module Decimal {
  import opened ByteStrings

  const ZERO: byte := '0' as byte
  const NINE: byte := '9' as byte
  const MINUS_SIGN: byte := '-' as byte
  const PLUS_SIGN: byte := '+' as byte
  const SPACE: byte := ' ' as byte
  const TAB: byte := '\t' as byte

  predicate IsDigit(b: byte) {
    ZERO <= b <= NINE
  }

  /** isspace in the "C" locale: space, \t, \n, \v, \f and \r. */
  predicate IsSpace(b: byte) {
    b == SPACE || TAB <= b <= CR
  }

  /** The digits of `n`, most significant first, without leading zeros. */
  function Digits(n: nat): (r: Bytes)
    ensures |r| >= 1
    ensures forall i | 0 <= i < |r| :: IsDigit(r[i])
    decreases n
  {
    if n < 10 then [(ZERO as int + n) as byte]
    else Digits(n / 10) + [(ZERO as int + n % 10) as byte]
  }

  /** std::to_string of an integer. */
  function ToDecimal(n: int): (r: Bytes)
    ensures |r| >= 1
    ensures forall i | 0 <= i < |r| :: IsDigit(r[i]) || (i == 0 && r[i] == MINUS_SIGN)
  {
    if n < 0 then [MINUS_SIGN] + Digits(-n) else Digits(n)
  }

  /** The number a run of decimal digits denotes. */
  function DigitsValue(d: Bytes): nat
    requires forall i | 0 <= i < |d| :: IsDigit(d[i])
  {
    if |d| == 0 then 0
    else assert IsDigit(d[|d| - 1]); DigitsValue(d[..|d| - 1]) * 10 + (d[|d| - 1] as int - ZERO as int)
  }

  /** The index of the first non-space byte of `t` at or after `i`. */
  function SkipSpaces(t: Bytes, i: nat): (j: nat)
    requires i <= |t|
    ensures i <= j <= |t|
    ensures j < |t| ==> !IsSpace(t[j])
    ensures forall k | i <= k < j :: IsSpace(t[k])
    decreases |t| - i
  {
    if i < |t| && IsSpace(t[i]) then SkipSpaces(t, i + 1) else i
  }

  /** The end of the longest run of digits of `t` starting at `i`. */
  function DigitRunEnd(t: Bytes, i: nat): (j: nat)
    requires i <= |t|
    ensures i <= j <= |t|
    ensures j < |t| ==> !IsDigit(t[j])
    ensures forall k | i <= k < j :: IsDigit(t[k])
    decreases |t| - i
  {
    if i < |t| && IsDigit(t[i]) then DigitRunEnd(t, i + 1) else i
  }

  /** The two exceptions std::stoi and std::stoll throw. */
  datatype ConversionError = InvalidArgument | OutOfRange

  datatype Conversion = Converted(value: int) | Failed(error: ConversionError)

  /** The strtol-style conversion of `t` into the range [lo, hi]. */
  function StrToInteger(t: Bytes, lo: int, hi: int): (r: Conversion)
    ensures r.Converted? ==> lo <= r.value <= hi
  {
    var start := SkipSpaces(t, 0);
    var negative := start < |t| && t[start] == MINUS_SIGN;
    var first := if start < |t| && (t[start] == MINUS_SIGN || t[start] == PLUS_SIGN) then start + 1 else start;
    var end := DigitRunEnd(t, first);
    if end == first then Failed(InvalidArgument)
    else
      var magnitude: int := DigitsValue(t[first..end]);
      var value: int := if negative then -magnitude else magnitude;
      if lo <= value <= hi then Converted(value) else Failed(OutOfRange)
  }

  /** std::stoi: a conversion into a 32-bit int. */
  function StoI(t: Bytes): (r: Conversion)
    ensures r.Converted? ==> INT_MIN <= r.value <= INT_MAX
  {
    StrToInteger(t, INT_MIN, INT_MAX)
  }

  /** std::stoll: a conversion into a 64-bit long long. */
  function StoLL(t: Bytes): (r: Conversion)
    ensures r.Converted? ==> INT64_MIN <= r.value <= INT64_MAX
  {
    StrToInteger(t, INT64_MIN, INT64_MAX)
  }

  /** Leading white space only. */
  predicate AllSpaces(w: Bytes) {
    forall k | 0 <= k < |w| :: IsSpace(w[k])
  }

  /** An optional sign: none, "-" or "+". */
  predicate IsSign(sign: Bytes) {
    sign == [] || sign == [MINUS_SIGN] || sign == [PLUS_SIGN]
  }

  /** No digit after the leading white space and the optional sign: the
      conversion raises std::invalid_argument, whatever follows. */
  lemma NoDigitIsInvalidArgument(w: Bytes, sign: Bytes, rest: Bytes, lo: int, hi: int)
    requires AllSpaces(w) && IsSign(sign)
    requires sign == [] && rest != [] ==> !IsSpace(rest[0]) && rest[0] != MINUS_SIGN && rest[0] != PLUS_SIGN
    requires rest == [] || !IsDigit(rest[0])
    ensures StrToInteger(w + sign + rest, lo, hi) == Failed(InvalidArgument)
  {
    var t := w + sign + rest;
    assert |w| == |t| || !IsSpace(t[|w|]);
    assert SkipSpaces(t, 0) == |w|;
    var first := |w| + |sign|;
    assert first == |t| || !IsDigit(t[first]);
    assert DigitRunEnd(t, first) == first;
  }

  /** A run of digits after the leading white space and the optional sign,
      ended by a non-digit or the end of the text, is converted to its
      signed value when that lies in [lo, hi], and raises std::out_of_range
      when it does not. */
  lemma {:induction false} DigitRunConversion(w: Bytes, sign: Bytes, digits: Bytes, rest: Bytes, lo: int, hi: int)
    requires AllSpaces(w) && IsSign(sign)
    requires |digits| >= 1 && forall k | 0 <= k < |digits| :: IsDigit(digits[k])
    requires rest == [] || !IsDigit(rest[0])
    ensures var value: int := if sign == [MINUS_SIGN] then -(DigitsValue(digits) as int) else DigitsValue(digits);
            StrToInteger(w + sign + digits + rest, lo, hi) == if lo <= value <= hi then Converted(value) else Failed(OutOfRange)
  {
    var t := w + sign + digits + rest;
    var head, run := w + sign, digits + rest;
    var first := |head|;
    var end := first + |digits|;
    AppendAssociates(head, digits, rest);
    AppendAssociates(w, sign, run);
    assert t[first..] == run;
    SkipSpacesTo(w, sign + run);
    RunEndsAt(t, first, digits, rest);
    if sign == [] {
      assert t[|w|] == run[0] == digits[0];
    } else {
      assert t[|w|] == (sign + run)[0] == sign[0];
    }
    ConvertsRun(t, |w|, first, end, sign == [MINUS_SIGN], DigitsValue(digits), lo, hi);
  }

  /** StrToInteger once the white space, the sign and the digit run are
      located. */
  lemma ConvertsRun(t: Bytes, start: nat, first: nat, end: nat, negative: bool, magnitude: nat, lo: int, hi: int)
    requires start < |t| && SkipSpaces(t, 0) == start
    requires first == if t[start] == MINUS_SIGN || t[start] == PLUS_SIGN then start + 1 else start
    requires first < end <= |t| && DigitRunEnd(t, first) == end
    requires negative == (t[start] == MINUS_SIGN) && magnitude == DigitsValue(t[first..end])
    ensures var value: int := if negative then -(magnitude as int) else magnitude;
            StrToInteger(t, lo, hi) == if lo <= value <= hi then Converted(value) else Failed(OutOfRange)
  {
  }

  /** Leading white space followed by a byte that is not white space is
      skipped up to that byte. */
  lemma SkipSpacesTo(w: Bytes, u: Bytes)
    requires AllSpaces(w) && (u == [] || !IsSpace(u[0]))
    ensures SkipSpaces(w + u, 0) == |w|
  {
    var t := w + u;
    assert |w| == |t| || t[|w|] == u[0];
  }

  /** A digit run at `first`, ended by a non-digit or the end of `t`. */
  lemma RunEndsAt(t: Bytes, first: nat, digits: Bytes, rest: Bytes)
    requires first <= |t| && t[first..] == digits + rest
    requires forall k | 0 <= k < |digits| :: IsDigit(digits[k])
    requires rest == [] || !IsDigit(rest[0])
    ensures DigitRunEnd(t, first) == first + |digits|
    ensures t[first..first + |digits|] == digits
  {
    var end := first + |digits|;
    forall k | first <= k < end
      ensures IsDigit(t[k])
    {
      assert t[k] == t[first..][k - first];
    }
    assert end == |t| || t[end] == t[first..][|digits|];
    assert t[first..end] == t[first..][..|digits|];
  }

  /** A number outside [lo, hi] written by std::to_string raises
      std::out_of_range when read back. */
  lemma ToDecimalOutOfRange(n: int, lo: int, hi: int)
    requires n < lo || hi < n
    ensures StrToInteger(ToDecimal(n), lo, hi) == Failed(OutOfRange)
  {
    var magnitude: nat := if n < 0 then -n else n;
    var sign := if n < 0 then [MINUS_SIGN] else [];
    assert ToDecimal(n) == [] + sign + Digits(magnitude) + [];
    DigitsValueOfDigits(magnitude);
    DigitRunConversion([], sign, Digits(magnitude), [], lo, hi);
  }

  lemma {:induction false} DigitsValueOfDigits(n: nat)
    ensures DigitsValue(Digits(n)) == n
    decreases n
  {
    if n >= 10 {
      var d := Digits(n);
      assert d[..|d| - 1] == Digits(n / 10);
      DigitsValueOfDigits(n / 10);
    }
  }

  lemma {:induction false} DigitRunEndOfDigits(t: Bytes, i: nat)
    requires i <= |t|
    requires forall k | i <= k < |t| :: IsDigit(t[k])
    ensures DigitRunEnd(t, i) == |t|
    decreases |t| - i
  {
    if i < |t| {
      DigitRunEndOfDigits(t, i + 1);
    }
  }

  /** Reading back what std::to_string wrote gives the number again, for
      every number the target type can hold. */
  lemma ToDecimalRoundTrip(n: int, lo: int, hi: int)
    requires lo <= n <= hi
    ensures StrToInteger(ToDecimal(n), lo, hi) == Converted(n)
  {
    var t := ToDecimal(n);
    var digits := if n < 0 then Digits(-n) else Digits(n);
    var first := if n < 0 then 1 else 0;
    assert t[first..] == digits;
    assert !IsSpace(t[0]);
    assert SkipSpaces(t, 0) == 0;
    DigitRunEndOfDigits(t, first);
    assert t[first..|t|] == digits;
    DigitsValueOfDigits(if n < 0 then -n else n);
  }

  lemma StoIOfToDecimal(n: int)
    requires INT_MIN <= n <= INT_MAX
    ensures StoI(ToDecimal(n)) == Converted(n)
  {
    ToDecimalRoundTrip(n, INT_MIN, INT_MAX);
  }

  lemma StoLLOfToDecimal(n: int)
    requires INT64_MIN <= n <= INT64_MAX
    ensures StoLL(ToDecimal(n)) == Converted(n)
  {
    ToDecimalRoundTrip(n, INT64_MIN, INT64_MAX);
  }
}
