/**
 * The part of JavaScript's number handling the article routes rely on:
 * `parseInt` with no radix, the falsy test behind `x || d`, and
 * `Math.ceil(a / b)` when both operands are integers.
 *
 * Only integer-valued numbers arise from `parseInt`, so a number here is
 * `NaN` or an unbounded integer; `-0` is the integer 0, which is falsy like
 * `+0`.
 */
module JsNumber {

  datatype Number = NaN | Int(value: int)

  /**
   * StrWhiteSpaceChar of ECMAScript: the WhiteSpace code points (TAB, VT,
   * FF, ZWNBSP and every space separator of category Zs) and the
   * LineTerminator code points (LF, CR, LS, PS).
   */
  predicate IsWhiteSpace(c: char) {
    var n := c as int;
    n == 0x09 || n == 0x0A || n == 0x0B || n == 0x0C || n == 0x0D ||
    n == 0x20 || n == 0xA0 || n == 0x1680 || (0x2000 <= n <= 0x200A) ||
    n == 0x2028 || n == 0x2029 || n == 0x202F || n == 0x205F ||
    n == 0x3000 || n == 0xFEFF
  }

  /** The value of `c` as a digit in bases up to 36, or 36 when it is no digit. */
  function DigitValue(c: char): (d: nat)
    ensures d <= 36
  {
    if '0' <= c <= '9' then c as int - '0' as int
    else if 'a' <= c <= 'z' then c as int - 'a' as int + 10
    else if 'A' <= c <= 'Z' then c as int - 'A' as int + 10
    else 36
  }

  predicate IsDigit(c: char, radix: nat) {
    DigitValue(c) < radix
  }

  /** `s` without its leading white space. */
  function TrimStart(s: string): (r: string)
    ensures |r| <= |s| && r == s[|s| - |r|..]
    ensures r == [] || !IsWhiteSpace(r[0])
    ensures forall i :: 0 <= i < |s| - |r| ==> IsWhiteSpace(s[i])
  {
    if s != [] && IsWhiteSpace(s[0]) then TrimStart(s[1..]) else s
  }

  /** The length of the longest prefix of `s` made of digits in `radix`. */
  function DigitRun(s: string, radix: nat): (n: nat)
    ensures n <= |s|
    ensures forall i :: 0 <= i < n ==> IsDigit(s[i], radix)
    ensures n < |s| ==> !IsDigit(s[n], radix)
  {
    if s == [] || !IsDigit(s[0], radix) then 0 else 1 + DigitRun(s[1..], radix)
  }

  /** The value of a string of digits, most significant first. */
  function DigitsValue(z: string, radix: nat): nat
    requires forall i :: 0 <= i < |z| ==> IsDigit(z[i], radix)
  {
    if z == [] then 0
    else
      var init := z[..|z| - 1];
      assert forall i :: 0 <= i < |init| ==> init[i] == z[i];
      var high: nat := DigitsValue(init, radix);
      NatProduct(high, radix);
      high * radix + DigitValue(z[|z| - 1])
  }

  lemma NatProduct(a: nat, b: nat)
    ensures a * b >= 0
  {
  }

  /** The digits of an unsigned numeral: a `0x`/`0X` prefix selects base 16, otherwise base 10. */
  function Magnitude(u: string): Number {
    var hex := |u| >= 2 && u[0] == '0' && (u[1] == 'x' || u[1] == 'X');
    var radix := if hex then 16 else 10;
    var v := if hex then u[2..] else u;
    var z := v[..DigitRun(v, radix)];
    if z == [] then NaN else Int(DigitsValue(z, radix))
  }

  /**
   * `parseInt(s)` with the radix left undefined (section 19.2.5 of
   * ECMA-262): skip leading white space, read an optional sign, switch to
   * base 16 after a `0x` or `0X` prefix, then read the longest run of
   * digits; no digits at all gives NaN.
   */
  function ParseInt(s: string): Number {
    var t := TrimStart(s);
    var signed := t != [] && (t[0] == '-' || t[0] == '+');
    var m := Magnitude(if signed then t[1..] else t);
    if m.Int? && signed && t[0] == '-' then Int(-m.value) else m
  }

  /** The decimal numeral of `n`: its digits with no leading zero. */
  function NatDigits(n: nat): (r: string)
    ensures |r| >= 1
    ensures forall i :: 0 <= i < |r| ==> '0' <= r[i] <= '9'
  {
    var last := ['0' + ((n % 10) as char)];
    if n < 10 then last else NatDigits(n / 10) + last
  }

  /** The decimal numeral of an integer `n`, with a leading `-` when it is negative. */
  function DecimalString(n: int): string {
    if n < 0 then "-" + NatDigits(-n) else NatDigits(n)
  }

  lemma {:induction false} NatDigitsValue(n: nat)
    ensures DigitRun(NatDigits(n), 10) == |NatDigits(n)|
    ensures DigitsValue(NatDigits(n), 10) == n
  {
    var r := NatDigits(n);
    assert forall i :: 0 <= i < |r| ==> IsDigit(r[i], 10);
    AllDigitsRun(r, 10);
    if n >= 10 {
      NatDigitsValue(n / 10);
      assert r[..|r| - 1] == NatDigits(n / 10);
    }
  }

  lemma {:induction false} AllDigitsRun(s: string, radix: nat)
    requires forall i :: 0 <= i < |s| ==> IsDigit(s[i], radix)
    ensures DigitRun(s, radix) == |s|
    decreases |s|
  {
    if s != [] {
      AllDigitsRun(s[1..], radix);
    }
  }

  /** Reading back the decimal numeral of an integer with `parseInt` gives the integer. */
  lemma DecimalRoundTrip(n: int)
    ensures ParseInt(DecimalString(n)) == Int(n)
  {
    var m := if n < 0 then -n else n;
    MagnitudeOfDigits(m);
    var d := NatDigits(m);
    if n < 0 {
      ParseSigned('-', d);
    } else {
      ParseUnsigned(d);
    }
  }

  lemma ParseSigned(sign: char, d: string)
    requires sign == '-' || sign == '+'
    ensures ParseInt([sign] + d) ==
      var m := Magnitude(d); if m.Int? && sign == '-' then Int(-m.value) else m
  {
    var s := [sign] + d;
    assert !IsWhiteSpace(s[0]);
    assert s[1..] == d;
  }

  lemma ParseUnsigned(d: string)
    requires d != [] && '0' <= d[0] <= '9'
    ensures ParseInt(d) == Magnitude(d)
  {
    assert !IsWhiteSpace(d[0]);
  }

  lemma MagnitudeOfDigits(m: nat)
    ensures Magnitude(NatDigits(m)) == Int(m)
  {
    var d := NatDigits(m);
    NatDigitsValue(m);
    assert d[..|d|] == d;
    assert !(|d| >= 2 && (d[1] == 'x' || d[1] == 'X'));
  }

  /** Leading white space never changes what `parseInt` reads. */
  lemma {:induction false} LeadingWhiteSpaceIgnored(ws: string, s: string)
    requires forall i :: 0 <= i < |ws| ==> IsWhiteSpace(ws[i])
    ensures ParseInt(ws + s) == ParseInt(s)
  {
    TrimStartSkips(ws, s);
  }

  lemma {:induction false} TrimStartSkips(ws: string, s: string)
    requires forall i :: 0 <= i < |ws| ==> IsWhiteSpace(ws[i])
    ensures TrimStart(ws + s) == TrimStart(s)
    decreases |ws|
  {
    if ws == [] {
      assert ws + s == s;
    } else {
      assert (ws + s)[0] == ws[0] && IsWhiteSpace(ws[0]);
      assert (ws + s)[1..] == ws[1..] + s;
      TrimStartSkips(ws[1..], s);
    }
  }

  /**
   * Text whose first character after white space is neither a sign nor a
   * decimal digit (or that is white space only) parses to NaN.
   */
  lemma NonNumericIsNaN(s: string)
    requires var t := TrimStart(s); t == [] || (t[0] != '+' && t[0] != '-' && !('0' <= t[0] <= '9'))
    ensures ParseInt(s) == NaN
  {
    var t := TrimStart(s);
    assert !(t != [] && (t[0] == '-' || t[0] == '+'));
    if t != [] {
      assert !IsDigit(t[0], 10);
      assert DigitRun(t, 10) == 0;
    }
    assert Magnitude(t) == NaN;
  }

  /** `x || d`: the number itself unless it is falsy (NaN or zero), else `d`. */
  function OrDefault(x: Number, d: int): (r: int)
    ensures x.Int? && x.value != 0 ==> r == x.value
    ensures x.NaN? || x == Int(0) ==> r == d
  {
    if x.Int? && x.value != 0 then x.value else d
  }

  /**
   * `Math.ceil(a / b)` for integers with `b != 0`: the least integer that
   * is at least the exact quotient.
   */
  function CeilDiv(a: int, b: int): int
    requires b != 0
  {
    if b > 0 then -((-a) / b) else a / b
  }

  /** CeilDiv lies within one divisor of the dividend, on the side the divisor's sign dictates. */
  lemma CeilDivBounds(a: int, b: int)
    requires b != 0
    ensures b > 0 ==> (CeilDiv(a, b) - 1) * b < a <= CeilDiv(a, b) * b
    ensures b < 0 ==> CeilDiv(a, b) * b <= a < (CeilDiv(a, b) - 1) * b
  {
  }

  /** The integer bounds of CeilDiv say exactly that it is the ceiling of the exact quotient. */
  lemma CeilDivIsCeiling(a: int, b: int)
    requires b != 0
    ensures var r := CeilDiv(a, b); (r - 1) as real < (a as real) / (b as real) <= r as real
  {
    var r := CeilDiv(a, b);
    CeilDivBounds(a, b);
    var q := (a as real) / (b as real);
    assert q * (b as real) == a as real;
    if b > 0 {
      assert ((r - 1) * b) as real < a as real <= (r * b) as real;
      assert (r - 1) as real * b as real < q * b as real <= r as real * b as real;
    } else {
      assert (r * b) as real <= a as real < ((r - 1) * b) as real;
      assert r as real * b as real <= q * b as real < (r - 1) as real * b as real;
    }
  }
}
