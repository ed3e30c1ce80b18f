/**
 * JavaScript numbers as the server uses them: the result of `parseInt`,
 * which is an integer or NaN, the comparisons and arithmetic applied to it,
 * and its conversion to text in template literals.  Integers are unbounded;
 * the rounding of doubles beyond 2^53 is not modelled.
 */
module JsNumbers {
  import opened JsStrings

  /** A JavaScript number produced by `parseInt` or by integer arithmetic. */
  datatype Num = NaN | Int(value: int) {

    /** `this >= k`: false when this is NaN. */
    predicate AtLeast(k: int) {
      Int? && value >= k
    }

    /** `this < lo || this > hi`: false when this is NaN. */
    predicate OutOfRange(lo: int, hi: int) {
      Int? && (value < lo || value > hi)
    }
  }

  /** `a - b + 1`, NaN when either operand is NaN. */
  function SpanLength(a: Num, b: Num): (r: Num)
    ensures r.Int? <==> a.Int? && b.Int?
    ensures r.Int? ==> r.value - 1 == b.value - a.value
  {
    if a.Int? && b.Int? then Int(b.value - a.value + 1) else NaN
  }

  /** The value of a digit character in radix 36, and 36 for any other character. */
  function DigitValue(c: char): (d: nat)
    ensures d <= 36
    ensures d < 10 <==> '0' <= c <= '9'
  {
    if '0' <= c <= '9' then c as int - '0' as int
    else if 'a' <= c <= 'z' then c as int - 'a' as int + 10
    else if 'A' <= c <= 'Z' then c as int - 'A' as int + 10
    else 36
  }

  predicate IsDigit(c: char, radix: nat) {
    DigitValue(c) < radix
  }

  predicate AllDigits(s: string, radix: nat) {
    forall i :: 0 <= i < |s| ==> IsDigit(s[i], radix)
  }

  /** The longest prefix of `s` made of digits of the radix. */
  function DigitPrefix(s: string, radix: nat): (z: string)
    ensures |z| <= |s|
  {
    if s != [] && IsDigit(s[0], radix) then [s[0]] + DigitPrefix(s[1..], radix) else []
  }

  /** The digit prefix is a prefix, made of digits, and ends where the digits end. */
  lemma {:induction false} DigitPrefixSpec(s: string, radix: nat)
    ensures var z := DigitPrefix(s, radix);
      z == s[..|z|] && AllDigits(z, radix) && (|z| == |s| || !IsDigit(s[|z|], radix))
  {
    if s != [] && IsDigit(s[0], radix) {
      DigitPrefixSpec(s[1..], radix);
    }
  }

  /** The value of a digit string read most significant digit first. */
  function ValueOf(z: string, radix: nat): nat
  {
    if z == [] then 0 else ValueOf(z[..|z| - 1], radix) * radix + DigitValue(z[|z| - 1])
  }

  /**
   * `parseInt(s, 10)` when `autoRadix` is false, and `parseInt(s)` when it
   * is true: leading white space is skipped, one `+` or `-` is taken as the
   * sign, and the longest run of digits that follows is read; without a
   * radix a `0x` or `0X` prefix selects hexadecimal.  No digits gives NaN.
   */
  function ParseInt(s: string, autoRadix: bool): Num {
    var t := TrimStart(s);
    if t != [] && t[0] == '-' then Negate(ReadUnsigned(t[1..], autoRadix))
    else if t != [] && t[0] == '+' then ReadUnsigned(t[1..], autoRadix)
    else ReadUnsigned(t, autoRadix)
  }

  /** The digits `parseInt` reads after the sign. */
  function ReadUnsigned(u: string, autoRadix: bool): (n: Num)
    ensures n.Int? ==> n.value >= 0
  {
    var hex := autoRadix && |u| >= 2 && u[0] == '0' && (u[1] == 'x' || u[1] == 'X');
    var radix := if hex then 16 else 10;
    var z := DigitPrefix(if hex then u[2..] else u, radix);
    if z == [] then NaN else Int(ValueOf(z, radix))
  }

  function Negate(n: Num): Num {
    match n
    case NaN => NaN
    case Int(i) => Int(-i)
  }

  /** The digit character for 0..9. */
  function DigitChar(d: nat): (c: char)
    requires d < 10
    ensures DigitValue(c) == d
  {
    ('0' as int + d) as char
  }

  /** The decimal text of a natural number, without leading zeros. */
  function DecimalString(n: nat): (s: string)
    ensures s != []
  {
    if n < 10 then [DigitChar(n)] else DecimalString(n / 10) + [DigitChar(n % 10)]
  }

  /** The decimal text is made of digits and starts with `0` only for zero. */
  lemma {:induction false} DecimalDigits(n: nat)
    ensures AllDigits(DecimalString(n), 10)
    ensures DecimalString(n)[0] == '0' ==> n == 0
  {
    if n >= 10 {
      DecimalDigits(n / 10);
    }
  }

  /** The text of an integer in a template literal: `${i}`. */
  function IntString(i: int): string {
    if i < 0 then "-" + DecimalString(-i) else DecimalString(i)
  }

  /** The text of a number in a template literal: `${n}`. */
  function NumString(n: Num): string {
    match n
    case NaN => "NaN"
    case Int(i) => IntString(i)
  }

  /** Reading back the decimal text of `n` gives `n`. */
  lemma {:induction false} ValueOfDecimal(n: nat)
    ensures ValueOf(DecimalString(n), 10) == n
  {
    var s := DecimalString(n);
    if n >= 10 {
      ValueOfDecimal(n / 10);
      assert s[..|s| - 1] == DecimalString(n / 10);
    }
  }

  /** A run of digits followed by a non-digit (or nothing) is exactly the digit prefix. */
  lemma {:induction false} DigitPrefixOf(z: string, rest: string, radix: nat)
    requires AllDigits(z, radix)
    requires rest == [] || !IsDigit(rest[0], radix)
    ensures DigitPrefix(z + rest, radix) == z
  {
    if z != [] {
      assert (z + rest)[1..] == z[1..] + rest;
      DigitPrefixOf(z[1..], rest, radix);
      assert [z[0]] + z[1..] == z;
    } else {
      assert z + rest == rest;
    }
  }

  /** Text that starts with a decimal digit (and no hexadecimal prefix) is read from its digits alone. */
  lemma ParseFromDigit(s: string, autoRadix: bool)
    requires s != [] && '0' <= s[0] <= '9'
    requires autoRadix && |s| >= 2 && s[0] == '0' ==> s[1] != 'x' && s[1] != 'X'
    ensures ParseInt(s, autoRadix) == Int(ValueOf(DigitPrefix(s, 10), 10))
  {
    assert !IsWhiteSpace(s[0]);
    assert TrimStart(s) == s;
    assert ParseInt(s, autoRadix) == ReadUnsigned(s, autoRadix);
    assert DigitPrefix(s, 10) != [];
  }

  /**
   * `parseInt` reads a decimal number back from its text, whatever
   * non-digit text follows it.
   */
  lemma ParseDecimal(n: nat, rest: string)
    requires rest == [] || !IsDigit(rest[0], 10)
    ensures ParseInt(DecimalString(n) + rest, false) == Int(n)
  {
    var d := DecimalString(n);
    var s := d + rest;
    DecimalDigits(n);
    assert s[0] == d[0];
    ParseFromDigit(s, false);
    DigitPrefixOf(d, rest, 10);
    ValueOfDecimal(n);
  }

  /** A leading minus sign negates what follows it. */
  lemma ParseMinus(d: string, autoRadix: bool)
    ensures ParseInt("-" + d, autoRadix) == Negate(ReadUnsigned(d, autoRadix))
  {
    var s := "-" + d;
    assert s[0] == '-' && s[1..] == d;
    assert !IsWhiteSpace(s[0]);
    assert TrimStart(s) == s;
  }

  /** The text of a negative integer reads back as that integer. */
  lemma ParseNegativeString(m: nat)
    requires m > 0
    ensures ParseInt("-" + DecimalString(m), false) == Int(-(m as int))
  {
    var d := DecimalString(m);
    ParseDecimal(m, []);
    assert d + [] == d;
    ParseMinus(d, false);
    DecimalDigits(m);
    assert ParseInt(d, false) == ReadUnsigned(d, false) by {
      assert !IsWhiteSpace(d[0]);
    }
  }

  /** `parseInt(String(i), 10) == i` for every integer. */
  lemma ParseIntString(i: int)
    ensures ParseInt(IntString(i), false) == Int(i)
  {
    if i < 0 {
      ParseNegativeString(-i);
    } else {
      ParseDecimal(i, []);
      assert DecimalString(i) + [] == DecimalString(i);
    }
  }

  /**
   * `parseInt` without a radix reads the same decimal number as with radix
   * 10 unless the text starts with `0x` or `0X`.
   */
  lemma ParseAutoDecimal(n: nat, rest: string)
    requires rest == [] || !IsDigit(rest[0], 10)
    requires n == 0 ==> rest == [] || (rest[0] != 'x' && rest[0] != 'X')
    ensures ParseInt(DecimalString(n) + rest, true) == Int(n)
  {
    var d := DecimalString(n);
    var s := d + rest;
    DecimalDigits(n);
    assert s[0] == d[0];
    if |s| >= 2 && s[0] == '0' {
      assert d == "0";
      assert s[1] == rest[0];
    }
    ParseFromDigit(s, true);
    DigitPrefixOf(d, rest, 10);
    ValueOfDecimal(n);
  }
}
