/** The slice of JavaScript numbers the client relies on: integers or NaN, `===`,
    `parseInt(string)` with no radix, and `String(n)` for integers. */
module JsNumbers {
  import Text

  /** A number that is an integer, or NaN. */
  datatype JsNumber = NaN | Num(value: int)

  /** `a === b`: NaN is equal to nothing, itself included. */
  predicate StrictEquals(a: JsNumber, b: JsNumber) {
    a.Num? && b.Num? && a.value == b.value
  }

  /** Value of `c` as a digit in base `radix` (10 or 16), or -1 when it is not one. */
  function DigitValue(c: char, radix: nat): (d: int)
    ensures -1 <= d < radix || (radix < 10 && d < 10) || (radix < 16 && d < 16)
  {
    if '0' <= c <= '9' then c as int - '0' as int
    else if radix == 16 && 'a' <= c <= 'f' then c as int - 'a' as int + 10
    else if radix == 16 && 'A' <= c <= 'F' then c as int - 'A' as int + 10
    else -1
  }

  predicate IsDigit(c: char, radix: nat) {
    0 <= DigitValue(c, radix) < radix
  }

  /** The longest prefix of `s` made of base-`radix` digits. */
  function DigitPrefix(s: string, radix: nat): (z: string)
    ensures |z| <= |s| && z == s[..|z|]
    ensures forall i :: 0 <= i < |z| ==> IsDigit(z[i], radix)
    ensures |z| == |s| || !IsDigit(s[|z|], radix)
  {
    if s != [] && IsDigit(s[0], radix) then [s[0]] + DigitPrefix(s[1..], radix) else []
  }

  /** The number a digit string denotes, most significant digit first. */
  function DigitsValue(z: string, radix: nat): nat
    requires forall i :: 0 <= i < |z| ==> IsDigit(z[i], radix)
  {
    if z == [] then 0
    else
      var init := z[..|z| - 1];
      assert forall i :: 0 <= i < |init| ==> init[i] == z[i];
      var d := DigitValue(z[|z| - 1], radix);
      assert IsDigit(z[|z| - 1], radix);
      var high: nat := DigitsValue(init, radix);
      high * radix + d
  }

  /** `parseInt(s)`: skip leading whitespace, read an optional sign, then the unsigned part. */
  function ParseInt(s: string): (x: JsNumber)
    ensures Text.AllSpace(s) ==> x == NaN
    ensures x.Num? && x.value < 0 ==> Text.TrimStart(s)[0] == '-'
  {
    var t := Text.TrimStart(s);
    if t != [] && t[0] == '-' then Negate(ParseUnsigned(t[1..]))
    else if t != [] && t[0] == '+' then ParseUnsigned(t[1..])
    else ParseUnsigned(t)
  }

  /** Unary minus; NaN stays NaN. */
  function Negate(x: JsNumber): JsNumber {
    match x
    case NaN => NaN
    case Num(m) => Num(-m)
  }

  /** The unsigned part: a `0x`/`0X` prefix selects base 16; the longest run of digits is read
      and the rest ignored; no digit at all gives NaN. */
  function ParseUnsigned(u: string): (x: JsNumber)
    ensures x.Num? ==> x.value >= 0
  {
    var hex := |u| >= 2 && u[0] == '0' && (u[1] == 'x' || u[1] == 'X');
    var radix := if hex then 16 else 10;
    var z := DigitPrefix(if hex then u[2..] else u, radix);
    if z == [] then NaN else Num(DigitsValue(z, radix))
  }

  function DigitChar(d: nat): (c: char)
    requires d < 10
    ensures IsDigit(c, 10) && DigitValue(c, 10) == d
  {
    ('0' as int + d) as char
  }

  /** Decimal digits of `n`, without leading zeros. */
  function NatText(n: nat): (z: string)
    ensures |z| > 0
    ensures forall i :: 0 <= i < |z| ==> IsDigit(z[i], 10)
  {
    if n < 10 then [DigitChar(n)] else NatText(n / 10) + [DigitChar(n % 10)]
  }

  /** `String(n)` for an integer: an optional minus sign and the decimal digits. */
  function DecimalText(n: int): (t: string)
    ensures t != [] && (t[0] == '-' <==> n < 0)
  {
    assert NatText(if n < 0 then -n else n)[0] != '-' by {
      assert IsDigit(NatText(if n < 0 then -n else n)[0], 10);
    }
    if n < 0 then "-" + NatText(-n) else NatText(n)
  }

  /** `String(x)` for an integer or NaN. */
  function NumberText(x: JsNumber): (t: string)
    ensures x.NaN? <==> t == "NaN"
    ensures t != []
    ensures x.Num? ==> (t[0] == '-' <==> x.value < 0)
  {
    match x
    case NaN => "NaN"
    case Num(n) => DecimalText(n)
  }

  lemma {:induction false} NatTextValue(n: nat)
    ensures DigitsValue(NatText(n), 10) == n
    decreases n
  {
    if n >= 10 {
      var z := NatText(n);
      assert z[..|z| - 1] == NatText(n / 10);
      NatTextValue(n / 10);
    }
  }

  /** `parseInt` reads back the decimal text of every integer. */
  lemma ParseIntRoundTrip(n: int)
    ensures ParseInt(DecimalText(n)) == Num(n)
  {
    var m: nat := if n < 0 then -n else n;
    var s := DecimalText(n);
    assert s[0] == '-' || IsDigit(s[0], 10);
    TrimStartKeeps(s);
    ParseUnsignedDecimal(NatText(m));
    NatTextValue(m);
    if n < 0 {
      assert s[1..] == NatText(m);
    }
  }

  /** Text that does not start with whitespace is not trimmed. */
  lemma TrimStartKeeps(s: string)
    requires s != [] && !Text.IsSpace(s[0])
    ensures Text.TrimStart(s) == s
  {
  }

  /** A non-empty run of decimal digits reads as its decimal value. */
  lemma ParseUnsignedDecimal(u: string)
    requires u != []
    requires forall i :: 0 <= i < |u| ==> IsDigit(u[i], 10)
    ensures ParseUnsigned(u) == Num(DigitsValue(u, 10))
  {
    var hex := |u| >= 2 && u[0] == '0' && (u[1] == 'x' || u[1] == 'X');
    assert !hex by {
      if |u| >= 2 {
        assert IsDigit(u[1], 10);
      }
    }
    DigitPrefixAll(u, 10);
  }

  lemma {:induction false} DigitPrefixAll(s: string, radix: nat)
    requires forall i :: 0 <= i < |s| ==> IsDigit(s[i], radix)
    ensures DigitPrefix(s, radix) == s
    decreases |s|
  {
    if s != [] {
      DigitPrefixAll(s[1..], radix);
    }
  }

  /** Text with no decimal digit anywhere (such as "abc" or "NaN") parses to NaN. */
  lemma ParseIntNoDigits(s: string)
    requires forall i :: 0 <= i < |s| ==> !('0' <= s[i] <= '9')
    ensures ParseInt(s) == NaN
  {
    var t := Text.TrimStart(s);
    assert t == s[|s| - |t|..];
    if t != [] && (t[0] == '-' || t[0] == '+') {
      ParseUnsignedNoDigit(t[1..]);
    } else {
      ParseUnsignedNoDigit(t);
    }
  }

  /** Text that does not start with a decimal digit has no unsigned value. */
  lemma ParseUnsignedNoDigit(u: string)
    requires u == [] || !('0' <= u[0] <= '9')
    ensures ParseUnsigned(u) == NaN
  {
  }

  /** `parseInt(n)` on a number converts it to text first; for integers and NaN this gives the
      number back, so the lookup's `parseInt(id)` keeps the caller's id. */
  lemma ParseIntOfNumber(x: JsNumber)
    ensures ParseInt(NumberText(x)) == x
  {
    match x
    case NaN => ParseIntNoDigits("NaN");
    case Num(n) => ParseIntRoundTrip(n);
  }
}
