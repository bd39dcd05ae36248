// Exact decimal numbers as the big.js library represents them: an integer
// coefficient and a count of fractional digits, normalised so that the
// coefficient carries no trailing zero.
module Decimal {
  import opened Wrappers
  import Text

  function Pow10(e: nat): (p: nat)
    ensures p >= 1
  {
    if e == 0 then 1 else 10 * Pow10(e - 1)
  }

  lemma {:induction false} Pow10Add(a: nat, b: nat)
    ensures Pow10(a + b) == Pow10(a) * Pow10(b)
    decreases a
  {
    if a > 0 {
      Pow10Add(a - 1, b);
    }
  }

  /** The number `m / 10^e`. */
  datatype Dec = Dec(m: int, e: nat)

  /** Normal form: no trailing zero in the coefficient, so zero is `Dec(0, 0)`. */
  predicate Canonical(d: Dec) { d.e == 0 || d.m % 10 != 0 }

  type Decimal = d: Dec | Canonical(d) witness Dec(0, 0)

  const Zero: Decimal := Dec(0, 0)

  function FromInt(i: int): Decimal { Dec(i, 0) }

  /** `a` and `b` denote the same number. */
  predicate Same(a: Dec, b: Dec) { a.m * Pow10(b.e) == b.m * Pow10(a.e) }

  /** Strips trailing zeros from the coefficient. */
  function Normalize(d: Dec): (r: Decimal)
    ensures Same(r, d)
    ensures r.e <= d.e
    decreases d.e
  {
    if d.e == 0 || d.m % 10 != 0 then d
    else
      var r := Normalize(Dec(d.m / 10, d.e - 1));
      assert d.m == 10 * (d.m / 10);
      r
  }

  /** The coefficient of `d` rewritten with `e` fractional digits. */
  function CoefAt(d: Dec, e: nat): (c: int)
    requires d.e <= e
    ensures c == d.m * Pow10(e - d.e)
  {
    d.m * Pow10(e - d.e)
  }

  function MaxE(a: Dec, b: Dec): nat { if a.e < b.e then b.e else a.e }

  /** Rewriting at more fractional digits keeps the value. */
  lemma SameAt(d: Dec, e: nat)
    requires d.e <= e
    ensures Same(Dec(CoefAt(d, e), e), d)
  {
    Pow10Add(e - d.e, d.e);
  }

  function Add(a: Dec, b: Dec): (r: Decimal)
  {
    var e := MaxE(a, b);
    Normalize(Dec(CoefAt(a, e) + CoefAt(b, e), e))
  }

  function Neg(a: Dec): Dec { Dec(-a.m, a.e) }

  function Sub(a: Dec, b: Dec): (r: Decimal) { Add(a, Neg(b)) }

  /** Three-way comparison, as big.js `cmp`. */
  function Cmp(a: Dec, b: Dec): (r: int)
    ensures r == 0 <==> Same(a, b)
    ensures -1 <= r <= 1
  {
    var e := MaxE(a, b);
    SameAtCommon(a, b, e);
    var x := CoefAt(a, e);
    var y := CoefAt(b, e);
    if x < y then -1 else if x > y then 1 else 0
  }

  lemma SameAtCommon(a: Dec, b: Dec, e: nat)
    requires a.e <= e && b.e <= e
    ensures Same(a, b) <==> CoefAt(a, e) == CoefAt(b, e)
  {
    Pow10Add(e - a.e, a.e);
    Pow10Add(e - b.e, b.e);
    CrossMul(a.m, b.m, Pow10(e - a.e), Pow10(a.e), Pow10(e - b.e), Pow10(b.e), Pow10(e));
  }

  /** Two fractions over the same denominator `P = pa * qa = pb * qb` compare by cross-multiplying. */
  lemma CrossMul(m1: int, m2: int, pa: int, qa: int, pb: int, qb: int, P: int)
    requires pa > 0 && qa > 0 && pb > 0 && qb > 0
    requires pa * qa == P && pb * qb == P
    ensures m1 * qb == m2 * qa <==> m1 * pa == m2 * pb
  {
    var x, y, u, v := m1 * qb, m2 * qa, m1 * pa, m2 * pb;
    Rearrange(m1, qb, pa, pb);
    Rearrange(m2, qa, pb, pa);
    assert pb * pa == pa * pb;
    assert pa * pb > 0;
    if x == y {
      MulCancel(u, v, P);
    }
    if u == v {
      MulCancel(x, y, pa * pb);
    }
  }

  lemma Rearrange(m: int, q: int, p: int, r: int)
    ensures (m * q) * (p * r) == (m * p) * (r * q)
  {
    assert (m * q) * (p * r) == m * (q * (p * r));
    assert (m * p) * (r * q) == m * (p * (r * q));
  }

  lemma MulCancel(x: int, y: int, p: int)
    requires p > 0 && x * p == y * p
    ensures x == y
  {
  }

  predicate Less(a: Dec, b: Dec) { Cmp(a, b) < 0 }

  lemma PositiveProduct(a: int, b: int)
    requires a >= 1 && b >= 1
    ensures a * b >= 1
  {
  }

  /** A positive number with at most `k` fractional digits is not below `10^-k`. */
  lemma AtLeastUnitFraction(d: Dec, k: nat)
    requires d.m > 0 && d.e <= k
    ensures !Less(d, Dec(1, k))
  {
    assert MaxE(d, Dec(1, k)) == k;
    PositiveProduct(d.m, Pow10(k - d.e));
    assert CoefAt(Dec(1, k), k) == 1;
  }

  predicate IsZero(d: Dec) { d.m == 0 }

  /** The number is a whole number. */
  predicate IsInteger(d: Decimal) { d.e == 0 }

  /**
   * `countDecimals`: the number of digits after the decimal point in big.js's
   * plain notation. For a normalised number that is its fractional-digit count.
   */
  function CountDecimals(d: Decimal): (n: nat)
  {
    d.e
  }

  /**
   * `countDecimals` throws when big.js prints the number in exponential
   * notation although it is whole: `toString()` then differs from
   * `toFixed(0)`, and `toFixed()` has no point to split at.
   */
  predicate CountDecimalsThrows(d: Decimal)
  {
    IsInteger(d) && Exponential(d)
  }

  /** A positive number of `k + 1` or more digits is at least `10^k`, and conversely. */
  lemma {:induction false} DigitCount(n: nat, k: nat)
    requires n > 0
    ensures |Text.NatToString(n)| > k <==> n >= Pow10(k)
    decreases n
  {
    if k > 0 {
      assert Pow10(k) == 10 * Pow10(k - 1);
      if n < 10 {
        assert Pow10(k) >= 10;
      } else {
        DigitCount(n / 10, k - 1);
        assert Text.NatToString(n) == Text.NatToString(n / 10) + [Text.DigitChar(n % 10)];
        assert n / 10 >= Pow10(k - 1) <==> n >= 10 * Pow10(k - 1);
      }
    }
  }

  /** `countDecimals` throws exactly for whole numbers of magnitude `10^21` or more. */
  lemma CountDecimalsThrowsIff(d: Decimal)
    ensures CountDecimalsThrows(d) <==> d.e == 0 && Abs(d.m) >= Pow10(21)
  {
    if d.m != 0 {
      DigitCount(Abs(d.m), 21);
    }
  }

  /** `n * 10^k` is a whole number. */
  predicate IntegralAfterShift(d: Dec, k: nat) { d.e <= k || d.m % Pow10(d.e - k) == 0 }

  /**
   * CountDecimals is the least shift that makes the number whole: shifting by
   * it gives a whole number, shifting by one digit less does not.
   */
  lemma CountDecimalsIsLeast(d: Decimal)
    ensures IntegralAfterShift(d, CountDecimals(d))
    ensures CountDecimals(d) > 0 ==> !IntegralAfterShift(d, CountDecimals(d) - 1)
  {
    if d.e > 0 {
      assert Pow10(d.e - (d.e - 1)) == 10;
    }
  }

  /** Integer division truncating toward zero, as JavaScript and big.js divide. */
  function TruncDiv(a: int, b: int): (q: int)
    requires b != 0
  {
    var q0 := (if a < 0 then -a else a) / (if b < 0 then -b else b);
    if (a < 0) == (b < 0) then q0 else -q0
  }

  /** The remainder with the sign of the dividend. */
  function TruncRem(a: int, b: int): (r: int)
    requires b != 0
  {
    a - b * TruncDiv(a, b)
  }

  lemma TruncRemBounds(a: int, b: int)
    requires b != 0
    ensures var r := TruncRem(a, b);
      Abs(r) < Abs(b)
      && (a >= 0 ==> r >= 0) && (a <= 0 ==> r <= 0)
      && (r == 0 <==> a % b == 0)
  {
    TruncRemMagnitude(a, b);
    DividesMagnitude(a, b);
  }

  /** The truncating remainder is the remainder of the magnitudes, with the sign of the dividend. */
  lemma TruncRemMagnitude(a: int, b: int)
    requires b != 0
    ensures 0 <= Abs(a) % Abs(b) < Abs(b)
    ensures TruncRem(a, b) == if a < 0 then -(Abs(a) % Abs(b)) else Abs(a) % Abs(b)
  {
    var ab: int, bb: int := Abs(a), Abs(b);
    var q0: int, r0: int := ab / bb, ab % bb;
    assert ab == bb * q0 + r0;
    var bq := b * q0;
    assert bq == (if b < 0 then -(bb * q0) else bb * q0);
    if (a < 0) == (b < 0) {
      assert TruncDiv(a, b) == q0;
      assert TruncRem(a, b) == a - bq;
    } else {
      assert TruncDiv(a, b) == -q0;
      assert b * -q0 == -bq;
      assert TruncRem(a, b) == a + bq;
    }
  }

  /** `b` divides `a` exactly when the magnitude of `b` divides that of `a`. */
  lemma DividesMagnitude(a: int, b: int)
    requires b != 0
    ensures Abs(a) % Abs(b) == 0 <==> a % b == 0
  {
    var ab: int, bb: int := Abs(a), Abs(b);
    var q0 := ab / bb;
    if ab % bb == 0 {
      assert ab == bb * q0;
      var k := if (a < 0) == (b < 0) then q0 else -q0;
      assert a == b * k;
      DivExactInt(a, b, k);
    }
    if a % b == 0 {
      var k := a / b;
      assert a == b * k;
      AbsMul(b, k);
      DivExactInt(ab, bb, Abs(k));
    }
  }

  function Abs(i: int): nat { if i < 0 then -i else i }

  /** For a dividend that is not negative and a positive divisor the truncating remainder is the ordinary one. */
  lemma TruncRemNatural(a: int, b: int)
    requires a >= 0 && b > 0
    ensures TruncRem(a, b) == a % b
  {
  }

  lemma AbsCases(i: int)
    ensures Abs(i) == if i > 0 then i else 0 - i
  {
  }

  lemma AbsMul(x: int, y: int)
    ensures Abs(x * y) == Abs(x) * Abs(y)
  {
    if x < 0 && y < 0 {
      assert x * y == (-x) * (-y);
    } else if x < 0 && y > 0 {
      assert x * y == -((-x) * y);
    } else if x > 0 && y < 0 {
      assert x * y == -(x * (-y));
    }
  }

  lemma MulAtLeast(y: int, d: int)
    requires d != 0
    ensures Abs(y * d) >= Abs(y)
  {
    AbsMul(y, d);
    var ay, ad := Abs(y), Abs(d);
    assert ay * ad == ay * (ad - 1) + ay;
  }

  /** A multiple of `y` leaves no remainder (Euclidean division, any signs). */
  lemma DivExactInt(x: int, y: int, k: int)
    requires y != 0 && x == y * k
    ensures x % y == 0
  {
    var q, r := x / y, x % y;
    assert x == y * q + r;
    var d := k - q;
    assert y * d == y * k - y * q;
    assert y * d == r;
    if d != 0 {
      MulAtLeast(y, d);
    }
  }

  /**
   * big.js `mod`: the remainder of `a / b` with the sign of `a`. Division by
   * zero throws in big.js, so `b` must not be zero.
   */
  function Mod(a: Dec, b: Dec): (r: Decimal)
    requires !IsZero(b)
  {
    var e := MaxE(a, b);
    Normalize(Dec(TruncRem(CoefAt(a, e), CoefAt(b, e)), e))
  }

  /** `a` is a whole multiple of `b`. */
  predicate MultipleOf(a: Dec, b: Dec)
  {
    var e := MaxE(a, b);
    CoefAt(b, e) != 0 && CoefAt(a, e) % CoefAt(b, e) == 0
  }

  lemma {:induction false} NormalizeZero(d: Dec)
    ensures IsZero(Normalize(d)) <==> d.m == 0
    decreases d.e
  {
    if d.e != 0 && d.m % 10 == 0 {
      NormalizeZero(Dec(d.m / 10, d.e - 1));
    }
  }

  /** The remainder is zero exactly when `a` is a whole multiple of `b`. */
  lemma ModZeroIffMultiple(a: Dec, b: Dec)
    requires !IsZero(b)
    ensures IsZero(Mod(a, b)) <==> MultipleOf(a, b)
  {
    var e := MaxE(a, b);
    Pow10Add(e - b.e, b.e);
    assert CoefAt(b, e) != 0;
    TruncRemBounds(CoefAt(a, e), CoefAt(b, e));
    NormalizeZero(Dec(TruncRem(CoefAt(a, e), CoefAt(b, e)), e));
  }

  /** Decimal value of a digit string. */
  function DigitsToInt(s: string): nat
    requires Text.AllDigits(s)
  {
    Text.DigitsValue(s)
  }

  /**
   * Reads the plain decimal notation big.js accepts before an exponent: an
   * optional `-`, then digits with an optional fraction (`12`, `12.`,
   * `12.5`) or a fraction alone (`.5`); anything else is `None`.
   */
  function Parse(s: string): (r: Option<Decimal>)
  {
    var neg := |s| > 0 && s[0] == '-';
    var body := if neg then s[1..] else s;
    FromParts(neg, IntPart(body), FracPart(body))
  }

  /** The digits before the first point, or the whole text without one. */
  function IntPart(body: string): string
  {
    var dot := Text.IndexOf(body, '.');
    if dot == -1 then body else body[..dot]
  }

  /** The digits after the first point, or nothing without one. */
  function FracPart(body: string): string
  {
    var dot := Text.IndexOf(body, '.');
    if dot == -1 then "" else body[dot + 1..]
  }

  /** The number with a sign, whole digits and fractional digits, if both runs are digits and not both empty. */
  function FromParts(neg: bool, intPart: string, fracPart: string): (r: Option<Decimal>)
  {
    if !Text.AllDigits(intPart) || !Text.AllDigits(fracPart) || (intPart == "" && fracPart == "") then None
    else
      var coef := DigitsToInt(intPart) * Pow10(|fracPart|) + DigitsToInt(fracPart);
      Some(Normalize(Dec(if neg then -coef else coef, |fracPart|)))
  }

  predicate IsExpMark(c: char) { c == 'e' || c == 'E' }

  /** The position of the first exponent marker `e` or `E`, or -1 without one. */
  function ExpIndex(s: string): (k: int)
    ensures -1 <= k < |s|
    ensures k >= 0 ==> IsExpMark(s[k])
    ensures forall i :: 0 <= i < |s| && (k == -1 || i < k) ==> !IsExpMark(s[i])
  {
    if s == [] then -1
    else if IsExpMark(s[0]) then 0
    else
      var k := ExpIndex(s[1..]);
      if k == -1 then -1 else k + 1
  }

  /** The exponent after the marker: an optional sign and at least one digit. */
  function ExpValue(t: string): (r: Option<int>)
  {
    var signed := |t| > 0 && (t[0] == '-' || t[0] == '+');
    var digits := if signed then t[1..] else t;
    if digits == "" || !Text.AllDigits(digits) then None
    else
      var n: int := Text.DigitsValue(digits);
      Some(if signed && t[0] == '-' then -n else n)
  }

  /** `d * 10^x` in normal form. */
  function Scale(d: Dec, x: int): (r: Decimal)
    ensures x >= 0 ==> Same(r, Dec(d.m * Pow10(x), d.e))
    ensures x < 0 ==> Same(r, Dec(d.m, d.e - x))
  {
    if x >= 0 then Normalize(Dec(d.m * Pow10(x), d.e)) else Normalize(Dec(d.m, d.e - x))
  }

  /**
   * `new Big(s)` on text: plain decimal notation followed by an optional
   * exponent `e` or `E` with an optional sign (`1e3`, `2E-2`, `.5e+1`).
   * Anything else makes big.js throw; that is `None`.
   */
  function ParseBig(s: string): (r: Option<Decimal>)
    ensures ExpIndex(s) == -1 ==> r == Parse(s)
  {
    var k := ExpIndex(s);
    if k == -1 then Parse(s)
    else
      match (Parse(s[..k]), ExpValue(s[k + 1..]))
      case (Some(d), Some(x)) => Some(Scale(d, x))
      case _ => None
  }

  /** The first marker of `a + b` is the one starting `b` when `a` has none. */
  lemma {:induction false} ExpIndexAfter(a: string, b: string)
    requires ExpIndex(a) == -1 && b != [] && IsExpMark(b[0])
    ensures ExpIndex(a + b) == |a|
  {
    if a != [] {
      assert (a + b)[1..] == a[1..] + b;
      assert ExpIndex(a[1..]) == -1;
      ExpIndexAfter(a[1..], b);
    }
  }

  /** A marker with a readable exponent after plain notation scales the number that notation reads as. */
  lemma ExponentAfter(m: string, d: Decimal, tail: string, x: int)
    requires ExpIndex(m) == -1 && Parse(m) == Some(d)
    requires tail != [] && IsExpMark(tail[0]) && ExpValue(tail[1..]) == Some(x)
    ensures ParseBig(m + tail) == Some(Scale(d, x))
  {
    ExpIndexAfter(m, tail);
    var s := m + tail;
    assert s[..|m|] == m;
    assert s[|m| + 1..] == tail[1..];
  }

  /** An exponent is its digits' value, negated after a `-`. */
  lemma ExpValueOf(digits: string)
    requires digits != "" && Text.AllDigits(digits)
    ensures ExpValue(digits) == Some(Text.DigitsValue(digits) as int)
    ensures ExpValue("+" + digits) == Some(Text.DigitsValue(digits) as int)
    ensures ExpValue("-" + digits) == Some(-(Text.DigitsValue(digits) as int))
  {
    assert ("+" + digits)[1..] == digits;
    assert ("-" + digits)[1..] == digits;
  }

  /** A non-empty run of digits reads as the whole number it spells. */
  lemma ParseWhole(s: string)
    requires s != "" && Text.AllDigits(s)
    ensures Parse(s) == Some(FromInt(Text.DigitsValue(s)))
  {
    assert forall i :: 0 <= i < |s| ==> s[i] != '.';
    assert IntPart(s) == s && FracPart(s) == "";
  }

  /** big.js reads `1e3` as 1000 and `2E-2` as 0.02. */
  lemma BigExponentExamples()
    ensures ParseBig("1e3") == Some(FromInt(1000))
    ensures ParseBig("2E-2").Some? && ParseBig("2E-2").value == Dec(2, 2)
  {
    hide ParseBig, Parse, ExpValue, IntPart, FracPart, FromParts, ParseNumber;
    ParseWhole("1");
    ParseWhole("2");
    ExpValueOf("3");
    ExpValueOf("2");
    assert "e3"[1..] == "3" && "E-2"[1..] == "-" + "2";
    ExponentAfter("1", FromInt(1), "e3", 3);
    ExponentAfter("2", FromInt(2), "E-2", -2);
    assert "1" + "e3" == "1e3" && "2" + "E-2" == "2E-2";
    assert Pow10(3) == 1000;
  }

  /** `Number` reads a `+` sign and hexadecimal, which big.js refuses. */
  lemma NumberSyntaxExamples()
    ensures ParseNumber("+5") == Some(FromInt(5))
    ensures ParseNumber("0x10") == Some(FromInt(16))
  {
    hide ParseBig, Parse, ExpValue, IntPart, FracPart, FromParts, Normalize, Scale;
    ParseWhole("5");
    assert "+5"[1..] == "5";
    assert ParseNumber("+5") == ParseBig("5");
    assert RadixValue("10", 16) == 16 by {
      assert "10"[..1] == "1" && "1"[..0] == "";
    }
    assert ParseNumber("0x10") == Some(FromInt(16)) by {
      assert "0x10"[2..] == "10";
    }
  }

  /** A second sign, or a sign before `0x`, makes `Number` NaN; big.js refuses `+` and `0x` altogether. */
  lemma NumberSignExamples()
    ensures ParseNumber("+-5").None? && ParseNumber("-0x10").None?
    ensures ParseBig("+5").None? && ParseBig("0x10").None?
  {
    hide ParseBig, Parse, ExpValue, IntPart, FracPart, FromParts, Normalize, Scale, RadixValue;
    assert ParseNumber("+-5").None?;
    assert ParseNumber("-0x10") == ParseBig("-0x10");
    assert !Text.AllDigits("+5") by { assert !Text.IsDigit("+5"[0]); }
    assert !Text.AllDigits("0x10") by { assert !Text.IsDigit("0x10"[1]); }
    assert "-0x10"[1..] == "0x10";
    NotPlainNotBig("+5");
    NotPlainNotBig("0x10");
    NotPlainNotBig("-0x10");
  }

  /** Text without an exponent marker or a point, whose unsigned part is not all digits, is no big.js number. */
  lemma NotPlainNotBig(s: string)
    requires ExpIndex(s) == -1 && '.' !in s
    requires !Text.AllDigits(if |s| > 0 && s[0] == '-' then s[1..] else s)
    ensures ParseBig(s).None?
  {
    var body := if |s| > 0 && s[0] == '-' then s[1..] else s;
    assert '.' !in body;
    assert IntPart(body) == body;
  }

  /** The value of a digit in bases up to 16, or -1 for any other character. */
  function DigitValue(c: char): (v: int)
    ensures -1 <= v < 16
    ensures Text.IsDigit(c) ==> v == c as int - '0' as int
  {
    if '0' <= c <= '9' then c as int - '0' as int
    else if 'a' <= c <= 'f' then c as int - 'a' as int + 10
    else if 'A' <= c <= 'F' then c as int - 'A' as int + 10
    else -1
  }

  predicate RadixDigits(s: string, radix: nat)
  {
    forall i :: 0 <= i < |s| ==> 0 <= DigitValue(s[i]) < radix
  }

  /** The value of a run of digits in base `radix`, most significant first. */
  function RadixValue(s: string, radix: nat): nat
    requires RadixDigits(s, radix)
  {
    if s == [] then 0
    else
      assert 0 <= DigitValue(s[|s| - 1]);
      radix * RadixValue(s[..|s| - 1], radix) + DigitValue(s[|s| - 1])
  }

  /** In base 10 the radix reader agrees with the decimal digit reader. */
  lemma {:induction false} RadixTen(s: string)
    requires Text.AllDigits(s)
    ensures RadixDigits(s, 10) && RadixValue(s, 10) == Text.DigitsValue(s)
  {
    if s != [] {
      RadixTen(s[..|s| - 1]);
    }
  }

  /**
   * `Number(t)` on trimmed, non-empty text, with None for NaN: `0x`, `0o`
   * and `0b` (either case) introduce unsigned hexadecimal, octal and binary
   * integers; otherwise an optional `+` or `-` precedes the notation
   * big.js reads.
   */
  function ParseNumber(t: string): (r: Option<Decimal>)
  {
    if |t| >= 2 && t[0] == '0' && t[1] in "xXoObB" then
      var radix := if t[1] in "xX" then 16 else if t[1] in "oO" then 8 else 2;
      var digits := t[2..];
      if digits != "" && RadixDigits(digits, radix) then Some(FromInt(RadixValue(digits, radix))) else None
    else if |t| >= 1 && t[0] == '+' then
      if |t| >= 2 && t[1] == '-' then None else ParseBig(t[1..])
    else ParseBig(t)
  }

  /** The power of ten of the leading digit of `mag / 10^e`. */
  function SciExponent(mag: nat, e: nat): int
  {
    |Text.NatToString(mag)| - 1 - e
  }

  /** big.js and JavaScript print a non-zero number from 1e21 up, or below 1e-6, in exponential notation. */
  predicate Exponential(d: Decimal)
  {
    d.m != 0 && (SciExponent(Abs(d.m), d.e) <= -7 || SciExponent(Abs(d.m), d.e) >= 21)
  }

  /**
   * `toString` of a normalised number, as big.js and JavaScript print it:
   * plain decimal notation, or exponential notation for very large and
   * very small magnitudes.
   */
  function ToString(d: Decimal): (s: string)
    ensures |s| >= 1
  {
    var mag := Abs(d.m);
    var body :=
      if Exponential(d) then ExpNotation(mag, d.e)
      else if d.e == 0 then Text.NatToString(mag)
      else PointNotation(mag, d.e);
    if d.m < 0 then "-" + body else body
  }

  /** Text without its trailing zeros. */
  function DropTrailingZeros(s: string): (t: string)
    ensures |t| <= |s| && t == s[..|t|]
    ensures forall i :: |t| <= i < |s| ==> s[i] == '0'
    ensures t == [] || t[|t| - 1] != '0'
  {
    if s != [] && s[|s| - 1] == '0' then DropTrailingZeros(s[..|s| - 1]) else s
  }

  /**
   * `mag / 10^e` in exponential notation: the leading digit, the other
   * significant digits after a point if there are any, then `e`, the sign
   * of the exponent and its digits (`1e+21`, `1.5e-7`).
   */
  function ExpNotation(mag: nat, e: nat): (s: string)
    ensures |s| >= 1
  {
    var digits := Text.NatToString(mag);
    var x := |digits| - 1 - e;
    var rest := DropTrailingZeros(digits[1..]);
    [digits[0]] + (if rest == "" then "" else "." + rest) + "e" + (if x < 0 then "-" else "+") + Text.NatToString(Abs(x))
  }

  /** `mag / 10^e` written with a decimal point and exactly `e` fractional digits. */
  function PointNotation(mag: nat, e: nat): (s: string)
    ensures |s| >= 1
  {
    var p := Pow10(e);
    DivNat(mag, p);
    Text.NatToString(mag / p) + "." + FracDigits(mag % p, e)
  }

  lemma DivNat(a: nat, b: nat)
    requires b >= 1
    ensures a / b >= 0 && 0 <= a % b < b
  {
  }

  /** `f` written with exactly `n` digits, zero-padded on the left. */
  function FracDigits(f: nat, n: nat): (s: string)
    ensures |s| == n
    ensures Text.AllDigits(s)
    decreases n
  {
    if n == 0 then "" else FracDigits(f / 10, n - 1) + [Text.DigitChar(f % 10)]
  }

  lemma {:induction false} FracDigitsValue(f: nat, n: nat)
    requires f < Pow10(n)
    ensures Text.DigitsValue(FracDigits(f, n)) == f
    decreases n
  {
    if n > 0 {
      FracDigitsValue(f / 10, n - 1);
      var s := FracDigits(f, n);
      assert s[..|s| - 1] == FracDigits(f / 10, n - 1);
    }
  }
}
