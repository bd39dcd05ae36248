// Printing a number and reading the text back: `toString` followed by
// `new Big(text)` gives the number back, in plain and in exponential
// notation alike.
module NumberText {
  import opened Wrappers
  import Text
  import opened Decimal

  // -------------------------------------------------------------------
  // Facts about digit strings and normal forms

  /** Digits after digits: the first run is worth its value shifted by the length of the second. */
  lemma {:induction false} DigitsAppend(a: string, b: string)
    requires Text.AllDigits(a) && Text.AllDigits(b)
    ensures Text.AllDigits(a + b)
    ensures Text.DigitsValue(a + b) == Text.DigitsValue(a) * Pow10(|b|) + Text.DigitsValue(b)
    decreases |b|
  {
    hide Text.IsDigit;
    if b == [] {
      assert a + b == a;
    } else {
      var init := b[..|b| - 1];
      DigitsAppend(a, init);
      assert (a + b)[..|a + b| - 1] == a + init;
      assert (a + b)[|a + b| - 1] == b[|b| - 1];
      var c := b[|b| - 1] as int - '0' as int;
      var x, y, p := Text.DigitsValue(a), Text.DigitsValue(init), Pow10(|init|);
      assert Text.DigitsValue(a + b) == 10 * Text.DigitsValue(a + init) + c;
      assert Text.DigitsValue(b) == 10 * y + c;
      assert Pow10(|b|) == 10 * p;
      ShiftDigit(x, y, p, c);
    }
  }

  lemma ShiftDigit(x: int, y: int, p: int, c: int)
    ensures 10 * (x * p + y) + c == x * (10 * p) + (10 * y + c)
  {
  }

  /** A run of zeros is worth nothing. */
  lemma {:induction false} ZerosValue(z: string)
    requires forall i :: 0 <= i < |z| ==> z[i] == '0'
    ensures Text.AllDigits(z) && Text.DigitsValue(z) == 0
    decreases |z|
  {
    if z != [] {
      ZerosValue(z[..|z| - 1]);
    }
  }

  /** `Same` is transitive. */
  lemma SameTrans(a: Dec, b: Dec, c: Dec)
    requires Same(a, b) && Same(b, c)
    ensures Same(a, c)
  {
    var e := if MaxE(a, b) < c.e then c.e else MaxE(a, b);
    SameAtCommon(a, b, e);
    SameAtCommon(b, c, e);
    SameAtCommon(a, c, e);
  }

  /** Two normal forms of the same number are equal. */
  lemma CanonicalUnique(a: Decimal, b: Decimal)
    requires Same(a, b)
    ensures a == b
  {
    ShorterDiffers(a, b);
    ShorterDiffers(b, a);
    if a.e == b.e {
      MulCancel(a.m, b.m, Pow10(a.e));
    }
  }

  /** A number written with more fractional digits than another form of it is not in normal form. */
  lemma ShorterDiffers(a: Dec, b: Dec)
    ensures a.e < b.e && Same(a, b) ==> !Canonical(b)
  {
    if a.e < b.e && Same(a, b) {
      var k := b.e - a.e;
      var pa, pk, pk1 := Pow10(a.e), Pow10(k), Pow10(k - 1);
      Pow10Add(k, a.e);
      assert Pow10(b.e) == pk * pa;
      assert pk == 10 * pk1 && pa >= 1;
      assert a.m * (pk * pa) == b.m * pa;
      Regroup(a.m, pk, pa);
      MulCancel(b.m, a.m * pk, pa);
      assert b.m == a.m * (pk1 * 10);
      Regroup(a.m, pk1, 10);
      TimesTen(a.m * pk1);
      assert !Canonical(b);
    }
  }

  lemma TimesTen(x: int)
    ensures (x * 10) % 10 == 0
  {
  }

  lemma Regroup(x: int, y: int, z: int)
    ensures x * (y * z) == (x * y) * z
  {
  }

  /** Multiplying both coefficients keeps two numbers the same. */
  lemma SameScaled(a: Dec, b: Dec, k: int)
    requires Same(a, b)
    ensures Same(Dec(a.m * k, a.e), Dec(b.m * k, b.e))
  {
    hide Pow10;
    Commute(a.m, k, Pow10(b.e));
    Commute(b.m, k, Pow10(a.e));
  }

  lemma Commute(x: int, y: int, z: int)
    ensures (x * y) * z == (x * z) * y
  {
  }

  /** Adding fractional digits to both keeps two numbers the same. */
  lemma SameShifted(a: Dec, b: Dec, k: nat)
    requires Same(a, b)
    ensures Same(Dec(a.m, a.e + k), Dec(b.m, b.e + k))
  {
    hide Pow10;
    Pow10Add(b.e, k);
    Pow10Add(a.e, k);
    Regroup(a.m, Pow10(b.e), Pow10(k));
    Regroup(b.m, Pow10(a.e), Pow10(k));
  }

  /** A coefficient with a factor `10^z`, `z > 0`, ends in a zero. */
  lemma TrailingZeroFactor(c: int, z: nat)
    ensures z > 0 ==> (c * Pow10(z)) % 10 == 0
  {
    if z > 0 {
      assert c * Pow10(z) == (c * Pow10(z - 1)) * 10;
    }
  }

  // -------------------------------------------------------------------
  // Reading printed text

  /** Text made of digits, points and minus signs has no exponent marker. */
  lemma NoMark(s: string)
    requires forall i :: 0 <= i < |s| ==> Text.IsDigit(s[i]) || s[i] == '.' || s[i] == '-'
    ensures ExpIndex(s) == -1
  {
  }

  /**
   * Signed digits with an optional fraction read as the number `FromParts`
   * builds from the two runs.
   */
  lemma ParsePoint(neg: bool, ip: string, fp: string)
    requires ip != "" && Text.AllDigits(ip) && Text.AllDigits(fp)
    ensures var body := if fp == "" then ip else ip + "." + fp;
      var s := if neg then "-" + body else body;
      Parse(s) == FromParts(neg, ip, fp)
      && ExpIndex(s) == -1
  {
    hide Text.IndexOf, FromParts, IntPart, FracPart, ExpIndex, IsExpMark;
    var body := if fp == "" then ip else ip + "." + fp;
    var s := if neg then "-" + body else body;
    PointBody(ip, fp);
    assert neg ==> s[1..] == body;
    assert |s| > 0 && (s[0] == '-' <==> neg) by {
      assert body[0] == ip[0];
    }
    assert Parse(s) == FromParts(neg, IntPart(body), FracPart(body));
    SignedChars(neg, body);
  }

  /** The body splits at its point into the two runs, and holds only digits and the point. */
  lemma PointBody(ip: string, fp: string)
    requires ip != "" && Text.AllDigits(ip) && Text.AllDigits(fp)
    ensures var body := if fp == "" then ip else ip + "." + fp;
      && IntPart(body) == ip && FracPart(body) == fp
      && forall i :: 0 <= i < |body| ==> Text.IsDigit(body[i]) || body[i] == '.'
  {
    var body := if fp == "" then ip else ip + "." + fp;
    assert forall i :: 0 <= i < |ip| ==> ip[i] != '.';
    if fp == "" {
      assert Text.IndexOf(body, '.') == -1;
    } else {
      Text.IndexOfPrefix(ip, "." + fp, '.');
      assert body == ip + ("." + fp);
      assert body[..|ip|] == ip && body[|ip| + 1..] == fp;
      forall i | 0 <= i < |body|
        ensures Text.IsDigit(body[i]) || body[i] == '.'
      {
        if i > |ip| {
          assert body[i] == fp[i - |ip| - 1];
        }
      }
    }
  }

  /** A minus sign before digits and points leaves no exponent marker. */
  lemma SignedChars(neg: bool, body: string)
    requires forall i :: 0 <= i < |body| ==> Text.IsDigit(body[i]) || body[i] == '.'
    ensures ExpIndex(if neg then "-" + body else body) == -1
  {
    var s := if neg then "-" + body else body;
    forall i | 0 <= i < |s|
      ensures Text.IsDigit(s[i]) || s[i] == '.' || s[i] == '-'
    {
      if neg && i > 0 {
        assert s[i] == body[i - 1];
      }
    }
    NoMark(s);
  }

  /** The sign and digits `FromParts` reads give the signed value of the two runs together. */
  lemma FromPartsValue(neg: bool, ip: string, fp: string)
    requires ip != "" && Text.AllDigits(ip) && Text.AllDigits(fp)
    ensures var v: int := Text.DigitsValue(ip + fp);
      FromParts(neg, ip, fp) == Some(Normalize(Dec(if neg then -v else v, |fp|)))
  {
    hide Text.DigitsValue, Text.AllDigits, Text.IsDigit, Pow10, Same, Normalize;
    DigitsAppend(ip, fp);
  }

  // -------------------------------------------------------------------
  // The round trip

  /** Plain notation reads back as the number printed. */
  lemma PlainRoundTrip(d: Decimal)
    requires !Exponential(d)
    ensures ParseBig(ToString(d)) == Some(d)
  {
    if d.e == 0 {
      WholeRoundTrip(d);
    } else {
      PointRoundTrip(d);
    }
  }

  /** Text made of a sign and the digits of a normal form, with its point placed by `e`, reads back as it. */
  lemma ReadsBack(d: Decimal, ip: string, fp: string)
    requires ip != "" && Text.AllDigits(ip) && Text.AllDigits(fp)
    requires |fp| == d.e && Text.DigitsValue(ip + fp) == Abs(d.m)
    ensures var body := if fp == "" then ip else ip + "." + fp;
      ParseBig(if d.m < 0 then "-" + body else body) == Some(d)
  {
    hide Text.DigitsValue, Text.AllDigits, Text.IsDigit, Text.IndexOf, Pow10, Same, Parse, ParseBig, FromParts;
    hide IntPart, FracPart, ExpIndex;
    var neg := d.m < 0;
    DigitsAppend(ip, fp);
    ParsePoint(neg, ip, fp);
    FromPartsValue(neg, ip, fp);
    var v: int := Text.DigitsValue(ip + fp);
    assert (if neg then -v else v) == d.m;
    assert Normalize(d) == d;
  }

  /** A whole number in plain notation reads back as itself. */
  lemma WholeRoundTrip(d: Decimal)
    requires !Exponential(d) && d.e == 0
    ensures ParseBig(ToString(d)) == Some(d)
  {
    hide Text.NatToString, Text.DigitsValue, Text.IsDigit, Text.IndexOf, Text.DigitChar, Pow10, Normalize;
    hide Abs, ExpNotation, PointNotation, Parse, ParseBig, FromParts, IntPart, FracPart, ExpIndex, Exponential;
    var mag := Abs(d.m);
    Text.NatToStringDigits(mag);
    var ip := Text.NatToString(mag);
    assert ToString(d) == if d.m < 0 then "-" + ip else ip;
    assert Text.AllDigits("");
    assert ip + "" == ip;
    ReadsBack(d, ip, "");
  }

  /** A number with a fraction in plain notation reads back as itself. */
  lemma PointRoundTrip(d: Decimal)
    requires !Exponential(d) && d.e > 0
    ensures ParseBig(ToString(d)) == Some(d)
  {
    hide Text.NatToString, Text.DigitsValue, Text.AllDigits, Text.IsDigit, Text.IndexOf, Text.DigitChar;
    hide Pow10, Normalize, Abs, ExpNotation, FracDigits, Parse, ParseBig, FromParts, IntPart, FracPart;
    hide ExpIndex, Exponential;
    var mag := Abs(d.m);
    var p := Pow10(d.e);
    DivNat(mag, p);
    var q, r := mag / p, mag % p;
    var ip, fp := Text.NatToString(q), FracDigits(r, d.e);
    assert ToString(d) == if d.m < 0 then "-" + (ip + "." + fp) else ip + "." + fp;
    Text.NatToStringDigits(q);
    PointDigitsValue(q, r, d.e);
    assert q * p + r == mag;
    ReadsBack(d, ip, fp);
  }

  /** The whole digits of `q` and the `e` fractional digits of `r` spell `q * 10^e + r`. */
  lemma PointDigitsValue(q: nat, r: nat, e: nat)
    requires r < Pow10(e)
    ensures var ip, fp := Text.NatToString(q), FracDigits(r, e);
      Text.AllDigits(ip) && Text.AllDigits(ip + fp) && Text.DigitsValue(ip + fp) == q * Pow10(e) + r
  {
    hide *;
    var ip, fp := Text.NatToString(q), FracDigits(r, e);
    Text.NatToStringDigits(q);
    FracDigitsValue(r, e);
    DigitsAppend(ip, fp);
  }

  /** The pieces of exponential notation: the significant digits and the zeros dropped after them. */
  lemma SignificandOf(mag: nat)
    requires mag > 0
    ensures var digits := Text.NatToString(mag);
      var rest := DropTrailingZeros(digits[1..]);
      var z := |digits| - 1 - |rest|;
      && Text.AllDigits([digits[0]]) && Text.AllDigits(rest) && Text.AllDigits([digits[0]] + rest)
      && mag == Text.DigitsValue([digits[0]] + rest) * Pow10(z)
  {
    hide Text.NatToString, Text.DigitsValue, Text.IsDigit, Text.DigitChar, Pow10, DropTrailingZeros;
    var digits := Text.NatToString(mag);
    Text.NatToStringDigits(mag);
    var tail := digits[1..];
    var rest := DropTrailingZeros(tail);
    var zeros := tail[|rest|..];
    assert forall i :: 0 <= i < |zeros| ==> zeros[i] == tail[|rest| + i];
    ZerosValue(zeros);
    assert tail == rest + zeros;
    var head := [digits[0]] + rest;
    assert digits == head + zeros;
    assert Text.AllDigits([digits[0]]) && Text.AllDigits(rest) && Text.AllDigits(head) by {
      assert forall i :: 0 <= i < |head| ==> head[i] == digits[i];
    }
    DigitsAppend(head, zeros);
  }

  /** The significant digits of `|d.m|`, with the sign of `d`, as a whole number. */
  function Significand(d: Decimal): (v: int)
  {
    var digits := Text.NatToString(Abs(d.m));
    var rest := DropTrailingZeros(digits[1..]);
    var head := [digits[0]] + rest;
    if Text.AllDigits(head) then
      var v: int := Text.DigitsValue(head);
      if d.m < 0 then -v else v
    else 0
  }

  /** Exponential notation is the signed mantissa followed by `e`, the exponent's sign and its digits. */
  lemma ExpText(d: Decimal)
    requires Exponential(d)
    ensures var digits := Text.NatToString(Abs(d.m));
      var x := |digits| - 1 - d.e;
      var rest := DropTrailingZeros(digits[1..]);
      var body := if rest == "" then [digits[0]] else [digits[0]] + "." + rest;
      ToString(d) == (if d.m < 0 then "-" + body else body) + ("e" + (if x < 0 then "-" else "+") + Text.NatToString(Abs(x)))
  {
    hide Text.NatToString, Abs, PointNotation, DropTrailingZeros, Exponential;
    var mag := Abs(d.m);
    var digits := Text.NatToString(mag);
    var x := |digits| - 1 - d.e;
    var rest := DropTrailingZeros(digits[1..]);
    var body := if rest == "" then [digits[0]] else [digits[0]] + "." + rest;
    var exponent := "e" + (if x < 0 then "-" else "+") + Text.NatToString(Abs(x));
    assert ExpNotation(mag, d.e) == body + exponent;
    assert ToString(d) == (if d.m < 0 then "-" + ExpNotation(mag, d.e) else ExpNotation(mag, d.e));
  }

  /** The exponent part of exponential notation reads as the exponent. */
  lemma ExpPart(x: int)
    ensures var exponent := "e" + (if x < 0 then "-" else "+") + Text.NatToString(Abs(x));
      exponent != [] && IsExpMark(exponent[0]) && ExpValue(exponent[1..]) == Some(x)
  {
    hide Text.NatToString, Text.DigitsValue, Text.AllDigits, Text.DigitChar, ExpValue, Exponential;
    var sign := if x < 0 then "-" else "+";
    var exponent := "e" + sign + Text.NatToString(Abs(x));
    Text.NatToStringDigits(Abs(x));
    ExpValueOf(Text.NatToString(Abs(x)));
    assert exponent[1..] == sign + Text.NatToString(Abs(x));
    assert ExpValue(exponent[1..]) == Some(x);
    assert IsExpMark(exponent[0]);
  }

  /** Exponential notation reads as its significand with the point after the first digit, scaled by the exponent. */
  lemma ExpRead(d: Decimal)
    requires Exponential(d)
    ensures var digits := Text.NatToString(Abs(d.m));
      var rest := DropTrailingZeros(digits[1..]);
      ParseBig(ToString(d)) == Some(Scale(Normalize(Dec(Significand(d), |rest|)), |digits| - 1 - d.e))
  {
    hide Text.NatToString, Text.DigitsValue, Text.AllDigits, Text.IsDigit, Text.IndexOf, Text.DigitChar;
    hide Pow10, Same, Normalize, Scale, ToString, ExpNotation, DropTrailingZeros, Parse, ParseBig, FromParts;
    hide IntPart, FracPart, ExpIndex, ExpValue, IsExpMark, SciExponent;
    var mag := Abs(d.m);
    var neg := d.m < 0;
    var digits := Text.NatToString(mag);
    var x := |digits| - 1 - d.e;
    var rest := DropTrailingZeros(digits[1..]);
    var ip := [digits[0]];
    assert mag > 0;
    SignificandOf(mag);
    var body := if rest == "" then ip else ip + "." + rest;
    var mantissa := if neg then "-" + body else body;
    var exponent := "e" + (if x < 0 then "-" else "+") + Text.NatToString(Abs(x));
    ExpText(d);
    ParsePoint(neg, ip, rest);
    FromPartsValue(neg, ip, rest);
    assert FromParts(neg, ip, rest) == Some(Normalize(Dec(Significand(d), |rest|)));
    ExpPart(x);
    ExponentAfter(mantissa, Normalize(Dec(Significand(d), |rest|)), exponent, x);
  }

  /** Scaling the significand by the exponent gives the number back. */
  lemma ScaleBack(d: Decimal, m: int, f: nat, z: nat, x: int)
    requires d.m == m * Pow10(z) && x == f + z - d.e
    ensures Scale(Normalize(Dec(m, f)), x) == d
  {
    hide Same, Normalize, Scale, MaxE;
    var dm := Normalize(Dec(m, f));
    var r := Scale(dm, x);
    if x >= 0 {
      SameScaled(dm, Dec(m, f), Pow10(x));
      SameTrans(r, Dec(dm.m * Pow10(x), dm.e), Dec(m * Pow10(x), f));
      ExpPositiveSame(m, x, z, f, d);
      SameTrans(r, Dec(m * Pow10(x), f), d);
    } else {
      TrailingZeroFactor(m, z);
      assert z == 0;
      assert Pow10(0) == 1;
      SameShifted(dm, Dec(m, f), -x);
      SameTrans(r, Dec(dm.m, dm.e - x), Dec(m, f - x));
      assert Dec(m, f - x) == d;
      SameRefl(d);
      SameTrans(r, d, d);
    }
    CanonicalUnique(r, d);
  }

  lemma SameRefl(a: Dec)
    ensures Same(a, a)
  {
  }

  /** Exponential notation reads back as the number printed. */
  lemma ExpRoundTrip(d: Decimal)
    requires Exponential(d)
    ensures ParseBig(ToString(d)) == Some(d)
  {
    hide Text.NatToString, Text.DigitsValue, Text.AllDigits, Text.IsDigit, Text.IndexOf, Text.DigitChar;
    hide Pow10, Same, Canonical, Normalize, Scale, ToString, ExpNotation, DropTrailingZeros, Parse, ParseBig;
    hide FromParts, IntPart, FracPart, ExpIndex, ExpValue, IsExpMark, SciExponent, MaxE;
    var mag := Abs(d.m);
    var digits := Text.NatToString(mag);
    var rest := DropTrailingZeros(digits[1..]);
    var z := |digits| - 1 - |rest|;
    assert mag > 0;
    SignificandOf(mag);
    assert d.m == Significand(d) * Pow10(z);
    ExpRead(d);
    ScaleBack(d, Significand(d), |rest|, z, |digits| - 1 - d.e);
  }

  /** `m * 10^x / 10^f` is `m * 10^z / 10^e` when `x + e == f + z`. */
  lemma ExpPositiveSame(m: int, x: nat, z: nat, f: nat, d: Dec)
    requires d.m == m * Pow10(z) && x + d.e == f + z
    ensures Same(Dec(m * Pow10(x), f), d)
  {
    hide Pow10;
    Pow10Add(x, d.e);
    Pow10Add(f, z);
    var px, pe, pf, pz := Pow10(x), Pow10(d.e), Pow10(f), Pow10(z);
    assert px * pe == pf * pz;
    Regroup(m, px, pe);
    Regroup(m, pz, pf);
    assert pz * pf == pf * pz;
  }

  /** Whatever its size, a number printed by `toString` reads back as itself. */
  lemma ToStringRoundTrip(d: Decimal)
    ensures ParseBig(ToString(d)) == Some(d)
  {
    if Exponential(d) {
      ExpRoundTrip(d);
    } else {
      PlainRoundTrip(d);
    }
  }
}
