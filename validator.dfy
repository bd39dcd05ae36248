// `Validator.validateField`: the ordered list of error messages for one
// field value. Number fields are checked first with exact decimal arithmetic
// (big.js); then the rules of the field's `validate` block, some of which a
// FEEL expression may supply.
module Validator {
  import opened Wrappers
  import opened Text
  import opened Data
  import opened Fields
  import Decimal

  /** What makes `validateField` throw: big.js rejecting a value, a zero increment, or `trim` on a non-string. */
  datatype ValidatorError = NotANumber(v: Value) | DivisionByZero | TrimOfNonString(v: Value) | NoFractionPart(v: Value)

  /** The FEEL expression language: which values are expressions, and what an expression evaluates to in the form's filtered data. */
  datatype Feel = Feel(isExpression: Value -> bool, evaluate: Value -> Value)

  /** The expression language and the regular expressions, which the model does not interpret. */
  datatype Oracles = Oracles(
    feel: Feel,
    matches: (string, Value) -> bool,
    isPhone: Value -> bool,
    isEmail: Value -> bool)

  // -------------------------------------------------------------------
  // Messages

  const NotANumberMessage: string := "Hodnota " + "musí být platné číslo."
  const RequiredMessage: string := "Povinné pole."
  const PhoneMessage: string := "Hodnota " + "musí být platné mezinárodní telefonní číslo. (např. +4930664040900)"
  const EmailMessage: string := "Hodnota " + "musí být platný email."

  function DecimalsMessage(digits: int): string
  {
    "Hodnota " + "musí " + (if digits == 0 then "být platné celé číslo" else "obsahovat maximálně " + IntToString(digits) + " desetinných míst") + "."
  }

  function StepMessage(lo: Decimal.Decimal, hi: Decimal.Decimal): string
  {
    "Prosím, " + "zvolte platnou hodnotu. Dvě nejbližší hodnoty jsou " + Decimal.ToString(lo) + " a " + Decimal.ToString(hi) + "."
  }

  function PatternMessage(pattern: string): string { "Hodnota " + "splňovat regulární výraz " + pattern + "." }
  function MinMessage(min: Value): string { "Hodnota " + "musí být větší nebo rovna " + ToJsString(min) + "." }
  function MaxMessage(max: Value): string { "Hodnota " + "musí být menší nebo rovna " + ToJsString(max) + "." }
  function MinLengthMessage(n: Value): string { "Hodnota " + "musí být dlouhá alespoň " + ToJsString(n) + " znaků." }
  function MaxLengthMessage(n: Value): string { "Hodnota " + "nesmí být delší než " + ToJsString(n) + " znaků." }

  // -------------------------------------------------------------------
  // JavaScript conversions the checks rely on

  /** `Big(v)`: a number is taken as it is, anything else as `String(v)`, which must be big.js notation. */
  function Big(v: Value): (r: Option<Decimal.Decimal>)
    ensures v.Num? ==> r == Some(v.n)
  {
    if v.Num? then Some(v.n) else Decimal.ParseBig(ToJsString(v))
  }

  /** Comparison of strings by code units. */
  predicate StrLess(a: string, b: string)
  {
    if a == [] then b != []
    else if b == [] then false
    else if a[0] != b[0] then a[0] < b[0]
    else StrLess(a[1..], b[1..])
  }

  /** The primitive an array or object is compared as. */
  function ToPrimitive(v: Value): (r: Value)
    ensures !r.Arr? && !r.Obj?
  {
    if v.Arr? || v.Obj? then Str(ToJsString(v)) else v
  }

  /** JavaScript `a < b`: two strings compare by code units, anything else as numbers, and NaN is never less. */
  predicate LooseLess(a: Value, b: Value)
  {
    var x, y := ToPrimitive(a), ToPrimitive(b);
    if x.Str? && y.Str? then StrLess(x.s, y.s)
    else
      var m, n := ToNumber(x), ToNumber(y);
      m.Some? && n.Some? && Decimal.Less(m.value, n.value)
  }

  /** On two numbers the loose comparison is the exact decimal comparison. */
  lemma LooseLessNumbers(a: Decimal.Decimal, b: Decimal.Decimal)
    ensures LooseLess(Num(a), Num(b)) <==> Decimal.Less(a, b)
  {
  }

  // -------------------------------------------------------------------
  // Neighbours named by the increment message

  /** `CoefAt` of a number that has the same value as `x` is `x`'s coefficient. */
  lemma CoefAtSame(d: Decimal.Dec, x: Decimal.Dec)
    requires Decimal.Same(d, x) && d.e <= x.e
    ensures Decimal.CoefAt(d, x.e) == x.m
  {
    Decimal.SameAtCommon(d, x, x.e);
    assert Decimal.Pow10(0) == 1;
  }

  lemma CoefNonZero(d: Decimal.Dec, e: nat)
    requires d.e <= e && d.m != 0
    ensures Decimal.CoefAt(d, e) != 0
  {
    var p := Decimal.Pow10(e - d.e);
    var k := Decimal.Abs(d.m) - 1;
    assert Decimal.Abs(d.m) * p == k * p + p;
    assert k * p >= 0;
    assert Decimal.Abs(d.m * p) == Decimal.Abs(d.m) * p by {
      Decimal.AbsMul(d.m, p);
    }
  }

  /**
   * The two multiples of `inc` the increment message names, as the code
   * computes them: `previous = value - value.mod(inc)` and
   * `next = previous + inc`, where big.js `mod` keeps the sign of `value`.
   */
  function StepNeighboursAsWritten(v: Decimal.Decimal, inc: Decimal.Decimal): (r: (Decimal.Decimal, Decimal.Decimal))
    requires !Decimal.IsZero(inc)
  {
    var lo := Decimal.Sub(v, Decimal.Mod(v, inc));
    (lo, Decimal.Add(lo, inc))
  }

  /** For `-7` and increment `5` the code names `-5` and `0`, and `-7` lies below both. */
  lemma StepNeighboursAsWrittenMissesNegative()
    ensures var r := StepNeighboursAsWritten(Decimal.FromInt(-7), Decimal.FromInt(5));
      r == (Decimal.FromInt(-5), Decimal.FromInt(0)) && Decimal.Less(Decimal.FromInt(-7), r.0)
  {
    assert Decimal.Pow10(0) == 1;
    assert Decimal.TruncRem(-7, 5) == -2;
    var m := Decimal.Mod(Decimal.FromInt(-7), Decimal.FromInt(5));
    assert m == Decimal.FromInt(-2);
    var lo := Decimal.Sub(Decimal.FromInt(-7), m);
    assert lo == Decimal.FromInt(-5);
    assert Decimal.Add(lo, Decimal.FromInt(5)) == Decimal.FromInt(0);
  }

  /**
   * For `7` and increment `-5` the code names `5` and `0`: adding the
   * negative increment goes down, and `7` lies above both.
   */
  lemma StepNeighboursAsWrittenMissesNegativeIncrement()
    ensures var r := StepNeighboursAsWritten(Decimal.FromInt(7), Decimal.FromInt(-5));
      r == (Decimal.FromInt(5), Decimal.FromInt(0)) && Decimal.Less(r.1, r.0) && Decimal.Less(r.0, Decimal.FromInt(7))
  {
    assert Decimal.Pow10(0) == 1;
    assert Decimal.TruncRem(7, -5) == 2;
    var m := Decimal.Mod(Decimal.FromInt(7), Decimal.FromInt(-5));
    assert m == Decimal.FromInt(2);
    var lo := Decimal.Sub(Decimal.FromInt(7), m);
    assert lo == Decimal.FromInt(5);
    assert Decimal.Add(lo, Decimal.FromInt(-5)) == Decimal.FromInt(0);
  }

  /** For the same input the corrected neighbours are `5` and `10`, on either side of `7`. */
  lemma StepNeighboursNegativeIncrement()
    ensures StepNeighbours(Decimal.FromInt(7), Decimal.FromInt(-5)) == (Decimal.FromInt(5), Decimal.FromInt(10))
  {
    var v, inc := Decimal.FromInt(7), Decimal.FromInt(-5);
    assert Decimal.MaxE(v, inc) == 0;
    assert Decimal.Pow10(0) == 1;
    assert Decimal.CoefAt(v, 0) == 7 && Decimal.Abs(Decimal.CoefAt(inc, 0)) == 5;
    assert 7 - 7 % 5 == 5;
    assert Decimal.Normalize(Decimal.Dec(5, 0)) == Decimal.FromInt(5);
    assert Decimal.Normalize(Decimal.Dec(10, 0)) == Decimal.FromInt(10);
  }

  /**
   * The multiples of `inc` at or below `v` and just above it: the remainder
   * is taken toward minus infinity against `|inc|`.
   */
  function StepNeighbours(v: Decimal.Decimal, inc: Decimal.Decimal): (r: (Decimal.Decimal, Decimal.Decimal))
    requires !Decimal.IsZero(inc)
  {
    var e := Decimal.MaxE(v, inc);
    CoefNonZero(inc, e);
    var a, b := Decimal.CoefAt(v, e), Decimal.Abs(Decimal.CoefAt(inc, e));
    var lo := a - a % b;
    (Decimal.Normalize(Decimal.Dec(lo, e)), Decimal.Normalize(Decimal.Dec(lo + b, e)))
  }

  /**
   * The corrected neighbours bracket the value: the lower one is a multiple
   * of the increment at or below it, the upper one is one increment higher
   * and strictly above it (all compared at the common number of decimals).
   */
  lemma StepNeighboursBracket(v: Decimal.Decimal, inc: Decimal.Decimal)
    requires !Decimal.IsZero(inc)
    ensures var e := Decimal.MaxE(v, inc);
      var b := Decimal.Abs(Decimal.CoefAt(inc, e));
      var r := StepNeighbours(v, inc);
      b > 0 && r.0.e <= e && r.1.e <= e
      && Decimal.CoefAt(r.0, e) <= Decimal.CoefAt(v, e) < Decimal.CoefAt(r.1, e)
      && Decimal.CoefAt(r.1, e) == Decimal.CoefAt(r.0, e) + b
      && Decimal.CoefAt(r.0, e) % b == 0
  {
    var e := Decimal.MaxE(v, inc);
    CoefNonZero(inc, e);
    var a, b := Decimal.CoefAt(v, e), Decimal.Abs(Decimal.CoefAt(inc, e));
    var lo := a - a % b;
    var r := StepNeighbours(v, inc);
    assert r == (Decimal.Normalize(Decimal.Dec(lo, e)), Decimal.Normalize(Decimal.Dec(lo + b, e)));
    CoefAtSame(r.0, Decimal.Dec(lo, e));
    CoefAtSame(r.1, Decimal.Dec(lo + b, e));
    FloorBracket(a, b);
  }

  /** Rounding down to a multiple of a positive `b`. */
  lemma FloorBracket(a: int, b: int)
    requires b > 0
    ensures a - a % b <= a < a - a % b + b && (a - a % b) % b == 0
  {
    assert a == b * (a / b) + a % b;
    Decimal.DivExactInt(a - a % b, b, a / b);
  }

  // -------------------------------------------------------------------
  // The number checks

  /**
   * The `decimalDigits` check: more decimals than allowed (a negative or
   * absent limit checks nothing); counting the decimals of a whole number
   * big.js prints in exponential notation throws.
   */
  function DecimalErrors(digits: Option<int>, value: Value): (r: Result<seq<string>, ValidatorError>)
    ensures r.Success? ==> |r.value| <= 1
  {
    if digits.None? || digits.value < 0 then Success([])
    else
      match Big(value)
      case None => Failure(NotANumber(value))
      case Some(d) =>
        if Decimal.CountDecimalsThrows(d) then Failure(NoFractionPart(value))
        else Success(if Decimal.CountDecimals(d) > digits.value then [DecimalsMessage(digits.value)] else [])
  }

  /** The `increment` check: a value that is not a whole multiple of a truthy increment. */
  function IncrementErrors(increment: Value, value: Value): (r: Result<seq<string>, ValidatorError>)
    ensures r.Success? ==> |r.value| <= 1
  {
    if !Truthy(increment) then Success([])
    else
      match Big(value)
      case None => Failure(NotANumber(value))
      case Some(v) =>
        match Big(increment)
        case None => Failure(NotANumber(increment))
        case Some(inc) =>
          if Decimal.IsZero(inc) then Failure(DivisionByZero)
          else if Decimal.IsZero(Decimal.Mod(v, inc)) then Success([])
          else
            var n := StepNeighbours(v, inc);
            Success([StepMessage(n.0, n.1)])
  }

  /** The checks that only number fields get, in their order: `'NaN'`, then decimals, then increment. */
  function NumberErrors(f: Field, value: Value): Result<seq<string>, ValidatorError>
  {
    if f.ftype != Number then Success([])
    else if value == Str("NaN") then Success([NotANumberMessage])
    else if !Truthy(value) then Success([])
    else
      var digits := DecimalErrors(f.decimalDigits, value);
      if digits.Failure? then digits
      else
        var step := IncrementErrors(f.increment, value);
        if step.Failure? then step else Success(digits.value + step.value)
  }

  /** On a number field the increment message is reported exactly when the value is not a whole multiple of the increment. */
  lemma IncrementErrorIff(f: Field, v: Decimal.Decimal, inc: Decimal.Decimal)
    requires f.ftype == Number && f.increment == Num(inc) && !Decimal.IsZero(inc) && !Decimal.IsZero(v)
    requires f.decimalDigits.None?
    ensures NumberErrors(f, Num(v)).Success?
    ensures NumberErrors(f, Num(v)).value != [] <==> !Decimal.MultipleOf(v, inc)
  {
    Decimal.ModZeroIffMultiple(v, inc);
  }

  /** The string `'NaN'` gives exactly the invalid-number message on a number field. */
  lemma NotANumberOnly(f: Field)
    requires f.ftype == Number
    ensures NumberErrors(f, Str("NaN")) == Success([NotANumberMessage])
  {
  }

  /**
   * A decimal-digits limit `k >= 0` reports a value with more than `k`
   * decimals, and only such a value; a whole number of `10^21` or more
   * makes the check throw.
   */
  lemma DecimalErrorIff(f: Field, v: Decimal.Decimal, k: nat)
    requires f.ftype == Number && f.decimalDigits == Some(k) && !Truthy(f.increment) && !Decimal.IsZero(v)
    ensures NumberErrors(f, Num(v)) ==
      if v.e == 0 && Decimal.Abs(v.m) >= Decimal.Pow10(21) then Failure(NoFractionPart(Num(v)))
      else Success(if Decimal.CountDecimals(v) > k then [DecimalsMessage(k)] else [])
  {
    hide Decimal.CountDecimals, Decimal.CountDecimalsThrows, Decimal.Pow10, Decimal.Abs, DecimalsMessage;
    hide ToJsString, Decimal.ParseBig, Decimal.Mod, StepNeighbours, StepMessage;
    Decimal.CountDecimalsThrowsIff(v);
    if !Decimal.CountDecimalsThrows(v) {
      var d := DecimalErrors(f.decimalDigits, Num(v)).value;
      assert d + [] == d;
    }
  }

  // -------------------------------------------------------------------
  // The `validate` block

  /** One FEEL-capable property: an expression is replaced by its evaluation when that is truthy. */
  function EvaluateProperty(p: Option<Value>, feel: Feel): (r: Option<Value>)
    ensures r.Some? <==> p.Some?
    ensures p.Some? && !feel.isExpression(p.value) ==> r == p
    ensures r != p ==> feel.isExpression(p.value) && r == Some(feel.evaluate(p.value)) && Truthy(r.value)
  {
    if p.Some? && feel.isExpression(p.value) && Truthy(feel.evaluate(p.value)) then Some(feel.evaluate(p.value))
    else p
  }

  /** `evaluateFEELValues`: `min`, `max`, `minLength` and `maxLength` may be expressions; the rest is kept. */
  function EvaluateFeelValues(c: ValidateConfig, feel: Feel): (r: ValidateConfig)
    ensures r.required == c.required && r.pattern == c.pattern && r.validationType == c.validationType
    ensures r.min == EvaluateProperty(c.min, feel) && r.max == EvaluateProperty(c.max, feel)
    ensures r.minLength == EvaluateProperty(c.minLength, feel) && r.maxLength == EvaluateProperty(c.maxLength, feel)
  {
    c.(min := EvaluateProperty(c.min, feel), max := EvaluateProperty(c.max, feel),
       minLength := EvaluateProperty(c.minLength, feel), maxLength := EvaluateProperty(c.maxLength, feel))
  }

  /** `required`: an unchecked checkbox, null, undefined, `''` or an empty array. */
  predicate IsMissing(t: FieldType, value: Value)
  {
    (t == Checkbox && value == Bool(false)) || IsNil(value) || value == Str("") || value == Arr([])
  }

  /** `value || value === 0`. */
  predicate Present(value: Value) { Truthy(value) || value == Num(Decimal.Zero) }

  /** A length rule on a truthy value: `value.trim().length` compared with the bound, which throws on a non-string. */
  function LengthError(bound: Option<Value>, value: Value, tooShort: bool): Result<seq<string>, ValidatorError>
  {
    if bound.None? || !Truthy(value) then Success([])
    else if !value.Str? then Failure(TrimOfNonString(value))
    else
      var n := Num(Decimal.FromInt(|Trim(value.s)|));
      if tooShort then Success(if LooseLess(n, bound.value) then [MinLengthMessage(bound.value)] else [])
      else Success(if LooseLess(bound.value, n) then [MaxLengthMessage(bound.value)] else [])
  }

  /** `pattern`: a truthy value the regular expression does not match. */
  function PatternErrors(c: ValidateConfig, value: Value, o: Oracles): seq<string>
  {
    if c.pattern.Some? && c.pattern.value != "" && Truthy(value) && !o.matches(c.pattern.value, value)
    then [PatternMessage(c.pattern.value)] else []
  }

  function RequiredErrors(t: FieldType, c: ValidateConfig, value: Value): seq<string>
  {
    if c.required && IsMissing(t, value) then [RequiredMessage] else []
  }

  /** `min`, then `max`, on a value that is truthy or zero. */
  function RangeErrors(c: ValidateConfig, value: Value): seq<string>
  {
    (if c.min.Some? && Present(value) && LooseLess(value, c.min.value) then [MinMessage(c.min.value)] else [])
    + (if c.max.Some? && Present(value) && LooseLess(c.max.value, value) then [MaxMessage(c.max.value)] else [])
  }

  /** `minLength`, then `maxLength`. */
  function LengthErrors(c: ValidateConfig, value: Value): Result<seq<string>, ValidatorError>
  {
    var minLength := LengthError(c.minLength, value, true);
    if minLength.Failure? then minLength
    else
      var maxLength := LengthError(c.maxLength, value, false);
      if maxLength.Failure? then maxLength else Success(minLength.value + maxLength.value)
  }

  /** `validationType` phone, then email, on a truthy value. */
  function TypeErrors(c: ValidateConfig, value: Value, o: Oracles): seq<string>
  {
    (if c.validationType == Some("phone") && Truthy(value) && !o.isPhone(value) then [PhoneMessage] else [])
    + (if c.validationType == Some("email") && Truthy(value) && !o.isEmail(value) then [EmailMessage] else [])
  }

  /** The rules of the evaluated `validate` block, in their order. */
  function RuleErrors(t: FieldType, c: ValidateConfig, value: Value, o: Oracles): Result<seq<string>, ValidatorError>
  {
    var lengths := LengthErrors(c, value);
    if lengths.Failure? then lengths
    else Success(PatternErrors(c, value, o) + RequiredErrors(t, c, value) + RangeErrors(c, value) + lengths.value + TypeErrors(c, value, o))
  }

  /** `validateField(field, value)`: the number checks, then, when there is a `validate` block, its rules. */
  function ValidateField(f: Field, value: Value, o: Oracles): (r: Result<seq<string>, ValidatorError>)
    ensures r.Success? ==> NumberErrors(f, value).Success? && NumberErrors(f, value).value <= r.value
    ensures f.validate.None? ==> r == NumberErrors(f, value)
  {
    var num := NumberErrors(f, value);
    if num.Failure? || f.validate.None? then num
    else
      var rules := RuleErrors(f.ftype, EvaluateFeelValues(f.validate.value, o.feel), value, o);
      if rules.Failure? then rules else Success(num.value + rules.value)
  }

  // -------------------------------------------------------------------
  // The required rule, end to end

  /** Every message other than the required one starts with `H` or with `Pr`. */
  predicate OtherMessage(m: string)
  {
    (|m| >= 1 && m[0] == 'H') || (|m| >= 2 && m[0] == 'P' && m[1] == 'r')
  }

  lemma OtherIsNotRequired(m: string)
    requires OtherMessage(m)
    ensures m != RequiredMessage
  {
  }

  lemma OtherAppend(a: string, b: string)
    requires OtherMessage(a)
    ensures OtherMessage(a + b)
  {
    assert (a + b)[0] == a[0];
    if |a| >= 2 {
      assert (a + b)[1] == a[1];
    }
  }

  lemma StepMessageOther(lo: Decimal.Decimal, hi: Decimal.Decimal)
    ensures OtherMessage(StepMessage(lo, hi))
  {
    var m := "Prosím, " + "zvolte platnou hodnotu. Dvě nejbližší hodnoty jsou ";
    OtherAppend("Prosím, ", "zvolte platnou hodnotu. Dvě nejbližší hodnoty jsou ");
    OtherAppend(m, Decimal.ToString(lo));
    OtherAppend(m + Decimal.ToString(lo), " a ");
    OtherAppend(m + Decimal.ToString(lo) + " a ", Decimal.ToString(hi));
    OtherAppend(m + Decimal.ToString(lo) + " a " + Decimal.ToString(hi), ".");
  }

  /** A message built as `"Hodnota " + a + b + c`. */
  lemma HodnotaOther(a: string, b: string, c: string)
    ensures OtherMessage("Hodnota " + a) && OtherMessage("Hodnota " + a + b) && OtherMessage("Hodnota " + a + b + c)
  {
    OtherAppend("Hodnota ", a);
    OtherAppend("Hodnota " + a, b);
    OtherAppend("Hodnota " + a + b, c);
  }

  lemma DecimalsMessageOther(k: int)
    ensures OtherMessage(DecimalsMessage(k))
  {
    HodnotaOther("musí ", if k == 0 then "být platné celé číslo" else "obsahovat maximálně " + IntToString(k) + " desetinných míst", ".");
  }

  lemma ValueMessagesOther(p: string, x: Value)
    ensures OtherMessage(PatternMessage(p))
    ensures OtherMessage(MinMessage(x)) && OtherMessage(MaxMessage(x))
    ensures OtherMessage(MinLengthMessage(x)) && OtherMessage(MaxLengthMessage(x))
  {
    HodnotaOther("splňovat regulární výraz ", p, ".");
    HodnotaOther("musí být větší nebo rovna ", ToJsString(x), ".");
    HodnotaOther("musí být menší nebo rovna ", ToJsString(x), ".");
    HodnotaOther("musí být dlouhá alespoň ", ToJsString(x), " znaků.");
    HodnotaOther("nesmí být delší než ", ToJsString(x), " znaků.");
  }

  lemma ConstantMessagesOther()
    ensures OtherMessage(NotANumberMessage) && OtherMessage(PhoneMessage) && OtherMessage(EmailMessage)
  {
    HodnotaOther("musí být platné číslo.", "", "");
    HodnotaOther("musí být platné mezinárodní telefonní číslo. (např. +4930664040900)", "", "");
    HodnotaOther("musí být platný email.", "", "");
  }

  /** No message in the list is the required one. */
  predicate AllOther(ms: seq<string>) { forall m :: m in ms ==> OtherMessage(m) }

  lemma AllOtherAppend(a: seq<string>, b: seq<string>)
    requires AllOther(a) && AllOther(b)
    ensures AllOther(a + b)
  {
  }

  lemma AllOtherNotRequired(ms: seq<string>)
    requires AllOther(ms)
    ensures RequiredMessage !in ms
  {
    if RequiredMessage in ms {
      OtherIsNotRequired(RequiredMessage);
    }
  }

  lemma NumberMessagesOther(f: Field, value: Value)
    requires NumberErrors(f, value).Success?
    ensures AllOther(NumberErrors(f, value).value)
  {
    if f.ftype == Number && value != Str("NaN") && Truthy(value) {
      var d := DecimalErrors(f.decimalDigits, value);
      var i := IncrementErrors(f.increment, value);
      DecimalErrorsOther(f.decimalDigits, value);
      IncrementErrorsOther(f.increment, value);
      hide *;
      AllOtherAppend(d.value, i.value);
    } else if f.ftype == Number && value == Str("NaN") {
      ConstantMessagesOther();
    }
  }

  lemma DecimalErrorsOther(digits: Option<int>, value: Value)
    ensures DecimalErrors(digits, value).Success? ==> AllOther(DecimalErrors(digits, value).value)
  {
    hide Big, Decimal.CountDecimals, DecimalsMessage;
    if digits.Some? {
      DecimalsMessageOther(digits.value);
    }
  }

  lemma IncrementErrorsOther(increment: Value, value: Value)
    ensures IncrementErrors(increment, value).Success? ==> AllOther(IncrementErrors(increment, value).value)
  {
    hide Big, Truthy, Decimal.IsZero, Decimal.Mod, StepNeighbours, StepMessage, ToJsString, Decimal.ToString, Decimal.ParseBig;
    var v, inc := Big(value), Big(increment);
    if Truthy(increment) && v.Some? && inc.Some? && !Decimal.IsZero(inc.value) {
      var n := StepNeighbours(v.value, inc.value);
      StepMessageOther(n.0, n.1);
    }
  }

  lemma RuleMessages(t: FieldType, c: ValidateConfig, value: Value, o: Oracles)
    requires RuleErrors(t, c, value, o).Success?
    ensures RequiredMessage in RuleErrors(t, c, value, o).value <==> c.required && IsMissing(t, value)
  {
    var pattern := PatternErrors(c, value, o);
    var range := RangeErrors(c, value);
    var lengths := LengthErrors(c, value);
    var types := TypeErrors(c, value, o);
    var required := RequiredErrors(t, c, value);
    assert RuleErrors(t, c, value, o).value == pattern + required + range + lengths.value + types;
    RuleParts(t, c, value, o);
    hide *;
    AllOtherNotRequired(pattern);
    AllOtherNotRequired(range);
    AllOtherNotRequired(lengths.value);
    AllOtherNotRequired(types);
  }

  /** The rules other than `required` produce only other messages; `required` produces its own exactly when it applies. */
  lemma RuleParts(t: FieldType, c: ValidateConfig, value: Value, o: Oracles)
    requires LengthErrors(c, value).Success?
    ensures AllOther(PatternErrors(c, value, o)) && AllOther(RangeErrors(c, value))
    ensures AllOther(LengthErrors(c, value).value) && AllOther(TypeErrors(c, value, o))
    ensures RequiredMessage in RequiredErrors(t, c, value) <==> c.required && IsMissing(t, value)
  {
    PatternOther(c, value, o);
    RangeOther(c, value);
    LengthOther(c.minLength, value, true);
    LengthOther(c.maxLength, value, false);
    TypesOther(c, value, o);
    assert RequiredMessage in RequiredErrors(t, c, value) <==> c.required && IsMissing(t, value);
    hide *;
    LengthsOther(c, value);
  }

  lemma PatternOther(c: ValidateConfig, value: Value, o: Oracles)
    ensures AllOther(PatternErrors(c, value, o))
  {
    if c.pattern.Some? { ValueMessagesOther(c.pattern.value, Null); }
  }

  lemma RangeOther(c: ValidateConfig, value: Value)
    ensures AllOther(RangeErrors(c, value))
  {
    hide *;
    RangeParts(c, value);
    var below := c.min.Some? && Present(value) && LooseLess(value, c.min.value);
    var above := c.max.Some? && Present(value) && LooseLess(c.max.value, value);
    var lo := if below then [MinMessage(c.min.value)] else [];
    var hi := if above then [MaxMessage(c.max.value)] else [];
    SingleOther("");
    if below {
      ValueMessagesOther("", c.min.value);
      SingleOther(MinMessage(c.min.value));
    }
    if above {
      ValueMessagesOther("", c.max.value);
      SingleOther(MaxMessage(c.max.value));
    }
    AllOtherAppend(lo, hi);
  }

  lemma RangeParts(c: ValidateConfig, value: Value)
    ensures RangeErrors(c, value)
      == (if c.min.Some? && Present(value) && LooseLess(value, c.min.value) then [MinMessage(c.min.value)] else [])
      + (if c.max.Some? && Present(value) && LooseLess(c.max.value, value) then [MaxMessage(c.max.value)] else [])
  {
  }

  lemma SingleOther(m: string)
    ensures AllOther([])
    ensures OtherMessage(m) ==> AllOther([m])
  {
  }

  lemma LengthOther(bound: Option<Value>, value: Value, tooShort: bool)
    ensures LengthError(bound, value, tooShort).Success? ==> AllOther(LengthError(bound, value, tooShort).value)
  {
    hide LooseLess, ToJsString, MinLengthMessage, MaxLengthMessage, OtherMessage, Trim;
    if bound.Some? { ValueMessagesOther("", bound.value); }
  }

  lemma LengthsOther(c: ValidateConfig, value: Value)
    requires LengthErrors(c, value).Success?
    requires LengthError(c.minLength, value, true).Success? ==> AllOther(LengthError(c.minLength, value, true).value)
    requires LengthError(c.maxLength, value, false).Success? ==> AllOther(LengthError(c.maxLength, value, false).value)
    ensures AllOther(LengthErrors(c, value).value)
  {
    hide LengthError;
    var a, b := LengthError(c.minLength, value, true), LengthError(c.maxLength, value, false);
    AllOtherAppend(a.value, b.value);
  }

  lemma TypesOther(c: ValidateConfig, value: Value, o: Oracles)
    ensures AllOther(TypeErrors(c, value, o))
  {
    ConstantMessagesOther();
  }

  /**
   * `'Povinné pole.'` is among the errors exactly when the field has a
   * `validate` block with `required` and the value is an unchecked checkbox,
   * null, undefined, `''` or an empty array.
   */
  lemma RequiredIff(f: Field, value: Value, o: Oracles)
    requires ValidateField(f, value, o).Success?
    ensures RequiredMessage in ValidateField(f, value, o).value
      <==> f.validate.Some? && f.validate.value.required && IsMissing(f.ftype, value)
  {
    var num := NumberErrors(f, value);
    NumberMessagesOther(f, value);
    AllOtherNotRequired(num.value);
    if f.validate.Some? {
      var c := EvaluateFeelValues(f.validate.value, o.feel);
      RuleMessages(f.ftype, c, value, o);
      assert ValidateField(f, value, o).value == num.value + RuleErrors(f.ftype, c, value, o).value;
    }
  }
}
