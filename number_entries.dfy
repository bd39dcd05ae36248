// The number entries of the editor's properties panel: the `decimalDigits`
// entry with its integer validator, and the `increment` (step) entry, whose
// validator compares the step with exact decimals and whose `setValue`
// strips leading zeros before the value is stored.
module NumberEntries {
  import opened Wrappers
  import opened Data
  import Decimal
  import Text
  import opened EditorUtil
  import Sanitize
  import Validator

  const IntegerMessage: string := "Hodnota musí být platné celé číslo."
  const NonNegativeMessage: string := "Hodnota musí být větší nebo rovna 0."
  const InvalidMessage: string := "Hodnota musí být platné číslo."
  const PositiveMessage: string := "Hodnota musí být větší než 0."

  function MinimumMessage(minimum: string): string { "Hodnota musí být alespoň " + minimum + "." }

  function DecimalsMessage(digits: string): string { "Hodnota nesmí obsahovat více než " + digits + " desetinných míst." }

  /**
   * What makes the step validator throw: big.js refusing the text it is
   * given, or counting the decimals of a whole number big.js prints in
   * exponential notation.
   */
  datatype StepError = InvalidBig(text: string) | NoFractionPart(text: string)

  /**
   * `validateNumberEntries`, the validator of `decimalDigits`: anything but a
   * number passes, a number must be a whole number and not negative.
   */
  function ValidateDecimalDigits(value: Value): (r: Option<string>)
    ensures r.None? <==> !value.Num? || (Decimal.IsInteger(value.n) && value.n.m >= 0)
    ensures r == Some(IntegerMessage) <==> value.Num? && !Decimal.IsInteger(value.n)
    ensures r == Some(NonNegativeMessage) <==> value.Num? && Decimal.IsInteger(value.n) && value.n.m < 0
  {
    if !value.Num? then None
    else if !Decimal.IsInteger(value.n) then Some(IntegerMessage)
    else if value.n.m < 0 then Some(NonNegativeMessage)
    else None
  }

  /** `decimalDigits || decimalDigits === 0`. */
  predicate DigitsSet(digits: Value)
  {
    Truthy(digits) || digits == Num(Decimal.FromInt(0))
  }

  /**
   * The exponent big.js reads from `1e-${decimalDigits}`: the text of the
   * setting must be a run of digits, otherwise big.js throws.
   */
  function MinimumExponent(digits: Value): (k: Option<nat>)
    ensures k.Some? <==> ToJsString(digits) != "" && Text.AllDigits(ToJsString(digits))
  {
    var t := ToJsString(digits);
    if t != "" && Text.AllDigits(t) then Some(Text.DigitsValue(t)) else None
  }

  /** `10^-k` as an exact decimal. */
  function Minimum(k: nat): Decimal.Decimal { Decimal.Dec(1, k) }

  /** big.js `toString` of `10^-k`: exponential notation from an exponent of -7 on. */
  function MinimumText(k: nat): string
  {
    if k >= 7 then "1e-" + Text.NatToString(k) else Decimal.ToString(Minimum(k))
  }

  /**
   * `validate` of the step entry, with the field's `decimalDigits`: nil
   * passes, the value must be a valid number, big.js must read it, it must
   * be positive, and with the digits set it must be at least `10^-digits`
   * and have no more fractional digits than that.
   */
  function ValidateStep(value: Value, digits: Value): Result<Option<string>, StepError>
  {
    if IsNil(value) then Success(None)
    else if !Sanitize.IsValidNumber(value) then Success(Some(InvalidMessage))
    else
      var b := Validator.Big(value);
      if b.None? then Failure(InvalidBig(ToJsString(value)))
      else if Decimal.Cmp(b.value, Decimal.FromInt(0)) <= 0 then Success(Some(PositiveMessage))
      else if !DigitsSet(digits) then Success(None)
      else
        var k := MinimumExponent(digits);
        if k.None? then Failure(InvalidBig("1e-" + ToJsString(digits)))
        else if Decimal.Less(b.value, Minimum(k.value)) then Success(Some(MinimumMessage(MinimumText(k.value))))
        else if Decimal.CountDecimalsThrows(b.value) then Failure(NoFractionPart(ToJsString(value)))
        else if Decimal.CountDecimals(b.value) > k.value then Success(Some(DecimalsMessage(ToJsString(digits))))
        else Success(None)
  }

  /** big.js `cmp(0) <= 0` holds exactly for the numbers that are not positive. */
  lemma NotPositive(d: Decimal.Decimal)
    ensures Decimal.Cmp(d, Decimal.FromInt(0)) <= 0 <==> d.m <= 0
  {
  }

  /**
   * A positive step with at most `k` fractional digits is at least `10^-k`:
   * the minimum check can only fire on a value the decimals check would
   * refuse as well.
   */
  lemma MinimumNeedsExtraDecimals(d: Decimal.Decimal, k: nat)
    requires d.m > 0 && Decimal.Less(d, Minimum(k))
    ensures Decimal.CountDecimals(d) > k
  {
    if d.e <= k {
      Decimal.AtLeastUnitFraction(d, k);
    }
  }

  /**
   * The step is accepted exactly when it is nil, or a positive number big.js
   * reads and, with `decimalDigits` set to a readable count, is not a whole
   * number of `10^21` or more and has no more fractional digits than that
   * count.
   */
  lemma StepAcceptedIff(value: Value, digits: Value)
    ensures ValidateStep(value, digits) == Success(None) <==>
      IsNil(value) ||
      (Sanitize.IsValidNumber(value) && Validator.Big(value).Some? && Validator.Big(value).value.m > 0
       && (DigitsSet(digits) ==>
             MinimumExponent(digits).Some?
             && !(Validator.Big(value).value.e == 0 && Decimal.Abs(Validator.Big(value).value.m) >= Decimal.Pow10(21))
             && Decimal.CountDecimals(Validator.Big(value).value) <= MinimumExponent(digits).value))
  {
    hide Validator.Big, Sanitize.IsValidNumber, ToJsString, Decimal.Cmp, Decimal.Less, Decimal.CountDecimals, MinimumText;
    hide Decimal.CountDecimalsThrows, Decimal.Pow10;
    if !IsNil(value) && Sanitize.IsValidNumber(value) && Validator.Big(value).Some? {
      var b := Validator.Big(value).value;
      NotPositive(b);
      Decimal.CountDecimalsThrowsIff(b);
      var k := MinimumExponent(digits);
      if b.m > 0 && DigitsSet(digits) && k.Some? && Decimal.Less(b, Minimum(k.value)) {
        MinimumNeedsExtraDecimals(b, k.value);
      }
    }
  }

  /** The messages of the step validator are told apart. */
  lemma MessagesDiffer(minimum: string, digits: string)
    ensures MinimumMessage(minimum) != PositiveMessage && MinimumMessage(minimum) != InvalidMessage
    ensures DecimalsMessage(digits) != PositiveMessage && DecimalsMessage(digits) != InvalidMessage
  {
    var m, d := MinimumMessage(minimum), DecimalsMessage(digits);
    PrefixAt("Hodnota musí být alespoň ", minimum, ".", 17);
    PrefixAt("Hodnota nesmí obsahovat více než ", digits, " desetinných míst.", 8);
    hide *;
    assert m[17] == 'a' != PositiveMessage[17];
    assert InvalidMessage[17] == 'p';
    assert d[8] == 'n' != PositiveMessage[8];
    assert InvalidMessage[8] == 'm';
  }

  lemma PrefixAt(p: string, x: string, q: string, k: nat)
    requires k < |p|
    ensures (p + x + q)[k] == p[k]
  {
  }

  /** The error messages of the step validator, each with the case that produces it. */
  lemma StepMessages(value: Value, digits: Value)
    requires !IsNil(value)
    ensures !Sanitize.IsValidNumber(value) ==> ValidateStep(value, digits) == Success(Some(InvalidMessage))
    ensures Sanitize.IsValidNumber(value) && Validator.Big(value).Some? && Validator.Big(value).value.m <= 0 ==>
      ValidateStep(value, digits) == Success(Some(PositiveMessage))
    ensures ValidateStep(value, digits) == Success(Some(PositiveMessage)) ==>
      Validator.Big(value).Some? && Validator.Big(value).value.m <= 0
  {
    hide Validator.Big, Sanitize.IsValidNumber, ToJsString, Decimal.Cmp, Decimal.Less, Decimal.CountDecimals;
    hide MinimumMessage, DecimalsMessage, MinimumText, MinimumExponent, DigitsSet;
    if Validator.Big(value).Some? {
      NotPositive(Validator.Big(value).value);
      var k := MinimumExponent(digits);
      if k.Some? {
        MessagesDiffer(MinimumText(k.value), ToJsString(digits));
      }
    }
  }

  /** `value.replace(/^0+/g, '')`. */
  function DropZeros(s: string): (t: string)
    ensures |t| <= |s| && t == s[|s| - |t|..]
    ensures forall i :: 0 <= i < |s| - |t| ==> s[i] == '0'
    ensures t == [] || t[0] != '0'
  {
    if s != [] && s[0] == '0' then DropZeros(s[1..]) else s
  }

  /** `clearLeadingZeroes`: falsy text is kept, otherwise leading zeros go and a bare leading point gets one zero back. */
  function ClearLeadingZeroes(s: string): string
  {
    if s == "" then s
    else
      var t := DropZeros(s);
      (if Text.StartsWith(t, ".") then "0" else "") + t
  }

  /** The result has no leading zero except the one before a decimal point. */
  lemma ClearShape(s: string)
    ensures var r := ClearLeadingZeroes(s);
      r == "" || r[0] != '0' || (|r| >= 2 && r[1] == '.')
    ensures ClearLeadingZeroes(s) == "" <==> forall i :: 0 <= i < |s| ==> s[i] == '0'
  {
    if s != "" {
      var t := DropZeros(s);
      if t == "" {
        assert forall i :: 0 <= i < |s| ==> s[i] == '0';
      } else {
        assert s[|s| - |t|] == t[0] != '0';
      }
    }
  }

  /** Text that does not start with a zero has none to drop. */
  lemma DropZerosFixed(t: string)
    requires t == [] || t[0] != '0'
    ensures DropZeros(t) == t
  {
  }

  /** Clearing twice clears no more than clearing once. */
  lemma ClearIdempotent(s: string)
    ensures ClearLeadingZeroes(ClearLeadingZeroes(s)) == ClearLeadingZeroes(s)
  {
    if s != "" {
      var t := DropZeros(s);
      DropZerosFixed(t);
      if Text.StartsWith(t, ".") {
        var r := "0" + t;
        assert ClearLeadingZeroes(s) == r;
        assert DropZeros(r) == t by {
          assert r[1..] == t;
        }
        hide DropZeros;
        assert ClearLeadingZeroes(r) == r;
      } else {
        assert ClearLeadingZeroes(s) == t;
      }
    }
  }

  lemma {:induction false} DigitsValueZero(x: string)
    requires Text.AllDigits(x)
    ensures Text.DigitsValue("0" + x) == Text.DigitsValue(x)
    decreases |x|
  {
    var u := "0" + x;
    if x != [] {
      DigitsValueZero(x[..|x| - 1]);
      assert u[..|u| - 1] == "0" + x[..|x| - 1];
    }
  }

  /** A leading zero goes to the whole digits and leaves the fractional digits alone. */
  lemma PartsZero(t: string)
    ensures Decimal.IntPart("0" + t) == "0" + Decimal.IntPart(t)
    ensures Decimal.FracPart("0" + t) == Decimal.FracPart(t)
  {
    var u := "0" + t;
    assert u[1..] == t;
    var dot := Text.IndexOf(t, '.');
    if dot != -1 {
      assert u[..dot + 1] == "0" + t[..dot];
      assert u[dot + 2..] == t[dot + 1..];
    }
  }

  /** Only the empty text and a bare point have neither whole nor fractional digits. */
  lemma PartsNonEmpty(t: string)
    requires t != "" && t != "."
    ensures Decimal.IntPart(t) != "" || Decimal.FracPart(t) != ""
  {
    var dot := Text.IndexOf(t, '.');
    if dot == 0 {
      assert t == "." + t[1..];
    }
  }

  /** A leading zero on the whole digits does not change the number. */
  lemma FromPartsZero(neg: bool, i: string, f: string)
    requires i != "" || f != ""
    ensures Decimal.FromParts(neg, "0" + i, f) == Decimal.FromParts(neg, i, f)
  {
    var u := "0" + i;
    if Text.AllDigits(i) {
      DigitsValueZero(i);
    } else {
      var k :| 0 <= k < |i| && !Text.IsDigit(i[k]);
      assert u[k + 1] == i[k];
    }
  }

  /**
   * One leading zero does not change the number a text reads as, unless the
   * rest is empty or a bare point; before a minus sign it makes the text
   * unreadable.
   */
  lemma ZeroPrefix(t: string)
    ensures t != "" && t != "." && t[0] != '-' ==> Decimal.Parse("0" + t) == Decimal.Parse(t)
    ensures t != "" && t[0] == '-' ==> Decimal.Parse("0" + t).None?
  {
    var u := "0" + t;
    assert Decimal.Parse(u) == Decimal.FromParts(false, Decimal.IntPart(u), Decimal.FracPart(u));
    PartsZero(t);
    if t != "" && t[0] != '-' {
      assert Decimal.Parse(t) == Decimal.FromParts(false, Decimal.IntPart(t), Decimal.FracPart(t));
      if t != "." {
        PartsNonEmpty(t);
        FromPartsZero(false, Decimal.IntPart(t), Decimal.FracPart(t));
      }
    } else if t != "" {
      var ip := Decimal.IntPart(t);
      assert Text.IndexOf(t, '.') != 0;
      assert ip[0] == '-';
      assert ("0" + ip)[1] == '-';
    }
  }

  /** Dropping leading zeros keeps the number a readable text reads as, while something other than a bare point is left. */
  lemma {:induction false} DropZerosValue(s: string)
    requires Decimal.Parse(s).Some?
    requires DropZeros(s) != "" && DropZeros(s) != "."
    ensures Decimal.Parse(DropZeros(s)) == Decimal.Parse(s)
    decreases |s|
  {
    hide *;
    if s != [] && s[0] == '0' {
      var rest := s[1..];
      DropZerosStep(s);
      if rest != "" && rest != "." {
        ZeroPrefix(rest);
        DropZerosValue(rest);
      }
    } else {
      DropZerosFixed(s);
    }
  }

  lemma DropZerosStep(s: string)
    requires s != [] && s[0] == '0'
    ensures s == "0" + s[1..] && DropZeros(s) == DropZeros(s[1..])
  {
  }

  /** A bare point has neither whole nor fractional digits, so big.js refuses it. */
  lemma BarePointUnreadable()
    ensures Decimal.Parse(".").None?
  {
    assert Decimal.IntPart(".") == "" && Decimal.FracPart(".") == "" by {
      assert "."[1..] == "";
    }
  }

  /** Zeros followed by a bare point read as zero, just as `0.` does. */
  lemma {:induction false} DotValue(s: string)
    requires DropZeros(s) == "."
    requires Decimal.Parse(s).Some?
    ensures Decimal.Parse("0.") == Decimal.Parse(s)
    decreases |s|
  {
    if s != "0." {
      if s == "." {
        BarePointUnreadable();
        assert false;
      } else {
        var rest := s[1..];
        assert s == "0" + rest;
        assert DropZeros(rest) == ".";
        ZeroPrefix(rest);
        DotValue(rest);
      }
    }
  }

  /**
   * Clearing leading zeros never changes the number a readable step reads
   * as; only a text of zeros alone is cleared to the empty string.
   */
  lemma ClearKeepsValue(s: string)
    requires Decimal.Parse(s).Some?
    requires ClearLeadingZeroes(s) != ""
    ensures Decimal.Parse(ClearLeadingZeroes(s)) == Decimal.Parse(s)
  {
    var t := DropZeros(s);
    var c := ClearLeadingZeroes(s);
    ClearForm(s);
    hide *;
    if t == "." {
      DotValue(s);
    } else {
      DropZerosValue(s);
      if Text.StartsWith(t, ".") {
        StartsWithDot(t);
        ZeroPrefix(t);
      }
    }
  }

  lemma ClearForm(s: string)
    requires ClearLeadingZeroes(s) != ""
    ensures var t := DropZeros(s);
      t != "" && ClearLeadingZeroes(s) == (if Text.StartsWith(t, ".") then "0" + t else t)
    ensures DropZeros(s) == "." ==> ClearLeadingZeroes(s) == "0."
  {
    assert "."[..1] == ".";
    hide DropZeros;
    assert s != "";
  }

  lemma StartsWithDot(t: string)
    requires Text.StartsWith(t, ".")
    ensures t != "" && t[0] == '.'
  {
    assert t[..1][0] == t[0];
  }

  /** `getValue` of the step entry: the stored increment, or null when it is not a valid number. */
  function IncrementValue(props: Props): (r: Value)
    ensures r == Null || Sanitize.IsValidNumber(r)
    ensures Sanitize.IsValidNumber(PropOr(props, "increment", Undefined)) ==> r == PropOr(props, "increment", Undefined)
    ensures !Sanitize.IsValidNumber(PropOr(props, "increment", Undefined)) ==> r == Null
  {
    var v := PropOr(props, "increment", Undefined);
    if Sanitize.IsValidNumber(v) then v else Null
  }

  /** `setValue` of the step entry: with no error, the cleared text is written to `increment`. */
  function SetIncrement(props: Props, value: string, error: Option<string>): (r: Props)
    ensures HasError(error) ==> r == props
    ensures !HasError(error) ==> r == props["increment" := Str(ClearLeadingZeroes(value))]
  {
    SetValue(props, "increment", Str(ClearLeadingZeroes(value)), error)
  }

  /** `setValue` of the decimal-digits entry: with no error, the value is written to `decimalDigits`. */
  function SetDecimalDigits(props: Props, value: Value, error: Option<string>): (r: Props)
    ensures HasError(error) ==> r == props
    ensures !HasError(error) ==> r == props["decimalDigits" := value]
  {
    SetValue(props, "decimalDigits", value, error)
  }
}
