// The `sanitizeValue` hooks of the keyed field types, which clean an input
// value when a form is initialised, and the key filter of the number input.
module Sanitize {
  import opened Wrappers
  import opened Text
  import opened Data
  import opened Fields
  import opened Options
  import Decimal

  // -------------------------------------------------------------------
  // Number

  /** `isNullEquivalentValue`: undefined, null or the empty string. */
  predicate IsNullEquivalent(v: Value) { IsNil(v) || v == Str("") }

  /** `isValidNumber`: a number, or a non-empty string that `Number` does not turn into NaN. */
  predicate IsValidNumber(v: Value)
  {
    (v.Num? || v.Str?) && v != Str("") && ToNumber(v).Some?
  }

  /**
   * `Numberfield.config.sanitizeValue`: anything that is not a valid number
   * becomes null; a number field serialising to strings keeps the value's
   * `toString()`, any other turns it into a number.
   */
  function SanitizeNumber(f: Field, v: Value): (r: Value)
    ensures r == Null <==> IsNullEquivalent(v) || !IsValidNumber(v)
    ensures r != Null && !f.serializeToString ==> r == Num(ToNumber(v).value)
    ensures r != Null && f.serializeToString ==> r.Str? && (v.Str? ==> r == v)
  {
    if IsNullEquivalent(v) || !IsValidNumber(v) then Null
    else if f.serializeToString then Str(if v.Num? then Decimal.ToString(v.n) else v.s)
    else Num(ToNumber(v).value)
  }

  /** A number field that stores numbers sanitises its own output to itself. */
  lemma SanitizeNumberIdempotent(f: Field, v: Value)
    requires !f.serializeToString
    ensures SanitizeNumber(f, SanitizeNumber(f, v)) == SanitizeNumber(f, v)
  {
  }

  /** `countDecimals` is 0 exactly for whole numbers. */
  lemma CountDecimalsZeroIffInteger(d: Decimal.Decimal)
    ensures Decimal.CountDecimals(d) == 0 <==> Decimal.IsInteger(d)
  {
  }

  // -------------------------------------------------------------------
  // Checkbox, text field, text area, date and time

  /** `Checkbox.config.sanitizeValue`: `value === true`. */
  function SanitizeCheckbox(v: Value): (r: Value)
    ensures r.Bool? && (r.b <==> v == Bool(true))
  {
    Bool(v == Bool(true))
  }

  predicate IsControl(c: char) { c == '\r' || c == '\n' || c == '\t' }

  /** `s.replace(/[\r\n\t]/g, ' ')`. */
  function ReplaceControls(s: string): (r: string)
    ensures |r| == |s|
    ensures forall i :: 0 <= i < |s| ==> r[i] == (if IsControl(s[i]) then ' ' else s[i])
  {
    if s == [] then [] else [if IsControl(s[0]) then ' ' else s[0]] + ReplaceControls(s[1..])
  }

  predicate NoControls(s: string) { forall i :: 0 <= i < |s| ==> !IsControl(s[i]) }

  /**
   * `Textfield.config.sanitizeValue`: arrays, objects and nil become `''`,
   * strings have line breaks and tabs turned into spaces, anything else is
   * printed with `String`.
   */
  function SanitizeTextfield(v: Value): (r: Value)
    ensures r.Str?
    ensures v.Arr? || v.Obj? || IsNil(v) ==> r == Str("")
    ensures v.Str? && NoControls(v.s) ==> r == v
  {
    if v.Arr? || v.Obj? || IsNil(v) then Str("")
    else if v.Str? then
      assert NoControls(v.s) ==> ReplaceControls(v.s) == v.s;
      Str(ReplaceControls(v.s))
    else Str(ToJsString(v))
  }

  /** `Textarea.config.sanitizeValue`: arrays, objects and nil become `''`, anything else `String(value)`. */
  function SanitizeTextarea(v: Value): (r: Value)
    ensures r.Str?
    ensures v.Arr? || v.Obj? || IsNil(v) ==> r == Str("")
    ensures v.Str? ==> r == v
  {
    if v.Arr? || v.Obj? || IsNil(v) then Str("") else Str(ToJsString(v))
  }

  /**
   * `sanitizeDateTimePickerValue`: a non-string is null; whether a string
   * fits the field's subtype is decided by the date parser (`fits`).
   */
  function SanitizeDatetime(f: Field, v: Value, fits: (Field, string) -> bool): (r: Value)
    ensures r == v || r == Null
    ensures !v.Str? ==> r == Null
    ensures v.Str? ==> (r == v <==> fits(f, v.s))
  {
    if !v.Str? then Null else if fits(f, v.s) then v else Null
  }

  // -------------------------------------------------------------------
  // Dispatch by type

  /** The types whose definition has a `sanitizeValue` hook. */
  predicate HasSanitizer(t: FieldType)
  {
    t in {Checkbox, Number, Textfield, Textarea, Datetime, Radio, Select, Checklist, Taglist}
  }

  /** `fieldConfig.sanitizeValue({ formField, data, value })`; a type without the hook keeps the value. */
  function SanitizeValue(f: Field, data: Value, v: Value, fits: (Field, string) -> bool): (r: Value)
    ensures !HasSanitizer(f.ftype) ==> r == v
  {
    match f.ftype
    case Checkbox => SanitizeCheckbox(v)
    case Number => SanitizeNumber(f, v)
    case Textfield => SanitizeTextfield(v)
    case Textarea => SanitizeTextarea(v)
    case Datetime => SanitizeDatetime(f, v, fits)
    case Radio => SanitizeSingleSelect(f, data, v)
    case Select => SanitizeSingleSelect(f, data, v)
    case Checklist => SanitizeMultiSelect(f, data, v)
    case Taglist => SanitizeMultiSelect(f, data, v)
    case _ => v
  }

  /** A sanitised value is sanitised to itself (numbers stored as strings aside). */
  lemma SanitizeIdempotent(f: Field, data: Value, v: Value, fits: (Field, string) -> bool)
    requires !(f.ftype == Number && f.serializeToString)
    ensures SanitizeValue(f, data, SanitizeValue(f, data, v, fits), fits) == SanitizeValue(f, data, v, fits)
  {
    hide SanitizeNumber, SanitizeTextfield, SanitizeTextarea, SanitizeDatetime, SanitizeCheckbox, SanitizeSingleSelect, SanitizeMultiSelect;
    match f.ftype
    case Number => SanitizeNumberIdempotent(f, v);
    case Textfield => TextfieldIdempotent(v);
    case Radio => SingleSelectIdempotent(f, data, v);
    case Select => SingleSelectIdempotent(f, data, v);
    case Checklist => MultiSelectIdempotent(f, data, v);
    case Taglist => MultiSelectIdempotent(f, data, v);
    case Checkbox =>
    case Textarea =>
    case Datetime =>
    case _ => assert !HasSanitizer(f.ftype);
  }

  lemma TextfieldIdempotent(v: Value)
    ensures SanitizeTextfield(SanitizeTextfield(v)) == SanitizeTextfield(v)
  {
    if v.Str? {
      assert NoControls(ReplaceControls(v.s));
    } else if !(v.Arr? || v.Obj? || IsNil(v)) {
      var s := ToJsString(v);
      if v.Num? || v.Bool? {
        assert NoControls(s) by { NumberTextNoControls(v); }
      }
    }
  }

  /** Text made of digits, signs, points and the exponent mark only. */
  predicate NumericText(s: string)
  {
    forall i :: 0 <= i < |s| ==> IsDigit(s[i]) || s[i] in "-+.e"
  }

  lemma NumericTextAppend(a: string, b: string)
    requires NumericText(a) && NumericText(b)
    ensures NumericText(a + b)
  {
    forall i | 0 <= i < |a + b|
      ensures IsDigit((a + b)[i]) || (a + b)[i] in "-+.e"
    {
      if i < |a| { assert (a + b)[i] == a[i]; } else { assert (a + b)[i] == b[i - |a|]; }
    }
  }

  lemma DigitsNumeric(s: string)
    requires AllDigits(s)
    ensures NumericText(s)
  {
  }

  /** The signs, the point and the exponent mark are numeric text on their own. */
  lemma SymbolsNumeric()
    ensures NumericText("") && NumericText("-") && NumericText("+") && NumericText(".") && NumericText("e")
  {
  }

  /** Exponential notation is numeric text. */
  lemma ExpNotationNumeric(mag: nat, e: nat)
    ensures NumericText(Decimal.ExpNotation(mag, e))
  {
    hide NumericText, NatToString, DigitsValue, Decimal.DropTrailingZeros;
    var digits := NatToString(mag);
    var x := |digits| - 1 - e;
    var rest := Decimal.DropTrailingZeros(digits[1..]);
    NatToStringDigits(mag);
    NatToStringDigits(Decimal.Abs(x));
    SymbolsNumeric();
    DigitsNumeric([digits[0]]);
    DigitsNumeric(rest);
    DigitsNumeric(NatToString(Decimal.Abs(x)));
    var point := if rest == "" then "" else "." + rest;
    if rest != "" {
      NumericTextAppend(".", rest);
    }
    var sign := if x < 0 then "-" else "+";
    NumericTextAppend([digits[0]], point);
    NumericTextAppend([digits[0]] + point, "e");
    NumericTextAppend([digits[0]] + point + "e", sign);
    NumericTextAppend([digits[0]] + point + "e" + sign, NatToString(Decimal.Abs(x)));
    assert Decimal.ExpNotation(mag, e) == [digits[0]] + point + "e" + sign + NatToString(Decimal.Abs(x));
  }

  /** `String(n)` of a number is made of digits, signs, a point and an exponent mark. */
  lemma DecimalTextNumeric(d: Decimal.Decimal)
    ensures NumericText(Decimal.ToString(d))
  {
    hide NumericText, NatToString, DigitsValue, Decimal.ExpNotation, Decimal.FracDigits, Decimal.Pow10;
    hide Decimal.Exponential, Decimal.SciExponent;
    var mag := Decimal.Abs(d.m);
    var body :=
      if Decimal.Exponential(d) then Decimal.ExpNotation(mag, d.e)
      else if d.e == 0 then NatToString(mag)
      else Decimal.PointNotation(mag, d.e);
    SymbolsNumeric();
    if Decimal.Exponential(d) {
      ExpNotationNumeric(mag, d.e);
    } else if d.e == 0 {
      NatToStringDigits(mag);
      DigitsNumeric(NatToString(mag));
    } else {
      var p := Decimal.Pow10(d.e);
      Decimal.DivNat(mag, p);
      NatToStringDigits(mag / p);
      DigitsNumeric(NatToString(mag / p));
      NumericTextAppend(NatToString(mag / p), ".");
      DigitsNumeric(Decimal.FracDigits(mag % p, d.e));
      NumericTextAppend(NatToString(mag / p) + ".", Decimal.FracDigits(mag % p, d.e));
    }
    if d.m < 0 {
      NumericTextAppend("-", body);
    }
  }

  /** Printed numbers and booleans contain no line break or tab. */
  lemma NumberTextNoControls(v: Value)
    requires v.Num? || v.Bool?
    ensures NoControls(ToJsString(v))
  {
    if v.Num? {
      DecimalTextNumeric(v.n);
    }
  }

  // -------------------------------------------------------------------
  // The number input's key filter

  /** `s.replace(',', '.')`: only the first comma. */
  function ReplaceFirstComma(s: string): (r: string)
    ensures |r| == |s|
    ensures ',' !in s ==> r == s
  {
    if s == [] then [] else if s[0] == ',' then ['.'] + s[1..] else [s[0]] + ReplaceFirstComma(s[1..])
  }

  /** A key press: the key's text, caret position and selection width, and the field's `decimalDigits` (None when not a number). */
  datatype KeyPress = KeyPress(key: string, previous: string, caret: int, selectionWidth: int, decimalDigits: Option<int>)

  /** `/^[0-9]$/.test(key)`. */
  predicate IsDigitKey(key: string) { |key| == 1 && IsDigit(key[0]) }

  /** The caret sits after the dot and the fraction already has `decimalDigits` digits, with nothing selected. */
  predicate OverflowsDecimalSpace(k: KeyPress)
  {
    var prev := ReplaceFirstComma(k.previous);
    var dot := IndexOf(prev, '.');
    k.decimalDigits.Some? && k.selectionWidth == 0 && dot != -1
    && |Split(prev, '.')| >= 2 && |Split(prev, '.')[1]| >= k.decimalDigits.value && k.caret > dot
  }

  /**
   * `willKeyProduceValidNumber`: a digit, the first dot or comma (unless no
   * decimals are allowed), or a leading first minus, unless it would
   * overflow the allowed decimals; nothing after the text `'NaN'`.
   */
  function WillKeyProduceValidNumber(k: KeyPress): (ok: bool)
    ensures ok ==> k.previous != "NaN" && !OverflowsDecimalSpace(k)
    ensures ok ==> IsDigitKey(k.key) || k.key in {".", ",", "-"}
  {
    if k.previous == "NaN" then false
    else
      var prev := ReplaceFirstComma(k.previous);
      var isFirstDot := '.' !in prev && (k.key == "." || k.key == ",");
      var isFirstMinus := '-' !in prev && k.key == "-" && k.caret == 0;
      var allowed := IsDigitKey(k.key) || (k.decimalDigits != Some(0) && isFirstDot) || isFirstMinus;
      allowed && !OverflowsDecimalSpace(k)
  }

  /** A key that is not a digit, a dot, a comma or a minus is never accepted. */
  lemma OtherKeysRejected(k: KeyPress)
    requires !IsDigitKey(k.key) && k.key !in {".", ",", "-"}
    ensures !WillKeyProduceValidNumber(k)
  {
  }

  /** With no decimals allowed, a dot or comma is rejected. */
  lemma NoDotWithoutDecimals(k: KeyPress)
    requires k.decimalDigits == Some(0) && (k.key == "." || k.key == ",")
    ensures !WillKeyProduceValidNumber(k)
  {
  }

  /** A digit is accepted exactly when it does not overflow the decimals (and the text is not `'NaN'`). */
  lemma DigitAcceptedIff(k: KeyPress)
    requires IsDigitKey(k.key) && k.previous != "NaN"
    ensures WillKeyProduceValidNumber(k) <==> !OverflowsDecimalSpace(k)
  {
  }

  /** The text before a dot always splits into at least two parts, so the fraction is defined. */
  lemma SplitAtDot(s: string)
    requires IndexOf(s, '.') != -1
    ensures |Split(s, '.')| >= 2
  {
  }
}
