// Options of the selection fields (select, radio, checklist, taglist): where
// they come from, how raw option data is normalised into `{ value, label }`
// objects, and how an input value is checked against them.
module Options {
  import opened Wrappers
  import opened Data
  import opened Fields

  // -------------------------------------------------------------------
  // OptionsSourceConstants.getOptionsSource

  /** `OPTIONS_SOURCES`: static values, an input data key, or a FEEL expression. */
  datatype OptionsSource = Static | Input | Expression

  /** `Object.values(OPTIONS_SOURCES)`, in declaration order. */
  const Sources: seq<OptionsSource> := [Static, Input, Expression]

  const SourceDefault: OptionsSource := Static

  /** `OPTIONS_SOURCES_PATHS[source]` is set on the field (`get(...) !== undefined`). */
  predicate Defined(f: Field, source: OptionsSource)
  {
    match source
    case Static => !f.values.Undefined?
    case Input => f.valuesKey.Some?
    case Expression => f.valuesExpression.Some?
  }

  /** The first source of `sources` that is defined on the field, else the default. */
  function FirstDefined(f: Field, sources: seq<OptionsSource>): (r: OptionsSource)
    ensures r in sources || r == SourceDefault
    ensures r != SourceDefault ==> Defined(f, r)
    ensures forall i :: 0 <= i < |sources| && Defined(f, sources[i]) ==> Defined(f, r)
  {
    if sources == [] then SourceDefault
    else if Defined(f, sources[0]) then sources[0]
    else FirstDefined(f, sources[1..])
  }

  /** `getOptionsSource(field)`. */
  function GetOptionsSource(f: Field): OptionsSource
  {
    FirstDefined(f, Sources)
  }

  /**
   * Static values win whatever else is set; an input key wins over an
   * expression; an expression alone gives `expression`; nothing set gives
   * the default.
   */
  lemma OptionsSourcePriority(f: Field)
    ensures !f.values.Undefined? ==> GetOptionsSource(f) == Static
    ensures f.values.Undefined? && f.valuesKey.Some? ==> GetOptionsSource(f) == Input
    ensures f.values.Undefined? && f.valuesKey.None? && f.valuesExpression.Some? ==> GetOptionsSource(f) == Expression
    ensures f.values.Undefined? && f.valuesKey.None? && f.valuesExpression.None? ==> GetOptionsSource(f) == SourceDefault
  {
    assert [Static, Input, Expression][1..] == [Input, Expression];
    assert [Input, Expression][1..] == [Expression];
    assert [Expression][1..] == [];
    assert FirstDefined(f, [Expression]) == if Defined(f, Expression) then Expression else SourceDefault;
    assert FirstDefined(f, [Input, Expression]) == if Defined(f, Input) then Input else FirstDefined(f, [Expression]);
    assert GetOptionsSource(f) == if Defined(f, Static) then Static else FirstDefined(f, [Input, Expression]);
  }

  // -------------------------------------------------------------------
  // Option normalisation

  /** `getSimpleOptionsData`: null when options come from an expression, else the data under `valuesKey` or the static `values`. */
  function GetSimpleOptionsData(f: Field, data: Value): (r: Value)
    ensures Truthy(OptStr(f.valuesExpression)) ==> r == Null
    ensures !Truthy(OptStr(f.valuesExpression)) && !Truthy(OptStr(f.valuesKey)) ==> r == f.values
  {
    if Truthy(OptStr(f.valuesExpression)) then Null
    else if Truthy(OptStr(f.valuesKey)) then Get(data, [Key(f.valuesKey.value)])
    else f.values
  }

  /** An optional string property as a value. */
  function OptStr(s: Option<string>): Value
  {
    if s.Some? then Str(s.value) else Undefined
  }

  /** `_isAllowedPrimitive`: a number, a non-empty string or a boolean. */
  predicate AllowedPrimitive(v: Value)
  {
    v.Num? || (v.Str? && v.s != "") || v.Bool?
  }

  /** `_isValidLabel`: a non-empty string. */
  predicate ValidLabel(v: Value) { v.Str? && v.s != "" }

  /** `_isAllowedValue`: a non-empty object or an allowed primitive. */
  predicate AllowedValue(v: Value)
  {
    if v.Obj? then |v.props| > 0 else AllowedPrimitive(v)
  }

  function OptionValue(o: Value): Value { Child(o, Key("value")) }
  function OptionLabel(o: Value): Value { Child(o, Key("label")) }

  /** An option object `{ value, label: `${value}` }` made from a primitive. */
  function MakeOption(v: Value): (r: Value)
    ensures OptionValue(r) == v && OptionLabel(r) == Str(ToJsString(v))
  {
    Obj(map["value" := v, "label" := Str(ToJsString(v))])
  }

  /** The form every normalised option has: an object with a valid label and an allowed value. */
  predicate Normal(o: Value)
  {
    o.Obj? && ValidLabel(OptionLabel(o)) && AllowedValue(OptionValue(o))
  }

  /** An allowed primitive prints as a non-empty string. */
  lemma PrimitiveLabel(v: Value)
    requires AllowedPrimitive(v)
    ensures ToJsString(v) != ""
  {
  }

  /**
   * `_normalizeOption`: a primitive becomes `{ value, label }`; an object
   * without a valid label but with a primitive value gets the value as
   * label; an object with a valid label and an allowed value is kept as is;
   * anything else is null.
   */
  function NormalizeOption(o: Value): (r: Value)
    ensures r.Null? || Normal(r)
    ensures Normal(o) ==> r == o
  {
    if AllowedPrimitive(o) then
      PrimitiveLabel(o);
      MakeOption(o)
    else if o.Obj? then
      var caption := OptionLabel(o);
      var value := OptionValue(o);
      if !ValidLabel(caption) && AllowedPrimitive(value) then
        PrimitiveLabel(value);
        MakeOption(value)
      else if ValidLabel(caption) && AllowedValue(value) then o
      else Null
    else Null
  }

  /** `optionsData.filter(_isAllowedValue).map(_normalizeOption).filter(o => !isNil(o))` on the elements. */
  function NormalizeAll(os: seq<Value>): (r: seq<Value>)
    ensures forall i :: 0 <= i < |r| ==> Normal(r[i])
    ensures |r| <= |os|
  {
    if os == [] then []
    else
      var rest := NormalizeAll(os[1..]);
      if AllowedValue(os[0]) && !IsNil(NormalizeOption(os[0])) then [NormalizeOption(os[0])] + rest else rest
  }

  /** `normalizeOptionsData`: options data that is not an array makes `filter` throw (None). */
  function NormalizeOptionsData(data: Value): (r: Option<seq<Value>>)
    ensures r.Some? <==> data.Arr?
    ensures r.Some? ==> forall i :: 0 <= i < |r.value| ==> Normal(r.value[i])
  {
    if data.Arr? then Some(NormalizeAll(data.elems)) else None
  }

  /** A normal option is an allowed value itself (a non-empty object). */
  lemma NormalAllowed(o: Value)
    requires Normal(o)
    ensures AllowedValue(o) && NormalizeOption(o) == o
  {
    assert "value" in o.props;
  }

  /** Normalising already normalised options changes nothing. */
  lemma {:induction false} NormalizeAllIdempotent(os: seq<Value>)
    ensures NormalizeAll(NormalizeAll(os)) == NormalizeAll(os)
  {
    if os != [] {
      NormalizeAllIdempotent(os[1..]);
      var r := NormalizeAll(os);
      if r != [] && AllowedValue(os[0]) && !IsNil(NormalizeOption(os[0])) {
        NormalAllowed(r[0]);
        assert r[1..] == NormalizeAll(os[1..]);
      }
    }
  }

  /** `createEmptyOptions`: the default static option unless an input key or an expression is given; given options win. */
  function CreateEmptyOptions(options: map<string, Value>): (r: map<string, Value>)
    ensures forall k :: k in options ==> k in r && r[k] == options[k]
    ensures forall k :: k in r && k !in options ==> k == "values"
    ensures "values" !in options && !Truthy(Prop(options, "valuesKey")) && !Truthy(Prop(options, "valuesExpression"))
      ==> "values" in r && r["values"] == Arr([Obj(map["label" := Str("Možnost"), "value" := Str("moznost")])])
  {
    var defaults: map<string, Value> :=
      if !Truthy(Prop(options, "valuesKey")) && !Truthy(Prop(options, "valuesExpression"))
      then map["values" := Arr([Obj(map["label" := Str("Možnost"), "value" := Str("moznost")])])]
      else map[];
    defaults + options
  }

  function Prop(m: map<string, Value>, k: string): Value { if k in m then m[k] else Undefined }

  // -------------------------------------------------------------------
  // Select sanitisers

  /** `options.map(v => v.value)`. */
  function ValuesOf(os: seq<Value>): (vs: seq<Value>)
    ensures |vs| == |os| && forall i :: 0 <= i < |os| ==> vs[i] == OptionValue(os[i])
  {
    if os == [] then [] else [OptionValue(os[0])] + ValuesOf(os[1..])
  }

  /** `hasEqualValue(value, list)`: some element is structurally equal (`isEqual`). */
  predicate HasEqualValue(v: Value, list: Value)
  {
    list.Arr? && v in list.elems
  }

  /** The values the static or input options allow, or None when the option data is not an array. */
  function ValidValues(f: Field, data: Value): Option<seq<Value>>
  {
    var n := NormalizeOptionsData(GetSimpleOptionsData(f, data));
    if n.None? then None else Some(ValuesOf(n.value))
  }

  /**
   * `sanitizeSingleSelectValue`: with expression options the value is kept;
   * otherwise a value that is not among the valid option values (or options
   * that cannot be normalised) give null.
   */
  function SanitizeSingleSelect(f: Field, data: Value, value: Value): (r: Value)
    ensures r == value || r == Null
    ensures Truthy(OptStr(f.valuesExpression)) ==> r == value
    ensures !Truthy(OptStr(f.valuesExpression)) && ValidValues(f, data).Some?
      ==> (r == value <==> value in ValidValues(f, data).value || value == Null)
  {
    if Truthy(OptStr(f.valuesExpression)) then value
    else
      var valid := ValidValues(f, data);
      if valid.None? then Null
      else if HasEqualValue(value, Arr(valid.value)) then value else Null
  }

  /** `value.filter(v => hasEqualValue(v, validValues))`. */
  function FilterValid(vs: seq<Value>, valid: seq<Value>): (r: seq<Value>)
    ensures forall i :: 0 <= i < |r| ==> r[i] in valid && r[i] in vs
    ensures |r| <= |vs|
  {
    if vs == [] then []
    else (if vs[0] in valid then [vs[0]] else []) + FilterValid(vs[1..], valid)
  }

  /** Every element that is valid is kept, in the original order. */
  lemma {:induction false} FilterValidKeeps(vs: seq<Value>, valid: seq<Value>)
    ensures (forall i :: 0 <= i < |vs| ==> vs[i] in valid) ==> FilterValid(vs, valid) == vs
  {
    if vs != [] {
      FilterValidKeeps(vs[1..], valid);
      assert vs == [vs[0]] + vs[1..];
    }
  }

  /**
   * `sanitizeMultiSelectValue`: with expression options the value is kept;
   * otherwise only the elements among the valid option values remain, and a
   * value or option data that is not an array gives `[]`.
   */
  function SanitizeMultiSelect(f: Field, data: Value, value: Value): (r: Value)
    ensures Truthy(OptStr(f.valuesExpression)) ==> r == value
    ensures !Truthy(OptStr(f.valuesExpression)) ==> r.Arr?
    ensures !Truthy(OptStr(f.valuesExpression)) && ValidValues(f, data).Some? && value.Arr?
      ==> forall i :: 0 <= i < |r.elems| ==> r.elems[i] in ValidValues(f, data).value && r.elems[i] in value.elems
  {
    if Truthy(OptStr(f.valuesExpression)) then value
    else
      var valid := ValidValues(f, data);
      if valid.None? || !value.Arr? then Arr([]) else Arr(FilterValid(value.elems, valid.value))
  }

  /** Sanitising a sanitised multi-select value again changes nothing. */
  lemma MultiSelectIdempotent(f: Field, data: Value, value: Value)
    ensures SanitizeMultiSelect(f, data, SanitizeMultiSelect(f, data, value)) == SanitizeMultiSelect(f, data, value)
  {
    var r := SanitizeMultiSelect(f, data, value);
    if !Truthy(OptStr(f.valuesExpression)) && ValidValues(f, data).Some? && value.Arr? {
      FilterValidKeeps(r.elems, ValidValues(f, data).value);
    }
  }

  /** Sanitising a sanitised single-select value again changes nothing. */
  lemma SingleSelectIdempotent(f: Field, data: Value, value: Value)
    ensures SanitizeSingleSelect(f, data, SanitizeSingleSelect(f, data, value)) == SanitizeSingleSelect(f, data, value)
  {
  }
}
