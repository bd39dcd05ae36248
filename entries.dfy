// Small entries of the editor's properties panel, one module per entry:
// each has a validator that is a chain of early returns, a `getValue` that
// reads one property with a default, a `setValue` that drops edits carrying
// an error, and a predicate saying for which fields the entry is shown.

/** The `height` entry of spacers and other fields that ask for it. */
module HeightEntry {
  import opened Wrappers
  import opened Data
  import Decimal
  import opened Fields
  import opened EditorUtil

  const NumberMessage: string := "Pole musí obsahovat číslo."
  const IntegerMessage: string := "Hodnota musí být platné celé číslo."
  const PositiveMessage: string := "Hodnota musí být větší než 0."

  /** `validate`: a number, whole, at least 1. */
  function Validate(value: Value): (r: Option<string>)
    ensures r.None? <==> value.Num? && Decimal.IsInteger(value.n) && value.n.m >= 1
    ensures r == Some(NumberMessage) <==> !value.Num?
    ensures r == Some(IntegerMessage) <==> value.Num? && !Decimal.IsInteger(value.n)
    ensures r == Some(PositiveMessage) <==> value.Num? && Decimal.IsInteger(value.n) && value.n.m < 1
  {
    if !value.Num? then Some(NumberMessage)
    else if !Decimal.IsInteger(value.n) then Some(IntegerMessage)
    else if value.n.m < 1 then Some(PositiveMessage)
    else None
  }

  /** `isDefaultVisible`: the caller's predicate when it gives one, otherwise spacers only. */
  predicate Visible(isDefaultVisible: Option<FieldType -> bool>, t: FieldType)
  {
    match isDefaultVisible
    case Some(p) => p(t)
    case None => t == Spacer
  }

  /** Without a predicate of the caller, the entry is shown exactly for spacers; with one, exactly where it says. */
  lemma VisibleIff(isDefaultVisible: Option<FieldType -> bool>, t: FieldType)
    ensures isDefaultVisible.None? ==> (Visible(isDefaultVisible, t) <==> t == Spacer)
    ensures isDefaultVisible.Some? ==> (Visible(isDefaultVisible, t) <==> isDefaultVisible.value(t))
  {
  }

  /** `getValue`: the stored height, or null when it is undefined. */
  function Height(props: Props): (r: Value)
    ensures "height" in props && !props["height"].Undefined? ==> r == props["height"]
    ensures "height" !in props || props["height"].Undefined? ==> r == Null
  {
    PropOr(props, "height", Null)
  }

  /** `setValue`: writes `height` unless an error is passed. */
  function SetHeight(props: Props, value: Value, error: Option<string>): (r: Props)
    ensures HasError(error) ==> r == props
    ensures !HasError(error) ==> r == props["height" := value]
  {
    SetValue(props, "height", value, error)
  }

  /** A height the validator accepts is written and read back as it is. */
  lemma AcceptedRoundTrip(props: Props, value: Value)
    requires Validate(value).None?
    ensures Height(SetHeight(props, value, Validate(value))) == value
  {
  }
}

/** The `rowCount` entry of tables. */
module RowCountEntry {
  import opened Wrappers
  import opened Data
  import Decimal
  import opened Fields
  import opened EditorUtil

  const NumberMessage: string := "Hodnota musí být číslo."
  const IntegerMessage: string := "Hodnota musí být platné celé číslo."
  const PositiveMessage: string := "Hodnota musí být větší než 0."

  /** `validate`: nil passes; otherwise a number, whole, at least 1. */
  function Validate(value: Value): (r: Option<string>)
    ensures r.None? <==> IsNil(value) || (value.Num? && Decimal.IsInteger(value.n) && value.n.m >= 1)
    ensures r == Some(NumberMessage) <==> !IsNil(value) && !value.Num?
    ensures r == Some(IntegerMessage) <==> value.Num? && !Decimal.IsInteger(value.n)
    ensures r == Some(PositiveMessage) <==> value.Num? && Decimal.IsInteger(value.n) && value.n.m < 1
  {
    if IsNil(value) then None
    else if !value.Num? then Some(NumberMessage)
    else if !Decimal.IsInteger(value.n) then Some(IntegerMessage)
    else if value.n.m < 1 then Some(PositiveMessage)
    else None
  }

  /** `isDefaultVisible`: tables whose `rowCount` is a number. */
  predicate Visible(t: FieldType, props: Props)
  {
    t == Table && PropOr(props, "rowCount", Undefined).Num?
  }

  /** The entry is shown for a table exactly when its stored row count is a number, and never for another type. */
  lemma VisibleIff(t: FieldType, props: Props)
    ensures Visible(t, props) <==> t == Table && "rowCount" in props && props["rowCount"].Num?
  {
  }

  /** `getValue`: the stored row count. */
  function RowCount(props: Props): (r: Value)
    ensures "rowCount" in props ==> r == props["rowCount"]
    ensures "rowCount" !in props ==> r == Undefined
  {
    PropOr(props, "rowCount", Undefined)
  }

  /** `setValue`: writes `rowCount` unless an error is passed. */
  function SetRowCount(props: Props, value: Value, error: Option<string>): (r: Props)
    ensures HasError(error) ==> r == props
    ensures !HasError(error) ==> r == props["rowCount" := value]
  {
    SetValue(props, "rowCount", value, error)
  }

  /** Clearing the row count passes the validator and hides the entry again. */
  lemma ClearedHides(props: Props)
    ensures var after := SetRowCount(props, Undefined, Validate(Undefined));
      !Visible(Table, after) && RowCount(after) == Undefined
  {
  }
}

/** The key entry of the `input` options source. */
module InputKeyOptionsSourceEntry {
  import opened Wrappers
  import opened Data
  import opened Text
  import opened EditorUtil

  const EmptyMessage: string := "Hodnota nesmí být prázdná."
  const SpacesMessage: string := "Hodnota nesmí obsahovat mezery."

  /** The property the `input` options source reads, `OPTIONS_SOURCES_PATHS[INPUT]`. */
  const ValuesKey: string := "valuesKey"

  /** `validate`: a non-empty string without white space. */
  function Validate(value: Value): (r: Option<string>)
    ensures r.None? <==> value.Str? && value.s != "" && !HasWhitespace(value.s)
    ensures r == Some(EmptyMessage) <==> !value.Str? || value.s == ""
    ensures r == Some(SpacesMessage) <==> value.Str? && value.s != "" && HasWhitespace(value.s)
  {
    if !value.Str? || value.s == "" then Some(EmptyMessage)
    else if HasWhitespace(value.s) then Some(SpacesMessage)
    else None
  }

  /** `getValue`: the stored key, or the empty string when it is undefined. */
  function InputKey(props: Props): (r: Value)
    ensures ValuesKey in props && !props[ValuesKey].Undefined? ==> r == props[ValuesKey]
    ensures ValuesKey !in props || props[ValuesKey].Undefined? ==> r == Str("")
  {
    PropOr(props, ValuesKey, Str(""))
  }

  /** `setValue`: unless an error is passed, writes `value || ''`. */
  function SetInputKey(props: Props, value: Value, error: Option<string>): (r: Props)
    ensures HasError(error) ==> r == props
    ensures !HasError(error) && Truthy(value) ==> r == props[ValuesKey := value]
    ensures !HasError(error) && !Truthy(value) ==> r == props[ValuesKey := Str("")]
  {
    SetValue(props, ValuesKey, if Truthy(value) then value else Str(""), error)
  }

  /** Whatever is written is read back, and a falsy value is read back as the empty string. */
  lemma SetThenGet(props: Props, value: Value, error: Option<string>)
    requires !HasError(error)
    ensures InputKey(SetInputKey(props, value, error)) == if Truthy(value) then value else Str("")
  {
  }
}

/** The `url` entry of iframes. */
module IFrameUrlEntry {
  import opened Wrappers
  import opened Data
  import opened Text
  import opened Fields
  import opened EditorUtil

  const HttpsMessage: string := "Z bezpečnostních důvodů musí URL adresa začínat \"https\"."

  /** `HTTPS_PATTERN`: `https:` and a slash at the start, in any case; further slashes are optional. */
  predicate IsHttps(url: string)
  {
    StartsWith(ToLower(url), "https:/")
  }

  /** `validate`: no value, the empty string or an expression pass; anything else must be an https URL. */
  function Validate(value: Option<string>): (r: Option<string>)
    ensures r.None? <==> value.None? || value.value == "" || value.value[0] == '=' || IsHttps(value.value)
    ensures r.Some? ==> r.value == HttpsMessage
  {
    if value.None? || value.value == "" || StartsWith(value.value, "=") then None
    else if !IsHttps(value.value) then Some(HttpsMessage)
    else None
  }

  /** The https test ignores case: a URL is accepted exactly when its lower-case form is. */
  lemma CaseInsensitive(url: string)
    ensures Validate(Some(url)) == Validate(Some(ToLower(url)))
  {
    var l := ToLower(url);
    assert ToLower(l) == l by {
      forall i | 0 <= i < |l| ensures ToLower(l)[i] == l[i] {
        assert ToLowerChar(ToLowerChar(url[i])) == ToLowerChar(url[i]);
      }
    }
    if url != "" {
      assert l[0] == '=' <==> url[0] == '=';
    }
  }

  /** The entry is shown for iframes only. */
  predicate Visible(t: FieldType) { t == IFrame }

  /** `getValue`: the stored URL, or the empty string when it is undefined. */
  function Url(props: Props): (r: Value)
    ensures "url" in props && !props["url"].Undefined? ==> r == props["url"]
    ensures "url" !in props || props["url"].Undefined? ==> r == Str("")
  {
    PropOr(props, "url", Str(""))
  }

  /** `setValue`: writes `url` whatever the validator said; it takes no error. */
  function SetUrl(props: Props, value: Value): (r: Props)
    ensures "url" in r && r["url"] == value
    ensures forall k :: k in props && k != "url" ==> k in r && r[k] == props[k]
    ensures forall k :: k in r ==> k in props || k == "url"
  {
    SetValue(props, "url", value, None)
  }
}

/** The `dataSource` entry of tables. */
module TableDataSourceEntry {
  import opened Wrappers
  import opened Data
  import opened Text
  import opened Fields
  import opened EditorUtil

  const EmptyMessage: string := "Must not be empty."
  const DotPathMessage: string := "Must be a variable or a dot separated path."
  const IntegerMessage: string := "Must not contain numerical path segments."

  /**
   * `validate`: a non-empty string; an expression passes before any path
   * check; otherwise a valid dot path without an integer segment.
   */
  function Validate(value: Value, checks: PathChecks): (r: Option<string>)
    ensures r == Some(EmptyMessage) <==> !value.Str? || value.s == ""
    ensures value.Str? && value.s != "" && value.s[0] == '=' ==> r.None?
    ensures r == Some(DotPathMessage) <==>
      value.Str? && value.s != "" && value.s[0] != '=' && !checks.isValidDotPath(value.s)
    ensures r == Some(IntegerMessage) <==>
      value.Str? && value.s != "" && value.s[0] != '=' && checks.isValidDotPath(value.s)
      && checks.hasIntegerPathSegment(value.s)
    ensures r.None? <==>
      value.Str? && value.s != "" &&
      (value.s[0] == '=' || (checks.isValidDotPath(value.s) && !checks.hasIntegerPathSegment(value.s)))
  {
    if !value.Str? || value.s == "" then Some(EmptyMessage)
    else if StartsWith(value.s, "=") then None
    else if !checks.isValidDotPath(value.s) then Some(DotPathMessage)
    else if checks.hasIntegerPathSegment(value.s) then Some(IntegerMessage)
    else None
  }

  /** `getValue`: the stored data source, or the field's id when it is undefined. */
  function DataSource(props: Props, id: string): (r: Value)
    ensures "dataSource" in props && !props["dataSource"].Undefined? ==> r == props["dataSource"]
    ensures "dataSource" !in props || props["dataSource"].Undefined? ==> r == Str(id)
  {
    PropOr(props, "dataSource", Str(id))
  }

  /** `setValue`: writes `dataSource` unless an error is passed. */
  function SetDataSource(props: Props, value: Value, error: Option<string>): (r: Props)
    ensures HasError(error) ==> r == props
    ensures !HasError(error) ==> r == props["dataSource" := value]
  {
    SetValue(props, "dataSource", value, error)
  }

  /** The entry is shown for tables only. */
  predicate Visible(t: FieldType) { t == Table }
}
