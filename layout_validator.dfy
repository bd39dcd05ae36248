// The editor's check of a field's column width against the other fields of
// its row: a row is 16 columns wide, an explicit width is 2 to 16 columns,
// an automatic width takes at least 2 columns, and a row holds at most 4
// fields.
module LayoutValidation {
  import opened Wrappers
  import opened Fields
  import opened Layouts
  import Text
  import Decimal

  const MaxColumnsPerRow: int := 16
  const MaxColumns: int := 16
  const MinColumns: int := 2
  const MaxFieldsPerRow: int := 4

  datatype LayoutMessage = MinimumWidth | MaximumWidth | RowOverflow | TooManyFields

  /** The message shown for each rejection. */
  function MessageText(m: LayoutMessage): string
  {
    match m
    case MinimumWidth => "Minimální šířka je 2 sloupců"
    case MaximumWidth => "Maximální šířka je 16 sloupců"
    case RowOverflow => "Nová hodnota předahuje maximum 16 sloupců na řádek"
    case TooManyFields => "Byl přesažen maximální počet polí na řádek 4"
  }

  /**
   * `parseInt(columns) || 0`: the width truncated toward zero, 0 when absent.
   * `parseInt` reads the number's text, so a width printed in exponential
   * notation (`1e-7`, `2.5e+21`) gives its leading digit.
   */
  function ParseColumns(c: Option<Decimal.Decimal>): (n: int)
    ensures c.Some? && !Decimal.Exponential(c.value) ==> n == Decimal.TruncDiv(c.value.m, Decimal.Pow10(c.value.e))
    ensures c.Some? && Decimal.Exponential(c.value) ==> -9 <= n <= 9 && n != 0
  {
    if c.None? then 0
    else if Decimal.Exponential(c.value) then
      var digits := Text.NatToString(Decimal.Abs(c.value.m));
      Text.NatToStringDigits(Decimal.Abs(c.value.m));
      var lead: int := digits[0] as int - '0' as int;
      if c.value.m < 0 then -lead else lead
    else Decimal.TruncDiv(c.value.m, Decimal.Pow10(c.value.e))
  }

  /** A falsy width (absent or 0) is automatic. */
  predicate IsAuto(c: Option<Decimal.Decimal>)
  {
    c.None? || Decimal.IsZero(c.value)
  }

  /** `Number.isInteger(columns)`. */
  predicate IsIntegerColumns(c: Option<Decimal.Decimal>)
  {
    c.Some? && Decimal.IsInteger(c.value)
  }

  /** `calculateMaxColumnsWithAuto(autoCols)`: every automatic field keeps 2 columns free. */
  function MaxColumnsWithAuto(autoCols: int): (r: int)
    ensures autoCols > 0 ==> r < MaxColumnsPerRow
  {
    MaxColumnsPerRow - autoCols * 2
  }

  /** The row's other fields: every id but the edited field's own. */
  function Others(ids: seq<string>, fieldId: string): (r: seq<string>)
    ensures |r| <= |ids|
  {
    if ids == [] then []
    else Others(ids[..|ids| - 1], fieldId) + (if ids[|ids| - 1] == fieldId then [] else [ids[|ids| - 1]])
  }

  /** The other fields are all registered. */
  predicate Registered(ids: seq<string>, fieldId: string, reg: Registry)
  {
    forall x :: x in ids && x != fieldId ==> x in reg
  }

  /** The explicit widths of the other fields, summed. */
  function SumColumns(ids: seq<string>, fieldId: string, reg: Registry): int
    requires Registered(ids, fieldId, reg)
  {
    if ids == [] then 0
    else
      var last := ids[|ids| - 1];
      SumColumns(ids[..|ids| - 1], fieldId, reg) + (if last == fieldId then 0 else ParseColumns(reg[last].layout.columns))
  }

  /** How many of the other fields have an automatic width. */
  function AutoCount(ids: seq<string>, fieldId: string, reg: Registry): (n: nat)
    requires Registered(ids, fieldId, reg)
  {
    if ids == [] then 0
    else
      var last := ids[|ids| - 1];
      AutoCount(ids[..|ids| - 1], fieldId, reg) + (if last != fieldId && IsAuto(reg[last].layout.columns) then 1 else 0)
  }

  /** The row totals with the edited field counted at its new width. */
  datatype Totals = Totals(columns: int, fields: nat, autoCols: nat)

  function RowTotals(fieldId: string, columns: Option<Decimal.Decimal>, ids: seq<string>, reg: Registry): (t: Totals)
    requires Registered(ids, fieldId, reg)
    ensures t.fields >= 1
  {
    Totals(
      ParseColumns(columns) + SumColumns(ids, fieldId, reg),
      1 + |Others(ids, fieldId)|,
      (if IsAuto(columns) then 1 else 0) + AutoCount(ids, fieldId, reg))
  }

  /** The row would be wider than 16 columns. */
  predicate Overflows(columns: Option<Decimal.Decimal>, t: Totals)
  {
    || t.columns > MaxColumnsPerRow
    || (t.autoCols > 0 && t.columns > MaxColumnsWithAuto(t.autoCols))
    || (columns == Some(Decimal.FromInt(MaxColumnsPerRow)) && t.fields > 1)
  }

  /** The width bounds, checked before the row is looked at: an integer width from 2 to 16. */
  function BoundsError(columns: Option<Decimal.Decimal>): (r: Option<LayoutMessage>)
    ensures r.Some? <==> IsIntegerColumns(columns) && !(MinColumns <= columns.value.m <= MaxColumns)
  {
    if IsIntegerColumns(columns) && columns.value.m < MinColumns then Some(MinimumWidth)
    else if IsIntegerColumns(columns) && columns.value.m > MaxColumns then Some(MaximumWidth)
    else None
  }

  /** `validateField(field, columns, row)` on the ids of the row. */
  function LayoutError(fieldId: string, columns: Option<Decimal.Decimal>, ids: seq<string>, reg: Registry): Option<LayoutMessage>
    requires Registered(ids, fieldId, reg)
  {
    if BoundsError(columns).Some? then BoundsError(columns)
    else
      var t := RowTotals(fieldId, columns, ids, reg);
      if Overflows(columns, t) then Some(RowOverflow)
      else if t.fields > MaxFieldsPerRow then Some(TooManyFields)
      else None
  }

  /** What makes `validateField` throw: no row to read, or a row entry the registry does not know. */
  datatype LayoutFailure = NoRow | UnregisteredComponent

  /**
   * `validateField` with the row given, or else `rowOfField`, the row the
   * layouter lists the field in: the bounds come first, then reading the
   * row's entries throws on a missing row or an unknown entry.
   */
  function Validate(fieldId: string, columns: Option<Decimal.Decimal>, row: Option<Row>, rowOfField: Option<Row>, reg: Registry)
    : Result<Option<LayoutMessage>, LayoutFailure>
  {
    if BoundsError(columns).Some? then Success(BoundsError(columns))
    else
      var theRow := if row.Some? then row else rowOfField;
      if theRow.None? then Failure(NoRow)
      else if !Registered(theRow.value.components, fieldId, reg) then Failure(UnregisteredComponent)
      else Success(LayoutError(fieldId, columns, theRow.value.components, reg))
  }

  /** `FormLayoutValidator.validateField`, asking the layouter for the field's row when none is given. */
  method ValidateField(fieldId: string, columns: Option<Decimal.Decimal>, row: Option<Row>, layouter: FormLayouter, reg: Registry)
    returns (r: Result<Option<LayoutMessage>, LayoutFailure>)
    ensures r == Validate(fieldId, columns, row, layouter.GetRowForField(fieldId), reg)
  {
    var bounds := BoundsError(columns);
    if bounds.Some? {
      return Success(bounds);
    }
    var theRow := if row.Some? then row else layouter.GetRowForField(fieldId);
    if theRow.None? {
      return Failure(NoRow);
    }
    if !Registered(theRow.value.components, fieldId, reg) {
      return Failure(UnregisteredComponent);
    }
    var m := ValidateInRow(fieldId, columns, theRow.value.components, reg);
    r := Success(m);
  }

  /** The checks of `validateField` once the row is known, summing the other fields' widths in a loop. */
  method ValidateInRow(fieldId: string, columns: Option<Decimal.Decimal>, ids: seq<string>, reg: Registry)
    returns (r: Option<LayoutMessage>)
    requires Registered(ids, fieldId, reg)
    ensures r == LayoutError(fieldId, columns, ids, reg)
  {
    if IsIntegerColumns(columns) {
      if columns.value.m < MinColumns {
        return Some(MinimumWidth);
      }
      if columns.value.m > MaxColumns {
        return Some(MaximumWidth);
      }
    }
    var t := SumRow(fieldId, columns, ids, reg);
    if Overflows(columns, t) {
      return Some(RowOverflow);
    }
    if t.fields > MaxFieldsPerRow {
      return Some(TooManyFields);
    }
    r := None;
  }

  /** The loop of `validateField` adding up the other fields' widths, count and automatic widths. */
  method SumRow(fieldId: string, columns: Option<Decimal.Decimal>, ids: seq<string>, reg: Registry) returns (t: Totals)
    requires Registered(ids, fieldId, reg)
    ensures t == RowTotals(fieldId, columns, ids, reg)
  {
    var sumColumns := ParseColumns(columns);
    var sumFields := 1;
    var sumAutoCols := if IsAuto(columns) then 1 else 0;
    var i := 0;
    while i < |ids|
      invariant 0 <= i <= |ids|
      invariant sumColumns == ParseColumns(columns) + SumColumns(ids[..i], fieldId, reg)
      invariant sumFields == 1 + |Others(ids[..i], fieldId)|
      invariant sumAutoCols == (if IsAuto(columns) then 1 else 0) + AutoCount(ids[..i], fieldId, reg)
    {
      RowStep(ids, fieldId, reg, i);
      hide SumColumns, AutoCount, Others, ParseColumns, IsAuto;
      if ids[i] != fieldId {
        var cols := reg[ids[i]].layout.columns;
        if IsAuto(cols) {
          sumAutoCols := sumAutoCols + 1;
        }
        sumColumns := sumColumns + ParseColumns(cols);
        sumFields := sumFields + 1;
      }
      i := i + 1;
    }
    assert ids[..|ids|] == ids;
    t := Totals(sumColumns, sumFields, sumAutoCols);
  }

  /** The totals over one more id of the row. */
  lemma RowStep(ids: seq<string>, fieldId: string, reg: Registry, i: nat)
    requires Registered(ids, fieldId, reg) && i < |ids|
    ensures Registered(ids[..i], fieldId, reg) && Registered(ids[..i + 1], fieldId, reg)
    ensures ids[i] != fieldId ==> ids[i] in reg
    ensures SumColumns(ids[..i + 1], fieldId, reg)
      == SumColumns(ids[..i], fieldId, reg) + (if ids[i] == fieldId then 0 else ParseColumns(reg[ids[i]].layout.columns))
    ensures |Others(ids[..i + 1], fieldId)| == |Others(ids[..i], fieldId)| + (if ids[i] == fieldId then 0 else 1)
    ensures AutoCount(ids[..i + 1], fieldId, reg)
      == AutoCount(ids[..i], fieldId, reg) + (if ids[i] != fieldId && IsAuto(reg[ids[i]].layout.columns) then 1 else 0)
  {
    assert ids[..i + 1][..i] == ids[..i];
  }

  // -------------------------------------------------------------------
  // Properties of `validateField`

  /** An integer width below 2 is rejected with the minimum-width message. */
  lemma BelowMinimum(fieldId: string, n: int, ids: seq<string>, reg: Registry)
    requires Registered(ids, fieldId, reg) && n < MinColumns
    ensures LayoutError(fieldId, Some(Decimal.FromInt(n)), ids, reg) == Some(MinimumWidth)
  {
  }

  /** An integer width above 16 is rejected with the maximum-width message. */
  lemma AboveMaximum(fieldId: string, n: int, ids: seq<string>, reg: Registry)
    requires Registered(ids, fieldId, reg) && n > MaxColumns
    ensures LayoutError(fieldId, Some(Decimal.FromInt(n)), ids, reg) == Some(MaximumWidth)
  {
  }

  /** A width that is not an integer (automatic or fractional) is never rejected for its bounds. */
  lemma NonIntegerSkipsBounds(fieldId: string, columns: Option<Decimal.Decimal>, ids: seq<string>, reg: Registry)
    requires Registered(ids, fieldId, reg) && !IsIntegerColumns(columns)
    ensures LayoutError(fieldId, columns, ids, reg) != Some(MinimumWidth)
    ensures LayoutError(fieldId, columns, ids, reg) != Some(MaximumWidth)
  {
  }

  /** The edited field's own entries in the row and its registered width do not matter. */
  lemma OwnEntryIgnored(fieldId: string, columns: Option<Decimal.Decimal>, ids: seq<string>, reg: Registry, reg2: Registry)
    requires Registered(ids, fieldId, reg)
    requires forall x :: x != fieldId && x in reg ==> x in reg2 && reg2[x] == reg[x]
    ensures Registered(Others(ids, fieldId), fieldId, reg2)
    ensures LayoutError(fieldId, columns, ids, reg) == LayoutError(fieldId, columns, Others(ids, fieldId), reg2)
  {
    hide SumColumns, AutoCount, Others, ParseColumns, IsAuto, IsIntegerColumns, Overflows, Registered;
    SumsOthers(ids, fieldId, reg, reg2);
  }

  lemma {:induction false} SumsOthers(ids: seq<string>, fieldId: string, reg: Registry, reg2: Registry)
    requires Registered(ids, fieldId, reg)
    requires forall x :: x != fieldId && x in reg ==> x in reg2 && reg2[x] == reg[x]
    ensures Registered(Others(ids, fieldId), fieldId, reg2)
    ensures SumColumns(Others(ids, fieldId), fieldId, reg2) == SumColumns(ids, fieldId, reg)
    ensures AutoCount(Others(ids, fieldId), fieldId, reg2) == AutoCount(ids, fieldId, reg)
    ensures Others(Others(ids, fieldId), fieldId) == Others(ids, fieldId)
  {
    OthersMembers(ids, fieldId);
    OthersTwice(ids, fieldId);
    OthersSums(ids, fieldId, reg);
    SumsAgree(Others(ids, fieldId), fieldId, reg, reg2);
  }

  /** Dropping the edited field's entries twice is dropping them once. */
  lemma {:induction false} OthersTwice(ids: seq<string>, fieldId: string)
    ensures Others(Others(ids, fieldId), fieldId) == Others(ids, fieldId)
    decreases |ids|
  {
    if ids != [] {
      var init := ids[..|ids| - 1];
      var last := ids[|ids| - 1];
      OthersTwice(init, fieldId);
      if last != fieldId {
        var o2 := Others(init, fieldId) + [last];
        assert o2[..|o2| - 1] == Others(init, fieldId);
        assert Others(o2, fieldId) == Others(Others(init, fieldId), fieldId) + [last];
      } else {
        assert Others(ids, fieldId) == Others(init, fieldId);
      }
    }
  }

  /** The other fields are exactly the row's ids but the edited field's. */
  lemma {:induction false} OthersMembers(ids: seq<string>, fieldId: string)
    ensures forall x :: x in Others(ids, fieldId) <==> x in ids && x != fieldId
    decreases |ids|
  {
    if ids != [] {
      var init := ids[..|ids| - 1];
      OthersMembers(init, fieldId);
      assert ids == init + [ids[|ids| - 1]];
    }
  }

  /** Dropping the edited field's entries changes none of the totals. */
  lemma OthersSums(ids: seq<string>, fieldId: string, reg: Registry)
    requires Registered(ids, fieldId, reg)
    ensures Registered(Others(ids, fieldId), fieldId, reg)
    ensures SumColumns(Others(ids, fieldId), fieldId, reg) == SumColumns(ids, fieldId, reg)
    ensures AutoCount(Others(ids, fieldId), fieldId, reg) == AutoCount(ids, fieldId, reg)
  {
    OthersMembers(ids, fieldId);
    OthersSumColumns(ids, fieldId, reg);
    OthersAutoCount(ids, fieldId, reg);
  }

  lemma {:induction false} OthersSumColumns(ids: seq<string>, fieldId: string, reg: Registry)
    requires Registered(ids, fieldId, reg) && Registered(Others(ids, fieldId), fieldId, reg)
    ensures SumColumns(Others(ids, fieldId), fieldId, reg) == SumColumns(ids, fieldId, reg)
    decreases |ids|
  {
    if ids != [] {
      var init := ids[..|ids| - 1];
      var last := ids[|ids| - 1];
      var o := Others(init, fieldId);
      assert forall x :: x in o ==> x in Others(ids, fieldId);
      OthersSumColumns(init, fieldId, reg);
      if last != fieldId {
        var o2 := o + [last];
        assert o2[..|o2| - 1] == o;
        assert Others(ids, fieldId) == o2;
      } else {
        assert Others(ids, fieldId) == o;
      }
    }
  }

  lemma {:induction false} OthersAutoCount(ids: seq<string>, fieldId: string, reg: Registry)
    requires Registered(ids, fieldId, reg) && Registered(Others(ids, fieldId), fieldId, reg)
    ensures AutoCount(Others(ids, fieldId), fieldId, reg) == AutoCount(ids, fieldId, reg)
    decreases |ids|
  {
    if ids != [] {
      var init := ids[..|ids| - 1];
      var last := ids[|ids| - 1];
      var o := Others(init, fieldId);
      assert forall x :: x in o ==> x in Others(ids, fieldId);
      OthersAutoCount(init, fieldId, reg);
      if last != fieldId {
        var o2 := o + [last];
        assert o2[..|o2| - 1] == o;
        assert Others(ids, fieldId) == o2;
      } else {
        assert Others(ids, fieldId) == o;
      }
    }
  }

  /** The totals read only the other fields' registrations. */
  lemma {:induction false} SumsAgree(ids: seq<string>, fieldId: string, reg: Registry, reg2: Registry)
    requires Registered(ids, fieldId, reg)
    requires forall x :: x != fieldId && x in reg ==> x in reg2 && reg2[x] == reg[x]
    ensures Registered(ids, fieldId, reg2)
    ensures SumColumns(ids, fieldId, reg2) == SumColumns(ids, fieldId, reg)
    ensures AutoCount(ids, fieldId, reg2) == AutoCount(ids, fieldId, reg)
    decreases |ids|
  {
    if ids != [] {
      SumsAgree(ids[..|ids| - 1], fieldId, reg, reg2);
    }
  }

  /** Within the width bounds, a row wider than 16 explicit columns overflows. */
  lemma ExplicitOverflow(fieldId: string, columns: Option<Decimal.Decimal>, ids: seq<string>, reg: Registry)
    requires Registered(ids, fieldId, reg)
    requires !IsIntegerColumns(columns) || MinColumns <= columns.value.m <= MaxColumns
    requires RowTotals(fieldId, columns, ids, reg).columns > MaxColumnsPerRow
    ensures LayoutError(fieldId, columns, ids, reg) == Some(RowOverflow)
  {
  }

  /** Within the bounds, `k > 0` automatic fields leave room for `16 - 2k` explicit columns only. */
  lemma AutoOverflow(fieldId: string, columns: Option<Decimal.Decimal>, ids: seq<string>, reg: Registry)
    requires Registered(ids, fieldId, reg)
    requires !IsIntegerColumns(columns) || MinColumns <= columns.value.m <= MaxColumns
    requires var t := RowTotals(fieldId, columns, ids, reg); t.autoCols > 0 && t.columns > MaxColumnsPerRow - 2 * t.autoCols
    ensures LayoutError(fieldId, columns, ids, reg) == Some(RowOverflow)
  {
  }

  /** A full-width field shares its row with no other field. */
  lemma FullWidthAlone(fieldId: string, ids: seq<string>, reg: Registry)
    requires Registered(ids, fieldId, reg)
    requires exists x :: x in ids && x != fieldId
    ensures LayoutError(fieldId, Some(Decimal.FromInt(16)), ids, reg) == Some(RowOverflow)
  {
    var x :| x in ids && x != fieldId;
    OthersMembers(ids, fieldId);
    assert x in Others(ids, fieldId);
    assert |Others(ids, fieldId)| > 0;
  }

  /** A fifth field is reported only when nothing overflows; with at most 4 fields and no overflow the width is accepted. */
  lemma FieldCount(fieldId: string, columns: Option<Decimal.Decimal>, ids: seq<string>, reg: Registry)
    requires Registered(ids, fieldId, reg)
    ensures LayoutError(fieldId, columns, ids, reg) == Some(TooManyFields) <==>
      && (!IsIntegerColumns(columns) || MinColumns <= columns.value.m <= MaxColumns)
      && !Overflows(columns, RowTotals(fieldId, columns, ids, reg))
      && 1 + |Others(ids, fieldId)| > MaxFieldsPerRow
    ensures LayoutError(fieldId, columns, ids, reg) == None <==>
      && (!IsIntegerColumns(columns) || MinColumns <= columns.value.m <= MaxColumns)
      && !Overflows(columns, RowTotals(fieldId, columns, ids, reg))
      && 1 + |Others(ids, fieldId)| <= MaxFieldsPerRow
  {
  }

  /** A width out of bounds is reported whatever the row, even when there is none to read. */
  lemma BoundsBeforeRow(fieldId: string, columns: Option<Decimal.Decimal>, row: Option<Row>, rowOfField: Option<Row>, reg: Registry)
    requires IsIntegerColumns(columns) && !(MinColumns <= columns.value.m <= MaxColumns)
    ensures Validate(fieldId, columns, row, rowOfField, reg)
      == Success(Some(if columns.value.m < MinColumns then MinimumWidth else MaximumWidth))
  {
  }

  /**
   * `validateField` throws exactly when the width is within bounds and there
   * is no row, or the row lists another field the registry does not hold;
   * otherwise, within bounds, it answers as `LayoutError` on the row.
   */
  lemma ValidateThrowsIff(fieldId: string, columns: Option<Decimal.Decimal>, row: Option<Row>, rowOfField: Option<Row>, reg: Registry)
    ensures var theRow := if row.Some? then row else rowOfField;
      && (Validate(fieldId, columns, row, rowOfField, reg).Failure? <==>
          && BoundsError(columns).None?
          && (theRow.None? || exists x :: x in theRow.value.components && x != fieldId && x !in reg))
      && (Validate(fieldId, columns, row, rowOfField, reg).Success? && BoundsError(columns).None? ==>
          && theRow.Some?
          && Registered(theRow.value.components, fieldId, reg)
          && Validate(fieldId, columns, row, rowOfField, reg).value == LayoutError(fieldId, columns, theRow.value.components, reg))
  {
  }
}
