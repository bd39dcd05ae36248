// The form layouter: for every container (the form, a group, a dynamic
// list) the children are grouped into rows by their `layout.row`, a child
// without a row getting a row of its own under a freshly generated id.
module Layouts {
  import opened Wrappers
  import opened Text
  import opened Fields

  /** A row: its id and the ids of the fields in it, in schema order. */
  datatype Row = Row(id: string, components: seq<string>)

  /** The rows of one container. */
  datatype FieldRows = FieldRows(formFieldId: string, rows: seq<Row>)

  /** The `n`-th generated row id (`ids.nextPrefixed('Row_')`). */
  function RowId(n: nat): string { "Row_" + NatToString(n) }

  /** The containers `calculateLayout` arranges: the form, groups and dynamic lists that have `components`. */
  predicate LaidOut(f: Field)
  {
    f.ftype in {Default, Group, DynamicList} && f.isContainer
  }

  // -------------------------------------------------------------------
  // Grouping children into rows

  /** The row ids the children name in their own `layout.row`. */
  function NamedRows(comps: seq<Field>): set<string>
  {
    set i | 0 <= i < |comps| && Explicit(comps[i]) :: comps[i].layout.row.value
  }

  /** The child names its row (`layout && layout.row`). */
  predicate Explicit(c: Field) { c.layout.row.Some? && c.layout.row.value != "" }

  /**
   * The row a child goes to, and the next id counter: its own `layout.row`,
   * else the next `Row_<n>` that no child of the container names (the
   * source's random ids stand for ids that clash with none of them).
   */
  function RowKey(c: Field, n: nat, named: set<string>): (r: (string, nat))
    ensures r.1 >= n
    ensures Explicit(c) ==> r == (c.layout.row.value, n)
    ensures !Explicit(c) ==> r.0 !in named && r.1 > n
  {
    if !Explicit(c) then
      var m := FreshIndex("Row_", named, n);
      (RowId(m), m + 1)
    else (c.layout.row.value, n)
  }

  /** The index of the row with id `key`, if any. */
  function RowIndex(groups: seq<Row>, key: string): (r: Option<nat>)
    ensures r.Some? ==> r.value < |groups| && groups[r.value].id == key
    ensures r.None? ==> forall j :: 0 <= j < |groups| ==> groups[j].id != key
  {
    if groups == [] then None
    else if groups[0].id == key then Some(0)
    else
      var r := RowIndex(groups[1..], key);
      if r.Some? then Some(r.value + 1) else None
  }

  /** `groupBy`'s step: `id` joins the row `key`, which is opened at the end if new. */
  function Place(groups: seq<Row>, key: string, id: string): (r: seq<Row>)
    ensures RowIndex(groups, key).Some? ==> |r| == |groups|
    ensures RowIndex(groups, key).None? ==> |r| == |groups| + 1 && r[|groups|] == Row(key, [id])
    ensures forall j :: 0 <= j < |groups| ==> r[j].id == groups[j].id
    ensures forall j :: 0 <= j < |groups| ==> r[j].components == groups[j].components + (if RowIndex(groups, key) == Some(j) then [id] else [])
  {
    var ix := RowIndex(groups, key);
    if ix.Some? then
      groups[ix.value := Row(key, groups[ix.value].components + [id])]
    else groups + [Row(key, [id])]
  }

  /** Row ids are pairwise different. */
  predicate Distinct(groups: seq<Row>)
  {
    forall i, j :: 0 <= i < j < |groups| ==> groups[i].id != groups[j].id
  }

  /** `groupByRow(components, ids)` from `groups` on: rows in order of first appearance, with the next id counter. */
  function GroupFrom(groups: seq<Row>, comps: seq<Field>, n: nat, named: set<string>): (r: (seq<Row>, nat))
    ensures r.1 >= n
    decreases |comps|
  {
    if comps == [] then (groups, n)
    else
      var k := RowKey(comps[0], n, named);
      GroupFrom(Place(groups, k.0, comps[0].id), comps[1..], k.1, named)
  }

  function GroupByRow(comps: seq<Field>, n: nat): (seq<Row>, nat)
  {
    GroupFrom([], comps, n, NamedRows(comps))
  }

  /** All field ids of a list of rows, row after row. */
  function Flatten(groups: seq<Row>): seq<string>
  {
    if groups == [] then [] else groups[0].components + Flatten(groups[1..])
  }

  function Ids(comps: seq<Field>): (r: seq<string>)
    ensures |r| == |comps| && forall i :: 0 <= i < |comps| ==> r[i] == comps[i].id
  {
    if comps == [] then [] else [comps[0].id] + Ids(comps[1..])
  }

  lemma {:induction false} FlattenPlace(groups: seq<Row>, key: string, id: string)
    ensures multiset(Flatten(Place(groups, key, id))) == multiset(Flatten(groups)) + multiset{id}
    decreases |groups|
  {
    if groups == [] {
      assert Place(groups, key, id) == [Row(key, [id])];
      assert Flatten([Row(key, [id])]) == [id] + Flatten([]);
    } else if groups[0].id == key {
      PlaceHead(groups, key, id);
    } else {
      PlaceTail(groups, key, id);
      FlattenPlace(groups[1..], key, id);
    }
  }

  lemma PlaceHead(groups: seq<Row>, key: string, id: string)
    requires groups != [] && groups[0].id == key
    ensures multiset(Flatten(Place(groups, key, id))) == multiset(Flatten(groups)) + multiset{id}
  {
    var r := Place(groups, key, id);
    assert r == [Row(key, groups[0].components + [id])] + groups[1..];
    assert Flatten(r) == (groups[0].components + [id]) + Flatten(groups[1..]);
  }

  lemma PlaceTail(groups: seq<Row>, key: string, id: string)
    requires groups != [] && groups[0].id != key
    ensures Flatten(Place(groups, key, id)) == groups[0].components + Flatten(Place(groups[1..], key, id))
  {
    var r := Place(groups, key, id);
    var rest := Place(groups[1..], key, id);
    assert r == [groups[0]] + rest by {
      var ix := RowIndex(groups[1..], key);
      if ix.Some? {
        assert r == groups[ix.value + 1 := Row(key, groups[ix.value + 1].components + [id])];
      }
    }
  }

  /** Every child lands in exactly one row: the rows hold the children's ids, each as often as it occurs. */
  lemma {:induction false} GroupFromPartition(groups: seq<Row>, comps: seq<Field>, n: nat, named: set<string>)
    ensures multiset(Flatten(GroupFrom(groups, comps, n, named).0)) == multiset(Flatten(groups)) + multiset(Ids(comps))
    decreases |comps|
  {
    if comps != [] {
      var k := RowKey(comps[0], n, named);
      FlattenPlace(groups, k.0, comps[0].id);
      GroupFromPartition(Place(groups, k.0, comps[0].id), comps[1..], k.1, named);
      assert Ids(comps) == [comps[0].id] + Ids(comps[1..]);
    }
  }

  /** `id` is in the row called `key`. */
  predicate InRow(groups: seq<Row>, key: string, id: string)
  {
    exists j :: 0 <= j < |groups| && groups[j].id == key && id in groups[j].components
  }

  lemma PlaceKeeps(groups: seq<Row>, key: string, id: string, k2: string, id2: string)
    requires InRow(groups, k2, id2)
    ensures InRow(Place(groups, key, id), k2, id2)
  {
    var j :| 0 <= j < |groups| && groups[j].id == k2 && id2 in groups[j].components;
    var r := Place(groups, key, id);
    assert r[j].id == k2 && id2 in r[j].components;
  }

  lemma PlaceAdds(groups: seq<Row>, key: string, id: string)
    ensures InRow(Place(groups, key, id), key, id) && Distinct(groups) ==> Distinct(Place(groups, key, id))
  {
    var r := Place(groups, key, id);
    var ix := RowIndex(groups, key);
    if ix.Some? {
      assert r[ix.value].id == key && id in r[ix.value].components;
    } else {
      assert r[|groups|].id == key && id in r[|groups|].components;
    }
  }

  /** Rows keep distinct ids, and a child with its own `layout.row` is in the row of that id. */
  lemma {:induction false} GroupFromRows(groups: seq<Row>, comps: seq<Field>, n: nat, named: set<string>, i: nat)
    requires Distinct(groups)
    requires i < |comps| && Explicit(comps[i])
    ensures Distinct(GroupFrom(groups, comps, n, named).0)
    ensures InRow(GroupFrom(groups, comps, n, named).0, comps[i].layout.row.value, comps[i].id)
    decreases |comps|
  {
    var k := RowKey(comps[0], n, named);
    var g := Place(groups, k.0, comps[0].id);
    PlaceAdds(groups, k.0, comps[0].id);
    if i == 0 {
      GroupFromKeeps(g, comps[1..], k.1, named, k.0, comps[0].id);
    } else {
      GroupFromRows(g, comps[1..], k.1, named, i - 1);
    }
  }

  /**
   * A child without its own `layout.row` gets a row under an id that none of
   * the names in `named` (the ids the container's children give) is: it
   * never joins a row a schema names.
   */
  lemma {:induction false} GroupFromOwnRow(groups: seq<Row>, comps: seq<Field>, n: nat, named: set<string>, i: nat)
    requires Distinct(groups)
    requires i < |comps| && !Explicit(comps[i])
    ensures Distinct(GroupFrom(groups, comps, n, named).0)
    ensures exists key :: key !in named && InRow(GroupFrom(groups, comps, n, named).0, key, comps[i].id)
    decreases |comps|
  {
    var k := RowKey(comps[0], n, named);
    var g := Place(groups, k.0, comps[0].id);
    PlaceAdds(groups, k.0, comps[0].id);
    if i == 0 {
      GroupFromKeeps(g, comps[1..], k.1, named, k.0, comps[0].id);
      assert k.0 !in named;
    } else {
      GroupFromOwnRow(g, comps[1..], k.1, named, i - 1);
    }
  }

  lemma {:induction false} GroupFromKeeps(groups: seq<Row>, comps: seq<Field>, n: nat, named: set<string>, key: string, id: string)
    requires Distinct(groups) && InRow(groups, key, id)
    ensures Distinct(GroupFrom(groups, comps, n, named).0) && InRow(GroupFrom(groups, comps, n, named).0, key, id)
    decreases |comps|
  {
    if comps != [] {
      var k := RowKey(comps[0], n, named);
      PlaceKeeps(groups, k.0, comps[0].id, key, id);
      PlaceAdds(groups, k.0, comps[0].id);
      GroupFromKeeps(Place(groups, k.0, comps[0].id), comps[1..], k.1, named, key, id);
    }
  }

  // -------------------------------------------------------------------
  // The rows of every container

  /** The index of the entry of `formFieldId`, if any (`this._rows.find(...)`). */
  function EntryIndex(fr: seq<FieldRows>, formFieldId: string): (r: Option<nat>)
    ensures r.Some? ==> r.value < |fr| && fr[r.value].formFieldId == formFieldId
    ensures r.Some? ==> forall j :: 0 <= j < r.value ==> fr[j].formFieldId != formFieldId
    ensures r.None? ==> forall j :: 0 <= j < |fr| ==> fr[j].formFieldId != formFieldId
  {
    if fr == [] then None
    else if fr[0].formFieldId == formFieldId then Some(0)
    else
      var r := EntryIndex(fr[1..], formFieldId);
      if r.Some? then Some(r.value + 1) else None
  }

  /** `addRow(formFieldId, row)`: appended to the container's entry, which is created at the end if missing. */
  function AddRowTo(fr: seq<FieldRows>, formFieldId: string, row: Row): seq<FieldRows>
  {
    var ix := EntryIndex(fr, formFieldId);
    if ix.Some? then fr[ix.value := FieldRows(formFieldId, fr[ix.value].rows + [row])]
    else fr + [FieldRows(formFieldId, [row])]
  }

  /** `getRows(formFieldId)`: the container's rows, or none. */
  function RowsOf(fr: seq<FieldRows>, formFieldId: string): seq<Row>
  {
    var ix := EntryIndex(fr, formFieldId);
    if ix.Some? then fr[ix.value].rows else []
  }

  /** Adding a row to one container appends it to that container's rows and leaves the others alone. */
  lemma AddRowRows(fr: seq<FieldRows>, formFieldId: string, row: Row, other: string)
    ensures RowsOf(AddRowTo(fr, formFieldId, row), formFieldId) == RowsOf(fr, formFieldId) + [row]
    ensures other != formFieldId ==> RowsOf(AddRowTo(fr, formFieldId, row), other) == RowsOf(fr, other)
  {
    var fr' := AddRowTo(fr, formFieldId, row);
    var ix := EntryIndex(fr, formFieldId);
    if ix.Some? {
      EntryIndexSame(fr, fr', formFieldId, ix.value);
      if other != formFieldId {
        EntryIndexOther(fr, fr', ix.value, other);
      }
    } else {
      EntryIndexAppend(fr, FieldRows(formFieldId, [row]), formFieldId);
      if other != formFieldId {
        EntryIndexAppend(fr, FieldRows(formFieldId, [row]), other);
      }
    }
  }

  lemma {:induction false} EntryIndexSame(fr: seq<FieldRows>, fr': seq<FieldRows>, id: string, k: nat)
    requires k < |fr| == |fr'| && EntryIndex(fr, id) == Some(k)
    requires forall j :: 0 <= j < |fr| && j != k ==> fr'[j] == fr[j]
    requires fr'[k].formFieldId == id
    ensures EntryIndex(fr', id) == Some(k)
    decreases |fr|
  {
    if k > 0 {
      EntryIndexSame(fr[1..], fr'[1..], id, k - 1);
    }
  }

  lemma {:induction false} EntryIndexOther(fr: seq<FieldRows>, fr': seq<FieldRows>, k: nat, other: string)
    requires k < |fr| == |fr'|
    requires forall j :: 0 <= j < |fr| && j != k ==> fr'[j] == fr[j]
    requires fr'[k].formFieldId == fr[k].formFieldId != other
    ensures EntryIndex(fr', other) == EntryIndex(fr, other)
    decreases |fr|
  {
    if fr != [] && fr[0].formFieldId != other {
      if k > 0 {
        EntryIndexOther(fr[1..], fr'[1..], k - 1, other);
      } else {
        assert fr'[1..] == fr[1..];
      }
    }
  }

  lemma {:induction false} EntryIndexAppend(fr: seq<FieldRows>, e: FieldRows, id: string)
    ensures EntryIndex(fr, id).Some? ==> EntryIndex(fr + [e], id) == EntryIndex(fr, id)
    ensures EntryIndex(fr, id).None? && e.formFieldId == id ==> EntryIndex(fr + [e], id) == Some(|fr|)
    ensures EntryIndex(fr, id).None? && e.formFieldId != id ==> EntryIndex(fr + [e], id).None?
    decreases |fr|
  {
    if fr != [] {
      assert (fr + [e])[1..] == fr[1..] + [e];
      EntryIndexAppend(fr[1..], e, id);
    }
  }

  /** The rows of a list added one after the other. */
  function AddRows(fr: seq<FieldRows>, formFieldId: string, rows: seq<Row>): seq<FieldRows>
    decreases |rows|
  {
    if rows == [] then fr else AddRows(AddRowTo(fr, formFieldId, rows[0]), formFieldId, rows[1..])
  }

  /** Adding a list of rows extends that container's rows by the list and no other container's. */
  lemma {:induction false} AddRowsRows(fr: seq<FieldRows>, formFieldId: string, rows: seq<Row>, other: string)
    ensures RowsOf(AddRows(fr, formFieldId, rows), formFieldId) == RowsOf(fr, formFieldId) + rows
    ensures other != formFieldId ==> RowsOf(AddRows(fr, formFieldId, rows), other) == RowsOf(fr, other)
    decreases |rows|
  {
    if rows != [] {
      assert AddRows(fr, formFieldId, rows) == AddRows(AddRowTo(fr, formFieldId, rows[0]), formFieldId, rows[1..]);
      hide *;
      AddRowRows(fr, formFieldId, rows[0], other);
      assert rows == [rows[0]] + rows[1..];
      AddRowsRows(AddRowTo(fr, formFieldId, rows[0]), formFieldId, rows[1..], other);
      assert RowsOf(fr, formFieldId) + [rows[0]] + rows[1..] == RowsOf(fr, formFieldId) + rows;
    }
  }

  /** `calculateLayout(formField)` on the rows `fr` and the id counter `n`. */
  function Arrange(fr: seq<FieldRows>, n: nat, f: Field): (r: (seq<FieldRows>, nat))
    decreases f, 1
  {
    if !LaidOut(f) then (fr, n)
    else
      var g := GroupByRow(f.components, n);
      LayoutChildren(AddRows(fr, f.id, g.0), g.1, f, 0)
  }

  /** `components.forEach(field => this.calculateLayout(field))` from the `j`-th child on. */
  function LayoutChildren(fr: seq<FieldRows>, n: nat, f: Field, j: nat): (r: (seq<FieldRows>, nat))
    decreases f, 0, |f.components| - j
  {
    if j >= |f.components| then (fr, n)
    else
      var r := Arrange(fr, n, f.components[j]);
      LayoutChildren(r.0, r.1, f, j + 1)
  }

  /** All rows of all containers, container after container (`allRows`). */
  function AllRows(fr: seq<FieldRows>): seq<Row>
  {
    if fr == [] then [] else fr[0].rows + AllRows(fr[1..])
  }

  /** The first row satisfying `has`, if any. */
  function FindRow(rows: seq<Row>, has: Row -> bool): (r: Option<Row>)
    ensures r.Some? ==> r.value in rows && has(r.value)
    ensures r.None? ==> forall j :: 0 <= j < |rows| ==> !has(rows[j])
  {
    if rows == [] then None else if has(rows[0]) then Some(rows[0]) else FindRow(rows[1..], has)
  }

  class FormLayouter {
    var rows: seq<FieldRows>
    /** The generated-id counter standing for the `Ids` instance. */
    var counter: nat

    constructor ()
      ensures rows == [] && counter == 0
    {
      rows := [];
      counter := 0;
    }

    method AddRow(formFieldId: string, row: Row)
      modifies this
      ensures rows == AddRowTo(old(rows), formFieldId, row) && counter == old(counter)
    {
      var ix := EntryIndex(rows, formFieldId);
      if ix.Some? {
        rows := rows[ix.value := FieldRows(formFieldId, rows[ix.value].rows + [row])];
      } else {
        rows := rows + [FieldRows(formFieldId, [row])];
      }
    }

    /** `getRow(id)`: the first row with that id. */
    function GetRow(id: string): (r: Option<Row>)
      reads this
      ensures r.Some? ==> r.value.id == id && r.value in AllRows(rows)
      ensures r.None? ==> forall j :: 0 <= j < |AllRows(rows)| ==> AllRows(rows)[j].id != id
    {
      FindRow(AllRows(rows), (r: Row) => r.id == id)
    }

    /** `getRowForField(formField)`: the first row listing the field. */
    function GetRowForField(fieldId: string): (r: Option<Row>)
      reads this
      ensures r.Some? ==> fieldId in r.value.components && r.value in AllRows(rows)
      ensures r.None? ==> forall j :: 0 <= j < |AllRows(rows)| ==> fieldId !in AllRows(rows)[j].components
    {
      FindRow(AllRows(rows), (r: Row) => fieldId in r.components)
    }

    /** `nextRowId()`: a fresh `Row_` id. */
    method NextRowId() returns (id: string)
      modifies this
      ensures id == RowId(old(counter)) && counter == old(counter) + 1 && rows == old(rows)
    {
      id := RowId(counter);
      counter := counter + 1;
    }

    /** `calculateLayout(formField)`: rows for the container, then for every child in turn. */
    method CalculateLayout(f: Field)
      modifies this
      ensures (rows, counter) == Arrange(old(rows), old(counter), f)
      decreases f
    {
      if !LaidOut(f) {
        return;
      }
      var g := GroupByRow(f.components, counter);
      counter := g.1;
      var i := 0;
      while i < |g.0|
        invariant 0 <= i <= |g.0| && counter == g.1
        invariant AddRows(rows, f.id, g.0[i..]) == AddRows(old(rows), f.id, g.0)
      {
        assert g.0[i..][1..] == g.0[i + 1..];
        AddRow(f.id, g.0[i]);
        i := i + 1;
      }
      var j := 0;
      while j < |f.components|
        invariant 0 <= j <= |f.components|
        invariant LayoutChildren(rows, counter, f, j) == Arrange(old(rows), old(counter), f)
      {
        CalculateLayout(f.components[j]);
        j := j + 1;
      }
    }

    method Clear()
      modifies this
      ensures rows == [] && counter == 0
    {
      rows := [];
      counter := 0;
    }
  }
}
