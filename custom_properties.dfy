// The custom-properties group of the editor's properties panel: a list of
// free key/value pairs stored under the field's `properties`, with a button
// that adds `key<n>: 'value'`, a validator for renamed keys and a remove
// action per entry.
module CustomProperties {
  import opened Wrappers
  import opened Data
  import opened Text
  import opened Fields

  const EmptyMessage: string := "Hodnota nesmí být prázdná."
  const UniqueMessage: string := "Hodnota musí být unikátní."

  /** The field's `properties` object, as its entries in key order. */
  type Properties = seq<(string, Value)>

  function Keys(ps: Properties): set<string>
  {
    set i | 0 <= i < |ps| :: ps[i].0
  }

  /** An object has each key once. */
  predicate DistinctKeys(ps: Properties)
  {
    forall i, j :: 0 <= i < j < |ps| ==> ps[i].0 != ps[j].0
  }

  /** The name `addEntry` tries for counter value `n`. */
  function KeyName(n: nat): string { "key" + NatToString(n) }

  /**
   * `addEntry`: start the counter at the number of properties plus one,
   * count up past every name already taken, and add that name with the
   * value `'value'` after all existing entries.
   */
  method AddEntry(ps: Properties) returns (r: Properties, index: nat)
    requires DistinctKeys(ps)
    ensures index >= |ps| + 1
    ensures KeyName(index) !in Keys(ps)
    ensures forall j :: |ps| + 1 <= j < index ==> KeyName(j) in Keys(ps)
    ensures r == ps + [(KeyName(index), Str("value"))]
    ensures DistinctKeys(r) && Keys(r) == Keys(ps) + {KeyName(index)}
  {
    var keys := Keys(ps);
    index := |ps| + 1;
    ghost var remaining := keys;
    while KeyName(index) in keys
      invariant index >= |ps| + 1
      invariant remaining <= keys
      invariant forall j :: |ps| + 1 <= j < index ==> KeyName(j) in keys
      invariant forall j :: j >= index && KeyName(j) in keys ==> KeyName(j) in remaining
      decreases |remaining|
    {
      forall j | j >= index + 1 && KeyName(j) in keys
        ensures KeyName(j) in remaining - {KeyName(index)}
      {
        PrefixedDiffer("key", j, index);
      }
      remaining := remaining - {KeyName(index)};
      index := index + 1;
    }
    r := ps + [(KeyName(index), Str("value"))];
    AppendKey(ps, KeyName(index), Str("value"));
  }

  /** Appending an entry under a new key keeps the keys distinct and adds just that key. */
  lemma AppendKey(ps: Properties, key: string, v: Value)
    requires DistinctKeys(ps) && key !in Keys(ps)
    ensures DistinctKeys(ps + [(key, v)])
    ensures Keys(ps + [(key, v)]) == Keys(ps) + {key}
  {
    var r := ps + [(key, v)];
    assert forall i :: 0 <= i < |ps| ==> r[i].0 == ps[i].0 && r[i].0 in Keys(ps);
    assert r[|ps|].0 == key;
  }

  /**
   * `validateFactory(key)`: the entry's own key passes unchanged, a value that
   * is not a non-empty string is refused as empty, and a key the object
   * already has is refused as not unique.
   */
  function ValidateKey(ps: Properties, key: string, value: Value): (r: Option<string>)
    ensures r.None? <==> value == Str(key) || (value.Str? && value.s != "" && value.s !in Keys(ps))
    ensures r == Some(EmptyMessage) <==> value != Str(key) && (!value.Str? || value.s == "")
    ensures r == Some(UniqueMessage) <==> value != Str(key) && value.Str? && value.s != "" && value.s in Keys(ps)
  {
    if value == Str(key) then None
    else if !value.Str? || value.s == "" then Some(EmptyMessage)
    else if value.s in Keys(ps) then Some(UniqueMessage)
    else None
  }

  /** `removeKey`: a new object with every entry but the one under `oldKey`, in the original order. */
  function RemoveKey(ps: Properties, oldKey: string): (r: Properties)
    ensures forall p :: p in r <==> p in ps && p.0 != oldKey
    ensures Keys(r) == Keys(ps) - {oldKey}
    ensures |r| <= |ps|
  {
    if ps == [] then []
    else
      var rest := RemoveKey(ps[1..], oldKey);
      assert Keys(ps) == {ps[0].0} + Keys(ps[1..]) by {
        assert forall i :: 0 < i < |ps| ==> ps[i].0 == ps[1..][i - 1].0;
      }
      (if ps[0].0 == oldKey then [] else [ps[0]]) + rest
  }

  /** Removing works entry by entry, so it keeps the order of what it keeps. */
  lemma {:induction false} RemoveKeyConcat(a: Properties, b: Properties, oldKey: string)
    ensures RemoveKey(a + b, oldKey) == RemoveKey(a, oldKey) + RemoveKey(b, oldKey)
  {
    if a != [] {
      assert (a + b)[1..] == a[1..] + b;
      RemoveKeyConcat(a[1..], b, oldKey);
    } else {
      assert a + b == b;
    }
  }

  /** Removing a key the object does not have gives an equal copy. */
  lemma {:induction false} RemoveAbsentKey(ps: Properties, oldKey: string)
    requires oldKey !in Keys(ps)
    ensures RemoveKey(ps, oldKey) == ps
  {
    if ps != [] {
      assert ps[0].0 in Keys(ps);
      assert Keys(ps[1..]) <= Keys(ps) by {
        assert forall i :: 0 <= i < |ps[1..]| ==> ps[1..][i].0 == ps[i + 1].0;
      }
      RemoveAbsentKey(ps[1..], oldKey);
      assert [ps[0]] + ps[1..] == ps;
    }
  }

  /** Removing an entry that was just added gives back the object it was added to. */
  lemma RemoveUndoesAdd(ps: Properties, key: string, v: Value)
    requires key !in Keys(ps)
    ensures RemoveKey(ps + [(key, v)], key) == ps
  {
    RemoveKeyConcat(ps, [(key, v)], key);
    RemoveAbsentKey(ps, key);
    assert RemoveKey([(key, v)], key) == [];
  }

  /** An item of the list: its id, the id of the entry to focus, and its label text. */
  datatype Item = Item(id: string, autoFocusEntry: string, text: string)

  function ItemId(index: nat): string { "property-" + NatToString(index) }

  /**
   * `CustomPropertiesGroup`: no group for the form itself (type `default`),
   * otherwise one item per property, in order, with id `property-<index>`.
   */
  function Group(t: FieldType, ps: Properties): (r: Option<seq<Item>>)
    ensures r.None? <==> t == Default
    ensures r.Some? ==> |r.value| == |ps|
    ensures r.Some? ==> forall i :: 0 <= i < |ps| ==>
      r.value[i] == Item(ItemId(i), ItemId(i) + "-key", ps[i].0)
  {
    if t == Default then None
    else Some(seq(|ps|, i requires 0 <= i < |ps| => Item(ItemId(i), ItemId(i) + "-key", ps[i].0)))
  }

  /** The items of a group have distinct ids. */
  lemma ItemIdsDistinct(t: FieldType, ps: Properties)
    requires t != Default
    ensures var items := Group(t, ps).value;
      forall i, j :: 0 <= i < j < |items| ==> items[i].id != items[j].id
  {
    var items := Group(t, ps).value;
    forall i, j | 0 <= i < j < |items| ensures items[i].id != items[j].id {
      PrefixedDiffer("property-", i, j);
    }
  }
}
