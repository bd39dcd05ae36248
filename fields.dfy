// Form fields as the importer leaves them: a tree of field records (each
// container holding its children in `components`) plus the registry that
// maps every field id to its record and the `_parent` link back up.
module Fields {
  import opened Wrappers
  import opened Data
  import Decimal

  /** The field types the viewer registers. */
  datatype FieldType =
    | Textfield | Textarea | Number | Datetime | ExpressionField
    | Checkbox | Checklist | Radio | Select | Taglist
    | Text | Image | Table | Html | Spacer | Separator
    | Group | DynamicList | IFrame
    | Button | Default

  /** The `type` string of each field definition. */
  function TypeName(t: FieldType): string
  {
    match t
    case Textfield => "textfield" case Textarea => "textarea" case Number => "number"
    case Datetime => "datetime" case ExpressionField => "expression"
    case Checkbox => "checkbox" case Checklist => "checklist" case Radio => "radio"
    case Select => "select" case Taglist => "taglist"
    case Text => "text" case Image => "image" case Table => "table" case Html => "html"
    case Spacer => "spacer" case Separator => "separator"
    case Group => "group" case DynamicList => "dynamiclist" case IFrame => "iframe"
    case Button => "button" case Default => "default"
  }

  /** The types in the order the viewer registers them. */
  const AllTypes: seq<FieldType> := [
    Textfield, Textarea, Number, Datetime, ExpressionField,
    Checkbox, Checklist, Radio, Select, Taglist,
    Text, Image, Table, Html, Spacer, Separator,
    Group, DynamicList, IFrame,
    Button, Default]

  /** The first of `types` registered under `name`. */
  function FindType(types: seq<FieldType>, name: string): (r: Option<FieldType>)
    ensures r.Some? ==> r.value in types && TypeName(r.value) == name
    ensures r.None? ==> forall t :: t in types ==> TypeName(t) != name
  {
    if types == [] then None
    else if TypeName(types[0]) == name then Some(types[0])
    else FindType(types[1..], name)
  }

  /** `formFields.get(type)`: the definition registered under a type string, if any. */
  function TypeOf(name: string): (r: Option<FieldType>)
    ensures r.Some? ==> TypeName(r.value) == name
    ensures r.None? ==> forall t :: t in AllTypes ==> TypeName(t) != name
  {
    FindType(AllTypes, name)
  }

  /** Every registered type is found under its own name, and only there. */
  lemma TypeOfName(t: FieldType, name: string)
    ensures TypeOf(name) == Some(t) <==> name == TypeName(t)
  {
    assert t in AllTypes;
    var r := TypeOf(name);
    if name == TypeName(t) {
      assert r.Some? && TypeName(r.value) == TypeName(t);
      SignatureOfName(t);
      SignatureOfName(r.value);
      SignatureInjective(r.value, t);
    }
  }

  /** The length, first and last character of a type string: enough to tell the registered names apart. */
  function Signature(name: string): (nat, char, char)
  {
    if name == [] then (0, ' ', ' ') else (|name|, name[0], name[|name| - 1])
  }

  function SignatureOf(t: FieldType): (nat, char, char)
  {
    match t
    case Textfield => (9, 't', 'd') case Textarea => (8, 't', 'a') case Number => (6, 'n', 'r')
    case Datetime => (8, 'd', 'e') case ExpressionField => (10, 'e', 'n')
    case Checkbox => (8, 'c', 'x') case Checklist => (9, 'c', 't') case Radio => (5, 'r', 'o')
    case Select => (6, 's', 't') case Taglist => (7, 't', 't')
    case Text => (4, 't', 't') case Image => (5, 'i', 'e') case Table => (5, 't', 'e') case Html => (4, 'h', 'l')
    case Spacer => (6, 's', 'r') case Separator => (9, 's', 'r')
    case Group => (5, 'g', 'p') case DynamicList => (11, 'd', 't') case IFrame => (6, 'i', 'e')
    case Button => (6, 'b', 'n') case Default => (7, 'd', 't')
  }

  /** The signature of a type string, read off the type. */
  lemma SignatureOfName(t: FieldType)
    ensures Signature(TypeName(t)) == SignatureOf(t)
  {
  }

  /** No two types share a signature. */
  lemma SignatureInjective(a: FieldType, b: FieldType)
    requires SignatureOf(a) == SignatureOf(b)
    ensures a == b
  {
  }

  /** `config.keyed`: the field binds a value under its `key`. */
  predicate Keyed(t: FieldType)
  {
    t in {Textfield, Textarea, Number, Datetime, ExpressionField, Checkbox, Checklist, Radio, Select, Taglist}
  }

  /** `config.pathed`: the field is a container that may bind a `path` prefix. */
  predicate Pathed(t: FieldType) { t == Group || t == DynamicList }

  /** `config.repeatable`: the container repeats its children per array entry. */
  predicate Repeatable(t: FieldType) { t == DynamicList }

  /** `config.emptyValue` of the keyed types. */
  function EmptyValue(t: FieldType): (v: Value)
    ensures Keyed(t) ==> !v.Undefined?
  {
    match t
    case Textfield => Str("") case Textarea => Str("")
    case Checkbox => Bool(false)
    case Checklist => Arr([]) case Taglist => Arr([])
    case _ => if Keyed(t) then Null else Undefined
  }

  /** `layout` of a field: its row id and its column count (absent means automatic width). */
  datatype Layout = Layout(row: Option<string>, columns: Option<Decimal.Decimal>)

  /** The `validate` block of a field, before FEEL expressions in it are evaluated. */
  datatype ValidateConfig = ValidateConfig(
    required: bool,
    pattern: Option<string>,
    min: Option<Value>,
    max: Option<Value>,
    minLength: Option<Value>,
    maxLength: Option<Value>,
    validationType: Option<string>)

  /** A form field after import. */
  datatype Field = Field(
    id: string,
    ftype: FieldType,
    key: Option<string>,
    path: Option<string>,
    parent: Option<string>,
    schemaPath: Path,
    isContainer: bool,
    components: seq<Field>,
    isRepeating: bool,
    disabled: bool,
    defaultValue: Value,
    defaultRepetitions: Option<nat>,
    hide: Option<string>,
    validate: Option<ValidateConfig>,
    decimalDigits: Option<int>,
    increment: Value,
    serializeToString: bool,
    values: Value,
    valuesKey: Option<string>,
    valuesExpression: Option<string>,
    layout: Layout)

  /** `formFieldRegistry`: every imported field by id. */
  type Registry = map<string, Field>

  /** The field's parent is registered and sits higher in the schema (`_path` is shorter). */
  predicate Linked(reg: Registry, f: Field)
  {
    f.parent.Some? ==> f.parent.value in reg && |reg[f.parent.value].schemaPath| < |f.schemaPath|
  }

  /** Every registered field is stored under its own id and is linked to its parent. */
  predicate RegistryLinked(reg: Registry)
  {
    forall id :: id in reg ==> reg[id].id == id && Linked(reg, reg[id])
  }

  /** The field and everything below it are linked to registered parents. */
  predicate TreeLinked(reg: Registry, f: Field)
  {
    Linked(reg, f) && forall i :: 0 <= i < |f.components| ==> TreeLinked(reg, f.components[i])
  }

  /** The height of the `_parent` chain above a field, which ends the walks up the tree. */
  function Rank(reg: Registry, id: string): nat
  {
    if id in reg then |reg[id].schemaPath| + 1 else 0
  }

  /**
   * `getAncestryList(id)`: the field's own id followed by the ids of its
   * parent, grandparent and so on, while those are registered.
   */
  function Ancestry(reg: Registry, id: string): (ids: seq<string>)
    requires RegistryLinked(reg)
    ensures id in reg <==> ids != []
    ensures id in reg ==> ids[0] == id
    ensures forall j :: 0 <= j < |ids| ==> ids[j] in reg
    decreases Rank(reg, id)
  {
    if id !in reg then []
    else
      var f := reg[id];
      [id] + (if f.parent.Some? then Ancestry(reg, f.parent.value) else [])
  }

  /** Each entry of the ancestry list is the registered parent of the entry before it. */
  lemma {:induction false} AncestryChain(reg: Registry, id: string, j: nat)
    requires RegistryLinked(reg)
    requires j + 1 < |Ancestry(reg, id)|
    ensures var ids := Ancestry(reg, id); reg[ids[j]].parent == Some(ids[j + 1])
    decreases Rank(reg, id)
  {
    var f := reg[id];
    if j > 0 {
      AncestryChain(reg, f.parent.value, j - 1);
    }
  }

  /** The list of a registered field is its own id followed by its parent's list. */
  lemma AncestryOfChild(reg: Registry, id: string)
    requires RegistryLinked(reg) && id in reg && reg[id].parent.Some?
    ensures Ancestry(reg, id) == [id] + Ancestry(reg, reg[id].parent.value)
  {
  }

  /** `getAncestryList`, walking the `_parent` links with a loop. */
  method GetAncestryList(reg: Registry, id: string) returns (ids: seq<string>)
    requires RegistryLinked(reg)
    ensures ids == Ancestry(reg, id)
  {
    ids := [];
    var current := if id in reg then Some(reg[id]) else None;
    while current.Some?
      invariant current.Some? ==> current.value.id in reg && reg[current.value.id] == current.value
      invariant ids + (if current.Some? then Ancestry(reg, current.value.id) else []) == Ancestry(reg, id)
      decreases if current.Some? then |current.value.schemaPath| + 1 else 0
    {
      var f := current.value;
      ids := ids + [f.id];
      current := if f.parent.Some? && f.parent.value in reg then Some(reg[f.parent.value]) else None;
    }
  }

  /** `repeatRenderManager.isFieldRepeating(id)`: the id names a repeatable container that is repeating. */
  predicate IsFieldRepeating(reg: Registry, id: Option<string>)
  {
    id.Some? && id.value != "" && id.value in reg && Repeatable(reg[id.value].ftype) && reg[id.value].isRepeating
  }

  /** The field registered under `order[i]` is of type `default`, and none registered before it is. */
  predicate FirstDefaultAt(reg: Registry, order: seq<string>, i: int)
  {
    && 0 <= i < |order| && order[i] in reg && reg[order[i]].ftype == Default
    && forall j :: 0 <= j < i && order[j] in reg ==> reg[order[j]].ftype != Default
  }

  /** `formFieldRegistry.getForm()`: the first registered field of type `default`, in insertion order. */
  function FormOf(reg: Registry, order: seq<string>): (r: Option<Field>)
    ensures r.Some? ==> exists i :: FirstDefaultAt(reg, order, i) && reg[order[i]] == r.value
    ensures r.None? ==> forall i :: 0 <= i < |order| && order[i] in reg ==> reg[order[i]].ftype != Default
  {
    if order == [] then None
    else if order[0] in reg && reg[order[0]].ftype == Default then
      assert FirstDefaultAt(reg, order, 0);
      Some(reg[order[0]])
    else
      var r := FormOf(reg, order[1..]);
      assert r.Some? ==> exists i :: FirstDefaultAt(reg, order, i) && reg[order[i]] == r.value by {
        if r.Some? {
          var i :| FirstDefaultAt(reg, order[1..], i) && reg[order[1..][i]] == r.value;
          assert order[i + 1] == order[1..][i];
          assert FirstDefaultAt(reg, order, i + 1) by {
            forall j | 0 <= j < i + 1 && order[j] in reg
              ensures reg[order[j]].ftype != Default
            {
              if j > 0 {
                assert order[j] == order[1..][j - 1];
              }
            }
          }
        }
      }
      r
  }
}
