// The form's data lifecycle: initialising the data from an input object,
// collecting the data to submit, validating every field into an error tree,
// updating one field, and resetting to the initial data. The three tree walks
// thread the accumulator object they `set` into through their results.
module FormData {
  import opened Wrappers
  import opened Data
  import opened Fields
  import opened ValuePaths
  import opened ConditionChecker
  import opened Sanitize
  import opened Validator

  /** What the form reads from its services: the imported fields and the oracles for FEEL, regexes and dates. */
  datatype Services = Services(
    reg: Registry,
    root: Option<Field>,
    oracles: Oracles,
    fits: (Field, string) -> bool,
    unaryTest: (string, Value) -> Value)

  predicate ServicesValid(s: Services)
  {
    RegistryLinked(s.reg) && KeysPresent(s.reg) && (s.root.Some? ==> Imported(s.reg, s.root.value))
  }

  /** `getValuePath(field, { indexes })` inside a walk. */
  function PathAt(s: Services, f: Field, ix: Indexes): Path
    requires ServicesValid(s) && Linked(s.reg, f) && HasKey(f)
  {
    ValuePath(s.reg, f, Some(IndexMap(ix)))
  }

  /** A repeating container: its type is repeatable and the field repeats. */
  predicate Repeats(f: Field) { Repeatable(f.ftype) && f.isRepeating }

  // -------------------------------------------------------------------
  // Initialisation

  /** The input value after the type's sanitiser; an undefined input stays undefined. */
  function SanitizedInput(f: Field, data: Value, raw: Value, fits: (Field, string) -> bool): Value
  {
    if raw.Undefined? then Undefined else SanitizeValue(f, data, raw, fits)
  }

  /** The value a keyed field starts with: its sanitised input, else its default, else the type's empty value. */
  function InitialFieldValue(f: Field, data: Value, raw: Value, fits: (Field, string) -> bool): (r: Value)
    ensures var v := SanitizedInput(f, data, raw, fits);
      && (!v.Undefined? ==> r == v)
      && (v.Undefined? && !f.defaultValue.Undefined? ==> r == f.defaultValue)
      && (v.Undefined? && f.defaultValue.Undefined? ==> r == EmptyValue(f.ftype))
    ensures Keyed(f.ftype) ==> !r.Undefined?
  {
    var v := SanitizedInput(f, data, raw, fits);
    if !v.Undefined? then v else if !f.defaultValue.Undefined? then f.defaultValue else EmptyValue(f.ftype)
  }

  /** `n` fresh empty objects. */
  function EmptyObjects(n: nat): (r: seq<Value>)
    ensures |r| == n && forall i :: 0 <= i < n ==> r[i] == EmptyObj
  {
    if n == 0 then [] else [EmptyObj] + EmptyObjects(n - 1)
  }

  /** `valueData.map(val => isObject(val) ? val : {})`. */
  function ObjectsOnly(es: seq<Value>): (r: seq<Value>)
    ensures |r| == |es|
    ensures forall i :: 0 <= i < |es| ==> r[i] == (if es[i].Obj? then es[i] else EmptyObj)
  {
    if es == [] then [] else [if es[0].Obj? then es[0] else EmptyObj] + ObjectsOnly(es[1..])
  }

  /**
   * The array a repeating container starts with: the input array with its
   * non-object entries replaced by `{}`, or, when the input is not an array,
   * `defaultRepetitions` empty objects (one when unset).
   */
  function RepeaterData(f: Field, raw: Value): (r: seq<Value>)
    ensures forall i :: 0 <= i < |r| ==> r[i].Obj?
    ensures raw.Arr? ==> |r| == |raw.elems| && forall i :: 0 <= i < |r| && raw.elems[i].Obj? ==> r[i] == raw.elems[i]
    ensures !raw.Arr? ==> |r| == (if f.defaultRepetitions.None? then 1 else f.defaultRepetitions.value)
    ensures !raw.Arr? ==> forall i :: 0 <= i < |r| ==> r[i] == EmptyObj
  {
    var es := if raw.Arr? then raw.elems
      else EmptyObjects(if f.defaultRepetitions.None? then 1 else f.defaultRepetitions.value);
    ObjectsOnly(es)
  }

  /** `initializeFieldDataRecursively(work, f, ix)`, reading the input `data`; returns the new working data. */
  function Init(s: Services, data: Value, f: Field, ix: Indexes, work: Value): Value
    requires ServicesValid(s) && Imported(s.reg, f)
    decreases f, 2
  {
    var vp := PathAt(s, f, ix);
    var raw := Get(data, vp);
    var w := if Keyed(f.ftype) then Set(work, vp, InitialFieldValue(f, data, raw, s.fits)) else work;
    if !f.isContainer then w
    else if Repeats(f) then
      var elems := RepeaterData(f, SanitizedInput(f, data, raw, s.fits));
      var w' := Set(w, vp, Arr(elems));
      if f.id in IndexMap(ix) then InitChildren(s, data, f, 0, ix, w')
      else InitRepeat(s, data, f, |elems|, 0, ix, w')
    else InitChildren(s, data, f, 0, ix, w)
  }

  /** The children from `j` on, with the same indexes. */
  function InitChildren(s: Services, data: Value, f: Field, j: nat, ix: Indexes, work: Value): Value
    requires ServicesValid(s) && Imported(s.reg, f) && j <= |f.components|
    decreases f, 0, |f.components| - j
  {
    if j == |f.components| then work
    else InitChildren(s, data, f, j + 1, ix, Init(s, data, f.components[j], ix, work))
  }

  /** Repetitions `i..n-1` of `f`: all children, with `f`'s index set to the repetition. */
  function InitRepeat(s: Services, data: Value, f: Field, n: nat, i: nat, ix: Indexes, work: Value): Value
    requires ServicesValid(s) && Imported(s.reg, f) && i <= n
    decreases f, 1, n - i
  {
    if i == n then work
    else InitRepeat(s, data, f, n, i + 1, ix, InitChildren(s, data, f, 0, ix + [(f.id, i)], work))
  }

  /**
   * `_getInitializedFieldData(data, { container, indexes })`: initialises a
   * clone of the input below `container` and reads back the container's
   * data (with its own index appended when indexed ahead of time), `{}` when
   * that is undefined.
   */
  function InitializedFieldData(s: Services, data: Value, container: Field, ix: Indexes): Value
    requires ServicesValid(s) && Imported(s.reg, container)
  {
    var base := PathAt(s, container, ix);
    var m := IndexMap(ix);
    var p := if container.id in m then base + [Index(m[container.id])] else base;
    GetOr(Init(s, data, container, ix, Clone(data)), p, EmptyObj)
  }

  /** A keyed field writes its initial value at its value path. */
  lemma InitKeyedValue(s: Services, data: Value, f: Field, ix: Indexes, work: Value)
    requires ServicesValid(s) && Imported(s.reg, f) && Keyed(f.ftype) && !f.isContainer
    requires Writable(work, PathAt(s, f, ix))
    ensures var vp := PathAt(s, f, ix);
      Get(Init(s, data, f, ix, work), vp) == InitialFieldValue(f, data, Get(data, vp), s.fits)
  {
    var vp := PathAt(s, f, ix);
    GetSetWritable(work, vp, InitialFieldValue(f, data, Get(data, vp), s.fits));
  }

  /** A field that neither binds a value nor holds children leaves the data alone. */
  lemma InitLeafUnbound(s: Services, data: Value, f: Field, ix: Indexes, work: Value)
    requires ServicesValid(s) && Imported(s.reg, f) && !Keyed(f.ftype) && !f.isContainer
    ensures Init(s, data, f, ix, work) == work
  {
  }

  // -------------------------------------------------------------------
  // Submit data

  /** `collectSubmitDataRecursively(work, f, ix)` over the form data `data`. */
  function Collect(s: Services, data: Value, f: Field, ix: Indexes, work: Value): Value
    requires ServicesValid(s) && Imported(s.reg, f)
    decreases f, 2
  {
    var vp := PathAt(s, f, ix);
    var w := if !f.disabled && Keyed(f.ftype) then Set(work, vp, Get(data, vp)) else work;
    if !f.isContainer then w
    else if Repeats(f) then
      var vd := Get(data, vp);
      if !vd.Arr? then w else CollectRepeat(s, data, f, |vd.elems|, 0, ix, w)
    else CollectChildren(s, data, f, 0, ix, w)
  }

  function CollectChildren(s: Services, data: Value, f: Field, j: nat, ix: Indexes, work: Value): Value
    requires ServicesValid(s) && Imported(s.reg, f) && j <= |f.components|
    decreases f, 0, |f.components| - j
  {
    if j == |f.components| then work
    else CollectChildren(s, data, f, j + 1, ix, Collect(s, data, f.components[j], ix, work))
  }

  function CollectRepeat(s: Services, data: Value, f: Field, n: nat, i: nat, ix: Indexes, work: Value): Value
    requires ServicesValid(s) && Imported(s.reg, f) && i <= n
    decreases f, 1, n - i
  {
    if i == n then work
    else CollectRepeat(s, data, f, n, i + 1, ix, CollectChildren(s, data, f, 0, ix + [(f.id, i)], work))
  }

  /** The filter `_getSubmitData` applies: value paths, hidden repeaters removed whole. */
  function SubmitEnv(s: Services, data: Value): (env: Env)
    ensures ServicesValid(s) ==> EnvValid(env)
  {
    Env(s.reg, data, ByValuePath, false, s.unaryTest)
  }

  /** `_getSubmitData`: the enabled keyed values copied into `{}`, then hidden ones removed. */
  function SubmitData(s: Services, data: Value): (r: Result<Value, ConditionError>)
    requires ServicesValid(s)
    ensures s.root.None? <==> r.Failure?
  {
    if s.root.None? then Failure(NoForm)
    else ApplyConditions(SubmitEnv(s, data), s.root, Collect(s, data, s.root.value, [], EmptyObj))
  }

  /** Every field of the tree is disabled. */
  predicate AllDisabled(f: Field)
  {
    f.disabled && forall j :: 0 <= j < |f.components| ==> AllDisabled(f.components[j])
  }

  /** A tree of disabled fields contributes nothing to the submit data. */
  lemma {:induction false} CollectAllDisabled(s: Services, data: Value, f: Field, ix: Indexes, work: Value)
    requires ServicesValid(s) && Imported(s.reg, f) && AllDisabled(f)
    ensures Collect(s, data, f, ix, work) == work
    decreases f, 2
  {
    if f.isContainer {
      var vp := PathAt(s, f, ix);
      if Repeats(f) {
        var vd := Get(data, vp);
        if vd.Arr? {
          CollectRepeatAllDisabled(s, data, f, |vd.elems|, 0, ix, work);
        }
      } else {
        CollectChildrenAllDisabled(s, data, f, 0, ix, work);
      }
    }
  }

  lemma {:induction false} CollectChildrenAllDisabled(s: Services, data: Value, f: Field, j: nat, ix: Indexes, work: Value)
    requires ServicesValid(s) && Imported(s.reg, f) && AllDisabled(f) && j <= |f.components|
    ensures CollectChildren(s, data, f, j, ix, work) == work
    decreases f, 0, |f.components| - j
  {
    if j < |f.components| {
      CollectAllDisabled(s, data, f.components[j], ix, work);
      CollectChildrenAllDisabled(s, data, f, j + 1, ix, work);
    }
  }

  lemma {:induction false} CollectRepeatAllDisabled(s: Services, data: Value, f: Field, n: nat, i: nat, ix: Indexes, work: Value)
    requires ServicesValid(s) && Imported(s.reg, f) && AllDisabled(f) && i <= n
    ensures CollectRepeat(s, data, f, n, i, ix, work) == work
    decreases f, 1, n - i
  {
    if i < n {
      CollectChildrenAllDisabled(s, data, f, 0, ix + [(f.id, i)], work);
      CollectRepeatAllDisabled(s, data, f, n, i + 1, ix, work);
    }
  }

  /** An enabled keyed field copies the form data at its value path. */
  lemma CollectKeyedCopies(s: Services, data: Value, f: Field, ix: Indexes, work: Value)
    requires ServicesValid(s) && Imported(s.reg, f) && Keyed(f.ftype) && !f.disabled && !f.isContainer
    requires Writable(work, PathAt(s, f, ix))
    ensures var vp := PathAt(s, f, ix); Get(Collect(s, data, f, ix, work), vp) == Get(data, vp)
  {
    var vp := PathAt(s, f, ix);
    GetSetWritable(work, vp, Get(data, vp));
  }

  /** With no condition true anywhere, the submit data is exactly what the walk collected. */
  lemma SubmitNothingHidden(s: Services, data: Value)
    requires ServicesValid(s) && s.root.Some? && NothingHides(SubmitEnv(s, data))
    ensures SubmitData(s, data) == Success(Clone(Collect(s, data, s.root.value, [], EmptyObj)))
  {
    ApplyConditionsNothingHidden(SubmitEnv(s, data), s.root.value, Collect(s, data, s.root.value, [], EmptyObj));
  }

  // -------------------------------------------------------------------
  // Validation

  /** A list of error messages as stored in the error tree. */
  function Messages(ms: seq<string>): (r: Value)
    ensures r.Arr? && |r.elems| == |ms| && forall i :: 0 <= i < |ms| ==> r.elems[i] == Str(ms[i])
  {
    if ms == [] then Arr([]) else Arr([Str(ms[0])] + Messages(ms[1..]).elems)
  }

  /** `getErrorPath(field, indexes)`: the field id followed by the repetition indexes. */
  function ErrorPath(f: Field, ix: Option<Indexes>): (p: Path)
    ensures p != [] && p[0] == Key(f.id)
    ensures |p| == 1 + (if ix.None? then 0 else |ix.value|)
  {
    [Key(f.id)] + (if ix.None? then [] else IndexValues(ix.value))
  }

  /** The extended indexes `{ ...indexes, [id]: i }` of a repetition. */
  function Extend(ix: Option<Indexes>, id: string, i: nat): Indexes
  {
    (if ix.None? then [] else ix.value) + [(id, i)]
  }

  /** The value path inside the validation walk, whose root call passes no indexes. */
  function ValidationPath(s: Services, f: Field, ix: Option<Indexes>): Path
    requires ServicesValid(s) && Linked(s.reg, f) && HasKey(f)
  {
    ValuePath(s.reg, f, if ix.None? then None else Some(IndexMap(ix.value)))
  }

  /**
   * `validateFieldRecursively(errors, f, ix)`: a disabled field is skipped
   * with everything below it; otherwise its errors, if any, are stored at its
   * error path. A thrown validation error ends the walk.
   */
  function ValidateTree(s: Services, data: Value, f: Field, ix: Option<Indexes>, errors: Value): Result<Value, ValidatorError>
    requires ServicesValid(s) && Imported(s.reg, f)
    decreases f, 2
  {
    if f.disabled then Success(errors)
    else
      var vd := Get(data, ValidationPath(s, f, ix));
      var fe := ValidateField(f, vd, s.oracles);
      if fe.Failure? then Failure(fe.error)
      else
        var e := if |fe.value| > 0 then Set(errors, ErrorPath(f, ix), Messages(fe.value)) else errors;
        if !f.isContainer then Success(e)
        else if Repeats(f) then
          if !vd.Arr? then Success(e) else ValidateRepeat(s, data, f, |vd.elems|, 0, ix, e)
        else ValidateChildren(s, data, f, 0, ix, e)
  }

  function ValidateChildren(s: Services, data: Value, f: Field, j: nat, ix: Option<Indexes>, errors: Value): Result<Value, ValidatorError>
    requires ServicesValid(s) && Imported(s.reg, f) && j <= |f.components|
    decreases f, 0, |f.components| - j
  {
    if j == |f.components| then Success(errors)
    else
      var r := ValidateTree(s, data, f.components[j], ix, errors);
      if r.Failure? then r else ValidateChildren(s, data, f, j + 1, ix, r.value)
  }

  function ValidateRepeat(s: Services, data: Value, f: Field, n: nat, i: nat, ix: Option<Indexes>, errors: Value): Result<Value, ValidatorError>
    requires ServicesValid(s) && Imported(s.reg, f) && i <= n
    decreases f, 1, n - i
  {
    if i == n then Success(errors)
    else
      var r := ValidateChildren(s, data, f, 0, Some(Extend(ix, f.id, i)), errors);
      if r.Failure? then r else ValidateRepeat(s, data, f, n, i + 1, ix, r.value)
  }

  /** The filter `validate` applies: error paths, only leaves deleted. */
  function ValidateEnv(s: Services, data: Value): (env: Env)
    ensures ServicesValid(s) ==> EnvValid(env)
  {
    Env(s.reg, data, ByErrorPath, true, s.unaryTest)
  }

  /** What `_update` stores at an error path: the messages, or undefined (deleting the entry) when there are none. */
  function StoredErrors(ms: seq<string>): (r: Value)
    ensures ms == [] <==> r.Undefined?
    ensures ms != [] ==> r == Messages(ms)
  {
    if ms == [] then Undefined else Messages(ms)
  }

  datatype FormError = ReadOnlyForm | MissingForm | ValidationFailed(e: ValidatorError)

  /** `validate()`: the error tree of the whole form, with the errors of hidden fields removed. */
  function Validate(s: Services, data: Value): (r: Result<Value, FormError>)
    requires ServicesValid(s)
    ensures s.root.None? ==> r == Failure(MissingForm)
  {
    if s.root.None? then Failure(MissingForm)
    else
      var w := ValidateTree(s, data, s.root.value, None, EmptyObj);
      if w.Failure? then Failure(ValidationFailed(w.error))
      else
        var f := ApplyConditions(ValidateEnv(s, data), s.root, w.value);
        Success(f.value)
  }

  /** A disabled field is skipped together with all fields below it. */
  lemma ValidateSkipsDisabled(s: Services, data: Value, f: Field, ix: Option<Indexes>, errors: Value)
    requires ServicesValid(s) && Imported(s.reg, f) && f.disabled
    ensures ValidateTree(s, data, f, ix, errors) == Success(errors)
  {
  }

  /**
   * An enabled field without children stores its messages at its error path
   * when there are any, and leaves the error tree alone when there are none.
   */
  lemma ValidateLeafErrors(s: Services, data: Value, f: Field, ix: Option<Indexes>, errors: Value)
    requires ServicesValid(s) && Imported(s.reg, f) && !f.disabled && !f.isContainer
    requires ValidateField(f, Get(data, ValidationPath(s, f, ix)), s.oracles).Success?
    requires Writable(errors, ErrorPath(f, ix))
    ensures var fe := ValidateField(f, Get(data, ValidationPath(s, f, ix)), s.oracles).value;
      var r := ValidateTree(s, data, f, ix, errors);
      && r.Success?
      && (fe == [] ==> r.value == errors)
      && (fe != [] ==> Get(r.value, ErrorPath(f, ix)) == Messages(fe))
  {
    assert Linked(s.reg, f) && HasKey(f);
    hide *;
    LeafStep(s, data, f, ix, errors);
    var fe := ValidateField(f, Get(data, ValidationPath(s, f, ix)), s.oracles).value;
    if fe != [] {
      GetSetWritable(errors, ErrorPath(f, ix), Messages(fe));
    }
  }

  /** One step of the walk at an enabled leaf whose validation did not throw. */
  lemma LeafStep(s: Services, data: Value, f: Field, ix: Option<Indexes>, errors: Value)
    requires ServicesValid(s) && Imported(s.reg, f) && !f.disabled && !f.isContainer
    requires ValidateField(f, Get(data, ValidationPath(s, f, ix)), s.oracles).Success?
    ensures var fe := ValidateField(f, Get(data, ValidationPath(s, f, ix)), s.oracles).value;
      ValidateTree(s, data, f, ix, errors)
        == Success(if |fe| > 0 then Set(errors, ErrorPath(f, ix), Messages(fe)) else errors)
  {
    hide ValidateField, Set, Get, ValidationPath, ErrorPath, Messages, ValidateRepeat, ValidateChildren;
  }

  // -------------------------------------------------------------------
  // The form object

  /** A form's state: current and initial data, the error tree and the read-only and disabled properties. */
  class Form {
    var services: Services
    var data: Value
    var initialData: Value
    var errors: Value
    var readOnly: bool
    var disabled: bool

    ghost predicate Valid()
      reads this
    {
      ServicesValid(services)
    }

    /** A new form has no data yet and no errors. */
    constructor (s: Services, readOnly: bool, disabled: bool)
      requires ServicesValid(s)
      ensures Valid()
      ensures services == s && data == Null && initialData == Null && errors == EmptyObj
      ensures this.readOnly == readOnly && this.disabled == disabled
    {
      services := s;
      data := Null;
      initialData := Null;
      errors := EmptyObj;
      this.readOnly := readOnly;
      this.disabled := disabled;
    }

    /**
     * `importSchema(schema, data)`, with the importer's result given as `s`:
     * the data becomes the initialised input, the initial data a copy of it,
     * and the errors are cleared.
     */
    method ImportSchema(s: Services, input: Value) returns (r: Result<Value, FormError>)
      requires Valid() && ServicesValid(s)
      modifies this
      ensures Valid()
      ensures s.root.None? ==> r == Failure(MissingForm) && unchanged(this)
      ensures s.root.Some? ==> && r == Success(data)
                               && services == s
                               && data == InitializedFieldData(s, Clone(input), s.root.value, [])
                               && initialData == Clone(data) && errors == EmptyObj
      ensures readOnly == old(readOnly) && disabled == old(disabled)
    {
      hide InitializedFieldData, Clone;
      if s.root.None? {
        return Failure(MissingForm);
      }
      services := s;
      data := InitializedFieldData(s, Clone(input), s.root.value, []);
      errors := EmptyObj;
      initialData := Clone(data);
      r := Success(data);
    }

    /** `submit()`: refused on a read-only or disabled form; otherwise the submit data and the new error tree. */
    method Submit() returns (r: Result<(Value, Value), FormError>)
      requires Valid()
      modifies this
      ensures Valid()
      ensures old(readOnly || disabled) ==> r == Failure(ReadOnlyForm) && unchanged(this)
      ensures !old(readOnly || disabled) && services.root.None? ==> r == Failure(MissingForm)
      ensures r.Success? ==> && r.value.0 == SubmitData(services, data).value
                             && Validate(services, data) == Success(r.value.1)
                             && errors == r.value.1
      ensures services == old(services) && data == old(data) && initialData == old(initialData)
      ensures readOnly == old(readOnly) && disabled == old(disabled)
      ensures r.Failure? ==> errors == old(errors)
    {
      hide SubmitData, Validate;
      if readOnly || disabled {
        return Failure(ReadOnlyForm);
      }
      var submitted := SubmitData(services, data);
      if submitted.Failure? {
        return Failure(MissingForm);
      }
      var e := Validate(services, data);
      if e.Failure? {
        return Failure(e.error);
      }
      errors := e.value;
      r := Success((submitted.value, e.value));
    }

    /** `validate()`: the error tree of the current data becomes the form's errors. */
    method ValidateForm() returns (r: Result<Value, FormError>)
      requires Valid()
      modifies this
      ensures Valid()
      ensures r == Validate(services, data)
      ensures r.Success? ==> errors == r.value
      ensures r.Failure? ==> errors == old(errors)
      ensures services == old(services) && data == old(data) && initialData == old(initialData)
      ensures readOnly == old(readOnly) && disabled == old(disabled)
    {
      hide Validate;
      r := Validate(services, data);
      if r.Success? {
        errors := r.value;
      }
    }

    /** `reset()`: back to a copy of the initial data, with no errors. */
    method Reset()
      requires Valid()
      modifies this
      ensures Valid()
      ensures data == Clone(initialData) && errors == EmptyObj
      ensures services == old(services) && initialData == old(initialData)
      ensures readOnly == old(readOnly) && disabled == old(disabled)
    {
      data := Clone(initialData);
      errors := EmptyObj;
    }

    /**
     * `_update({ field, indexes, value })`: the value is written at the field's
     * value path and its errors at its error path, removed when there are none.
     */
    method Update(f: Field, ix: Option<Indexes>, value: Value) returns (r: Result<seq<string>, FormError>)
      requires Valid() && Linked(services.reg, f) && HasKey(f)
      modifies this
      ensures Valid() && services == old(services)
      ensures ValidateField(f, value, services.oracles).Failure? ==>
        r == Failure(ValidationFailed(ValidateField(f, value, services.oracles).error)) && unchanged(this)
      ensures ValidateField(f, value, services.oracles).Success? ==> r == Success(ValidateField(f, value, services.oracles).value)
      ensures r.Success? ==> data == Clone(Set(old(data), ValidationPath(services, f, ix), value))
      ensures r.Success? ==> errors == Clone(Set(old(errors), ErrorPath(f, ix), StoredErrors(r.value)))
      ensures initialData == old(initialData)
      ensures readOnly == old(readOnly) && disabled == old(disabled)
    {
      hide ValidateField, Set, Clone, ValidationPath, ErrorPath, StoredErrors;
      var fe := ValidateField(f, value, services.oracles);
      if fe.Failure? {
        return Failure(ValidationFailed(fe.error));
      }
      var vp := ValidationPath(services, f, ix);
      data := Clone(Set(data, vp, value));
      errors := Clone(Set(errors, ErrorPath(f, ix), StoredErrors(fe.value)));
      r := Success(fe.value);
    }

    /** `setProperty('readOnly' | 'disabled', value)`. */
    method SetProperties(readOnly: bool, disabled: bool)
      modifies this
      ensures this.readOnly == readOnly && this.disabled == disabled
      ensures services == old(services) && data == old(data) && initialData == old(initialData) && errors == old(errors)
    {
      this.readOnly := readOnly;
      this.disabled := disabled;
    }
  }
}
