// Hiding fields by condition: `applyConditions` returns a copy of the data
// (or of an error tree) from which the values of hidden fields are removed.
module ConditionChecker {
  import opened Wrappers
  import opened Text
  import opened Data
  import opened Fields
  import opened ValuePaths
  import Decimal

  /** Repetition indexes by repeater id, in the order the scopes were entered. */
  type Indexes = seq<(string, nat)>

  /** The object `{ ...indexes, [id]: i }` builds, as a lookup map. */
  function IndexMap(ix: Indexes): (m: map<string, nat>)
    ensures forall j :: 0 <= j < |ix| ==> ix[j].0 in m
  {
    if ix == [] then map[] else IndexMap(ix[..|ix| - 1])[ix[|ix| - 1].0 := ix[|ix| - 1].1]
  }

  /** `Object.values(indexes)` as path segments. */
  function IndexValues(ix: Indexes): (p: Path)
    ensures |p| == |ix| && forall j :: 0 <= j < |ix| ==> p[j] == Index(ix[j].1)
  {
    if ix == [] then [] else [Index(ix[0].1)] + IndexValues(ix[1..])
  }

  /**
   * `check(condition, data)`: only a non-empty string starting with `=` is an
   * expression, which the FEEL oracle `unaryTest` evaluates (an evaluation
   * error reads as null); anything else checks to null.
   */
  function Check(condition: Option<string>, data: Value, unaryTest: (string, Value) -> Value): (r: Value)
    ensures (condition.None? || !StartsWith(condition.value, "=")) ==> r == Null
    ensures condition.Some? && StartsWith(condition.value, "=") ==> r == unaryTest(condition.value[1..], data)
  {
    if condition.None? || condition.value == "" then Null
    else if !StartsWith(condition.value, "=") then Null
    else unaryTest(condition.value[1..], data)
  }

  /** `_checkHideCondition`: hidden only when the condition checks to exactly `true`. */
  predicate HideCondition(condition: Option<string>, data: Value, unaryTest: (string, Value) -> Value)
  {
    condition.Some? && condition.value != "" && Check(condition, data, unaryTest) == Bool(true)
  }

  /** The two filter paths in use: the value path (the default) and the error path `[id, ...indexes]` of `validate`. */
  datatype FilterMode = ByValuePath | ByErrorPath

  /** Everything `applyConditions` reads but does not change. */
  datatype Env = Env(
    reg: Registry,
    contextData: Value,
    mode: FilterMode,
    leafNodeDeletionOnly: bool,
    unaryTest: (string, Value) -> Value)

  /** The scope context: repetition indexes, 1-based expression indexes, and the data in scope. */
  datatype Scope = Scope(indexes: Indexes, expressionIndexes: seq<nat>, scopeData: Value, parentScopeData: Value)

  predicate EnvValid(env: Env)
  {
    RegistryLinked(env.reg) && KeysPresent(env.reg)
  }

  /** `getFilterPath(field, indexes)`. */
  function FilterPath(env: Env, f: Field, ix: Indexes): Path
    requires EnvValid(env) && Linked(env.reg, f) && HasKey(f)
  {
    match env.mode
    case ByValuePath => ValuePath(env.reg, f, Some(IndexMap(ix)))
    case ByErrorPath => [Key(f.id)] + IndexValues(ix)
  }

  function NumberList(ns: seq<nat>): (vs: seq<Value>)
    ensures |vs| == |ns| && forall k :: 0 <= k < |ns| ==> vs[k] == Num(Decimal.FromInt(ns[k]))
  {
    if ns == [] then [] else [Num(Decimal.FromInt(ns[0]))] + NumberList(ns[1..])
  }

  /** `buildExpressionContext({ this, data, i, parent })`: the special keys, the data's own keys, then `_this_`, `_i_`, `_parent_`. */
  function ExpressionContext(env: Env, scope: Scope): Value
  {
    var i := Arr(NumberList(scope.expressionIndexes));
    var special := map["this" := scope.scopeData, "i" := i, "parent" := scope.parentScopeData];
    var wrapped := map["_this_" := scope.scopeData, "_i_" := i, "_parent_" := scope.parentScopeData];
    var data := if env.contextData.Obj? then env.contextData.props else map[];
    Obj(special + data + wrapped)
  }

  // -------------------------------------------------------------------
  // _cleanlyClearDataAtPath

  /**
   * The do-while of `_cleanlyClearDataAtPath` from working path `p`: delete
   * at `p`, pop a segment, and go on while the path is non-empty and the
   * value there is an empty object or an all-undefined array.
   */
  function ClearLoop(w: Value, p: Path): (r: Value)
    ensures r.Obj? == w.Obj? && r.Arr? == w.Arr?
    decreases |p|
  {
    var cleared := Set(w, p, Undefined);
    if p == [] then cleared
    else
      var q := p[..|p| - 1];
      var parent := Get(cleared, q);
      if q != [] && (IsEmptyObject(parent) || IsEmptyArray(parent)) then ClearLoop(cleared, q) else cleared
  }

  /** `_cleanlyClearDataAtPath(valuePath, obj)`, with the do-while loop of the source. */
  method CleanlyClearDataAtPath(valuePath: Path, obj: Value) returns (r: Value)
    ensures r == ClearLoop(obj, valuePath)
  {
    var working := valuePath;
    r := obj;
    var recurse := true;
    while recurse
      invariant recurse ==> ClearLoop(r, working) == ClearLoop(obj, valuePath)
      invariant !recurse ==> r == ClearLoop(obj, valuePath)
      decreases |working| + (if recurse then 1 else 0)
    {
      ghost var before, p := r, working;
      r := Set(r, working, Undefined);
      if working != [] {
        working := working[..|working| - 1];
      }
      var parent := Get(r, working);
      recurse := |working| > 0 && (IsEmptyObject(parent) || IsEmptyArray(parent));
      if !recurse {
        assert r == ClearLoop(before, p);
      }
    }
  }

  lemma GetBelowUndefined(v: Value, q: Path, rest: Path)
    requires Get(v, q).Undefined?
    ensures Get(v, q + rest).Undefined?
    decreases |q|
  {
    if q == [] {
      GetNil(v, rest);
    } else if !IsNil(v) {
      assert (q + rest)[1..] == q[1..] + rest;
      GetBelowUndefined(Child(v, q[0]), q[1..], rest);
    }
  }

  /** After `_cleanlyClearDataAtPath` the value path reads as undefined. */
  lemma {:induction false} ClearLeaf(w: Value, p: Path)
    requires p != []
    ensures Get(ClearLoop(w, p), p).Undefined?
    decreases |p|
  {
    var cleared := Set(w, p, Undefined);
    GetSetUndefined(w, p);
    var q := p[..|p| - 1];
    if q != [] && (IsEmptyObject(Get(cleared, q)) || IsEmptyArray(Get(cleared, q))) {
      ClearLeaf(cleared, q);
      GetBelowParent(ClearLoop(cleared, q), p);
    }
  }

  lemma GetBelowParent(v: Value, p: Path)
    requires p != [] && Get(v, p[..|p| - 1]).Undefined?
    ensures Get(v, p).Undefined?
  {
    var q := p[..|p| - 1];
    assert p == q + [p[|p| - 1]];
    GetBelowUndefined(v, q, [p[|p| - 1]]);
  }

  lemma GetSetOtherTop(v: Value, p: Path, q: Path, x: Value)
    requires p != [] && q != []
    requires SegKey(p[0]) != SegKey(q[0]) && p[0].Index? == q[0].Index?
    ensures Get(Set(v, p, x), q) == Get(v, q)
  {
    if |p| == 1 {
      ChildPutOther(v, p[0], q[0], x);
    } else {
      ChildPutOther(v, p[0], q[0], Set(Filled(Child(v, p[0]), p[1]), p[1..], x));
    }
  }

  /** Clearing never reaches outside the top-level entry the path starts with. */
  lemma {:induction false} ClearStaysInside(w: Value, p: Path, q: Path)
    requires p != [] && q != []
    requires SegKey(p[0]) != SegKey(q[0]) && p[0].Index? == q[0].Index?
    ensures Get(ClearLoop(w, p), q) == Get(w, q)
    decreases |p|
  {
    var cleared := Set(w, p, Undefined);
    GetSetOtherTop(w, p, q, Undefined);
    var r := p[..|p| - 1];
    if r != [] && (IsEmptyObject(Get(cleared, r)) || IsEmptyArray(Get(cleared, r))) {
      ClearStaysInside(cleared, r, q);
    }
  }

  /** Clearing stops at the first ancestor that still holds something: an ancestor with other content is kept. */
  lemma ClearKeepsNonEmptyParent(w: Value, p: Path)
    requires |p| >= 2
    requires var parent := Get(Set(w, p, Undefined), p[..|p| - 1]);
      !IsEmptyObject(parent) && !IsEmptyArray(parent)
    ensures ClearLoop(w, p) == Set(w, p, Undefined)
  {
  }

  // -------------------------------------------------------------------
  // applyConditions

  /**
   * `executeRecursivelyOnFields` with the callback of
   * `_applyConditionsWithinScope`, on field `f` whose inherited context says
   * `hidden`; `startHidden` is the scope's flag. Returns the working data.
   */
  function Walk(env: Env, f: Field, scope: Scope, startHidden: bool, hidden: bool, work: Value): Value
    requires EnvValid(env) && Imported(env.reg, f)
    decreases f, 3
  {
    if Keyed(f.ftype) then
      var h := startHidden || hidden || HideCondition(f.hide, ExpressionContext(env, scope), env.unaryTest);
      if h then ClearLoop(work, FilterPath(env, f, scope.indexes)) else work
    else if Pathed(f.ftype) then
      var h := startHidden || hidden || HideCondition(f.hide, ExpressionContext(env, scope), env.unaryTest);
      if Repeatable(f.ftype) && (!h || env.leafNodeDeletionOnly) then
        var rv := Get(env.contextData, ValuePath(env.reg, f, Some(IndexMap(scope.indexes))));
        if !rv.Arr? || |rv.elems| == 0 || !f.isContainer || |f.components| == 0 then work
        else Repeat(env, f, rv.elems, 0, scope, h, work)
      else if h && !env.leafNodeDeletionOnly && Repeatable(f.ftype) then
        ClearLoop(work, FilterPath(env, f, scope.indexes))
      else if f.isContainer then WalkChildren(env, f, 0, scope, startHidden, h, work)
      else work
    else if f.isContainer then WalkChildren(env, f, 0, scope, startHidden, hidden, work)
    else work
  }

  /** Children in order, each with a copy of the parent's context. */
  function WalkChildren(env: Env, f: Field, j: nat, scope: Scope, startHidden: bool, hidden: bool, work: Value): Value
    requires EnvValid(env) && Imported(env.reg, f) && j <= |f.components|
    decreases f, 0, |f.components| - j
  {
    if j == |f.components| then work
    else WalkChildren(env, f, j + 1, scope, startHidden, hidden, Walk(env, f.components[j], scope, startHidden, hidden, work))
  }

  /** The scope of the `i`-th repetition of repeater `f`. */
  function RepetitionScope(f: Field, elems: seq<Value>, i: nat, scope: Scope): (s: Scope)
    requires i < |elems|
    ensures s.indexes == scope.indexes + [(f.id, i)]
    ensures s.expressionIndexes == scope.expressionIndexes + [i + 1]
    ensures s.scopeData == elems[i] && s.parentScopeData == scope.scopeData
  {
    Scope(scope.indexes + [(f.id, i)], scope.expressionIndexes + [i + 1], elems[i], scope.scopeData)
  }

  /** The repetitions `i..` of repeater `f`: every child is walked in each repetition's scope. */
  function Repeat(env: Env, f: Field, elems: seq<Value>, i: nat, scope: Scope, hidden: bool, work: Value): Value
    requires EnvValid(env) && Imported(env.reg, f) && i <= |elems|
    decreases f, 2, |elems| - i
  {
    if i == |elems| then work
    else
      var w := RepeatChildren(env, f, 0, RepetitionScope(f, elems, i, scope), hidden, work);
      Repeat(env, f, elems, i + 1, scope, hidden, w)
  }

  /** `components.forEach(c => _applyConditionsWithinScope(c, newScopeContext, context.isHidden))`. */
  function RepeatChildren(env: Env, f: Field, j: nat, scope: Scope, hidden: bool, work: Value): Value
    requires EnvValid(env) && Imported(env.reg, f) && j <= |f.components|
    decreases f, 1, |f.components| - j
  {
    if j == |f.components| then work
    else RepeatChildren(env, f, j + 1, scope, hidden, Walk(env, f.components[j], scope, hidden, false, work))
  }

  datatype ConditionError = NoForm

  /**
   * `applyConditions(data, contextData, options)`: walks the form from its
   * root over a clone of `data`; a registry without a form is an error.
   */
  function ApplyConditions(env: Env, form: Option<Field>, data: Value): (r: Result<Value, ConditionError>)
    requires EnvValid(env) && (form.Some? ==> Imported(env.reg, form.value))
    ensures form.None? <==> r == Failure(NoForm)
  {
    if form.None? then Failure(NoForm)
    else Success(Walk(env, form.value, Scope([], [], env.contextData, Null), false, false, Clone(data)))
  }

  /** No hide condition holds anywhere. */
  ghost predicate NothingHides(env: Env)
  {
    forall s, d :: env.unaryTest(s, d) != Bool(true)
  }

  /** When no condition hides anything, the walk changes nothing. */
  lemma {:induction false} WalkUnchanged(env: Env, f: Field, scope: Scope, work: Value)
    requires EnvValid(env) && Imported(env.reg, f) && NothingHides(env)
    ensures Walk(env, f, scope, false, false, work) == work
    decreases f, 3
  {
    assert RegistryLinked(env.reg) && KeysPresent(env.reg) && Linked(env.reg, f) && HasKey(f);
    NoConditionHides(env, f, scope);
    hide *;
    WalkQuiet(env, f, scope, work);
    if !Keyed(f.ftype) && f.isContainer {
      if Pathed(f.ftype) && Repeatable(f.ftype) {
        var rv := Get(env.contextData, ValuePath(env.reg, f, Some(IndexMap(scope.indexes))));
        if rv.Arr? && |rv.elems| > 0 && |f.components| > 0 {
          RepeatUnchanged(env, f, rv.elems, 0, scope, work);
        }
      } else {
        WalkChildrenUnchanged(env, f, 0, scope, work);
      }
    }
  }

  /** One step of the walk when no condition is true: a container descends into its children or repetitions, anything else is left as it is. */
  lemma WalkQuiet(env: Env, f: Field, scope: Scope, work: Value)
    requires EnvValid(env) && Imported(env.reg, f)
    requires !HideCondition(f.hide, ExpressionContext(env, scope), env.unaryTest)
    ensures !Keyed(f.ftype) && f.isContainer && Pathed(f.ftype) && Repeatable(f.ftype) ==>
      var rv := Get(env.contextData, ValuePath(env.reg, f, Some(IndexMap(scope.indexes))));
      Walk(env, f, scope, false, false, work)
        == if rv.Arr? && |rv.elems| > 0 && |f.components| > 0 then Repeat(env, f, rv.elems, 0, scope, false, work) else work
    ensures !Keyed(f.ftype) && f.isContainer && !(Pathed(f.ftype) && Repeatable(f.ftype)) ==>
      Walk(env, f, scope, false, false, work) == WalkChildren(env, f, 0, scope, false, false, work)
    ensures !(!Keyed(f.ftype) && f.isContainer) ==> Walk(env, f, scope, false, false, work) == work
  {
    hide HideCondition, ClearLoop, FilterPath, Get, ValuePath, Repeat, WalkChildren, IndexMap, ExpressionContext;
    hide Imported, EnvValid;
  }

  lemma NoConditionHides(env: Env, f: Field, scope: Scope)
    requires NothingHides(env)
    ensures !HideCondition(f.hide, ExpressionContext(env, scope), env.unaryTest)
  {
  }

  lemma {:induction false} WalkChildrenUnchanged(env: Env, f: Field, j: nat, scope: Scope, work: Value)
    requires EnvValid(env) && Imported(env.reg, f) && NothingHides(env) && j <= |f.components|
    ensures WalkChildren(env, f, j, scope, false, false, work) == work
    decreases f, 0, |f.components| - j
  {
    if j < |f.components| {
      WalkUnchanged(env, f.components[j], scope, work);
      WalkChildrenUnchanged(env, f, j + 1, scope, work);
    }
  }

  lemma {:induction false} RepeatUnchanged(env: Env, f: Field, elems: seq<Value>, i: nat, scope: Scope, work: Value)
    requires EnvValid(env) && Imported(env.reg, f) && NothingHides(env) && i <= |elems|
    ensures Repeat(env, f, elems, i, scope, false, work) == work
    decreases f, 2, |elems| - i
  {
    if i < |elems| {
      RepeatChildrenUnchanged(env, f, 0, RepetitionScope(f, elems, i, scope), work);
      RepeatUnchanged(env, f, elems, i + 1, scope, work);
    }
  }

  lemma {:induction false} RepeatChildrenUnchanged(env: Env, f: Field, j: nat, scope: Scope, work: Value)
    requires EnvValid(env) && Imported(env.reg, f) && NothingHides(env) && j <= |f.components|
    ensures RepeatChildren(env, f, j, scope, false, work) == work
    decreases f, 1, |f.components| - j
  {
    if j < |f.components| {
      WalkUnchanged(env, f.components[j], scope, work);
      RepeatChildrenUnchanged(env, f, j + 1, scope, work);
    }
  }

  /** With no condition true anywhere, `applyConditions` returns an exact copy of the data. */
  lemma ApplyConditionsNothingHidden(env: Env, form: Field, data: Value)
    requires EnvValid(env) && Imported(env.reg, form) && NothingHides(env)
    ensures ApplyConditions(env, Some(form), data) == Success(Clone(data))
  {
    WalkUnchanged(env, form, Scope([], [], env.contextData, Null), Clone(data));
  }

  /** A keyed field that is hidden, by its scope or its own condition, has its value removed at its filter path. */
  lemma HiddenKeyedCleared(env: Env, f: Field, scope: Scope, startHidden: bool, hidden: bool, work: Value)
    requires EnvValid(env) && Imported(env.reg, f) && Keyed(f.ftype)
    requires startHidden || hidden || HideCondition(f.hide, ExpressionContext(env, scope), env.unaryTest)
    requires FilterPath(env, f, scope.indexes) != []
    ensures Get(Walk(env, f, scope, startHidden, hidden, work), FilterPath(env, f, scope.indexes)).Undefined?
  {
    ClearLeaf(work, FilterPath(env, f, scope.indexes));
  }

  /** A visible keyed field leaves the data alone. */
  lemma VisibleKeyedKept(env: Env, f: Field, scope: Scope, work: Value)
    requires EnvValid(env) && Imported(env.reg, f) && Keyed(f.ftype)
    requires !HideCondition(f.hide, ExpressionContext(env, scope), env.unaryTest)
    ensures Walk(env, f, scope, false, false, work) == work
  {
  }

  /** A hidden repeater is removed whole at its filter path, unless only leaves are to be deleted. */
  lemma HiddenRepeaterCleared(env: Env, f: Field, scope: Scope, startHidden: bool, hidden: bool, work: Value)
    requires EnvValid(env) && Imported(env.reg, f) && Repeatable(f.ftype) && !env.leafNodeDeletionOnly
    requires startHidden || hidden || HideCondition(f.hide, ExpressionContext(env, scope), env.unaryTest)
    requires FilterPath(env, f, scope.indexes) != []
    ensures Get(Walk(env, f, scope, startHidden, hidden, work), FilterPath(env, f, scope.indexes)).Undefined?
  {
    ClearLeaf(work, FilterPath(env, f, scope.indexes));
  }
}
