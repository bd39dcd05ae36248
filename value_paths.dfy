// Resolving a field's binding path in the data, and the depth-first walk
// over the field tree that the path registry offers to its clients.
module ValuePaths {
  import opened Wrappers
  import opened Text
  import opened Data
  import opened Fields

  /** `key.split('.')` as a path of object keys. */
  function DotPath(s: string): (p: Path)
    ensures |p| == |Split(s, '.')| && forall i :: 0 <= i < |p| ==> p[i] == Key(Split(s, '.')[i])
  {
    var parts := Split(s, '.');
    seq(|parts|, i requires 0 <= i < |parts| => Key(parts[i]))
  }

  /** A value of the `replacements` option: null/undefined, a dotted string, an array, or anything else. */
  datatype Replacement = NoPath | Dotted(s: string) | Segments(p: Path) | Invalid

  /** The options of `getValuePath`; `indexes` None stands for the default `null`. */
  datatype PathOptions = PathOptions(
    replacements: map<string, Replacement>,
    indexes: Option<map<string, nat>>,
    cutoff: Option<string>)

  function NoOptions(): PathOptions { PathOptions(map[], None, None) }

  datatype ValuePathError = BadReplacement(id: string) | MissingKey(id: string)

  /** The field's own segments, before indexes and the parent's path are added. */
  function LocalPath(f: Field, o: PathOptions): Result<Path, ValuePathError>
  {
    if f.id in o.replacements then
      match o.replacements[f.id]
      case NoPath => Success([])
      case Dotted(s) => Success(if s == "" then [] else DotPath(s))
      case Segments(p) => Success(p)
      case Invalid => Failure(BadReplacement(f.id))
    else if Keyed(f.ftype) then
      if f.key.Some? then Success(DotPath(f.key.value)) else Failure(MissingKey(f.id))
    else if Pathed(f.ftype) && f.path.Some? && f.path.value != "" then Success(DotPath(f.path.value))
    else Success([])
  }

  /** `_addIndexes`: a child of a repeating container is prefixed with its repetition index. */
  function AddIndexes(reg: Registry, f: Field, local: Path, indexes: map<string, nat>): Path
  {
    if IsFieldRepeating(reg, f.parent) then
      [if f.parent.value in indexes then Index(indexes[f.parent.value]) else Key("undefined")] + local
    else local
  }

  /** The parent `getValuePath` continues with: a non-empty `_parent` other than the cutoff node. */
  predicate FollowsParent(f: Field, o: PathOptions)
  {
    f.parent.Some? && f.parent.value != "" && o.cutoff != f.parent
  }

  /**
   * `getValuePath`: the parent's value path (unless the parent is the cutoff
   * node), then the repetition index when the parent repeats and indexes are
   * given, then the field's own segments.
   */
  function GetValuePath(reg: Registry, f: Field, o: PathOptions): (r: Result<Path, ValuePathError>)
    requires RegistryLinked(reg) && Linked(reg, f)
    ensures LocalPath(f, o).Failure? ==> r.Failure?
    decreases |f.schemaPath|
  {
    var local := LocalPath(f, o);
    if local.Failure? then Failure(local.error)
    else
      var own := if o.indexes.Some? then AddIndexes(reg, f, local.value, o.indexes.value) else local.value;
      if FollowsParent(f, o) then
        var above := GetValuePath(reg, reg[f.parent.value], o);
        if above.Failure? then above else Success(above.value + own)
      else Success(own)
  }

  /** The segments of a path that are not repetition indexes. */
  function Unindexed(p: Path): (r: Path)
    ensures |r| <= |p|
    ensures forall i :: 0 <= i < |r| ==> r[i].Key?
  {
    if p == [] then [] else (if p[0].Index? then [] else [p[0]]) + Unindexed(p[1..])
  }

  function CountIndexes(p: Path): (n: nat)
    ensures n <= |p|
  {
    if p == [] then 0 else (if p[0].Index? then 1 else 0) + CountIndexes(p[1..])
  }

  lemma UnindexedAppend(a: Path, b: Path)
    ensures Unindexed(a + b) == Unindexed(a) + Unindexed(b)
    ensures CountIndexes(a + b) == CountIndexes(a) + CountIndexes(b)
  {
    if a != [] {
      assert (a + b)[1..] == a[1..] + b;
      UnindexedAppend(a[1..], b);
    } else {
      assert a + b == b;
    }
  }

  lemma DotPathKeys(s: string)
    ensures Unindexed(DotPath(s)) == DotPath(s) && CountIndexes(DotPath(s)) == 0
  {
    KeysOnly(DotPath(s));
  }

  lemma {:induction false} KeysOnly(p: Path)
    requires forall i :: 0 <= i < |p| ==> p[i].Key?
    ensures Unindexed(p) == p && CountIndexes(p) == 0
  {
    if p != [] {
      KeysOnly(p[1..]);
    }
  }

  /** Replacements that only name object keys, as strings, nulls and arrays of keys do. */
  predicate KeyReplacements(o: PathOptions)
  {
    forall id :: id in o.replacements && o.replacements[id].Segments? ==>
      forall i :: 0 <= i < |o.replacements[id].p| ==> o.replacements[id].p[i].Key?
  }

  /** Every repeating container has an entry in the index map. */
  predicate IndexesCover(reg: Registry, m: map<string, nat>)
  {
    forall id :: id in reg && IsFieldRepeating(reg, Some(id)) ==> id in m
  }

  /** The number of repeating containers in a list of ids. */
  function RepeatingCount(reg: Registry, ids: seq<string>): nat
  {
    if ids == [] then 0 else (if IsFieldRepeating(reg, Some(ids[0])) then 1 else 0) + RepeatingCount(reg, ids[1..])
  }

  /** The ids above a field: its parent's ancestry list, or nothing for a top-level field. */
  function AncestorsAbove(reg: Registry, f: Field): seq<string>
    requires RegistryLinked(reg)
  {
    if f.parent.Some? && f.parent.value != "" then Ancestry(reg, f.parent.value) else []
  }

  /**
   * The indexed value path is the unindexed one with exactly one index per
   * repeating ancestor spliced in; both resolve or both fail.
   */
  predicate IndexedAgrees(reg: Registry, f: Field, rep: map<string, Replacement>, m: map<string, nat>)
    requires RegistryLinked(reg) && Linked(reg, f)
  {
    var plain := GetValuePath(reg, f, PathOptions(rep, None, None));
    var indexed := GetValuePath(reg, f, PathOptions(rep, Some(m), None));
    plain.Success? == indexed.Success?
    && (plain.Success? ==>
          Unindexed(indexed.value) == Unindexed(plain.value)
          && CountIndexes(plain.value) == 0
          && CountIndexes(indexed.value) == RepeatingCount(reg, AncestorsAbove(reg, f)))
  }

  /** With indexes for every repeating container, the indexed and unindexed value paths agree. */
  lemma {:induction false} IndexedPath(reg: Registry, f: Field, rep: map<string, Replacement>, m: map<string, nat>)
    requires RegistryLinked(reg) && Linked(reg, f) && "" !in reg
    requires KeyReplacements(PathOptions(rep, None, None)) && IndexesCover(reg, m)
    ensures IndexedAgrees(reg, f, rep, m)
    decreases |f.schemaPath|
  {
    var plainO := PathOptions(rep, None, None);
    if LocalPath(f, plainO).Success? && FollowsParent(f, plainO) {
      IndexedPath(reg, reg[f.parent.value], rep, m);
      IndexedStep(reg, f, rep, m);
    } else {
      IndexedTop(reg, f, rep, m);
    }
  }

  lemma IndexedTop(reg: Registry, f: Field, rep: map<string, Replacement>, m: map<string, nat>)
    requires RegistryLinked(reg) && Linked(reg, f)
    requires KeyReplacements(PathOptions(rep, None, None))
    requires !(LocalPath(f, PathOptions(rep, None, None)).Success? && FollowsParent(f, PathOptions(rep, None, None)))
    ensures IndexedAgrees(reg, f, rep, m)
  {
    var plainO, indexedO := PathOptions(rep, None, None), PathOptions(rep, Some(m), None);
    assert LocalPath(f, indexedO) == LocalPath(f, plainO);
    if LocalPath(f, plainO).Success? {
      LocalKeys(f, plainO);
      assert !IsFieldRepeating(reg, f.parent);
      assert AncestorsAbove(reg, f) == [];
    }
  }

  lemma IndexedStep(reg: Registry, f: Field, rep: map<string, Replacement>, m: map<string, nat>)
    requires RegistryLinked(reg) && Linked(reg, f) && "" !in reg
    requires KeyReplacements(PathOptions(rep, None, None)) && IndexesCover(reg, m)
    requires LocalPath(f, PathOptions(rep, None, None)).Success? && FollowsParent(f, PathOptions(rep, None, None))
    requires IndexedAgrees(reg, reg[f.parent.value], rep, m)
    ensures IndexedAgrees(reg, f, rep, m)
  {
    hide *;
    StepFacts(reg, f, rep, m);
    var plainO, indexedO := PathOptions(rep, None, None), PathOptions(rep, Some(m), None);
    var parent := reg[f.parent.value];
    LocalKeys(f, plainO);
    var local := LocalPath(f, plainO).value;
    OwnSegments(reg, f, local, m);
    AncestorsCount(reg, f);
    PathStep(reg, f, plainO);
    PathStep(reg, f, indexedO);
    AgreesDef(reg, parent, rep, m);
    AgreesDef(reg, f, rep, m);
    var above, aboveI := GetValuePath(reg, parent, plainO), GetValuePath(reg, parent, indexedO);
    var own := AddIndexes(reg, f, local, m);
    if above.Success? {
      UnindexedAppend(above.value, local);
      UnindexedAppend(aboveI.value, own);
    }
  }

  /** What a step from the parent relies on: the parent is linked, and the options' indexes change neither the field's own segments nor whether it follows its parent. */
  lemma StepFacts(reg: Registry, f: Field, rep: map<string, Replacement>, m: map<string, nat>)
    requires RegistryLinked(reg) && Linked(reg, f) && IndexesCover(reg, m)
    requires FollowsParent(f, PathOptions(rep, None, None))
    ensures f.parent.Some? && f.parent.value != "" && f.parent.value in reg && Linked(reg, reg[f.parent.value])
    ensures LocalPath(f, PathOptions(rep, Some(m), None)) == LocalPath(f, PathOptions(rep, None, None))
    ensures FollowsParent(f, PathOptions(rep, Some(m), None))
    ensures IsFieldRepeating(reg, f.parent) ==> f.parent.value in m
  {
  }

  lemma AgreesDef(reg: Registry, f: Field, rep: map<string, Replacement>, m: map<string, nat>)
    requires RegistryLinked(reg) && Linked(reg, f)
    ensures var plain := GetValuePath(reg, f, PathOptions(rep, None, None));
      var indexed := GetValuePath(reg, f, PathOptions(rep, Some(m), None));
      IndexedAgrees(reg, f, rep, m) <==>
        plain.Success? == indexed.Success?
        && (plain.Success? ==>
              Unindexed(indexed.value) == Unindexed(plain.value)
              && CountIndexes(plain.value) == 0
              && CountIndexes(indexed.value) == RepeatingCount(reg, AncestorsAbove(reg, f)))
  {
  }

  /** The field's own segments with the repetition index, if any, in front. */
  lemma OwnSegments(reg: Registry, f: Field, local: Path, m: map<string, nat>)
    requires Unindexed(local) == local && CountIndexes(local) == 0
    requires IsFieldRepeating(reg, f.parent) ==> f.parent.value in m
    ensures Unindexed(AddIndexes(reg, f, local, m)) == local
    ensures CountIndexes(AddIndexes(reg, f, local, m)) == if IsFieldRepeating(reg, f.parent) then 1 else 0
  {
    if IsFieldRepeating(reg, f.parent) {
      UnindexedAppend([Index(m[f.parent.value])], local);
    }
  }

  /** The repeating containers above a field: its parent, if it repeats, and those above the parent. */
  lemma AncestorsCount(reg: Registry, f: Field)
    requires RegistryLinked(reg) && Linked(reg, f) && "" !in reg && f.parent.Some? && f.parent.value != ""
    ensures RepeatingCount(reg, AncestorsAbove(reg, f))
      == (if IsFieldRepeating(reg, f.parent) then 1 else 0) + RepeatingCount(reg, AncestorsAbove(reg, reg[f.parent.value]))
  {
    var parent := reg[f.parent.value];
    assert AncestorsAbove(reg, f) == [parent.id] + AncestorsAbove(reg, parent) by {
      if parent.parent.Some? && parent.parent.value != "" {
        AncestryOfChild(reg, parent.id);
      }
    }
  }

  /** `getValuePath` on a field that follows its parent: the parent's path, then the field's own segments. */
  lemma PathStep(reg: Registry, f: Field, o: PathOptions)
    requires RegistryLinked(reg) && Linked(reg, f)
    requires LocalPath(f, o).Success? && FollowsParent(f, o)
    ensures var local := LocalPath(f, o).value;
      var own := if o.indexes.Some? then AddIndexes(reg, f, local, o.indexes.value) else local;
      var above := GetValuePath(reg, reg[f.parent.value], o);
      GetValuePath(reg, f, o) == if above.Failure? then above else Success(above.value + own)
  {
  }

  lemma LocalKeys(f: Field, o: PathOptions)
    requires KeyReplacements(o) && LocalPath(f, o).Success?
    ensures Unindexed(LocalPath(f, o).value) == LocalPath(f, o).value
    ensures CountIndexes(LocalPath(f, o).value) == 0
  {
    var p := LocalPath(f, o).value;
    if f.id in o.replacements && o.replacements[f.id].Segments? {
      KeysOnly(p);
    } else if f.id in o.replacements && o.replacements[f.id].Dotted? && o.replacements[f.id].s != "" {
      DotPathKeys(o.replacements[f.id].s);
    } else if f.id !in o.replacements && Keyed(f.ftype) {
      DotPathKeys(f.key.value);
    } else if f.id !in o.replacements && Pathed(f.ftype) && f.path.Some? && f.path.value != "" {
      DotPathKeys(f.path.value);
    }
  }

  /** Without a cutoff, the value path of every ancestor is a prefix of the field's own value path. */
  lemma {:induction false} AncestorPathIsPrefix(reg: Registry, f: Field, o: PathOptions, j: nat)
    requires RegistryLinked(reg) && Linked(reg, f) && "" !in reg && o.cutoff.None?
    requires GetValuePath(reg, f, o).Success?
    requires j < |AncestorsAbove(reg, f)|
    ensures var a := GetValuePath(reg, reg[AncestorsAbove(reg, f)[j]], o);
      a.Success? && a.value <= GetValuePath(reg, f, o).value
    decreases |f.schemaPath|
  {
    var parent := reg[f.parent.value];
    var above := GetValuePath(reg, parent, o);
    assert above.Success? && above.value <= GetValuePath(reg, f, o).value;
    if j > 0 {
      assert AncestorsAbove(reg, f) == [parent.id] + AncestorsAbove(reg, parent) by {
        if parent.parent.Some? && parent.parent.value != "" {
          AncestryOfChild(reg, parent.id);
        }
      }
      AncestorPathIsPrefix(reg, parent, o, j - 1);
    }
  }

  /** Cutting off at the parent leaves only the field's own (indexed) segments. */
  lemma CutoffAtParent(reg: Registry, f: Field, o: PathOptions)
    requires RegistryLinked(reg) && Linked(reg, f)
    requires o.cutoff == f.parent && LocalPath(f, o).Success?
    ensures GetValuePath(reg, f, o).Success?
    ensures o.indexes.None? ==> GetValuePath(reg, f, o).value == LocalPath(f, o).value
    ensures |GetValuePath(reg, f, o).value| == |LocalPath(f, o).value| + (if o.indexes.Some? && IsFieldRepeating(reg, f.parent) then 1 else 0)
  {
  }

  /** Every registered keyed field has a key, as `_ensureKey` guarantees on import. */
  predicate KeysPresent(reg: Registry)
  {
    forall id :: id in reg && Keyed(reg[id].ftype) ==> reg[id].key.Some?
  }

  predicate HasKey(f: Field) { Keyed(f.ftype) ==> f.key.Some? }

  /** An imported field tree: every field is linked to its registered parent and keyed fields have keys. */
  predicate Imported(reg: Registry, f: Field)
  {
    Linked(reg, f) && HasKey(f) && forall i :: 0 <= i < |f.components| ==> Imported(reg, f.components[i])
  }

  /** Without replacements, the value path of an imported field always resolves. */
  lemma {:induction false} ValuePathResolves(reg: Registry, f: Field, indexes: Option<map<string, nat>>)
    requires RegistryLinked(reg) && KeysPresent(reg) && Linked(reg, f) && HasKey(f)
    ensures GetValuePath(reg, f, PathOptions(map[], indexes, None)).Success?
    decreases |f.schemaPath|
  {
    if FollowsParent(f, PathOptions(map[], indexes, None)) {
      ValuePathResolves(reg, reg[f.parent.value], indexes);
    }
  }

  /** The value path of an imported field, with the given indexes and no replacements. */
  function ValuePath(reg: Registry, f: Field, indexes: Option<map<string, nat>>): (p: Path)
    requires RegistryLinked(reg) && KeysPresent(reg) && Linked(reg, f) && HasKey(f)
  {
    ValuePathResolves(reg, f, indexes);
    GetValuePath(reg, f, PathOptions(map[], indexes, None)).value
  }

  // ---------------------------------------------------------------------
  // executeRecursivelyOnFields

  /** What `fn` is called with: the field, whether its path is claimed closed, whether repeatable. */
  datatype Call<C> = Call(field: Field, isClosed: bool, isRepeatable: bool, context: C)

  /** JavaScript `a && b` on callback results. */
  function And(a: Value, b: Value): (r: Value)
    ensures Truthy(a) ==> r == b
    ensures !Truthy(a) ==> r == a
  {
    if Truthy(a) then b else a
  }

  /**
   * `executeRecursivelyOnFields`: `fn` returns its result, the context as it
   * left it and the new state of whatever it acts on; `prevent` reads
   * `preventRecursion` off a context. Each child starts from the context the
   * parent's call left (values make the source's deep copy implicit).
   */
  function Execute<C, S>(f: Field, fn: (Call<C>, S) -> (Value, C, S), prevent: C -> bool, ctx: C, st: S): (Value, S)
    decreases f, 2
  {
    if Keyed(f.ftype) then
      var out := fn(Call(f, true, false, ctx), st);
      (And(Bool(true), out.0), out.2)
    else if Pathed(f.ftype) then
      var out := fn(Call(f, false, Repeatable(f.ftype), ctx), st);
      Descend(f, fn, prevent, And(Bool(true), out.0), out.1, out.2)
    else Descend(f, fn, prevent, Bool(true), ctx, st)
  }

  /** The rest of a visit: stop on `false` or `preventRecursion`, else walk the children in order. */
  function Descend<C, S>(f: Field, fn: (Call<C>, S) -> (Value, C, S), prevent: C -> bool, r: Value, ctx: C, st: S): (Value, S)
    decreases f, 1
  {
    if r == Bool(false) || prevent(ctx) then (r, st)
    else if f.isContainer then ExecuteChildren(f, 0, fn, prevent, ctx, r, st)
    else (r, st)
  }

  function ExecuteChildren<C, S>(f: Field, i: nat, fn: (Call<C>, S) -> (Value, C, S), prevent: C -> bool,
                                 ctx: C, acc: Value, st: S): (Value, S)
    requires i <= |f.components|
    decreases f, 0, |f.components| - i
  {
    if i == |f.components| then (acc, st)
    else
      var out := Execute(f.components[i], fn, prevent, ctx, st);
      var acc' := And(acc, out.0);
      if acc' == Bool(false) then (acc', out.1)
      else ExecuteChildren(f, i + 1, fn, prevent, ctx, acc', out.1)
  }

  /** The fields a walk reaches when no call returns false: keyed and pathed fields in pre-order, skipping below pruned containers. */
  function Visits(f: Field, prune: Field -> bool): seq<Field>
    decreases f, 1
  {
    if Keyed(f.ftype) then [f]
    else
      (if Pathed(f.ftype) then [f] else [])
      + (if Pathed(f.ftype) && prune(f) then []
         else if f.isContainer then VisitsFrom(f, 0, prune) else [])
  }

  function VisitsFrom(f: Field, i: nat, prune: Field -> bool): seq<Field>
    requires i <= |f.components|
    decreases f, 0, |f.components| - i
  {
    if i == |f.components| then [] else Visits(f.components[i], prune) + VisitsFrom(f, i + 1, prune)
  }

  /** The visits up to and including the first one that stops the walk. */
  function Through(fs: seq<Field>, stop: Field -> bool): (r: seq<Field>)
    ensures r <= fs
  {
    if fs == [] then [] else if stop(fs[0]) then [fs[0]] else [fs[0]] + Through(fs[1..], stop)
  }

  /** Some visit in the list stops the walk. */
  predicate Stops(fs: seq<Field>, stop: Field -> bool)
  {
    fs != [] && (stop(fs[0]) || Stops(fs[1..], stop))
  }

  lemma {:induction false} ThroughAppend(a: seq<Field>, b: seq<Field>, stop: Field -> bool)
    ensures Through(a + b, stop) == if Stops(a, stop) then Through(a, stop) else a + Through(b, stop)
    ensures Stops(a + b, stop) == (Stops(a, stop) || Stops(b, stop))
  {
    if a != [] {
      assert (a + b)[1..] == a[1..] + b;
      ThroughAppend(a[1..], b, stop);
    } else {
      assert a + b == b;
    }
  }

  /** A callback that records each call, returns false for fields `stop` picks and asks not to descend below fields `prune` picks. */
  function Recorder(stop: Field -> bool, prune: Field -> bool): (Call<bool>, seq<Field>) -> (Value, bool, seq<Field>)
  {
    (c: Call<bool>, trace: seq<Field>) =>
      (if stop(c.field) then Bool(false) else Bool(true), c.context || prune(c.field), trace + [c.field])
  }

  function PreventRecursion(c: bool): bool { c }

  /** The outcome the walk promises for a list of visits. */
  function Outcome(vs: seq<Field>, stop: Field -> bool, trace: seq<Field>): (Value, seq<Field>)
  {
    (if Stops(vs, stop) then Bool(false) else Bool(true), trace + Through(vs, stop))
  }

  /** Visits that do not stop the walk are recorded whole before the ones after them. */
  lemma OutcomeShift(a: seq<Field>, b: seq<Field>, stop: Field -> bool, trace: seq<Field>)
    requires !Stops(a, stop)
    ensures Outcome(a + b, stop, trace) == Outcome(b, stop, trace + a)
  {
    ThroughAppend(a, b, stop);
    ThroughAll(a, stop);
    assert trace + (a + Through(b, stop)) == (trace + a) + Through(b, stop);
  }

  lemma RecorderCall(stop: Field -> bool, prune: Field -> bool, c: Call<bool>, trace: seq<Field>)
    ensures Recorder(stop, prune)(c, trace)
      == (if stop(c.field) then Bool(false) else Bool(true), c.context || prune(c.field), trace + [c.field])
  {
  }

  /**
   * The walk calls `fn` on the keyed and pathed fields in pre-order, does not
   * descend where `preventRecursion` is set, and once a call returns false
   * returns false itself after calling nothing more.
   */
  lemma {:induction false} ExecuteOrder(f: Field, stop: Field -> bool, prune: Field -> bool, trace: seq<Field>)
    ensures Execute(f, Recorder(stop, prune), PreventRecursion, false, trace) == Outcome(Visits(f, prune), stop, trace)
    decreases f, 2
  {
    var fn := Recorder(stop, prune);
    if Keyed(f.ftype) {
      RecorderCall(stop, prune, Call(f, true, false, false), trace);
      assert Visits(f, prune) == [f];
      assert [f][1..] == [];
      assert Through([f], stop) == [f];
      assert Stops([f], stop) == stop(f);
      var out := fn(Call(f, true, false, false), trace);
      assert Execute(f, fn, PreventRecursion, false, trace) == (And(Bool(true), out.0), out.2);
    } else if Pathed(f.ftype) {
      RecorderCall(stop, prune, Call(f, false, Repeatable(f.ftype), false), trace);
      assert [f][1..] == [];
      var rest := if prune(f) then [] else if f.isContainer then VisitsFrom(f, 0, prune) else [];
      assert Visits(f, prune) == [f] + rest;
      ThroughAppend([f], rest, stop);
      if !stop(f) {
        DescendOrder(f, stop, prune, prune(f), trace + [f]);
        OutcomeShift([f], rest, stop, trace);
      }
    } else {
      DescendOrder(f, stop, prune, false, trace);
      assert Visits(f, prune) == if f.isContainer then VisitsFrom(f, 0, prune) else [];
    }
  }

  lemma {:induction false} DescendOrder(f: Field, stop: Field -> bool, prune: Field -> bool, pruned: bool, trace: seq<Field>)
    ensures Descend(f, Recorder(stop, prune), PreventRecursion, Bool(true), pruned, trace)
      == Outcome(if pruned || !f.isContainer then [] else VisitsFrom(f, 0, prune), stop, trace)
    decreases f, 1
  {
    if !pruned && f.isContainer {
      ExecuteChildrenOrder(f, 0, stop, prune, trace);
    } else {
      assert trace + [] == trace;
    }
  }

  lemma {:induction false} ExecuteChildrenOrder(f: Field, i: nat, stop: Field -> bool, prune: Field -> bool, trace: seq<Field>)
    requires i <= |f.components|
    ensures ExecuteChildren(f, i, Recorder(stop, prune), PreventRecursion, false, Bool(true), trace)
      == Outcome(VisitsFrom(f, i, prune), stop, trace)
    decreases f, 0, |f.components| - i
  {
    if i < |f.components| {
      assert Truthy(Bool(true));
      hide *;
      var child := f.components[i];
      var vs := Visits(child, prune);
      var more := VisitsFrom(f, i + 1, prune);
      VisitsFromStep(f, i, prune);
      ChildrenStep(f, i, Recorder(stop, prune), PreventRecursion, false, Bool(true), trace);
      ExecuteOrder(child, stop, prune, trace);
      OutcomeDef(vs, stop, trace);
      OutcomeDef(vs + more, stop, trace);
      ThroughAppend(vs, more, stop);
      if !Stops(vs, stop) {
        ThroughAll(vs, stop);
        ExecuteChildrenOrder(f, i + 1, stop, prune, trace + vs);
        OutcomeShift(vs, more, stop, trace);
      }
    } else {
      assert trace + [] == trace;
    }
  }

  lemma ChildrenStep<C, S>(f: Field, i: nat, fn: (Call<C>, S) -> (Value, C, S), prevent: C -> bool, ctx: C, acc: Value, st: S)
    requires i < |f.components|
    ensures var out := Execute(f.components[i], fn, prevent, ctx, st);
      var acc' := And(acc, out.0);
      ExecuteChildren(f, i, fn, prevent, ctx, acc, st)
        == if acc' == Bool(false) then (acc', out.1) else ExecuteChildren(f, i + 1, fn, prevent, ctx, acc', out.1)
  {
  }

  lemma VisitsFromStep(f: Field, i: nat, prune: Field -> bool)
    requires i < |f.components|
    ensures VisitsFrom(f, i, prune) == Visits(f.components[i], prune) + VisitsFrom(f, i + 1, prune)
  {
  }

  lemma OutcomeDef(vs: seq<Field>, stop: Field -> bool, trace: seq<Field>)
    ensures Outcome(vs, stop, trace) == (if Stops(vs, stop) then Bool(false) else Bool(true), trace + Through(vs, stop))
  {
  }

  lemma {:induction false} ThroughAll(fs: seq<Field>, stop: Field -> bool)
    requires !Stops(fs, stop)
    ensures Through(fs, stop) == fs
  {
    if fs != [] {
      ThroughAll(fs[1..], stop);
    }
  }
}
