// Importing a form schema: `FieldFactory.create` turns the attributes of one
// schema field into a registered field (id, key, path claims), the
// `Importer` walks the schema tree depth first, and `FormFieldRegistry`
// keeps the imported fields by id.
module Importing {
  import opened Wrappers
  import opened Text
  import opened Data
  import opened Fields
  import opened ValuePaths
  import PathRegistry
  import Layouts

  /** The attributes of a schema field that the import copies without looking at them. */
  datatype Props = Props(
    isRepeating: bool,
    disabled: bool,
    defaultValue: Value,
    defaultRepetitions: Option<nat>,
    hide: Option<string>,
    validate: Option<ValidateConfig>,
    decimalDigits: Option<int>,
    increment: Value,
    serializeToString: bool,
    values: Value,
    valuesKey: Option<string>,
    valuesExpression: Option<string>,
    layout: Layout)

  /** One field of the schema as `importSchema` receives it; `hasComponents` says whether `components` is present. */
  datatype Attrs = Attrs(
    id: Option<string>,
    typeName: string,
    key: Option<string>,
    path: Option<string>,
    hasComponents: bool,
    components: seq<Attrs>,
    props: Props)

  /** The errors the import throws. */
  datatype ImportError =
    | UnsupportedType(typeName: string)
    | DuplicateId(id: string)
    | AlreadyClaimed(path: Path)
    | ClaimFailure(claimError: PathRegistry.PathError)
    | ValuePathFailure(pathError: ValuePathError)
    | AlreadyRegistered(registeredId: string)

  /** A truthy string attribute: present and not empty. */
  predicate Given(s: Option<string>) { s.Some? && s.value != "" }

  // ---------------------------------------------------------------------
  // Generated ids and keys

  /** The keys the siblings of a field carry in the schema (`parent.components[i].key`). */
  function SiblingKeys(siblings: seq<Attrs>): set<string>
  {
    set i | 0 <= i < |siblings| && siblings[i].key.Some? :: siblings[i].key.value
  }

  /**
   * `_getUniqueKeyPath` as written: the loop draws names until the bare name
   * is no sibling's key, but the key it returns is the name prefixed with
   * the field type.
   */
  function UniqueKeyAsWritten(t: FieldType, siblingKeys: set<string>): string
  {
    TypeName(t) + "_" + NatToString(FreshIndex("", siblingKeys, 0))
  }

  /** With a sibling already keyed `textfield_0`, the generated key repeats it. */
  lemma UniqueKeyAsWrittenCollides()
    ensures UniqueKeyAsWritten(Textfield, {"textfield_0"}) in {"textfield_0"}
  {
    assert DigitChar(0) == '0';
    assert NatToString(0) == "0";
    assert "" + NatToString(0) !in {"textfield_0"};
    assert FreshIndex("", {"textfield_0"}, 0) == 0;
    assert TypeName(Textfield) + "_" + "0" == "textfield_0";
  }

  /**
   * `_getUniqueKeyPath` as intended: a key `<type>_<name>` outside `taken`.
   * `Math.random` is replaced by the first counter name that is free; the
   * importer passes the siblings' schema keys together with every name of
   * the claimed-path tree (`Avoided`), which the random name misses but for
   * a vanishing chance.
   */
  function UniqueKey(t: FieldType, taken: set<string>): (key: string)
    ensures key !in taken && key != ""
    ensures |key| > |TypeName(t)| && key[..|TypeName(t)|] == TypeName(t)
    ensures '.' !in key
  {
    var key := NextPrefixed(TypeName(t) + "_", taken);
    assert key[..|TypeName(t)|] == key[..|TypeName(t) + "_"|][..|TypeName(t)|];
    NoDot(t, FreshIndex(TypeName(t) + "_", taken, 0));
    key
  }

  lemma TypeNameNoDot(t: FieldType)
    ensures '.' !in TypeName(t)
  {
  }

  /** A type name followed by `_` and a number has no dot: a generated key is a single path segment. */
  lemma NoDot(t: FieldType, n: nat)
    ensures '.' !in TypeName(t) + "_" + NatToString(n)
  {
    NatToStringDigits(n);
    TypeNameNoDot(t);
    hide TypeName;
    var s := TypeName(t) + "_";
    assert forall i :: |s| <= i < |s + NatToString(n)| ==> (s + NatToString(n))[i] == NatToString(n)[i - |s|];
  }

  /** The names a generated key or path avoids: the siblings' schema keys and every name already in the claimed-path tree. */
  function Avoided(siblingKeys: set<string>, paths: seq<PathRegistry.PathNode>): (r: set<string>)
    ensures siblingKeys <= r && PathRegistry.Names(paths) <= r
  {
    siblingKeys + PathRegistry.Names(paths)
  }

  /** `_ensureId`: a given id is kept, otherwise a fresh `Form_…` (for the form) or `Field_…` id. */
  function EnsureId(a: Attrs, t: FieldType, ids: set<string>): (id: string)
    ensures id != ""
    ensures Given(a.id) ==> id == a.id.value
    ensures !Given(a.id) ==> id !in ids
  {
    if Given(a.id) then a.id.value else NextPrefixed(if t == Default then "Form_" else "Field_", ids)
  }

  /** `_ensureKey`: a keyed field without a key gets a unique one. */
  function EnsureKey(a: Attrs, t: FieldType, taken: set<string>): (key: Option<string>)
    ensures Keyed(t) ==> Given(key)
    ensures Given(a.key) || !Keyed(t) ==> key == a.key
    ensures Keyed(t) && !Given(a.key) ==> key.value !in taken
  {
    if Keyed(t) && !Given(a.key) then Some(UniqueKey(t, taken)) else a.key
  }

  /** `_enforceDefaultPath`: a repeatable container without a path gets a unique one. */
  function EnsurePath(a: Attrs, t: FieldType, taken: set<string>): (path: Option<string>)
    ensures Pathed(t) && Repeatable(t) ==> Given(path)
    ensures Given(a.path) || !(Pathed(t) && Repeatable(t)) ==> path == a.path
    ensures Pathed(t) && Repeatable(t) && !Given(a.path) ==> path.value !in taken
  {
    if Pathed(t) && Repeatable(t) && !Given(a.path) then Some(UniqueKey(t, taken)) else a.path
  }

  // ---------------------------------------------------------------------
  // FieldFactory.create

  /** The state an import works on: the registered fields (in insertion order), the assigned ids and the claimed paths. */
  datatype Registries = Registries(
    fields: Registry,
    order: seq<string>,
    ids: set<string>,
    paths: seq<PathRegistry.PathNode>)

  /** The state `_cleanup` leaves. */
  function Cleared(): Registries { Registries(map[], [], {}, []) }

  /** `parent && getValuePath(parent) || []`. */
  function ParentPath(fields: Registry, parentId: Option<string>): Result<Path, ValuePathError>
    requires RegistryLinked(fields)
  {
    if Given(parentId) && parentId.value in fields then GetValuePath(fields, fields[parentId.value], NoOptions())
    else Success([])
  }

  /** `getAncestryList(_parent)`; without a `_parent` the lookup is of the property named `undefined`. */
  function KnownAncestors(fields: Registry, parentId: Option<string>): seq<string>
    requires RegistryLinked(fields)
  {
    Ancestry(fields, if parentId.Some? then parentId.value else "undefined")
  }

  /** One `canClaimPath` check of `create`: None when the path may be claimed. */
  function ClaimCheck(st: Registries, p: Path, o: PathRegistry.ClaimOptions): (e: Option<ImportError>)
    requires RegistryLinked(st.fields)
    ensures e.None? <==> PathRegistry.CanClaim(st.paths, p, o, st.fields) == Success(true)
  {
    match PathRegistry.CanClaim(st.paths, p, o, st.fields)
    case Failure(err) => Some(ClaimFailure(err))
    case Success(ok) => if ok then None else Some(AlreadyClaimed(p))
  }

  /** The checks before anything changes: a given key must be claimable as a closed leaf, a given path as an open node. */
  function BindingCheck(st: Registries, t: FieldType, a: Attrs, parentPath: Path, known: seq<string>): Option<ImportError>
    requires RegistryLinked(st.fields)
  {
    var keyed := if Keyed(t) && Given(a.key)
      then ClaimCheck(st, parentPath + DotPath(a.key.value), PathRegistry.ClaimOptions(true, false, false, None, known))
      else None;
    if keyed.Some? then keyed
    else if Pathed(t) && Given(a.path)
      then ClaimCheck(st, parentPath + DotPath(a.path.value), PathRegistry.ClaimOptions(false, Repeatable(t), false, None, known))
    else None
  }

  /** The field `create` builds from the attributes (the configuration's `create` copies them). */
  function Build(a: Attrs, t: FieldType, id: string, key: Option<string>, path: Option<string>, schemaPath: Path, parentId: Option<string>): Field
  {
    var p := a.props;
    Field(id, t, key, path, parentId, schemaPath, a.hasComponents, [], p.isRepeating, p.disabled,
      p.defaultValue, p.defaultRepetitions, p.hide, p.validate, p.decimalDigits, p.increment,
      p.serializeToString, p.values, p.valuesKey, p.valuesExpression, p.layout)
  }

  /** The options of the claim `create` makes for the finished field. */
  function BindingOptions(f: Field, known: seq<string>): PathRegistry.ClaimOptions
  {
    if Keyed(f.ftype) then PathRegistry.ClaimOptions(true, false, false, Some(f.id), known)
    else PathRegistry.ClaimOptions(false, Repeatable(f.ftype), false, Some(f.id), known)
  }

  /** Whether `create` claims a path for the field: keyed fields always, pathed ones when they have a path. */
  predicate Binds(f: Field) { Keyed(f.ftype) || (Pathed(f.ftype) && Given(f.path)) }

  /** The claim of the field's value path; on an error the tree is unchanged. */
  function BindingClaim(fields: Registry, paths: seq<PathRegistry.PathNode>, f: Field, known: seq<string>): (r: (Option<ImportError>, seq<PathRegistry.PathNode>))
    requires RegistryLinked(fields) && Linked(fields, f)
    ensures r.0.Some? ==> r.1 == paths && (r.0.value.ValuePathFailure? || r.0.value.ClaimFailure?)
    ensures !Binds(f) ==> r == (None, paths)
    ensures r.0.None? && Binds(f) ==> var vp := GetValuePath(fields, f, NoOptions());
      vp.Success? && PathRegistry.CanClaim(paths, vp.value, BindingOptions(f, known), fields) == Success(true)
      && r.1 == PathRegistry.Claim(paths, vp.value, BindingOptions(f, known))
  {
    if Binds(f) then
      var vp := GetValuePath(fields, f, NoOptions());
      if vp.Failure? then (Some(ValuePathFailure(vp.error)), paths)
      else
        var o := BindingOptions(f, known);
        match PathRegistry.CanClaim(paths, vp.value, o, fields)
        case Failure(e) => (Some(ClaimFailure(e)), paths)
        case Success(ok) =>
          if ok then (None, PathRegistry.Claim(paths, vp.value, o))
          else (Some(ClaimFailure(PathRegistry.CannotClaim(vp.value))), paths)
    else (None, paths)
  }

  /** What the checks of `create` establish before anything changes: the type, the parent's value path and the known ancestors. */
  datatype Checked = Checked(t: FieldType, parentPath: Path, known: seq<string>)

  /**
   * The checks `create` makes before anything changes, in their order: an
   * unknown type, an id already assigned, the parent's value path, and the
   * claimability of a given key or path.
   */
  function CreateChecks(st: Registries, a: Attrs, parentId: Option<string>): (r: Result<Checked, ImportError>)
    requires RegistryLinked(st.fields)
    ensures r == Failure(UnsupportedType(a.typeName)) <==> TypeOf(a.typeName).None?
    ensures TypeOf(a.typeName).Some? && Given(a.id) && a.id.value in st.ids ==> r == Failure(DuplicateId(a.id.value))
    ensures r.Success? ==> Some(r.value.t) == TypeOf(a.typeName) && !(Given(a.id) && a.id.value in st.ids)
    ensures r.Success? ==> r.value.known == KnownAncestors(st.fields, parentId)
  {
    var t := TypeOf(a.typeName);
    if t.None? then Failure(UnsupportedType(a.typeName))
    else if Given(a.id) && a.id.value in st.ids then Failure(DuplicateId(a.id.value))
    else
      var pp := ParentPath(st.fields, parentId);
      if pp.Failure? then Failure(ValuePathFailure(pp.error))
      else
        var known := KnownAncestors(st.fields, parentId);
        var e := BindingCheck(st, t.value, a, pp.value, known);
        if e.Some? then Failure(e.value) else Success(Checked(t.value, pp.value, known))
  }

  /** The field `create` returns once the checks pass: id, key and repeater path ensured. */
  function Made(st: Registries, a: Attrs, t: FieldType, schemaPath: Path, parentId: Option<string>, siblingKeys: set<string>): (f: Field)
    requires !(Given(a.id) && a.id.value in st.ids)
    ensures f.id != "" && f.id !in st.ids && f.ftype == t
    ensures f.parent == parentId && f.schemaPath == schemaPath && f.components == [] && HasKey(f)
  {
    var taken := Avoided(siblingKeys, st.paths);
    Build(a, t, EnsureId(a, t, st.ids), EnsureKey(a, t, taken), EnsurePath(a, t, taken), schemaPath, parentId)
  }

  /**
   * `FieldFactory.create(attrs, false)`: the checks throw before anything
   * changes; then the id is assigned and the value path claimed. An error
   * in that last claim leaves the id assigned.
   */
  function Creation(st: Registries, a: Attrs, schemaPath: Path, parentId: Option<string>, siblingKeys: set<string>): (r: (Result<Field, ImportError>, Registries))
    requires RegistryLinked(st.fields)
    requires parentId.Some? ==> parentId.value in st.fields && |st.fields[parentId.value].schemaPath| < |schemaPath|
    ensures r.1.fields == st.fields && r.1.order == st.order
    ensures r.0.Success? ==> var f := r.0.value;
      && f.id != "" && f.id !in st.ids && r.1.ids == st.ids + {f.id}
      && f.parent == parentId && f.schemaPath == schemaPath && f.components == []
      && Linked(st.fields, f) && HasKey(f)
  {
    var checks := CreateChecks(st, a, parentId);
    if checks.Failure? then (Failure(checks.error), st)
    else Completed(st, a, checks.value, schemaPath, parentId, siblingKeys)
  }

  /** The part of `create` after the checks: the id is assigned, then the value path claimed. */
  function Completed(st: Registries, a: Attrs, c: Checked, schemaPath: Path, parentId: Option<string>, siblingKeys: set<string>): (r: (Result<Field, ImportError>, Registries))
    requires RegistryLinked(st.fields) && !(Given(a.id) && a.id.value in st.ids)
    requires parentId.Some? ==> parentId.value in st.fields && |st.fields[parentId.value].schemaPath| < |schemaPath|
    ensures r.1.fields == st.fields && r.1.order == st.order
    ensures r.0.Success? ==> var f := r.0.value;
      && f.id != "" && f.id !in st.ids && r.1.ids == st.ids + {f.id}
      && f.parent == parentId && f.schemaPath == schemaPath && f.components == []
      && Linked(st.fields, f) && HasKey(f)
  {
    var f := Made(st, a, c.t, schemaPath, parentId, siblingKeys);
    var st1 := st.(ids := st.ids + {f.id});
    var b := BindingClaim(st.fields, st.paths, f, c.known);
    if b.0.Some? then (Failure(b.0.value), st1)
    else (Success(f), st1.(paths := b.1))
  }

  /** One unfolding of `Completed`. */
  lemma CompletedDef(st: Registries, a: Attrs, c: Checked, schemaPath: Path, parentId: Option<string>, siblingKeys: set<string>)
    requires RegistryLinked(st.fields) && !(Given(a.id) && a.id.value in st.ids)
    requires parentId.Some? ==> parentId.value in st.fields && |st.fields[parentId.value].schemaPath| < |schemaPath|
    ensures var f := Made(st, a, c.t, schemaPath, parentId, siblingKeys);
      && Linked(st.fields, f)
      && var b := BindingClaim(st.fields, st.paths, f, c.known);
      Completed(st, a, c, schemaPath, parentId, siblingKeys)
        == (if b.0.Some? then Failure(b.0.value) else Success(f), st.(ids := st.ids + {f.id}, paths := if b.0.Some? then st.paths else b.1))
  {
  }

  /**
   * The order in which `create` fails: an unknown type first, then an id
   * already assigned; a create that fails never adds a field or a claim,
   * and one that fails in its checks changes nothing at all.
   */
  lemma CreateErrors(st: Registries, a: Attrs, schemaPath: Path, parentId: Option<string>, siblingKeys: set<string>)
    requires RegistryLinked(st.fields)
    requires parentId.Some? ==> parentId.value in st.fields && |st.fields[parentId.value].schemaPath| < |schemaPath|
    ensures var r := Creation(st, a, schemaPath, parentId, siblingKeys);
      && (r.0 == Failure(UnsupportedType(a.typeName)) <==> TypeOf(a.typeName).None?)
      && (TypeOf(a.typeName).Some? && Given(a.id) && a.id.value in st.ids ==> r == (Failure(DuplicateId(a.id.value)), st))
      && (r.0.Failure? ==> r.1.paths == st.paths && r.1.fields == st.fields)
      && (CreateChecks(st, a, parentId).Failure? ==> r == (Failure(CreateChecks(st, a, parentId).error), st))
  {
    CreateDef(st, a, schemaPath, parentId, siblingKeys);
    hide *;
  }

  /** One unfolding of `Create`. */
  lemma CreateDef(st: Registries, a: Attrs, schemaPath: Path, parentId: Option<string>, siblingKeys: set<string>)
    requires RegistryLinked(st.fields)
    requires parentId.Some? ==> parentId.value in st.fields && |st.fields[parentId.value].schemaPath| < |schemaPath|
    ensures var checks := CreateChecks(st, a, parentId);
      var r := Creation(st, a, schemaPath, parentId, siblingKeys);
      && (checks.Failure? ==> r == (Failure(checks.error), st))
      && (checks.Success? ==>
            var f := Made(st, a, checks.value.t, schemaPath, parentId, siblingKeys);
            var c := BindingClaim(st.fields, st.paths, f, checks.value.known);
            && Linked(st.fields, f)
            && r.1.ids == st.ids + {f.id}
            && (c.0.Some? ==> r.0 == Failure(c.0.value) && r.1.paths == st.paths)
            && (c.0.None? ==> r.0 == Success(f) && r.1.paths == c.1))
  {
    hide CreateChecks, BindingClaim, Made, GetValuePath, PathRegistry.CanClaim, PathRegistry.Claim;
  }

  /** A successful create claims the field's value path; the path tree stays well formed either way. */
  lemma CreateClaims(st: Registries, a: Attrs, schemaPath: Path, parentId: Option<string>, siblingKeys: set<string>)
    requires RegistryLinked(st.fields)
    requires parentId.Some? ==> parentId.value in st.fields && |st.fields[parentId.value].schemaPath| < |schemaPath|
    ensures var r := Creation(st, a, schemaPath, parentId, siblingKeys);
      && (PathRegistry.Valid(st.paths) ==> PathRegistry.Valid(r.1.paths))
      && (r.0.Success? && Binds(r.0.value) ==>
            var vp := GetValuePath(st.fields, r.0.value, NoOptions());
            vp.Success? && r.1.paths == PathRegistry.Claim(st.paths, vp.value, BindingOptions(r.0.value, KnownAncestors(st.fields, parentId))))
  {
    var r := Creation(st, a, schemaPath, parentId, siblingKeys);
    var checks := CreateChecks(st, a, parentId);
    if checks.Success? {
      var f := Made(st, a, checks.value.t, schemaPath, parentId, siblingKeys);
      var c := BindingClaim(st.fields, st.paths, f, checks.value.known);
      assert r.1.paths == c.1;
      if c.0.None? && Binds(f) && PathRegistry.Valid(st.paths) {
        var vp := GetValuePath(st.fields, f, NoOptions());
        PathRegistry.ClaimValid(st.paths, vp.value, BindingOptions(f, checks.value.known), st.fields);
      }
    }
  }

  /** The name `create` generated for the field, if any: the key of a keyless keyed field or the path of a pathless repeatable container. */
  function GeneratedName(a: Attrs, f: Field): Option<string>
  {
    if Keyed(f.ftype) && !Given(a.key) then f.key
    else if Pathed(f.ftype) && Repeatable(f.ftype) && !Given(a.path) then f.path
    else None
  }

  /**
   * A generated key or path is no sibling's schema key and no name of the
   * claimed-path tree before the create, and a successful create claims it:
   * every later create avoids it, so keyless siblings of one type bind to
   * different paths.
   */
  lemma GeneratedNameFresh(st: Registries, a: Attrs, schemaPath: Path, parentId: Option<string>, siblingKeys: set<string>)
    requires RegistryLinked(st.fields)
    requires parentId.Some? ==> parentId.value in st.fields && |st.fields[parentId.value].schemaPath| < |schemaPath|
    ensures var r := Creation(st, a, schemaPath, parentId, siblingKeys);
      r.0.Success? && GeneratedName(a, r.0.value).Some? ==>
        var k := GeneratedName(a, r.0.value).value;
        && k !in siblingKeys && k !in PathRegistry.Names(st.paths)
        && k in PathRegistry.Names(r.1.paths)
  {
    var checks := CreateChecks(st, a, parentId);
    CreateDef(st, a, schemaPath, parentId, siblingKeys);
    hide *;
    if checks.Success? {
      var f := Made(st, a, checks.value.t, schemaPath, parentId, siblingKeys);
      MadeGenerated(st, a, checks.value.t, schemaPath, parentId, siblingKeys);
      if GeneratedName(a, f).Some? {
        ClaimedNameNamed(st.fields, st.paths, f, checks.value.known, GeneratedName(a, f).value);
      }
    }
  }

  /** A successful binding claim of a field whose own segment is `k` puts `k` in the tree. */
  lemma ClaimedNameNamed(fields: Registry, paths: seq<PathRegistry.PathNode>, f: Field, known: seq<string>, k: string)
    requires RegistryLinked(fields) && Linked(fields, f) && Binds(f)
    requires LocalPath(f, NoOptions()) == Success(DotPath(k)) && '.' !in k
    ensures var c := BindingClaim(fields, paths, f, known);
      c.0.None? ==> k in PathRegistry.Names(c.1)
  {
    var c := BindingClaim(fields, paths, f, known);
    if c.0.None? {
      var vp := GetValuePath(fields, f, NoOptions());
      PathRegistry.ClaimNames(paths, vp.value, BindingOptions(f, known), fields);
      OwnEndsPath(fields, f, k);
      PathRegistry.LastKeyNamed(vp.value, k);
    }
  }

  /** A generated name is outside the avoided names, has no dot, is the field's own path segment and makes `create` claim. */
  lemma MadeGenerated(st: Registries, a: Attrs, t: FieldType, schemaPath: Path, parentId: Option<string>, siblingKeys: set<string>)
    requires !(Given(a.id) && a.id.value in st.ids)
    ensures var f := Made(st, a, t, schemaPath, parentId, siblingKeys);
      GeneratedName(a, f).Some? ==> var k := GeneratedName(a, f).value;
        && k !in Avoided(siblingKeys, st.paths) && '.' !in k
        && LocalPath(f, NoOptions()) == Success(DotPath(k)) && Binds(f)
  {
    var f := Made(st, a, t, schemaPath, parentId, siblingKeys);
    if GeneratedName(a, f).Some? {
      assert GeneratedName(a, f).value == UniqueKey(t, Avoided(siblingKeys, st.paths));
    }
  }

  /** The value path of a field ends with its own segments. */
  lemma OwnEndsPath(fields: Registry, f: Field, k: string)
    requires RegistryLinked(fields) && Linked(fields, f)
    requires LocalPath(f, NoOptions()) == Success(DotPath(k)) && '.' !in k
    requires GetValuePath(fields, f, NoOptions()).Success?
    ensures var p := GetValuePath(fields, f, NoOptions()).value;
      |p| >= 1 && p[|p| - 1] == Key(k)
  {
    assert Split(k, '.') == [k];
    assert DotPath(k) == [Key(k)];
    if FollowsParent(f, NoOptions()) {
      PathStep(fields, f, NoOptions());
    }
  }

  // ---------------------------------------------------------------------
  // Importer.importFormField / importFormFields

  /** Every field registered before is still registered, unchanged. */
  predicate Extends(before: Registry, after: Registry)
  {
    forall id :: id in before ==> id in after && after[id] == before[id]
  }

  /** A registry extended twice, with one entry that was not there at first replaced, still extends the first. */
  lemma ExtendsThrough(before: Registry, mid: Registry, after: Registry, id: string, g: Field)
    requires Extends(before, mid) && Extends(mid, after) && id !in before
    ensures Extends(before, after[id := g])
  {
  }

  lemma ExtendsKeys(before: Registry, after: Registry)
    requires Extends(before, after)
    ensures before.Keys <= after.Keys
  {
  }

  /** Registering a new field linked to its parent keeps the registry linked. */
  lemma AddLinked(reg: Registry, f: Field)
    requires RegistryLinked(reg) && Linked(reg, f) && f.id !in reg
    ensures RegistryLinked(reg[f.id := f]) && Extends(reg, reg[f.id := f])
  {
  }

  /** Replacing a registered field by one with the same parent and schema path keeps the registry linked. */
  lemma ReplaceLinked(reg: Registry, g: Field)
    requires RegistryLinked(reg) && g.id in reg
    requires reg[g.id].parent == g.parent && reg[g.id].schemaPath == g.schemaPath
    ensures RegistryLinked(reg[g.id := g])
  {
    var reg' := reg[g.id := g];
    forall id | id in reg'
      ensures reg'[id].id == id && Linked(reg', reg'[id])
    {
      assert Linked(reg, reg[id]);
    }
  }

  /** `formFieldRegistry.add(field)`: a registered id throws, otherwise the field is stored under its id. */
  function Register(st: Registries, f: Field): (r: Result<Registries, ImportError>)
    requires RegistryLinked(st.fields) && Linked(st.fields, f)
    ensures r.Failure? <==> f.id in st.fields
    ensures r.Success? && KeysPresent(st.fields) && HasKey(f) ==> KeysPresent(r.value.fields)
    ensures r.Success? ==>
      && RegistryLinked(r.value.fields) && Extends(st.fields, r.value.fields)
      && r.value.fields == st.fields[f.id := f] && r.value.order == st.order + [f.id]
      && r.value.ids == st.ids && r.value.paths == st.paths
  {
    if f.id in st.fields then Failure(AlreadyRegistered(f.id))
    else
      AddLinked(st.fields, f);
      Success(st.(fields := st.fields[f.id := f], order := st.order + [f.id]))
  }

  /** `field.components = children`: the registry holds the field itself, so its entry gets the children too. */
  function Attach(st: Registries, f: Field, children: seq<Field>): (r: (Field, Registries))
    requires RegistryLinked(st.fields) && f.id in st.fields && st.fields[f.id] == f
    ensures RegistryLinked(r.1.fields) && (KeysPresent(st.fields) ==> KeysPresent(r.1.fields))
    ensures r.0 == f.(components := children) && r.1 == st.(fields := st.fields[f.id := r.0])
  {
    var g := f.(components := children);
    ReplaceLinked(st.fields, g);
    (g, st.(fields := st.fields[f.id := g]))
  }

  /** The schema path of a child: its parent's followed by `components, index`. */
  function ChildSchemaPath(fields: Registry, parentId: Option<string>, index: nat): (p: Path)
    requires parentId.Some? ==> parentId.value in fields
    ensures parentId.Some? ==> |p| == |fields[parentId.value].schemaPath| + 2
  {
    if parentId.Some? then fields[parentId.value].schemaPath + [Key("components"), Index(index)] else []
  }

  /**
   * `importFormField(attrs, parentId, index)`: the field is created with
   * its parent's schema path extended by `components, index`, then placed.
   */
  function ImportField(st: Registries, a: Attrs, parentId: Option<string>, index: nat, siblingKeys: set<string>): (r: (Result<Field, ImportError>, Registries))
    requires RegistryLinked(st.fields)
    requires parentId.Some? ==> Given(parentId) && parentId.value in st.fields
    ensures RegistryLinked(r.1.fields) && Extends(st.fields, r.1.fields)
    ensures KeysPresent(st.fields) ==> KeysPresent(r.1.fields)
    ensures PathRegistry.Valid(st.paths) ==> PathRegistry.Valid(r.1.paths)
    decreases a, 2
  {
    var schemaPath := ChildSchemaPath(st.fields, parentId, index);
    var c := Creation(st, a, schemaPath, parentId, siblingKeys);
    CreateClaims(st, a, schemaPath, parentId, siblingKeys);
    if c.0.Failure? then c else Place(c.1, a, c.0.value)
  }

  /** The rest of `importFormField`: the created field is registered (a registered id throws), then its children are imported under it and become its `components`. */
  function Place(st: Registries, a: Attrs, f: Field): (r: (Result<Field, ImportError>, Registries))
    requires RegistryLinked(st.fields) && Linked(st.fields, f) && f.id != "" && HasKey(f)
    ensures RegistryLinked(r.1.fields) && Extends(st.fields, r.1.fields)
    ensures KeysPresent(st.fields) ==> KeysPresent(r.1.fields)
    ensures PathRegistry.Valid(st.paths) ==> PathRegistry.Valid(r.1.paths)
    decreases a, 1
  {
    var reg := Register(st, f);
    if reg.Failure? then (Failure(reg.error), st)
    else if !a.hasComponents then (Success(f), reg.value)
    else
      var cs := ImportFields(reg.value, a, f.id, 0);
      if cs.0.Failure? then (Failure(cs.0.error), cs.1)
      else
        var done := Attach(cs.1, f, cs.0.value);
        ExtendsThrough(st.fields, reg.value.fields, cs.1.fields, f.id, done.0);
        (Success(done.0), done.1)
  }

  /** `importFormFields(components, parentId)`: the children from position `i` on, in order; the first error stops the import. */
  function ImportFields(st: Registries, owner: Attrs, parentId: string, i: nat): (r: (Result<seq<Field>, ImportError>, Registries))
    requires RegistryLinked(st.fields) && parentId != "" && parentId in st.fields
    requires i <= |owner.components|
    ensures RegistryLinked(r.1.fields) && Extends(st.fields, r.1.fields)
    ensures KeysPresent(st.fields) ==> KeysPresent(r.1.fields)
    ensures PathRegistry.Valid(st.paths) ==> PathRegistry.Valid(r.1.paths)
    ensures r.0.Success? ==> |r.0.value| == |owner.components| - i
    decreases owner, 0, |owner.components| - i
  {
    if i == |owner.components| then (Success([]), st)
    else
      var c := ImportField(st, owner.components[i], Some(parentId), i, SiblingKeys(owner.components));
      if c.0.Failure? then (Failure(c.0.error), c.1)
      else
        var rest := ImportFields(c.1, owner, parentId, i + 1);
        if rest.0.Failure? then rest else (Success([c.0.value] + rest.0.value), rest.1)
  }

  /** Every field of the tree is registered under its id as it was imported. */
  predicate Stored(reg: Registry, f: Field)
  {
    f.id in reg && reg[f.id] == f && forall i :: 0 <= i < |f.components| ==> Stored(reg, f.components[i])
  }

  /** No field of the tree has an id in `keys`. */
  predicate Absent(f: Field, keys: set<string>)
  {
    f.id !in keys && forall i :: 0 <= i < |f.components| ==> Absent(f.components[i], keys)
  }

  /** What a successful import leaves: every field of the tree stored and imported, none of them registered before. */
  predicate Placed(before: Registry, after: Registry, f: Field)
  {
    Stored(after, f) && Imported(after, f) && Absent(f, before.Keys)
  }

  /** Every registered field keeps its schema path. */
  predicate SamePaths(before: Registry, after: Registry)
  {
    forall id :: id in before ==> id in after && after[id].schemaPath == before[id].schemaPath
  }

  lemma {:induction false} StoredExtends(reg: Registry, reg': Registry, f: Field)
    requires Stored(reg, f) && Extends(reg, reg')
    ensures Stored(reg', f)
    decreases f
  {
    forall i | 0 <= i < |f.components|
      ensures Stored(reg', f.components[i])
    {
      StoredExtends(reg, reg', f.components[i]);
    }
  }

  lemma {:induction false} StoredUpdate(reg: Registry, keys: set<string>, id: string, g: Field, f: Field)
    requires Stored(reg, f) && Absent(f, keys) && id in keys
    ensures Stored(reg[id := g], f)
    decreases f
  {
    forall i | 0 <= i < |f.components|
      ensures Stored(reg[id := g], f.components[i])
    {
      StoredUpdate(reg, keys, id, g, f.components[i]);
    }
  }

  lemma {:induction false} ImportedSamePaths(reg: Registry, reg': Registry, f: Field)
    requires Imported(reg, f) && SamePaths(reg, reg')
    ensures Imported(reg', f)
    decreases f
  {
    forall i | 0 <= i < |f.components|
      ensures Imported(reg', f.components[i])
    {
      ImportedSamePaths(reg, reg', f.components[i]);
    }
  }

  lemma {:induction false} AbsentSmaller(f: Field, keys: set<string>, small: set<string>)
    requires Absent(f, keys) && small <= keys
    ensures Absent(f, small)
    decreases f
  {
    forall i | 0 <= i < |f.components|
      ensures Absent(f.components[i], small)
    {
      AbsentSmaller(f.components[i], keys, small);
    }
  }

  /** A tree placed by one step stays placed when the registry is extended afterwards. */
  lemma PlacedLater(before: Registry, mid: Registry, after: Registry, f: Field)
    requires Placed(before, mid, f) && Extends(mid, after)
    ensures Placed(before, after, f)
  {
    StoredExtends(mid, after, f);
    ImportedSamePaths(mid, after, f);
  }

  /** A successful `importFormField` registers the whole tree it returns, linked, keyed and under fresh ids. */
  lemma {:induction false} ImportFieldPlaced(st: Registries, a: Attrs, parentId: Option<string>, index: nat, siblingKeys: set<string>)
    requires RegistryLinked(st.fields)
    requires parentId.Some? ==> Given(parentId) && parentId.value in st.fields
    ensures var r := ImportField(st, a, parentId, index, siblingKeys);
      r.0.Success? ==> Placed(st.fields, r.1.fields, r.0.value)
    decreases a, 2
  {
    var c := Creation(st, a, ChildSchemaPath(st.fields, parentId, index), parentId, siblingKeys);
    if c.0.Success? {
      PlacePlaced(c.1, a, c.0.value);
    }
  }

  /** One unfolding of `Place`. */
  lemma PlaceDef(st: Registries, a: Attrs, f: Field)
    requires RegistryLinked(st.fields) && Linked(st.fields, f) && f.id != "" && HasKey(f)
    ensures var r := Place(st, a, f);
      var reg := Register(st, f);
      && (reg.Failure? ==> r.0.Failure?)
      && (reg.Success? && !a.hasComponents ==> r == (Success(f), reg.value))
      && (reg.Success? && a.hasComponents ==>
            var cs := ImportFields(reg.value, a, f.id, 0);
            && (cs.0.Failure? ==> r.0.Failure?)
            && (cs.0.Success? ==> r == (Success(Attach(cs.1, f, cs.0.value).0), Attach(cs.1, f, cs.0.value).1)))
  {
  }

  /** `Place` step by step, with the exact state after each step. */
  lemma PlaceSteps(st: Registries, a: Attrs, f: Field)
    requires RegistryLinked(st.fields) && Linked(st.fields, f) && f.id != "" && HasKey(f)
    ensures f.id in st.fields ==> Place(st, a, f) == (Failure(AlreadyRegistered(f.id)), st)
    ensures f.id !in st.fields ==>
      var mid := st.(fields := st.fields[f.id := f], order := st.order + [f.id]);
      && RegistryLinked(mid.fields)
      && (!a.hasComponents ==> Place(st, a, f) == (Success(f), mid))
      && (a.hasComponents ==>
            var cs := ImportFields(mid, a, f.id, 0);
            var g := f.(components := if cs.0.Success? then cs.0.value else []);
            && (cs.0.Failure? ==> Place(st, a, f) == (Failure(cs.0.error), cs.1))
            && (cs.0.Success? ==> Place(st, a, f) == (Success(g), cs.1.(fields := cs.1.fields[f.id := g]))))
  {
    if f.id !in st.fields {
      AddLinked(st.fields, f);
    }
  }

  lemma {:induction false} PlacePlaced(st: Registries, a: Attrs, f: Field)
    requires RegistryLinked(st.fields) && Linked(st.fields, f) && f.id != "" && HasKey(f) && f.components == []
    ensures var r := Place(st, a, f);
      r.0.Success? ==> Placed(st.fields, r.1.fields, r.0.value)
    decreases a, 1
  {
    hide *;
    PlaceDef(st, a, f);
    var reg := Register(st, f);
    if reg.Success? {
      if !a.hasComponents {
        PlacedLeaf(st.fields, f);
      } else {
        var cs := ImportFields(reg.value, a, f.id, 0);
        if cs.0.Success? {
          ImportFieldsPlaced(reg.value, a, f.id, 0);
          PlacedParent(st.fields, reg.value.fields, cs.1.fields, f, cs.0.value);
        }
      }
    }
  }

  /** A registered field without children is placed. */
  lemma PlacedLeaf(before: Registry, f: Field)
    requires Linked(before, f) && HasKey(f) && f.components == [] && f.id !in before
    ensures Placed(before, before[f.id := f], f)
  {
  }

  /** A registered field whose children were placed after it is placed once they are attached. */
  lemma PlacedParent(before: Registry, mid: Registry, after: Registry, f: Field, children: seq<Field>)
    requires Linked(before, f) && HasKey(f) && f.id !in before
    requires mid == before[f.id := f] && Extends(mid, after)
    requires forall k :: 0 <= k < |children| ==> Placed(mid, after, children[k])
    ensures Placed(before, after[f.id := f.(components := children)], f.(components := children))
  {
    var g := f.(components := children);
    var final := after[f.id := g];
    assert SamePaths(after, final);
    forall k | 0 <= k < |children|
      ensures Placed(before, final, children[k])
    {
      StoredUpdate(after, mid.Keys, f.id, g, children[k]);
      ImportedSamePaths(after, final, children[k]);
      AbsentSmaller(children[k], mid.Keys, before.Keys);
    }
  }

  /** One unfolding of `ImportFields`. */
  lemma ImportFieldsDef(st: Registries, owner: Attrs, parentId: string, i: nat)
    requires RegistryLinked(st.fields) && parentId != "" && parentId in st.fields
    requires i < |owner.components|
    ensures var r := ImportFields(st, owner, parentId, i);
      var c := ImportField(st, owner.components[i], Some(parentId), i, SiblingKeys(owner.components));
      && (c.0.Failure? ==> r.0.Failure?)
      && (c.0.Success? ==>
            var rest := ImportFields(c.1, owner, parentId, i + 1);
            && (rest.0.Failure? ==> r.0.Failure?)
            && (rest.0.Success? ==> r == (Success([c.0.value] + rest.0.value), rest.1)))
  {
  }

  lemma {:induction false} ImportFieldsPlaced(st: Registries, owner: Attrs, parentId: string, i: nat)
    requires RegistryLinked(st.fields) && parentId != "" && parentId in st.fields
    requires i <= |owner.components|
    ensures var r := ImportFields(st, owner, parentId, i);
      r.0.Success? ==> forall k :: 0 <= k < |r.0.value| ==> Placed(st.fields, r.1.fields, r.0.value[k])
    decreases owner, 0, |owner.components| - i
  {
    assert Given(Some(parentId));
    hide *;
    if i < |owner.components| {
      ImportFieldsDef(st, owner, parentId, i);
      var keys := SiblingKeys(owner.components);
      var c := ImportField(st, owner.components[i], Some(parentId), i, keys);
      ExtendsKeys(st.fields, c.1.fields);
      if c.0.Success? {
        ImportFieldPlaced(st, owner.components[i], Some(parentId), i, keys);
        var rest := ImportFields(c.1, owner, parentId, i + 1);
        if rest.0.Success? {
          ImportFieldsPlaced(c.1, owner, parentId, i + 1);
          PlacedCons(st.fields, c.1.fields, rest.1.fields, c.0.value, rest.0.value);
        }
      }
    }
  }

  /** A tree placed first and the trees placed after it are all placed. */
  lemma PlacedCons(before: Registry, mid: Registry, after: Registry, f: Field, rest: seq<Field>)
    requires Placed(before, mid, f) && Extends(before, mid) && Extends(mid, after)
    requires forall k :: 0 <= k < |rest| ==> Placed(mid, after, rest[k])
    ensures forall k :: 0 <= k < |[f] + rest| ==> Placed(before, after, ([f] + rest)[k])
  {
    PlacedLater(before, mid, after, f);
    forall k | 0 <= k < |rest|
      ensures Placed(before, after, rest[k])
    {
      PlacedSmaller(mid, before, after, rest[k]);
    }
  }

  lemma PlacedSmaller(before: Registry, small: Registry, after: Registry, f: Field)
    requires Placed(before, after, f) && small.Keys <= before.Keys
    ensures Placed(small, after, f)
  {
    AbsentSmaller(f, before.Keys, small.Keys);
  }

  /**
   * A successful `importSchema` leaves what the form relies on: every
   * registered field linked to its registered parent, every keyed field
   * with a key, the returned tree registered as imported, and a well-formed
   * path tree.
   */
  lemma ImportSchemaValid(schema: Attrs)
    ensures var r := ImportField(Cleared(), schema, None, 0, {});
      r.0.Success? ==>
        && RegistryLinked(r.1.fields) && KeysPresent(r.1.fields)
        && Imported(r.1.fields, r.0.value) && Stored(r.1.fields, r.0.value)
        && PathRegistry.Valid(r.1.paths)
  {
    ImportFieldPlaced(Cleared(), schema, None, 0, {});
    assert KeysPresent(map[]) && PathRegistry.Valid([]);
  }

  // ---------------------------------------------------------------------
  // FormFieldRegistry

  /** The ids of `order` other than `id`, in order. */
  function Without(order: seq<string>, id: string): (r: seq<string>)
    ensures forall x :: x in r <==> x in order && x != id
    ensures |r| <= |order|
  {
    if order == [] then []
    else (if order[0] == id then [] else [order[0]]) + Without(order[1..], id)
  }

  predicate Distinct(order: seq<string>)
  {
    forall i, j :: 0 <= i < j < |order| ==> order[i] != order[j]
  }

  lemma {:induction false} WithoutDistinct(order: seq<string>, id: string)
    requires Distinct(order)
    ensures Distinct(Without(order, id))
  {
    if order != [] {
      WithoutDistinct(order[1..], id);
      assert order[0] !in order[1..];
    }
  }

  lemma {:induction false} WithoutAbsent(order: seq<string>, id: string)
    requires id !in order
    ensures Without(order, id) == order
  {
    if order != [] {
      WithoutAbsent(order[1..], id);
      assert order == [order[0]] + order[1..];
    }
  }

  lemma {:induction false} WithoutAppend(order: seq<string>, id: string)
    requires id !in order
    ensures Without(order + [id], id) == order
  {
    if order == [] {
      assert Without([id], id) == [] + Without([], id);
    } else {
      assert (order + [id])[1..] == order[1..] + [id];
      WithoutAppend(order[1..], id);
      assert order == [order[0]] + order[1..];
    }
  }

  /** Removing a field right after adding it restores the registry. */
  lemma RemoveUndoesAdd(fields: Registry, order: seq<string>, f: Field)
    requires f.id !in fields && f.id !in order
    ensures fields[f.id := f] - {f.id} == fields
    ensures Without(order + [f.id], f.id) == order
  {
    WithoutAppend(order, f.id);
  }

  /** `FormFieldRegistry`: the imported fields by id, `order` their insertion order, and the ids assigned so far. */
  class FormFieldRegistry {
    var fields: Registry
    var order: seq<string>
    var ids: set<string>

    /** `order` lists every registered id exactly once. */
    ghost predicate Valid()
      reads this
    {
      Indexed(order, fields)
    }

    constructor()
      ensures Valid() && fields == map[] && order == [] && ids == {}
    {
      fields := map[];
      order := [];
      ids := {};
    }

    /** `add(formField)`: a registered id throws; otherwise the field is stored under its id. */
    method Add(f: Field) returns (err: Option<ImportError>)
      requires Valid()
      modifies this
      ensures Valid() && ids == old(ids)
      ensures old(f.id in fields) ==> err == Some(AlreadyRegistered(f.id)) && fields == old(fields) && order == old(order)
      ensures old(f.id !in fields) ==> err.None? && fields == old(fields)[f.id := f] && order == old(order) + [f.id]
    {
      if f.id in fields {
        return Some(AlreadyRegistered(f.id));
      }
      fields := fields[f.id := f];
      order := order + [f.id];
      return None;
    }

    /** The registered field gets its imported children (the registry holds the field object itself). */
    method Put(f: Field)
      requires Valid() && f.id in fields
      modifies this
      ensures Valid()
      ensures fields == old(fields)[f.id := f] && order == old(order) && ids == old(ids)
    {
      fields := fields[f.id := f];
    }

    /** `remove(formField)`: an unregistered id is ignored. */
    method Remove(f: Field)
      requires Valid()
      modifies this
      ensures Valid() && ids == old(ids)
      ensures fields == old(fields) - {f.id}
      ensures order == Without(old(order), f.id)
    {
      if f.id !in fields {
        WithoutAbsent(order, f.id);
        return;
      }
      IndexedRemove(order, fields, f.id);
      fields := fields - {f.id};
      order := Without(order, f.id);
    }

    /** `get(id)`. */
    function Get(id: string): Option<Field>
      reads this
    {
      if id in fields then Some(fields[id]) else None
    }

    /** `getAll()`: every registered field once, in insertion order. */
    function GetAll(): (r: seq<Field>)
      reads this
      requires Valid()
      ensures |r| == |fields|
      ensures forall g :: g in r <==> exists id :: id in fields && fields[id] == g
    {
      var o, m := order, fields;
      var r := seq(|o|, i requires 0 <= i < |o| && o[i] in m => m[o[i]]);
      forall g | exists id :: id in m && m[id] == g
        ensures g in r
      {
        var id :| id in m && m[id] == g;
        var i :| 0 <= i < |o| && o[i] == id;
        assert r[i] == g;
      }
      OrderCovers(o, m);
      r
    }

    /** `getForm()`: the first registered field of type `default`. */
    function GetForm(): Option<Field>
      reads this
    {
      FormOf(fields, order)
    }

    /** `clear()`: forgets every field and every assigned id. */
    method Clear()
      modifies this
      ensures Valid() && fields == map[] && order == [] && ids == {}
    {
      fields := map[];
      order := [];
      ids := {};
    }

    /** `_ids.assigned(id)`. */
    predicate Assigned(id: string)
      reads this
    {
      id in ids
    }

    /** `_ids.claim(id)`. */
    method ClaimId(id: string)
      modifies this
      ensures ids == old(ids) + {id} && fields == old(fields) && order == old(order)
    {
      ids := ids + {id};
    }

    /** `_ids.nextPrefixed(prefix)`: a fresh id, assigned at once. */
    method NextId(prefix: string) returns (id: string)
      modifies this
      ensures id == NextPrefixed(prefix, old(ids)) && id !in old(ids)
      ensures ids == old(ids) + {id} && fields == old(fields) && order == old(order)
    {
      id := NextPrefixed(prefix, ids);
      ids := ids + {id};
    }
  }

  /** `order` lists every key of `fields` exactly once. */
  predicate Indexed(order: seq<string>, fields: Registry)
  {
    && (forall i :: 0 <= i < |order| ==> order[i] in fields)
    && (forall id :: id in fields ==> id in order)
    && Distinct(order)
  }

  lemma IndexedRemove(order: seq<string>, fields: Registry, id: string)
    requires Indexed(order, fields)
    ensures Indexed(Without(order, id), fields - {id})
  {
    WithoutDistinct(order, id);
    var w := Without(order, id);
    forall i | 0 <= i < |w|
      ensures w[i] in fields - {id}
    {
      assert w[i] in w;
    }
  }

  /** A duplicate-free list of all the keys of a map is as long as the map. */
  lemma OrderCovers(order: seq<string>, fields: Registry)
    requires forall i :: 0 <= i < |order| ==> order[i] in fields
    requires forall id :: id in fields ==> id in order
    requires Distinct(order)
    ensures |order| == |fields|
  {
    var s := set i | 0 <= i < |order| :: order[i];
    assert s == fields.Keys;
    DistinctCard(order);
  }

  lemma {:induction false} DistinctCard(order: seq<string>)
    requires Distinct(order)
    ensures |set i | 0 <= i < |order| :: order[i]| == |order|
  {
    if order != [] {
      var rest := order[1..];
      DistinctCard(rest);
      var s := set i | 0 <= i < |order| :: order[i];
      var t := set i | 0 <= i < |rest| :: rest[i];
      assert s == {order[0]} + t by {
        forall x | x in s ensures x in {order[0]} + t {
          var i :| 0 <= i < |order| && order[i] == x;
          if i > 0 { assert rest[i - 1] == x; }
        }
      }
      assert order[0] !in t;
    }
  }

  // ---------------------------------------------------------------------
  // FieldFactory and Importer over the mutable registries

  /** `FieldFactory`, working on the field registry and the path registry it shares with the importer. */
  class FieldFactory {
    const registry: FormFieldRegistry
    const paths: PathRegistry.PathRegistry

    constructor(registry: FormFieldRegistry, paths: PathRegistry.PathRegistry)
      ensures this.registry == registry && this.paths == paths
    {
      this.registry := registry;
      this.paths := paths;
    }

    /** The registries as one value. */
    function State(): Registries
      reads registry, paths
    {
      Registries(registry.fields, registry.order, registry.ids, paths.dataPaths)
    }

    /** One `canClaimPath` check of `create`. */
    method CheckClaim(p: Path, o: PathRegistry.ClaimOptions) returns (e: Option<ImportError>)
      requires RegistryLinked(registry.fields)
      ensures e == ClaimCheck(State(), p, o)
    {
      var ok := paths.CanClaimPath(p, o, registry.fields);
      if ok.Failure? {
        return Some(ClaimFailure(ok.error));
      }
      return if ok.value then None else Some(AlreadyClaimed(p));
    }

    /** The checks of `create` before anything changes. */
    method Check(a: Attrs, parentId: Option<string>) returns (r: Result<Checked, ImportError>)
      requires RegistryLinked(registry.fields)
      ensures r == CreateChecks(State(), a, parentId)
    {
      var t := TypeOf(a.typeName);
      if t.None? {
        return Failure(UnsupportedType(a.typeName));
      }
      if Given(a.id) && registry.Assigned(a.id.value) {
        return Failure(DuplicateId(a.id.value));
      }
      var pp := ParentPath(registry.fields, parentId);
      if pp.Failure? {
        return Failure(ValuePathFailure(pp.error));
      }
      var known := GetAncestryList(registry.fields, if parentId.Some? then parentId.value else "undefined");
      if Keyed(t.value) && Given(a.key) {
        var e := CheckClaim(pp.value + DotPath(a.key.value), PathRegistry.ClaimOptions(true, false, false, None, known));
        if e.Some? {
          return Failure(e.value);
        }
      }
      if Pathed(t.value) && Given(a.path) {
        var e := CheckClaim(pp.value + DotPath(a.path.value), PathRegistry.ClaimOptions(false, Repeatable(t.value), false, None, known));
        if e.Some? {
          return Failure(e.value);
        }
      }
      return Success(Checked(t.value, pp.value, known));
    }

    /** `create(attrs, false)`, changing the registries as the specification function says. */
    method Create(a: Attrs, schemaPath: Path, parentId: Option<string>, siblingKeys: set<string>) returns (r: Result<Field, ImportError>)
      requires RegistryLinked(registry.fields)
      requires parentId.Some? ==> parentId.value in registry.fields && |registry.fields[parentId.value].schemaPath| < |schemaPath|
      modifies registry, paths
      ensures (r, State()) == Creation(old(State()), a, schemaPath, parentId, siblingKeys)
    {
      var checks := Check(a, parentId);
      if checks.Failure? {
        return Failure(checks.error);
      }
      r := Complete(a, checks.value, schemaPath, parentId, siblingKeys);
    }

    /** The rest of `create` once the checks pass: `_ensureId`, `_ensureKey` or `_enforceDefaultPath`, then the claim. */
    method Complete(a: Attrs, c: Checked, schemaPath: Path, parentId: Option<string>, siblingKeys: set<string>) returns (r: Result<Field, ImportError>)
      requires RegistryLinked(registry.fields) && !(Given(a.id) && a.id.value in registry.ids)
      requires parentId.Some? ==> parentId.value in registry.fields && |registry.fields[parentId.value].schemaPath| < |schemaPath|
      modifies registry, paths
      ensures (r, State()) == Completed(old(State()), a, c, schemaPath, parentId, siblingKeys)
    {
      ghost var st := State();
      CompletedDef(st, a, c, schemaPath, parentId, siblingKeys);
      hide Completed;
      var id: string;
      if Given(a.id) {
        id := a.id.value;
        registry.ClaimId(id);
      } else {
        id := registry.NextId(if c.t == Default then "Form_" else "Field_");
      }
      var taken := Avoided(siblingKeys, paths.dataPaths);
      var f := Build(a, c.t, id, EnsureKey(a, c.t, taken), EnsurePath(a, c.t, taken), schemaPath, parentId);
      assert f == Made(old(State()), a, c.t, schemaPath, parentId, siblingKeys);
      var e := Bind(f, c.known);
      r := if e.Some? then Failure(e.value) else Success(f);
    }

    /** The `claimPath` of `create` for the finished field. */
    method Bind(f: Field, known: seq<string>) returns (e: Option<ImportError>)
      requires RegistryLinked(registry.fields) && Linked(registry.fields, f)
      modifies paths
      ensures (e, paths.dataPaths) == BindingClaim(registry.fields, old(paths.dataPaths), f, known)
    {
      if Binds(f) {
        var vp := GetValuePath(registry.fields, f, NoOptions());
        if vp.Failure? {
          return Some(ValuePathFailure(vp.error));
        }
        var err := paths.ClaimPath(vp.value, BindingOptions(f, known), registry.fields);
        if err.Some? {
          return Some(ClaimFailure(err.value));
        }
      }
      return None;
    }
  }

  /** The children imported before position `i` put in front of the import of the rest. */
  function Prepend(done: seq<Field>, rest: (Result<seq<Field>, ImportError>, Registries)): (Result<seq<Field>, ImportError>, Registries)
  {
    if rest.0.Failure? then rest else (Success(done + rest.0.value), rest.1)
  }

  lemma PrependNothing(rest: (Result<seq<Field>, ImportError>, Registries))
    ensures Prepend([], rest) == rest
  {
    if rest.0.Success? {
      assert [] + rest.0.value == rest.0.value;
    }
  }

  lemma PrependError(done: seq<Field>, rest: (Result<seq<Field>, ImportError>, Registries))
    requires rest.0.Failure?
    ensures Prepend(done, rest) == rest
  {
  }

  lemma PrependAll(done: seq<Field>, st: Registries)
    ensures Prepend(done, (Success([]), st)) == (Success(done), st)
  {
    assert done + [] == done;
  }

  lemma PrependOneMore(done: seq<Field>, g: Field, rest: (Result<seq<Field>, ImportError>, Registries))
    ensures Prepend(done, Prepend([g], rest)) == Prepend(done + [g], rest)
  {
    if rest.0.Success? {
      assert done + ([g] + rest.0.value) == (done + [g]) + rest.0.value;
    }
  }

  /** One step of `importFormFields`: the `i`-th child, then the rest. */
  lemma ImportFieldsStep(st: Registries, owner: Attrs, parentId: string, i: nat)
    requires RegistryLinked(st.fields) && parentId != "" && parentId in st.fields
    requires i < |owner.components|
    ensures var c := ImportField(st, owner.components[i], Some(parentId), i, SiblingKeys(owner.components));
      && (c.0.Failure? ==> ImportFields(st, owner, parentId, i) == (Failure(c.0.error), c.1))
      && (c.0.Success? ==> ImportFields(st, owner, parentId, i) == Prepend([c.0.value], ImportFields(c.1, owner, parentId, i + 1)))
  {
  }

  lemma ImportFieldsEnd(st: Registries, owner: Attrs, parentId: string)
    requires RegistryLinked(st.fields) && parentId != "" && parentId in st.fields
    ensures ImportFields(st, owner, parentId, |owner.components|) == (Success([]), st)
  {
  }

  /** `Importer`: imports a schema into the shared registries and lays it out. */
  class Importer {
    const registry: FormFieldRegistry
    const paths: PathRegistry.PathRegistry
    const factory: FieldFactory
    const layouter: Layouts.FormLayouter

    constructor(registry: FormFieldRegistry, paths: PathRegistry.PathRegistry, factory: FieldFactory, layouter: Layouts.FormLayouter)
      requires factory.registry == registry && factory.paths == paths
      ensures this.registry == registry && this.paths == paths && this.factory == factory && this.layouter == layouter
      ensures Wired()
    {
      this.registry := registry;
      this.paths := paths;
      this.factory := factory;
      this.layouter := layouter;
    }

    /** The factory works on the importer's own registries. */
    predicate Wired()
    {
      factory.registry == registry && factory.paths == paths
    }

    /** The registries as one value. */
    function State(): Registries
      reads registry, paths
    {
      Registries(registry.fields, registry.order, registry.ids, paths.dataPaths)
    }

    /** `_cleanup()`: rows, fields, ids and claimed paths are all forgotten. */
    method Cleanup()
      modifies registry, paths, layouter
      ensures registry.Valid() && State() == Cleared()
      ensures layouter.rows == [] && layouter.counter == 0
    {
      layouter.Clear();
      registry.Clear();
      paths.Clear();
    }

    /**
     * `importSchema(schema)`: after a cleanup the schema is imported as the
     * form field and laid out; on an error everything is cleaned up again
     * and the error is passed on.
     */
    method ImportSchema(schema: Attrs) returns (r: Result<Field, ImportError>)
      requires Wired()
      modifies registry, paths, layouter
      ensures registry.Valid()
      ensures r == ImportField(Cleared(), schema, None, 0, {}).0
      ensures r.Success? ==> State() == ImportField(Cleared(), schema, None, 0, {}).1
      ensures r.Success? ==> (layouter.rows, layouter.counter) == Layouts.Arrange([], 0, r.value)
      ensures r.Success? ==>
        && RegistryLinked(registry.fields) && KeysPresent(registry.fields)
        && Imported(registry.fields, r.value) && Stored(registry.fields, r.value)
        && PathRegistry.Valid(paths.dataPaths)
      ensures r.Failure? ==> State() == Cleared() && layouter.rows == [] && layouter.counter == 0
    {
      Cleanup();
      r := ImportFormField(schema, None, 0, {});
      if r.Failure? {
        Cleanup();
        return;
      }
      ImportSchemaValid(schema);
      layouter.CalculateLayout(r.value);
    }

    /** `importFormField(attrs, parentId, index)` against its specification function. */
    method ImportFormField(a: Attrs, parentId: Option<string>, index: nat, siblingKeys: set<string>) returns (r: Result<Field, ImportError>)
      requires Wired() && registry.Valid() && RegistryLinked(registry.fields)
      requires parentId.Some? ==> Given(parentId) && parentId.value in registry.fields
      modifies registry, paths
      ensures registry.Valid()
      ensures (r, State()) == ImportField(old(State()), a, parentId, index, siblingKeys)
      decreases a, 2
    {
      var schemaPath := ChildSchemaPath(registry.fields, parentId, index);
      r := factory.Create(a, schemaPath, parentId, siblingKeys);
      if r.Success? {
        r := PlaceField(a, r.value);
      }
    }

    /** The rest of `importFormField` once the field is created. */
    method PlaceField(a: Attrs, f: Field) returns (r: Result<Field, ImportError>)
      requires Wired() && registry.Valid() && RegistryLinked(registry.fields)
      requires Linked(registry.fields, f) && f.id != "" && HasKey(f)
      modifies registry, paths
      ensures registry.Valid()
      ensures (r, State()) == Place(old(State()), a, f)
      decreases a, 1
    {
      PlaceSteps(State(), a, f);
      hide Place, Register, Attach, ImportFields;
      var err := registry.Add(f);
      if err.Some? {
        return Failure(err.value);
      }
      if !a.hasComponents {
        return Success(f);
      }
      ghost var mid := State();
      var cs := ImportFormFields(a, f.id);
      if cs.Failure? {
        return Failure(cs.error);
      }
      ExtendsKeys(mid.fields, registry.fields);
      var g := f.(components := cs.value);
      registry.Put(g);
      r := Success(g);
    }

    /** `importFormFields(components, parentId)`: the children in order, each at its index. */
    method ImportFormFields(owner: Attrs, parentId: string) returns (r: Result<seq<Field>, ImportError>)
      requires Wired() && registry.Valid() && RegistryLinked(registry.fields)
      requires parentId != "" && parentId in registry.fields
      modifies registry, paths
      ensures registry.Valid()
      ensures (r, State()) == ImportFields(old(State()), owner, parentId, 0)
      decreases owner, 0, 1
    {
      var done: seq<Field> := [];
      var i := 0;
      ghost var all := ImportFields(State(), owner, parentId, 0);
      PrependNothing(all);
      while i < |owner.components|
        invariant 0 <= i <= |owner.components|
        invariant registry.Valid() && RegistryLinked(registry.fields) && parentId in registry.fields
        invariant all == Prepend(done, ImportFields(State(), owner, parentId, i))
        decreases |owner.components| - i
      {
        var c := ImportChild(owner, parentId, i, done, all);
        if c.Failure? {
          return Failure(c.error);
        }
        done := done + [c.value];
        i := i + 1;
      }
      ImportFieldsEnd(State(), owner, parentId);
      PrependAll(done, State());
      r := Success(done);
    }

    /** The callback of `components.map` in `importFormFields`: the `i`-th child imported at index `i`. */
    method ImportChild(owner: Attrs, parentId: string, i: nat, ghost done: seq<Field>, ghost all: (Result<seq<Field>, ImportError>, Registries))
        returns (c: Result<Field, ImportError>)
      requires Wired() && registry.Valid() && RegistryLinked(registry.fields)
      requires parentId != "" && parentId in registry.fields && i < |owner.components|
      requires all == Prepend(done, ImportFields(State(), owner, parentId, i))
      modifies registry, paths
      ensures registry.Valid() && RegistryLinked(registry.fields) && parentId in registry.fields
      ensures c.Failure? ==> ImportFields(old(State()), owner, parentId, i) == (Failure(c.error), State())
      ensures c.Success? ==> ImportFields(old(State()), owner, parentId, i) == Prepend([c.value], ImportFields(State(), owner, parentId, i + 1))
      ensures c.Failure? ==> all == (Failure(c.error), State())
      ensures c.Success? ==> all == Prepend(done + [c.value], ImportFields(State(), owner, parentId, i + 1))
      decreases owner, 0, 0
    {
      ImportFieldsStep(State(), owner, parentId, i);
      ghost var before := State();
      c := ImportFormField(owner.components[i], Some(parentId), i, SiblingKeys(owner.components));
      ExtendsKeys(before.fields, registry.fields);
      if c.Failure? {
        PrependError(done, (Failure(c.error), State()));
      } else {
        PrependOneMore(done, c.value, ImportFields(State(), owner, parentId, i + 1));
      }
    }
  }
}
