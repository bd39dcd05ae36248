// The `key` entry of the editor's properties panel: its validation checks the
// format of a new key and then asks the shared path registry whether the
// field could bind to the new path, releasing the field's own claim for the
// duration of the question and taking it back afterwards.
module KeyEntry {
  import opened Wrappers
  import opened Data
  import opened Fields
  import opened ValuePaths
  import opened EditorUtil
  import opened PathRegistry

  const EmptyMessage: string := "Klíč nesmí být prázdný."
  const DotPathMessage: string := "Klíč musí být korektní proměnná nebo cesta oddělená tečkami."
  const IntegerMessage: string := "Klíč nesmí obsahovat pouze čísla."
  const ProhibitedMessage: string := "Must not be a prohibited path."
  const CollisionMessage: string := "Klíč se nesmí shodovat s již existujícím klíčem/cestou."

  /** What makes `validate` throw: a value path that cannot be resolved, or a registry call that throws. */
  datatype KeyError = PathFailure(pathError: ValuePathError) | RegistryFailure(registryError: PathError)

  /** `field.key` as the value the entry compares with. */
  function CurrentKey(f: Field): Value { if f.key.Some? then Str(f.key.value) else Undefined }

  /**
   * The checks on the new key's text, in their order: a string that is not
   * empty, a valid dot path, no integer segment, not a prohibited path.
   */
  function FormatError(value: Value, checks: PathChecks): (r: Option<string>)
    ensures (!value.Str? || value.s == "") <==> r == Some(EmptyMessage)
    ensures r == Some(DotPathMessage) <==> value.Str? && value.s != "" && !checks.isValidDotPath(value.s)
    ensures r == Some(IntegerMessage) <==>
      value.Str? && value.s != "" && checks.isValidDotPath(value.s) && checks.hasIntegerPathSegment(value.s)
    ensures r == Some(ProhibitedMessage) <==>
      value.Str? && value.s != "" && checks.isValidDotPath(value.s) && !checks.hasIntegerPathSegment(value.s)
      && checks.isProhibitedPath(value.s)
    ensures r.None? <==>
      value.Str? && value.s != "" && checks.isValidDotPath(value.s) && !checks.hasIntegerPathSegment(value.s)
      && !checks.isProhibitedPath(value.s)
  {
    if !value.Str? || value.s == "" then Some(EmptyMessage)
    else if !checks.isValidDotPath(value.s) then Some(DotPathMessage)
    else if checks.hasIntegerPathSegment(value.s) then Some(IntegerMessage)
    else if checks.isProhibitedPath(value.s) then Some(ProhibitedMessage)
    else None
  }

  /** `{ replacements: { [field.id]: value.split('.') } }`. */
  function Renamed(f: Field, key: string): PathOptions
  {
    PathOptions(map[f.id := Segments(DotPath(key))], None, None)
  }

  /** `{ isClosed: true, claimerId: field.id }`, the options of both registry calls. */
  function ClosedClaim(f: Field): ClaimOptions
  {
    ClaimOptions(true, false, false, Some(f.id), [])
  }

  /**
   * The answer of `validate` and the registry it leaves, for a value that
   * passed the format checks: resolve the old and the new path, release the
   * old one, ask whether the new one can be claimed as closed, claim the old
   * one again. A step that throws ends the call with the registry as that
   * step left it.
   */
  function Rename(nodes: seq<PathNode>, reg: Registry, f: Field, key: string): (Result<Option<string>, KeyError>, seq<PathNode>)
    requires RegistryLinked(reg) && Linked(reg, f)
  {
    var oldPath := GetValuePath(reg, f, NoOptions());
    var newPath := GetValuePath(reg, f, Renamed(f, key));
    if oldPath.Failure? then (Failure(PathFailure(oldPath.error)), nodes)
    else if newPath.Failure? then (Failure(PathFailure(newPath.error)), nodes)
    else if !Exists(nodes, oldPath.value) then (Failure(RegistryFailure(NoOpenPath(oldPath.value))), nodes)
    else
      var released := Unclaim(nodes, oldPath.value);
      var can := CanClaim(released, newPath.value, ClosedClaim(f), reg);
      if can.Failure? then (Failure(RegistryFailure(can.error)), released)
      else
        var back := CanClaim(released, oldPath.value, ClosedClaim(f), reg);
        if back.Failure? then (Failure(RegistryFailure(back.error)), released)
        else if !back.value then (Failure(RegistryFailure(CannotClaim(oldPath.value))), released)
        else (Success(if can.value then None else Some(CollisionMessage)), Claim(released, oldPath.value, ClosedClaim(f)))
  }

  /** `validate` of the key entry, on the shared path registry. */
  method Validate(paths: PathRegistry, reg: Registry, f: Field, value: Value, checks: PathChecks)
    returns (r: Result<Option<string>, KeyError>)
    requires RegistryLinked(reg) && Linked(reg, f)
    modifies paths
    ensures value == CurrentKey(f) ==> r == Success(None) && paths.dataPaths == old(paths.dataPaths)
    ensures value != CurrentKey(f) && FormatError(value, checks).Some? ==>
      r == Success(FormatError(value, checks)) && paths.dataPaths == old(paths.dataPaths)
    ensures value != CurrentKey(f) && FormatError(value, checks).None? ==>
      (r, paths.dataPaths) == Rename(old(paths.dataPaths), reg, f, value.s)
  {
    if value == CurrentKey(f) {
      return Success(None);
    }
    var format := FormatError(value, checks);
    if format.Some? {
      return Success(format);
    }
    var oldPath := GetValuePath(reg, f, NoOptions());
    var newPath := GetValuePath(reg, f, Renamed(f, value.s));
    if oldPath.Failure? {
      return Failure(PathFailure(oldPath.error));
    }
    if newPath.Failure? {
      return Failure(PathFailure(newPath.error));
    }
    var unclaimed := paths.UnclaimPath(oldPath.value);
    if unclaimed.Some? {
      return Failure(RegistryFailure(unclaimed.value));
    }
    var can := paths.CanClaimPath(newPath.value, ClosedClaim(f), reg);
    if can.Failure? {
      return Failure(RegistryFailure(can.error));
    }
    var reclaimed := paths.ClaimPath(oldPath.value, ClosedClaim(f), reg);
    if reclaimed.Some? {
      return Failure(RegistryFailure(reclaimed.value));
    }
    r := Success(if can.value then None else Some(CollisionMessage));
  }

  /**
   * A key passes exactly when the new path could be claimed as closed while
   * the field's own claim is released (and the registry calls do not throw).
   */
  lemma RenameAnswer(nodes: seq<PathNode>, reg: Registry, f: Field, key: string)
    requires RegistryLinked(reg) && Linked(reg, f)
    ensures var (r, _) := Rename(nodes, reg, f, key);
      var oldPath := GetValuePath(reg, f, NoOptions());
      var newPath := GetValuePath(reg, f, Renamed(f, key));
      r.Success? ==>
        oldPath.Success? && newPath.Success? && Exists(nodes, oldPath.value)
        && (r.value.None? <==> CanClaim(Unclaim(nodes, oldPath.value), newPath.value, ClosedClaim(f), reg) == Success(true))
        && (r.value.Some? ==> r.value.value == CollisionMessage)
  {
    hide CanClaim, Claim, Unclaim, GetValuePath;
    var oldPath := GetValuePath(reg, f, NoOptions());
    var newPath := GetValuePath(reg, f, Renamed(f, key));
    if oldPath.Success? && newPath.Success? && Exists(nodes, oldPath.value) {
      var can := CanClaim(Unclaim(nodes, oldPath.value), newPath.value, ClosedClaim(f), reg);
      if can.Success? && can.value {
      }
    }
  }

  /** A validation that answers leaves the old path claimed again on the released registry. */
  lemma RenameSucceeded(nodes: seq<PathNode>, reg: Registry, f: Field, key: string)
    requires RegistryLinked(reg) && Linked(reg, f)
    requires Rename(nodes, reg, f, key).0.Success?
    ensures var oldPath := GetValuePath(reg, f, NoOptions());
      oldPath.Success? && Exists(nodes, oldPath.value)
      && Rename(nodes, reg, f, key).1 == Claim(Unclaim(nodes, oldPath.value), oldPath.value, ClosedClaim(f))
  {
    hide CanClaim, Claim, Unclaim, GetValuePath;
  }

  /**
   * When the old path ends on the field's closed claim and no node only that
   * claim holds carries a repeater stamp, a validation that answers leaves a
   * registry with the same claimed paths, counts and marks, which allows and
   * refuses every later claim exactly as before.
   */
  lemma RenameKeepsClaims(nodes: seq<PathNode>, reg: Registry, f: Field, key: string)
    requires RegistryLinked(reg) && Linked(reg, f) && Valid(nodes)
    requires var oldPath := GetValuePath(reg, f, NoOptions());
      oldPath.Success? && oldPath.value != [] && Exists(nodes, oldPath.value)
      && LeafClosed(nodes, oldPath.value) && Unmarked(nodes, oldPath.value)
    requires Rename(nodes, reg, f, key).0.Success?
    ensures var after := Rename(nodes, reg, f, key).1;
      && (forall q :: q != [] ==> Info(NodeAt(after, q)) == Info(NodeAt(nodes, q)))
      && (forall q, o :: CanClaim(after, q, o, reg) == CanClaim(nodes, q, o, reg))
  {
    var oldPath := GetValuePath(reg, f, NoOptions()).value;
    var after := Rename(nodes, reg, f, key).1;
    RenameSucceeded(nodes, reg, f, key);
    ReclaimRestores(nodes, oldPath, ClosedClaim(f));
    hide *;
    assert after == Restored(nodes, oldPath);
    forall q | q != [] ensures Info(NodeAt(after, q)) == Info(NodeAt(nodes, q)) {
      RestoredAt(nodes, oldPath, q);
    }
    forall q, o ensures CanClaim(after, q, o, reg) == CanClaim(nodes, q, o, reg) {
      RestoredCanClaim(nodes, oldPath, q, o, reg);
    }
  }

  /** `isDefaultVisible`: the entry is shown for keyed field types. */
  predicate Visible(t: FieldType) { Keyed(t) }

  /** `getValue` of the key entry: the stored key, or the empty string when it is undefined. */
  function KeyValue(props: Props): (r: Value)
    ensures "key" in props && !props["key"].Undefined? ==> r == props["key"]
    ensures "key" !in props || props["key"].Undefined? ==> r == Str("")
  {
    PropOr(props, "key", Str(""))
  }

  /** `setValue` of the key entry: drops the edit when the entry reports an error. */
  function SetKey(props: Props, value: Value, error: Option<string>): (r: Props)
    ensures HasError(error) ==> r == props
    ensures !HasError(error) ==> r == props["key" := value]
  {
    SetValue(props, "key", value, error)
  }
}
