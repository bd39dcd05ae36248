// The `path` entry of the editor's properties panel, offered for container
// fields whose type is pathed. Its validation checks the new path's format
// and then walks the container's subtree asking, field by field, whether the
// value path that the new segments would give it can still be claimed.
module PathEntry {
  import opened Wrappers
  import opened Data
  import opened Fields
  import opened ValuePaths
  import opened EditorUtil
  import opened PathRegistry

  const EmptyMessage: string := "Must not be empty"
  const RepeatingDotPathMessage: string := "Must be a variable or a dot-separated path"
  const DotPathMessage: string := "Must be empty, a variable or a dot-separated path"
  const IntegerMessage: string := "Must not contain numerical path segments."
  const ProhibitedMessage: string := "Must not be a prohibited path."
  const CollisionMessage: string := "Must not cause two binding paths to collide"

  /** What makes `validate` throw: an unresolvable value path or a registry call that throws. */
  datatype PathEntryError = Unlinked(id: string) | PathFailure(pathError: ValuePathError) | RegistryFailure(registryError: PathError)

  /** `PathEntry`: the ids of the entries the panel shows, one `path` entry for pathed types only. */
  function Entries(t: FieldType): (ids: seq<string>)
    ensures ids != [] <==> Pathed(t)
    ensures ids != [] ==> ids == ["path"]
  {
    if Pathed(t) then ["path"] else []
  }

  /** `getValue`: the stored path, or the empty string when it is undefined. */
  function PathValue(props: Props): (r: Value)
    ensures "path" in props && !props["path"].Undefined? ==> r == props["path"]
    ensures "path" !in props || props["path"].Undefined? ==> r == Str("")
  {
    PropOr(props, "path", Str(""))
  }

  /** `setValue`: writes `path` unless an error is passed. */
  function SetPath(props: Props, value: Value, error: Option<string>): (r: Props)
    ensures HasError(error) ==> r == props
    ensures !HasError(error) ==> r == props["path" := value]
  {
    SetValue(props, "path", value, error)
  }

  /** `fieldConfig.repeatable && field.isRepeating`. */
  predicate IsRepeating(f: Field) { Repeatable(f.ftype) && f.isRepeating }

  /** `{ replacements: { [field.id]: value.split('.') } }`. */
  function Renamed(f: Field, path: string): PathOptions
  {
    PathOptions(map[f.id := Segments(DotPath(path))], None, None)
  }

  /**
   * What the walk's callback asks for one field: can the value path it would
   * have under the new path be claimed, as closed for a keyed field and as
   * open (repeatable if its type is) for a pathed one.
   */
  function FieldClaim(reg: Registry, nodes: seq<PathNode>, opts: PathOptions, g: Field): Result<bool, PathEntryError>
  {
    if !(RegistryLinked(reg) && Linked(reg, g)) then Failure(Unlinked(g.id))
    else
      var p := GetValuePath(reg, g, opts);
      if p.Failure? then Failure(PathFailure(p.error))
      else
        var o := ClaimOptions(Keyed(g.ftype), !Keyed(g.ftype) && Repeatable(g.ftype), false, Some(g.id), []);
        var c := CanClaim(nodes, p.value, o, reg);
        if c.Failure? then Failure(RegistryFailure(c.error)) else Success(c.value)
  }

  /** The walk stops at a field whose check does not answer yes. */
  function Blocks(reg: Registry, nodes: seq<PathNode>, opts: PathOptions): Field -> bool
  {
    (g: Field) => FieldClaim(reg, nodes, opts, g) != Success(true)
  }

  /** The walk of the entry descends everywhere: its callback never sets `preventRecursion`. */
  function Never(): Field -> bool { (g: Field) => false }

  /**
   * `validate` of the path entry: the empty and unchanged cases, the format
   * checks in order, then `executeRecursivelyOnFields` with `canClaimPath`
   * as the callback. The first check that throws ends the call.
   */
  function Validate(reg: Registry, nodes: seq<PathNode>, f: Field, value: string, checks: PathChecks): Result<Option<string>, PathEntryError>
  {
    var repeating := IsRepeating(f);
    if value == "" && repeating then Success(Some(EmptyMessage))
    else if value == "" || Some(value) == f.path then Success(None)
    else if !checks.isValidDotPath(value) then Success(Some(if repeating then RepeatingDotPathMessage else DotPathMessage))
    else if checks.hasIntegerPathSegment(value) then Success(Some(IntegerMessage))
    else if checks.isProhibitedPath(value) then Success(Some(ProhibitedMessage))
    else
      var stop := Blocks(reg, nodes, Renamed(f, value));
      var (canClaim, trace) := Execute(f, Recorder(stop, Never()), PreventRecursion, false, []);
      if Truthy(canClaim) then Success(None)
      else if trace == [] then Success(Some(CollisionMessage))
      else
        var last := FieldClaim(reg, nodes, Renamed(f, value), trace[|trace| - 1]);
        if last.Failure? then Failure(last.error) else Success(Some(CollisionMessage))
  }

  /** The first field of a visit list that stops the walk. */
  function FirstStop(vs: seq<Field>, stop: Field -> bool): (r: Option<Field>)
    ensures r.None? <==> !Stops(vs, stop)
    ensures r.Some? ==> r.value in vs && stop(r.value)
  {
    if vs == [] then None else if stop(vs[0]) then Some(vs[0]) else FirstStop(vs[1..], stop)
  }

  /** The recorded visits end with the first field that stops the walk. */
  lemma {:induction false} ThroughEndsAtFirstStop(vs: seq<Field>, stop: Field -> bool)
    requires Stops(vs, stop)
    ensures var t := Through(vs, stop); t != [] && Some(t[|t| - 1]) == FirstStop(vs, stop)
  {
    if !stop(vs[0]) {
      ThroughEndsAtFirstStop(vs[1..], stop);
    }
  }

  /** Before the first stopping field, every field's check answers yes. */
  lemma {:induction false} BeforeFirstStop(vs: seq<Field>, stop: Field -> bool, k: nat)
    requires k < |vs| && forall j :: 0 <= j < k ==> !stop(vs[j])
    requires stop(vs[k])
    ensures FirstStop(vs, stop) == Some(vs[k])
  {
    if k > 0 {
      BeforeFirstStop(vs[1..], stop, k - 1);
    }
  }

  /** The fields the entry checks: the container itself and every keyed or pathed field below it, in pre-order. */
  function Checked(f: Field): seq<Field> { Visits(f, Never()) }

  /**
   * Once the format checks pass, the answer is decided by the first field of
   * the subtree, in pre-order, whose check does not answer yes: none means
   * no error, one that cannot claim its path means the collision message,
   * and one whose check throws makes the whole validation throw.
   */
  lemma ValidateWalk(reg: Registry, nodes: seq<PathNode>, f: Field, value: string, checks: PathChecks)
    requires value != "" && Some(value) != f.path
    requires checks.isValidDotPath(value) && !checks.hasIntegerPathSegment(value) && !checks.isProhibitedPath(value)
    ensures var first := FirstStop(Checked(f), Blocks(reg, nodes, Renamed(f, value)));
      Validate(reg, nodes, f, value, checks) ==
        if first.None? then Success(None)
        else if FieldClaim(reg, nodes, Renamed(f, value), first.value).Failure? then
          Failure(FieldClaim(reg, nodes, Renamed(f, value), first.value).error)
        else Success(Some(CollisionMessage))
  {
    var stop := Blocks(reg, nodes, Renamed(f, value));
    var vs := Checked(f);
    ExecuteOrder(f, stop, Never(), []);
    assert Execute(f, Recorder(stop, Never()), PreventRecursion, false, []) == Outcome(vs, stop, []);
    if Stops(vs, stop) {
      ThroughEndsAtFirstStop(vs, stop);
      assert [] + Through(vs, stop) == Through(vs, stop);
    }
  }

  /**
   * When no check in the subtree throws, the collision message is returned
   * exactly when some checked field cannot claim its path under the new
   * path, and otherwise the path is accepted.
   */
  lemma CollisionIff(reg: Registry, nodes: seq<PathNode>, f: Field, value: string, checks: PathChecks)
    requires value != "" && Some(value) != f.path
    requires checks.isValidDotPath(value) && !checks.hasIntegerPathSegment(value) && !checks.isProhibitedPath(value)
    requires forall g :: g in Checked(f) ==> FieldClaim(reg, nodes, Renamed(f, value), g).Success?
    ensures Validate(reg, nodes, f, value, checks) == Success(Some(CollisionMessage)) <==>
      exists g :: g in Checked(f) && FieldClaim(reg, nodes, Renamed(f, value), g) == Success(false)
    ensures Validate(reg, nodes, f, value, checks) != Success(Some(CollisionMessage)) ==>
      Validate(reg, nodes, f, value, checks) == Success(None)
  {
    var opts := Renamed(f, value);
    var stop := Blocks(reg, nodes, opts);
    var vs := Checked(f);
    ValidateWalk(reg, nodes, f, value, checks);
    forall g | g in vs ensures stop(g) <==> FieldClaim(reg, nodes, opts, g) == Success(false) {
      BlocksAt(reg, nodes, opts, g);
      assert g in Checked(f);
      var c := FieldClaim(reg, nodes, opts, g);
      if c.value {
        assert c == Success(true);
      } else {
        assert c == Success(false);
      }
    }
    hide *;
    FirstStopExists(vs, stop);
    if first :| first == FirstStop(vs, stop) && first.Some? {
      assert FieldClaim(reg, nodes, opts, first.value) == Success(false);
    }
  }

  lemma BlocksAt(reg: Registry, nodes: seq<PathNode>, opts: PathOptions, g: Field)
    ensures Blocks(reg, nodes, opts)(g) <==> FieldClaim(reg, nodes, opts, g) != Success(true)
  {
  }

  /** A visit list has a first stopping field exactly when some field of it stops. */
  lemma {:induction false} FirstStopExists(vs: seq<Field>, stop: Field -> bool)
    ensures FirstStop(vs, stop).Some? <==> exists g :: g in vs && stop(g)
  {
    if vs != [] && !stop(vs[0]) {
      FirstStopExists(vs[1..], stop);
      assert forall g :: g in vs ==> g == vs[0] || g in vs[1..];
    }
  }

  /** The format checks run before any registry work, in their order. */
  lemma FormatOrder(reg: Registry, nodes: seq<PathNode>, f: Field, value: string, checks: PathChecks)
    requires value != "" && Some(value) != f.path
    ensures !checks.isValidDotPath(value) ==>
      Validate(reg, nodes, f, value, checks) == Success(Some(if IsRepeating(f) then RepeatingDotPathMessage else DotPathMessage))
    ensures checks.isValidDotPath(value) && checks.hasIntegerPathSegment(value) ==>
      Validate(reg, nodes, f, value, checks) == Success(Some(IntegerMessage))
    ensures checks.isValidDotPath(value) && !checks.hasIntegerPathSegment(value) && checks.isProhibitedPath(value) ==>
      Validate(reg, nodes, f, value, checks) == Success(Some(ProhibitedMessage))
  {
  }

  /** An empty path is refused only on a repeating container; an unchanged path is accepted. */
  lemma EmptyOrUnchanged(reg: Registry, nodes: seq<PathNode>, f: Field, value: string, checks: PathChecks)
    ensures value == "" ==> Validate(reg, nodes, f, value, checks) == Success(if IsRepeating(f) then Some(EmptyMessage) else None)
    ensures value != "" && Some(value) == f.path ==> Validate(reg, nodes, f, value, checks) == Success(None)
  {
  }
}
