// What the editor's properties-panel entries share: the path-format
// regular expressions of its `Util` module, and the `setValue` callback
// through which an entry writes one property of the edited field.
module EditorUtil {
  import opened Wrappers
  import opened Data

  /** `isValidDotPath`, `hasIntegerPathSegment` and `isProhibitedPath`, which the model does not interpret. */
  datatype PathChecks = PathChecks(
    isValidDotPath: string -> bool,
    hasIntegerPathSegment: string -> bool,
    isProhibitedPath: string -> bool)

  /** The properties of the edited field, by name. */
  type Props = map<string, Value>

  /** `if (error)`: the entry reports an error message that is not empty. */
  predicate HasError(error: Option<string>) { error.Some? && error.value != "" }

  /**
   * A `setValue` callback: with an error the edit is dropped, otherwise
   * `editField(field, [name], value)` writes that one property.
   */
  function SetValue(props: Props, name: string, value: Value, error: Option<string>): (r: Props)
    ensures HasError(error) ==> r == props
    ensures !HasError(error) ==> name in r && r[name] == value
    ensures forall k :: k in props && k != name ==> k in r && r[k] == props[k]
    ensures forall k :: k in r ==> k in props || k == name
  {
    if HasError(error) then props else props[name := value]
  }

  /** min-dash `get(field, [name], fallback)`: the fallback only when the property is undefined. */
  function PropOr(props: Props, name: string, fallback: Value): (r: Value)
    ensures name !in props || props[name].Undefined? ==> r == fallback
    ensures name in props && !props[name].Undefined? ==> r == props[name]
  {
    if name in props && !props[name].Undefined? then props[name] else fallback
  }
}
