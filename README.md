# form-js data binding, in Dafny

A model of the core of form-js, a library that renders JSON form schemas
and binds each field to a place in a data object. It covers:

- the viewer's data-binding engine:
  - the path registry, a reference-counted tree of the data paths that fields claim;
  - value paths, the place in the data a field binds to;
  - the field registry, factory and importer that read a schema into fields;
  - the condition checker, which filters out the data of hidden fields;
  - the form's initialise, submit, validate, update and reset operations;
  - the validator and the per-type sanitisers;
  - the row layouter;
  - the command stack (undo and redo);
  - the priority-ordered event bus;
- the viewer's pure helpers:
  - time of day;
  - options;
  - HTML escaping;
  - CSS rule scanning;
  - table paging and sorting;
  - path parsing;
  - DOM ids;
  - variable-name extraction;
- the editor's form-layout validator;
- the properties-panel entries for keys, paths, numbers, height, row count,
  options input key, iframe URL, table data source and custom properties;
- the playground's `findDiff`, which computes the edit that turns one text
  into another.

How the model represents the JavaScript:

- JSON data is the `Data.Value` datatype:
  - numbers are exact decimals (`Decimal`), as big.js computes them;
  - numbers print and read back as big.js and `Number` do, exponential notation included (`NumberText`);
  - objects are maps.
- Code that changes state in place becomes a class with `modifies` clauses:
  - `PathRegistry.PathRegistry`;
  - `Importing.FormFieldRegistry`, `Importing.FieldFactory` and `Importing.Importer`;
  - `FormData.Form`;
  - `Layouts.FormLayouter`;
  - `Commands.CommandStack`;
  - `Events.EventBus`.
- Each of these methods is proved against a specification function, and the
  functions' properties are proved as lemmas.
- Loops in the source become methods with loops:
  - `canClaimPath`;
  - `findDiff`;
  - `extractTopLevelRules`;
  - `_smartExtractVariableNames`;
  - `addEntry`.
- Recursive walks of the field tree become recursive functions.
- Services the model cannot look into are parameters, either as opaque
  functions or as explicit inputs:
  - FEEL evaluation;
  - regular expressions;
  - dates;
  - the viewer's time-zone offset;
  - `Math.random`.

## Model

| member | source | states |
|---|---|---|
| PathRegistry.Find | packages/form-js-viewer/dist/index.es.js:8020-8025 | the index found is the first node carrying the segment, and -1 means no node of the level carries it |
| PathRegistry.Chain | packages/form-js-viewer/dist/index.es.js:7855-7868 | the fresh node a claim creates for a missing segment starts with that segment and one claim |
| PathRegistry.NodeAt | packages/form-js-viewer/dist/index.es.js:7879-7892 | a node is found exactly when every segment of the path exists in the tree |
| PathRegistry.ChainExists | packages/form-js-viewer/dist/index.es.js:7855-7868 | the chain of fresh nodes a claim creates can be walked to the end of the claimed path |
| PathRegistry.ClaimNewThenUnclaim | packages/form-js-viewer/dist/index.es.js:7837-7906 | claiming a path whose first segment is new and then unclaiming it gives back the same tree |
| PathRegistry.ClaimThenUnclaim | packages/form-js-viewer/dist/index.es.js:7837-7906 | on a well-formed tree, an allowed claim makes the path exist, and unclaiming it restores the tree exactly |
| PathRegistry.SumClaim | packages/form-js-viewer/dist/index.es.js:7855-7868 | a claim adds exactly one to the claim total of the top level |
| PathRegistry.ClaimValid | packages/form-js-viewer/dist/index.es.js:7837-7878 | an allowed claim keeps the tree well formed: distinct segments per level, a closed node has no children, children never hold more claims than their parent |
| PathRegistry.ClaimStep | packages/form-js-viewer/dist/index.es.js:7855-7868 | one step of an allowed claim: a missing node is appended as a fresh chain, an existing node is open and counts one more claim |
| PathRegistry.UnclaimValid | packages/form-js-viewer/dist/index.es.js:7879-7906 | releasing a claim the path holds keeps the tree well formed and lowers the claim total by one |
| PathRegistry.ClosedClaimBlocks | packages/form-js-viewer/dist/index.es.js:7829-7831 | once a path is claimed as closed, no later claim of that path or of any path below it is allowed |
| PathRegistry.ExistingPathOnlyOpen | packages/form-js-viewer/dist/index.es.js:7829-7835 | a path that already exists can be claimed again only as open and non-repeatable |
| PathRegistry.ChainOf | packages/form-js-viewer/dist/index.es.js:7855-7868 | a closed, unstamped path that only one claim holds is exactly the chain a closed claim would create |
| PathRegistry.ReclaimRestores | packages/form-js-viewer/dist/index.es.js:7837-7906 | releasing a keyed field's closed claim and claiming the path again as closed rebuilds the tree, up to where the released node now stands among its siblings |
| PathRegistry.MovedFind | packages/form-js-viewer/dist/index.es.js:8020-8025 | in a level with distinct segments, moving one node to the end changes no lookup |
| PathRegistry.RestoredAt | packages/form-js-viewer/dist/index.es.js:7801-7836 | the rebuilt tree answers every path lookup with the same node information as the original |
| PathRegistry.CanClaimAlike | packages/form-js-viewer/dist/index.es.js:7801-7836 | two levels that find the same kind of node for the first segment answer every claim check alike |
| PathRegistry.RestoredCanClaim | packages/form-js-viewer/dist/index.es.js:7801-7836 | the rebuilt tree allows and refuses exactly the claims the original did |
| PathRegistry.CanClaim | packages/form-js-viewer/dist/index.es.js:7801-7836 | the recursive specification of `canClaimPath`; stated by `ClosedClaimBlocks`, `ExistingPathOnlyOpen` and `RestoredCanClaim` |
| PathRegistry.Claim | packages/form-js-viewer/dist/index.es.js:7837-7878 | the recursive specification of `claimPath`; stated by `ClaimValid`, `SumClaim`, `ClaimStep` and `ClaimThenUnclaim` |
| PathRegistry.Unclaim | packages/form-js-viewer/dist/index.es.js:7879-7906 | the recursive specification of `unclaimPath`; stated by `UnclaimValid` and `ClaimThenUnclaim` |
| PathRegistry.PathRegistry.constructor | packages/form-js-viewer/dist/index.es.js:7795-7800 | a new registry holds no claimed path |
| PathRegistry.PathRegistry.CanClaimPath | packages/form-js-viewer/dist/index.es.js:7801-7836 | the segment-by-segment walk answers as the recursive specification `CanClaim`: true for a missing segment, an error for a repeater check without a claimer, false on a closed node or at an existing end of path unless the claim is open and non-repeatable |
| PathRegistry.PathRegistry.ClaimPath | packages/form-js-viewer/dist/index.es.js:7837-7878 | a refused or failing claim reports its error and changes nothing; an allowed one adds the claim along the path, with the ancestry check always run |
| PathRegistry.PathRegistry.UnclaimPath | packages/form-js-viewer/dist/index.es.js:7879-7906 | a path that does not exist is reported and changes nothing; an existing one loses one claim along the path, and nodes left without a claim are dropped |
| PathRegistry.PathRegistry.Clear | packages/form-js-viewer/dist/index.es.js:8009-8011 | afterwards no path is claimed |
| ValuePaths.DotPath | packages/form-js-viewer/dist/index.es.js:7991-7995 | a key or path splits at every dot into one object-key segment per part, in order |
| ValuePaths.GetValuePath | packages/form-js-viewer/dist/index.es.js:7969-8008 | a replacement of a type the call cannot use makes the whole call throw; the positive content is stated by `PathStep`, `CutoffAtParent`, `IndexedPath` and `AncestorPathIsPrefix` |
| ValuePaths.Unindexed | packages/form-js-viewer/dist/index.es.js:8012-8018 | dropping the repetition indexes leaves only object-key segments and never lengthens a path |
| ValuePaths.DotPathKeys | packages/form-js-viewer/dist/index.es.js:7991-7995 | a path split from a key holds no repetition index |
| ValuePaths.KeysOnly | packages/form-js-viewer/dist/index.es.js:8012-8018 | a path of object keys only is its own unindexed form and counts no index |
| ValuePaths.IndexedPath | packages/form-js-viewer/dist/index.es.js:7997-8018 | with an index for every repeating container, the indexed value path is the unindexed one with exactly one index added per repeating ancestor |
| ValuePaths.OwnSegments | packages/form-js-viewer/dist/index.es.js:8012-8018 | `_addIndexes` puts one index in front of the field's own segments exactly when its parent repeats |
| ValuePaths.AncestorsCount | packages/form-js-viewer/dist/index.es.js:8014-8016 | the repeating containers above a field are its parent, if it repeats, and those above the parent |
| ValuePaths.PathStep | packages/form-js-viewer/dist/index.es.js:8002-8007 | the value path of a field below a parent that is not the cutoff is the parent's value path followed by the field's own (indexed) segments |
| ValuePaths.AncestorPathIsPrefix | packages/form-js-viewer/dist/index.es.js:7969-8008 | without a cutoff, every ancestor's value path is a prefix of the field's value path |
| ValuePaths.CutoffAtParent | packages/form-js-viewer/dist/index.es.js:8002-8007 | cutting off at the parent leaves only the field's own segments, plus one index when the parent repeats and indexes are given |
| ValuePaths.ValuePathResolves | packages/form-js-viewer/dist/index.es.js:7969-8008 | without replacements, the value path of an imported keyed or pathed field always resolves |
| ValuePaths.ValuePath | packages/form-js-viewer/dist/index.es.js:7969-8008 | the value path of an imported keyed or pathed field without replacements, which `ValuePathResolves` shows always exists |
| ValuePaths.And | packages/form-js-viewer/dist/index.es.js:7929 | JavaScript `&&` gives the second operand after a truthy first one and the first operand otherwise |
| ValuePaths.Through | packages/form-js-viewer/dist/index.es.js:7940-7953 | the visits recorded up to the first call that stops the walk are a prefix of all visits |
| ValuePaths.ExecuteOrder | packages/form-js-viewer/dist/index.es.js:7919-7956 | the walk calls its callback on the keyed and pathed fields in pre-order, does not descend where recursion is prevented, and after the first call that returns false calls nothing more and returns false |
| Fields.FindType | packages/form-js-viewer/dist/index.es.js:5727-5740 | a type found under a name is one of the registered types and carries that name; no type is found only when none carries it |
| Fields.TypeOf | packages/form-js-viewer/dist/index.es.js:5719-5740 | `formFields.get(type)` finds a definition carrying the requested type name, and finds none only for a name no built-in type has |
| Fields.TypeOfName | packages/form-js-viewer/dist/index.es.js:5719-5740 | every built-in type is found under its own name and under no other |
| Fields.EmptyValue | packages/form-js-viewer/dist/index.es.js:5175-5178 | every keyed type declares a defined empty value |
| Fields.Ancestry | packages/form-js-viewer/dist/index.es.js:5859-5867 | the ancestry list is empty exactly for an unregistered id, starts with the id itself and holds only registered ids |
| Fields.AncestryChain | packages/form-js-viewer/dist/index.es.js:5859-5867 | each entry of the ancestry list is the registered parent of the entry before it |
| Fields.AncestryOfChild | packages/form-js-viewer/dist/index.es.js:5859-5867 | the list of a registered field with a parent is its own id followed by its parent's list |
| Fields.GetAncestryList | packages/form-js-viewer/dist/index.es.js:5859-5867 | the loop over `_parent` links returns exactly the ancestry list |
| Fields.FormOf | packages/form-js-viewer/dist/index.es.js:8210-8212 | the form found is the first registered field of type `default` in insertion order, none registered before it having that type; none is found only when no listed field has that type |
| Text.FreshIndex | packages/form-js-viewer/dist/index.es.js:7738 | the counter value chosen is the first one from the start value on whose prefixed name is not taken |
| Text.NextPrefixed | packages/form-js-viewer/dist/index.es.js:7738 | `nextPrefixed` gives a name that starts with the prefix, is longer than it and is not assigned yet |
| Importing.UniqueKeyAsWrittenCollides | packages/form-js-viewer/dist/index.es.js:7750-7759 | as written, the generated key can equal a sibling's key: the loop compares siblings with the bare random part but returns it with the type prefix |
| Importing.UniqueKey | packages/form-js-viewer/dist/index.es.js:7750-7759 | the key generated for a field starts with its type name, has no dot and is none of the avoided names: no sibling's schema key and no name already in the claimed-path tree |
| Importing.EnsureId | packages/form-js-viewer/dist/index.es.js:7729-7739 | a given id is kept; a missing one is replaced by a fresh id not assigned before |
| Importing.EnsureKey | packages/form-js-viewer/dist/index.es.js:7740-7744 | a keyed field always ends up with a key, a given key or a non-keyed field is left as it was, and a generated key is none of the names it must avoid |
| Importing.EnsurePath | packages/form-js-viewer/dist/index.es.js:7745-7749 | a repeatable container always ends up with a path, a given path or any other type is left as it was, and a generated path is none of the names it must avoid |
| Importing.Avoided | packages/form-js-viewer/dist/index.es.js:7750-7759 | the names a generated key or path avoids include every sibling's schema key and every name of the claimed-path tree |
| Importing.GeneratedNameFresh | packages/form-js-viewer/dist/index.es.js:7660-7759 | a key or path that a successful `create` generates is no sibling's key and no name claimed before, and is claimed afterwards, so every later create avoids it |
| Importing.MadeGenerated | packages/form-js-viewer/dist/index.es.js:7702-7759 | a generated name is outside the avoided names, has no dot, is the created field's own path segment, and the field binds it |
| Importing.ClaimedNameNamed | packages/form-js-viewer/dist/index.es.js:7706-7726 | a successful binding claim of a field whose own segment is k puts k in the claimed-path tree |
| PathRegistry.ClaimNames | packages/form-js-viewer/dist/index.es.js:7837-7878 | a claim adds every segment of the claimed path to the names of the tree and keeps the names it had |
| Importing.ClaimCheck | packages/form-js-viewer/dist/index.es.js:7687-7698 | a check passes exactly when the path registry allows the claim |
| Importing.BindingClaim | packages/form-js-viewer/dist/index.es.js:7706-7726 | a field that binds nothing changes no claim; otherwise its value path resolves and is claimed with its own id as claimer, and on an error the path tree is unchanged |
| Importing.CreateChecks | packages/form-js-viewer/dist/index.es.js:7660-7698 | `create` refuses an unknown type first, then an id already assigned, and otherwise passes on the known ancestors of the parent |
| Importing.Made | packages/form-js-viewer/dist/index.es.js:7702-7719 | the created field has a fresh non-empty id, the requested type, parent and schema path, no children yet, and a key when its type is keyed |
| Importing.Creation | packages/form-js-viewer/dist/index.es.js:7660-7728 | `create` never touches the field registry itself; a created field has a fresh id that is now assigned, the given parent and schema path, and is linked to its parent |
| Importing.Completed | packages/form-js-viewer/dist/index.es.js:7706-7727 | once the checks pass, the id is assigned and the value path claimed, and the created field is linked, keyed and fresh |
| Importing.CreateErrors | packages/form-js-viewer/dist/index.es.js:7668-7698 | an unknown type is reported first, then an id already assigned; a failed create adds no field and no claim, and a failed check changes nothing at all |
| Importing.CreateClaims | packages/form-js-viewer/dist/index.es.js:7706-7726 | a successful create that binds a path claims exactly its value path, and the path tree stays well formed either way |
| Importing.Register | packages/form-js-viewer/dist/index.es.js:8180-8191 | `add` fails exactly for a registered id; otherwise it stores the field under its id and appends the id to the insertion order, keeping the registry linked |
| Importing.Attach | packages/form-js-viewer/dist/index.es.js:7628-7630 | attaching imported children updates the registered field object itself, keeping the registry linked |
| Importing.ChildSchemaPath | packages/form-js-viewer/dist/index.es.js:7621 | a child's schema path is its parent's extended by two segments, `components` and its index |
| Importing.ImportField | packages/form-js-viewer/dist/index.es.js:7611-7632 | importing only extends the field registry, keeps every keyed field keyed and keeps the path tree well formed; generated keys and paths avoid every name claimed so far (`GeneratedNameFresh`), so keyless siblings of one type import under different names |
| Importing.Place | packages/form-js-viewer/dist/index.es.js:7627-7631 | registering the created field and importing its children only extends the registry and keeps the path tree well formed |
| Importing.ImportFields | packages/form-js-viewer/dist/index.es.js:7640-7644 | importing the children gives one field per child, only extends the registry and keeps the path tree well formed; each child's generated name avoids the names its earlier siblings claimed |
| Importing.PlacedLeaf | packages/form-js-viewer/dist/index.es.js:7627 | a field registered without children is placed in the registry |
| Importing.PlacedParent | packages/form-js-viewer/dist/index.es.js:7627-7630 | a field whose children were placed after it is placed once they are attached |
| Importing.ImportFieldPlaced | packages/form-js-viewer/dist/index.es.js:7611-7632 | a successful import registers the whole returned tree, linked, keyed and under fresh ids |
| Importing.ImportSchemaValid | packages/form-js-viewer/dist/index.es.js:7581-7597 | a successful schema import leaves every registered field linked to its registered parent, every keyed field with a key, the returned tree registered and a well-formed path tree |
| Importing.Without | packages/form-js-viewer/dist/index.es.js:8192-8203 | removing an id from the insertion order keeps every other id and no copy of the removed one |
| Importing.RemoveUndoesAdd | packages/form-js-viewer/dist/index.es.js:8180-8203 | removing a field right after adding it restores the registry and its insertion order |
| Importing.FormFieldRegistry.constructor | packages/form-js-viewer/dist/index.es.js:8173-8179 | a new registry holds no field and no assigned id |
| Importing.FormFieldRegistry.Add | packages/form-js-viewer/dist/index.es.js:8180-8191 | a registered id is refused with no change; otherwise the field is stored and its id appended to the insertion order |
| Importing.FormFieldRegistry.Put | packages/form-js-viewer/dist/index.es.js:7629 | the registered field takes its imported children; nothing else changes |
| Importing.FormFieldRegistry.Remove | packages/form-js-viewer/dist/index.es.js:8192-8203 | the field's id leaves the map and the insertion order; an unregistered id changes nothing |
| Importing.FormFieldRegistry.GetAll | packages/form-js-viewer/dist/index.es.js:8207-8209 | every registered field is listed once and nothing else |
| Importing.FormFieldRegistry.Clear | packages/form-js-viewer/dist/index.es.js:8216-8219 | every field and every assigned id is forgotten |
| Importing.FormFieldRegistry.ClaimId | packages/form-js-viewer/dist/index.es.js:7731 | the id becomes assigned; the fields are unchanged |
| Importing.FormFieldRegistry.NextId | packages/form-js-viewer/dist/index.es.js:7738 | the id returned was not assigned before and is assigned afterwards; the fields are unchanged |
| Importing.FieldFactory.constructor | packages/form-js-viewer/dist/index.es.js:7655-7659 | the factory works on the given field and path registries |
| Importing.FieldFactory.CheckClaim | packages/form-js-viewer/dist/index.es.js:7687-7698 | one claim check answers as its specification `ClaimCheck` |
| Importing.FieldFactory.Check | packages/form-js-viewer/dist/index.es.js:7668-7698 | the checks of `create` answer as their specification `CreateChecks` |
| Importing.FieldFactory.Create | packages/form-js-viewer/dist/index.es.js:7660-7728 | the result and the new registries are those `Creation` gives for the old ones |
| Importing.FieldFactory.Complete | packages/form-js-viewer/dist/index.es.js:7706-7727 | the result and the new registries are those `Completed` gives for the old ones |
| Importing.FieldFactory.Bind | packages/form-js-viewer/dist/index.es.js:7707-7726 | the error and the new path tree are those `BindingClaim` gives for the old tree |
| Importing.Importer.constructor | packages/form-js-viewer/dist/index.es.js:7558-7563 | the importer shares its registries with the factory it is given |
| Importing.Importer.Cleanup | packages/form-js-viewer/dist/index.es.js:7598-7602 | rows, fields, ids and claimed paths are all forgotten |
| Importing.Importer.ImportSchema | packages/form-js-viewer/dist/index.es.js:7581-7597 | on success the registries hold what importing the schema into empty registries gives, the layout is computed from the result, and the form is well formed; on an error everything is cleared again |
| Importing.Importer.ImportFormField | packages/form-js-viewer/dist/index.es.js:7611-7632 | the result and the new registries are those `ImportField` gives for the old ones |
| Importing.Importer.PlaceField | packages/form-js-viewer/dist/index.es.js:7627-7631 | the result and the new registries are those `Place` gives for the old ones |
| Importing.Importer.ImportFormFields | packages/form-js-viewer/dist/index.es.js:7640-7644 | the result and the new registries are those `ImportFields` gives for the old ones |
| Importing.Importer.ImportChild | packages/form-js-viewer/dist/index.es.js:7641-7643 | the child at index i is imported first, and the children after it continue from the new state; a result already built from the first i children is extended by this one, or ends with its error |
| ConditionChecker.IndexMap | packages/form-js-viewer/dist/index.es.js:5942-5945 | every repeater id of the scope has an index in the lookup map `{ ...indexes, [id]: i }` |
| ConditionChecker.IndexValues | packages/form-js-viewer/dist/index.es.js:574-583 | the scope's indexes become one index segment each, in order |
| ConditionChecker.Check | packages/form-js-viewer/dist/index.es.js:5990-6007 | a missing condition or one not starting with `=` gives null; otherwise the result is the unary test of the text after the `=` |
| ConditionChecker.NumberList | packages/form-js-viewer/dist/index.es.js:5946 | the one-based expression indexes become number values one for one |
| ConditionChecker.ClearLoop | packages/form-js-viewer/dist/index.es.js:6023-6032 | clearing keeps the data an object or an array as it was |
| ConditionChecker.CleanlyClearDataAtPath | packages/form-js-viewer/dist/index.es.js:6023-6038 | the do-while loop computes exactly the recursive specification `ClearLoop`: delete at the path, pop a segment, and go on while the path is non-empty and the parent is an empty object or an array of undefined |
| ConditionChecker.ClearLeaf | packages/form-js-viewer/dist/index.es.js:6023-6032 | after clearing, the value path reads as undefined |
| ConditionChecker.ClearStaysInside | packages/form-js-viewer/dist/index.es.js:6023-6032 | clearing never changes what a path under another top-level entry reads |
| ConditionChecker.ClearKeepsNonEmptyParent | packages/form-js-viewer/dist/index.es.js:6026-6031 | when the parent still holds something after the deletion, clearing deletes only the leaf |
| ConditionChecker.RepetitionScope | packages/form-js-viewer/dist/index.es.js:5939-5949 | the scope of the i-th repetition adds the repeater's index i, the one-based expression index i+1, takes the i-th element as its data and the outer scope's data as parent |
| ConditionChecker.ApplyConditions | packages/form-js-viewer/dist/index.es.js:5971-5979 | a registry without a form is an error, and only then |
| ConditionChecker.WalkUnchanged | packages/form-js-viewer/dist/index.es.js:5898-5969 | when no hide condition holds anywhere, the walk changes nothing |
| ConditionChecker.Walk | packages/form-js-viewer/dist/index.es.js:5898-5969 | the walk of `_applyConditionsWithinScope` over a field and its descendants; stated by `WalkUnchanged`, `WalkQuiet`, `HiddenKeyedCleared`, `VisibleKeyedKept` and `HiddenRepeaterCleared` |
| ConditionChecker.WalkQuiet | packages/form-js-viewer/dist/index.es.js:5924-5956 | a field no condition hides leaves the data alone itself: a visible repeater descends into each repetition only when its value is a non-empty array and it has children, another container into its children |
| ConditionChecker.ApplyConditionsNothingHidden | packages/form-js-viewer/dist/index.es.js:5890-5980 | with no condition true anywhere, `applyConditions` returns an exact copy of the data |
| ConditionChecker.HiddenKeyedCleared | packages/form-js-viewer/dist/index.es.js:5964-5967 | a keyed field hidden by its scope or its own condition has its value removed at its filter path |
| ConditionChecker.VisibleKeyedKept | packages/form-js-viewer/dist/index.es.js:5924-5967 | a visible keyed field outside hidden scopes leaves the data alone |
| ConditionChecker.HiddenRepeaterCleared | packages/form-js-viewer/dist/index.es.js:5958-5962 | a hidden repeater is removed whole at its filter path, unless only leaves are to be deleted |
| ConditionChecker.NoConditionHides | packages/form-js-viewer/dist/index.es.js:6016-6022 | when no hide expression evaluates to true, no field is hidden |
| FormData.InitialFieldValue | packages/form-js-viewer/dist/index.es.js:8768-8781 | a keyed field starts with its sanitised input when there is one, else its default value, else its type's empty value, so never with undefined |
| FormData.EmptyObjects | packages/form-js-viewer/dist/index.es.js:8790 | n fresh empty objects |
| FormData.ObjectsOnly | packages/form-js-viewer/dist/index.es.js:8794 | every entry that is not an object is replaced by `{}`, and objects are kept in place |
| FormData.RepeaterData | packages/form-js-viewer/dist/index.es.js:8787-8797 | a repeater's data is always an array of objects: the input array with non-objects replaced, or `defaultRepetitions` (default 1) empty objects when the input is not an array |
| FormData.InitKeyedValue | packages/form-js-viewer/dist/index.es.js:8762-8781 | a keyed field writes its initial value at its value path |
| FormData.InitLeafUnbound | packages/form-js-viewer/dist/index.es.js:8768-8786 | a field that binds no value and holds no children leaves the data alone |
| FormData.Init | packages/form-js-viewer/dist/index.es.js:8753-8819 | `initializeFieldDataRecursively`; stated by `InitKeyedValue` and `InitLeafUnbound` |
| FormData.SubmitEnv | packages/form-js-viewer/dist/index.es.js:8735 | the filter of the submit data is a well-formed condition walk |
| FormData.SubmitData | packages/form-js-viewer/dist/index.es.js:8683-8736 | the submit data is an error exactly when the registry has no form |
| FormData.CollectAllDisabled | packages/form-js-viewer/dist/index.es.js:8697-8731 | a tree of disabled fields contributes nothing to the submit data |
| FormData.CollectKeyedCopies | packages/form-js-viewer/dist/index.es.js:8697-8704 | an enabled keyed field copies the form data at its value path into the submit data |
| FormData.Collect | packages/form-js-viewer/dist/index.es.js:8688-8732 | `collectSubmitDataRecursively`; stated by `CollectAllDisabled` and `CollectKeyedCopies` |
| FormData.SubmitNothingHidden | packages/form-js-viewer/dist/index.es.js:8733-8735 | with no hide condition true, the submit data is exactly what the walk collected |
| FormData.Messages | packages/form-js-viewer/dist/index.es.js:8490-8492 | the stored errors are the messages, one string each, in order |
| FormData.ErrorPath | packages/form-js-viewer/dist/index.es.js:8468 | an error path is the field id followed by one segment per repetition index |
| FormData.ValidateEnv | packages/form-js-viewer/dist/index.es.js:8520-8523 | the filter of the errors is a well-formed condition walk |
| FormData.StoredErrors | packages/form-js-viewer/dist/index.es.js:8641 | no messages store undefined, which removes the entry; otherwise the messages are stored |
| FormData.Validate | packages/form-js-viewer/dist/index.es.js:8460-8528 | validating a registry without a form is an error |
| FormData.ValidateSkipsDisabled | packages/form-js-viewer/dist/index.es.js:8479-8482 | a disabled field is skipped together with every field below it |
| FormData.ValidateLeafErrors | packages/form-js-viewer/dist/index.es.js:8484-8497 | an enabled field without children stores its messages at its error path when there are any, and leaves the error tree alone otherwise |
| FormData.LeafStep | packages/form-js-viewer/dist/index.es.js:8484-8497 | one step of the validation walk at an enabled leaf: the error tree gains the field's messages exactly when there are any |
| FormData.ValidateTree | packages/form-js-viewer/dist/index.es.js:8469-8517 | `validateFieldRecursively`; stated by `ValidateSkipsDisabled`, `ValidateLeafErrors` and `LeafStep` |
| FormData.Form.constructor | packages/form-js-viewer/dist/index.es.js:8353-8359 | a new form has null data and initial data, no errors, and the given properties |
| FormData.Form.ImportSchema | packages/form-js-viewer/dist/index.es.js:8396-8425 | without a form nothing changes and an error is returned; otherwise the data becomes the initialised input, the initial data a copy of it, and the errors are cleared |
| FormData.Form.Submit | packages/form-js-viewer/dist/index.es.js:8432-8448 | a read-only or disabled form refuses and changes nothing; otherwise the result is the submit data and the new error tree, which the form keeps |
| FormData.Form.ValidateForm | packages/form-js-viewer/dist/index.es.js:8460-8528 | the form's errors become the error tree of the current data; data and properties are unchanged |
| FormData.Form.Reset | packages/form-js-viewer/dist/index.es.js:8449-8455 | the data goes back to a copy of the initial data and the errors are cleared |
| FormData.Form.Update | packages/form-js-viewer/dist/index.es.js:8624-8646 | the value is written at the field's value path and its messages at its error path, removed when there are none |
| FormData.Form.SetProperties | packages/form-js-viewer/dist/index.es.js:8570-8575 | only the read-only and disabled properties change |
| Validator.Big | packages/form-js-viewer/dist/index.es.js:7465-7466 | a number is taken as the exact decimal it is; text is read in big.js notation, exponent included (`Decimal.ParseBig`) |
| Validator.ToPrimitive | packages/form-js-viewer/dist/index.es.js:7491-7496 | an array or object is compared as a primitive, as JavaScript's `<` does |
| Validator.LooseLessNumbers | packages/form-js-viewer/dist/index.es.js:7491-7496 | on two numbers the loose `<` of the range checks is the exact decimal order |
| Validator.StepNeighboursAsWrittenMissesNegative | packages/form-js-viewer/dist/index.es.js:7464-7472 | as written, for value -7 and increment 5 the message names -5 and 0, and -7 lies below both |
| Validator.StepNeighboursAsWrittenMissesNegativeIncrement | packages/form-js-viewer/dist/index.es.js:7464-7472 | as written, value 7 with increment -5 names 5 and 0, both below 7 |
| Validator.StepNeighboursNegativeIncrement | packages/form-js-viewer/dist/index.es.js:7464-7472 | the corrected neighbours of 7 for increment -5 are 5 and 10, on either side of 7 |
| Validator.StepNeighbours | packages/form-js-viewer/dist/index.es.js:7467-7470 | the multiples of the increment at or below the value and just above it, against the increment's magnitude; stated by `StepNeighboursBracket` |
| Validator.StepNeighboursBracket | packages/form-js-viewer/dist/index.es.js:7464-7472 | the corrected neighbours bracket the value: the lower one is a multiple of the increment at or below it, the upper one is one increment higher and strictly above it |
| Validator.FloorBracket | packages/form-js-viewer/dist/index.es.js:7467-7470 | rounding down to a multiple of a positive step gives a multiple at or below the value and less than one step below it |
| Validator.DecimalErrors | packages/form-js-viewer/dist/index.es.js:7461-7463 | the decimal-digits check reports at most one message |
| Validator.IncrementErrors | packages/form-js-viewer/dist/index.es.js:7464-7473 | the increment check reports at most one message; the two values the message names are the corrected neighbours `StepNeighbours`, not the code's `value - value.mod(increment)` and `+ increment` (see Findings) |
| Validator.IncrementErrorIff | packages/form-js-viewer/dist/index.es.js:7464-7473 | on a number field the increment message is reported exactly when the value is not a whole multiple of the increment |
| Validator.NumberErrors | packages/form-js-viewer/dist/index.es.js:7455-7474 | the number-field checks in their order: `'NaN'` text, then decimals, then increment; stated by `NotANumberOnly`, `DecimalErrorIff` and `IncrementErrorIff` |
| Validator.LengthErrors | packages/form-js-viewer/dist/index.es.js:7497-7502 | `minLength` then `maxLength`, on the trimmed text; a truthy value without `trim` throws; the messages are stated by `LengthsOther` |
| Validator.RuleErrors | packages/form-js-viewer/dist/index.es.js:7480-7508 | the rules of the evaluated `validate` block in their order; stated by `RuleParts`, `RequiredIff` and `RuleMessages` |
| Validator.NotANumberOnly | packages/form-js-viewer/dist/index.es.js:7458-7459 | the string `NaN` gives exactly the invalid-number message on a number field |
| Validator.DecimalErrorIff | packages/form-js-viewer/dist/index.es.js:7461-7463 | a limit of k decimals reports a value with more than k decimals, with the whole-number wording for k = 0, and only such a value; a whole value of 10^21 or more makes `countDecimals` throw (`NoFractionPart`) |
| Validator.EvaluateProperty | packages/form-js-viewer/dist/index.es.js:7525-7545 | a property that is not an expression is kept, and an expression is replaced only by a truthy evaluation |
| Validator.EvaluateFeelValues | packages/form-js-viewer/dist/index.es.js:7440-7548 | only `min`, `max`, `minLength` and `maxLength` may be evaluated; `required`, `pattern` and `validationType` are kept |
| Validator.ValidateField | packages/form-js-viewer/dist/index.es.js:7447-7510 | the number checks come first and are all kept; without a `validate` block they are the whole result; the increment message names the corrected neighbours (see Findings) |
| Validator.RuleParts | packages/form-js-viewer/dist/index.es.js:7480-7508 | the rules other than `required` report only their own messages, and `required` reports its message exactly when it applies |
| Validator.RequiredIff | packages/form-js-viewer/dist/index.es.js:7483-7490 | the required message is reported exactly when the field has a `validate` block with `required` and the value is an unchecked checkbox, null, undefined, the empty string or an empty array |
| Validator.RuleMessages | packages/form-js-viewer/dist/index.es.js:7483-7490 | the required message is among the errors exactly when the field is required and its value is missing |
| Sanitize.SanitizeNumber | packages/form-js-viewer/dist/index.es.js:3845-3853 | a value that is null-like or not a valid number for `Number` (signs, exponents, `0x`/`0o`/`0b` included) becomes null, and only such a value; otherwise the number, or its text when the field serialises to strings |
| Sanitize.SanitizeNumberIdempotent | packages/form-js-viewer/dist/index.es.js:3845-3853 | a number field storing numbers sanitises its own output to itself |
| Sanitize.CountDecimalsZeroIffInteger | packages/form-js-viewer/dist/index.es.js:3589-3593 | `countDecimals` is 0 exactly for whole numbers |
| Sanitize.SanitizeCheckbox | packages/form-js-viewer/dist/index.es.js:1820-1822 | a checkbox value becomes a boolean that is true exactly for `true` |
| Sanitize.ReplaceControls | packages/form-js-viewer/dist/index.es.js:5082 | every line break and tab becomes a space, every other character is kept in place |
| Sanitize.SanitizeTextfield | packages/form-js-viewer/dist/index.es.js:5073-5085 | the result is always a string: arrays, objects and nil become the empty string, and a string without line breaks or tabs is kept |
| Sanitize.SanitizeTextarea | packages/form-js-viewer/dist/index.es.js:5179-5181 | the result is always a string: arrays, objects and nil become the empty string, and strings are kept |
| Sanitize.SanitizeDatetime | packages/form-js-viewer/dist/index.es.js:1520-1532 | a value is kept or becomes null; a non-string becomes null, and a string is kept exactly when it fits the field's subtype |
| Sanitize.SanitizeValue | packages/form-js-viewer/dist/index.es.js:8770-8776 | a type without a `sanitizeValue` hook keeps the value |
| Sanitize.SanitizeIdempotent | packages/form-js-viewer/dist/index.es.js:8770-8776 | every hook sanitises its own output to itself, numbers stored as strings aside |
| Sanitize.TextfieldIdempotent | packages/form-js-viewer/dist/index.es.js:5073-5085 | the text field hook sanitises its own output to itself |
| Sanitize.DecimalTextNumeric | packages/form-js-viewer/dist/index.es.js:5084 | the printed form of a number, plain or exponential, consists of digits, signs, a point and the exponent mark only |
| Sanitize.NumberTextNoControls | packages/form-js-viewer/dist/index.es.js:5084 | printed numbers and booleans contain no line break or tab |
| Sanitize.ReplaceFirstComma | packages/form-js-viewer/dist/index.es.js:3603 | replacing the first comma keeps the length, and text without a comma is unchanged |
| Sanitize.OtherKeysRejected | packages/form-js-viewer/dist/index.es.js:3597-3613 | a key that is not a digit, a dot, a comma or a minus is never accepted |
| Sanitize.NoDotWithoutDecimals | packages/form-js-viewer/dist/index.es.js:3597-3613 | with no decimals allowed, a dot or comma is rejected |
| Sanitize.DigitAcceptedIff | packages/form-js-viewer/dist/index.es.js:3597-3613 | a digit is accepted exactly when it does not overflow the allowed decimals, unless the text is `NaN` |
| Sanitize.SplitAtDot | packages/form-js-viewer/dist/index.es.js:3607-3610 | text containing a dot splits into at least two parts, so its fraction is defined |
| Sanitize.WillKeyProduceValidNumber | packages/form-js-viewer/dist/index.es.js:3597-3613 | a key press is accepted only when the key is a digit, a dot, a comma or a minus, the text is not `'NaN'` and the key does not overflow the allowed decimals; `DigitAcceptedIff`, `OtherKeysRejected` and `NoDotWithoutDecimals` state which of those it accepts |
| Data.Get | packages/form-js-viewer/dist/index.es.js:1975 | reading along the empty path gives the value itself |
| Data.GetOr | packages/form-js-viewer/dist/index.es.js:1025-1032 | the default is used exactly when the path reads as undefined, and the value read is used otherwise |
| Data.Holes | packages/form-js-viewer/dist/index.es.js:6559 | writing past the end of an array leaves that many undefined slots |
| Data.ArrayIndex | packages/form-js-viewer/dist/index.es.js:6027 | a number segment is its own index, and a property name denotes an element only when it is the canonical text of that index |
| Data.ArrayIndexIff | packages/form-js-viewer/dist/index.es.js:6027 | a segment addresses element n exactly when its property name is the text of n |
| Data.IndexKeyNumeric | packages/form-js-viewer/dist/index.es.js:6559 | a property name that denotes an array element is numeric, so `set` creates an array before it |
| Data.SetIndexKeyExample | packages/form-js-viewer/dist/index.es.js:6559 | `set({}, ['a', '0'], 1)` gives `{a: [1]}` |
| Data.PutChild | packages/form-js-viewer/dist/index.es.js:6027 | writing one step stores the value where the container accepts it (an object, or an array and a number or the canonical text of one), changes nothing where it does not, and keeps the kind of value |
| Data.NewContainer | packages/form-js-viewer/dist/index.es.js:6559 | the container created for a missing step before an array index (a number or its canonical text) is an array that accepts it; before a non-numeric key it is an empty object |
| Data.Set | packages/form-js-viewer/dist/index.es.js:6559 | `set` keeps the kind of the value it writes into (object, array, nil) |
| Data.GetSetUndefined | packages/form-js-viewer/dist/index.es.js:6027-6029 | after writing undefined at a path, that path reads as undefined |
| Data.GetSetWritable | packages/form-js-viewer/dist/index.es.js:7525-7544 | after writing a value along a writable path, the path reads that value |
| Data.GetSetElsewhere | packages/form-js-viewer/dist/index.es.js:6559 | writing at one path leaves every path that branches off it as it was |
| Data.GetFresh | packages/form-js-viewer/dist/index.es.js:6559 | a freshly created container reads undefined everywhere below it |
| Data.GetNil | packages/form-js-viewer/dist/index.es.js:6029 | below a nil or undefined value everything reads as undefined |
| Data.ChildPutOther | packages/form-js-viewer/dist/index.es.js:6027 | writing one property leaves every property of a different name unchanged, on objects and arrays alike |
| Data.Clone | packages/form-js-viewer/dist/index.es.js:721-723 | a clone of an object keeps no more keys than it had, a clone of an array keeps its length, and a primitive is its own clone |
| Data.CloneElems | packages/form-js-viewer/dist/index.es.js:721-723 | cloning an array turns undefined entries into null and clones every other entry in place |
| Data.ClonePlain | packages/form-js-viewer/dist/index.es.js:721-723 | a clone is plain JSON, a plain value is its own clone, and cloning twice is cloning once |
| Data.ToNumber | packages/form-js-viewer/dist/index.es.js:3595 | `Number(v)`: a number is itself; undefined and objects are NaN; `[]` is 0, a one-element array converts its element, two or more elements are NaN; text is trimmed, empty text is 0 and other text is read by `Decimal.ParseNumber` |
| Decimal.Cmp | packages/form-js-viewer/dist/index.es.js:7468 | big.js `cmp` answers 0 exactly for equal numbers and otherwise -1 or 1 |
| Decimal.Normalize | packages/form-js-viewer/dist/index.es.js:3589-3593 | dropping trailing zeros of the coefficient keeps the number and never adds fractional digits |
| Decimal.CountDecimalsIsLeast | packages/form-js-viewer/dist/index.es.js:3589-3593 | `countDecimals` is the least number of decimal shifts that makes the number whole |
| Decimal.ModZeroIffMultiple | packages/form-js-viewer/dist/index.es.js:7467-7468 | big.js `mod` gives zero exactly when the value is a whole multiple of the increment |
| NumberText.ToStringRoundTrip | packages/form-js-viewer/dist/index.es.js:3589-3593 | every number printed by big.js `toString`, in plain or exponential notation, reads back as the same number |
| NumberText.PlainRoundTrip | packages/form-js-viewer/dist/index.es.js:3589-3593 | plain notation (no exponent) reads back as the number printed |
| NumberText.ExpRoundTrip | packages/form-js-viewer/dist/index.es.js:3589-3593 | exponential notation (from 10^21 up and below 10^-6) reads back as the number printed |
| NumberText.ExpRead | packages/form-js-viewer/dist/index.es.js:3589-3593 | exponential notation reads as its significand with the point after the first digit, scaled by the printed exponent |
| Decimal.ToString | packages/form-js-viewer/dist/index.es.js:3590-3592 | `toString` never gives empty text; what it prints is stated by `NumberText.ToStringRoundTrip` and `Sanitize.DecimalTextNumeric` |
| Decimal.ParseBig | packages/form-js-viewer/dist/index.es.js:7465-7466 | text without an exponent mark is read as plain notation; an exponent scales the number (`ExponentAfter`) |
| Decimal.ExponentAfter | packages/form-js-viewer/dist/index.es.js:7465-7466 | plain notation followed by `e` or `E` and a signed exponent reads as the plain number scaled by that power of ten |
| Decimal.BigExponentExamples | packages/form-js-viewer/dist/index.es.js:7465-7466 | big.js reads `1e3` as 1000 and `2E-2` as 0.02 |
| Decimal.NumberSyntaxExamples | packages/form-js-viewer/dist/index.es.js:3595 | `Number` reads `+5` as 5 and `0x10` as 16 |
| Decimal.NumberSignExamples | packages/form-js-viewer/dist/index.es.js:3595 | `Number` gives NaN for `+-5` and `-0x10`; big.js refuses `+5` and `0x10` |
| Decimal.RadixTen | packages/form-js-viewer/dist/index.es.js:3595 | in base 10 the radix reader agrees with the decimal digit reader |
| Decimal.CountDecimalsThrowsIff | packages/form-js-viewer/dist/index.es.js:3589-3593 | `countDecimals` throws exactly for a whole number of magnitude 10^21 or more, which big.js prints in exponential notation |
| Decimal.DigitCount | packages/form-js-viewer/dist/index.es.js:3590-3591 | a positive number has more than k digits exactly when it is at least 10^k |
| Text.NatToStringInjective | packages/form-js-editor/src/features/properties-panel/groups/CustomPropertiesGroup.js:20-24 | distinct counters print differently, so generated names such as `key3` never collide |
| Text.JoinSplit | packages/form-js-viewer/dist/index.es.js:691-698 | splitting at a separator and joining again gives the text back |
| Text.SplitJoin | packages/form-js-viewer/dist/index.es.js:691-698 | joining separator-free parts and splitting again gives the parts back |
| Text.TrimSpec | packages/form-js-viewer/dist/index.es.js:1095 | the trimmed text neither starts nor ends with white space |
| Layouts.RowKey | packages/form-js-viewer/dist/index.es.js:8152-8163 | a child with its own `layout.row` goes to that row; a child without one gets a generated id that none of the container's children names, and the counter moves forward |
| Layouts.RowIndex | packages/form-js-viewer/dist/index.es.js:8152-8163 | the index found belongs to a row with that id, and none is found only when no row has it |
| Layouts.Place | packages/form-js-viewer/dist/index.es.js:8152-8163 | a child's id joins the existing row of its key at the end, or opens a new row at the end holding only it; no other row changes |
| Layouts.GroupFrom | packages/form-js-viewer/dist/index.es.js:8152-8163 | grouping never moves the id counter back |
| Layouts.GroupFromPartition | packages/form-js-viewer/dist/index.es.js:8152-8163 | every child lands in exactly one row: the rows hold the children's ids, each as often as it occurs |
| Layouts.GroupFromRows | packages/form-js-viewer/dist/index.es.js:8152-8163 | rows keep distinct ids, and a child with its own `layout.row` ends up in the row of that id |
| Layouts.GroupFromOwnRow | packages/form-js-viewer/dist/index.es.js:8152-8163 | a child without its own `layout.row` is placed in a row whose id none of the container's children names, so it never joins a row a schema names |
| Layouts.Arrange | packages/form-js-viewer/dist/index.es.js:8113-8139 | `calculateLayout`: the container's children grouped into rows, then every child arranged in turn; its results are stated by `FormLayouter.CalculateLayout` and the grouping lemmas |
| Layouts.EntryIndex | packages/form-js-viewer/dist/index.es.js:8058 | the entry found is the first one for that container, and none is found only when no entry is for it |
| Layouts.AddRowRows | packages/form-js-viewer/dist/index.es.js:8057-8067 | adding a row appends it to that container's rows and leaves every other container's rows alone |
| Layouts.AddRowsRows | packages/form-js-viewer/dist/index.es.js:8124-8130 | adding a list of rows extends that container's rows by the list, in order, and no other container's |
| Layouts.FindRow | packages/form-js-viewer/dist/index.es.js:8073-8089 | a row found is one of the rows and satisfies the test, and none is found only when no row does |
| Layouts.FormLayouter.constructor | packages/form-js-viewer/dist/index.es.js:8047-8052 | a new layouter has no rows and a fresh id counter |
| Layouts.FormLayouter.AddRow | packages/form-js-viewer/dist/index.es.js:8057-8067 | the rows become those `AddRowTo` gives, and the counter is unchanged |
| Layouts.FormLayouter.GetRow | packages/form-js-viewer/dist/index.es.js:8073-8076 | a row found has the requested id and is among all rows; none is found only when no row has it |
| Layouts.FormLayouter.GetRowForField | packages/form-js-viewer/dist/index.es.js:8082-8089 | a row found lists the field and is among all rows; none is found only when no row lists it |
| Layouts.FormLayouter.NextRowId | packages/form-js-viewer/dist/index.es.js:8106-8108 | a fresh `Row_` id from the counter, which moves on by one; the rows are unchanged |
| Layouts.FormLayouter.CalculateLayout | packages/form-js-viewer/dist/index.es.js:8113-8139 | the rows and counter become those `Arrange` gives: rows for the container, then for every child in turn |
| Layouts.FormLayouter.Clear | packages/form-js-viewer/dist/index.es.js:8140-8146 | no rows remain and the id counter starts over |
| LayoutValidation.MaxColumnsWithAuto | packages/form-js-editor/src/core/FormLayoutValidator.js:83-85 | with at least one auto-width field, explicitly sized fields may take fewer than the 16 columns of a row |
| LayoutValidation.Others | packages/form-js-editor/src/core/FormLayoutValidator.js:44-47 | the other fields of the row never outnumber the row's entries |
| LayoutValidation.OthersMembers | packages/form-js-editor/src/core/FormLayoutValidator.js:44-47 | the other fields of a row are exactly its entries other than the validated field |
| LayoutValidation.RowTotals | packages/form-js-editor/src/core/FormLayoutValidator.js:39-59 | the field count of a row always includes the validated field itself |
| LayoutValidation.ValidateField | packages/form-js-editor/src/core/FormLayoutValidator.js:19-74 | the row given, or else the layouter's row of the field, is checked as the specification `LayoutError` says |
| LayoutValidation.Validate | packages/form-js-editor/src/core/FormLayoutValidator.js:19-74 | `validateField`: the width bounds first, then the given row or else the field's row; no row, or a row entry the registry does not know, throws; otherwise the row checks |
| LayoutValidation.BoundsError | packages/form-js-editor/src/core/FormLayoutValidator.js:22-33 | a width bound is reported exactly for an integer width outside 2 to 16 |
| LayoutValidation.BoundsBeforeRow | packages/form-js-editor/src/core/FormLayoutValidator.js:22-37 | a width outside the bounds is reported whatever the row, even with no row at all |
| LayoutValidation.ValidateThrowsIff | packages/form-js-editor/src/core/FormLayoutValidator.js:19-74 | `validateField` throws exactly when the bounds pass and there is no row or a row entry is unregistered; otherwise it answers with the row checks |
| LayoutValidation.ParseColumns | packages/form-js-editor/src/core/FormLayoutValidator.js:40-57 | `parseInt(columns)`, or 0 when that is NaN: the width truncated toward zero, or the leading digit of a width printed in exponential notation |
| LayoutValidation.LayoutError | packages/form-js-editor/src/core/FormLayoutValidator.js:19-74 | the checks on a known row: bounds, overflow, then too many fields; stated by `BelowMinimum`, `AboveMaximum`, `ExplicitOverflow`, `AutoOverflow`, `FullWidthAlone` and `FieldCount` |
| LayoutValidation.ValidateInRow | packages/form-js-editor/src/core/FormLayoutValidator.js:19-74 | the checks run in order, bounds, overflow, field count, and answer as `LayoutError` |
| LayoutValidation.SumRow | packages/form-js-editor/src/core/FormLayoutValidator.js:39-59 | the forEach loop over the row's ids gives the totals `RowTotals` defines: column sum, field count and auto-width count, skipping the field's own entry |
| LayoutValidation.BelowMinimum | packages/form-js-editor/src/core/FormLayoutValidator.js:22-27 | a whole number of columns below 2 gives the minimum-width message |
| LayoutValidation.AboveMaximum | packages/form-js-editor/src/core/FormLayoutValidator.js:29-32 | a whole number of columns above 16 gives the maximum-width message |
| LayoutValidation.NonIntegerSkipsBounds | packages/form-js-editor/src/core/FormLayoutValidator.js:21-33 | a width that is not a whole number is never refused by the bounds checks |
| LayoutValidation.OwnEntryIgnored | packages/form-js-editor/src/core/FormLayoutValidator.js:44-47 | the field's own entry in the row and its stored width play no part in the answer |
| LayoutValidation.ExplicitOverflow | packages/form-js-editor/src/core/FormLayoutValidator.js:61-67 | once the bounds pass, more than 16 columns in the row gives the overflow message |
| LayoutValidation.AutoOverflow | packages/form-js-editor/src/core/FormLayoutValidator.js:61-67 | once the bounds pass, with auto-width fields present, more than 16 minus two per auto-width field gives the overflow message |
| LayoutValidation.FullWidthAlone | packages/form-js-editor/src/core/FormLayoutValidator.js:65-66 | a full 16-column width is refused in a row that holds another field |
| LayoutValidation.FieldCount | packages/form-js-editor/src/core/FormLayoutValidator.js:62-73 | the too-many-fields message comes exactly when the bounds and overflow checks pass and the row would hold more than 4 fields, and no message comes exactly when all checks pass with at most 4 |
| Commands.GroupStart | packages/form-js-viewer/dist/index.es.js:6308-6324 | the start of an action's group is the first index of the run of actions sharing its id that ends at it |
| Commands.GroupEnd | packages/form-js-viewer/dist/index.es.js:6329-6345 | the end of an action's group is the last index of the run of actions sharing its id that starts at it |
| Commands.UndoTarget | packages/form-js-viewer/dist/index.es.js:6308-6324 | undo moves the position strictly back when there is something to undo, never past -1 |
| Commands.RedoTarget | packages/form-js-viewer/dist/index.es.js:6329-6345 | redo moves the position strictly forward when there is something to redo, never past the top of the stack |
| Commands.GroupEndOf | packages/form-js-viewer/dist/index.es.js:6335-6342 | a run of actions with one id ending before another id is a whole group |
| Commands.GroupStartOf | packages/form-js-viewer/dist/index.es.js:6314-6321 | a run of actions with one id starting after another id is a whole group |
| Commands.UndoThenRedo | packages/form-js-viewer/dist/index.es.js:6308-6345 | on a stack whose position ends a group, redo after undo returns to the same position |
| Commands.RedoThenUndo | packages/form-js-viewer/dist/index.es.js:6308-6345 | on a stack whose position ends a group, undo after redo returns to the same position |
| Commands.UndoRedoGrouped | packages/form-js-viewer/dist/index.es.js:6308-6345 | undo and redo always stop at the end of a group |
| Commands.FirstInvalid | packages/form-js-viewer/dist/index.es.js:6440-6446 | the commands before the index all have a name and a handler, and the one at the index lacks one of them |
| Commands.Stamp | packages/form-js-viewer/dist/index.es.js:6484-6486 | every nested action takes the id of the top-level action it runs under |
| Commands.CommandStack.constructor | packages/form-js-viewer/dist/index.es.js:6176-6226 | a new stack is empty at position -1, with no handler and the first id 1 |
| Commands.CommandStack.Register | packages/form-js-viewer/dist/index.es.js:6526-6534 | a missing name or handler and an already registered name are refused with no change; otherwise the handler is added |
| Commands.CommandStack.Execute | packages/form-js-viewer/dist/index.es.js:6235-6247 | a missing command is refused with no change; otherwise the actions that run are pushed above the position, dropping anything that could have been redone, all with one id: a fresh one, or the id an earlier throwing execution left open; a command without a handler ends the execution with its error and leaves that id open |
| Commands.ExecuteOn | packages/form-js-viewer/dist/index.es.js:6477-6488 | the execution's id is the open one if a command threw before, otherwise a fresh one; a failure leaves that id open for the next execution, and the stack stays grouped |
| Commands.NextId | packages/form-js-viewer/dist/index.es.js:6484-6486 | `baseAction && baseAction.id || this._createId()`: the open execution's id when there is one, otherwise the fresh counter |
| Commands.SharedIdOneGroup | packages/form-js-viewer/dist/index.es.js:6308-6324 | two executions stamped with the same id, as after a command threw, form a single group that one undo reverts |
| Commands.CommandStack.Undo | packages/form-js-viewer/dist/index.es.js:6308-6324 | the position moves back over one whole group, and the actions reverted are that group from the top down |
| Commands.CommandStack.Redo | packages/form-js-viewer/dist/index.es.js:6329-6345 | the position moves forward over one whole group, and the actions redone are that group in order |
| Commands.CommandStack.Clear | packages/form-js-viewer/dist/index.es.js:6295-6303 | the stack becomes empty at position -1; handlers and ids are kept |
| Commands.UndoScan | packages/form-js-viewer/dist/index.es.js:6314-6321 | the while loop of undo stops at the undo target and reverts the actions passed, from the top down |
| Commands.RedoScan | packages/form-js-viewer/dist/index.es.js:6335-6342 | the while loop of redo stops at the redo target and redoes the actions passed, in order |
| Commands.PushCommands | packages/form-js-viewer/dist/index.es.js:6514-6519 | the stack becomes the base followed by the commands that could run, each stamped with the new id; the result says whether all ran, and the stack stays grouped |
| Commands.PushKeepsGrouped | packages/form-js-viewer/dist/index.es.js:6514-6519 | pushing actions with a fresh id on top of an ordered base keeps the stack grouped |
| Events.InsertPosition | packages/form-js-viewer/dist/index.es.js:7340-7368 | a new listener goes after every listener of at least its priority and before the first one of lower priority |
| Events.Insert | packages/form-js-viewer/dist/index.es.js:7340-7368 | adding a listener grows the list by exactly that listener |
| Events.InsertOrdered | packages/form-js-viewer/dist/index.es.js:7340-7368 | adding keeps the list ordered by descending priority |
| Events.InsertAfterEqualPriority | packages/form-js-viewer/dist/index.es.js:7340-7368 | the new listener is placed after all listeners of equal or higher priority and before all of lower priority, and the rest keep their order |
| Events.InsertAt | packages/form-js-viewer/dist/index.es.js:7340-7368 | adding splices the listener in at its insert position |
| Events.Remove | packages/form-js-viewer/dist/index.es.js:7386-7410 | removing keeps exactly the listeners that do not match the callback, directly or through its bound original |
| Events.RemoveAsWrittenKeepsSecondMatch | packages/form-js-viewer/dist/index.es.js:7396-7409 | as written, of two consecutive listeners for the same callback the second survives, because the removed listener still becomes the previous one |
| Events.RemoveIdempotent | packages/form-js-viewer/dist/index.es.js:7386-7410 | removing a callback twice is the same as removing it once |
| Events.RemoveOrdered | packages/form-js-viewer/dist/index.es.js:7386-7410 | removing keeps the list ordered by priority |
| Events.CalledCount | packages/form-js-viewer/dist/index.es.js:7276-7287 | listeners are called in order until one returns a defined value, which stops the propagation |
| Events.Callbacks | packages/form-js-viewer/dist/index.es.js:7276-7287 | the callbacks called are the listeners' callbacks, in order |
| Events.DispatchFirstAnswer | packages/form-js-viewer/dist/index.es.js:7276-7322 | the first listener that answers with a defined value gives the result, and no listener after it is called |
| Events.CalledCountAt | packages/form-js-viewer/dist/index.es.js:7276-7287 | propagation stops right after the first listener that answers |
| Events.DispatchNoAnswer | packages/form-js-viewer/dist/index.es.js:7237-7250 | when no listener answers, every listener is called and the result is false if one of them prevented the default, undefined otherwise |
| Events.CalledCountAll | packages/form-js-viewer/dist/index.es.js:7276-7287 | when no listener answers, every listener is called |
| Events.DispatchAt | packages/form-js-viewer/dist/index.es.js:7237-7250 | the result is the last called listener's answer, or false when it is undefined and a called listener prevented the default |
| Events.Dispatch | packages/form-js-viewer/dist/index.es.js:7202-7287 | `fire` over the listener list: listeners are called in order until one stops the event, and the result is the last called listener's answer; stated by `DispatchFirstAnswer`, `DispatchNoAnswer` and `DispatchAt` |
| Events.EventBus.constructor | packages/form-js-viewer/dist/index.es.js:7016-7025 | a new bus holds just its own destroy listener at priority 1 |
| Events.EventBus.AddListener | packages/form-js-viewer/dist/index.es.js:7340-7368 | only the event's listener list changes, by inserting the listener at its priority |
| Events.EventBus.On | packages/form-js-viewer/dist/index.es.js:7067-7094 | a priority that is not a number is refused with no change; otherwise the listener, bound when a `this` is given, is added to every named event |
| Events.EventBus.Off | packages/form-js-viewer/dist/index.es.js:7150-7156 | every named event loses the listeners of the callback, or all listeners when no callback is given |
| Events.EventBus.Destroy | packages/form-js-viewer/dist/index.es.js:7265-7267 | every listener is forgotten |
| Events.EventBus.Fire | packages/form-js-viewer/dist/index.es.js:7202-7251 | firing without an event type is an error; otherwise the result is the dispatch over the event's listeners |
| Events.Bound | packages/form-js-viewer/dist/index.es.js:7067-7093 | the default priority applies when none is given, and a bound callback keeps a reference to its original so `off` can find it |
| Events.AddAllEffect | packages/form-js-viewer/dist/index.es.js:7087-7093 | adding to a list of events changes no other event and puts the listener in every named one |
| Events.AddAllOrdered | packages/form-js-viewer/dist/index.es.js:7087-7093 | adding to a list of events keeps every listener list ordered |
| Events.OffAllEffect | packages/form-js-viewer/dist/index.es.js:7150-7156 | removing from a list of events changes no other event and clears or filters every named one |
| Options.FirstDefined | packages/form-js-viewer/src/util/constants/OptionsSourceConstants.js:38-47 | the source found is the first of the list set on the field, or the default when none is |
| Options.OptionsSourcePriority | packages/form-js-viewer/src/util/constants/OptionsSourceConstants.js:38-47 | static values win whatever else is set, an input key wins over an expression, an expression alone gives `expression`, and nothing set gives the default `static` |
| Options.GetSimpleOptionsData | packages/form-js-viewer/dist/index.es.js:782-792 | a field with a values expression has no simple options data (null), and one with neither expression nor input key uses its static `values` |
| Options.MakeOption | packages/form-js-viewer/dist/index.es.js:840-846 | a primitive becomes an option whose value is itself and whose label is its text |
| Options.PrimitiveLabel | packages/form-js-viewer/dist/index.es.js:865-869 | an allowed primitive always has a non-empty label |
| Options.NormalizeOption | packages/form-js-viewer/dist/index.es.js:839-864 | an option is normalised to a well-formed `{ value, label }` object or to null, and a well-formed option is kept as it is |
| Options.NormalizeAll | packages/form-js-viewer/dist/index.es.js:802-804 | normalising a list keeps only well-formed options and never lengthens it |
| Options.NormalizeOptionsData | packages/form-js-viewer/dist/index.es.js:802-804 | option data that is an array normalises to well-formed options only; any other data makes the call fail (it throws, and the sanitisers fall back) |
| Options.NormalAllowed | packages/form-js-viewer/dist/index.es.js:839-877 | a well-formed option passes the allowed-value filter and normalises to itself |
| Options.NormalizeAllIdempotent | packages/form-js-viewer/dist/index.es.js:802-804 | normalising normalised options changes nothing |
| Options.CreateEmptyOptions | packages/form-js-viewer/dist/index.es.js:813-829 | every given option is kept, only `values` may be added, and without an input key or expression the default option labelled `Možnost` with value `moznost` is the `values` unless the field gives its own |
| Options.ValuesOf | packages/form-js-viewer/dist/index.es.js:1555 | the valid values are the options' values, one for one |
| Options.SanitizeSingleSelect | packages/form-js-viewer/dist/index.es.js:1540-1562 | a value is kept or becomes null; with expression options it is always kept, otherwise it is kept exactly when it is one of the valid values (or already null) |
| Options.FilterValid | packages/form-js-viewer/dist/index.es.js:1579 | the values kept are valid and were in the input, never more of them than there were |
| Options.FilterValidKeeps | packages/form-js-viewer/dist/index.es.js:1579 | a list of valid values is kept whole |
| Options.SanitizeMultiSelect | packages/form-js-viewer/dist/index.es.js:1563-1585 | with expression options the value is kept; otherwise the result is an array holding only valid values that were in the input |
| Options.MultiSelectIdempotent | packages/form-js-viewer/dist/index.es.js:1563-1585 | sanitising a sanitised multi-select value changes nothing |
| Options.SingleSelectIdempotent | packages/form-js-viewer/dist/index.es.js:1540-1562 | sanitising a sanitised single-select value changes nothing |
| TimeOfDay.RemoveFirst | packages/form-js-viewer/dist/index.es.js:1415 | replacing `Z` by nothing removes exactly one character when there is one, and changes nothing otherwise |
| TimeOfDay.ParseIntDigits | packages/form-js-viewer/dist/index.es.js:1376-1377 | `parseInt` reads a run of decimal digits as its decimal value |
| TimeOfDay.DigitRuns | packages/form-js-viewer/dist/index.es.js:1375 | `match(/\d+/g)` yields only non-empty runs of decimal digits |
| TimeOfDay.RunsSkip | packages/form-js-viewer/dist/index.es.js:1375 | characters that are not digits yield no run |
| TimeOfDay.RunsTake | packages/form-js-viewer/dist/index.es.js:1375 | a block of digits ended by a non-digit is matched as one run |
| TimeOfDay.FormatTime | packages/form-js-viewer/dist/index.es.js:1358-1369 | `formatTime` gives text exactly when it is given a minute; `null` stays `null` |
| TimeOfDay.Format24Text | packages/form-js-viewer/dist/index.es.js:1358-1364 | on the 24-hour clock a minute of the day is shown as zero-padded `HH:MM` |
| TimeOfDay.Format12Text | packages/form-js-viewer/dist/index.es.js:1366-1368 | on the 12-hour clock it is shown as `HH:MM AM` or `HH:MM PM`, the hour running 12, 1, ..., 11 and PM from noon |
| TimeOfDay.ParseInputTime | packages/form-js-viewer/dist/index.es.js:1370-1392 | whatever text is typed, a time read from it is a minute of the day, 0 to 1439 |
| TimeOfDay.ReadClock | packages/form-js-viewer/dist/index.es.js:1376-1390 | the range checks of `parseInputTime` only let through a minute of the day |
| TimeOfDay.ReadClock24 | packages/form-js-viewer/dist/index.es.js:1384-1390 | on the 24-hour clock, hour 0-23 and minute 0-59 are read as `hour * 60 + minute` |
| TimeOfDay.ReadClock12 | packages/form-js-viewer/dist/index.es.js:1373-1382 | on the 12-hour clock, hour 1-12 and minute 0-59 are read with 12 as 0 and twelve hours added after noon |
| TimeOfDay.ParseInputOf | packages/form-js-viewer/dist/index.es.js:1370-1392 | `parseInputTime` picks the clock by whether the lower-cased text mentions `am` or `pm`, and reads its first two digit runs |
| TimeOfDay.ClockIncludes | packages/form-js-viewer/dist/index.es.js:1372-1374 | `HH:MM` mentions neither `am` nor `pm`; with ` am` or ` pm` after it, exactly that one |
| TimeOfDay.DisplayReads | packages/form-js-viewer/dist/index.es.js:1370-1392 | the displayed clock text, in capitals or not, reaches the range checks with its hour and minute |
| TimeOfDay.LowerSame | packages/form-js-viewer/dist/index.es.js:1371 | `parseInputTime` depends only on the lower-cased text |
| TimeOfDay.FormatThenParse | packages/form-js-viewer/dist/index.es.js:1358-1392 | every minute of the day shown on either clock is read back as the same minute |
| TimeOfDay.Clock24Round | packages/form-js-viewer/dist/index.es.js:1358-1392 | the 24-hour display of a minute reads back as that minute |
| TimeOfDay.Clock12Round | packages/form-js-viewer/dist/index.es.js:1358-1392 | the 12-hour display of a minute reads back as that minute |
| TimeOfDay.ParseBasicMinutes | packages/form-js-viewer/dist/index.es.js:1404-1410 | `parseBasicMinutes` accepts only hours 0-24 and minutes 0-60, so its result lies between 0 and 1500 |
| TimeOfDay.BasicMinutes | packages/form-js-viewer/dist/index.es.js:1408-1409 | the range checks of `parseBasicMinutes` |
| TimeOfDay.ClockBasic | packages/form-js-viewer/dist/index.es.js:1404-1410 | `HH:MM` splits at its colon into an hour and a minute read as `hour * 60 + minute` |
| TimeOfDay.ClockReads | packages/form-js-viewer/dist/index.es.js:1404-1410 | the zero-padded `HH:MM` of an hour up to 24 and a minute below 60 reads back as `hour * 60 + minute` |
| TimeOfDay.ToLocal | packages/form-js-viewer/dist/index.es.js:1414-1440 | moving a time into the viewer's zone with JavaScript's truncating remainder stays within one day either way |
| TimeOfDay.ToLocalWraps | packages/form-js-viewer/dist/index.es.js:1414-1440 | when the shifted minute is not negative the truncating remainder is the ordinary one |
| TimeOfDay.ToLocalSame | packages/form-js-viewer/dist/index.es.js:1422-1440 | an inbound offset equal to the viewer's own leaves the minute where it is |
| TimeOfDay.IsoUtcBranch | packages/form-js-viewer/dist/index.es.js:1414-1419 | text with a `Z` loses it and is read as UTC, then moved into the viewer's zone |
| TimeOfDay.IsoPlusBranch | packages/form-js-viewer/dist/index.es.js:1422-1431 | text with a `+` carries an offset east of UTC, flipped in sign before the move |
| TimeOfDay.IsoMinusBranch | packages/form-js-viewer/dist/index.es.js:1434-1440 | text with a `-` carries an offset west of UTC |
| TimeOfDay.IsoLocalBranch | packages/form-js-viewer/dist/index.es.js:1443-1445 | text with none of `Z`, `+`, `-` is read as local time |
| TimeOfDay.PadDigits | packages/form-js-viewer/dist/index.es.js:1513-1515 | padding a number below 100 gives two digits that read back as the number |
| TimeOfDay.OffsetShape | packages/form-js-viewer/dist/index.es.js:1488-1512 | the offset suffix is `+HH:MM` or `-HH:MM`, its sign `-` exactly for a positive JavaScript offset (zones west of UTC) |
| TimeOfDay.OffsetReads | packages/form-js-viewer/dist/index.es.js:1488-1512 | the hours and minutes after the sign read back as the offset's size |
| TimeOfDay.OffsetParts | packages/form-js-viewer/dist/index.es.js:1488-1512 | the suffix is the sign followed by the padded hours and minutes of the offset's size |
| TimeOfDay.UtcText | packages/form-js-viewer/dist/index.es.js:1414-1419 | `HH:MMZ` is read as the UTC minute moved into the viewer's zone |
| TimeOfDay.SuffixSplit | packages/form-js-viewer/dist/index.es.js:1422-1440 | `HH:MM` with an offset suffix splits at the sign into exactly the time and the offset |
| TimeOfDay.OffsetSuffixText | packages/form-js-viewer/dist/index.es.js:1402-1446 | local `HH:MM` with the viewer's own offset suffix reads back as the local minute |
| TimeOfDay.NormalizedText | packages/form-js-viewer/dist/index.es.js:1394-1397 | the `utc_normalized` format moves the minute to UTC within the day and appends `Z` |
| TimeOfDay.LocalText | packages/form-js-viewer/dist/index.es.js:1398-1400 | the other formats write the local `HH:MM`, with the offset suffix for `utc_offset` only |
| TimeOfDay.SerializeThenParse | packages/form-js-viewer/dist/index.es.js:1393-1446 | in every format, a stored time is read back as the same minute of the day by a viewer in the zone it was written in |
| TimeOfDay.NormalizedRound | packages/form-js-viewer/dist/index.es.js:1393-1446 | the `utc_normalized` text round-trips |
| TimeOfDay.LocalRound | packages/form-js-viewer/dist/index.es.js:1393-1446 | the `no_timezone` text round-trips |
| TimeOfDay.OffsetRound | packages/form-js-viewer/dist/index.es.js:1393-1446 | the `utc_offset` text round-trips |
| TimeOfDay.UtcBack | packages/form-js-viewer/dist/index.es.js:1393-1419 | a minute moved to UTC and back into the same zone is the minute it was |
| TimeOfDay.ParseIsoTime | packages/form-js-viewer/dist/index.es.js:1402-1446 | `parseIsoTime`, with the viewer's time-zone offset as a parameter; stated by the `Iso...Branch` lemmas and `SerializeThenParse` |
| TimeOfDay.SerializeTime | packages/form-js-viewer/dist/index.es.js:1393-1401 | `serializeTime`; stated by `NormalizedText`, `LocalText`, `OffsetSuffixText` and `SerializeThenParse` |
| TimeOfDay.FormatTimezoneOffset | packages/form-js-viewer/dist/index.es.js:1488-1515 | `formatTimezoneOffset`; stated by `OffsetShape`, `OffsetReads` and `OffsetParts` |
| Escaping.EscapeHtml | packages/form-js-viewer/dist/index.es.js:1618-1631 | escaped markup is never shorter than the text and holds none of `<`, `>`, quotes, braces or colons |
| Escaping.EntityAt | packages/form-js-viewer/dist/index.es.js:1619-1629 | the entity found at the start of a text belongs to one of the escaped characters and really starts the text |
| Escaping.NoOtherEntity | packages/form-js-viewer/dist/index.es.js:1619-1629 | an entity followed by anything starts with no other entity: no entity is a prefix of another |
| Escaping.EntityFound | packages/form-js-viewer/dist/index.es.js:1619-1629 | reading back finds the entity an escaped character was written as |
| Escaping.UnescapeEscape | packages/form-js-viewer/dist/index.es.js:1618-1631 | reading escaped markup back gives the original text, so escaping loses nothing |
| Escaping.EscapeInjective | packages/form-js-viewer/dist/index.es.js:1618-1631 | different texts never escape to the same markup |
| CssRules.ExtractTopLevelRules | packages/form-js-viewer/dist/index.es.js:1077-1096 | each rule returned is the trimmed text from the end of the previous one to a `}` that brings the brace depth back to zero, and no such `}` is left after the last one |
| CssRules.Append | packages/form-js-viewer/dist/index.es.js:1087-1089 | a rule found where the last one ended extends the list of rules in order |
| CssRules.CloseAt | packages/form-js-viewer/dist/index.es.js:1083-1091 | each character moves the depth by its delta, and a `}` that brings it to zero closes a rule |
| TableView.Chunk | packages/form-js-viewer/dist/index.es.js:5541-5550 | there are no pages exactly when there are no rows |
| TableView.ChunkPages | packages/form-js-viewer/dist/index.es.js:5541-5550 | the pages, read in order, are the rows; every page but the last is full and the last holds the remaining one to `size` rows |
| TableView.ChunkCount | packages/form-js-viewer/dist/index.es.js:5541-5550 | the number of pages is the number of rows divided by the page size, rounded up |
| TableView.ChunkGrows | packages/form-js-viewer/dist/index.es.js:5543-5547 | one more row opens a page exactly when its index is a multiple of the page size |
| TableView.ToggleSortBy | packages/form-js-viewer/dist/index.es.js:5318-5334 | a click on another column sorts it ascending, on an ascending column sorts descending, on a descending one removes the sorting |
| TableView.ToggleCycle | packages/form-js-viewer/dist/index.es.js:5318-5334 | clicking the same column three times comes back to where it started |
| PathParsing.PathParse | packages/form-js-viewer/dist/index.es.js:691-698 | an empty path has no segments, otherwise one segment per dot-separated part, read as a number when `parseInt` reads one |
| PathParsing.PathsEqualIff | packages/form-js-viewer/dist/index.es.js:699-701 | two paths are equal exactly when both are given and hold the same segments |
| PathParsing.ParseJoined | packages/form-js-viewer/dist/index.es.js:691-698 | readable segments joined with dots parse back to the same segments |
| DomIds.PrefixId | packages/form-js-viewer/dist/index.es.js:574-583 | every DOM id starts with `fjs-form-` |
| DomIds.IndexSuffixInjective | packages/form-js-viewer/dist/index.es.js:580-582 | the suffix of repetition indexes can be read back: different indexes give different suffixes |
| DomIds.PrefixIdInjective | packages/form-js-viewer/dist/index.es.js:574-583 | repetitions of one field in one form get distinct DOM ids |
| VariableNames.Shift | packages/form-js-viewer/dist/index.es.js:92-99 | a special accessor moves every reading by its offset, remembering where it was |
| VariableNames.InBounds | packages/form-js-viewer/dist/index.es.js:99 | the filter keeps exactly the readings not above the outer context |
| VariableNames.SmartExtractVariableNames | packages/form-js-viewer/dist/index.es.js:79-121 | the loop returns exactly the accessors at which some reading moves from the outer context into depth 0 |
| VariableNames.RequestedStep | packages/form-js-viewer/dist/index.es.js:88-117 | reading one more accessor adds it to the variables exactly when a reading enters depth 0 right after it |
| VariableNames.NoSpecialAccessors | packages/form-js-viewer/dist/index.es.js:79-121 | without special accessors the only variable requested is the accessor that reaches depth 0, if any |
| VariableNames.PlainDepths | packages/form-js-viewer/dist/index.es.js:100-106 | after `n` plain accessors there is one reading, at depth `initialDepth - 1 + n` |
| VariableNames.SpecialInBounds | packages/form-js-viewer/dist/index.es.js:92-99 | after a special accessor no reading is above the outer context |
| Playground.FindDiff | packages/form-js-playground/dist/index.cjs:240-269 | no change is reported exactly when the new text equals the old; otherwise the change starts at the longest common prefix, replacing old[start..end] by its text gives the new text, the unchanged tail is as long as it can be, and a change after a whole-prefix match is a pure append or a pure truncation |
| Playground.CommonPrefix | packages/form-js-playground/dist/index.cjs:246-250 | the scan stops at the first position where the two texts differ or one ends, and both agree before it |
| Playground.TrimSuffix | packages/form-js-playground/dist/index.cjs:258-263 | the backward scan keeps the two tails equal and of the same length, never crosses the start, and stops at a differing pair or at the start |
| Playground.PrefixDiff | packages/form-js-playground/dist/index.cjs:251-257 | when one text is a prefix of the other, replacing the rest of the old text by the rest of the new text gives the new text |
| Playground.MiddleDiff | packages/form-js-playground/dist/index.cjs:264-268 | with the prefix and the trimmed tails, the reported change rebuilds the new text and leaves the longest common tail untouched |
| Playground.Splice | packages/form-js-playground/dist/index.cjs:264-268 | a change between a common prefix and a common tail rebuilds the new text from the old |
| Playground.PrefixIsCommon | packages/form-js-playground/dist/index.cjs:248 | a prefix on which the texts agree and which stops at a difference or an end is the longest common prefix |
| Playground.FindDiffNoneIffEqual | packages/form-js-playground/dist/index.cjs:241-257 | the common prefix covers both texts exactly when they are equal |
| KeyEntry.FormatError | packages/form-js-editor/src/features/properties-panel/entries/KeyEntry.js:67-81 | the format checks run in order (non-empty string, dot path, no integer segment, not prohibited), each message given exactly when the earlier checks pass and that one fails |
| KeyEntry.Validate | packages/form-js-editor/src/features/properties-panel/entries/KeyEntry.js:61-96 | the unchanged key passes without touching the registry; a format error is reported without touching it; otherwise the answer and the registry after the call are those of the rename check |
| KeyEntry.RenameAnswer | packages/form-js-editor/src/features/properties-panel/entries/KeyEntry.js:83-95 | a key passes exactly when the new value path can be claimed as closed while the field's own claim is released, and fails only with the collision message |
| KeyEntry.RenameKeepsClaims | packages/form-js-editor/src/features/properties-panel/entries/KeyEntry.js:90-93 | releasing and re-claiming the old path leaves every claim of the registry as it was, so a validation has no lasting effect |
| KeyEntry.Rename | packages/form-js-editor/src/features/properties-panel/entries/KeyEntry.js:83-95 | the unclaim, check and reclaim of the key entry's `validate`; stated by `RenameAnswer` and `RenameKeepsClaims` |
| KeyEntry.KeyValue | packages/form-js-editor/src/features/properties-panel/entries/KeyEntry.js:49-51 | the entry shows the stored key, or the empty string when there is none |
| KeyEntry.SetKey | packages/form-js-editor/src/features/properties-panel/entries/KeyEntry.js:53-59 | an edit reported with an error is dropped, any other edit writes `key` |
| PathEntry.Entries | packages/form-js-editor/src/features/properties-panel/entries/PathEntry.js:11-37 | the panel shows one `path` entry exactly for pathed field types, and none otherwise |
| PathEntry.PathValue | packages/form-js-editor/src/features/properties-panel/entries/PathEntry.js:53-55 | the entry shows the stored path, or the empty string when there is none |
| PathEntry.SetPath | packages/form-js-editor/src/features/properties-panel/entries/PathEntry.js:57-63 | an edit with an error is dropped, any other writes `path` |
| PathEntry.EmptyOrUnchanged | packages/form-js-editor/src/features/properties-panel/entries/PathEntry.js:67-74 | an empty path is refused only on a repeating container, and an unchanged path is accepted |
| PathEntry.FormatOrder | packages/form-js-editor/src/features/properties-panel/entries/PathEntry.js:76-90 | the format checks run in order before any registry work, the dot-path message depending on whether the container repeats |
| PathEntry.ValidateWalk | packages/form-js-editor/src/features/properties-panel/entries/PathEntry.js:92-109 | once the format checks pass, the answer is decided by the first field of the subtree, in pre-order, whose check does not answer yes: none gives no error, one that cannot claim gives the collision message, one that throws makes the validation throw |
| PathEntry.CollisionIff | packages/form-js-editor/src/features/properties-panel/entries/PathEntry.js:99-106 | when no check throws, the collision message is given exactly when some field of the subtree cannot claim its value path under the new path, and otherwise the path is accepted |
| PathEntry.FirstStop | packages/form-js-editor/src/features/properties-panel/entries/PathEntry.js:99-102 | the first field that stops the walk is a field of the walk at which it stops, and there is none exactly when no field stops it |
| PathEntry.FirstStopExists | packages/form-js-editor/src/features/properties-panel/entries/PathEntry.js:99-102 | a walk has a first stopping field exactly when some field of it stops |
| PathEntry.ThroughEndsAtFirstStop | packages/form-js-editor/src/features/properties-panel/entries/PathEntry.js:99-102 | the fields visited end with the first field that stops the walk |
| PathEntry.BeforeFirstStop | packages/form-js-editor/src/features/properties-panel/entries/PathEntry.js:99-102 | a field preceded only by fields whose checks answer yes, and whose own check does not, is the first stop |
| PathEntry.BlocksAt | packages/form-js-editor/src/features/properties-panel/entries/PathEntry.js:99-102 | the walk stops at a field exactly when its claim check does not answer yes |
| PathEntry.Validate | packages/form-js-editor/src/features/properties-panel/entries/PathEntry.js:65-110 | the path entry's `validate`: the empty and unchanged cases, the format checks, then the collision walk; stated by `EmptyOrUnchanged`, `FormatOrder`, `ValidateWalk` and `CollisionIff` |
| NumberEntries.ValidateDecimalDigits | packages/form-js-editor/src/features/properties-panel/entries/NumberEntries.js:157-169 | anything but a number passes; a number passes exactly when it is whole and not negative, each failure with its own message |
| NumberEntries.MinimumExponent | packages/form-js-editor/src/features/properties-panel/entries/NumberEntries.js:126 | big.js reads `1e-<digits>` exactly when the setting's text is a non-empty run of digits |
| NumberEntries.NotPositive | packages/form-js-editor/src/features/properties-panel/entries/NumberEntries.js:121 | `cmp(0) <= 0` holds exactly for the numbers that are not positive |
| NumberEntries.MinimumNeedsExtraDecimals | packages/form-js-editor/src/features/properties-panel/entries/NumberEntries.js:125-134 | a positive step below `10^-k` has more than `k` fractional digits, so the minimum check never refuses a step the decimals check would accept |
| NumberEntries.StepAcceptedIff | packages/form-js-editor/src/features/properties-panel/entries/NumberEntries.js:111-138 | a step is accepted exactly when it is nil, or a valid positive number that, when decimal digits are set to a readable count, has no more fractional digits than that; a whole step of 10^21 or more makes the check throw |
| NumberEntries.MessagesDiffer | packages/form-js-editor/src/features/properties-panel/entries/NumberEntries.js:118-133 | the step validator's messages can be told apart |
| NumberEntries.StepMessages | packages/form-js-editor/src/features/properties-panel/entries/NumberEntries.js:113-123 | a value that is not a valid number gets the invalid message, and the not-positive message is given exactly for valid numbers that are not positive |
| NumberEntries.ValidateStep | packages/form-js-editor/src/features/properties-panel/entries/NumberEntries.js:111-138 | the step entry's `validate`; stated by `StepAcceptedIff`, `StepMessages` and `MessagesDiffer` |
| NumberEntries.DropZeros | packages/form-js-editor/src/features/properties-panel/entries/NumberEntries.js:97 | removing leading zeros drops a prefix made only of zeros and leaves text that does not start with a zero |
| NumberEntries.ClearShape | packages/form-js-editor/src/features/properties-panel/entries/NumberEntries.js:95-99 | the cleared text has no leading zero except one before a decimal point, and is empty exactly when the input is all zeros |
| NumberEntries.ClearIdempotent | packages/form-js-editor/src/features/properties-panel/entries/NumberEntries.js:95-99 | clearing twice is clearing once |
| NumberEntries.ZeroPrefix | packages/form-js-editor/src/features/properties-panel/entries/NumberEntries.js:98 | one leading zero does not change the number a text reads as, unless the rest is empty or a bare point; before a minus sign it makes the text unreadable |
| NumberEntries.DropZerosValue | packages/form-js-editor/src/features/properties-panel/entries/NumberEntries.js:97 | dropping leading zeros keeps the number a readable text reads as, while something other than a bare point is left |
| NumberEntries.DotValue | packages/form-js-editor/src/features/properties-panel/entries/NumberEntries.js:97-98 | zeros followed by a bare point read as zero, as `0.` does |
| NumberEntries.ClearKeepsValue | packages/form-js-editor/src/features/properties-panel/entries/NumberEntries.js:95-106 | clearing leading zeros never changes the number a readable step reads as |
| NumberEntries.ClearLeadingZeroes | packages/form-js-editor/src/features/properties-panel/entries/NumberEntries.js:95-99 | `clearLeadingZeroes`; stated by `ClearShape`, `ClearIdempotent` and `ClearKeepsValue` |
| NumberEntries.IncrementValue | packages/form-js-editor/src/features/properties-panel/entries/NumberEntries.js:86-93 | the step entry shows the stored increment when it is a valid number and null otherwise |
| NumberEntries.SetIncrement | packages/form-js-editor/src/features/properties-panel/entries/NumberEntries.js:101-107 | an edit with an error is dropped; any other writes the text with its leading zeros cleared to `increment` |
| NumberEntries.SetDecimalDigits | packages/form-js-editor/src/features/properties-panel/entries/NumberEntries.js:51-57 | an edit with an error is dropped, any other writes `decimalDigits` |
| CustomProperties.AddEntry | packages/form-js-editor/src/features/properties-panel/groups/CustomPropertiesGroup.js:17-27 | the new key is `key<n>` for the first counter value, from the number of properties plus one, whose name is not taken; every name skipped was taken; the pair `key<n>: 'value'` is added after the existing ones and keys stay distinct |
| CustomProperties.ValidateKey | packages/form-js-editor/src/features/properties-panel/groups/CustomPropertiesGroup.js:29-43 | a renamed key passes exactly when it is the entry's own key or a non-empty string the object does not have; otherwise the empty or the not-unique message |
| CustomProperties.RemoveKey | packages/form-js-editor/src/features/properties-panel/groups/CustomPropertiesGroup.js:91-104 | the copy holds exactly the entries whose key is not the removed one, so its keys are the old keys less that one |
| CustomProperties.RemoveKeyConcat | packages/form-js-editor/src/features/properties-panel/groups/CustomPropertiesGroup.js:91-104 | removal works entry by entry, so it keeps the order of the entries it keeps |
| CustomProperties.RemoveAbsentKey | packages/form-js-editor/src/features/properties-panel/groups/CustomPropertiesGroup.js:91-104 | removing a key the object does not have gives an equal copy |
| CustomProperties.RemoveUndoesAdd | packages/form-js-editor/src/features/properties-panel/groups/CustomPropertiesGroup.js:17-50 | removing an entry just added gives back the object it was added to |
| CustomProperties.Group | packages/form-js-editor/src/features/properties-panel/groups/CustomPropertiesGroup.js:13-67 | there is no group for the form itself; otherwise one item per property, in order, with id `property-<index>`, focus on its key entry and the key as label |
| CustomProperties.ItemIdsDistinct | packages/form-js-editor/src/features/properties-panel/groups/CustomPropertiesGroup.js:45-67 | the items of a group have distinct ids |
| EditorUtil.SetValue | packages/form-js-editor/src/features/properties-panel/entries/HeightEntry.js:51-57 | an edit reported with an error is dropped; any other writes the one named property and leaves every other property as it was |
| EditorUtil.PropOr | packages/form-js-editor/src/features/properties-panel/entries/HeightEntry.js:49 | reading a property with a fallback gives the fallback exactly when the property is undefined |
| HeightEntry.Validate | packages/form-js-editor/src/features/properties-panel/entries/HeightEntry.js:77-89 | a height passes exactly when it is a whole number of at least 1, and each failing check gives its own message |
| HeightEntry.VisibleIff | packages/form-js-editor/src/features/properties-panel/entries/HeightEntry.js:26-32 | without a predicate of the caller the entry is shown exactly for spacers, with one exactly where it says |
| HeightEntry.Height | packages/form-js-editor/src/features/properties-panel/entries/HeightEntry.js:49 | the entry shows the stored height, or null when there is none |
| HeightEntry.SetHeight | packages/form-js-editor/src/features/properties-panel/entries/HeightEntry.js:51-57 | an edit with an error is dropped, any other writes `height` |
| HeightEntry.AcceptedRoundTrip | packages/form-js-editor/src/features/properties-panel/entries/HeightEntry.js:49-57 | a height the validator accepts is written and read back as it is |
| RowCountEntry.Validate | packages/form-js-editor/src/features/properties-panel/entries/RowCountEntry.js:72-91 | a row count passes exactly when it is nil or a whole number of at least 1, and each failing check gives its own message |
| RowCountEntry.VisibleIff | packages/form-js-editor/src/features/properties-panel/entries/RowCountEntry.js:23 | the entry is shown exactly for tables whose stored row count is a number |
| RowCountEntry.RowCount | packages/form-js-editor/src/features/properties-panel/entries/RowCountEntry.js:39 | the entry shows the stored row count, undefined when there is none |
| RowCountEntry.SetRowCount | packages/form-js-editor/src/features/properties-panel/entries/RowCountEntry.js:46-52 | an edit with an error is dropped, any other writes `rowCount` |
| RowCountEntry.ClearedHides | packages/form-js-editor/src/features/properties-panel/entries/RowCountEntry.js:23-52 | clearing the row count passes the validator, is written, and hides the entry again |
| InputKeyOptionsSourceEntry.Validate | packages/form-js-editor/src/features/properties-panel/entries/InputKeyOptionsSourceEntry.js:73-83 | a key passes exactly when it is a non-empty string without white space; an empty or non-string value and a key with white space each get their own message |
| InputKeyOptionsSourceEntry.InputKey | packages/form-js-editor/src/features/properties-panel/entries/InputKeyOptionsSourceEntry.js:34-43 | the entry shows the stored `valuesKey`, or the empty string when there is none |
| InputKeyOptionsSourceEntry.SetInputKey | packages/form-js-editor/src/features/properties-panel/entries/InputKeyOptionsSourceEntry.js:45-51 | an edit with an error is dropped; a falsy value is written as the empty string, any other as it is |
| InputKeyOptionsSourceEntry.SetThenGet | packages/form-js-editor/src/features/properties-panel/entries/InputKeyOptionsSourceEntry.js:43-51 | what is written is read back, a falsy value as the empty string |
| IFrameUrlEntry.Validate | packages/form-js-editor/src/features/properties-panel/entries/IFrameUrlEntry.js:87-95 | no URL, the empty URL or an expression pass; any other URL passes exactly when it starts with `https:/` in any case, and otherwise gets the https message |
| IFrameUrlEntry.CaseInsensitive | packages/form-js-editor/src/features/properties-panel/entries/IFrameUrlEntry.js:7 | the https test ignores case: a URL and its lower-case form get the same answer |
| IFrameUrlEntry.Url | packages/form-js-editor/src/features/properties-panel/entries/IFrameUrlEntry.js:42-44 | the entry shows the stored URL, or the empty string when there is none |
| IFrameUrlEntry.SetUrl | packages/form-js-editor/src/features/properties-panel/entries/IFrameUrlEntry.js:46-48 | every edit writes `url` and leaves the other properties as they were |
| TableDataSourceEntry.Validate | packages/form-js-editor/src/features/properties-panel/entries/TableDataSourceEntry.js:77-96 | a data source must be a non-empty string; an expression passes before any path check; otherwise it passes exactly when it is a dot path without an integer segment, each failure with its own message |
| TableDataSourceEntry.DataSource | packages/form-js-editor/src/features/properties-panel/entries/TableDataSourceEntry.js:41-44 | the entry shows the stored data source, or the field's id when there is none |
| TableDataSourceEntry.SetDataSource | packages/form-js-editor/src/features/properties-panel/entries/TableDataSourceEntry.js:46-52 | an edit with an error is dropped, any other writes `dataSource` |

## Left out

- Rendering is not modelled, because it is UI with no state of its own beyond what the core covers. This includes the Preact components and hooks, SVG icons, the renderer, `attachTo`/`detach`, and the properties-panel and playground components. Only the entries' `validate`, `getValue`, `setValue` and visibility rules are modelled.
- Code bound to the DOM or the browser is not modelled: `sanitizeHTML`, the DOM half of `wrapCSSStyles`, scrolling, flatpickr and CodeMirror.
- FEEL and feelers evaluation, `marked` and DOMPurify are foreign libraries. They enter as opaque functions in `Validator.Oracles`, `ConditionChecker.Env` and `FormData.Services`. The same holds for the variable extraction's `_linearizePathExpression`: the model starts from its list of accessor names.
- The regular expressions are opaque predicates: `EMAIL_PATTERN`, `PHONE_PATTERN`, a field's own `pattern`, and the editor's `isValidDotPath`, `hasIntegerPathSegment` and `isProhibitedPath` (`EditorUtil.PathChecks`). The iframe URL pattern is the exception and is modelled.
- Dates and `Intl` are left out: `serializeDate`, `serializeDateTime`, `isInvalidDateString` and locale formats. The viewer's time-zone offset is a parameter of `TimeOfDay.ParseIsoTime`.
- `Math.random` in `_getUniqueKeyPath` is modelled as the first counter value whose name is no sibling's schema key and no name already in the claimed-path tree (`Importing.UniqueKey`, `Importing.GeneratedNameFresh`). The `ids` generator is modelled as a counter (`Importing.FormFieldRegistry.NextId`, `Layouts.FormLayouter.NextRowId`), and a generated row id skips the row ids that the container's children name (`Layouts.RowKey`). The model does not reproduce the random text. Random names differ from every other name with near certainty; the counter's names cannot know the names that come later, which leaves the cases below.
- Importing.ImportField: a field imported later, in another container without a path of its own, whose explicit key equals an earlier generated key (`textfield_0`) binds to the same path, and the import fails where the source's random key would not collide.
- Importing.ImportFields: inherits that case from `Importing.ImportField`.
- Importing.Importer.ImportSchema: inherits that case from `Importing.ImportField`.
- Layouts.RowKey: a generated id `Row_<n>` can equal a row id that a child of another container names. The two rows stay apart, but `getRow` with that id finds only the first; the source's random ids do not meet this case.
- Floating point is not modelled: numbers are exact decimals, as big.js computes them. `NaN` and infinities are not values. Where JavaScript yields `NaN` (`Number('x')`, `parseInt('x')`), the model yields `None`; `Number('Infinity')` is `None` too. The rounding of doubles to 17 significant digits and their overflow above about 1.8e308 are not reproduced.
- JavaScript objects list integer-like keys first. The model keeps keys in insertion order where order matters: `CustomProperties.Properties` and the order of `Object.values(indexes)` in `DomIds.PrefixId` and `ConditionChecker.IndexValues`.
- Prototype-chain lookups (`key in object` finding inherited names) are not modelled; only own properties count.
- Events that the command stack and the layouter fire for the outside world, `once` listeners, and the error reporting of the event bus (`handleError`, `console.error`) are left out.
- Commands.CommandStack.Execute: models nested commands only as those a handler runs from `preExecute` and `postExecute`. A command started during the `execute` or `revert` phase, which the source rejects through its atomic guard, cannot be expressed in the model. The `canExecute` query and the tracking of changed elements are not modelled either. Of the actions a throwing execution leaves in `_currentExecution.actions`, the model keeps only the id the next execution inherits (`pending`).
- Timers and debouncing are about timing, not logic, and are left out.
- Writing into a primitive leaves it unchanged in `Data.PutChild` and `Data.Set`. Strict-mode JavaScript would throw there.
- Data.PutChild: an array takes only elements, addressed by a number or its canonical text. A named property written into an array (`arr['x']`, `arr['1.5']`) is dropped, where JavaScript stores it as a property that JSON never shows. Indices of 2^32 - 1 and more, which JavaScript stores as plain properties, are elements in the model.
- Data.NewContainer: a numeric key that is not the canonical text of an index (`'1.5'`, `' 2'`) gets an array, as in min-dash, and the write below it is then dropped as above.
- Validator.IncrementErrors: its message names the corrected neighbours (`Validator.StepNeighbours`), not the code's `value - value.mod(increment)` and that plus the increment. The two differ for a negative value and for a negative increment (see Findings).
- Validator.ValidateField: includes that increment message, so it differs from the source in the same cases.
- TableView.Chunk: requires a positive page size. With size 0 the JavaScript `%` gives `NaN` and the first push fails.
- CssRules.ExtractTopLevelRules: trims each rule as it is found, where the source trims them all at the end; the result is the same.
- KeyEntry.RenameKeepsClaims: is stated for a registry whose old path ends in the field's closed claim with no stale repeater mark on a node only that claim holds. In that rare state the source's unclaim-and-reclaim drops the mark.
- ValuePaths.GetValuePath: its own contract states only that a bad local path fails. What it returns is stated by `ValuePaths.PathStep`, `ValuePaths.AncestorPathIsPrefix`, `ValuePaths.CutoffAtParent` and `ValuePaths.ValuePathResolves`.
- Fields.EmptyValue: its contract states only that a keyed type's empty value is defined. The values per type are the function's definition.
- Data.Get: its own contract covers only the empty path. The other paths are covered by `Data.GetSetWritable`, `Data.GetSetElsewhere` and `Data.GetSetUndefined`.
- Data.Set: its own contract states that the kind of value is kept. What it writes is stated by the `Data.GetSet...` lemmas.
- The decimal-digits entry's `getValue` and the number entries' visibility rule (`type === 'number'`) are plain property reads and are not modelled.

## Findings

| source | as written | input that shows it | evidently intended | confidence | as-written member | corrected member |
|---|---|---|---|---|---|---|
| packages/form-js-viewer/dist/index.es.js:7386-7410 | after unlinking a matching listener, the loop keeps the removed listener as `previousListener`, so a second matching listener right after it is unlinked only from the removed node | two listeners on one event with the same callback; `off` with that callback | every listener with the callback is removed | not executed | Events.RemoveAsWrittenKeepsSecondMatch | Events.Remove |
| packages/form-js-viewer/dist/index.es.js:7750-7759 | uniqueness is checked against sibling keys equal to the bare random text, but the key returned is `<type>_<random>` | a sibling whose key is `textfield_0` when the random text is `0` | the returned key differs from every sibling key | not executed | Importing.UniqueKeyAsWrittenCollides | Importing.UniqueKey |
| packages/form-js-viewer/dist/index.es.js:7464-7472 | the neighbouring valid values are `value - (value mod increment)` and that plus the increment, with big.js's truncating `mod` | value -7, increment 5: the message names -5 and 0, neither below -7 | the two multiples of the increment on either side of the value (-10 and -5) | not executed | Validator.StepNeighboursAsWrittenMissesNegative | Validator.StepNeighboursBracket |
| packages/form-js-viewer/dist/index.es.js:7464-7472 | the next value is the previous one plus the increment, so a negative increment goes down | value 7, increment -5: the message names 5 and 0, neither above 7 | the two multiples of the increment on either side of the value (5 and 10) | not executed | Validator.StepNeighboursAsWrittenMissesNegativeIncrement | Validator.StepNeighboursNegativeIncrement |
