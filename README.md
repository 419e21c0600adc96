# OrchestraAI state store, state-file merge and storybook generator in Dafny

This project models the core of OrchestraAI, a VS Code extension with a
React builder UI (Sonata). It covers the parts of the code that compute on
data, as opposed to rendering or I/O.

- **The diff engine** (`observableUtils.ts`). `computeDiff` compares two
  state trees key by key. A key gets an entry when its two values differ:
  a `replace` entry holding the new value, or an `object` entry holding a
  nested diff when both sides are objects. `computeArrayDiff` compares two
  arrays position by position and lists the `added`, `removed` and
  `changed` positions.
- **The store** (`EnhancedZenObservable.ts`). The class holds the state
  tree, an undo/redo `HistoryModel`, and two registries of subscriptions:
  value subscriptions and diff subscriptions.
  - `setState` stamps a fresh version, diffs the new state against the
    current one, and returns without any effect when the version is the
    only change. Otherwise it applies the diff in place, records the
    previous state, and asks for the state file to be written.
  - `applyDiff` and `applyArrayDiff` walk the tree and assign into it,
    notifying subscribers as they go.
  - `notifyObservers` notifies the exact subscription of a key and every
    subscription whose key is a string prefix of it.
  - `subscribe` registers every dot-prefix of a key.
  - `getState` walks a dotted key.
  - `undo` and `redo` move states between the two history lists.
- **The state-file merge** (`FileSystemUtils.ts`). `deepMerge` and
  `mergeWithInitialState` lay the saved document over the default state.
- **The storybook generator** (`storybookGenerator.js`, `utils.js`).
  `generateStorybook` walks the element tree in pre-order and makes one
  story per story container. Each story is named `Component<id>` and takes
  its docs from `componentDocs` at the element's path joined by `-`.
  `generateVariations` adds a `Default` variation, plus one per breakpoint
  and one per state that some class names.

JavaScript values are the datatype `JsValue.Value`:

- Structural equality stands in for `===`.
- `Normalize` stands for the `JSON.parse(JSON.stringify(…))` copy.
- Array positions are read through their decimal keys, as `Object.keys`
  and `value[k]` see them.

Paths into the tree are handled by `TreePaths.At`, `TreePaths.Put` and
`TreePaths.Settable`. The store's methods keep the tree in a field and
assign it in place. Each one is proved to leave exactly the tree that a
specification function computes (`Patching.PatchWith`,
`Patching.PatchArray`, `StoreSpec.Settled`), and to send the notices
that `StoreSpec.EntriesHeard` and `StoreSpec.ArrayHeard` name for each
entry (`StoreSpec.SettleHeard` for a whole `setState`, `undo` or `redo`
call). The lemmas in `RoundTrip`, `StoreSpec` and `History` then say what
those functions mean.

The modules, file by file:

- `js_value.dfy` (module `JsValue`): JavaScript values, `typeof`, truthiness, own keys, property reads, the JSON copy
- `strings.dfy` (module `Strings`): `split`, `join`, `startsWith`, decimal numerals
- `observable_utils.dfy` (module `ObservableUtils`): `computeDiff`, `computeArrayDiff`
- `tree_paths.dfy` (module `TreePaths`): reading and assigning along a property path
- `apply_diff.dfy` (module `Patching`): what `applyDiff` and `applyArrayDiff` do to a tree
- `round_trip.dfy` (module `RoundTrip`): applying `computeDiff(a, b)` to `a` gives back `b` up to property reads, wherever `b` puts no object over an array of `a`
- `store_spec.dfy` (module `StoreSpec`): `setState`'s suppression, `getState`, `subscribe`'s keys, `notifyObservers`'s notices
- `history_model.dfy` (module `History`): `HistoryModel`
- `initial_state.dfy` (module `Constants`): `initialState`
- `state_store.dfy` (module `Store`): the class `EnhancedZenObservable`
- `file_system_utils.dfy` (module `FileSystemUtils`): `deepMerge`, `isObject`, `mergeWithInitialState`
- `class_names.dfy` (module `ClassNames`): `generateFullClassName`
- `storybook_generator.dfy` (module `StorybookGenerator`): `generateStorybook`, `getComponentName`, the docs lookup, `generateVariations`

## Model

| member | source | states |
|---|---|---|
| ObservableUtils.ComputeDiff | orchestra-ai/src/utils/observableUtils.ts:16-46 | The loop over the union of both sides' keys builds exactly the diff `Diff(o, n)` |
| ObservableUtils.ComputeEntry | orchestra-ai/src/utils/observableUtils.ts:22-42 | One key's loop body: no entry for equal values or an empty nested diff; `replace` for a primitive, an array, `null` or a change of type; `object` with a non-empty nested diff otherwise |
| ObservableUtils.Classify | orchestra-ai/src/utils/observableUtils.ts:26-38 | A nested `object` entry is only chosen when the new value is an object and the old one an object or an array |
| ObservableUtils.DiffKeysWithin | orchestra-ai/src/utils/observableUtils.ts:18-20 | Every key of the diff is a key of the old or the new value |
| ObservableUtils.DiffReflexive | orchestra-ai/src/utils/observableUtils.ts:16-46 | Diffing a value against itself gives the empty diff |
| ObservableUtils.DiffAt | orchestra-ai/src/utils/observableUtils.ts:18-44 | A key of either side is in the diff exactly when its loop body records an entry, and holds that entry |
| ObservableUtils.DiffEntry | orchestra-ai/src/utils/observableUtils.ts:22-42 | Case by case: equal values give no entry; differing values give `replace` with the new value unless both are objects; an `object` entry holds the nested diff of the two values |
| ObservableUtils.DiffEntryShape | orchestra-ai/src/utils/observableUtils.ts:26-41 | Every entry is `replace` with the new value or `object` with the nested diff |
| ObservableUtils.DiffHasNoArrayDelta | orchestra-ai/src/utils/observableUtils.ts:30-33 | No entry at any depth is an `array` entry: arrays are always replaced whole |
| ObservableUtils.DiffNestsOnlyIntoObjects | orchestra-ai/src/utils/observableUtils.ts:35-38 | An `object` entry only ever stands over an old object or array, at every depth |
| ObservableUtils.ComputeArrayDiff | orchestra-ai/src/utils/observableUtils.ts:48-63 | Fails exactly when some position whose copies differ holds `null` or `undefined` on either side, where `computeDiff` throws a `TypeError`; otherwise the loop builds exactly `ArrayDiffOf(o, n)` |
| ObservableUtils.ComparePosition | orchestra-ai/src/utils/observableUtils.ts:52-59 | One position: added past the old end, removed past the new end, changed when the copies differ; fails exactly when a changed position holds `null` or `undefined` |
| ObservableUtils.NullItemThrows | orchestra-ai/src/utils/observableUtils.ts:57-58 | `computeArrayDiff([null], [{a: 1}])` throws: the changed first position holds `null` |
| ObservableUtils.ArrayDiffAdded | orchestra-ai/src/utils/observableUtils.ts:53-54 | `added` lists, in order, exactly the positions past the old end, each with the new item |
| ObservableUtils.ArrayDiffRemoved | orchestra-ai/src/utils/observableUtils.ts:55-56 | `removed` lists, in ascending order, exactly the positions past the new end; at most one of `added` and `removed` is non-empty |
| ObservableUtils.ArrayDiffChanged | orchestra-ai/src/utils/observableUtils.ts:57-58 | Every `changed` entry is a common position whose copies differ, with their diff |
| ObservableUtils.ArrayDiffChangedSorted | orchestra-ai/src/utils/observableUtils.ts:50-59 | The `changed` entries are in strictly ascending order of position |
| ObservableUtils.ArrayDiffChangedComplete | orchestra-ai/src/utils/observableUtils.ts:57-58 | Every common position whose copies differ has a `changed` entry |
| ObservableUtils.ArrayDiffReflexive | orchestra-ai/src/utils/observableUtils.ts:48-63 | An array compared with itself gives three empty lists |
| TreePaths.PutAtSelf | orchestra-ai/src/observables/EnhancedZenObservable.ts:144 | Assigning a path the value already there changes nothing |
| TreePaths.SetTwice | orchestra-ai/src/observables/EnhancedZenObservable.ts:144 | After `v[k] = a` the property exists and reads back `a`; a second assignment to it overrides the first |
| TreePaths.WriteChild | orchestra-ai/src/observables/EnhancedZenObservable.ts:147-150 | After an object is placed at a path, `currentState[key]` reads its property, and assigning one level deeper is assigning into that object |
| TreePaths.ReplaceChild | orchestra-ai/src/observables/EnhancedZenObservable.ts:147-155 | Once `x[k]` holds `y` at a path, the deeper path leads to `y`, and assigning `z` there is `x[k] = z` |
| TreePaths.PutAt | orchestra-ai/src/observables/EnhancedZenObservable.ts:144 | After an assignment at a settable path, the path still exists and leads to the value assigned |
| Patching.PatchSomeStep | orchestra-ai/src/observables/EnhancedZenObservable.ts:141-157 | On an object, applying one more diff entry assigns that key alone |
| Patching.PatchSomeKeeps | orchestra-ai/src/observables/EnhancedZenObservable.ts:141-157 | Keys without an entry keep their values; the patched object has the old keys and the applied ones |
| Patching.PatchWith | orchestra-ai/src/observables/EnhancedZenObservable.ts:140-158 | Patching keeps an object an object and an array an array of the same length |
| Patching.PatchPositionsAt | orchestra-ai/src/observables/EnhancedZenObservable.ts:144 | On an array, a position named by an applied entry gets that entry's new value and every other position keeps its item |
| Patching.PatchWithNone | orchestra-ai/src/observables/EnhancedZenObservable.ts:141 | Applying no entry leaves an object or an array as it is |
| Patching.PatchWithStep | orchestra-ai/src/observables/EnhancedZenObservable.ts:141-157 | Before its entry is applied a key still reads its old value; applying the entry is the assignment `currentState[key] = …` of its new value on the object or array patched so far |
| Patching.PatchKeepsArrays | orchestra-ai/src/observables/EnhancedZenObservable.ts:141-157 | A diff applied to an array leaves an array of the same length, and positions without an entry keep their items |
| Patching.RemovedTail | orchestra-ai/src/observables/EnhancedZenObservable.ts:161-163 | Removing the trailing positions from the back leaves exactly the leading items |
| Patching.InsertedTail | orchestra-ai/src/observables/EnhancedZenObservable.ts:164-166 | Inserting at the positions just past the end appends the values in order |
| Patching.ChangedBelow | orchestra-ai/src/observables/EnhancedZenObservable.ts:167-169 | Nested changes below a position leave every later item as it was |
| Patching.PatchTail | orchestra-ai/src/observables/EnhancedZenObservable.ts:160-169 | A diff that removes the positions past the new end, adds the new items past the old end and changes only common positions leaves an array of the new length ending in the added items |
| Patching.ArrayPatchShape | orchestra-ai/src/observables/EnhancedZenObservable.ts:160-171 | Applying `computeArrayDiff(o, n)` to `o` gives an array of `n`'s length whose items past `o`'s end are `n`'s |
| Patching.ChangeKeepsArrayItem | orchestra-ai/src/observables/EnhancedZenObservable.ts:167-169 | A `changed` entry setting position `"1"` of the item `[1, 2]` to `3` leaves `[1, 3]`: an array item is patched in place and stays an array |
| Patching.ListOrderRemovalKeepsStaleItem | orchestra-ai/src/observables/EnhancedZenObservable.ts:161-163 | Removing `[2, 3]` in list order from four items keeps the item at position 3; removing from the back leaves the first two |
| RoundTrip.EquivReflexive | orchestra-ai/src/utils/observableUtils.ts:24 | Every value reads like itself |
| RoundTrip.NoEntryEquiv | orchestra-ai/src/utils/observableUtils.ts:22-42 | A key without a diff entry holds values that read alike |
| RoundTrip.EmptyDiffEquiv | orchestra-ai/src/utils/observableUtils.ts:16-46 | Two values with an empty diff read alike |
| RoundTrip.PatchAtEquiv | orchestra-ai/src/observables/EnhancedZenObservable.ts:140-158 | After applying `computeDiff(o, n)` to the object `o`, each key reads like `n`'s, when `n` puts no object over an array of `o` |
| RoundTrip.PatchEquiv | orchestra-ai/src/observables/EnhancedZenObservable.ts:140-158 | Applying `computeDiff(o, n)` to the object `o` gives an object that reads like `n`, when `n` puts no object over an array of `o`: the diff/apply round trip |
| RoundTrip.ObjectOverArrayStaysArray | orchestra-ai/src/observables/EnhancedZenObservable.ts:147-150 | Where `n` puts an object over an array of `o`, the round trip is excluded, and the patched value stays an array of the old length |
| RoundTrip.EquivNoEntry | orchestra-ai/src/utils/observableUtils.ts:22-42 | Conversely, a key whose values read alike gets no entry |
| RoundTrip.EquivEmptyDiff | orchestra-ai/src/utils/observableUtils.ts:16-46 | Values that read alike have an empty diff |
| StoreSpec.Stamp | orchestra-ai/src/observables/EnhancedZenObservable.ts:252 | The stamped state holds the new version and agrees with the new state at every other key |
| StoreSpec.VersionInDiff | orchestra-ai/src/observables/EnhancedZenObservable.ts:252-254 | A fresh version always appears in the diff as a `replace` entry |
| StoreSpec.SuppressedIffVersionOnly | orchestra-ai/src/observables/EnhancedZenObservable.ts:253-257 | `setState` returns early exactly when the stamped state reads like the current one at every key but the version |
| StoreSpec.IdentityUpdateSuppressed | orchestra-ai/src/observables/EnhancedZenObservable.ts:250-257 | Setting the current state again is suppressed |
| StoreSpec.SettledReadsLikeStamped | orchestra-ai/src/observables/EnhancedZenObservable.ts:247-269 | After `setState` the tree reads like the stamped new state when that puts no object over an array of the tree; a suppressed call leaves the old tree, which differs from it only in the version |
| StoreSpec.WalkMeaning | orchestra-ai/src/observables/EnhancedZenObservable.ts:297-310 | `getState`'s walk gives a copy of the value at the end of the path (`undefined` if missing) when no earlier value is `null` or `undefined`, and `null` otherwise |
| StoreSpec.RegisterMeaning | orchestra-ai/src/observables/EnhancedZenObservable.ts:220-225 | Registering adds exactly the keys not yet present, with no callbacks, keeps existing callbacks, appends to the insertion order and keeps the registry well formed |
| StoreSpec.PathKeys | orchestra-ai/src/observables/EnhancedZenObservable.ts:218-225 | One key is registered per part of the path |
| StoreSpec.CurrentKeyIsJoin | orchestra-ai/src/observables/EnhancedZenObservable.ts:219-221 | With a non-empty first part, the current key is the dot-join of the parts so far |
| StoreSpec.PathKeysAreDotPrefixes | orchestra-ai/src/observables/EnhancedZenObservable.ts:218-225 | With a non-empty first part, the `i`-th registered key joins the first `i + 1` parts |
| StoreSpec.SubscribedKeyRegistered | orchestra-ai/src/observables/EnhancedZenObservable.ts:218-227 | With a non-empty first part, the last key registered is the subscribed key, so `observables.get(key)` finds it |
| StoreSpec.LeadingDotNotRegistered | orchestra-ai/src/observables/EnhancedZenObservable.ts:218-227 | For `".a"` the keys registered are `""` and `"a"`: the key itself is not |
| StoreSpec.PartialValuesMeaning | orchestra-ai/src/observables/EnhancedZenObservable.ts:185-189 | The covering value notices are one per value key that is a proper string prefix of the changed key, each with the current value at that key |
| StoreSpec.PartialDiffsMeaning | orchestra-ai/src/observables/EnhancedZenObservable.ts:190-198 | The covering diff notices are one per diff key that is a proper string prefix, each with the rest of the path after the key and a dot |
| StoreSpec.NotifyValuesMeaning | orchestra-ai/src/observables/EnhancedZenObservable.ts:173-189 | A value subscription is notified exactly when its key is the changed key or a string prefix of it: with the value itself at the key, with the current value at its own key otherwise |
| StoreSpec.NotifyDiffsMeaning | orchestra-ai/src/observables/EnhancedZenObservable.ts:179-198 | A diff subscription is notified exactly when its key is the changed key or a string prefix of it: with the diff itself at the key, with a nested notice holding the rest of the path otherwise |
| StoreSpec.NotifyLogHeard | orchestra-ai/src/observables/EnhancedZenObservable.ts:173-199 | The notices of one `notifyObservers` call reach its exact subscriptions with the value and the diff, and every covering subscription |
| StoreSpec.EntriesHeardExtend | orchestra-ai/src/observables/EnhancedZenObservable.ts:141-157 | The entries heard so far and the notices of one more entry make the larger set of entries heard in the grown log |
| StoreSpec.ChangesHeardExtend | orchestra-ai/src/observables/EnhancedZenObservable.ts:167-169 | The changes heard so far and the notices of one more `changed` entry make one more change heard |
| StoreSpec.ArrayHeardExtend | orchestra-ai/src/observables/EnhancedZenObservable.ts:160-171 | The nested changes and the final notice together make the whole array diff heard |
| StoreSpec.ReplacedKeyHeard | orchestra-ai/src/observables/EnhancedZenObservable.ts:143-145 | Once the notices of a diff are heard, a top-level key whose value was replaced had its exact value subscription sent the new value and its diff subscription the `replace` entry |
| History.NothingToReplay | orchestra-ai/src/observables/EnhancedZenObservable.ts:92-108 | Undo with an empty `past` or redo with an empty `future` returns null and changes nothing |
| History.PushThenUndo | orchestra-ai/src/observables/EnhancedZenObservable.ts:87-99 | After a push, undo returns the pushed state and leaves the current one as the only state to redo |
| History.UndoThenRedo | orchestra-ai/src/observables/EnhancedZenObservable.ts:92-108 | Undo followed by redo returns the current state and restores both lists |
| History.RedoThenUndo | orchestra-ai/src/observables/EnhancedZenObservable.ts:92-108 | Redo followed by undo returns the current state and restores both lists |
| History.ReplayKeepsTimeline | orchestra-ai/src/observables/EnhancedZenObservable.ts:92-108 | Undo and redo keep the number of remembered states and the timeline: past, current, future |
| History.HistoryModel.constructor | orchestra-ai/src/observables/EnhancedZenObservable.ts:82-85 | Both lists start empty |
| History.HistoryModel.Push | orchestra-ai/src/observables/EnhancedZenObservable.ts:87-90 | The lists become `Pushed` of the old ones |
| History.HistoryModel.Undo | orchestra-ai/src/observables/EnhancedZenObservable.ts:92-99 | The lists and the result are `Undone` of the old lists |
| History.HistoryModel.Redo | orchestra-ai/src/observables/EnhancedZenObservable.ts:101-108 | The lists and the result are `Redone` of the old lists |
| History.HistoryModel.CanUndo | orchestra-ai/src/observables/EnhancedZenObservable.ts:110-112 | True exactly when `past` is not empty |
| History.HistoryModel.CanRedo | orchestra-ai/src/observables/EnhancedZenObservable.ts:114-116 | True exactly when `future` is not empty |
| History.HistoryModel.Clear | orchestra-ai/src/observables/EnhancedZenObservable.ts:118-121 | Both lists become empty |
| Store.EnhancedZenObservable.constructor | orchestra-ai/src/observables/EnhancedZenObservable.ts:132-138 | The store starts with `initialState`, an empty history and empty registries |
| Store.EnhancedZenObservable.ApplyDiff | orchestra-ai/src/observables/EnhancedZenObservable.ts:140-158 | The object or array at the path becomes `PatchWith` of it and nowhere else changes; every notice of every entry, at every depth, is among the notices appended (`EntriesHeard`) |
| Store.EnhancedZenObservable.ApplyEntry | orchestra-ai/src/observables/EnhancedZenObservable.ts:142-156 | One more entry applied at the path, with its notices heard; for a `replace` entry exactly the notices of `notifyObservers(fullKey, value, entry)` are appended |
| Store.EnhancedZenObservable.ApplyReplaceEntry | orchestra-ai/src/observables/EnhancedZenObservable.ts:143-145 | `currentState[key] = value` at the path, then exactly the notices of `notifyObservers(fullKey, value, entry)` |
| Store.EnhancedZenObservable.ApplyObjectEntry | orchestra-ai/src/observables/EnhancedZenObservable.ts:146-150 | The key's value (anything but an object or an array becomes `{}`) gets the nested diff applied in place, and the nested entries are heard |
| Store.EnhancedZenObservable.ToObject | orchestra-ai/src/observables/EnhancedZenObservable.ts:147-149 | A key whose value is an object or an array keeps it; any other value becomes `{}` |
| Store.EnhancedZenObservable.ApplyArrayEntry | orchestra-ai/src/observables/EnhancedZenObservable.ts:151-155 | The key's value (a non-array becomes `[]`) gets the array diff applied in place, and the array diff is heard |
| Store.EnhancedZenObservable.ApplyArrayDiff | orchestra-ai/src/observables/EnhancedZenObservable.ts:160-171 | The array at the path becomes `PatchArray` of the old items; the nested changes are heard, and the last notices appended are exactly those of `notifyObservers(prefix, newArray, arrayDiff)` |
| Store.EnhancedZenObservable.ApplyChangeAt | orchestra-ai/src/observables/EnhancedZenObservable.ts:167-169 | One more `changed` entry applied to the item at its index, in place; the changes heard grow by that entry |
| Store.EnhancedZenObservable.ApplyChanges | orchestra-ai/src/observables/EnhancedZenObservable.ts:167-169 | The `changed` loop applies every entry in list order and hears each |
| Store.EnhancedZenObservable.PatchItem | orchestra-ai/src/observables/EnhancedZenObservable.ts:168 | The nested diff applied to an object or array item, with its notices heard; any other item is left alone |
| Store.EnhancedZenObservable.SpliceOut | orchestra-ai/src/observables/EnhancedZenObservable.ts:161-163 | The splices leave `Removed(items, indices)` |
| Store.EnhancedZenObservable.SpliceIn | orchestra-ai/src/observables/EnhancedZenObservable.ts:164-166 | The splices leave `Inserted(items, additions)` |
| Store.EnhancedZenObservable.NotifyObservers | orchestra-ai/src/observables/EnhancedZenObservable.ts:173-199 | Exactly the notices of `NotifyLog` are appended, in the source's order |
| Store.EnhancedZenObservable.CoveringValues | orchestra-ai/src/observables/EnhancedZenObservable.ts:185-189 | The loop over the value registry yields `PartialValues` |
| Store.EnhancedZenObservable.CoveringDiffs | orchestra-ai/src/observables/EnhancedZenObservable.ts:190-198 | The loop over the diff registry yields `PartialDiffs` |
| Store.EnhancedZenObservable.Subscribe | orchestra-ai/src/observables/EnhancedZenObservable.ts:209-229 | The chosen registry gains the key's dot-prefixes and the callback on the key's subscription; the other registry is unchanged; `ok` says whether the key was registered |
| Store.EnhancedZenObservable.RegisterPath | orchestra-ai/src/observables/EnhancedZenObservable.ts:218-225 | The loop registers `PathKeys` of the key's parts and keeps the registry well formed |
| Store.EnhancedZenObservable.SetState | orchestra-ai/src/observables/EnhancedZenObservable.ts:247-269 | The tree becomes `Settled`; the history gains the copied previous state only for a recorded, unsuppressed call; persisting is requested once per unsuppressed call; the log only grows, a suppressed call sends nothing, and an unsuppressed one has every entry of its diff heard (`StoreSpec.SettleHeard`) |
| Store.EnhancedZenObservable.Commit | orchestra-ai/src/observables/EnhancedZenObservable.ts:258-266 | The diff applied to the whole tree with its entries heard, the previous state pushed when recording, one persist request |
| Store.EnhancedZenObservable.Undo | orchestra-ai/src/observables/EnhancedZenObservable.ts:271-277 | The history becomes `Undone` of the old one with the copied current state; a returned state is set without recording history: the tree is `Settled`, persisting follows suppression, the log only grows, and the notices are those of that `setState` call (`StoreSpec.SettleHeard`); with nothing to undo, nothing changes |
| Store.EnhancedZenObservable.Redo | orchestra-ai/src/observables/EnhancedZenObservable.ts:279-285 | The history becomes `Redone` of the old one with the copied current state; a returned state is set without recording history: the tree is `Settled`, persisting follows suppression, the log only grows, and the notices are those of that `setState` call (`StoreSpec.SettleHeard`); with nothing to redo, nothing changes |
| Store.EnhancedZenObservable.CanUndo | orchestra-ai/src/observables/EnhancedZenObservable.ts:287-289 | True exactly when the history has a state to undo |
| Store.EnhancedZenObservable.CanRedo | orchestra-ai/src/observables/EnhancedZenObservable.ts:291-293 | True exactly when the history has a state to redo |
| Store.EnhancedZenObservable.GetState | orchestra-ai/src/observables/EnhancedZenObservable.ts:295-311 | The loop gives `Query(state, key)`, whose meaning `StoreSpec.WalkMeaning` states |
| FileSystemUtils.IsObjectMeansPlainObject | orchestra-ai/src/utils/FileSystemUtils.ts:74-76 | `isObject` holds exactly for plain objects: not for `null`, `undefined`, arrays or primitives |
| FileSystemUtils.Merged | orchestra-ai/src/utils/FileSystemUtils.ts:56-72 | The merge always returns an object |
| FileSystemUtils.MergedSomeStep | orchestra-ai/src/utils/FileSystemUtils.ts:59-69 | Writing one more key of the source changes that key alone |
| FileSystemUtils.MergedSomeKeeps | orchestra-ai/src/utils/FileSystemUtils.ts:57-69 | The copy has the target's keys and the written ones; unwritten keys keep the target's values |
| FileSystemUtils.MergedObjects | orchestra-ai/src/utils/FileSystemUtils.ts:57-71 | Between plain objects, the merge is the copy of the target with every source key written |
| FileSystemUtils.MergeWithInitialState | orchestra-ai/src/utils/FileSystemUtils.ts:52-54 | A saved object gives the keys of the initial state and of the document; anything else gives the initial state |
| FileSystemUtils.DeepMerge | orchestra-ai/src/utils/FileSystemUtils.ts:56-72 | The copy-then-assign loop, with its recursion, computes `Merged(target, source)` |
| FileSystemUtils.MergeKeys | orchestra-ai/src/utils/FileSystemUtils.ts:57-69 | The output has exactly the keys of both; target-only keys keep their values; non-object source values overwrite |
| FileSystemUtils.MergeObjectEntries | orchestra-ai/src/utils/FileSystemUtils.ts:60-65 | A source object is copied whole when the target lacks the key, and merged into the target's value otherwise |
| FileSystemUtils.NonObjectGivesCopy | orchestra-ai/src/utils/FileSystemUtils.ts:57-58 | When either side is not a plain object, the output is a shallow copy of the target |
| FileSystemUtils.MergeEmpty | orchestra-ai/src/utils/FileSystemUtils.ts:56-72 | Merging `{}` changes nothing |
| FileSystemUtils.MergeSelf | orchestra-ai/src/utils/FileSystemUtils.ts:56-72 | Merging an object into itself gives it back |
| FileSystemUtils.CarriesSelf | orchestra-ai/src/utils/FileSystemUtils.ts:56-72 | Every object carries its own leaves |
| FileSystemUtils.MergeCarriesSource | orchestra-ai/src/utils/FileSystemUtils.ts:56-72 | When the saved document fits the shape of the target, every leaf of it survives the merge |
| FileSystemUtils.ObjectOverPrimitiveEmptied | orchestra-ai/src/utils/FileSystemUtils.ts:61-65 | `{a: 1}` merged with `{a: {b: 2}}` gives `{a: {}}`: an object over a primitive loses its leaves |
| FileSystemUtils.MergeExample | orchestra-ai/src/utils/FileSystemUtils.ts:56-72 | `{a: {b: 0}, c: {d: []}}` merged with `{a: {b: 5}}` gives `{a: {b: 5}, c: {d: []}}` |
| ClassNames.FullClassName | sonata-ui/src/utils.js:1-5 | An object class's serialisation ends with its name |
| ClassNames.JoinLength | sonata-ui/src/utils.js:3 | Joining adds one separator between each two parts |
| ClassNames.FullClassNameCases | sonata-ui/src/utils.js:1-5 | A string comes back unchanged; an object without prefixes gives its name; with prefixes, the `:`-join of the prefixes and the name |
| ClassNames.FullClassNameLength | sonata-ui/src/utils.js:3-4 | An object class's serialisation has the prefixes, one `:` after each, and the name |
| ClassNames.FullClassNames | sonata-ui/src/modules/storybookGenerator.js:117 | The mapped list has one serialisation per class, position by position |
| StorybookGenerator.ComponentName | sonata-ui/src/modules/storybookGenerator.js:25-27 | The name is `Component` followed by the element's id |
| StorybookGenerator.PathParts | sonata-ui/src/modules/storybookGenerator.js:31 | Each index of the path is written in decimal |
| StorybookGenerator.DocsFor | sonata-ui/src/modules/storybookGenerator.js:31 | The docs stored under the `-`-joined path, or an empty description and no props when none are stored |
| StorybookGenerator.TopLevelDocsKey | sonata-ui/src/modules/storybookGenerator.js:31 | A top-level container's docs key is its index |
| StorybookGenerator.GenerateVariations | sonata-ui/src/modules/storybookGenerator.js:116-150 | The two `forEach` loops build exactly `Variations(classes)` |
| StorybookGenerator.PushVariations | sonata-ui/src/modules/storybookGenerator.js:121-147 | One `forEach` over the breakpoints or the states appends exactly `Extras`: a variation per matching prefix, in order |
| StorybookGenerator.MatchingMeaning | sonata-ui/src/modules/storybookGenerator.js:122-124 | The filtered names are exactly those of object classes whose name starts with the prefix and `:` |
| StorybookGenerator.PlainClassesMatchNothing | sonata-ui/src/modules/storybookGenerator.js:123 | String classes never match a breakpoint or a state |
| StorybookGenerator.ExtrasSound | sonata-ui/src/modules/storybookGenerator.js:121-132 | There is at most one extra variation per prefix, and each belongs to a matching prefix and holds the default classes followed by the matching names |
| StorybookGenerator.ExtrasComplete | sonata-ui/src/modules/storybookGenerator.js:126-131 | Every prefix with a match gets its variation |
| StorybookGenerator.ExtrasMeaning | sonata-ui/src/modules/storybookGenerator.js:121-147 | A variation labelled for a prefix exists exactly when some class matches that prefix |
| StorybookGenerator.VariationsPresence | sonata-ui/src/modules/storybookGenerator.js:120-147 | A breakpoint or state variation is made exactly for the breakpoints and states some object class name starts with |
| StorybookGenerator.ExtrasInOrder | sonata-ui/src/modules/storybookGenerator.js:121-147 | The variations follow the order of the breakpoint and state lists |
| StorybookGenerator.LabelSpelling | sonata-ui/src/modules/storybookGenerator.js:128-143 | A variation name is the prefix with its first character in upper case, followed by `Screen` or `State` |
| StorybookGenerator.LabelExamples | sonata-ui/src/modules/storybookGenerator.js:128-143 | `sm` gives `SmScreen`, `2xl` gives `2xlScreen`, `hover` gives `HoverState` |
| StorybookGenerator.LabelsDistinct | sonata-ui/src/modules/storybookGenerator.js:120-143 | No two breakpoints or states share a label |
| StorybookGenerator.VariationsShape | sonata-ui/src/modules/storybookGenerator.js:116-150 | `Default` with the serialised classes comes first; there are one to ten variations; string-only classes give `Default` alone |
| StorybookGenerator.NoMatchNoExtras | sonata-ui/src/modules/storybookGenerator.js:126-141 | Without matches no extra variation is made |
| StorybookGenerator.PreOrder | sonata-ui/src/modules/storybookGenerator.js:6-18 | The visit starts at the element itself, at its own path |
| StorybookGenerator.StoriesOfAppend | sonata-ui/src/modules/storybookGenerator.js:10-16 | The stories of two runs of nodes are the stories of each, in order |
| StorybookGenerator.ProcessElement | sonata-ui/src/modules/storybookGenerator.js:6-18 | The recursion appends the stories of the element's pre-order |
| StorybookGenerator.ProcessChildren | sonata-ui/src/modules/storybookGenerator.js:15-17 | The children loop appends the stories of the children's pre-orders, each at its index |
| StorybookGenerator.ChildStories | sonata-ui/src/modules/storybookGenerator.js:16 | One more child appends that child's stories |
| StorybookGenerator.OwnStory | sonata-ui/src/modules/storybookGenerator.js:7-14 | An element yields its own story exactly when it is a story container |
| StorybookGenerator.GenerateStorybook | sonata-ui/src/modules/storybookGenerator.js:3-23 | The loop over the containers builds exactly `Storybook(containers, componentDocs)` |
| StorybookGenerator.StoriesOfMeaning | sonata-ui/src/modules/storybookGenerator.js:7-14 | One story per story container of the run, in order, and no others |
| StorybookGenerator.StoryNodes | sonata-ui/src/modules/storybookGenerator.js:7 | A node is kept exactly when it is a container flagged as a story component |
| StorybookGenerator.StorybookMeaning | sonata-ui/src/modules/storybookGenerator.js:3-23 | The storybook holds one story per story container of the tree, in pre-order, named `Component` followed by the id |
| StorybookGenerator.NoStoryNodesNoStories | sonata-ui/src/modules/storybookGenerator.js:7 | Without story containers there are no stories |
| StorybookGenerator.PreOrderBelow | sonata-ui/src/modules/storybookGenerator.js:16 | Every node visited after an element lies below it: its path extends the element's |
| StorybookGenerator.ChildrenBelow | sonata-ui/src/modules/storybookGenerator.js:16 | Every node under the children lies strictly below the element |

## Left out

- Reading and writing the state file (`initializeFromFile`, `persistState`, `readStateFile`, `writeStateFile`, `getOrCreateStateFile`) is I/O. A persist request is a counter, `persistRequests`.
- `generateNewVersion` depends on the clock and randomness. Its result is the parameter `token`, required to differ from the current version.
- StoreSpec.IdentityUpdateSuppressed: `setState`'s updater function is not modelled: the model takes the new state as a value. An updater that mutates and returns the live tree aliases it in the source, so the diff is empty and the call is not suppressed. This lemma states the value-model outcome instead: setting the current state again is suppressed.
- `setState`'s `try`/`catch` and the console messages: the model's preconditions rule out the inputs the source would throw on, such as a non-object new state.
- The order of an object's keys and a `Map`'s iteration order over JavaScript objects are not modelled. `for … in` loops pick keys in any order, and each result is proved whatever the order. The order in which each registry's keys were added is kept.
- Callbacks and the `zen-observable` library: each `notify` call is recorded as a notice in `log`, and the delivery to callbacks is not modelled. Unsubscribing is not modelled.
- Store.EnhancedZenObservable.ApplyArrayDiff: removes from the back (`Patching.Removed`) rather than in list order as written; see Findings.
- Store.EnhancedZenObservable.SpliceOut: removes the positions from the last one down (`Patching.Removed`), where lines 161-163 splice them in list order; see Findings.
- Store.EnhancedZenObservable.ApplyEntry: on an array, a key that names none of its positions is not stored: the source sets a named property on the array, or extends it for an index past the end. The model leaves the array as it is; for a `replace` entry it still sends the notices, and for an `object` or `array` entry it skips the nested entries and their notices. `computeDiff` only makes `object` entries at keys the old value has, so the store never takes that branch.
- Store.EnhancedZenObservable.ApplyReplaceEntry: the same gap as `ApplyEntry`: on an array, a key that names none of its positions is not stored, though its notices are sent.
- RoundTrip.ObjectOverArrayStaysArray: "of the old length" holds for the model, whose arrays ignore keys that name no position. In the source, an object key that is an index past the end extends the array (see `ApplyEntry`).
- Store.EnhancedZenObservable.ToObject: an `object` entry over `null` gives `{}`. The source keeps `null`, because `typeof null` is `object`, and the nested `applyDiff` then throws a `TypeError` on the first assignment. `ObservableUtils.DiffNestsOnlyIntoObjects` shows `computeDiff` never produces that case.
- Store.EnhancedZenObservable.PatchItem: a `changed` entry on a primitive item leaves the item as it is and the loop goes on. In the source, class code runs in strict mode, so a nested `replace` onto a primitive item throws a `TypeError` and abandons the update where it stands (`setState` catches it, without pushing history or persisting). `computeDiff` makes no `array` entries, so `setState` never reaches this. `Patching.ArrayPatchShape` therefore states length and appended items, not a full round trip.
- Store.EnhancedZenObservable.ApplyDiff: the notices are stated as the ones each entry must reach (`StoreSpec.EntriesHeard`), not their order and not that no others are sent; a covering value subscription is stated to get some value, not the tree it reads at that moment. `NotifyObservers`, `ApplyReplaceEntry` and the last notices of `ApplyArrayDiff` are stated exactly.
- Store.EnhancedZenObservable.SetState: the same holds for its notices, which are those of `ApplyDiff` on the whole tree.
- RoundTrip.PatchEquiv: proved only when the new state puts no object where the old one holds an array (`RoundTrip.ObjectsOverObjects`). Over an array, the source assigns the object's keys as named properties of the array, which keeps reading as an array: `{a: [1, 2]}` set to `{a: {x: 1}}` keeps `a` as an array, which serialises as `[null, null]` after its positions are read through `x`. `RoundTrip.ObjectOverArrayStaysArray` states that case.
- RoundTrip.PatchAtEquiv: the same restriction as `PatchEquiv`.
- StoreSpec.SettledReadsLikeStamped: the same restriction as `PatchEquiv`.
- Store.EnhancedZenObservable.Undo: the model compares values structurally, where `===` compares arrays and objects by identity. `undo` and `redo` hand `setState` a JSON copy, so in the source every array in the tree (the initial state has `tools` and `testView.tests`) differs from its copy. The call is then never suppressed, and it sends `replace` notices for every array key. The model suppresses such a call when nothing else changed and sends nothing for equal arrays.
- Store.EnhancedZenObservable.Redo: the same as `Undo`.
- JsValue.Get: reads only own properties and array positions. `length` of an array or a string and inherited properties read as `undefined`, so `getState("tools.length")` gives `undefined` where the source gives the length.
- Store.EnhancedZenObservable.Subscribe: the `typeof key !== 'string'` guard is left out, because keys are strings in the model. When the key was not registered (a leading `.`), the source throws; the model returns `ok == false`.
- Numbers are integers. Floating point, `NaN` and `-0` are not modelled.
- FileSystemUtils.DeepMerge: `key in target` also sees inherited properties. The model uses own keys only. `Object.assign` of a primitive target is modelled as its own enumerable properties.
- `componentDocs` values are assumed to be docs objects. A falsy stored entry (which `||` would replace) is not modelled.
- `generateReactComponent`, the story template text and `exportStorybookConfig` produce source text. The component code built in `generateStoryCode` is never used in the story. Only the story's name, its docs and its variations are modelled.
- `computedValues` and `events` only feed `generateReactComponent` and are left out.
- StorybookGenerator.MatchingMeaning: as written, the filter tests `cls.name.startsWith(prefix + ":")` and not `cls.prefixes`. A class `{prefixes: ["md"], name: "p-4"}` makes no `MdScreen` variation. This is modelled as written.

## Findings

| source | as written | input that shows it | evidently intended | confidence | as-written member | corrected member |
|---|---|---|---|---|---|---|
| orchestra-ai/src/observables/EnhancedZenObservable.ts:161-163 | `removed` (ascending positions) is spliced out in list order, so each splice shifts the positions still to be removed | old `[0,1,2,3]`, new `[0,1]`: `removed` is `[2,3]`; removing 2 leaves `[0,1,3]`, and removing 3 then finds nothing, so `[0,1,3]` remains | remove from the last index first, leaving as many leading items as the new array has | high; not executed | Patching.RemovedInListOrder (with Patching.ListOrderRemovalKeepsStaleItem) | Patching.Removed (with Patching.RemovedTail and Patching.ArrayPatchShape) |
