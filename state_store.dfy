/** `EnhancedZenObservable`: the store that owns the canonical state tree.
    It applies diffs to the tree in place, notifies the subscriptions whose
    keys cover a changed key, records undo history and asks for the state to
    be persisted. Subscriptions are registries of callbacks and every
    `notify` is appended to `log`; persisting is counted in
    `persistRequests`. */
module Store {
  import opened Wrappers
  import opened Strings
  import opened JsValue
  import opened ObservableUtils
  import opened TreePaths
  import opened Patching
  import opened StoreSpec
  import opened History
  import opened Constants

  class EnhancedZenObservable {
    var state: Value
    var historyModel: HistoryModel<Value>
    var observables: Registry
    var diffObservables: Registry
    /** Every `notify` call so far, in order. */
    var log: seq<Notice>
    /** How many times `persistState` was called. */
    var persistRequests: nat

    /** The tree is an object, both registries list their keys once, and
        the history holds objects only. */
    ghost predicate Valid()
      reads this, historyModel
    {
      state.Obj? && WellFormed(observables) && WellFormed(diffObservables) &&
      (forall s :: s in historyModel.past ==> s.Obj?) &&
      (forall s :: s in historyModel.future ==> s.Obj?)
    }

    constructor()
      ensures Valid() && fresh(historyModel)
      ensures state == InitialState && historyModel.Snapshot() == Stacks([], [])
      ensures observables == Registry([], map[]) && diffObservables == Registry([], map[])
      ensures log == [] && persistRequests == 0
    {
      state := InitialState;
      historyModel := new HistoryModel();
      observables := Registry([], map[]);
      diffObservables := Registry([], map[]);
      log := [];
      persistRequests := 0;
    }

    // -------------------------------------------------------------------
    // Applying diffs

    /** `applyDiff(d, currentState, prefix)`, where `currentState` is the
        object or array at `path` in the tree: the tree ends up with the
        diff applied at `path` and nowhere else, and every subscription the
        entries reach is notified. */
    method ApplyDiff(d: ObjectDiff, path: seq<string>, prefix: string)
      requires Valid() && Settable(state, path) && (At(state, path).Obj? || At(state, path).Arr?)
      modifies this`state, this`log
      ensures Valid()
      ensures state == Put(old(state), path, PatchWith(old(At(state, path)), d, d.entries.Keys))
      ensures old(log) <= log
      ensures EntriesHeard(log[|old(log)|..], observables, diffObservables, old(At(state, path)), d, prefix, d.entries.Keys)
      decreases d, 2, 0
    {
      ghost var s0 := state;
      ghost var t0 := At(state, path);
      PatchWithNone(t0, d);
      PutAtSelf(state, path);
      var todo := d.entries.Keys;
      ghost var done: set<string> := {};
      while todo != {}
        invariant todo + done == d.entries.Keys && todo !! done
        invariant state == Put(s0, path, PatchWith(t0, d, done))
        invariant Valid() && old(log) <= log
        invariant EntriesHeard(log[|old(log)|..], observables, diffObservables, t0, d, prefix, done)
        decreases todo
      {
        var key :| key in todo;
        var fullKey := if prefix != "" then prefix + "." + key else key;
        ghost var before := log;
        ApplyEntry(d, key, path, fullKey, s0, t0, done);
        EntriesHeardExtend(before, log, |old(log)|, observables, diffObservables, t0, d, prefix, done, key);
        todo := todo - {key};
        done := done + {key};
      }
    }

    /** The body of `applyDiff`'s loop for one key of the object or array
        `t0`: a `replace` entry assigns and notifies at the full key; an
        `object` entry makes the value an object unless it is one (or an
        array) and recurses; an `array` entry makes the value an array and
        applies the array diff. */
    method ApplyEntry(d: ObjectDiff, key: string, path: seq<string>, fullKey: string,
                      ghost s0: Value, ghost t0: Value, ghost done: set<string>)
      requires Valid() && Settable(s0, path) && (t0.Obj? || t0.Arr?)
      requires key in d.entries && key !in done && done <= d.entries.Keys
      requires state == Put(s0, path, PatchWith(t0, d, done))
      modifies this`state, this`log
      ensures Valid() && old(log) <= log
      ensures state == Put(s0, path, PatchWith(t0, d, done + {key}))
      ensures NodeHeard(log[|old(log)|..], observables, diffObservables, t0, key, d.entries[key], fullKey)
      ensures d.entries[key].Replace? ==>
        log == old(log) + NotifyLog(state, observables, diffObservables, fullKey, d.entries[key].value, NodePayload(d.entries[key]))
      decreases d, 1, 0
    {
      ghost var x := PatchWith(t0, d, done);
      PatchWithStep(t0, d, done, key);
      PutAt(s0, path, x);
      var node := d.entries[key];
      match node
      case Replace(v) =>
        ApplyReplaceEntry(key, v, path, fullKey, s0, x);
        NotifyLogHeard(state, observables, diffObservables, fullKey, v, NodePayload(node));
        assert log[|old(log)|..] == NotifyLog(state, observables, diffObservables, fullKey, v, NodePayload(node));
      case ObjectDelta(sub) =>
        if CanSet(At(state, path), key) {
          ApplyObjectEntry(sub, key, path, fullKey, s0, x);
        }
      case ArrayDelta(ad) =>
        if CanSet(At(state, path), key) {
          ApplyArrayEntry(ad, key, path, fullKey, s0, x);
        }
    }

    /** A `replace` entry at `key` of the object or array `x` at `path`:
        `currentState[key] = value`, then one `notifyObservers` at the full
        key with that value and the entry. */
    method ApplyReplaceEntry(key: string, v: Value, path: seq<string>, fullKey: string,
                             ghost s0: Value, ghost x: Value)
      requires Valid() && Settable(s0, path) && (x.Obj? || x.Arr?)
      requires state == Put(s0, path, x)
      modifies this`state, this`log
      ensures Valid()
      ensures state == Put(s0, path, Set(x, key, v))
      ensures log == old(log) + NotifyLog(state, observables, diffObservables, fullKey, v, NodePayload(Replace(v)))
    {
      PutAt(s0, path, x);
      if CanSet(At(state, path), key) {
        WriteChild(s0, path, x, key, v);
        state := Put(state, path + [key], v);
      }
      NotifyObservers(fullKey, v, NodePayload(Replace(v)));
    }

    /** An `object` entry at `key` of the object or array `x` at `path`:
        the value becomes `{}` unless it is an object or an array, and the
        nested diff is applied to it. */
    method ApplyObjectEntry(sub: ObjectDiff, key: string, path: seq<string>, fullKey: string,
                            ghost s0: Value, ghost x: Value)
      requires Valid() && Settable(s0, path) && CanSet(x, key)
      requires state == Put(s0, path, x)
      modifies this`state, this`log
      ensures Valid() && old(log) <= log
      ensures state == Put(s0, path, Set(x, key, PatchWith(Target(Get(x, key)), sub, sub.entries.Keys)))
      ensures EntriesHeard(log[|old(log)|..], observables, diffObservables, Target(Get(x, key)), sub, fullKey, sub.entries.Keys)
      decreases sub, 3, 0
    {
      var current := At(state, path + [key]);
      assert current == Get(x, key) by {
        WriteChild(s0, path, x, key, current);
      }
      ghost var y := Target(current);
      ghost var z := PatchWith(y, sub, sub.entries.Keys);
      ToObject(path, key, s0, x);
      ReplaceChild(s0, path, x, key, y, z);
      ApplyDiff(sub, path + [key], fullKey);
    }

    /** `if (typeof currentState[key] !== 'object') currentState[key] = {}`:
        an object or an array stays as it is, anything else becomes `{}`. */
    method ToObject(path: seq<string>, key: string, ghost s0: Value, ghost x: Value)
      requires Valid() && Settable(s0, path) && CanSet(x, key)
      requires state == Put(s0, path, x)
      modifies this`state
      ensures Valid()
      ensures state == Put(s0, path, Set(x, key, Target(Get(x, key))))
    {
      var current := At(state, path + [key]);
      WriteChild(s0, path, x, key, Target(current));
      if !(current.Obj? || current.Arr?) {
        state := Put(state, path + [key], Obj(map[]));
      } else {
        SetToSelf(x, key);
      }
    }

    /** An `array` entry at `key` of the object or array `x` at `path`: the
        value becomes `[]` unless it is an array, and the array diff is
        applied to it. */
    method ApplyArrayEntry(ad: ArrayDiff, key: string, path: seq<string>, fullKey: string,
                           ghost s0: Value, ghost x: Value)
      requires Valid() && Settable(s0, path) && CanSet(x, key)
      requires state == Put(s0, path, x)
      modifies this`state, this`log
      ensures Valid() && old(log) <= log
      ensures state == Put(s0, path, Set(x, key, Arr(PatchArray(Items(Get(x, key)), ad))))
      ensures ArrayHeard(log[|old(log)|..], observables, diffObservables, Items(Get(x, key)), ad, fullKey)
      decreases ad, 3, 0
    {
      var current := At(state, path + [key]);
      assert current == Get(x, key) by {
        WriteChild(s0, path, x, key, current);
      }
      if !current.Arr? {
        WriteChild(s0, path, x, key, Arr([]));
        state := Put(state, path + [key], Arr([]));
      } else {
        SetToSelf(x, key);
      }
      ReplaceChild(s0, path, x, key, Arr(Items(current)), Arr(PatchArray(Items(current), ad)));
      ApplyArrayDiff(ad, path + [key], fullKey);
    }

    /** `applyArrayDiff(ad, currentArray, prefix)`, where `currentArray` is
        the array at `path`: removals (from the back), insertions, the nested
        changes of the listed positions, then one `notifyObservers` at
        `prefix` with the new array and the array diff. */
    method ApplyArrayDiff(ad: ArrayDiff, path: seq<string>, prefix: string)
      requires Valid() && Settable(state, path) && At(state, path).Arr?
      modifies this`state, this`log
      ensures Valid()
      ensures state == Put(old(state), path, Arr(PatchArray(old(At(state, path)).items, ad)))
      ensures old(log) <= log
      ensures ArrayHeard(log[|old(log)|..], observables, diffObservables, old(At(state, path)).items, ad, prefix)
      ensures var last := NotifyLog(state, observables, diffObservables, prefix, Arr(PatchArray(old(At(state, path)).items, ad)), ArrayPayload(ad));
        |old(log)| + |last| <= |log| && log[|log| - |last|..] == last
      decreases ad, 2, 0
    {
      ghost var old0 := At(state, path).items;
      var items := At(state, path).items;
      items := SpliceOut(items, ad.removed);
      items := SpliceIn(items, ad.added);
      ghost var s0 := state;
      state := Put(state, path, Arr(items));
      ApplyChanges(ad, path, prefix, s0, items);
      PutAt(s0, path, Arr(PatchArray(old0, ad)));
      var current := At(state, path);
      ghost var before := log;
      NotifyObservers(prefix, current, ArrayPayload(ad));
      NotifyLogHeard(state, observables, diffObservables, prefix, current, ArrayPayload(ad));
      assert log[|before|..] == NotifyLog(state, observables, diffObservables, prefix, current, ArrayPayload(ad));
      ArrayHeardExtend(before, log, |old(log)|, observables, diffObservables, old0, ad, prefix);
    }

    /** The `changed` loop of `applyArrayDiff` on the array `items` at
        `path`: each nested change in list order, with its notices. */
    method ApplyChanges(ad: ArrayDiff, path: seq<string>, prefix: string, ghost s0: Value, ghost items: seq<Value>)
      requires Valid() && Settable(s0, path) && s0.Obj? && path != []
      requires state == Put(s0, path, Arr(items))
      modifies this`state, this`log
      ensures Valid() && old(log) <= log
      ensures state == Put(s0, path, Arr(Changed(items, ad, |ad.changed|)))
      ensures ChangesHeard(log[|old(log)|..], observables, diffObservables, items, ad, prefix, |ad.changed|)
      decreases ad, 1, 0
    {
      var i := 0;
      while i < |ad.changed|
        invariant 0 <= i <= |ad.changed|
        invariant state == Put(s0, path, Arr(Changed(items, ad, i)))
        invariant Valid() && old(log) <= log
        invariant ChangesHeard(log[|old(log)|..], observables, diffObservables, items, ad, prefix, i)
      {
        ApplyChangeAt(ad, i, path, prefix, s0, items, |old(log)|);
        i := i + 1;
      }
    }

    /** One `changed` entry of `applyArrayDiff`: the nested diff is applied
        in place to the item at its position when that item is an object or
        an array. */
    method ApplyChangeAt(ad: ArrayDiff, i: nat, path: seq<string>, prefix: string,
                         ghost s0: Value, ghost items: seq<Value>, ghost start: nat)
      requires Valid() && Settable(s0, path) && s0.Obj? && path != []
      requires i < |ad.changed| && start <= |log|
      requires state == Put(s0, path, Arr(Changed(items, ad, i)))
      requires ChangesHeard(log[start..], observables, diffObservables, items, ad, prefix, i)
      modifies this`state, this`log
      ensures Valid() && old(log) <= log
      ensures state == Put(s0, path, Arr(Changed(items, ad, i + 1)))
      ensures ChangeHeard(log[|old(log)|..], observables, diffObservables, Changed(items, ad, i), ad.changed[i], prefix)
      ensures ChangesHeard(log[start..], observables, diffObservables, items, ad, prefix, i + 1)
      decreases ad, 0, 1
    {
      ghost var before := log;
      PatchItem(ad, i, path, prefix, s0, items);
      ChangesHeardExtend(before, log, start, observables, diffObservables, items, ad, prefix, i);
    }

    /** The nested diff of the `changed` entry `i` applied to the item at
        its position, when that item is an object or an array. */
    method PatchItem(ad: ArrayDiff, i: nat, path: seq<string>, prefix: string,
                     ghost s0: Value, ghost items: seq<Value>)
      requires Valid() && Settable(s0, path) && s0.Obj? && path != []
      requires i < |ad.changed|
      requires state == Put(s0, path, Arr(Changed(items, ad, i)))
      modifies this`state, this`log
      ensures Valid() && old(log) <= log
      ensures state == Put(s0, path, Arr(Changed(items, ad, i + 1)))
      ensures ChangeHeard(log[|old(log)|..], observables, diffObservables, Changed(items, ad, i), ad.changed[i], prefix)
      decreases ad, 0, 0
    {
      var c := ad.changed[i];
      ghost var x := Arr(Changed(items, ad, i));
      PutAt(s0, path, x);
      var arr := At(state, path).items;
      if c.index < |arr| && (arr[c.index].Obj? || arr[c.index].Arr?) {
        var k := Decimal(c.index);
        IndexOfDecimal(c.index, |arr|);
        var item := arr[c.index];
        assert item == Get(x, k);
        ghost var y := PatchWith(item, c.diff, c.diff.entries.Keys);
        WriteChild(s0, path, x, k, y);
        ApplyDiff(c.diff, path + [k], prefix + "." + k);
        assert Set(x, k, y).items == Changed(items, ad, i + 1);
      }
    }

    /** The removals of `applyArrayDiff`, last listed index first. */
    static method SpliceOut(items: seq<Value>, indices: seq<nat>) returns (r: seq<Value>)
      ensures r == Removed(items, indices)
    {
      r := items;
      var i := |indices|;
      assert indices[..i] == indices;
      while i > 0
        invariant 0 <= i <= |indices|
        invariant Removed(r, indices[..i]) == Removed(items, indices)
      {
        assert indices[..i][..i - 1] == indices[..i - 1];
        r := RemoveAt(r, indices[i - 1]);
        i := i - 1;
      }
    }

    /** The insertions of `applyArrayDiff`, in list order. */
    static method SpliceIn(items: seq<Value>, additions: seq<Addition>) returns (r: seq<Value>)
      ensures r == Inserted(items, additions)
    {
      r := items;
      for i := 0 to |additions|
        invariant Inserted(r, additions[i..]) == Inserted(items, additions)
      {
        assert additions[i..][1..] == additions[i + 1..];
        r := Insert(r, additions[i].index, additions[i].value);
      }
    }

    // -------------------------------------------------------------------
    // Notification and subscription

    /** `notifyObservers(key, value, diff)`: appends the notices
        `NotifyLog` lists for the current tree and registries. */
    method NotifyObservers(key: string, value: Value, diff: DiffPayload)
      modifies this`log
      ensures log == old(log) + NotifyLog(state, observables, diffObservables, key, value, diff)
    {
      var exactValue: seq<Notice> := if key in observables.subscribers then [ValueNotice(key, value)] else [];
      var exactDiff: seq<Notice> := if key in diffObservables.subscribers then [DiffNotice(key, diff)] else [];
      var values := CoveringValues(key);
      var diffs := CoveringDiffs(key, diff);
      log := log + (exactValue + exactDiff + values + diffs);
    }

    /** The first loop of `notifyObservers`: each value subscription whose
        key covers `key`, in insertion order, is sent the current value at
        its own key. */
    method CoveringValues(key: string) returns (notices: seq<Notice>)
      ensures notices == PartialValues(state, observables.order, key)
    {
      notices := [];
      var order := observables.order;
      for i := 0 to |order|
        invariant notices == PartialValues(state, order[..i], key)
      {
        assert order[..i + 1][..i] == order[..i];
        var k := order[i];
        if Covers(k, key) {
          var current := GetState(k);
          notices := notices + [ValueNotice(k, current)];
        }
      }
      assert order[..|order|] == order;
    }

    /** The second loop of `notifyObservers`: each diff subscription whose
        key covers `key`, in insertion order, is sent the diff with the rest
        of the path. */
    method CoveringDiffs(key: string, diff: DiffPayload) returns (notices: seq<Notice>)
      ensures notices == PartialDiffs(diffObservables.order, key, diff)
    {
      notices := [];
      var order := diffObservables.order;
      for i := 0 to |order|
        invariant notices == PartialDiffs(order[..i], key, diff)
      {
        assert order[..i + 1][..i] == order[..i];
        var k := order[i];
        if Covers(k, key) {
          notices := notices + [NestedNotice(k, key[|k| + 1..], diff)];
        }
      }
      assert order[..|order|] == order;
    }

    /** `subscribe(key, callback, useDiff)`: registers every key the loop
        over the dot-separated parts builds in the chosen registry, then
        adds the callback to the subscription of `key`. When `key` itself
        was not registered (a key starting with `.`), the source throws
        after registering the others; `ok` is then false. */
    method Subscribe(key: string, callback: Callback, useDiff: bool) returns (ok: bool)
      requires Valid()
      modifies this`observables, this`diffObservables
      ensures Valid()
      ensures var chosen := Register(if useDiff then old(diffObservables) else old(observables), PathKeys(Split(key, '.')));
        ok == (key in chosen.subscribers) &&
        (if useDiff then observables == old(observables) && diffObservables == (if ok then AddCallback(chosen, key, callback) else chosen)
         else diffObservables == old(diffObservables) && observables == (if ok then AddCallback(chosen, key, callback) else chosen))
    {
      var registry := if useDiff then diffObservables else observables;
      registry := RegisterPath(registry, key);
      ok := key in registry.subscribers;
      if ok {
        registry := AddCallback(registry, key, callback);
      }
      if useDiff {
        diffObservables := registry;
      } else {
        observables := registry;
      }
    }

    /** The loop of `subscribe`: every key built from the dot-separated
        parts of `key` (`a`, `a.b`, `a.b.c`, ...) gets a subscription unless
        it has one; the registry stays well formed. */
    static method RegisterPath(start: Registry, key: string) returns (registry: Registry)
      requires WellFormed(start)
      ensures registry == Register(start, PathKeys(Split(key, '.')))
      ensures WellFormed(registry)
    {
      registry := start;
      var parts := Split(key, '.');
      var currentKey := "";
      for i := 0 to |parts|
        invariant currentKey == CurrentKey(parts[..i])
        invariant registry == Register(start, PathKeys(parts[..i]))
      {
        assert parts[..i + 1][..i] == parts[..i];
        currentKey := if currentKey != "" then currentKey + "." + parts[i] else parts[i];
        if currentKey !in registry.subscribers {
          registry := Registry(registry.order + [currentKey], registry.subscribers[currentKey := []]);
        }
      }
      assert parts[..|parts|] == parts;
      RegisterMeaning(start, PathKeys(parts));
    }

    // -------------------------------------------------------------------
    // setState, undo, redo

    /** `setState(newState, recordHistory)` with the fresh version `token`:
        a call whose diff holds the version alone changes nothing; otherwise
        the diff is applied (notifying every subscription its entries
        reach), the copied previous state is pushed when `recordHistory`
        holds, and persisting is requested. */
    method SetState(newState: Value, recordHistory: bool, token: string)
      requires Valid() && newState.Obj? && Get(state, Version) != Str(token)
      modifies this`state, this`log, this`persistRequests, historyModel
      ensures Valid()
      ensures state == Settled(old(state), newState, token)
      ensures historyModel.Snapshot() ==
        if Suppressed(old(state), newState, token) || !recordHistory then old(historyModel.Snapshot())
        else Pushed(old(historyModel.Snapshot()), Normalize(old(state)))
      ensures persistRequests == old(persistRequests) + if Suppressed(old(state), newState, token) then 0 else 1
      ensures Suppressed(old(state), newState, token) ==> log == old(log)
      ensures old(log) <= log
      ensures !Suppressed(old(state), newState, token) ==>
        var d := Diff(old(state), Stamp(newState, token));
        EntriesHeard(log[|old(log)|..], observables, diffObservables, old(state), d, "", d.entries.Keys)
      ensures SettleHeard(log[|old(log)|..], observables, diffObservables, old(state), newState, token)
    {
      var prevState := Normalize(state);
      var stamped := Obj(newState.fields[Version := Str(token)]);
      assert stamped == Stamp(newState, token);
      var diff := ComputeDiff(state, stamped);
      if |diff.entries| == 1 {
        return;
      }
      Commit(diff, prevState, recordHistory);
    }

    /** The rest of `setState` once the diff holds more than the version:
        the diff is applied to the whole tree, the copied previous state is
        pushed when `recordHistory` holds, and persisting is requested. */
    method Commit(diff: ObjectDiff, prevState: Value, recordHistory: bool)
      requires Valid() && prevState.Obj?
      modifies this`state, this`log, this`persistRequests, historyModel
      ensures Valid()
      ensures state == Obj(Patch(old(state).fields, diff))
      ensures historyModel.Snapshot() ==
        if recordHistory then Pushed(old(historyModel.Snapshot()), prevState) else old(historyModel.Snapshot())
      ensures persistRequests == old(persistRequests) + 1
      ensures old(log) <= log
      ensures EntriesHeard(log[|old(log)|..], observables, diffObservables, old(state), diff, "", diff.entries.Keys)
    {
      ApplyDiff(diff, [], "");
      if recordHistory {
        historyModel.Push(prevState);
      }
      persistRequests := persistRequests + 1;
    }

    /** `undo()`: the copied current state goes to the front of the redo
        list; the state popped from the undo list, if any, is set without
        recording history. */
    method Undo(token: string)
      requires Valid() && Get(state, Version) != Str(token)
      modifies this`state, this`log, this`persistRequests, historyModel
      ensures Valid()
      ensures var (h, p) := Undone(old(historyModel.Snapshot()), Normalize(old(state)));
        historyModel.Snapshot() == h &&
        (p.None? ==> state == old(state) && persistRequests == old(persistRequests) && log == old(log)) &&
        (p.Some? ==> p.value.Obj? && state == Settled(old(state), p.value, token) &&
                     persistRequests == old(persistRequests) + if Suppressed(old(state), p.value, token) then 0 else 1)
      ensures old(log) <= log
      ensures var (_, p) := Undone(old(historyModel.Snapshot()), Normalize(old(state)));
        p.Some? ==> SettleHeard(log[|old(log)|..], observables, diffObservables, old(state), p.value, token)
    {
      ghost var h0 := historyModel.Snapshot();
      var current := Normalize(state);
      var previous := historyModel.Undo(current);
      assert Undone(h0, current).1 == previous;
      if previous.Some? && Truthy(previous.value) {
        SetState(previous.value, false, token);
      }
    }

    /** `redo()`: the copied current state is pushed on the undo list; the
        state shifted off the redo list, if any, is set without recording
        history. */
    method Redo(token: string)
      requires Valid() && Get(state, Version) != Str(token)
      modifies this`state, this`log, this`persistRequests, historyModel
      ensures Valid()
      ensures var (h, p) := Redone(old(historyModel.Snapshot()), Normalize(old(state)));
        historyModel.Snapshot() == h &&
        (p.None? ==> state == old(state) && persistRequests == old(persistRequests) && log == old(log)) &&
        (p.Some? ==> p.value.Obj? && state == Settled(old(state), p.value, token) &&
                     persistRequests == old(persistRequests) + if Suppressed(old(state), p.value, token) then 0 else 1)
      ensures old(log) <= log
      ensures var (_, p) := Redone(old(historyModel.Snapshot()), Normalize(old(state)));
        p.Some? ==> SettleHeard(log[|old(log)|..], observables, diffObservables, old(state), p.value, token)
    {
      ghost var h0 := historyModel.Snapshot();
      var current := Normalize(state);
      var next := historyModel.Redo(current);
      assert Redone(h0, current).1 == next;
      if next.Some? && Truthy(next.value) {
        SetState(next.value, false, token);
      }
    }

    /** `canUndo()`. */
    method CanUndo() returns (b: bool)
      ensures b <==> historyModel.past != []
    {
      b := historyModel.CanUndo();
    }

    /** `canRedo()`. */
    method CanRedo() returns (b: bool)
      ensures b <==> historyModel.future != []
    {
      b := historyModel.CanRedo();
    }

    /** `getState(key)`: the copied tree for the empty key; otherwise the
        walk along the parts, `null` as soon as a value before the last part
        is `null` or `undefined`, and a copy of the value reached (or
        `undefined`). */
    method GetState(key: string) returns (r: Value)
      ensures r == Query(state, key)
    {
      if key == "" {
        return Normalize(state);
      }
      var keys := Split(key, '.');
      var value := state;
      var i := 0;
      while i < |keys|
        invariant 0 <= i <= |keys|
        invariant Walk(value, keys[i..]) == Walk(state, keys)
      {
        if value == Undefined || value == Null {
          return Null;
        }
        assert keys[i..][1..] == keys[i + 1..];
        value := Get(value, keys[i]);
        i := i + 1;
      }
      r := if value != Undefined then Normalize(value) else Undefined;
    }
  }
}
