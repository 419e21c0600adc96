/** What the methods of `EnhancedZenObservable` compute, as functions of
    the store's state: the version stamp and the suppression rule of
    `setState`, the path lookup of `getState`, the notices `notifyObservers`
    sends, and the keys `subscribe` registers. */
module StoreSpec {
  import opened Wrappers
  import opened Strings
  import opened JsValue
  import opened ObservableUtils
  import opened TreePaths
  import opened Patching
  import opened RoundTrip

  // ---------------------------------------------------------------------
  // setState

  /** The key the store stamps a fresh version under. */
  const Version := "stateVersion"

  /** The new state after `newState.stateVersion = token`. */
  function Stamp(n: Value, token: string): (r: Value)
    requires n.Obj?
    ensures r.Obj? && Get(r, Version) == Str(token)
    ensures forall k :: k != Version ==> Get(r, k) == Get(n, k)
  {
    Obj(n.fields[Version := Str(token)])
  }

  /** `Object.keys(diff).length === 1`: the test that makes `setState`
      return without touching anything. */
  predicate Suppressed(s: Value, n: Value, token: string)
    requires s.Obj? && n.Obj?
  {
    |Diff(s, Stamp(n, token)).entries| == 1
  }

  /** The tree `setState` leaves: the old one when the call is suppressed,
      otherwise the old one with the diff against the stamped state
      applied. */
  function Settled(s: Value, n: Value, token: string): (r: Value)
    requires s.Obj? && n.Obj?
    ensures r.Obj?
  {
    if Suppressed(s, n, token) then s else Obj(Patch(s.fields, Diff(s, Stamp(n, token))))
  }

  /** `m` reads like `s` at every key except the version. */
  predicate VersionOnly(s: Value, m: Value)
  {
    forall k :: k in Keys(s) + Keys(m) && k != Version ==> Equiv(Get(s, k), Get(m, k))
  }

  /** A fresh version always shows up in the diff, as a `replace` entry. */
  lemma VersionInDiff(s: Value, n: Value, token: string)
    requires s.Obj? && n.Obj? && Get(s, Version) != Str(token)
    ensures Version in Diff(s, Stamp(n, token)).entries
    ensures Diff(s, Stamp(n, token)).entries[Version] == Replace(Str(token))
  {
    DiffEntry(s, Stamp(n, token), Version);
  }

  /** `setState` is suppressed exactly when the stamped new state reads
      like the current one at every key but the version. */
  lemma SuppressedIffVersionOnly(s: Value, n: Value, token: string)
    requires s.Obj? && n.Obj? && Get(s, Version) != Str(token)
    ensures Suppressed(s, n, token) <==> VersionOnly(s, Stamp(n, token))
  {
    var m := Stamp(n, token);
    var keys := Diff(s, m).entries.Keys;
    VersionInDiff(s, n, token);
    DiffKeysWithin(s, m);
    if Suppressed(s, n, token) {
      assert |keys - {Version}| == 0;
      forall k | k in Keys(s) + Keys(m) && k != Version
        ensures Equiv(Get(s, k), Get(m, k))
      {
        assert k !in keys - {Version};
        NoEntryEquiv(s, m, k);
      }
    }
    if VersionOnly(s, m) {
      forall k | k in keys
        ensures k == Version
      {
        if k != Version {
          EquivNoEntry(s, m, k);
        }
      }
      assert keys == {Version};
    }
  }

  /** In a value model an updater that returns the current state changes
      nothing but the version, so the call is suppressed. */
  lemma IdentityUpdateSuppressed(s: Value, token: string)
    requires s.Obj? && Get(s, Version) != Str(token)
    ensures Suppressed(s, s, token)
  {
    forall k | k in Keys(s) + Keys(Stamp(s, token)) && k != Version
      ensures Equiv(Get(s, k), Get(Stamp(s, token), k))
    {
      EquivReflexive(Get(s, k));
    }
    SuppressedIffVersionOnly(s, s, token);
  }

  /** After `setState(n)` the tree reads like the stamped `n`, as long as
      `n` puts no object where the tree holds an array; when the call was
      suppressed the tree is the old one, which already did so at every key
      but the version. */
  lemma SettledReadsLikeStamped(s: Value, n: Value, token: string)
    requires s.Obj? && n.Obj? && Get(s, Version) != Str(token) && ObjectsOverObjects(s, n)
    ensures !Suppressed(s, n, token) ==> Equiv(Settled(s, n, token), Stamp(n, token))
    ensures Suppressed(s, n, token) ==> Settled(s, n, token) == s && VersionOnly(s, Stamp(n, token))
  {
    SuppressedIffVersionOnly(s, n, token);
    if !Suppressed(s, n, token) {
      var m := Stamp(n, token);
      forall k | k in m.fields
        ensures ObjectsOverObjects(Get(s, k), m.fields[k])
      {
        if k != Version {
          assert k in n.fields && m.fields[k] == n.fields[k];
        }
      }
      PatchEquiv(s, m);
    }
  }

  // ---------------------------------------------------------------------
  // getState

  /** `getState(key)`: the whole tree for the empty key, otherwise the walk
      along the dot-separated parts. */
  function Query(s: Value, key: string): Value
  {
    if key == "" then Normalize(s) else Walk(s, Split(key, '.'))
  }

  /** The lookup loop of `getState`: `null` as soon as the value walked to
      is `null` or `undefined` with parts left, `undefined` for a missing
      last property, otherwise a copy of the value reached. */
  function Walk(v: Value, keys: seq<string>): Value
    decreases keys
  {
    if keys == [] then (if v == Undefined then Undefined else Normalize(v))
    else if v == Undefined || v == Null then Null
    else Walk(Get(v, keys[0]), keys[1..])
  }

  /** The walk in terms of the value at the end of the path: when every
      value before the end is neither `null` nor `undefined`, the result is
      the value at the end (`undefined` if missing); otherwise `null`. */
  lemma {:induction false} WalkMeaning(v: Value, keys: seq<string>)
    ensures (forall i :: 0 <= i < |keys| ==> Coercible(At(v, keys[..i]))) ==>
      Walk(v, keys) == (if At(v, keys) == Undefined then Undefined else Normalize(At(v, keys)))
    ensures (exists i :: 0 <= i < |keys| && !Coercible(At(v, keys[..i]))) ==> Walk(v, keys) == Null
    decreases keys
  {
    if keys != [] {
      assert keys[..0] == [];
      var w := Get(v, keys[0]);
      WalkMeaning(w, keys[1..]);
      forall i | 0 <= i < |keys| - 1
        ensures At(w, keys[1..][..i]) == At(v, keys[..i + 1])
      {
        assert keys[..i + 1][0] == keys[0] && keys[..i + 1][1..] == keys[1..][..i];
      }
      if exists i :: 0 <= i < |keys| && !Coercible(At(v, keys[..i])) {
        var i :| 0 <= i < |keys| && !Coercible(At(v, keys[..i]));
        if i > 0 {
          assert !Coercible(At(w, keys[1..][..i - 1]));
        }
      }
    }
  }

  // ---------------------------------------------------------------------
  // Subscriber registries

  /** A subscriber callback, by identity. */
  type Callback = nat

  /** A `Map` from dotted key to its subscription: `order` is the order in
      which the keys were inserted, `subscribers` each key's callbacks. */
  datatype Registry = Registry(order: seq<string>, subscribers: map<string, seq<Callback>>)

  /** `order` lists each key of `subscribers` exactly once. */
  predicate WellFormed(r: Registry)
  {
    (forall i, j :: 0 <= i < j < |r.order| ==> r.order[i] != r.order[j]) &&
    (forall k :: k in r.subscribers ==> k in r.order) &&
    (forall k :: k in r.order ==> k in r.subscribers)
  }

  /** `observables.set(k, new EnhancedSubscription(...))` unless `k` is
      already there. */
  function AddKey(r: Registry, k: string): Registry
  {
    if k in r.subscribers then r else Registry(r.order + [k], r.subscribers[k := []])
  }

  /** Adding the keys of `keys` in turn. */
  function Register(r: Registry, keys: seq<string>): Registry
  {
    if keys == [] then r else AddKey(Register(r, keys[..|keys| - 1]), keys[|keys| - 1])
  }

  /** `subscription.subscribe(callback)` on the subscription of `k`. */
  function AddCallback(r: Registry, k: string, cb: Callback): Registry
    requires k in r.subscribers
  {
    r.(subscribers := r.subscribers[k := r.subscribers[k] + [cb]])
  }

  /** Registering keys adds exactly those not yet present, with no
      callbacks, keeps every existing key's callbacks, appends the new keys
      to the insertion order, and keeps the registry well formed. */
  lemma {:induction false} RegisterMeaning(r: Registry, keys: seq<string>)
    requires WellFormed(r)
    ensures var r' := Register(r, keys);
      WellFormed(r') &&
      (forall k :: k in r'.subscribers <==> k in r.subscribers || k in keys) &&
      (forall k :: k in r.subscribers ==> r'.subscribers[k] == r.subscribers[k]) &&
      (forall k :: k in r'.subscribers && k !in r.subscribers ==> r'.subscribers[k] == []) &&
      |r.order| <= |r'.order| && r'.order[..|r.order|] == r.order
  {
    if keys != [] {
      RegisterMeaning(r, keys[..|keys| - 1]);
      var p := Register(r, keys[..|keys| - 1]);
      var k := keys[|keys| - 1];
      if k !in p.subscribers {
        assert (p.order + [k])[..|r.order|] == p.order[..|r.order|];
      }
      forall x
        ensures x in keys <==> x in keys[..|keys| - 1] || x == k
      {
        if x in keys {
          var i :| 0 <= i < |keys| && keys[i] == x;
          if i < |keys| - 1 {
            assert keys[..|keys| - 1][i] == x;
          }
        }
      }
    }
  }

  // ---------------------------------------------------------------------
  // subscribe

  /** One step of `currentKey = currentKey ? `${currentKey}.${part}` : part`:
      an empty current key counts as no key yet. */
  function Extend(current: string, part: string): string
  {
    if current == "" then part else current + "." + part
  }

  /** The current key after the first `|parts|` parts. */
  function CurrentKey(parts: seq<string>): string
  {
    if parts == [] then "" else Extend(CurrentKey(parts[..|parts| - 1]), parts[|parts| - 1])
  }

  /** The keys `subscribe` registers, one per part. */
  function PathKeys(parts: seq<string>): (r: seq<string>)
    ensures |r| == |parts|
  {
    if parts == [] then [] else PathKeys(parts[..|parts| - 1]) + [CurrentKey(parts)]
  }

  /** With a non-empty first part, the current key is the dot-join of the
      parts so far. */
  lemma {:induction false} CurrentKeyIsJoin(parts: seq<string>)
    requires parts != [] && parts[0] != ""
    ensures CurrentKey(parts) == Join(parts, '.') && CurrentKey(parts) != ""
  {
    if |parts| > 1 {
      var init := parts[..|parts| - 1];
      CurrentKeyIsJoin(init);
      JoinSnoc(init, parts[|parts| - 1], '.');
      assert init + [parts[|parts| - 1]] == parts;
    }
  }

  /** With a non-empty first part, `subscribe` registers exactly the
      dot-prefixes of the path: the `i`-th key joins the first `i + 1`
      parts. */
  lemma {:induction false} PathKeysAreDotPrefixes(parts: seq<string>)
    requires parts != [] && parts[0] != ""
    ensures forall i :: 0 <= i < |parts| ==> PathKeys(parts)[i] == Join(parts[..i + 1], '.')
  {
    CurrentKeyIsJoin(parts);
    if |parts| > 1 {
      var init := parts[..|parts| - 1];
      PathKeysAreDotPrefixes(init);
      forall i | 0 <= i < |parts| - 1
        ensures PathKeys(parts)[i] == Join(parts[..i + 1], '.')
      {
        assert init[..i + 1] == parts[..i + 1];
      }
    }
    assert parts[..|parts|] == parts;
  }

  /** A key whose first part is non-empty is registered by its own
      `subscribe`: the last key registered is the key itself. */
  lemma SubscribedKeyRegistered(key: string)
    requires Split(key, '.')[0] != ""
    ensures PathKeys(Split(key, '.'))[|Split(key, '.')| - 1] == key
  {
    var parts := Split(key, '.');
    PathKeysAreDotPrefixes(parts);
    assert parts[..|parts|] == parts;
    JoinSplit(key, '.');
  }

  /** The key `".a"` is never registered by its own `subscribe`: the empty
      first part is skipped, so the keys registered are `""` and `"a"`. */
  lemma LeadingDotNotRegistered()
    ensures Split(".a", '.') == ["", "a"]
    ensures PathKeys(Split(".a", '.')) == ["", "a"]
  {
    assert "a"[1..] == "" && "a"[0] == 'a';
    var rest := Split("", '.');
    assert rest == [""];
    assert rest[0] == "" && rest[1..] == [];
    assert ['a'] + "" == "a";
    assert Split("a", '.') == ["a"];
    assert ".a"[1..] == "a";
    assert Split(".a", '.') == ["", "a"];
    assert ["", "a"][..1] == [""];
  }

  // ---------------------------------------------------------------------
  // notifyObservers

  /** What a diff subscriber receives: a diff entry, or the array diff that
      `applyArrayDiff` passes. */
  datatype DiffPayload = NodePayload(node: DiffNode) | ArrayPayload(delta: ArrayDiff)

  /** One `notify` call of a subscription, standing for the delivery to its
      callbacks. */
  datatype Notice =
    | ValueNotice(key: string, value: Value)
    | DiffNotice(key: string, diff: DiffPayload)
    | NestedNotice(key: string, path: string, diff: DiffPayload)

  /** The key registered at `k` is notified for a change at `key`: `key`
      starts with `k` (a string prefix, not necessarily at a dot). */
  predicate Covers(k: string, key: string)
  {
    StartsWith(key, k) && key != k
  }

  /** The value subscriptions among `order` that cover `key`, each sent the
      current value at its own key. */
  function PartialValues(s: Value, order: seq<string>, key: string): seq<Notice>
  {
    if order == [] then []
    else
      var k := order[|order| - 1];
      PartialValues(s, order[..|order| - 1], key) +
      (if Covers(k, key) then [ValueNotice(k, Query(s, k))] else [])
  }

  /** The diff subscriptions among `order` that cover `key`, each sent the
      diff with the rest of the path after its key and the dot. */
  function PartialDiffs(order: seq<string>, key: string, diff: DiffPayload): seq<Notice>
  {
    if order == [] then []
    else
      var k := order[|order| - 1];
      PartialDiffs(order[..|order| - 1], key, diff) +
      (if Covers(k, key) then [NestedNotice(k, key[|k| + 1..], diff)] else [])
  }

  /** `notifyObservers(key, value, diff)` with the tree `s`: the exact
      value subscription, the exact diff subscription, then the covering
      value subscriptions and the covering diff subscriptions, each in
      insertion order. */
  function NotifyLog(s: Value, values: Registry, diffs: Registry, key: string, value: Value, diff: DiffPayload): seq<Notice>
  {
    (if key in values.subscribers then [ValueNotice(key, value)] else []) +
    (if key in diffs.subscribers then [DiffNotice(key, diff)] else []) +
    PartialValues(s, values.order, key) +
    PartialDiffs(diffs.order, key, diff)
  }

  /** The covering value notices are exactly one per covering key of
      `order`, each with the value at that key. */
  lemma {:induction false} PartialValuesMeaning(s: Value, order: seq<string>, key: string)
    ensures forall nt :: nt in PartialValues(s, order, key) ==>
      nt.ValueNotice? && nt.key in order && Covers(nt.key, key) && nt.value == Query(s, nt.key)
    ensures forall k :: k in order && Covers(k, key) ==> ValueNotice(k, Query(s, k)) in PartialValues(s, order, key)
  {
    if order != [] {
      var init := order[..|order| - 1];
      PartialValuesMeaning(s, init, key);
      assert forall k :: k in order ==> k in init || k == order[|order| - 1];
      assert forall k :: k in init ==> k in order;
    }
  }

  /** The covering diff notices are exactly one per covering key of
      `order`, each with the rest of the path. */
  lemma {:induction false} PartialDiffsMeaning(order: seq<string>, key: string, diff: DiffPayload)
    ensures forall nt :: nt in PartialDiffs(order, key, diff) ==>
      nt.NestedNotice? && nt.key in order && Covers(nt.key, key) &&
      nt.path == key[|nt.key| + 1..] && nt.diff == diff
    ensures forall k :: k in order && Covers(k, key) ==> NestedNotice(k, key[|k| + 1..], diff) in PartialDiffs(order, key, diff)
  {
    if order != [] {
      var init := order[..|order| - 1];
      PartialDiffsMeaning(init, key, diff);
      assert forall k :: k in order ==> k in init || k == order[|order| - 1];
      assert forall k :: k in init ==> k in order;
    }
  }

  /** A value subscription is notified exactly when its key is `key` or a
      string prefix of it: with `value` itself at `key`, with the current
      value at its own key otherwise. */
  lemma NotifyValuesMeaning(s: Value, values: Registry, diffs: Registry, key: string, value: Value, diff: DiffPayload)
    requires WellFormed(values)
    ensures forall nt :: nt in NotifyLog(s, values, diffs, key, value, diff) && nt.ValueNotice? ==>
      nt.key in values.subscribers && StartsWith(key, nt.key) &&
      nt.value == (if nt.key == key then value else Query(s, nt.key))
    ensures forall k :: k in values.subscribers && StartsWith(key, k) ==>
      ValueNotice(k, if k == key then value else Query(s, k)) in NotifyLog(s, values, diffs, key, value, diff)
  {
    var exactValue := if key in values.subscribers then [ValueNotice(key, value)] else [];
    var exactDiff := if key in diffs.subscribers then [DiffNotice(key, diff)] else [];
    var pv := PartialValues(s, values.order, key);
    var pd := PartialDiffs(diffs.order, key, diff);
    assert NotifyLog(s, values, diffs, key, value, diff) == exactValue + exactDiff + pv + pd;
    PartialValuesMeaning(s, values.order, key);
    PartialDiffsMeaning(diffs.order, key, diff);
    assert StartsWith(key, key) by {
      assert key[..|key|] == key;
    }
  }

  /** A diff subscription is notified exactly when its key is `key` or a
      string prefix of it: with the diff itself at `key`, with a nested
      notice holding the rest of the path otherwise. */
  lemma NotifyDiffsMeaning(s: Value, values: Registry, diffs: Registry, key: string, value: Value, diff: DiffPayload)
    requires WellFormed(diffs)
    ensures forall nt :: nt in NotifyLog(s, values, diffs, key, value, diff) && !nt.ValueNotice? ==>
      nt.key in diffs.subscribers && StartsWith(key, nt.key) &&
      nt == (if nt.key == key then DiffNotice(key, diff) else NestedNotice(nt.key, key[|nt.key| + 1..], diff))
    ensures forall k :: k in diffs.subscribers && StartsWith(key, k) ==>
      (if k == key then DiffNotice(key, diff) else NestedNotice(k, key[|k| + 1..], diff)) in NotifyLog(s, values, diffs, key, value, diff)
  {
    var exactValue := if key in values.subscribers then [ValueNotice(key, value)] else [];
    var exactDiff := if key in diffs.subscribers then [DiffNotice(key, diff)] else [];
    var pv := PartialValues(s, values.order, key);
    var pd := PartialDiffs(diffs.order, key, diff);
    assert NotifyLog(s, values, diffs, key, value, diff) == exactValue + exactDiff + pv + pd;
    PartialValuesMeaning(s, values.order, key);
    PartialDiffsMeaning(diffs.order, key, diff);
    assert StartsWith(key, key) by {
      assert key[..|key|] == key;
    }
  }

  // ---------------------------------------------------------------------
  // The notices of applyDiff and applyArrayDiff

  /** `prefix ? `${prefix}.${key}` : key`. */
  function FullKey(prefix: string, key: string): string
  {
    if prefix != "" then prefix + "." + key else key
  }

  /** Every subscription that `notifyObservers(key, value, payload)`
      reaches has its notice among `ns`: the exact value and diff
      subscriptions with `value` and `payload`, each covering value
      subscription with some value (the tree read when it was sent), and
      each covering diff subscription with the rest of the path. */
  ghost predicate Heard(ns: seq<Notice>, values: Registry, diffs: Registry, key: string, value: Value, payload: DiffPayload)
  {
    (key in values.subscribers ==> ValueNotice(key, value) in ns) &&
    (key in diffs.subscribers ==> DiffNotice(key, payload) in ns) &&
    (forall k :: k in values.subscribers && Covers(k, key) ==> exists v :: ValueNotice(k, v) in ns) &&
    (forall k :: k in diffs.subscribers && Covers(k, key) ==> NestedNotice(k, key[|k| + 1..], payload) in ns)
  }

  /** The notices of `applyDiff(d, t, prefix)` for the entries of `keys`
      are among `ns`. */
  ghost predicate EntriesHeard(ns: seq<Notice>, values: Registry, diffs: Registry, t: Value, d: ObjectDiff, prefix: string, keys: set<string>)
    requires keys <= d.entries.Keys
    decreases d, 1
  {
    forall k :: k in keys ==> NodeHeard(ns, values, diffs, t, k, d.entries[k], FullKey(prefix, k))
  }

  /** The notices one `setState(n)` call sends from the tree `s`: none when
      the call is suppressed, otherwise those `applyDiff` sends for the diff
      against the stamped state. */
  ghost predicate SettleHeard(ns: seq<Notice>, values: Registry, diffs: Registry, s: Value, n: Value, token: string)
    requires s.Obj? && n.Obj?
  {
    if Suppressed(s, n, token) then ns == []
    else
      var d := Diff(s, Stamp(n, token));
      EntriesHeard(ns, values, diffs, s, d, "", d.entries.Keys)
  }

  /** The notices of one entry of `applyDiff` at key `k` of `t`, whose full
      key is `fk`: a `replace` entry notifies at `fk` with its value; an
      `object` entry those of the nested diff applied to the object or array
      there; an `array` entry those of the array diff applied to the array
      there. An assignment that does not store its value (a key that names
      no position of an array) is taken to leave no nested notices. */
  ghost predicate NodeHeard(ns: seq<Notice>, values: Registry, diffs: Registry, t: Value, k: string, node: DiffNode, fk: string)
    decreases node, 2
  {
    match node
    case Replace(v) => Heard(ns, values, diffs, fk, v, NodePayload(node))
    case ObjectDelta(sub) =>
      CanSet(t, k) ==> EntriesHeard(ns, values, diffs, Target(Get(t, k)), sub, fk, sub.entries.Keys)
    case ArrayDelta(ad) =>
      CanSet(t, k) ==> ArrayHeard(ns, values, diffs, Items(Get(t, k)), ad, fk)
  }

  /** The notices of `applyArrayDiff(ad, items, prefix)`: those of every
      nested change, and the one at `prefix` with the new array and the
      array diff. */
  ghost predicate ArrayHeard(ns: seq<Notice>, values: Registry, diffs: Registry, items: seq<Value>, ad: ArrayDiff, prefix: string)
    decreases ad, 2
  {
    Heard(ns, values, diffs, prefix, Arr(PatchArray(items, ad)), ArrayPayload(ad)) &&
    ChangesHeard(ns, values, diffs, Inserted(Removed(items, ad.removed), ad.added), ad, prefix, |ad.changed|)
  }

  /** The notices of the first `i` `changed` entries, each applied to the
      items the earlier ones left. */
  ghost predicate ChangesHeard(ns: seq<Notice>, values: Registry, diffs: Registry, items: seq<Value>, ad: ArrayDiff, prefix: string, i: nat)
    requires i <= |ad.changed|
    decreases ad, 1, i
  {
    i == 0 ||
    (ChangesHeard(ns, values, diffs, items, ad, prefix, i - 1) &&
     ChangeHeard(ns, values, diffs, Changed(items, ad, i - 1), ad.changed[i - 1], prefix))
  }

  /** The notices of one `changed` entry: those of the nested diff applied
      to the item at its index, when that item is an object or an array. */
  ghost predicate ChangeHeard(ns: seq<Notice>, values: Registry, diffs: Registry, items: seq<Value>, c: Change, prefix: string)
    decreases c, 0
  {
    c.index < |items| && (items[c.index].Obj? || items[c.index].Arr?) ==>
      EntriesHeard(ns, values, diffs, items[c.index], c.diff, prefix + "." + Decimal(c.index), c.diff.entries.Keys)
  }

  /** Every notice of `a` is one of `b`. */
  predicate Within(a: seq<Notice>, b: seq<Notice>)
  {
    forall nt :: nt in a ==> nt in b
  }

  /** The notices `notifyObservers` appends reach every subscription its
      call covers. */
  lemma NotifyLogHeard(s: Value, values: Registry, diffs: Registry, key: string, value: Value, payload: DiffPayload)
    requires WellFormed(values) && WellFormed(diffs)
    ensures Heard(NotifyLog(s, values, diffs, key, value, payload), values, diffs, key, value, payload)
  {
    var ns := NotifyLog(s, values, diffs, key, value, payload);
    NotifyValuesMeaning(s, values, diffs, key, value, payload);
    NotifyDiffsMeaning(s, values, diffs, key, value, payload);
    forall k | k in values.subscribers && Covers(k, key)
      ensures exists v :: ValueNotice(k, v) in ns
    {
      assert ValueNotice(k, Query(s, k)) in ns;
    }
  }

  /** A subscription reached in `a` is reached in any `b` holding `a`'s
      notices. */
  lemma HeardWithin(a: seq<Notice>, b: seq<Notice>, values: Registry, diffs: Registry, key: string, value: Value, payload: DiffPayload)
    requires Within(a, b) && Heard(a, values, diffs, key, value, payload)
    ensures Heard(b, values, diffs, key, value, payload)
  {
    forall k | k in values.subscribers && Covers(k, key)
      ensures exists v :: ValueNotice(k, v) in b
    {
      var v :| ValueNotice(k, v) in a;
    }
  }

  lemma {:induction false} EntriesHeardWithin(a: seq<Notice>, b: seq<Notice>, values: Registry, diffs: Registry,
                                              t: Value, d: ObjectDiff, prefix: string, keys: set<string>)
    requires keys <= d.entries.Keys
    requires Within(a, b) && EntriesHeard(a, values, diffs, t, d, prefix, keys)
    ensures EntriesHeard(b, values, diffs, t, d, prefix, keys)
    decreases d, 1
  {
    forall k | k in keys
      ensures NodeHeard(b, values, diffs, t, k, d.entries[k], FullKey(prefix, k))
    {
      NodeHeardWithin(a, b, values, diffs, t, k, d.entries[k], FullKey(prefix, k));
    }
  }

  lemma {:induction false} NodeHeardWithin(a: seq<Notice>, b: seq<Notice>, values: Registry, diffs: Registry,
                                           t: Value, k: string, node: DiffNode, fk: string)
    requires Within(a, b) && NodeHeard(a, values, diffs, t, k, node, fk)
    ensures NodeHeard(b, values, diffs, t, k, node, fk)
    decreases node, 2
  {
    match node
    case Replace(v) =>
      HeardWithin(a, b, values, diffs, fk, v, NodePayload(node));
    case ObjectDelta(sub) =>
      if CanSet(t, k) {
        EntriesHeardWithin(a, b, values, diffs, Target(Get(t, k)), sub, fk, sub.entries.Keys);
      }
    case ArrayDelta(ad) =>
      if CanSet(t, k) {
        ArrayHeardWithin(a, b, values, diffs, Items(Get(t, k)), ad, fk);
      }
  }

  lemma {:induction false} ArrayHeardWithin(a: seq<Notice>, b: seq<Notice>, values: Registry, diffs: Registry,
                                            items: seq<Value>, ad: ArrayDiff, prefix: string)
    requires Within(a, b) && ArrayHeard(a, values, diffs, items, ad, prefix)
    ensures ArrayHeard(b, values, diffs, items, ad, prefix)
    decreases ad, 2
  {
    HeardWithin(a, b, values, diffs, prefix, Arr(PatchArray(items, ad)), ArrayPayload(ad));
    ChangesHeardWithin(a, b, values, diffs, Inserted(Removed(items, ad.removed), ad.added), ad, prefix, |ad.changed|);
  }

  lemma {:induction false} ChangesHeardWithin(a: seq<Notice>, b: seq<Notice>, values: Registry, diffs: Registry,
                                              items: seq<Value>, ad: ArrayDiff, prefix: string, i: nat)
    requires i <= |ad.changed|
    requires Within(a, b) && ChangesHeard(a, values, diffs, items, ad, prefix, i)
    ensures ChangesHeard(b, values, diffs, items, ad, prefix, i)
    decreases ad, 1, i
  {
    if i > 0 {
      ChangesHeardWithin(a, b, values, diffs, items, ad, prefix, i - 1);
      ChangeHeardWithin(a, b, values, diffs, Changed(items, ad, i - 1), ad.changed[i - 1], prefix);
    }
  }

  lemma {:induction false} ChangeHeardWithin(a: seq<Notice>, b: seq<Notice>, values: Registry, diffs: Registry,
                                             items: seq<Value>, c: Change, prefix: string)
    requires Within(a, b) && ChangeHeard(a, values, diffs, items, c, prefix)
    ensures ChangeHeard(b, values, diffs, items, c, prefix)
    decreases c, 0
  {
    if c.index < |items| && (items[c.index].Obj? || items[c.index].Arr?) {
      EntriesHeardWithin(a, b, values, diffs, items[c.index], c.diff, prefix + "." + Decimal(c.index), c.diff.entries.Keys);
    }
  }

  /** Within a log that only grows, the notices after `start` so far and
      the ones appended since are all among the notices after `start`. */
  lemma SuffixWithin(before: seq<Notice>, after: seq<Notice>, start: nat)
    requires start <= |before| && before <= after
    ensures Within(before[start..], after[start..]) && Within(after[|before|..], after[start..])
  {
    forall nt | nt in before[start..]
      ensures nt in after[start..]
    {
      var j :| 0 <= j < |before| - start && before[start..][j] == nt;
      assert after[start..][j] == nt;
    }
    forall nt | nt in after[|before|..]
      ensures nt in after[start..]
    {
      var j :| 0 <= j < |after| - |before| && after[|before|..][j] == nt;
      assert after[start..][j + |before| - start] == nt;
    }
  }

  /** The entries heard before one more entry of `applyDiff`, and that
      entry's own notices appended since, are heard in the grown log. */
  lemma EntriesHeardExtend(before: seq<Notice>, after: seq<Notice>, start: nat, values: Registry, diffs: Registry,
                           t: Value, d: ObjectDiff, prefix: string, done: set<string>, key: string)
    requires start <= |before| && before <= after
    requires done + {key} <= d.entries.Keys
    requires EntriesHeard(before[start..], values, diffs, t, d, prefix, done)
    requires NodeHeard(after[|before|..], values, diffs, t, key, d.entries[key], FullKey(prefix, key))
    ensures EntriesHeard(after[start..], values, diffs, t, d, prefix, done + {key})
  {
    SuffixWithin(before, after, start);
    EntriesHeardWithin(before[start..], after[start..], values, diffs, t, d, prefix, done);
    NodeHeardWithin(after[|before|..], after[start..], values, diffs, t, key, d.entries[key], FullKey(prefix, key));
  }

  /** The changes heard before one more `changed` entry, and that entry's
      own notices appended since, are heard in the grown log. */
  lemma ChangesHeardExtend(before: seq<Notice>, after: seq<Notice>, start: nat, values: Registry, diffs: Registry,
                           items: seq<Value>, ad: ArrayDiff, prefix: string, i: nat)
    requires start <= |before| && before <= after && i < |ad.changed|
    requires ChangesHeard(before[start..], values, diffs, items, ad, prefix, i)
    requires ChangeHeard(after[|before|..], values, diffs, Changed(items, ad, i), ad.changed[i], prefix)
    ensures ChangesHeard(after[start..], values, diffs, items, ad, prefix, i + 1)
  {
    SuffixWithin(before, after, start);
    ChangesHeardWithin(before[start..], after[start..], values, diffs, items, ad, prefix, i);
    ChangeHeardWithin(after[|before|..], after[start..], values, diffs, Changed(items, ad, i), ad.changed[i], prefix);
  }

  /** The changes heard before the final notice of `applyArrayDiff`, and
      that notice's own subscriptions, make the whole array diff heard. */
  lemma ArrayHeardExtend(before: seq<Notice>, after: seq<Notice>, start: nat, values: Registry, diffs: Registry,
                         items: seq<Value>, ad: ArrayDiff, prefix: string)
    requires start <= |before| && before <= after
    requires ChangesHeard(before[start..], values, diffs, Inserted(Removed(items, ad.removed), ad.added), ad, prefix, |ad.changed|)
    requires Heard(after[|before|..], values, diffs, prefix, Arr(PatchArray(items, ad)), ArrayPayload(ad))
    ensures ArrayHeard(after[start..], values, diffs, items, ad, prefix)
  {
    SuffixWithin(before, after, start);
    ChangesHeardWithin(before[start..], after[start..], values, diffs, Inserted(Removed(items, ad.removed), ad.added), ad, prefix, |ad.changed|);
    HeardWithin(after[|before|..], after[start..], values, diffs, prefix, Arr(PatchArray(items, ad)), ArrayPayload(ad));
  }

  /** When the notices of applying `computeDiff(s, m)` to the tree are
      heard, a key whose value is replaced (it changed and is not an object
      over an object or an array) had its exact value subscription sent the
      new value and its exact diff subscription sent the `replace` entry. */
  lemma ReplacedKeyHeard(ns: seq<Notice>, values: Registry, diffs: Registry, s: Value, m: Value, k: string)
    requires s.Obj? && m.Obj?
    requires EntriesHeard(ns, values, diffs, s, Diff(s, m), "", Diff(s, m).entries.Keys)
    requires k in Keys(s) + Keys(m) && Get(s, k) != Get(m, k)
    requires !(Get(m, k).Obj? && (Get(s, k).Obj? || Get(s, k).Arr?))
    ensures k in values.subscribers ==> ValueNotice(k, Get(m, k)) in ns
    ensures k in diffs.subscribers ==> DiffNotice(k, NodePayload(Replace(Get(m, k)))) in ns
  {
    DiffEntry(s, m, k);
    assert FullKey("", k) == k;
    assert NodeHeard(ns, values, diffs, s, k, Diff(s, m).entries[k], k);
  }
}
