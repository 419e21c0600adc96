/** What `applyDiff` and `applyArrayDiff` do to the state tree, as functions
    of the old tree and the diff: the store's methods are proved to leave
    exactly these values behind. */
module Patching {
  import opened Wrappers
  import opened Strings
  import opened JsValue
  import opened ObservableUtils
  import opened TreePaths

  /** The fields of an object after `applyDiff(d, obj)`. */
  function Patch(base: map<string, Value>, d: ObjectDiff): map<string, Value>
    decreases d, 3, 0
  {
    PatchSome(base, d, d.entries.Keys)
  }

  /** The object or array `t` once the entries of `keys` are applied to it:
      an object gets each of those keys assigned; an array keeps its length
      and gets assigned the positions those keys name. */
  function PatchWith(t: Value, d: ObjectDiff, keys: set<string>): (r: Value)
    requires keys <= d.entries.Keys
    ensures r.Obj? == t.Obj? && r.Arr? == t.Arr?
    ensures t.Arr? ==> |r.items| == |t.items|
    decreases d, 3, 0
  {
    match t
    case Obj(f) => Obj(PatchSome(f, d, keys))
    case Arr(items) => Arr(PatchPositions(items, d, keys))
    case _ => t
  }

  /** The fields of the object once the entries of `keys` are applied. */
  function PatchSome(base: map<string, Value>, d: ObjectDiff, keys: set<string>): map<string, Value>
    requires keys <= d.entries.Keys
    decreases d, 2, 0
  {
    map k | k in base.Keys + keys :: if k in keys then PatchNode(Get(Obj(base), k), d.entries[k]) else base[k]
  }

  /** The items of the array once the entries of `keys` are applied: the
      item at a position whose name is among `keys` gets that entry. */
  function PatchPositions(items: seq<Value>, d: ObjectDiff, keys: set<string>): (r: seq<Value>)
    requires keys <= d.entries.Keys
    ensures |r| == |items|
    decreases d, 2, |items|
  {
    if items == [] then []
    else
      var j := |items| - 1;
      PatchPositions(items[..j], d, keys) +
      [if Decimal(j) in keys then PatchNode(items[j], d.entries[Decimal(j)]) else items[j]]
  }

  /** `currentState[key]` once an `object` entry has checked its `typeof`:
      an object or an array is kept, anything else is replaced by `{}`. */
  function Target(cur: Value): (r: Value)
    ensures r.Obj? || r.Arr?
    ensures cur.Obj? || cur.Arr? ==> r == cur
  {
    if cur.Obj? || cur.Arr? then cur else Obj(map[])
  }

  /** The new value of a key whose old value is `cur`, for one entry: a
      `replace` entry's value; for an `object` entry, the old object or
      array (anything else replaced by `{}`) with the nested diff applied;
      for an `array` entry, the old array (anything else replaced by `[]`)
      with the array diff applied. */
  function PatchNode(cur: Value, node: DiffNode): Value
    decreases node, 1, 0
  {
    match node
    case Replace(v) => v
    case ObjectDelta(sub) => PatchWith(Target(cur), sub, sub.entries.Keys)
    case ArrayDelta(ad) => Arr(PatchArray(Items(cur), ad))
  }

  /** Applying one more entry assigns that key alone. */
  lemma PatchSomeStep(base: map<string, Value>, d: ObjectDiff, keys: set<string>, key: string)
    requires keys + {key} <= d.entries.Keys
    ensures PatchSome(base, d, keys + {key}) == PatchSome(base, d, keys)[key := PatchNode(Get(Obj(base), key), d.entries[key])]
  {
  }

  /** The patched object has the old keys and the applied ones, and the
      keys not applied keep their values. */
  lemma PatchSomeKeeps(base: map<string, Value>, d: ObjectDiff, keys: set<string>)
    requires keys <= d.entries.Keys
    ensures PatchSome(base, d, keys).Keys == base.Keys + keys
    ensures forall k :: k in base && k !in keys ==> PatchSome(base, d, keys)[k] == base[k]
  {
  }

  /** Position `j` of the patched array holds the entry's new value when
      its name is applied, and the old item otherwise. */
  lemma {:induction false} PatchPositionsAt(items: seq<Value>, d: ObjectDiff, keys: set<string>, j: nat)
    requires keys <= d.entries.Keys && j < |items|
    ensures PatchPositions(items, d, keys)[j] ==
      if Decimal(j) in keys then PatchNode(items[j], d.entries[Decimal(j)]) else items[j]
    decreases |items|
  {
    if j < |items| - 1 {
      PatchPositionsAt(items[..|items| - 1], d, keys, j);
    }
  }

  /** Applying no entry leaves an object or an array as it is. */
  lemma PatchWithNone(t: Value, d: ObjectDiff)
    requires t.Obj? || t.Arr?
    ensures PatchWith(t, d, {}) == t
  {
    if t.Arr? {
      forall j | 0 <= j < |t.items|
        ensures PatchPositions(t.items, d, {})[j] == t.items[j]
      {
        PatchPositionsAt(t.items, d, {}, j);
      }
    }
  }

  /** Before its entry is applied a key still reads its old value, and
      applying the entry assigns the key its new value: `currentState[key]
      = …` on the object or array patched so far. */
  lemma PatchWithStep(t: Value, d: ObjectDiff, keys: set<string>, key: string)
    requires t.Obj? || t.Arr?
    requires keys + {key} <= d.entries.Keys && key !in keys
    ensures Get(PatchWith(t, d, keys), key) == Get(t, key)
    ensures PatchWith(t, d, keys + {key}) ==
      Set(PatchWith(t, d, keys), key, PatchNode(Get(t, key), d.entries[key]))
  {
    if t.Obj? {
      PatchSomeStep(t.fields, d, keys, key);
      PatchSomeKeeps(t.fields, d, keys);
    } else {
      var items := t.items;
      var p := PatchPositions(items, d, keys);
      var q := PatchPositions(items, d, keys + {key});
      var i := IndexOf(key, |items|);
      if i.Some? {
        PatchPositionsAt(items, d, keys, i.value);
        forall j | 0 <= j < |items|
          ensures q[j] == p[i.value := PatchNode(items[i.value], d.entries[key])][j]
        {
          PatchPositionsAt(items, d, keys, j);
          PatchPositionsAt(items, d, keys + {key}, j);
          if Decimal(j) == key {
            DecimalInjective(j, i.value);
          }
        }
      } else {
        forall j | 0 <= j < |items|
          ensures q[j] == p[j]
        {
          PatchPositionsAt(items, d, keys, j);
          PatchPositionsAt(items, d, keys + {key}, j);
          if Decimal(j) == key {
            IndexOfDecimal(j, |items|);
          }
        }
      }
    }
  }

  /** An object diff applied to an array leaves an array of the same
      length: a position named by no entry keeps its item, and no entry for
      a key that is not a position has any effect. */
  lemma PatchKeepsArrays(items: seq<Value>, d: ObjectDiff)
    ensures PatchWith(Arr(items), d, d.entries.Keys).Arr?
    ensures |PatchWith(Arr(items), d, d.entries.Keys).items| == |items|
    ensures forall j :: 0 <= j < |items| && Decimal(j) !in d.entries ==>
      PatchWith(Arr(items), d, d.entries.Keys).items[j] == items[j]
  {
    forall j | 0 <= j < |items| && Decimal(j) !in d.entries
      ensures PatchPositions(items, d, d.entries.Keys)[j] == items[j]
    {
      PatchPositionsAt(items, d, d.entries.Keys, j);
    }
  }

  // ---------------------------------------------------------------------
  // applyArrayDiff

  /** `items.splice(i, 1)`: nothing happens past the end. */
  function RemoveAt(items: seq<Value>, i: nat): (r: seq<Value>)
    ensures |r| == if i < |items| then |items| - 1 else |items|
  {
    if i < |items| then items[..i] + items[i + 1..] else items
  }

  /** `items.splice(i, 0, v)`: past the end, `v` is appended. */
  function Insert(items: seq<Value>, i: nat, v: Value): (r: seq<Value>)
    ensures |r| == |items| + 1
  {
    if i < |items| then items[..i] + [v] + items[i..] else items + [v]
  }

  /** The removals of an array diff, last index first: removing from the
      back keeps the positions still to be removed where they were. */
  function Removed(items: seq<Value>, indices: seq<nat>): seq<Value>
    decreases |indices|
  {
    if indices == [] then items
    else Removed(RemoveAt(items, indices[|indices| - 1]), indices[..|indices| - 1])
  }

  /** The removals as the source's `forEach` performs them: in list order,
      each splice shifting the later positions down by one. */
  function RemovedInListOrder(items: seq<Value>, indices: seq<nat>): seq<Value>
    decreases |indices|
  {
    if indices == [] then items
    else RemovedInListOrder(RemoveAt(items, indices[0]), indices[1..])
  }

  /** The insertions of an array diff, in list order. */
  function Inserted(items: seq<Value>, additions: seq<Addition>): seq<Value>
    decreases |additions|
  {
    if additions == [] then items
    else Inserted(Insert(items, additions[0].index, additions[0].value), additions[1..])
  }

  /** One `changed` entry: the nested diff is applied to the item at its
      index when that item is an object or an array; any other item is left
      as it is. */
  function ApplyChange(items: seq<Value>, c: Change): (r: seq<Value>)
    ensures |r| == |items|
    ensures forall j :: 0 <= j < |items| && j != c.index ==> r[j] == items[j]
    decreases c, 0, 0
  {
    if c.index < |items| && (items[c.index].Obj? || items[c.index].Arr?)
    then items[c.index := PatchWith(items[c.index], c.diff, c.diff.entries.Keys)]
    else items
  }

  /** A nested array item is patched in place: changing position "1" of
      the item `[1, 2]` to `3` leaves `[1, 3]`. */
  lemma ChangeKeepsArrayItem()
    ensures ApplyChange([Arr([Num(1), Num(2)])], Change(0, ObjectDiff(map["1" := Replace(Num(3))])))
            == [Arr([Num(1), Num(3)])]
  {
    var d := ObjectDiff(map["1" := Replace(Num(3))]);
    var items := [Num(1), Num(2)];
    assert Decimal(0) == "0" && Decimal(1) == "1";
    assert "0" !in d.entries.Keys;
    assert items[..1] == [Num(1)] && [Num(1)][..0] == [];
    assert PatchPositions([Num(1)], d, d.entries.Keys) == [Num(1)];
    assert PatchPositions(items, d, d.entries.Keys) == [Num(1), Num(3)];
  }

  /** The first `i` `changed` entries of `ad`, applied in order. */
  function Changed(items: seq<Value>, ad: ArrayDiff, i: nat): (r: seq<Value>)
    requires i <= |ad.changed|
    ensures |r| == |items|
    decreases ad, 0, i
  {
    if i == 0 then items else ApplyChange(Changed(items, ad, i - 1), ad.changed[i - 1])
  }

  /** The items of an array after `applyArrayDiff(ad, items)`: removals,
      then insertions, then nested changes. */
  function PatchArray(items: seq<Value>, ad: ArrayDiff): seq<Value>
    decreases ad, 1, 0
  {
    Changed(Inserted(Removed(items, ad.removed), ad.added), ad, |ad.changed|)
  }

  /** Removing the trailing positions `m`, `m+1`, ... from the back leaves
      the first `m` items. */
  lemma {:induction false} RemovedTail(items: seq<Value>, indices: seq<nat>, m: nat)
    requires m + |indices| == |items|
    requires forall j :: 0 <= j < |indices| ==> indices[j] == m + j
    ensures Removed(items, indices) == items[..m]
    decreases |indices|
  {
    if indices != [] {
      var last := indices[|indices| - 1];
      assert last == |items| - 1;
      assert RemoveAt(items, last) == items[..last];
      RemovedTail(items[..last], indices[..|indices| - 1], m);
      assert items[..last][..m] == items[..m];
    }
  }

  /** Inserting `vs` at the positions `|items|`, `|items|+1`, ... appends
      them. */
  lemma {:induction false} InsertedTail(items: seq<Value>, additions: seq<Addition>, vs: seq<Value>)
    requires |additions| == |vs|
    requires forall j :: 0 <= j < |additions| ==> additions[j] == Addition(|items| + j, vs[j])
    ensures Inserted(items, additions) == items + vs
    decreases |additions|
  {
    if additions != [] {
      var next := items + [vs[0]];
      assert forall j :: 0 <= j < |additions| - 1 ==> additions[1..][j] == Addition(|next| + j, vs[1..][j]);
      InsertedTail(next, additions[1..], vs[1..]);
      assert next + vs[1..] == items + vs;
    }
  }

  /** Nested changes at positions below `bound` leave every later position
      as it was. */
  lemma {:induction false} ChangedBelow(items: seq<Value>, ad: ArrayDiff, i: nat, bound: nat)
    requires i <= |ad.changed|
    requires forall l :: 0 <= l < i ==> ad.changed[l].index < bound
    ensures forall j :: bound <= j < |items| ==> Changed(items, ad, i)[j] == items[j]
  {
    if i > 0 {
      ChangedBelow(items, ad, i - 1, bound);
    }
  }

  /** An array diff that removes the positions past the end of `n`, adds
      `n`'s items past the end of `o`, and changes only common positions,
      turns `o` into an array of `n`'s length ending in `n`'s added items. */
  lemma PatchTail(o: seq<Value>, n: seq<Value>, d: ArrayDiff)
    requires |d.removed| == (if |o| > |n| then |o| - |n| else 0)
    requires forall k :: 0 <= k < |d.removed| ==> d.removed[k] == |n| + k
    requires |d.added| == (if |n| > |o| then |n| - |o| else 0)
    requires forall k :: 0 <= k < |d.added| ==> d.added[k] == Addition(|o| + k, n[|o| + k])
    requires forall l :: 0 <= l < |d.changed| ==> d.changed[l].index < |o| && d.changed[l].index < |n|
    ensures |PatchArray(o, d)| == |n|
    ensures forall j :: |o| <= j < |n| ==> PatchArray(o, d)[j] == n[j]
  {
    var m := if |n| < |o| then |n| else |o|;
    var kept := o[..m];
    var vs := if |n| > |o| then n[|o|..] else [];
    assert Removed(o, d.removed) == kept by {
      RemovedTail(o, d.removed, m);
    }
    assert Inserted(kept, d.added) == kept + vs by {
      InsertedTail(kept, d.added, vs);
    }
    var r := PatchArray(o, d);
    assert r == Changed(kept + vs, d, |d.changed|);
    ChangedBelow(kept + vs, d, |d.changed|, m);
    forall j | |o| <= j < |n|
      ensures r[j] == n[j]
    {
      assert (kept + vs)[j] == vs[j - |o|] == n[j];
    }
  }

  /** Applying `computeArrayDiff(o, n)` to `o` (removals from the back)
      gives an array of `n`'s length whose positions past the end of `o`
      hold `n`'s items. The nested changes of the common positions are not
      a round trip: a changed primitive item keeps its old value. */
  lemma ArrayPatchShape(o: seq<Value>, n: seq<Value>)
    requires ChangedCoercible(o, n)
    ensures |PatchArray(o, ArrayDiffOf(o, n))| == |n|
    ensures forall j :: |o| <= j < |n| ==> PatchArray(o, ArrayDiffOf(o, n))[j] == n[j]
  {
    var d := ArrayDiffOf(o, n);
    ArrayDiffAdded(o, n);
    ArrayDiffRemoved(o, n);
    ArrayDiffChanged(o, n);
    PatchTail(o, n, d);
  }

  /** Removing in list order, as the source does, keeps a stale item: with
      four items and the removals `[2, 3]` that shrink the array to two, the
      second splice finds only three items and removes nothing. */
  lemma ListOrderRemovalKeepsStaleItem()
    ensures RemovedInListOrder([Num(0), Num(1), Num(2), Num(3)], [2, 3]) == [Num(0), Num(1), Num(3)]
    ensures Removed([Num(0), Num(1), Num(2), Num(3)], [2, 3]) == [Num(0), Num(1)]
  {
    var a := [Num(0), Num(1), Num(2), Num(3)];
    assert RemoveAt(a, 2) == [Num(0), Num(1), Num(3)];
    assert RemoveAt(a, 3) == [Num(0), Num(1), Num(2)];
    assert RemoveAt([Num(0), Num(1), Num(2)], 2) == [Num(0), Num(1)];
  }
}
