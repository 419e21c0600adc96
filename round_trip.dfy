/** Applying `computeDiff(A, B)` to `A` gives back `B`, up to what property
    reads can tell apart. */
module RoundTrip {
  import opened Wrappers
  import opened JsValue
  import opened ObservableUtils
  import opened TreePaths
  import opened Patching

  /** `r` reads like `b`: where `b` is an object, `r` is an object or an
      array whose every property holds a value reading like `b`'s, and whose
      properties that `b` lacks hold `undefined`; elsewhere `r` is `b`. */
  predicate Equiv(r: Value, b: Value)
    decreases b
  {
    if b.Obj? then
      (r.Obj? || r.Arr?) &&
      (forall k :: k in b.fields ==> Equiv(Get(r, k), b.fields[k])) &&
      (forall k :: k in Keys(r) && k !in b.fields ==> Get(r, k) == Undefined)
    else r == b
  }

  /** Every value reads like itself. */
  lemma {:induction false} EquivReflexive(v: Value)
    ensures Equiv(v, v)
    decreases v
  {
    if v.Obj? {
      forall k | k in v.fields
        ensures Equiv(Get(v, k), v.fields[k])
      {
        EquivReflexive(v.fields[k]);
      }
    }
  }

  /** A key without a diff entry holds values that read alike. */
  lemma {:induction false} NoEntryEquiv(o: Value, n: Value, k: string)
    requires Coercible(o) && Coercible(n)
    requires k in Keys(o) + Keys(n) && k !in Diff(o, n).entries
    ensures Equiv(Get(o, k), Get(n, k))
    decreases n, 0
  {
    DiffEntry(o, n, k);
    var ov, nv := Get(o, k), Get(n, k);
    if ov == nv {
      EquivReflexive(nv);
    } else {
      assert nv.Obj? && (ov.Obj? || ov.Arr?);
      if n.Obj? {
        assert k in n.fields;
      } else {
        assert nv == n.items[IndexOf(k, |n.items|).value];
      }
      assert nv < n;
      EmptyDiffEquiv(ov, nv);
    }
  }

  /** Two values whose diff is empty read alike. */
  lemma {:induction false} EmptyDiffEquiv(o: Value, n: Value)
    requires (o.Obj? || o.Arr?) && n.Obj?
    requires Diff(o, n) == EmptyDiff
    ensures Equiv(o, n)
    decreases n, 1
  {
    forall k | k in n.fields
      ensures Equiv(Get(o, k), n.fields[k])
    {
      NoEntryEquiv(o, n, k);
    }
    forall k | k in Keys(o) && k !in n.fields
      ensures Get(o, k) == Undefined
    {
      NoEntryEquiv(o, n, k);
    }
  }

  /** Wherever `n` holds an object, `o` does not hold an array. Over an
      array `applyDiff` can only assign positions, so these are the trees
      whose diff it can replay. */
  predicate ObjectsOverObjects(o: Value, n: Value)
    decreases n
  {
    n.Obj? ==> !o.Arr? && forall k :: k in n.fields ==> ObjectsOverObjects(Get(o, k), n.fields[k])
  }

  /** The new value of a key after applying `computeDiff(o, n)` to the
      object `o` reads like `n`'s. */
  lemma {:induction false} PatchAtEquiv(o: Value, n: Value, k: string)
    requires o.Obj? && n.Obj? && ObjectsOverObjects(o, n)
    requires k in Keys(o) + Keys(n)
    ensures Equiv(Get(Obj(Patch(o.fields, Diff(o, n))), k), Get(n, k))
    decreases n, 2
  {
    var d := Diff(o, n);
    var r := Patch(o.fields, d);
    PatchSomeKeeps(o.fields, d, d.entries.Keys);
    if k in d.entries {
      PatchSomeStep(o.fields, d, d.entries.Keys - {k}, k);
      DiffEntryShape(o, n, k);
      assert d.entries.Keys - {k} + {k} == d.entries.Keys;
      assert Get(Obj(r), k) == PatchNode(Get(o, k), d.entries[k]);
      match d.entries[k]
      case Replace(v) =>
        EquivReflexive(v);
      case ObjectDelta(sub) =>
        assert k in n.fields;
        assert Get(o, k).Obj?;
        PatchEquiv(Get(o, k), Get(n, k));
    } else {
      NoEntryEquiv(o, n, k);
      assert Get(Obj(r), k) == Get(o, k);
    }
  }

  /** Applying `computeDiff(o, n)` to the object `o` gives an object that
      reads like `n`, wherever `n` puts no object over an old array. */
  lemma {:induction false} PatchEquiv(o: Value, n: Value)
    requires o.Obj? && n.Obj? && ObjectsOverObjects(o, n)
    ensures Equiv(Obj(Patch(o.fields, Diff(o, n))), n)
    decreases n, 3
  {
    var r := Obj(Patch(o.fields, Diff(o, n)));
    DiffKeysWithin(o, n);
    PatchSomeKeeps(o.fields, Diff(o, n), Diff(o, n).entries.Keys);
    forall k | k in n.fields
      ensures Equiv(Get(r, k), n.fields[k])
    {
      PatchAtEquiv(o, n, k);
    }
    forall k | k in Keys(r) && k !in n.fields
      ensures Get(r, k) == Undefined
    {
      PatchAtEquiv(o, n, k);
    }
  }

  /** Where `n` puts an object over an old array, the patched value stays
      an array of the old length, so a key of `n`'s object that names no
      position of it is lost: `{a: [1, 2]}` set to `{a: {x: 1}}` keeps `a`
      an array. */
  lemma {:induction false} ObjectOverArrayStaysArray(o: Value, n: Value, k: string)
    requires o.Obj? && n.Obj? && k in n.fields && n.fields[k].Obj? && Get(o, k).Arr?
    ensures !ObjectsOverObjects(o, n)
    ensures k in Diff(o, n).entries ==>
      var r := Get(Obj(Patch(o.fields, Diff(o, n))), k);
      r.Arr? && |r.items| == |Get(o, k).items|
  {
    var d := Diff(o, n);
    if k in d.entries {
      DiffAt(o, n, k);
      assert Classify(Get(o, k), Get(n, k)) == Nested;
      var node := d.entries[k];
      assert Patch(o.fields, d)[k] == PatchNode(Get(o, k), node);
      PatchKeepsArrays(Get(o, k).items, node.diff);
    }
  }

  /** Conversely, a key whose values read alike gets no diff entry. */
  lemma {:induction false} EquivNoEntry(o: Value, n: Value, k: string)
    requires Coercible(o) && Coercible(n)
    requires k in Keys(o) + Keys(n) && Equiv(Get(o, k), Get(n, k))
    ensures k !in Diff(o, n).entries
    decreases n, 0
  {
    DiffEntry(o, n, k);
    var ov, nv := Get(o, k), Get(n, k);
    if nv.Obj? && ov != nv {
      if n.Obj? {
        assert k in n.fields;
      } else {
        assert nv == n.items[IndexOf(k, |n.items|).value];
      }
      assert nv < n;
      EquivEmptyDiff(ov, nv);
    }
  }

  /** An object or array that reads like an object `n` has an empty diff
      against it. */
  lemma {:induction false} EquivEmptyDiff(o: Value, n: Value)
    requires (o.Obj? || o.Arr?) && n.Obj? && Equiv(o, n)
    ensures Diff(o, n) == EmptyDiff
    decreases n, 1
  {
    DiffKeysWithin(o, n);
    forall k | k in Keys(o) + Keys(n)
      ensures k !in Diff(o, n).entries
    {
      if k !in n.fields {
        assert Get(o, k) == Undefined;
      }
      EquivNoEntry(o, n, k);
    }
    assert Diff(o, n).entries == map[];
  }
}
