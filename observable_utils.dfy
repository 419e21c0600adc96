/** The diff engine of `observableUtils.ts`: `computeDiff` compares two
    objects key by key and `computeArrayDiff` compares two arrays position by
    position. Each is a loop-building method proved equal to a specification
    function, and the lemmas state what the specification promises. */
module ObservableUtils {
  import opened Wrappers
  import opened Strings
  import opened JsValue

  /** `DiffResult`: one key's change. `computeDiff` only ever produces the
      first two kinds. */
  datatype DiffNode =
    | Replace(value: Value)
    | ObjectDelta(diff: ObjectDiff)
    | ArrayDelta(delta: ArrayDiff)

  /** `ObjectDiff`: the changed keys of an object and their changes. */
  datatype ObjectDiff = ObjectDiff(entries: map<string, DiffNode>)

  /** `ArrayDiff` and its three kinds of entries. */
  datatype Addition = Addition(index: nat, value: Value)
  datatype Change = Change(index: nat, diff: ObjectDiff)
  datatype ArrayDiff = ArrayDiff(removed: seq<nat>, added: seq<Addition>, changed: seq<Change>)

  const EmptyDiff := ObjectDiff(map[])
  const EmptyArrayDiff := ArrayDiff([], [], [])

  /** The branch `computeDiff`'s loop body takes for one key. */
  datatype Verdict = Unchanged | Replaced | Nested

  function Classify(ov: Value, nv: Value): (r: Verdict)
    ensures r == Nested ==> nv.Obj? && (ov.Obj? || ov.Arr?)
  {
    if ov == nv then Unchanged
    else if ov == Null || nv == Null then Replaced
    else if TypeOf(ov) != TypeOf(nv) then Replaced
    else if TypeOf(nv) == TObject then (if nv.Arr? then Replaced else Nested)
    else Replaced
  }

  /** The entry `computeDiff(o, n)` records for key `k`, if any. */
  function EntryAt(o: Value, n: Value, k: string): Option<DiffNode>
    decreases n, 0
  {
    var ov, nv := Get(o, k), Get(n, k);
    match Classify(ov, nv)
    case Unchanged => None
    case Replaced => Some(Replace(nv))
    case Nested =>
      var nested := Diff(ov, nv);
      if nested != EmptyDiff then Some(ObjectDelta(nested)) else None
  }

  /** Every key of either side with its entry, present or not. */
  function EntryTable(o: Value, n: Value): (t: map<string, Option<DiffNode>>)
    decreases n, 1
  {
    map k | k in Keys(o) + Keys(n) :: EntryAt(o, n, k)
  }

  /** The present entries of `t` among `keys`. */
  function Gather(t: map<string, Option<DiffNode>>, keys: set<string>): map<string, DiffNode>
    requires keys <= t.Keys
  {
    map k | k in keys && t[k].Some? :: t[k].value
  }

  /** Gathering one more key adds its entry, if it has one. */
  lemma GatherStep(t: map<string, Option<DiffNode>>, keys: set<string>, key: string)
    requires keys + {key} <= t.Keys
    ensures Gather(t, keys + {key}) ==
      if t[key].Some? then Gather(t, keys)[key := t[key].value] else Gather(t, keys)
  {
  }

  /** `computeDiff(o, n)`: an entry for every key of either side whose
      value changed. */
  function Diff(o: Value, n: Value): ObjectDiff
    requires Coercible(o) && Coercible(n)
    decreases n, 2
  {
    ObjectDiff(Gather(EntryTable(o, n), Keys(o) + Keys(n)))
  }

  /** `computeDiff`, as the source builds it: one pass over the union of the
      keys, recording each key's entry. */
  method ComputeDiff(o: Value, n: Value) returns (d: ObjectDiff)
    requires Coercible(o) && Coercible(n)
    ensures d == Diff(o, n)
    decreases n, 3
  {
    var entries: map<string, DiffNode> := map[];
    var todo := Keys(o) + Keys(n);
    ghost var done: set<string> := {};
    while todo != {}
      invariant todo + done == Keys(o) + Keys(n) && todo !! done
      invariant entries == Gather(EntryTable(o, n), done)
      decreases todo
    {
      var key :| key in todo;
      entries := RecordEntry(o, n, key, entries, done);
      todo := todo - {key};
      done := done + {key};
    }
    d := ObjectDiff(entries);
  }

  /** One pass of `computeDiff`'s loop: the entries gathered so far gain the
      entry of `key`, if it has one. */
  method RecordEntry(o: Value, n: Value, key: string, entries: map<string, DiffNode>, ghost done: set<string>)
    returns (r: map<string, DiffNode>)
    requires key in Keys(o) + Keys(n) && done <= Keys(o) + Keys(n)
    requires entries == Gather(EntryTable(o, n), done)
    ensures r == Gather(EntryTable(o, n), done + {key})
    decreases n, 2
  {
    var e := ComputeEntry(o, n, key);
    GatherStep(EntryTable(o, n), done, key);
    r := if e.Some? then entries[key := e.value] else entries;
  }

  /** The body of `computeDiff`'s loop for one key: no entry for an
      unchanged value, `replace` for a null side, a change of `typeof`, an
      array or a primitive, and a nested diff, kept only when non-empty, for
      two objects. */
  method ComputeEntry(o: Value, n: Value, key: string) returns (entry: Option<DiffNode>)
    ensures entry == EntryAt(o, n, key)
    decreases n, 0
  {
    var oldValue, newValue := Get(o, key), Get(n, key);
    if oldValue == newValue {
      entry := None;
    } else if oldValue == Null || newValue == Null {
      entry := Some(Replace(newValue));
    } else if TypeOf(oldValue) != TypeOf(newValue) {
      entry := Some(Replace(newValue));
    } else if TypeOf(newValue) == TObject {
      if newValue.Arr? {
        entry := Some(Replace(newValue));
      } else {
        assert Classify(oldValue, newValue) == Nested;
        GetBelow(n, key);
        var nested := ComputeDiff(oldValue, newValue);
        entry := if nested != EmptyDiff then Some(ObjectDelta(nested)) else None;
      }
    } else {
      entry := Some(Replace(newValue));
    }
  }

  // ---------------------------------------------------------------------
  // What computeDiff promises

  /** Every key of the diff is a key of one side or the other. */
  lemma DiffKeysWithin(o: Value, n: Value)
    requires Coercible(o) && Coercible(n)
    ensures Diff(o, n).entries.Keys <= Keys(o) + Keys(n)
  {
  }

  /** Diffing a value against itself gives the empty diff. */
  lemma DiffReflexive(t: Value)
    requires Coercible(t)
    ensures Diff(t, t) == EmptyDiff
  {
    forall k | k in Keys(t)
      ensures k !in Diff(t, t).entries
    {
      DiffAt(t, t, k);
    }
    DiffKeysWithin(t, t);
    assert Diff(t, t).entries == map[];
  }

  /** A key of either side is in the diff exactly when its entry exists,
      and holds that entry. */
  lemma DiffAt(o: Value, n: Value, k: string)
    requires Coercible(o) && Coercible(n)
    requires k in Keys(o) + Keys(n)
    ensures k in Diff(o, n).entries <==> EntryAt(o, n, k).Some?
    ensures k in Diff(o, n).entries ==> Diff(o, n).entries[k] == EntryAt(o, n, k).value
  {
  }

  /** The entry for one key, stated case by case: unchanged values give no
      entry; a null side, a change of `typeof`, a primitive or an array new
      value give `replace` with the new value; two objects give an `object`
      entry exactly when their own diff is not empty. */
  lemma DiffEntry(o: Value, n: Value, k: string)
    requires Coercible(o) && Coercible(n)
    requires k in Keys(o) + Keys(n)
    ensures Get(o, k) == Get(n, k) ==> k !in Diff(o, n).entries
    ensures Get(o, k) != Get(n, k) &&
            (Get(o, k) == Null || Get(n, k) == Null || TypeOf(Get(o, k)) != TypeOf(Get(n, k)) ||
             TypeOf(Get(n, k)) != TObject || Get(n, k).Arr?)
            ==> k in Diff(o, n).entries && Diff(o, n).entries[k] == Replace(Get(n, k))
    ensures k in Diff(o, n).entries && Diff(o, n).entries[k].ObjectDelta? ==>
            Get(n, k).Obj? && (Get(o, k).Obj? || Get(o, k).Arr?) &&
            Diff(o, n).entries[k].diff == Diff(Get(o, k), Get(n, k)) &&
            Diff(o, n).entries[k].diff != EmptyDiff
    ensures Get(n, k).Obj? && (Get(o, k).Obj? || Get(o, k).Arr?) && Get(o, k) != Get(n, k) ==>
            (k in Diff(o, n).entries <==> Diff(Get(o, k), Get(n, k)) != EmptyDiff)
  {
    DiffAt(o, n, k);
    var ov, nv := Get(o, k), Get(n, k);
    match Classify(ov, nv)
    case Unchanged =>
    case Replaced =>
    case Nested =>
  }

  /** A diff entry is either `replace` with the new value or an `object` entry holding the
      diff of two objects (or an old array and a new object). */
  lemma DiffEntryShape(o: Value, n: Value, k: string)
    requires Coercible(o) && Coercible(n)
    requires k in Diff(o, n).entries
    ensures Diff(o, n).entries[k] == Replace(Get(n, k)) ||
      (Diff(o, n).entries[k].ObjectDelta? &&
       Get(n, k).Obj? && (Get(o, k).Obj? || Get(o, k).Arr?) &&
       Diff(o, n).entries[k].diff == Diff(Get(o, k), Get(n, k)))
  {
    DiffKeysWithin(o, n);
    DiffAt(o, n, k);
  }

  /** No diff entry, at any depth, is an array delta. */
  predicate NoArrayDelta(d: ObjectDiff)
  {
    forall k :: k in d.entries ==>
      !d.entries[k].ArrayDelta? &&
      (d.entries[k].ObjectDelta? ==> NoArrayDelta(d.entries[k].diff))
  }

  lemma {:induction false} DiffHasNoArrayDelta(o: Value, n: Value)
    requires Coercible(o) && Coercible(n)
    ensures NoArrayDelta(Diff(o, n))
    decreases n
  {
    var d := Diff(o, n);
    forall k | k in d.entries
      ensures !d.entries[k].ArrayDelta?
      ensures d.entries[k].ObjectDelta? ==> NoArrayDelta(d.entries[k].diff)
    {
      DiffEntryShape(o, n, k);
      if d.entries[k].ObjectDelta? {
        GetBelow(n, k);
        DiffHasNoArrayDelta(Get(o, k), Get(n, k));
      }
    }
  }

  /** An `object` entry only ever stands over an old object or array, never
      over `null`: applying the diff to the old tree never descends into
      `null`. */
  predicate NestsOnlyIntoObjects(t: Value, d: ObjectDiff)
  {
    forall k :: k in d.entries && d.entries[k].ObjectDelta? ==>
      (Get(t, k).Obj? || Get(t, k).Arr?) && NestsOnlyIntoObjects(Get(t, k), d.entries[k].diff)
  }

  lemma {:induction false} DiffNestsOnlyIntoObjects(o: Value, n: Value)
    requires Coercible(o) && Coercible(n)
    ensures NestsOnlyIntoObjects(o, Diff(o, n))
    decreases n
  {
    var d := Diff(o, n);
    forall k | k in d.entries && d.entries[k].ObjectDelta?
      ensures (Get(o, k).Obj? || Get(o, k).Arr?) && NestsOnlyIntoObjects(Get(o, k), d.entries[k].diff)
    {
      DiffEntryShape(o, n, k);
      GetBelow(n, k);
      DiffNestsOnlyIntoObjects(Get(o, k), Get(n, k));
    }
  }

  // ---------------------------------------------------------------------
  // computeArrayDiff

  function Max(a: nat, b: nat): nat { if a < b then b else a }
  function Min(a: nat, b: nat): nat { if a < b then a else b }

  /** The common positions whose serialisations differ. */
  function ChangedPositions(o: seq<Value>, n: seq<Value>): (r: set<nat>)
    ensures forall j :: j in r ==> j < |o| && j < |n|
  {
    set j: nat | j < |o| && j < |n| && Normalize(o[j]) != Normalize(n[j])
  }

  /** The changed positions hold values `computeDiff` accepts (it throws on
      `null` and `undefined`). */
  predicate ChangedCoercible(o: seq<Value>, n: seq<Value>)
  {
    forall j :: j in ChangedPositions(o, n) ==> Coercible(o[j]) && Coercible(n[j])
  }

  /** The nested diff `computeArrayDiff` records for each changed position
      whose items `computeDiff` accepts. */
  function NestedDiffs(o: seq<Value>, n: seq<Value>): (m: map<nat, ObjectDiff>)
    ensures m.Keys <= ChangedPositions(o, n)
    ensures ChangedCoercible(o, n) ==> m.Keys == ChangedPositions(o, n)
  {
    map j | j in ChangedPositions(o, n) && Coercible(o[j]) && Coercible(n[j]) :: Diff(o[j], n[j])
  }

  /** A common position of two arrays whose changed items are all
      accepted has a nested diff exactly when its serialisations differ,
      and that diff is `computeDiff` of the two items. */
  lemma NestedAt(o: seq<Value>, n: seq<Value>, j: nat)
    requires j < |o| && j < |n|
    ensures j in NestedDiffs(o, n) <==>
      Normalize(o[j]) != Normalize(n[j]) && Coercible(o[j]) && Coercible(n[j])
    ensures j in NestedDiffs(o, n) ==> NestedDiffs(o, n)[j] == Diff(o[j], n[j])
  {
    assert j in ChangedPositions(o, n) <==> Normalize(o[j]) != Normalize(n[j]);
  }

  /** The array diff after the first `i` positions have been compared, for
      an old array of length `oldLength`, a new array `n`, and the nested
      diffs of the changed common positions. */
  function Assemble(oldLength: nat, n: seq<Value>, nested: map<nat, ObjectDiff>, i: nat): ArrayDiff
    requires i <= Max(oldLength, |n|)
  {
    if i == 0 then EmptyArrayDiff
    else
      var d := Assemble(oldLength, n, nested, i - 1);
      var j := i - 1;
      if j >= oldLength then d.(added := d.added + [Addition(j, n[j])])
      else if j >= |n| then d.(removed := d.removed + [j])
      else if j in nested then d.(changed := d.changed + [Change(j, nested[j])])
      else d
  }

  /** `computeArrayDiff(o, n)`. */
  function ArrayDiffOf(o: seq<Value>, n: seq<Value>): ArrayDiff
    requires ChangedCoercible(o, n)
  {
    Assemble(|o|, n, NestedDiffs(o, n), Max(|o|, |n|))
  }

  /** `computeArrayDiff(o, n)`, as the source builds it: one pass over as
      many positions as the longer array has. It fails (`None`) exactly when
      a position whose serialisations differ holds `null` or `undefined` on
      either side, where `computeDiff` throws a `TypeError`. */
  method ComputeArrayDiff(o: seq<Value>, n: seq<Value>) returns (r: Option<ArrayDiff>)
    ensures r.Some? <==> ChangedCoercible(o, n)
    ensures r.Some? ==> r.value == ArrayDiffOf(o, n)
  {
    var d := EmptyArrayDiff;
    var maxLength := Max(|o|, |n|);
    var i := 0;
    while i < maxLength
      invariant 0 <= i <= maxLength
      invariant d == Assemble(|o|, n, NestedDiffs(o, n), i)
      invariant forall j :: j in ChangedPositions(o, n) && j < i ==> Coercible(o[j]) && Coercible(n[j])
    {
      var next := ComparePosition(o, n, d, i);
      if next.None? {
        return None;
      }
      d := next.value;
      i := i + 1;
    }
    r := Some(d);
  }

  /** `computeArrayDiff([null], [{a: 1}])` throws: the first position
      changed and its old item is `null`. */
  lemma NullItemThrows()
    ensures !ChangedCoercible([Null], [Obj(map["a" := Num(1)])])
  {
    assert 0 in ChangedPositions([Null], [Obj(map["a" := Num(1)])]);
  }

  /** One pass of `computeArrayDiff`'s loop: position `i` is added,
      removed, changed or left alone; a changed position holding `null` or
      `undefined` makes `computeDiff` throw (`None`). */
  method ComparePosition(o: seq<Value>, n: seq<Value>, d: ArrayDiff, i: nat) returns (r: Option<ArrayDiff>)
    requires i < Max(|o|, |n|)
    requires d == Assemble(|o|, n, NestedDiffs(o, n), i)
    ensures r.None? <==> i in ChangedPositions(o, n) && !(Coercible(o[i]) && Coercible(n[i]))
    ensures r.Some? ==> r.value == Assemble(|o|, n, NestedDiffs(o, n), i + 1)
  {
    if i >= |o| {
      r := Some(d.(added := d.added + [Addition(i, n[i])]));
    } else if i >= |n| {
      r := Some(d.(removed := d.removed + [i]));
    } else {
      NestedAt(o, n, i);
      if Normalize(o[i]) != Normalize(n[i]) {
        if !Coercible(o[i]) || !Coercible(n[i]) {
          return None;
        }
        var changed := ComputeDiff(o[i], n[i]);
        r := Some(d.(changed := d.changed + [Change(i, changed)]));
      } else {
        r := Some(d);
      }
    }
  }

  /** After `i` positions, `added` holds the positions past the old end. */
  lemma {:induction false} AssembleAdded(oldLength: nat, n: seq<Value>, nested: map<nat, ObjectDiff>, i: nat, d: ArrayDiff)
    requires i <= Max(oldLength, |n|)
    requires d == Assemble(oldLength, n, nested, i)
    ensures
      |d.added| == (if i > oldLength then i - oldLength else 0)
      && forall k :: 0 <= k < |d.added| ==> d.added[k] == Addition(oldLength + k, n[oldLength + k])
  {
    if i > 0 {
      AssembleAdded(oldLength, n, nested, i - 1, Assemble(oldLength, n, nested, i - 1));
    }
  }

  /** After `i` positions, `removed` holds the positions past the new end. */
  lemma {:induction false} AssembleRemoved(oldLength: nat, n: seq<Value>, nested: map<nat, ObjectDiff>, i: nat, d: ArrayDiff)
    requires i <= Max(oldLength, |n|)
    requires d == Assemble(oldLength, n, nested, i)
    ensures
      |d.removed| == (if i > |n| && oldLength > |n| then Min(i, oldLength) - |n| else 0)
      && forall k :: 0 <= k < |d.removed| ==> d.removed[k] == |n| + k
  {
    if i > 0 {
      AssembleRemoved(oldLength, n, nested, i - 1, Assemble(oldLength, n, nested, i - 1));
    }
  }

  /** One more position keeps the `changed` entries so far and adds at most
      the new position. */
  lemma AssemblePrefix(oldLength: nat, n: seq<Value>, nested: map<nat, ObjectDiff>, i: nat)
    requires 0 < i <= Max(oldLength, |n|)
    ensures var d, d' := Assemble(oldLength, n, nested, i - 1), Assemble(oldLength, n, nested, i);
      && (forall k :: 0 <= k < |d.changed| ==> d'.changed[k] == d.changed[k])
      && |d.changed| <= |d'.changed| <= |d.changed| + 1
      && (|d'.changed| == |d.changed| + 1 ==>
            var j := i - 1;
            j < oldLength && j < |n| && j in nested && d'.changed[|d.changed|] == Change(j, nested[j]))
  {
  }

  /** After `i` positions, every `changed` entry is a common position below
      `i` that has a nested diff, and holds that diff. */
  lemma {:induction false} AssembleChanged(oldLength: nat, n: seq<Value>, nested: map<nat, ObjectDiff>, i: nat, d: ArrayDiff)
    requires i <= Max(oldLength, |n|)
    requires d == Assemble(oldLength, n, nested, i)
    ensures
      forall k :: 0 <= k < |d.changed| ==>
        d.changed[k].index < i && d.changed[k].index < oldLength && d.changed[k].index < |n| &&
        d.changed[k].index in nested && d.changed[k].diff == nested[d.changed[k].index]
  {
    if i > 0 {
      AssembleChanged(oldLength, n, nested, i - 1, Assemble(oldLength, n, nested, i - 1));
      AssemblePrefix(oldLength, n, nested, i);
    }
  }

  /** After `i` positions, the `changed` entries are in strictly ascending
      order of position. */
  lemma {:induction false} AssembleChangedSorted(oldLength: nat, n: seq<Value>, nested: map<nat, ObjectDiff>, i: nat, d: ArrayDiff)
    requires i <= Max(oldLength, |n|)
    requires d == Assemble(oldLength, n, nested, i)
    ensures
      forall k, l :: 0 <= k < l < |d.changed| ==> d.changed[k].index < d.changed[l].index
  {
    if i > 0 {
      AssembleChangedSorted(oldLength, n, nested, i - 1, Assemble(oldLength, n, nested, i - 1));
      AssembleChanged(oldLength, n, nested, i - 1, Assemble(oldLength, n, nested, i - 1));
      AssemblePrefix(oldLength, n, nested, i);
    }
  }

  /** After `i` positions, every common position below `i` that has a
      nested diff has a `changed` entry. */
  lemma {:induction false} AssembleChangedComplete(oldLength: nat, n: seq<Value>, nested: map<nat, ObjectDiff>, i: nat, d: ArrayDiff)
    requires i <= Max(oldLength, |n|)
    requires d == Assemble(oldLength, n, nested, i)
    ensures
      forall j :: 0 <= j < i && j < oldLength && j < |n| && j in nested ==>
        exists k :: 0 <= k < |d.changed| && d.changed[k].index == j
  {
    if i > 0 {
      AssembleChangedComplete(oldLength, n, nested, i - 1, Assemble(oldLength, n, nested, i - 1));
      AssemblePrefix(oldLength, n, nested, i);
      var prev := Assemble(oldLength, n, nested, i - 1);
      forall j | 0 <= j < i && j < oldLength && j < |n| && j in nested
        ensures exists k :: 0 <= k < |d.changed| && d.changed[k].index == j
      {
        if j < i - 1 {
          var k :| 0 <= k < |prev.changed| && prev.changed[k].index == j;
          assert d.changed[k] == prev.changed[k];
        } else {
          assert d.changed[|prev.changed|].index == j;
        }
      }
    }
  }

  /** `added` lists exactly the positions past the end of the old array,
      with the new array's values, in order. */
  lemma ArrayDiffAdded(o: seq<Value>, n: seq<Value>)
    requires ChangedCoercible(o, n)
    ensures var d := ArrayDiffOf(o, n);
      |d.added| == (if |n| > |o| then |n| - |o| else 0) &&
      forall k :: 0 <= k < |d.added| ==> d.added[k] == Addition(|o| + k, n[|o| + k])
  {
    AssembleAdded(|o|, n, NestedDiffs(o, n), Max(|o|, |n|), ArrayDiffOf(o, n));
  }

  /** `removed` lists exactly the positions past the end of the new array,
      in ascending order; at most one of `added` and `removed` is non-empty. */
  lemma ArrayDiffRemoved(o: seq<Value>, n: seq<Value>)
    requires ChangedCoercible(o, n)
    ensures var d := ArrayDiffOf(o, n);
      |d.removed| == (if |o| > |n| then |o| - |n| else 0) &&
      (forall k :: 0 <= k < |d.removed| ==> d.removed[k] == |n| + k) &&
      (d.added == [] || d.removed == [])
  {
    AssembleAdded(|o|, n, NestedDiffs(o, n), Max(|o|, |n|), ArrayDiffOf(o, n));
    AssembleRemoved(|o|, n, NestedDiffs(o, n), Max(|o|, |n|), ArrayDiffOf(o, n));
  }

  /** Every `changed` entry is a position whose serialisations differ,
      with `computeDiff` of the two items. */
  lemma ArrayDiffChanged(o: seq<Value>, n: seq<Value>)
    requires ChangedCoercible(o, n)
    ensures var d := ArrayDiffOf(o, n);
      forall k :: 0 <= k < |d.changed| ==>
        d.changed[k].index in ChangedPositions(o, n) &&
        d.changed[k].diff == Diff(o[d.changed[k].index], n[d.changed[k].index])
  {
    AssembleChanged(|o|, n, NestedDiffs(o, n), Max(|o|, |n|), ArrayDiffOf(o, n));
  }

  /** The `changed` entries are in strictly ascending order of position. */
  lemma ArrayDiffChangedSorted(o: seq<Value>, n: seq<Value>)
    requires ChangedCoercible(o, n)
    ensures var d := ArrayDiffOf(o, n);
      forall k, l :: 0 <= k < l < |d.changed| ==> d.changed[k].index < d.changed[l].index
  {
    AssembleChangedSorted(|o|, n, NestedDiffs(o, n), Max(|o|, |n|), ArrayDiffOf(o, n));
  }

  /** Every position whose serialisations differ has a `changed` entry. */
  lemma ArrayDiffChangedComplete(o: seq<Value>, n: seq<Value>)
    requires ChangedCoercible(o, n)
    ensures var d := ArrayDiffOf(o, n);
      forall j :: j in ChangedPositions(o, n) ==>
        exists k :: 0 <= k < |d.changed| && d.changed[k].index == j
  {
    AssembleChangedComplete(|o|, n, NestedDiffs(o, n), Max(|o|, |n|), ArrayDiffOf(o, n));
  }

  /** Comparing an array with itself gives three empty lists. */
  lemma ArrayDiffReflexive(a: seq<Value>)
    ensures ChangedCoercible(a, a) && ArrayDiffOf(a, a) == EmptyArrayDiff
  {
    assert ChangedPositions(a, a) == {};
    AssembleUnchanged(a, |a|);
  }

  lemma {:induction false} AssembleUnchanged(a: seq<Value>, i: nat)
    requires i <= |a|
    ensures Assemble(|a|, a, map[], i) == EmptyArrayDiff
  {
    if i > 0 {
      AssembleUnchanged(a, i - 1);
    }
  }
}
