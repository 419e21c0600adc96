/** `FileSystemUtils.deepMerge`, `isObject` and `mergeWithInitialState`: the
    document read from the state file is merged over the default state. */
module FileSystemUtils {
  import opened JsValue
  import opened Constants

  /** `isObject(item)`: truthy, `typeof` answers `object`, and not an
      array. */
  predicate IsObject(v: Value)
  {
    Truthy(v) && TypeOf(v) == TObject && !v.Arr?
  }

  /** `isObject` holds for plain objects and for nothing else: not for
      `null`, arrays or primitives. */
  lemma IsObjectMeansPlainObject(v: Value)
    ensures IsObject(v) <==> v.Obj?
    ensures !IsObject(Null) && !IsObject(Undefined) && !IsObject(Arr([]))
  {
  }

  // ---------------------------------------------------------------------
  // The merge as a function

  /** `deepMerge(target, source)`: a copy of `target`'s own properties
      (`Object.assign({}, target)`), over which, when both are plain
      objects, every key of `source` is written. */
  function Merged(target: Value, source: Value): (r: Value)
    ensures r.Obj?
    decreases source, 2
  {
    if IsObject(target) && IsObject(source) then Obj(MergedSome(target, source, source.fields.Keys))
    else Obj(OwnProps(target))
  }

  /** The copy of `target` once the keys `keys` of `source` are written. */
  function MergedSome(target: Value, source: Value, keys: set<string>): map<string, Value>
    requires target.Obj? && source.Obj? && keys <= source.fields.Keys
    decreases source, 1
  {
    map k | k in target.fields.Keys + keys ::
      if k in keys then MergedEntry(target, source, k) else target.fields[k]
  }

  /** The value written for key `k` of `source`: a plain object missing
      from `target` as it is, a plain object present in `target` merged
      into `target`'s value, anything else as it is. */
  function MergedEntry(target: Value, source: Value, k: string): Value
    requires target.Obj? && source.Obj? && k in source.fields
    decreases source, 0
  {
    var v := source.fields[k];
    if IsObject(v) then
      if k !in target.fields then v else Merged(target.fields[k], v)
    else v
  }

  /** Writing one more key changes that key alone. */
  lemma MergedSomeStep(target: Value, source: Value, keys: set<string>, k: string)
    requires target.Obj? && source.Obj? && keys + {k} <= source.fields.Keys
    ensures MergedSome(target, source, keys + {k}) ==
            MergedSome(target, source, keys)[k := MergedEntry(target, source, k)]
  {
  }

  /** The copy has `target`'s keys and the written ones; each written key
      holds its entry and every other key keeps `target`'s value. */
  lemma MergedSomeKeeps(target: Value, source: Value, keys: set<string>)
    requires target.Obj? && source.Obj? && keys <= source.fields.Keys
    ensures MergedSome(target, source, keys).Keys == target.fields.Keys + keys
    ensures forall k :: k in keys ==> MergedSome(target, source, keys)[k] == MergedEntry(target, source, k)
    ensures forall k :: k in target.fields && k !in keys ==> MergedSome(target, source, keys)[k] == target.fields[k]
  {
  }

  /** Between plain objects, the merge is the copy with every key of
      `source` written. */
  lemma MergedObjects(target: Value, source: Value)
    requires target.Obj? && source.Obj?
    ensures Merged(target, source).fields.Keys == target.fields.Keys + source.fields.Keys
    ensures forall k :: k in source.fields ==> Merged(target, source).fields[k] == MergedEntry(target, source, k)
    ensures forall k :: k in target.fields && k !in source.fields ==> Merged(target, source).fields[k] == target.fields[k]
  {
    assert IsObject(target) && IsObject(source);
    MergedSomeKeeps(target, source, source.fields.Keys);
  }

  /** `mergeWithInitialState(data)`: the saved document merged over the
      default state. */
  function MergeWithInitialState(data: Value): (r: Value)
    ensures data.Obj? ==> r.Obj? && r.fields.Keys == InitialState.fields.Keys + data.fields.Keys
    ensures !data.Obj? ==> r == InitialState
  {
    if data.Obj? then
      MergedObjects(InitialState, data);
      Merged(InitialState, data)
    else Merged(InitialState, data)
  }

  // ---------------------------------------------------------------------
  // The merge as the source computes it

  /** `deepMerge` as written: the copy of `target`, then a loop over the
      keys of `source` that assigns into it, recursing for plain objects
      present in `target`. */
  method DeepMerge(target: Value, source: Value) returns (output: Value)
    ensures output == Merged(target, source)
    decreases source
  {
    var out := OwnProps(target);
    if IsObject(target) && IsObject(source) {
      var todo := source.fields.Keys;
      ghost var done: set<string> := {};
      assert out == MergedSome(target, source, done);
      while todo != {}
        invariant todo + done == source.fields.Keys && todo !! done
        invariant out == MergedSome(target, source, done)
        decreases todo
      {
        var key :| key in todo;
        var v := source.fields[key];
        if IsObject(v) {
          if key !in target.fields {
            out := out[key := v];
          } else {
            var m := DeepMerge(target.fields[key], v);
            out := out[key := m];
          }
        } else {
          out := out[key := v];
        }
        MergedSomeStep(target, source, done, key);
        todo := todo - {key};
        done := done + {key};
      }
    }
    output := Obj(out);
  }

  // ---------------------------------------------------------------------
  // Properties

  /** When both arguments are plain objects, the output has exactly the
      keys of both; a key of `target` that `source` lacks keeps `target`'s
      value, and a key of `source` that does not hold a plain object gets
      `source`'s value (`null`, arrays and primitives overwrite). */
  lemma MergeKeys(target: Value, source: Value)
    requires target.Obj? && source.Obj?
    ensures Merged(target, source).fields.Keys == target.fields.Keys + source.fields.Keys
    ensures forall k :: k in target.fields && k !in source.fields ==>
      Merged(target, source).fields[k] == target.fields[k]
    ensures forall k :: k in source.fields && !source.fields[k].Obj? ==>
      Merged(target, source).fields[k] == source.fields[k]
  {
    MergedObjects(target, source);
  }

  /** A plain object of `source` is copied whole when `target` lacks its
      key, and merged into `target`'s value otherwise. */
  lemma MergeObjectEntries(target: Value, source: Value, k: string)
    requires target.Obj? && source.Obj? && k in source.fields && source.fields[k].Obj?
    ensures k in Merged(target, source).fields
    ensures k !in target.fields ==> Merged(target, source).fields[k] == source.fields[k]
    ensures k in target.fields ==>
      Merged(target, source).fields[k] == Merged(target.fields[k], source.fields[k])
  {
    MergedObjects(target, source);
  }

  /** When either argument is not a plain object, the output is a shallow
      copy of `target`: its own properties, as an object. */
  lemma NonObjectGivesCopy(target: Value, source: Value)
    requires !target.Obj? || !source.Obj?
    ensures Merged(target, source) == Obj(OwnProps(target))
    ensures target.Obj? ==> Merged(target, source) == target
  {
  }

  /** Merging the empty object changes nothing. */
  lemma MergeEmpty(target: Value)
    requires target.Obj?
    ensures Merged(target, Obj(map[])) == target
  {
    assert MergedSome(target, Obj(map[]), {}) == target.fields;
  }

  /** Merging an object into itself gives it back. */
  lemma {:induction false} MergeSelf(v: Value)
    requires v.Obj?
    ensures Merged(v, v) == v
    decreases v
  {
    forall k | k in v.fields
      ensures MergedEntry(v, v, k) == v.fields[k]
    {
      if v.fields[k].Obj? {
        MergeSelf(v.fields[k]);
      }
    }
    assert MergedSome(v, v, v.fields.Keys) == v.fields;
  }

  /** `source` fits the shape of `target`: wherever both hold a key and
      `source`'s value is a plain object, `target`'s is one too, and fits in
      turn. */
  predicate Fits(target: Value, source: Value)
    requires target.Obj? && source.Obj?
    decreases source
  {
    forall k :: k in source.fields && source.fields[k].Obj? && k in target.fields ==>
      target.fields[k].Obj? && Fits(target.fields[k], source.fields[k])
  }

  /** `r` carries every leaf of `source`: each key of `source` is in `r`,
      with the same value unless both hold plain objects, in which case
      `r`'s carries `source`'s in turn. */
  predicate Carries(r: Value, source: Value)
    requires source.Obj?
    decreases source
  {
    r.Obj? &&
    forall k :: k in source.fields ==>
      k in r.fields &&
      (if source.fields[k].Obj? then Carries(r.fields[k], source.fields[k])
       else r.fields[k] == source.fields[k])
  }

  /** Every value carries itself. */
  lemma {:induction false} CarriesSelf(v: Value)
    requires v.Obj?
    ensures Carries(v, v)
    decreases v
  {
    forall k | k in v.fields && v.fields[k].Obj?
      ensures Carries(v.fields[k], v.fields[k])
    {
      CarriesSelf(v.fields[k]);
    }
  }

  /** When `source` fits `target`, the merge loses nothing of `source`:
      the saved document's every leaf survives the merge. */
  lemma {:induction false} MergeCarriesSource(target: Value, source: Value)
    requires target.Obj? && source.Obj? && Fits(target, source)
    ensures Carries(Merged(target, source), source)
    decreases source
  {
    var r := Merged(target, source);
    MergedObjects(target, source);
    forall k | k in source.fields && source.fields[k].Obj?
      ensures Carries(r.fields[k], source.fields[k])
    {
      if k in target.fields {
        MergeCarriesSource(target.fields[k], source.fields[k]);
      } else {
        CarriesSelf(source.fields[k]);
      }
    }
  }

  /** A plain object of `source` over a key whose `target` value is not a
      plain object is merged into a copy of that value, so its own leaves
      are lost: `{a: 1}` merged with `{a: {b: 2}}` gives `{a: {}}`. */
  lemma ObjectOverPrimitiveEmptied()
    ensures Merged(Obj(map["a" := Num(1)]), Obj(map["a" := Obj(map["b" := Num(2)])])) ==
            Obj(map["a" := Obj(map[])])
    ensures !Carries(Merged(Obj(map["a" := Num(1)]), Obj(map["a" := Obj(map["b" := Num(2)])])),
                     Obj(map["a" := Obj(map["b" := Num(2)])]))
  {
    var t := Obj(map["a" := Num(1)]);
    var s := Obj(map["a" := Obj(map["b" := Num(2)])]);
    assert Merged(Num(1), Obj(map["b" := Num(2)])) == Obj(map[]);
    MergedObjects(t, s);
    assert Merged(t, s).fields == map["a" := Obj(map[])];
    var sa := Obj(map["b" := Num(2)]);
    assert "b" in sa.fields && "b" !in Obj(map[]).fields;
    assert !Carries(Obj(map[]), sa);
    var r := Merged(t, s);
    assert r.fields["a"] == Obj(map[]) && s.fields["a"] == sa;
    assert !Carries(r, s);
  }

  /** Merging `{a: {b: 5}}` into `{a: {b: 0}, c: {d: []}}` gives
      `{a: {b: 5}, c: {d: []}}`. */
  lemma MergeExample()
    ensures Merged(Obj(map["a" := Obj(map["b" := Num(0)]), "c" := Obj(map["d" := Arr([])])]),
                   Obj(map["a" := Obj(map["b" := Num(5)])])) ==
            Obj(map["a" := Obj(map["b" := Num(5)]), "c" := Obj(map["d" := Arr([])])])
  {
    var ta := Obj(map["b" := Num(0)]);
    var sa := Obj(map["b" := Num(5)]);
    MergedObjects(ta, sa);
    assert Merged(ta, sa) == sa;
    var t := Obj(map["a" := ta, "c" := Obj(map["d" := Arr([])])]);
    var s := Obj(map["a" := sa]);
    MergedObjects(t, s);
    assert Merged(t, s).fields == map["a" := sa, "c" := Obj(map["d" := Arr([])])];
  }
}
