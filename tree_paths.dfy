/** Reading and writing the state tree along a path of property names, the
    way `applyDiff` and `applyArrayDiff` reach into `this.state` through
    `currentState[key]` and `currentArray[index]` and assign in place. */
module TreePaths {
  import opened Wrappers
  import opened JsValue

  /** Whether the assignment `v[k] = x` stores `x`: always on an object, and
      on an array for the name of one of its positions. */
  predicate CanSet(v: Value, k: string)
  {
    v.Obj? || (v.Arr? && IndexOf(k, |v.items|).Some?)
  }

  /** The assignment `v[k] = x` (a value without a settable slot `k` is left
      as it is). */
  function Set(v: Value, k: string, x: Value): (r: Value)
    ensures r.Obj? == v.Obj? && r.Arr? == v.Arr?
    ensures CanSet(v, k) ==> CanSet(r, k) && Get(r, k) == x
  {
    match v
    case Obj(f) => Obj(f[k := x])
    case Arr(items) =>
      var i := IndexOf(k, |items|);
      if i.Some? then Arr(items[i.value := x]) else v
    case _ => v
  }

  /** The value reached from `v` by reading the properties of `path` in
      turn. */
  function At(v: Value, path: seq<string>): Value
    decreases path
  {
    if path == [] then v else At(Get(v, path[0]), path[1..])
  }

  /** Whether `v` is an object or an array that has the property `k`. */
  predicate Present(v: Value, k: string)
  {
    (v.Obj? && k in v.fields) || (v.Arr? && IndexOf(k, |v.items|).Some?)
  }

  /** Every property along `path` exists on an object or an array, so each
      assignment along it stores its value. */
  predicate Settable(v: Value, path: seq<string>)
    decreases path
  {
    path == [] || (Present(v, path[0]) && Settable(Get(v, path[0]), path[1..]))
  }

  /** `v` with the value at `path` replaced by `x`. */
  function Put(v: Value, path: seq<string>, x: Value): (r: Value)
    ensures path != [] ==> r.Obj? == v.Obj?
    ensures path == [] ==> r == x
    decreases path
  {
    if path == [] then x else Set(v, path[0], Put(Get(v, path[0]), path[1..], x))
  }

  /** The items of `v` when it is the target of an `array` entry; any
      other value is replaced by `[]`. */
  function Items(v: Value): seq<Value>
  {
    if v.Arr? then v.items else []
  }

  /** Assigning at `path` the value already there changes nothing. */
  lemma {:induction false} PutAtSelf(v: Value, path: seq<string>)
    requires Settable(v, path)
    ensures Put(v, path, At(v, path)) == v
    decreases path
  {
    if path != [] {
      PutAtSelf(Get(v, path[0]), path[1..]);
      match v
      case Obj(f) =>
        assert f[path[0] := f[path[0]]] == f;
      case Arr(items) =>
        var i := IndexOf(path[0], |items|).value;
        assert items[i := items[i]] == items;
    }
  }

  /** Assigning a property the defined value it already holds changes
      nothing. */
  lemma SetToSelf(v: Value, k: string)
    requires CanSet(v, k) && Get(v, k) != Undefined
    ensures Set(v, k, Get(v, k)) == v
  {
    match v
    case Obj(f) =>
      assert f[k := f[k]] == f;
    case Arr(items) =>
      var i := IndexOf(k, |items|).value;
      assert items[i := items[i]] == items;
  }

  /** After `v[k] = a` the property exists and reads back `a`, and a
      second assignment to it overrides the first. */
  lemma SetTwice(v: Value, k: string, a: Value, b: Value)
    requires CanSet(v, k)
    ensures Present(Set(v, k, a), k) && Get(Set(v, k, a), k) == a
    ensures Set(Set(v, k, a), k, b) == Set(v, k, b)
  {
    match v
    case Obj(f) =>
      assert f[k := a][k := b] == f[k := b];
    case Arr(items) =>
      var i := IndexOf(k, |items|).value;
      assert items[i := a][i := b] == items[i := b];
  }

  /** After the subtree at `path` is replaced by an object or an array `x`,
      one more step into `x` is reached through the whole path (and is
      settable when `x` has that property), and a second
      assignment one level deeper amounts to assigning into `x` at the same
      path. */
  lemma {:induction false} WriteChild(v: Value, path: seq<string>, x: Value, k: string, y: Value)
    requires Settable(v, path) && CanSet(x, k)
    ensures Present(x, k) ==> Settable(Put(v, path, x), path + [k])
    ensures At(Put(v, path, x), path + [k]) == Get(x, k)
    ensures Put(Put(v, path, x), path + [k], y) == Put(v, path, Set(x, k, y))
    decreases path
  {
    if path != [] {
      var h, rest, c := path[0], path[1..], Get(v, path[0]);
      WriteChild(c, rest, x, k, y);
      assert (path + [k])[0] == h && (path + [k])[1..] == rest + [k];
      var inner := Put(c, rest, x);
      assert Put(v, path, x) == Set(v, h, inner);
      SetTwice(v, h, inner, Put(c, rest, Set(x, k, y)));
    }
  }

  /** After assigning `x` at a settable path, the path still exists and
      leads to `x`. */
  lemma {:induction false} PutAt(v: Value, path: seq<string>, x: Value)
    requires Settable(v, path)
    ensures Settable(Put(v, path, x), path) && At(Put(v, path, x), path) == x
    decreases path
  {
    if path != [] {
      PutAt(Get(v, path[0]), path[1..], x);
    }
  }

  /** Once `x[k]` holds `y` at `path`, the path one level deeper leads to
      `y`, and assigning `z` there amounts to `x[k] = z` at `path`. */
  lemma ReplaceChild(v: Value, path: seq<string>, x: Value, k: string, y: Value, z: Value)
    requires Settable(v, path) && CanSet(x, k)
    ensures Settable(Put(v, path, Set(x, k, y)), path + [k])
    ensures At(Put(v, path, Set(x, k, y)), path + [k]) == y
    ensures Put(Put(v, path, Set(x, k, y)), path + [k], z) == Put(v, path, Set(x, k, z))
  {
    SetTwice(x, k, y, z);
    WriteChild(v, path, Set(x, k, y), k, z);
  }

}
