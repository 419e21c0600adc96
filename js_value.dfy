/** The JSON-like JavaScript values the state tree is made of, and the few
    pieces of JavaScript semantics the store relies on: `typeof`,
    `Object.keys`, property reads, truthiness and the equality that
    `JSON.stringify(a) === JSON.stringify(b)` decides. */
module JsValue {
  import opened Wrappers
  import opened Strings

  /** A JavaScript value as it occurs in the state tree. `Undefined` stands
      both for the `undefined` value and for a property that is absent;
      numbers are modelled as integers. */
  datatype Value =
    | Undefined
    | Null
    | Bool(b: bool)
    | Num(n: int)
    | Str(s: string)
    | Arr(items: seq<Value>)
    | Obj(fields: map<string, Value>)

  /** The answer of `typeof`. */
  datatype TypeTag = TUndefined | TObject | TBoolean | TNumber | TString

  function TypeOf(v: Value): TypeTag
  {
    match v
    case Undefined => TUndefined
    case Null => TObject
    case Bool(_) => TBoolean
    case Num(_) => TNumber
    case Str(_) => TString
    case Arr(_) => TObject
    case Obj(_) => TObject
  }

  /** JavaScript truthiness. */
  predicate Truthy(v: Value)
  {
    match v
    case Undefined => false
    case Null => false
    case Bool(b) => b
    case Num(n) => n != 0
    case Str(s) => s != ""
    case Arr(_) => true
    case Obj(_) => true
  }

  /** Values `Object.keys` accepts (it throws on null and undefined). */
  predicate Coercible(v: Value)
  {
    !v.Undefined? && !v.Null?
  }

  /** The position whose property name is `k`, among the first `n`
      positions: `k` must be the decimal rendering of a position below `n`. */
  function IndexOf(k: string, n: nat): (r: Option<nat>)
    ensures r.Some? ==> r.value < n && Decimal(r.value) == k
  {
    if n == 0 then None
    else if k == Decimal(n - 1) then Some(n - 1)
    else IndexOf(k, n - 1)
  }

  /** An object or array read from a property lies strictly inside the
      value it was read from. */
  lemma GetBelow(v: Value, k: string)
    requires Get(v, k).Obj? || Get(v, k).Arr?
    ensures Get(v, k) < v
  {
    if v.Arr? {
      var i := IndexOf(k, |v.items|);
      assert v.items[i.value] in v.items;
    }
  }

  /** The property names `"0"`, ..., of the first `n` positions. */
  function IndexKeys(n: nat): (r: set<string>)
    ensures forall k :: k in r <==> IndexOf(k, n).Some?
  {
    if n == 0 then {} else IndexKeys(n - 1) + {Decimal(n - 1)}
  }

  /** Position `i` is found again from its property name. */
  lemma {:induction false} IndexOfDecimal(i: nat, n: nat)
    requires i < n
    ensures IndexOf(Decimal(i), n) == Some(i)
  {
    if Decimal(i) == Decimal(n - 1) {
      DecimalInjective(i, n - 1);
    } else {
      IndexOfDecimal(i, n - 1);
    }
  }

  /** `Object.keys(v)`, as a set: the own keys of an object, the index keys
      of an array or a string, nothing for the other primitives. */
  function Keys(v: Value): set<string>
  {
    match v
    case Obj(f) => f.Keys
    case Arr(items) => IndexKeys(|items|)
    case Str(s) => IndexKeys(|s|)
    case _ => {}
  }

  /** The property read `v[k]` for the keys `Keys` lists; every other read
      gives `undefined`. */
  function Get(v: Value, k: string): (r: Value)
    ensures k !in Keys(v) ==> r == Undefined
    ensures v.Obj? && k in v.fields ==> r == v.fields[k]
  {
    match v
    case Obj(f) => if k in f then f[k] else Undefined
    case Arr(items) =>
      var i := IndexOf(k, |items|);
      if i.Some? then items[i.value] else Undefined
    case Str(s) =>
      var i := IndexOf(k, |s|);
      if i.Some? then Str([s[i.value]]) else Undefined
    case _ => Undefined
  }

  /** The own enumerable properties of `v` as a plain object: what
      `Object.assign({}, v)` copies. */
  function OwnProps(v: Value): (m: map<string, Value>)
    ensures m.Keys == Keys(v)
    ensures forall k :: k in m ==> m[k] == Get(v, k)
  {
    map k | k in Keys(v) :: Get(v, k)
  }

  /** What `JSON.parse(JSON.stringify(v))` keeps of `v`: object properties
      holding `undefined` disappear and `undefined` array items become
      `null`. Two values serialise to the same text exactly when their
      normal forms agree (property order aside). */
  function Normalize(v: Value): Value
  {
    match v
    case Obj(f) => Obj(map k | k in f && f[k] != Undefined :: Normalize(f[k]))
    case Arr(items) => Arr(NormalizeItems(items))
    case _ => v
  }

  /** The items of a serialised array: `undefined` items become `null`. */
  function NormalizeItems(items: seq<Value>): (r: seq<Value>)
    ensures |r| == |items|
  {
    if items == [] then []
    else [if items[0] == Undefined then Null else Normalize(items[0])] + NormalizeItems(items[1..])
  }
}
