/** JavaScript values as the record engine sees them: whatever `JSON.parse`
    can return, plus `undefined`, which is what a missing property reads as
    and what a caller may pass as a target id. */
module JsValues {

  datatype Option<+T> = None | Some(value: T)

  /** Numbers are modelled as mathematical integers; arrays and plain objects
      are the two kinds of JavaScript object a parsed table can hold.  An
      object keeps its own properties in insertion order, because spreading
      and stringifying depend on that order. */
  datatype Value =
    | Undefined
    | Null
    | Bool(b: bool)
    | Num(n: int)
    | Str(s: string)
    | Arr(elems: seq<Value>)
    | Obj(fields: seq<Field>)

  datatype Field = Field(key: string, val: Value)

  /** Arrays and plain objects are compared by reference in JavaScript. */
  predicate IsObject(v: Value) {
    v.Arr? || v.Obj?
  }

  /** JavaScript truthiness (ToBoolean). */
  predicate Truthy(v: Value) {
    match v
    case Undefined => false
    case Null => false
    case Bool(b) => b
    case Num(n) => n != 0
    case Str(s) => s != ""
    case Arr(_) => true
    case Obj(_) => true
  }

  /** The own property names of an object. */
  function Keys(fs: seq<Field>): set<string> {
    if |fs| == 0 then {} else {fs[0].key} + Keys(fs[1..])
  }

  /** No property name occurs twice; every object JavaScript builds has this. */
  predicate DistinctKeys(fs: seq<Field>) {
    |fs| == 0 || (fs[0].key !in Keys(fs[1..]) && DistinctKeys(fs[1..]))
  }

  /** Reads property `k` of an object: the value of the first field named `k`,
      or `None` when the object has no such own property. */
  function Lookup(fs: seq<Field>, k: string): (r: Option<Value>)
    ensures r.None? <==> k !in Keys(fs)
    ensures r.Some? ==> Field(k, r.value) in fs
  {
    if |fs| == 0 then None
    else if fs[0].key == k then Some(fs[0].val)
    else Lookup(fs[1..], k)
  }
}
