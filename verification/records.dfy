/** A record's `id` property and the shallow merge `{...old, ...patch}`. */
module Records {
  import opened JsValues
  import opened JsNumbers

  /** Reads `item.id`.  `None` is the TypeError that reading a property of
      `null` or `undefined` throws; a plain object yields its own `id`
      property or `undefined`; no other value has an `id` property. */
  function GetId(item: Value): (r: Option<Value>)
    ensures r.None? <==> item.Null? || item.Undefined?
    ensures item.Obj? && "id" in Keys(item.fields) ==> r.Some? && Field("id", r.value) in item.fields
    ensures !item.Obj? || "id" !in Keys(item.fields) ==> r.Some? ==> r.value == Undefined
  {
    match item
    case Undefined => None
    case Null => None
    case Obj(fs) =>
      (match Lookup(fs, "id")
       case Some(v) => Some(v)
       case None => Some(Undefined))
    case _ => Some(Undefined)
  }

  /** Fields keyed by position, as spreading an array or a string yields them. */
  function IndexedFields(vs: seq<Value>): (fs: seq<Field>)
    ensures |fs| == |vs|
    ensures forall i :: 0 <= i < |vs| ==> fs[i] == Field(NatToString(i), vs[i])
  {
    seq(|vs|, i requires 0 <= i < |vs| => Field(NatToString(i), vs[i]))
  }

  /** The own enumerable properties that `...v` copies, in order: an object's
      fields, an array's elements or a string's characters keyed by index,
      and nothing for null, undefined, booleans and numbers. */
  function SpreadFields(v: Value): seq<Field> {
    match v
    case Obj(fs) => fs
    case Arr(es) => IndexedFields(es)
    case Str(s) => IndexedFields(seq(|s|, i requires 0 <= i < |s| => Str([s[i]])))
    case _ => []
  }

  /** Defines property `k` as `v`: an existing property keeps its position and
      takes the new value, a new one is appended. */
  function Put(fs: seq<Field>, k: string, v: Value): (r: seq<Field>)
    ensures Keys(r) == Keys(fs) + {k}
    ensures |r| == if k in Keys(fs) then |fs| else |fs| + 1
  {
    if |fs| == 0 then [Field(k, v)]
    else if fs[0].key == k then [Field(k, v)] + fs[1..]
    else
      var r := [fs[0]] + Put(fs[1..], k, v);
      assert r[1..] == Put(fs[1..], k, v);
      r
  }

  lemma {:induction false} PutPrefix(fs: seq<Field>, k: string, v: Value)
    ensures forall i :: 0 <= i < |fs| ==> Put(fs, k, v)[i].key == fs[i].key
    decreases |fs|
  {
    if |fs| > 0 && fs[0].key != k {
      PutPrefix(fs[1..], k, v);
      assert Put(fs, k, v)[1..] == Put(fs[1..], k, v);
    }
  }

  lemma {:induction false} PutLookup(fs: seq<Field>, k: string, v: Value, k': string)
    ensures Lookup(Put(fs, k, v), k') == if k' == k then Some(v) else Lookup(fs, k')
    decreases |fs|
  {
    if |fs| > 0 && fs[0].key != k {
      PutLookup(fs[1..], k, v, k');
      assert Put(fs, k, v)[1..] == Put(fs[1..], k, v);
    }
  }

  lemma {:induction false} PutDistinct(fs: seq<Field>, k: string, v: Value)
    requires DistinctKeys(fs)
    ensures DistinctKeys(Put(fs, k, v))
    decreases |fs|
  {
    if |fs| > 0 && fs[0].key != k {
      PutDistinct(fs[1..], k, v);
      assert Put(fs, k, v)[1..] == Put(fs[1..], k, v);
    }
  }

  lemma {:induction false} PutFresh(fs: seq<Field>, k: string, v: Value)
    requires k !in Keys(fs)
    ensures Put(fs, k, v) == fs + [Field(k, v)]
    decreases |fs|
  {
    if |fs| > 0 {
      PutFresh(fs[1..], k, v);
      assert fs == [fs[0]] + fs[1..];
    }
  }

  /** Copies the fields of `src` onto `target` one by one, as an object
      literal's spread element does. */
  function Assign(target: seq<Field>, src: seq<Field>): seq<Field>
    decreases |src|
  {
    if |src| == 0 then target else Assign(Put(target, src[0].key, src[0].val), src[1..])
  }

  /** `{...old, ...patch}`. */
  function Merge(base: Value, patch: Value): (r: Value)
    ensures r.Obj? && Keys(r.fields) == Keys(SpreadFields(base)) + Keys(SpreadFields(patch))
  {
    var copy := Assign([], SpreadFields(base));
    AssignKeys([], SpreadFields(base));
    AssignKeys(copy, SpreadFields(patch));
    Obj(Assign(copy, SpreadFields(patch)))
  }

  /** Copying fields onto `target` yields the union of the keys, with
      `target`'s keys kept in their positions at the front. */
  lemma {:induction false} AssignKeys(target: seq<Field>, src: seq<Field>)
    ensures var r := Assign(target, src);
      && Keys(r) == Keys(target) + Keys(src)
      && |r| >= |target|
      && (forall i :: 0 <= i < |target| ==> r[i].key == target[i].key)
    decreases |src|
  {
    if |src| > 0 {
      var t1 := Put(target, src[0].key, src[0].val);
      PutPrefix(target, src[0].key, src[0].val);
      AssignKeys(t1, src[1..]);
    }
  }

  /** Copying fields never introduces a duplicate key. */
  lemma {:induction false} AssignDistinct(target: seq<Field>, src: seq<Field>)
    requires DistinctKeys(target)
    ensures DistinctKeys(Assign(target, src))
    decreases |src|
  {
    if |src| > 0 {
      PutDistinct(target, src[0].key, src[0].val);
      AssignDistinct(Put(target, src[0].key, src[0].val), src[1..]);
    }
  }

  /** Copying a duplicate-free field list: a copied key takes its copied
      value, every other key keeps the value it had in `target`. */
  lemma {:induction false} AssignLookup(target: seq<Field>, src: seq<Field>, k: string)
    requires DistinctKeys(src)
    ensures Lookup(Assign(target, src), k) == if k in Keys(src) then Lookup(src, k) else Lookup(target, k)
    decreases |src|
  {
    if |src| > 0 {
      PutLookup(target, src[0].key, src[0].val, k);
      AssignLookup(Put(target, src[0].key, src[0].val), src[1..], k);
    }
  }

  lemma {:induction false} KeysConcat(a: seq<Field>, b: seq<Field>)
    ensures Keys(a + b) == Keys(a) + Keys(b)
    decreases |a|
  {
    if |a| > 0 {
      assert (a + b)[0] == a[0] && (a + b)[1..] == a[1..] + b;
      KeysConcat(a[1..], b);
    } else {
      assert a + b == b;
    }
  }

  /** Copying fields whose keys are all new appends them in order; in
      particular spreading an object into `{}` reproduces its fields. */
  lemma {:induction false} AssignFresh(target: seq<Field>, src: seq<Field>)
    requires DistinctKeys(src) && Keys(target) !! Keys(src)
    ensures Assign(target, src) == target + src
    decreases |src|
  {
    if |src| > 0 {
      var f, rest := src[0], src[1..];
      assert f.key !in Keys(target) && Keys(src) == {f.key} + Keys(rest);
      PutFresh(target, f.key, f.val);
      assert Assign(target, src) == Assign(target + [f], rest);
      KeysConcat(target, [f]);
      assert Keys([f]) == {f.key};
      assert Keys(target + [f]) !! Keys(rest);
      AssignFresh(target + [f], rest);
      assert (target + [f]) + rest == target + src;
    }
  }

  /** The shallow merge of two plain objects: every key of the patch takes
      the patch's value, every other key of the old record keeps its value,
      no other key appears, and the old keys keep their order in front. */
  lemma MergeSpec(base: seq<Field>, patch: seq<Field>)
    requires DistinctKeys(base) && DistinctKeys(patch)
    ensures Merge(Obj(base), Obj(patch)).Obj?
    ensures var r := Merge(Obj(base), Obj(patch)).fields;
      && Keys(r) == Keys(base) + Keys(patch)
      && DistinctKeys(r)
      && |r| >= |base|
      && (forall i :: 0 <= i < |base| ==> r[i].key == base[i].key)
      && (forall k :: k in Keys(patch) ==> Lookup(r, k) == Lookup(patch, k))
      && (forall k :: k !in Keys(patch) ==> Lookup(r, k) == Lookup(base, k))
  {
    AssignFresh([], base);
    assert [] + base == base;
    AssignKeys(base, patch);
    AssignDistinct(base, patch);
    forall k ensures Lookup(Assign(base, patch), k) == if k in Keys(patch) then Lookup(patch, k) else Lookup(base, k) {
      AssignLookup(base, patch, k);
    }
  }

  /** Spreading a duplicate-free object into `{}` copies it as it is, so the
      merge is the patch copied onto the old record. */
  lemma MergeOntoBase(base: seq<Field>, patch: seq<Field>)
    requires DistinctKeys(base)
    ensures Merge(Obj(base), Obj(patch)) == Obj(Assign(base, patch))
  {
    AssignFresh([], base);
    assert [] + base == base;
  }

  /** Updating a record with a one-field patch `{k: v}` sets `k` and leaves
      every other property as it was. */
  lemma SingleFieldPatch(base: seq<Field>, k: string, v: Value)
    requires DistinctKeys(base)
    ensures var r := Merge(Obj(base), Obj([Field(k, v)])).fields;
      && Lookup(r, k) == Some(v)
      && (forall k' :: k' != k ==> Lookup(r, k') == Lookup(base, k'))
      && Keys(r) == Keys(base) + {k}
  {
    var patch := [Field(k, v)];
    MergeOntoBase(base, patch);
    assert patch[1..] == [];
    assert Assign(base, patch) == Put(base, k, v);
    forall k' ensures Lookup(Put(base, k, v), k') == if k' == k then Some(v) else Lookup(base, k') {
      PutLookup(base, k, v, k');
    }
  }
}
