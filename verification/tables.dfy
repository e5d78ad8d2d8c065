/** A table as the engine holds it in memory: the parsed file content
    normalised to an array, scanned for the first record with a given id,
    or filtered to drop every record with that id. */
module Tables {
  import opened JsValues
  import opened JsEquality
  import opened Records

  /** What `JSON.parse` makes of a table file.  An empty file is one of the
      texts that fail to parse. */
  datatype Stored = Unparseable | Parsed(value: Value)

  /** `Array.isArray(v) ? v : [v]`: an array is the table itself, any other
      parsed value is a table holding just that value. */
  function Normalize(v: Value): (t: seq<Value>)
    ensures v.Arr? ==> t == v.elems
    ensures !v.Arr? ==> t == [v]
  {
    if v.Arr? then v.elems else [v]
  }

  /** Which comparison a lookup uses: `===` in readRecord, `==` elsewhere. */
  datatype Equality = Strict | Loose

  /** The comparison of an id with the target; `None` when it throws,
      which only `==` can do. */
  function Matches(eq: Equality, id: Value, target: Value): Option<bool> {
    match eq
    case Strict => Some(StrictEq(id, target))
    case Loose => LooseEq(id, target)
  }

  /** A scan moves past `item`: reading its id and comparing it do not
      throw, and the id does not match the target. */
  predicate PassedOver(item: Value, eq: Equality, target: Value) {
    GetId(item).Some? && Matches(eq, GetId(item).value, target) == Some(false)
  }

  /** `item` is what the scan stops at with a hit. */
  predicate IsHit(item: Value, eq: Equality, target: Value) {
    GetId(item).Some? && Matches(eq, GetId(item).value, target) == Some(true)
  }

  /** The callback throws on `item`: reading `item.id` throws (the element
      is `null` or `undefined`) or comparing the id with the target does. */
  predicate Throws(item: Value, eq: Equality, target: Value) {
    GetId(item).None? || Matches(eq, GetId(item).value, target).None?
  }

  /** Index `i` is where a left-to-right scan stops with a hit: its record
      matches and every record before it is passed over. */
  predicate FirstHitAt(t: seq<Value>, eq: Equality, target: Value, i: int) {
    0 <= i < |t| && IsHit(t[i], eq, target) && forall j :: 0 <= j < i ==> PassedOver(t[j], eq, target)
  }

  /** A scan passes over every record of the table. */
  predicate NoneMatch(t: seq<Value>, eq: Equality, target: Value) {
    forall j :: 0 <= j < |t| ==> PassedOver(t[j], eq, target)
  }

  /** Index `j` holds an element on which the callback throws, and a
      left-to-right scan reaches it before any match. */
  predicate FaultAt(t: seq<Value>, eq: Equality, target: Value, j: int) {
    0 <= j < |t| && Throws(t[j], eq, target) && forall k :: 0 <= k < j ==> PassedOver(t[k], eq, target)
  }

  /** How a left-to-right scan with `item => item.id <eq> target` ends:
      the first matching index, no match at all, or a TypeError at the index
      of the element reached before any match on which the callback throws. */
  datatype Scan = Hit(index: nat) | Miss | Fault(index: nat)

  /** `find`/`findIndex` over the elements from index `from` on. */
  function ScanFrom(t: seq<Value>, eq: Equality, target: Value, from: nat): (r: Scan)
    requires from <= |t|
    ensures r.Hit? ==> from <= r.index < |t| && IsHit(t[r.index], eq, target)
    ensures r.Fault? ==> from <= r.index < |t| && Throws(t[r.index], eq, target)
    ensures forall j :: from <= j < |t| && (r.Miss? || (!r.Miss? && j < r.index)) ==> PassedOver(t[j], eq, target)
    decreases |t| - from
  {
    if from == |t| then Miss
    else
      match GetId(t[from])
      case None => Fault(from)
      case Some(id) =>
        match Matches(eq, id, target)
        case None => Fault(from)
        case Some(true) => Hit(from)
        case Some(false) => ScanFrom(t, eq, target, from + 1)
  }

  /** The scan readRecord and updateRecord run over a whole table: a hit is
      the first match, a miss means nothing matched, and a fault is an
      element reached before any match on which the callback throws. */
  function FindFirst(t: seq<Value>, eq: Equality, target: Value): (r: Scan)
    ensures r.Hit? ==> FirstHitAt(t, eq, target, r.index)
    ensures r.Miss? ==> NoneMatch(t, eq, target)
    ensures r.Fault? ==> FaultAt(t, eq, target, r.index)
  {
    ScanFrom(t, eq, target, 0)
  }

  /** The scan's verdict is determined by the table: it hits at the first
      match, faults at the first throwing element reached before any match,
      and misses exactly when nothing matches. */
  lemma FindFirstExact(t: seq<Value>, eq: Equality, target: Value)
    ensures forall i :: FirstHitAt(t, eq, target, i) ==> FindFirst(t, eq, target) == Hit(i)
    ensures forall j :: FaultAt(t, eq, target, j) ==> FindFirst(t, eq, target) == Fault(j)
    ensures FindFirst(t, eq, target).Miss? <==> NoneMatch(t, eq, target)
  {
  }

  /** The callback `item => keep(item.id)` reads the element's id without
      throwing and answers true. */
  predicate Keeps(item: Value, keep: Value -> Option<bool>) {
    GetId(item).Some? && keep(GetId(item).value) == Some(true)
  }

  /** The callback `item => keep(item.id)` throws on `item`. */
  predicate Rejects(item: Value, keep: Value -> Option<bool>) {
    GetId(item).None? || keep(GetId(item).value).None?
  }

  /** `t.filter(item => keep(item.id))`, where `keep` returns `None` when it
      throws; `None` when the callback throws on some element, which
      `filter` reaches since it visits every element. */
  function Filter(t: seq<Value>, keep: Value -> Option<bool>): (r: Option<seq<Value>>)
    ensures r.Some? ==> |r.value| <= |t|
    decreases |t|
  {
    if |t| == 0 then Some([])
    else
      var last := t[|t| - 1];
      match Filter(t[..|t| - 1], keep)
      case None => None
      case Some(kept) =>
        match GetId(last)
        case None => None
        case Some(id) =>
          match keep(id)
          case None => None
          case Some(b) => if b then Some(kept + [last]) else Some(kept)
  }

  /** The filter throws exactly when the callback throws on some element. */
  lemma {:induction false} FilterFaults(t: seq<Value>, keep: Value -> Option<bool>)
    ensures Filter(t, keep).None? <==> exists j :: 0 <= j < |t| && Rejects(t[j], keep)
    decreases |t|
  {
    if |t| > 0 {
      var front := t[..|t| - 1];
      FilterFaults(front, keep);
      assert forall j :: 0 <= j < |front| ==> front[j] == t[j];
      if Filter(front, keep).None? {
        var j :| 0 <= j < |front| && Rejects(front[j], keep);
        assert Rejects(t[j], keep);
      }
    }
  }

  /** The filter keeps exactly the elements the callback accepts. */
  lemma {:induction false} FilterMembers(t: seq<Value>, keep: Value -> Option<bool>)
    requires Filter(t, keep).Some?
    ensures forall x :: x in Filter(t, keep).value <==> x in t && Keeps(x, keep)
    decreases |t|
  {
    if |t| > 0 {
      var front, last := t[..|t| - 1], t[|t| - 1];
      assert t == front + [last];
      FilterMembers(front, keep);
    }
  }

  /** Filtering distributes over concatenation, so it keeps the surviving
      elements in their original order. */
  lemma {:induction false} FilterConcat(a: seq<Value>, b: seq<Value>, keep: Value -> Option<bool>)
    requires Filter(a, keep).Some? && Filter(b, keep).Some?
    ensures Filter(a + b, keep) == Some(Filter(a, keep).value + Filter(b, keep).value)
    decreases |b|
  {
    if |b| == 0 {
      assert a + b == a;
      assert Filter(a, keep).value + Filter(b, keep).value == Filter(a, keep).value;
    } else {
      var front, last := b[..|b| - 1], b[|b| - 1];
      var ab := a + b;
      assert ab[..|ab| - 1] == a + front && ab[|ab| - 1] == last;
      FilterConcat(a, front, keep);
      var wa, wf := Filter(a, keep).value, Filter(front, keep).value;
      if keep(GetId(last).value) == Some(true) {
        assert (wa + wf) + [last] == wa + (wf + [last]);
      }
    }
  }

  /** A sequence whose every element the callback accepts is left as it is. */
  lemma {:induction false} FilterKeepsAll(t: seq<Value>, keep: Value -> Option<bool>)
    requires forall j :: 0 <= j < |t| ==> Keeps(t[j], keep)
    ensures Filter(t, keep) == Some(t)
    decreases |t|
  {
    if |t| > 0 {
      assert t == t[..|t| - 1] + [t[|t| - 1]];
      FilterKeepsAll(t[..|t| - 1], keep);
    }
  }

  /** A filter that drops nothing returns its input. */
  lemma {:induction false} FilterFull(t: seq<Value>, keep: Value -> Option<bool>)
    requires Filter(t, keep).Some? && |Filter(t, keep).value| >= |t|
    ensures Filter(t, keep).value == t
    decreases |t|
  {
    if |t| > 0 {
      var front := t[..|t| - 1];
      assert t == front + [t[|t| - 1]];
      FilterFull(front, keep);
    }
  }

  /** The callback of delete: keep the records whose id is not `==` the target. */
  function Differs(target: Value): Value -> Option<bool> {
    id => LooseNe(id, target)
  }

  /** `t.filter(item => item.id != target)`. */
  function Without(t: seq<Value>, target: Value): (r: Option<seq<Value>>)
    ensures r.Some? ==> |r.value| <= |t|
  {
    Filter(t, Differs(target))
  }

  /** The delete callback accepts exactly the records the scan passes over,
      and throws exactly where the scan's `==` callback throws. */
  lemma KeepsIsPassedOver(x: Value, target: Value)
    ensures Keeps(x, Differs(target)) <==> PassedOver(x, Loose, target)
    ensures Rejects(x, Differs(target)) <==> Throws(x, Loose, target)
  {
  }

  /** Delete's filter throws exactly when some element is `null` or
      `undefined` or has an id whose `!=` with the target throws. */
  lemma WithoutFaults(t: seq<Value>, target: Value)
    ensures Without(t, target).None? <==> exists j :: 0 <= j < |t| && Throws(t[j], Loose, target)
  {
    FilterFaults(t, Differs(target));
    forall j | 0 <= j < |t| ensures Rejects(t[j], Differs(target)) <==> Throws(t[j], Loose, target) {
      KeepsIsPassedOver(t[j], target);
    }
  }

  /** Delete's filter keeps exactly the records that the scan passes over. */
  lemma WithoutMembers(t: seq<Value>, target: Value)
    requires Without(t, target).Some?
    ensures forall x :: x in Without(t, target).value <==> x in t && PassedOver(x, Loose, target)
  {
    FilterMembers(t, Differs(target));
    forall x ensures Keeps(x, Differs(target)) <==> PassedOver(x, Loose, target) {
      KeepsIsPassedOver(x, target);
    }
  }

  /** Deleting from a concatenation deletes from each part, keeping the
      surviving records in their original order. */
  lemma WithoutConcat(a: seq<Value>, b: seq<Value>, target: Value)
    requires Without(a, target).Some? && Without(b, target).Some?
    ensures Without(a + b, target) == Some(Without(a, target).value + Without(b, target).value)
  {
    FilterConcat(a, b, Differs(target));
  }

  /** A table in which no record matches is left as it is. */
  lemma WithoutNoMatch(t: seq<Value>, target: Value)
    requires forall j :: 0 <= j < |t| ==> PassedOver(t[j], Loose, target)
    ensures Without(t, target) == Some(t)
  {
    forall j | 0 <= j < |t| ensures Keeps(t[j], Differs(target)) {
      KeepsIsPassedOver(t[j], target);
    }
    FilterKeepsAll(t, Differs(target));
  }

  /** Deleting twice is deleting once. */
  lemma WithoutIdempotent(t: seq<Value>, target: Value)
    requires Without(t, target).Some?
    ensures Without(Without(t, target).value, target) == Without(t, target)
  {
    var kept := Without(t, target).value;
    WithoutMembers(t, target);
    forall j | 0 <= j < |kept| ensures PassedOver(kept[j], Loose, target) {
      assert kept[j] in kept;
    }
    WithoutNoMatch(kept, target);
  }

  /** The filter removes something exactly when the first-match scan with
      the same loose comparison finds a hit. */
  lemma WithoutShrinksIffFound(t: seq<Value>, target: Value)
    requires Without(t, target).Some?
    ensures |Without(t, target).value| < |t| <==> FindFirst(t, Loose, target).Hit?
  {
    var r := FindFirst(t, Loose, target);
    match r
    case Hit(i) => WithoutDropsHit(t, target, i);
    case Miss => WithoutNoMatch(t, target);
    case Fault(i) => WithoutFaults(t, target);
  }

  /** A matching record is dropped, so the filter shrinks the table. */
  lemma WithoutDropsHit(t: seq<Value>, target: Value, i: nat)
    requires Without(t, target).Some?
    requires i < |t| && IsHit(t[i], Loose, target)
    ensures |Without(t, target).value| < |t|
  {
    WithoutMembers(t, target);
    assert t[i] in t && t[i] !in Without(t, target).value;
    if |Without(t, target).value| >= |t| {
      FilterFull(t, Differs(target));
    }
  }
}
