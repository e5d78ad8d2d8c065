/** Concrete runs of the record operations, one call after another. */
module Scenarios {
  import opened JsValues
  import opened JsEquality
  import opened Records
  import opened Tables
  import opened CrudEngine

  const RecordA := Obj([Field("id", Num(1)), Field("name", Str("a"))])
  const RecordB := Obj([Field("id", Num(1)), Field("name", Str("b"))])

  /** Create, update, read, delete and read again, starting from an empty
      table file. */
  lemma Lifecycle()
    ensures CreateRecord(Disk(Read(Unparseable), true), RecordA) == Outcome(Some([RecordA]), Returned(CreateSucceeded))
    ensures UpdateRecord(Disk(Read(Parsed(Arr([RecordA]))), true), Num(1), Obj([Field("name", Str("b"))]))
      == Outcome(Some([RecordB]), Returned(Bool(true)))
    ensures ReadRecord(Disk(Read(Parsed(Arr([RecordB]))), true), Num(1)) == Outcome(None, Returned(RecordB))
    ensures DeleteRecord(Disk(Read(Parsed(Arr([RecordB]))), true), Num(1)) == Outcome(Some([]), Returned(Bool(true)))
    ensures ReadRecord(Disk(Read(Parsed(Arr([]))), true), Num(1)) == Outcome(None, Returned(Null))
  {
    CreateStep();
    UpdateStep();
    ReadStep();
    DeleteStep();
    ReadAfterDeleteStep();
  }

  lemma CreateStep()
    ensures CreateRecord(Disk(Read(Unparseable), true), RecordA) == Outcome(Some([RecordA]), Returned(CreateSucceeded))
  {
    assert [] + [RecordA] == [RecordA];
  }

  lemma ReadStep()
    ensures ReadRecord(Disk(Read(Parsed(Arr([RecordB]))), true), Num(1)) == Outcome(None, Returned(RecordB))
  {
    assert GetId(RecordB) == Some(Num(1));
    assert FirstHitAt([RecordB], Strict, Num(1), 0);
  }

  lemma ReadAfterDeleteStep()
    ensures ReadRecord(Disk(Read(Parsed(Arr([]))), true), Num(1)) == Outcome(None, Returned(Null))
  {
    assert NoneMatch([], Strict, Num(1));
  }

  lemma UpdateStep()
    ensures UpdateRecord(Disk(Read(Parsed(Arr([RecordA]))), true), Num(1), Obj([Field("name", Str("b"))]))
      == Outcome(Some([RecordB]), Returned(Bool(true)))
  {
    var a, b := RecordA, RecordB;
    assert FirstHitAt([a], Loose, Num(1), 0);
    assert Put([], "id", Num(1)) == [Field("id", Num(1))];
    assert Put([Field("id", Num(1))], "name", Str("a")) == a.fields;
    assert Put(a.fields, "name", Str("b")) == b.fields;
    assert Merge(a, Obj([Field("name", Str("b"))])) == b;
    assert [a][0 := b] == [b];
  }

  lemma DeleteStep()
    ensures DeleteRecord(Disk(Read(Parsed(Arr([RecordB]))), true), Num(1)) == Outcome(Some([]), Returned(Bool(true)))
  {
    var b := RecordB;
    assert [b][..0] == [] && GetId(b) == Some(Num(1)) && LooseEq(Num(1), Num(1)) == Some(true);
    assert Differs(Num(1))(Num(1)) == Some(false);
    assert Filter([b], Differs(Num(1))) == Some([]);
  }

  /** A file holding one bare object is a one-record table. */
  lemma BareObject(writeOk: bool)
    ensures var r := Obj([Field("id", Num(5))]);
      ReadRecord(Disk(Read(Parsed(r)), writeOk), Num(5)) == Outcome(None, Returned(r))
  {
    var r := Obj([Field("id", Num(5))]);
    assert GetId(r) == Some(Num(5));
    assert FirstHitAt([r], Strict, Num(5), 0);
  }

  /** A parsed object whose own `toString` property is not a function. */
  const Unprintable := Obj([Field("toString", Num(1))])

  /** An id that cannot be converted stops the loose scans: comparing it
      with `==` or `!=` throws, so updateRecord and deleteRecord write
      nothing and resolve `undefined`, while readRecord's `===` converts
      nothing and still finds the later record. */
  lemma UnprintableId(patch: Value, writeOk: bool)
    ensures var t := [Obj([Field("id", Unprintable)]), Obj([Field("id", Num(5))])];
      var disk := Disk(Read(Parsed(Arr(t))), writeOk);
      && UpdateRecord(disk, Num(5), patch) == Outcome(None, Returned(Undefined))
      && DeleteRecord(disk, Num(5)) == Outcome(None, Returned(Undefined))
      && ReadRecord(disk, Num(5)) == Outcome(None, Returned(t[1]))
  {
    var t := [Obj([Field("id", Unprintable)]), Obj([Field("id", Num(5))])];
    assert HasOwnToString(Unprintable.fields);
    assert LooseEq(Unprintable, Num(5)).None?;
    assert FaultAt(t, Loose, Num(5), 0);
    assert Throws(t[0], Loose, Num(5));
    WithoutFaults(t, Num(5));
    assert FirstHitAt(t, Strict, Num(5), 1);
  }

  /** A target that cannot be converted to text meets a record without an
      `id`: `undefined != target` converts nothing, so deleteRecord writes
      the table back and then throws while logging the target, resolving
      `undefined`; readRecord resolves `undefined` instead of `null`. */
  lemma UnprintableTarget(writeOk: bool)
    ensures var t := [Obj([Field("name", Str("a"))])];
      var disk := Disk(Read(Parsed(Arr(t))), writeOk);
      && DeleteRecord(disk, Unprintable) == Outcome(Some(t), Returned(Undefined))
      && ReadRecord(disk, Unprintable) == Outcome(None, Returned(Undefined))
  {
    var t := [Obj([Field("name", Str("a"))])];
    assert GetId(t[0]) == Some(Undefined);
    assert ToStringThrows(Unprintable);
    assert NoneMatch(t, Strict, Unprintable);
    assert Differs(Unprintable)(Undefined) == Some(true);
    assert t[..0] == [] && Filter([], Differs(Unprintable)) == Some([]);
    assert Filter(t, Differs(Unprintable)) == Some([] + [t[0]]);
    assert [] + [t[0]] == t;
  }
}
