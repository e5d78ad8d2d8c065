/** Properties that relate several calls of the record operations.  After a
    successful write the file holds the stringified array, and parsing it
    back gives that array again, so a following call reads
    `Parsed(Arr(written))`. */
module EngineProperties {
  import opened JsValues
  import opened JsNumbers
  import opened JsEquality
  import opened Records
  import opened Tables
  import opened CrudEngine

  /** updateRecord rewrites only the first loosely matching record: the
      table keeps its length, every other index keeps its record, and when
      record and patch are plain objects the merged record takes the
      patch's value for every patch key, keeps its own value for every other
      key, and gains no key from elsewhere. */
  lemma UpdateChangesOnlyFirstMatch(v: Value, target: Value, patch: Value, writeOk: bool, i: nat)
    requires FirstHitAt(Normalize(v), Loose, target, i)
    ensures var t := Normalize(v);
      var o := UpdateRecord(Disk(Read(Parsed(v)), writeOk), target, patch);
      && o.write.Some?
      && |o.write.value| == |t|
      && (forall j :: 0 <= j < |t| && j != i ==> o.write.value[j] == t[j])
      && o.write.value[i] == Merge(t[i], patch)
      && (writeOk <==> o.completion == Returned(Bool(true)))
    ensures var t := Normalize(v);
      var o := UpdateRecord(Disk(Read(Parsed(v)), writeOk), target, patch);
      t[i].Obj? && patch.Obj? && DistinctKeys(t[i].fields) && DistinctKeys(patch.fields) ==>
        var r := o.write.value[i].fields;
        && Keys(r) == Keys(t[i].fields) + Keys(patch.fields)
        && (forall k :: k in Keys(patch.fields) ==> Lookup(r, k) == Lookup(patch.fields, k))
        && (forall k :: k !in Keys(patch.fields) ==> Lookup(r, k) == Lookup(t[i].fields, k))
  {
    var t := Normalize(v);
    var o := UpdateRecord(Disk(Read(Parsed(v)), writeOk), target, patch);
    assert o.write == Some(t[i := Merge(t[i], patch)]);
    if t[i].Obj? && patch.Obj? && DistinctKeys(t[i].fields) && DistinctKeys(patch.fields) {
      MergeSpec(t[i].fields, patch.fields);
    }
  }

  /** Without a loose match updateRecord neither writes nor resolves `true`. */
  lemma UpdateWithoutMatch(disk: Disk, target: Value, patch: Value)
    requires disk.read.Read? && disk.read.content.Parsed?
    requires forall j :: 0 <= j < |Normalize(disk.read.content.value)| ==>
      !IsHit(Normalize(disk.read.content.value)[j], Loose, target)
    ensures UpdateRecord(disk, target, patch).write.None?
    ensures UpdateRecord(disk, target, patch).completion != Returned(Bool(true))
  {
  }

  /** A record appended by createRecord is what readRecord returns for its
      id, provided no earlier record has that id (strictly) or is null. */
  lemma CreateThenRead(content: Stored, record: Value, target: Value, writeOk: bool)
    requires NoneMatch(LoadForCreate(content), Strict, target)
    requires record.Obj? && IsHit(record, Strict, target)
    ensures var written := CreateRecord(Disk(Read(content), true), record).write.value;
      ReadRecord(Disk(Read(Parsed(Arr(written))), writeOk), target).completion == Returned(record)
  {
    var before := LoadForCreate(content);
    var written := CreateRecord(Disk(Read(content), true), record).write.value;
    assert written == before + [record];
    assert FirstHitAt(written, Strict, target, |before|);
  }

  /** Deleting twice leaves the table as deleting once did. */
  lemma DeleteIdempotent(v: Value, target: Value, firstOk: bool, secondOk: bool)
    requires DeleteRecord(Disk(Read(Parsed(v)), firstOk), target).write.Some?
    ensures var kept := DeleteRecord(Disk(Read(Parsed(v)), firstOk), target).write.value;
      DeleteRecord(Disk(Read(Parsed(Arr(kept))), secondOk), target).write == Some(kept)
  {
    var t := Normalize(v);
    assert Without(t, target).Some?;
    WithoutIdempotent(t, target);
  }

  /** After deleteRecord has written the filtered table, readRecord with the
      same id finds nothing: it resolves `null`, or `undefined` when logging
      the target throws. */
  lemma DeleteThenRead(v: Value, target: Value, deleteOk: bool, readOk: bool)
    requires DeleteRecord(Disk(Read(Parsed(v)), deleteOk), target).write.Some?
    ensures var kept := DeleteRecord(Disk(Read(Parsed(v)), deleteOk), target).write.value;
      ReadRecord(Disk(Read(Parsed(Arr(kept))), readOk), target).completion
        == Returned(if ToStringThrows(target) then Undefined else Null)
  {
    var kept := DeleteRecord(Disk(Read(Parsed(v)), deleteOk), target).write.value;
    forall j | 0 <= j < |kept| ensures PassedOver(kept[j], Strict, target) {
      assert kept[j] in kept;
      StrictImpliesLoose(GetId(kept[j]).value, target);
    }
  }

  /** readRecord compares with `===` while updateRecord compares with `==`:
      a record stored with the number id `n` is updated through the text of
      `n` but not found by reading with it. */
  lemma ReadIsStrictUpdateIsLoose(n: int, rest: seq<Field>, patch: Value, writeOk: bool)
    ensures var record := Obj([Field("id", Num(n))] + rest);
      var disk := Disk(Read(Parsed(Arr([record]))), writeOk);
      && ReadRecord(disk, Str(IntToString(n))).completion == Returned(Null)
      && UpdateRecord(disk, Str(IntToString(n)), patch).write == Some([Merge(record, patch)])
  {
    var record := Obj([Field("id", Num(n))] + rest);
    NumberMatchesItsText(n);
    ReadMissesText(record, n, writeOk);
    UpdateFindsText(record, n, patch, writeOk);
  }

  lemma ReadMissesText(record: Value, n: int, writeOk: bool)
    requires GetId(record) == Some(Num(n))
    requires !StrictEq(Num(n), Str(IntToString(n)))
    ensures ReadRecord(Disk(Read(Parsed(Arr([record]))), writeOk), Str(IntToString(n))).completion == Returned(Null)
  {
    assert NoneMatch([record], Strict, Str(IntToString(n)));
  }

  lemma UpdateFindsText(record: Value, n: int, patch: Value, writeOk: bool)
    requires GetId(record) == Some(Num(n))
    requires LooseEq(Num(n), Str(IntToString(n))) == Some(true)
    ensures UpdateRecord(Disk(Read(Parsed(Arr([record]))), writeOk), Str(IntToString(n)), patch).write
      == Some([Merge(record, patch)])
  {
    assert FirstHitAt([record], Loose, Str(IntToString(n)), 0);
    assert [record][0 := Merge(record, patch)] == [Merge(record, patch)];
  }

  /** Parse failures: createRecord starts an empty table, the other three
      neither write nor resolve to anything but `undefined`. */
  lemma UnparseableContent(record: Value, target: Value, patch: Value, writeOk: bool)
    ensures var disk := Disk(Read(Unparseable), writeOk);
      && CreateRecord(disk, record).write == Some([record])
      && ReadRecord(disk, target) == Outcome(None, Returned(Undefined))
      && UpdateRecord(disk, target, patch) == Outcome(None, Returned(Undefined))
      && DeleteRecord(disk, target) == Outcome(None, Returned(Undefined))
  {
    assert [] + [record] == [record];
  }
}
