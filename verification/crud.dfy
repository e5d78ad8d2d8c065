/** The four record operations of the flat-file store.  Each one reads the
    whole table file, normalises the parsed content to an array, changes it
    in memory and (except the read) hands the whole array back to
    `fs.writeFile`.  File I/O is a parameter: what the read returns and
    whether the write succeeds. */
module CrudEngine {
  import opened JsValues
  import opened JsEquality
  import opened Records
  import opened Tables

  /** The outcome of `fs.readFile` on the table file. */
  datatype FileRead = ReadFailed | Read(content: Stored)

  /** The file system as one call sees it. */
  datatype Disk = Disk(read: FileRead, writeSucceeds: bool)

  /** How the promise an operation returns settles. */
  datatype Completion = Returned(value: Value) | Threw(error: Value)

  /** What a call does: the table it hands to `fs.writeFile` (`None` when it
      does not write) and how it completes.  A write that fails leaves the
      file's content unknown. */
  datatype Outcome = Outcome(write: Option<seq<Value>>, completion: Completion)

  function Failure(message: string): Value {
    Obj([Field("success", Bool(false)), Field("message", Str(message))])
  }

  const CreateSucceeded := Obj([Field("success", Bool(true)), Field("message", Str("Record added successfully"))])
  const CreateFailed := Failure("Failed to add the record")
  const ReadFailure := Failure("Failed to read the record")
  const UpdateFailed := Failure("Failed to update the record")
  const DeleteFailed := Failure("Failed to delete the record")

  /** The table createRecord starts from: text that does not parse, the
      empty file included, counts as an empty table. */
  function LoadForCreate(s: Stored): (t: seq<Value>)
    ensures s.Unparseable? ==> t == []
    ensures s.Parsed? && s.value.Arr? ==> t == s.value.elems
    ensures s.Parsed? && !s.value.Arr? ==> t == [s.value]
  {
    match s
    case Unparseable => []
    case Parsed(v) => Normalize(v)
  }

  /** createRecord: appends `record` and writes the table back. */
  function CreateRecord(disk: Disk, record: Value): (o: Outcome)
    ensures disk.read.ReadFailed? ==> o == Outcome(None, Threw(CreateFailed))
    ensures disk.read.Read? ==> o.write.Some?
    ensures disk.read.Read? ==>
      var before := LoadForCreate(disk.read.content);
      var after := o.write.value;
      && |after| == |before| + 1
      && after[..|before|] == before
      && after[|before|] == record
    ensures disk.read.Read? ==>
      o.completion == if disk.writeSucceeds then Returned(CreateSucceeded) else Threw(CreateFailed)
  {
    match disk.read
    case ReadFailed => Outcome(None, Threw(CreateFailed))
    case Read(content) =>
      var table := LoadForCreate(content) + [record];
      Outcome(Some(table), if disk.writeSucceeds then Returned(CreateSucceeded) else Threw(CreateFailed))
  }

  /** readRecord: the first record whose id is `===` to the target, `null`
      when there is none (or when the record found is falsy), and
      `undefined` when the content does not parse or a null element is
      reached first.  Both branches log the target through `${targetId}`;
      when that conversion throws, the inner handler catches it and the call
      resolves `undefined` as well.  It never writes. */
  function ReadRecord(disk: Disk, target: Value): (o: Outcome)
    ensures o.write.None?
    ensures disk.read.ReadFailed? ==> o.completion == Threw(ReadFailure)
    ensures disk.read == Read(Unparseable) ==> o.completion == Returned(Undefined)
    ensures disk.read.Read? && disk.read.content.Parsed? ==>
      var t := Normalize(disk.read.content.value);
      && (forall i :: FirstHitAt(t, Strict, target, i) ==>
            o.completion == Returned(if Truthy(t[i]) then t[i] else Null))
      && (NoneMatch(t, Strict, target) ==>
            o.completion == Returned(if ToStringThrows(target) then Undefined else Null))
      && (forall j :: FaultAt(t, Strict, target, j) ==> o.completion == Returned(Undefined))
    ensures o.completion.Returned? && o.completion.value != Null && o.completion.value != Undefined ==>
      disk.read.Read? && disk.read.content.Parsed? &&
      exists i :: FirstHitAt(Normalize(disk.read.content.value), Strict, target, i)
        && Normalize(disk.read.content.value)[i] == o.completion.value
  {
    match disk.read
    case ReadFailed => Outcome(None, Threw(ReadFailure))
    case Read(Unparseable) => Outcome(None, Returned(Undefined))
    case Read(Parsed(v)) =>
      var t := Normalize(v);
      FindFirstExact(t, Strict, target);
      match FindFirst(t, Strict, target)
      case Hit(i) =>
        var found := if Truthy(t[i]) then t[i] else Null;
        Outcome(None, Returned(if ToStringThrows(target) then Undefined else found))
      case Miss => Outcome(None, Returned(if ToStringThrows(target) then Undefined else Null))
      case Fault(_) => Outcome(None, Returned(Undefined))
  }

  /** updateRecord: shallow-merges `patch` into the first record whose id is
      `==` to the target and writes the table back.  With no match, or when
      the content does not parse or a null element is reached first, it
      writes nothing and resolves `undefined`.  A failed write is caught by
      the same handler as a parse error, so it also resolves `undefined`,
      and so is a throwing `${targetId}` in the log line after the write;
      that cannot happen after a loose match, though. */
  function UpdateRecord(disk: Disk, target: Value, patch: Value): (o: Outcome)
    ensures disk.read.ReadFailed? ==> o == Outcome(None, Threw(UpdateFailed))
    ensures disk.read == Read(Unparseable) ==> o == Outcome(None, Returned(Undefined))
    ensures disk.read.Read? && disk.read.content.Parsed? ==>
      var t := Normalize(disk.read.content.value);
      && (forall i :: FirstHitAt(t, Loose, target, i) ==>
            && o.write == Some(t[i := Merge(t[i], patch)])
            && o.completion == Returned(if disk.writeSucceeds then Bool(true) else Undefined))
      && (NoneMatch(t, Loose, target) ==> o == Outcome(None, Returned(Undefined)))
      && (forall j :: FaultAt(t, Loose, target, j) ==> o == Outcome(None, Returned(Undefined)))
    ensures o.write.Some? ==>
      disk.read.Read? && disk.read.content.Parsed? &&
      exists i :: FirstHitAt(Normalize(disk.read.content.value), Loose, target, i)
    ensures o.completion == Returned(Bool(true)) ==> o.write.Some? && disk.writeSucceeds
  {
    match disk.read
    case ReadFailed => Outcome(None, Threw(UpdateFailed))
    case Read(Unparseable) => Outcome(None, Returned(Undefined))
    case Read(Parsed(v)) =>
      var t := Normalize(v);
      FindFirstExact(t, Loose, target);
      match FindFirst(t, Loose, target)
      case Hit(i) =>
        LooseMatchTargetPrints(GetId(t[i]).value, target);
        var resolved := disk.writeSucceeds && !ToStringThrows(target);
        Outcome(Some(t[i := Merge(t[i], patch)]), Returned(if resolved then Bool(true) else Undefined))
      case Miss => Outcome(None, Returned(Undefined))
      case Fault(_) => Outcome(None, Returned(Undefined))
  }

  /** deleteRecord: writes back the records whose id is not `==` to the
      target, in their order and with their repetitions (the filter
      `Without`), and resolves `true` whether or not anything matched.  An
      element the callback throws on, a parse error, a failed write, or a
      throwing `${targetId}` in the log line after the write resolves
      `undefined`. */
  function DeleteRecord(disk: Disk, target: Value): (o: Outcome)
    ensures disk.read.ReadFailed? ==> o == Outcome(None, Threw(DeleteFailed))
    ensures disk.read == Read(Unparseable) ==> o == Outcome(None, Returned(Undefined))
    ensures disk.read.Read? && disk.read.content.Parsed? ==>
      var t := Normalize(disk.read.content.value);
      && (o.write.Some? <==> forall j :: 0 <= j < |t| ==> !Throws(t[j], Loose, target))
      && (o.write.Some? ==>
            && o.write == Without(t, target)
            && |o.write.value| <= |t|
            && (forall x :: x in o.write.value <==> x in t && PassedOver(x, Loose, target))
            && o.completion == Returned(if disk.writeSucceeds && !ToStringThrows(target) then Bool(true) else Undefined))
      && (o.write.None? ==> o.completion == Returned(Undefined))
  {
    match disk.read
    case ReadFailed => Outcome(None, Threw(DeleteFailed))
    case Read(Unparseable) => Outcome(None, Returned(Undefined))
    case Read(Parsed(v)) =>
      var t := Normalize(v);
      WithoutFaults(t, target);
      match Without(t, target)
      case None => Outcome(None, Returned(Undefined))
      case Some(kept) =>
        WithoutMembers(t, target);
        var resolved := disk.writeSucceeds && !ToStringThrows(target);
        Outcome(Some(kept), Returned(if resolved then Bool(true) else Undefined))
  }
}
