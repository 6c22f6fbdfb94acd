/** Reading the fields of a row and planning writes to them. */
module RecordAccess {
  import opened Bits
  import opened Bytes
  import opened FieldSchema
  import opened Profile
  import opened WordOrder
  import opened CatalogState
  import opened CatalogReads
  import opened Revalidation
  import opened SessionCatalog
  import opened MemoryTransaction
  import opened FieldTransaction
  import opened DiffRuns
  import SeqFacts

  datatype FieldChange = FieldChange(name: string, value: FieldValue)

  // ----- the row

  function SchemaFor(schema: seq<TableSchema>, d: CatalogDescriptor): Option<TableSchema> {
    var table := FindTable(schema, d.sessionTableId);
    if table.None? || table.value.uniqueId != d.uniqueId || table.value.capacity != d.capacity
       || table.value.recordSize != (if d.storage.IndexedReferenceArray? then Wrap32(d.virtualWidth * 4) else d.stride)
    then None
    else table
  }

  function RowAddress(d: CatalogDescriptor, row: nat): Option<Address> {
    var offset := Product(row, d.stride);
    if row >= d.capacity || offset > ADDRESS_MAX || d.base + offset > ADDRESS_MAX then None
    else Some(d.base + offset)
  }

  /** A reference may only name an active row of the table its field is declared to reference. */
  predicate ValidReference(c: Catalog, generation: nat, d: FieldDefinition, value: FieldValue) {
    d.encoding.PackedRef? ==>
      && value.Reference? && d.referenceTableId == Some(value.tableId)
      && IsActiveReferenceTarget(c, value.tableId, value.rowIndex, generation)
  }

  /** The record image between live memory and the codec: its words reversed, or as it is. */
  function Canonical(storage: TableStorage, bytes: seq<Byte>): (image: seq<Byte>)
    ensures |image| == |bytes|
  {
    if storage.WordSwappedRecords? then SwapWords(bytes) else bytes
  }

  lemma {:induction false} CanonicalTwice(storage: TableStorage, bytes: seq<Byte>)
    ensures Canonical(storage, Canonical(storage, bytes)) == bytes
  {
  }

  // ----- the changes

  predicate ChangeFits(c: Catalog, schema: seq<TableSchema>, tableId: nat, generation: nat, change: FieldChange) {
    var field := FindField(schema, tableId, change.name);
    field.Some? && ValidReference(c, generation, field.value, change.value)
  }

  predicate ChangesFit(c: Catalog, schema: seq<TableSchema>, tableId: nat, generation: nat, changes: seq<FieldChange>) {
    && (forall i, j :: 0 <= i < j < |changes| ==> changes[i].name != changes[j].name)
    && forall i :: 0 <= i < |changes| ==> ChangeFits(c, schema, tableId, generation, changes[i])
  }

  predicate AllFound(schema: seq<TableSchema>, tableId: nat, names: seq<string>) {
    forall i :: 0 <= i < |names| ==> FindField(schema, tableId, names[i]).Some?
  }

  function Names(changes: seq<FieldChange>): (names: seq<string>)
    ensures |names| == |changes| && forall i :: 0 <= i < |changes| ==> names[i] == changes[i].name
  {
    seq(|changes|, i requires 0 <= i < |changes| => changes[i].name)
  }

  function Definitions(schema: seq<TableSchema>, tableId: nat, names: seq<string>): (definitions: seq<FieldDefinition>)
    requires AllFound(schema, tableId, names)
    ensures |definitions| == |names|
    ensures forall i :: 0 <= i < |names| ==> definitions[i] == FindField(schema, tableId, names[i]).value
  {
    seq(|names|, i requires 0 <= i < |names| => FindField(schema, tableId, names[i]).value)
  }

  /** The changes applied to a record one after the other. */
  function EncodeAll(record: seq<Byte>, definitions: seq<FieldDefinition>, changes: seq<FieldChange>)
    : (r: Outcome<seq<Byte>, CodecError>)
    requires |definitions| == |changes|
    ensures r.Ok? ==> |r.value| == |record|
  {
    if changes == [] then Ok(record)
    else
      var n := |changes| - 1;
      var front := EncodeAll(record, definitions[..n], changes[..n]);
      if front.Fail? then front else Encode(front.value, definitions[n], changes[n].value)
  }

  predicate PairwiseBitDisjoint(definitions: seq<FieldDefinition>) {
    forall i, j :: 0 <= i < j < |definitions| ==> BitDisjoint(definitions[i], definitions[j])
  }

  predicate DisjointFrom(definitions: seq<FieldDefinition>, e: FieldDefinition) {
    forall i :: 0 <= i < |definitions| ==> BitDisjoint(definitions[i], e)
  }

  /** No two changes over bit `k` put different bits there. */
  predicate AgreeAt(definitions: seq<FieldDefinition>, changes: seq<FieldChange>, k: nat)
    requires |definitions| == |changes|
  {
    forall i, j :: 0 <= i < j < |changes| && InField(definitions[i], k) && InField(definitions[j], k) ==>
      PutsBit(definitions[i], changes[i].value, k) == PutsBit(definitions[j], changes[j].value, k)
  }

  /** No two changes put different bits where their fields overlap. */
  ghost predicate ChangesAgree(definitions: seq<FieldDefinition>, changes: seq<FieldChange>)
    requires |definitions| == |changes|
  {
    forall k: nat :: AgreeAt(definitions, changes, k)
  }

  predicate AllDecode(record: seq<Byte>, definitions: seq<FieldDefinition>, changes: seq<FieldChange>)
    requires |definitions| == |changes|
  {
    forall i :: 0 <= i < |changes| ==> Decode(record, definitions[i]) == Ok(changes[i].value)
  }

  /** The last of any changes decodes to its value. */
  lemma {:induction false} LastChangeDecodes(
    record: seq<Byte>, definitions: seq<FieldDefinition>, changes: seq<FieldChange>)
    requires |definitions| == |changes| && changes != [] && EncodeAll(record, definitions, changes).Ok?
    ensures var n := |changes| - 1;
      && Defined(|record|, definitions[n]) && Acceptable(definitions[n], changes[n].value)
      && Decode(EncodeAll(record, definitions, changes).value, definitions[n]) == Ok(changes[n].value)
  {
    var n := |changes| - 1;
    DecodeAfterEncode(EncodeAll(record, definitions[..n], changes[..n]).value, definitions[n], changes[n].value);
  }

  lemma {:induction false} EachAcceptable(
    record: seq<Byte>, definitions: seq<FieldDefinition>, changes: seq<FieldChange>, i: nat)
    requires |definitions| == |changes| && i < |changes| && EncodeAll(record, definitions, changes).Ok?
    ensures Defined(|record|, definitions[i]) && Acceptable(definitions[i], changes[i].value)
  {
    var n := |changes| - 1;
    LastChangeDecodes(record, definitions, changes);
    if i < n {
      EachAcceptable(record, definitions[..n], changes[..n], i);
    }
  }

  /** One change more: its own bits, and otherwise those that were there. */
  lemma {:induction false} PushedBit(
    record: seq<Byte>, definitions: seq<FieldDefinition>, changes: seq<FieldChange>, m: nat, k: nat)
    requires |definitions| == |changes| && m < |changes| && k < 8 * |record|
    requires EncodeAll(record, definitions[..m + 1], changes[..m + 1]).Ok?
    ensures EncodeAll(record, definitions[..m], changes[..m]).Ok?
    ensures RecordBit(EncodeAll(record, definitions[..m + 1], changes[..m + 1]).value, k) ==
      if InField(definitions[m], k) then PutsBit(definitions[m], changes[m].value, k)
      else RecordBit(EncodeAll(record, definitions[..m], changes[..m]).value, k)
  {
    SeqFacts.TakeTake(definitions, m);
    SeqFacts.TakeTake(changes, m);
    EncodedBit(EncodeAll(record, definitions[..m], changes[..m]).value, definitions[m], changes[m].value, k);
  }

  /** The last of the first `n` fields that holds bit `k`. */
  function LastOver(definitions: seq<FieldDefinition>, n: nat, k: nat): (last: Option<nat>)
    requires n <= |definitions|
    ensures last.Some? ==> last.value < n && InField(definitions[last.value], k)
    ensures forall i :: 0 <= i < n && InField(definitions[i], k) ==> last.Some? && i <= last.value
  {
    if n == 0 then None else if InField(definitions[n - 1], k) then Some(n - 1) else LastOver(definitions, n - 1, k)
  }

  /** Every bit ends as the last change over it puts it, or stays. */
  lemma {:induction false} LastChangeWins(
    record: seq<Byte>, definitions: seq<FieldDefinition>, changes: seq<FieldChange>, n: nat, k: nat)
    requires |definitions| == |changes| && n <= |changes| && k < 8 * |record|
    requires EncodeAll(record, definitions[..n], changes[..n]).Ok?
    ensures var last := LastOver(definitions, n, k);
      RecordBit(EncodeAll(record, definitions[..n], changes[..n]).value, k) ==
        if last.Some? then PutsBit(definitions[last.value], changes[last.value].value, k) else RecordBit(record, k)
  {
    if n > 0 {
      PushedBit(record, definitions, changes, n - 1, k);
      if !InField(definitions[n - 1], k) {
        LastChangeWins(record, definitions, changes, n - 1, k);
      }
    }
  }

  /** Where all changes agree, each leaves its bits in the record. */
  lemma {:induction false} AgreedBit(
    record: seq<Byte>, definitions: seq<FieldDefinition>, changes: seq<FieldChange>, i: nat, k: nat)
    requires |definitions| == |changes| && i < |changes| && AgreeAt(definitions, changes, k)
    requires EncodeAll(record, definitions, changes).Ok? && InField(definitions[i], k) && k < 8 * |record|
    ensures RecordBit(EncodeAll(record, definitions, changes).value, k) ==
      PutsBit(definitions[i], changes[i].value, k)
  {
    SeqFacts.TakeAll(definitions);
    SeqFacts.TakeAll(changes);
    LastChangeWins(record, definitions, changes, |changes|, k);
    assert i <= LastOver(definitions, |changes|, k).value;
  }

  /** Every change decodes to its value if and only if no two of them put different bits in one place. */
  lemma {:induction false} AllDecodeExactly(
    record: seq<Byte>, definitions: seq<FieldDefinition>, changes: seq<FieldChange>)
    requires |definitions| == |changes| && EncodeAll(record, definitions, changes).Ok?
    ensures AllDecode(EncodeAll(record, definitions, changes).value, definitions, changes) <==>
      ChangesAgree(definitions, changes)
  {
    var after := EncodeAll(record, definitions, changes).value;
    forall i | 0 <= i < |changes|
      ensures Decode(after, definitions[i]) == Ok(changes[i].value) <==>
        HoldsBits(after, definitions[i], changes[i].value)
      ensures ChangesAgree(definitions, changes) ==> HoldsBits(after, definitions[i], changes[i].value)
    {
      EachAcceptable(record, definitions, changes, i);
      DecodesByBits(after, definitions[i], changes[i].value);
      if ChangesAgree(definitions, changes) {
        forall k: nat | InField(definitions[i], k)
          ensures k < 8 * |after| && RecordBit(after, k) == PutsBit(definitions[i], changes[i].value, k)
        {
          assert AgreeAt(definitions, changes, k);
          AgreedBit(record, definitions, changes, i, k);
        }
      }
    }
  }

  /** So every changed field of pairwise disjoint fields reads back as requested. */
  lemma {:induction false} ChangedFieldsDecode(
    record: seq<Byte>, definitions: seq<FieldDefinition>, changes: seq<FieldChange>, i: nat)
    requires |definitions| == |changes| && i < |changes|
    requires EncodeAll(record, definitions, changes).Ok? && PairwiseBitDisjoint(definitions)
    ensures ChangesAgree(definitions, changes)
    ensures Decode(EncodeAll(record, definitions, changes).value, definitions[i]) == Ok(changes[i].value)
  {
    forall k: nat, i, j | 0 <= i < j < |changes|
      ensures !InField(definitions[i], k) || !InField(definitions[j], k)
    {
      assert BitDisjoint(definitions[i], definitions[j]);
    }
    AllDecodeExactly(record, definitions, changes);
  }

  function ByteField(name: string): FieldDefinition {
    FieldDefinition(name, Unsigned, 0, 1, 0, 8, 0, 255, None)
  }

  /** Two changes of overlapping fields that do not agree: the second is written over the first. */
  lemma {:induction false} OverlapLosesTheFirst(record: seq<Byte>, f: FieldChange, g: FieldChange)
    requires record == [0] && f == FieldChange("f", Number(1)) && g == FieldChange("g", Number(2))
    ensures var definitions, changes := [ByteField("f"), ByteField("g")], [f, g];
      var after := EncodeAll(record, definitions, changes);
      && after.Ok? && Decode(after.value, ByteField("f")) != Ok(f.value)
      && Decode(after.value, ByteField("g")) == Ok(g.value)
  {
    var definitions, changes := [ByteField("f"), ByteField("g")], [f, g];
    var first := Encode(record, ByteField("f"), f.value);
    assert Pow2(8) == 256;
    DecodeAfterEncode(record, ByteField("f"), f.value);
    DecodeAfterEncode(first.value, ByteField("g"), g.value);
    assert definitions[..1] == [ByteField("f")] && changes[..1] == [f];
    assert [ByteField("f")][..0] == [] && [f][..0] == [];
    assert EncodeAll(record, [ByteField("f")], [f]) == first;
    LastChangeDecodes(record, definitions, changes);
    AllDecodeExactly(record, definitions, changes);
    assert PutsBit(ByteField("f"), f.value, 7) && !PutsBit(ByteField("g"), g.value, 7);
    assert InField(definitions[0], 7) && InField(definitions[1], 7) && !AgreeAt(definitions, changes, 7);
  }

  lemma {:induction false} DisjointSymmetric(d: FieldDefinition, e: FieldDefinition)
    ensures BitDisjoint(d, e) <==> BitDisjoint(e, d)
  {
  }

  /** A field disjoint from all of them keeps its value. */
  lemma {:induction false} OtherFieldsKept(
    record: seq<Byte>, definitions: seq<FieldDefinition>, changes: seq<FieldChange>, e: FieldDefinition)
    requires |definitions| == |changes| && EncodeAll(record, definitions, changes).Ok? && DisjointFrom(definitions, e)
    ensures Decode(EncodeAll(record, definitions, changes).value, e) == Decode(record, e)
  {
    if changes != [] {
      var n := |changes| - 1;
      OtherFieldsKept(record, definitions[..n], changes[..n], e);
      EncodeKeepsDisjointField(EncodeAll(record, definitions[..n], changes[..n]).value, definitions[n],
          changes[n].value, e);
    }
  }

  // ----- what a read and a plan amount to

  /** Where a handle's row lies, or why it cannot be used. */
  function Located(c: Catalog, schema: seq<TableSchema>, handle: TableHandle, row: nat)
    : Outcome<(CatalogDescriptor, TableSchema, Option<Address>), PlanCode>
  {
    var d := Resolve(c, handle);
    if d.None? then Fail(CatalogStale)
    else
      var table := SchemaFor(schema, d.value);
      if table.None? then Fail(FieldInvalid) else Ok((d.value, table.value, RowAddress(d.value, row)))
  }

  datatype WriteTarget = WriteTarget(
    descriptor: CatalogDescriptor, size: nat, address: Address, definitions: seq<FieldDefinition>)

  function TargetOf(c: Catalog, schema: seq<TableSchema>, handle: TableHandle, row: nat, changes: seq<FieldChange>)
    : (r: Outcome<WriteTarget, PlanCode>)
    ensures r.Ok? ==> |r.value.definitions| == |changes|
  {
    var place := Located(c, schema, handle, row);
    if place.Fail? then Fail(place.error)
    else
      var (d, table, address) := place.value;
      if !d.authority.DirectVerified? then Fail(AuthorityUnproven)
      else if address.None? || changes == [] then Fail(FieldInvalid)
      else if !ChangesFit(c, schema, table.tableId, handle.generation, changes) then Fail(FieldInvalid)
      else
        assert AllFound(schema, table.tableId, Names(changes)) by {
          forall i | 0 <= i < |changes|
            ensures FindField(schema, table.tableId, Names(changes)[i]).Some?
          {
            assert ChangeFits(c, schema, table.tableId, handle.generation, changes[i]);
          }
        }
        Ok(WriteTarget(d, table.recordSize, address.value, Definitions(schema, table.tableId, Names(changes))))
  }

  predicate TargetReadable(memory: Memory, target: WriteTarget) {
    0 < target.size && target.address + target.size <= ADDRESS_MAX && Mapped(memory, target.address, target.size)
  }

  function LiveRecord(memory: Memory, target: WriteTarget): (live: seq<Byte>)
    requires TargetReadable(memory, target)
    ensures |live| == target.size
  {
    Slice(memory, target.address, target.size)
  }

  /** The record as the codec sees it. */
  function RecordIn(memory: Memory, target: WriteTarget): (record: seq<Byte>)
    requires TargetReadable(memory, target)
    ensures |record| == target.size
  {
    Canonical(target.descriptor.storage, LiveRecord(memory, target))
  }

  /** The live record with all changes in it. */
  function ChangedRecord(memory: Memory, target: WriteTarget, changes: seq<FieldChange>)
    : (r: Outcome<seq<Byte>, CodecError>)
    requires TargetReadable(memory, target) && |target.definitions| == |changes|
    ensures r.Ok? ==> |r.value| == target.size
  {
    var storage := target.descriptor.storage;
    var changed := EncodeAll(RecordIn(memory, target), target.definitions, changes);
    if changed.Fail? then changed else Ok(Canonical(storage, changed.value))
  }

  /** The operations of a plan: the maximal differing runs between the live and the changed record. */
  function PlannedOperations(memory: Memory, target: WriteTarget, changes: seq<FieldChange>)
    : Outcome<seq<Operation>, PlanCode>
    requires TargetReadable(memory, target) && |target.definitions| == |changes|
  {
    var live := LiveRecord(memory, target);
    var changed := ChangedRecord(memory, target, changes);
    if changed.Fail? then Fail(FieldInvalid)
    else
      var runs := Runs(live, changed.value, 0);
      RunsInImage(live, changed.value);
      if 1 <= |runs| <= MAX_OPERATIONS then Ok(RunOperations(target.address, live, changed.value, runs))
      else Fail(FieldInvalid)
  }

  lemma {:induction false} PlanCommits(memory: Memory, target: WriteTarget, changes: seq<FieldChange>)
    requires TargetReadable(memory, target) && |target.definitions| == |changes|
    requires PlannedOperations(memory, target, changes).Ok?
    ensures var ops := PlannedOperations(memory, target, changes).value;
      && ChangedRecord(memory, target, changes).Ok? && 1 <= |ops| <= MAX_OPERATIONS && AllAddressed(ops)
      && Committed(memory, ops) == Overlay(memory, target.address, ChangedRecord(memory, target, changes).value)
  {
    var live, changed := LiveRecord(memory, target), ChangedRecord(memory, target, changes).value;
    RunsInImage(live, changed);
    OperationsCommitImage(memory, target.address, live, changed);
  }

  /** The values a changed record holds. */
  ghost predicate Carries(
    before: seq<Byte>, after: seq<Byte>, definitions: seq<FieldDefinition>, changes: seq<FieldChange>,
    e: FieldDefinition)
    requires |definitions| == |changes|
  {
    && (AllDecode(after, definitions, changes) <==> ChangesAgree(definitions, changes))
    && (DisjointFrom(definitions, e) ==> Decode(after, e) == Decode(before, e))
  }

  lemma {:induction false} EncodedCarries(
    record: seq<Byte>, definitions: seq<FieldDefinition>, changes: seq<FieldChange>, e: FieldDefinition)
    requires |definitions| == |changes| && EncodeAll(record, definitions, changes).Ok?
    ensures Carries(record, EncodeAll(record, definitions, changes).value, definitions, changes, e)
  {
    AllDecodeExactly(record, definitions, changes);
    if DisjointFrom(definitions, e) {
      OtherFieldsKept(record, definitions, changes, e);
    }
  }

  lemma {:induction false} ImageInPlace(memory: Memory, target: WriteTarget, image: seq<Byte>)
    requires TargetReadable(memory, target) && |image| == target.size
    ensures var after := Overlay(memory, target.address, image);
      TargetReadable(after, target) && LiveRecord(after, target) == image
  {
  }

  /** Plan correctness: committing a plan's operations changes exactly the record, and in it all changed fields
      decode to their requested values exactly if the changes agree, and every other disjoint field is as before. */
  lemma {:induction false} PlanMeaning(
    memory: Memory, target: WriteTarget, changes: seq<FieldChange>, e: FieldDefinition)
    requires TargetReadable(memory, target) && |target.definitions| == |changes|
    requires PlannedOperations(memory, target, changes).Ok?
    ensures var ops := PlannedOperations(memory, target, changes).value;
      && 1 <= |ops| <= MAX_OPERATIONS && AllAddressed(ops)
      && var after := Committed(memory, ops);
      && after.Keys == memory.Keys
      && (forall a :: a in memory && !(target.address <= a < target.address + target.size) ==> after[a] == memory[a])
      && TargetReadable(after, target)
      && Carries(RecordIn(memory, target), RecordIn(after, target), target.definitions, changes, e)
  {
    PlanCommits(memory, target, changes);
    var changed := ChangedRecord(memory, target, changes).value;
    ImageInPlace(memory, target, changed);
    EncodedCarries(RecordIn(memory, target), target.definitions, changes, e);
    CanonicalTwice(target.descriptor.storage, EncodeAll(RecordIn(memory, target), target.definitions, changes).value);
  }

  // ----- reading

  /** An indexed array has no stored fields: a field is the reference to the target row it stands for. */
  function IndexedValue(c: Catalog, generation: nat, d: CatalogDescriptor, row: nat, field: FieldDefinition)
    : Option<FieldValue>
  {
    if d.virtualTarget.None? || d.virtualWidth == 0 || !field.encoding.PackedRef? || field.storageBytes != 4
       || field.byteOffset % 4 != 0 || field.referenceTableId != d.virtualTarget then None
    else
      var ordinal := field.byteOffset / 4;
      var target := Product(row, d.virtualWidth) + ordinal;
      var value := Reference(d.virtualTarget.value, target);
      if ordinal >= d.virtualWidth || target > 0xFFFF_FFFF || !ValidReference(c, generation, field, value) then None
      else Some(value)
  }

  function StoredValue(c: Catalog, generation: nat, record: seq<Byte>, field: FieldDefinition): Option<FieldValue> {
    var value := Decode(record, field);
    if value.Fail? || !ValidReference(c, generation, field, value.value) then None else Some(value.value)
  }

  function AllOrInvalid(values: seq<Option<FieldValue>>): (r: Outcome<seq<FieldValue>, PlanCode>)
    ensures r.Ok? <==> forall i :: 0 <= i < |values| ==> values[i].Some?
    ensures r.Ok? ==> |r.value| == |values| && forall i :: 0 <= i < |values| ==> values[i] == Some(r.value[i])
    ensures r.Fail? ==> r.error == FieldInvalid
  {
    if values == [] then Ok([])
    else
      var front, last := AllOrInvalid(values[..|values| - 1]), values[|values| - 1];
      if front.Fail? || last.None? then Fail(FieldInvalid) else Ok(front.value + [last.value])
  }

  function IndexedValues(c: Catalog, generation: nat, d: CatalogDescriptor, row: nat, fields: seq<FieldDefinition>)
    : (values: seq<Option<FieldValue>>)
    ensures |values| == |fields|
    ensures forall i :: 0 <= i < |fields| ==> values[i] == IndexedValue(c, generation, d, row, fields[i])
  {
    seq(|fields|, i requires 0 <= i < |fields| => IndexedValue(c, generation, d, row, fields[i]))
  }

  function StoredValues(c: Catalog, generation: nat, record: seq<Byte>, fields: seq<FieldDefinition>)
    : (values: seq<Option<FieldValue>>)
    ensures |values| == |fields|
    ensures forall i :: 0 <= i < |fields| ==> values[i] == StoredValue(c, generation, record, fields[i])
  {
    seq(|fields|, i requires 0 <= i < |fields| => StoredValue(c, generation, record, fields[i]))
  }

  /** What a read of named fields answers on a current catalog. */
  function FieldsOf(
    c: Catalog, schema: seq<TableSchema>, memory: Memory, readFault: bool, handle: TableHandle, row: nat,
    names: seq<string>): Outcome<seq<FieldValue>, PlanCode>
  {
    var place := Located(c, schema, handle, row);
    if place.Fail? then Fail(place.error)
    else
      var (d, table, address) := place.value;
      if address.None? || names == [] || !AllFound(schema, table.tableId, names) then Fail(FieldInvalid)
      else
        var fields := Definitions(schema, table.tableId, names);
        var target := WriteTarget(d, table.recordSize, address.value, fields);
        if d.storage.IndexedReferenceArray? then AllOrInvalid(IndexedValues(c, handle.generation, d, row, fields))
        else if !TargetReadable(memory, target) || readFault then Fail(ReadFailed)
        else AllOrInvalid(StoredValues(c, handle.generation, RecordIn(memory, target), fields))
  }

  function Values(changes: seq<FieldChange>): (values: seq<FieldValue>)
    ensures |values| == |changes| && forall i :: 0 <= i < |changes| ==> values[i] == changes[i].value
  {
    seq(|changes|, i requires 0 <= i < |changes| => changes[i].value)
  }

  lemma {:induction false} RequestedExactly(values: seq<Option<FieldValue>>, changes: seq<FieldChange>)
    requires |values| == |changes|
    ensures AllOrInvalid(values) == Ok(Values(changes)) <==>
      forall i :: 0 <= i < |changes| ==> values[i] == Some(changes[i].value)
  {
    if forall i :: 0 <= i < |changes| ==> values[i] == Some(changes[i].value) {
      assert AllOrInvalid(values).value == Values(changes);
    }
    if AllOrInvalid(values) == Ok(Values(changes)) {
      assert forall i :: 0 <= i < |changes| ==> values[i] == Some(Values(changes)[i]);
    }
  }

  /** A record that carries the changes gives back their values exactly if they agree. */
  lemma {:induction false} CarriedIsRead(
    c: Catalog, schema: seq<TableSchema>, handle: TableHandle, row: nat, changes: seq<FieldChange>, before: seq<Byte>,
    after: seq<Byte>, e: FieldDefinition)
    requires TargetOf(c, schema, handle, row, changes).Ok?
    requires var definitions := TargetOf(c, schema, handle, row, changes).value.definitions;
      Carries(before, after, definitions, changes, e)
    ensures var definitions := TargetOf(c, schema, handle, row, changes).value.definitions;
      AllOrInvalid(StoredValues(c, handle.generation, after, definitions)) == Ok(Values(changes)) <==>
        ChangesAgree(definitions, changes)
  {
    var definitions := TargetOf(c, schema, handle, row, changes).value.definitions;
    var place := Located(c, schema, handle, row).value;
    forall i | 0 <= i < |changes|
      ensures StoredValue(c, handle.generation, after, definitions[i]) == Some(changes[i].value) <==>
        Decode(after, definitions[i]) == Ok(changes[i].value)
    {
      assert ChangeFits(c, schema, place.1.tableId, handle.generation, changes[i]);
    }
    RequestedExactly(StoredValues(c, handle.generation, after, definitions), changes);
  }

  /** The requested values are those an indexed array's fields stand for. */
  predicate Implied(
    c: Catalog, generation: nat, d: CatalogDescriptor, row: nat, definitions: seq<FieldDefinition>,
    changes: seq<FieldChange>)
    requires |definitions| == |changes|
  {
    forall i :: 0 <= i < |changes| ==> IndexedValue(c, generation, d, row, definitions[i]) == Some(changes[i].value)
  }

  /** A read of an indexed array does not look at memory: it gives the requested values exactly if the fields
      stand for them anyway. */
  lemma {:induction false} IndexedIsRead(
    c: Catalog, schema: seq<TableSchema>, memory: Memory, handle: TableHandle, row: nat, changes: seq<FieldChange>)
    requires TargetOf(c, schema, handle, row, changes).Ok?
    requires TargetOf(c, schema, handle, row, changes).value.descriptor.storage.IndexedReferenceArray?
    ensures var target := TargetOf(c, schema, handle, row, changes).value;
      FieldsOf(c, schema, memory, false, handle, row, Names(changes)) == Ok(Values(changes)) <==>
        Implied(c, handle.generation, target.descriptor, row, target.definitions, changes)
  {
    var target := TargetOf(c, schema, handle, row, changes).value;
    var values := IndexedValues(c, handle.generation, target.descriptor, row, target.definitions);
    assert FieldsOf(c, schema, memory, false, handle, row, Names(changes)) == AllOrInvalid(values);
    RequestedExactly(values, changes);
  }

  /** The values written are the values read: where the changes agree, or where an indexed array stands for them. */
  ghost predicate ReadsBack(c: Catalog, generation: nat, target: WriteTarget, row: nat, changes: seq<FieldChange>)
    requires |target.definitions| == |changes|
  {
    if target.descriptor.storage.IndexedReferenceArray? then
      Implied(c, generation, target.descriptor, row, target.definitions, changes)
    else ChangesAgree(target.definitions, changes)
  }

  /** Read after write: on the memory a plan commits, reading the changed fields gives the requested values exactly
      if the changes agree; or, of an indexed array, whose fields are not stored, if it stood for them before. */
  lemma {:induction false} ReadAfterWrite(
    c: Catalog, schema: seq<TableSchema>, memory: Memory, handle: TableHandle, row: nat, changes: seq<FieldChange>)
    requires TargetOf(c, schema, handle, row, changes).Ok?
    requires var target := TargetOf(c, schema, handle, row, changes).value;
      TargetReadable(memory, target) && PlannedOperations(memory, target, changes).Ok?
    ensures var target := TargetOf(c, schema, handle, row, changes).value;
      var ops := PlannedOperations(memory, target, changes).value;
      && AllAddressed(ops)
      && (FieldsOf(c, schema, Committed(memory, ops), false, handle, row, Names(changes)) == Ok(Values(changes)) <==>
        ReadsBack(c, handle.generation, target, row, changes))
  {
    var target := TargetOf(c, schema, handle, row, changes).value;
    assert target.definitions != [];
    var e := target.definitions[0];
    PlanMeaning(memory, target, changes, e);
    var after := Committed(memory, PlannedOperations(memory, target, changes).value);
    if target.descriptor.storage.IndexedReferenceArray? {
      IndexedIsRead(c, schema, after, handle, row, changes);
    } else {
      CarriedIsRead(c, schema, handle, row, changes, RecordIn(memory, target), RecordIn(after, target), e);
    }
  }

  // ----- the procedures

  method ReadIndexed(c: Catalog, generation: nat, d: CatalogDescriptor, row: nat, fields: seq<FieldDefinition>)
    returns (values: seq<Option<FieldValue>>)
    ensures values == IndexedValues(c, generation, d, row, fields)
  {
    values := [];
    for i := 0 to |fields|
      invariant |values| == i
      invariant forall j :: 0 <= j < i ==> values[j] == IndexedValue(c, generation, d, row, fields[j])
    {
      values := values + [IndexedValue(c, generation, d, row, fields[i])];
    }
  }

  method ReadStored(c: Catalog, generation: nat, record: seq<Byte>, fields: seq<FieldDefinition>)
    returns (values: seq<Option<FieldValue>>)
    ensures values == StoredValues(c, generation, record, fields)
  {
    values := [];
    for i := 0 to |fields|
      invariant |values| == i
      invariant forall j :: 0 <= j < i ==> values[j] == StoredValue(c, generation, record, fields[j])
    {
      var value := DecodeField(record, fields[i]);
      var valid := value.Ok? && ValidReference(c, generation, fields[i], value.value);
      values := values + [if valid then Some(value.value) else None];
    }
  }

  /** The read on a catalog already known to be current. */
  method ReadCurrent(
    c: Catalog, backend: MemoryBackend, schema: seq<TableSchema>, handle: TableHandle, row: nat, names: seq<string>)
    returns (r: Outcome<seq<FieldValue>, PlanCode>)
    modifies backend`calls
    ensures r == FieldsOf(c, schema, backend.memory, backend.faults.readFails(old(backend.calls)), handle, row, names)
  {
    var place := Located(c, schema, handle, row);
    if place.Fail? {
      return Fail(place.error);
    }
    var (d, table, address) := place.value;
    if address.None? || names == [] || !AllFound(schema, table.tableId, names) {
      return Fail(FieldInvalid);
    }
    var fields := Definitions(schema, table.tableId, names);
    if d.storage.IndexedReferenceArray? {
      var values := ReadIndexed(c, handle.generation, d, row, fields);
      return AllOrInvalid(values);
    }
    if !backend.Validate(address.value, table.recordSize, false) {
      return Fail(ReadFailed);
    }
    var live := backend.Read(address.value, table.recordSize);
    if live.None? {
      return Fail(ReadFailed);
    }
    var values := ReadStored(c, handle.generation, Canonical(d.storage, live.value), fields);
    r := AllOrInvalid(values);
  }

  /** Every access begins with a revalidation. One that fails has emptied or changed the catalog. */
  method Refresh(session: Session, discovery: DiscoveryBackend) returns (evidence: Option<Evidence>)
    requires session.Valid()
    modifies session, discovery
    ensures session.Valid()
    ensures Steady(discovery) ==>
      (evidence.Some? <==> Passes(old(session.State()), discovery.view(0), discovery.allocations(0)))
    ensures evidence.None? ==>
      old(session.entries) == [] || session.generation == NextGeneration(old(session.generation))
    ensures evidence.Some? ==>
      && session.State() == old(session.State())
      && EvidenceIsActive(session.State(), evidence.value) && GuardsJustify(session.State(), evidence.value.guards)
  {
    var ok, snapshot, _, _ := session.Revalidate(discovery);
    evidence := snapshot;
  }

  method ReadFields(
    session: Session, discovery: DiscoveryBackend, memoryBackend: MemoryBackend, schema: seq<TableSchema>,
    handle: TableHandle, row: nat, names: seq<string>)
    returns (r: Outcome<seq<FieldValue>, PlanCode>, ghost current: bool)
    requires session.Valid()
    modifies session, discovery, memoryBackend`calls
    ensures session.Valid()
    ensures Steady(discovery) ==>
      (current <==> Passes(old(session.State()), discovery.view(0), discovery.allocations(0)))
    ensures !current ==> r == Fail(CatalogStale)
    ensures !current ==> old(session.entries) == [] || session.generation == NextGeneration(old(session.generation))
    ensures current ==> session.State() == old(session.State())
    ensures current ==> r == FieldsOf(
      session.State(), schema, memoryBackend.memory, memoryBackend.faults.readFails(old(memoryBackend.calls)),
      handle, row, names)
  {
    var evidence := Refresh(session, discovery);
    current := evidence.Some?;
    if evidence.None? {
      return Fail(CatalogStale), current;
    }
    r := ReadCurrent(session.State(), memoryBackend, schema, handle, row, names);
  }

  lemma {:induction false} ChangesFitPush(
    c: Catalog, schema: seq<TableSchema>, tableId: nat, generation: nat, changes: seq<FieldChange>, i: nat)
    requires i < |changes| && ChangesFit(c, schema, tableId, generation, changes[..i])
    requires ChangeFits(c, schema, tableId, generation, changes[i])
    requires forall j :: 0 <= j < i ==> changes[j].name != changes[i].name
    ensures ChangesFit(c, schema, tableId, generation, changes[..i + 1])
  {
  }

  method CheckChanges(c: Catalog, schema: seq<TableSchema>, tableId: nat, generation: nat, changes: seq<FieldChange>)
    returns (definitions: Option<seq<FieldDefinition>>)
    ensures definitions.Some? <==> ChangesFit(c, schema, tableId, generation, changes)
    ensures definitions.Some? ==>
      AllFound(schema, tableId, Names(changes)) && definitions.value == Definitions(schema, tableId, Names(changes))
  {
    var names: set<string> := {};
    var found: seq<FieldDefinition> := [];
    for i := 0 to |changes|
      invariant |found| == i
      invariant forall name :: name in names <==> exists j :: 0 <= j < i && changes[j].name == name
      invariant ChangesFit(c, schema, tableId, generation, changes[..i])
      invariant forall j :: 0 <= j < i ==> FindField(schema, tableId, changes[j].name) == Some(found[j])
    {
      var change := changes[i];
      if change.name in names || !ChangeFits(c, schema, tableId, generation, change) {
        return None;
      }
      ChangesFitPush(c, schema, tableId, generation, changes, i);
      names := names + {change.name};
      found := found + [FindField(schema, tableId, change.name).value];
    }
    SeqFacts.TakeAll(changes);
    assert forall i :: 0 <= i < |changes| ==> FindField(schema, tableId, Names(changes)[i]) == Some(found[i]);
    definitions := Some(found);
  }

  method EncodeChanges(record: seq<Byte>, definitions: seq<FieldDefinition>, changes: seq<FieldChange>)
    returns (r: Outcome<seq<Byte>, CodecError>)
    requires |definitions| == |changes|
    ensures r == EncodeAll(record, definitions, changes)
  {
    r := Ok(record);
    for i := 0 to |changes|
      invariant r == EncodeAll(record, definitions[..i], changes[..i])
    {
      SeqFacts.TakeTake(definitions, i);
      SeqFacts.TakeTake(changes, i);
      if r.Ok? {
        r := EncodeField(r.value, definitions[i], changes[i].value);
      }
    }
    SeqFacts.TakeAll(definitions);
    SeqFacts.TakeAll(changes);
  }

  function Refused(code: PlanCode): FieldWritePlan {
    FieldWritePlan(false, code, Evidence(0, [], []), [])
  }

  /** The plan made on a current catalog with this evidence. */
  function PlanOf(
    c: Catalog, schema: seq<TableSchema>, memory: Memory, readFault: bool, evidence: Evidence, handle: TableHandle,
    row: nat, changes: seq<FieldChange>): FieldWritePlan
  {
    var target := TargetOf(c, schema, handle, row, changes);
    if target.Fail? then Refused(target.error)
    else if !TargetReadable(memory, target.value) || readFault then Refused(ReadFailed)
    else
      var ops := PlannedOperations(memory, target.value, changes);
      if ops.Fail? then Refused(ops.error) else FieldWritePlan(true, Planned, evidence, ops.value)
  }

  method PlanRecord(target: WriteTarget, live: seq<Byte>, changes: seq<FieldChange>, ghost memory: Memory)
    returns (ops: Option<seq<Operation>>)
    requires |target.definitions| == |changes| && TargetReadable(memory, target) && live == LiveRecord(memory, target)
    ensures var planned := PlannedOperations(memory, target, changes);
      planned == if ops.None? then Fail(FieldInvalid) else Ok(ops.value)
  {
    var storage := target.descriptor.storage;
    var encoded := EncodeChanges(Canonical(storage, live), target.definitions, changes);
    if encoded.Fail? {
      return None;
    }
    ops := CutOperations(target.address, live, Canonical(storage, encoded.value));
    if ops.Some? && ops.value == [] {
      ops := None;
    }
  }

  /** The target of a plan, tested in the source's order. */
  method FindTarget(c: Catalog, schema: seq<TableSchema>, handle: TableHandle, row: nat, changes: seq<FieldChange>)
    returns (target: Outcome<WriteTarget, PlanCode>)
    ensures target == TargetOf(c, schema, handle, row, changes)
  {
    var place := Located(c, schema, handle, row);
    if place.Fail? {
      return Fail(place.error);
    }
    var (d, table, address) := place.value;
    if !d.authority.DirectVerified? {
      return Fail(AuthorityUnproven);
    }
    if address.None? || changes == [] {
      return Fail(FieldInvalid);
    }
    var definitions := CheckChanges(c, schema, table.tableId, handle.generation, changes);
    if definitions.None? {
      return Fail(FieldInvalid);
    }
    target := Ok(WriteTarget(d, table.recordSize, address.value, definitions.value));
  }

  /** The plan on a catalog already known to be current. */
  method PlanCurrentRecord(
    c: Catalog, evidence: Evidence, backend: MemoryBackend, schema: seq<TableSchema>, handle: TableHandle, row: nat,
    changes: seq<FieldChange>)
    returns (plan: FieldWritePlan)
    modifies backend`calls
    ensures plan == PlanOf(
      c, schema, backend.memory, backend.faults.readFails(old(backend.calls)), evidence, handle, row, changes)
    ensures old(backend.calls) <= backend.calls <= old(backend.calls) + 1
    ensures plan != PlanOf(c, schema, backend.memory, false, evidence, handle, row, changes) ==>
      backend.calls == old(backend.calls) + 1
  {
    var target := FindTarget(c, schema, handle, row, changes);
    if target.Fail? {
      return Refused(target.error);
    }
    if !backend.Validate(target.value.address, target.value.size, false) {
      return Refused(ReadFailed);
    }
    var live := backend.Read(target.value.address, target.value.size);
    if live.None? {
      return Refused(ReadFailed);
    }
    var ops := PlanRecord(target.value, live.value, changes, backend.memory);
    if ops.None? {
      return Refused(FieldInvalid);
    }
    plan := FieldWritePlan(true, Planned, evidence, ops.value);
  }

  /** Planning: every refusal has its cause, in the order the source tests them; a plan's operations are the
      maximal differing runs, and its evidence justifies the catalog it was made on. */
  method PlanFieldWrites(
    session: Session, discovery: DiscoveryBackend, memoryBackend: MemoryBackend, schema: seq<TableSchema>,
    handle: TableHandle, row: nat, changes: seq<FieldChange>)
    returns (plan: FieldWritePlan, ghost current: Option<Evidence>)
    requires session.Valid()
    modifies session, discovery, memoryBackend`calls
    ensures session.Valid()
    ensures Steady(discovery) ==>
      (current.Some? <==> Passes(old(session.State()), discovery.view(0), discovery.allocations(0)))
    ensures current.None? ==> plan == Refused(CatalogStale)
    ensures current.None? ==>
      old(session.entries) == [] || session.generation == NextGeneration(old(session.generation))
    ensures current.Some? ==>
      && session.State() == old(session.State())
      && EvidenceIsActive(session.State(), current.value) && GuardsJustify(session.State(), current.value.guards)
      && plan == PlanOf(session.State(), schema, memoryBackend.memory,
                        memoryBackend.faults.readFails(old(memoryBackend.calls)), current.value, handle, row, changes)
      && (plan != PlanOf(
            session.State(), schema, memoryBackend.memory, false, current.value, handle, row, changes) ==>
        memoryBackend.calls == old(memoryBackend.calls) + 1)
    ensures old(memoryBackend.calls) <= memoryBackend.calls <= old(memoryBackend.calls) + 1
  {
    var evidence := Refresh(session, discovery);
    current := evidence;
    if evidence.None? {
      return Refused(CatalogStale), current;
    }
    plan := PlanCurrentRecord(session.State(), evidence.value, memoryBackend, schema, handle, row, changes);
  }
}
