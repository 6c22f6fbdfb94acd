/** What a handle's row is, what a read of it gives and when a write to it is planned, in catalog entries, addresses and
    bytes: nothing here is said through the functions that compute it. */
module RecordMeaning {
  import opened Bytes
  import opened FieldSchema
  import opened Profile
  import opened WordOrder
  import opened CatalogState
  import opened CatalogMeaning
  import opened IndexedArrays
  import opened Ranges
  import opened MemoryTransaction
  import opened FieldTransaction
  import opened DiffRuns
  import opened RecordAccess
  import AddressText

  // ----- the row

  /** The handle is current and names the table of this descriptor. */
  ghost predicate LeadsTo(c: Catalog, handle: TableHandle, d: CatalogDescriptor) {
    && handle.generation == c.generation
    && exists i: nat ::
      FirstFit(c.entries, c.generation, Some(handle.uniqueId), None, 0, i) && d == c.entries[i].descriptor
  }

  /** The schema's own table for the descriptor: the first with its session id, and it is that table in that size. */
  ghost predicate Describes(schema: seq<TableSchema>, d: CatalogDescriptor, table: TableSchema) {
    && (exists i: nat :: FirstTable(schema, d.sessionTableId, i) && table == schema[i])
    && table.uniqueId == d.uniqueId && table.capacity == d.capacity
    && table.recordSize ==
      if d.storage.IndexedReferenceArray? then (4 * d.virtualWidth) % 0x1_0000_0000 else d.stride
  }

  lemma {:induction false} SchemaForMeans(schema: seq<TableSchema>, d: CatalogDescriptor, table: TableSchema)
    ensures SchemaFor(schema, d) == Some(table) <==> Describes(schema, d, table)
  {
    FindTableExactly(schema, d.sessionTableId);
  }

  /** The handle's table is in the catalog and in the schema. */
  ghost predicate Known(c: Catalog, schema: seq<TableSchema>, handle: TableHandle, d: CatalogDescriptor,
                        table: TableSchema)
  {
    LeadsTo(c, handle, d) && Describes(schema, d, table)
  }

  /** Where the row begins. */
  function RowBegin(d: CatalogDescriptor, row: nat): nat {
    d.base + row * d.stride
  }

  predicate RowExists(d: CatalogDescriptor, row: nat) {
    row < d.capacity && RowBegin(d, row) <= 0xFFFF_FFFF_FFFF_FFFF
  }

  lemma {:induction false} LocatedMeans(
    c: Catalog, schema: seq<TableSchema>, handle: TableHandle, row: nat, d: CatalogDescriptor, table: TableSchema)
    requires Known(c, schema, handle, d, table)
    ensures Located(c, schema, handle, row) ==
      Ok((d, table, if RowExists(d, row) then Some(RowBegin(d, row)) else None))
  {
    ResolveExactly(c, handle, d);
    SchemaForMeans(schema, d, table);
  }

  /** A table that is not known is refused: as stale if no current entry has it, else for its schema. */
  lemma {:induction false} UnknownIsRefused(c: Catalog, schema: seq<TableSchema>, handle: TableHandle, row: nat)
    requires forall d, table :: !Known(c, schema, handle, d, table)
    ensures Located(c, schema, handle, row) ==
      Fail(if forall d :: !LeadsTo(c, handle, d) then CatalogStale else FieldInvalid)
  {
    var resolved := Resolve(c, handle);
    forall d
      ensures LeadsTo(c, handle, d) <==> resolved == Some(d)
    {
      ResolveExactly(c, handle, d);
    }
    if resolved.Some? && SchemaFor(schema, resolved.value).Some? {
      SchemaForMeans(schema, resolved.value, SchemaFor(schema, resolved.value).value);
      assert Known(c, schema, handle, resolved.value, SchemaFor(schema, resolved.value).value);
    }
  }

  /** The records of two rows share no byte. */
  lemma {:induction false} RowsAreApart(d: CatalogDescriptor, r: nat, s: nat, a: int)
    requires RowBegin(d, r) <= a < RowBegin(d, r) + d.stride && RowBegin(d, s) <= a < RowBegin(d, s) + d.stride
    ensures r == s
  {
    if r != s {
      assert d.stride * (r - s) == r * d.stride - s * d.stride;
      MultipleIsFar(d.stride, r - s);
    }
  }

  // ----- reading it

  /** The record of a row as the codec sees it. */
  function RecordOfRow(d: CatalogDescriptor, memory: Memory, row: nat): seq<Byte>
    requires Mapped(memory, RowBegin(d, row), d.stride)
  {
    var live := Slice(memory, RowBegin(d, row), d.stride);
    if d.storage.WordSwappedRecords? then SwapWords(live) else live
  }

  /** The row can be read: it is a row of the table, not empty, and readable memory. */
  predicate RowReadable(d: CatalogDescriptor, memory: Memory, row: nat) {
    && RowExists(d, row) && 0 < d.stride && RowBegin(d, row) + d.stride <= 0xFFFF_FFFF_FFFF_FFFF
    && Mapped(memory, RowBegin(d, row), d.stride)
  }

  ghost predicate AllNamed(schema: seq<TableSchema>, tableId: nat, names: seq<string>, fields: seq<FieldDefinition>) {
    && |fields| == |names|
    && forall i :: 0 <= i < |names| ==> FindField(schema, tableId, names[i]) == Some(fields[i])
  }

  predicate AllThere(schema: seq<TableSchema>, tableId: nat, names: seq<string>) {
    forall i :: 0 <= i < |names| ==> FindField(schema, tableId, names[i]).Some?
  }

  /** A reference may be used if its field is declared to point at its table and its row is there. */
  ghost predicate Usable(c: Catalog, field: FieldDefinition, value: FieldValue) {
    field.encoding.PackedRef? ==>
      && value.Reference? && field.referenceTableId == Some(value.tableId)
      && exists i: nat ::
        FirstFit(c.entries, c.generation, None, Some(value.tableId), 0, i)
        && value.rowIndex < c.entries[i].descriptor.capacity
  }

  lemma {:induction false} UsableMeans(c: Catalog, field: FieldDefinition, value: FieldValue)
    ensures ValidReference(c, c.generation, field, value) <==> Usable(c, field, value)
  {
    if value.Reference? {
      ActiveTargetExactly(c, value.tableId, value.rowIndex, c.generation);
    }
  }

  ghost predicate Readable(c: Catalog, record: seq<Byte>, field: FieldDefinition) {
    Decode(record, field).Ok? && Usable(c, field, Decode(record, field).value)
  }

  lemma {:induction false} NamedDefinitions(
    schema: seq<TableSchema>, tableId: nat, names: seq<string>, fields: seq<FieldDefinition>)
    requires AllNamed(schema, tableId, names, fields)
    ensures AllFound(schema, tableId, names) && Definitions(schema, tableId, names) == fields
  {
    assert Definitions(schema, tableId, names) == fields;
  }

  /** A read of a record table answers with what the codec decodes from the bytes of the row, if it decodes all the
      fields and all their references can be used. */
  lemma {:induction false} ReadIsTheRow(
    c: Catalog, schema: seq<TableSchema>, memory: Memory, handle: TableHandle, row: nat, names: seq<string>,
    d: CatalogDescriptor, table: TableSchema, fields: seq<FieldDefinition>)
    requires Known(c, schema, handle, d, table) && !d.storage.IndexedReferenceArray?
    requires AllNamed(schema, table.tableId, names, fields) && names != [] && RowReadable(d, memory, row)
    ensures var record, r := RecordOfRow(d, memory, row), FieldsOf(c, schema, memory, false, handle, row, names);
      && (r.Ok? <==> forall i :: 0 <= i < |fields| ==> Readable(c, record, fields[i]))
      && (r.Ok? ==>
        |r.value| == |fields| && forall i :: 0 <= i < |fields| ==> Decode(record, fields[i]) == Ok(r.value[i]))
      && (r.Fail? ==> r.error == FieldInvalid)
  {
    LocatedMeans(c, schema, handle, row, d, table);
    NamedDefinitions(schema, table.tableId, names, fields);
    var record := RecordOfRow(d, memory, row);
    var target := WriteTarget(d, table.recordSize, RowBegin(d, row), fields);
    assert RecordIn(memory, target) == record;
    forall i | 0 <= i < |fields|
      ensures StoredValue(c, handle.generation, record, fields[i]) ==
        if Readable(c, record, fields[i]) then Some(Decode(record, fields[i]).value) else None
    {
      if Decode(record, fields[i]).Ok? {
        UsableMeans(c, fields[i], Decode(record, fields[i]).value);
      }
    }
  }

  /** What cannot be read is refused: an unknown table, a missing row or field, memory that is not there. */
  lemma {:induction false} ReadIsRefused(
    c: Catalog, schema: seq<TableSchema>, memory: Memory, fault: bool, handle: TableHandle, row: nat,
    names: seq<string>, d: CatalogDescriptor, table: TableSchema)
    requires Known(c, schema, handle, d, table)
    ensures !RowExists(d, row) || names == [] || !AllThere(schema, table.tableId, names) ==>
      FieldsOf(c, schema, memory, fault, handle, row, names) == Fail(FieldInvalid)
    ensures (RowExists(d, row) && names != [] && AllThere(schema, table.tableId, names)
      && !d.storage.IndexedReferenceArray? && (fault || !RowReadable(d, memory, row))) ==>
        FieldsOf(c, schema, memory, fault, handle, row, names) == Fail(ReadFailed)
  {
    LocatedMeans(c, schema, handle, row, d, table);
  }

  /** An indexed array stores no references: the one in word `o` of row `r` is to element `r * width + o` of the target
      table, and can be read if that element fits 32 bits and is there. */
  lemma {:induction false} IndexedReadExactly(
    c: Catalog, d: CatalogDescriptor, row: nat, field: FieldDefinition, value: FieldValue)
    ensures IndexedValue(c, c.generation, d, row, field) == Some(value) <==>
      && d.virtualTarget.Some? && field.referenceTableId == d.virtualTarget
      && field.encoding.PackedRef? && field.storageBytes == 4 && field.byteOffset % 4 == 0
      && field.byteOffset < 4 * d.virtualWidth && row * d.virtualWidth + field.byteOffset / 4 < 0x1_0000_0000
      && value == Reference(d.virtualTarget.value, row * d.virtualWidth + field.byteOffset / 4)
      && Usable(c, field, value)
  {
    UsableMeans(c, field, value);
  }

  /** So what a read gives is what the relationships of the array, which discovery and revalidation check, demand of it:
      as long as the array has fewer than 2^32 elements, the row each of them names. */
  lemma {:induction false} RelationshipIsRead(
    c: Catalog, d: CatalogDescriptor, r: RelationshipConstraint, field: FieldDefinition, value: FieldValue)
    requires FindField(c.schema, d.sessionTableId, r.fieldName) == Some(field) && ElementNamed(c, d, r)
    requires r.sourceRow * d.virtualWidth + field.byteOffset / 4 < 0x1_0000_0000
    requires IndexedValue(c, c.generation, d, r.sourceRow, field) == Some(value)
    ensures value == Reference(r.targetTableId, r.targetRow)
  {
    IndexedReadExactly(c, d, r.sourceRow, field, value);
  }

  /** The same of a layout that detection finds. */
  lemma {:induction false} DetectedIsRead(
    c: Catalog, t: TableProfile, layout: IndexedArrayLayout, d: CatalogDescriptor, k: nat, value: FieldValue)
    requires IsIndexedArray(c.schema, t, layout) && k < |t.relationships|
    requires d.virtualTarget == Some(layout.target) && d.virtualWidth == layout.width
    requires FindField(c.schema, t.tableId, t.relationships[k].fieldName).Some?
    requires IndexedValue(c, c.generation, d, t.relationships[k].sourceRow,
                          FindField(c.schema, t.tableId, t.relationships[k].fieldName).value) == Some(value)
    ensures value == Reference(t.relationships[k].targetTableId, t.relationships[k].targetRow)
  {
    var r := t.relationships[k];
    assert RelationFits(c.schema, t.tableId, r, layout);
    IndexedReadExactly(c, d, r.sourceRow, FindField(c.schema, t.tableId, r.fieldName).value, value);
  }

  // ----- planning a write to it

  /** The handle's table may be written directly. */
  ghost predicate DirectTable(c: Catalog, handle: TableHandle) {
    exists d :: LeadsTo(c, handle, d) && d.authority.DirectVerified?
  }

  /** The changes are of different fields, all of them there, and references only to rows that are there. */
  ghost predicate Requestable(
    c: Catalog, schema: seq<TableSchema>, tableId: nat, changes: seq<FieldChange>, fields: seq<FieldDefinition>)
  {
    && AllNamed(schema, tableId, Names(changes), fields)
    && (forall i, j :: 0 <= i < j < |changes| ==> changes[i].name != changes[j].name)
    && forall i :: 0 <= i < |changes| ==> Usable(c, fields[i], changes[i].value)
  }

  lemma {:induction false} RequestableMeans(
    c: Catalog, schema: seq<TableSchema>, tableId: nat, changes: seq<FieldChange>)
    ensures ChangesFit(c, schema, tableId, c.generation, changes) <==>
      exists fields :: Requestable(c, schema, tableId, changes, fields)
  {
    if ChangesFit(c, schema, tableId, c.generation, changes) {
      var fields := seq(|changes|, i requires 0 <= i < |changes| => FindField(schema, tableId, changes[i].name).value);
      forall i | 0 <= i < |changes|
        ensures FindField(schema, tableId, changes[i].name) == Some(fields[i])
        ensures Usable(c, fields[i], changes[i].value)
      {
        assert ChangeFits(c, schema, tableId, c.generation, changes[i]);
        UsableMeans(c, fields[i], changes[i].value);
      }
      assert Requestable(c, schema, tableId, changes, fields);
    }
    if fields :| Requestable(c, schema, tableId, changes, fields) {
      forall i | 0 <= i < |changes|
        ensures ChangeFits(c, schema, tableId, c.generation, changes[i])
      {
        assert FindField(schema, tableId, Names(changes)[i]) == Some(fields[i]);
        UsableMeans(c, fields[i], changes[i].value);
      }
    }
  }

  lemma {:induction false} TargetMeans(
    c: Catalog, schema: seq<TableSchema>, handle: TableHandle, row: nat, changes: seq<FieldChange>,
    d: CatalogDescriptor, table: TableSchema, fields: seq<FieldDefinition>)
    requires Known(c, schema, handle, d, table)
    ensures !d.authority.DirectVerified? ==> TargetOf(c, schema, handle, row, changes) == Fail(AuthorityUnproven)
    ensures d.authority.DirectVerified? && Requestable(c, schema, table.tableId, changes, fields) ==>
      TargetOf(c, schema, handle, row, changes) ==
        if RowExists(d, row) && changes != [] then Ok(WriteTarget(d, table.recordSize, RowBegin(d, row), fields))
        else Fail(FieldInvalid)
  {
    LocatedMeans(c, schema, handle, row, d, table);
    RequestableMeans(c, schema, table.tableId, changes);
    if Requestable(c, schema, table.tableId, changes, fields) {
      NamedDefinitions(schema, table.tableId, Names(changes), fields);
    }
  }

  lemma {:induction false} PlannedIsKnown(
    c: Catalog, schema: seq<TableSchema>, handle: TableHandle, row: nat, changes: seq<FieldChange>)
    returns (d: CatalogDescriptor, table: TableSchema)
    requires Located(c, schema, handle, row).Ok?
    ensures Known(c, schema, handle, d, table)
  {
    if forall d, table :: !Known(c, schema, handle, d, table) {
      UnknownIsRefused(c, schema, handle, row);
    }
    d, table :| Known(c, schema, handle, d, table);
  }

  /** Only a table with direct authority is planned; any other known table is refused for just that, whatever is asked
      of it. */
  lemma {:induction false} AuthorityDecides(
    c: Catalog, schema: seq<TableSchema>, memory: Memory, fault: bool, evidence: Evidence, handle: TableHandle,
    row: nat, changes: seq<FieldChange>)
    ensures PlanOf(c, schema, memory, fault, evidence, handle, row, changes).ok ==> DirectTable(c, handle)
    ensures (exists d, table :: Known(c, schema, handle, d, table) && !d.authority.DirectVerified?) <==>
      PlanOf(c, schema, memory, fault, evidence, handle, row, changes) == Refused(AuthorityUnproven)
  {
    if Located(c, schema, handle, row).Ok? {
      var d, table := PlannedIsKnown(c, schema, handle, row, changes);
      LocatedMeans(c, schema, handle, row, d, table);
      TargetMeans(c, schema, handle, row, changes, d, table, []);
      if d', table' :| Known(c, schema, handle, d', table') && !d'.authority.DirectVerified? {
        LocatedMeans(c, schema, handle, row, d', table');
      }
    } else if d', table' :| Known(c, schema, handle, d', table') {
      LocatedMeans(c, schema, handle, row, d', table');
    }
  }

  /** The field is legal in a record of the size, and takes the value. */
  predicate Encodable(size: nat, field: FieldDefinition, value: FieldValue) {
    LegalDefinition(size, field) && Writable(field, value)
  }

  predicate AllEncodable(size: nat, fields: seq<FieldDefinition>, changes: seq<FieldChange>)
    requires |fields| == |changes|
  {
    forall i :: 0 <= i < |changes| ==> Encodable(size, fields[i], changes[i].value)
  }

  lemma {:induction false} EncodableStep(size: nat, fields: seq<FieldDefinition>, changes: seq<FieldChange>)
    requires |fields| == |changes| && changes != []
    ensures var n := |changes| - 1;
      AllEncodable(size, fields, changes) <==>
        AllEncodable(size, fields[..n], changes[..n]) && Encodable(size, fields[n], changes[n].value)
  {
    var n := |changes| - 1;
    if AllEncodable(size, fields[..n], changes[..n]) && Encodable(size, fields[n], changes[n].value) {
      forall i | 0 <= i < |changes|
        ensures Encodable(size, fields[i], changes[i].value)
      {
        assert i < n ==> fields[..n][i] == fields[i] && changes[..n][i] == changes[i];
      }
    }
    if AllEncodable(size, fields, changes) {
      assert forall i :: 0 <= i < n ==> fields[..n][i] == fields[i] && changes[..n][i] == changes[i];
    }
  }

  /** All changes can be encoded exactly if each can. */
  lemma {:induction false} EncodeAllExactly(
    record: seq<Byte>, fields: seq<FieldDefinition>, changes: seq<FieldChange>)
    requires |fields| == |changes|
    ensures EncodeAll(record, fields, changes).Ok? <==> AllEncodable(|record|, fields, changes)
  {
    if changes != [] {
      var n := |changes| - 1;
      EncodeAllExactly(record, fields[..n], changes[..n]);
      EncodableStep(|record|, fields, changes);
      var front := EncodeAll(record, fields[..n], changes[..n]);
      if front.Ok? {
        EncodeAcceptsExactly(front.value, fields[n], changes[n].value);
      }
    }
  }

  /** The changed row as it would be stored. */
  function ChangedRow(
    d: CatalogDescriptor, memory: Memory, row: nat, fields: seq<FieldDefinition>, changes: seq<FieldChange>): seq<Byte>
    requires Mapped(memory, RowBegin(d, row), d.stride) && |fields| == |changes|
    requires EncodeAll(RecordOfRow(d, memory, row), fields, changes).Ok?
  {
    var image := EncodeAll(RecordOfRow(d, memory, row), fields, changes).value;
    if d.storage.WordSwappedRecords? then SwapWords(image) else image
  }

  /** In how many stretches two images of a row differ. */
  function Stretches(before: seq<Byte>, after: seq<Byte>): nat
    requires |before| == |after|
  {
    |Runs(before, after, 0)|
  }

  lemma {:induction false} OperationsPlanned(
    d: CatalogDescriptor, memory: Memory, row: nat, fields: seq<FieldDefinition>, changes: seq<FieldChange>)
    requires |fields| == |changes| && RowReadable(d, memory, row)
    ensures var target := WriteTarget(d, d.stride, RowBegin(d, row), fields);
      && TargetReadable(memory, target)
      && (PlannedOperations(memory, target, changes).Ok? <==>
        && AllEncodable(d.stride, fields, changes) && EncodeAll(RecordOfRow(d, memory, row), fields, changes).Ok?
        && 1 <= Stretches(Slice(memory, RowBegin(d, row), d.stride), ChangedRow(d, memory, row, fields, changes)) <= 32)
  {
    EncodeAllExactly(RecordOfRow(d, memory, row), fields, changes);
  }

  /** A record table's row is planned if and only if it can be read, every change can be encoded, and the changed row
      differs from the live one, in no more than 32 stretches. */
  lemma {:induction false} PlannedExactly(
    c: Catalog, schema: seq<TableSchema>, memory: Memory, evidence: Evidence, handle: TableHandle, row: nat,
    changes: seq<FieldChange>, d: CatalogDescriptor, table: TableSchema, fields: seq<FieldDefinition>)
    requires Known(c, schema, handle, d, table) && d.authority.DirectVerified? && !d.storage.IndexedReferenceArray?
    requires Requestable(c, schema, table.tableId, changes, fields) && changes != []
    ensures PlanOf(c, schema, memory, false, evidence, handle, row, changes).ok <==>
      && RowReadable(d, memory, row)
      && AllEncodable(d.stride, fields, changes) && EncodeAll(RecordOfRow(d, memory, row), fields, changes).Ok?
      && 1 <= Stretches(Slice(memory, RowBegin(d, row), d.stride), ChangedRow(d, memory, row, fields, changes)) <= 32
  {
    TargetMeans(c, schema, handle, row, changes, d, table, fields);
    if RowReadable(d, memory, row) {
      OperationsPlanned(d, memory, row, fields, changes);
    }
  }

  /** A write from `begin` on that ends before `end`. */
  predicate WritesWithin(op: Operation, begin: nat, end: nat) {
    var a := AddressText.ParseCanonical(op.address);
    && op.kind.Write? && |op.replacement| == |op.expected|
    && a.Some? && begin <= a.value && a.value + |op.expected| <= end
  }

  lemma {:induction false} RunStaysInside(address: Address, before: seq<Byte>, after: seq<Byte>, r: Range)
    requires |before| == |after| && 0 <= r.begin <= r.end <= |before| && address + |before| <= ADDRESS_MAX
    ensures WritesWithin(RunOperation(address, before, after, r), address, address + |before|)
  {
    AddressText.FormatParseBijection(address + r.begin, "");
  }

  /** Its operations are writes inside the row. */
  lemma {:induction false} PlanStaysInRow(
    c: Catalog, schema: seq<TableSchema>, memory: Memory, fault: bool, evidence: Evidence, handle: TableHandle,
    row: nat, changes: seq<FieldChange>, d: CatalogDescriptor, table: TableSchema, op: Operation)
    requires Known(c, schema, handle, d, table) && !d.storage.IndexedReferenceArray?
    requires var plan := PlanOf(c, schema, memory, fault, evidence, handle, row, changes);
      plan.ok && op in plan.operations
    ensures WritesWithin(op, RowBegin(d, row), RowBegin(d, row) + d.stride)
  {
    LocatedMeans(c, schema, handle, row, d, table);
    var target := TargetOf(c, schema, handle, row, changes).value;
    var live, changed := LiveRecord(memory, target), ChangedRecord(memory, target, changes).value;
    RunsInImage(live, changed);
    var runs := Runs(live, changed, 0);
    var n :| 0 <= n < |runs| && op == RunOperation(target.address, live, changed, runs[n]);
    RunStaysInside(target.address, live, changed, runs[n]);
  }
}
