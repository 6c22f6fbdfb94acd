/** The second phase of discovery: relationships between tables that were found independently. */
module RelationshipPhase {
  import opened Bytes
  import opened FieldSchema
  import opened Profile
  import opened WordOrder
  import opened CatalogMeaning
  import opened CatalogState
  import opened CatalogReads
  import opened Revalidation
  import opened RecordAccess

  /** The index of the first profile table with the id, or the number of tables. */
  function TableIndex(tables: seq<TableProfile>, tableId: nat): (i: nat)
    ensures i <= |tables| && (i < |tables| ==> tables[i].tableId == tableId)
  {
    if tables == [] then 0
    else if tables[0].tableId == tableId then 0 else 1 + TableIndex(tables[1..], tableId)
  }

  /** The tests on a relationship before anything is read. */
  predicate WellPlaced(profile: ProfileBundle, resolved: seq<bool>, t: TableProfile, r: RelationshipConstraint)
    requires |resolved| == |profile.tables|
  {
    var target := TableIndex(profile.tables, r.targetTableId);
    var field := FindField(profile.schema, t.tableId, r.fieldName);
    && target < |profile.tables| && resolved[target]
    && field.Some? && field.value.encoding.PackedRef? && field.value.storageBytes == 4
    && field.value.bitOffset == 0 && field.value.bitWidth == 32
    && field.value.referenceTableId == Some(r.targetTableId)
    && field.value.byteOffset + 4 <= t.recordSize && r.sourceRow < t.capacity
  }

  predicate IndexedFollows(d: TableDescriptor, field: FieldDefinition, r: RelationshipConstraint) {
    var ordinal := field.byteOffset / 4;
    && d.virtualTarget == Some(r.targetTableId) && ordinal < d.virtualWidth
    && r.targetRow == Wrap32(Wrap32(Product(r.sourceRow, d.virtualWidth)) + ordinal)
  }

  function WordAddress(d: TableDescriptor, field: FieldDefinition, r: RelationshipConstraint): nat {
    d.base + Product(r.sourceRow, d.stride) + field.byteOffset
  }

  /** The stored word names the target row. */
  predicate StoredFollows(memory: Memory, d: TableDescriptor, field: FieldDefinition, r: RelationshipConstraint) {
    var address := WordAddress(d, field, r);
    && Mapped(memory, address, 4)
    && DecodePackedReference(RelationshipWord(d.storage.WordSwappedRecords?, Slice(memory, address, 4)))
       == Ok(Reference(r.targetTableId, r.targetRow))
  }

  predicate Follows(
    profile: ProfileBundle, resolved: seq<bool>, memory: Memory, t: TableProfile, d: TableDescriptor,
    r: RelationshipConstraint)
    requires |resolved| == |profile.tables|
  {
    && WellPlaced(profile, resolved, t, r)
    && var field := FindField(profile.schema, t.tableId, r.fieldName).value;
       if d.storage.IndexedReferenceArray? then IndexedFollows(d, field, r) else StoredFollows(memory, d, field, r)
  }

  // ----- what following means

  predicate FirstProfile(tables: seq<TableProfile>, tableId: nat, j: nat) {
    j < |tables| && tables[j].tableId == tableId && forall k :: 0 <= k < j ==> tables[k].tableId != tableId
  }

  /** The profile has the target table, and the structural phase resolved it. */
  ghost predicate TargetResolved(profile: ProfileBundle, resolved: seq<bool>, r: RelationshipConstraint)
    requires |resolved| == |profile.tables|
  {
    exists j: nat :: FirstProfile(profile.tables, r.targetTableId, j) && resolved[j]
  }

  /** A whole word of the record, declared to refer to the target table. */
  predicate RefersTo(field: FieldDefinition, t: TableProfile, r: RelationshipConstraint) {
    && field.encoding.PackedRef? && field.storageBytes == 4 && field.bitOffset == 0 && field.bitWidth == 32
    && field.referenceTableId == Some(r.targetTableId) && field.byteOffset + 4 <= t.recordSize
  }

  /** The word names the target row: the bytes of the row do, or, in an indexed array, its place does. */
  predicate WordNames(memory: Memory, d: TableDescriptor, field: FieldDefinition, r: RelationshipConstraint) {
    if d.storage.IndexedReferenceArray? then
      && d.virtualTarget == Some(r.targetTableId) && field.byteOffset / 4 < d.virtualWidth
      && r.targetRow == ((r.sourceRow * d.virtualWidth) % 0x1_0000_0000 + field.byteOffset / 4) % 0x1_0000_0000
    else
      var at := d.base + r.sourceRow * d.stride + field.byteOffset;
      && Mapped(memory, at, 4) && r.targetRow < 131072
      && WordAt(memory, at, d.storage.WordSwappedRecords?) == r.targetTableId * 131072 + r.targetRow
  }

  lemma {:induction false} TableIndexMeans(tables: seq<TableProfile>, tableId: nat)
    ensures var i := TableIndex(tables, tableId);
      if i < |tables| then FirstProfile(tables, tableId, i) else forall j: nat :: !FirstProfile(tables, tableId, j)
  {
    if tables != [] && tables[0].tableId != tableId {
      TableIndexMeans(tables[1..], tableId);
      var i := TableIndex(tables, tableId);
      if i < |tables| {
        assert FirstProfile(tables[1..], tableId, i - 1);
      } else {
        forall j: nat
          ensures !FirstProfile(tables, tableId, j)
        {
          assert j > 0 ==> !FirstProfile(tables[1..], tableId, j - 1);
        }
      }
    }
  }

  /** A relationship is followed if and only if its target table is resolved and the word of its field in its row,
      which is a row of the table, names the target row. */
  lemma {:induction false} FollowsExactly(
    profile: ProfileBundle, resolved: seq<bool>, memory: Memory, t: TableProfile, d: TableDescriptor,
    r: RelationshipConstraint)
    requires |resolved| == |profile.tables|
    ensures Follows(profile, resolved, memory, t, d, r) <==>
      && TargetResolved(profile, resolved, r) && r.sourceRow < t.capacity
      && var field := FindField(profile.schema, t.tableId, r.fieldName);
         field.Some? && RefersTo(field.value, t, r) && WordNames(memory, d, field.value, r)
  {
    TableIndexMeans(profile.tables, r.targetTableId);
    var field := FindField(profile.schema, t.tableId, r.fieldName);
    if field.Some? {
      var at := d.base + r.sourceRow * d.stride + field.value.byteOffset;
      if Mapped(memory, at, 4) {
        WordMeans(memory, at, d.storage.WordSwappedRecords?, r.targetTableId, r.targetRow);
      }
    }
  }

  /** What the stored word means: it is the field as the codec decodes it from the row's record, in canonical
      storage always, in word-swapped storage whenever the field is aligned to a word. */
  lemma {:induction false} FollowsIsDecode(
    memory: Memory, t: TableProfile, d: TableDescriptor, field: FieldDefinition, r: RelationshipConstraint)
    requires !d.storage.IndexedReferenceArray? && ReferenceField(t.recordSize, field)
    requires d.storage.WordSwappedRecords? ==> field.byteOffset % 4 == 0
    requires Mapped(memory, d.base + Product(r.sourceRow, d.stride), t.recordSize)
    ensures var record := Slice(memory, d.base + Product(r.sourceRow, d.stride), t.recordSize);
      StoredFollows(memory, d, field, r) <==>
        Decode(Canonical(d.storage, record), field) == Ok(Reference(r.targetTableId, r.targetRow))
  {
    var row := d.base + Product(r.sourceRow, d.stride);
    var record := Slice(memory, row, t.recordSize);
    var o := field.byteOffset;
    forall a | row + o <= a < row + o + 4
      ensures a in memory
    {
    }
    var word, part := Slice(memory, row + o, 4), record[o..o + 4];
    forall i | 0 <= i < 4
      ensures word[i] == part[i]
    {
      assert record[o + i] == memory[row + (o + i)];
    }
    assert word == part;
    if d.storage.WordSwappedRecords? {
      AlignedWordIsDecode(record, field);
    } else {
      CanonicalWordIsDecode(record, field);
    }
  }

  /** A structural result keeps the whole table inside the address space. */
  predicate WordsInReach(profile: ProfileBundle, t: TableProfile, d: TableDescriptor) {
    !d.storage.IndexedReferenceArray? ==>
      d.stride == t.recordSize && d.base + Product(t.capacity, d.stride) <= ADDRESS_MAX
  }

  lemma {:induction false} RowInReach(t: TableProfile, d: TableDescriptor, row: nat, offset: nat)
    requires d.stride == t.recordSize && d.base + Product(t.capacity, d.stride) <= ADDRESS_MAX
    requires row < t.capacity && offset + 4 <= t.recordSize
    ensures d.base + Product(row, d.stride) + offset + 4 <= ADDRESS_MAX
  {
    assert t.capacity * d.stride == row * d.stride + (t.capacity - row) * d.stride;
    assert (t.capacity - row) * d.stride >= d.stride by {
      assert (t.capacity - row) * d.stride == d.stride + (t.capacity - row - 1) * d.stride;
    }
  }

  method CheckRelationship(
    profile: ProfileBundle, resolved: seq<bool>, t: TableProfile, d: TableDescriptor, r: RelationshipConstraint,
    backend: DiscoveryBackend)
    returns (follows: bool)
    requires |resolved| == |profile.tables|
    requires WordsInReach(profile, t, d)
    modifies backend
    ensures Steady(backend) ==> (follows <==> Follows(profile, resolved, backend.view(0), t, d, r))
  {
    if !WellPlaced(profile, resolved, t, r) {
      return false;
    }
    var field := FindField(profile.schema, t.tableId, r.fieldName).value;
    if d.storage.IndexedReferenceArray? {
      return IndexedFollows(d, field, r);
    }
    RowInReach(t, d, r.sourceRow, field.byteOffset);
    var requests := [ReadRequest(WordAddress(d, field, r), 4)];
    ghost var now := backend.calls;
    var bytes := backend.ReadBatch(requests);
    if Steady(backend) {
      assert backend.view(now) == backend.view(0) && backend.replies(now).Truth?;
      assert Readable(backend.view(0), requests[0]) <==> Mapped(backend.view(0), WordAddress(d, field, r), 4);
      if bytes.Some? && ShapeFits(requests, bytes.value) {
        assert bytes.value[0] == BytesAt(backend.view(0), requests[0]);
      }
    }
    if bytes.None? || |bytes.value| != 1 || |bytes.value[0]| != 4 {
      return false;
    }
    follows := DecodePackedReference(RelationshipWord(d.storage.WordSwappedRecords?, bytes.value[0]))
      == Ok(Reference(r.targetTableId, r.targetRow));
  }

  method CheckRelationships(
    profile: ProfileBundle, resolved: seq<bool>, t: TableProfile, d: TableDescriptor, backend: DiscoveryBackend)
    returns (follows: bool)
    requires |resolved| == |profile.tables| && WordsInReach(profile, t, d)
    modifies backend
    ensures Steady(backend) ==>
      (follows <==> forall k :: 0 <= k < |t.relationships| ==>
        Follows(profile, resolved, backend.view(0), t, d, t.relationships[k]))
  {
    for k := 0 to |t.relationships|
      invariant Steady(backend) ==> forall j :: 0 <= j < k ==>
        Follows(profile, resolved, backend.view(0), t, d, t.relationships[j])
    {
      var one := CheckRelationship(profile, resolved, t, d, t.relationships[k], backend);
      if !one {
        return false;
      }
    }
    follows := true;
  }

  predicate StructurallySound(profile: ProfileBundle, found: seq<TableDiscovery>) {
    && |found| == |profile.tables|
    && forall i :: 0 <= i < |found| && found[i].state.Resolved? ==>
      found[i].descriptor.Some? && WordsInReach(profile, profile.tables[i], found[i].descriptor.value)
  }

  function ResolvedFlags(found: seq<TableDiscovery>): (flags: seq<bool>)
    ensures |flags| == |found| && forall i :: 0 <= i < |found| ==> flags[i] == found[i].state.Resolved?
  {
    seq(|found|, i requires 0 <= i < |found| => found[i].state.Resolved?)
  }

  /** What the phase makes of one table: every other table counts as the structural phase left it. */
  ghost predicate Related(profile: ProfileBundle, found: seq<TableDiscovery>, memory: Memory, i: nat, d: TableDiscovery)
    requires StructurallySound(profile, found) && i < |found|
  {
    var t := profile.tables[i];
    if !found[i].state.Resolved? then d == found[i]
    else if forall k :: 0 <= k < |t.relationships| ==>
      Follows(profile, ResolvedFlags(found), memory, t, found[i].descriptor.value, t.relationships[k])
    then d == found[i]
    else d == TableDiscovery(found[i].uniqueId, RelationshipFailed, None)
  }

  /** A table still resolved was resolved before, as were all tables its relationships point at. */
  ghost predicate NothingDangles(profile: ProfileBundle, found: seq<TableDiscovery>, i: nat, d: TableDiscovery)
    requires |found| == |profile.tables| && i < |found|
  {
    d.state.Resolved? ==>
      && d == found[i]
      && forall k :: 0 <= k < |profile.tables[i].relationships| ==>
        TargetResolved(profile, ResolvedFlags(found), profile.tables[i].relationships[k])
  }

  lemma {:induction false} RelatedDoesNotDangle(
    profile: ProfileBundle, found: seq<TableDiscovery>, memory: Memory, i: nat, d: TableDiscovery)
    requires StructurallySound(profile, found) && i < |found| && Related(profile, found, memory, i, d)
    ensures NothingDangles(profile, found, i, d)
  {
    if d.state.Resolved? {
      var t := profile.tables[i];
      forall k | 0 <= k < |t.relationships|
        ensures TargetResolved(profile, ResolvedFlags(found), t.relationships[k])
      {
        FollowsExactly(profile, ResolvedFlags(found), memory, t, found[i].descriptor.value, t.relationships[k]);
      }
    }
  }

  /** The relationship phase. A table that fails here does not fail the tables that point at it. */
  method RelateTables(profile: ProfileBundle, found: seq<TableDiscovery>, backend: DiscoveryBackend)
    returns (tables: seq<TableDiscovery>)
    requires StructurallySound(profile, found)
    modifies backend
    ensures |tables| == |found|
    ensures Steady(backend) ==> forall i :: 0 <= i < |tables| ==> Related(profile, found, backend.view(0), i, tables[i])
    ensures Steady(backend) ==> forall i :: 0 <= i < |tables| ==> NothingDangles(profile, found, i, tables[i])
  {
    var resolved := ResolvedFlags(found);
    tables := [];
    for i := 0 to |found|
      invariant |tables| == i
      invariant Steady(backend) ==> forall j :: 0 <= j < i ==> Related(profile, found, backend.view(0), j, tables[j])
    {
      var d := found[i];
      if d.state.Resolved? {
        var follows := CheckRelationships(profile, resolved, profile.tables[i], d.descriptor.value, backend);
        if !follows {
          d := TableDiscovery(d.uniqueId, RelationshipFailed, None);
        }
      }
      tables := tables + [d];
    }
    if Steady(backend) {
      forall i | 0 <= i < |tables|
        ensures NothingDangles(profile, found, i, tables[i])
      {
        RelatedDoesNotDangle(profile, found, backend.view(0), i, tables[i]);
      }
    }
  }
}
