/** What it means, byte for byte, that a catalog passes revalidation: nothing here is said through the probes that
    find it out. */
module CatalogMeaning {
  import opened Bytes
  import opened FieldSchema
  import opened Profile
  import opened WordOrder
  import opened CatalogState
  import opened CatalogReads
  import opened Quarantine
  import opened Revalidation

  // ----- record tables

  /** The fingerprint fits live bytes: as they are, or with their words reversed in swapped storage. */
  predicate RowFits(s: RowFingerprint, swapped: bool, live: seq<Byte>) {
    MaskedMatches(s, if swapped then SwapWords(live) else live)
  }

  /** A row's fingerprint fits the live bytes of its row. */
  predicate RowInPlace(d: CatalogDescriptor, memory: Memory, s: RowFingerprint) {
    var at, n := d.base + s.rowIndex * d.stride, |s.pattern|;
    && s.rowIndex < d.capacity && 1 <= n <= 262144 && at + n <= 0xFFFF_FFFF_FFFF_FFFF && Mapped(memory, at, n)
    && RowFits(s, d.storage.WordSwappedRecords?, Slice(memory, at, n))
  }

  function FourBytes(a: nat, b: nat, c: nat, d: nat): nat {
    16777216 * a + 65536 * b + 256 * c + d
  }

  /** The four bytes at an address as a number, highest byte first or last. */
  function WordAt(memory: Memory, at: int, lastHighest: bool): nat
    requires Mapped(memory, at, 4)
  {
    if lastHighest then FourBytes(memory[at + 3], memory[at + 2], memory[at + 1], memory[at])
    else FourBytes(memory[at], memory[at + 1], memory[at + 2], memory[at + 3])
  }

  predicate FirstOfTable(entries: seq<Entry>, tableId: nat, i: nat) {
    && i < |entries| && entries[i].descriptor.sessionTableId == tableId
    && forall k :: 0 <= k < i ==> entries[k].descriptor.sessionTableId != tableId
  }

  ghost predicate HasRow(entries: seq<Entry>, tableId: nat, row: nat) {
    exists i: nat :: FirstOfTable(entries, tableId, i) && row < entries[i].descriptor.capacity
  }

  /** A relationship's field holds, in its row, a reference to the target row: the table in the upper 15 bits of the
      word, the row in the lower 17. */
  ghost predicate RelationInPlace(c: Catalog, d: CatalogDescriptor, memory: Memory, r: RelationshipConstraint) {
    var field := FindField(c.schema, d.sessionTableId, r.fieldName);
    && field.Some? && field.value.encoding.PackedRef? && field.value.storageBytes == 4
    && r.sourceRow < d.capacity && HasRow(c.entries, r.targetTableId, r.targetRow)
    && var at := d.base + r.sourceRow * d.stride + field.value.byteOffset;
    && at + 4 <= 0xFFFF_FFFF_FFFF_FFFF && Mapped(memory, at, 4) && r.targetRow < 131072
    && WordAt(memory, at, d.storage.WordSwappedRecords?) == r.targetTableId * 131072 + r.targetRow
  }

  lemma {:induction false} FirstOfTableFound(entries: seq<Entry>, tableId: nat)
    ensures var found := FindByTableId(entries, tableId);
      if found.None? then forall i: nat :: !FirstOfTable(entries, tableId, i)
      else exists i: nat :: FirstOfTable(entries, tableId, i) && found == Some(entries[i])
  {
    if entries != [] {
      if entries[0].descriptor.sessionTableId == tableId {
        assert FirstOfTable(entries, tableId, 0);
      } else {
        FirstOfTableFound(entries[1..], tableId);
        if FindByTableId(entries, tableId).Some? {
          var i: nat :|
            FirstOfTable(entries[1..], tableId, i) && FindByTableId(entries[1..], tableId) == Some(entries[1..][i]);
          assert FirstOfTable(entries, tableId, i + 1);
        }
      }
    }
  }

  lemma {:induction false} HasRowMeans(entries: seq<Entry>, tableId: nat, row: nat)
    ensures var found := FindByTableId(entries, tableId);
      HasRow(entries, tableId, row) <==> found.Some? && row < found.value.descriptor.capacity
  {
    FirstOfTableFound(entries, tableId);
  }

  predicate Passing(memory: Memory, probe: Option<Probe>) {
    probe.Some? && ProbePasses(memory, probe.value)
  }

  lemma {:induction false} SentinelHolds(p: Probe, s: RowFingerprint, bytes: seq<Byte>)
    requires p.check == Sentinel(s)
    ensures ProbeHolds(p, bytes) <==> RowFits(s, p.swapped, bytes)
  {
    LiveMatchIsCanonicalMatch(s, bytes);
  }

  lemma {:induction false} SentinelMeans(d: CatalogDescriptor, memory: Memory, s: RowFingerprint)
    ensures Passing(memory, SentinelProbe(d, s)) <==> RowInPlace(d, memory, s)
  {
    var probe := SentinelProbe(d, s);
    if probe.Some? {
      if Readable(memory, probe.value.request) {
        SentinelHolds(probe.value, s, BytesAt(memory, probe.value.request));
      }
    }
  }

  lemma {:induction false} WordOfFour(bytes: seq<Byte>)
    requires |bytes| == 4
    ensures StorageOf(bytes) == FourBytes(bytes[0], bytes[1], bytes[2], bytes[3])
    ensures LittleEndian(bytes) == FourBytes(bytes[3], bytes[2], bytes[1], bytes[0])
  {
    StorageIsBigEndian(bytes);
    var three := bytes[..3];
    var two := three[..2];
    var one := two[..1];
    assert one[..0] == [] && BigEndian(one) == bytes[0];
    assert BigEndian(two) == 256 * BigEndian(one) + bytes[1];
    assert BigEndian(three) == 256 * BigEndian(two) + bytes[2];
    LittleEndianMeans(bytes);
    var second := bytes[1..];
    var third := second[1..];
    var fourth := third[1..];
    assert fourth[1..] == [] && LittleEndianValue(fourth) == bytes[3];
    assert LittleEndianValue(third) == bytes[2] + 256 * LittleEndianValue(fourth);
    assert LittleEndianValue(second) == bytes[1] + 256 * LittleEndianValue(third);
  }

  lemma {:induction false} WordMeans(memory: Memory, at: int, swapped: bool, table: nat, row: nat)
    requires Mapped(memory, at, 4)
    ensures DecodePackedReference(RelationshipWord(swapped, Slice(memory, at, 4))) == Ok(Reference(table, row)) <==>
      row < 131072 && WordAt(memory, at, swapped) == table * 131072 + row
  {
    var word := WordAt(memory, at, swapped);
    WordOfFour(Slice(memory, at, 4));
    assert RelationshipWord(swapped, Slice(memory, at, 4)) == word <= 0xFFFF_FFFF;
    if row < 131072 && word == table * 131072 + row {
      assert word / 131072 == table && word % 131072 == row;
    }
  }

  /** The probe of a relationship asks for the reference's bytes, if its field, its row and its target are there. */
  lemma {:induction false} RelationRequest(c: Catalog, d: CatalogDescriptor, r: RelationshipConstraint)
    ensures var probe, field := RelationProbe(c, d, r), FindField(c.schema, d.sessionTableId, r.fieldName);
      if field.None? || !field.value.encoding.PackedRef? || r.sourceRow >= d.capacity
         || !HasRow(c.entries, r.targetTableId, r.targetRow) then probe.None?
      else
        var at := d.base + r.sourceRow * d.stride + field.value.byteOffset;
        && (probe.None? ==> at > ADDRESS_MAX)
        && (probe.Some? ==>
          probe.value == Probe(d.uniqueId, d.storage.WordSwappedRecords?,
                               ReadRequest(at, field.value.storageBytes), Relation(r)))
  {
    HasRowMeans(c.entries, r.targetTableId, r.targetRow);
  }

  lemma {:induction false} RelationMeans(
    c: Catalog, d: CatalogDescriptor, memory: Memory, r: RelationshipConstraint)
    ensures Passing(memory, RelationProbe(c, d, r)) <==> RelationInPlace(c, d, memory, r)
  {
    RelationRequest(c, d, r);
    var probe := RelationProbe(c, d, r);
    if probe.Some? && RequestLegal(probe.value.request) && Readable(memory, probe.value.request) {
      if probe.value.request.length == 4 {
        WordMeans(memory, probe.value.request.address, probe.value.swapped, r.targetTableId, r.targetRow);
      }
    }
  }

  lemma {:induction false} CandidatesPass(c: Catalog, e: Entry, memory: Memory)
    requires !Indexed(e)
    ensures EntryFits(c, e, memory) <==>
      forall i :: 0 <= i < |Candidates(c, e)| ==> Passing(memory, Candidates(c, e)[i])
  {
    var candidates := Candidates(c, e);
    if EntryFits(c, e, memory) {
      forall i | 0 <= i < |candidates|
        ensures Passing(memory, candidates[i])
      {
        assert Some(candidates[i].value) in candidates;
      }
    }
    if forall i :: 0 <= i < |candidates| ==> Passing(memory, candidates[i]) {
      forall p | p in Somes(candidates)
        ensures ProbePasses(memory, p)
      {
        var i :| 0 <= i < |candidates| && candidates[i] == Some(p);
      }
    }
  }

  /** The checks of a record table, first its rows, then its relationships. */
  ghost predicate InPlace(c: Catalog, e: Entry, memory: Memory, i: nat)
    requires i < |e.profile.rows| + |e.profile.relationships|
  {
    if i < |e.profile.rows| then RowInPlace(e.descriptor, memory, e.profile.rows[i])
    else RelationInPlace(c, e.descriptor, memory, e.profile.relationships[i - |e.profile.rows|])
  }

  ghost predicate RecordsInPlace(c: Catalog, e: Entry, memory: Memory) {
    forall i: nat :: i < |e.profile.rows| + |e.profile.relationships| ==> InPlace(c, e, memory, i)
  }

  lemma {:induction false} CandidateMeans(c: Catalog, e: Entry, memory: Memory, i: nat)
    requires i < |e.profile.rows| + |e.profile.relationships|
    ensures Passing(memory, Candidates(c, e)[i]) <==> InPlace(c, e, memory, i)
  {
    if i < |e.profile.rows| {
      SentinelMeans(e.descriptor, memory, e.profile.rows[i]);
    } else {
      RelationMeans(c, e.descriptor, memory, e.profile.relationships[i - |e.profile.rows|]);
    }
  }

  /** A record table passes exactly when every fingerprint is in its row and every relationship in its place. */
  lemma {:induction false} RecordTableExactly(c: Catalog, e: Entry, memory: Memory)
    requires !Indexed(e)
    ensures EntryFits(c, e, memory) <==> RecordsInPlace(c, e, memory)
  {
    CandidatesPass(c, e, memory);
    forall i: nat | i < |e.profile.rows| + |e.profile.relationships|
      ensures Passing(memory, Candidates(c, e)[i]) <==> InPlace(c, e, memory, i)
    {
      CandidateMeans(c, e, memory, i);
    }
  }

  // ----- indexed arrays

  /** The number the `n` bytes at an address stand for, lowest byte first. */
  function LiveNumber(memory: Memory, at: int, n: nat): nat
    requires Mapped(memory, at, n)
  {
    LittleEndianValue(Slice(memory, at, n))
  }

  /** The slot of a row holds the address of a 28-byte wrapper that begins with the type and ends with the row. */
  predicate WrapperInPlace(d: CatalogDescriptor, memory: Memory, row: nat, kind: nat) {
    var slot := d.base + (row * d.stride) % 0x1_0000_0000;
    && row < d.capacity && slot + 8 <= 0xFFFF_FFFF_FFFF_FFFF && Mapped(memory, slot, 8)
    && var wrapper := LiveNumber(memory, slot, 8);
    && 1 <= wrapper && wrapper + 28 <= 0xFFFF_FFFF_FFFF_FFFF && Mapped(memory, wrapper, 28)
    && Mapped(memory, wrapper, 8) && Mapped(memory, wrapper + 24, 4)
    && LiveNumber(memory, wrapper, 8) == kind && LiveNumber(memory, wrapper + 24, 4) == row
  }

  /** A relationship of an indexed array names the element of its row and its field's word. */
  predicate ElementNamed(c: Catalog, d: CatalogDescriptor, r: RelationshipConstraint) {
    var field := FindField(c.schema, d.sessionTableId, r.fieldName);
    && field.Some? && field.value.byteOffset % 4 == 0 && d.virtualTarget == Some(r.targetTableId)
    && r.targetRow == ((r.sourceRow * d.virtualWidth) % 0x1_0000_0000 + field.value.byteOffset / 4) % 0x1_0000_0000
  }

  predicate WrappersInPlace(e: Entry, memory: Memory, kind: nat) {
    forall i :: 0 <= i < |e.profile.rows| ==> WrapperInPlace(e.descriptor, memory, e.profile.rows[i].rowIndex, kind)
  }

  /** All relationships name their elements, and the wrappers of all rows are of one type, which is not null. */
  ghost predicate ArrayInPlace(c: Catalog, e: Entry, memory: Memory) {
    && e.descriptor.virtualTarget.Some? && e.descriptor.virtualWidth != 0
    && (forall i :: 0 <= i < |e.profile.relationships| ==>
      ElementNamed(c, e.descriptor, e.profile.relationships[i]))
    && exists kind: nat :: kind != 0 && WrappersInPlace(e, memory, kind)
  }

  lemma {:induction false} SlotMeans(d: CatalogDescriptor, memory: Memory, s: RowFingerprint)
    ensures var request := SlotRequest(d, s);
      var slot := d.base + (s.rowIndex * d.stride) % 0x1_0000_0000;
      (request.Some? && RequestLegal(request.value) && Readable(memory, request.value)) <==>
        s.rowIndex < d.capacity && slot + 8 <= 0xFFFF_FFFF_FFFF_FFFF && Mapped(memory, slot, 8)
  {
  }

  /** The chain of one row, in the terms of the survey. */
  predicate RowChain(d: CatalogDescriptor, memory: Memory, s: RowFingerprint, kind: nat) {
    var request := SlotRequest(d, s);
    && request.Some? && RequestLegal(request.value) && Readable(memory, request.value)
    && SlotPoints(BytesAt(memory, request.value))
    && var wrapper := ReadRequest(LittleEndian(BytesAt(memory, request.value)), WRAPPER_BYTES);
    && Readable(memory, wrapper)
    && WrapperType(BytesAt(memory, wrapper)) == kind && LittleEndian(BytesAt(memory, wrapper)[24..]) == s.rowIndex
  }

  lemma {:induction false} WrapperParts(memory: Memory, wrapper: int)
    requires Mapped(memory, wrapper, 28)
    ensures Mapped(memory, wrapper, 8) && Mapped(memory, wrapper + 24, 4)
    ensures Slice(memory, wrapper, 28)[..8] == Slice(memory, wrapper, 8)
    ensures Slice(memory, wrapper, 28)[24..] == Slice(memory, wrapper + 24, 4)
  {
    forall i | 0 <= i < 4
      ensures Slice(memory, wrapper, 28)[24..][i] == memory[wrapper + 24 + i]
    {
      assert memory[wrapper + (24 + i)] == memory[wrapper + 24 + i];
    }
  }

  lemma {:induction false} RowChainMeans(d: CatalogDescriptor, memory: Memory, s: RowFingerprint, kind: nat)
    ensures RowChain(d, memory, s, kind) <==> WrapperInPlace(d, memory, s.rowIndex, kind)
  {
    SlotMeans(d, memory, s);
    var request := SlotRequest(d, s);
    if request.Some? {
      if Readable(memory, request.value) {
        LittleEndianMeans(BytesAt(memory, request.value));
        var wrapper := LittleEndian(BytesAt(memory, request.value));
        if Mapped(memory, wrapper, 28) {
          WrapperParts(memory, wrapper);
          LittleEndianMeans(Slice(memory, wrapper, 8));
          LittleEndianMeans(Slice(memory, wrapper + 24, 4));
        }
      }
    }
  }

  ghost predicate RowChains(e: Entry, memory: Memory, kind: nat) {
    forall i :: 0 <= i < |e.profile.rows| ==> RowChain(e.descriptor, memory, e.profile.rows[i], kind)
  }

  lemma {:induction false} ChainByRows(c: Catalog, e: Entry, memory: Memory)
    requires e.profile.rows != []
    ensures ChainHolds(c, e, memory) ==>
      IndexedFits(c, e) && exists kind: nat :: kind != 0 && RowChains(e, memory, kind)
  {
    if ChainHolds(c, e, memory) {
      var slots := AllBytes(memory, SlotRequests(e));
      var wrappers := AllBytes(memory, WrapperRequests(slots));
      var kind := WrapperType(wrappers[0]);
      forall i | 0 <= i < |e.profile.rows|
        ensures RowChain(e.descriptor, memory, e.profile.rows[i], kind)
      {
        assert SlotPoints(slots[i]) && RequestLegal(SlotRequests(e)[i]) && Readable(memory, SlotRequests(e)[i]);
        assert Readable(memory, WrapperRequests(slots)[i]);
        assert WrapperFits(wrappers[i], wrappers[0], e.profile.rows[i].rowIndex);
      }
      assert WrapperFits(wrappers[0], wrappers[0], e.profile.rows[0].rowIndex);
      assert RowChains(e, memory, kind);
    }
  }

  lemma {:induction false} RowsMakeChain(c: Catalog, e: Entry, memory: Memory, kind: nat)
    requires IndexedFits(c, e) && kind != 0 && RowChains(e, memory, kind)
    ensures ChainHolds(c, e, memory)
  {
    var requests := SlotRequests(e);
    forall i | 0 <= i < |requests|
      ensures RequestLegal(requests[i]) && Readable(memory, requests[i])
      ensures SlotPoints(BytesAt(memory, requests[i]))
    {
      assert RowChain(e.descriptor, memory, e.profile.rows[i], kind);
    }
    var slots := AllBytes(memory, requests);
    forall i | 0 <= i < |slots|
      ensures Readable(memory, WrapperRequests(slots)[i])
      ensures WrapperType(BytesAt(memory, WrapperRequests(slots)[i])) == kind
      ensures LittleEndian(BytesAt(memory, WrapperRequests(slots)[i])[24..]) == e.profile.rows[i].rowIndex
    {
      assert RowChain(e.descriptor, memory, e.profile.rows[i], kind);
    }
    assert WrappersFit(e, AllBytes(memory, WrapperRequests(slots)));
  }

  lemma {:induction false} ElementsNamed(c: Catalog, e: Entry)
    ensures (forall i :: 0 <= i < |e.profile.relationships| ==>
      IndexedRelationFits(c, e.descriptor, e.profile.relationships[i])) <==>
        (forall i :: 0 <= i < |e.profile.relationships| ==>
          ElementNamed(c, e.descriptor, e.profile.relationships[i]))
  {
    forall r: RelationshipConstraint
      ensures IndexedRelationFits(c, e.descriptor, r) <==> ElementNamed(c, e.descriptor, r)
    {
    }
  }

  /** An indexed array passes exactly when all of it is in its place. */
  lemma {:induction false} IndexedArrayExactly(c: Catalog, e: Entry, memory: Memory)
    requires Indexed(e)
    ensures EntryFits(c, e, memory) <==> ArrayInPlace(c, e, memory)
  {
    ElementsNamed(c, e);
    forall i, kind: nat | 0 <= i < |e.profile.rows|
      ensures RowChain(e.descriptor, memory, e.profile.rows[i], kind) <==>
        WrapperInPlace(e.descriptor, memory, e.profile.rows[i].rowIndex, kind)
    {
      RowChainMeans(e.descriptor, memory, e.profile.rows[i], kind);
    }
    if ChainHolds(c, e, memory) {
      if e.profile.rows == [] {
        assert WrappersInPlace(e, memory, 1);
      } else {
        ChainByRows(c, e, memory);
        var kind: nat :| kind != 0 && RowChains(e, memory, kind);
        assert WrappersInPlace(e, memory, kind);
      }
    }
    if ArrayInPlace(c, e, memory) {
      var kind: nat :| kind != 0 && WrappersInPlace(e, memory, kind);
      assert RowChains(e, memory, kind);
      assert IndexedFits(c, e);
      RowsMakeChain(c, e, memory, kind);
    }
  }

  // ----- the whole catalog

  ghost predicate TargetThere(c: Catalog, r: RelationshipConstraint) {
    exists i: nat :: i < |c.entries| && c.entries[i].descriptor.sessionTableId == r.targetTableId
  }

  ghost predicate TableInPlace(c: Catalog, e: Entry, memory: Memory, allocations: Allocations) {
    && allocations(e.descriptor.allocationBase, e.descriptor.allocationSize)
    && (forall k :: 0 <= k < |e.profile.relationships| ==> TargetThere(c, e.profile.relationships[k]))
    && if e.descriptor.storage.IndexedReferenceArray? then ArrayInPlace(c, e, memory)
       else RecordsInPlace(c, e, memory)
  }

  /** Every table's allocation is there, its records or its array are in place, and every relationship's target table
      is in the catalog. */
  ghost predicate CatalogInPlace(c: Catalog, memory: Memory, allocations: Allocations) {
    && c.entries != []
    && forall i :: 0 <= i < |c.entries| ==> TableInPlace(c, c.entries[i], memory, allocations)
  }

  lemma {:induction false} TargetMeans(c: Catalog, r: RelationshipConstraint)
    ensures PointsInto(c.entries, r, {}) <==> !TargetThere(c, r)
  {
    FirstOfTableFound(c.entries, r.targetTableId);
  }

  lemma {:induction false} TableExactly(c: Catalog, e: Entry, memory: Memory, allocations: Allocations)
    ensures TableInPlace(c, e, memory, allocations) <==>
      EntryPasses(c, e, memory, allocations) && !Drags(c.entries, e, {})
  {
    forall r: RelationshipConstraint
      ensures PointsInto(c.entries, r, {}) <==> !TargetThere(c, r)
    {
      TargetMeans(c, r);
    }
    if Indexed(e) {
      IndexedArrayExactly(c, e, memory);
    } else {
      RecordTableExactly(c, e, memory);
    }
  }

  /** A catalog passes exactly when everything is in place. */
  lemma {:induction false} PassesExactly(c: Catalog, memory: Memory, allocations: Allocations)
    ensures Passes(c, memory, allocations) <==> CatalogInPlace(c, memory, allocations)
  {
    forall i | 0 <= i < |c.entries|
      ensures TableInPlace(c, c.entries[i], memory, allocations) <==>
        EntryPasses(c, c.entries[i], memory, allocations) && !Drags(c.entries, c.entries[i], {})
    {
      TableExactly(c, c.entries[i], memory, allocations);
    }
  }
}
