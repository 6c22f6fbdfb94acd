/** What revalidation checks: probes of record tables, the slot, wrapper and type chain of indexed
    arrays, and the byte guards that stand for both. */
module Revalidation {
  import opened Bytes
  import opened FieldSchema
  import opened Profile
  import opened WordOrder
  import opened CatalogState
  import opened CatalogReads
  import opened Quarantine

  // ----- probes of record tables

  datatype Check = Sentinel(fingerprint: RowFingerprint) | Relation(relationship: RelationshipConstraint)

  datatype Probe = Probe(uniqueId: nat, swapped: bool, request: ReadRequest, check: Check)

  function Product(row: nat, stride: nat): nat {
    row * stride
  }

  function RequestAt(base: nat, offset: nat, length: nat): (r: Option<ReadRequest>) {
    if base + offset > ADDRESS_MAX then None else Some(ReadRequest(base + offset, length))
  }

  function SentinelProbe(d: CatalogDescriptor, s: RowFingerprint): Option<Probe> {
    var offset := Product(s.rowIndex, d.stride);
    if s.rowIndex >= d.capacity || offset > ADDRESS_MAX then None
    else
      var request := RequestAt(d.base, offset, |s.pattern|);
      if request.None? then None
      else Some(Probe(d.uniqueId, d.storage.WordSwappedRecords?, request.value, Sentinel(s)))
  }

  function RelationProbe(c: Catalog, d: CatalogDescriptor, r: RelationshipConstraint): Option<Probe> {
    var field := FindField(c.schema, d.sessionTableId, r.fieldName);
    var target := FindByTableId(c.entries, r.targetTableId);
    var offset := Product(r.sourceRow, d.stride);
    if field.None? || !field.value.encoding.PackedRef? || r.sourceRow >= d.capacity || target.None?
       || r.targetRow >= target.value.descriptor.capacity || offset > ADDRESS_MAX then None
    else
      var row := RequestAt(d.base, offset, 0);
      if row.None? then None
      else
        var request := RequestAt(row.value.address, field.value.byteOffset, field.value.storageBytes);
        if request.None? then None
        else Some(Probe(d.uniqueId, d.storage.WordSwappedRecords?, request.value, Relation(r)))
  }

  /** The probes of a record table in the order they are tried: first its rows, then its relationships. */
  function Candidates(c: Catalog, e: Entry): (probes: seq<Option<Probe>>)
    ensures |probes| == |e.profile.rows| + |e.profile.relationships|
  {
    var n := |e.profile.rows|;
    seq(n + |e.profile.relationships|, i requires 0 <= i < n + |e.profile.relationships| =>
      if i < n then SentinelProbe(e.descriptor, e.profile.rows[i])
      else RelationProbe(c, e.descriptor, e.profile.relationships[i - n]))
  }

  predicate AllSome(probes: seq<Option<Probe>>) {
    forall i :: 0 <= i < |probes| ==> probes[i].Some?
  }

  function Somes(probes: seq<Option<Probe>>): (r: seq<Probe>)
    ensures forall p :: p in r <==> Some(p) in probes
  {
    if probes == [] then []
    else Somes(probes[..|probes| - 1]) + (if probes[|probes| - 1].None? then [] else [probes[|probes| - 1].value])
  }

  predicate ProbeHolds(p: Probe, bytes: seq<Byte>) {
    match p.check
    case Sentinel(s) => MaskedMatches(if p.swapped then LiveFingerprint(s) else s, bytes)
    case Relation(r) =>
      && |bytes| == 4
      && DecodePackedReference(RelationshipWord(p.swapped, bytes)) == Ok(Reference(r.targetTableId, r.targetRow))
  }

  predicate ProbePasses(memory: Memory, p: Probe) {
    RequestLegal(p.request) && Readable(memory, p.request) && ProbeHolds(p, BytesAt(memory, p.request))
  }

  // ----- indexed arrays

  const WRAPPER_BYTES: nat := 28

  predicate Indexed(e: Entry) {
    e.descriptor.storage.IndexedReferenceArray?
  }

  predicate IndexedRelationFits(c: Catalog, d: CatalogDescriptor, r: RelationshipConstraint) {
    var field := FindField(c.schema, d.sessionTableId, r.fieldName);
    && field.Some? && field.value.byteOffset % 4 == 0
    && d.virtualTarget == Some(r.targetTableId)
    && r.targetRow == Wrap32(Wrap32(Product(r.sourceRow, d.virtualWidth)) + field.value.byteOffset / 4)
  }

  function SlotRequest(d: CatalogDescriptor, s: RowFingerprint): Option<ReadRequest> {
    if s.rowIndex >= d.capacity then None else RequestAt(d.base, Wrap32(Product(s.rowIndex, d.stride)), 8)
  }

  predicate IndexedFits(c: Catalog, e: Entry) {
    && e.descriptor.virtualTarget.Some? && e.descriptor.virtualWidth != 0
    && (forall i :: 0 <= i < |e.profile.relationships| ==>
      IndexedRelationFits(c, e.descriptor, e.profile.relationships[i]))
    && forall i :: 0 <= i < |e.profile.rows| ==> SlotRequest(e.descriptor, e.profile.rows[i]).Some?
  }

  function SlotRequests(e: Entry): (requests: seq<ReadRequest>)
    requires forall i :: 0 <= i < |e.profile.rows| ==> SlotRequest(e.descriptor, e.profile.rows[i]).Some?
    ensures |requests| == |e.profile.rows|
  {
    seq(|e.profile.rows|, i requires 0 <= i < |e.profile.rows| => SlotRequest(e.descriptor, e.profile.rows[i]).value)
  }

  /** A slot names a wrapper: a non-null pointer with room for the wrapper behind it. */
  predicate SlotPoints(slot: seq<Byte>) {
    |slot| == 8 && 0 < LittleEndian(slot) && LittleEndian(slot) + WRAPPER_BYTES <= ADDRESS_MAX
  }

  predicate AllPoint(slots: seq<seq<Byte>>) {
    forall i :: 0 <= i < |slots| ==> SlotPoints(slots[i])
  }

  function WrapperRequests(slots: seq<seq<Byte>>): (requests: seq<ReadRequest>)
    requires AllPoint(slots)
    ensures |requests| == |slots|
  {
    seq(|slots|, i requires 0 <= i < |slots| => ReadRequest(LittleEndian(slots[i]), WRAPPER_BYTES))
  }

  function WrapperType(wrapper: seq<Byte>): nat
    requires |wrapper| == WRAPPER_BYTES
  {
    LittleEndian(wrapper[..8])
  }

  /** A wrapper carries its row, and one common non-null type. */
  predicate WrapperFits(wrapper: seq<Byte>, first: seq<Byte>, row: nat) {
    && |wrapper| == |first| == WRAPPER_BYTES
    && WrapperType(wrapper) != 0 && WrapperType(wrapper) == WrapperType(first)
    && LittleEndian(wrapper[24..]) == row
  }

  predicate WrappersFit(e: Entry, wrappers: seq<seq<Byte>>) {
    && |wrappers| == |e.profile.rows|
    && forall i :: 0 <= i < |wrappers| ==> WrapperFits(wrappers[i], wrappers[0], e.profile.rows[i].rowIndex)
  }

  function AllBytes(memory: Memory, requests: seq<ReadRequest>): (bytes: seq<seq<Byte>>)
    requires AllReadableIn(memory, requests)
    ensures |bytes| == |requests|
    ensures forall i :: 0 <= i < |requests| ==> bytes[i] == BytesAt(memory, requests[i])
  {
    seq(|requests|, i requires 0 <= i < |requests| => BytesAt(memory, requests[i]))
  }

  /** The whole chain of one indexed array, in one memory. */
  predicate ChainHolds(c: Catalog, e: Entry, memory: Memory) {
    && IndexedFits(c, e)
    && RequestsLegal(SlotRequests(e)) && AllReadableIn(memory, SlotRequests(e))
    && var slots := AllBytes(memory, SlotRequests(e));
    && AllPoint(slots)
    && AllReadableIn(memory, WrapperRequests(slots))
    && WrappersFit(e, AllBytes(memory, WrapperRequests(slots)))
  }

  // ----- one table, all tables

  predicate EntryFits(c: Catalog, e: Entry, memory: Memory) {
    if Indexed(e) then ChainHolds(c, e, memory)
    else AllSome(Candidates(c, e)) && forall p :: p in Somes(Candidates(c, e)) ==> ProbePasses(memory, p)
  }

  predicate EntryPasses(c: Catalog, e: Entry, memory: Memory, allocations: Allocations) {
    allocations(e.descriptor.allocationBase, e.descriptor.allocationSize) && EntryFits(c, e, memory)
  }

  ghost predicate Passes(c: Catalog, memory: Memory, allocations: Allocations) {
    && c.entries != [] && Closed(c.entries, {})
    && forall i :: 0 <= i < |c.entries| ==> EntryPasses(c, c.entries[i], memory, allocations)
  }

  const EVERYWHERE: Allocations := (_, _) => true

  function EntryProbes(c: Catalog, e: Entry, allocations: Allocations): seq<Probe> {
    if Indexed(e) || !allocations(e.descriptor.allocationBase, e.descriptor.allocationSize) then []
    else Somes(Candidates(c, e))
  }

  /** The probes of the second phase, table by table. */
  function AllProbes(c: Catalog, entries: seq<Entry>, allocations: Allocations): seq<Probe> {
    if entries == [] then []
    else
      AllProbes(c, entries[..|entries| - 1], allocations) + EntryProbes(c, entries[|entries| - 1], allocations)
  }

  // ----- guards

  predicate GuardHolds(memory: Memory, g: Guard) {
    Mapped(memory, g.address, |g.expected|) && Slice(memory, g.address, |g.expected|) == g.expected
  }

  /** A guard answers a request with the bytes it expects. */
  function GuardOn(r: ReadRequest, bytes: seq<Byte>): Guard {
    Guard(r.address, bytes)
  }

  function GuardsOn(requests: seq<ReadRequest>, bytes: seq<seq<Byte>>): (guards: seq<Guard>)
    requires |requests| == |bytes|
    ensures |guards| == |requests|
  {
    seq(|requests|, i requires 0 <= i < |requests| => GuardOn(requests[i], bytes[i]))
  }

  predicate LengthsFit(requests: seq<ReadRequest>, bytes: seq<seq<Byte>>) {
    |bytes| == |requests| && forall i :: 0 <= i < |requests| ==> |bytes[i]| == requests[i].length
  }

  predicate ChainOf(e: Entry, guards: seq<Guard>, slots: seq<seq<Byte>>, wrappers: seq<seq<Byte>>)
    requires forall i :: 0 <= i < |e.profile.rows| ==> SlotRequest(e.descriptor, e.profile.rows[i]).Some?
  {
    && LengthsFit(SlotRequests(e), slots) && AllPoint(slots)
    && LengthsFit(WrapperRequests(slots), wrappers) && WrappersFit(e, wrappers)
    && guards == GuardsOn(SlotRequests(e), slots) + GuardsOn(WrapperRequests(slots), wrappers)
  }

  /** Guards that expect a whole chain: first the slots, then the wrappers. */
  ghost predicate ChainGuards(c: Catalog, e: Entry, guards: seq<Guard>) {
    && IndexedFits(c, e) && RequestsLegal(SlotRequests(e))
    && exists slots, wrappers :: ChainOf(e, guards, slots, wrappers)
  }

  ghost predicate IndexedGuards(c: Catalog, entries: seq<Entry>, guards: seq<Guard>) {
    if entries == [] then guards == []
    else
      var e := entries[|entries| - 1];
      var own := if Indexed(e) then 2 * |e.profile.rows| else 0;
      && own <= |guards|
      && IndexedGuards(c, entries[..|entries| - 1], guards[..|guards| - own])
      && if Indexed(e) then ChainGuards(c, e, guards[|guards| - own..]) else AllSome(Candidates(c, e))
  }

  ghost predicate ProbeGuards(probes: seq<Probe>, guards: seq<Guard>) {
    && |guards| == |probes|
    && forall i :: 0 <= i < |probes| ==>
      && RequestLegal(probes[i].request) && |guards[i].expected| == probes[i].request.length
      && guards[i] == GuardOn(probes[i].request, guards[i].expected) && ProbeHolds(probes[i], guards[i].expected)
  }

  /** The guards of a snapshot: those of the probes, then those of the indexed arrays. */
  ghost predicate GuardsJustify(c: Catalog, guards: seq<Guard>) {
    var probes := AllProbes(c, c.entries, EVERYWHERE);
    && |probes| <= |guards| && ProbeGuards(probes, guards[..|probes|])
    && IndexedGuards(c, c.entries, guards[|probes|..])
    && c.entries != [] && Closed(c.entries, {})
  }

  ghost predicate AllHold(memory: Memory, guards: seq<Guard>) {
    forall i :: 0 <= i < |guards| ==> GuardHolds(memory, guards[i])
  }

  lemma {:induction false} HoldsBoth(memory: Memory, front: seq<Guard>, back: seq<Guard>)
    requires AllHold(memory, front + back)
    ensures AllHold(memory, front) && AllHold(memory, back)
  {
    forall i | 0 <= i < |front|
      ensures GuardHolds(memory, front[i])
    {
      assert GuardHolds(memory, (front + back)[i]);
    }
    forall i | 0 <= i < |back|
      ensures GuardHolds(memory, back[i])
    {
      assert GuardHolds(memory, (front + back)[|front| + i]);
    }
  }

  lemma {:induction false} HeldRequests(memory: Memory, requests: seq<ReadRequest>, bytes: seq<seq<Byte>>)
    requires LengthsFit(requests, bytes) && AllHold(memory, GuardsOn(requests, bytes))
    ensures AllReadableIn(memory, requests) && AllBytes(memory, requests) == bytes
  {
    forall i | 0 <= i < |requests|
      ensures Readable(memory, requests[i]) && BytesAt(memory, requests[i]) == bytes[i]
    {
      assert GuardHolds(memory, GuardsOn(requests, bytes)[i]);
    }
  }

  /** Memory that holds a chain's guards has the chain. */
  lemma {:induction false} ChainGuardsSuffice(c: Catalog, e: Entry, guards: seq<Guard>, memory: Memory)
    requires ChainGuards(c, e, guards) && AllHold(memory, guards)
    ensures ChainHolds(c, e, memory)
  {
    var slots, wrappers :| ChainOf(e, guards, slots, wrappers);
    HoldsBoth(memory, GuardsOn(SlotRequests(e), slots), GuardsOn(WrapperRequests(slots), wrappers));
    HeldRequests(memory, SlotRequests(e), slots);
    HeldRequests(memory, WrapperRequests(slots), wrappers);
  }

  lemma {:induction false} IndexedGuardsSuffice(
    c: Catalog, entries: seq<Entry>, guards: seq<Guard>, memory: Memory, i: nat)
    requires IndexedGuards(c, entries, guards) && AllHold(memory, guards) && i < |entries|
    ensures if Indexed(entries[i]) then ChainHolds(c, entries[i], memory) else AllSome(Candidates(c, entries[i]))
  {
    var n, e := |entries| - 1, entries[|entries| - 1];
    var own := if Indexed(e) then 2 * |e.profile.rows| else 0;
    if i < n {
      IndexedGuardsSuffice(c, entries[..n], guards[..|guards| - own], memory, i);
    } else if Indexed(e) {
      ChainGuardsSuffice(c, e, guards[|guards| - own..], memory);
    }
  }

  lemma {:induction false} ProbesOfEntry(c: Catalog, entries: seq<Entry>, allocations: Allocations, i: nat, p: Probe)
    requires i < |entries| && p in EntryProbes(c, entries[i], allocations)
    ensures p in AllProbes(c, entries, allocations)
  {
    if i < |entries| - 1 {
      ProbesOfEntry(c, entries[..|entries| - 1], allocations, i, p);
    }
  }

  lemma {:induction false} ProbeGuardsSuffice(probes: seq<Probe>, guards: seq<Guard>, memory: Memory, p: Probe)
    requires ProbeGuards(probes, guards) && AllHold(memory, guards) && p in probes
    ensures ProbePasses(memory, p)
  {
    var k :| 0 <= k < |probes| && probes[k] == p;
    assert GuardHolds(memory, guards[k]);
    assert BytesAt(memory, p.request) == guards[k].expected;
  }

  predicate AllocationsThere(c: Catalog, allocations: Allocations) {
    forall i :: 0 <= i < |c.entries| ==>
      allocations(c.entries[i].descriptor.allocationBase, c.entries[i].descriptor.allocationSize)
  }

  lemma {:induction false} GuardedEntryFits(
    c: Catalog, probes: seq<Probe>, front: seq<Guard>, back: seq<Guard>, memory: Memory, i: nat)
    requires i < |c.entries| && probes == AllProbes(c, c.entries, EVERYWHERE)
    requires ProbeGuards(probes, front) && AllHold(memory, front)
    requires IndexedGuards(c, c.entries, back) && AllHold(memory, back)
    ensures EntryFits(c, c.entries[i], memory)
  {
    var e := c.entries[i];
    IndexedGuardsSuffice(c, c.entries, back, memory, i);
    if !Indexed(e) {
      forall p | p in Somes(Candidates(c, e))
        ensures ProbePasses(memory, p)
      {
        ProbesOfEntry(c, c.entries, EVERYWHERE, i, p);
        ProbeGuardsSuffice(probes, front, memory, p);
      }
    }
  }

  /** Guard sufficiency: memory that satisfies every guard of a snapshot, with the allocations still
      there, passes revalidation again. */
  lemma {:induction false} GuardSufficiency(c: Catalog, guards: seq<Guard>, memory: Memory, allocations: Allocations)
    requires GuardsJustify(c, guards) && AllHold(memory, guards)
    requires AllocationsThere(c, allocations)
    ensures Passes(c, memory, allocations)
  {
    var probes := AllProbes(c, c.entries, EVERYWHERE);
    var front, back := guards[..|probes|], guards[|probes|..];
    assert guards == front + back;
    HoldsBoth(memory, front, back);
    forall i | 0 <= i < |c.entries|
      ensures EntryFits(c, c.entries[i], memory)
    {
      GuardedEntryFits(c, probes, front, back, memory, i);
    }
  }
}
