/** Table schemas and the row fingerprints and relationships of a discovery profile. */
module Profile {
  import opened Bytes
  import opened Bits
  import opened FieldSchema

  datatype AuthorityStatus = DiscoveryOnly | CommitAdapterRequired | DirectVerified

  datatype TableSchema = TableSchema(
    tableId: nat, uniqueId: nat, capacity: nat, recordSize: nat, authority: AuthorityStatus,
    fields: seq<FieldDefinition>)

  datatype RelationshipConstraint = RelationshipConstraint(
    sourceRow: nat, fieldName: string, targetTableId: nat, targetRow: nat)

  datatype RowFingerprint = RowFingerprint(rowIndex: nat, pattern: seq<Byte>, mask: seq<Byte>)

  datatype TableProfile = TableProfile(
    tableId: nat, uniqueId: nat, capacity: nat, recordSize: nat,
    rows: seq<RowFingerprint>, relationships: seq<RelationshipConstraint>)

  datatype ProfileBundle = ProfileBundle(profileId: string, tables: seq<TableProfile>, schema: seq<TableSchema>)

  /** The first table with the id, as the registry's linear search finds it. */
  function FindTable(schema: seq<TableSchema>, tableId: nat): (r: Option<TableSchema>)
    ensures r.Some? ==> r.value in schema && r.value.tableId == tableId
    ensures r.None? ==> forall t :: t in schema ==> t.tableId != tableId
  {
    if schema == [] then None
    else if schema[0].tableId == tableId then Some(schema[0])
    else FindTable(schema[1..], tableId)
  }

  function FindDefinition(fields: seq<FieldDefinition>, name: string): (r: Option<FieldDefinition>)
    ensures r.Some? ==> r.value in fields && r.value.name == name
    ensures r.None? ==> forall f :: f in fields ==> f.name != name
  {
    if fields == [] then None
    else if fields[0].name == name then Some(fields[0])
    else FindDefinition(fields[1..], name)
  }

  function FindField(schema: seq<TableSchema>, tableId: nat, name: string): (r: Option<FieldDefinition>)
    ensures r.Some? ==> r.value.name == name
  {
    var table := FindTable(schema, tableId);
    if table.None? then None else FindDefinition(table.value.fields, name)
  }

  predicate FirstTable(schema: seq<TableSchema>, tableId: nat, i: nat) {
    i < |schema| && schema[i].tableId == tableId && forall k :: 0 <= k < i ==> schema[k].tableId != tableId
  }

  predicate FirstNamed(fields: seq<FieldDefinition>, name: string, j: nat) {
    j < |fields| && fields[j].name == name && forall k :: 0 <= k < j ==> fields[k].name != name
  }

  lemma {:induction false} FindTableExactly(schema: seq<TableSchema>, tableId: nat)
    ensures if FindTable(schema, tableId).None? then forall i: nat :: !FirstTable(schema, tableId, i)
            else exists i: nat :: FirstTable(schema, tableId, i) && FindTable(schema, tableId) == Some(schema[i])
  {
    if schema != [] && schema[0].tableId == tableId {
      assert FirstTable(schema, tableId, 0);
    } else if schema != [] {
      FindTableExactly(schema[1..], tableId);
      if FindTable(schema, tableId).Some? {
        var i: nat :| FirstTable(schema[1..], tableId, i) && FindTable(schema[1..], tableId) == Some(schema[1..][i]);
        assert FirstTable(schema, tableId, i + 1);
      }
    }
  }

  lemma {:induction false} FindDefinitionExactly(fields: seq<FieldDefinition>, name: string)
    ensures if FindDefinition(fields, name).None? then forall j: nat :: !FirstNamed(fields, name, j)
            else exists j: nat :: FirstNamed(fields, name, j) && FindDefinition(fields, name) == Some(fields[j])
  {
    if fields != [] && fields[0].name == name {
      assert FirstNamed(fields, name, 0);
    } else if fields != [] {
      FindDefinitionExactly(fields[1..], name);
      if FindDefinition(fields, name).Some? {
        var j: nat :| FirstNamed(fields[1..], name, j) && FindDefinition(fields[1..], name) == Some(fields[1..][j]);
        assert FirstNamed(fields, name, j + 1);
      }
    }
  }

  /** The lookup finds the first field with the name in the first table with the id, and nothing else. */
  lemma {:induction false} FindFieldExactly(schema: seq<TableSchema>, tableId: nat, name: string, f: FieldDefinition)
    ensures FindField(schema, tableId, name) == Some(f) <==>
      exists i: nat, j: nat ::
        FirstTable(schema, tableId, i) && FirstNamed(schema[i].fields, name, j) && f == schema[i].fields[j]
  {
    FindTableExactly(schema, tableId);
    if FindTable(schema, tableId).Some? {
      FindDefinitionExactly(FindTable(schema, tableId).value.fields, name);
    }
  }

  /** A fingerprint fits bytes when every selected bit agrees. */
  predicate MaskedMatches(fingerprint: RowFingerprint, bytes: seq<Byte>) {
    && |bytes| == |fingerprint.pattern| == |fingerprint.mask|
    && forall i :: 0 <= i < |bytes| ==>
      Masked(bytes[i], fingerprint.mask[i]) == Masked(fingerprint.pattern[i], fingerprint.mask[i])
  }

  /** The bytes agree in every bit the mask selects. */
  ghost predicate SelectedBitsAgree(x: Byte, y: Byte, mask: Byte) {
    forall p: nat :: p < 8 && Bit(mask, p) ==> Bit(x, p) == Bit(y, p)
  }

  lemma {:induction false} MaskedByBits(x: Byte, y: Byte, mask: Byte)
    ensures Masked(x, mask) == Masked(y, mask) <==> SelectedBitsAgree(x, y, mask)
  {
    assert Pow2(8) == 256;
    if Masked(x, mask) == Masked(y, mask) {
      forall p: nat | p < 8 && Bit(mask, p)
        ensures Bit(x, p) == Bit(y, p)
      {
        BitAnd(x, mask, p);
        BitAnd(y, mask, p);
      }
    }
    if SelectedBitsAgree(x, y, mask) {
      forall p: nat | p < 8
        ensures Bit(And(x, mask), p) == Bit(And(y, mask), p)
      {
        BitAnd(x, mask, p);
        BitAnd(y, mask, p);
      }
      SameWord(And(x, mask), And(y, mask), 8);
    }
  }

  /** A fingerprint fits bytes of its length that agree with it bit by bit, wherever its mask selects. */
  lemma {:induction false} MaskedMatchesExactly(fingerprint: RowFingerprint, bytes: seq<Byte>)
    ensures MaskedMatches(fingerprint, bytes) <==>
      && |bytes| == |fingerprint.pattern| == |fingerprint.mask|
      && forall i :: 0 <= i < |bytes| ==>
        SelectedBitsAgree(bytes[i], fingerprint.pattern[i], fingerprint.mask[i])
  {
    if |bytes| == |fingerprint.pattern| == |fingerprint.mask| {
      forall i | 0 <= i < |bytes| {
        MaskedByBits(bytes[i], fingerprint.pattern[i], fingerprint.mask[i]);
      }
    }
  }
}
