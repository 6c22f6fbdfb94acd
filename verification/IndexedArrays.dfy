/** Arrays of references: tables whose records are nothing but one packed reference per word. */
module IndexedArrays {
  import opened Bytes
  import opened FieldSchema
  import opened Profile
  import opened CatalogState
  import opened Revalidation

  datatype IndexedArrayLayout = IndexedArrayLayout(target: nat, width: nat)

  function Ordinal(d: FieldDefinition): nat {
    d.byteOffset / 4
  }

  predicate ReferenceWord(d: FieldDefinition, width: nat, target: nat) {
    && d.encoding.PackedRef? && d.storageBytes == 4 && d.bitOffset == 0 && d.bitWidth == 32
    && d.byteOffset % 4 == 0 && Ordinal(d) < width && d.referenceTableId == Some(target)
  }

  predicate RelationFits(schema: seq<TableSchema>, tableId: nat, r: RelationshipConstraint, layout: IndexedArrayLayout)
  {
    var field := FindField(schema, tableId, r.fieldName);
    && field.Some? && r.targetTableId == layout.target
    && r.targetRow == Product(r.sourceRow, layout.width) + Ordinal(field.value)
  }

  predicate DistinctOrdinals(fields: seq<FieldDefinition>) {
    forall i, j :: 0 <= i < j < |fields| ==> Ordinal(fields[i]) != Ordinal(fields[j])
  }

  /** The record is an array of `width` references to rows of one table, and the profile's relationships agree. */
  predicate IsIndexedArray(schema: seq<TableSchema>, t: TableProfile, layout: IndexedArrayLayout) {
    var table := FindTable(schema, t.tableId);
    && table.Some? && 0 < |table.value.fields| == layout.width && table.value.recordSize == layout.width * 4
    && (forall i :: 0 <= i < |table.value.fields| ==> ReferenceWord(table.value.fields[i], layout.width, layout.target))
    && DistinctOrdinals(table.value.fields)
    && forall i :: 0 <= i < |t.relationships| ==> RelationFits(schema, t.tableId, t.relationships[i], layout)
  }

  method DetectIndexedArray(schema: seq<TableSchema>, t: TableProfile) returns (layout: Option<IndexedArrayLayout>)
    ensures layout.Some? ==> IsIndexedArray(schema, t, layout.value)
    ensures layout.None? ==> forall l :: !IsIndexedArray(schema, t, l)
  {
    var table := FindTable(schema, t.tableId);
    if table.None? || table.value.fields == [] || table.value.recordSize != |table.value.fields| * 4 {
      return None;
    }
    var fields := table.value.fields;
    var target: Option<nat> := None;
    var ordinals: set<nat> := {};
    for i := 0 to |fields|
      invariant target.None? <==> i == 0
      invariant target.Some? ==> fields[0].referenceTableId == target
      invariant forall j :: 0 <= j < i ==> ReferenceWord(fields[j], |fields|, target.value)
      invariant DistinctOrdinals(fields[..i])
      invariant forall o :: o in ordinals <==> exists j :: 0 <= j < i && Ordinal(fields[j]) == o
    {
      var d := fields[i];
      var ordinal := Ordinal(d);
      if !d.encoding.PackedRef? || d.storageBytes != 4 || d.bitOffset != 0 || d.bitWidth != 32
         || d.referenceTableId.None? || d.byteOffset % 4 != 0 || ordinal >= |fields| || ordinal in ordinals {
        return None;
      }
      ordinals := ordinals + {ordinal};
      if target.None? {
        target := d.referenceTableId;
      }
      if target != d.referenceTableId {
        return None;
      }
    }
    assert fields[..|fields|] == fields;
    var found := IndexedArrayLayout(target.value, |fields|);
    for i := 0 to |t.relationships|
      invariant forall j :: 0 <= j < i ==> RelationFits(schema, t.tableId, t.relationships[j], found)
    {
      if !RelationFits(schema, t.tableId, t.relationships[i], found) {
        forall l | IsIndexedArray(schema, t, l)
          ensures l == found
        {
          assert ReferenceWord(fields[0], l.width, l.target);
        }
        return None;
      }
    }
    layout := Some(found);
  }

  predicate OnlyFieldOf(fields: seq<FieldDefinition>, i: int, o: nat) {
    0 <= i < |fields| && forall j :: 0 <= j < |fields| ==> (Ordinal(fields[j]) == o <==> j == i)
  }

  lemma {:induction false} Injected(s: seq<nat>, room: set<int>)
    requires forall i, j :: 0 <= i < j < |s| ==> s[i] != s[j]
    requires forall i :: 0 <= i < |s| ==> s[i] in room
    ensures |s| <= |room|
  {
    if s != [] {
      var last := s[|s| - 1];
      Injected(s[..|s| - 1], room - {last});
    }
  }

  ghost function Below(n: nat): (numbers: set<int>)
    ensures |numbers| == n && forall x :: x in numbers <==> 0 <= x < n
  {
    if n == 0 then {} else Below(n - 1) + {n - 1}
  }

  /** `n` different numbers below `n` are all the numbers below `n`. */
  lemma {:induction false} Pigeonhole(s: seq<nat>, o: nat) returns (i: nat)
    requires forall i, j :: 0 <= i < j < |s| ==> s[i] != s[j]
    requires (forall i :: 0 <= i < |s| ==> s[i] < |s|) && o < |s|
    ensures i < |s| && s[i] == o
  {
    if forall i :: 0 <= i < |s| ==> s[i] != o {
      Injected(s, Below(|s|) - {o});
      assert false;
    }
    i :| 0 <= i < |s| && s[i] == o;
  }

  /** Distinct ordinals below the width leave no word of the record without its field. */
  lemma {:induction false} EveryWordHasItsField(
    schema: seq<TableSchema>, t: TableProfile, layout: IndexedArrayLayout, o: nat)
    requires IsIndexedArray(schema, t, layout) && o < layout.width
    ensures exists i :: OnlyFieldOf(FindTable(schema, t.tableId).value.fields, i, o)
  {
    var fields := FindTable(schema, t.tableId).value.fields;
    var ordinals := seq(|fields|, i requires 0 <= i < |fields| => Ordinal(fields[i]));
    var i := Pigeonhole(ordinals, o);
    assert Ordinal(fields[i]) == ordinals[i];
    assert OnlyFieldOf(fields, i, o);
  }

  /** Every row and word of an indexed array stands for a target row of its own. */
  lemma {:induction false} TargetsAreDistinct(row: nat, o: nat, row': nat, o': nat, width: nat)
    requires o < width && o' < width
    ensures Product(row, width) + o == Product(row', width) + o' ==> row == row' && o == o'
  {
    if row != row' {
      MultipleIsFar(width, row - row');
      assert width * (row - row') == row * width - row' * width;
    }
  }
}
