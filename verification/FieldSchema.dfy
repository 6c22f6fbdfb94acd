/** Field definitions and the bit-packed field codec. */
module FieldSchema {
  import opened Bytes
  import opened Bits

  datatype Outcome<+T, +E> = Ok(value: T) | Fail(error: E)

  datatype Encoding = Unsigned | Signed | OffsetBinary | Bitfield | PackedRef | Unsupported(name: string)

  datatype FieldDefinition = FieldDefinition(
    name: string, encoding: Encoding, byteOffset: nat, storageBytes: nat, bitOffset: nat, bitWidth: nat,
    minimum: int, maximum: int, referenceTableId: Option<nat>)

  /** A field value: a number, or a reference to a row of a table. */
  datatype FieldValue = Number(number: int) | Reference(tableId: nat, rowIndex: nat)

  datatype CodecError =
    | BadBitWidth | StorageOutOfBounds | BitRangeOutOfStorage | UnsupportedEncoding | ReferenceNot32Bits
    | IllegalRange | IllegalOffsetRange
    | PackedValueTooWide | ReferenceMismatch | TableIdTooWide | RowIndexTooWide | NotANumber | OutOfDeclaredBounds

  // ----- definitions

  const INT64_MIN: int := -0x8000_0000_0000_0000
  const INT64_MAX: int := 0x7FFF_FFFF_FFFF_FFFF

  function LegalMinimum(d: FieldDefinition): int
    requires d.bitWidth >= 1
  {
    if d.encoding.Signed? then -(Pow2(d.bitWidth - 1) as int)
    else if d.encoding.OffsetBinary? then INT64_MIN else 0
  }

  function LegalMaximum(d: FieldDefinition): int
    requires d.bitWidth >= 1
  {
    if d.encoding.Signed? then Pow2(d.bitWidth - 1) - 1
    else if d.encoding.OffsetBinary? then INT64_MAX else Pow2(d.bitWidth) - 1
  }

  /** `ValidateDefinition`: the first complaint about a definition over a record of `size` bytes. */
  function DefinitionFault(size: nat, d: FieldDefinition): Option<CodecError> {
    if d.bitWidth < 1 || d.bitWidth > 32 then Some(BadBitWidth)
    else if d.storageBytes < 1 || d.storageBytes > 5 || d.byteOffset > size || d.storageBytes > size - d.byteOffset
    then Some(StorageOutOfBounds)
    else if d.bitOffset >= d.storageBytes * 8 || d.bitWidth > d.storageBytes * 8 - d.bitOffset
    then Some(BitRangeOutOfStorage)
    else if d.encoding.Unsupported? then Some(UnsupportedEncoding)
    else if d.encoding.PackedRef? && (d.storageBytes != 4 || d.bitOffset != 0 || d.bitWidth != 32)
    then Some(ReferenceNot32Bits)
    else if d.minimum < LegalMinimum(d) || d.maximum > LegalMaximum(d) || d.minimum > d.maximum
    then Some(IllegalRange)
    else if d.encoding.OffsetBinary? && d.maximum - d.minimum >= Pow2(d.bitWidth) then Some(IllegalOffsetRange)
    else None
  }

  predicate Defined(size: nat, d: FieldDefinition) {
    DefinitionFault(size, d).None?
  }

  // ----- packed references

  function DecodePackedReference(value: nat): Outcome<FieldValue, CodecError> {
    if value > 0xFFFF_FFFF then Fail(PackedValueTooWide)
    else Ok(Reference(value / 0x2_0000, value % 0x2_0000))
  }

  function EncodePackedReference(tableId: nat, rowIndex: nat): Outcome<nat, CodecError> {
    if tableId > 0x7FFF then Fail(TableIdTooWide)
    else if rowIndex > 0x1_FFFF then Fail(RowIndexTooWide)
    else Ok(tableId * 0x2_0000 + rowIndex)
  }

  /** Packing and unpacking are inverse on the 32-bit words and the 15/17-bit pairs. */
  lemma {:induction false} PackedReferenceRoundTrip(tableId: nat, rowIndex: nat, word: nat)
    ensures tableId <= 0x7FFF && rowIndex <= 0x1_FFFF ==>
      var packed := EncodePackedReference(tableId, rowIndex);
      packed.Ok? && packed.value <= 0xFFFF_FFFF
      && DecodePackedReference(packed.value) == Ok(Reference(tableId, rowIndex))
    ensures word <= 0xFFFF_FFFF ==>
      var r := DecodePackedReference(word);
      r.Ok? && EncodePackedReference(r.value.tableId, r.value.rowIndex) == Ok(word)
  {
  }

  // ----- the stored word and its bits

  function StorageOf(bytes: seq<Byte>): nat {
    if bytes == [] then 0 else Or(Shl(StorageOf(bytes[..|bytes| - 1]), 8), bytes[|bytes| - 1])
  }

  function Window(record: seq<Byte>, d: FieldDefinition): seq<Byte>
    requires Defined(|record|, d)
  {
    record[d.byteOffset..d.byteOffset + d.storageBytes]
  }

  function ShiftOf(d: FieldDefinition): nat
    requires d.bitOffset + d.bitWidth <= d.storageBytes * 8
  {
    d.storageBytes * 8 - d.bitOffset - d.bitWidth
  }

  /** Bit `k` of a record, the most significant bit of the first byte being bit 0. */
  predicate RecordBit(record: seq<Byte>, k: nat)
    requires k < 8 * |record|
  {
    Bit(record[k / 8], 7 - k % 8)
  }

  /** The first absolute bit of a field. */
  function FirstBit(d: FieldDefinition): nat {
    8 * d.byteOffset + d.bitOffset
  }

  predicate InField(d: FieldDefinition, k: nat) {
    FirstBit(d) <= k < FirstBit(d) + d.bitWidth
  }

  predicate BitDisjoint(d: FieldDefinition, e: FieldDefinition) {
    FirstBit(d) + d.bitWidth <= FirstBit(e) || FirstBit(e) + e.bitWidth <= FirstBit(d)
  }

  // ----- values and raw words

  function RawValue(d: FieldDefinition, raw: nat): Outcome<FieldValue, CodecError>
    requires d.bitWidth >= 1
  {
    match d.encoding
    case PackedRef => DecodePackedReference(raw)
    case OffsetBinary => Ok(Number(raw + d.minimum))
    case Signed => Ok(Number(if Bit(raw, d.bitWidth - 1) then raw - Pow2(d.bitWidth) else raw))
    case _ => Ok(Number(raw))
  }

  function NumericOf(d: FieldDefinition, value: FieldValue): Outcome<int, CodecError> {
    if d.encoding.PackedRef? then
      if !value.Reference? || d.referenceTableId != Some(value.tableId) then Fail(ReferenceMismatch)
      else
        var packed := EncodePackedReference(value.tableId, value.rowIndex);
        if packed.Ok? then Ok(packed.value) else Fail(packed.error)
    else if value.Number? then Ok(value.number) else Fail(NotANumber)
  }

  function RawOf(d: FieldDefinition, numeric: int): int {
    var stored := if d.encoding.OffsetBinary? then numeric - d.minimum else numeric;
    if stored < 0 then Pow2(d.bitWidth) + stored else stored
  }

  /** The values a field accepts: the declared kind and target, within the declared bounds. */
  predicate Acceptable(d: FieldDefinition, value: FieldValue) {
    var numeric := NumericOf(d, value);
    numeric.Ok? && d.minimum <= numeric.value <= d.maximum
  }

  lemma {:induction false} RawFits(size: nat, d: FieldDefinition, numeric: int)
    requires Defined(size, d) && d.minimum <= numeric <= d.maximum
    ensures 0 <= RawOf(d, numeric) < Pow2(d.bitWidth)
  {
  }

  // ----- decoding and encoding

  function FieldRaw(record: seq<Byte>, d: FieldDefinition): nat
    requires Defined(|record|, d)
  {
    And(Shr(StorageOf(Window(record, d)), ShiftOf(d)), Pow2(d.bitWidth) - 1)
  }

  function Decode(record: seq<Byte>, d: FieldDefinition): Outcome<FieldValue, CodecError> {
    var fault := DefinitionFault(|record|, d);
    if fault.Some? then Fail(fault.value) else RawValue(d, FieldRaw(record, d))
  }

  function UpdatedStorage(storage: nat, d: FieldDefinition, raw: nat): nat
    requires d.bitOffset + d.bitWidth <= d.storageBytes * 8
  {
    var fieldMask := Shl(Pow2(d.bitWidth) - 1, ShiftOf(d));
    Or(And(storage, Not(fieldMask, 64)), And(Shl(raw, ShiftOf(d)), fieldMask))
  }

  function LowByte(v: nat): Byte {
    AndBelow(255, v);
    And(255, v)
  }

  /** The bytes of a stored word, most significant first. */
  function StorageBytes(storage: nat, n: nat): (bytes: seq<Byte>)
    ensures |bytes| == n
    decreases n
  {
    if n == 0 then [] else StorageBytes(Shr(storage, 8), n - 1) + [LowByte(storage)]
  }

  /** `record` with an `n`-byte word stored at byte `off`. */
  function Stored(record: seq<Byte>, off: nat, n: nat, storage: nat): (r: seq<Byte>)
    requires off + n <= |record|
    ensures |r| == |record|
  {
    record[..off] + StorageBytes(storage, n) + record[off + n..]
  }

  function Encode(record: seq<Byte>, d: FieldDefinition, value: FieldValue): (r: Outcome<seq<Byte>, CodecError>)
    ensures r.Ok? ==> |r.value| == |record|
  {
    var fault := DefinitionFault(|record|, d);
    if fault.Some? then Fail(fault.value)
    else
      var numeric := NumericOf(d, value);
      if numeric.Fail? then Fail(numeric.error)
      else if numeric.value < d.minimum || numeric.value > d.maximum then Fail(OutOfDeclaredBounds)
      else
        RawFits(|record|, d, numeric.value);
        var storage := UpdatedStorage(StorageOf(Window(record, d)), d, RawOf(d, numeric.value));
        Ok(Stored(record, d.byteOffset, d.storageBytes, storage))
  }

  // ----- bit laws

  lemma {:induction false} StorageBit(bytes: seq<Byte>, p: nat)
    ensures p < 8 * |bytes| ==> Bit(StorageOf(bytes), p) == Bit(bytes[|bytes| - 1 - p / 8], p % 8)
    ensures p >= 8 * |bytes| ==> !Bit(StorageOf(bytes), p)
  {
    if bytes == [] {
      BitOfZero(p);
    } else {
      var front, last := bytes[..|bytes| - 1], bytes[|bytes| - 1];
      BitOr(Shl(StorageOf(front), 8), last, p);
      BitShl(StorageOf(front), 8, p);
      assert Pow2(8) == 256;
      if p >= 8 {
        BitBeyond(last, 8, p);
        StorageBit(front, p - 8);
        assert (p - 8) / 8 == p / 8 - 1 && (p - 8) % 8 == p % 8;
      }
    }
  }

  lemma {:induction false} StorageBytesBit(storage: nat, n: nat, i: nat, q: nat)
    requires i < n && q < 8
    ensures Bit(StorageBytes(storage, n)[i], q) == Bit(storage, 8 * (n - 1 - i) + q)
    decreases n
  {
    if i == n - 1 {
      BitAnd(255, storage, q);
      BitOfMask(8, q);
      assert Pow2(8) == 256;
    } else {
      StorageBytesBit(Shr(storage, 8), n - 1, i, q);
      BitShr(storage, 8, 8 * (n - 2 - i) + q);
    }
  }

  lemma {:induction false} UpdatedStorageBit(storage: nat, d: FieldDefinition, raw: nat, p: nat)
    requires d.bitOffset + d.bitWidth <= d.storageBytes * 8 <= 40 && p < 40
    ensures Bit(UpdatedStorage(storage, d, raw), p) ==
      (if ShiftOf(d) <= p < ShiftOf(d) + d.bitWidth then Bit(raw, p - ShiftOf(d)) else Bit(storage, p))
  {
    var shift, mask := ShiftOf(d), Shl(Pow2(d.bitWidth) - 1, ShiftOf(d));
    BitOr(And(storage, Not(mask, 64)), And(Shl(raw, shift), mask), p);
    BitAnd(storage, Not(mask, 64), p);
    BitNot(mask, 64, p);
    BitAnd(Shl(raw, shift), mask, p);
    BitShl(raw, shift, p);
    BitShl(Pow2(d.bitWidth) - 1, shift, p);
    if p >= shift {
      BitOfMask(d.bitWidth, p - shift);
    }
  }

  /** Bit `p` of an `n`-byte word stored at byte `off` is this absolute bit of the record. */
  function Position(off: nat, n: nat, p: nat): nat
    requires p < 8 * n
  {
    8 * (off + n) - 1 - p
  }

  lemma {:induction false} PositionByte(off: nat, n: nat, p: nat)
    requires p < 8 * n
    ensures Position(off, n, p) / 8 == off + (n - 1 - p / 8)
    ensures 7 - Position(off, n, p) % 8 == p % 8
  {
  }

  lemma {:induction false} WindowBit(record: seq<Byte>, d: FieldDefinition, p: nat)
    requires Defined(|record|, d) && p < 8 * d.storageBytes
    ensures Bit(StorageOf(Window(record, d)), p) == RecordBit(record, Position(d.byteOffset, d.storageBytes, p))
  {
    StorageBit(Window(record, d), p);
    PositionByte(d.byteOffset, d.storageBytes, p);
  }

  /** What decoding reads: bit `p` of the raw word is the field's absolute bit counted from its end. */
  lemma {:induction false} FieldRawBit(record: seq<Byte>, d: FieldDefinition, p: nat)
    requires Defined(|record|, d)
    ensures Bit(FieldRaw(record, d), p) <==>
      p < d.bitWidth && RecordBit(record, FirstBit(d) + d.bitWidth - 1 - p)
  {
    var storage, shift := StorageOf(Window(record, d)), ShiftOf(d);
    BitAnd(Shr(storage, shift), Pow2(d.bitWidth) - 1, p);
    BitOfMask(d.bitWidth, p);
    if p < d.bitWidth {
      BitShr(storage, shift, p);
      WindowBit(record, d, p + shift);
      assert Position(d.byteOffset, d.storageBytes, p + shift) == FirstBit(d) + d.bitWidth - 1 - p;
    }
  }

  lemma {:induction false} FieldRawFits(record: seq<Byte>, d: FieldDefinition)
    requires Defined(|record|, d)
    ensures FieldRaw(record, d) < Pow2(d.bitWidth)
  {
    forall p: nat | p >= d.bitWidth
      ensures !Bit(FieldRaw(record, d), p)
    {
      FieldRawBit(record, d, p);
    }
    BoundedByBits(FieldRaw(record, d), d.bitWidth);
  }

  lemma {:induction false} StoredBit(record: seq<Byte>, off: nat, n: nat, storage: nat, k: nat)
    requires off + n <= |record| && k < 8 * |record|
    ensures RecordBit(Stored(record, off, n, storage), k) ==
      (if 8 * off <= k < 8 * (off + n) then Bit(storage, 8 * (off + n) - 1 - k) else RecordBit(record, k))
  {
    if 8 * off <= k < 8 * (off + n) {
      var p := 8 * (off + n) - 1 - k;
      PositionByte(off, n, p);
      StorageBytesBit(storage, n, n - 1 - p / 8, p % 8);
    }
  }

  lemma {:induction false} EncodeStores(record: seq<Byte>, d: FieldDefinition, value: FieldValue)
    requires Encode(record, d, value).Ok?
    ensures Defined(|record|, d) && NumericOf(d, value).Ok? && RawOf(d, NumericOf(d, value).value) >= 0
    ensures Encode(record, d, value).value ==
      Stored(record, d.byteOffset, d.storageBytes,
             UpdatedStorage(StorageOf(Window(record, d)), d, RawOf(d, NumericOf(d, value).value)))
  {
  }

  /** `updated` is `record` with `raw` in the field: the raw word's bits inside, the old bits outside. */
  ghost predicate WritesField(record: seq<Byte>, updated: seq<Byte>, d: FieldDefinition, raw: nat) {
    && |updated| == |record|
    && forall k: nat :: k < 8 * |record| ==>
      RecordBit(updated, k) ==
        (if InField(d, k) then Bit(raw, FirstBit(d) + d.bitWidth - 1 - k) else RecordBit(record, k))
  }

  predicate InWindow(d: FieldDefinition, k: nat) {
    8 * d.byteOffset <= k < 8 * (d.byteOffset + d.storageBytes)
  }

  /** Where absolute bit `k` of a window sits in the stored word. */
  function WordBit(d: FieldDefinition, k: nat): nat
    requires InWindow(d, k)
  {
    8 * (d.byteOffset + d.storageBytes) - 1 - k
  }

  lemma {:induction false} WordBitInField(d: FieldDefinition, k: nat)
    requires d.bitOffset + d.bitWidth <= d.storageBytes * 8 <= 40 && InWindow(d, k)
    ensures 0 <= WordBit(d, k) < 40
    ensures InField(d, k) <==> ShiftOf(d) <= WordBit(d, k) < ShiftOf(d) + d.bitWidth
    ensures WordBit(d, k) - ShiftOf(d) == FirstBit(d) + d.bitWidth - 1 - k
  {
  }

  lemma {:induction false} UpdatedWordBit(d: FieldDefinition, storage: nat, raw: nat, k: nat)
    requires d.bitOffset + d.bitWidth <= d.storageBytes * 8 <= 40 && InWindow(d, k)
    ensures Bit(UpdatedStorage(storage, d, raw), WordBit(d, k)) ==
      (if InField(d, k) then Bit(raw, FirstBit(d) + d.bitWidth - 1 - k) else Bit(storage, WordBit(d, k)))
  {
    WordBitInField(d, k);
    UpdatedStorageBit(storage, d, raw, WordBit(d, k));
  }

  lemma {:induction false} WindowWordBit(record: seq<Byte>, d: FieldDefinition, k: nat)
    requires Defined(|record|, d) && InWindow(d, k)
    ensures Bit(StorageOf(Window(record, d)), WordBit(d, k)) == RecordBit(record, k)
  {
    WindowBit(record, d, WordBit(d, k));
  }

  lemma {:induction false} WordFieldBit(record: seq<Byte>, d: FieldDefinition, word: nat, raw: nat, k: nat)
    requires d.byteOffset + d.storageBytes <= |record| && k < 8 * |record|
    requires d.bitOffset + d.bitWidth <= d.storageBytes * 8
    requires InWindow(d, k) ==>
      Bit(word, WordBit(d, k)) ==
        if InField(d, k) then Bit(raw, FirstBit(d) + d.bitWidth - 1 - k) else RecordBit(record, k)
    ensures RecordBit(Stored(record, d.byteOffset, d.storageBytes, word), k) ==
      (if InField(d, k) then Bit(raw, FirstBit(d) + d.bitWidth - 1 - k) else RecordBit(record, k))
  {
    StoredBit(record, d.byteOffset, d.storageBytes, word, k);
    assert InField(d, k) ==> InWindow(d, k);
  }

  lemma {:induction false} StoredFieldBit(record: seq<Byte>, d: FieldDefinition, storage: nat, raw: nat, k: nat)
    requires d.byteOffset + d.storageBytes <= |record| && k < 8 * |record|
    requires d.bitOffset + d.bitWidth <= d.storageBytes * 8 <= 40
    requires InWindow(d, k) ==> Bit(storage, WordBit(d, k)) == RecordBit(record, k)
    ensures RecordBit(Stored(record, d.byteOffset, d.storageBytes, UpdatedStorage(storage, d, raw)), k) ==
      (if InField(d, k) then Bit(raw, FirstBit(d) + d.bitWidth - 1 - k) else RecordBit(record, k))
  {
    if InWindow(d, k) {
      UpdatedWordBit(d, storage, raw, k);
    }
    WordFieldBit(record, d, UpdatedStorage(storage, d, raw), raw, k);
  }

  /** The bit frame of encoding: it writes its field's bits and nothing else. */
  lemma {:induction false} EncodeWritesField(record: seq<Byte>, d: FieldDefinition, value: FieldValue)
    requires Encode(record, d, value).Ok?
    ensures Defined(|record|, d) && NumericOf(d, value).Ok? && RawOf(d, NumericOf(d, value).value) >= 0
    ensures WritesField(record, Encode(record, d, value).value, d, RawOf(d, NumericOf(d, value).value))
  {
    EncodeStores(record, d, value);
    var storage, raw := StorageOf(Window(record, d)), RawOf(d, NumericOf(d, value).value);
    var updated := Stored(record, d.byteOffset, d.storageBytes, UpdatedStorage(storage, d, raw));
    forall k: nat | k < 8 * |record|
      ensures RecordBit(updated, k) ==
        (if InField(d, k) then Bit(raw, FirstBit(d) + d.bitWidth - 1 - k) else RecordBit(record, k))
    {
      if InWindow(d, k) {
        WindowWordBit(record, d, k);
      }
      StoredFieldBit(record, d, storage, raw, k);
    }
  }

  /** Records of one length with the same bits are the same record. */
  lemma {:induction false} RecordBitsDetermine(a: seq<Byte>, b: seq<Byte>)
    requires |a| == |b| && forall k: nat :: k < 8 * |a| ==> RecordBit(a, k) == RecordBit(b, k)
    ensures a == b
  {
    forall i | 0 <= i < |a|
      ensures a[i] == b[i]
    {
      forall p: nat | p < 8
        ensures Bit(a[i], p) == Bit(b[i], p)
      {
        var k := 8 * i + 7 - p;
        assert k / 8 == i && 7 - k % 8 == p;
        assert RecordBit(a, k) == RecordBit(b, k);
      }
      assert Pow2(8) == 256;
      SameWord(a[i], b[i], 8);
    }
  }

  // ----- what the codec's numbers are

  /** A byte string as a number, the first byte being the highest. */
  function BigEndian(bytes: seq<Byte>): nat {
    if bytes == [] then 0 else 256 * BigEndian(bytes[..|bytes| - 1]) + bytes[|bytes| - 1]
  }

  lemma {:induction false} ShiftIn(high: nat, low: Byte)
    ensures Or(Shl(high, 8), low) == 256 * high + low
  {
    assert Pow2(8) == 256;
    forall p: nat
      ensures Bit(Or(Shl(high, 8), low), p) == Bit(256 * high + low, p)
    {
      BitOr(Shl(high, 8), low, p);
      BitShl(high, 8, p);
      BitOfSum(high, low, 8, p);
      if p >= 8 {
        BitBeyond(low, 8, p);
      }
    }
    BitsDetermine(Or(Shl(high, 8), low), 256 * high + low);
  }

  /** The stored word is the big-endian number of its bytes. */
  lemma {:induction false} StorageIsBigEndian(bytes: seq<Byte>)
    ensures StorageOf(bytes) == BigEndian(bytes)
  {
    if bytes != [] {
      StorageIsBigEndian(bytes[..|bytes| - 1]);
      ShiftIn(StorageOf(bytes[..|bytes| - 1]), bytes[|bytes| - 1]);
    }
  }

  /** The bits of a record from `first` on as a number, the first bit being the highest. */
  function BitsValue(record: seq<Byte>, first: nat, width: nat): nat
    requires first + width <= 8 * |record|
  {
    if width == 0 then 0
    else 2 * BitsValue(record, first, width - 1) + (if RecordBit(record, first + width - 1) then 1 else 0)
  }

  lemma {:induction false} BitsValueBit(record: seq<Byte>, first: nat, width: nat, p: nat)
    requires first + width <= 8 * |record|
    ensures Bit(BitsValue(record, first, width), p) <==> p < width && RecordBit(record, first + width - 1 - p)
  {
    if width == 0 {
      BitOfZero(p);
    } else if p > 0 {
      BitsValueBit(record, first, width - 1, p - 1);
    }
  }

  lemma {:induction false} FieldRawIsBitsValue(record: seq<Byte>, d: FieldDefinition)
    requires Defined(|record|, d)
    ensures FirstBit(d) + d.bitWidth <= 8 * |record|
    ensures FieldRaw(record, d) == BitsValue(record, FirstBit(d), d.bitWidth)
  {
    forall p: nat
      ensures Bit(FieldRaw(record, d), p) == Bit(BitsValue(record, FirstBit(d), d.bitWidth), p)
    {
      FieldRawBit(record, d, p);
      BitsValueBit(record, FirstBit(d), d.bitWidth, p);
    }
    BitsDetermine(FieldRaw(record, d), BitsValue(record, FirstBit(d), d.bitWidth));
  }

  function Power(n: nat): (power: int)
    ensures power > 0
  {
    if n == 0 then 1 else Power(n - 1) + Power(n - 1)
  }

  /** The definitions the codec works with. */
  predicate LegalDefinition(size: nat, d: FieldDefinition) {
    && 1 <= d.bitWidth <= 32 && 1 <= d.storageBytes <= 5 && d.byteOffset + d.storageBytes <= size
    && d.bitOffset + d.bitWidth <= 8 * d.storageBytes && d.minimum <= d.maximum
    && match d.encoding
       case Unsupported(_) => false
       case PackedRef => d.storageBytes == 4 && d.bitWidth == 32 && 0 <= d.minimum && d.maximum < 0x1_0000_0000
       case Signed => -Power(d.bitWidth) <= 2 * d.minimum && 2 * d.maximum < Power(d.bitWidth)
       case OffsetBinary =>
         -0x8000_0000_0000_0000 <= d.minimum && d.maximum < 0x8000_0000_0000_0000
         && d.maximum - d.minimum < Power(d.bitWidth)
       case _ => 0 <= d.minimum && d.maximum < Power(d.bitWidth)
  }

  lemma {:induction false} PowerIsPow2(n: nat)
    ensures Power(n) == Pow2(n)
  {
    if n > 0 {
      PowerIsPow2(n - 1);
    }
  }

  /** Validation admits exactly these. */
  lemma {:induction false} DefinedExactly(size: nat, d: FieldDefinition)
    ensures Defined(size, d) <==> LegalDefinition(size, d)
  {
    PowerIsPow2(d.bitWidth);
    assert Pow2(32) == 0x1_0000_0000 by {
      assert Pow2(8) == 256 && Pow2(16) == 0x1_0000 && Pow2(24) == 0x100_0000;
    }
  }

  /** What a field's bits stand for: in two's complement if signed, above the minimum if offset; a reference has its
      table in the upper 15 of 32 bits and its row in the lower 17. */
  function Meaning(d: FieldDefinition, bits: nat): FieldValue {
    match d.encoding
    case Signed => Number(if 2 * bits < Power(d.bitWidth) then bits else bits - Power(d.bitWidth))
    case OffsetBinary => Number(d.minimum + bits)
    case PackedRef => Reference(bits / 131072, bits % 131072)
    case _ => Number(bits)
  }

  lemma {:induction false} TopBit(raw: nat, width: nat)
    requires width >= 1 && raw < Pow2(width)
    ensures Bit(raw, width - 1) <==> raw >= Pow2(width - 1)
  {
    if width > 1 {
      TopBit(raw / 2, width - 1);
    }
  }

  lemma {:induction false} RawMeans(size: nat, d: FieldDefinition, raw: nat)
    requires Defined(size, d) && raw < Pow2(d.bitWidth)
    ensures RawValue(d, raw) == Ok(Meaning(d, raw))
  {
    PowerIsPow2(d.bitWidth);
    TopBit(raw, d.bitWidth);
    assert Pow2(32) == 0x1_0000_0000 by {
      assert Pow2(8) == 256 && Pow2(16) == 0x1_0000 && Pow2(24) == 0x100_0000;
    }
  }

  /** A field decodes to what its bits in the record stand for. */
  lemma {:induction false} DecodeMeans(record: seq<Byte>, d: FieldDefinition)
    ensures Decode(record, d).Ok? <==> LegalDefinition(|record|, d)
    ensures LegalDefinition(|record|, d) ==>
      && FirstBit(d) == 8 * d.byteOffset + d.bitOffset && FirstBit(d) + d.bitWidth <= 8 * |record|
      && Decode(record, d) == Ok(Meaning(d, BitsValue(record, FirstBit(d), d.bitWidth)))
  {
    DefinedExactly(|record|, d);
    if Defined(|record|, d) {
      FieldRawIsBitsValue(record, d);
      FieldRawFits(record, d);
      RawMeans(|record|, d, FieldRaw(record, d));
    }
  }

  /** The values a field can be given: numbers within its bounds; for a reference field, rows of 17 bits of the declared
      table, of 15, whose word is within them. */
  predicate Writable(d: FieldDefinition, value: FieldValue) {
    match value
    case Number(number) => !d.encoding.PackedRef? && d.minimum <= number <= d.maximum
    case Reference(table, row) =>
      && d.encoding.PackedRef? && d.referenceTableId == Some(table) && table < 32768 && row < 131072
      && d.minimum <= table * 131072 + row <= d.maximum
  }

  lemma {:induction false} RawRoundTrip(size: nat, d: FieldDefinition, value: FieldValue)
    requires Defined(size, d) && Acceptable(d, value)
    ensures var raw := RawOf(d, NumericOf(d, value).value);
      0 <= raw < Pow2(d.bitWidth) && RawValue(d, raw) == Ok(value)
  {
    var numeric := NumericOf(d, value).value;
    RawFits(size, d, numeric);
    if d.encoding.PackedRef? {
      PackedReferenceRoundTrip(value.tableId, value.rowIndex, 0);
    } else if d.encoding.Signed? {
      TopBit(RawOf(d, numeric), d.bitWidth);
    }
  }

  lemma {:induction false} EncodeSucceeds(record: seq<Byte>, d: FieldDefinition, value: FieldValue)
    ensures Encode(record, d, value).Ok? <==> Defined(|record|, d) && Acceptable(d, value)
  {
  }

  lemma {:induction false} RawAfterWrite(record: seq<Byte>, updated: seq<Byte>, d: FieldDefinition, raw: nat)
    requires Defined(|record|, d) && WritesField(record, updated, d, raw) && raw < Pow2(d.bitWidth)
    ensures FieldRaw(updated, d) == raw
  {
    FieldRawFits(updated, d);
    forall p: nat | p < d.bitWidth
      ensures Bit(FieldRaw(updated, d), p) == Bit(raw, p)
    {
      FieldRawBit(updated, d, p);
      assert InField(d, FirstBit(d) + d.bitWidth - 1 - p);
    }
    SameWord(FieldRaw(updated, d), raw, d.bitWidth);
  }

  /** Encoding succeeds exactly on acceptable values, and the value comes back out of the field
      whatever the record held before. */
  lemma {:induction false} DecodeAfterEncode(record: seq<Byte>, d: FieldDefinition, value: FieldValue)
    ensures Encode(record, d, value).Ok? <==> Defined(|record|, d) && Acceptable(d, value)
    ensures Encode(record, d, value).Ok? ==> Decode(Encode(record, d, value).value, d) == Ok(value)
  {
    EncodeSucceeds(record, d, value);
    if Encode(record, d, value).Ok? {
      RawRoundTrip(|record|, d, value);
      EncodeWritesField(record, d, value);
      RawAfterWrite(record, Encode(record, d, value).value, d, RawOf(d, NumericOf(d, value).value));
    }
  }

  /** Encoding succeeds on exactly these. */
  lemma {:induction false} EncodeAcceptsExactly(record: seq<Byte>, d: FieldDefinition, value: FieldValue)
    ensures Encode(record, d, value).Ok? <==> LegalDefinition(|record|, d) && Writable(d, value)
  {
    DefinedExactly(|record|, d);
    DecodeAfterEncode(record, d, value);
  }

  // ----- the laws of the codec

  lemma {:induction false} RawKeptByWrite(
    record: seq<Byte>, updated: seq<Byte>, d: FieldDefinition, raw: nat, e: FieldDefinition)
    requires Defined(|record|, e) && WritesField(record, updated, d, raw) && BitDisjoint(d, e)
    ensures FieldRaw(updated, e) == FieldRaw(record, e)
  {
    FieldRawFits(record, e);
    FieldRawFits(updated, e);
    forall p: nat | p < e.bitWidth
      ensures Bit(FieldRaw(updated, e), p) == Bit(FieldRaw(record, e), p)
    {
      FieldRawBit(updated, e, p);
      FieldRawBit(record, e, p);
      assert !InField(d, FirstBit(e) + e.bitWidth - 1 - p);
    }
    SameWord(FieldRaw(updated, e), FieldRaw(record, e), e.bitWidth);
  }

  lemma {:induction false} WritingOwnRawChangesNothing(record: seq<Byte>, updated: seq<Byte>, d: FieldDefinition)
    requires Defined(|record|, d) && WritesField(record, updated, d, FieldRaw(record, d))
    ensures updated == record
  {
    forall k: nat | k < 8 * |record|
      ensures RecordBit(updated, k) == RecordBit(record, k)
    {
      if InField(d, k) {
        FieldRawBit(record, d, FirstBit(d) + d.bitWidth - 1 - k);
      }
    }
    RecordBitsDetermine(updated, record);
  }

  lemma {:induction false} DisjointWritesCommute(
    record: seq<Byte>, a: seq<Byte>, b: seq<Byte>, ab: seq<Byte>, ba: seq<Byte>, d: FieldDefinition, v: nat,
    e: FieldDefinition, w: nat)
    requires WritesField(record, a, d, v) && WritesField(a, ab, e, w)
    requires WritesField(record, b, e, w) && WritesField(b, ba, d, v)
    requires BitDisjoint(d, e)
    ensures ab == ba
  {
    forall k: nat | k < 8 * |record|
      ensures RecordBit(ab, k) == RecordBit(ba, k)
    {
      assert RecordBit(a, k) == RecordBit(a, k) && RecordBit(b, k) == RecordBit(b, k);
    }
    RecordBitsDetermine(ab, ba);
  }

  lemma {:induction false} RawOfValue(size: nat, d: FieldDefinition, raw: nat)
    requires Defined(size, d) && raw < Pow2(d.bitWidth)
    ensures RawValue(d, raw).Ok?
    ensures Acceptable(d, RawValue(d, raw).value) ==> RawOf(d, NumericOf(d, RawValue(d, raw).value).value) == raw
  {
    if d.encoding.PackedRef? {
      assert Pow2(8) == 256 && Pow2(16) == 0x1_0000 && Pow2(24) == 0x100_0000 && Pow2(32) == 0x1_0000_0000;
      PackedReferenceRoundTrip(0, 0, raw);
    } else if d.encoding.Signed? {
      TopBit(raw, d.bitWidth);
    }
  }

  /** Decoding ignores the declared bounds: it succeeds for every valid definition. Writing the decoded
      value back succeeds exactly when it is acceptable, and then changes nothing. */
  lemma {:induction false} EncodeAfterDecode(record: seq<Byte>, d: FieldDefinition)
    requires Defined(|record|, d)
    ensures Decode(record, d).Ok?
    ensures Acceptable(d, Decode(record, d).value) ==> Encode(record, d, Decode(record, d).value) == Ok(record)
    ensures Encode(record, d, Decode(record, d).value).Ok? <==> Acceptable(d, Decode(record, d).value)
  {
    FieldRawFits(record, d);
    RawOfValue(|record|, d, FieldRaw(record, d));
    var value := Decode(record, d).value;
    DecodeAfterEncode(record, d, value);
    if Acceptable(d, value) {
      EncodeWritesField(record, d, value);
      WritingOwnRawChangesNothing(record, Encode(record, d, value).value, d);
    }
  }

  /** The bit a value puts at absolute bit `k` of its field. */
  predicate PutsBit(d: FieldDefinition, value: FieldValue, k: nat)
    requires InField(d, k)
  {
    var numeric := NumericOf(d, value);
    numeric.Ok? && RawOf(d, numeric.value) >= 0 && Bit(RawOf(d, numeric.value), FirstBit(d) + d.bitWidth - 1 - k)
  }

  lemma {:induction false} EncodedBit(record: seq<Byte>, d: FieldDefinition, value: FieldValue, k: nat)
    requires Encode(record, d, value).Ok? && k < 8 * |record|
    ensures RecordBit(Encode(record, d, value).value, k) ==
      if InField(d, k) then PutsBit(d, value, k) else RecordBit(record, k)
  {
    EncodeWritesField(record, d, value);
  }

  /** The record holds the bits that the value puts into the field. */
  ghost predicate HoldsBits(record: seq<Byte>, d: FieldDefinition, value: FieldValue) {
    forall k: nat :: InField(d, k) ==> k < 8 * |record| && RecordBit(record, k) == PutsBit(d, value, k)
  }

  lemma {:induction false} DecodesByRaw(record: seq<Byte>, d: FieldDefinition, value: FieldValue)
    requires Defined(|record|, d) && Acceptable(d, value)
    ensures 0 <= RawOf(d, NumericOf(d, value).value) < Pow2(d.bitWidth)
    ensures Decode(record, d) == Ok(value) <==> FieldRaw(record, d) == RawOf(d, NumericOf(d, value).value)
  {
    RawRoundTrip(|record|, d, value);
    FieldRawFits(record, d);
    RawOfValue(|record|, d, FieldRaw(record, d));
  }

  lemma {:induction false} HeldBit(
    record: seq<Byte>, d: FieldDefinition, value: FieldValue, raw: nat, p: nat, k: nat)
    requires Defined(|record|, d) && NumericOf(d, value).Ok? && RawOf(d, NumericOf(d, value).value) == raw
    requires p < d.bitWidth && k == FirstBit(d) + d.bitWidth - 1 - p
    ensures InField(d, k) && k < 8 * |record|
    ensures RecordBit(record, k) == PutsBit(d, value, k) <==> Bit(FieldRaw(record, d), p) == Bit(raw, p)
  {
    FieldRawBit(record, d, p);
    assert FirstBit(d) + d.bitWidth - 1 - k == p;
  }

  lemma {:induction false} HeldBitsGiveRaw(record: seq<Byte>, d: FieldDefinition, value: FieldValue, raw: nat)
    requires Defined(|record|, d) && HoldsBits(record, d, value) && raw < Pow2(d.bitWidth)
    requires NumericOf(d, value).Ok? && RawOf(d, NumericOf(d, value).value) == raw
    ensures FieldRaw(record, d) == raw
  {
    FieldRawFits(record, d);
    forall p: nat | p < d.bitWidth
      ensures Bit(FieldRaw(record, d), p) == Bit(raw, p)
    {
      HeldBit(record, d, value, raw, p, FirstBit(d) + d.bitWidth - 1 - p);
    }
    SameWord(FieldRaw(record, d), raw, d.bitWidth);
  }

  lemma {:induction false} RawGivesHeldBits(record: seq<Byte>, d: FieldDefinition, value: FieldValue)
    requires Defined(|record|, d) && NumericOf(d, value).Ok?
    requires FieldRaw(record, d) == RawOf(d, NumericOf(d, value).value)
    ensures HoldsBits(record, d, value)
  {
    forall k: nat | InField(d, k)
      ensures k < 8 * |record| && RecordBit(record, k) == PutsBit(d, value, k)
    {
      HeldBit(record, d, value, FieldRaw(record, d), FirstBit(d) + d.bitWidth - 1 - k, k);
    }
  }

  /** A field decodes to a value exactly if it holds the bits the value puts there. */
  lemma {:induction false} DecodesByBits(record: seq<Byte>, d: FieldDefinition, value: FieldValue)
    requires Defined(|record|, d) && Acceptable(d, value)
    ensures Decode(record, d) == Ok(value) <==> HoldsBits(record, d, value)
  {
    DecodesByRaw(record, d, value);
    if HoldsBits(record, d, value) {
      HeldBitsGiveRaw(record, d, value, RawOf(d, NumericOf(d, value).value));
    }
    if Decode(record, d) == Ok(value) {
      RawGivesHeldBits(record, d, value);
    }
  }

  /** A byte field that declares no more than 10. */
  const AT_MOST_TEN := FieldDefinition("f", Unsigned, 0, 1, 0, 8, 0, 10, None)

  /** A record may hold a value its field does not declare: it decodes, but cannot be written back. */
  lemma {:induction false} StoredOutOfBounds()
    ensures Defined(1, AT_MOST_TEN) && Decode([11], AT_MOST_TEN) == Ok(Number(11))
    ensures !Acceptable(AT_MOST_TEN, Number(11)) && Encode([11], AT_MOST_TEN, Number(11)).Fail?
  {
    assert Pow2(8) == 256;
    assert StorageOf([11]) == 11 by {
      assert [11][..0] == [] && Shl(0, 8) == 0 && Or(0, 11) == 11;
    }
    assert Window([11], AT_MOST_TEN) == [11];
    assert And(11, 255) == 11;
  }

  /** A bit-disjoint field keeps its value, even when the two storage windows share bytes. */
  lemma {:induction false} EncodeKeepsDisjointField(
    record: seq<Byte>, d: FieldDefinition, value: FieldValue, e: FieldDefinition)
    requires Encode(record, d, value).Ok? && BitDisjoint(d, e)
    ensures Decode(Encode(record, d, value).value, e) == Decode(record, e)
  {
    EncodeWritesField(record, d, value);
    if Defined(|record|, e) {
      RawKeptByWrite(record, Encode(record, d, value).value, d, RawOf(d, NumericOf(d, value).value), e);
    }
  }

  /** Bit-disjoint writes commute. */
  lemma {:induction false} DisjointEncodesCommute(
    record: seq<Byte>, d: FieldDefinition, v: FieldValue, e: FieldDefinition, w: FieldValue)
    requires Encode(record, d, v).Ok? && Encode(record, e, w).Ok? && BitDisjoint(d, e)
    ensures Encode(Encode(record, d, v).value, e, w).Ok?
    ensures Encode(Encode(record, d, v).value, e, w) == Encode(Encode(record, e, w).value, d, v)
  {
    var a, b := Encode(record, d, v).value, Encode(record, e, w).value;
    DecodeAfterEncode(a, e, w);
    DecodeAfterEncode(b, d, v);
    DecodeAfterEncode(record, d, v);
    DecodeAfterEncode(record, e, w);
    EncodeWritesField(record, d, v);
    EncodeWritesField(record, e, w);
    EncodeWritesField(a, e, w);
    EncodeWritesField(b, d, v);
    DisjointWritesCommute(record, a, b, Encode(a, e, w).value, Encode(b, d, v).value,
                          d, RawOf(d, NumericOf(d, v).value), e, RawOf(e, NumericOf(e, w).value));
  }

  // ----- the procedures

  lemma {:induction false} ShrShr(v: nat, j: nat, k: nat)
    ensures Shr(Shr(v, j), k) == Shr(v, j + k)
  {
    if j > 0 {
      ShrShr(v / 2, j - 1, k);
    }
  }

  lemma {:induction false} StorageByteAt(storage: nat, n: nat, i: nat)
    requires i < n
    ensures StorageBytes(storage, n)[i] == LowByte(Shr(storage, 8 * (n - 1 - i)))
    decreases n
  {
    if i < n - 1 {
      StorageByteAt(Shr(storage, 8), n - 1, i);
      ShrShr(storage, 8, 8 * (n - 2 - i));
    }
  }

  method ReadStorage(record: seq<Byte>, d: FieldDefinition) returns (result: nat)
    requires Defined(|record|, d)
    ensures result == StorageOf(Window(record, d))
  {
    result := 0;
    ghost var window := Window(record, d);
    for index := 0 to d.storageBytes
      invariant result == StorageOf(window[..index])
    {
      ghost var next := window[..index + 1];
      assert next[..|next| - 1] == window[..index] && next[|next| - 1] == record[d.byteOffset + index];
      result := Or(Shl(result, 8), record[d.byteOffset + index]);
    }
    assert window[..d.storageBytes] == window;
  }

  method DecodeField(record: seq<Byte>, d: FieldDefinition) returns (r: Outcome<FieldValue, CodecError>)
    ensures r == Decode(record, d)
  {
    var fault := DefinitionFault(|record|, d);
    if fault.Some? {
      return Fail(fault.value);
    }
    var storage := ReadStorage(record, d);
    r := RawValue(d, And(Shr(storage, ShiftOf(d)), Pow2(d.bitWidth) - 1));
  }

  /** The write-back loop of the encoder: the low byte of what remains goes in, last byte first. */
  method WriteStorage(updated: array<Byte>, off: nat, n: nat, storage: nat)
    requires off + n <= updated.Length
    modifies updated
    ensures updated[..] == Stored(old(updated[..]), off, n, storage)
  {
    var remaining, index := storage, n;
    while index > 0
      invariant 0 <= index <= n
      invariant remaining == Shr(storage, 8 * (n - index))
      invariant forall i :: 0 <= i < updated.Length && !(off + index <= i < off + n) ==> updated[i] == old(updated[i])
      invariant forall i :: index <= i < n ==> updated[off + i] == StorageBytes(storage, n)[i]
    {
      index := index - 1;
      StorageByteAt(storage, n, index);
      updated[off + index] := LowByte(remaining);
      ShrShr(storage, 8 * (n - 1 - index), 8);
      remaining := Shr(remaining, 8);
    }
    forall i | 0 <= i < updated.Length
      ensures updated[i] == Stored(old(updated[..]), off, n, storage)[i]
    {
      if off <= i < off + n {
        assert updated[off + (i - off)] == StorageBytes(storage, n)[i - off];
      }
    }
  }

  method EncodeField(record: seq<Byte>, d: FieldDefinition, value: FieldValue)
    returns (r: Outcome<seq<Byte>, CodecError>)
    ensures r == Encode(record, d, value)
  {
    var fault := DefinitionFault(|record|, d);
    if fault.Some? {
      return Fail(fault.value);
    }
    var numeric := NumericOf(d, value);
    if numeric.Fail? {
      return Fail(numeric.error);
    }
    if numeric.value < d.minimum || numeric.value > d.maximum {
      return Fail(OutOfDeclaredBounds);
    }
    RawFits(|record|, d, numeric.value);
    var storage := ReadStorage(record, d);
    var updated := new Byte[|record|](i requires 0 <= i < |record| => record[i]);
    assert updated[..] == record;
    WriteStorage(updated, d.byteOffset, d.storageBytes, UpdatedStorage(storage, d, RawOf(d, numeric.value)));
    r := Ok(updated[..]);
  }
}
