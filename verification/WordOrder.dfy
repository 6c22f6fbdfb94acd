/** Word-swapped records: the four-byte reversal, live fingerprints, and relationship words read
    from live bytes. */
module WordOrder {
  import opened Bytes
  import opened Bits
  import opened FieldSchema
  import opened Profile

  /** Where byte `i` of an `n`-byte record goes when every word, and the short tail, is reversed. */
  function Mirror(i: nat, n: nat): (j: nat)
    requires i < n
    ensures j < n && j / 4 == i / 4
  {
    var start := i / 4 * 4;
    start + (if start + 4 < n then start + 4 else n) - 1 - i
  }

  lemma {:induction false} MirrorTwice(i: nat, n: nat)
    requires i < n
    ensures Mirror(Mirror(i, n), n) == i
  {
  }

  function SwapWords(bytes: seq<Byte>): (swapped: seq<Byte>)
    ensures |swapped| == |bytes|
  {
    seq(|bytes|, i requires 0 <= i < |bytes| => bytes[Mirror(i, |bytes|)])
  }

  /** Swapping is its own inverse at every length. */
  lemma {:induction false} SwapWordsInvolution(bytes: seq<Byte>)
    ensures SwapWords(SwapWords(bytes)) == bytes
  {
  }

  /** `std::reverse` on one chunk. */
  method ReverseChunk(bytes: array<Byte>, start: nat, end: nat)
    requires start <= end <= bytes.Length
    modifies bytes
    ensures forall i :: 0 <= i < bytes.Length ==>
      bytes[i] == (if start <= i < end then old(bytes[start + end - 1 - i]) else old(bytes[i]))
  {
    var low, high := start, end;
    while low + 1 < high
      invariant start <= low <= high <= end && low + high == start + end
      invariant forall i :: 0 <= i < bytes.Length ==>
        bytes[i] == (if start <= i < low || high <= i < end then old(bytes[start + end - 1 - i]) else old(bytes[i]))
    {
      high := high - 1;
      bytes[low], bytes[high] := bytes[high], bytes[low];
      low := low + 1;
    }
  }

  method SwapWordsInPlace(bytes: array<Byte>)
    modifies bytes
    ensures bytes[..] == SwapWords(old(bytes[..]))
  {
    var start := 0;
    while start < bytes.Length
      invariant start % 4 == 0
      invariant forall i :: 0 <= i < bytes.Length ==>
        bytes[i] == (if i < start then old(bytes[Mirror(i, bytes.Length)]) else old(bytes[i]))
    {
      var end := if start + 4 < bytes.Length then start + 4 else bytes.Length;
      ReverseChunk(bytes, start, end);
      assert forall i :: start <= i < end ==> i / 4 * 4 == start;
      start := start + 4;
    }
  }

  /** The fingerprint as it appears in word-swapped live memory. */
  function LiveFingerprint(canonical: RowFingerprint): RowFingerprint {
    canonical.(pattern := SwapWords(canonical.pattern), mask := SwapWords(canonical.mask))
  }

  /** Matching live bytes against the live fingerprint is matching swapped bytes against the canonical one. */
  lemma {:induction false} LiveMatchIsCanonicalMatch(fingerprint: RowFingerprint, live: seq<Byte>)
    ensures MaskedMatches(LiveFingerprint(fingerprint), live) <==> MaskedMatches(fingerprint, SwapWords(live))
  {
    var n := |live|;
    if n == |fingerprint.pattern| == |fingerprint.mask| {
      forall i | 0 <= i < n
        ensures Mirror(Mirror(i, n), n) == i
      {
        MirrorTwice(i, n);
      }
      var moved := LiveFingerprint(fingerprint);
      if MaskedMatches(moved, live) {
        forall i | 0 <= i < n
          ensures Masked(SwapWords(live)[i], fingerprint.mask[i]) == Masked(fingerprint.pattern[i], fingerprint.mask[i])
        {
          var j := Mirror(i, n);
          assert Masked(live[j], moved.mask[j]) == Masked(moved.pattern[j], moved.mask[j]);
        }
      }
      if MaskedMatches(fingerprint, SwapWords(live)) {
        forall i | 0 <= i < n
          ensures Masked(live[i], moved.mask[i]) == Masked(moved.pattern[i], moved.mask[i])
        {
          var j := Mirror(i, n);
          assert Masked(SwapWords(live)[j], fingerprint.mask[j]) == Masked(fingerprint.pattern[j], fingerprint.mask[j]);
        }
      }
    }
  }

  /** `value |= byte << (8 * index)`, byte by byte. */
  function LittleEndian(bytes: seq<Byte>): nat {
    if bytes == [] then 0
    else Or(LittleEndian(bytes[..|bytes| - 1]), Shl(bytes[|bytes| - 1], 8 * (|bytes| - 1)))
  }

  lemma {:induction false} LittleEndianBit(bytes: seq<Byte>, p: nat)
    ensures Bit(LittleEndian(bytes), p) <==> p < 8 * |bytes| && Bit(bytes[p / 8], p % 8)
  {
    if bytes == [] {
      BitOfZero(p);
    } else {
      var n, last := |bytes| - 1, bytes[|bytes| - 1];
      BitOr(LittleEndian(bytes[..n]), Shl(last, 8 * n), p);
      LittleEndianBit(bytes[..n], p);
      BitShl(last, 8 * n, p);
      assert Pow2(8) == 256;
      if p >= 8 * n + 8 {
        BitBeyond(last, 8, p - 8 * n);
      } else if p >= 8 * n {
        assert p / 8 == n && p % 8 == p - 8 * n;
      }
    }
  }

  /** A byte string as a number, the last byte being the highest. */
  function LittleEndianValue(bytes: seq<Byte>): nat {
    if bytes == [] then 0 else bytes[0] + 256 * LittleEndianValue(bytes[1..])
  }

  lemma {:induction false} LittleEndianValueBit(bytes: seq<Byte>, p: nat)
    ensures Bit(LittleEndianValue(bytes), p) <==> p < 8 * |bytes| && Bit(bytes[p / 8], p % 8)
  {
    if bytes == [] {
      BitOfZero(p);
    } else {
      assert Pow2(8) == 256;
      BitOfSum(LittleEndianValue(bytes[1..]), bytes[0], 8, p);
      if p >= 8 {
        LittleEndianValueBit(bytes[1..], p - 8);
        assert (p - 8) / 8 == p / 8 - 1 && (p - 8) % 8 == p % 8;
      }
    }
  }

  /** The byte loop computes the little-endian number. */
  lemma {:induction false} LittleEndianMeans(bytes: seq<Byte>)
    ensures LittleEndian(bytes) == LittleEndianValue(bytes)
  {
    forall p: nat
      ensures Bit(LittleEndian(bytes), p) == Bit(LittleEndianValue(bytes), p)
    {
      LittleEndianBit(bytes, p);
      LittleEndianValueBit(bytes, p);
    }
    BitsDetermine(LittleEndian(bytes), LittleEndianValue(bytes));
  }

  /** A relationship word as discovery and revalidation read it from live bytes: the big-endian read is
      the codec's own most-significant-first assembly. */
  function RelationshipWord(swapped: bool, bytes: seq<Byte>): nat {
    if swapped then LittleEndian(bytes) else StorageOf(bytes)
  }

  predicate ReferenceField(size: nat, d: FieldDefinition) {
    d.encoding.PackedRef? && Defined(size, d)
  }

  lemma {:induction false} WordRaw(record: seq<Byte>, d: FieldDefinition)
    requires ReferenceField(|record|, d)
    ensures FieldRaw(record, d) == StorageOf(record[d.byteOffset..d.byteOffset + 4])
  {
    var word := StorageOf(Window(record, d));
    forall p: nat
      ensures Bit(FieldRaw(record, d), p) == Bit(word, p)
    {
      BitAnd(word, Pow2(32) - 1, p);
      BitOfMask(32, p);
      StorageBit(Window(record, d), p);
    }
    BitsDetermine(FieldRaw(record, d), word);
  }

  lemma {:induction false} WordsAreBounded(bytes: seq<Byte>)
    requires |bytes| == 4
    ensures StorageOf(bytes) <= 0xFFFF_FFFF && LittleEndian(bytes) <= 0xFFFF_FFFF
  {
    assert Pow2(8) == 256 && Pow2(16) == 0x1_0000 && Pow2(24) == 0x100_0000 && Pow2(32) == 0x1_0000_0000;
    forall p: nat | p >= 32
      ensures !Bit(StorageOf(bytes), p) && !Bit(LittleEndian(bytes), p)
    {
      StorageBit(bytes, p);
      LittleEndianBit(bytes, p);
    }
    BoundedByBits(StorageOf(bytes), 32);
    BoundedByBits(LittleEndian(bytes), 32);
  }

  /** A canonical record's relationship word is what the codec decodes, at any offset. */
  lemma {:induction false} CanonicalWordIsDecode(record: seq<Byte>, d: FieldDefinition)
    requires ReferenceField(|record|, d)
    ensures DecodePackedReference(RelationshipWord(false, record[d.byteOffset..d.byteOffset + 4])) == Decode(record, d)
  {
    WordRaw(record, d);
  }

  lemma {:induction false} MirrorOfAlignedWord(o: nat, n: nat, i: nat)
    requires o % 4 == 0 && o + 4 <= n && i < 4
    ensures Mirror(o + i, n) == o + 3 - i
  {
  }

  lemma {:induction false} ReversedWord(word: seq<Byte>, mirrored: seq<Byte>)
    requires |word| == |mirrored| == 4 && forall i :: 0 <= i < 4 ==> mirrored[3 - i] == word[i]
    ensures LittleEndian(word) == StorageOf(mirrored)
  {
    forall p: nat
      ensures Bit(LittleEndian(word), p) == Bit(StorageOf(mirrored), p)
    {
      LittleEndianBit(word, p);
      StorageBit(mirrored, p);
    }
    BitsDetermine(LittleEndian(word), StorageOf(mirrored));
  }

  lemma {:induction false} AlignedWordIsDecode(live: seq<Byte>, d: FieldDefinition)
    requires ReferenceField(|live|, d) && d.byteOffset % 4 == 0
    ensures DecodePackedReference(RelationshipWord(true, live[d.byteOffset..d.byteOffset + 4])) ==
      Decode(SwapWords(live), d)
  {
    var o, swapped := d.byteOffset, SwapWords(live);
    var word, mirrored := live[o..o + 4], swapped[o..o + 4];
    forall i | 0 <= i < 4
      ensures mirrored[3 - i] == word[i]
    {
      MirrorOfAlignedWord(o, |live|, 3 - i);
      assert mirrored[3 - i] == swapped[o + (3 - i)] == live[o + i];
    }
    ReversedWord(word, mirrored);
    WordRaw(swapped, d);
  }

  lemma {:induction false} UnalignedWordDiffers(live: seq<Byte>, d: FieldDefinition)
    requires ReferenceField(|live|, d) && d.byteOffset % 4 != 0
    requires forall i :: 0 <= i < |live| ==> live[i] == if i == d.byteOffset + 3 then 1 else 0
    ensures DecodePackedReference(RelationshipWord(true, live[d.byteOffset..d.byteOffset + 4])) !=
      Decode(SwapWords(live), d)
  {
    var o, swapped := d.byteOffset, SwapWords(live);
    var word, mirrored := live[o..o + 4], swapped[o..o + 4];
    assert mirrored[0] == swapped[o] == live[Mirror(o, |live|)] == 0;
    LittleEndianBit(word, 24);
    StorageBit(mirrored, 24);
    assert Bit(1, 0) && !Bit(0, 0);
    assert LittleEndian(word) != StorageOf(mirrored);
    WordRaw(swapped, d);
    WordsAreBounded(word);
    WordsAreBounded(mirrored);
    PackedReferenceRoundTrip(0, 0, LittleEndian(word));
    PackedReferenceRoundTrip(0, 0, StorageOf(mirrored));
  }

  /** On word-swapped memory the little-endian read agrees with decoding the swapped record, on every
      record of the size, exactly when the reference field is word-aligned. */
  lemma {:induction false} SwappedWordIsDecodeIffAligned(size: nat, d: FieldDefinition)
    requires ReferenceField(size, d)
    ensures d.byteOffset % 4 == 0 <==> forall live: seq<Byte> :: |live| == size ==>
      DecodePackedReference(RelationshipWord(true, live[d.byteOffset..d.byteOffset + 4])) == Decode(SwapWords(live), d)
  {
    if d.byteOffset % 4 == 0 {
      forall live: seq<Byte> | |live| == size {
        AlignedWordIsDecode(live, d);
      }
    } else {
      var live: seq<Byte> := seq(size, i => if i == d.byteOffset + 3 then 1 else 0);
      UnalignedWordDiffers(live, d);
    }
  }
}
