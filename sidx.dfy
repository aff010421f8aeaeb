/** The Segment Index box `sidx` (section 8.16.3 of ISO/IEC 14496-12): a leaf
    box whose payload is a versioned header followed by `reference_count`
    fixed-size reference records, each packing sub-word bit-fields into
    big-endian 32-bit words. */
module Sidx {
  import opened Mp4Box

  /** One reference record. Field widths on the wire: 1 + 31 bits, 32 bits,
      then 1 + 3 + 28 bits; in memory each lives in a whole u8 or u32. */
  datatype SidxReference = SidxReference(
    referenceType: u8,
    referencedSize: u32,
    subsegmentDuration: u32,
    startsWithSap: u8,
    sapType: u8,
    sapDeltaTime: u32)

  datatype SidxBox = SidxBox(
    version: u8,
    flags: u32,
    referenceId: u32,
    timescale: u32,
    earliestPresentationTime: u64,
    firstOffset: u64,
    references: seq<SidxReference>)

  /** Bytes of one encoded reference record. */
  const REFERENCE_SIZE: nat := 12

  const BIT31: nat := 0x8000_0000
  const BIT28: nat := 0x1000_0000

  /** Wire width of `earliestPresentationTime` and of `firstOffset`. */
  function TimeWidth(version: u8): (width: nat) {
    if version == 1 then 8 else 4
  }

  /** `get_size`: computed from the version and the number of references alone,
      before anything is written. */
  function Size(b: SidxBox): (size: nat)
    ensures size == HEADER_SIZE + 16 + 2 * TimeWidth(b.version) + REFERENCE_SIZE * |b.references|
  {
    HEADER_SIZE + (4 + (if b.version == 1 then 2 else 1) * 2) * 4 + REFERENCE_SIZE * |b.references|
  }

  // ---------------------------------------------------------------------
  // Bit-fields. A u8 cast to u32 and shifted left by k keeps its low 32 - k
  // bits; masking with 2^k - 1 is the remainder modulo 2^k; an OR of fields
  // occupying disjoint bits is their sum.

  /** One bit, the OR of two bits. */
  function BitOr(a: nat, b: nat): (bit: nat)
    requires a <= 1 && b <= 1
  {
    if a == 1 || b == 1 then 1 else 0
  }

  /** Word 1 of a record: reference_type in bit 31 above a 31-bit referenced_size.
      Only the size is masked; the type is shifted, so only its lowest bit survives. */
  function PackWord1(referenceType: u8, referencedSize: u32): (w: u32)
    ensures w / BIT31 == referenceType % 2 && w % BIT31 == referencedSize % BIT31
  {
    (referenceType % 2) * BIT31 + referencedSize % BIT31
  }

  function UnpackWord1(w: u32): (fields: (u8, u32))
    ensures fields.0 <= 1 && fields.1 < BIT31
  {
    (w / BIT31, w % BIT31)
  }

  /** Word 3 of a record: starts_with_sap in bit 31, sap_type in bits 28-30,
      sap_delta_time in bits 0-27. The delta is masked; the type is not, so its
      bit 3 lands in bit 31 (ORed with the flag) and its bits 4-7 are shifted out. */
  function PackWord3(startsWithSap: u8, sapType: u8, sapDeltaTime: u32): (w: u32)
    ensures w / BIT31 == BitOr(startsWithSap % 2, (sapType / 8) % 2)
    ensures (w / BIT28) % 8 == sapType % 8 && w % BIT28 == sapDeltaTime % BIT28
  {
    BitOr(startsWithSap % 2, (sapType / 8) % 2) * BIT31 + (sapType % 8) * BIT28 + sapDeltaTime % BIT28
  }

  function UnpackWord3(w: u32): (fields: (u8, u8, u32))
    ensures fields.0 <= 1 && fields.1 <= 7 && fields.2 < BIT28
  {
    (w / BIT31, (w / BIT28) % 8, w % BIT28)
  }

  /** Unpacking a word gives fields within their widths, and packing them
      again gives the word back: nothing read is lost. */
  lemma UnpackWord1Lossless(w: u32)
    ensures UnpackWord1(w).0 <= 1 && UnpackWord1(w).1 < BIT31
    ensures PackWord1(UnpackWord1(w).0, UnpackWord1(w).1) == w
  {
  }

  lemma UnpackWord3Lossless(w: u32)
    ensures UnpackWord3(w).0 <= 1 && UnpackWord3(w).1 <= 7 && UnpackWord3(w).2 < BIT28
    ensures PackWord3(UnpackWord3(w).0, UnpackWord3(w).1, UnpackWord3(w).2) == w
  {
    var hi := w / BIT28;
    assert w == hi * BIT28 + w % BIT28;
    assert hi == (hi / 8) * 8 + hi % 8;
    assert w / BIT31 == hi / 8;
  }

  /** What unpacking a packed word 1 yields, for every input. */
  lemma Word1Fields(referenceType: u8, referencedSize: u32)
    ensures UnpackWord1(PackWord1(referenceType, referencedSize))
         == (referenceType % 2, referencedSize % BIT31)
  {
  }

  /** What unpacking a packed word 3 yields, for every input: bit 3 of the type
      is ORed into the flag. */
  lemma Word3Fields(startsWithSap: u8, sapType: u8, sapDeltaTime: u32)
    ensures UnpackWord3(PackWord3(startsWithSap, sapType, sapDeltaTime))
         == (BitOr(startsWithSap % 2, (sapType / 8) % 2), sapType % 8, sapDeltaTime % BIT28)
  {
    var flag, t, d := BitOr(startsWithSap % 2, (sapType / 8) % 2), sapType % 8, sapDeltaTime % BIT28;
    var w := flag * BIT31 + t * BIT28 + d;
    assert w / BIT28 == flag * 8 + t;
  }

  lemma Word1RoundTrip(referenceType: u8, referencedSize: u32)
    requires referenceType <= 1 && referencedSize < BIT31
    ensures UnpackWord1(PackWord1(referenceType, referencedSize)) == (referenceType, referencedSize)
  {
    Word1Fields(referenceType, referencedSize);
  }

  lemma Word3RoundTrip(startsWithSap: u8, sapType: u8, sapDeltaTime: u32)
    requires startsWithSap <= 1 && sapType <= 7 && sapDeltaTime < BIT28
    ensures UnpackWord3(PackWord3(startsWithSap, sapType, sapDeltaTime))
         == (startsWithSap, sapType, sapDeltaTime)
  {
    Word3Fields(startsWithSap, sapType, sapDeltaTime);
  }

  /** An out-of-range sap_type of 8 is written as a set starts_with_sap bit. */
  lemma SapTypeSpillsIntoFlag()
    ensures PackWord3(0, 8, 0) == 0x8000_0000
    ensures UnpackWord3(PackWord3(0, 8, 0)) == (1, 0, 0)
  {
  }

  /** A record whose fields all fit their wire widths. */
  predicate ReferenceFits(r: SidxReference) {
    && r.referenceType <= 1
    && r.referencedSize < BIT31
    && r.startsWithSap <= 1
    && r.sapType <= 7
    && r.sapDeltaTime < BIT28
  }

  /** The record a reader sees after this one has been written. */
  function NormalizeReference(r: SidxReference): (n: SidxReference) {
    SidxReference(
      r.referenceType % 2,
      r.referencedSize % BIT31,
      r.subsegmentDuration,
      BitOr(r.startsWithSap % 2, (r.sapType / 8) % 2),
      r.sapType % 8,
      r.sapDeltaTime % BIT28)
  }

  lemma NormalizeReferenceFixed(r: SidxReference)
    ensures ReferenceFits(NormalizeReference(r))
    ensures NormalizeReference(r) == r <==> ReferenceFits(r)
  {
  }

  function NormalizeAll(refs: seq<SidxReference>): (out: seq<SidxReference>)
    ensures |out| == |refs|
  {
    if refs == [] then [] else [NormalizeReference(refs[0])] + NormalizeAll(refs[1..])
  }

  /** Normalizing changes nothing exactly when every record already fits. */
  lemma {:induction false} NormalizeAllFixed(refs: seq<SidxReference>)
    ensures NormalizeAll(refs) == refs <==> forall i :: 0 <= i < |refs| ==> ReferenceFits(refs[i])
  {
    if refs != [] {
      NormalizeAllFixed(refs[1..]);
      NormalizeReferenceFixed(refs[0]);
      if NormalizeAll(refs) == refs {
        assert NormalizeAll(refs)[0] == refs[0];
        assert NormalizeAll(refs[1..]) == NormalizeAll(refs)[1..];
      }
      if forall i :: 0 <= i < |refs| ==> ReferenceFits(refs[i]) {
        assert forall i :: 0 <= i < |refs[1..]| ==> ReferenceFits(refs[1..][i]) by {
          forall i | 0 <= i < |refs[1..]| ensures ReferenceFits(refs[1..][i]) {
            assert refs[1..][i] == refs[i + 1];
          }
        }
        assert ReferenceFits(refs[0]);
      }
    }
  }

  // ---------------------------------------------------------------------
  // Encoding (`write_box`)

  function EncodeReference(r: SidxReference): (s: seq<u8>)
    ensures |s| == REFERENCE_SIZE
  {
    EncodeU32(PackWord1(r.referenceType, r.referencedSize))
    + EncodeU32(r.subsegmentDuration)
    + EncodeU32(PackWord3(r.startsWithSap, r.sapType, r.sapDeltaTime))
  }

  function EncodeReferences(refs: seq<SidxReference>): (s: seq<u8>)
    ensures |s| == REFERENCE_SIZE * |refs|
  {
    if refs == [] then [] else EncodeReference(refs[0]) + EncodeReferences(refs[1..])
  }

  lemma {:induction false} EncodeReferencesAppend(refs: seq<SidxReference>, r: SidxReference)
    ensures EncodeReferences(refs + [r]) == EncodeReferences(refs) + EncodeReference(r)
  {
    if refs == [] {
      assert refs + [r] == [r];
    } else {
      assert (refs + [r])[1..] == refs[1..] + [r];
      EncodeReferencesAppend(refs[1..], r);
      AppendAssoc(EncodeReference(refs[0]), EncodeReferences(refs[1..]), EncodeReference(r));
    }
  }

  lemma EncodeReferencesStep(refs: seq<SidxReference>, i: nat)
    requires i < |refs|
    ensures EncodeReferences(refs[..i + 1]) == EncodeReferences(refs[..i]) + EncodeReference(refs[i])
  {
    TakeNext(refs, i);
    EncodeReferencesAppend(refs[..i], refs[i]);
  }

  /** `value as u32`: the low 32 bits. */
  function Low32(x: u64): (y: u32) {
    x % 0x1_0000_0000
  }

  /** earliest_presentation_time then first_offset: 8 bytes each in version 1,
      otherwise each narrowed to its low 32 bits. */
  function EncodeTimes(b: SidxBox): (s: seq<u8>)
    ensures |s| == 2 * TimeWidth(b.version)
  {
    if b.version == 1 then EncodeU64(b.earliestPresentationTime) + EncodeU64(b.firstOffset)
    else EncodeU32(Low32(b.earliestPresentationTime)) + EncodeU32(Low32(b.firstOffset))
  }

  /** The reference_count field: `len as u16`, the length modulo 2^16. */
  function CountField(b: SidxBox): (count: u16)
    ensures count <= |b.references|
    ensures count == |b.references| <==> |b.references| < 0x1_0000
  {
    |b.references| % 0x1_0000
  }

  /** The header and every field before the first record: version, zero
      flags, reference_id, timescale, the two versioned fields, zero
      reserved, and the count narrowed to u16. */
  function EncodePrefix(b: SidxBox): (s: seq<u8>)
    requires Size(b) <= MAX_U32
    ensures |s| == HEADER_SIZE + 16 + 2 * TimeWidth(b.version)
  {
    EncodeHeader(BoxHeader(SidxType, Size(b)))
    + [b.version] + EncodeU24(0)
    + EncodeU32(b.referenceId) + EncodeU32(b.timescale)
    + EncodeTimes(b)
    + EncodeU16(0) + EncodeU16(CountField(b))
  }

  /** The bytes `write_box` emits: the prefix, then every record (all of them,
      whatever the count field says). Only the 32-bit header form is modelled. */
  function Encode(b: SidxBox): (bytes: seq<u8>)
    requires Size(b) <= MAX_U32
    ensures |bytes| == Size(b)
  {
    EncodePrefix(b) + EncodeReferences(b.references)
  }

  /** `write_box`: emits the box in order and returns the size it announced. */
  method WriteBox(b: SidxBox) returns (written: seq<u8>, size: nat)
    requires Size(b) <= MAX_U32
    ensures written == Encode(b) && size == Size(b)
  {
    size := Size(b);
    written := EncodeHeader(BoxHeader(SidxType, size));
    written := written + [b.version];
    written := written + EncodeU24(0);
    written := written + EncodeU32(b.referenceId);
    written := written + EncodeU32(b.timescale);
    ghost var beforeTimes := written;
    if b.version == 1 {
      written := written + EncodeU64(b.earliestPresentationTime);
      written := written + EncodeU64(b.firstOffset);
      AppendAssoc(beforeTimes, EncodeU64(b.earliestPresentationTime), EncodeU64(b.firstOffset));
    } else {
      written := written + EncodeU32(Low32(b.earliestPresentationTime));
      written := written + EncodeU32(Low32(b.firstOffset));
      AppendAssoc(beforeTimes, EncodeU32(Low32(b.earliestPresentationTime)), EncodeU32(Low32(b.firstOffset)));
    }
    written := written + EncodeU16(0);
    var referenceCount := |b.references| % 0x1_0000;
    written := written + EncodeU16(referenceCount);
    ghost var fixed := written;
    assert fixed == EncodePrefix(b);
    for i := 0 to |b.references|
      invariant written == fixed + EncodeReferences(b.references[..i])
    {
      var reference := b.references[i];
      ghost var before := written;
      var word1 := (reference.referenceType % 2) * BIT31 + reference.referencedSize % BIT31;
      written := written + EncodeU32(word1);
      written := written + EncodeU32(reference.subsegmentDuration);
      var word3 := BitOr(reference.startsWithSap % 2, (reference.sapType / 8) % 2) * BIT31
                   + (reference.sapType % 8) * BIT28 + reference.sapDeltaTime % BIT28;
      written := written + EncodeU32(word3);
      AppendAssoc3(before, EncodeU32(word1), EncodeU32(reference.subsegmentDuration), EncodeU32(word3));
      AppendAssoc(fixed, EncodeReferences(b.references[..i]), EncodeReference(reference));
      EncodeReferencesStep(b.references, i);
    }
    TakeAll(b.references);
  }

  // ---------------------------------------------------------------------
  // Decoding (`read_box`)

  /** A versioned field: 8 bytes in version 1, else 4 bytes zero-extended. */
  function ReadVersioned(data: seq<u8>, pos: nat, version: u8): (r: Result<u64>)
    ensures r.Success? <==> pos + TimeWidth(version) <= |data|
    ensures r.Success? && version != 1 ==> r.value < 0x1_0000_0000
  {
    if version == 1 then ReadU64(data, pos)
    else
      var x :- ReadU32(data, pos);
      Success(x)
  }

  /** The record held by its three words. */
  function UnpackReference(word1: u32, subsegmentDuration: u32, word3: u32): (r: SidxReference)
    ensures ReferenceFits(r)
  {
    UnpackWord1Lossless(word1);
    UnpackWord3Lossless(word3);
    SidxReference(UnpackWord1(word1).0, UnpackWord1(word1).1, subsegmentDuration,
                  UnpackWord3(word3).0, UnpackWord3(word3).1, UnpackWord3(word3).2)
  }

  function ReadReference(data: seq<u8>, pos: nat): (r: Result<SidxReference>)
    ensures r.Success? <==> pos + REFERENCE_SIZE <= |data|
    ensures r.Success? ==> ReferenceFits(r.value)
  {
    var word1 :- ReadU32(data, pos);
    var subsegmentDuration :- ReadU32(data, pos + 4);
    var word3 :- ReadU32(data, pos + 8);
    Success(UnpackReference(word1, subsegmentDuration, word3))
  }

  /** The record read at a cursor, field by field from its three words. */
  lemma ReadReferenceWords(data: seq<u8>, pos: nat)
    ensures pos + REFERENCE_SIZE <= |data| ==>
      var word1, word3 := ReadU32(data, pos).value, ReadU32(data, pos + 8).value;
      ReadReference(data, pos) == Success(SidxReference(
        word1 / BIT31, word1 % BIT31, ReadU32(data, pos + 4).value,
        word3 / BIT31, (word3 / BIT28) % 8, word3 % BIT28))
  {
  }

  /** Exactly `count` records, in order; fails iff they are not all there. */
  function ReadReferences(data: seq<u8>, pos: nat, count: nat): (r: Result<seq<SidxReference>>)
    ensures r.Success? <==> count == 0 || pos + REFERENCE_SIZE * count <= |data|
    ensures r.Success? ==> |r.value| == count
    decreases count
  {
    if count == 0 then Success([])
    else
      var first :- ReadReference(data, pos);
      var rest :- ReadReferences(data, pos + REFERENCE_SIZE, count - 1);
      Success([first] + rest)
  }

  /** Everything `read_box` reads before the first record: the box without its
      records, and reference_count. */
  function ReadFields(data: seq<u8>, pos: nat): (r: Result<(SidxBox, u16)>)
    ensures r.Success? ==> r.value.0.flags < 0x100_0000
    ensures r.Success? ==> r.value.0.references == []
  {
    var version :- ReadU8(data, pos);
    var flags :- ReadU24(data, pos + 1);
    var referenceId :- ReadU32(data, pos + 4);
    var timescale :- ReadU32(data, pos + 8);
    var width := TimeWidth(version);
    var earliestPresentationTime :- ReadVersioned(data, pos + 12, version);
    var firstOffset :- ReadVersioned(data, pos + 12 + width, version);
    var reserved :- ReadU16(data, pos + 12 + 2 * width);
    var referenceCount :- ReadU16(data, pos + 14 + 2 * width);
    Success((SidxBox(version, flags, referenceId, timescale, earliestPresentationTime, firstOffset, []),
             referenceCount))
  }

  /** The fixed fields are read exactly when the data holds all of them, at
      the width the version byte at the cursor selects; the count is the last
      16-bit word among them. */
  lemma ReadFieldsExtent(data: seq<u8>, pos: nat)
    ensures ReadFields(data, pos).Success? <==> pos < |data| && pos + 16 + 2 * TimeWidth(data[pos]) <= |data|
    ensures var r := ReadFields(data, pos);
      r.Success? ==> (r.value.0.version == data[pos]
        && ReadU16(data, pos + 14 + 2 * TimeWidth(r.value.0.version)) == Success(r.value.1))
  {
  }

  /** `read_box`, entered with the cursor just past the box header and the
      declared size of the whole box; yields the box and the cursor, which it
      leaves at the declared end of the box whatever was read. */
  function ReadBody(data: seq<u8>, pos: nat, size: nat): (r: Result<(SidxBox, nat)>)
    requires pos >= HEADER_SIZE
    ensures r.Success? ==> r.value.1 == pos - HEADER_SIZE + size
  {
    var (fields, referenceCount) :- ReadFields(data, pos);
    var references :- ReadReferences(data, pos + 16 + 2 * TimeWidth(fields.version), referenceCount);
    Success((fields.(references := references), pos - HEADER_SIZE + size))
  }

  /** A whole `sidx` box at the start of `bytes`: its header, then `read_box`
      with the size the header declares. The caller has already dispatched on
      the header's tag. */
  function Decode(bytes: seq<u8>): (r: Result<SidxBox>)
    ensures r.Success? ==> ReadHeader(bytes, 0).Success?
    ensures r.Success? ==> r.value.flags < 0x100_0000 && |r.value.references| < 0x1_0000
  {
    var header :- ReadHeader(bytes, 0);
    var read :- ReadBody(bytes, HEADER_SIZE, header.size);
    Success(read.0)
  }

  function Prepend(prefix: seq<SidxReference>, r: Result<seq<SidxReference>>): (p: Result<seq<SidxReference>>) {
    match r
    case Success(rest) => Success(prefix + rest)
    case Failure(e) => Failure(e)
  }

  lemma PrependNothing(r: Result<seq<SidxReference>>)
    ensures Prepend([], r) == r
  {
    if r.Success? {
      assert [] + r.value == r.value;
    }
  }

  /** Reading one more record moves it from the unread rest to the prefix. */
  lemma ReadReferencesStep(data: seq<u8>, pos: nat, count: nat, prefix: seq<SidxReference>)
    requires count > 0
    ensures ReadReference(data, pos).Failure? ==>
      Prepend(prefix, ReadReferences(data, pos, count)) == Failure(UnexpectedEof)
    ensures ReadReference(data, pos).Success? ==>
      Prepend(prefix, ReadReferences(data, pos, count))
      == Prepend(prefix + [ReadReference(data, pos).value], ReadReferences(data, pos + REFERENCE_SIZE, count - 1))
  {
    var rest := ReadReferences(data, pos + REFERENCE_SIZE, count - 1);
    if ReadReference(data, pos).Success? && rest.Success? {
      AppendAssoc(prefix, [ReadReference(data, pos).value], rest.value);
    }
  }

  /** `read_box` is the fixed fields followed by the records they announce. */
  lemma ReadBodyParts(data: seq<u8>, pos: nat, size: nat, fields: SidxBox, count: nat)
    requires pos >= HEADER_SIZE && ReadFields(data, pos) == Success((fields, count))
    ensures var refs := ReadReferences(data, pos + 16 + 2 * TimeWidth(fields.version), count);
      && (refs.Failure? ==> ReadBody(data, pos, size) == Failure(refs.error))
      && (refs.Success? ==> ReadBody(data, pos, size) == Success((fields.(references := refs.value), pos - HEADER_SIZE + size)))
  {
  }

  /** The counted loop of `read_box`: one record per iteration, each unpacked
      from its three words and appended. */
  method ReadReferenceLoop(data: seq<u8>, pos: nat, count: nat) returns (r: Result<seq<SidxReference>>)
    ensures r == ReadReferences(data, pos, count)
  {
    var references: seq<SidxReference> := [];
    var cursor := pos;
    PrependNothing(ReadReferences(data, pos, count));
    for i := 0 to count
      invariant cursor == pos + REFERENCE_SIZE * i
      invariant ReadReferences(data, pos, count) == Prepend(references, ReadReferences(data, cursor, count - i))
    {
      ReadReferencesStep(data, cursor, count - i, references);
      ReadReferenceWords(data, cursor);
      var word1 :- ReadU32(data, cursor);
      var referenceType := word1 / BIT31;
      var referencedSize := word1 % BIT31;
      var subsegmentDuration :- ReadU32(data, cursor + 4);
      var word3 :- ReadU32(data, cursor + 8);
      var startsWithSap := word3 / BIT31;
      var sapType := (word3 / BIT28) % 8;
      var sapDeltaTime := word3 % BIT28;
      references := references + [SidxReference(referenceType, referencedSize, subsegmentDuration,
                                                 startsWithSap, sapType, sapDeltaTime)];
      cursor := cursor + REFERENCE_SIZE;
    }
    assert references + [] == references;
    r := Success(references);
  }

  /** The fixed fields of `read_box`, read in order at a moving cursor: the
      box without its records, and reference_count. */
  method ReadFixedFields(data: seq<u8>, pos: nat) returns (r: Result<(SidxBox, u16)>)
    ensures r == ReadFields(data, pos)
  {
    var cursor := pos;
    var version :- ReadU8(data, cursor);
    cursor := cursor + 1;
    var flags :- ReadU24(data, cursor);
    cursor := cursor + 3;
    var referenceId :- ReadU32(data, cursor);
    cursor := cursor + 4;
    var timescale :- ReadU32(data, cursor);
    cursor := cursor + 4;

    var earliestPresentationTime: u64;
    if version == 1 {
      earliestPresentationTime :- ReadU64(data, cursor);
      cursor := cursor + 8;
    } else {
      earliestPresentationTime :- ReadU32(data, cursor);
      cursor := cursor + 4;
    }
    var firstOffset: u64;
    if version == 1 {
      firstOffset :- ReadU64(data, cursor);
      cursor := cursor + 8;
    } else {
      firstOffset :- ReadU32(data, cursor);
      cursor := cursor + 4;
    }

    var reserved :- ReadU16(data, cursor);
    cursor := cursor + 2;
    var referenceCount :- ReadU16(data, cursor);
    r := Success((SidxBox(version, flags, referenceId, timescale, earliestPresentationTime, firstOffset, []),
                  referenceCount));
  }

  /** `read_box`: the fixed fields, then the records they announce, then the
      cursor is moved to the declared end of the box. */
  method ReadBox(data: seq<u8>, pos: nat, size: nat) returns (r: Result<(SidxBox, nat)>)
    requires pos >= HEADER_SIZE
    ensures r == ReadBody(data, pos, size)
  {
    var start := pos - HEADER_SIZE;
    var fixed :- ReadFixedFields(data, pos);
    var (fields, referenceCount) := fixed;
    ReadBodyParts(data, pos, size, fields, referenceCount);
    var references :- ReadReferenceLoop(data, pos + 16 + 2 * TimeWidth(fields.version), referenceCount);
    var cursor := start + size;
    r := Success((fields.(references := references), cursor));
  }

  // ---------------------------------------------------------------------
  // Properties

  /** `get_size` by version: 8 + 24 + 12n, or 8 + 32 + 12n for version 1. */
  lemma SizeByVersion(b: SidxBox)
    ensures b.version == 1 ==> Size(b) == 40 + 12 * |b.references|
    ensures b.version != 1 ==> Size(b) == 32 + 12 * |b.references|
  {
  }

  /** Every record read fits its wire widths. */
  lemma {:induction false} ReadReferencesFit(data: seq<u8>, pos: nat, count: nat)
    ensures ReadReferences(data, pos, count).Success? ==>
      forall i :: 0 <= i < count ==> ReferenceFits(ReadReferences(data, pos, count).value[i])
    decreases count
  {
    if count > 0 && ReadReferences(data, pos, count).Success? {
      ReadReferencesFit(data, pos + REFERENCE_SIZE, count - 1);
      var all := ReadReferences(data, pos, count).value;
      var rest := ReadReferences(data, pos + REFERENCE_SIZE, count - 1).value;
      assert all == [all[0]] + rest;
      forall i | 0 <= i < count ensures ReferenceFits(all[i]) {
        if i > 0 {
          assert all[i] == rest[i - 1];
        }
      }
    }
  }

  /** The fixed part of what a successful `read_box` guarantees: flags fit
      their 24 bits and the number of records is the count field on the wire. */
  lemma ReadBodyCount(data: seq<u8>, pos: nat, size: nat)
    requires pos >= HEADER_SIZE && ReadBody(data, pos, size).Success?
    ensures var b := ReadBody(data, pos, size).value.0;
      && b.flags < 0x100_0000
      && ReadU16(data, pos + 14 + 2 * TimeWidth(b.version)) == Success(|b.references|)
  {
    var (fields, count) := ReadFields(data, pos).value;
    ReadFieldsExtent(data, pos);
    assert ReadU16(data, pos + 14 + 2 * TimeWidth(fields.version)) == Success(count);
    ReadBodyParts(data, pos, size, fields, count);
    var refs := ReadReferences(data, pos + 16 + 2 * TimeWidth(fields.version), count);
    assert refs.Success?;
    var b := ReadBody(data, pos, size).value.0;
    assert b == fields.(references := refs.value);
  }

  /** What a successful `read_box` guarantees: flags fit their 24 bits, the
      number of records is the count field read from the wire, and every record
      fits its wire widths. */
  lemma ReadBodyShape(data: seq<u8>, pos: nat, size: nat)
    requires pos >= HEADER_SIZE && ReadBody(data, pos, size).Success?
    ensures var b := ReadBody(data, pos, size).value.0;
      && b.flags < 0x100_0000
      && ReadU16(data, pos + 14 + 2 * TimeWidth(b.version)) == Success(|b.references|)
      && forall i :: 0 <= i < |b.references| ==> ReferenceFits(b.references[i])
  {
    ReadBodyCount(data, pos, size);
    var (fields, count) := ReadFields(data, pos).value;
    ReadBodyParts(data, pos, size, fields, count);
    var at := pos + 16 + 2 * TimeWidth(fields.version);
    var refs := ReadReferences(data, at, count);
    ReadReferencesFit(data, at, count);
    assert refs.Success?;
    assert ReadBody(data, pos, size).value.0.references == refs.value;
  }

  /** Splitting the records splits their encoding. */
  lemma {:induction false} EncodeReferencesSplit(refs: seq<SidxReference>, k: nat)
    requires k <= |refs|
    ensures EncodeReferences(refs) == EncodeReferences(refs[..k]) + EncodeReferences(refs[k..])
    decreases k
  {
    if k == 0 {
      assert refs[..0] == [] && refs[0..] == refs;
    } else {
      EncodeReferencesSplit(refs[1..], k - 1);
      assert refs[1..][..k - 1] == refs[1..k] && refs[1..][k - 1..] == refs[k..];
      assert refs[..k][1..] == refs[1..k] && refs[..k][0] == refs[0];
      AppendAssoc(EncodeReference(refs[0]), EncodeReferences(refs[1..k]), EncodeReferences(refs[k..]));
    }
  }

  /** A record read back from its encoding is the record as normalized by the
      bit-field packing. */
  lemma ReadEncodedReference(data: seq<u8>, pos: nat, r: SidxReference)
    requires IsAt(data, pos, EncodeReference(r))
    ensures ReadReference(data, pos) == Success(NormalizeReference(r))
  {
    var w1, w2, w3 := EncodeU32(PackWord1(r.referenceType, r.referencedSize)), EncodeU32(r.subsegmentDuration),
      EncodeU32(PackWord3(r.startsWithSap, r.sapType, r.sapDeltaTime));
    SplitAt(data, pos, w1 + w2, w3);
    SplitAt(data, pos, w1, w2);
    ReadEncodedU32(data, pos, PackWord1(r.referenceType, r.referencedSize));
    ReadEncodedU32(data, pos + 4, r.subsegmentDuration);
    ReadEncodedU32(data, pos + 8, PackWord3(r.startsWithSap, r.sapType, r.sapDeltaTime));
    Word1Fields(r.referenceType, r.referencedSize);
    Word3Fields(r.startsWithSap, r.sapType, r.sapDeltaTime);
  }

  lemma {:induction false} ReadEncodedReferences(data: seq<u8>, pos: nat, refs: seq<SidxReference>)
    requires IsAt(data, pos, EncodeReferences(refs))
    ensures ReadReferences(data, pos, |refs|) == Success(NormalizeAll(refs))
    decreases |refs|
  {
    if refs != [] {
      SplitAt(data, pos, EncodeReference(refs[0]), EncodeReferences(refs[1..]));
      ReadEncodedReference(data, pos, refs[0]);
      ReadEncodedReferences(data, pos + REFERENCE_SIZE, refs[1..]);
    }
  }

  /** A presentation time or offset as it comes back from the wire: whole for
      version 1, its low 32 bits otherwise. */
  function WireTime(version: u8, x: u64): (y: u64)
    ensures version != 1 ==> y < 0x1_0000_0000
    ensures y == x <==> version == 1 || x < 0x1_0000_0000
  {
    if version == 1 then x else Low32(x)
  }

  /** The box that `read_box` rebuilds from what `write_box` emits: flags read
      as 0, both times at their wire width, only the first `len as u16`
      records, each normalized by the bit-field packing. */
  function WireImage(b: SidxBox): (w: SidxBox) {
    SidxBox(b.version, 0, b.referenceId, b.timescale,
            WireTime(b.version, b.earliestPresentationTime), WireTime(b.version, b.firstOffset),
            NormalizeAll(b.references[..CountField(b)]))
  }

  lemma ReadEncodedTimes(data: seq<u8>, pos: nat, b: SidxBox)
    requires IsAt(data, pos, EncodeTimes(b))
    ensures ReadVersioned(data, pos, b.version) == Success(WireTime(b.version, b.earliestPresentationTime))
    ensures ReadVersioned(data, pos + TimeWidth(b.version), b.version) == Success(WireTime(b.version, b.firstOffset))
  {
    if b.version == 1 {
      SplitAt(data, pos, EncodeU64(b.earliestPresentationTime), EncodeU64(b.firstOffset));
      ReadEncodedU64(data, pos, b.earliestPresentationTime);
      ReadEncodedU64(data, pos + 8, b.firstOffset);
    } else {
      SplitAt(data, pos, EncodeU32(Low32(b.earliestPresentationTime)), EncodeU32(Low32(b.firstOffset)));
      ReadEncodedU32(data, pos, Low32(b.earliestPresentationTime));
      ReadEncodedU32(data, pos + 4, Low32(b.firstOffset));
    }
  }

  /** Where each fixed field sits in the encoding. */
  lemma PrefixLayout(data: seq<u8>, b: SidxBox)
    requires Size(b) <= MAX_U32 && IsAt(data, 0, EncodePrefix(b))
    ensures IsAt(data, 0, EncodeHeader(BoxHeader(SidxType, Size(b))))
    ensures IsAt(data, 8, [b.version]) && IsAt(data, 9, EncodeU24(0))
    ensures IsAt(data, 12, EncodeU32(b.referenceId)) && IsAt(data, 16, EncodeU32(b.timescale))
    ensures IsAt(data, 20, EncodeTimes(b))
    ensures IsAt(data, 20 + 2 * TimeWidth(b.version), EncodeU16(0))
    ensures IsAt(data, 22 + 2 * TimeWidth(b.version), EncodeU16(CountField(b)))
  {
    var header := EncodeHeader(BoxHeader(SidxType, Size(b)));
    var p1 := header + [b.version];
    var p2 := p1 + EncodeU24(0);
    var p3 := p2 + EncodeU32(b.referenceId);
    var p4 := p3 + EncodeU32(b.timescale);
    var p5 := p4 + EncodeTimes(b);
    var p6 := p5 + EncodeU16(0);
    SplitAt(data, 0, p6, EncodeU16(CountField(b)));
    SplitAt(data, 0, p5, EncodeU16(0));
    SplitAt(data, 0, p4, EncodeTimes(b));
    SplitAt(data, 0, p3, EncodeU32(b.timescale));
    SplitAt(data, 0, p2, EncodeU32(b.referenceId));
    SplitAt(data, 0, p1, EncodeU24(0));
    SplitAt(data, 0, header, [b.version]);
  }

  /** The fixed part of the encoding reads back as the header and the wire
      image of the fixed fields, with the count field. */
  lemma ReadEncodedPrefix(data: seq<u8>, b: SidxBox)
    requires Size(b) <= MAX_U32 && IsAt(data, 0, EncodePrefix(b))
    ensures ReadHeader(data, 0) == Success(BoxHeader(SidxType, Size(b)))
    ensures ReadFields(data, HEADER_SIZE) == Success((WireImage(b).(references := []), CountField(b)))
  {
    PrefixLayout(data, b);
    ReadEncodedHeader(data, 0, BoxHeader(SidxType, Size(b)));
    ReadEncodedU24(data, 9, 0);
    ReadEncodedU32(data, 12, b.referenceId);
    ReadEncodedU32(data, 16, b.timescale);
    ReadEncodedTimes(data, 20, b);
    ReadEncodedU16(data, 20 + 2 * TimeWidth(b.version), 0);
    ReadEncodedU16(data, 22 + 2 * TimeWidth(b.version), CountField(b));
  }

  /** Bytes laid out as `write_box` lays them out decode to the wire image. */
  lemma DecodeLayout(data: seq<u8>, b: SidxBox)
    requires Size(b) <= MAX_U32 && IsAt(data, 0, EncodePrefix(b))
    requires IsAt(data, 24 + 2 * TimeWidth(b.version), EncodeReferences(b.references))
    ensures Decode(data) == Success(WireImage(b))
  {
    var count := CountField(b) as nat;
    var pos := 24 + 2 * TimeWidth(b.version);
    ReadEncodedPrefix(data, b);
    EncodeReferencesSplit(b.references, count);
    SplitAt(data, pos, EncodeReferences(b.references[..count]), EncodeReferences(b.references[count..]));
    ReadEncodedReferences(data, pos, b.references[..count]);
    ReadBodyParts(data, HEADER_SIZE, Size(b), WireImage(b).(references := []), count);
  }

  /** Decoding what `write_box` emits gives back its wire image. */
  lemma DecodeEncode(b: SidxBox)
    requires Size(b) <= MAX_U32
    ensures Decode(Encode(b)) == Success(WireImage(b))
  {
    ConcatAt(EncodePrefix(b), EncodeReferences(b.references));
    DecodeLayout(Encode(b), b);
  }

  /** A box that survives a write and a read unchanged: flags 0, fewer than
      2^16 records, times within 32 bits unless version 1, every record
      within its bit-field widths. */
  predicate Representable(b: SidxBox) {
    && b.flags == 0
    && |b.references| < 0x1_0000
    && (b.version != 1 ==> b.earliestPresentationTime < 0x1_0000_0000 && b.firstOffset < 0x1_0000_0000)
    && forall i :: 0 <= i < |b.references| ==> ReferenceFits(b.references[i])
  }

  lemma WireImageFixed(b: SidxBox)
    ensures WireImage(b) == b <==> Representable(b)
  {
    var count := CountField(b) as nat;
    if WireImage(b) == b {
      assert |b.references| == count;
      assert b.references[..count] == b.references;
      NormalizeAllFixed(b.references);
    }
    if Representable(b) {
      assert b.references[..count] == b.references;
      NormalizeAllFixed(b.references);
    }
  }

  /** `Decode(Encode(b)) == b` exactly for the representable boxes. */
  lemma RoundTrip(b: SidxBox)
    requires Size(b) <= MAX_U32
    ensures Decode(Encode(b)) == Success(b) <==> Representable(b)
  {
    DecodeEncode(b);
    WireImageFixed(b);
  }

  /** Writing 2^16 records emits all of them but a count field of 0, so
      nothing of them is read back. */
  lemma CountWraps(b: SidxBox)
    requires Size(b) <= MAX_U32 && |b.references| == 0x1_0000
    ensures |Encode(b)| == Size(b)
    ensures Decode(Encode(b)).Success? && Decode(Encode(b)).value.references == []
  {
    DecodeEncode(b);
  }

  lemma EncodeNormalizedReference(r: SidxReference)
    ensures EncodeReference(NormalizeReference(r)) == EncodeReference(r)
  {
    assert PackWord1(r.referenceType % 2, r.referencedSize % BIT31) == PackWord1(r.referenceType, r.referencedSize);
    var s := BitOr(r.startsWithSap % 2, (r.sapType / 8) % 2);
    assert BitOr(s % 2, 0) == s;
    assert PackWord3(s, r.sapType % 8, r.sapDeltaTime % BIT28) == PackWord3(r.startsWithSap, r.sapType, r.sapDeltaTime);
  }

  lemma {:induction false} EncodeNormalizedReferences(refs: seq<SidxReference>)
    ensures EncodeReferences(NormalizeAll(refs)) == EncodeReferences(refs)
  {
    if refs != [] {
      EncodeNormalizedReference(refs[0]);
      EncodeNormalizedReferences(refs[1..]);
      assert NormalizeAll(refs)[1..] == NormalizeAll(refs[1..]);
    }
  }

  /** Re-encoding what was read reproduces the bytes: the wire image encodes
      exactly as the box it came from, as long as no record was dropped. */
  lemma EncodeWireImage(b: SidxBox)
    requires Size(b) <= MAX_U32 && |b.references| < 0x1_0000
    ensures Size(WireImage(b)) == Size(b)
    ensures Encode(WireImage(b)) == Encode(b)
  {
    assert b.references[..CountField(b)] == b.references;
    EncodeNormalizedReferences(b.references);
    EncodeWireTimes(b);
  }

  lemma EncodeWireTimes(b: SidxBox)
    ensures EncodeTimes(WireImage(b)) == EncodeTimes(b)
  {
    if b.version != 1 {
      var ept, offset := b.earliestPresentationTime, b.firstOffset;
      assert Low32(WireTime(0, ept)) == Low32(ept);
      assert Low32(WireTime(0, offset)) == Low32(offset);
    }
  }

  // ---------------------------------------------------------------------
  // The 44-byte box of the crate's own read/write test

  /** The box header: size 44, tag `sidx`. */
  const SAMPLE_HEADER: seq<u8> := [0x00, 0x00, 0x00, 0x2c, 0x73, 0x69, 0x64, 0x78]

  /** Version 0, flags 0, reference id 1, timescale 1000, times 0 and 100,
      reserved 0, one record. */
  const SAMPLE_FIELDS: seq<u8> := [
    0x00, 0x00, 0x00, 0x00,
    0x00, 0x00, 0x00, 0x01,
    0x00, 0x00, 0x03, 0xe8,
    0x00, 0x00, 0x00, 0x00,
    0x00, 0x00, 0x00, 0x64,
    0x00, 0x00, 0x00, 0x01]

  /** Reference type 1 and size 50, duration 1000, no SAP. */
  const SAMPLE_RECORD: seq<u8> := [
    0x80, 0x00, 0x00, 0x32,
    0x00, 0x00, 0x03, 0xe8,
    0x00, 0x00, 0x00, 0x00]

  const SAMPLE_BYTES: seq<u8> := SAMPLE_HEADER + SAMPLE_FIELDS + SAMPLE_RECORD

  const SAMPLE_BOX: SidxBox :=
    SidxBox(0, 0, 1, 1000, 0, 100, [SidxReference(1, 50, 1000, 0, 0, 0)])

  lemma SampleHeader()
    ensures EncodeHeader(BoxHeader(SidxType, 44)) == SAMPLE_HEADER
  {
    assert EncodeU32(44) == [0x00, 0x00, 0x00, 0x2c];
    assert EncodeU32(SIDX_CODE) == [0x73, 0x69, 0x64, 0x78];
  }

  lemma SampleFields()
    ensures [SAMPLE_BOX.version] + EncodeU24(0) + EncodeU32(1) + EncodeU32(1000) + EncodeTimes(SAMPLE_BOX)
      + EncodeU16(0) + EncodeU16(1) == SAMPLE_FIELDS
  {
    assert EncodeU24(0) == [0x00, 0x00, 0x00];
    assert EncodeU32(1) == [0x00, 0x00, 0x00, 0x01];
    assert EncodeU32(1000) == [0x00, 0x00, 0x03, 0xe8];
    assert EncodeU32(0) == [0x00, 0x00, 0x00, 0x00];
    assert EncodeU32(100) == [0x00, 0x00, 0x00, 0x64];
    assert EncodeU16(0) == [0x00, 0x00];
    assert EncodeU16(1) == [0x00, 0x01];
    assert EncodeTimes(SAMPLE_BOX) == EncodeU32(0) + EncodeU32(100);
  }

  lemma SampleRecord()
    ensures EncodeReferences(SAMPLE_BOX.references) == SAMPLE_RECORD
  {
    var r := SAMPLE_BOX.references[0];
    assert EncodeReferences(SAMPLE_BOX.references) == EncodeReference(r) + EncodeReferences([]);
    assert EncodeU32(0x8000_0032) == [0x80, 0x00, 0x00, 0x32];
    assert EncodeU32(1000) == [0x00, 0x00, 0x03, 0xe8];
    assert EncodeU32(0) == [0x00, 0x00, 0x00, 0x00];
  }

  lemma SampleEncodes()
    ensures Size(SAMPLE_BOX) == 44
    ensures Encode(SAMPLE_BOX) == SAMPLE_BYTES
  {
    SampleHeader();
    SampleFields();
    SampleRecord();
    AppendAssoc(EncodeHeader(BoxHeader(SidxType, 44)), [SAMPLE_BOX.version], EncodeU24(0));
    assert EncodePrefix(SAMPLE_BOX) == EncodeHeader(BoxHeader(SidxType, 44))
      + ([SAMPLE_BOX.version] + EncodeU24(0) + EncodeU32(1) + EncodeU32(1000) + EncodeTimes(SAMPLE_BOX)
         + EncodeU16(0) + EncodeU16(1));
  }

  /** The sample decodes to version 0, reference id 1, timescale 1000, times 0
      and 100 and one record of 50 bytes; writing that box reproduces the 44
      bytes and reports size 44. */
  lemma SampleRoundTrip()
    ensures Decode(SAMPLE_BYTES) == Success(SAMPLE_BOX)
    ensures Size(SAMPLE_BOX) == |SAMPLE_BYTES|
    ensures Encode(SAMPLE_BOX) == SAMPLE_BYTES
  {
    SampleEncodes();
    assert Representable(SAMPLE_BOX);
    RoundTrip(SAMPLE_BOX);
  }
}
