# mp4 `sidx` and `mvex` box codecs in Dafny

This project models two box codecs of the Rust `mp4` crate. It also proves what they do with bytes. Both codecs work on boxes of the ISO base media file format (ISO/IEC 14496-12).

- **Segment Index box `sidx`** (section 8.16.3 of ISO/IEC 14496-12). This is a leaf box. Its payload is:
  - a version byte and 24 flag bits;
  - `reference_id` and `timescale`;
  - `earliest_presentation_time` and `first_offset`, 64 bits wide in version 1 and 32 bits wide otherwise;
  - a reserved 16-bit word and a 16-bit `reference_count`;
  - that many 12-byte reference records, each packing 1 + 31 bits, 32 bits and 1 + 3 + 28 bits into big-endian words.
- **Movie Extends box `mvex`** (section 8.8.1 of ISO/IEC 14496-12). This is a container box. It holds an optional `mehd` child and a list of `trex` children. Its size is 8 bytes for its own header plus the sum of its children's sizes. Its reader walks the child headers until the box's declared end:
  - a `mehd` child replaces the slot;
  - a `trex` child is appended;
  - a child of any other type is skipped;
  - a child header declaring more than the mvex box's size is rejected;
  - a box without any `trex` child is rejected.

The project has three modules:

- `Mp4Box` (`mp4box.dfy`) holds the shared framing:
  - the `Result`/`Error` type of the crate, and box types as 32-bit codes;
  - big-endian 16/24/32/64-bit integers over a byte sequence read at a cursor;
  - the 8-byte box header (a 32-bit size, then a 4-character tag).
- `Sidx` (`sidx.dfy`) models `src/mp4box/sidx.rs`.
- `Mvex` (`mvex.dfy`) models `src/mp4box/mvex.rs`.

Each codec comes in two forms:

- Pure functions: `Size`, `Encode`, and `ReadBody`/`Decode`. The properties are proved about these.
- Methods shaped like the source. `WriteBox` emits the bytes in the same order through a loop over the references or the `trex` children. `ReadBox` advances a cursor through the same reads, with a loop over the records or the child headers. Each method's postcondition ties its result to the pure function.

Stream I/O becomes a byte sequence plus an integer cursor. A read past the end of the bytes fails with `UnexpectedEof`. A writer returns the bytes it emitted.

## Model

| member | source | states |
|---|---|---|
| Sidx.Size | src/mp4box/sidx.rs:32-36 | The box size is the 8-byte header, 16 bytes of fixed fields, the two times at their version's width, and 12 bytes per reference. |
| Sidx.SizeByVersion | src/mp4box/sidx.rs:32-36 | The box size is 40 + 12·n bytes in version 1 and 32 + 12·n bytes otherwise, where n is the number of references. |
| Sidx.PackWord1 | src/mp4box/sidx.rs:145-146 | Bit 31 of word 1 holds the lowest bit of reference_type. The low 31 bits hold referenced_size modulo 2^31. |
| Sidx.UnpackWord1 | src/mp4box/sidx.rs:85-87 | Unpacking word 1 gives a reference_type of 0 or 1 and a referenced_size below 2^31. |
| Sidx.PackWord3 | src/mp4box/sidx.rs:151-153 | Bit 31 of word 3 is starts_with_sap's lowest bit ORed with bit 3 of sap_type. Bits 28-30 hold sap_type modulo 8. The low 28 bits hold sap_delta_time modulo 2^28. |
| Sidx.UnpackWord3 | src/mp4box/sidx.rs:91-94 | Unpacking word 3 gives starts_with_sap of 0 or 1, sap_type at most 7 and sap_delta_time below 2^28. |
| Sidx.UnpackWord1Lossless | src/mp4box/sidx.rs:85-87 | Unpacking word 1 gives a reference_type of 0 or 1 and a referenced_size below 2^31. Packing those back gives the same word. |
| Sidx.UnpackWord3Lossless | src/mp4box/sidx.rs:91-94 | Unpacking word 3 gives starts_with_sap of 0 or 1, sap_type at most 7 and sap_delta_time below 2^28. Packing those back gives the same word. |
| Sidx.Word1Fields | src/mp4box/sidx.rs:145-146 | Packing then unpacking word 1 keeps the lowest bit of reference_type and referenced_size modulo 2^31. That is all the two masks keep. |
| Sidx.Word3Fields | src/mp4box/sidx.rs:151-153 | Packing then unpacking word 3 gives starts_with_sap modulo 2 ORed with bit 3 of sap_type, sap_type modulo 8, and sap_delta_time modulo 2^28. |
| Sidx.Word1RoundTrip | src/mp4box/sidx.rs:145-146 | When reference_type ≤ 1 and referenced_size < 2^31, packing then unpacking word 1 returns them unchanged. |
| Sidx.Word3RoundTrip | src/mp4box/sidx.rs:151-153 | When starts_with_sap ≤ 1, sap_type ≤ 7 and sap_delta_time < 2^28, packing then unpacking word 3 returns them unchanged. |
| Sidx.SapTypeSpillsIntoFlag | src/mp4box/sidx.rs:152 | A sap_type of 8 is not masked. It lands in bit 31, so it reads back as starts_with_sap 1 and sap_type 0. |
| Sidx.NormalizeReferenceFixed | src/mp4box/sidx.rs:144-155 | What a record keeps through the wire always fits the field widths. A record is unchanged by it exactly when it already fits them. |
| Sidx.NormalizeAllFixed | src/mp4box/sidx.rs:144-155 | A record list is unchanged by the wire exactly when every record fits the field widths. |
| Sidx.EncodeReference | src/mp4box/sidx.rs:145-154 | One record is written as three 32-bit words, 12 bytes. |
| Sidx.EncodeReferences | src/mp4box/sidx.rs:144-155 | The records are emitted as 12 bytes each. |
| Sidx.EncodeReferencesAppend | src/mp4box/sidx.rs:144-155 | The records are emitted one after another in list order. |
| Sidx.CountField | src/mp4box/sidx.rs:141 | The count written is `len as u16`. It never exceeds the number of records, and it equals that number exactly when there are fewer than 2^16 records. |
| Sidx.EncodeTimes | src/mp4box/sidx.rs:131-137 | The two times take 8 bytes each in version 1 and 4 bytes each otherwise. |
| Sidx.EncodePrefix | src/mp4box/sidx.rs:122-142 | Everything before the records is 32 bytes including the 8-byte header, plus 8 more in version 1. |
| Sidx.Encode | src/mp4box/sidx.rs:121-157 | The bytes written number exactly the box size. |
| Sidx.WireTime | src/mp4box/sidx.rs:135-136 | In any version other than 1, a time is cut to its low 32 bits. It survives unchanged exactly when the version is 1 or it is below 2^32. |
| Sidx.WriteBox | src/mp4box/sidx.rs:121-157 | The method loops over the references and emits exactly the bytes of Encode. It returns the box size. |
| Sidx.ReadVersioned | src/mp4box/sidx.rs:67-77 | A time is read as 8 bytes in version 1 and as 4 bytes otherwise. It fails exactly when those bytes are missing. When the version is not 1, the value is below 2^32. |
| Sidx.UnpackReference | src/mp4box/sidx.rs:85-103 | Every record built from three words fits the field widths. |
| Sidx.ReadReference | src/mp4box/sidx.rs:85-103 | A record is read from 12 bytes. It fails exactly when those bytes are missing, and it always fits the field widths. |
| Sidx.ReadReferences | src/mp4box/sidx.rs:81-104 | Exactly `reference_count` records are read. The read fails exactly when their bytes are missing. |
| Sidx.ReadFields | src/mp4box/sidx.rs:61-81 | The fields before the records are read with no records yet, and the flags read fit their 24 bits. |
| Sidx.ReadFieldsExtent | src/mp4box/sidx.rs:61-81 | The fields before the records are read exactly when the data holds all of them: 16 bytes plus both times at the width selected by the version byte at the cursor. The version is that byte, and the count is the 16-bit word that ends the fields. |
| Sidx.ReadBody | src/mp4box/sidx.rs:57-117 | A successful read leaves the cursor at the box's declared end, whatever it consumed. |
| Sidx.Decode | src/mp4box/sidx.rs:57-117 | A whole box at the start of the bytes decodes only if its header reads. The decoded flags fit 24 bits, and there are fewer than 2^16 references, because the count field is 16 bits wide. |
| Sidx.ReadReferenceLoop | src/mp4box/sidx.rs:84-104 | The `for` loop over `reference_count` returns exactly what ReadReferences specifies. |
| Sidx.ReadFixedFields | src/mp4box/sidx.rs:59-81 | The sequential reads before the loop return exactly what ReadFields specifies. |
| Sidx.ReadBox | src/mp4box/sidx.rs:57-117 | The method returns exactly ReadBody: the same box, the same error and the same final cursor. |
| Sidx.ReadReferencesFit | src/mp4box/sidx.rs:84-104 | Every record read fits the field widths. |
| Sidx.ReadBodyShape | src/mp4box/sidx.rs:57-117 | After a successful read, the flags are below 2^24, the number of records equals the count field on the wire, and every record fits the field widths. |
| Sidx.ReadEncodedReference | src/mp4box/sidx.rs:85-103 | Reading a written record gives back the record with its fields cut to their widths. |
| Sidx.ReadEncodedReferences | src/mp4box/sidx.rs:84-104 | Reading written records gives back every record with its fields cut to their widths. |
| Sidx.DecodeEncode | src/mp4box/sidx.rs:57-157 | Decoding the bytes written gives what survives the wire. The flags become 0. In any version other than 1, the times keep their low 32 bits. The count is cut to 16 bits. Each record's fields are cut to their widths. |
| Sidx.WireImageFixed | src/mp4box/sidx.rs:121-157 | A box survives the wire unchanged exactly when it is representable. That means flags 0, fewer than 2^16 records, times below 2^32 in any version other than 1, and every record within the field widths. |
| Sidx.RoundTrip | src/mp4box/sidx.rs:57-157 | `Decode(Encode(b)) == b` holds exactly for the representable boxes. |
| Sidx.CountWraps | src/mp4box/sidx.rs:141-155 | Writing 2^16 records emits all of them but writes a count of 0, so reading back gives no records. |
| Sidx.EncodeNormalizedReference | src/mp4box/sidx.rs:145-153 | A record and what the wire keeps of it are written identically. |
| Sidx.EncodeWireImage | src/mp4box/sidx.rs:121-157 | With fewer than 2^16 records, writing a decoded box writes the original bytes again. Writing is idempotent through a round trip. |
| Sidx.SampleRoundTrip | src/mp4box/sidx.rs:167-199 | Decoding the 44-byte sample gives version 0, reference_id 1, timescale 1000, time 0, first_offset 100 and one record with referenced_size 50. Its size is 44, and writing it reproduces the same 44 bytes. |
| Mvex.Size | src/mp4box/mvex.rs:18-22 | The box size is at least the 8-byte header. |
| Mvex.SizeAddTrex | src/mp4box/mvex.rs:18-22 | The size is additive: one more `trex` child adds exactly its size. |
| Mvex.ChildrenWithin | src/mp4box/mvex.rs:18-22 | No child is larger than the mvex box. So every child of a written box passes the reader's size check. |
| Mvex.EncodeChild | src/mp4box/mvex.rs:94-99 | A child is written as its header and its payload, exactly its size in bytes. |
| Mvex.EncodeTrex | src/mp4box/mvex.rs:97-99 | The `trex` children take exactly the sum of their sizes. |
| Mvex.EncodeTrexAppend | src/mp4box/mvex.rs:97-99 | The `trex` children are written one after another in list order. |
| Mvex.Encode | src/mp4box/mvex.rs:90-101 | The bytes written number exactly the box size. |
| Mvex.WriteBox | src/mp4box/mvex.rs:90-101 | The method writes the header, then `mehd` if present, then each `trex` in a loop. It returns exactly the bytes of Encode and the box size. |
| Mvex.ReadChild | src/mp4box/mvex.rs:64-69 | A known child is read from its declared extent. It fails exactly when that extent runs past the bytes, and the child read has the declared size. |
| Mvex.NextChildCases | src/mp4box/mvex.rs:55-74 | One loop turn succeeds exactly when the header is read, it declares no more than the mvex box's size, and a `mehd` or `trex` child is present in full. An oversized header fails with InvalidData. The child's kind follows its tag, and the child advances the cursor by its declared size. |
| Mvex.NextChild | src/mp4box/mvex.rs:55-74 | A child the loop gets past is at least a header long and no larger than the mvex box. So each turn advances the cursor and cannot step over more than the box. |
| Mvex.ReadNextChild | src/mp4box/mvex.rs:55-74 | The loop body reads the header, checks its size against the box, then reads or skips the child. It returns exactly what NextChild specifies. |
| Mvex.AbsorbUpdates | src/mp4box/mvex.rs:63-74 | One child's effect on the loop's state: a `mehd` child fills the slot. A `trex` child is appended after the children gathered so far, which stay in place. A child of any other type changes neither. |
| Mvex.ReadChildrenKeepsEarlier | src/mp4box/mvex.rs:53-77 | The loop only ever appends. The `trex` children gathered before any point stay, in place, at the front of the final list. |
| Mvex.ReadBody | src/mp4box/mvex.rs:44-86 | A successful read never returns an empty `trex` list, and it leaves the cursor at exactly start + size. |
| Mvex.Decode | src/mp4box/mvex.rs:44-86 | A successful decode never returns an empty `trex` list. |
| Mvex.ReadBox | src/mp4box/mvex.rs:44-86 | The `while current < end` loop returns exactly ReadBody: the same box, the same error and the same final cursor. |
| Mvex.ScanChildrenBounded | src/mp4box/mvex.rs:53-77 | Every child met is at least a header long and no larger than the mvex box. So each turn of the loop advances the cursor. |
| Mvex.LastMehdWins | src/mp4box/mvex.rs:64-66 | The last `mehd` child met fills the slot. With none, the slot stays empty. |
| Mvex.TrexOfMembers | src/mp4box/mvex.rs:67-73 | The `trex` list holds exactly the boxes of the `trex` children met. Skipped children contribute nothing. |
| Mvex.TrexOfAppend | src/mp4box/mvex.rs:67-69 | The `trex` children are gathered in the order they appear. |
| Mvex.ReadChildrenGathers | src/mp4box/mvex.rs:53-77 | The loop's final state summarises the children it met: the last `mehd`, every `trex` in order, skipped children ignored. It fails exactly where the scan of children fails. |
| Mvex.ReadBodyGathers | src/mp4box/mvex.rs:44-86 | `read_box` fails where the children fail, or with BoxNotFound(TrexBox) when no `trex` child was met. Otherwise it returns the last `mehd`, every `trex` in order, and the cursor at start + size. |
| Mvex.ReadEncodedTrex | src/mp4box/mvex.rs:97-99 | Reading back written `trex` children appends them in order and leaves the `mehd` slot alone. |
| Mvex.ReadEncodedChildren | src/mp4box/mvex.rs:94-99 | The loop over a written box's children gives back its `mehd` and its `trex` list. |
| Mvex.DecodeEncode | src/mp4box/mvex.rs:44-102 | Decoding the bytes written gives back the box when it has a `trex` child. Otherwise it fails with BoxNotFound(TrexBox). |
| Mvex.OversizedChildRejected | src/mp4box/mvex.rs:57-61 | A first child header declaring more than the mvex box's size makes the whole decode fail with InvalidData, before anything of that child is read. |
| Mvex.OversizedChildStopsLoop | src/mp4box/mvex.rs:53-61 | The same holds at any cursor the loop reaches. A header declaring more than the box's size ends the loop with InvalidData, whatever was gathered before it and whatever bytes follow it. |
| Mvex.ChildMayOverrunParent | src/mp4box/mvex.rs:57 | The check compares against the whole box size, not what is left. A 24-byte box whose second child declares 20 bytes, running 12 bytes past the box's end, is accepted. The cursor ends at the box's end. |
| Mp4Box.EncodeHeader | src/mp4box/mvex.rs:92 | A box header takes exactly 8 bytes on the wire. |
| Mp4Box.ReadEncodedHeader | src/mp4box/mvex.rs:92 | Reading a written header gives back that header, for any size from 8 to 2^32 - 1 and any tag that names its own box type. |
| Mp4Box.ReadHeader | src/mp4box/mvex.rs:55-56 | A header is read from 8 bytes. It fails with UnexpectedEof when they are missing. On success the declared size lies between 8 and 2^32 - 1. |
| Mp4Box.DecodeEncodeU24 | src/mp4box/sidx.rs:62 | A 24-bit value such as the flags reads back as written. |

## Left out

- Extended 64-bit box sizes (size field 1) and size 0 ("to the end of the file") are not modelled. A header is 8 bytes: a 32-bit size and a 4-character tag. Both special values are below 8, so `Mp4Box.ReadHeader` rejects them.
- `BoxHeader::read`, `skip_box`, `skip_bytes_to` and `box_start` are not part of this model. The header reader `Mp4Box.ReadHeader` rejects a declared size below 8 with `InvalidData`. This is an assumption about code outside the model, not a property of `mvex.rs`. The mvex loop moves its cursor to the child's start plus the child's declared size (`src/mp4box/mvex.rs:72`, `src/mp4box/mvex.rs:76`). If the crate's header reader returned a declared size of 0, the cursor would not advance, and the loop would read the same header forever. The model's loop ends only because of the assumed rejection. What the crate does with sizes 1 to 7 is not part of this model.
- Skipping becomes cursor assignment. The final `skip_bytes_to(start + size)` in both readers becomes "the cursor is start + size". A seek past the end of the data is not an error here.
- `MehdBox`, `TrexBox` and their own `read_box`/`write_box` are not part of this model. Each child is an opaque box holding its payload bytes, and its size is 8 plus the payload length.
- The box-type registry is a handful of 32-bit codes. Any other code is an unknown type.
- `to_json` and `summary` are diagnostics and are not modelled. `get_type` is modelled as the constant tag each `Encode` writes into the header (`SidxType`, `MvexType`).
- Stream I/O errors other than running out of bytes are not modelled.
- The crate's `read_u*`/`write_u*` calls become big-endian arithmetic on a byte sequence. The shifts and masks of the bit-fields become `%` and multiplication by powers of two.
- `Sidx.Decode` and `Mvex.Decode` do not check the tag of the outer header. The caller has already dispatched on it.
- `Sidx.Encode`, `Sidx.WriteBox`, `Mvex.Encode` and `Mvex.WriteBox` require the box size to fit the 32-bit header field. The crate would switch to a 64-bit header there, which is not modelled.
- `Sidx.ReadBox` keeps the source's sequential reads and its loop, split over two helper methods: `ReadFixedFields` for the reads before the loop and `ReadReferenceLoop` for the loop.
- `Mvex.ReadBox` keeps the source's `while` loop with its updates of `mehd`, `trex` and the cursor. The loop body up to the dispatch (header, size check, child read or skip) is the helper method `Mvex.ReadNextChild`. The dispatch's state update is the function `Absorb`, assigned to `mehd` and `trex` in one statement rather than written as a `match` inside the loop.
- The mvex size check follows the code: each child is compared with the whole mvex box's size, not with the bytes remaining in it. `Mvex.ChildMayOverrunParent` shows the consequence.
