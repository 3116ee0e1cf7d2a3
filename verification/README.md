# OMD activity-log decoder, modelled in Dafny

This project models the core of `OMD_to_GPX.py`, which converts the `.OMD`
activity log of an OnMove 200 GPS watch into a GPX track. The core is:

- the binary record decoder (`Record._from_byte`, `Record.__init__`);
- the 60-byte chunk loop of `Records._file_to_records`;
- the timeline back-computation that follows it: the start date and
  `Record.set_date`.

The log has no header. It is read 60 bytes at a time. A full chunk holds two
records, stored as two 20-byte coordinate blocks followed by two 10-byte
telemetry blocks. A shorter final chunk holds one record, stored as one
coordinate block followed by one telemetry block. Every field is read as an
unsigned little-endian integer at a fixed offset:

- coordinate block: latitude at [0,4), longitude at [4,8), distance at [8,12), elapsed seconds `tps` at [12,14);
- telemetry block: speed `vit` at [2,4), calories at [4,6), heart rate as the single byte at index 6.

The device stores no absolute time per record. The program takes the log
file's modification time as the end of the activity. It sets the start to that
end minus the last record's `tps`, then dates each record at start plus its own
`tps`.

Modules, one per concept:

- `Results` (`results.dfy`): `Option` and `Result`.
- `Bytes` (`bytes.dfy`): bytes, `int.from_bytes(..., 'little')`, its inverse, and Python's clamped slicing.
- `OmdRecord` (`record.dfy`): the `Record` datatype, field decoding, `set_date`, and the zero-filled block encoding the decoder inverts.
- `OmdChunks` (`chunks.dfy`): the chunk loop as a recursive function, and beside it a two-layer reference description: `LogBlocks` (which byte ranges form each record's coordinate and telemetry blocks) and `DecodeBlocks` (one record per block pair). The loop is proved equal to the reference. Lemmas cover record count, order and offsets, and the encode/decode round trip of a whole log.
- `Timeline` (`timeline.dfy`): the `Track` (the program's `Records` object), start-date computation and stamping, and the program's two loops as methods proved equal to the functional definitions.

Modelling choices:

- Bytes are integers in 0..255.
- Dates are whole seconds on an abstract epoch. No calendar is modelled.
- Latitude, longitude and speed stay raw integers. `DegreeScale` (10^6) and
  `SpeedScale` (100) are the divisors the program applies.
- All fields are read unsigned, as `int.from_bytes` does by default. A
  latitude or longitude west or south of zero, if the device stores it in
  two's complement, therefore decodes as the stored value plus 2^32. The model
  keeps this behaviour.
- Both failure modes are an `IndexError` in the program:
  - `TelemetryTooShort`: the telemetry block of a short final chunk has no byte at index 6.
  - `NoRecords`: an empty log leaves `records_list[-1]` without an element.
- Where the program's comments and its code disagree, the model follows the code:
  - The comment at `OMD_to_GPX.py:54` says the last chunk "may contain only 40 bytes". The code slices with clamping and only indexes `kpi[6]`, so it accepts any final chunk of 27 to 59 bytes and fails only below 27. `DecodableLength` and `RecordCount` state the code's rule: count = 2·⌊n/60⌋ + (1 if n mod 60 ≠ 0).
- The end of the activity comes from the `.OMD` file's modification time (`OMD_to_GPX.py:42`), which is a parameter here. The program never reads the companion `.OMH` summary file; it only deletes it after export (`OMD_to_GPX.py:117-119`).

## Model

| member | source | states |
|---|---|---|
| Bytes.FromLittleEndian | OMD_to_GPX.py:29-31 | `_from_byte` of an n-byte slice is an unsigned value in [0, 256^n) |
| Bytes.FromLittleEndianIsPositionalSum | OMD_to_GPX.py:29-31 | the value read is exactly the positional sum Σ s[i]·256^i, least significant byte first |
| Bytes.FromLittleEndianConcat | OMD_to_GPX.py:29-31 | a concatenation reads as the low part plus the high part shifted by 256^(low width) |
| Bytes.DecodeEncode | OMD_to_GPX.py:29-31 | reading back the n-byte little-endian encoding of any v < 256^n gives v |
| Bytes.EncodeDecode | OMD_to_GPX.py:29-31 | re-encoding a read value at the same width gives the original bytes, so the read is injective per width |
| Bytes.Slice | OMD_to_GPX.py:52-55 | a Python slice is clamped to the buffer: its length is what remains of [lo,hi) and element k is s[lo+k] |
| OmdRecord.ReadUnsigned | OMD_to_GPX.py:17-23 | a field read through a clamped slice is below 256^width and, when the block is long enough, equals the little-endian value of exactly those bytes |
| OmdRecord.DecodeRecord | OMD_to_GPX.py:16-24 | a record is built exactly when the telemetry block has a byte at index 6, otherwise the error names the block's length; the record's fields fit their stored widths, the heart rate is telemetry byte 6, and the new record has no date |
| OmdRecord.DecodeRecordFields | OMD_to_GPX.py:17-24 | lat, lon, dist are the little-endian values of coordinate bytes [0,4), [4,8), [8,12), tps of [12,14); speed and calories of telemetry bytes [2,4) and [4,6); heart rate is telemetry byte 6 |
| OmdRecord.DecodeEncodeRecord | OMD_to_GPX.py:16-24 | every in-range record written as a coordinate and a telemetry block decodes back to itself |
| OmdRecord.DecodeIgnoresUnreadBytes | OMD_to_GPX.py:16-24 | the decoder reads only the field bytes: whatever fills coordinate bytes [14,20) and telemetry bytes [0,2) and [7,10), a record's blocks decode back to that record |
| OmdRecord.SetDate | OMD_to_GPX.py:26-27 | stamping keeps every measurement and dates the record exactly tps seconds after the start |
| OmdChunks.ChunkCountClosedForm | OMD_to_GPX.py:49-56 | n bytes decode exactly when n mod 60 is 0 or at least 27, into 2·⌊n/60⌋ + (1 if n mod 60 ≠ 0) records |
| OmdChunks.LogBlocks | OMD_to_GPX.py:49-56 | the chunk layout gives one block pair per record: two per 60-byte chunk and one for a partial final chunk |
| OmdChunks.DecodeBlocks | OMD_to_GPX.py:52-55 | decoding block pairs succeeds exactly when every telemetry block reaches byte 6, and then record i is the record built from pair i |
| OmdChunks.DecodeBlocksConcat | OMD_to_GPX.py:50-56 | appending records chunk after chunk is decoding the concatenated pairs; a later failure discards what was decoded |
| OmdChunks.DecodeChunk | OMD_to_GPX.py:51-55 | a 60-byte chunk always gives two records, the first from bytes [0,20) with [40,50) and the second from [20,40) with [50,60); a shorter chunk gives one record from [0,20) with what it holds of [20,30) when it has at least 27 bytes, and otherwise fails naming the telemetry length |
| OmdChunks.LogBlocksDecodable | OMD_to_GPX.py:51-55 | every telemetry block of a log reaches its heart-rate byte exactly when the log length is decodable |
| OmdChunks.DecodeLog | OMD_to_GPX.py:46-56 | a buffer decodes exactly when, after its full 60-byte chunks, nothing or at least 27 bytes remain (`DecodableLength`); it then yields two records per full chunk and one for the remainder (`RecordCount`), and otherwise fails on a too-short telemetry block |
| OmdChunks.DecodeLogIsBlockwise | OMD_to_GPX.py:49-56 | the chunk loop computes exactly the block-wise decoding of the log's pairs |
| OmdChunks.DecodedRecordsUndated | OMD_to_GPX.py:16-24 | every decoded record fits its field widths and has no date before stamping |
| OmdChunks.FullChunkBlocks | OMD_to_GPX.py:51-53 | full chunk k holds the blocks of records 2k and 2k+1 at [60k,60k+20) with [60k+40,60k+50) and [60k+20,60k+40) with [60k+50,60k+60) |
| OmdChunks.FinalChunkBlocks | OMD_to_GPX.py:54-55 | when the buffer ends inside chunk k, the last pair is bytes [60k,60k+20) and [60k+20,60k+30), clamped |
| OmdChunks.FullChunkRecords | OMD_to_GPX.py:51-53 | record 2k of a decoded log comes from bytes [60k,60k+20) with [60k+40,60k+50) and record 2k+1 from [60k+20,60k+40) with [60k+50,60k+60) |
| OmdChunks.FinalChunkRecord | OMD_to_GPX.py:54-55 | a trailing partial chunk at 60k of a decoded log is at least 27 bytes long and its record comes from bytes [60k,60k+20) with what the buffer holds of [60k+20,60k+30) |
| OmdChunks.EncodeLogBlocks | OMD_to_GPX.py:49-56 | the zero-filled encoding (60-byte pairs, a 40-byte zero-padded final chunk) is read back as exactly the written blocks, one pair per record, in order |
| OmdChunks.DecodeEncodeLog | OMD_to_GPX.py:49-56 | the zero-filled encoding of a log decodes back to the same records in the same order |
| Timeline.StartDate | OMD_to_GPX.py:58 | the start date plus the last record's elapsed seconds is the anchor end date |
| Timeline.StampAll | OMD_to_GPX.py:59-60 | after stamping, each record keeps its measurements and is dated start + its own tps; the count is unchanged |
| Timeline.AnchorTrack | OMD_to_GPX.py:58-61 | no records fails with NoRecords; otherwise the track keeps the records' measurements and count, dates each at start + tps and the last at the anchor |
| Timeline.BuildTrack | OMD_to_GPX.py:46-61 | an empty log fails with NoRecords, a log whose final chunk is under 27 bytes fails with TelemetryTooShort, and any other log gives RecordCount(n) = 2·⌊n/60⌋ + (1 if n mod 60 ≠ 0) records that differ from the decoded ones only in their dates, each dated start + tps, with the last dated at the anchor |
| Timeline.StampAllConcat | OMD_to_GPX.py:59-60 | stamping a concatenation is stamping each part, so the result does not depend on the order of stamping |
| Timeline.RestampReplaces | OMD_to_GPX.py:26-27 | stamping again replaces every date and keeps nothing of the earlier start; stamping twice with one start is stamping once |
| Timeline.StartRecoverableFromAnyRecord | OMD_to_GPX.py:58-60 | every record's date minus its own tps is the same start, namely the anchor minus the last record's tps |
| Timeline.DatesWithinActivity | OMD_to_GPX.py:58-60 | when elapsed seconds never decrease in file order, the dates never decrease and all lie between the start and the anchor |
| Timeline.WrittenLogLoads | OMD_to_GPX.py:46-61 | the zero-filled encoding of a non-empty run of undated records loads as exactly those records, stamped from the anchor minus the last record's tps |
| Timeline.TwoRecordLog | OMD_to_GPX.py:51-60 | a single 60-byte chunk with elapsed seconds 0 and 10 gives records dated 10 seconds before the anchor and at the anchor |
| Timeline.ReadRecords | OMD_to_GPX.py:47-56 | the program's read-60-bytes loop computes exactly the chunk-by-chunk decoding, including its error |
| Timeline.StampRecords | OMD_to_GPX.py:59-60 | the program's record-by-record stamping loop computes exactly the element-wise stamping |
| Timeline.LoadTrack | OMD_to_GPX.py:46-61 | the program's loops, start-date computation and empty-list failure together compute exactly BuildTrack |

## Left out

- Directory picker (`choose_dir`, tkinter) and the `main` loop's walking, `.OMD` filtering and the `os.remove` of each exported `.OMD` file and its `.OMH` companion: user interface and file-system I/O.
- File reading and the modification-time lookup: the model takes the byte buffer and the anchor seconds as inputs. Sub-second parts of the modification time and the conversion to local time are not modelled.
- Python `datetime` range limits: computing the start (`OMD_to_GPX.py:58`) or any record's date (`OMD_to_GPX.py:27`) may raise `OverflowError` near year 1 or year 9999. Dates here are unbounded integers.
- GPX construction with `xml.etree.ElementTree` and its `strftime` date formatting, and the `OnMove200_<date>` output file name: a library wrapper, and both need a calendar.
- CSV export via pandas: a foreign library.
- Float division of latitude, longitude and speed by their scales: values stay raw integers, with the scales given as `DegreeScale` and `SpeedScale`.
- OmdChunks.DecodeEncodeLog, OmdChunks.EncodeLogBlocks and Timeline.WrittenLogLoads: the whole-log round trip is stated only for the zero-filled encoding, in which coordinate bytes [14,20), telemetry bytes [0,2) and [7,10) and the padding [30,40) of a 40-byte final chunk are zero. The program promises nothing about those bytes, and the commented-out altitude at `OMD_to_GPX.py:21` sits in coordinate bytes 15-17. Per record, `OmdRecord.DecodeIgnoresUnreadBytes` covers arbitrary unread bytes; the log-level lemmas do not.
- The commented-out altitude field and the `ele` branch that can never run, because no record has an `alt` attribute.
