# Quadstar `.sac` decoder, modelled in Dafny

This project models `process` from `src/quadstarfiles/sac.py`. That function decodes a Quadstar 32-bit
analog data file (`.sac`) into a list of cycles, each holding one scan per data-bearing entry of the
file's scan table, together with a metadata dictionary. The model takes the file's contents as an
immutable sequence of octets and decodes it with pure functions. Every `np.frombuffer` read that would
raise becomes an error value, so a parse either yields the whole tree or stops with the first error.

The decoding, as the code does it:

- **General header.** A packed 0x6e-octet record read at offset 0 (`general_header_dtype`). It holds the
  version, the measurement date, the NUL-padded `author` (0x0e to 0x63), `n_cycles` (i32 at 0x64),
  `n_scans` (i16 at 0x68) and `cycle_length` (i32 at 0x6a).
- **Base time.** A u32 of seconds at 0xc2 and a u16 of tenths of a millisecond at 0xc6.
- **Scan table.** `n_scans` 9-octet entries from 0xc8. Each entry has a type octet, an info position
  and a data position.
- **Anchor.** `_find_first_data_position` gives the data position of the first entry of type 0x11.
  Cycle `n`'s time offset is read at that position − 6 (u32) and − 2 (u16), shifted by
  `n * cycle_length`.
- **Scans.** For every cycle and every type-0x11 entry:
  - the 137-octet scan info is read at the entry's unshifted info position;
  - the range exponent is the i16 at data position + `n * cycle_length` + 4;
  - exactly `scan_width * values_per_mass` binary32 datapoints follow from + 6;
  - a datapoint above `10 ** exponent` becomes not-a-number.

Modules, one per concern:

| module | file | concern |
|---|---|---|
| `Wrappers` | wrappers.dfy | `Option`, `Result` |
| `Bytes` | bytes.dfy | octets, little-endian and two's-complement fields |
| `Float32` | float32.dfy | binary32 words decoded into exact reals (both zeros as 0), infinities and NaN |
| `Reader` | reader.dfy | bounded reads (`np.frombuffer`), NUL-trimmed text fields |
| `Layout` | layout.dfy | the three packed dtypes and their field offsets |
| `HeaderDecoder` | header.dfy | general header, version string, measurement date |
| `ScanTableDecoder` | scan_table.dfy | scan table, anchor search, the filter on type 0x11 |
| `ScanInfoDecoder` | scan_info.dfy | scan info record and mass axis |
| `Timestamps` | timestamps.dfy | cycle times in tenths of a millisecond |
| `DataPoints` | datapoints.dfy | full-scale range and saturation |
| `Sac` | sac.dfy | `process` itself |
| `SacProperties` | sac_properties.dfy | what a successful or failed `process` guarantees |

Where the module docstring of sac.py disagrees with its code, the model follows the code:

- The docstring puts `author` at 0x0f (sac.py:24). The packed dtype puts it at 0x0e, and
  `Layout.GeneralHeaderPacked` proves that offset.
- The docstring says scan info and data are read for entries whose type is *not* 0x11 (sac.py:38, 54).
  The code reads them only for entries whose type *is* 0x11.
- The docstring places the per-cycle time offset at `0xc2 + n * cycle_length` (sac.py:52-53). The code
  reads it 6 and 2 octets before the anchor's data position, shifted by `n * cycle_length`.

Other behaviour of the code that the model keeps:

- With no type-0x11 entry, `_find_first_data_position` returns `None`. `None - 0x0006` then raises as
  soon as a cycle is decoded. The model returns `NoDataScan` at that point, and succeeds when there
  are no cycles.
- `n_scans` is signed. A negative count makes `np.frombuffer` read entries up to the end of the file,
  and it fails when the remaining octets are not a whole number of entries (`Ragged`).
- `datetime(...)` raises on a date that does not exist. The model checks the date after the cycle
  loop, as the code does, and fails with `InvalidDate`.
- The datapoint count stored at the start of each data block is never read.

## Model

| member | source | states |
|---|---|---|
| Bytes.DecodeEncode | src/quadstarfiles/sac.py:139-152 | Storing an n-octet unsigned value least significant octet first and reading it back gives the value. |
| Bytes.EncodeDecode | src/quadstarfiles/sac.py:139-152 | Reading n octets as a little-endian value and storing it back in n octets gives the same octets. |
| Bytes.SignedRoundTrip | src/quadstarfiles/sac.py:139-152 | Two's-complement reading of an n-octet field followed by two's-complement storage gives back the raw unsigned value. |
| Bytes.ToSigned | src/quadstarfiles/sac.py:139-152 | The two's-complement reading of an n-octet value lies in the signed range and differs from the unsigned value by 0 or 256^n, which pins it. |
| Bytes.I16At | src/quadstarfiles/sac.py:139 | An `<i2` field is the `<u2` at the same place read as two's complement: in [-0x8000, 0x8000) and equal to the unsigned value or that value minus 0x10000. |
| Bytes.I32At | src/quadstarfiles/sac.py:140 | An `<i4` field is the `<u4` at the same place read as two's complement: in [-0x8000_0000, 0x8000_0000) and equal to the unsigned value or that value minus 2^32. |
| Bytes.U16AtIsLittleEndian | src/quadstarfiles/sac.py:275 | The `<u2` read at an offset is the little-endian value of the 2 octets there. |
| Bytes.U32AtIsLittleEndian | src/quadstarfiles/sac.py:272 | The `<u4` read at an offset is the little-endian value of the 4 octets there. |
| Bytes.I16FieldRoundTrip | src/quadstarfiles/sac.py:139-152 | An `<i2` field is determined by the value read from it: encoding the value gives back its 2 octets. |
| Bytes.I32FieldRoundTrip | src/quadstarfiles/sac.py:139-152 | An `<i4` field is determined by the value read from it: encoding the value gives back its 4 octets. |
| Bytes.ReadWithin | src/quadstarfiles/sac.py:204 | A `<u2`, `<i2`, `<u4` or `<i4` field read at an offset inside a stored run of octets equals the same field read from that run alone. |
| Reader.RecordCount | src/quadstarfiles/sac.py:239 | `np.frombuffer` with a count of fixed-size records. A non-negative count succeeds exactly when the records fit after a non-negative offset. A negative count reads to the end, and fails when the rest is not a whole number of records. Each failure names its offset and size. |
| Reader.ReadU16 | src/quadstarfiles/sac.py:275 | A `<u2` read succeeds exactly when 0 <= offset and offset + 2 <= length. It then yields the little-endian value there; otherwise it is a `Truncated` error at that offset. |
| Reader.ReadI16 | src/quadstarfiles/sac.py:304 | A `<i2` read succeeds exactly when the 2 octets lie in the buffer, and yields the signed value there. |
| Reader.ReadU32 | src/quadstarfiles/sac.py:272 | A `<u4` read succeeds exactly when the 4 octets lie in the buffer, and yields the little-endian value there. |
| Reader.ReadF32s | src/quadstarfiles/sac.py:308-310 | Reading `count` `<f4` values succeeds exactly when all 4·count octets lie in the buffer. It yields exactly `count` values, and value k is the word at offset + 4k. |
| Reader.ReadF32sLocal | src/quadstarfiles/sac.py:308-310 | The values read depend only on the octets they cover. |
| Reader.TrimNul | src/quadstarfiles/sac.py:149 | A fixed-width text field, as numpy hands it over, is a prefix of the stored octets, does not end in NUL, and drops only NULs. |
| Reader.TrimPad | src/quadstarfiles/sac.py:149 | A text that does not end in NUL survives NUL-padding to its field width and trimming. |
| Reader.PadTrim | src/quadstarfiles/sac.py:149 | Trimming loses nothing: padding the trimmed field back to its width gives the stored octets. |
| Reader.TextAtIsTrimNul | src/quadstarfiles/sac.py:165-169 | The positional text read is the NUL-trimmed slice of the field's octets. |
| Reader.TextAtLocal | src/quadstarfiles/sac.py:165-169 | A text field depends only on the octets of its field. |
| Float32.FieldsOfWord | src/quadstarfiles/sac.py:170 | The sign, biased exponent and fraction taken from the four octets make up exactly the little-endian 32-bit word. |
| Float32.F32AtLocal | src/quadstarfiles/sac.py:170 | A binary32 value depends only on its four octets. |
| Float32.FlipSignBit | src/quadstarfiles/sac.py:170 | Flipping bit 31 of a stored word negates its value: finite, infinite and NaN alike. |
| Float32.FiniteBound | src/quadstarfiles/sac.py:311-312 | Every finite binary32 value lies within ±(2^24 − 1)·2^104, and the word 0x7f7fffff decodes to exactly that maximum. |
| Layout.GeneralHeaderPacked | src/quadstarfiles/sac.py:137-154 | The packed header dtype puts its fields at the offsets the decoder uses: `author` at 0x0e (86 octets), `n_cycles` at 0x64, `n_scans` at 0x68, `cycle_length` at 0x6a, 0x6e octets in all. |
| Layout.ScanHeaderPacked | src/quadstarfiles/sac.py:157-159 | A scan-table entry is 9 octets: type at 0, info position at 1, data position at 5. |
| Layout.ScanInfoPacked | src/quadstarfiles/sac.py:162-176 | The scan info is 137 octets, with `first_mass` at 0x7a, `scan_width` at 0x7e, `values_per_mass` at 0x80 and the zoom bounds at 0x81 and 0x85. |
| HeaderDecoder.DecodeGeneralHeader | src/quadstarfiles/sac.py:271 | The header read succeeds exactly when the buffer holds 0x6e octets, and otherwise fails as truncated at 0. Every field is stated against the file: `data_index` is the i16 at 0x00, `software_id` the i32 at 0x02, the version and date the octets 0x06 to 0x0d, `n_cycles`, `n_scans` and `cycle_length` the signed fields at 0x64, 0x68 and 0x6a, and `author` the 86 octets from 0x0e with trailing NULs removed. |
| HeaderDecoder.GeneralHeaderIsRecord | src/quadstarfiles/sac.py:271 | The header read from a file is the header its first 0x6e octets decode to on their own, so the record round trips apply to every file's header. |
| HeaderDecoder.RecordRoundTrip | src/quadstarfiles/sac.py:137-154 | Every 0x6e-octet record decodes to a well-formed header, and storing that header gives back the record. |
| HeaderDecoder.HeaderRoundTrip | src/quadstarfiles/sac.py:137-154 | Every well-formed header is stored by a record that decodes back to it. |
| HeaderDecoder.Decimal | src/quadstarfiles/sac.py:330 | `str` of a natural number is a non-empty string of decimal digits with no leading zero. |
| HeaderDecoder.DecimalRoundTrip | src/quadstarfiles/sac.py:330 | The digits `str` produces denote the number. |
| HeaderDecoder.VersionParts | src/quadstarfiles/sac.py:330 | The version string has exactly one dot. The digits before it denote the major version and those after it the minor version. |
| HeaderDecoder.MeasureDateOf | src/quadstarfiles/sac.py:331-338 | The date succeeds exactly when month, day, hour, minute and second form a real calendar time in year 1900 + y. It then carries year 1900 + y and those five values, and otherwise fails with `InvalidDate`. |
| HeaderDecoder.LeapDayExamples | src/quadstarfiles/sac.py:331-338 | 29 February is rejected for year octet 0 (1900) and accepted for 100 (2000). |
| ScanTableDecoder.DecodeScanTable | src/quadstarfiles/sac.py:277 | For non-negative `n_scans`, the table read succeeds exactly when 0xc8 + 9·n_scans octets exist, and it yields n_scans entries. For negative `n_scans` it reads whole entries to the end of the file. Entry k is decoded from the 9 octets at 0xc8 + 9k, in file order. A failure is `Truncated(0xc8, 9·n_scans)` for a non-negative count; for a negative count it is `Truncated(0xc8, 0)` when the buffer ends before 0xc8, else `Ragged(0xc8, 9)`. |
| ScanTableDecoder.EntryRoundTrip | src/quadstarfiles/sac.py:157-159 | Scan-table entries and their 9-octet records correspond one to one. |
| ScanTableDecoder.FirstDataPosition | src/quadstarfiles/sac.py:247-252 | The anchor search finds nothing only when no entry has type 0x11. |
| ScanTableDecoder.FirstDataPositionFound | src/quadstarfiles/sac.py:247-252 | There is an anchor if and only if some entry has type 0x11. |
| ScanTableDecoder.FirstDataPositionWitness | src/quadstarfiles/sac.py:247-252 | The anchor is the data position of a type-0x11 entry with no type-0x11 entry before it. |
| ScanTableDecoder.FirstDataPositionIsFirstDataEntry | src/quadstarfiles/sac.py:247-252 | The anchor is the data position of the first entry the scan loop decodes, and is absent when that loop decodes none. |
| ScanTableDecoder.DataEntries | src/quadstarfiles/sac.py:290-292 | The scan loop visits only type-0x11 entries, and never more than the table holds. |
| ScanTableDecoder.DataEntriesAppend | src/quadstarfiles/sac.py:290-292 | Filtering a concatenated table is concatenating the filtered parts. |
| ScanTableDecoder.DataEntryIndex | src/quadstarfiles/sac.py:290-292 | The filter keeps table order: a type-0x11 entry at table index i is visited at the position given by the number of type-0x11 entries before it. |
| ScanTableDecoder.NonDataEntryIgnored | src/quadstarfiles/sac.py:290-292 | An entry of any other type, wherever it stands, changes nothing about which entries are visited or in what order. |
| ScanTableDecoder.DecodeEach | src/quadstarfiles/sac.py:290-316 | When the scan loop completes it has one result per visited entry, in order, each the decoding of that entry. |
| ScanTableDecoder.DecodeEachSucceeds | src/quadstarfiles/sac.py:290-316 | The scan loop completes when every visited entry decodes. |
| ScanTableDecoder.DecodeEachFailure | src/quadstarfiles/sac.py:290-316 | A failed scan loop reports the error of the first entry that fails, and every entry before it decodes. |
| ScanInfoDecoder.DecodeScanInfo | src/quadstarfiles/sac.py:293 | The info read succeeds exactly when the 137 octets at the info position lie in the buffer, and otherwise fails as truncated there. `data_format` is the u16 at +0, `first_mass` the binary32 at +0x7a, `scan_width` the u16 at +0x7e, `values_per_mass` the octet at +0x80, and the zoom bounds the binary32 words at +0x81 and +0x85. |
| ScanInfoDecoder.DecodeScanInfoTexts | src/quadstarfiles/sac.py:165-169 | The five text fields of a decoded info are their octets trimmed of trailing NULs: `data_title` +0x02..+0x0f, `data_unit` +0x0f..+0x1d, `scan_title` +0x1d..+0x2a, `scan_unit` +0x2a..+0x38, `comment` +0x38..+0x7a. |
| ScanInfoDecoder.ScanInfoLocal | src/quadstarfiles/sac.py:293 | The scan info depends only on the 137 octets of its record. |
| ScanInfoDecoder.MassAxis | src/quadstarfiles/sac.py:295-300 | The mass axis has `scan_width * values_per_mass` entries. It starts at `first_mass`, and every entry lies in [first_mass, first_mass + scan_width). A non-finite first mass makes every entry NaN. |
| ScanInfoDecoder.MassAxisStep | src/quadstarfiles/sac.py:295-300 | Neighbouring masses are 1 / values_per_mass apart, as `endpoint=False` spacing gives. |
| Timestamps.CycleUtsInSeconds | src/quadstarfiles/sac.py:272-276 | The cycle time, kept as whole tenths of a millisecond, is in seconds exactly `uts_base + (uts_offset_s + uts_offset_ms / 1000)` with each `_ms` the stored tenths / 10. |
| Timestamps.CycleUtsExample | src/quadstarfiles/sac.py:273-276 | A base of 1000 s and 50 tenths with a zero offset is 1000.005 s. |
| Timestamps.CycleUtsOrder | src/quadstarfiles/sac.py:284-287 | With sub-second fields below one second, cycle times order as their stored (seconds, tenths) offsets do. |
| DataPoints.FullScaleRange | src/quadstarfiles/sac.py:304 | `10 ** data_range` is positive: 1 for exponent 0, at least 1 for a non-negative exponent, below 1 for a negative one. |
| DataPoints.FullScaleRangeStep | src/quadstarfiles/sac.py:304 | Raising the exponent by one multiplies the range by ten, for every integer exponent; with the value 1 at 0 this pins the range to 10 ** data_range. |
| DataPoints.Saturate | src/quadstarfiles/sac.py:311-313 | Saturation keeps the length. A finite value at most the range, equality included, is kept unchanged. A finite value above it becomes NaN. Negative infinity is kept, while positive infinity and NaN become NaN. |
| DataPoints.SaturateIdempotent | src/quadstarfiles/sac.py:313 | Saturating twice is saturating once. |
| DataPoints.SaturateBoundaryExample | src/quadstarfiles/sac.py:304-313 | With data_range 2 the range is 100: the stored word 0x42c80000 (100.0) is kept, and 0x42c8000d (13107213 / 131072, just above 100) becomes NaN. |
| DataPoints.MaxFiniteSaturates | src/quadstarfiles/sac.py:311-313 | The largest binary32 value, which a saturated channel holds, becomes NaN for every exponent up to 38. |
| Sac.DecodePreamble | src/quadstarfiles/sac.py:271-277 | The reads before the cycle loop: the header, the u32 at 0xc2, the u16 at 0xc6 and the scan table. They fail with `Truncated` on a buffer shorter than 0xc8 octets. Otherwise they fail exactly when the scan table does not fit. Every failure is `Truncated` or `Ragged`. |
| Sac.DecodeScan | src/quadstarfiles/sac.py:293-316 | A scan decodes exactly when its info record, its exponent and its `scan_width * values_per_mass` datapoints lie in the buffer. It then holds the info at the unshifted info position and the exponent at the shifted data position + 4. Its values are that many binary32 words from + 6, saturated against 10 ** exponent, and its mass axis has as many entries. Any failure is an out-of-range read (`Truncated`). |
| Sac.DecodeScans | src/quadstarfiles/sac.py:288-316 | A cycle's scans are one per type-0x11 entry, in table order, each decoded from its entry. A failure is an out-of-range read (`Truncated`). |
| Sac.DecodeCycle | src/quadstarfiles/sac.py:283-328 | A cycle fails with `NoDataScan` when there is no anchor. Otherwise its time is the base time plus the u32/u16 offset 6 and 2 octets before the anchor shifted by `n * cycle_length`, and its scans are the scan loop at that shift. With an anchor, any failure is an out-of-range read (`Truncated`). |
| Sac.DecodeCycles | src/quadstarfiles/sac.py:283 | The cycle loop yields `n_cycles` cycles (none for a non-positive count), cycle i being the decoding of cycle i. |
| Sac.DecodeRange | src/quadstarfiles/sac.py:283 | `for n in range(from, count)` with a body that can fail: when it completes it has count − from results, result i being the decoding of from + i. |
| Sac.DecodeRangeSucceeds | src/quadstarfiles/sac.py:283 | The loop completes when every index in the range decodes. |
| Sac.DecodeRangeFailure | src/quadstarfiles/sac.py:283 | A failed loop reports the error of the first index that fails, every index before it decoding. |
| Sac.DecodeCyclesFailure | src/quadstarfiles/sac.py:283-328 | A failed cycle loop reports the error of the first cycle that fails, every cycle before it decoding. |
| SacProperties.GeneralMetadata | src/quadstarfiles/sac.py:330-347 | The `general` metadata of a successful parse: `software_id` is the i32 at 0x02. The version is `str` of the octets at 0x06 and 0x07 joined by a dot. The date is year 1900 + octet 0x0d, then month, day, hour, minute and second from octets 0x0c down to 0x08. `author` is the NUL-trimmed 86 octets at 0x0e, `n_cycles` the i32 at 0x64 and `n_scans` the i16 at 0x68. |
| SacProperties.ProcessSucceeds | src/quadstarfiles/sac.py:271-338 | A file parses if and only if its preamble decodes, and for every cycle n < n_cycles a type-0x11 entry exists, the time offset before its shifted data position lies in the buffer, and every data-bearing scan fits at that shift, and the measurement date exists. |
| SacProperties.ProcessFailure | src/quadstarfiles/sac.py:283-338 | A parse that fails after the preamble reports either the error of the first cycle that fails, every earlier cycle decoding, or `InvalidDate` when every cycle decodes. |
| SacProperties.CycleAndScanCounts | src/quadstarfiles/sac.py:283-328 | The output has exactly `n_cycles` cycles, none for a non-positive count. Every cycle holds one scan per type-0x11 entry. |
| SacProperties.ScanAddressing | src/quadstarfiles/sac.py:290-302 | Scan j of cycle n is decoded from the j-th type-0x11 entry with its data position shifted by `n * cycle_length`. |
| SacProperties.DatapointAddressing | src/quadstarfiles/sac.py:302-313 | Scan j of cycle n has exactly `scan_width * values_per_mass` datapoints and as many masses. Datapoint k is the binary32 word at the entry's data position + n·cycle_length + 6 + 4k, kept when at most the range and NaN otherwise. |
| SacProperties.InfoSharedAcrossCycles | src/quadstarfiles/sac.py:293 | Scan j has the same info in every cycle. |
| SacProperties.CycleTimestamp | src/quadstarfiles/sac.py:279-287 | Cycle n's time is the base time plus the offset stored 6 and 2 octets before the first type-0x11 entry's data position shifted by `n * cycle_length`, and such an entry exists. |
| SacProperties.ShortBufferFails | src/quadstarfiles/sac.py:271-275 | A buffer too short for the header and the base time cannot be parsed. The error is `Truncated` at the first read that does not fit: the header at 0, the u32 at 0xc2 or the u16 at 0xc6. |
| SacProperties.TruncatedTableFails | src/quadstarfiles/sac.py:277 | A buffer that ends inside the declared scan table fails as truncated at 0xc8. |
| SacProperties.NoDataScanFails | src/quadstarfiles/sac.py:279-285 | With at least one cycle and no type-0x11 entry, the parse fails with `NoDataScan`. |
| SacProperties.NoCyclesNoData | src/quadstarfiles/sac.py:283 | With no cycles nothing past the scan table is read. The parse succeeds, with no cycles, exactly when the date is valid. |
| SacProperties.UnreadableScanFails | src/quadstarfiles/sac.py:302-310 | If one data-bearing scan of one cycle does not fit in the buffer, the whole parse fails with an out-of-range read (`Truncated`): there is no partial result. |
| SacProperties.DeclaredCountIgnored | src/quadstarfiles/sac.py:305-310 | Rewriting the four octets of the datapoint count stored at a scan's data position + 0 leaves that scan unchanged, when those octets lie outside the scan's info record. |
| SacProperties.SameReadsSameScan | src/quadstarfiles/sac.py:302-313 | A scan depends on the buffer only through its info, its exponent read and its datapoint read. |
| SacProperties.NonDataEntriesIgnored | src/quadstarfiles/sac.py:290-292 | Inserting an entry of any other type anywhere in the table leaves every cycle's scans unchanged. |
| SacProperties.MinimalFileExample | src/quadstarfiles/sac.py:283-316 | One cycle and a table of a type-0x0f and a type-0x11 entry with width 1 and 3 values per mass, whose data block and time offset lie in the buffer and whose date exists, parse to one cycle with one scan of 3 datapoints and 3 masses. |

## Left out

- Opening and reading the file (sac.py:269-270) is I/O. The model takes the file's octets as its input.
- HeaderDecoder.MeasureDateOf: yields the `datetime` arguments rather than `.timestamp()`. The timestamp depends on the host's local time zone.
- Text fields stay octet sequences with trailing NULs removed. `bytes.decode()` is a foreign codec, so a field that is not valid UTF-8 (which makes the source raise) does not fail the model.
- ScanInfoDecoder.MassAxis: an idealised axis `first_mass + i / values_per_mass` over exact reals. `np.linspace`'s floating-point rounding is not modelled.
- DataPoints.FullScaleRange: exact for every exponent. For a non-negative exponent Python also computes an exact integer, but for a negative one it computes a rounded float, and that rounding is not modelled.
- Timestamps.CycleUtsInSeconds: exact. Python's float rounding of the sum is not modelled.
- Sac.Process has no contract of its own. Its guarantees are the `SacProperties` lemmas.
- The scan dictionary `{scan_title: masses, data_title: values}` is modelled as a record with both lists. The source loses the mass list when the two titles are equal; that collision is not modelled.
- The source copies each cycle's time into every scan's metadata. The model stores it once per cycle.
- Float32.F32At: both zeros decode to `Finite(0.0)`. numpy reads the word 0x80000000 as −0.0, and since `-0.0 <= fsr` holds it is returned in `data_values`; the model does not keep the sign of that zero. Which values are replaced by NaN is unaffected.
- Header octets 0x6e to 0xc1 are never interpreted by the code, and the model does not read them either.
- `src/quadstarfiles/main.py` (DataFrame assembly and CSV/XLSX export) and `setup.py` (packaging) are not part of this model.
