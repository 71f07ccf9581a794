/** The three numpy structured dtypes of sac.py and the offsets numpy gives
    their fields. The dtypes are packed (no alignment padding), so a field
    starts where the one before it ends; the named constants below, which the
    decoders use, are proved to be exactly those packed offsets. */
module Layout {

  /** One field of a structured dtype: its name and its width in octets. */
  datatype Field = Field(name: string, width: nat)

  /** Where field `i` starts in a packed dtype: the widths of the fields before it. */
  function OffsetOf(fields: seq<Field>, i: nat): nat
    requires i <= |fields|
  {
    if i == 0 then 0 else OffsetOf(fields, i - 1) + fields[i - 1].width
  }

  /** Start of every field, followed by the record size. */
  function Offsets(fields: seq<Field>): (r: seq<nat>)
    ensures |r| == |fields| + 1
  {
    seq(|fields| + 1, i requires 0 <= i <= |fields| => OffsetOf(fields, i))
  }

  /** `general_header_dtype`. */
  const GeneralHeaderDtype: seq<Field> := [
    Field("data_index", 2), Field("software_id", 4),
    Field("version_major", 1), Field("version_minor", 1),
    Field("S", 1), Field("M", 1), Field("H", 1), Field("d", 1), Field("m", 1), Field("y", 1),
    Field("author", 86), Field("n_cycles", 4), Field("n_scans", 2), Field("cycle_length", 4)
  ]

  /** `scan_header_dtype`: one scan-table entry. */
  const ScanHeaderDtype: seq<Field> := [
    Field("type", 1), Field("info_position", 4), Field("data_position", 4)
  ]

  /** `scan_info_dtype`. */
  const ScanInfoDtype: seq<Field> := [
    Field("data_format", 2), Field("data_title", 13), Field("data_unit", 14),
    Field("scan_title", 13), Field("scan_unit", 14), Field("comment", 66),
    Field("first_mass", 4), Field("scan_width", 2), Field("values_per_mass", 1),
    Field("zoom_start", 4), Field("zoom_end", 4)
  ]

  // General header, read at file offset 0.
  const DataIndexOffset: nat := 0x00
  const SoftwareIdOffset: nat := 0x02
  const VersionOffset: nat := 0x06
  const DateOffset: nat := 0x08
  const AuthorOffset: nat := 0x0e
  const AuthorWidth: nat := 86
  const NCyclesOffset: nat := 0x64
  const NScansOffset: nat := 0x68
  const CycleLengthOffset: nat := 0x6a
  const HeaderSize: nat := 0x6e

  // Fields outside the structured header.
  const BaseSecondsOffset: nat := 0xc2
  const BaseTenthsOffset: nat := 0xc6
  const ScanTableOffset: nat := 0xc8

  // Scan-table entry.
  const EntryInfoOffset: nat := 1
  const EntryDataOffset: nat := 5
  const EntrySize: nat := 9

  // Scan info.
  const DataTitleOffset: nat := 0x02
  const DataUnitOffset: nat := 0x0f
  const ScanTitleOffset: nat := 0x1d
  const ScanUnitOffset: nat := 0x2a
  const CommentOffset: nat := 0x38
  const FirstMassOffset: nat := 0x7a
  const ScanWidthOffset: nat := 0x7e
  const ValuesPerMassOffset: nat := 0x80
  const ZoomStartOffset: nat := 0x81
  const ZoomEndOffset: nat := 0x85
  const ScanInfoSize: nat := 0x89

  // Data block of one scan in one cycle, relative to its data position.
  const DataRangeOffset: nat := 4
  const DatapointsOffset: nat := 6

  // Per-cycle timestamp offset, relative to the first data-bearing scan's data position.
  const CycleSecondsBefore: nat := 6
  const CycleTenthsBefore: nat := 2

  /** The general header is the packed 0x6e-octet record whose fields start
      at the offsets the decoder uses. */
  lemma {:induction false} GeneralHeaderPacked()
    ensures Offsets(GeneralHeaderDtype) == [
      DataIndexOffset, SoftwareIdOffset, VersionOffset, VersionOffset + 1,
      DateOffset, DateOffset + 1, DateOffset + 2, DateOffset + 3, DateOffset + 4, DateOffset + 5,
      AuthorOffset, NCyclesOffset, NScansOffset, CycleLengthOffset, HeaderSize]
    ensures GeneralHeaderDtype[10].width == AuthorWidth
  {
    var f := GeneralHeaderDtype;
    assert OffsetOf(f, 1) == 2;
    assert OffsetOf(f, 2) == 6;
    assert OffsetOf(f, 3) == 7;
    assert OffsetOf(f, 4) == 8;
    assert OffsetOf(f, 5) == 9;
    assert OffsetOf(f, 6) == 10;
    assert OffsetOf(f, 7) == 11;
    assert OffsetOf(f, 8) == 12;
    assert OffsetOf(f, 9) == 13;
    assert OffsetOf(f, 10) == 14;
    assert OffsetOf(f, 11) == 100;
    assert OffsetOf(f, 12) == 104;
    assert OffsetOf(f, 13) == 106;
    assert OffsetOf(f, 14) == 110;
  }

  /** A scan-table entry is a packed 9-octet record. */
  lemma {:induction false} ScanHeaderPacked()
    ensures Offsets(ScanHeaderDtype) == [0, EntryInfoOffset, EntryDataOffset, EntrySize]
  {
    var f := ScanHeaderDtype;
    assert OffsetOf(f, 1) == 1;
    assert OffsetOf(f, 2) == 5;
    assert OffsetOf(f, 3) == 9;
  }

  /** The scan info is a packed 137-octet record. */
  lemma {:induction false} ScanInfoPacked()
    ensures Offsets(ScanInfoDtype) == [
      0, DataTitleOffset, DataUnitOffset, ScanTitleOffset, ScanUnitOffset, CommentOffset,
      FirstMassOffset, ScanWidthOffset, ValuesPerMassOffset, ZoomStartOffset, ZoomEndOffset,
      ScanInfoSize]
  {
    var f := ScanInfoDtype;
    assert OffsetOf(f, 1) == 2;
    assert OffsetOf(f, 2) == 15;
    assert OffsetOf(f, 3) == 29;
    assert OffsetOf(f, 4) == 42;
    assert OffsetOf(f, 5) == 56;
    assert OffsetOf(f, 6) == 122;
    assert OffsetOf(f, 7) == 126;
    assert OffsetOf(f, 8) == 128;
    assert OffsetOf(f, 9) == 129;
    assert OffsetOf(f, 10) == 133;
    assert OffsetOf(f, 11) == 137;
  }
}
