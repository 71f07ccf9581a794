/** The 137-octet scan info record (`scan_info_dtype`) a data-bearing
    scan-table entry points at, and the mass axis `process` builds from it. */
module ScanInfoDecoder {
  import opened Wrappers
  import opened Bytes
  import opened Float32
  import opened Reader
  import opened Layout

  /** The text fields are the raw octets with trailing NULs removed. */
  datatype ScanInfo = ScanInfo(
    dataFormat: nat,
    dataTitle: seq<byte>,
    dataUnit: seq<byte>,
    scanTitle: seq<byte>,
    scanUnit: seq<byte>,
    comment: seq<byte>,
    firstMass: F32,
    scanWidth: nat,
    valuesPerMass: byte,
    zoomStart: F32,
    zoomEnd: F32)

  /** The fields of the 137-octet record stored at octet `at`. */
  function DecodeInfoRecord(buf: seq<byte>, at: nat): ScanInfo
    requires at + ScanInfoSize <= |buf|
  {
    ScanInfo(
      U16At(buf, at),
      TextAt(buf, at + DataTitleOffset, DataUnitOffset - DataTitleOffset),
      TextAt(buf, at + DataUnitOffset, ScanTitleOffset - DataUnitOffset),
      TextAt(buf, at + ScanTitleOffset, ScanUnitOffset - ScanTitleOffset),
      TextAt(buf, at + ScanUnitOffset, CommentOffset - ScanUnitOffset),
      TextAt(buf, at + CommentOffset, FirstMassOffset - CommentOffset),
      F32At(buf, at + FirstMassOffset),
      U16At(buf, at + ScanWidthOffset),
      buf[at + ValuesPerMassOffset],
      F32At(buf, at + ZoomStartOffset),
      F32At(buf, at + ZoomEndOffset))
  }

  /** `_read_value(sac, header["info_position"], scan_info_dtype)`. */
  function DecodeScanInfo(buf: seq<byte>, infoPosition: int): (r: Parse<ScanInfo>)
    ensures r.Success? <==> 0 <= infoPosition && infoPosition + 0x89 <= |buf|
    ensures r.Failure? ==> r.error == Truncated(infoPosition, 0x89)
    ensures r.Success? ==>
      && r.value.dataFormat == U16At(buf, infoPosition)
      && r.value.firstMass == F32At(buf, infoPosition + 0x7a)
      && r.value.scanWidth == U16At(buf, infoPosition + 0x7e)
      && r.value.valuesPerMass == buf[infoPosition + 0x80]
      && r.value.zoomStart == F32At(buf, infoPosition + 0x81)
      && r.value.zoomEnd == F32At(buf, infoPosition + 0x85)
  {
    if infoPosition < 0 || infoPosition + ScanInfoSize > |buf| then Failure(Truncated(infoPosition, ScanInfoSize))
    else Success(DecodeInfoRecord(buf, infoPosition))
  }

  /** The five text fields of a decoded scan info are the octets of their
      fields in the record, trailing NULs removed: `data_title` at +0x02,
      `data_unit` at +0x0f, `scan_title` at +0x1d, `scan_unit` at +0x2a and
      `comment` at +0x38, up to `first_mass` at +0x7a. */
  lemma DecodeScanInfoTexts(buf: seq<byte>, infoPosition: int)
    requires DecodeScanInfo(buf, infoPosition).Success?
    ensures var info := DecodeScanInfo(buf, infoPosition).value;
      var p := infoPosition;
      && info.dataTitle == TrimNul(buf[p + 0x02 .. p + 0x0f])
      && info.dataUnit == TrimNul(buf[p + 0x0f .. p + 0x1d])
      && info.scanTitle == TrimNul(buf[p + 0x1d .. p + 0x2a])
      && info.scanUnit == TrimNul(buf[p + 0x2a .. p + 0x38])
      && info.comment == TrimNul(buf[p + 0x38 .. p + 0x7a])
  {
    var at: nat := infoPosition;
    TextAtIsTrimNul(buf, at + DataTitleOffset, DataUnitOffset - DataTitleOffset);
    TextAtIsTrimNul(buf, at + DataUnitOffset, ScanTitleOffset - DataUnitOffset);
    TextAtIsTrimNul(buf, at + ScanTitleOffset, ScanUnitOffset - ScanTitleOffset);
    TextAtIsTrimNul(buf, at + ScanUnitOffset, CommentOffset - ScanUnitOffset);
    TextAtIsTrimNul(buf, at + CommentOffset, FirstMassOffset - CommentOffset);
  }

  /** The scan info depends on nothing but the 137 octets of its record. */
  lemma ScanInfoLocal(buf: seq<byte>, buf': seq<byte>, infoPosition: int)
    requires |buf| == |buf'|
    requires forall i :: 0 <= infoPosition <= i < infoPosition + 0x89 && i < |buf| ==> buf[i] == buf'[i]
    ensures DecodeScanInfo(buf, infoPosition) == DecodeScanInfo(buf', infoPosition)
  {
    if 0 <= infoPosition && infoPosition + ScanInfoSize <= |buf| {
      InfoRecordLocal(buf, buf', infoPosition);
    }
  }

  lemma InfoRecordLocal(buf: seq<byte>, buf': seq<byte>, at: nat)
    requires at + ScanInfoSize <= |buf| && at + ScanInfoSize <= |buf'|
    requires forall i :: at <= i < at + ScanInfoSize ==> buf[i] == buf'[i]
    ensures DecodeInfoRecord(buf, at) == DecodeInfoRecord(buf', at)
  {
    TextFieldsLocal(buf, buf', at);
    F32AtLocal(buf, buf', at + FirstMassOffset);
    F32AtLocal(buf, buf', at + ZoomStartOffset);
    F32AtLocal(buf, buf', at + ZoomEndOffset);
  }

  /** The five text fields of a record depend only on the record's octets. */
  lemma TextFieldsLocal(buf: seq<byte>, buf': seq<byte>, at: nat)
    requires at + ScanInfoSize <= |buf| && at + ScanInfoSize <= |buf'|
    requires forall i :: at <= i < at + ScanInfoSize ==> buf[i] == buf'[i]
    ensures TextAt(buf, at + DataTitleOffset, DataUnitOffset - DataTitleOffset)
         == TextAt(buf', at + DataTitleOffset, DataUnitOffset - DataTitleOffset)
    ensures TextAt(buf, at + DataUnitOffset, ScanTitleOffset - DataUnitOffset)
         == TextAt(buf', at + DataUnitOffset, ScanTitleOffset - DataUnitOffset)
    ensures TextAt(buf, at + ScanTitleOffset, ScanUnitOffset - ScanTitleOffset)
         == TextAt(buf', at + ScanTitleOffset, ScanUnitOffset - ScanTitleOffset)
    ensures TextAt(buf, at + ScanUnitOffset, CommentOffset - ScanUnitOffset)
         == TextAt(buf', at + ScanUnitOffset, CommentOffset - ScanUnitOffset)
    ensures TextAt(buf, at + CommentOffset, FirstMassOffset - CommentOffset)
         == TextAt(buf', at + CommentOffset, FirstMassOffset - CommentOffset)
  {
    TextAtLocal(buf, buf', at + DataTitleOffset, DataUnitOffset - DataTitleOffset);
    TextAtLocal(buf, buf', at + DataUnitOffset, ScanTitleOffset - DataUnitOffset);
    TextAtLocal(buf, buf', at + ScanTitleOffset, ScanUnitOffset - ScanTitleOffset);
    TextAtLocal(buf, buf', at + ScanUnitOffset, CommentOffset - ScanUnitOffset);
    TextAtLocal(buf, buf', at + CommentOffset, FirstMassOffset - CommentOffset);
  }

  /** `scan_width * values_per_mass`: how many datapoints every cycle holds
      for this scan. */
  function PointCount(info: ScanInfo): nat
  {
    info.scanWidth * info.valuesPerMass
  }

  /** Entry `i` of the idealised mass axis: `first_mass + i / values_per_mass`. */
  function MassAt(info: ScanInfo, i: nat): F32
    requires info.valuesPerMass > 0
  {
    if info.firstMass.Finite? then Finite(info.firstMass.value + i as real / info.valuesPerMass as real)
    else NaN
  }

  /** `np.linspace(first_mass, first_mass + scan_width, n, endpoint=False)`
      over exact reals: `n` evenly spaced masses from `first_mass`, with
      step 1 / values_per_mass, stopping short of `first_mass + scan_width`.
      A non-finite first mass makes every entry not-a-number. */
  function MassAxis(info: ScanInfo): (r: seq<F32>)
    ensures |r| == PointCount(info)
    ensures !info.firstMass.Finite? ==> forall i :: 0 <= i < |r| ==> r[i] == NaN
    ensures info.firstMass.Finite? ==> forall i :: 0 <= i < |r| ==>
      r[i].Finite? && info.firstMass.value <= r[i].value < info.firstMass.value + info.scanWidth as real
    ensures info.firstMass.Finite? && |r| > 0 ==> r[0] == info.firstMass
  {
    var n := PointCount(info);
    if n == 0 then []
    else
      assert info.valuesPerMass > 0;
      forall i: nat | i < n
        ensures info.firstMass.Finite? ==> MassAt(info, i).value < info.firstMass.value + info.scanWidth as real
      {
        BelowWidth(i, info.scanWidth, info.valuesPerMass);
      }
      seq(n, i requires 0 <= i < n => MassAt(info, i))
  }

  /** Neighbouring masses are 1 / values_per_mass apart. */
  lemma MassAxisStep(info: ScanInfo, i: nat)
    requires info.firstMass.Finite? && i + 1 < |MassAxis(info)|
    ensures MassAxis(info)[i].Finite? && MassAxis(info)[i + 1].Finite?
    ensures MassAxis(info)[i + 1].value - MassAxis(info)[i].value == 1.0 / info.valuesPerMass as real
  {
    assert info.valuesPerMass > 0;
    StepDifference(i + 1, info.valuesPerMass);
  }

  lemma BelowWidth(i: nat, width: nat, perMass: nat)
    requires perMass > 0 && i < width * perMass
    ensures i as real / perMass as real < width as real
  {
    var q := i as real / perMass as real;
    assert q * perMass as real == i as real;
    assert (width * perMass) as real == width as real * perMass as real;
  }

  lemma StepDifference(i: nat, perMass: nat)
    requires perMass > 0 && i > 0
    ensures i as real / perMass as real - (i - 1) as real / perMass as real == 1.0 / perMass as real
  {
  }
}
