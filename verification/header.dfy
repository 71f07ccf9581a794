/** The general header at the top of a `.sac` file and the values `process`
    derives from it: the version string and the measurement date. */
module HeaderDecoder {
  import opened Wrappers
  import opened Bytes
  import opened Reader
  import opened Layout

  /** `general_header_dtype`, field by field. The date components are the raw
      octets; `year` counts from 1900. `author` is the 86-octet field with its
      trailing NULs removed. */
  datatype GeneralHeader = GeneralHeader(
    dataIndex: int,
    softwareId: int,
    versionMajor: byte,
    versionMinor: byte,
    second: byte,
    minute: byte,
    hour: byte,
    day: byte,
    month: byte,
    year: byte,
    author: seq<byte>,
    nCycles: int,
    nScans: int,
    cycleLength: int)

  /** The fields of the 0x6e-octet header record at the start of `rec`. */
  function DecodeHeaderRecord(rec: seq<byte>): GeneralHeader
    requires |rec| >= HeaderSize
  {
    GeneralHeader(
      I16At(rec, DataIndexOffset),
      I32At(rec, SoftwareIdOffset),
      rec[VersionOffset], rec[VersionOffset + 1],
      rec[DateOffset], rec[DateOffset + 1], rec[DateOffset + 2],
      rec[DateOffset + 3], rec[DateOffset + 4], rec[DateOffset + 5],
      TextAt(rec, AuthorOffset, AuthorWidth),
      I32At(rec, NCyclesOffset),
      I16At(rec, NScansOffset),
      I32At(rec, CycleLengthOffset))
  }

  /** `_read_value(sac, 0x0000, general_header_dtype)`. */
  function DecodeGeneralHeader(buf: seq<byte>): (r: Parse<GeneralHeader>)
    ensures r.Success? <==> |buf| >= HeaderSize
    ensures r.Failure? ==> r.error == Truncated(0, HeaderSize)
    ensures r.Success? ==>
      && r.value.dataIndex == I16At(buf, 0x00)
      && r.value.softwareId == I32At(buf, 0x02)
      && r.value.versionMajor == buf[0x06] && r.value.versionMinor == buf[0x07]
      && r.value.second == buf[0x08] && r.value.minute == buf[0x09] && r.value.hour == buf[0x0a]
      && r.value.day == buf[0x0b] && r.value.month == buf[0x0c] && r.value.year == buf[0x0d]
      && r.value.nCycles == I32At(buf, 0x64)
      && r.value.nScans == I16At(buf, 0x68)
      && r.value.cycleLength == I32At(buf, 0x6a)
      && r.value.author == TrimNul(buf[0x0e .. 0x64])
  {
    if |buf| < HeaderSize then Failure(Truncated(0, HeaderSize))
    else
      TextAtIsTrimNul(buf, AuthorOffset, AuthorWidth);
      Success(DecodeHeaderRecord(buf))
  }

  /** The header read from a file is the header its first 0x6e octets
      decode to on their own, so the record round trips apply to it. */
  lemma GeneralHeaderIsRecord(buf: seq<byte>)
    requires |buf| >= HeaderSize
    ensures DecodeGeneralHeader(buf) == Success(DecodeHeaderRecord(buf[..HeaderSize]))
  {
    var rec := buf[..HeaderSize];
    assert rec[0 .. HeaderSize] == buf[0 .. HeaderSize];
    ReadWithin(buf, 0, rec, DataIndexOffset);
    ReadWithin(buf, 0, rec, SoftwareIdOffset);
    ReadWithin(buf, 0, rec, NCyclesOffset);
    ReadWithin(buf, 0, rec, NScansOffset);
    ReadWithin(buf, 0, rec, CycleLengthOffset);
    TextAtLocal(buf, rec, AuthorOffset, AuthorWidth);
  }

  /** The headers some record decodes to: every integer within its field's
      width, and an author that fits its field and does not end in NUL. */
  predicate WellFormed(h: GeneralHeader)
  {
    && -0x8000 <= h.dataIndex < 0x8000
    && -0x8000_0000 <= h.softwareId < 0x8000_0000
    && |h.author| <= AuthorWidth && (|h.author| == 0 || h.author[|h.author| - 1] != 0)
    && -0x8000_0000 <= h.nCycles < 0x8000_0000
    && -0x8000 <= h.nScans < 0x8000
    && -0x8000_0000 <= h.cycleLength < 0x8000_0000
  }

  /** The header record that stores `h`: the leading fields, the author
      padded to its width, and the three counts. */
  function EncodeHeaderRecord(h: GeneralHeader): (rec: seq<byte>)
    requires WellFormed(h)
    ensures |rec| == HeaderSize
  {
    EncodeLeading(h) + PadNul(h.author, AuthorWidth) + EncodeCounts(h)
  }

  /** Octets 0x00 to 0x0e: data index, software id, version and date. */
  function EncodeLeading(h: GeneralHeader): (s: seq<byte>)
    requires WellFormed(h)
    ensures |s| == AuthorOffset
  {
    EncodeI16(h.dataIndex) + EncodeI32(h.softwareId)
    + [h.versionMajor, h.versionMinor, h.second, h.minute, h.hour, h.day, h.month, h.year]
  }

  /** Octets 0x64 to 0x6e: the cycle count, the scan count and the cycle length. */
  function EncodeCounts(h: GeneralHeader): (s: seq<byte>)
    requires WellFormed(h)
    ensures |s| == HeaderSize - NCyclesOffset
  {
    EncodeI32(h.nCycles) + EncodeI16(h.nScans) + EncodeI32(h.cycleLength)
  }

  /** Every decoded header is well formed, and storing it gives back the record. */
  lemma RecordRoundTrip(rec: seq<byte>)
    requires |rec| == HeaderSize
    ensures WellFormed(DecodeHeaderRecord(rec))
    ensures EncodeHeaderRecord(DecodeHeaderRecord(rec)) == rec
  {
    var h := DecodeHeaderRecord(rec);
    TextAtIsTrimNul(rec, AuthorOffset, AuthorWidth);
    PadTrim(rec[AuthorOffset .. NCyclesOffset]);
    LeadingOfRecord(rec);
    CountsOfRecord(rec);
    SliceJoin(rec, 0, AuthorOffset, NCyclesOffset);
    SliceJoin(rec, 0, NCyclesOffset, HeaderSize);
    assert rec[0 .. HeaderSize] == rec;
  }

  lemma LeadingOfRecord(rec: seq<byte>)
    requires |rec| == HeaderSize
    ensures WellFormed(DecodeHeaderRecord(rec))
    ensures EncodeLeading(DecodeHeaderRecord(rec)) == rec[0 .. AuthorOffset]
  {
    var h := DecodeHeaderRecord(rec);
    TextAtIsTrimNul(rec, AuthorOffset, AuthorWidth);
    I16FieldRoundTrip(rec, DataIndexOffset);
    I32FieldRoundTrip(rec, SoftwareIdOffset);
    var date := [h.versionMajor, h.versionMinor, h.second, h.minute, h.hour, h.day, h.month, h.year];
    assert date == rec[VersionOffset .. AuthorOffset];
    SliceJoin(rec, 0, SoftwareIdOffset, VersionOffset);
    SliceJoin(rec, 0, VersionOffset, AuthorOffset);
  }

  lemma CountsOfRecord(rec: seq<byte>)
    requires |rec| == HeaderSize
    ensures WellFormed(DecodeHeaderRecord(rec))
    ensures EncodeCounts(DecodeHeaderRecord(rec)) == rec[NCyclesOffset .. HeaderSize]
  {
    TextAtIsTrimNul(rec, AuthorOffset, AuthorWidth);
    I32FieldRoundTrip(rec, NCyclesOffset);
    I16FieldRoundTrip(rec, NScansOffset);
    I32FieldRoundTrip(rec, CycleLengthOffset);
    SliceJoin(rec, NCyclesOffset, NScansOffset, CycleLengthOffset);
    SliceJoin(rec, NCyclesOffset, CycleLengthOffset, HeaderSize);
  }

  /** Every well-formed header is stored by exactly one record, which decodes back to it. */
  lemma HeaderRoundTrip(h: GeneralHeader)
    requires WellFormed(h)
    ensures DecodeHeaderRecord(EncodeHeaderRecord(h)) == h
  {
    HeaderOfParts(EncodeLeading(h), PadNul(h.author, AuthorWidth), EncodeCounts(h));
    LeadingFields(h);
    CountsFields(h);
    TrimPad(h.author, AuthorWidth);
  }

  /** A record decodes field by field from its three parts. */
  lemma {:induction false} HeaderOfParts(leading: seq<byte>, padded: seq<byte>, counts: seq<byte>)
    requires |leading| == AuthorOffset && |padded| == AuthorWidth && |counts| == HeaderSize - NCyclesOffset
    ensures DecodeHeaderRecord(leading + padded + counts) == GeneralHeader(
      I16At(leading, 0), I32At(leading, 2),
      leading[6], leading[7], leading[8], leading[9], leading[10], leading[11], leading[12], leading[13],
      TrimNul(padded), I32At(counts, 0), I16At(counts, 4), I32At(counts, 6))
  {
    var rec := leading + padded + counts;
    assert rec[0 .. AuthorOffset] == leading;
    assert rec[6] == leading[6] && rec[7] == leading[7] && rec[8] == leading[8] && rec[9] == leading[9];
    assert rec[10] == leading[10] && rec[11] == leading[11] && rec[12] == leading[12] && rec[13] == leading[13];
    assert rec[AuthorOffset .. NCyclesOffset] == padded;
    assert rec[NCyclesOffset .. HeaderSize] == counts;
    ReadWithin(rec, 0, leading, 0);
    ReadWithin(rec, 0, leading, 2);
    ReadWithin(rec, NCyclesOffset, counts, 0);
    ReadWithin(rec, NCyclesOffset, counts, 4);
    ReadWithin(rec, NCyclesOffset, counts, 6);
    TextAtIsTrimNul(rec, AuthorOffset, AuthorWidth);
  }

  lemma LeadingFields(h: GeneralHeader)
    requires WellFormed(h)
    ensures var s := EncodeLeading(h);
      && I16At(s, 0) == h.dataIndex && I32At(s, 2) == h.softwareId
      && s[6] == h.versionMajor && s[7] == h.versionMinor
      && s[8] == h.second && s[9] == h.minute && s[10] == h.hour
      && s[11] == h.day && s[12] == h.month && s[13] == h.year
  {
    var s := EncodeLeading(h);
    assert s[0 .. 2] == EncodeI16(h.dataIndex);
    assert s[2 .. 6] == EncodeI32(h.softwareId);
    ReadWithin(s, 0, EncodeI16(h.dataIndex), 0);
    ReadWithin(s, 2, EncodeI32(h.softwareId), 0);
  }

  lemma CountsFields(h: GeneralHeader)
    requires WellFormed(h)
    ensures var s := EncodeCounts(h);
      I32At(s, 0) == h.nCycles && I16At(s, 4) == h.nScans && I32At(s, 6) == h.cycleLength
  {
    var s := EncodeCounts(h);
    assert s[0 .. 4] == EncodeI32(h.nCycles);
    assert s[4 .. 6] == EncodeI16(h.nScans);
    assert s[6 .. 10] == EncodeI32(h.cycleLength);
    ReadWithin(s, 0, EncodeI32(h.nCycles), 0);
    ReadWithin(s, 4, EncodeI16(h.nScans), 0);
    ReadWithin(s, 6, EncodeI32(h.cycleLength), 0);
  }

  /** `str(n)` for a natural number: decimal digits, no leading zero. */
  function Decimal(n: nat): (s: string)
    ensures |s| > 0 && forall i :: 0 <= i < |s| ==> '0' <= s[i] <= '9'
    ensures |s| > 1 ==> s[0] != '0'
  {
    if n < 10 then [Digit(n)] else Decimal(n / 10) + [Digit(n % 10)]
  }

  function Digit(d: nat): char
    requires d < 10
  {
    "0123456789"[d]
  }

  /** The number a string of decimal digits denotes. */
  function DecimalValue(s: string): nat
    requires forall i :: 0 <= i < |s| ==> '0' <= s[i] <= '9'
  {
    if |s| == 0 then 0 else 10 * DecimalValue(s[..|s| - 1]) + (s[|s| - 1] - '0') as nat
  }

  lemma {:induction false} DecimalRoundTrip(n: nat)
    ensures DecimalValue(Decimal(n)) == n
  {
    if n >= 10 {
      var s := Decimal(n);
      assert s[..|s| - 1] == Decimal(n / 10);
      DecimalRoundTrip(n / 10);
    }
  }

  /** `str(version_major) + "." + str(version_minor)`. */
  function VersionString(h: GeneralHeader): string
  {
    Decimal(h.versionMajor) + "." + Decimal(h.versionMinor)
  }

  /** The version string holds exactly one dot, and the digits on either side
      of it denote the major and the minor version. */
  lemma VersionParts(h: GeneralHeader)
    ensures var v := VersionString(h);
      var k := |Decimal(h.versionMajor)|;
      && 0 < k < |v| - 1
      && v[k] == '.'
      && (forall i :: 0 <= i < |v| && i != k ==> v[i] != '.')
      && DecimalValue(v[..k]) == h.versionMajor
      && DecimalValue(v[k + 1 ..]) == h.versionMinor
  {
    var v := VersionString(h);
    var k := |Decimal(h.versionMajor)|;
    assert v[..k] == Decimal(h.versionMajor);
    assert v[k + 1 ..] == Decimal(h.versionMinor);
    DecimalRoundTrip(h.versionMajor);
    DecimalRoundTrip(h.versionMinor);
  }

  /** The arguments `process` passes to `datetime`. */
  datatype MeasureDate = MeasureDate(year: int, month: int, day: int, hour: int, minute: int, second: int)

  /** Gregorian leap years, as `datetime` counts them. */
  predicate IsLeapYear(y: int)
  {
    y % 4 == 0 && (y % 100 != 0 || y % 400 == 0)
  }

  function DaysInMonth(y: int, m: int): (n: int)
    requires 1 <= m <= 12
    ensures 28 <= n <= 31
  {
    if m == 2 then (if IsLeapYear(y) then 29 else 28)
    else if m == 4 || m == 6 || m == 9 || m == 11 then 30
    else 31
  }

  /** What `datetime` accepts. */
  predicate ValidDate(d: MeasureDate)
  {
    && 1 <= d.year <= 9999
    && 1 <= d.month <= 12
    && 1 <= d.day <= DaysInMonth(d.year, d.month)
    && 0 <= d.hour < 24
    && 0 <= d.minute < 60
    && 0 <= d.second < 60
  }

  /** `datetime(y + 1900, m, d, H, M, S)`, which raises on a date that does
      not exist. The year is always in range: it is 1900 plus one octet. */
  function MeasureDateOf(h: GeneralHeader): (r: Parse<MeasureDate>)
    ensures r.Success? ==> r.value.year == h.year as int + 1900
    ensures r.Success? ==> (r.value.second == h.second && r.value.minute == h.minute && r.value.hour == h.hour
                            && r.value.day == h.day && r.value.month == h.month)
    ensures r.Success? <==>
      && 1 <= h.month <= 12
      && 1 <= h.day <= DaysInMonth(h.year + 1900, h.month)
      && h.hour < 24 && h.minute < 60 && h.second < 60
    ensures r.Failure? ==> r.error == InvalidDate
  {
    var d := MeasureDate(h.year + 1900, h.month, h.day, h.hour, h.minute, h.second);
    if ValidDate(d) then Success(d) else Failure(InvalidDate)
  }

  /** 1900 is not a leap year (it is a century not divisible by 400) but
      2000 is, so 29 February is rejected for year octet 0 and accepted for 100. */
  lemma LeapDayExamples(h: GeneralHeader)
    requires h.month == 2 && h.day == 29 && h.hour == 0 && h.minute == 0 && h.second == 0
    ensures h.year == 0 ==> MeasureDateOf(h).Failure?
    ensures h.year == 100 ==> MeasureDateOf(h).Success?
  {
  }
}
