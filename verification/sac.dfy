/** `process`: the whole decoding of a `.sac` buffer into its cycles, each
    holding one scan per data-bearing scan-table entry, together with the
    general metadata. The parse is all or nothing: any failing read, a cycle
    without a timestamp anchor, or an impossible measurement date yields an
    error and no partial tree. */
module Sac {
  import opened Wrappers
  import opened Bytes
  import opened Float32
  import opened Reader
  import opened Layout
  import opened HeaderDecoder
  import opened ScanTableDecoder
  import opened ScanInfoDecoder
  import opened Timestamps
  import opened DataPoints

  /** One data-bearing scan in one cycle: its info, the stored range
      exponent, the full-scale range, the mass axis and the datapoints. */
  datatype Scan = Scan(info: ScanInfo, dataRange: int, fsr: real, masses: seq<F32>, values: seq<F32>)

  /** One cycle: its time in tenths of a millisecond since the epoch, and
      its scans in scan-table order. */
  datatype Cycle = Cycle(uts: nat, scans: seq<Scan>)

  /** The `general` metadata. */
  datatype General = General(
    softwareId: int,
    version: string,
    measureDate: MeasureDate,
    author: seq<byte>,
    nCycles: int,
    nScans: int)

  datatype SacFile = SacFile(general: General, cycles: seq<Cycle>)

  /** Everything read before the cycle loop. */
  datatype Preamble = Preamble(header: GeneralHeader, baseSeconds: nat, baseTenths: nat, entries: seq<ScanEntry>)

  /** The general header, the base time at 0xc2 and 0xc6, and the scan table. */
  function DecodePreamble(buf: seq<byte>): (r: Parse<Preamble>)
    ensures |buf| < 0xc8 ==> r.Failure? && r.error.Truncated?
    ensures r.Failure? ==> r.error.Truncated? || r.error.Ragged?
    ensures r.Success? ==>
      && DecodeGeneralHeader(buf) == Success(r.value.header)
      && r.value.baseSeconds == U32At(buf, 0xc2)
      && r.value.baseTenths == U16At(buf, 0xc6)
      && DecodeScanTable(buf, r.value.header.nScans) == Success(r.value.entries)
    ensures |buf| >= 0xc8 ==> (r.Success? <==> DecodeScanTable(buf, DecodeGeneralHeader(buf).value.nScans).Success?)
  {
    var header :- DecodeGeneralHeader(buf);
    var baseSeconds :- ReadU32(buf, BaseSecondsOffset);
    var baseTenths :- ReadU16(buf, BaseTenthsOffset);
    var entries :- DecodeScanTable(buf, header.nScans);
    Success(Preamble(header, baseSeconds, baseTenths, entries))
  }

  /** The octets the scan of `entry` needs lie inside the buffer: the
      137-octet info record, the range exponent at data position + 4 and the
      datapoints from data position + 6. */
  predicate ScanFits(buf: seq<byte>, entry: ScanEntry, cycleOffset: int)
  {
    var pos := entry.dataPosition + cycleOffset;
    && 0 <= entry.infoPosition && entry.infoPosition + 0x89 <= |buf|
    && 0 <= pos + 4 && pos + 6 <= |buf|
    && pos + 6 + 4 * PointCount(DecodeScanInfo(buf, entry.infoPosition).value) <= |buf|
  }

  /** `scan` is what the file holds for `entry` in the cycle shifted by
      `cycleOffset`: the info at the unshifted info position, the exponent
      at the shifted data position + 4, and exactly `scan_width *
      values_per_mass` values from the shifted data position + 6, saturated
      against 10 ** exponent; the mass axis has as many entries. */
  predicate ScanAt(buf: seq<byte>, entry: ScanEntry, cycleOffset: int, scan: Scan)
    requires ScanFits(buf, entry, cycleOffset)
  {
    var pos := entry.dataPosition + cycleOffset;
    && scan.info == DecodeScanInfo(buf, entry.infoPosition).value
    && scan.dataRange == I16At(buf, pos + 4)
    && scan.fsr == FullScaleRange(scan.dataRange)
    && |scan.values| == PointCount(scan.info) == |scan.masses|
    && scan.masses == MassAxis(scan.info)
    && scan.values == Saturate(ReadF32s(buf, pos + 6, PointCount(scan.info)).value, scan.fsr)
  }

  /** The scan of `entry` in the cycle whose data starts `cycleOffset`
      octets after cycle 0's. The datapoint count stored at data position + 0
      is never read. */
  function DecodeScan(buf: seq<byte>, entry: ScanEntry, cycleOffset: int): (r: Parse<Scan>)
    ensures r.Success? <==> ScanFits(buf, entry, cycleOffset)
    ensures r.Success? ==> ScanAt(buf, entry, cycleOffset, r.value)
    ensures r.Failure? ==> r.error.Truncated?
  {
    var info :- DecodeScanInfo(buf, entry.infoPosition);
    var pos := entry.dataPosition + cycleOffset;
    ScanOfReads(info, ReadI16(buf, pos + DataRangeOffset), ReadF32s(buf, pos + DatapointsOffset, PointCount(info)))
  }

  /** The scan built from its info and the outcomes of its two data-block
      reads, the exponent read first. */
  function ScanOfReads(info: ScanInfo, dataRange: Parse<int>, raw: Parse<seq<F32>>): Parse<Scan>
  {
    var dataRange :- dataRange;
    var raw :- raw;
    var fsr := FullScaleRange(dataRange);
    Success(Scan(info, dataRange, fsr, MassAxis(info), Saturate(raw, fsr)))
  }

  /** The inner loop over the scan table: entries of type 0x11 are decoded
      in table order, every other entry is passed over. */
  function DecodeScans(buf: seq<byte>, entries: seq<ScanEntry>, cycleOffset: int): (r: Parse<seq<Scan>>)
    ensures r.Success? ==> |r.value| == |DataEntries(entries)|
    ensures r.Success? ==> forall j :: 0 <= j < |r.value| ==>
      DecodeScan(buf, DataEntries(entries)[j], cycleOffset) == Success(r.value[j])
    ensures r.Failure? ==> r.error.Truncated?
  {
    var r := DecodeEach(DataEntries(entries), ScanDecoder(buf, cycleOffset));
    if r.Failure? then ScanLoopFailure(buf, DataEntries(entries), cycleOffset); r else r
  }

  /** A failed scan loop reports the out-of-range read of its first failing
      scan. */
  lemma ScanLoopFailure(buf: seq<byte>, data: seq<ScanEntry>, cycleOffset: int)
    requires DecodeEach(data, ScanDecoder(buf, cycleOffset)).Failure?
    ensures DecodeEach(data, ScanDecoder(buf, cycleOffset)).error.Truncated?
  {
    var decode := ScanDecoder(buf, cycleOffset);
    DecodeEachFailure(data, decode);
    var j :| FirstFailure(data, decode, j) && decode(data[j]) == Failure(DecodeEach(data, decode).error);
    assert decode(data[j]) == DecodeScan(buf, data[j], cycleOffset);
  }

  /** The body of the scan loop, as a function of the table entry. */
  function ScanDecoder(buf: seq<byte>, cycleOffset: int): (decode: ScanEntry -> Parse<Scan>)
    ensures forall e :: decode(e) == DecodeScan(buf, e, cycleOffset)
  {
    e => DecodeScan(buf, e, cycleOffset)
  }

  /** Cycle `n`: its timestamp offset read just before the anchor's data
      block shifted by `n * cycle_length`, then its scans. Without an anchor
      the timestamp cannot be read and the parse stops. */
  function DecodeCycle(buf: seq<byte>, p: Preamble, anchor: Option<int>, n: nat): (r: Parse<Cycle>)
    ensures anchor.None? ==> r == Failure(NoDataScan)
    ensures r.Success? ==> anchor.Some?
    ensures anchor.Some? && r.Failure? ==> r.error.Truncated?
    ensures r.Success? ==>
      var at := anchor.value + n * p.header.cycleLength;
      && 0 <= at - 6 && at <= |buf|
      && r.value.uts == CycleUts(p.baseSeconds, p.baseTenths, U32At(buf, at - 6), U16At(buf, at - 2))
    ensures r.Success? ==> DecodeScans(buf, p.entries, n * p.header.cycleLength) == Success(r.value.scans)
  {
    var cycleOffset := n * p.header.cycleLength;
    if anchor.None? then Failure(NoDataScan)
    else
      var offsetSeconds :- ReadU32(buf, anchor.value - CycleSecondsBefore + cycleOffset);
      var offsetTenths :- ReadU16(buf, anchor.value - CycleTenthsBefore + cycleOffset);
      var scans :- DecodeScans(buf, p.entries, cycleOffset);
      Success(Cycle(CycleUts(p.baseSeconds, p.baseTenths, offsetSeconds, offsetTenths), scans))
  }

  /** The outer loop, `for n in range(n_cycles)`, from cycle `from` on. */
  function DecodeCycles(buf: seq<byte>, p: Preamble, anchor: Option<int>, from: nat): (r: Parse<seq<Cycle>>)
    ensures r.Success? ==> |r.value| == if from < p.header.nCycles then p.header.nCycles - from else 0
    ensures r.Success? ==> forall i :: 0 <= i < |r.value| ==> DecodeCycle(buf, p, anchor, from + i) == Success(r.value[i])
  {
    DecodeRange(from, p.header.nCycles, CycleDecoder(buf, p, anchor))
  }

  /** The body of the cycle loop, as a function of the cycle number. */
  function CycleDecoder(buf: seq<byte>, p: Preamble, anchor: Option<int>): (decode: nat -> Parse<Cycle>)
    ensures forall n: nat :: decode(n) == DecodeCycle(buf, p, anchor, n)
  {
    (n: nat) => DecodeCycle(buf, p, anchor, n)
  }

  /** A failed cycle loop reports the error of the first cycle that fails;
      every cycle before it decodes. */
  lemma DecodeCyclesFailure(buf: seq<byte>, p: Preamble, anchor: Option<int>, from: nat)
    requires DecodeCycles(buf, p, anchor, from).Failure?
    ensures exists n: nat :: && from <= n < p.header.nCycles
                            && DecodeCycle(buf, p, anchor, n) == Failure(DecodeCycles(buf, p, anchor, from).error)
                            && forall k: nat :: from <= k < n ==> DecodeCycle(buf, p, anchor, k).Success?
  {
    var decode := CycleDecoder(buf, p, anchor);
    DecodeRangeFailure(from, p.header.nCycles, decode);
    var n: nat :| FirstFailingIndex(from, p.header.nCycles, decode, n)
                && decode(n) == Failure(DecodeRange(from, p.header.nCycles, decode).error);
    assert DecodeCycle(buf, p, anchor, n) == decode(n);
  }

  /** `decode` applied to `from`, `from + 1`, ..., up to but excluding
      `count`, stopping at the first failure. */
  function DecodeRange<T>(from: nat, count: int, decode: nat -> Parse<T>): (r: Parse<seq<T>>)
    ensures r.Success? ==> |r.value| == if from < count then count - from else 0
    ensures r.Success? ==> forall i :: 0 <= i < |r.value| ==> decode(from + i) == Success(r.value[i])
    decreases count - from
  {
    if from >= count then Success([])
    else
      match decode(from)
      case Failure(e) => Failure(e)
      case Success(x) =>
        match DecodeRange(from + 1, count, decode)
        case Failure(e) => Failure(e)
        case Success(rest) =>
          var xs := [x] + rest;
          assert forall i :: 1 <= i < |xs| ==> xs[i] == rest[i - 1];
          Success(xs)
  }

  /** The loop completes when every index in the range decodes. */
  lemma {:induction false} DecodeRangeSucceeds<T>(from: nat, count: int, decode: nat -> Parse<T>)
    requires forall n: nat :: from <= n < count ==> decode(n).Success?
    ensures DecodeRange(from, count, decode).Success?
    decreases count - from
  {
    if from < count {
      DecodeRangeSucceeds(from + 1, count, decode);
    }
  }

  /** A failed loop reports the error of the first index that fails. */
  lemma {:induction false} DecodeRangeFailure<T>(from: nat, count: int, decode: nat -> Parse<T>)
    requires DecodeRange(from, count, decode).Failure?
    ensures exists n: nat :: FirstFailingIndex(from, count, decode, n)
                          && decode(n) == Failure(DecodeRange(from, count, decode).error)
    decreases count - from
  {
    if decode(from).Failure? {
      assert FirstFailingIndex(from, count, decode, from);
    } else {
      DecodeRangeFailure(from + 1, count, decode);
      var n: nat :| FirstFailingIndex(from + 1, count, decode, n)
                 && decode(n) == Failure(DecodeRange(from + 1, count, decode).error);
      assert FirstFailingIndex(from, count, decode, n);
    }
  }

  /** `n` is the first index from `from` on, below `count`, whose decoding fails. */
  predicate FirstFailingIndex<T>(from: nat, count: int, decode: nat -> Parse<T>, n: nat)
  {
    && from <= n < count
    && decode(n).Failure?
    && forall k: nat :: from <= k < n ==> decode(k).Success?
  }

  /** `process`, minus opening the file: the cycles and the metadata. */
  function Process(buf: seq<byte>): Parse<SacFile>
  {
    var p :- DecodePreamble(buf);
    var anchor := FirstDataPosition(p.entries);
    var cycles :- DecodeCycles(buf, p, anchor, 0);
    var date :- MeasureDateOf(p.header);
    var general := General(p.header.softwareId, VersionString(p.header), date, p.header.author,
                           p.header.nCycles, p.header.nScans);
    Success(SacFile(general, cycles))
  }
}
