/** What a successful or failed `process` guarantees about the decoded tree,
    stated against the octets of the buffer. */
module SacProperties {
  import opened Wrappers
  import opened Bytes
  import opened Float32
  import opened Reader
  import opened HeaderDecoder
  import opened ScanTableDecoder
  import opened ScanInfoDecoder
  import opened Timestamps
  import opened DataPoints
  import opened Sac

  /** A successful parse is the preamble, the cycle loop from cycle 0 and
      the measurement date, and nothing else. */
  lemma ProcessParts(buf: seq<byte>)
    requires Process(buf).Success?
    ensures DecodePreamble(buf).Success?
    ensures var p := DecodePreamble(buf).value;
      && DecodeCycles(buf, p, FirstDataPosition(p.entries), 0) == Success(Process(buf).value.cycles)
      && MeasureDateOf(p.header).Success?
      && Process(buf).value.general.measureDate == MeasureDateOf(p.header).value
      && Process(buf).value.general.version == VersionString(p.header)
  {
  }

  /** The `general` metadata of a successful parse, against the octets of the
      header: the software id at 0x02, the version from the octets at 0x06
      and 0x07, the date from the octets 0x08 to 0x0d (the year counting from
      1900), the NUL-trimmed author at 0x0e, and the two counts. */
  lemma GeneralMetadata(buf: seq<byte>)
    requires Process(buf).Success?
    ensures |buf| >= 0x6e
    ensures var g := Process(buf).value.general;
      && g.softwareId == I32At(buf, 0x02)
      && g.version == Decimal(buf[0x06]) + "." + Decimal(buf[0x07])
      && g.measureDate == MeasureDate(buf[0x0d] as int + 1900, buf[0x0c], buf[0x0b], buf[0x0a], buf[0x09], buf[0x08])
      && g.author == TrimNul(buf[0x0e .. 0x64])
      && g.nCycles == I32At(buf, 0x64)
      && g.nScans == I16At(buf, 0x68)
  {
    ProcessParts(buf);
  }

  /** There are exactly `n_cycles` cycles (none for a non-positive count),
      and every cycle holds one scan per type-0x11 table entry. */
  lemma CycleAndScanCounts(buf: seq<byte>)
    requires Process(buf).Success?
    ensures DecodePreamble(buf).Success?
    ensures var p := DecodePreamble(buf).value;
      var cycles := Process(buf).value.cycles;
      && |cycles| == (if p.header.nCycles > 0 then p.header.nCycles else 0)
      && forall n :: 0 <= n < |cycles| ==> |cycles[n].scans| == |DataEntries(p.entries)|
  {
    ProcessParts(buf);
    var p := DecodePreamble(buf).value;
    var cycles := Process(buf).value.cycles;
    forall n | 0 <= n < |cycles|
      ensures |cycles[n].scans| == |DataEntries(p.entries)|
    {
      assert DecodeCycle(buf, p, FirstDataPosition(p.entries), n) == Success(cycles[n]);
    }
  }

  /** Scan `j` of cycle `n` is decoded from the `j`-th type-0x11 entry, with
      its data position shifted by `n * cycle_length`. */
  lemma ScanAddressing(buf: seq<byte>, n: nat, j: nat)
    requires Process(buf).Success?
    requires n < |Process(buf).value.cycles| && j < |Process(buf).value.cycles[n].scans|
    ensures DecodePreamble(buf).Success?
    ensures var p := DecodePreamble(buf).value;
      && j < |DataEntries(p.entries)|
      && ScanFits(buf, DataEntries(p.entries)[j], n * p.header.cycleLength)
      && ScanAt(buf, DataEntries(p.entries)[j], n * p.header.cycleLength, Process(buf).value.cycles[n].scans[j])
  {
    ProcessParts(buf);
    var p := DecodePreamble(buf).value;
    var cycle := Process(buf).value.cycles[n];
    assert DecodeCycle(buf, p, FirstDataPosition(p.entries), n) == Success(cycle);
    assert DecodeScan(buf, DataEntries(p.entries)[j], n * p.header.cycleLength) == Success(cycle.scans[j]);
  }

  /** Datapoint `k` of scan `j` in cycle `n` is the binary32 word at the
      entry's data position + `n * cycle_length` + 6 + 4k, kept when it is at
      most `10 ** data_range` and replaced by not-a-number otherwise; the
      scan has exactly `scan_width * values_per_mass` datapoints and as many
      masses, whatever count the block itself declares. */
  lemma DatapointAddressing(buf: seq<byte>, n: nat, j: nat, k: nat)
    requires Process(buf).Success?
    requires n < |Process(buf).value.cycles| && j < |Process(buf).value.cycles[n].scans|
    ensures DecodePreamble(buf).Success?
    ensures var p := DecodePreamble(buf).value;
      var scan := Process(buf).value.cycles[n].scans[j];
      && j < |DataEntries(p.entries)|
      && |scan.values| == scan.info.scanWidth * scan.info.valuesPerMass == |scan.masses|
      && (k < |scan.values| ==>
            var at := DataEntries(p.entries)[j].dataPosition + n * p.header.cycleLength + 6 + 4 * k;
            && 0 <= at && at + 4 <= |buf|
            && var raw := F32At(buf, at);
               scan.values[k] == if AtMost(raw, scan.fsr) then raw else NaN)
  {
    ScanAddressing(buf, n, j);
    var p := DecodePreamble(buf).value;
    ScanDatapoint(buf, DataEntries(p.entries)[j], n * p.header.cycleLength, Process(buf).value.cycles[n].scans[j], k);
  }

  /** Datapoint `k` of a scan read for `entry` is the saturated binary32
      word at the shifted data position + 6 + 4k. */
  lemma ScanDatapoint(buf: seq<byte>, entry: ScanEntry, cycleOffset: int, scan: Scan, k: nat)
    requires ScanFits(buf, entry, cycleOffset) && ScanAt(buf, entry, cycleOffset, scan)
    ensures |scan.values| == scan.info.scanWidth * scan.info.valuesPerMass == |scan.masses|
    ensures k < |scan.values| ==>
      var at := entry.dataPosition + cycleOffset + 6 + 4 * k;
      && 0 <= at && at + 4 <= |buf|
      && var raw := F32At(buf, at);
         scan.values[k] == if AtMost(raw, scan.fsr) then raw else NaN
  {
    var pos := entry.dataPosition + cycleOffset;
    var raw := ReadF32s(buf, pos + 6, PointCount(scan.info));
    assert raw.Success?;
    if k < |scan.values| {
      assert raw.value[k] == F32At(buf, pos + 6 + 4 * k);
    }
  }

  /** The scan info is read at the unshifted info position, so scan `j` has
      the same info in every cycle. */
  lemma InfoSharedAcrossCycles(buf: seq<byte>, n: nat, m: nat, j: nat)
    requires Process(buf).Success?
    requires n < |Process(buf).value.cycles| && m < |Process(buf).value.cycles|
    requires j < |Process(buf).value.cycles[n].scans|
    ensures j < |Process(buf).value.cycles[m].scans|
    ensures Process(buf).value.cycles[n].scans[j].info == Process(buf).value.cycles[m].scans[j].info
  {
    CycleAndScanCounts(buf);
    ScanAddressing(buf, n, j);
    ScanAddressing(buf, m, j);
  }

  /** Cycle `n`'s time is the base time plus the offset stored 6 and 2
      octets before the first data-bearing entry's data position, shifted by
      `n * cycle_length`. */
  lemma CycleTimestamp(buf: seq<byte>, n: nat)
    requires Process(buf).Success?
    requires n < |Process(buf).value.cycles|
    ensures DecodePreamble(buf).Success?
    ensures var p := DecodePreamble(buf).value;
      && |DataEntries(p.entries)| > 0
      && var at := DataEntries(p.entries)[0].dataPosition + n * p.header.cycleLength;
         && 0 <= at - 6 && at <= |buf|
         && Process(buf).value.cycles[n].uts ==
              CycleUts(p.baseSeconds, p.baseTenths, U32At(buf, at - 6), U16At(buf, at - 2))
  {
    ProcessParts(buf);
    var p := DecodePreamble(buf).value;
    var cycles := Process(buf).value.cycles;
    assert DecodeCycle(buf, p, FirstDataPosition(p.entries), n) == Success(cycles[n]);
    FirstDataPositionIsFirstDataEntry(p.entries);
  }

  /** A buffer too short for the header and the base time cannot be parsed:
      the parse stops at the first of the three reads that does not fit. */
  lemma ShortBufferFails(buf: seq<byte>)
    requires |buf| < 0xc8
    ensures Process(buf) == Failure(
      if |buf| < 0x6e then Truncated(0, 0x6e)
      else if |buf| < 0xc6 then Truncated(0xc2, 4)
      else Truncated(0xc6, 2))
  {
  }

  /** A buffer that ends inside the scan table cannot be parsed. */
  lemma TruncatedTableFails(buf: seq<byte>)
    requires |buf| >= 0xc8
    requires var nScans := DecodeGeneralHeader(buf).value.nScans;
      nScans >= 0 && |buf| < 0xc8 + 9 * nScans
    ensures Process(buf) == Failure(Truncated(0xc8, 9 * DecodeGeneralHeader(buf).value.nScans))
  {
  }

  /** The parse is all or nothing: when the octets one data-bearing scan
      needs in cycle `n` run past the buffer (or start before it), no tree
      is returned at all, whatever the other scans and cycles hold. */
  lemma UnreadableScanFails(buf: seq<byte>, n: nat, j: nat)
    requires DecodePreamble(buf).Success?
    requires var p := DecodePreamble(buf).value;
      && n < p.header.nCycles
      && j < |DataEntries(p.entries)|
      && !ScanFits(buf, DataEntries(p.entries)[j], n * p.header.cycleLength)
    ensures Process(buf).Failure?
    ensures Process(buf).error.Truncated?
  {
    if Process(buf).Success? {
      CycleAndScanCounts(buf);
      ScanAddressing(buf, n, j);
    }
    var p := DecodePreamble(buf).value;
    var anchor := FirstDataPosition(p.entries);
    FirstDataPositionIsFirstDataEntry(p.entries);
    var cycles := DecodeCycles(buf, p, anchor, 0);
    if cycles.Success? {
      assert DecodeCycle(buf, p, anchor, 0 + n) == Success(cycles.value[n]);
      CycleReadableOfSuccess(buf, p, n);
      assert false;
    }
    ProcessErrorSource(buf);
    DecodeCyclesFailure(buf, p, anchor, 0);
  }

  /** Everything cycle `n` reads lies in the buffer: there is a type-0x11
      entry, the time offset 6 and 2 octets before its shifted data position,
      and every data-bearing scan at that shift. */
  predicate CycleReadable(buf: seq<byte>, p: Preamble, n: nat)
  {
    var data := DataEntries(p.entries);
    var shift := n * p.header.cycleLength;
    && |data| > 0
    && 0 <= data[0].dataPosition + shift - 6 && data[0].dataPosition + shift <= |buf|
    && forall j :: 0 <= j < |data| ==> ScanFits(buf, data[j], shift)
  }

  lemma CycleSucceeds(buf: seq<byte>, p: Preamble, n: nat)
    requires CycleReadable(buf, p, n)
    ensures DecodeCycle(buf, p, FirstDataPosition(p.entries), n).Success?
  {
    FirstDataPositionIsFirstDataEntry(p.entries);
    var data := DataEntries(p.entries);
    var decode := ScanDecoder(buf, n * p.header.cycleLength);
    DecodeEachSucceeds(data, decode);
  }

  lemma CycleReadableOfSuccess(buf: seq<byte>, p: Preamble, n: nat)
    requires DecodeCycle(buf, p, FirstDataPosition(p.entries), n).Success?
    ensures CycleReadable(buf, p, n)
  {
    FirstDataPositionIsFirstDataEntry(p.entries);
  }

  /** A file parses exactly when its preamble decodes, every cycle's reads
      lie in the buffer and the measurement date exists. */
  lemma ProcessSucceeds(buf: seq<byte>)
    ensures Process(buf).Success? <==>
      && DecodePreamble(buf).Success?
      && (forall n: nat :: n < DecodePreamble(buf).value.header.nCycles ==> CycleReadable(buf, DecodePreamble(buf).value, n))
      && MeasureDateOf(DecodePreamble(buf).value.header).Success?
  {
    if DecodePreamble(buf).Success? {
      var p := DecodePreamble(buf).value;
      var anchor := FirstDataPosition(p.entries);
      var decode := CycleDecoder(buf, p, anchor);
      if forall n: nat :: n < p.header.nCycles ==> CycleReadable(buf, p, n) {
        forall n: nat | n < p.header.nCycles
          ensures decode(n).Success?
        {
          CycleSucceeds(buf, p, n);
        }
        DecodeRangeSucceeds(0, p.header.nCycles, decode);
      }
      if Process(buf).Success? {
        ProcessParts(buf);
        var cycles := Process(buf).value.cycles;
        forall n: nat | n < p.header.nCycles
          ensures CycleReadable(buf, p, n)
        {
          assert DecodeCycle(buf, p, anchor, 0 + n) == Success(cycles[n]);
          CycleReadableOfSuccess(buf, p, n);
        }
      }
    }
  }

  /** A parse that fails after the preamble reports either the error of the
      first cycle that fails, every cycle before it decoding, or, when every
      cycle decodes, an impossible measurement date. */
  lemma ProcessFailure(buf: seq<byte>)
    requires DecodePreamble(buf).Success? && Process(buf).Failure?
    ensures var p := DecodePreamble(buf).value;
      var anchor := FirstDataPosition(p.entries);
      || (exists n: nat :: && n < p.header.nCycles
                           && DecodeCycle(buf, p, anchor, n) == Failure(Process(buf).error)
                           && forall k: nat :: k < n ==> DecodeCycle(buf, p, anchor, k).Success?)
      || ((forall n: nat :: n < p.header.nCycles ==> DecodeCycle(buf, p, anchor, n).Success?)
          && Process(buf).error == InvalidDate)
  {
    var p := DecodePreamble(buf).value;
    var anchor := FirstDataPosition(p.entries);
    var cycles := DecodeCycles(buf, p, anchor, 0);
    ProcessErrorSource(buf);
    if cycles.Failure? {
      DecodeCyclesFailure(buf, p, anchor, 0);
    } else {
      forall n: nat | n < p.header.nCycles
        ensures DecodeCycle(buf, p, anchor, n).Success?
      {
        assert DecodeCycle(buf, p, anchor, 0 + n) == Success(cycles.value[n]);
      }
    }
  }

  /** After the preamble, a failure comes from the cycle loop or, when the
      loop completes, from the date. */
  lemma ProcessErrorSource(buf: seq<byte>)
    requires DecodePreamble(buf).Success? && Process(buf).Failure?
    ensures var p := DecodePreamble(buf).value;
      var cycles := DecodeCycles(buf, p, FirstDataPosition(p.entries), 0);
      Process(buf).error == if cycles.Failure? then cycles.error else InvalidDate
  {
  }

  /** Without a type-0x11 entry the first cycle has no timestamp anchor and
      the parse stops. */
  lemma NoDataScanFails(buf: seq<byte>)
    requires DecodePreamble(buf).Success?
    requires DecodePreamble(buf).value.header.nCycles > 0
    requires forall i :: 0 <= i < |DecodePreamble(buf).value.entries| ==>
      DecodePreamble(buf).value.entries[i].kind != DataScanType
    ensures Process(buf) == Failure(NoDataScan)
  {
    var p := DecodePreamble(buf).value;
    FirstDataPositionFound(p.entries);
    assert DecodeCycle(buf, p, None, 0) == Failure(NoDataScan);
  }

  /** With no cycles to decode nothing past the scan table is read: the
      parse succeeds with no cycles, with or without a type-0x11 entry,
      unless the measurement date is impossible. */
  lemma NoCyclesNoData(buf: seq<byte>)
    requires DecodePreamble(buf).Success?
    requires DecodePreamble(buf).value.header.nCycles <= 0
    ensures Process(buf).Success? <==> MeasureDateOf(DecodePreamble(buf).value.header).Success?
    ensures Process(buf).Success? ==> Process(buf).value.cycles == []
  {
  }

  /** The datapoint count stored at the start of a data block is never
      consulted: rewriting those four octets leaves the scan they head
      unchanged, unless they also belong to that scan's info record. */
  lemma DeclaredCountIgnored(buf: seq<byte>, buf': seq<byte>, entry: ScanEntry, cycleOffset: int)
    requires |buf| == |buf'|
    requires var pos := entry.dataPosition + cycleOffset;
      forall i :: 0 <= i < |buf| && !(pos <= i < pos + 4) ==> buf[i] == buf'[i]
    requires var pos := entry.dataPosition + cycleOffset;
      pos + 4 <= entry.infoPosition || entry.infoPosition + 0x89 <= pos
    ensures DecodeScan(buf, entry, cycleOffset) == DecodeScan(buf', entry, cycleOffset)
  {
    var pos := entry.dataPosition + cycleOffset;
    ScanInfoLocal(buf, buf', entry.infoPosition);
    var info := DecodeScanInfo(buf, entry.infoPosition);
    assert ReadI16(buf, pos + 4) == ReadI16(buf', pos + 4);
    if info.Success? {
      ReadF32sLocal(buf, buf', pos + 6, PointCount(info.value));
      SameReadsSameScan(buf, buf', entry, cycleOffset);
    }
  }

  /** The scan depends on the buffer only through its three reads. */
  lemma SameReadsSameScan(buf: seq<byte>, buf': seq<byte>, entry: ScanEntry, cycleOffset: int)
    requires DecodeScanInfo(buf, entry.infoPosition) == DecodeScanInfo(buf', entry.infoPosition)
    requires DecodeScanInfo(buf, entry.infoPosition).Success?
    requires var pos := entry.dataPosition + cycleOffset;
      var count := PointCount(DecodeScanInfo(buf, entry.infoPosition).value);
      && ReadI16(buf, pos + 4) == ReadI16(buf', pos + 4)
      && ReadF32s(buf, pos + 6, count) == ReadF32s(buf', pos + 6, count)
    ensures DecodeScan(buf, entry, cycleOffset) == DecodeScan(buf', entry, cycleOffset)
  {
    ScanOfItsReads(buf, entry, cycleOffset);
    ScanOfItsReads(buf', entry, cycleOffset);
  }

  /** Once the info decodes, the scan is built from the exponent read and
      the datapoint read. */
  lemma ScanOfItsReads(buf: seq<byte>, entry: ScanEntry, cycleOffset: int)
    requires DecodeScanInfo(buf, entry.infoPosition).Success?
    ensures var info := DecodeScanInfo(buf, entry.infoPosition).value;
      var pos := entry.dataPosition + cycleOffset;
      DecodeScan(buf, entry, cycleOffset)
        == ScanOfReads(info, ReadI16(buf, pos + 4), ReadF32s(buf, pos + 6, PointCount(info)))
  {
  }

  /** Scan-table entries of a type other than 0x11 contribute no scan and
      leave the other entries' scans unchanged, wherever they stand. */
  lemma NonDataEntriesIgnored(buf: seq<byte>, a: seq<ScanEntry>, e: ScanEntry, b: seq<ScanEntry>, cycleOffset: int)
    requires !IsData(e)
    ensures DecodeScans(buf, a + [e] + b, cycleOffset) == DecodeScans(buf, a + b, cycleOffset)
  {
    NonDataEntryIgnored(a, e, b);
  }

  /** A file with one cycle and a two-entry table, a type-0x0f entry and a
      type-0x11 entry whose info gives scan width 1 and 3 values per mass,
      whose data block and time offset lie in the buffer and whose date
      exists, parses to one cycle holding one scan of 3 datapoints and 3
      masses. */
  lemma MinimalFileExample(buf: seq<byte>)
    requires DecodePreamble(buf).Success?
    requires DecodePreamble(buf).value.header.nCycles == 1
    requires var entries := DecodePreamble(buf).value.entries;
      |entries| == 2 && entries[0].kind == 0x0f && entries[1].kind == 0x11
    requires var info := DecodeScanInfo(buf, DecodePreamble(buf).value.entries[1].infoPosition);
      info.Success? && info.value.scanWidth == 1 && info.value.valuesPerMass == 3
    requires var data := DecodePreamble(buf).value.entries[1];
      && ScanFits(buf, data, 0)
      && 0 <= data.dataPosition - 6 && data.dataPosition <= |buf|
    requires MeasureDateOf(DecodePreamble(buf).value.header).Success?
    ensures Process(buf).Success?
    ensures |Process(buf).value.cycles| == 1
    ensures |Process(buf).value.cycles[0].scans| == 1
    ensures |Process(buf).value.cycles[0].scans[0].values| == 3
    ensures |Process(buf).value.cycles[0].scans[0].masses| == 3
  {
    var p := DecodePreamble(buf).value;
    assert DataEntries(p.entries) == [p.entries[1]] by {
      assert p.entries[1..][1..] == [];
    }
    MinimalFileParses(buf);
    CycleAndScanCounts(buf);
    ScanAddressing(buf, 0, 0);
  }

  /** The file of `MinimalFileExample` parses: its one cycle is readable. */
  lemma MinimalFileParses(buf: seq<byte>)
    requires DecodePreamble(buf).Success?
    requires DecodePreamble(buf).value.header.nCycles == 1
    requires var entries := DecodePreamble(buf).value.entries;
      |entries| == 2 && entries[0].kind == 0x0f && entries[1].kind == 0x11
    requires var data := DecodePreamble(buf).value.entries[1];
      && ScanFits(buf, data, 0)
      && 0 <= data.dataPosition - 6 && data.dataPosition <= |buf|
    requires MeasureDateOf(DecodePreamble(buf).value.header).Success?
    ensures Process(buf).Success?
  {
    var p := DecodePreamble(buf).value;
    OneDataEntryReadable(buf, p);
    forall n: nat | n < p.header.nCycles
      ensures CycleReadable(buf, p, n)
    {
      assert n == 0;
    }
    ReadableCyclesParse(buf);
  }

  /** The "if" half of `ProcessSucceeds`. */
  lemma ReadableCyclesParse(buf: seq<byte>)
    requires DecodePreamble(buf).Success?
    requires forall n: nat :: n < DecodePreamble(buf).value.header.nCycles ==>
      CycleReadable(buf, DecodePreamble(buf).value, n)
    requires MeasureDateOf(DecodePreamble(buf).value.header).Success?
    ensures Process(buf).Success?
  {
    ProcessSucceeds(buf);
  }

  /** A table whose only type-0x11 entry is its second has cycle 0 readable
      when that entry's data block and time offset lie in the buffer. */
  lemma OneDataEntryReadable(buf: seq<byte>, p: Preamble)
    requires |p.entries| == 2 && p.entries[0].kind == 0x0f && p.entries[1].kind == 0x11
    requires ScanFits(buf, p.entries[1], 0)
    requires 0 <= p.entries[1].dataPosition - 6 && p.entries[1].dataPosition <= |buf|
    ensures CycleReadable(buf, p, 0)
  {
    assert DataEntries(p.entries) == [p.entries[1]] by {
      assert p.entries[1..][1..] == [];
    }
  }
}
